/** What a remover that is used for several pages does: the counter it carries over, and what that spoils. */
module ReuseProofs {
  import opened Occurrences
  import opened PdfContent
  import opened RemoverModel
  import opened RemoverProofs
  import opened BufferProofs
  import opened PageProofs

  // ----- the counter a page leaves behind

  /** The strings written so far and those still buffered. */
  function Total(s: Remover): nat {
    s.processed + |PageStrings(s.cached)|
  }

  lemma {:induction false} RenderKeepsBuffer(s: Remover, ss: seq<seq<Byte>>)
    requires Ready(s)
    ensures var r := RenderStrings(s, ss);
            && r.cached == s.cached && r.processed == s.processed && r.output == s.output
            && (s.allMatches == [] || r.allMatches != [])
            && (s.queue == [] && r.allMatches == [] ==> r.queue == [])
    decreases |ss|
  {
    hide RenderGlyphs, StringGlyphs;
    if ss != [] {
      var s1 := s.(elementNumber := s.elementNumber + 1);
      GlyphsMatch(s1, StringGlyphs(ss[0], s.elementNumber + 1));
      RenderKeepsBuffer(RenderText(s, ss[0]), ss[1..]);
    }
  }

  /** A glyph is queued only as part of a match. */
  lemma {:induction false} GlyphsMatch(s: Remover, gs: seq<Glyph>)
    requires Ready(s)
    ensures var r := RenderGlyphs(s, gs);
            && r.cached == s.cached && r.processed == s.processed && r.output == s.output
            && (s.allMatches == [] || r.allMatches != [])
            && (s.queue == [] && r.allMatches == [] ==> r.queue == [])
    decreases |gs|
  {
    hide Reduce;
    if gs != [] {
      GlyphsMatch(RenderGlyph(s, gs[0]), gs[1..]);
    }
  }

  lemma {:induction false} PageStringsCons(ops: seq<Operation>)
    requires ops != []
    ensures PageStrings(ops) == OpStrings(ops[0]) + PageStrings(ops[1..])
  {
  }

  lemma ProcessCounts(s: Remover)
    requires s.cached != [] && Process(s).0
    ensures Total(DropHead(Process(s).1)) == Total(s)
  {
    hide OpStrings, SpliceElements, PageStrings, Elements, SideEffects, TJOf;
    PageStringsCons(s.cached);
    if !s.cached[0].Show? {
      NotShown(s.cached[0]);
    }
  }

  lemma NotShown(op: Operation)
    requires !op.Show?
    ensures OpStrings(op) == []
  {
  }

  lemma {:induction false} DrainCounts(s: Remover)
    ensures Total(Drain(s)) == Total(s)
    decreases |s.cached|
  {
    hide Total, Process;
    if s.cached != [] && Process(s).0 {
      ProcessCounts(s);
      DrainCounts(DropHead(Process(s).1));
    }
  }

  lemma PerformCounts(s: Remover, op: Operation)
    requires Ready(s)
    ensures Total(Perform(s, op)) == Total(s) + |OpStrings(op)|
  {
    hide RenderStrings, Drain, OpStrings, PageStrings;
    var r := RenderStrings(s, OpStrings(op));
    RenderKeepsBuffer(s, OpStrings(op));
    DrainCounts(r.(cached := r.cached + [op]));
    PageStringsSnoc(s.cached, op);
  }

  lemma {:induction false} RunCounts(s: Remover, ops: seq<Operation>)
    requires Ready(s)
    ensures Total(Run(s, ops)) == Total(s) + |PageStrings(ops)|
    decreases |ops|
  {
    hide Total, Perform, OpStrings;
    if ops != [] {
      PerformCounts(s, ops[0]);
      RunCounts(Perform(s, ops[0]), ops[1..]);
    }
  }

  /** Every page adds the number of its strings to the counter. */
  lemma {:induction false} RemoveCounts(p: string, processed: nat, ops: seq<Operation>)
    requires |p| > 0
    ensures RemovePage(p, processed, ops).processed == processed + |PageStrings(ops)|
  {
    hide Run, Drain, Flush, PageStrings;
    var s := Run(Begin(p, processed), ops);
    RunCounts(Begin(p, processed), ops);
    NoStrings();
    FlushIsDrain(s.(pending := []));
    DrainCounts(s.(pending := []));
  }

  lemma NoStrings()
    ensures PageStrings([]) == []
  {
  }

  // ----- what it spoils

  /** Every page comes out right when `p` is removed, from this counter on. */
  ghost predicate RightAfter(p: string, processed: nat)
    requires |p| > 0
  {
    forall ops :: RemovePage(p, processed, ops).output == RewriteOps(ops, PageMask(ops, p))
  }

  /** The counter is not reset between pages. For every string, a remover that is used again produces the right
      page, whatever the page, exactly if the counter is 0. */
  lemma ReuseIsRightIff(p: string, processed: nat)
    requires |p| > 0
    ensures RightAfter(p, processed) <==> processed == 0
  {
    hide RemovePage, RewriteOps, PageMask;
    if processed == 0 {
      forall ops ensures RemovePage(p, 0, ops).output == RewriteOps(ops, PageMask(ops, p)) {
        FreshIsRight(p, ops);
      }
    } else {
      ReuseGoesWrong(p, processed);
    }
  }

  lemma {:induction false} FreshIsRight(p: string, ops: seq<Operation>)
    requires |p| > 0
    ensures RemovePage(p, 0, ops).output == RewriteOps(ops, PageMask(ops, p))
  {
    hide RemovePage, RewriteOps;
    RemoveIsRewrite(p, ops);
  }

  /** For every string to remove, every further page comes out right exactly if the first page of a fresh remover
      held no string at all. */
  lemma {:induction false} SecondPageIsRightIff(p: string, first: seq<Operation>, q: string)
    requires |p| > 0 && |q| > 0
    ensures RightAfter(q, RemovePage(p, 0, first).processed) <==> PageStrings(first) == []
  {
    hide RemovePage, RightAfter, PageStrings;
    RemoveCounts(p, 0, first);
    ReuseIsRightIff(q, RemovePage(p, 0, first).processed);
  }

  /** A byte that is not the first of the string. */
  function Stray(p: string): Byte
    requires |p| > 0
  {
    Byte(if p[0] == 'a' then 'b' else 'a', 1.0)
  }

  function Spelled(p: string): seq<Byte> {
    seq(|p|, i requires 0 <= i < |p| => Byte(p[i], 1.0))
  }

  /** A page that shows a stray byte, and then the string. */
  function StrayPage(p: string): seq<Operation>
    requires |p| > 0
  {
    [Show(TJ, Array([Str([Stray(p)]), Str(Spelled(p))]))]
  }

  /** From any counter above 0, the stray byte is removed from that page. */
  lemma ReuseGoesWrong(p: string, processed: nat)
    requires |p| > 0 && processed > 0
    ensures var out := RemovePage(p, processed, StrayPage(p)).output;
            && |out| == 1 && out[0].Show?
            && Elements(out[0].argument) != [] && Elements(out[0].argument)[0] == Num(-1.0)
    ensures RemovePage(p, processed, StrayPage(p)).output != RewriteOps(StrayPage(p), PageMask(StrayPage(p), p))
  {
    hide RenderStrings, SpliceElements, RewriteOps, PageMask;
    var s, op := Begin(p, processed), StrayPage(p)[0];
    StrayStrings(p);
    StrayRendered(p);
    RenderApart(Begin(p, 0), processed, OpStrings(op));
    var r := RenderStrings(s, OpStrings(op)).(cached := [op]);
    RenderKeepsBuffer(s, OpStrings(op));
    StraySplice(p, processed, r.queue);
    assert [] + [op] == [op] && [op][1..] == [];
    var w := Process(r).1;
    assert Process(r).0 && Drain(r) == Drain(DropHead(w)) == DropHead(w);
    assert StrayPage(p)[1..] == [] && Run(s, StrayPage(p)) == DropHead(w);
    assert Finalize(DropHead(w)).output == w.output;
    RightKeepsStray(p);
  }

  lemma StrayStrings(p: string)
    requires |p| > 0
    ensures OpStrings(StrayPage(p)[0]) == [[Stray(p)], Spelled(p)]
    ensures PageBytes(StrayPage(p)) == [Stray(p)] + Spelled(p)
    ensures PageText(StrayPage(p)) == [Stray(p).code] + p
  {
    hide Stray, Spelled;
    var op := StrayPage(p)[0];
    var es := Elements(op.argument);
    assert es[1..] == [Str(Spelled(p))] && es[1..][1..] == [];
    assert Strings(es[1..]) == [Spelled(p)] + Strings([]);
    assert BytesOf(es[1..]) == Spelled(p) + BytesOf([]);
    assert BytesOf(es) == [Stray(p)] + BytesOf(es[1..]);
    assert PageBytes(StrayPage(p)) == BytesOf(es) + PageBytes([]);
    StrayCodes(p);
  }

  lemma StrayCodes(p: string)
    requires |p| > 0
    ensures Codes([Stray(p)] + Spelled(p)) == [Stray(p).code] + p
  {
  }

  /** The string occurs once, after the stray character. */
  lemma {:induction false} StrayOccurrence(x: char, p: string)
    requires |p| > 0 && x != p[0]
    ensures Greedy([x] + p, p, 0) == [1] && Resume([x] + p, p) == 1 + |p|
    ensures Mask([x] + p, p) == [false] + Repeat(true, |p|)
  {
    hide MaskFrom, Repeat;
    var t := [x] + p;
    assert t[0..|p|][0] == x && t[1..1 + |p|] == p;
    GreedyUnfold(t, p, 0);
    GreedyUnfold(t, p, 1);
    MaskUnfold(t, p, 0);
    MaskUnfold(t, p, 1);
    MaskUnfold(t, p, 1 + |p|);
    assert Greedy(t, p, 1 + |p|) == [];
    assert Repeat(true, |p|) + Repeat(false, 0) == Repeat(true, |p|);
  }

  /** After rendering, the string's glyphs are queued, and nothing is pending. */
  lemma StrayRendered(p: string)
    requires |p| > 0
    ensures var r := RenderStrings(Begin(p, 0), [[Stray(p)], Spelled(p)]);
            && r.pending == [] && r.queue != []
            && r.queue[0].elementNumber == 1 && r.queue[0].index == 0 && r.queue[0].byte.width == 1.0
  {
    hide RenderStrings, Greedy, Mask, Marked, Invariant, PageGlyphs, TextOf, Stray, Spelled, Resume;
    var ss := [[Stray(p)], Spelled(p)];
    BeginKeeps(p);
    BeginPattern(p);
    RenderStringsKeep(Begin(p, 0), [], [], ss);
    assert [] + ss == ss;
    StrayGlyphs(p);
    StrayDiffers(p);
    StrayOccurrence(Stray(p).code, p);
    RenderedOnly(RenderStrings(Begin(p, 0), ss), ss);
    MarkedAfterFirst(PageGlyphs([], ss), |p|);
  }

  /** Before anything is written, the queue holds all marked glyphs. */
  lemma {:induction false} RenderedOnly(s: Remover, ahead: seq<seq<Byte>>)
    requires Invariant(s, [], ahead)
    ensures var gs := PageGlyphs([], ahead);
            && |s.toRemove| > 0 && s.queue == Marked(gs, Mask(TextOf(gs), s.toRemove))
            && Resume(TextOf(gs), s.toRemove) + |s.pending| <= |gs|
  {
    hide Greedy, Mask, Marked, Resume, PageGlyphs;
    var gs := PageGlyphs([], ahead);
    assert Done(s, []) == [];
    assert gs[0..] == gs && Mask(TextOf(gs), s.toRemove)[0..] == Mask(TextOf(gs), s.toRemove);
  }

  lemma StrayGlyphs(p: string)
    requires |p| > 0
    ensures var gs := PageGlyphs([], [[Stray(p)], Spelled(p)]);
            TextOf(gs) == [Stray(p).code] + p && |gs| == 1 + |p| && gs[1] == Glyph(Byte(p[0], 1.0), 1, 0)
  {
    hide Stray;
    var ss := [[Stray(p)], Spelled(p)];
    assert PageStrings([]) + ss == ss && ss[1..] == [Spelled(p)] && ss[1..][1..] == [];
    assert Stream(ss[1..], 1) == StringGlyphs(Spelled(p), 1) + [];
    assert Stream(ss, 0) == StringGlyphs([Stray(p)], 0) + Stream(ss[1..], 1);
  }

  lemma {:induction false} MarkedAfterFirst(gs: seq<Glyph>, m: nat)
    requires |gs| == 1 + m
    ensures Marked(gs, [false] + Repeat(true, m)) == gs[1..]
  {
    hide Marked;
    var f := [false] + Repeat(true, m);
    MarkedStep(gs, f);
    assert f[1..] == Repeat(true, m);
    MarkedUniform(gs[1..], f[1..]);
  }

  lemma {:induction false} RenderApart(s: Remover, processed: nat, ss: seq<seq<Byte>>)
    requires Ready(s)
    ensures RenderStrings(s.(processed := processed), ss) == RenderStrings(s, ss).(processed := processed)
    decreases |ss|
  {
    hide RenderGlyphs, StringGlyphs;
    if ss != [] {
      var n := s.elementNumber + 1;
      GlyphsApart(s.(elementNumber := n), processed, StringGlyphs(ss[0], n));
      RenderApart(RenderText(s, ss[0]), processed, ss[1..]);
    }
  }

  lemma {:induction false} GlyphsApart(s: Remover, processed: nat, gs: seq<Glyph>)
    requires Ready(s)
    ensures RenderGlyphs(s.(processed := processed), gs) == RenderGlyphs(s, gs).(processed := processed)
    decreases |gs|
  {
    hide Reduce;
    if gs != [] {
      GlyphsApart(RenderGlyph(s, gs[0]), processed, gs[1..]);
    }
  }

  /** With a counter above 0, the first queued glyph is taken for one of the first string. */
  lemma {:induction false} StraySplice(p: string, k: nat, q: seq<Glyph>)
    requires |p| > 0 && k > 0
    requires q != [] && q[0].elementNumber == 1 && q[0].index == 0 && q[0].byte.width == 1.0
    ensures var es := SpliceElements(Elements(StrayPage(p)[0].argument), k, q).0;
            es != [] && es[0] == Num(-1.0)
  {
    hide Stray, Spelled;
    var first := SpliceString([Stray(p)], 0, k, q).0;
    assert first[0] == Num(-1.0);
    var es := Elements(StrayPage(p)[0].argument);
    assert es[0] == Str([Stray(p)]);
    assert SpliceElements(es, k, q).0[0] == first[0];
  }

  /** The right page begins with the stray byte. */
  lemma RightKeepsStray(p: string)
    requires |p| > 0
    ensures var out := RewriteOps(StrayPage(p), PageMask(StrayPage(p), p));
            |out| >= 1 && out[0].Show? && Elements(out[0].argument) != [] && Elements(out[0].argument)[0].Str?
  {
    hide Stray, Spelled, Mask;
    var page := StrayPage(p);
    var es, f := Elements(page[0].argument), PageMask(page, p);
    StrayStrings(p);
    StrayDiffers(p);
    StrayOccurrence(Stray(p).code, p);
    assert !f[0] && true in f by {
      assert f[1] == Repeat(true, |p|)[0];
    }
    assert OpBytes(page[0]) == BytesOf(es) && PageBytes(page) == OpBytes(page[0]) + [];
    var g := f[..|BytesOf(es)|];
    assert g == f;
    assert RewriteString([Stray(p)], g[..1])[0].Str?;
    assert RewriteElements(es, g)[0].Str?;
    assert RewriteOps(page, f)[0] == RewriteOp(page[0], g)[0];
  }

  lemma StrayDiffers(p: string)
    requires |p| > 0
    ensures Stray(p).code != p[0]
  {
  }

  // ----- what the counter does not spoil

  predicate SameMatcher(s: Remover, t: Remover) {
    && s.toRemove == t.toRemove && s.elementNumber == t.elementNumber
    && s.pending == t.pending && s.allMatches == t.allMatches
  }

  lemma {:induction false} SameGlyphs(s: Remover, t: Remover, gs: seq<Glyph>)
    requires Ready(s) && Ready(t) && SameMatcher(s, t)
    ensures SameMatcher(RenderGlyphs(s, gs), RenderGlyphs(t, gs))
    decreases |gs|
  {
    hide Reduce;
    if gs != [] {
      SameGlyphs(RenderGlyph(s, gs[0]), RenderGlyph(t, gs[0]), gs[1..]);
    }
  }

  lemma {:induction false} SameStrings(s: Remover, t: Remover, ss: seq<seq<Byte>>)
    requires Ready(s) && Ready(t) && SameMatcher(s, t)
    ensures SameMatcher(RenderStrings(s, ss), RenderStrings(t, ss))
    decreases |ss|
  {
    hide RenderGlyphs, StringGlyphs;
    if ss != [] {
      var n := s.elementNumber + 1;
      SameGlyphs(s.(elementNumber := n), t.(elementNumber := n), StringGlyphs(ss[0], n));
      SameStrings(RenderText(s, ss[0]), RenderText(t, ss[0]), ss[1..]);
    }
  }

  lemma {:induction false} DrainSame(s: Remover)
    ensures SameMatcher(Drain(s), s)
    decreases |s.cached|
  {
    hide ProcessShow;
    if s.cached != [] && Process(s).0 {
      DrainSame(DropHead(Process(s).1));
    }
  }

  lemma PerformSame(s: Remover, t: Remover, op: Operation)
    requires Ready(s) && Ready(t) && SameMatcher(s, t)
    ensures SameMatcher(Perform(s, op), Perform(t, op))
  {
    hide RenderStrings, Drain;
    var ss := OpStrings(op);
    SameStrings(s, t, ss);
    DrainSame(RenderStrings(s, ss).(cached := RenderStrings(s, ss).cached + [op]));
    DrainSame(RenderStrings(t, ss).(cached := RenderStrings(t, ss).cached + [op]));
  }

  lemma {:induction false} RunSame(s: Remover, t: Remover, ops: seq<Operation>)
    requires Ready(s) && Ready(t) && SameMatcher(s, t)
    ensures SameMatcher(Run(s, ops), Run(t, ops))
    decreases |ops|
  {
    hide Perform;
    if ops != [] {
      PerformSame(s, t, ops[0]);
      RunSame(Perform(s, ops[0]), Perform(t, ops[0]), ops[1..]);
    }
  }

  /** The matches returned are the occurrences on the page, whatever the counter. */
  lemma MatchesAreRightAnyway(p: string, processed: nat, ops: seq<Operation>)
    requires |p| > 0
    ensures RemovePage(p, processed, ops).allMatches == MatchesIn(PageGlyphs(ops, []), p)
  {
    hide Run, Drain, Flush, MatchesIn, PageGlyphs;
    var s, t := Run(Begin(p, processed), ops), Run(Begin(p, 0), ops);
    RunSame(Begin(p, processed), Begin(p, 0), ops);
    FlushIsDrain(s.(pending := []));
    DrainSame(s.(pending := []));
    MatcherIsExact(p, ops);
  }

  /** Nothing is queued, and everything is written as it was given. */
  predicate Copying(s: Remover, input: seq<Operation>) {
    s.queue == [] && s.output + s.cached == input
  }

  lemma {:induction false} DrainCopies(s: Remover, input: seq<Operation>)
    requires Copying(s, input)
    ensures Copying(Drain(s), input)
    decreases |s.cached|
  {
    hide OpStrings, SpliceElements;
    if s.cached != [] && Process(s).0 {
      var s' := DropHead(Process(s).1);
      assert s.output + s.cached == (s.output + [s.cached[0]]) + s.cached[1..];
      DrainCopies(s', input);
    }
  }

  lemma PerformCopies(s: Remover, input: seq<Operation>, op: Operation)
    requires Ready(s) && (s.allMatches == [] ==> Copying(s, input))
    ensures s.allMatches == [] || Perform(s, op).allMatches != []
    ensures Perform(s, op).allMatches == [] ==> Copying(Perform(s, op), input + [op])
  {
    hide RenderStrings, Drain;
    var r := RenderStrings(s, OpStrings(op));
    RenderKeepsBuffer(s, OpStrings(op));
    DrainSame(r.(cached := r.cached + [op]));
    if r.allMatches == [] {
      assert r.output + (r.cached + [op]) == (s.output + s.cached) + [op];
      DrainCopies(r.(cached := r.cached + [op]), input + [op]);
    }
  }

  lemma {:induction false} RunCopies(s: Remover, input: seq<Operation>, ops: seq<Operation>)
    requires Ready(s) && (s.allMatches == [] ==> Copying(s, input))
    ensures s.allMatches == [] || Run(s, ops).allMatches != []
    ensures Run(s, ops).allMatches == [] ==> Copying(Run(s, ops), input + ops)
    decreases |ops|
  {
    hide Perform, Copying;
    if ops == [] {
      assert input + ops == input;
    } else {
      PerformCopies(s, input, ops[0]);
      RunCopies(Perform(s, ops[0]), input + [ops[0]], ops[1..]);
      assert (input + [ops[0]]) + ops[1..] == input + ops;
    }
  }

  /** A page without an occurrence is copied unchanged, whatever the counter. */
  lemma {:induction false} NoOccurrenceNoChange(p: string, processed: nat, ops: seq<Operation>)
    requires |p| > 0 && Greedy(PageText(ops), p, 0) == []
    ensures RemovePage(p, processed, ops).output == ops
  {
    hide Run, Drain, Flush, PageGlyphs, Greedy;
    var s := Run(Begin(p, processed), ops);
    MatchesAreRightAnyway(p, processed, ops);
    PageTextIsStream(ops);
    RunCopies(Begin(p, processed), [], ops);
    FlushIsDrain(s.(pending := []));
    DrainSame(s.(pending := []));
    assert [] + ops == ops;
    DrainCopies(s.(pending := []), ops);
    var r := RemovePage(p, processed, ops);
    assert r.output + [] == r.output;
  }

  /** An operation without strings is copied as it is, whatever the counter, unless it has to wait. */
  lemma NoStringsCopied(s: Remover, op: Operation)
    requires op.Show? && OpStrings(op) == []
    ensures ProcessShow(s, op).0 <==> s.pending == [] || s.processed <= s.pending[0].elementNumber
    ensures ProcessShow(s, op).0 ==> ProcessShow(s, op).1 == s.(output := s.output + [op])
  {
  }
}
