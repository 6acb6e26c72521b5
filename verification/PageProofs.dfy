/** Whole pages: what the remover keeps after every operation, and the page it produces. */
module PageProofs {
  import opened Occurrences
  import opened PdfContent
  import opened RemoverModel
  import opened RemoverProofs
  import opened SpliceProofs
  import opened BufferProofs

  /** The buffer is empty, or headed by the text operation that holds the first pending glyph. */
  predicate HeadBlocked(s: Remover) {
    s.cached == [] ||
    (s.cached[0].Show? && s.pending != [] &&
     s.processed <= s.pending[0].elementNumber < s.processed + |OpStrings(s.cached[0])|)
  }

  lemma MatchingSame(s: Remover, s': Remover, gs: seq<Glyph>)
    requires Matching(s, gs)
    requires s'.pending == s.pending && s'.toRemove == s.toRemove && s'.allMatches == s.allMatches
    ensures Matching(s', gs)
  {
  }

  lemma {:induction false} DrainKeeps(s: Remover, input: seq<Operation>, ahead: seq<seq<Byte>>)
    requires Invariant(s, input, ahead)
    ensures Invariant(Drain(s), input, ahead) && HeadBlocked(Drain(s))
    decreases |s.cached|
  {
    hide Matching, Emitted, Buffered, PageGlyphs, Done, Process, OpStrings;
    if s.cached != [] {
      ProcessStep(s, input, ahead);
      if Process(s).0 {
        var s' := DropHead(Process(s).1);
        MatchingSame(s, s', PageGlyphs(input, ahead));
        DrainKeeps(s', input, ahead);
      } else {
        RefusedIsShow(s);
      }
    }
  }

  lemma RefusedIsShow(s: Remover)
    requires s.cached != [] && !Process(s).0
    ensures s.cached[0].Show?
  {
  }

  lemma {:induction false} PageGlyphsWritten(input: seq<Operation>, op: Operation)
    ensures PageGlyphs(input + [op], []) == PageGlyphs(input, OpStrings(op))
    ensures PageStrings(input + [op]) + [] == PageStrings(input) + OpStrings(op)
  {
    hide Stream, OpStrings;
    PageStringsSnoc(input, op);
    assert PageStrings(input + [op]) + [] == PageStrings(input) + OpStrings(op);
  }

  lemma EnqueueKeeps(s: Remover, input: seq<Operation>, op: Operation)
    requires Invariant(s, input, OpStrings(op))
    ensures Invariant(s.(cached := s.cached + [op]), input + [op], [])
  {
    hide Matching, Emitted, PageGlyphs, PageStrings, OpStrings;
    var s' := s.(cached := s.cached + [op]);
    PageGlyphsWritten(input, op);
    assert Done(s', input + [op]) == Done(s, input);
    LastSnoc(input, op, |s.cached| + 1);
    MatchingSame(s, s', PageGlyphs(input, OpStrings(op)));
    EmittedSame(s, s', PageGlyphs(input, OpStrings(op)), Done(s, input));
  }

  lemma EmittedSame(s: Remover, s': Remover, gs: seq<Glyph>, done: seq<Operation>)
    requires Emitted(s, gs, done)
    requires s'.pending == s.pending && s'.toRemove == s.toRemove && s'.queue == s.queue && s'.output == s.output
    ensures Emitted(s', gs, done)
  {
  }

  /** Rendering and writing one operation keeps the invariant. */
  lemma PerformKeeps(s: Remover, input: seq<Operation>, op: Operation)
    requires Invariant(s, input, [])
    ensures Invariant(Perform(s, op), input + [op], []) && HeadBlocked(Perform(s, op))
  {
    hide Buffered, Matching, Emitted, RenderStrings, Drain, OpStrings;
    var s1 := RenderStrings(s, OpStrings(op));
    RenderStringsKeep(s, input, [], OpStrings(op));
    assert [] + OpStrings(op) == OpStrings(op);
    EnqueueKeeps(s1, input, op);
    DrainKeeps(s1.(cached := s1.cached + [op]), input + [op], []);
  }

  lemma {:induction false} RunKeeps(s: Remover, input: seq<Operation>, ops: seq<Operation>)
    requires Invariant(s, input, []) && HeadBlocked(s)
    ensures Invariant(Run(s, ops), input + ops, []) && HeadBlocked(Run(s, ops))
    decreases |ops|
  {
    hide Invariant, Perform, HeadBlocked;
    if ops == [] {
      assert input + ops == input;
    } else {
      PerformKeeps(s, input, ops[0]);
      InvariantIsReady(s, input, []);
      RunKeeps(Perform(s, ops[0]), input + [ops[0]], ops[1..]);
      assert (input + [ops[0]]) + ops[1..] == input + ops;
    }
  }

  lemma BeginKeeps(p: string)
    requires |p| > 0
    ensures Invariant(Begin(p, 0), [], []) && HeadBlocked(Begin(p, 0))
  {
  }

  /** The state after any number of operations of a page. */
  function Reached(p: string, ops: seq<Operation>): Remover
    requires |p| > 0
  {
    Run(Begin(p, 0), ops)
  }

  lemma ReachedKeeps(p: string, ops: seq<Operation>)
    requires |p| > 0
    ensures Invariant(Reached(p, ops), ops, []) && HeadBlocked(Reached(p, ops))
    ensures Reached(p, ops).toRemove == p
  {
    hide Invariant, Begin, Run, HeadBlocked;
    BeginKeeps(p);
    BeginPattern(p);
    RunKeeps(Begin(p, 0), [], ops);
    assert [] + ops == ops;
  }

  lemma BeginPattern(p: string)
    requires |p| > 0
    ensures Ready(Begin(p, 0)) && Begin(p, 0).toRemove == p
  {
  }

  /** The buffering invariant after each operation of any page. */
  lemma {:induction false} BufferingInvariant(p: string, ops: seq<Operation>)
    requires |p| > 0
    ensures var s := Reached(p, ops);
            && |s.cached| <= |ops| && s.cached == Last(ops, |s.cached|)
            && s.processed + |PageStrings(s.cached)| == s.elementNumber + 1 == |PageStrings(ops)|
            && HeadBlocked(s)
            && (forall g :: g in s.pending || g in s.queue ==> s.processed <= g.elementNumber)
  {
    hide Run, Begin, Stream, PageStrings, Matching, Marked, HeadBlocked;
    var s, gs := Reached(p, ops), PageGlyphs(ops, []);
    ReachedKeeps(p, ops);
    var done, c := Done(s, ops), |PageBytes(Done(s, ops))|;
    assert ops == done + s.cached;
    PageStringsConcat(done, s.cached);
    assert PageStrings(ops) + [] == PageStrings(ops);
    StreamConcat(PageStrings(done), PageStrings(s.cached), 0);
    PageBytesFlat(done);
    var later := Stream(PageStrings(s.cached), s.processed);
    assert gs[c..] == later && Last(gs, |s.pending|) == Last(later, |s.pending|);
    MarkedElements(later, Mask(TextOf(gs), p)[c..], s.processed);
  }

  /** Between operations the matcher is exact on everything rendered so far. */
  lemma MatcherIsExact(p: string, ops: seq<Operation>)
    requires |p| > 0
    ensures var s, t := Reached(p, ops), PageText(ops);
            && s.allMatches == MatchesIn(PageGlyphs(ops, []), p)
            && TextOf(PageGlyphs(ops, [])) == t
            && IsLongestPartial(t, p, Resume(t, p), |s.pending|)
            && TextOf(s.pending) == Last(t, |s.pending|)
  {
    hide Run, Begin, Stream, Buffered, Emitted, Resume, Greedy, MatchesIn, IsLongestPartial;
    ReachedKeeps(p, ops);
    PageTextIsStream(ops);
  }

  lemma PageTextIsStream(ops: seq<Operation>)
    ensures TextOf(PageGlyphs(ops, [])) == PageText(ops)
  {
    hide Stream;
    assert PageStrings(ops) + [] == PageStrings(ops);
    PageBytesFlat(ops);
  }

  // ----- the end of the page

  /** With no pending match nothing is refused, so flushing never drops an operation. */
  lemma {:induction false} FlushIsDrain(s: Remover)
    requires s.pending == []
    ensures Flush(s) == Drain(s) && Drain(s).cached == []
    decreases |s.cached|
  {
    if s.cached != [] {
      FlushIsDrain(DropHead(Process(s).1));
    }
  }

  lemma {:induction false} FlushKeeps(s: Remover, input: seq<Operation>)
    requires s.pending == [] && Buffered(s, input, []) && Emitted(s, PageGlyphs(input, []), Done(s, input))
    ensures Emitted(Flush(s), PageGlyphs(input, []), input) && Flush(s).cached == []
    ensures Flush(s).allMatches == s.allMatches && Flush(s).toRemove == s.toRemove
    decreases |s.cached|
  {
    hide Emitted, Process, PageGlyphs, OpStrings, PageStrings;
    if s.cached == [] {
      assert Done(s, input) == input;
    } else {
      ProcessStep(s, input, []);
      FlushKeeps(DropHead(Process(s).1), input);
    }
  }

  lemma FinalizeKeeps(s: Remover, input: seq<Operation>)
    requires Invariant(s, input, [])
    ensures Emitted(Finalize(s), PageGlyphs(input, []), input) && Finalize(s).cached == []
    ensures Finalize(s).allMatches == s.allMatches && Finalize(s).toRemove == s.toRemove
  {
    hide Matching, PageStrings, PageGlyphs, Flush, Marked, RewriteOps, Mask, TextOf, PageBytes;
    FlushKeeps(s.(pending := []), input);
  }

  /** End to end, for a fresh remover: every page comes out as its rewriting by the mask of the greedy
      occurrences in its whole text, the matches returned are those occurrences, and nothing stays
      buffered or queued. */
  lemma {:induction false} RemoveIsRewrite(p: string, ops: seq<Operation>)
    requires |p| > 0
    ensures var r, t := RemovePage(p, 0, ops), PageText(ops);
            && |Mask(t, p)| == |PageBytes(ops)|
            && r.output == RewriteOps(ops, Mask(t, p))
            && r.allMatches == MatchesIn(PageGlyphs(ops, []), p)
            && r.cached == [] && r.queue == []
  {
    hide Run, Begin, Stream, Mask, RewriteOps, Finalize, MatchesIn, Greedy, PageBytes, Matching;
    var s, t, f := Reached(p, ops), PageText(ops), Mask(PageText(ops), p);
    var r, gs := Finalize(s), PageGlyphs(ops, []);
    ReachedKeeps(p, ops);
    MatcherIsExact(p, ops);
    FinalizeKeeps(s, ops);
    EmittedOutput(r, gs, ops);
    assert |f| == |t| == |PageBytes(ops)| && f[..|f|] == f;
    assert gs[|gs|..] == [];
  }

  function PageMask(ops: seq<Operation>, p: string): (f: seq<bool>)
    requires |p| > 0
    ensures |f| == |PageBytes(ops)|
  {
    Mask(PageText(ops), p)
  }
}
