/** The buffering invariant of the text remover: what rendering a glyph and trying to write an operation keep. */
module BufferProofs {
  import opened Occurrences
  import opened PdfContent
  import opened RemoverModel
  import opened RemoverProofs
  import opened SpliceProofs

  /** The operations `done` are written, rewritten by the mask of the glyphs `gs` seen so far; the
      queue holds the marked glyphs after them; no glyph of the pending match is in them. */
  ghost predicate Emitted(s: Remover, gs: seq<Glyph>, done: seq<Operation>) {
    var c, p := |PageBytes(done)|, s.toRemove;
    && |p| > 0
    && c + |s.pending| <= |gs| && s.pending == Last(gs, |s.pending|)
    && s.queue == Marked(gs[c..], Mask(TextOf(gs), p)[c..])
    && s.output == RewriteOps(done, Mask(TextOf(gs), p)[..c])
  }

  /** The part of `input` that has left the buffer. */
  function Done(s: Remover, input: seq<Operation>): seq<Operation>
    requires |s.cached| <= |input|
  {
    input[..|input| - |s.cached|]
  }

  /** `input` is what was given to `write`; the strings `ahead` are rendered but not yet written. */
  function PageGlyphs(input: seq<Operation>, ahead: seq<seq<Byte>>): seq<Glyph> {
    Stream(PageStrings(input) + ahead, 0)
  }

  ghost predicate Buffered(s: Remover, input: seq<Operation>, ahead: seq<seq<Byte>>) {
    && |s.cached| <= |input| && s.cached == Last(input, |s.cached|)
    && s.processed == |PageStrings(Done(s, input))|
    && s.elementNumber + 1 == |PageStrings(input) + ahead|
  }

  ghost predicate Invariant(s: Remover, input: seq<Operation>, ahead: seq<seq<Byte>>) {
    && Ready(s)
    && Buffered(s, input, ahead)
    && Matching(s, PageGlyphs(input, ahead))
    && Emitted(s, PageGlyphs(input, ahead), Done(s, input))
  }

  // ----- rendering a glyph

  lemma {:induction false} MarkedSnoc(gs: seq<Glyph>, f: seq<bool>, g: Glyph)
    requires |gs| == |f|
    ensures Marked(gs + [g], f + [false]) == Marked(gs, f)
  {
    MarkedConcat(gs, [g], f, [false]);
    MarkedUniform([g], [false]);
    assert Marked(gs, f) + [] == Marked(gs, f);
  }

  lemma {:induction false} MarkedMatch(gs: seq<Glyph>, f: seq<bool>, g: Glyph, m: nat)
    requires |gs| == |f| && 0 < m <= |gs| + 1
    requires forall n :: |gs| + 1 - m <= n < |f| ==> !f[n]
    ensures Marked(gs + [g], f[..|gs| + 1 - m] + Repeat(true, m)) == Marked(gs, f) + Last(gs + [g], m)
  {
    hide *;
    var x := |gs| + 1 - m;
    var early, found := Marked(gs[..x], f[..x]), Last(gs + [g], m);
    assert Marked(gs, f) == early by {
      MarkedSplit(gs, f, x);
      MarkedUniform(gs[x..], f[x..]);
      assert early + [] == early;
    }
    assert gs + [g] == gs[..x] + found by {
      LastIsDrop(gs + [g], m);
      assert (gs + [g])[..x] == gs[..x];
    }
    MarkedConcat(gs[..x], found, f[..x], Repeat(true, m));
    MarkedUniform(found, Repeat(true, m));
  }

  lemma LastIsDrop<T>(s: seq<T>, m: nat)
    requires m <= |s|
    ensures s == s[..|s| - m] + Last(s, m)
  {
  }

  lemma {:induction false} MarkedSplit(gs: seq<Glyph>, f: seq<bool>, x: nat)
    requires x <= |gs| == |f|
    ensures Marked(gs, f) == Marked(gs[..x], f[..x]) + Marked(gs[x..], f[x..])
  {
    hide Marked;
    assert gs == gs[..x] + gs[x..] && f == f[..x] + f[x..];
    MarkedConcat(gs[..x], gs[x..], f[..x], f[x..]);
  }

  lemma EmittedStep(s: Remover, gs: seq<Glyph>, done: seq<Operation>, g: Glyph)
    requires Ready(s) && Matching(s, gs) && Emitted(s, gs, done)
    ensures Emitted(RenderGlyph(s, g), gs + [g], done)
  {
    hide Greedy, Mask, MaskFrom, MatchesIn, Completes, TextOf, Resume, Marked, RewriteOps, PageBytes;
    var p, x, c := s.toRemove, Extended(s, g), |PageBytes(done)|;
    var t, u := TextOf(gs), TextOf(gs + [g]);
    var f, f' := Mask(t, p), Mask(u, p);
    TextOfSnoc(gs, g);
    ExtendedIsSuffix(s, gs, g);
    ExtendedIsLongest(s, gs, g);
    LongestCompletes(u, p, Resume(t, p), |x|);
    assert (gs + [g])[c..] == gs[c..] + [g];
    if |x| == |p| {
      MaskSnocMatch(t, g.byte.code, p);
      MaskTail(t, p);
      MarkedMatch(gs[c..], f[c..], g, |p|);
      assert f'[c..] == f[c..][..|gs| - c + 1 - |p|] + Repeat(true, |p|) && f'[..c] == f[..c];
      assert Last(gs[c..] + [g], |p|) == x;
    } else {
      MaskSnocNone(t, g.byte.code, p);
      MarkedSnoc(gs[c..], f[c..], g);
      assert f'[c..] == f[c..] + [false] && f'[..c] == f[..c];
    }
  }

  lemma {:induction false} RenderGlyphsKeep(s: Remover, gs: seq<Glyph>, done: seq<Operation>, more: seq<Glyph>)
    requires Ready(s) && Matching(s, gs) && Emitted(s, gs, done)
    ensures Matching(RenderGlyphs(s, more), gs + more) && Emitted(RenderGlyphs(s, more), gs + more, done)
    decreases |more|
  {
    hide Matching, Emitted, RenderGlyph;
    if more == [] {
      assert gs + more == gs;
    } else {
      MatcherStep(s, gs, more[0]);
      EmittedStep(s, gs, done, more[0]);
      RenderGlyphsKeep(RenderGlyph(s, more[0]), gs + [more[0]], done, more[1..]);
      assert (gs + [more[0]]) + more[1..] == gs + more;
    }
  }

  /** Rendering one string keeps the invariant: its glyphs join the stream. */
  lemma RenderTextKeeps(s: Remover, input: seq<Operation>, ahead: seq<seq<Byte>>, bs: seq<Byte>)
    requires Invariant(s, input, ahead)
    ensures Invariant(RenderText(s, bs), input, ahead + [bs])
  {
    hide Matching, Emitted, RenderGlyphs, Stream, PageStrings;
    var k, gs := s.elementNumber + 1, PageGlyphs(input, ahead);
    var more := StringGlyphs(bs, k);
    assert PageGlyphs(input, ahead + [bs]) == gs + more by {
      Assoc(PageStrings(input), ahead, [bs]);
      StreamConcat(PageStrings(input) + ahead, [bs], 0);
      StreamSingle(bs, k);
    }
    var s1 := s.(elementNumber := k);
    SameButNumber(s, s1, gs, Done(s, input));
    RenderGlyphsKeep(s1, gs, Done(s, input), more);
    assert |PageStrings(input) + (ahead + [bs])| == |PageStrings(input) + ahead| + 1;
  }

  lemma {:induction false} StreamSingle(bs: seq<Byte>, k: int)
    ensures Stream([bs], k) == StringGlyphs(bs, k)
  {
  }

  lemma SameButNumber(s: Remover, s1: Remover, gs: seq<Glyph>, done: seq<Operation>)
    requires Matching(s, gs) && Emitted(s, gs, done) && s1 == s.(elementNumber := s1.elementNumber)
    ensures Matching(s1, gs) && Emitted(s1, gs, done)
  {
  }

  lemma InvariantIsReady(s: Remover, input: seq<Operation>, ahead: seq<seq<Byte>>)
    requires Invariant(s, input, ahead)
    ensures Ready(s)
  {
  }

  lemma {:induction false} RenderStringsKeep(s: Remover, input: seq<Operation>, ahead: seq<seq<Byte>>,
      ss: seq<seq<Byte>>)
    requires Invariant(s, input, ahead)
    ensures Ready(s) && Invariant(RenderStrings(s, ss), input, ahead + ss)
    decreases |ss|
  {
    hide Invariant, RenderText;
    InvariantIsReady(s, input, ahead);
    if ss == [] {
      assert ahead + ss == ahead;
    } else {
      RenderTextKeeps(s, input, ahead, ss[0]);
      RenderStringsKeep(RenderText(s, ss[0]), input, ahead + [ss[0]], ss[1..]);
      Assoc(ahead, [ss[0]], ss[1..]);
      assert [ss[0]] + ss[1..] == ss;
    }
  }

  // ----- processing a buffered operation

  /** The glyphs of the page around the operation at the head of the buffer. */
  lemma {:induction false} SplitPage(done: seq<Operation>, op: Operation, rest: seq<Operation>, ahead: seq<seq<Byte>>)
    ensures var k := |PageStrings(done)|;
            var n := |OpStrings(op)|;
            PageGlyphs(done + ([op] + rest), ahead) ==
              Stream(PageStrings(done), 0) + (Stream(OpStrings(op), k) + Stream(PageStrings(rest) + ahead, k + n))
  {
    hide Stream, OpStrings;
    var a, b, c := PageStrings(done), OpStrings(op), PageStrings(rest) + ahead;
    PageStringsConcat(done, [op] + rest);
    assert ([op] + rest)[1..] == rest;
    Assoc(b, PageStrings(rest), ahead);
    Assoc(a, b + PageStrings(rest), ahead);
    StreamConcat(a, b + c, 0);
    StreamConcat(b, c, |a|);
  }

  lemma DoneNext(s: Remover, input: seq<Operation>)
    requires s.cached != [] && |s.cached| <= |input| && s.cached == Last(input, |s.cached|)
    ensures input == Done(s, input) + ([s.cached[0]] + s.cached[1..])
    ensures Done(DropHead(s), input) == Done(s, input) + [s.cached[0]]
    ensures DropHead(s).cached == Last(input, |s.cached| - 1)
  {
  }

  /** `Emitted`, with the stream cut at the written part: `s1` are the glyphs of the operation at
      the head of the buffer, `s2` the later ones. */
  lemma {:induction false} EmittedCut(s: Remover, done: seq<Operation>, op: Operation, s0: seq<Glyph>, s1: seq<Glyph>,
      s2: seq<Glyph>)
    requires |s0| == |PageBytes(done)| && |s1| == |OpBytes(op)|
    requires Emitted(s, s0 + (s1 + s2), done)
    ensures var f := Mask(TextOf(s0 + (s1 + s2)), s.toRemove);
            && |f| == |s0| + |s1| + |s2|
            && s.queue == Marked(s1, f[|s0|..][..|s1|]) + Marked(s2, f[|s0|..][|s1|..])
            && |s.pending| <= |s1| + |s2| && s.pending == Last(s1 + s2, |s.pending|)
  {
    hide PageBytes, OpBytes, Mask, Marked, RewriteOps;
    var gs := s0 + (s1 + s2);
    var f := Mask(TextOf(gs), s.toRemove);
    assert gs[|s0|..] == s1 + s2;
    assert (s1 + s2)[..|s1|] == s1 && (s1 + s2)[|s1|..] == s2;
    MarkedSplit(s1 + s2, f[|s0|..], |s1|);
    assert Last(gs, |s.pending|) == Last(s1 + s2, |s.pending|);
  }

  lemma {:induction false} EmittedJoin(s: Remover, done: seq<Operation>, op: Operation, out: seq<Operation>,
      s0: seq<Glyph>, s1: seq<Glyph>, s2: seq<Glyph>, f0: seq<bool>, f1: seq<bool>, f2: seq<bool>)
    requires |s0| == |PageBytes(done)| == |f0| && |s1| == |OpBytes(op)| == |f1| && |s2| == |f2| && |s.toRemove| > 0
    requires Mask(TextOf(s0 + (s1 + s2)), s.toRemove) == f0 + (f1 + f2)
    requires s.queue == Marked(s2, f2)
    requires |s.pending| <= |s2| && s.pending == Last(s1 + s2, |s.pending|)
    requires out == RewriteOps(done, f0) && s.output == out + RewriteOp(op, f1)
    ensures Emitted(s, s0 + (s1 + s2), done + [op])
  {
    hide *;
    RewriteSnoc(done, op, f0, f1);
    ThreeParts(s0, s1, s2);
    ThreeParts(f0, f1, f2);
    LastOfTail(s0, s1 + s2, |s.pending|);
    EmittedOf(s, s0 + (s1 + s2), done + [op], s2, f0 + f1, f2);
  }

  lemma {:induction false} EmittedOf(s: Remover, gs: seq<Glyph>, done: seq<Operation>, later: seq<Glyph>,
      f: seq<bool>, g: seq<bool>)
    requires |s.toRemove| > 0 && Mask(TextOf(gs), s.toRemove) == f + g
    requires |f| == |PageBytes(done)| && |f| + |s.pending| <= |gs| == |f| + |g| && s.pending == Last(gs, |s.pending|)
    requires gs[|f|..] == later && s.queue == Marked(later, g) && s.output == RewriteOps(done, f)
    ensures Emitted(s, gs, done)
  {
  }

  lemma ThreeParts<T>(a: seq<T>, b: seq<T>, c: seq<T>)
    ensures (a + (b + c))[|a| + |b|..] == c && a + (b + c) == (a + b) + c
  {
  }

  lemma LastOfTail<T>(a: seq<T>, b: seq<T>, j: nat)
    requires j <= |b|
    ensures Last(a + b, j) == Last(b, j)
  {
  }

  /** A pending match that begins inside the operation at the head refuses it; otherwise it lies
      in later glyphs. */
  lemma PendingAhead(s: Remover, s1: seq<Glyph>, s2: seq<Glyph>, k: int, n: nat)
    requires |s.pending| <= |s1| + |s2| && s.pending == Last(s1 + s2, |s.pending|)
    requires forall i :: 0 <= i < |s1| ==> k <= s1[i].elementNumber < k + n
    requires forall i :: 0 <= i < |s2| ==> k + n <= s2[i].elementNumber
    ensures |s.pending| <= |s2| <==> (s.pending == [] || k + n <= s.pending[0].elementNumber)
    ensures s.pending != [] ==> k <= s.pending[0].elementNumber
  {
  }

  /** Processing the head of the buffer either writes its rewriting or is refused because a pending
      match begins inside it. */
  lemma ProcessStep(s: Remover, input: seq<Operation>, ahead: seq<seq<Byte>>)
    requires s.cached != [] && Buffered(s, input, ahead) && Emitted(s, PageGlyphs(input, ahead), Done(s, input))
    ensures var (ok, s') := Process(s);
            if ok then
              && Buffered(DropHead(s'), input, ahead)
              && Emitted(DropHead(s'), PageGlyphs(input, ahead), Done(DropHead(s'), input))
            else
              && s.pending != []
              && s.processed <= s.pending[0].elementNumber < s.processed + |OpStrings(s.cached[0])|
  {
    hide PageStrings, PageBytes, OpBytes, OpStrings, Stream, Marked, Mask, RewriteOp, RewriteOps, ProcessShow, Emitted;
    var op, done, rest := s.cached[0], Done(s, input), s.cached[1..];
    var k, n := s.processed, |OpStrings(op)|;
    var s0, s1, s2 := Stream(PageStrings(done), 0), Stream(OpStrings(op), k), Stream(PageStrings(rest) + ahead, k + n);
    DoneNext(s, input);
    SplitPage(done, op, rest, ahead);
    EmittedOutput(s, s0 + (s1 + s2), done);
    var f := Mask(TextOf(s0 + (s1 + s2)), s.toRemove);
    PageBytesFlat(done);
    OpBytesAreStrings(op);
    EmittedCut(s, done, op, s0, s1, s2);
    PendingAhead(s, s1, s2, k, n);
    var s' := Process(s).1;
    ProcessHead(s, s1, s2, f[|s0|..]);
    if Process(s).0 {
      var f' := f[|s0|..];
      assert f == f[..|s0|] + (f'[..|s1|] + f'[|s1|..]);
      EmittedJoin(DropHead(s'), done, op, s.output, s0, s1, s2, f[..|s0|], f'[..|s1|], f'[|s1|..]);
      PageStringsSnoc(done, op);
    }
  }

  lemma {:induction false} PageStringsSnoc(done: seq<Operation>, op: Operation)
    ensures PageStrings(done + [op]) == PageStrings(done) + OpStrings(op)
  {
    PageStringsConcat(done, [op]);
    assert PageStrings([op]) == OpStrings(op) + PageStrings([]);
  }

  lemma {:induction false} EmittedOutput(s: Remover, gs: seq<Glyph>, done: seq<Operation>)
    requires Emitted(s, gs, done)
    ensures |s.toRemove| > 0 && |PageBytes(done)| <= |gs|
    ensures s.output == RewriteOps(done, Mask(TextOf(gs), s.toRemove)[..|PageBytes(done)|])
  {
  }

  lemma {:induction false} ProcessHead(s: Remover, s1: seq<Glyph>, s2: seq<Glyph>, f: seq<bool>)
    requires s.cached != []
    requires s1 == Stream(OpStrings(s.cached[0]), s.processed) && |f| == |s1| + |s2|
    requires forall i :: 0 <= i < |s2| ==> s.processed + |OpStrings(s.cached[0])| <= s2[i].elementNumber
    requires s.queue == Marked(s1, f[..|s1|]) + Marked(s2, f[|s1|..])
    requires |s1| == |OpBytes(s.cached[0])|
    ensures Process(s).0 <==>
              s.pending == [] || !s.cached[0].Show? ||
              s.processed + |OpStrings(s.cached[0])| <= s.pending[0].elementNumber
    ensures Process(s).0 ==>
              Process(s).1 == s.(queue := Marked(s2, f[|s1|..]), processed := s.processed + |OpStrings(s.cached[0])|,
                                 output := s.output + RewriteOp(s.cached[0], f[..|s1|]))
  {
    hide Marked, Stream, OpBytes, SpliceElements;
    var op := s.cached[0];
    MarkedElements(s2, f[|s1|..], s.processed + |OpStrings(op)|);
    if op.Show? {
      if ProcessShow(s, op).0 {
        ProcessShowIsRewrite(s, op, f[..|s1|], Marked(s2, f[|s1|..]));
      }
    } else {
      OpBytesAreStrings(op);
      MarkedUniform(s1, f[..|s1|]);
      assert [] + Marked(s2, f[|s1|..]) == Marked(s2, f[|s1|..]);
    }
  }
}
