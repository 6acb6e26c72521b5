/** Consuming the queue of matched glyphs while an operation is rewritten produces exactly the
    rewriting of its marked glyphs, and leaves exactly the later ones queued. */
module SpliceProofs {
  import opened PdfContent
  import opened RemoverModel

  lemma {:induction false} RewriteUnmarked(bs: seq<Byte>, f: seq<bool>)
    requires |bs| == |f| > 0 && LeadingFalse(f) == |f|
    ensures RewriteString(bs, f) == [Str(bs)]
  {
    assert bs[..|f|] == bs && bs[|f|..] == [];
    assert RewriteString(bs, f) == [Str(bs)] + RewriteString(bs[|f|..], f[|f|..]);
  }

  lemma {:induction false} SpliceUnfold(bs: seq<Byte>, index: nat, k: nat, g: Glyph, q: seq<Glyph>)
    requires index < |bs| && g.elementNumber == k && index <= g.index < |bs|
    ensures index < g.index ==>
              var (es, q') := SpliceString(bs, g.index, k, [g] + q);
              SpliceString(bs, index, k, [g] + q) == ([Str(bs[index..g.index])] + es, q')
    ensures index == g.index ==>
              var (es, q') := SpliceString(bs, index + 1, k, q);
              SpliceString(bs, index, k, [g] + q) == ([Num(-g.byte.width)] + es, q')
  {
  }

  lemma {:induction false} SpliceStringIsRewrite(bs: seq<Byte>, index: nat, k: nat, f: seq<bool>, q: seq<Glyph>)
    requires |f| == |bs| && index <= |bs|
    requires q == [] || k < q[0].elementNumber
    ensures SpliceString(bs, index, k, Marked(StringGlyphs(bs, k)[index..], f[index..]) + q) ==
            (RewriteString(bs[index..], f[index..]), q)
    decreases |bs| - index
  {
    hide SpliceString, RewriteString, Marked;
    var gs, fs := StringGlyphs(bs, k)[index..], f[index..];
    var n := LeadingFalse(fs);
    MarkedHead(gs, fs);
    if index == |bs| || n == |fs| {
      SpliceNothing(bs, index, k, fs, q);
      assert Marked(gs, fs) + q == q;
    } else {
      var m := Marked(gs[n + 1..], fs[n + 1..]);
      var step := if n > 0 then n else 1;
      SpliceStringIsRewrite(bs, index + step, k, f, q);
      DropDrop(StringGlyphs(bs, k), index, step);
      DropDrop(f, index, step);
      DropDrop(bs, index, step);
      Assoc([gs[n]], m, q);
      SpliceUnfold(bs, index, k, gs[n], m + q);
      RewriteUnfold(bs[index..], fs);
      assert bs[index..][..n] == bs[index..index + n];
    }
  }

  lemma {:induction false} SpliceNothing(bs: seq<Byte>, index: nat, k: nat, fs: seq<bool>, q: seq<Glyph>)
    requires index <= |bs| && |fs| == |bs| - index && LeadingFalse(fs) == |fs|
    requires q == [] || k < q[0].elementNumber
    ensures SpliceString(bs, index, k, q) == (RewriteString(bs[index..], fs), q)
  {
    if index < |bs| {
      RewriteUnmarked(bs[index..], fs);
    }
  }

  lemma {:induction false} MarkedElements(gs: seq<Glyph>, f: seq<bool>, k: int)
    requires |gs| == |f|
    requires forall i :: 0 <= i < |gs| ==> k <= gs[i].elementNumber
    ensures forall i :: 0 <= i < |Marked(gs, f)| ==> k <= Marked(gs, f)[i].elementNumber
  {
    if gs != [] {
      MarkedElements(gs[1..], f[1..], k);
    }
  }

  lemma {:induction false} SpliceElementsIsRewrite(es: seq<Element>, k: nat, f: seq<bool>, q: seq<Glyph>)
    requires |f| == |BytesOf(es)|
    requires q == [] || k + |Strings(es)| <= q[0].elementNumber
    ensures SpliceElements(es, k, Marked(Stream(Strings(es), k), f) + q) == (RewriteElements(es, f), q)
  {
    hide Marked, RewriteString, SpliceString, BytesOf;
    if es == [] {
      MarkedUniform([], []);
      assert Marked(Stream(Strings(es), k), f) + q == q;
    } else if es[0].Num? {
      assert Strings(es) == Strings(es[1..]);
      SpliceElementsIsRewrite(es[1..], k, f, q);
    } else {
      var bs, ss := es[0].bytes, Strings(es[1..]);
      assert Strings(es) == [bs] + ss && Flatten(Strings(es)) == bs + Flatten(ss);
      var f1, f2 := f[..|bs|], f[|bs|..];
      var m2 := Marked(Stream(ss, k + 1), f2);
      SpliceElementsIsRewrite(es[1..], k + 1, f2, q);
      MarkedElements(Stream(ss, k + 1), f2, k + 1);
      SpliceStringIsRewrite(bs, 0, k, f1, m2 + q);
      assert StringGlyphs(bs, k)[0..] == StringGlyphs(bs, k) && f1[0..] == f1 && bs[0..] == bs;
      assert Stream(Strings(es), k) == StringGlyphs(bs, k) + Stream(ss, k + 1);
      MarkedConcat(StringGlyphs(bs, k), Stream(ss, k + 1), f1, f2);
      assert f == f1 + f2;
      Assoc(Marked(StringGlyphs(bs, k), f1), m2, q);
    }
  }

  lemma {:induction false} MarkedNonEmpty(gs: seq<Glyph>, f: seq<bool>)
    requires |gs| == |f|
    ensures Marked(gs, f) == [] <==> true !in f
  {
    MarkedUniform(gs, f);
    MarkedHead(gs, f);
    if true in f {
      var i :| 0 <= i < |f| && f[i];
      assert LeadingFalse(f) <= i;
    }
  }

  lemma {:induction false} RewriteStringShows(bs: seq<Byte>, f: seq<bool>)
    requires |bs| == |f| && bs != []
    ensures RewriteString(bs, f) != []
  {
  }

  /** An operation with a marked glyph is never replaced by an empty TJ, which would be dropped. */
  lemma {:induction false} RewriteElementsShows(es: seq<Element>, f: seq<bool>)
    requires |f| == |BytesOf(es)| && f != []
    ensures RewriteElements(es, f) != []
  {
    if es != [] && es[0].Str? {
      if es[0].bytes == [] {
        assert f[0..] == f;
        RewriteElementsShows(es[1..], f);
      } else {
        RewriteStringShows(es[0].bytes, f[..|es[0].bytes|]);
      }
    }
  }

  lemma OpBytesAreStrings(op: Operation)
    ensures OpBytes(op) == Flatten(OpStrings(op))
  {
  }

  /** Writing the first buffered text operation, when the queue holds the marked glyphs of its
      strings (`f1`) followed by those of later strings (`later`). */
  lemma {:induction false} ProcessShowIsRewrite(s: Remover, op: Operation, f1: seq<bool>, later: seq<Glyph>)
    requires op.Show? && |f1| == |OpBytes(op)|
    requires s.queue == Marked(Stream(OpStrings(op), s.processed), f1) + later
    requires later == [] || s.processed + |OpStrings(op)| <= later[0].elementNumber
    requires ProcessShow(s, op).0
    ensures ProcessShow(s, op).1 ==
            s.(queue := later, processed := s.processed + |OpStrings(op)|, output := s.output + RewriteOp(op, f1))
  {
    hide Marked, SpliceElements, RewriteElements, Stream, Strings, BytesOf;
    var ss := OpStrings(op);
    var gs := Stream(ss, s.processed);
    OpBytesAreStrings(op);
    MarkedNonEmpty(gs, f1);
    if true in f1 {
      MarkedElementsBelow(gs, f1, s.processed + |ss|);
      assert s.queue[0] == Marked(gs, f1)[0];
      SpliceElementsIsRewrite(Elements(op.argument), s.processed, f1, later);
      RewriteElementsShows(Elements(op.argument), f1);
      Assoc(s.output, SideEffects(op.kind), TJOf(RewriteElements(Elements(op.argument), f1)));
    } else {
      assert s.queue == later;
    }
  }

  lemma {:induction false} MarkedElementsBelow(gs: seq<Glyph>, f: seq<bool>, k: int)
    requires |gs| == |f|
    requires forall i :: 0 <= i < |gs| ==> gs[i].elementNumber < k
    ensures forall i :: 0 <= i < |Marked(gs, f)| ==> Marked(gs, f)[i].elementNumber < k
  {
    if gs != [] {
      MarkedElementsBelow(gs[1..], f[1..], k);
    }
  }
}
