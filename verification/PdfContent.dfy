/** Page content as the text remover sees it: operations with string and number operands,
    the glyphs their strings show, and the rewritten content in which marked glyphs are gone. */
module PdfContent {

  /** One byte of a string: the character it shows and its width in the font in effect there,
      in thousandths of text space. */
  datatype Byte = Byte(code: char, width: real)

  datatype Element = Str(bytes: seq<Byte>) | Num(value: real)

  datatype Argument = Single(element: Element) | Array(elements: seq<Element>)

  datatype ShowKind = Tj | TJ | Quote | DoubleQuote(wordSpacing: real, charSpacing: real)

  datatype Operation =
    | Show(kind: ShowKind, argument: Argument)
    | SetWordSpacing(w: real)
    | SetCharSpacing(c: real)
    | NextLine
    | Other(id: int)

  /** A shown glyph, with the overall number of the string it is in and its index there. */
  datatype Glyph = Glyph(byte: Byte, elementNumber: int, index: nat)

  function Flatten<T>(ss: seq<seq<T>>): seq<T> {
    if ss == [] then [] else ss[0] + Flatten(ss[1..])
  }

  function Elements(a: Argument): seq<Element> {
    match a
    case Single(e) => [e]
    case Array(es) => es
  }

  function Strings(es: seq<Element>): seq<seq<Byte>> {
    if es == [] then []
    else (if es[0].Str? then [es[0].bytes] else []) + Strings(es[1..])
  }

  function OpStrings(op: Operation): seq<seq<Byte>> {
    if op.Show? then Strings(Elements(op.argument)) else []
  }

  function PageStrings(ops: seq<Operation>): seq<seq<Byte>> {
    if ops == [] then [] else OpStrings(ops[0]) + PageStrings(ops[1..])
  }

  function BytesOf(es: seq<Element>): (r: seq<Byte>)
    ensures r == Flatten(Strings(es))
  {
    if es == [] then []
    else if es[0].Str? then
      assert Strings(es)[1..] == Strings(es[1..]);
      es[0].bytes + BytesOf(es[1..])
    else
      assert Strings(es) == Strings(es[1..]);
      BytesOf(es[1..])
  }

  function OpBytes(op: Operation): seq<Byte> {
    if op.Show? then BytesOf(Elements(op.argument)) else []
  }

  function PageBytes(ops: seq<Operation>): seq<Byte> {
    if ops == [] then [] else OpBytes(ops[0]) + PageBytes(ops[1..])
  }

  function Codes(bs: seq<Byte>): (r: string)
    ensures |r| == |bs|
  {
    seq(|bs|, i requires 0 <= i < |bs| => bs[i].code)
  }

  /** The text a page shows: one character per byte, in content order. */
  function PageText(ops: seq<Operation>): string {
    Codes(PageBytes(ops))
  }

  // ----- the glyph stream

  function StringGlyphs(bs: seq<Byte>, k: int): (r: seq<Glyph>)
    ensures |r| == |bs|
  {
    seq(|bs|, i requires 0 <= i < |bs| => Glyph(bs[i], k, i))
  }

  /** The glyphs of consecutive strings, the first of which has number `k`. */
  function Stream(ss: seq<seq<Byte>>, k: int): (r: seq<Glyph>)
    ensures |r| == |Flatten(ss)|
    ensures forall i :: 0 <= i < |r| ==> k <= r[i].elementNumber < k + |ss| && r[i].byte == Flatten(ss)[i]
  {
    if ss == [] then [] else StringGlyphs(ss[0], k) + Stream(ss[1..], k + 1)
  }

  function TextOf(gs: seq<Glyph>): (r: string)
    ensures |r| == |gs|
  {
    seq(|gs|, i requires 0 <= i < |gs| => gs[i].byte.code)
  }

  /** The glyphs at the marked positions, in order. */
  function Marked(gs: seq<Glyph>, f: seq<bool>): seq<Glyph>
    requires |gs| == |f|
  {
    if gs == [] then [] else (if f[0] then [gs[0]] else []) + Marked(gs[1..], f[1..])
  }

  // ----- rewriting: marked glyphs become position adjustments

  function LeadingFalse(f: seq<bool>): (n: nat)
    ensures n <= |f| && (n < |f| ==> f[n])
    ensures forall i :: 0 <= i < n ==> !f[i]
  {
    if f == [] || f[0] then 0 else 1 + LeadingFalse(f[1..])
  }

  /** Each maximal unmarked run of a string stays a string; each marked byte becomes the number
      that moves the text position by the glyph's width. */
  function RewriteString(bs: seq<Byte>, f: seq<bool>): seq<Element>
    requires |bs| == |f|
  {
    if bs == [] then []
    else if f[0] then [Num(-bs[0].width)] + RewriteString(bs[1..], f[1..])
    else
      var n := LeadingFalse(f);
      [Str(bs[..n])] + RewriteString(bs[n..], f[n..])
  }

  function RewriteElements(es: seq<Element>, f: seq<bool>): seq<Element>
    requires |f| == |BytesOf(es)|
  {
    if es == [] then []
    else if es[0].Str? then
      var n := |es[0].bytes|;
      RewriteString(es[0].bytes, f[..n]) + RewriteElements(es[1..], f[n..])
    else [es[0]] + RewriteElements(es[1..], f)
  }

  /** What `'` and `"` do besides showing their string. */
  function SideEffects(kind: ShowKind): seq<Operation> {
    match kind
    case Tj => []
    case TJ => []
    case Quote => [NextLine]
    case DoubleQuote(w, c) => [SetWordSpacing(w), SetCharSpacing(c), NextLine]
  }

  /** An operation without marked glyphs is kept verbatim; any other becomes its side effects
      followed by one TJ. */
  function RewriteOp(op: Operation, f: seq<bool>): seq<Operation>
    requires |f| == |OpBytes(op)|
  {
    if op.Show? && true in f
    then SideEffects(op.kind) + [Show(TJ, Array(RewriteElements(Elements(op.argument), f)))]
    else [op]
  }

  function RewriteOps(ops: seq<Operation>, f: seq<bool>): seq<Operation>
    requires |f| == |PageBytes(ops)|
  {
    if ops == [] then []
    else
      var n := |OpBytes(ops[0])|;
      RewriteOp(ops[0], f[..n]) + RewriteOps(ops[1..], f[n..])
  }

  lemma {:induction false} RewriteUnfold(bs: seq<Byte>, f: seq<bool>)
    requires |bs| == |f| > 0
    ensures var n := LeadingFalse(f);
            if n > 0 then RewriteString(bs, f) == [Str(bs[..n])] + RewriteString(bs[n..], f[n..])
            else RewriteString(bs, f) == [Num(-bs[0].width)] + RewriteString(bs[1..], f[1..])
  {
  }

  // ----- list algebra

  lemma Assoc<T>(a: seq<T>, b: seq<T>, c: seq<T>)
    ensures (a + b) + c == a + (b + c)
  {
  }

  lemma TailOfConcat<T>(a: seq<T>, b: seq<T>)
    requires a != []
    ensures (a + b)[0] == a[0] && (a + b)[1..] == a[1..] + b
  {
  }

  lemma {:induction false} FlattenConcat<T>(a: seq<seq<T>>, b: seq<seq<T>>)
    ensures Flatten(a + b) == Flatten(a) + Flatten(b)
  {
    if a == [] {
      assert a + b == b;
    } else {
      TailOfConcat(a, b);
      FlattenConcat(a[1..], b);
      Assoc(a[0], Flatten(a[1..]), Flatten(b));
    }
  }

  lemma {:induction false} StreamConcat(a: seq<seq<Byte>>, b: seq<seq<Byte>>, k: int)
    ensures Stream(a + b, k) == Stream(a, k) + Stream(b, k + |a|)
  {
    if a == [] {
      assert a + b == b;
    } else {
      TailOfConcat(a, b);
      StreamConcat(a[1..], b, k + 1);
      Assoc(StringGlyphs(a[0], k), Stream(a[1..], k + 1), Stream(b, k + |a|));
    }
  }

  lemma {:induction false} PageStringsConcat(a: seq<Operation>, b: seq<Operation>)
    ensures PageStrings(a + b) == PageStrings(a) + PageStrings(b)
  {
    if a == [] {
      assert a + b == b;
    } else {
      TailOfConcat(a, b);
      PageStringsConcat(a[1..], b);
      Assoc(OpStrings(a[0]), PageStrings(a[1..]), PageStrings(b));
    }
  }

  lemma {:induction false} PageBytesConcat(a: seq<Operation>, b: seq<Operation>)
    ensures PageBytes(a + b) == PageBytes(a) + PageBytes(b)
  {
    if a == [] {
      assert a + b == b;
    } else {
      TailOfConcat(a, b);
      PageBytesConcat(a[1..], b);
      Assoc(OpBytes(a[0]), PageBytes(a[1..]), PageBytes(b));
    }
  }

  lemma {:induction false} PageBytesFlat(ops: seq<Operation>)
    ensures PageBytes(ops) == Flatten(PageStrings(ops))
  {
    if ops != [] {
      PageBytesFlat(ops[1..]);
      FlattenConcat(OpStrings(ops[0]), PageStrings(ops[1..]));
    }
  }

  lemma {:induction false} MarkedConcat(a: seq<Glyph>, b: seq<Glyph>, f: seq<bool>, g: seq<bool>)
    requires |a| == |f| && |b| == |g|
    ensures Marked(a + b, f + g) == Marked(a, f) + Marked(b, g)
  {
    if a == [] {
      assert a + b == b && f + g == g;
    } else {
      assert (a + b)[1..] == a[1..] + b && (f + g)[1..] == f[1..] + g;
      MarkedConcat(a[1..], b, f[1..], g);
      assert (a + b)[0] == a[0] && (f + g)[0] == f[0];
    }
  }

  lemma {:induction false} MarkedUniform(gs: seq<Glyph>, f: seq<bool>)
    requires |gs| == |f|
    ensures true !in f ==> Marked(gs, f) == []
    ensures false !in f ==> Marked(gs, f) == gs
  {
    if gs != [] {
      MarkedUniform(gs[1..], f[1..]);
    }
  }

  lemma DropDrop<T>(s: seq<T>, i: nat, j: nat)
    requires i + j <= |s|
    ensures s[i..][j..] == s[i + j..]
  {
  }

  lemma {:induction false} MarkedStep(gs: seq<Glyph>, f: seq<bool>)
    requires |gs| == |f| > 0
    ensures Marked(gs, f) == if f[0] then [gs[0]] + Marked(gs[1..], f[1..]) else Marked(gs[1..], f[1..])
    ensures LeadingFalse(f) == if f[0] then 0 else 1 + LeadingFalse(f[1..])
  {
  }

  /** The first marked glyph is the one after the leading unmarked ones. */
  lemma {:induction false} MarkedHead(gs: seq<Glyph>, f: seq<bool>)
    requires |gs| == |f|
    ensures var n := LeadingFalse(f);
            if n < |f| then Marked(gs, f) == [gs[n]] + Marked(gs[n + 1..], f[n + 1..]) else Marked(gs, f) == []
    ensures Marked(gs[LeadingFalse(f)..], f[LeadingFalse(f)..]) == Marked(gs, f)
  {
    if gs != [] {
      hide Marked, LeadingFalse;
      MarkedStep(gs, f);
      if f[0] {
        assert gs[0..] == gs && f[0..] == f;
      } else {
        MarkedHead(gs[1..], f[1..]);
        var n := LeadingFalse(f[1..]);
        DropDrop(gs, 1, n);
        DropDrop(f, 1, n);
        if n < |f[1..]| {
          DropDrop(gs, 1, n + 1);
          DropDrop(f, 1, n + 1);
        }
      }
    }
  }

  lemma {:induction false} RewriteSingle(op: Operation, g: seq<bool>)
    requires |g| == |OpBytes(op)|
    ensures PageBytes([op]) == OpBytes(op)
    ensures RewriteOps([op], g) == RewriteOp(op, g)
  {
    hide RewriteOp, OpBytes;
    assert OpBytes(op) + [] == OpBytes(op) && g[..|g|] == g;
    assert RewriteOps([op], g) == RewriteOp(op, g[..|g|]) + [];
  }

  lemma {:induction false} RewriteSnoc(ops: seq<Operation>, op: Operation, f: seq<bool>, g: seq<bool>)
    requires |f| == |PageBytes(ops)| && |g| == |OpBytes(op)|
    ensures |f + g| == |PageBytes(ops + [op])|
    ensures RewriteOps(ops + [op], f + g) == RewriteOps(ops, f) + RewriteOp(op, g)
  {
    hide RewriteOp, OpBytes;
    PageBytesConcat(ops, [op]);
    RewriteSingle(op, g);
    if ops == [] {
      assert ops + [op] == [op] && f + g == g;
    } else {
      var n := |OpBytes(ops[0])|;
      TailOfConcat(ops, [op]);
      assert (f + g)[..n] == f[..n] && (f + g)[n..] == f[n..] + g;
      RewriteSnoc(ops[1..], op, f[n..], g);
      Assoc(RewriteOp(ops[0], f[..n]), RewriteOps(ops[1..], f[n..]), RewriteOp(op, g));
    }
  }
}
