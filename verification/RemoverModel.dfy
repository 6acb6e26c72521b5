/** The streaming text remover as a state machine on values: an online matcher that runs ahead
    of a queue of buffered operations. The class in SimpleTextRemover.dfy refines it. */
module RemoverModel {
  import opened Occurrences
  import opened PdfContent

  /** `queue` is the concatenation of the lists of matched glyphs still to be written. */
  datatype Remover = Remover(
    toRemove: string,
    cached: seq<Operation>,
    elementNumber: int,
    processed: nat,
    pending: seq<Glyph>,
    queue: seq<Glyph>,
    allMatches: seq<seq<Glyph>>,
    output: seq<Operation>)

  /** Before each glyph the pending match is a proper part of the string to remove. */
  predicate Ready(s: Remover) {
    |s.pending| < |s.toRemove|
  }

  // ----- the online matcher

  predicate Spells(gs: seq<Glyph>, p: string) {
    |gs| <= |p| && forall i :: 0 <= i < |gs| ==> gs[i].byte.code == p[i]
  }

  function Reduce(gs: seq<Glyph>, p: string): (r: seq<Glyph>)
    requires gs != []
    ensures |r| < |gs| && Spells(r, p)
  {
    if Spells(gs[1..], p) then gs[1..] else Reduce(gs[1..], p)
  }

  function RenderGlyph(s: Remover, g: Glyph): (r: Remover)
    requires Ready(s)
    ensures Ready(r) && r.toRemove == s.toRemove
    ensures r.cached == s.cached && r.processed == s.processed
    ensures r.elementNumber == s.elementNumber && r.output == s.output
  {
    var pending := s.pending + [g];
    var pending' := if s.toRemove[|s.pending|] == g.byte.code then pending else Reduce(pending, s.toRemove);
    if |pending'| == |s.toRemove|
    then s.(pending := [], queue := s.queue + pending', allMatches := s.allMatches + [pending'])
    else s.(pending := pending')
  }

  function RenderGlyphs(s: Remover, gs: seq<Glyph>): (r: Remover)
    requires Ready(s)
    ensures Ready(r) && r.toRemove == s.toRemove
    ensures r.cached == s.cached && r.processed == s.processed
    ensures r.elementNumber == s.elementNumber && r.output == s.output
    decreases |gs|
  {
    if gs == [] then s else RenderGlyphs(RenderGlyph(s, gs[0]), gs[1..])
  }

  function RenderText(s: Remover, bs: seq<Byte>): (r: Remover)
    requires Ready(s)
    ensures Ready(r) && r.toRemove == s.toRemove
  {
    RenderGlyphs(s.(elementNumber := s.elementNumber + 1), StringGlyphs(bs, s.elementNumber + 1))
  }

  function RenderStrings(s: Remover, ss: seq<seq<Byte>>): (r: Remover)
    requires Ready(s)
    ensures Ready(r) && r.toRemove == s.toRemove
    decreases |ss|
  {
    if ss == [] then s else RenderStrings(RenderText(s, ss[0]), ss[1..])
  }

  // ----- writing the buffered operations

  const NUL := Byte('\0', 0.0)

  /** `Arrays.copyOfRange`: a range that ends past the array is padded. */
  function CopyOfRange(bs: seq<Byte>, from: nat, to: nat): seq<Byte>
    requires from <= |bs| && from <= to
  {
    if to <= |bs| then bs[from..to] else bs[from..] + Repeat(NUL, to - |bs|)
  }

  /** The bytes of the range, and zeros past the end. */
  lemma CopyOfRangeAt(bs: seq<Byte>, from: nat, to: nat)
    requires from <= |bs| && from <= to
    ensures |CopyOfRange(bs, from, to)| == to - from
    ensures forall i :: 0 <= i < to - from ==>
              CopyOfRange(bs, from, to)[i] == if from + i < |bs| then bs[from + i] else NUL
  {
  }

  /** One string of a text-showing operation, from `index` on, with the glyphs to remove in `q`;
      returns the elements that replace it and the glyphs left to remove. */
  function SpliceString(bs: seq<Byte>, index: nat, k: nat, q: seq<Glyph>): (seq<Element>, seq<Glyph>)
    decreases |bs| - index
  {
    if index >= |bs| then ([], q)
    else if q == [] || k < q[0].elementNumber then ([Str(bs[index..])], q)
    else if index < q[0].index then
      var (es, q') := SpliceString(bs, q[0].index, k, q);
      ([Str(CopyOfRange(bs, index, q[0].index))] + es, q')
    else
      var (es, q') := SpliceString(bs, index + 1, k, q[1..]);
      ([Num(-q[0].byte.width)] + es, q')
  }

  function SpliceElements(es: seq<Element>, k: nat, q: seq<Glyph>): (seq<Element>, seq<Glyph>) {
    if es == [] then ([], q)
    else if es[0].Num? then
      var (rest, q') := SpliceElements(es[1..], k, q);
      ([es[0]] + rest, q')
    else
      var (first, q1) := SpliceString(es[0].bytes, 0, k, q);
      var (rest, q2) := SpliceElements(es[1..], k + 1, q1);
      (first + rest, q2)
  }

  /** The TJ operation for `es`, unless there is nothing to show. */
  function TJOf(es: seq<Element>): seq<Operation> {
    if es == [] then [] else [Show(TJ, Array(es))]
  }

  /** Tries to write a text-showing operation: refused while a pending match begins inside it. */
  function ProcessShow(s: Remover, op: Operation): (bool, Remover)
    requires op.Show?
  {
    var count := |OpStrings(op)|;
    if s.pending != [] && s.pending[0].elementNumber < s.processed + count then (false, s)
    else if s.queue == [] || s.processed + count <= s.queue[0].elementNumber || count == 0 then
      (true, s.(output := s.output + [op], processed := s.processed + count))
    else
      var (es, q) := SpliceElements(Elements(op.argument), s.processed, s.queue);
      (true, s.(queue := q, processed := s.processed + count, output := s.output + SideEffects(op.kind) + TJOf(es)))
  }

  function Process(s: Remover): (r: (bool, Remover))
    requires s.cached != []
    ensures r.1.cached == s.cached && r.1.pending == s.pending && r.1.toRemove == s.toRemove
    ensures r.1.allMatches == s.allMatches && r.1.elementNumber == s.elementNumber
  {
    var op := s.cached[0];
    if op.Show? then ProcessShow(s, op) else (true, s.(output := s.output + [op]))
  }

  function DropHead(s: Remover): Remover
    requires s.cached != []
  {
    s.(cached := s.cached[1..])
  }

  /** Writes buffered operations until one is refused. */
  function Drain(s: Remover): (r: Remover)
    ensures r.pending == s.pending && r.toRemove == s.toRemove
    decreases |s.cached|
  {
    if s.cached == [] then s
    else
      var (ok, s') := Process(s);
      if ok then Drain(DropHead(s')) else s
  }

  function Write(s: Remover, op: Operation): (r: Remover)
    ensures r.pending == s.pending && r.toRemove == s.toRemove
  {
    Drain(s.(cached := s.cached + [op]))
  }

  /** The flushing loop of `finalizeContent`: an operation that is refused is dropped. */
  function Flush(s: Remover): Remover
    decreases |s.cached|
  {
    if s.cached == [] then s else Flush(DropHead(Process(s).1))
  }

  function Finalize(s: Remover): Remover {
    Flush(s.(pending := []))
  }

  // ----- whole pages

  /** One operation of the page: its strings are rendered, then it is written. */
  function Perform(s: Remover, op: Operation): (r: Remover)
    requires Ready(s)
    ensures Ready(r) && r.toRemove == s.toRemove
  {
    Write(RenderStrings(s, OpStrings(op)), op)
  }

  function Run(s: Remover, ops: seq<Operation>): (r: Remover)
    requires Ready(s)
    ensures Ready(r) && r.toRemove == s.toRemove
    decreases |ops|
  {
    if ops == [] then s else Run(Perform(s, ops[0]), ops[1..])
  }

  /** The state `remove` starts a page with; `processed` is what the previous page left behind. */
  function Begin(p: string, processed: nat): Remover {
    Remover(p, [], -1, processed, [], [], [], [])
  }

  function RemovePage(p: string, processed: nat, ops: seq<Operation>): Remover
    requires |p| > 0
  {
    Finalize(Run(Begin(p, processed), ops))
  }
}
