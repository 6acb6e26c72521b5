/** What a page shows, and where: operations as a sequence of events, and the text state they drive
    (sections 9.3, 9.4.2, 9.4.3 and 9.4.4 of ISO 32000-1:2008). */
module TextLayout {
  import opened Occurrences
  import opened PdfContent

  datatype Event =
    | Shown(byte: Byte)
    | Shift(value: real)
    | WordSpacing(w: real)
    | CharSpacing(c: real)
    | LineBreak
    | Foreign(id: int)

  function ElementEvents(es: seq<Element>): seq<Event> {
    if es == [] then []
    else
      (match es[0]
       case Str(bs) => seq(|bs|, i requires 0 <= i < |bs| => Shown(bs[i]))
       case Num(v) => [Shift(v)]) + ElementEvents(es[1..])
  }

  /** `'` is T* then Tj; `"` is Tw, Tc, T* then Tj. */
  function PreludeEvents(kind: ShowKind): seq<Event> {
    match kind
    case Tj => []
    case TJ => []
    case Quote => [LineBreak]
    case DoubleQuote(w, c) => [WordSpacing(w), CharSpacing(c), LineBreak]
  }

  function OpEvents(op: Operation): seq<Event> {
    match op
    case Show(kind, argument) => PreludeEvents(kind) + ElementEvents(Elements(argument))
    case SetWordSpacing(w) => [WordSpacing(w)]
    case SetCharSpacing(c) => [CharSpacing(c)]
    case NextLine => [LineBreak]
    case Other(id) => [Foreign(id)]
  }

  function PageEvents(ops: seq<Operation>): seq<Event> {
    if ops == [] then [] else OpEvents(ops[0]) + PageEvents(ops[1..])
  }

  function ShownBytes(evs: seq<Event>): seq<Byte> {
    if evs == [] then [] else (if evs[0].Shown? then [evs[0].byte] else []) + ShownBytes(evs[1..])
  }

  function CountShifts(evs: seq<Event>): nat {
    if evs == [] then 0 else (if evs[0].Shift? then 1 else 0) + CountShifts(evs[1..])
  }

  /** Every marked glyph becomes the position adjustment by its width; all else stays in place. */
  function Adjust(evs: seq<Event>, f: seq<bool>): seq<Event>
    requires |f| == |ShownBytes(evs)|
  {
    if evs == [] then []
    else if !evs[0].Shown? then [evs[0]] + Adjust(evs[1..], f)
    else [if f[0] then Shift(-evs[0].byte.width) else evs[0]] + Adjust(evs[1..], f[1..])
  }

  // ----- a rewritten page has the events of the page with the marked glyphs adjusted

  lemma {:induction false} ShownConcat(a: seq<Event>, b: seq<Event>)
    ensures ShownBytes(a + b) == ShownBytes(a) + ShownBytes(b)
  {
    if a == [] {
      assert a + b == b;
    } else {
      TailOfConcat(a, b);
      ShownConcat(a[1..], b);
      Assoc(if a[0].Shown? then [a[0].byte] else [], ShownBytes(a[1..]), ShownBytes(b));
    }
  }

  lemma {:induction false} AdjustConcat(a: seq<Event>, b: seq<Event>, f: seq<bool>, g: seq<bool>)
    requires |f| == |ShownBytes(a)| && |g| == |ShownBytes(b)|
    ensures |ShownBytes(a + b)| == |f + g| && Adjust(a + b, f + g) == Adjust(a, f) + Adjust(b, g)
  {
    ShownConcat(a, b);
    if a == [] {
      assert a + b == b && f + g == g;
    } else {
      TailOfConcat(a, b);
      if a[0].Shown? {
        TailOfConcat(f, g);
        AdjustConcat(a[1..], b, f[1..], g);
      } else {
        AdjustConcat(a[1..], b, f, g);
      }
    }
  }

  lemma {:induction false} ElementEventsConcat(a: seq<Element>, b: seq<Element>)
    ensures ElementEvents(a + b) == ElementEvents(a) + ElementEvents(b)
  {
    if a == [] {
      assert a + b == b;
    } else {
      TailOfConcat(a, b);
      ElementEventsConcat(a[1..], b);
    }
  }

  lemma {:induction false} PageEventsConcat(a: seq<Operation>, b: seq<Operation>)
    ensures PageEvents(a + b) == PageEvents(a) + PageEvents(b)
  {
    hide OpEvents;
    if a == [] {
      assert a + b == b;
    } else {
      TailOfConcat(a, b);
      PageEventsConcat(a[1..], b);
      Assoc(OpEvents(a[0]), PageEvents(a[1..]), PageEvents(b));
    }
  }

  function StringEvents(bs: seq<Byte>): (r: seq<Event>)
    ensures |r| == |bs| && forall i :: 0 <= i < |bs| ==> r[i] == Shown(bs[i])
  {
    seq(|bs|, i requires 0 <= i < |bs| => Shown(bs[i]))
  }

  lemma {:induction false} ElementEventsCons(e: Element, es: seq<Element>)
    ensures ElementEvents([e] + es) == (if e.Str? then StringEvents(e.bytes) else [Shift(e.value)]) + ElementEvents(es)
  {
    assert ([e] + es)[1..] == es;
    if e.Str? {
      assert StringEvents(e.bytes) == seq(|e.bytes|, i requires 0 <= i < |e.bytes| => Shown(e.bytes[i]));
    }
  }

  lemma {:induction false} ShownOfString(bs: seq<Byte>)
    ensures ShownBytes(StringEvents(bs)) == bs
  {
    if bs != [] {
      assert StringEvents(bs)[1..] == StringEvents(bs[1..]);
      ShownOfString(bs[1..]);
    }
  }

  lemma {:induction false} ShownOfElements(es: seq<Element>)
    ensures ShownBytes(ElementEvents(es)) == BytesOf(es)
  {
    if es != [] {
      var tail := es[1..];
      ShownOfElements(tail);
      assert [es[0]] + tail == es;
      ElementEventsCons(es[0], tail);
      if es[0].Str? {
        ShownOfString(es[0].bytes);
        ShownConcat(StringEvents(es[0].bytes), ElementEvents(tail));
      } else {
        ShownConcat([Shift(es[0].value)], ElementEvents(tail));
        assert ShownBytes([Shift(es[0].value)]) == [];
      }
    }
  }

  lemma ShownOfPrelude(kind: ShowKind)
    ensures ShownBytes(PreludeEvents(kind)) == []
    ensures Adjust(PreludeEvents(kind), []) == PreludeEvents(kind)
    ensures PageEvents(SideEffects(kind)) == PreludeEvents(kind)
  {
    match kind
    case Tj =>
    case TJ =>
    case Quote =>
      assert [LineBreak][1..] == [] && [NextLine][1..] == [];
    case DoubleQuote(w, c) =>
      var evs := PreludeEvents(kind);
      assert evs[1..] == [CharSpacing(c), LineBreak] && evs[1..][1..] == [LineBreak] && evs[1..][1..][1..] == [];
      var ops := SideEffects(kind);
      assert ops[1..] == [SetCharSpacing(c), NextLine] && ops[1..][1..] == [NextLine] && ops[1..][1..][1..] == [];
      assert PageEvents([NextLine]) == [LineBreak] + [];
      assert PageEvents(ops[1..]) == [CharSpacing(c)] + PageEvents([NextLine]);
      assert Adjust([LineBreak], []) == [LineBreak] + [];
      assert Adjust(evs[1..], []) == [CharSpacing(c)] + Adjust([LineBreak], []);
  }

  lemma ShownOfOp(op: Operation)
    ensures ShownBytes(OpEvents(op)) == OpBytes(op)
  {
    if op.Show? {
      ShownOfPrelude(op.kind);
      ShownOfElements(Elements(op.argument));
      ShownConcat(PreludeEvents(op.kind), ElementEvents(Elements(op.argument)));
    }
  }

  lemma {:induction false} ShownOfPage(ops: seq<Operation>)
    ensures ShownBytes(PageEvents(ops)) == PageBytes(ops)
  {
    hide OpEvents, OpBytes;
    if ops != [] {
      ShownOfOp(ops[0]);
      ShownOfPage(ops[1..]);
      ShownConcat(OpEvents(ops[0]), PageEvents(ops[1..]));
    }
  }

  lemma {:induction false} AdjustUnmarked(evs: seq<Event>, f: seq<bool>)
    requires |f| == |ShownBytes(evs)| && true !in f
    ensures Adjust(evs, f) == evs
  {
    if evs != [] {
      if evs[0].Shown? {
        assert !f[0] && forall b :: b in f[1..] ==> b in f;
        AdjustUnmarked(evs[1..], f[1..]);
      } else {
        AdjustUnmarked(evs[1..], f);
      }
    }
  }

  lemma {:induction false} EventsOfRewrittenString(bs: seq<Byte>, f: seq<bool>)
    requires |bs| == |f|
    ensures |ShownBytes(StringEvents(bs))| == |f|
    ensures ElementEvents(RewriteString(bs, f)) == Adjust(StringEvents(bs), f)
  {
    hide ElementEvents, Adjust, ShownBytes, RewriteString;
    ShownOfString(bs);
    if bs == [] {
      EmptyEvents();
      EmptyRewrite();
    } else {
      RewriteUnfold(bs, f);
      var n := LeadingFalse(f);
      var k := if n > 0 then n else 1;
      var a, b := bs[..k], bs[k..];
      EventsOfRewrittenString(b, f[k..]);
      ElementEventsCons(if n > 0 then Str(a) else Num(-bs[0].width), RewriteString(b, f[k..]));
      ShownOfString(a);
      ShownOfString(b);
      if n > 0 {
        AdjustUnmarked(StringEvents(a), f[..k]);
      } else {
        AdjustOne(bs[0]);
        assert a == [bs[0]] && f[..k] == [true];
      }
      AdjustConcat(StringEvents(a), StringEvents(b), f[..k], f[k..]);
      assert StringEvents(bs) == StringEvents(a) + StringEvents(b) && f == f[..k] + f[k..];
    }
  }

  lemma AdjustOne(b: Byte)
    ensures |ShownBytes(StringEvents([b]))| == 1
    ensures Adjust(StringEvents([b]), [true]) == [Shift(-b.width)]
  {
    ShownOfString([b]);
    assert StringEvents([b]) == [Shown(b)] && [Shown(b)][1..] == [];
    assert Adjust([], [true][1..]) == [];
  }

  lemma EmptyRewrite()
    ensures RewriteString([], []) == [] && ShownBytes([]) == [] && Adjust([], []) == [] && StringEvents([]) == []
  {
  }

  lemma EmptyEvents()
    ensures ElementEvents([]) == []
  {
  }

  lemma {:induction false} EventsOfRewrittenElements(es: seq<Element>, f: seq<bool>)
    requires |f| == |BytesOf(es)|
    ensures |ShownBytes(ElementEvents(es))| == |f|
    ensures ElementEvents(RewriteElements(es, f)) == Adjust(ElementEvents(es), f)
  {
    hide ElementEvents, RewriteString;
    ShownOfElements(es);
    if es == [] {
      EmptyEvents();
    } else {
      var tail := es[1..];
      assert [es[0]] + tail == es;
      ElementEventsCons(es[0], tail);
      ShownOfElements(tail);
      if es[0].Str? {
        var bs, n := es[0].bytes, |es[0].bytes|;
        EventsOfRewrittenString(bs, f[..n]);
        EventsOfRewrittenElements(tail, f[n..]);
        ElementEventsConcat(RewriteString(bs, f[..n]), RewriteElements(tail, f[n..]));
        AdjustConcat(StringEvents(bs), ElementEvents(tail), f[..n], f[n..]);
        assert f == f[..n] + f[n..];
      } else {
        EventsOfRewrittenElements(tail, f);
        ElementEventsCons(es[0], RewriteElements(tail, f));
        assert ([Shift(es[0].value)] + ElementEvents(tail))[1..] == ElementEvents(tail);
      }
    }
  }

  lemma PageEventsOne(op: Operation)
    ensures PageEvents([op]) == OpEvents(op)
  {
    assert OpEvents(op) + [] == OpEvents(op);
  }

  lemma {:induction false} EventsOfRewrittenOp(op: Operation, f: seq<bool>)
    requires |f| == |OpBytes(op)|
    ensures |ShownBytes(OpEvents(op))| == |f|
    ensures PageEvents(RewriteOp(op, f)) == Adjust(OpEvents(op), f)
  {
    hide PageEvents, ElementEvents, RewriteElements, PreludeEvents, Adjust, ShownBytes, BytesOf;
    ShownOfOp(op);
    if op.Show? && true in f {
      var es := Elements(op.argument);
      var shown := Show(TJ, Array(RewriteElements(es, f)));
      PageEventsConcat(SideEffects(op.kind), [shown]);
      PageEventsOne(shown);
      ShownOfPrelude(op.kind);
      ShownOfPrelude(TJ);
      EventsOfRewrittenElements(es, f);
      AdjustConcat(PreludeEvents(op.kind), ElementEvents(es), [], f);
      assert [] + f == f;
      TJHasNoPrelude(shown);
    } else {
      if true in f {
        ShownOfOp(op);
      }
      AdjustUnmarked(OpEvents(op), f);
      PageEventsOne(op);
    }
  }

  lemma TJHasNoPrelude(op: Operation)
    requires op.Show? && op.kind == TJ
    ensures OpEvents(op) == ElementEvents(Elements(op.argument))
  {
  }

  /** A rewritten page shows and does the same in the same order, except that each marked glyph is
      replaced by the adjustment by its width: the side effects of `'` and `"` are reproduced before
      the adjusted text, and every other byte, number and operation is kept. */
  lemma {:induction false} EventsOfRewrite(ops: seq<Operation>, f: seq<bool>)
    requires |f| == |PageBytes(ops)|
    ensures |ShownBytes(PageEvents(ops))| == |f|
    ensures PageEvents(RewriteOps(ops, f)) == Adjust(PageEvents(ops), f)
  {
    hide OpEvents, RewriteOp, OpBytes;
    ShownOfPage(ops);
    if ops != [] {
      var n := |OpBytes(ops[0])|;
      var g, h := f[..n], f[n..];
      EventsOfRewrittenOp(ops[0], g);
      EventsOfRewrite(ops[1..], h);
      PageEventsConcat(RewriteOp(ops[0], g), RewriteOps(ops[1..], h));
      AdjustConcat(OpEvents(ops[0]), PageEvents(ops[1..]), g, h);
      assert f == g + h;
    }
  }

  /** Dropping the inserted adjustments again leaves the text without the marked glyphs, and exactly
      one adjustment was inserted for each. */
  lemma {:induction false} AdjustDeletes(evs: seq<Event>, f: seq<bool>)
    requires |f| == |ShownBytes(evs)|
    ensures ShownBytes(Adjust(evs, f)) == Erase(ShownBytes(evs), f)
    ensures CountShifts(Adjust(evs, f)) == CountShifts(evs) + CountTrue(f)
  {
    if evs != [] {
      var tail := evs[1..];
      if evs[0].Shown? {
        AdjustDeletes(tail, f[1..]);
        assert Adjust(evs, f)[1..] == Adjust(tail, f[1..]);
        assert ShownBytes(evs)[1..] == ShownBytes(tail);
      } else {
        AdjustDeletes(tail, f);
        assert Adjust(evs, f)[1..] == Adjust(tail, f);
        assert ShownBytes(evs) == ShownBytes(tail);
      }
    }
  }

  // ----- positions

  datatype Matrix = Matrix(a: real, b: real, c: real, d: real, e: real, f: real)

  /** `[1 0 0 1 tx ty] x m`. */
  function Translate(m: Matrix, tx: real, ty: real): Matrix {
    m.(e := tx * m.a + ty * m.c + m.e, f := tx * m.b + ty * m.d + m.f)
  }

  /** The text state parameters and the text and text line matrices. */
  datatype TextState = TextState(
    charSpacing: real, wordSpacing: real, scale: real, fontSize: real, leading: real,
    tm: Matrix, tlm: Matrix)

  /** The extra space after a glyph: character spacing, and word spacing after the space character. */
  function Spacing(st: TextState, b: Byte): real {
    st.charSpacing + if b.code == ' ' then st.wordSpacing else 0.0
  }

  /** What an operator outside this model does to the text state is a parameter. */
  type Environment = (int, TextState) -> TextState

  function Step(st: TextState, ev: Event, env: Environment): TextState {
    match ev
    case Shown(b) => st.(tm := Translate(st.tm, (b.width / 1000.0 * st.fontSize + Spacing(st, b)) * st.scale, 0.0))
    case Shift(v) => st.(tm := Translate(st.tm, -v / 1000.0 * st.fontSize * st.scale, 0.0))
    case WordSpacing(w) => st.(wordSpacing := w)
    case CharSpacing(c) => st.(charSpacing := c)
    case LineBreak =>
      var m := Translate(st.tlm, 0.0, -st.leading);
      st.(tm := m, tlm := m)
    case Foreign(id) => env(id, st)
  }

  /** The glyphs shown, each with the text state (and so the position) it is shown in. */
  function Layout(st: TextState, evs: seq<Event>, env: Environment): seq<(Byte, TextState)>
    decreases |evs|
  {
    if evs == [] then []
    else (if evs[0].Shown? then [(evs[0].byte, st)] else []) + Layout(Step(st, evs[0], env), evs[1..], env)
  }

  function End(st: TextState, evs: seq<Event>, env: Environment): TextState
    decreases |evs|
  {
    if evs == [] then st else End(Step(st, evs[0], env), evs[1..], env)
  }

  /** No space is added after the glyph, or text space is degenerate, so that none shows. */
  predicate NoSpaceAfter(st: TextState, b: Byte) {
    Spacing(st, b) == 0.0 || st.scale == 0.0 || (st.tm.a == 0.0 && st.tm.b == 0.0)
  }

  /** No space is added after any marked glyph. */
  predicate ExactAt(st: TextState, evs: seq<Event>, f: seq<bool>, env: Environment)
    requires |f| == |ShownBytes(evs)|
    decreases |evs|
  {
    evs == [] ||
    var st' := Step(st, evs[0], env);
    if evs[0].Shown? then (f[0] ==> NoSpaceAfter(st, evs[0].byte)) && ExactAt(st', evs[1..], f[1..], env)
    else ExactAt(st', evs[1..], f, env)
  }

  /** The text state after each event. */
  function States(st: TextState, evs: seq<Event>, env: Environment): seq<TextState>
    decreases |evs|
  {
    if evs == [] then [] else var st' := Step(st, evs[0], env); [st'] + States(st', evs[1..], env)
  }

  /** The adjustment that replaces a glyph moves the text position exactly as the glyph did if and
      only if no spacing was in effect (or the text space is degenerate). */
  lemma AdjustmentIsExactIff(st: TextState, b: Byte, env: Environment)
    ensures Step(st, Shift(-b.width), env) == Step(st, Shown(b), env) <==> NoSpaceAfter(st, b)
  {
    var w := b.width / 1000.0 * st.fontSize;
    var extra := Spacing(st, b) * st.scale;
    assert -(-b.width) / 1000.0 * st.fontSize * st.scale == w * st.scale;
    assert (w + Spacing(st, b)) * st.scale == w * st.scale + extra;
    assert (w * st.scale + extra) * st.tm.a == w * st.scale * st.tm.a + extra * st.tm.a;
    assert (w * st.scale + extra) * st.tm.b == w * st.scale * st.tm.b + extra * st.tm.b;
    ProductZero(Spacing(st, b), st.scale);
    ProductZero(extra, st.tm.a);
    ProductZero(extra, st.tm.b);
  }

  lemma ProductZero(x: real, y: real)
    ensures x * y == 0.0 <==> x == 0.0 || y == 0.0
  {
    if x != 0.0 && y != 0.0 {
      assert x * y / y == x;
    }
  }

  /** With no space added after the removed glyphs, every kept glyph is shown in the same text state,
      at the same position, and the page ends in the same state. */
  lemma {:induction false} LayoutKept(st: TextState, evs: seq<Event>, f: seq<bool>, env: Environment)
    requires |f| == |ShownBytes(evs)| && ExactAt(st, evs, f, env)
    ensures |Layout(st, evs, env)| == |f|
    ensures Layout(st, Adjust(evs, f), env) == Erase(Layout(st, evs, env), f)
    ensures End(st, Adjust(evs, f), env) == End(st, evs, env)
    decreases |evs|
  {
    if evs != [] {
      var st', tail := Step(st, evs[0], env), evs[1..];
      if evs[0].Shown? {
        LayoutKept(st', tail, f[1..], env);
        AdjustmentIsExactIff(st, evs[0].byte, env);
        assert Adjust(evs, f)[1..] == Adjust(tail, f[1..]);
        assert Layout(st, evs, env)[1..] == Layout(st', tail, env);
      } else {
        LayoutKept(st', tail, f, env);
        assert Adjust(evs, f)[1..] == Adjust(tail, f);
        assert Layout(st, evs, env) == Layout(st', tail, env);
      }
    }
  }

  /** The text state is the same after every event exactly if no space is added after any removed glyph. */
  lemma {:induction false} StatesKeptIff(st: TextState, evs: seq<Event>, f: seq<bool>, env: Environment)
    requires |f| == |ShownBytes(evs)|
    ensures States(st, Adjust(evs, f), env) == States(st, evs, env) <==> ExactAt(st, evs, f, env)
    decreases |evs|
  {
    if evs != [] {
      hide NoSpaceAfter, Step;
      var g := if evs[0].Shown? then f[1..] else f;
      var tail, adjusted := evs[1..], Adjust(evs[1..], g);
      var ev := if evs[0].Shown? && f[0] then Shift(-evs[0].byte.width) else evs[0];
      var old', new' := Step(st, evs[0], env), Step(st, ev, env);
      assert Adjust(evs, f) == [ev] + adjusted;
      StatesCons(st, ev, adjusted, env);
      StatesCons(st, evs[0], tail, env);
      assert [evs[0]] + tail == evs;
      SameCons(new', States(new', adjusted, env), old', States(old', tail, env));
      if ev != evs[0] {
        AdjustmentIsExactIff(st, evs[0].byte, env);
      }
      StatesKeptIff(old', tail, g, env);
    }
  }

  lemma {:induction false} StatesCons(st: TextState, ev: Event, evs: seq<Event>, env: Environment)
    ensures States(st, [ev] + evs, env) == [Step(st, ev, env)] + States(Step(st, ev, env), evs, env)
  {
  }

  lemma SameCons<T>(x: T, s: seq<T>, y: T, t: seq<T>)
    ensures [x] + s == [y] + t <==> x == y && s == t
  {
    if [x] + s == [y] + t {
      assert x == ([x] + s)[0] && s == ([x] + s)[1..];
      assert y == ([y] + t)[0] && t == ([y] + t)[1..];
    }
  }
}
