/** The end-to-end promises of the text remover, about what the page shows. */
module RemovalTheorems {
  import opened Occurrences
  import opened PdfContent
  import opened RemoverModel
  import opened PageProofs
  import opened TextLayout

  lemma {:induction false} CodesOfErased(bs: seq<Byte>, f: seq<bool>)
    requires |bs| == |f|
    ensures Codes(Erase(bs, f)) == Erase(Codes(bs), f)
  {
    if bs != [] {
      CodesOfErased(bs[1..], f[1..]);
      assert Codes(bs)[1..] == Codes(bs[1..]);
      var kept := if f[0] then [] else [bs[0]];
      assert Codes(kept + Erase(bs[1..], f[1..])) == Codes(kept) + Codes(Erase(bs[1..], f[1..]));
    }
  }

  /** On a fresh remover, for any page: the new page shows and does the same in the same order, except
      that the glyphs of the greedy occurrences are replaced by adjustments of their width. So its text
      is the old text with every greedy occurrence deleted, across strings and operations, and exactly
      `|p|` adjustments are inserted per match returned. */
  lemma {:induction false} RemoveDeletesOccurrences(p: string, ops: seq<Operation>)
    requires |p| > 0
    ensures var r, f := RemovePage(p, 0, ops), PageMask(ops, p);
            && |f| == |ShownBytes(PageEvents(ops))|
            && PageEvents(r.output) == Adjust(PageEvents(ops), f)
            && PageText(r.output) == RemoveAll(PageText(ops), p)
            && CountShifts(PageEvents(r.output)) == CountShifts(PageEvents(ops)) + |p| * |r.allMatches|
  {
    hide RemovePage, RewriteOps, PageEvents, Mask, RemoveAll, PageBytes, Greedy, Adjust, ShownBytes, Codes;
    var r, f := RemovePage(p, 0, ops), PageMask(ops, p);
    RemoveIsRewrite(p, ops);
    PageTextIsStream(ops);
    EventsOfRewrite(ops, f);
    ShownOfPage(ops);
    ShownOfPage(r.output);
    AdjustDeletes(PageEvents(ops), f);
    CodesOfErased(PageBytes(ops), f);
    MaskIsRemoval(PageText(ops), p);
  }

  /** No space is added after any glyph that is removed. */
  predicate RemovalIsExact(p: string, ops: seq<Operation>, st: TextState, env: Environment)
    requires |p| > 0
  {
    ShownOfPage(ops);
    ExactAt(st, PageEvents(ops), PageMask(ops, p), env)
  }

  /** Layout preservation: if no character or word spacing adds a space after a removed glyph, every kept glyph
      is shown in the text state, and so at the position, in which it was shown before, whatever the operators
      outside the model do. */
  lemma {:induction false} RemoveKeepsLayout(p: string, ops: seq<Operation>, st: TextState, env: Environment)
    requires |p| > 0 && RemovalIsExact(p, ops, st, env)
    ensures var r, f := RemovePage(p, 0, ops), PageMask(ops, p);
            && |Layout(st, PageEvents(ops), env)| == |f|
            && Layout(st, PageEvents(r.output), env) == Erase(Layout(st, PageEvents(ops), env), f)
            && End(st, PageEvents(r.output), env) == End(st, PageEvents(ops), env)
  {
    hide RemovePage, PageEvents, Adjust, Layout, End, ExactAt, PageMask;
    RemoveDeletesOccurrences(p, ops);
    LayoutKept(st, PageEvents(ops), PageMask(ops, p), env);
  }

  /** The text state runs through the same values on the new page as on the old one, event by event, exactly if
      no space is added after a removed glyph. */
  lemma {:induction false} RemoveKeepsStatesIff(p: string, ops: seq<Operation>, st: TextState, env: Environment)
    requires |p| > 0
    ensures States(st, PageEvents(RemovePage(p, 0, ops).output), env) == States(st, PageEvents(ops), env) <==>
            RemovalIsExact(p, ops, st, env)
  {
    hide RemovePage, PageEvents, Adjust, States, ExactAt, PageMask;
    RemoveDeletesOccurrences(p, ops);
    StatesKeptIff(st, PageEvents(ops), PageMask(ops, p), env);
  }

  // ----- a page whose layout shifts

  const A := Byte('a', 1.0)
  const B := Byte('b', 1.0)

  /** "ab" with a character spacing. */
  const SPACED := [SetCharSpacing(1.0), Show(Tj, Single(Str([A, B])))]

  /** Where text space is not degenerate, removing "a" shows the kept "b" at another position. */
  lemma {:induction false} LayoutShifts(st: TextState, env: Environment)
    requires st.scale != 0.0 && (st.tm.a != 0.0 || st.tm.b != 0.0)
    ensures var before := Layout(st, PageEvents(SPACED), env);
            var after := Layout(st, PageEvents(RemovePage("a", 0, SPACED).output), env);
            && |before| == 2 && before[1].0 == B
            && |after| == 1 && after[0].0 == B && after[0].1.tm != before[1].1.tm
  {
    hide RemovePage, PageMask, PageEvents, Adjust, NoSpaceAfter;
    var evs, f := PageEvents(SPACED), PageMask(SPACED, "a");
    RemoveDeletesOccurrences("a", SPACED);
    SpacedEvents();
    SpacedMask();
    SpacedAdjusted();
    var st' := st.(charSpacing := 1.0);
    LayoutOfThree(st, CharSpacing(1.0), Shown(A), Shown(B), env);
    LayoutOfThree(st, CharSpacing(1.0), Shift(-1.0), Shown(B), env);
    SpaceAfterA(st');
    AdjustmentIsExactIff(st', A, env);
  }

  lemma SpacedEvents()
    ensures PageEvents(SPACED) == [CharSpacing(1.0), Shown(A), Shown(B)]
  {
    var es := [Str([A, B])];
    assert es[1..] == [] && ElementEvents(es) == [Shown(A), Shown(B)];
    assert SPACED[1..] == [SPACED[1]] && SPACED[1..][1..] == [];
    assert PageEvents([SPACED[1]]) == OpEvents(SPACED[1]) + PageEvents([]);
  }

  lemma SpacedText()
    ensures PageBytes(SPACED) == [A, B] && PageText(SPACED) == "ab"
  {
    hide PageEvents;
    var tail, rest := [Shown(A), Shown(B)], [Shown(B)];
    SpacedEvents();
    ShownOfPage(SPACED);
    assert ([CharSpacing(1.0)] + tail)[1..] == tail && tail[1..] == rest && rest[1..] == [];
    assert ShownBytes(rest) == [B];
    assert ShownBytes(tail) == [A] + [B];
    assert ShownBytes([CharSpacing(1.0)] + tail) == [A, B];
    assert [CharSpacing(1.0)] + tail == [CharSpacing(1.0), Shown(A), Shown(B)];
  }

  lemma {:induction false} SpacedMask()
    ensures PageMask(SPACED, "a") == [true, false]
  {
    hide MaskFrom, PageText, PageBytes, Greedy;
    var t := PageText(SPACED);
    SpacedText();
    MaskUnfold(t, "a", 0);
    MaskUnfold(t, "a", 1);
    MaskUnfold(t, "a", 2);
    assert t[0..1] == "a" && t[1..2][0] == 'b';
    assert MaskFrom(t, "a", 1) == [false] + [];
    assert MaskFrom(t, "a", 0) == [true] + [false];
  }

  lemma SpacedAdjusted()
    ensures |ShownBytes([CharSpacing(1.0), Shown(A), Shown(B)])| == 2
    ensures Adjust([CharSpacing(1.0), Shown(A), Shown(B)], [true, false]) == [CharSpacing(1.0), Shift(-1.0), Shown(B)]
  {
    var evs, tail, rest := [CharSpacing(1.0), Shown(A), Shown(B)], [Shown(A), Shown(B)], [Shown(B)];
    assert evs[1..] == tail && tail[1..] == rest && rest[1..] == [];
    assert [true, false][1..] == [false] && [false][1..] == [];
    assert ShownBytes(rest) == [B];
    assert ShownBytes(tail) == [A, B];
    assert ShownBytes(evs) == [A, B];
    assert Adjust(rest, [false]) == [Shown(B)];
    assert Adjust(tail, [true, false]) == [Shift(-1.0), Shown(B)];
    assert Adjust(evs, [true, false]) == [CharSpacing(1.0)] + [Shift(-1.0), Shown(B)];
  }

  lemma {:induction false} LayoutOfThree(st: TextState, x: Event, y: Event, z: Event, env: Environment)
    requires !x.Shown? && z.Shown?
    ensures var s1 := Step(st, x, env);
            Layout(st, [x, y, z], env) == (if y.Shown? then [(y.byte, s1)] else []) + [(z.byte, Step(s1, y, env))]
  {
    hide Step;
    var s1 := Step(st, x, env);
    var s2 := Step(s1, y, env);
    assert [x, y, z][1..] == [y, z] && [y, z][1..] == [z] && [z][1..] == [];
    assert Layout(s2, [z], env) == [(z.byte, s2)];
    assert Layout(s1, [y, z], env) == (if y.Shown? then [(y.byte, s1)] else []) + [(z.byte, s2)];
    assert Layout(st, [x, y, z], env) == [] + Layout(s1, [y, z], env);
  }

  lemma SpaceAfterA(st: TextState)
    requires st.charSpacing == 1.0 && st.scale != 0.0 && (st.tm.a != 0.0 || st.tm.b != 0.0)
    ensures !NoSpaceAfter(st, A)
  {
  }
}
