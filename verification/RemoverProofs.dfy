/** The online matcher of the text remover is exact after every glyph. */
module RemoverProofs {
  import opened Occurrences
  import opened PdfContent
  import opened RemoverModel

  // ----- the online matcher finds exactly the greedy occurrences

  /** The glyph lists of the greedy occurrences of `p` in the text of `gs`. */
  function MatchesIn(gs: seq<Glyph>, p: string): (r: seq<seq<Glyph>>)
    requires |p| > 0
    ensures |r| == |Greedy(TextOf(gs), p, 0)|
  {
    var occ := Greedy(TextOf(gs), p, 0);
    GreedyBounds(TextOf(gs), p, 0);
    assert forall j :: 0 <= j < |occ| ==> occ[j] in occ;
    seq(|occ|, j requires 0 <= j < |occ| => gs[occ[j]..occ[j] + |p|])
  }

  ghost predicate Matching(s: Remover, gs: seq<Glyph>) {
    var p, t := s.toRemove, TextOf(gs);
    && |p| > 0
    && |s.pending| <= |gs| && s.pending == Last(gs, |s.pending|)
    && IsLongestPartial(t, p, Resume(t, p), |s.pending|)
    && s.allMatches == MatchesIn(gs, p)
  }

  lemma {:induction false} ReduceIsLongest(gs: seq<Glyph>, p: string)
    requires gs != []
    ensures Reduce(gs, p) == Last(gs, |Reduce(gs, p)|)
    ensures forall j :: |Reduce(gs, p)| < j < |gs| ==> !Spells(Last(gs, j), p)
  {
    var tail := gs[1..];
    if !Spells(tail, p) {
      ReduceIsLongest(tail, p);
      var r := Reduce(tail, p);
      assert Last(gs, |r|) == Last(tail, |r|);
      forall j | |r| < j < |gs| ensures !Spells(Last(gs, j), p) {
        assert Last(gs, j) == Last(tail, j);
      }
    }
  }

  lemma SpellsIsSuffix(gs: seq<Glyph>, k: nat, p: string)
    requires k <= |gs| && k <= |p|
    ensures Spells(Last(gs, k), p) <==> Last(TextOf(gs), k) == p[..k]
  {
  }

  lemma LastSnoc<T>(s: seq<T>, x: T, j: nat)
    requires 0 < j <= |s| + 1
    ensures Last(s + [x], j) == Last(s, j - 1) + [x]
  {
  }

  /** A longer suffix that matched after the new character matched before it without its last one. */
  lemma NoLongerPartial(t: string, c: char, p: string, e: nat, k: nat, j: nat)
    requires IsLongestPartial(t, p, e, k) && k + 1 < j <= |p| && e + j <= |t| + 1
    ensures Last(t + [c], j) != p[..j]
  {
    LastSnoc(t, c, j);
    LastSnoc(p[..j - 1], p[j - 1], j);
    assert Last(t, j - 1) != p[..j - 1];
    assert (Last(t, j - 1) + [c])[..j - 1] == Last(t, j - 1) && p[..j][..j - 1] == p[..j - 1];
  }

  /** The pending match after one more glyph, before a complete match is taken off. */
  function Extended(s: Remover, g: Glyph): seq<Glyph>
    requires Ready(s)
  {
    var pending := s.pending + [g];
    if s.toRemove[|s.pending|] == g.byte.code then pending else Reduce(pending, s.toRemove)
  }

  lemma TextOfSnoc(gs: seq<Glyph>, g: Glyph)
    ensures TextOf(gs + [g]) == TextOf(gs) + [g.byte.code]
  {
  }

  lemma LastOfLast<T>(u: seq<T>, m: nat, j: nat)
    requires j <= m <= |u|
    ensures Last(Last(u, m), j) == Last(u, j)
  {
  }

  ghost predicate LongestUpTo(u: string, p: string, e: nat, k: nat) {
    && k <= |p| && e + k <= |u|
    && Last(u, k) == p[..k]
    && forall j :: k < j <= |p| && e + j <= |u| ==> Last(u, j) != p[..j]
  }

  lemma ExtendedIsSuffix(s: Remover, gs: seq<Glyph>, g: Glyph)
    requires Ready(s) && |s.pending| <= |gs| && s.pending == Last(gs, |s.pending|)
    ensures |Extended(s, g)| <= |s.pending| + 1
    ensures Extended(s, g) == Last(gs + [g], |Extended(s, g)|)
  {
    LastSnoc(gs, g, |s.pending| + 1);
    if s.toRemove[|s.pending|] != g.byte.code {
      ReduceIsLongest(s.pending + [g], s.toRemove);
      LastOfLast(gs + [g], |s.pending| + 1, |Extended(s, g)|);
    }
  }

  /** Among the suffixes no longer than the old pending match plus the glyph, the new one is the longest match. */
  lemma ExtendedBeatsShorter(s: Remover, gs: seq<Glyph>, g: Glyph, j: nat)
    requires Ready(s) && |s.pending| <= |gs| && s.pending == Last(gs, |s.pending|)
    requires Spells(s.pending, s.toRemove) && j <= |s.pending| + 1
    ensures j == |Extended(s, g)| ==> Spells(Last(gs + [g], j), s.toRemove)
    ensures j > |Extended(s, g)| ==> !Spells(Last(gs + [g], j), s.toRemove)
  {
    hide Spells, Last, Reduce;
    var all, k := s.pending + [g], |s.pending|;
    LastSnoc(gs, g, k + 1);
    LastWhole(all);
    SpellsSnoc(s.pending, g, s.toRemove);
    if s.toRemove[k] != g.byte.code {
      ReduceIsLongest(all, s.toRemove);
      LastOfLast(gs + [g], k + 1, j);
    }
  }

  lemma LastWhole<T>(s: seq<T>)
    ensures Last(s, |s|) == s
  {
  }

  lemma SpellsSnoc(gs: seq<Glyph>, g: Glyph, p: string)
    requires |gs| < |p| && Spells(gs, p)
    ensures Spells(gs + [g], p) <==> g.byte.code == p[|gs|]
  {
    assert (gs + [g])[|gs|] == g;
  }

  lemma ExtendedIsLongest(s: Remover, gs: seq<Glyph>, g: Glyph)
    requires Ready(s) && Matching(s, gs)
    ensures LongestUpTo(TextOf(gs + [g]), s.toRemove, Resume(TextOf(gs), s.toRemove), |Extended(s, g)|)
  {
    hide Greedy, Mask, MaskFrom, MatchesIn, Resume, Extended, Spells, TextOf, Last;
    var p, t, u, x := s.toRemove, TextOf(gs), TextOf(gs + [g]), |Extended(s, g)|;
    var e, k := Resume(t, p), |s.pending|;
    TextOfSnoc(gs, g);
    SpellsIsSuffix(gs, k, p);
    ExtendedIsSuffix(s, gs, g);
    ExtendedBeatsShorter(s, gs, g, x);
    SpellsIsSuffix(gs + [g], x, p);
    forall j | x < j <= |p| && e + j <= |u| ensures Last(u, j) != p[..j] {
      if j > k + 1 {
        NoLongerPartial(t, g.byte.code, p, e, k, j);
      } else {
        ExtendedBeatsShorter(s, gs, g, j);
        SpellsIsSuffix(gs + [g], j, p);
      }
    }
  }

  lemma LongestCompletes(u: string, p: string, e: nat, k: nat)
    requires LongestUpTo(u, p, e, k)
    ensures k == |p| <==> Completes(u, p, e)
  {
    assert p[..|p|] == p;
    if |p| <= |u| {
      assert Last(u, |p|) == u[|u| - |p|..|u| - |p| + |p|];
    }
  }

  lemma MatchesInNext(gs: seq<Glyph>, g: Glyph, p: string)
    requires |p| > 0
    ensures if Completes(TextOf(gs + [g]), p, Resume(TextOf(gs), p))
            then |p| <= |gs| + 1 && MatchesIn(gs + [g], p) == MatchesIn(gs, p) + [Last(gs + [g], |p|)]
            else MatchesIn(gs + [g], p) == MatchesIn(gs, p)
  {
    hide Greedy, Completes;
    var t := TextOf(gs);
    TextOfSnoc(gs, g);
    GreedyNext(t, g.byte.code, p);
    GreedyBounds(t, p, 0);
    var occ := Greedy(t, p, 0);
    forall j | 0 <= j < |occ| ensures occ[j] + |p| <= |gs| && MatchesIn(gs + [g], p)[j] == MatchesIn(gs, p)[j] {
      assert occ[j] in occ;
      assert (gs + [g])[occ[j]..occ[j] + |p|] == gs[occ[j]..occ[j] + |p|];
    }
    if Completes(t + [g.byte.code], p, Resume(t, p)) {
      assert Greedy(t + [g.byte.code], p, 0)[|occ|] == |t| + 1 - |p|;
      assert MatchesIn(gs + [g], p)[|occ|] == Last(gs + [g], |p|);
    }
  }

  /** The matcher is exact: after every glyph the pending match is the longest suffix of the glyphs
      since the last match that is a proper prefix of the string to remove, and the matches are the
      greedy leftmost non-overlapping occurrences of the whole stream. */
  lemma MatcherStep(s: Remover, gs: seq<Glyph>, g: Glyph)
    requires Ready(s) && Matching(s, gs)
    ensures Matching(RenderGlyph(s, g), gs + [g])
  {
    hide Greedy, Mask, MaskFrom, MatchesIn, Resume, Completes, TextOf;
    var p, x := s.toRemove, Extended(s, g);
    var t, u := TextOf(gs), TextOf(gs + [g]);
    ExtendedIsSuffix(s, gs, g);
    ExtendedIsLongest(s, gs, g);
    LongestCompletes(u, p, Resume(t, p), |x|);
    MatchesInNext(gs, g, p);
    TextOfSnoc(gs, g);
    GreedyNext(t, g.byte.code, p);
    if |x| != |p| {
      ResumeSame(t, u, p);
    }
  }

  lemma {:induction false} ResumeSame(t: string, u: string, p: string)
    requires |p| > 0 && Greedy(t, p, 0) == Greedy(u, p, 0)
    ensures Resume(t, p) == Resume(u, p)
  {
  }
}
