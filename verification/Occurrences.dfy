/** The reference meaning of "remove a string from a text": the greedy, leftmost,
    non-overlapping occurrences of a pattern, and the text that is left without them. */
module Occurrences {
  import opened Sequences

  /** The starts of the greedy leftmost non-overlapping occurrences of `p` in `t` from index `i` on. */
  function Greedy(t: string, p: string, i: nat): (r: seq<nat>)
    requires |p| > 0
    ensures forall k :: 0 <= k < |r| ==> i <= r[k]
    decreases |t| + |p| - i
  {
    if i + |p| > |t| then []
    else if OccursAt(t, p, i) then [i] + Greedy(t, p, i + |p|)
    else Greedy(t, p, i + 1)
  }

  /** The text from index `i` on that a left-to-right scan keeps when it skips every occurrence
      of `p` it meets. */
  function Scan(t: string, p: string, i: nat): string
    requires |p| > 0 && i <= |t|
    decreases |t| - i
  {
    if i + |p| > |t| then t[i..]
    else if OccursAt(t, p, i) then Scan(t, p, i + |p|)
    else [t[i]] + Scan(t, p, i + 1)
  }

  /** The text left when every greedy occurrence is deleted, as in `t.replace(p, "")`. */
  function RemoveAll(t: string, p: string): string
    requires |p| > 0
  {
    Scan(t, p, 0)
  }

  /** Where scanning resumes after the occurrences `occ` of length `m`, when it began at `i`. */
  function ResumeAt(occ: seq<nat>, m: nat, i: nat): nat {
    if occ == [] then i else occ[|occ| - 1] + m
  }

  predicate Covered(occ: seq<nat>, m: nat, n: nat) {
    occ != [] && (occ[0] <= n < occ[0] + m || Covered(occ[1..], m, n))
  }

  /** For every index of `t` from `i` on: does a greedy occurrence cover it? */
  function MaskFrom(t: string, p: string, i: nat): (f: seq<bool>)
    requires |p| > 0 && i <= |t|
    ensures |f| == |t| - i && forall n :: 0 <= n < |f| ==> f[n] == Covered(Greedy(t, p, i), |p|, i + n)
  {
    var occ := Greedy(t, p, i);
    seq(|t| - i, n requires 0 <= n < |t| - i => Covered(occ, |p|, i + n))
  }

  function Mask(t: string, p: string): (f: seq<bool>)
    requires |p| > 0
    ensures |f| == |t| && forall n :: 0 <= n < |f| ==> f[n] == Covered(Greedy(t, p, 0), |p|, n)
  {
    MaskFrom(t, p, 0)
  }

  function Repeat<T>(v: T, n: nat): (r: seq<T>)
    ensures |r| == n && forall i :: 0 <= i < n ==> r[i] == v
  {
    seq(n, i => v)
  }

  /** Drops the positions marked in `f`. */
  function Erase<T>(s: seq<T>, f: seq<bool>): seq<T>
    requires |s| == |f|
  {
    if s == [] then [] else (if f[0] then [] else [s[0]]) + Erase(s[1..], f[1..])
  }

  function CountTrue(f: seq<bool>): nat {
    if f == [] then 0 else (if f[0] then 1 else 0) + CountTrue(f[1..])
  }

  lemma {:induction false} CountTrueConcat(f: seq<bool>, g: seq<bool>)
    ensures CountTrue(f + g) == CountTrue(f) + CountTrue(g)
  {
    if f == [] {
      assert f + g == g;
    } else {
      assert (f + g)[1..] == f[1..] + g;
      CountTrueConcat(f[1..], g);
    }
  }

  lemma {:induction false} CountTrueRepeat(n: nat)
    ensures CountTrue(Repeat(true, n)) == n
  {
    if n > 0 {
      assert Repeat(true, n)[1..] == Repeat(true, n - 1);
      CountTrueRepeat(n - 1);
    }
  }

  lemma {:induction false} EraseConcat<T>(s: seq<T>, t: seq<T>, f: seq<bool>, g: seq<bool>)
    requires |s| == |f| && |t| == |g|
    ensures Erase(s + t, f + g) == Erase(s, f) + Erase(t, g)
  {
    if s == [] {
      assert s + t == t && f + g == g;
    } else {
      assert (s + t)[1..] == s[1..] + t && (f + g)[1..] == f[1..] + g;
      EraseConcat(s[1..], t, f[1..], g);
    }
  }

  lemma {:induction false} EraseAll<T>(s: seq<T>)
    ensures Erase(s, Repeat(true, |s|)) == []
  {
    if s != [] {
      assert Repeat(true, |s|)[1..] == Repeat(true, |s| - 1);
      EraseAll(s[1..]);
    }
  }

  /** How the mask from `i` on is built: an occurrence contributes a block of marks, any other
      index one unmarked position. */
  lemma MaskUnfold(t: string, p: string, i: nat)
    requires |p| > 0 && i <= |t|
    ensures i + |p| > |t| ==> MaskFrom(t, p, i) == Repeat(false, |t| - i)
    ensures OccursAt(t, p, i) ==> MaskFrom(t, p, i) == Repeat(true, |p|) + MaskFrom(t, p, i + |p|)
    ensures i + |p| <= |t| && !OccursAt(t, p, i) ==> MaskFrom(t, p, i) == [false] + MaskFrom(t, p, i + 1)
  {
    var occ := Greedy(t, p, i);
    if i + |p| > |t| {
      forall n | 0 <= n < |t| - i ensures !MaskFrom(t, p, i)[n] {}
    } else if OccursAt(t, p, i) {
      var later := Greedy(t, p, i + |p|);
      forall n | i <= n < |t| ensures Covered(occ, |p|, n) == (n < i + |p| || Covered(later, |p|, n)) {
        CoveredCons(i, later, |p|, n);
      }
      assert MaskFrom(t, p, i) == Repeat(true, |p|) + MaskFrom(t, p, i + |p|);
    } else {
      GreedyLater(t, p, i + 1);
      forall n | 0 <= n < |t| - i ensures MaskFrom(t, p, i)[n] == ([false] + MaskFrom(t, p, i + 1))[n] {
        if n == 0 {
          NotBefore(occ, |p|, i);
        }
      }
    }
  }

  lemma {:induction false} GreedyLater(t: string, p: string, i: nat)
    requires |p| > 0
    ensures forall x :: x in Greedy(t, p, i) ==> i <= x
  {
  }

  lemma {:induction false} NotBefore(occ: seq<nat>, m: nat, n: nat)
    requires forall x :: x in occ ==> n < x
    ensures !Covered(occ, m, n)
  {
    if occ != [] {
      assert occ[0] in occ && forall x :: x in occ[1..] ==> x in occ;
      NotBefore(occ[1..], m, n);
    }
  }

  lemma {:induction false} CoveredCons(i: nat, occ: seq<nat>, m: nat, n: nat)
    ensures Covered([i] + occ, m, n) == (i <= n < i + m || Covered(occ, m, n))
  {
  }

  lemma {:induction false} CoveredSnoc(occ: seq<nat>, i: nat, m: nat, n: nat)
    ensures Covered(occ + [i], m, n) == (Covered(occ, m, n) || i <= n < i + m)
  {
    if occ == [] {
      assert occ + [i] == [i];
    } else {
      assert (occ + [i])[1..] == occ[1..] + [i];
      CoveredSnoc(occ[1..], i, m, n);
    }
  }

  lemma {:induction false} EraseAllOf<T>(s: seq<T>, t: seq<T>, f: seq<bool>)
    requires |t| == |f|
    ensures Erase(s + t, Repeat(true, |s|) + f) == Erase(t, f)
  {
    hide Erase;
    EraseConcat(s, t, Repeat(true, |s|), f);
    EraseAll(s);
  }

  lemma {:induction false} MaskErases(t: string, p: string, i: nat)
    requires |p| > 0 && i <= |t|
    ensures Erase(t[i..], MaskFrom(t, p, i)) == Scan(t, p, i)
    decreases |t| - i
  {
    hide MaskFrom, Erase, Repeat;
    MaskUnfold(t, p, i);
    if i + |p| > |t| {
      EraseNone(t[i..]);
    } else if OccursAt(t, p, i) {
      MaskErases(t, p, i + |p|);
      assert t[i..] == p + t[i + |p|..];
      EraseAllOf(p, t[i + |p|..], MaskFrom(t, p, i + |p|));
    } else {
      MaskErases(t, p, i + 1);
      EraseKept(t[i], t[i + 1..], MaskFrom(t, p, i + 1));
      assert t[i..] == [t[i]] + t[i + 1..];
    }
  }

  lemma {:induction false} EraseKept<T>(x: T, s: seq<T>, f: seq<bool>)
    requires |s| == |f|
    ensures Erase([x] + s, [false] + f) == [x] + Erase(s, f)
  {
  }

  lemma {:induction false} MaskCounts(t: string, p: string, i: nat)
    requires |p| > 0 && i <= |t|
    ensures CountTrue(MaskFrom(t, p, i)) == |p| * |Greedy(t, p, i)|
    decreases |t| - i
  {
    MaskUnfold(t, p, i);
    var f := MaskFrom(t, p, i);
    if i + |p| > |t| {
      EraseNone(t[i..]);
    } else if OccursAt(t, p, i) {
      var g := MaskFrom(t, p, i + |p|);
      MaskCounts(t, p, i + |p|);
      CountTrueConcat(Repeat(true, |p|), g);
      CountTrueRepeat(|p|);
      assert |p| * (1 + |Greedy(t, p, i + |p|)|) == |p| + |p| * |Greedy(t, p, i + |p|)|;
    } else {
      MaskCounts(t, p, i + 1);
      assert f[1..] == MaskFrom(t, p, i + 1);
    }
  }

  lemma {:induction false} EraseNone<T>(s: seq<T>)
    ensures Erase(s, Repeat(false, |s|)) == s
    ensures CountTrue(Repeat(false, |s|)) == 0
  {
    if s != [] {
      assert Repeat(false, |s|)[1..] == Repeat(false, |s| - 1);
      EraseNone(s[1..]);
    }
  }

  /** Deleting the marked positions of a text deletes exactly its greedy occurrences, and each
      occurrence marks `|p|` positions. */
  lemma {:induction false} MaskIsRemoval(t: string, p: string)
    requires |p| > 0
    ensures Erase(t, Mask(t, p)) == RemoveAll(t, p)
    ensures CountTrue(Mask(t, p)) == |p| * |Greedy(t, p, 0)|
  {
    MaskErases(t, p, 0);
    MaskCounts(t, p, 0);
    assert t[0..] == t;
  }

  /** Does an occurrence that starts at or after `e` end at the end of `t`? */
  predicate Completes(t: string, p: string, e: nat) {
    e + |p| <= |t| && OccursAt(t, p, |t| - |p|)
  }

  /** Reading one more character adds at most one greedy occurrence: the one that ends there. */
  lemma {:induction false} GreedySnoc(t: string, c: char, p: string, i: nat)
    requires |p| > 0
    ensures if Completes(t + [c], p, ResumeAt(Greedy(t, p, i), |p|, i))
            then |p| <= |t| + 1 && Greedy(t + [c], p, i) == Greedy(t, p, i) + [|t| + 1 - |p|]
            else Greedy(t + [c], p, i) == Greedy(t, p, i)
    decreases |t| + |p| - i
  {
    if i + |p| > |t| {
      if i + |p| == |t| + 1 {
        GreedyUnfold(t + [c], p, i);
      }
    } else {
      OccursSnoc(t, c, p, i);
      GreedyUnfold(t, p, i);
      GreedyUnfold(t + [c], p, i);
      var next := if OccursAt(t, p, i) then i + |p| else i + 1;
      GreedySnoc(t, c, p, next);
      GreedySnocStep(t, c, p, i, Greedy(t, p, next));
    }
  }

  lemma {:induction false} GreedyUnfold(t: string, p: string, i: nat)
    requires 0 < |p| && i + |p| <= |t|
    ensures OccursAt(t, p, i) ==> Greedy(t, p, i) == [i] + Greedy(t, p, i + |p|)
    ensures !OccursAt(t, p, i) ==> Greedy(t, p, i) == Greedy(t, p, i + 1)
  {
  }

  lemma GreedySnocStep(t: string, c: char, p: string, i: nat, later: seq<nat>)
    requires 0 < |p| && i + |p| <= |t|
    ensures Completes(t + [c], p, ResumeAt([i] + later, |p|, i)) == Completes(t + [c], p, ResumeAt(later, |p|, i + |p|))
    ensures Completes(t + [c], p, ResumeAt(later, |p|, i)) == Completes(t + [c], p, ResumeAt(later, |p|, i + 1))
    ensures ([i] + later) + [|t| + 1 - |p|] == [i] + (later + [|t| + 1 - |p|])
  {
  }

  lemma {:induction false} OccursSnoc(t: string, c: char, p: string, i: nat)
    requires i + |p| <= |t|
    ensures OccursAt(t + [c], p, i) == OccursAt(t, p, i)
  {
  }

  /** Greedy occurrences really occur, end where scanning resumes at the latest, and so lie inside `t`. */
  lemma {:induction false} GreedyBounds(t: string, p: string, i: nat)
    requires |p| > 0 && i <= |t|
    ensures i <= ResumeAt(Greedy(t, p, i), |p|, i) <= |t|
    ensures forall x :: x in Greedy(t, p, i) ==> OccursAt(t, p, x) && x + |p| <= ResumeAt(Greedy(t, p, i), |p|, i)
    decreases |t| - i
  {
    if i + |p| <= |t| {
      if OccursAt(t, p, i) {
        GreedyBounds(t, p, i + |p|);
        ConsIn(i, Greedy(t, p, i + |p|));
      } else {
        GreedyBounds(t, p, i + 1);
      }
    }
  }

  lemma ConsIn(i: nat, s: seq<nat>)
    ensures forall x :: x in [i] + s <==> x == i || x in s
  {
  }

  function Resume(t: string, p: string): nat
    requires |p| > 0
  {
    ResumeAt(Greedy(t, p, 0), |p|, 0)
  }

  lemma {:induction false} MaskTail(t: string, p: string)
    requires |p| > 0
    ensures Resume(t, p) <= |t|
    ensures forall n: nat :: Resume(t, p) <= n ==> !Covered(Greedy(t, p, 0), |p|, n)
  {
    GreedyBounds(t, p, 0);
    forall n: nat ensures Resume(t, p) <= n ==> !Covered(Greedy(t, p, 0), |p|, n) {
      NotCovered(Greedy(t, p, 0), |p|, Resume(t, p), n);
    }
  }

  /** How one more character changes the mask: it stays, unmarked, unless it completes an occurrence. */
  lemma {:induction false} MaskSnocNone(t: string, c: char, p: string)
    requires |p| > 0 && !Completes(t + [c], p, Resume(t, p))
    ensures Mask(t + [c], p) == Mask(t, p) + [false]
    ensures Greedy(t + [c], p, 0) == Greedy(t, p, 0)
  {
    hide *;
    var f, g := Mask(t + [c], p), Mask(t, p) + [false];
    MaskTail(t, p);
    GreedyNext(t, c, p);
    assert forall n :: 0 <= n < |f| ==> f[n] == g[n];
  }

  /** A character that completes an occurrence marks the last `|p|` positions. */
  lemma {:induction false} MaskSnocMatch(t: string, c: char, p: string)
    requires |p| > 0 && Completes(t + [c], p, Resume(t, p))
    ensures |p| <= |t| + 1
    ensures Mask(t + [c], p) == Mask(t, p)[..|t| + 1 - |p|] + Repeat(true, |p|)
    ensures Greedy(t + [c], p, 0) == Greedy(t, p, 0) + [|t| + 1 - |p|]
    ensures Resume(t + [c], p) == |t| + 1
  {
    hide *;
    GreedyNext(t, c, p);
    MaskOfSnoc(Greedy(t, p, 0), Greedy(t + [c], p, 0), |p|, |t| + 1 - |p|, Mask(t, p), Mask(t + [c], p));
  }

  lemma {:induction false} GreedyNext(t: string, c: char, p: string)
    requires |p| > 0
    ensures if Completes(t + [c], p, Resume(t, p))
            then |p| <= |t| + 1 && Greedy(t + [c], p, 0) == Greedy(t, p, 0) + [|t| + 1 - |p|]
                && Resume(t + [c], p) == |t| + 1
            else Greedy(t + [c], p, 0) == Greedy(t, p, 0)
  {
    hide Greedy, Completes;
    GreedySnoc(t, c, p, 0);
  }

  lemma {:induction false} MaskOfSnoc(occ: seq<nat>, occ': seq<nat>, m: nat, x: nat, f: seq<bool>, g: seq<bool>)
    requires |g| == |f| + 1 == x + m && m > 0 && occ' == occ + [x]
    requires forall n :: 0 <= n < |f| ==> f[n] == Covered(occ, m, n)
    requires forall n :: 0 <= n < |g| ==> g[n] == Covered(occ', m, n)
    ensures g == f[..x] + Repeat(true, m)
  {
    forall n: nat | n < |g| ensures g[n] == (f[..x] + Repeat(true, m))[n] {
      CoveredSnoc(occ, x, m, n);
    }
  }

  lemma {:induction false} NotCovered(occ: seq<nat>, m: nat, e: nat, n: nat)
    requires forall x :: x in occ ==> x + m <= e
    ensures e <= n ==> !Covered(occ, m, n)
  {
    if occ != [] {
      assert occ[0] in occ && forall x :: x in occ[1..] ==> x in occ;
      NotCovered(occ[1..], m, e, n);
    }
  }

  function Last<T>(s: seq<T>, j: nat): (r: seq<T>)
    requires j <= |s|
    ensures |r| == j
  {
    s[|s| - j..]
  }

  /** The longest suffix of `t[e..]` that is a prefix of `p` has length `k`, and `k < |p|`. */
  ghost predicate IsLongestPartial(t: string, p: string, e: nat, k: nat) {
    && k < |p| && e + k <= |t|
    && Last(t, k) == p[..k]
    && forall j :: k < j <= |p| && e + j <= |t| ==> Last(t, j) != p[..j]
  }
}
