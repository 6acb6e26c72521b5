/** Regrouping record lists in place into at most `batchSize` lists. */
module Batches {

  class RecordList<T> {
    var items: seq<T>

    constructor (items: seq<T>)
      ensures this.items == items
    {
      this.items := items;
    }
  }

  /** The in-order concatenation of the lists `r`, `r + b`, `r + 2b`, ... among the first `n`. */
  function Gather<T>(lists: seq<seq<T>>, b: nat, r: nat, n: nat): seq<T>
    requires b > 0 && n <= |lists|
  {
    if n == 0 then [] else Gather(lists, b, r, n - 1) + if (n - 1) % b == r then lists[n - 1] else []
  }

  function Min(a: nat, b: nat): nat {
    if a < b then a else b
  }

  /** What `rearrange` makes of the lists: the gathered lists, without empty ones. */
  function Rearranged<T(==)>(lists: seq<seq<T>>, b: nat): seq<seq<T>>
    requires b > 0
  {
    NonEmpty(Gathered(lists, b))
  }

  function Gathered<T>(lists: seq<seq<T>>, b: nat): seq<seq<T>>
    requires b > 0
  {
    seq(Min(b, |lists|), r requires 0 <= r => Gather(lists, b, r, |lists|))
  }

  function NonEmpty<T(==)>(lists: seq<seq<T>>): seq<seq<T>> {
    if lists == [] then []
    else NonEmpty(lists[..|lists| - 1]) + if lists[|lists| - 1] != [] then [lists[|lists| - 1]] else []
  }

  ghost function Contents<T>(lists: seq<RecordList<T>>): (r: seq<seq<T>>)
    reads lists
    ensures |r| == |lists| && forall i :: 0 <= i < |r| ==> r[i] == lists[i].items
  {
    if lists == [] then [] else Contents(lists[..|lists| - 1]) + [lists[|lists| - 1].items]
  }

  /** How a call ends: an index out of bounds for a negative size, a division by zero for size 0. */
  datatype Outcome = Done | IndexOutOfBounds | DivisionByZero

  class Batch<T(==)> {
    var recordList: seq<RecordList<T>>

    /** The lists are distinct objects. */
    ghost predicate Valid()
      reads this
    {
      forall i, j :: 0 <= i < j < |recordList| ==> recordList[i] != recordList[j]
    }

    constructor (recordList: seq<RecordList<T>>)
      requires forall i, j :: 0 <= i < j < |recordList| ==> recordList[i] != recordList[j]
      ensures Valid() && this.recordList == recordList
    {
      this.recordList := recordList;
    }

    method Rearrange(batchSize: int) returns (outcome: Outcome)
      requires Valid()
      modifies this, recordList
      ensures Valid()
      ensures outcome == if batchSize < 0 then IndexOutOfBounds
                         else if batchSize == 0 && old(recordList) != [] then DivisionByZero else Done
      ensures batchSize > 0 ==> Contents(recordList) == Rearranged(old(Contents(recordList)), batchSize)
      ensures batchSize <= 0 ==> recordList == old(recordList) && Contents(recordList) == old(Contents(recordList))
    {
      hide Gather, NonEmpty, Contents;
      if batchSize < 0 {
        return IndexOutOfBounds;
      }
      if batchSize == 0 {
        return if |recordList| > 0 then DivisionByZero else Done;
      }
      ghost var lists := Contents(recordList);
      MoveRecords(batchSize);
      ghost var moved := Contents(recordList);
      ghost var n := Min(batchSize, |lists|);
      RemoveEmpty();
      NonEmptyPrefix(moved, n);
      assert moved[..n] == Gathered(lists, batchSize);
      outcome := Done;
    }

    /** The loop of `rearrange`: list `i` is appended to list `i % batchSize` and cleared. */
    method MoveRecords(batchSize: nat)
      requires Valid() && batchSize > 0
      modifies recordList
      ensures forall r :: 0 <= r < Min(batchSize, |recordList|) ==>
                recordList[r].items == Gather(old(Contents(recordList)), batchSize, r, |recordList|)
      ensures forall k :: batchSize <= k < |recordList| ==> recordList[k].items == []
    {
      hide Gather, NonEmpty, Contents;
      ghost var lists := Contents(recordList);
      forall r | 0 <= r < Min(batchSize, |recordList|)
        ensures Gather(lists, batchSize, r, Min(batchSize, |recordList|)) == lists[r]
      {
        GatherFirst(lists, batchSize, r, Min(batchSize, |recordList|));
      }
      for i := Min(batchSize, |recordList|) to |recordList|
        invariant forall r :: 0 <= r < Min(batchSize, |recordList|) ==>
                    recordList[r].items == Gather(lists, batchSize, r, i)
        invariant forall k :: batchSize <= k < i ==> recordList[k].items == []
        invariant forall k :: i <= k < |recordList| ==> recordList[k].items == lists[k]
      {
        var consumerRecords := recordList[i];
        var target := recordList[i % batchSize];
        forall r: nat ensures Gather(lists, batchSize, r, i + 1) ==
            if i % batchSize == r then Gather(lists, batchSize, r, i) + lists[i] else Gather(lists, batchSize, r, i)
        {
          GatherStep(lists, batchSize, r, i);
        }
        target.items := target.items + consumerRecords.items;
        consumerRecords.items := [];
      }
    }

    /** `removeIf(List::isEmpty)`. */
    method RemoveEmpty()
      requires Valid()
      modifies this
      ensures Valid() && Contents(recordList) == NonEmpty(Contents(old(recordList)))
    {
      hide NonEmpty, Contents;
      ghost var lists := Contents(recordList);
      var kept: seq<RecordList<T>> := [];
      EmptyContents<T>();
      for i := 0 to |recordList|
        invariant recordList == old(recordList)
        invariant Contents(kept) == NonEmpty(lists[..i])
        invariant forall k :: 0 <= k < |kept| ==> kept[k] in recordList[..i]
        invariant forall j, k :: 0 <= j < k < |kept| ==> kept[j] != kept[k]
      {
        NonEmptyStep(lists, i);
        if recordList[i].items != [] {
          ContentsSnoc(kept, recordList[i]);
          kept := kept + [recordList[i]];
        }
      }
      assert lists[..|recordList|] == lists;
      recordList := kept;
    }
  }

  lemma EmptyContents<T>()
    ensures Contents<T>([]) == [] && NonEmpty<T>([]) == []
  {
  }

  lemma {:induction false} ContentsSnoc<T>(lists: seq<RecordList<T>>, last: RecordList<T>)
    ensures Contents(lists + [last]) == Contents(lists) + [last.items]
  {
    assert (lists + [last])[..|lists|] == lists;
  }

  lemma NonEmptyStep<T>(lists: seq<seq<T>>, i: nat)
    requires i < |lists|
    ensures NonEmpty(lists[..i + 1]) == NonEmpty(lists[..i]) + if lists[i] != [] then [lists[i]] else []
    ensures lists[..0] == []
  {
    assert lists[..i + 1][..i] == lists[..i];
  }

  lemma {:induction false} GatherStep<T>(lists: seq<seq<T>>, b: nat, r: nat, i: nat)
    requires 0 < b && i < |lists|
    ensures Gather(lists, b, r, i + 1) ==
            if i % b == r then Gather(lists, b, r, i) + lists[i] else Gather(lists, b, r, i)
  {
  }

  lemma {:induction false} NonEmptyPrefix<T>(lists: seq<seq<T>>, n: nat)
    requires n <= |lists| && forall k :: n <= k < |lists| ==> lists[k] == []
    ensures NonEmpty(lists) == NonEmpty(lists[..n])
    decreases |lists|
  {
    if n < |lists| {
      var init := lists[..|lists| - 1];
      NonEmptyPrefix(init, n);
      assert init[..n] == lists[..n];
    } else {
      assert lists[..n] == lists;
    }
  }

  lemma SmallModulo(k: nat, b: nat)
    requires k < b
    ensures k % b == k
  {
  }

  lemma {:induction false} GatherFirst<T>(lists: seq<seq<T>>, b: nat, r: nat, n: nat)
    requires 0 < b && n <= |lists| && n <= b
    ensures Gather(lists, b, r, n) == if r < n then lists[r] else []
  {
    if n > 0 {
      GatherFirst(lists, b, r, n - 1);
      SmallModulo(n - 1, b);
    }
  }

  // ----- what the regrouping does to the records -----

  /** The in-order concatenation of `lists[r] + lists[r + b] + lists[r + 2b] + ...`. */
  ghost function Strided<T>(lists: seq<seq<T>>, b: nat, r: nat): seq<T>
    requires b > 0
    decreases |lists| - r
  {
    if r >= |lists| then [] else lists[r] + Strided(lists, b, r + b)
  }

  ghost predicate IsStrided<T>(list: seq<T>, lists: seq<seq<T>>, b: nat)
    requires b > 0
  {
    exists r :: 0 <= r < b && list == Strided(lists, b, r)
  }

  lemma ProductBound(b: nat, k: nat)
    ensures k == 0 || k * b >= b
  {
    if k > 0 {
      assert k * b == (k - 1) * b + b;
    }
  }

  lemma QuotientUnique(b: nat, q: nat, m: nat, d: nat, r: nat)
    requires q * b + m == d * b + r && m < b && r < b
    ensures q == d && m == r
  {
    if d <= q {
      assert q * b == d * b + (q - d) * b;
      ProductBound(b, q - d);
    } else {
      assert d * b == q * b + (d - q) * b;
      ProductBound(b, d - q);
    }
  }

  lemma ModuloOf(x: nat, b: nat, q: nat, m: nat)
    requires x == q * b + m && m < b
    ensures x % b == m
  {
    var d, r := x / b, x % b;
    assert x == d * b + r;
    QuotientUnique(b, q, m, d, r);
  }

  /** Adding less than `b` changes the remainder, and adding `b` does not. */
  lemma ModuloShift(o: nat, d: nat, b: nat)
    requires 0 < d <= b
    ensures (o + d) % b == o % b <==> d == b
  {
    var q, m := o / b, o % b;
    assert o == q * b + m;
    if m + d < b {
      ModuloOf(o + d, b, q, m + d);
    } else {
      assert (q + 1) * b == q * b + b;
      if d == b {
        ModuloOf(o + d, b, q + 1, m);
      } else {
        ModuloOf(o + d, b, q + 1, m + d - b);
      }
    }
  }

  lemma {:induction false} StridedSnoc<T>(lists: seq<seq<T>>, last: seq<T>, b: nat, o: nat)
    requires b > 0
    ensures Strided(lists + [last], b, o) ==
            Strided(lists, b, o) + if o <= |lists| && |lists| % b == o % b then last else []
    decreases |lists| - o
  {
    if o < |lists| {
      StridedSnoc(lists, last, b, o + b);
      ModuloShift(o, b, b);
      if |lists| < o + b {
        ModuloShift(o, |lists| - o, b);
      }
    }
  }

  lemma {:induction false} GatherIsStrided<T>(lists: seq<seq<T>>, b: nat, r: nat, n: nat)
    requires r < b && n <= |lists|
    ensures Gather(lists, b, r, n) == Strided(lists[..n], b, r)
  {
    if n > 0 {
      GatherIsStrided(lists, b, r, n - 1);
      assert lists[..n] == lists[..n - 1] + [lists[n - 1]];
      StridedSnoc(lists[..n - 1], lists[n - 1], b, r);
      SmallModulo(r, b);
      if n - 1 < r {
        SmallModulo(n - 1, b);
      }
    }
  }

  ghost function Records<T>(lists: seq<seq<T>>): multiset<T> {
    if lists == [] then multiset{} else Records(lists[..|lists| - 1]) + multiset(lists[|lists| - 1])
  }

  lemma {:induction false} RecordsUpdate<T>(lists: seq<seq<T>>, i: nat, more: seq<T>)
    requires i < |lists|
    ensures Records(lists[i := lists[i] + more]) == Records(lists) + multiset(more)
  {
    var updated := lists[i := lists[i] + more];
    var init := lists[..|lists| - 1];
    if i == |lists| - 1 {
      assert updated[..|lists| - 1] == init;
    } else {
      RecordsUpdate(init, i, more);
      assert updated[..|lists| - 1] == init[i := init[i] + more];
    }
  }

  lemma {:induction false} RecordsSnoc<T>(lists: seq<seq<T>>, last: seq<T>)
    ensures Records(lists + [last]) == Records(lists) + multiset(last)
  {
    assert (lists + [last])[..|lists|] == lists;
  }

  lemma {:induction false} NonEmptyConserves<T>(lists: seq<seq<T>>)
    ensures Records(NonEmpty(lists)) == Records(lists)
    ensures |NonEmpty(lists)| <= |lists|
    ensures forall k :: 0 <= k < |NonEmpty(lists)| ==> NonEmpty(lists)[k] != [] && NonEmpty(lists)[k] in lists
  {
    if lists != [] {
      var init, last := lists[..|lists| - 1], lists[|lists| - 1];
      NonEmptyConserves(init);
      if last == [] {
        assert NonEmpty(lists) == NonEmpty(init);
      } else {
        RecordsSnoc(NonEmpty(init), last);
      }
    }
  }

  ghost function Stage<T>(lists: seq<seq<T>>, b: nat, n: nat): (s: seq<seq<T>>)
    requires b > 0 && n <= |lists|
  {
    seq(Min(b, |lists|), r requires 0 <= r => Gather(lists, b, r, n))
  }

  lemma {:induction false} StageConserves<T>(lists: seq<seq<T>>, b: nat, n: nat)
    requires b > 0 && n <= |lists|
    ensures Records(Stage(lists, b, n)) == Records(lists[..n])
  {
    hide Records, Stage;
    if n == 0 {
      NothingStaged(lists, b);
    } else {
      var i := n - 1;
      StageConserves(lists, b, i);
      StageStep(lists, b, i);
      RecordsUpdate(Stage(lists, b, i), i % b, lists[i]);
      RecordsSnoc(lists[..i], lists[i]);
      assert lists[..n] == lists[..i] + [lists[i]];
    }
  }

  lemma StageStep<T>(lists: seq<seq<T>>, b: nat, i: nat)
    requires b > 0 && i < |lists|
    ensures i % b < |Stage(lists, b, i)|
    ensures Stage(lists, b, i + 1) == Stage(lists, b, i)[i % b := Stage(lists, b, i)[i % b] + lists[i]]
  {
    hide Gather;
    if i < b {
      SmallModulo(i, b);
    }
    forall r: nat ensures Gather(lists, b, r, i + 1) ==
        if i % b == r then Gather(lists, b, r, i) + lists[i] else Gather(lists, b, r, i)
    {
      GatherStep(lists, b, r, i);
    }
    var before, after, t := Stage(lists, b, i), Stage(lists, b, i + 1), i % b;
    assert after == before[t := before[t] + lists[i]];
  }

  lemma {:induction false} NothingGathered<T>(lists: seq<seq<T>>)
    requires forall k :: 0 <= k < |lists| ==> lists[k] == []
    ensures Records(lists) == multiset{}
  {
    if lists != [] {
      NothingGathered(lists[..|lists| - 1]);
    }
  }

  lemma NothingStaged<T>(lists: seq<seq<T>>, b: nat)
    requires b > 0
    ensures Records(Stage(lists, b, 0)) == Records(lists[..0]) == multiset{}
  {
    NothingGathered(Stage(lists, b, 0));
  }

  /**
   * Every record is kept, with its multiplicity; at most `b` lists remain and none is empty; each of them is
   * the concatenation, in order, of the lists `r`, `r + b`, `r + 2b`, ... for some `r`.
   */
  lemma {:induction false} RearrangedConserves<T>(lists: seq<seq<T>>, b: nat)
    requires b > 0
    ensures Records(Rearranged(lists, b)) == Records(lists)
    ensures |Rearranged(lists, b)| <= b
    ensures forall k :: 0 <= k < |Rearranged(lists, b)| ==> Rearranged(lists, b)[k] != []
    ensures forall k :: 0 <= k < |Rearranged(lists, b)| ==> IsStrided(Rearranged(lists, b)[k], lists, b)
  {
    hide Records, NonEmpty, Strided, Gather;
    StageConserves(lists, b, |lists|);
    assert Stage(lists, b, |lists|) == Gathered(lists, b);
    assert lists[..|lists|] == lists;
    NonEmptyConserves(Gathered(lists, b));
    assert Rearranged(lists, b) == NonEmpty(Gathered(lists, b));
    forall k | 0 <= k < |Rearranged(lists, b)|
      ensures IsStrided(Rearranged(lists, b)[k], lists, b)
    {
      var r :| 0 <= r < |Gathered(lists, b)| && Gathered(lists, b)[r] == Rearranged(lists, b)[k];
      GatherIsStrided(lists, b, r, |lists|);
      assert Rearranged(lists, b)[k] == Strided(lists, b, r);
    }
  }

  predicate Ascending(rs: seq<nat>, n: nat) {
    (forall i :: 0 <= i < |rs| ==> rs[i] < n) && forall i, j :: 0 <= i < j < |rs| ==> rs[i] < rs[j]
  }

  /** The residues below `n` whose lists hold any record, in increasing order. */
  ghost function Residues<T>(lists: seq<seq<T>>, b: nat, n: nat): (rs: seq<nat>)
    requires b > 0
    ensures Ascending(rs, n)
    ensures forall r: nat :: r in rs <==> r < n && Strided(lists, b, r) != []
  {
    if n == 0 then []
    else if Strided(lists, b, n - 1) == [] then Residues(lists, b, n - 1)
    else Residues(lists, b, n - 1) + [n - 1]
  }

  lemma {:induction false} ResiduesStep<T>(lists: seq<seq<T>>, b: nat, n: nat)
    requires b > 0
    ensures Residues(lists, b, n + 1) == Residues(lists, b, n) + if Strided(lists, b, n) == [] then [] else [n]
    ensures Residues(lists, b, 0) == []
  {
  }

  lemma {:induction false} ResiduesGathered<T>(lists: seq<seq<T>>, b: nat, n: nat)
    requires b > 0 && n <= Min(b, |lists|)
    ensures Follows(NonEmpty(Gathered(lists, b)[..n]), Residues(lists, b, n), lists, b)
  {
    hide NonEmpty, Gather, Strided, Residues;
    if n == 0 {
      EmptyContents<T>();
      ResiduesStep(lists, b, 0);
      assert Gathered(lists, b)[..0] == [];
    } else {
      ResiduesGathered(lists, b, n - 1);
      NonEmptyStep(Gathered(lists, b), n - 1);
      ResiduesStep(lists, b, n - 1);
      GatherIsStrided(lists, b, n - 1, |lists|);
      assert lists[..|lists|] == lists;
    }
  }

  /** List `k` is the concatenation for the residue `rs[k]`. */
  ghost predicate Follows<T>(kept: seq<seq<T>>, rs: seq<nat>, lists: seq<seq<T>>, b: nat)
    requires b > 0
  {
    |kept| == |rs| && forall k :: 0 <= k < |kept| ==> kept[k] == Strided(lists, b, rs[k])
  }

  lemma {:induction false} NoLaterResidues<T>(lists: seq<seq<T>>, b: nat, n: nat)
    requires b > 0 && n >= |lists|
    ensures Residues(lists, b, n) == Residues(lists, b, |lists|)
  {
    hide Residues;
    if n > |lists| {
      NoLaterResidues(lists, b, n - 1);
      ResiduesStep(lists, b, n - 1);
    }
  }

  /** The surviving lists are, in the order of their residues, exactly those with any record: the k-th one is the
      concatenation for the k-th such residue. */
  lemma {:induction false} RearrangedInOrder<T>(lists: seq<seq<T>>, b: nat)
    requires b > 0
    ensures Follows(Rearranged(lists, b), Residues(lists, b, b), lists, b)
  {
    hide NonEmpty, Residues, Strided;
    var n := Min(b, |lists|);
    ResiduesGathered(lists, b, n);
    assert Gathered(lists, b)[..n] == Gathered(lists, b);
    if n < b {
      NoLaterResidues(lists, b, b);
    }
  }

  /** Regrouping again with the same size changes nothing. */
  lemma RearrangedTwice<T>(lists: seq<seq<T>>, b: nat)
    requires b > 0
    ensures Rearranged(Rearranged(lists, b), b) == Rearranged(lists, b)
  {
    var once := Rearranged(lists, b);
    RearrangedConserves(lists, b);
    forall r | 0 <= r < |once| ensures Gather(once, b, r, |once|) == once[r] {
      GatherFirst(once, b, r, |once|);
    }
    assert Gathered(once, b) == once;
    AllNonEmpty(once);
  }

  lemma {:induction false} AllNonEmpty<T>(lists: seq<seq<T>>)
    requires forall k :: 0 <= k < |lists| ==> lists[k] != []
    ensures NonEmpty(lists) == lists
  {
    if lists != [] {
      AllNonEmpty(lists[..|lists| - 1]);
    }
  }
}
