/** Splitting a text (of characters or bytes) at every occurrence of a separator, and joining parts again. */
module TextSplit {
  import opened Sequences

  /** The first index from `i` on at which `sep` occurs, or the length of `s`. */
  function IndexOf<T(==)>(s: seq<T>, sep: seq<T>, i: nat): (r: nat)
    requires sep != [] && i <= |s|
    ensures i <= r <= |s|
    ensures r < |s| ==> OccursAt(s, sep, r)
    ensures forall k :: i <= k < r ==> !OccursAt(s, sep, k)
    decreases |s| - i
  {
    if i == |s| || OccursAt(s, sep, i) then i else IndexOf(s, sep, i + 1)
  }

  lemma {:induction false} IndexUnique<T>(s: seq<T>, sep: seq<T>, i: nat, r: nat)
    requires sep != [] && i <= r <= |s| && (r < |s| ==> OccursAt(s, sep, r))
    requires forall k :: i <= k < r ==> !OccursAt(s, sep, k)
    ensures IndexOf(s, sep, i) == r
  {
  }

  function Split<T(==)>(s: seq<T>, sep: seq<T>): (r: seq<seq<T>>)
    requires sep != []
    ensures |r| >= 1
    decreases |s|
  {
    var i := IndexOf(s, sep, 0);
    if i == |s| then [s] else [s[..i]] + Split(s[i + |sep|..], sep)
  }

  function Join<T>(parts: seq<seq<T>>, sep: seq<T>): seq<T> {
    if parts == [] then []
    else if |parts| == 1 then parts[0]
    else parts[0] + sep + Join(parts[1..], sep)
  }

  /** The first separator after a part that does not contain the separator's first character. */
  lemma {:induction false} IndexAfterPart<T>(part: seq<T>, sep: seq<T>, rest: seq<T>)
    requires sep != [] && sep[0] !in part
    ensures IndexOf(part, sep, 0) == |part|
    ensures IndexOf(part + sep + rest, sep, 0) == |part|
  {
    var s := part + sep + rest;
    forall k | 0 <= k < |part| ensures !OccursAt(s, sep, k) && !OccursAt(part, sep, k) {
      NotThere(s, sep, k);
      NotThere(part, sep, k);
      assert s[k] == part[k];
    }
    assert s[|part|..|part| + |sep|] == sep;
    IndexUnique(s, sep, 0, |part|);
    IndexUnique(part, sep, 0, |part|);
  }

  lemma NotThere<T>(s: seq<T>, sep: seq<T>, k: nat)
    requires sep != [] && k < |s| && s[k] != sep[0]
    ensures !OccursAt(s, sep, k)
  {
  }

  /** Splitting undoes joining, when no part contains the separator's first character. */
  lemma {:induction false} SplitJoin<T>(parts: seq<seq<T>>, sep: seq<T>)
    requires sep != [] && parts != []
    requires forall i :: 0 <= i < |parts| ==> sep[0] !in parts[i]
    ensures Split(Join(parts, sep), sep) == parts
  {
    IndexAfterPart(parts[0], sep, if |parts| == 1 then [] else Join(parts[1..], sep));
    if |parts| > 1 {
      SplitJoin(parts[1..], sep);
      var s := Join(parts, sep);
      assert s[..|parts[0]|] == parts[0] && s[|parts[0]| + |sep|..] == Join(parts[1..], sep);
      assert [parts[0]] + parts[1..] == parts;
    } else {
      assert parts == [parts[0]];
    }
  }

  /** Splitting at a single character is compositional. */
  lemma {:induction false} SplitConcat<T>(s: seq<T>, c: T, t: seq<T>)
    ensures Split(s + [c] + t, [c]) == Split(s, [c]) + Split(t, [c])
    decreases |s|
  {
    hide IndexOf;
    var i, u := IndexOf(s, [c], 0), s + [c] + t;
    NoEarlier(s, c, t, i);
    if i == |s| {
      assert u[..i] == s && u[i + 1..] == t;
    } else {
      SplitConcat(s[i + 1..], c, t);
      assert u[..i] == s[..i] && u[i + 1..] == s[i + 1..] + [c] + t;
      assert ([s[..i]] + Split(s[i + 1..], [c])) + Split(t, [c]) == [s[..i]] + (Split(s[i + 1..], [c]) + Split(t, [c]));
    }
  }

  lemma {:induction false} NoEarlier<T>(s: seq<T>, c: T, t: seq<T>, i: nat)
    requires i == IndexOf(s, [c], 0)
    ensures IndexOf(s + [c] + t, [c], 0) == i
  {
    var u := s + [c] + t;
    forall k | 0 <= k < i ensures !OccursAt(u, [c], k) {
      assert !OccursAt(s, [c], k) && s[k..k + 1] == [s[k]];
      NotThere(u, [c], k);
    }
    if i < |s| {
      assert s[i..i + 1] == [s[i]];
    }
    assert u[i..i + 1] == [c];
    IndexUnique(u, [c], 0, i);
  }

  /** Joining undoes splitting, for every text. */
  lemma {:induction false} JoinSplit<T>(s: seq<T>, sep: seq<T>)
    requires sep != []
    ensures Join(Split(s, sep), sep) == s
    decreases |s|
  {
    hide IndexOf;
    var i := IndexOf(s, sep, 0);
    if i < |s| {
      JoinSplit(s[i + |sep|..], sep);
      JoinCons(s[..i], Split(s[i + |sep|..], sep), sep);
      assert s == s[..i] + sep + s[i + |sep|..];
    }
  }

  lemma {:induction false} JoinCons<T>(part: seq<T>, parts: seq<seq<T>>, sep: seq<T>)
    requires parts != []
    ensures Join([part] + parts, sep) == part + sep + Join(parts, sep)
  {
    assert ([part] + parts)[1..] == parts;
  }

  /** The text before the first separator is the first part. */
  lemma {:induction false} SplitFirst<T>(part: seq<T>, c: T, rest: seq<T>)
    requires c !in part
    ensures Split(part + [c] + rest, [c]) == [part] + Split(rest, [c])
    ensures Split(part, [c]) == [part]
  {
    hide IndexOf;
    var s := part + [c] + rest;
    IndexAfterPart(part, [c], rest);
    assert s[..|part|] == part && s[|part| + 1..] == rest;
  }

  lemma {:induction false} PartsLack<T>(s: seq<T>, c: T)
    ensures forall i :: 0 <= i < |Split(s, [c])| ==> c !in Split(s, [c])[i]
    decreases |s|
  {
    var i := IndexOf(s, [c], 0);
    forall k | 0 <= k < i ensures s[k] != c {
      assert !OccursAt(s, [c], k) && s[k..k + 1] == [s[k]];
    }
    assert c !in s[..i];
    if i == |s| {
      assert s[..i] == s;
    } else {
      PartsLack(s[i + 1..], c);
    }
  }

  /** No part contains the separator. */
  lemma {:induction false} PartsAreClean<T>(s: seq<T>, sep: seq<T>)
    requires sep != []
    ensures forall i :: 0 <= i < |Split(s, sep)| ==> IndexOf(Split(s, sep)[i], sep, 0) == |Split(s, sep)[i]|
    decreases |s|
  {
    hide IndexOf;
    var i := IndexOf(s, sep, 0);
    forall k | 0 <= k < i ensures !OccursAt(s[..i], sep, k) {
      assert !OccursAt(s, sep, k);
      if k + |sep| <= i {
        assert s[..i][k..k + |sep|] == s[k..k + |sep|];
      }
    }
    IndexUnique(s[..i], sep, 0, i);
    if i == |s| {
      assert s[..i] == s;
    } else {
      PartsAreClean(s[i + |sep|..], sep);
    }
  }
}
