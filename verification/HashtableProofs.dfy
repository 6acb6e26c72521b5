/** The hash table agrees with a plain map under every operation. */
module HashtableProofs {
  import opened Wrappers
  import opened HashtableModel

  // ----- entry lists as maps

  lemma {:induction false} MapOfMembers<K, V, C>(kg: Keying<K, C>, es: seq<Entry<K, V>>)
    ensures forall e :: e in es ==> kg.canon(e.key) in MapOf(kg, es)
    ensures forall c :: c in MapOf(kg, es) ==> exists e :: e in es && kg.canon(e.key) == c
  {
    if es != [] {
      var init, last := es[..|es| - 1], es[|es| - 1];
      MapOfMembers(kg, init);
      assert es == init + [last];
    }
  }

  lemma {:induction false} MapOfConcat<K, V, C>(kg: Keying<K, C>, a: seq<Entry<K, V>>, b: seq<Entry<K, V>>)
    ensures MapOf(kg, a + b) == MapOf(kg, a) + MapOf(kg, b)
  {
    if b == [] {
      assert a + b == a;
    } else {
      assert (a + b)[..|a + b| - 1] == a + b[..|b| - 1];
      MapOfConcat(kg, a, b[..|b| - 1]);
    }
  }

  lemma {:induction false} MapOfOne<K, V, C>(kg: Keying<K, C>, e: Entry<K, V>)
    ensures MapOf(kg, [e]) == map[kg.canon(e.key) := e.value]
  {
  }

  lemma {:induction false} NotInMap<K, V, C>(kg: Keying<K, C>, es: seq<Entry<K, V>>, c: C)
    requires forall e :: e in es ==> kg.canon(e.key) != c
    ensures c !in MapOf(kg, es)
  {
    MapOfMembers(kg, es);
  }

  /** One entry among entries with other keys. */
  lemma {:induction false} MapOfAround<K, V, C>(kg: Keying<K, C>, a: seq<Entry<K, V>>, e: Entry<K, V>,
      b: seq<Entry<K, V>>)
    requires forall x :: x in a + b ==> kg.canon(x.key) != kg.canon(e.key)
    ensures MapOf(kg, a + ([e] + b)) == MapOf(kg, a + b)[kg.canon(e.key) := e.value]
    ensures kg.canon(e.key) !in MapOf(kg, a + b)
  {
    hide MapOf;
    NotInMap(kg, a + b, kg.canon(e.key));
    assert forall x :: x in b ==> x in a + b;
    NotInMap(kg, b, kg.canon(e.key));
    MapOfConcat(kg, a, [e] + b);
    MapOfConcat(kg, [e], b);
    MapOfConcat(kg, a, b);
    MapOfOne(kg, e);
  }

  lemma {:induction false} MapOfSize<K, V, C>(kg: Keying<K, C>, es: seq<Entry<K, V>>)
    requires Distinct(kg, es)
    ensures |MapOf(kg, es)| == |es|
  {
    if es != [] {
      var init := es[..|es| - 1];
      MapOfSize(kg, init);
      NotInMap(kg, init, kg.canon(es[|es| - 1].key));
    }
  }

  // ----- layouts as entry lists

  lemma {:induction false} FlatConcat<K, V>(a: Layout<K, V>, b: Layout<K, V>)
    ensures Flat(a + b) == Flat(a) + Flat(b)
  {
    if a == [] {
      assert a + b == b;
    } else {
      assert (a + b)[0] == a[0] && (a + b)[1..] == a[1..] + b;
      FlatConcat(a[1..], b);
      assert a[0].entries + (Flat(a[1..]) + Flat(b)) == (a[0].entries + Flat(a[1..])) + Flat(b);
    }
  }

  lemma FlatOne<K, V>(b: Bucket<K, V>)
    ensures Flat([b]) == b.entries
  {
  }

  /** Entries outside the bucket of a hash have keys of other hashes. */
  lemma {:induction false} FlatHashes<K, V, C>(kg: Keying<K, C>, l: Layout<K, V>, h: string)
    requires forall b :: b in l ==> BucketOk(kg, b) && b.hash != h
    ensures forall e :: e in Flat(l) ==> kg.hash(e.key) != h
  {
    hide Distinct;
    if l != [] {
      assert l[0] in l && forall b :: b in l[1..] ==> b in l;
      FlatHashes(kg, l[1..], h);
    }
  }

  /** The layout around the bucket at `i`. */
  lemma {:induction false} FlatAround<K, V>(l: Layout<K, V>, i: nat, b: Bucket<K, V>)
    requires i < |l|
    ensures Flat(l) == Flat(l[..i]) + (l[i].entries + Flat(l[i + 1..]))
    ensures Flat(l[i := b]) == Flat(l[..i]) + (b.entries + Flat(l[i + 1..]))
    ensures Flat(RemoveAt(l, i)) == Flat(l[..i]) + Flat(l[i + 1..])
  {
    hide Flat;
    FlatConcat(l[..i], [l[i]] + l[i + 1..]);
    FlatConcat([l[i]], l[i + 1..]);
    FlatOne(l[i]);
    FlatConcat(l[..i], [b] + l[i + 1..]);
    FlatConcat([b], l[i + 1..]);
    FlatOne(b);
    FlatConcat(l[..i], l[i + 1..]);
    assert l == l[..i] + ([l[i]] + l[i + 1..]);
    assert l[i := b] == l[..i] + ([b] + l[i + 1..]);
  }

  lemma OtherBuckets<K, V, C>(kg: Keying<K, C>, l: Layout<K, V>, i: nat)
    requires LayoutOk(kg, l) && i < |l|
    ensures forall e :: e in Flat(l[..i]) ==> kg.hash(e.key) != l[i].hash
    ensures forall e :: e in Flat(l[i + 1..]) ==> kg.hash(e.key) != l[i].hash
  {
    hide BucketOk, Flat;
    forall b | b in l[..i] || b in l[i + 1..] ensures BucketOk(kg, b) && b.hash != l[i].hash {
      var j :| 0 <= j < |l| && j != i && l[j] == b;
      assert BucketOk(kg, l[j]) && (j < i || i < j);
    }
    FlatHashes(kg, l[..i], l[i].hash);
    FlatHashes(kg, l[i + 1..], l[i].hash);
  }

  /** The entries before and after entry `j` of bucket `i`. */
  function Before<K, V>(l: Layout<K, V>, i: nat, j: nat): seq<Entry<K, V>>
    requires i < |l| && j <= |l[i].entries|
  {
    Flat(l[..i]) + l[i].entries[..j]
  }

  function After<K, V>(l: Layout<K, V>, i: nat, j: nat): seq<Entry<K, V>>
    requires i < |l| && j <= |l[i].entries|
  {
    l[i].entries[j..] + Flat(l[i + 1..])
  }

  lemma Regroup<T>(a: seq<T>, b: seq<T>, c: seq<T>, d: seq<T>)
    ensures a + ((b + c) + d) == (a + b) + (c + d)
  {
  }

  /** Replacing the entries from `j` to `m` of bucket `i` by `mid`. */
  lemma {:induction false} FlatSplice<K, V>(l: Layout<K, V>, i: nat, j: nat, m: nat, mid: seq<Entry<K, V>>)
    requires i < |l| && j <= m <= |l[i].entries|
    ensures Flat(l) == Before(l, i, j) + (l[i].entries[j..m] + After(l, i, m))
    ensures Flat(l[i := l[i].(entries := l[i].entries[..j] + (mid + l[i].entries[m..]))]) ==
            Before(l, i, j) + (mid + After(l, i, m))
  {
    hide Flat;
    var es := l[i].entries;
    var es' := es[..j] + (mid + es[m..]);
    FlatAround(l, i, l[i].(entries := es'));
    assert es == es[..j] + (es[j..m] + es[m..]);
    var x, y := Flat(l[..i]), Flat(l[i + 1..]);
    Regroup(x, es[..j], mid + es[m..], y);
    Regroup(x, es[..j], es[j..m] + es[m..], y);
    assert (mid + es[m..]) + y == mid + (es[m..] + y);
    assert (es[j..m] + es[m..]) + y == es[j..m] + (es[m..] + y);
  }

  lemma InConcat<T>(a: seq<T>, b: seq<T>)
    ensures forall x :: x in a + b <==> x in a || x in b
  {
  }

  /** All entries but the one at `j` (or all, if `m == j`) of the bucket of `k` have keys other than `k`. */
  lemma OthersDiffer<K(!new), V, C(!new)>(kg: Keying<K, C>, l: Layout<K, V>, k: K, i: nat, j: nat, m: nat)
    requires Lawful(kg) && LayoutOk(kg, l) && i < |l| && l[i].hash == kg.hash(k) && j <= m <= |l[i].entries|
    requires forall x :: 0 <= x < |l[i].entries| && !(j <= x < m) ==> kg.canon(l[i].entries[x].key) != kg.canon(k)
    ensures forall e :: e in Before(l, i, j) + After(l, i, m) ==> kg.canon(e.key) != kg.canon(k)
  {
    hide Flat, LayoutOk;
    OtherBuckets(kg, l, i);
    var es, a, b := l[i].entries, Flat(l[..i]), Flat(l[i + 1..]);
    InConcat(a, es[..j]);
    InConcat(es[m..], b);
    InConcat(Before(l, i, j), After(l, i, m));
    forall e | e in Before(l, i, j) + After(l, i, m) ensures kg.canon(e.key) != kg.canon(k) {
      if e in a || e in b {
        assert kg.hash(e.key) != kg.hash(k);
      } else {
        assert e in es[..j] || e in es[m..];
        var x :| 0 <= x < |es| && !(j <= x < m) && es[x] == e;
      }
    }
  }

  /** What a search tells: the entry found is the only one with an equal key. */
  lemma {:induction false} FoundDiffers<K(!new), V, C(!new)>(kg: Keying<K, C>, es: seq<Entry<K, V>>, k: K)
    requires Lawful(kg) && Distinct(kg, es)
    ensures match FindKey(kg, es, k)
            case Some(j) => kg.canon(es[j].key) == kg.canon(k) &&
                            forall x :: 0 <= x < |es| && x != j ==> kg.canon(es[x].key) != kg.canon(k)
            case None => forall x :: 0 <= x < |es| ==> kg.canon(es[x].key) != kg.canon(k)
  {
  }

  lemma {:induction false} NoBucketNoKey<K(!new), V, C(!new)>(kg: Keying<K, C>, l: Layout<K, V>, k: K)
    requires Lawful(kg) && LayoutOk(kg, l) && FindBucket(l, kg.hash(k)).None?
    ensures forall e :: e in Flat(l) ==> kg.canon(e.key) != kg.canon(k)
  {
    hide BucketOk, Flat;
    FlatHashes(kg, l, kg.hash(k));
  }

  // ----- each operation does to the map what its name says

  /** Setting the entry at `j`, the only one of `k`'s class, or (if `j` is past the end) adding one. */
  lemma SetEntry<K(!new), V, C(!new)>(kg: Keying<K, C>, l: Layout<K, V>, k: K, i: nat, j: nat, e: Entry<K, V>)
    requires Lawful(kg) && LayoutOk(kg, l) && i < |l| && l[i].hash == kg.hash(k) && j <= |l[i].entries|
    requires forall x :: 0 <= x < |l[i].entries| && x != j ==> kg.canon(l[i].entries[x].key) != kg.canon(k)
    requires kg.canon(e.key) == kg.canon(k)
    requires j < |l[i].entries| ==> kg.canon(l[i].entries[j].key) == kg.canon(k)
    ensures var es := if j < |l[i].entries| then l[i].entries[j := e] else l[i].entries + [e];
            Contents(kg, l[i := l[i].(entries := es)]) == Contents(kg, l)[kg.canon(k) := e.value]
    ensures Lookup(Contents(kg, l), kg.canon(k)) == if j < |l[i].entries| then Some(l[i].entries[j].value) else None
  {
    hide *;
    var es := l[i].entries;
    if j < |es| {
      EntryAt(kg, l, k, i, j);
      OthersDiffer(kg, l, k, i, j, j + 1);
      FlatSplice(l, i, j, j + 1, [e]);
      SliceOne(es, j, e);
      MapOfAround(kg, Before(l, i, j), e, After(l, i, j + 1));
      ContentsIs(kg, l[i := l[i].(entries := es[j := e])]);
      UpdateTwice(kg, l, MapOf(kg, Before(l, i, j) + After(l, i, j + 1)), kg.canon(k), es[j].value, e.value);
    } else {
      OthersDiffer(kg, l, k, i, j, j);
      FlatSplice(l, i, j, j, [e]);
      SliceNone(es, e, After(l, i, j));
      MapOfAround(kg, Before(l, i, j), e, After(l, i, j));
      ContentsIs(kg, l);
      ContentsIs(kg, l[i := l[i].(entries := es + [e])]);
      LookupIs(Contents(kg, l), kg.canon(k));
    }
  }

  lemma SliceOne<T>(es: seq<T>, j: nat, e: T)
    requires j < |es|
    ensures es[j := e] == es[..j] + ([e] + es[j + 1..]) && es[j..j + 1] == [es[j]]
  {
  }

  lemma SliceNone<T>(es: seq<T>, e: T, after: seq<T>)
    ensures es + [e] == es[..|es|] + ([e] + es[|es|..]) && es[|es|..|es|] + after == after
  {
  }

  lemma {:induction false} ContentsIs<K, V, C>(kg: Keying<K, C>, l: Layout<K, V>)
    ensures Contents(kg, l) == MapOf(kg, Flat(l))
  {
  }

  lemma LookupIs<C, V>(m: map<C, V>, c: C)
    ensures Lookup(m, c) == if c in m then Some(m[c]) else None
  {
  }

  lemma UpdateTwice<K, V, C>(kg: Keying<K, C>, l: Layout<K, V>, m: map<C, V>, c: C, v: V, w: V)
    requires Contents(kg, l) == m[c := v]
    ensures Contents(kg, l)[c := w] == m[c := w] && Lookup(Contents(kg, l), c) == Some(v)
  {
  }

  /** The map with one entry singled out. */
  lemma {:induction false} EntryAt<K(!new), V, C(!new)>(kg: Keying<K, C>, l: Layout<K, V>, k: K, i: nat, j: nat)
    requires Lawful(kg) && LayoutOk(kg, l) && i < |l| && l[i].hash == kg.hash(k) && j < |l[i].entries|
    requires forall x :: 0 <= x < |l[i].entries| && x != j ==> kg.canon(l[i].entries[x].key) != kg.canon(k)
    requires kg.canon(l[i].entries[j].key) == kg.canon(k)
    ensures var rest := MapOf(kg, Before(l, i, j) + After(l, i, j + 1));
            kg.canon(k) !in rest && Contents(kg, l) == rest[kg.canon(k) := l[i].entries[j].value]
  {
    hide *;
    var es := l[i].entries;
    OthersDiffer(kg, l, k, i, j, j + 1);
    FlatSplice(l, i, j, j + 1, []);
    SliceOne(es, j, es[j]);
    MapOfAround(kg, Before(l, i, j), es[j], After(l, i, j + 1));
    ContentsIs(kg, l);
  }

  lemma {:induction false} AddBucket<K(!new), V, C(!new)>(kg: Keying<K, C>, l: Layout<K, V>, k: K, v: V)
    requires Lawful(kg) && LayoutOk(kg, l) && FindBucket(l, kg.hash(k)).None?
    ensures Contents(kg, l + [Bucket(kg.hash(k), [Entry(k, v)])]) == Contents(kg, l)[kg.canon(k) := v]
    ensures kg.canon(k) !in Contents(kg, l)
  {
    hide Flat, MapOf, LayoutOk, Lawful, FindBucket;
    NoBucketNoKey(kg, l, k);
    FlatConcat(l, [Bucket(kg.hash(k), [Entry(k, v)])]);
    FlatOne(Bucket(kg.hash(k), [Entry(k, v)]));
    assert Flat(l) + [] == Flat(l) && [Entry(k, v)] + [] == [Entry(k, v)];
    MapOfAround(kg, Flat(l), Entry(k, v), []);
  }

  /** `put` stores the value under the key's class, returns the value it replaces, and keeps the invariant. */
  lemma PutIsUpdate<K(!new), V, C(!new)>(kg: Keying<K, C>, replaceKey: bool, l: Layout<K, V>, k: K, v: V)
    requires Lawful(kg) && LayoutOk(kg, l)
    ensures LayoutOk(kg, Put(kg, replaceKey, l, k, v).0)
    ensures Contents(kg, Put(kg, replaceKey, l, k, v).0) == Contents(kg, l)[kg.canon(k) := v]
    ensures Put(kg, replaceKey, l, k, v).1 == Lookup(Contents(kg, l), kg.canon(k))
  {
    PutKeepsLayout(kg, replaceKey, l, k, v);
    hide Contents, LayoutOk, Lawful, FindKey, FindBucket;
    match FindBucket(l, kg.hash(k))
    case Some(i) =>
      var es := l[i].entries;
      BucketDistinct(kg, l, i);
      FoundDiffers(kg, es, k);
      match FindKey(kg, es, k) {
        case Some(j) =>
          SetEntry(kg, l, k, i, j, Entry(if replaceKey then k else es[j].key, v));
        case None =>
          SetEntry(kg, l, k, i, |es|, Entry(k, v));
      }
    case None =>
      AddBucket(kg, l, k, v);
  }

  lemma BucketDistinct<K, V, C>(kg: Keying<K, C>, l: Layout<K, V>, i: nat)
    requires LayoutOk(kg, l) && i < |l|
    ensures Distinct(kg, l[i].entries)
  {
  }

  lemma PutKeepsLayout<K(!new), V, C(!new)>(kg: Keying<K, C>, replaceKey: bool, l: Layout<K, V>, k: K, v: V)
    requires Lawful(kg) && LayoutOk(kg, l)
    ensures LayoutOk(kg, Put(kg, replaceKey, l, k, v).0)
  {
  }

  /** `get` is the map's lookup. */
  lemma GetIsLookup<K(!new), V, C(!new)>(kg: Keying<K, C>, l: Layout<K, V>, k: K)
    requires Lawful(kg) && LayoutOk(kg, l)
    ensures Get(kg, l, k) == Lookup(Contents(kg, l), kg.canon(k))
  {
    hide Flat, MapOf, LayoutOk, Before, After, BucketOk;
    match FindBucket(l, kg.hash(k))
    case Some(i) =>
      var es := l[i].entries;
      BucketDistinct(kg, l, i);
      FoundDiffers(kg, es, k);
      match FindKey(kg, es, k) {
       case Some(j) =>
         OthersDiffer(kg, l, k, i, j, j + 1);
         FlatSplice(l, i, j, j + 1, []);
         assert es[j..j + 1] == [es[j]];
         MapOfAround(kg, Before(l, i, j), es[j], After(l, i, j + 1));
       case None =>
         OthersDiffer(kg, l, k, i, |es|, |es|);
         FlatSplice(l, i, |es|, |es|, []);
         assert es[|es|..|es|] + After(l, i, |es|) == After(l, i, |es|);
         NotInMap(kg, Flat(l), kg.canon(k));
      }
    case None =>
      NoBucketNoKey(kg, l, k);
      NotInMap(kg, Flat(l), kg.canon(k));
  }

  /** `remove` deletes the key's class, returns its value, and keeps the invariant: no bucket is left empty. */
  lemma RemoveIsDelete<K(!new), V, C(!new)>(kg: Keying<K, C>, l: Layout<K, V>, k: K)
    requires Lawful(kg) && LayoutOk(kg, l)
    ensures var (l', was) := Remove(kg, l, k);
            && LayoutOk(kg, l')
            && Contents(kg, l') == Contents(kg, l) - {kg.canon(k)}
            && was == Lookup(Contents(kg, l), kg.canon(k))
  {
    RemoveKeepsLayout(kg, l, k);
    GetIsLookup(kg, l, k);
    hide Contents, LayoutOk, Lawful, FindKey, FindBucket, RemoveAt;
    var c := Contents(kg, l);
    match FindBucket(l, kg.hash(k))
    case Some(i) =>
      var es := l[i].entries;
      BucketDistinct(kg, l, i);
      FoundDiffers(kg, es, k);
      match FindKey(kg, es, k) {
        case Some(j) => TakeEntry(kg, l, k, i, j);
        case None => LookupIs(c, kg.canon(k));
      }
    case None => LookupIs(c, kg.canon(k));
  }

  lemma TakeEntry<K(!new), V, C(!new)>(kg: Keying<K, C>, l: Layout<K, V>, k: K, i: nat, j: nat)
    requires Lawful(kg) && LayoutOk(kg, l) && i < |l| && l[i].hash == kg.hash(k) && j < |l[i].entries|
    requires forall x :: 0 <= x < |l[i].entries| && x != j ==> kg.canon(l[i].entries[x].key) != kg.canon(k)
    requires kg.canon(l[i].entries[j].key) == kg.canon(k)
    ensures var es := RemoveAt(l[i].entries, j);
            && (es == [] ==> Contents(kg, RemoveAt(l, i)) == Contents(kg, l) - {kg.canon(k)})
            && (es != [] ==> Contents(kg, l[i := l[i].(entries := es)]) == Contents(kg, l) - {kg.canon(k)})
  {
    hide *;
    var es := l[i].entries;
    var b, a := Before(l, i, j), After(l, i, j + 1);
    EntryAt(kg, l, k, i, j);
    FlatSplice(l, i, j, j + 1, []);
    RemoveAtIs(es, j);
    assert [] + a == a;
    ContentsIs(kg, l[i := l[i].(entries := RemoveAt(es, j))]);
    assert MapOf(kg, b + a) == MapOf(kg, b + a)[kg.canon(k) := es[j].value] - {kg.canon(k)};
    if RemoveAt(es, j) == [] {
      ContentsIs(kg, RemoveAt(l, i));
      FlatAround(l, i, l[i].(entries := []));
      assert [] + Flat(l[i + 1..]) == Flat(l[i + 1..]);
    }
  }

  lemma RemoveAtIs<T>(s: seq<T>, i: nat)
    requires i < |s|
    ensures RemoveAt(s, i) == s[..i] + ([] + s[i + 1..])
  {
  }

  lemma RemoveAtElements<T>(s: seq<T>, i: nat)
    requires i < |s|
    ensures |RemoveAt(s, i)| == |s| - 1
    ensures forall x :: 0 <= x < |s| - 1 ==> RemoveAt(s, i)[x] == s[if x < i then x else x + 1]
    ensures forall x :: x in RemoveAt(s, i) ==> x in s
  {
  }

  lemma RemoveKeepsLayout<K, V, C>(kg: Keying<K, C>, l: Layout<K, V>, k: K)
    requires LayoutOk(kg, l)
    ensures LayoutOk(kg, Remove(kg, l, k).0)
  {
    match FindBucket(l, kg.hash(k))
    case Some(i) =>
      match FindKey(kg, l[i].entries, k) {
       case Some(j) =>
         RemoveAtElements(l[i].entries, j);
         RemoveAtElements(l, i);
         BucketShrinks(kg, l[i], j);
       case None =>
      }
    case None =>
  }

  lemma BucketShrinks<K, V, C>(kg: Keying<K, C>, b: Bucket<K, V>, j: nat)
    requires BucketOk(kg, b) && j < |b.entries|
    ensures RemoveAt(b.entries, j) != [] ==> BucketOk(kg, b.(entries := RemoveAt(b.entries, j)))
  {
  }

  // ----- which of equal keys is stored

  /** The same table with every key as its value: its map tells the stored key of each class. */
  function KeyEntries<K, V>(es: seq<Entry<K, V>>): (r: seq<Entry<K, K>>)
    ensures |r| == |es| && forall i :: 0 <= i < |es| ==> r[i] == Entry(es[i].key, es[i].key)
  {
    seq(|es|, i requires 0 <= i < |es| => Entry(es[i].key, es[i].key))
  }

  function KeyLayout<K, V>(l: Layout<K, V>): (r: Layout<K, K>)
    ensures |r| == |l| && forall i :: 0 <= i < |l| ==> r[i] == Bucket(l[i].hash, KeyEntries(l[i].entries))
  {
    seq(|l|, i requires 0 <= i < |l| => Bucket(l[i].hash, KeyEntries(l[i].entries)))
  }

  /** The key stored for each class of equal keys. */
  function StoredKeys<K, V, C>(kg: Keying<K, C>, l: Layout<K, V>): map<C, K> {
    Contents(kg, KeyLayout(l))
  }

  lemma {:induction false} KeyLayoutOk<K, V, C>(kg: Keying<K, C>, l: Layout<K, V>)
    requires LayoutOk(kg, l)
    ensures LayoutOk(kg, KeyLayout(l))
  {
    forall i | 0 <= i < |l| ensures BucketOk(kg, KeyLayout(l)[i]) {
      KeyBucketOk(kg, l[i]);
    }
  }

  lemma KeyBucketOk<K, V, C>(kg: Keying<K, C>, b: Bucket<K, V>)
    requires BucketOk(kg, b)
    ensures BucketOk(kg, Bucket(b.hash, KeyEntries(b.entries)))
  {
    var es := KeyEntries(b.entries);
    forall e | e in es ensures kg.hash(e.key) == b.hash {
      var i :| 0 <= i < |es| && es[i] == e;
      assert b.entries[i] in b.entries;
    }
  }

  lemma {:induction false} FindSameKey<K, V, C>(kg: Keying<K, C>, es: seq<Entry<K, V>>, k: K)
    ensures FindKey(kg, KeyEntries(es), k) == FindKey(kg, es, k)
  {
    if es != [] {
      FindSameKey(kg, es[..|es| - 1], k);
      assert KeyEntries(es)[..|es| - 1] == KeyEntries(es[..|es| - 1]);
    }
  }

  lemma {:induction false} FindSameBucket<K, V>(l: Layout<K, V>, h: string)
    ensures FindBucket(KeyLayout(l), h) == FindBucket(l, h)
  {
    if l != [] {
      FindSameBucket(l[..|l| - 1], h);
      assert KeyLayout(l)[..|l| - 1] == KeyLayout(l[..|l| - 1]);
    }
  }

  /** In the table of keys, `put` is a put of the key, or nothing. */
  lemma {:induction false} PutInKeyLayout<K, V, C>(kg: Keying<K, C>, replaceKey: bool, l: Layout<K, V>, k: K, v: V)
    ensures KeyLayout(Put(kg, replaceKey, l, k, v).0) ==
            if replaceKey || Get(kg, l, k).None? then Put(kg, true, KeyLayout(l), k, k).0 else KeyLayout(l)
    ensures Get(kg, l, k).None? <==> Get(kg, KeyLayout(l), k).None?
  {
    hide FindKey, FindBucket;
    var h := kg.hash(k);
    FindSameBucket(l, h);
    match FindBucket(l, h)
    case None =>
      assert KeyEntries([Entry(k, v)]) == [Entry(k, k)];
      assert KeyLayout(l + [Bucket(h, [Entry(k, v)])]) == KeyLayout(l) + [Bucket(h, [Entry(k, k)])];
    case Some(i) =>
      FindSameKey(kg, l[i].entries, k);
      PutInKeyEntries(kg, replaceKey, l[i].entries, k, v);
      var es := PutEntry(kg, replaceKey, l[i].entries, k, v).0;
      assert KeyLayout(l[i := l[i].(entries := es)]) == KeyLayout(l)[i := KeyLayout(l)[i].(entries := KeyEntries(es))];
      assert KeyLayout(l)[i := KeyLayout(l)[i]] == KeyLayout(l);
  }

  lemma {:induction false} PutInKeyEntries<K, V, C>(kg: Keying<K, C>, replaceKey: bool, es: seq<Entry<K, V>>, k: K,
      v: V)
    ensures KeyEntries(PutEntry(kg, replaceKey, es, k, v).0) ==
            if replaceKey || FindKey(kg, es, k).None? then PutEntry(kg, true, KeyEntries(es), k, k).0
                else KeyEntries(es)
  {
    hide FindKey;
    FindSameKey(kg, es, k);
    match FindKey(kg, es, k)
    case Some(j) =>
    case None =>
      assert KeyEntries(es + [Entry(k, v)]) == KeyEntries(es) + [Entry(k, k)];
  }

  /** With `replaceDuplicateKey` the latest of equal keys is stored, and without it the first one. */
  lemma {:induction false} PutStoresKey<K(!new), V, C(!new)>(kg: Keying<K, C>, replaceKey: bool, l: Layout<K, V>,
      k: K, v: V)
    requires Lawful(kg) && LayoutOk(kg, l)
    ensures StoredKeys(kg, Put(kg, replaceKey, l, k, v).0) ==
            if replaceKey || kg.canon(k) !in Contents(kg, l) then StoredKeys(kg, l)[kg.canon(k) := k]
                else StoredKeys(kg, l)
    ensures kg.canon(k) in StoredKeys(kg, l) <==> kg.canon(k) in Contents(kg, l)
  {
    hide Put, Get, Contents, LayoutOk, Lawful;
    KeyLayoutOk(kg, l);
    PutInKeyLayout(kg, replaceKey, l, k, v);
    GetIsLookup(kg, l, k);
    GetIsLookup(kg, KeyLayout(l), k);
    PutIsUpdate(kg, true, KeyLayout(l), k, k);
  }

  lemma {:induction false} FlatKeys<K, V>(l: Layout<K, V>)
    ensures Flat(KeyLayout(l)) == KeyEntries(Flat(l))
  {
    if l != [] {
      FlatKeys(l[1..]);
      assert KeyLayout(l)[1..] == KeyLayout(l[1..]);
      var a, b := l[0].entries, Flat(l[1..]);
      assert KeyEntries(a + b) == KeyEntries(a) + KeyEntries(b);
    }
  }

  // ----- the order of the listing

  /** The same bucket with the same keys in the same places, and at most further ones after them; the values of
      other keys are unchanged. */
  ghost predicate Extends<K, V, C>(kg: Keying<K, C>, k: K, b: Bucket<K, V>, b': Bucket<K, V>) {
    && b'.hash == b.hash && |b'.entries| >= |b.entries|
    && (forall j :: 0 <= j < |b.entries| ==> kg.canon(b'.entries[j].key) == kg.canon(b.entries[j].key))
    && (forall j :: 0 <= j < |b.entries| && kg.canon(b.entries[j].key) != kg.canon(k) ==> b'.entries[j] == b.entries[j])
  }

  /** `put` leaves every entry at its place in the table, a replaced one too. */
  lemma {:induction false} PutKeepsPlaces<K(!new), V, C(!new)>(kg: Keying<K, C>, replaceKey: bool, l: Layout<K, V>,
      k: K, v: V, i: nat)
    requires Lawful(kg) && LayoutOk(kg, l) && i < |l|
    ensures var l' := Put(kg, replaceKey, l, k, v).0;
            |l| <= |l'| <= |l| + 1 && Extends(kg, k, l[i], l'[i])
  {
    hide FindKey, FindBucket;
    match FindBucket(l, kg.hash(k))
    case None =>
    case Some(b) =>
      BucketDistinct(kg, l, b);
      FoundDiffers(kg, l[b].entries, k);
  }
}
