/** The hash table in the source's own form: bucket objects in a list and in an index by hash, updated
    in place. Each method is proved against the layout functions of HashtableModel. */
module Hashtables {
  import opened Wrappers
  import opened HashtableModel
  import opened HashtableProofs
  import opened HashtableTheorems

  class HashBucket<K, V(==)> {
    const hash: string
    var entries: seq<Entry<K, V>>

    constructor (hash: string, firstKey: K, firstValue: V)
      ensures this.hash == hash && entries == [Entry(firstKey, firstValue)]
    {
      this.hash := hash;
      entries := [Entry(firstKey, firstValue)];
    }

    /** The searcher behind `getEntryForKey`, `getEntryAndIndexForKey` and `containsKey`. */
    method Search<C>(kg: Keying<K, C>, key: K) returns (r: Option<nat>)
      ensures r == FindKey(kg, entries, key)
    {
      var i := |entries|;
      assert entries[..i] == entries;
      while i > 0
        invariant 0 <= i <= |entries|
        invariant FindKey(kg, entries[..i], key) == FindKey(kg, entries, key)
      {
        i := i - 1;
        assert entries[..i + 1][..i] == entries[..i];
        if kg.eq(key, entries[i].key) {
          return Some(i);
        }
      }
      return None;
    }

    method RemoveEntryForKey<C>(kg: Keying<K, C>, key: K) returns (was: Option<V>)
      modifies this
      ensures match FindKey(kg, old(entries), key)
              case Some(j) => entries == RemoveAt(old(entries), j) && was == Some(old(entries)[j].value)
              case None => entries == old(entries) && was == None
    {
      var r := Search(kg, key);
      if r.Some? {
        was := Some(entries[r.value].value);
        entries := entries[..r.value] + entries[r.value + 1..];
      } else {
        was := None;
      }
    }

    method AddEntry(key: K, value: V)
      modifies this
      ensures entries == old(entries) + [Entry(key, value)]
    {
      entries := entries + [Entry(key, value)];
    }

    /** What `put` does inside the bucket of the key's hash: an entry with an equal key gets the new value
        (and, on request, the new key), otherwise an entry is added. */
    method Put<C>(kg: Keying<K, C>, replaceDuplicateKey: bool, key: K, value: V) returns (oldValue: Option<V>)
      modifies this
      ensures (entries, oldValue) == PutEntry(kg, replaceDuplicateKey, old(entries), key, value)
    {
      hide FindKey;
      var j := Search(kg, key);
      if j.Some? {
        var entry := entries[j.value];
        if replaceDuplicateKey {
          entry := entry.(key := key);
        }
        oldValue := Some(entry.value);
        entry := entry.(value := value);
        entries := entries[j.value := entry];
      } else {
        AddEntry(key, value);
        oldValue := None;
      }
    }

    method ContainsValue(value: V) returns (found: bool)
      ensures found <==> exists e :: e in entries && e.value == value
    {
      var i := |entries|;
      while i > 0
        invariant 0 <= i <= |entries|
        invariant forall j :: i <= j < |entries| ==> entries[j].value != value
      {
        i := i - 1;
        if entries[i].value == value {
          assert entries[i] in entries;
          return true;
        }
      }
      return false;
    }
  }

  ghost function LayoutOf<K, V>(bs: seq<HashBucket<K, V>>): (r: Layout<K, V>)
    reads bs
    ensures |r| == |bs| && forall i :: 0 <= i < |bs| ==> r[i] == Bucket(bs[i].hash, bs[i].entries)
  {
    if bs == [] then [] else [Bucket(bs[0].hash, bs[0].entries)] + LayoutOf(bs[1..])
  }

  lemma {:induction false} FindBucketAt<K, V>(l: Layout<K, V>, i: nat)
    requires i < |l| && forall j, k :: 0 <= j < k < |l| ==> l[j].hash != l[k].hash
    ensures FindBucket(l, l[i].hash) == Some(i)
  {
  }

  class Hashtable<K(!new), V(==), C(!new)> {
    const kg: Keying<K, C>
    const replaceDuplicateKey: bool
    var buckets: seq<HashBucket<K, V>>
    var bucketsByHash: map<string, HashBucket<K, V>>

    /** The list and the index hold the same buckets, once each. */
    ghost predicate Indexed()
      reads this
    {
      && (forall i, j :: 0 <= i < j < |buckets| ==> buckets[i] != buckets[j])
      && (forall i :: 0 <= i < |buckets| ==>
          buckets[i].hash in bucketsByHash && bucketsByHash[buckets[i].hash] == buckets[i])
      && (forall h :: h in bucketsByHash ==> bucketsByHash[h] in buckets && bucketsByHash[h].hash == h)
    }

    ghost predicate Valid()
      reads this, buckets
    {
      Indexed() && Lawful(kg) && LayoutOk(kg, Layout())
    }

    /** The table and its buckets. */
    ghost function Repr(): set<object>
      reads this
    {
      {this} + set b | b in buckets :: b as object
    }

    ghost function Layout(): Layout<K, V>
      reads this, buckets
    {
      LayoutOf(buckets)
    }

    /** The map from classes of equal keys to values that the table stands for. */
    ghost function Map(): map<C, V>
      reads this, buckets
    {
      Contents(kg, Layout())
    }

    constructor (kg: Keying<K, C>, replaceDuplicateKey: bool)
      requires Lawful(kg)
      ensures Valid() && this.kg == kg && this.replaceDuplicateKey == replaceDuplicateKey
      ensures buckets == [] && Layout() == [] && Map() == map[]
    {
      this.kg := kg;
      this.replaceDuplicateKey := replaceDuplicateKey;
      buckets := [];
      bucketsByHash := map[];
    }

    /** Where the index finds a bucket, the search of the layout does. */
    lemma IndexFinds(h: string) returns (i: nat)
      requires Valid()
      ensures h !in bucketsByHash ==> FindBucket(Layout(), h) == None
      ensures h in bucketsByHash ==>
                i < |buckets| && buckets[i] == bucketsByHash[h] && FindBucket(Layout(), h) == Some(i)
    {
      i := 0;
      if h in bucketsByHash {
        i :| 0 <= i < |buckets| && buckets[i] == bucketsByHash[h];
        FindBucketAt(Layout(), i);
      }
    }

    method Put(key: K, value: V) returns (oldValue: Option<V>)
      requires Valid()
      modifies Repr()
      ensures Valid() && fresh(Repr() - old(Repr()))
      ensures (Layout(), oldValue) == HashtableModel.Put(kg, replaceDuplicateKey, old(Layout()), key, value)
      ensures Map() == old(Map())[kg.canon(key) := value] && oldValue == Lookup(old(Map()), kg.canon(key))
    {
      hide Lawful, LayoutOk, Contents, LayoutOf, FindBucket, PutEntry;
      ghost var l := Layout();
      PutIsUpdate(kg, replaceDuplicateKey, l, key, value);
      var hash := kg.hash(key);
      ghost var i := IndexFinds(hash);
      if hash in bucketsByHash {
        var bucket := bucketsByHash[hash];
        oldValue := bucket.Put(kg, replaceDuplicateKey, key, value);
        LayoutSet(l, i);
      } else {
        AddBucket(hash, key, value);
        oldValue := None;
      }
    }

    /** Only the bucket at `i` differs from the layout `l`. */
    lemma LayoutSet(l: Layout<K, V>, i: nat)
      requires i < |buckets| == |l| && forall j :: 0 <= j < |l| ==> l[j].hash == buckets[j].hash
      requires forall j :: 0 <= j < |buckets| && j != i ==> buckets[j].entries == l[j].entries
      ensures Layout() == l[i := l[i].(entries := buckets[i].entries)]
    {
    }

    method AddBucket(hash: string, key: K, value: V)
      requires Indexed() && hash !in bucketsByHash
      modifies this
      ensures Indexed() && |buckets| == |old(buckets)| + 1
      ensures buckets[..|buckets| - 1] == old(buckets) && fresh(buckets[|buckets| - 1])
      ensures Layout() == old(Layout()) + [Bucket(hash, [Entry(key, value)])]
    {
      hide LayoutOf;
      var bucket := new HashBucket(hash, key, value);
      buckets := buckets + [bucket];
      bucketsByHash := bucketsByHash[hash := bucket];
      LayoutAppended(old(Layout()));
    }

    /** One bucket has joined the layout `l`. */
    lemma LayoutAppended(l: Layout<K, V>)
      requires |buckets| == |l| + 1
      requires forall j :: 0 <= j < |l| ==> l[j] == Bucket(buckets[j].hash, buckets[j].entries)
      ensures Layout() == l + [Bucket(buckets[|l|].hash, buckets[|l|].entries)]
    {
    }

    lemma LayoutWithout(l: Layout<K, V>, i: nat)
      requires i < |l| == |buckets| + 1
      requires forall j :: 0 <= j < |buckets| ==> RemoveAt(l, i)[j] == Bucket(buckets[j].hash, buckets[j].entries)
      ensures Layout() == RemoveAt(l, i)
    {
    }

    method Get(key: K) returns (value: Option<V>)
      requires Valid()
      ensures value == Lookup(Map(), kg.canon(key))
    {
      GetIsLookup(kg, Layout(), key);
      var hash := kg.hash(key);
      ghost var i := IndexFinds(hash);
      if hash in bucketsByHash {
        var bucket := bucketsByHash[hash];
        var j := bucket.Search(kg, key);
        if j.Some? {
          return Some(bucket.entries[j.value].value);
        }
      }
      return None;
    }

    method ContainsKey(key: K) returns (found: bool)
      requires Valid()
      ensures found <==> kg.canon(key) in Map()
    {
      GetIsLookup(kg, Layout(), key);
      var hash := kg.hash(key);
      ghost var i := IndexFinds(hash);
      if hash in bucketsByHash {
        var j := bucketsByHash[hash].Search(kg, key);
        return j.Some?;
      }
      return false;
    }

    method Clear()
      requires Valid()
      modifies this
      ensures Valid() && buckets == [] && bucketsByHash == map[] && Map() == map[]
    {
      buckets := [];
      bucketsByHash := map[];
    }

    method IsEmpty() returns (empty: bool)
      requires Valid()
      ensures empty <==> Map() == map[]
    {
      empty := |buckets| == 0;
      if !empty {
        assert BucketOk(kg, Layout()[0]);
        SizeIsCardinality(kg, Layout());
        assert Flat(Layout()) == Layout()[0].entries + Flat(Layout()[1..]);
      }
    }

    /** Takes the emptied bucket of a hash out of the list and the index. */
    method DropBucket(hash: string, ghost i: nat)
      requires i < |buckets| && buckets[i].hash == hash
      requires Indexed() && forall j :: 0 <= j < |buckets| && j != i ==> buckets[j].hash != hash
      modifies this
      ensures Indexed() && buckets == RemoveAt(old(buckets), i) && bucketsByHash == old(bucketsByHash) - {hash}
    {
      var bucketIndex := SearchBuckets(hash);
      buckets := buckets[..bucketIndex] + buckets[bucketIndex + 1..];
      bucketsByHash := bucketsByHash - {hash};
    }

    method SearchBuckets(hash: string) returns (i: nat)
      requires exists j :: 0 <= j < |buckets| && buckets[j].hash == hash
      ensures i < |buckets| && buckets[i].hash == hash
      ensures forall j :: i < j < |buckets| ==> buckets[j].hash != hash
    {
      i := |buckets|;
      while i > 0
        invariant i <= |buckets|
        invariant forall j :: i <= j < |buckets| ==> buckets[j].hash != hash
      {
        i := i - 1;
        if buckets[i].hash == hash {
          return;
        }
      }
      assert false;
    }

    method Remove(key: K) returns (oldValue: Option<V>)
      requires Valid()
      modifies Repr()
      ensures Valid() && Repr() <= old(Repr())
      ensures (Layout(), oldValue) == HashtableModel.Remove(kg, old(Layout()), key)
      ensures Map() == old(Map()) - {kg.canon(key)} && oldValue == Lookup(old(Map()), kg.canon(key))
    {
      hide Lawful, LayoutOk, Contents, LayoutOf, FindBucket, FindKey;
      ghost var l := Layout();
      RemoveIsDelete(kg, l, key);
      var hash := kg.hash(key);
      oldValue := None;
      ghost var i := IndexFinds(hash);
      if hash in bucketsByHash {
        var bucket := bucketsByHash[hash];
        OnlyBucketOf(i);
        oldValue := bucket.RemoveEntryForKey(kg, key);
        LayoutSet(l, i);
        if oldValue.Some? {
          if |bucket.entries| == 0 {
            ghost var l' := Layout();
            DropBucket(hash, i);
            RemoveAtElements(l', i);
            RemoveAtElements(old(buckets), i);
            LayoutWithout(l', i);
            assert RemoveAt(l', i) == RemoveAt(l, i);
          }
        } else {
          assert Layout() == l;
        }
      }
    }

    lemma OnlyBucketOf(i: nat)
      requires Valid() && i < |buckets|
      ensures forall j :: 0 <= j < |buckets| && j != i ==> buckets[j].hash != buckets[i].hash
    {
    }

    method Size() returns (total: nat)
      requires Valid()
      ensures total == |Map()|
    {
      SizeIsCardinality(kg, Layout());
      total := 0;
      var i := |buckets|;
      ghost var l := Layout();
      assert l[|l|..] == [];
      while i > 0
        invariant 0 <= i <= |buckets|
        invariant total == |Flat(l[i..])|
      {
        i := i - 1;
        assert l[i..][1..] == l[i + 1..];
        total := total + |buckets[i].entries|;
      }
      assert l[0..] == l;
    }

    /** `entries()`: the buckets from the last to the first, each in order. The listings of keys and of
        values are the two components of these entries. */
    method Entries() returns (aggregated: seq<Entry<K, V>>)
      requires Valid()
      ensures aggregated == Aggregate(Layout())
    {
      hide LayoutOf, LayoutOk, Lawful, Indexed;
      aggregated := [];
      var i := |buckets|;
      ghost var l := Layout();
      assert l[..|l|] == l;
      while i > 0
        invariant 0 <= i <= |buckets|
        invariant aggregated + Aggregate(l[..i]) == Aggregate(l)
      {
        i := i - 1;
        AggregateStep(l, i, aggregated);
        aggregated := aggregated + buckets[i].entries;
      }
    }

    method ContainsValue(value: V) returns (found: bool)
      requires Valid()
      ensures found <==> Holds(Map(), value)
    {
      hide LayoutOf, LayoutOk, Lawful, Indexed, Flat, MapOf;
      ghost var l := Layout();
      var i := |buckets|;
      FlatEnd(l);
      found := false;
      while i > 0 && !found
        invariant 0 <= i <= |buckets|
        invariant found <==> HasValue(Flat(l[i..]), value)
      {
        i := i - 1;
        found := buckets[i].ContainsValue(value);
        HasValueStep(l, i, value);
      }
      SuffixEntries(l, i, value);
      HasValueInMap(kg, l, value);
    }

    /** True exactly if both tables stand for the same map. */
    method Equals(hashtable: Hashtable<K, V, C>) returns (same: bool)
      requires Valid() && hashtable.Valid() && hashtable.kg == kg
      ensures same <==> Map() == hashtable.Map()
    {
      hide LayoutOf, LayoutOk, Lawful, Indexed, Contents, EqualTables, Aggregate, MapOf,
        Flat, Lookup, Agree;
      SizeIsCardinality(kg, Layout());
      SizeIsCardinality(kg, hashtable.Layout());
      EqualsIffSameMap(kg, Layout(), hashtable.Layout());
      var count := Size();
      var otherCount := hashtable.Size();
      if count != otherCount {
        return false;
      }
      var keys := Entries();
      AggregateIsFlat(Layout());
      while count > 0
        invariant 0 <= count <= |keys|
        invariant forall i :: count <= i < |keys| ==> Agree(Map(), hashtable.Map(), kg.canon(keys[i].key))
      {
        count := count - 1;
        var val := hashtable.Get(keys[count].key);
        var mine := Get(keys[count].key);
        if val.None? || val != mine {
          EntryInMap(kg, Layout(), keys[count]);
          Disagree(Map(), hashtable.Map(), kg.canon(keys[count].key));
          return false;
        }
        Agrees(Map(), hashtable.Map(), kg.canon(keys[count].key));
      }
      AllAgree(kg, Layout(), hashtable.Layout(), keys);
      return true;
    }

    /** Puts the other table's entries into this one, from the last listed to the first, asking the callback about
        conflicts. The other table may be this one. */
    method PutAll(hashtable: Hashtable<K, V, C>, conflict: Conflict<K, V>)
      requires Valid() && hashtable.Valid() && hashtable.kg == kg
      modifies Repr()
      ensures Valid() && fresh(Repr() - old(Repr()))
      ensures var es := Aggregate(old(hashtable.Layout()));
              && Layout() == HashtableModel.PutAll(kg, replaceDuplicateKey, old(Layout()),
                  Resolved(kg, conflict, old(Map()), es))
              && Resolves(kg, conflict, old(Map()), es, Map())
      ensures conflict.Overwrite? ==> Map() == old(Map()) + old(hashtable.Map())
    {
      hide LayoutOf, LayoutOk, Lawful, Indexed, Contents, HashtableModel.Put, HashtableModel.PutAll, Aggregate,
          Resolves, MapOf, Resolve, Lookup;
      ghost var before := Map();
      PutAllResolves(kg, replaceDuplicateKey, conflict, Layout(), hashtable.Layout());
      PutAllIsUnion(kg, replaceDuplicateKey, Layout(), hashtable.Layout());
      OverwriteResolves(kg, before, Aggregate(hashtable.Layout()));
      AggregateDistinct(kg, hashtable.Layout());
      var entries := hashtable.Entries();
      ghost var resolved := Resolved(kg, conflict, before, entries);
      var i := |entries|;
      assert resolved[..i] == resolved;
      while i > 0
        invariant 0 <= i <= |entries|
        invariant Valid() && fresh(Repr() - old(Repr()))
        invariant HashtableModel.PutAll(kg, replaceDuplicateKey, Layout(), resolved[..i]) ==
                  HashtableModel.PutAll(kg, replaceDuplicateKey, old(Layout()), resolved)
        invariant forall k :: 0 <= k < i ==>
                    Lookup(Map(), kg.canon(entries[k].key)) == Lookup(before, kg.canon(entries[k].key))
      {
        i := i - 1;
        var value := Choose(conflict, entries[i].key, entries[i].value);
        PutAllStep(kg, replaceDuplicateKey, Layout(), resolved, i);
        LookupOthers(Map(), kg.canon(entries[i].key), value);
        var _ := Put(entries[i].key, value);
      }
      PutAllEnd(kg, replaceDuplicateKey, Layout(), resolved);
    }

    /** The value to store, asking the callback if this table holds a truthy value for the key. */
    method Choose(conflict: Conflict<K, V>, key: K, value: V) returns (chosen: V)
      requires Valid()
      ensures chosen == Resolve(conflict, key, Lookup(Map(), kg.canon(key)), value)
    {
      if conflict.Callback? {
        var thisValue := Get(key);
        if thisValue.Some? && conflict.truthy(thisValue.value) {
          return conflict.choose(key, thisValue.value, value);
        }
      }
      return value;
    }

    /** A new table for the same map: the buckets in the same order, the entries of each reversed. */
    method Clone() returns (clone: Hashtable<K, V, C>)
      requires Valid()
      ensures fresh(clone.Repr()) && clone.Valid() && clone.kg == kg && clone.replaceDuplicateKey == replaceDuplicateKey
      ensures clone.Layout() == ReversedBuckets(Layout()) && clone.Map() == Map()
    {
      hide LayoutOk, Lawful, Indexed, Contents, HashtableModel.PutAll, Aggregate, ReversedBuckets, LayoutOf;
      ghost var l := Layout();
      CloneReverses(kg, replaceDuplicateKey, l);
      clone := new Hashtable(kg, replaceDuplicateKey);
      assert Layout() == l && clone.Repr() == {clone};
      OverwriteResolves(kg, map[], Aggregate(l));
      clone.PutAll(this, Overwrite);
      assert Layout() == l;
    }
  }
}
