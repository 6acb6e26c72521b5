/** The bucketed hash table as a value: the list of buckets, each with its hash and entries in order,
    and the plain map it stands for. */
module HashtableModel {
  import opened Wrappers

  datatype Entry<K, V> = Entry(key: K, value: V)

  datatype Bucket<K, V> = Bucket(hash: string, entries: seq<Entry<K, V>>)

  type Layout<K, V> = seq<Bucket<K, V>>

  /** The table's two functions on keys. `canon` names the class of keys that are equal to each other;
      it only serves to say what the table denotes. */
  datatype Keying<!K, !C> = Keying(hash: K -> string, eq: (K, K) -> bool, canon: K -> C)

  /** `eq` is an equivalence (the kernel of `canon`) and equal keys have equal hashes. */
  ghost predicate Lawful<K(!new), C(!new)>(kg: Keying<K, C>) {
    && (forall a, b :: kg.eq(a, b) <==> kg.canon(a) == kg.canon(b))
    && (forall a, b :: kg.canon(a) == kg.canon(b) ==> kg.hash(a) == kg.hash(b))
  }

  // ----- searching: from the last index down

  function FindKey<K, V, C>(kg: Keying<K, C>, es: seq<Entry<K, V>>, k: K): (r: Option<nat>)
    ensures r.Some? ==> r.value < |es| && kg.eq(k, es[r.value].key)
    ensures r.None? ==> forall e :: e in es ==> !kg.eq(k, e.key)
  {
    if es == [] then None
    else if kg.eq(k, es[|es| - 1].key) then Some(|es| - 1)
    else FindKey(kg, es[..|es| - 1], k)
  }

  function FindBucket<K, V>(l: Layout<K, V>, h: string): (r: Option<nat>)
    ensures r.Some? ==> r.value < |l| && l[r.value].hash == h
    ensures r.None? ==> forall b :: b in l ==> b.hash != h
  {
    if l == [] then None
    else if l[|l| - 1].hash == h then Some(|l| - 1)
    else FindBucket(l[..|l| - 1], h)
  }

  // ----- operations

  function PutEntry<K, V, C>(kg: Keying<K, C>, replaceKey: bool, es: seq<Entry<K, V>>, k: K, v: V)
    : (seq<Entry<K, V>>, Option<V>) {
    match FindKey(kg, es, k)
    case Some(j) => (es[j := Entry(if replaceKey then k else es[j].key, v)], Some(es[j].value))
    case None => (es + [Entry(k, v)], None)
  }

  function Put<K, V, C>(kg: Keying<K, C>, replaceKey: bool, l: Layout<K, V>, k: K, v: V): (Layout<K, V>, Option<V>) {
    match FindBucket(l, kg.hash(k))
    case Some(i) =>
      var (es, was) := PutEntry(kg, replaceKey, l[i].entries, k, v);
      (l[i := l[i].(entries := es)], was)
    case None => (l + [Bucket(kg.hash(k), [Entry(k, v)])], None)
  }

  function Get<K, V, C>(kg: Keying<K, C>, l: Layout<K, V>, k: K): Option<V> {
    match FindBucket(l, kg.hash(k))
    case Some(i) => (match FindKey(kg, l[i].entries, k)
                     case Some(j) => Some(l[i].entries[j].value)
                     case None => None)
    case None => None
  }

  function RemoveAt<T>(s: seq<T>, i: nat): seq<T>
    requires i < |s|
  {
    s[..i] + s[i + 1..]
  }

  function Remove<K, V, C>(kg: Keying<K, C>, l: Layout<K, V>, k: K): (Layout<K, V>, Option<V>) {
    match FindBucket(l, kg.hash(k))
    case Some(i) => (match FindKey(kg, l[i].entries, k)
                     case Some(j) =>
                       var es := RemoveAt(l[i].entries, j);
                       (if es == [] then RemoveAt(l, i) else l[i := l[i].(entries := es)], Some(l[i].entries[j].value))
                     case None => (l, None))
    case None => (l, None)
  }

  /** All entries, bucket after bucket. */
  function Flat<K, V>(l: Layout<K, V>): seq<Entry<K, V>> {
    if l == [] then [] else l[0].entries + Flat(l[1..])
  }

  /** What `entries()` returns: the last bucket's entries first. */
  function Aggregate<K, V>(l: Layout<K, V>): seq<Entry<K, V>> {
    if l == [] then [] else l[|l| - 1].entries + Aggregate(l[..|l| - 1])
  }

  /** Puts entries from the last to the first. */
  function PutAll<K, V, C>(kg: Keying<K, C>, replaceKey: bool, l: Layout<K, V>, es: seq<Entry<K, V>>): Layout<K, V>
    decreases |es|
  {
    if es == [] then l
    else PutAll(kg, replaceKey, Put(kg, replaceKey, l, es[|es| - 1].key, es[|es| - 1].value).0, es[..|es| - 1])
  }

  /** What to do with a key that both tables have: the callback is asked unless this table's value counts as
      false. */
  datatype Conflict<!K, !V> = Overwrite | Callback(choose: (K, V, V) -> V, truthy: V -> bool)

  /** The value `putAll` stores under `k`, when this table holds `mine` and the other one `value`. */
  function Resolve<K, V>(conflict: Conflict<K, V>, k: K, mine: Option<V>, value: V): V {
    if conflict.Callback? && mine.Some? && conflict.truthy(mine.value)
    then conflict.choose(k, mine.value, value)
    else value
  }

  /** The other table's entries with the values that `putAll` stores. */
  function Resolved<K, V, C>(kg: Keying<K, C>, conflict: Conflict<K, V>, m: map<C, V>, es: seq<Entry<K, V>>)
    : (r: seq<Entry<K, V>>)
    ensures |r| == |es|
    ensures forall i :: 0 <= i < |es| ==>
              r[i] == Entry(es[i].key, Resolve(conflict, es[i].key, Lookup(m, kg.canon(es[i].key)), es[i].value))
  {
    seq(|es|, i requires 0 <= i < |es| =>
      Entry(es[i].key, Resolve(conflict, es[i].key, Lookup(m, kg.canon(es[i].key)), es[i].value)))
  }

  function Clone<K, V, C>(kg: Keying<K, C>, replaceKey: bool, l: Layout<K, V>): Layout<K, V> {
    PutAll(kg, replaceKey, [], Aggregate(l))
  }

  // ----- the invariant, and the map a layout stands for

  /** No two entries have equal keys. */
  ghost predicate Distinct<K, V, C>(kg: Keying<K, C>, es: seq<Entry<K, V>>) {
    forall i, j :: 0 <= i < j < |es| ==> kg.canon(es[i].key) != kg.canon(es[j].key)
  }

  ghost predicate BucketOk<K, V, C>(kg: Keying<K, C>, b: Bucket<K, V>) {
    && b.entries != []
    && (forall e :: e in b.entries ==> kg.hash(e.key) == b.hash)
    && Distinct(kg, b.entries)
  }

  /** Every hash has at most one bucket, and each bucket is non-empty, holds only entries of its hash
      and no two equal keys. */
  ghost predicate LayoutOk<K, V, C>(kg: Keying<K, C>, l: Layout<K, V>) {
    && (forall i :: 0 <= i < |l| ==> BucketOk(kg, l[i]))
    && (forall i, j :: 0 <= i < j < |l| ==> l[i].hash != l[j].hash)
  }

  function MapOf<K, V, C>(kg: Keying<K, C>, es: seq<Entry<K, V>>): map<C, V> {
    if es == [] then map[] else MapOf(kg, es[..|es| - 1])[kg.canon(es[|es| - 1].key) := es[|es| - 1].value]
  }

  /** The plain map, from classes of equal keys to values. */
  function Contents<K, V, C>(kg: Keying<K, C>, l: Layout<K, V>): map<C, V> {
    MapOf(kg, Flat(l))
  }

  function Lookup<C, V>(m: map<C, V>, c: C): Option<V> {
    if c in m then Some(m[c]) else None
  }
}
