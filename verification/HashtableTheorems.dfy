/** Whole runs of table operations, table equality, and what `clone` does to the layout. */
module HashtableTheorems {
  import opened Wrappers
  import opened HashtableModel
  import opened HashtableProofs

  // ----- size and listings

  lemma DistinctConcat<K, V, C>(kg: Keying<K, C>, a: seq<Entry<K, V>>, b: seq<Entry<K, V>>)
    requires Distinct(kg, a) && Distinct(kg, b)
    requires forall x, y :: x in a && y in b ==> kg.canon(x.key) != kg.canon(y.key)
    ensures Distinct(kg, a + b)
  {
  }

  lemma {:induction false} FlatDistinct<K(!new), V, C(!new)>(kg: Keying<K, C>, l: Layout<K, V>)
    requires Lawful(kg) && LayoutOk(kg, l)
    ensures Distinct(kg, Flat(l))
  {
    if l != [] {
      assert BucketOk(kg, l[0]);
      FlatDistinct(kg, l[1..]);
      forall b | b in l[1..] ensures BucketOk(kg, b) && b.hash != l[0].hash {
        var j :| 0 <= j < |l[1..]| && l[1..][j] == b;
        assert BucketOk(kg, l[j + 1]);
      }
      FlatHashes(kg, l[1..], l[0].hash);
      forall x, y | x in l[0].entries && y in Flat(l[1..]) ensures kg.canon(x.key) != kg.canon(y.key) {
        assert kg.hash(x.key) != kg.hash(y.key);
      }
      DistinctConcat(kg, l[0].entries, Flat(l[1..]));
    }
  }

  function Size<K, V>(l: Layout<K, V>): nat {
    |Flat(l)|
  }

  /** `size` is the number of keys, counted up to equality. */
  lemma SizeIsCardinality<K(!new), V, C(!new)>(kg: Keying<K, C>, l: Layout<K, V>)
    requires Lawful(kg) && LayoutOk(kg, l)
    ensures Size(l) == |Contents(kg, l)|
  {
    FlatDistinct(kg, l);
    MapOfSize(kg, Flat(l));
  }

  lemma {:induction false} AggregateFront<K, V>(l: Layout<K, V>)
    requires l != []
    ensures Aggregate(l) == Aggregate(l[1..]) + l[0].entries
  {
    hide Aggregate;
    var init, last := l[..|l| - 1], l[|l| - 1].entries;
    AggregateLast(l);
    if init == [] {
      AggregateNone(init);
      AggregateNone(l[1..]);
      assert last + [] == [] + l[0].entries;
    } else {
      AggregateFront(init);
      AggregateLast(l[1..]);
      assert init[1..] == l[1..][..|l| - 2];
      assert last + (Aggregate(init[1..]) + l[0].entries) == (last + Aggregate(init[1..])) + l[0].entries;
    }
  }

  lemma {:induction false} AggregateLast<K, V>(l: Layout<K, V>)
    requires l != []
    ensures Aggregate(l) == l[|l| - 1].entries + Aggregate(l[..|l| - 1])
  {
  }

  lemma {:induction false} AggregateNone<K, V>(l: Layout<K, V>)
    requires l == []
    ensures Aggregate(l) == []
  {
  }

  /** The listings contain every entry of the table exactly as often as the table does. */
  lemma {:induction false} AggregateIsFlat<K, V>(l: Layout<K, V>)
    ensures |Aggregate(l)| == |Flat(l)|
    ensures forall e :: e in Aggregate(l) ==> e in Flat(l)
    ensures forall e :: e in Flat(l) ==> e in Aggregate(l)
  {
    if l != [] {
      AggregateFront(l);
      AggregateIsFlat(l[1..]);
      InConcat(Aggregate(l[1..]), l[0].entries);
      InConcat(l[0].entries, Flat(l[1..]));
    }
  }

  lemma {:induction false} MapOfAt<K, V, C>(kg: Keying<K, C>, es: seq<Entry<K, V>>)
    requires Distinct(kg, es)
    ensures forall e :: e in es ==> kg.canon(e.key) in MapOf(kg, es) && MapOf(kg, es)[kg.canon(e.key)] == e.value
  {
    if es != [] {
      var init, last := es[..|es| - 1], es[|es| - 1];
      MapOfAt(kg, init);
      forall e | e in es ensures kg.canon(e.key) in MapOf(kg, es) && MapOf(kg, es)[kg.canon(e.key)] == e.value {
        var i :| 0 <= i < |es| && es[i] == e;
        if i < |init| {
          assert init[i] == e;
          assert e in init && kg.canon(es[i].key) != kg.canon(last.key);
        }
      }
    }
  }

  // ----- equality of tables

  /** `equals`: same size, and every key listed here has the same value there. */
  ghost predicate EqualTables<K, V, C>(kg: Keying<K, C>, l: Layout<K, V>, m: Layout<K, V>) {
    && Size(l) == Size(m)
    && forall e :: e in Aggregate(l) ==> Get(kg, m, e.key).Some? && Get(kg, m, e.key) == Get(kg, l, e.key)
  }

  lemma {:induction false} SubsetOfSameSize<T>(a: set<T>, b: set<T>)
    requires a <= b && |a| == |b|
    ensures a == b
  {
    if a != b {
      var x :| x in b && x !in a;
      SubsetIsSmaller(a, b - {x});
    }
  }

  lemma {:induction false} SubsetIsSmaller<T>(a: set<T>, b: set<T>)
    requires a <= b
    ensures |a| <= |b|
  {
    if a != {} {
      var x :| x in a;
      SubsetIsSmaller(a - {x}, b - {x});
    }
  }

  /** Two tables are equal exactly if they stand for the same map. */
  lemma EqualsIffSameMap<K(!new), V, C(!new)>(kg: Keying<K, C>, l: Layout<K, V>, m: Layout<K, V>)
    requires Lawful(kg) && LayoutOk(kg, l) && LayoutOk(kg, m)
    ensures EqualTables(kg, l, m) <==> Contents(kg, l) == Contents(kg, m)
  {
    hide Flat, LayoutOk, Get, MapOf, Aggregate, Lawful;
    var a, b := Contents(kg, l), Contents(kg, m);
    SizeIsCardinality(kg, l);
    SizeIsCardinality(kg, m);
    AggregateIsFlat(l);
    MapOfMembers(kg, Flat(l));
    forall k: K ensures Get(kg, m, k) == Lookup(b, kg.canon(k)) && Get(kg, l, k) == Lookup(a, kg.canon(k)) {
      GetIsLookup(kg, m, k);
      GetIsLookup(kg, l, k);
    }
    if EqualTables(kg, l, m) {
      forall c | c in a ensures c in b && b[c] == a[c] {
        var e :| e in Flat(l) && kg.canon(e.key) == c;
        assert Get(kg, m, e.key) == Lookup(b, c);
      }
      assert |a.Keys| == |b.Keys|;
      SubsetOfSameSize(a.Keys, b.Keys);
    } else if a == b {
      forall e | e in Aggregate(l) ensures kg.canon(e.key) in a {
        assert e in Flat(l);
      }
    }
  }

  // ----- putAll

  lemma {:induction false} PutAllKeeps<K(!new), V, C(!new)>(kg: Keying<K, C>, replaceKey: bool, l: Layout<K, V>,
      es: seq<Entry<K, V>>)
    requires Lawful(kg) && LayoutOk(kg, l) && Distinct(kg, es)
    ensures LayoutOk(kg, PutAll(kg, replaceKey, l, es))
    ensures Contents(kg, PutAll(kg, replaceKey, l, es)) == Contents(kg, l) + MapOf(kg, es)
    decreases |es|
  {
    hide Put, LayoutOk, Contents, Lawful;
    if es != [] {
      var init, last := es[..|es| - 1], es[|es| - 1];
      PutIsUpdate(kg, replaceKey, l, last.key, last.value);
      PutAllKeeps(kg, replaceKey, Put(kg, replaceKey, l, last.key, last.value).0, init);
      forall e | e in init ensures kg.canon(e.key) != kg.canon(last.key) {
        var i :| 0 <= i < |init| && init[i] == e;
        assert es[i] == e;
      }
      NotInMap(kg, init, kg.canon(last.key));
    }
  }

  lemma {:induction false} SameMap<K, V, C>(kg: Keying<K, C>, a: seq<Entry<K, V>>, b: seq<Entry<K, V>>)
    requires Distinct(kg, a) && Distinct(kg, b)
    requires forall e :: e in a <==> e in b
    ensures MapOf(kg, a) == MapOf(kg, b)
  {
    hide MapOf;
    MapOfAt(kg, a);
    MapOfAt(kg, b);
    MapOfMembers(kg, a);
    MapOfMembers(kg, b);
    forall c | c in MapOf(kg, a) || c in MapOf(kg, b)
      ensures c in MapOf(kg, a) && c in MapOf(kg, b) && MapOf(kg, a)[c] == MapOf(kg, b)[c]
    {
      var e :| e in a && kg.canon(e.key) == c;
    }
  }

  lemma {:induction false} AggregateDistinct<K(!new), V, C(!new)>(kg: Keying<K, C>, l: Layout<K, V>)
    requires Lawful(kg) && LayoutOk(kg, l)
    ensures Distinct(kg, Aggregate(l))
  {
    if l != [] {
      AggregateFront(l);
      AggregateDistinct(kg, l[1..]);
      AggregateIsFlat(l[1..]);
      assert BucketOk(kg, l[0]);
      forall b | b in l[1..] ensures BucketOk(kg, b) && b.hash != l[0].hash {
        var j :| 0 <= j < |l[1..]| && l[1..][j] == b;
        assert BucketOk(kg, l[j + 1]);
      }
      FlatHashes(kg, l[1..], l[0].hash);
      forall x, y | x in Aggregate(l[1..]) && y in l[0].entries ensures kg.canon(x.key) != kg.canon(y.key) {
        assert x in Flat(l[1..]);
        assert kg.hash(x.key) != kg.hash(y.key);
      }
      DistinctConcat(kg, Aggregate(l[1..]), l[0].entries);
    }
  }

  /** `putAll` overrides this table's map by the other's. */
  lemma {:induction false} PutAllIsUnion<K(!new), V, C(!new)>(kg: Keying<K, C>, replaceKey: bool, l: Layout<K, V>,
      other: Layout<K, V>)
    requires Lawful(kg) && LayoutOk(kg, l) && LayoutOk(kg, other)
    ensures LayoutOk(kg, PutAll(kg, replaceKey, l, Aggregate(other)))
    ensures Contents(kg, PutAll(kg, replaceKey, l, Aggregate(other))) == Contents(kg, l) + Contents(kg, other)
  {
    hide PutAll, LayoutOk, Lawful;
    AggregateDistinct(kg, other);
    FlatDistinct(kg, other);
    AggregateIsFlat(other);
    SameMap(kg, Aggregate(other), Flat(other));
    PutAllKeeps(kg, replaceKey, l, Aggregate(other));
  }

  /** `b` is `a` with the entries `es` put into it: under a key that `a` holds with a truthy value, what the callback
      chooses from the key, that value and the entry's, and under any other key the entry's value. */
  ghost predicate Resolves<K, V, C>(kg: Keying<K, C>, conflict: Conflict<K, V>, a: map<C, V>, es: seq<Entry<K, V>>,
      b: map<C, V>) {
    && b.Keys == a.Keys + MapOf(kg, es).Keys
    && (forall e :: e in es && kg.canon(e.key) in b ==> StoresChoice(conflict, e, a, kg.canon(e.key), b))
    && (forall c :: c in a && c in b && c !in MapOf(kg, es) ==> b[c] == a[c])
  }

  predicate StoresChoice<K, V(==), C>(conflict: Conflict<K, V>, e: Entry<K, V>, a: map<C, V>, c: C, b: map<C, V>)
    requires c in b
  {
    && (conflict.Overwrite? || c !in a ==> b[c] == e.value)
    && (conflict.Callback? && c in a && !conflict.truthy(a[c]) ==> b[c] == e.value)
    && (conflict.Callback? && c in a && conflict.truthy(a[c]) ==> b[c] == conflict.choose(e.key, a[c], e.value))
  }

  lemma {:induction false} ResolvedKeys<K, V, C>(kg: Keying<K, C>, conflict: Conflict<K, V>, m: map<C, V>,
      es: seq<Entry<K, V>>)
    ensures MapOf(kg, Resolved(kg, conflict, m, es)).Keys == MapOf(kg, es).Keys
  {
    hide MapOf, Resolve;
    var rs := Resolved(kg, conflict, m, es);
    MapOfMembers(kg, rs);
    MapOfMembers(kg, es);
    forall c ensures c in MapOf(kg, rs) <==> c in MapOf(kg, es) {
      if c in MapOf(kg, rs) {
        var e :| e in rs && kg.canon(e.key) == c;
        var i :| 0 <= i < |rs| && rs[i] == e;
        assert es[i] in es;
      }
      if c in MapOf(kg, es) {
        var e :| e in es && kg.canon(e.key) == c;
        var i :| 0 <= i < |es| && es[i] == e;
        assert rs[i] in rs;
      }
    }
  }

  lemma {:induction false} ResolvedValues<K, V, C>(kg: Keying<K, C>, conflict: Conflict<K, V>, m: map<C, V>,
      es: seq<Entry<K, V>>)
    requires Distinct(kg, es)
    ensures var rs := Resolved(kg, conflict, m, es);
            && Distinct(kg, rs)
            && forall e :: e in es ==>
                 && kg.canon(e.key) in MapOf(kg, rs)
                 && MapOf(kg, rs)[kg.canon(e.key)] == Resolve(conflict, e.key, Lookup(m, kg.canon(e.key)), e.value)
  {
    hide MapOf, Resolve, Lookup;
    var rs := Resolved(kg, conflict, m, es);
    MapOfAt(kg, rs);
    forall e | e in es
      ensures kg.canon(e.key) in MapOf(kg, rs)
      ensures MapOf(kg, rs)[kg.canon(e.key)] == Resolve(conflict, e.key, Lookup(m, kg.canon(e.key)), e.value)
    {
      var i :| 0 <= i < |es| && es[i] == e;
      assert rs[i] in rs;
    }
  }

  lemma {:induction false} ResolvedMap<K, V, C>(kg: Keying<K, C>, conflict: Conflict<K, V>, m: map<C, V>,
      es: seq<Entry<K, V>>)
    requires Distinct(kg, es)
    ensures Distinct(kg, Resolved(kg, conflict, m, es))
    ensures Resolves(kg, conflict, m, es, m + MapOf(kg, Resolved(kg, conflict, m, es)))
  {
    hide MapOf, Resolved, Resolve, Distinct, Lookup, StoresChoice;
    ResolvedKeys(kg, conflict, m, es);
    ResolvedValues(kg, conflict, m, es);
    var rs := MapOf(kg, Resolved(kg, conflict, m, es));
    forall e | e in es ensures StoresChoice(conflict, e, m, kg.canon(e.key), m + rs) {
      ResolveIs(conflict, e, m, kg.canon(e.key), m + rs);
    }
  }

  lemma ResolveIs<K, V, C>(conflict: Conflict<K, V>, e: Entry<K, V>, a: map<C, V>, c: C, b: map<C, V>)
    requires c in b && b[c] == Resolve(conflict, e.key, Lookup(a, c), e.value)
    ensures StoresChoice(conflict, e, a, c, b)
  {
  }

  /** `putAll` stores every entry of the other table under the conflict rule, keeps all other keys, and keeps the
      invariant. */
  lemma {:induction false} PutAllResolves<K(!new), V, C(!new)>(
      kg: Keying<K, C>, replaceKey: bool, conflict: Conflict<K, V>, l: Layout<K, V>, other: Layout<K, V>)
    requires Lawful(kg) && LayoutOk(kg, l) && LayoutOk(kg, other)
    ensures var l' := PutAll(kg, replaceKey, l, Resolved(kg, conflict, Contents(kg, l), Aggregate(other)));
            && LayoutOk(kg, l')
            && Contents(kg, l') ==
               Contents(kg, l) + MapOf(kg, Resolved(kg, conflict, Contents(kg, l), Aggregate(other)))
            && Resolves(kg, conflict, Contents(kg, l), Aggregate(other), Contents(kg, l'))
  {
    hide PutAll, LayoutOk, Lawful, Contents, Resolves, MapOf;
    AggregateDistinct(kg, other);
    ResolvedMap(kg, conflict, Contents(kg, l), Aggregate(other));
    PutAllKeeps(kg, replaceKey, l, Resolved(kg, conflict, Contents(kg, l), Aggregate(other)));
  }

  /** Without a callback the entries are stored as they are. */
  lemma {:induction false} OverwriteResolves<K, V, C>(kg: Keying<K, C>, m: map<C, V>, es: seq<Entry<K, V>>)
    ensures Resolved(kg, Overwrite, m, es) == es
  {
  }

  /** The stored keys are those that the table lists. */
  lemma {:induction false} ListedIsStored<K(!new), V, C(!new)>(kg: Keying<K, C>, l: Layout<K, V>, e: Entry<K, V>)
    requires Lawful(kg) && LayoutOk(kg, l) && e in Aggregate(l)
    ensures kg.canon(e.key) in StoredKeys(kg, l) && StoredKeys(kg, l)[kg.canon(e.key)] == e.key
  {
    hide MapOf, LayoutOk, Lawful, Flat, Aggregate;
    AggregateIsFlat(l);
    KeyLayoutOk(kg, l);
    FlatKeys(l);
    FlatDistinct(kg, KeyLayout(l));
    MapOfAt(kg, Flat(KeyLayout(l)));
    var i :| 0 <= i < |Flat(l)| && Flat(l)[i] == e;
    assert KeyEntries(Flat(l))[i] in Flat(KeyLayout(l));
  }

  // ----- values

  ghost predicate Holds<C, V>(m: map<C, V>, value: V) {
    exists c :: c in m && m[c] == value
  }

  ghost predicate HasValue<K, V>(es: seq<Entry<K, V>>, value: V) {
    exists e :: e in es && e.value == value
  }

  lemma {:induction false} HasValueInMap<K(!new), V, C(!new)>(kg: Keying<K, C>, l: Layout<K, V>, value: V)
    requires Lawful(kg) && LayoutOk(kg, l)
    ensures HasValue(Flat(l), value) <==> Holds(Contents(kg, l), value)
  {
    hide Flat, MapOf, LayoutOk, Lawful;
    FlatDistinct(kg, l);
    MapOfAt(kg, Flat(l));
    MapOfMembers(kg, Flat(l));
    if HasValue(Flat(l), value) {
      var e :| e in Flat(l) && e.value == value;
      assert Contents(kg, l)[kg.canon(e.key)] == value;
    }
    if c :| c in Contents(kg, l) && Contents(kg, l)[c] == value {
      var e :| e in Flat(l) && kg.canon(e.key) == c;
      assert e.value == value;
    }
  }

  // ----- runs

  datatype Command<!K, !V> =
    | PutKey(key: K, value: V)
    | RemoveKey(key: K)
    | GetKey(key: K)
    | ContainsKey(key: K)
    | ContainsValue(value: V)
    | GetSize
    | PutAllOf(other: Layout<K, V>, conflict: Conflict<K, V>)
    | Clear

  /** A table that is put into this one keeps the invariant itself. */
  ghost predicate CommandOk<K, V, C>(kg: Keying<K, C>, c: Command<K, V>) {
    c.PutAllOf? ==> LayoutOk(kg, c.other)
  }

  datatype Reply<V> = Value(v: Option<V>) | Flag(b: bool) | Count(n: nat) | Done

  ghost function Execute<K, V, C>(kg: Keying<K, C>, replaceKey: bool, l: Layout<K, V>, c: Command<K, V>)
    : (Layout<K, V>, Reply<V>) {
    match c
    case PutKey(k, v) => var (l', was) := Put(kg, replaceKey, l, k, v); (l', Value(was))
    case RemoveKey(k) => var (l', was) := Remove(kg, l, k); (l', Value(was))
    case GetKey(k) => (l, Value(Get(kg, l, k)))
    case ContainsKey(k) => (l, Flag(Get(kg, l, k).Some?))
    case ContainsValue(v) => (l, Flag(HasValue(Flat(l), v)))
    case GetSize => (l, Count(Size(l)))
    case PutAllOf(other, conflict) =>
      (PutAll(kg, replaceKey, l, Resolved(kg, conflict, Contents(kg, l), Aggregate(other))), Done)
    case Clear => ([], Done)
  }

  /** The same command on a plain map. */
  ghost function ExecuteMap<K, V, C>(kg: Keying<K, C>, m: map<C, V>, c: Command<K, V>): (map<C, V>, Reply<V>) {
    match c
    case PutKey(k, v) => (m[kg.canon(k) := v], Value(Lookup(m, kg.canon(k))))
    case RemoveKey(k) => (m - {kg.canon(k)}, Value(Lookup(m, kg.canon(k))))
    case GetKey(k) => (m, Value(Lookup(m, kg.canon(k))))
    case ContainsKey(k) => (m, Flag(kg.canon(k) in m))
    case ContainsValue(v) => (m, Flag(Holds(m, v)))
    case GetSize => (m, Count(|m|))
    case PutAllOf(other, conflict) => (m + MapOf(kg, Resolved(kg, conflict, m, Aggregate(other))), Done)
    case Clear => (map[], Done)
  }

  ghost function Replies<K, V, C>(kg: Keying<K, C>, replaceKey: bool, l: Layout<K, V>, cs: seq<Command<K, V>>)
    : (Layout<K, V>, seq<Reply<V>>)
    decreases |cs|
  {
    if cs == [] then (l, [])
    else
      var (l1, r) := Execute(kg, replaceKey, l, cs[0]);
      var (l2, rs) := Replies(kg, replaceKey, l1, cs[1..]);
      (l2, [r] + rs)
  }

  ghost function RepliesMap<K, V, C>(kg: Keying<K, C>, m: map<C, V>, cs: seq<Command<K, V>>): (map<C, V>, seq<Reply<V>>)
    decreases |cs|
  {
    if cs == [] then (m, [])
    else
      var (m1, r) := ExecuteMap(kg, m, cs[0]);
      var (m2, rs) := RepliesMap(kg, m1, cs[1..]);
      (m2, [r] + rs)
  }

  lemma ExecuteAgrees<K(!new), V, C(!new)>(kg: Keying<K, C>, replaceKey: bool, l: Layout<K, V>, c: Command<K, V>)
    requires Lawful(kg) && LayoutOk(kg, l) && CommandOk(kg, c)
    ensures LayoutOk(kg, Execute(kg, replaceKey, l, c).0)
    ensures Contents(kg, Execute(kg, replaceKey, l, c).0) == ExecuteMap(kg, Contents(kg, l), c).0
    ensures Execute(kg, replaceKey, l, c).1 == ExecuteMap(kg, Contents(kg, l), c).1
  {
    hide Put, Remove, Get, PutAll, Contents, LayoutOk, Lawful, HasValue, Holds, Aggregate, Resolves, MapOf;
    match c
    case PutKey(k, v) => PutIsUpdate(kg, replaceKey, l, k, v);
    case RemoveKey(k) => RemoveIsDelete(kg, l, k);
    case GetKey(k) => GetIsLookup(kg, l, k);
    case ContainsKey(k) => GetIsLookup(kg, l, k);
    case ContainsValue(v) => HasValueInMap(kg, l, v);
    case GetSize => SizeIsCardinality(kg, l);
    case PutAllOf(other, conflict) => PutAllResolves(kg, replaceKey, conflict, l, other);
    case Clear => EmptyLayout(kg, Execute(kg, replaceKey, l, c).0);
  }

  /** Under any sequence of operations the table returns what a plain map would, stands for that map,
      and keeps its invariant. */
  lemma {:induction false} RunAgrees<K(!new), V, C(!new)>(kg: Keying<K, C>, replaceKey: bool, l: Layout<K, V>,
      cs: seq<Command<K, V>>)
    requires Lawful(kg) && LayoutOk(kg, l) && forall i :: 0 <= i < |cs| ==> CommandOk(kg, cs[i])
    ensures LayoutOk(kg, Replies(kg, replaceKey, l, cs).0)
    ensures Contents(kg, Replies(kg, replaceKey, l, cs).0) == RepliesMap(kg, Contents(kg, l), cs).0
    ensures Replies(kg, replaceKey, l, cs).1 == RepliesMap(kg, Contents(kg, l), cs).1
    decreases |cs|
  {
    hide Execute, ExecuteMap, LayoutOk, Lawful, Contents, CommandOk;
    if cs != [] {
      ExecuteAgrees(kg, replaceKey, l, cs[0]);
      RunAgrees(kg, replaceKey, Execute(kg, replaceKey, l, cs[0]).0, cs[1..]);
    }
  }

  // ----- clone

  function Reverse<T>(s: seq<T>): (r: seq<T>)
    ensures |r| == |s| && forall i :: 0 <= i < |s| ==> r[i] == s[|s| - 1 - i]
  {
    if s == [] then [] else [s[|s| - 1]] + Reverse(s[..|s| - 1])
  }

  /** The same buckets in the same order, each with its entries reversed. */
  function ReversedBuckets<K, V>(l: Layout<K, V>): (r: Layout<K, V>)
    ensures |r| == |l| && forall i :: 0 <= i < |l| ==> r[i] == Bucket(l[i].hash, Reverse(l[i].entries))
  {
    seq(|l|, i requires 0 <= i < |l| => Bucket(l[i].hash, Reverse(l[i].entries)))
  }

  lemma {:induction false} PutAllConcat<K, V, C>(kg: Keying<K, C>, replaceKey: bool, l: Layout<K, V>,
      a: seq<Entry<K, V>>, b: seq<Entry<K, V>>)
    ensures PutAll(kg, replaceKey, l, a + b) == PutAll(kg, replaceKey, PutAll(kg, replaceKey, l, b), a)
    decreases |b|
  {
    hide Put;
    if b == [] {
      assert a + b == a;
    } else {
      var last := b[|b| - 1];
      assert (a + b)[..|a + b| - 1] == a + b[..|b| - 1] && (a + b)[|a + b| - 1] == last;
      PutAllConcat(kg, replaceKey, Put(kg, replaceKey, l, last.key, last.value).0, a, b[..|b| - 1]);
    }
  }

  /** A key that the last bucket does not hold yet is appended to it. */
  lemma {:induction false} PutIntoLast<K(!new), V, C(!new)>(kg: Keying<K, C>, replaceKey: bool, t: Layout<K, V>,
      h: string, r: seq<Entry<K, V>>, e: Entry<K, V>)
    requires Lawful(kg) && kg.hash(e.key) == h
    requires forall i :: 0 <= i < |r| ==> kg.canon(r[i].key) != kg.canon(e.key)
    ensures Put(kg, replaceKey, t + [Bucket(h, r)], e.key, e.value).0 == t + [Bucket(h, r + [e])]
  {
    hide Lawful;
    var l := t + [Bucket(h, r)];
    assert FindBucket(l, h) == Some(|t|);
    FoundNone(kg, r, e.key);
    assert l[|t| := Bucket(h, r + [e])] == t + [Bucket(h, r + [e])];
  }

  /** Putting entries of one hash into a table whose last bucket has that hash appends them, last first. */
  lemma {:induction false} PutAllIntoLast<K(!new), V, C(!new)>(kg: Keying<K, C>, replaceKey: bool, t: Layout<K, V>,
      h: string, r: seq<Entry<K, V>>, es: seq<Entry<K, V>>)
    requires Lawful(kg) && Distinct(kg, es + r)
    requires forall e :: e in es ==> kg.hash(e.key) == h
    ensures PutAll(kg, replaceKey, t + [Bucket(h, r)], es) == t + [Bucket(h, r + Reverse(es))]
    decreases |es|
  {
    hide Lawful, Put;
    if es == [] {
      assert r + Reverse(es) == r;
    } else {
      var init, last := es[..|es| - 1], es[|es| - 1];
      assert last in es && es == init + [last];
      forall i | 0 <= i < |r| ensures kg.canon(r[i].key) != kg.canon(last.key) {
        assert (es + r)[|es| - 1] == last && (es + r)[|es| + i] == r[i];
      }
      PutIntoLast(kg, replaceKey, t, h, r, last);
      DistinctMoved(kg, init, last, r);
      assert forall e :: e in init ==> e in es;
      PutAllIntoLast(kg, replaceKey, t, h, r + [last], init);
      assert (r + [last]) + Reverse(init) == r + Reverse(es);
    }
  }

  lemma {:induction false} FoundNone<K(!new), V, C(!new)>(kg: Keying<K, C>, r: seq<Entry<K, V>>, k: K)
    requires Lawful(kg) && forall i :: 0 <= i < |r| ==> kg.canon(r[i].key) != kg.canon(k)
    ensures FindKey(kg, r, k) == None
  {
  }

  lemma DistinctMoved<K, V, C>(kg: Keying<K, C>, init: seq<Entry<K, V>>, last: Entry<K, V>, r: seq<Entry<K, V>>)
    requires Distinct(kg, (init + [last]) + r)
    ensures Distinct(kg, init + (r + [last]))
  {
    var a, b := (init + [last]) + r, init + (r + [last]);
    var n := |init|;
    forall i, j | 0 <= i < j < |b| ensures kg.canon(b[i].key) != kg.canon(b[j].key) {
      var i' := if i < n then i else if i == |b| - 1 then n else i + 1;
      var j' := if j < n then j else if j == |b| - 1 then n else j + 1;
      assert a[i'] == b[i] && a[j'] == b[j] && i' != j';
    }
  }

  lemma {:induction false} PutAllBucket<K(!new), V, C(!new)>(kg: Keying<K, C>, replaceKey: bool, t: Layout<K, V>,
      b: Bucket<K, V>)
    requires Lawful(kg) && BucketOk(kg, b) && FindBucket(t, b.hash).None?
    ensures PutAll(kg, replaceKey, t, b.entries) == t + [Bucket(b.hash, Reverse(b.entries))]
  {
    var es := b.entries;
    var init, last := es[..|es| - 1], es[|es| - 1];
    assert last in es && init + [last] == es;
    assert Put(kg, replaceKey, t, last.key, last.value).0 == t + [Bucket(b.hash, [last])];
    assert forall e :: e in init ==> e in es;
    PutAllIntoLast(kg, replaceKey, t, b.hash, [last], init);
    assert [last] + Reverse(init) == Reverse(es);
  }

  lemma {:induction false} NoBucket<K, V>(l: Layout<K, V>, h: string)
    requires forall i :: 0 <= i < |l| ==> l[i].hash != h
    ensures FindBucket(l, h).None?
  {
  }

  lemma {:induction false} PutAllLayout<K(!new), V, C(!new)>(kg: Keying<K, C>, replaceKey: bool, t: Layout<K, V>,
      l: Layout<K, V>)
    requires Lawful(kg) && LayoutOk(kg, l)
    requires forall i, j :: 0 <= i < |t| && 0 <= j < |l| ==> t[i].hash != l[j].hash
    ensures PutAll(kg, replaceKey, t, Aggregate(l)) == t + ReversedBuckets(l)
    decreases |l|
  {
    hide PutAll, Aggregate, BucketOk, ReversedBuckets, FindBucket;
    if l == [] {
      PutNothing(kg, replaceKey, t);
      assert t + ReversedBuckets(l) == t;
    } else {
      var t' := t + [Bucket(l[0].hash, Reverse(l[0].entries))];
      AggregateFront(l);
      PutAllConcat(kg, replaceKey, t, Aggregate(l[1..]), l[0].entries);
      NoBucket(t, l[0].hash);
      PutAllBucket(kg, replaceKey, t, l[0]);
      forall i, j | 0 <= i < |t'| && 0 <= j < |l[1..]| ensures t'[i].hash != l[1..][j].hash {
        assert l[1..][j] == l[j + 1];
      }
      PutAllLayout(kg, replaceKey, t', l[1..]);
      assert t' + ReversedBuckets(l[1..]) == t + ReversedBuckets(l);
    }
  }

  lemma {:induction false} PutNothing<K, V, C>(kg: Keying<K, C>, replaceKey: bool, t: Layout<K, V>)
    ensures PutAll(kg, replaceKey, t, Aggregate([])) == t
  {
  }

  lemma {:induction false} ReverseTwice<T>(s: seq<T>)
    ensures Reverse(Reverse(s)) == s
  {
  }

  /** `clone` keeps the buckets in order and reverses the entries inside each; it stands for the same
      map, and cloning the clone gives the original layout back. */
  lemma CloneReverses<K(!new), V, C(!new)>(kg: Keying<K, C>, replaceKey: bool, l: Layout<K, V>)
    requires Lawful(kg) && LayoutOk(kg, l)
    ensures Clone(kg, replaceKey, l) == ReversedBuckets(l)
    ensures LayoutOk(kg, Clone(kg, replaceKey, l))
    ensures Contents(kg, Clone(kg, replaceKey, l)) == Contents(kg, l)
    ensures Clone(kg, replaceKey, Clone(kg, replaceKey, l)) == l
  {
    hide PutAll, Aggregate, LayoutOk, MapOf, Lawful;
    var c, empty: Layout<K, V> := Clone(kg, replaceKey, l), [];
    EmptyLayout(kg, empty);
    PutAllLayout(kg, replaceKey, [], l);
    assert [] + ReversedBuckets(l) == ReversedBuckets(l);
    PutAllIsUnion(kg, replaceKey, empty, l);
    assert Contents(kg, empty) + Contents(kg, l) == Contents(kg, l);
    PutAllLayout(kg, replaceKey, [], c);
    assert [] + ReversedBuckets(c) == ReversedBuckets(c);
    forall i | 0 <= i < |l| ensures ReversedBuckets(c)[i] == l[i] {
      ReverseTwice(l[i].entries);
    }
  }

  lemma EmptyLayout<K, V, C>(kg: Keying<K, C>, l: Layout<K, V>)
    requires l == []
    ensures LayoutOk(kg, l) && Contents(kg, l) == map[]
  {
  }

  // ----- steps of the loops over a table

  lemma AggregateStep<K, V>(l: Layout<K, V>, i: nat, done: seq<Entry<K, V>>)
    requires i < |l|
    ensures done + Aggregate(l[..i + 1]) == (done + l[i].entries) + Aggregate(l[..i])
  {
    assert l[..i + 1][..i] == l[..i];
    assert done + (l[i].entries + Aggregate(l[..i])) == (done + l[i].entries) + Aggregate(l[..i]);
  }

  lemma HasValueStep<K, V>(l: Layout<K, V>, i: nat, value: V)
    requires i < |l|
    ensures HasValue(Flat(l[i..]), value) <==> HasValue(l[i].entries, value) || HasValue(Flat(l[i + 1..]), value)
  {
  }

  lemma FlatEnd<K, V>(l: Layout<K, V>)
    ensures Flat(l[|l|..]) == []
  {
  }

  lemma {:induction false} SuffixEntries<K, V>(l: Layout<K, V>, i: nat, value: V)
    requires i <= |l|
    ensures i == 0 ==> Flat(l[i..]) == Flat(l)
    ensures HasValue(Flat(l[i..]), value) ==> HasValue(Flat(l), value)
  {
    hide Flat;
    assert l == l[..i] + l[i..] && (i == 0 ==> l[i..] == l);
    FlatConcat(l[..i], l[i..]);
    InConcat(Flat(l[..i]), Flat(l[i..]));
    if HasValue(Flat(l[i..]), value) {
      var e :| e in Flat(l[i..]) && e.value == value;
      assert e in Flat(l);
    }
  }

  lemma LookupOthers<C, V>(m: map<C, V>, c: C, v: V)
    ensures forall d :: d != c ==> Lookup(m[c := v], d) == Lookup(m, d)
  {
  }

  ghost predicate Agree<C, V>(a: map<C, V>, b: map<C, V>, c: C) {
    Lookup(b, c).Some? && Lookup(b, c) == Lookup(a, c)
  }

  lemma Disagree<C, V>(a: map<C, V>, b: map<C, V>, c: C)
    requires c in a && (Lookup(b, c).None? || Lookup(b, c) != Lookup(a, c))
    ensures a != b
  {
  }

  lemma Agrees<C, V>(a: map<C, V>, b: map<C, V>, c: C)
    requires Lookup(b, c).Some? && Lookup(b, c) == Lookup(a, c)
    ensures Agree(a, b, c)
  {
  }

  lemma {:induction false} EntryInMap<K(!new), V, C(!new)>(kg: Keying<K, C>, l: Layout<K, V>, e: Entry<K, V>)
    requires Lawful(kg) && LayoutOk(kg, l) && e in Aggregate(l)
    ensures kg.canon(e.key) in Contents(kg, l)
  {
    AggregateIsFlat(l);
    MapOfMembers(kg, Flat(l));
  }

  lemma {:induction false} AllAgree<K(!new), V, C(!new)>(kg: Keying<K, C>, l: Layout<K, V>, m: Layout<K, V>,
      keys: seq<Entry<K, V>>)
    requires Lawful(kg) && LayoutOk(kg, l) && LayoutOk(kg, m)
    requires Size(l) == Size(m)
    requires keys == Aggregate(l)
    requires forall i :: 0 <= i < |keys| ==> Agree(Contents(kg, l), Contents(kg, m), kg.canon(keys[i].key))
    ensures EqualTables(kg, l, m)
  {
    hide Lawful, LayoutOk, Contents, Get, Aggregate;
    forall e | e in Aggregate(l)
      ensures Get(kg, m, e.key).Some?
      ensures Get(kg, m, e.key) == Get(kg, l, e.key)
    {
      var i :| 0 <= i < |keys| && keys[i] == e;
      GetIsLookup(kg, l, e.key);
      GetIsLookup(kg, m, e.key);
    }
  }

  lemma {:induction false} PutAllStep<K, V, C>(kg: Keying<K, C>, replaceKey: bool, l: Layout<K, V>,
      es: seq<Entry<K, V>>, i: nat)
    requires i < |es|
    ensures PutAll(kg, replaceKey, l, es[..i + 1]) ==
            PutAll(kg, replaceKey, Put(kg, replaceKey, l, es[i].key, es[i].value).0,
                es[..i])
  {
    hide Put;
    assert es[..i + 1][..i] == es[..i];
  }

  lemma {:induction false} PutAllEnd<K, V, C>(kg: Keying<K, C>, replaceKey: bool, l: Layout<K, V>, es: seq<Entry<K, V>>)
    ensures PutAll(kg, replaceKey, l, es[..0]) == l
  {
  }
}
