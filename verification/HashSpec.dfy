/**
 What hash_map.cpp's buckets mean. The table is a sequence of buckets; its meaning is a mathematical
 map from one representative key per equivalence class to a value.
 */
module HashSpec {
  import opened Prelude
  import opened LinkList

  datatype Entry<K, V> = Entry(key: K, value: V)

  type Buckets<K, V> = seq<seq<Entry<K, V>>>

  /** The user's hashCode and equal; equal answers 0 for "same key", as a comparison does. */
  datatype Keys<!K> = Keys(hash: K -> int, equal: (K, K) -> int) {
    predicate Same(a: K, b: K) { equal(a, b) == 0 }
  }

  /** What hashCode and equal must satisfy: an equivalence that hashCode respects. */
  ghost predicate Lawful<K(!new)>(ks: Keys<K>) {
    && (forall a :: ks.Same(a, a))
    && (forall a, b :: ks.Same(a, b) ==> ks.Same(b, a))
    && (forall a, b, c :: ks.Same(a, b) && ks.Same(b, c) ==> ks.Same(a, c))
    && (forall a, b :: ks.Same(a, b) ==> ks.hash(a) == ks.hash(b))
  }

  /** C's %, which truncates toward zero. */
  function TruncatedRemainder(a: int, n: int): int
    requires n > 0
  {
    if a >= 0 then a % n else -((-a) % n)
  }

  /** The bucket number: C's remainder, made non-negative. */
  function Index(hash: int, capacity: int): (i: int)
    requires capacity > 0
  {
    var r := TruncatedRemainder(hash, capacity);
    if r < 0 then r + capacity else r
  }

  /** The bucket number is always in range, and congruent to the hash, negative or not. */
  lemma IndexInRange(hash: int, capacity: int)
    requires capacity > 0
    ensures 0 <= Index(hash, capacity) < capacity
    ensures exists q :: hash == q * capacity + Index(hash, capacity)
  {
    if hash >= 0 {
      assert hash == (hash / capacity) * capacity + hash % capacity;
    } else {
      var m := -hash;
      var q, r := m / capacity, m % capacity;
      assert m == q * capacity + r;
      assert hash == (-q) * capacity - r;
      assert (-q - 1) * capacity == (-q) * capacity - capacity;
      assert hash == (if r == 0 then -q else -q - 1) * capacity + Index(hash, capacity);
    }
  }

  function BucketOf<K, V>(b: Buckets<K, V>, ks: Keys<K>, key: K): (i: nat)
    requires |b| > 0
    ensures i < |b|
  {
    IndexInRange(ks.hash(key), |b|);
    Index(ks.hash(key), |b|)
  }

  /** The comparison handed to the list: key against an entry. */
  function KeyCmp<K, V>(ks: Keys<K>): (K, Entry<K, V>) -> int {
    (k: K, e: Entry<K, V>) => ks.equal(k, e.key)
  }

  function Position<K, V>(b: Buckets<K, V>, ks: Keys<K>, key: K): (j: nat)
    requires |b| > 0
    ensures j <= |b[BucketOf(b, ks, key)]|
  {
    FirstMatch(b[BucketOf(b, ks, key)], key, KeyCmp(ks))
  }

  // ---------------------------------------------------------------- the operations on buckets

  function Lookup<K, V>(b: Buckets<K, V>, ks: Keys<K>, key: K): Option<V>
    requires |b| > 0
  {
    var i, j := BucketOf(b, ks, key), Position(b, ks, key);
    if j < |b[i]| then Some(b[i][j].value) else None
  }

  function Insert<K, V>(b: Buckets<K, V>, ks: Keys<K>, key: K, value: V): Buckets<K, V>
    requires |b| > 0
  {
    var i, j := BucketOf(b, ks, key), Position(b, ks, key);
    if j < |b[i]| then b[i := b[i][j := Entry(b[i][j].key, value)]]
    else b[i := b[i] + [Entry(key, value)]]
  }

  function Erase<K, V>(b: Buckets<K, V>, ks: Keys<K>, key: K): Buckets<K, V>
    requires |b| > 0
  {
    var i, j := BucketOf(b, ks, key), Position(b, ks, key);
    if j < |b[i]| then b[i := RemoveAt(b[i], j)] else b
  }

  function Empty<K, V>(n: nat): Buckets<K, V> { seq(n, _ => []) }

  function Size<K, V>(b: Buckets<K, V>): nat {
    if b == [] then 0 else Size(b[..|b| - 1]) + |b[|b| - 1]|
  }

  // ---------------------------------------------------------------- well-formed tables

  /** Bucket i of n: every entry belongs here by its hash, and no two entries have equal keys. */
  ghost predicate GoodBucket<K, V>(es: seq<Entry<K, V>>, ks: Keys<K>, i: nat, n: nat) {
    && n > 0
    && (forall j :: 0 <= j < |es| ==> Index(ks.hash(es[j].key), n) == i)
    && (forall j, k :: 0 <= j < |es| && 0 <= k < |es| && j != k ==> !ks.Same(es[j].key, es[k].key))
  }

  ghost predicate WellFormed<K, V>(b: Buckets<K, V>, ks: Keys<K>) {
    && |b| > 0
    && forall i :: 0 <= i < |b| ==> GoodBucket(b[i], ks, i, |b|)
  }

  /** An equal key, if the table has one anywhere, is in the bucket searched and at the place found. */
  lemma PositionIsExact<K(!new), V>(b: Buckets<K, V>, ks: Keys<K>, key: K, i: nat, j: nat)
    requires WellFormed(b, ks) && Lawful(ks) && i < |b| && j < |b[i]|
    ensures ks.Same(key, b[i][j].key) <==> i == BucketOf(b, ks, key) && j == Position(b, ks, key)
  {
    assert GoodBucket(b[i], ks, i, |b|);
    var p, q := BucketOf(b, ks, key), Position(b, ks, key);
    assert q < |b[p]| ==> ks.Same(b[p][q].key, key);
    assert q < |b[p]| && ks.Same(key, b[i][j].key) ==> ks.Same(b[p][q].key, b[i][j].key);
    if ks.Same(key, b[i][j].key) {
      assert ks.hash(key) == ks.hash(b[i][j].key);
      if j < q {
        NothingMatchesBefore(b[i], key, KeyCmp(ks), 0, j);
      }
    }
  }

  lemma InsertKeepsWellFormed<K(!new), V>(b: Buckets<K, V>, ks: Keys<K>, key: K, value: V)
    requires WellFormed(b, ks) && Lawful(ks)
    ensures WellFormed(Insert(b, ks, key, value), ks)
  {
    var i, j := BucketOf(b, ks, key), Position(b, ks, key);
    var b': Buckets<K, V> := Insert(b, ks, key, value);
    var es, es' := b[i], b'[i];
    assert GoodBucket(es, ks, i, |b|);
    if j < |es| {
      assert forall k :: 0 <= k < |es| ==> es'[k].key == es[k].key;
    } else {
      forall k: nat | k < |es| ensures !ks.Same(es[k].key, key) && !ks.Same(key, es[k].key) {
        PositionIsExact(b, ks, key, i, k);
      }
    }
    assert GoodBucket(es', ks, i, |b|);
    forall k | 0 <= k < |b'| ensures GoodBucket(b'[k], ks, k, |b'|) {
      assert GoodBucket(b[k], ks, k, |b|);
    }
  }

  lemma EraseKeepsWellFormed<K, V>(b: Buckets<K, V>, ks: Keys<K>, key: K)
    requires WellFormed(b, ks)
    ensures WellFormed(Erase(b, ks, key), ks)
  {
    var i, j := BucketOf(b, ks, key), Position(b, ks, key);
    var b': Buckets<K, V> := Erase(b, ks, key);
    assert GoodBucket(b[i], ks, i, |b|);
    if j < |b[i]| {
      RemoveAtIndices(b[i], j);
      assert GoodBucket(b'[i], ks, i, |b|);
    }
    forall k | 0 <= k < |b'| ensures GoodBucket(b'[k], ks, k, |b'|) {
      assert GoodBucket(b[k], ks, k, |b|);
    }
  }

  // ---------------------------------------------------------------- the map they stand for

  function BucketMap<K, V>(es: seq<Entry<K, V>>): map<K, V> {
    if es == [] then map[] else BucketMap(es[..|es| - 1])[es[|es| - 1].key := es[|es| - 1].value]
  }

  /** The table as a map from the stored keys to their values. */
  function AsMap<K, V>(b: Buckets<K, V>): map<K, V> {
    if b == [] then map[] else AsMap(b[..|b| - 1]) + BucketMap(b[|b| - 1])
  }

  ghost predicate HasEntry<K, V>(b: Buckets<K, V>, i: nat, j: nat, k: K) {
    i < |b| && j < |b[i]| && b[i][j].key == k
  }

  ghost predicate KeysDiffer<K(!new), V>(b: Buckets<K, V>) {
    forall i, j, i', j', k :: HasEntry(b, i, j, k) && HasEntry(b, i', j', k) ==> i == i' && j == j'
  }

  lemma WellFormedKeysDiffer<K(!new), V>(b: Buckets<K, V>, ks: Keys<K>)
    requires WellFormed(b, ks) && Lawful(ks)
    ensures KeysDiffer(b)
  {
    forall i, j, i', j', k | HasEntry(b, i, j, k) && HasEntry(b, i', j', k) ensures i == i' && j == j' {
      assert ks.Same(k, k);
      PositionIsExact(b, ks, k, i, j);
      PositionIsExact(b, ks, k, i', j');
    }
  }

  lemma {:induction false} BucketMapExact<K(!new), V>(es: seq<Entry<K, V>>)
    requires forall j, k :: 0 <= j < k < |es| ==> es[j].key != es[k].key
    ensures |BucketMap(es)| == |es|
    ensures forall j :: 0 <= j < |es| ==> es[j].key in BucketMap(es) && BucketMap(es)[es[j].key] == es[j].value
    ensures forall k :: k in BucketMap(es) ==> exists j :: 0 <= j < |es| && es[j].key == k
  {
    if es != [] {
      BucketMapExact(es[..|es| - 1]);
    }
  }

  /** m has exactly the entries stored in b. */
  ghost predicate Stores<K(!new), V>(b: Buckets<K, V>, m: map<K, V>) {
    && (forall i: nat, j: nat, k :: HasEntry(b, i, j, k) ==> k in m && m[k] == b[i][j].value)
    && (forall k :: k in m ==> exists i: nat, j: nat :: HasEntry(b, i, j, k))
  }

  lemma StoresUnique<K(!new), V>(b: Buckets<K, V>, m: map<K, V>, m': map<K, V>)
    requires Stores(b, m) && Stores(b, m')
    ensures m == m'
  {
    forall k | k in m ensures k in m' && m'[k] == m[k] {
      var i: nat, j: nat :| HasEntry(b, i, j, k);
    }
    forall k | k in m' ensures k in m {
      var i: nat, j: nat :| HasEntry(b, i, j, k);
    }
  }

  lemma {:induction false} AsMapExact<K(!new), V>(b: Buckets<K, V>)
    requires KeysDiffer(b)
    ensures Stores(b, AsMap(b)) && |AsMap(b)| == Size(b)
  {
    if b != [] {
      var a, es := b[..|b| - 1], b[|b| - 1];
      LastBucket(b);
      FrontKeysDiffer(b, a, es);
      AsMapExact(a);
      AsMapExtends(b, a, es);
    }
  }

  lemma LastBucket<K, V>(b: Buckets<K, V>)
    requires b != []
    ensures b == b[..|b| - 1] + [b[|b| - 1]]
  {
  }

  lemma AsMapExtends<K(!new), V>(b: Buckets<K, V>, a: Buckets<K, V>, es: seq<Entry<K, V>>)
    requires b == a + [es] && KeysDiffer(b)
    requires Stores(a, AsMap(a)) && |AsMap(a)| == Size(a)
    ensures Stores(b, AsMap(b)) && |AsMap(b)| == Size(b)
  {
    OneMoreBucket(a, es);
    AddBucketStores(b, a, es, AsMap(a));
    AddBucketSize(b, a, es, AsMap(a));
  }

  lemma OneMoreBucket<K, V>(a: Buckets<K, V>, es: seq<Entry<K, V>>)
    ensures AsMap(a + [es]) == AsMap(a) + BucketMap(es) && Size(a + [es]) == Size(a) + |es|
  {
    assert (a + [es])[..|a|] == a;
  }

  lemma FrontKeysDiffer<K(!new), V>(b: Buckets<K, V>, a: Buckets<K, V>, es: seq<Entry<K, V>>)
    requires KeysDiffer(b) && b == a + [es]
    ensures KeysDiffer(a)
  {
    forall i, j, i', j', k | HasEntry(a, i, j, k) && HasEntry(a, i', j', k) ensures i == i' && j == j' {
      assert HasEntry(b, i, j, k) && HasEntry(b, i', j', k);
    }
  }

  /** Within one bucket the keys differ too. */
  lemma BucketKeysDiffer<K(!new), V>(b: Buckets<K, V>, a: Buckets<K, V>, es: seq<Entry<K, V>>)
    requires b == a + [es] && KeysDiffer(b)
    ensures forall j, k :: 0 <= j < k < |es| ==> es[j].key != es[k].key
  {
    forall j, k | 0 <= j < k < |es| ensures es[j].key != es[k].key {
      assert HasEntry(b, |a|, j, es[j].key) && HasEntry(b, |a|, k, es[k].key);
    }
  }

  lemma AddBucketStores<K(!new), V>(b: Buckets<K, V>, a: Buckets<K, V>, es: seq<Entry<K, V>>, m: map<K, V>)
    requires b == a + [es] && KeysDiffer(b) && Stores(a, m)
    ensures Stores(b, m + BucketMap(es))
  {
    BucketKeysDiffer(b, a, es);
    BucketMapExact(es);
    NewBucketDisjoint(b, a, es, m, BucketMap(es));
    NewBucketEntries(b, a, es, m, BucketMap(es));
  }

  lemma AddBucketSize<K(!new), V>(b: Buckets<K, V>, a: Buckets<K, V>, es: seq<Entry<K, V>>, m: map<K, V>)
    requires b == a + [es] && KeysDiffer(b) && Stores(a, m)
    ensures |m + BucketMap(es)| == |m| + |es|
  {
    BucketKeysDiffer(b, a, es);
    BucketMapExact(es);
    NewBucketDisjoint(b, a, es, m, BucketMap(es));
    DisjointUnionSize(m, BucketMap(es));
  }

  lemma NewBucketDisjoint<K(!new), V>(b: Buckets<K, V>, a: Buckets<K, V>, es: seq<Entry<K, V>>,
                                      m: map<K, V>, e: map<K, V>)
    requires b == a + [es] && KeysDiffer(b) && Stores(a, m)
    requires forall k :: k in e ==> exists j :: 0 <= j < |es| && es[j].key == k
    ensures m.Keys !! e.Keys
  {
    forall k | k in m && k in e ensures false {
      var i: nat, j: nat :| HasEntry(a, i, j, k);
      var j': nat :| j' < |es| && es[j'].key == k;
      assert HasEntry(b, i, j, k) && HasEntry(b, |a|, j', k);
    }
  }

  lemma NewBucketEntries<K(!new), V>(b: Buckets<K, V>, a: Buckets<K, V>, es: seq<Entry<K, V>>,
                                     m: map<K, V>, e: map<K, V>)
    requires b == a + [es] && Stores(a, m) && m.Keys !! e.Keys
    requires forall k :: k in e ==> exists j :: 0 <= j < |es| && es[j].key == k
    requires forall j :: 0 <= j < |es| ==> es[j].key in e && e[es[j].key] == es[j].value
    ensures forall i: nat, j: nat, k :: HasEntry(b, i, j, k) ==> k in m + e && (m + e)[k] == b[i][j].value
    ensures forall k :: k in m + e ==> exists i: nat, j: nat :: HasEntry(b, i, j, k)
  {
    forall k | k in m + e ensures exists i: nat, j: nat :: HasEntry(b, i, j, k) {
      if k in m {
        var i: nat, j: nat :| HasEntry(a, i, j, k);
        assert HasEntry(b, i, j, k);
      } else {
        var j: nat :| j < |es| && es[j].key == k;
        assert HasEntry(b, |a|, j, k);
      }
    }
    forall i: nat, j: nat, k | HasEntry(b, i, j, k) ensures k in m + e && (m + e)[k] == b[i][j].value {
      if i < |a| { assert HasEntry(a, i, j, k); }
    }
  }

  lemma DisjointUnionSize<K, V>(a: map<K, V>, b: map<K, V>)
    requires a.Keys !! b.Keys
    ensures |a + b| == |a| + |b|
  {
    assert (a + b).Keys == a.Keys + b.Keys;
    assert |(a + b).Keys| == |a.Keys| + |b.Keys|;
  }

  // ---------------------------------------------------------------- refinement of a map

  /** The stored key equal to key, or key itself if there is none. */
  ghost function Rep<K(!new), V>(m: map<K, V>, ks: Keys<K>, key: K): (r: K)
    ensures r in m ==> ks.Same(key, r) || r == key
  {
    if r :| r in m && ks.Same(key, r) then r else key
  }

  lemma RepIsPosition<K(!new), V>(b: Buckets<K, V>, ks: Keys<K>, key: K)
    requires WellFormed(b, ks) && Lawful(ks)
    ensures var i, j, m := BucketOf(b, ks, key), Position(b, ks, key), AsMap(b);
            if j < |b[i]| then Rep(m, ks, key) == b[i][j].key && Rep(m, ks, key) in m && m[Rep(m, ks, key)] == b[i][j].value
            else Rep(m, ks, key) == key && key !in m
  {
    var i, j, m := BucketOf(b, ks, key), Position(b, ks, key), AsMap(b);
    WellFormedKeysDiffer(b, ks);
    AsMapExact(b);
    assert ks.Same(key, key);
    forall r | r in m && ks.Same(key, r) ensures j < |b[i]| && r == b[i][j].key {
      var p: nat, q: nat :| HasEntry(b, p, q, r);
      PositionIsExact(b, ks, key, p, q);
    }
    if j < |b[i]| {
      assert HasEntry(b, i, j, b[i][j].key);
    }
  }

  /** find returns the value stored under the equal key, if there is one. */
  lemma LookupRefines<K(!new), V>(b: Buckets<K, V>, ks: Keys<K>, key: K)
    requires WellFormed(b, ks) && Lawful(ks)
    ensures var m := AsMap(b); var r := Rep(m, ks, key);
            Lookup(b, ks, key) == if r in m then Some(m[r]) else None
  {
    RepIsPosition(b, ks, key);
  }

  lemma InsertRefines<K(!new), V>(b: Buckets<K, V>, ks: Keys<K>, key: K, value: V)
    requires WellFormed(b, ks) && Lawful(ks)
    ensures AsMap(Insert(b, ks, key, value)) == AsMap(b)[Rep(AsMap(b), ks, key) := value]
  {
    var b': Buckets<K, V> := Insert(b, ks, key, value);
    var m, r := AsMap(b), Rep(AsMap(b), ks, key);
    InsertKeepsWellFormed(b, ks, key, value);
    WellFormedKeysDiffer(b, ks);
    WellFormedKeysDiffer(b', ks);
    AsMapExact(b);
    AsMapExact(b');
    RepIsPosition(b, ks, key);
    InsertStores(b, ks, key, value, m, r);
    StoresUnique(b', AsMap(b'), m[r := value]);
  }

  lemma InsertStores<K(!new), V>(b: Buckets<K, V>, ks: Keys<K>, key: K, value: V, m: map<K, V>, r: K)
    requires |b| > 0 && Stores(b, m) && KeysDiffer(b)
    requires var i, j := BucketOf(b, ks, key), Position(b, ks, key);
             if j < |b[i]| then r == b[i][j].key else r == key && key !in m
    ensures Stores(Insert(b, ks, key, value), m[r := value])
  {
    var i, j := BucketOf(b, ks, key), Position(b, ks, key);
    var b': Buckets<K, V> := Insert(b, ks, key, value);
    forall p: nat, q: nat, k | HasEntry(b', p, q, k) ensures k in m[r := value] && m[r := value][k] == b'[p][q].value {
      if p != i || q != j {
        assert HasEntry(b, p, q, k);
        if k == r {
          assert j < |b[i]| ==> HasEntry(b, i, j, k);
        }
      }
    }
    var m' := m[r := value];
    forall k | k in m' ensures exists p: nat, q: nat :: HasEntry(b', p, q, k) {
      if k == r {
        assert HasEntry(b', i, j, k);
      } else {
        var p: nat, q: nat :| HasEntry(b, p, q, k);
        assert HasEntry(b', p, q, k);
      }
    }
  }

  lemma EraseRefines<K(!new), V>(b: Buckets<K, V>, ks: Keys<K>, key: K)
    requires WellFormed(b, ks) && Lawful(ks)
    ensures AsMap(Erase(b, ks, key)) == AsMap(b) - {Rep(AsMap(b), ks, key)}
  {
    var i, j := BucketOf(b, ks, key), Position(b, ks, key);
    var b': Buckets<K, V> := Erase(b, ks, key);
    var m, r := AsMap(b), Rep(AsMap(b), ks, key);
    RepIsPosition(b, ks, key);
    if j < |b[i]| {
      EraseKeepsWellFormed(b, ks, key);
      WellFormedKeysDiffer(b, ks);
      WellFormedKeysDiffer(b', ks);
      AsMapExact(b);
      AsMapExact(b');
      EraseStores(b, i, j, m);
      StoresUnique(b', AsMap(b'), m - {r});
    } else {
      assert b' == b;
    }
  }

  lemma EraseStores<K(!new), V>(b: Buckets<K, V>, i: nat, j: nat, m: map<K, V>)
    requires i < |b| && j < |b[i]| && Stores(b, m) && KeysDiffer(b)
    ensures Stores(b[i := RemoveAt(b[i], j)], m - {b[i][j].key})
  {
    var b': Buckets<K, V> := b[i := RemoveAt(b[i], j)];
    var r := b[i][j].key;
    RemoveAtIndices(b[i], j);
    assert HasEntry(b, i, j, r);
    forall p: nat, q: nat, k | HasEntry(b', p, q, k) ensures k in m - {r} && (m - {r})[k] == b'[p][q].value {
      var q' := if p == i && q >= j then q + 1 else q;
      assert HasEntry(b, p, q', k) && b'[p][q] == b[p][q'];
    }
    forall k | k in m && k != r ensures exists p: nat, q: nat :: HasEntry(b', p, q, k) {
      var p: nat, q: nat :| HasEntry(b, p, q, k);
      var q' := if p == i && q > j then q - 1 else q;
      assert HasEntry(b', p, q', k);
    }
  }

  lemma {:induction false} EmptyIsEmpty<K(!new), V>(n: nat)
    ensures AsMap<K, V>(Empty(n)) == map[] && Size<K, V>(Empty(n)) == 0
  {
    if n > 0 {
      assert Empty<K, V>(n)[..n - 1] == Empty(n - 1);
      EmptyIsEmpty<K, V>(n - 1);
    }
  }

  // ---------------------------------------------------------------- what a caller observes

  /** A stored entry with an equal key is what lookup finds. */
  lemma LookupFinds<K(!new), V>(b: Buckets<K, V>, ks: Keys<K>, key: K, i: nat, j: nat)
    requires WellFormed(b, ks) && Lawful(ks) && i < |b| && j < |b[i]| && ks.equal(key, b[i][j].key) == 0
    ensures Lookup(b, ks, key) == Some(b[i][j].value)
  {
    PositionIsExact(b, ks, key, i, j);
  }

  /** After inserting, an equal key finds the new value, and every other key what it found before. */
  lemma LookupAfterInsert<K(!new), V>(b: Buckets<K, V>, ks: Keys<K>, key: K, value: V, other: K)
    requires WellFormed(b, ks) && Lawful(ks)
    ensures Lookup(Insert(b, ks, key, value), ks, other)
            == if ks.equal(other, key) == 0 then Some(value) else Lookup(b, ks, other)
  {
    var b': Buckets<K, V> := Insert(b, ks, key, value);
    var i, j := BucketOf(b, ks, key), Position(b, ks, key);
    InsertKeepsWellFormed(b, ks, key, value);
    assert ks.Same(key, key) && ks.Same(key, b'[i][j].key) && b'[i][j].value == value;
    if ks.Same(other, key) {
      assert ks.Same(other, b'[i][j].key);
      LookupFinds(b', ks, other, i, j);
    } else {
      OthersSeeTheSame(b, b', ks, other, i, j);
    }
  }

  /** Tables that differ only in an entry whose key is another one look the same to a key. */
  lemma OthersSeeTheSame<K(!new), V>(b: Buckets<K, V>, b': Buckets<K, V>, ks: Keys<K>, other: K, i: nat, j: nat)
    requires WellFormed(b, ks) && WellFormed(b', ks) && Lawful(ks) && |b'| == |b|
    requires forall p: nat, q: nat, k :: HasEntry(b, p, q, k) && ks.Same(other, k) ==>
               HasEntry(b', p, q, k) && b'[p][q].value == b[p][q].value
    requires forall p: nat, q: nat, k :: HasEntry(b', p, q, k) && ks.Same(other, k) ==> HasEntry(b, p, q, k)
    ensures Lookup(b', ks, other) == Lookup(b, ks, other)
  {
    var p := BucketOf(b, ks, other);
    var q, q' := Position(b, ks, other), Position(b', ks, other);
    if q < |b[p]| {
      assert HasEntry(b, p, q, b[p][q].key);
      LookupFinds(b', ks, other, p, q);
    } else if q' < |b'[p]| {
      assert HasEntry(b', p, q', b'[p][q'].key);
      LookupFinds(b, ks, other, p, q');
    }
  }

  /** After erasing, an equal key finds nothing, and every other key what it found before. */
  lemma LookupAfterErase<K(!new), V>(b: Buckets<K, V>, ks: Keys<K>, key: K, other: K)
    requires WellFormed(b, ks) && Lawful(ks)
    ensures Lookup(Erase(b, ks, key), ks, other) == if ks.equal(other, key) == 0 then None else Lookup(b, ks, other)
  {
    EraseKeepsWellFormed(b, ks, key);
    if ks.Same(other, key) { ErasedIsGone(b, ks, key, other); } else { OthersSurviveErase(b, ks, key, other); }
  }

  lemma ErasedIsGone<K(!new), V>(b: Buckets<K, V>, ks: Keys<K>, key: K, other: K)
    requires WellFormed(b, ks) && Lawful(ks) && WellFormed(Erase(b, ks, key), ks) && ks.Same(other, key)
    ensures Lookup(Erase(b, ks, key), ks, other) == None
  {
    var b': Buckets<K, V> := Erase(b, ks, key);
    var i, j := BucketOf(b, ks, key), Position(b, ks, key);
    var p, q := BucketOf(b', ks, other), Position(b', ks, other);
    if q < |b'[p]| {
      var k := b'[p][q].key;
      assert ks.Same(other, k) && ks.Same(key, other) && ks.Same(key, k);
      if j < |b[i]| { RemoveAtIndices(b[i], j); }
      var q0 := if j < |b[i]| && p == i && q >= j then q + 1 else q;
      assert b[p][q0] == b'[p][q];
      PositionIsExact(b, ks, key, p, q0);
    }
  }

  lemma OthersSurviveErase<K(!new), V>(b: Buckets<K, V>, ks: Keys<K>, key: K, other: K)
    requires WellFormed(b, ks) && Lawful(ks) && WellFormed(Erase(b, ks, key), ks) && !ks.Same(other, key)
    ensures Lookup(Erase(b, ks, key), ks, other) == Lookup(b, ks, other)
  {
    var b': Buckets<K, V> := Erase(b, ks, key);
    var i, j := BucketOf(b, ks, key), Position(b, ks, key);
    if j < |b[i]| {
      var p, q, q' := BucketOf(b, ks, other), Position(b, ks, other), Position(b', ks, other);
      RemoveAtIndices(b[i], j);
      if q < |b[p]| {
        assert !(p == i && q == j) by {
          if p == i && q == j { assert ks.Same(key, b[i][j].key) && ks.Same(other, b[i][j].key); }
        }
        var q1 := if p == i && q > j then q - 1 else q;
        assert b'[p][q1] == b[p][q];
        LookupFinds(b', ks, other, p, q1);
      } else if q' < |b'[p]| {
        var q0 := if p == i && q' >= j then q' + 1 else q';
        assert b[p][q0] == b'[p][q'];
        LookupFinds(b, ks, other, p, q0);
      }
    }
  }

  lemma LookupInEmpty<K(!new), V>(n: nat, ks: Keys<K>, key: K)
    requires n > 0
    ensures Lookup(Empty<K, V>(n), ks, key) == None
  {
  }

  // ---------------------------------------------------------------- any sequence of operations

  datatype Op<K, V> = Put(key: K, value: V) | Remove(key: K) | Clear

  function RunTable<K, V>(b: Buckets<K, V>, ks: Keys<K>, ops: seq<Op<K, V>>): (r: Buckets<K, V>)
    requires |b| > 0
    ensures |r| > 0
    decreases |ops|
  {
    if ops == [] then b
    else match ops[0]
      case Put(key, value) => RunTable(Insert(b, ks, key, value), ks, ops[1..])
      case Remove(key) => RunTable(Erase(b, ks, key), ks, ops[1..])
      case Clear => RunTable(Empty(|b|), ks, ops[1..])
  }

  ghost function RunMap<K(!new), V>(m: map<K, V>, ks: Keys<K>, ops: seq<Op<K, V>>): map<K, V>
    decreases |ops|
  {
    if ops == [] then m
    else match ops[0]
      case Put(key, value) => RunMap(m[Rep(m, ks, key) := value], ks, ops[1..])
      case Remove(key) => RunMap(m - {Rep(m, ks, key)}, ks, ops[1..])
      case Clear => RunMap(map[], ks, ops[1..])
  }

  /** Over any sequence of operations the table is the map, and its size is the map's cardinality. */
  lemma {:induction false} RunRefinesMap<K(!new), V>(b: Buckets<K, V>, ks: Keys<K>, ops: seq<Op<K, V>>)
    requires WellFormed(b, ks) && Lawful(ks)
    ensures var z := RunTable(b, ks, ops);
            WellFormed(z, ks) && AsMap(z) == RunMap(AsMap(b), ks, ops) && Size(z) == |AsMap(z)|
    decreases |ops|
  {
    if ops == [] {
      WellFormedKeysDiffer(b, ks);
      AsMapExact(b);
    } else {
      match ops[0]
      case Put(key, value) =>
        InsertKeepsWellFormed(b, ks, key, value);
        InsertRefines(b, ks, key, value);
        RunRefinesMap(Insert(b, ks, key, value), ks, ops[1..]);
      case Remove(key) =>
        EraseKeepsWellFormed(b, ks, key);
        EraseRefines(b, ks, key);
        RunRefinesMap(Erase(b, ks, key), ks, ops[1..]);
      case Clear =>
        EmptyIsEmpty<K, V>(|b|);
        RunRefinesMap(Empty(|b|), ks, ops[1..]);
    }
  }
}
