/** hash_map.cpp: a chained hash map whose buckets are linked lists. */
module HashMap {
  import opened Prelude
  import opened LinkList
  import HashSpec

  class HashMap<K(!new), V> {
    var size: int
    var capacity: int
    const capacityTmp: int
    const keys: HashSpec.Keys<K>
    var entryList: seq<LList<HashSpec.Entry<K, V>>>
    ghost var buckets: HashSpec.Buckets<K, V>
    ghost var repr: set<object>

    /** The state between the constructor and init. */
    ghost predicate Created()
      reads this
    {
      size == 0 && capacity == 0 && entryList == [] && buckets == [] && repr == {this}
    }

    /** Bucket i is a valid list of its own, holding buckets[i]. */
    ghost predicate ListOk(i: nat)
      reads this, repr
      requires i < |entryList| == |buckets| && entryList[i] in repr && entryList[i].repr <= repr
    {
      this !in entryList[i].repr && entryList[i].Valid() && entryList[i].contents == buckets[i]
    }

    ghost predicate Heap()
      reads this, repr
    {
      && this in repr && |buckets| == |entryList|
      && (forall i :: 0 <= i < |entryList| ==> entryList[i] in repr)
      && (forall i :: 0 <= i < |entryList| ==> entryList[i].repr <= repr)
      && (forall i, j :: 0 <= i < j < |entryList| ==> entryList[i].repr !! entryList[j].repr)
      && (forall i :: 0 <= i < |entryList| ==> ListOk(i))
    }

    ghost predicate Valid()
      reads this, repr
    {
      && Heap() && capacity == |entryList|
      && HashSpec.Lawful(keys) && HashSpec.WellFormed(buckets, keys)
      && size == HashSpec.Size(buckets)
    }

    constructor (keys: HashSpec.Keys<K>, capacity: int)
      ensures Created() && fresh(repr) && this.keys == keys && capacityTmp == capacity
    {
      this.size := 0;
      this.capacity := 0;
      this.keys := keys;
      this.capacityTmp := capacity;
      this.entryList := [];
      this.buckets := [];
      this.repr := {this};
    }

    method AddBucket()
      requires Heap()
      modifies this
      ensures Heap() && fresh(repr - old(repr))
      ensures |entryList| == |old(entryList)| + 1 && buckets == old(buckets) + [[]]
      ensures size == old(size) && capacity == old(capacity)
    {
      var list := new LList<HashSpec.Entry<K, V>>();
      ghost var n := |entryList|;
      entryList := entryList + [list];
      buckets := buckets + [[]];
      repr := repr + list.repr;
      forall k: nat | k < n ensures ListOk(k) {
        assert old(ListOk(k));
      }
      assert ListOk(n);
    }

    method Init() returns (ret: int)
      requires Created() && HashSpec.Lawful(keys)
      modifies this
      ensures fresh(repr - old(repr)) && ret == 0 && capacity == capacityTmp
      ensures capacity > 0 ==> Valid() && buckets == HashSpec.Empty(capacity)
      ensures capacity <= 0 ==> Heap() && entryList == [] && size == 0
    {
      capacity := capacityTmp;
      var i := 0;
      while i < capacity
        invariant 0 <= i && (if capacity > 0 then i <= capacity else i == 0)
        invariant capacity == capacityTmp && size == 0
        invariant Heap() && i == |entryList| && fresh(repr - {this})
        invariant buckets == HashSpec.Empty(i)
      {
        AddBucket();
        assert HashSpec.Empty<K, V>(i + 1) == HashSpec.Empty<K, V>(i) + [[]];
        i := i + 1;
      }
      EmptyTable();
      ret := 0;
    }

    lemma EmptyTable()
      ensures capacity > 0 ==> HashSpec.WellFormed(HashSpec.Empty<K, V>(capacity), keys)
      ensures capacity >= 0 ==> HashSpec.Size(HashSpec.Empty<K, V>(capacity)) == 0
    {
      if capacity > 0 {
        HashSpec.EmptyIsEmpty<K, V>(capacity);
      }
    }

    /** The other buckets do not notice what happens inside bucket i. */
    twostate lemma OthersUntouched(i: nat)
      requires old(Heap()) && i < |old(entryList)| && entryList == old(entryList) && buckets == old(buckets)
      requires forall o: object :: o in old(repr) && o !in old(entryList[i].repr) ==> o == this || unchanged(o)
      requires repr == old(repr)
      ensures forall k :: 0 <= k < |entryList| && k != i ==>
                entryList[k].repr == old(entryList[k].repr) && ListOk(k)
    {
      forall k: nat | k < |entryList| && k != i
        ensures entryList[k].repr == old(entryList[k].repr) && ListOk(k)
      {
        assert old(ListOk(k));
        assert old(entryList[k].repr) !! old(entryList[i].repr);
        assert entryList[k] in old(entryList[k].repr);
      }
    }

    /** The table does not depend on the size field. */
    twostate lemma SizeIsApart()
      requires old(Heap()) && entryList == old(entryList) && buckets == old(buckets) && repr == old(repr)
      requires forall o: object :: o in old(repr) && o != this ==> unchanged(o)
      ensures Heap()
    {
      forall k: nat | k < |entryList| ensures entryList[k].repr == old(entryList[k].repr) && ListOk(k) {
        assert old(ListOk(k));
        assert entryList[k] in old(entryList[k].repr);
      }
    }

    method AppendTo(i: nat, e: HashSpec.Entry<K, V>) returns (ret: int)
      requires Heap() && i < |entryList|
      modifies repr
      ensures Heap() && fresh(repr - old(repr)) && ret == 0
      ensures buckets == old(buckets)[i := old(buckets)[i] + [e]]
      ensures size == old(size) && capacity == old(capacity) && entryList == old(entryList)
    {
      assert ListOk(i);
      ret := entryList[i].Insert(e, Backward);
      OthersUntouched(i);
      buckets := buckets[i := buckets[i] + [e]];
      repr := repr + entryList[i].repr;
    }

    /** AppendTo, counted in the size field. */
    method AppendNew(i: nat, e: HashSpec.Entry<K, V>) returns (ret: int)
      requires Heap() && i < |entryList|
      modifies repr
      ensures Heap() && fresh(repr - old(repr)) && ret == 0
      ensures buckets == old(buckets)[i := old(buckets)[i] + [e]]
      ensures size == old(size) + 1 && capacity == old(capacity) && entryList == old(entryList)
    {
      ret := AppendTo(i, e);
      label appended:
      size := size + 1;
      SizeIsApart@appended();
    }

    method Overwrite(i: nat, ghost j: nat, n: Node<HashSpec.Entry<K, V>>, e: HashSpec.Entry<K, V>)
      requires Heap() && i < |entryList| && j < |entryList[i].nodes| && n == entryList[i].nodes[j]
      modifies repr
      ensures Heap() && repr == old(repr)
      ensures j < |old(buckets)[i]| && buckets == old(buckets)[i := old(buckets)[i][j := e]]
      ensures size == old(size) && capacity == old(capacity) && entryList == old(entryList)
    {
      assert ListOk(i);
      entryList[i].SetData(n, j, e);
      OthersUntouched(i);
      buckets := buckets[i := entryList[i].contents];
    }

    method DeleteFrom(i: nat, key: K) returns (ret: int)
      requires Heap() && i < |entryList|
      modifies repr
      ensures Heap() && repr == old(repr)
      ensures var j := FirstMatch(old(buckets)[i], key, HashSpec.KeyCmp(keys));
              if j == |old(buckets)[i]| then ret == -1 && buckets == old(buckets)
              else ret == 0 && buckets == old(buckets)[i := RemoveAt(old(buckets)[i], j)]
      ensures size == old(size) && capacity == old(capacity) && entryList == old(entryList)
    {
      assert ListOk(i);
      var destroyed;
      ret, destroyed := entryList[i].Delete(key, HashSpec.KeyCmp<K, V>(keys));
      OthersUntouched(i);
      buckets := buckets[i := entryList[i].contents];
    }

    method ClearBucket(i: nat) returns (n: nat)
      requires Heap() && i < |entryList|
      modifies repr
      ensures Heap() && repr == old(repr)
      ensures n == |old(buckets)[i]| && buckets == old(buckets)[i := []]
      ensures size == old(size) && capacity == old(capacity) && entryList == old(entryList)
    {
      assert ListOk(i);
      var destroyed;
      n, destroyed := entryList[i].Clear();
      OthersUntouched(i);
      buckets := buckets[i := []];
    }

    /** hashCode, remainder, and the correction for a negative remainder. */
    method BucketNumber(key: K) returns (i: nat)
      requires Valid()
      ensures i == HashSpec.BucketOf(buckets, keys, key) && i < |entryList|
    {
      HashSpec.IndexInRange(keys.hash(key), capacity);
      var r := HashSpec.TruncatedRemainder(keys.hash(key), capacity);
      if r < 0 {
        r := r + capacity;
      }
      i := r;
    }

    /** insert; a null key or value is refused. */
    method Insert(key: Option<K>, value: Option<V>) returns (ret: int)
      requires Valid()
      modifies repr
      ensures Valid() && fresh(repr - old(repr))
      ensures key == None || value == None ==> ret == -1 && buckets == old(buckets)
      ensures key != None && value != None ==>
                ret == 0 && buckets == HashSpec.Insert(old(buckets), keys, key.value, value.value)
    {
      if key == None || value == None {
        return -1;
      }
      HashSpec.InsertKeepsWellFormed(buckets, keys, key.value, value.value);
      InsertSize(buckets, keys, key.value, value.value);
      var i := BucketNumber(key.value);
      assert ListOk(i);
      var node := entryList[i].Find(key.value, HashSpec.KeyCmp<K, V>(keys));
      if node == entryList[i].head {
        ret := AppendNew(i, HashSpec.Entry(key.value, value.value));
      } else {
        var e := node.GetData();
        Overwrite(i, HashSpec.Position(buckets, keys, key.value), node, HashSpec.Entry(e.value.key, value.value));
        ret := 0;
      }
    }

    method Find(key: K) returns (r: Option<V>)
      requires Valid()
      ensures r == HashSpec.Lookup(buckets, keys, key)
    {
      var i := BucketNumber(key);
      assert ListOk(i);
      var e := entryList[i].FindValue(key, HashSpec.KeyCmp<K, V>(keys));
      r := if e == None then None else Some(e.value.value);
    }

    method HasKey(key: K) returns (r: int)
      requires Valid()
      ensures r == if HashSpec.Lookup(buckets, keys, key) == None then 0 else 1
    {
      var i := BucketNumber(key);
      assert ListOk(i);
      var e := entryList[i].FindValue(key, HashSpec.KeyCmp<K, V>(keys));
      r := if e == None then 0 else 1;
    }

    method Erase(key: K) returns (ret: int)
      requires Valid()
      modifies repr
      ensures Valid() && repr == old(repr)
      ensures buckets == HashSpec.Erase(old(buckets), keys, key)
      ensures ret == if HashSpec.Lookup(old(buckets), keys, key) == None then -1 else 0
    {
      HashSpec.EraseKeepsWellFormed(buckets, keys, key);
      EraseSize(buckets, keys, key);
      var i := BucketNumber(key);
      ret := DeleteFrom(i, key);
      if ret == 0 {
        label deleted:
        size := size - 1;
        SizeIsApart@deleted();
      }
    }

    method Clear() returns (ret: int)
      requires Valid()
      modifies repr
      ensures Valid() && repr == old(repr) && ret == 0
      ensures size == 0 && buckets == HashSpec.Empty(capacity) && capacity == old(capacity)
    {
      ghost var was := buckets;
      var i := 0;
      while i < capacity
        invariant 0 <= i <= capacity == |entryList| == |was| && capacity == old(capacity)
        invariant Heap() && repr == old(repr) && HashSpec.Lawful(keys) && capacity > 0
        invariant forall k :: 0 <= k < i ==> buckets[k] == []
        invariant forall k :: i <= k < capacity ==> buckets[k] == was[k]
        invariant size == HashSpec.Size(was) - HashSpec.Size(was[..i])
      {
        var n := ClearBucket(i);
        label cleared:
        size := size - n;
        SizeIsApart@cleared();
        assert was[..i + 1][..i] == was[..i];
        i := i + 1;
      }
      assert was[..i] == was;
      assert buckets == HashSpec.Empty(capacity);
      EmptyTable();
      ret := 0;
    }

    method GetSize() returns (n: int)
      requires Valid()
      ensures n == |HashSpec.AsMap(buckets)|
    {
      HashSpec.WellFormedKeysDiffer(buckets, keys);
      HashSpec.AsMapExact(buckets);
      n := size;
    }
  }

  lemma {:induction false} SizeUpdate<K, V>(b: HashSpec.Buckets<K, V>, i: nat, es: seq<HashSpec.Entry<K, V>>)
    requires i < |b|
    ensures HashSpec.Size(b[i := es]) == HashSpec.Size(b) - |b[i]| + |es|
    ensures HashSpec.Size(b) >= |b[i]|
  {
    var n := |b| - 1;
    if i < n {
      SizeUpdate(b[..n], i, es);
      assert b[i := es][..n] == b[..n][i := es];
    } else {
      assert b[i := es][..n] == b[..n];
    }
  }

  lemma InsertSize<K, V>(b: HashSpec.Buckets<K, V>, ks: HashSpec.Keys<K>, key: K, value: V)
    requires |b| > 0
    ensures HashSpec.Size(HashSpec.Insert(b, ks, key, value))
            == HashSpec.Size(b) + (if HashSpec.Lookup(b, ks, key) == None then 1 else 0)
  {
    var i, j := HashSpec.BucketOf(b, ks, key), HashSpec.Position(b, ks, key);
    if j < |b[i]| {
      SizeUpdate(b, i, b[i][j := HashSpec.Entry(b[i][j].key, value)]);
    } else {
      SizeUpdate(b, i, b[i] + [HashSpec.Entry(key, value)]);
    }
  }

  lemma EraseSize<K, V>(b: HashSpec.Buckets<K, V>, ks: HashSpec.Keys<K>, key: K)
    requires |b| > 0
    ensures HashSpec.Size(HashSpec.Erase(b, ks, key))
            == HashSpec.Size(b) - (if HashSpec.Lookup(b, ks, key) == None then 0 else 1)
  {
    var i, j := HashSpec.BucketOf(b, ks, key), HashSpec.Position(b, ks, key);
    if j < |b[i]| {
      SizeUpdate(b, i, RemoveAt(b[i], j));
    }
  }
}
