/** Maps whose buckets never fill (`VecBucket`, every `SmallVecBucketN`, `BTreeBucket`):
    separate chaining. The bucket at a key's address always has room, so `insert`
    writes there and nowhere else, and `get` reads there. */
module Chaining {
  import opened Common
  import opened Hash
  import Buckets
  import Store
  import opened PrimitiveMap

  /** The invariant of a chaining map: a non-empty store of list or tree buckets, each
      well formed, and every key held by a bucket is held by the bucket at its home. */
  ghost predicate Chained<V>(m: Map<V>) {
    && |m.buckets| > 0
    && (forall i :: 0 <= i < |m.buckets| ==>
          !m.buckets[i].Slot? && Buckets.WellFormed(m.buckets[i]))
    && (forall i, k :: 0 <= i < |m.buckets| && Buckets.Get(m.buckets[i], k).Some? ==>
          i == Home(m, k))
  }

  /** The last value paired with the key, if any. */
  function LastValue<V>(pairs: seq<(Key, V)>, k: Key): (r: Option<V>)
    ensures r.None? <==> forall i :: 0 <= i < |pairs| ==> pairs[i].0 != k
    ensures r.Some? ==> (k, r.value) in pairs
    decreases |pairs|
  {
    if |pairs| == 0 then None
    else if pairs[|pairs| - 1].0 == k then Some(pairs[|pairs| - 1].1)
    else LastValue(pairs[..|pairs| - 1], k)
  }

  // ---------------------------------------------------------------------------
  // One operation
  // ---------------------------------------------------------------------------

  /** In a chaining map `get` reads the key's home bucket only. */
  lemma GetReadsHome<V>(m: Map<V>, k: Key)
    requires Chained(m)
    ensures Get(m, k) == Ok(Buckets.Get(m.buckets[Home(m, k)], k))
  {
    var a := Home(m, k);
    Store.SearchStopsAtStart(m.buckets, a, k);
  }

  /** In a chaining map `insert` writes to the key's home bucket. */
  lemma InsertTargetsHome<V>(m: Map<V>, k: Key)
    requires Chained(m)
    ensures Target(m, k) == Ok(Home(m, k))
  {
    var a := Home(m, k);
    Store.SearchStopsAtStart(m.buckets, a, k);
  }

  /** The home of a key depends on nothing but the number of buckets. */
  lemma SameLengthSameHome<V>(m: Map<V>, m': Map<V>, k: Key)
    requires |m.buckets| == |m'.buckets| > 0
    ensures Home(m, k) == Home(m', k)
  {
  }

  /** In a chaining map `insert` applies the home bucket's `insert` there and changes no
      other bucket. */
  lemma InsertAtHome<V>(m: Map<V>, k: Key, v: V)
    requires Chained(m)
    ensures Insert(m, k, v).Ok?
    ensures var a := Home(m, k);
            var m' := Insert(m, k, v).value.0;
            && |m'.buckets| == |m.buckets|
            && m'.buckets[a] == Buckets.Insert(m.buckets[a], k, v).0
            && (forall j :: 0 <= j < |m.buckets| && j != a ==> m'.buckets[j] == m.buckets[j])
            && Insert(m, k, v).value.1 == Buckets.Get(m.buckets[a], k)
  {
    InsertTargetsHome(m, k);
  }

  /** `insert` keeps a chaining map a chaining map. */
  lemma InsertKeepsChained<V>(m: Map<V>, k: Key, v: V)
    requires Chained(m)
    ensures Insert(m, k, v).Ok? && Chained(Insert(m, k, v).value.0)
  {
    InsertAtHome(m, k, v);
    var a := Home(m, k);
    var m' := Insert(m, k, v).value.0;
    var b := m.buckets[a];
    assert Buckets.Fits(Buckets.VecPolicy, b) || Buckets.Fits(Buckets.BTreePolicy, b);
    forall k'
      ensures Home(m', k') == Home(m, k')
    {
      SameLengthSameHome(m, m', k');
    }
    forall i, k' | 0 <= i < |m'.buckets| && Buckets.Get(m'.buckets[i], k').Some?
      ensures i == Home(m', k')
    {
      if i == a && k' != k {
        assert Buckets.Get(m.buckets[i], k').Some?;
      } else if i != a {
        assert m'.buckets[i] == m.buckets[i];
      }
    }
  }

  /** `insert` on a chaining map leaves the value `get` returns for every other key. */
  lemma InsertKeepsOtherKeys<V>(m: Map<V>, k: Key, v: V, k': Key)
    requires Chained(m) && k' != k
    ensures Insert(m, k, v).Ok?
    ensures Get(Insert(m, k, v).value.0, k') == Get(m, k')
  {
    InsertAtHome(m, k, v);
    InsertKeepsChained(m, k, v);
    var m' := Insert(m, k, v).value.0;
    GetReadsHome(m, k');
    GetReadsHome(m', k');
    SameLengthSameHome(m, m', k');
  }

  /** `insert` on a chaining map never panics, returns the value `get` returned before,
      makes `get` return the new value, leaves every other key's value alone and keeps
      the invariant. */
  lemma InsertChained<V>(m: Map<V>, k: Key, v: V)
    requires Chained(m)
    ensures Insert(m, k, v).Ok?
    ensures Insert(m, k, v).value.1 == Get(m, k).value
    ensures Chained(Insert(m, k, v).value.0)
    ensures Get(Insert(m, k, v).value.0, k) == Ok(Some(v))
    ensures forall k' :: k' != k ==> Get(Insert(m, k, v).value.0, k') == Get(m, k')
  {
    InsertAtHome(m, k, v);
    InsertKeepsChained(m, k, v);
    GetReadsHome(m, k);
    var m' := Insert(m, k, v).value.0;
    SameLengthSameHome(m, m', k);
    GetReadsHome(m', k);
    forall k' | k' != k
      ensures Get(m', k') == Get(m, k')
    {
      InsertKeepsOtherKeys(m, k, v, k');
    }
  }

  // ---------------------------------------------------------------------------
  // Many operations
  // ---------------------------------------------------------------------------

  /** Inserting a list of pairs into a chaining map never panics, and afterwards `get`
      returns the last value inserted for a key, or the value from before for a key not
      inserted. */
  lemma {:induction false} InsertAllChained<V>(m: Map<V>, pairs: seq<(Key, V)>)
    requires Chained(m)
    ensures InsertAll(m, pairs).Ok?
    ensures Chained(InsertAll(m, pairs).value)
    ensures forall k :: Get(InsertAll(m, pairs).value, k) ==
              if LastValue(pairs, k).Some? then Ok(LastValue(pairs, k)) else Get(m, k)
    decreases |pairs|
  {
    if |pairs| > 0 {
      var init := pairs[..|pairs| - 1];
      var (k, v) := pairs[|pairs| - 1];
      InsertAllChained(m, init);
      var before := InsertAll(m, init).value;
      InsertChained(before, k, v);
    }
  }

  /** With distinct keys, each pair's value is the last one for its key. */
  lemma LastValueOfDistinct<V>(pairs: seq<(Key, V)>, i: nat)
    requires i < |pairs|
    requires forall p, q :: 0 <= p < q < |pairs| ==> pairs[p].0 != pairs[q].0
    ensures LastValue(pairs, pairs[i].0) == Some(pairs[i].1)
    decreases |pairs|
  {
    if i < |pairs| - 1 {
      LastValueOfDistinct(pairs[..|pairs| - 1], i);
    }
  }

  /** A fresh map over list or tree buckets is a chaining map, as long as its store is
      not empty. */
  lemma FreshMapChained<V>(p: Buckets.Policy, cap: nat, a: Store.ArrayStore)
    requires !p.OptionPolicy?
    ensures Chained(New<V>(p)) && Chained(NewArray<V>(a, p))
    ensures cap > 0 ==> Chained(WithCapacity<V>(p, cap))
  {
    assert Buckets.Fits(p, Buckets.New<Key, V>(p));
  }

  // ---------------------------------------------------------------------------
  // The unit tests of the map
  // ---------------------------------------------------------------------------

  /** `insert_saturate_buckets_dynamic`: a `VecPrimitiveMap` with 100 buckets takes any
      number of pairs with distinct keys, such as the 10000 `i32` keys of the test, and
      `get` then returns each pair's value. */
  lemma SaturateBuckets<V>(pairs: seq<(Key, V)>)
    requires forall p, q :: 0 <= p < q < |pairs| ==> pairs[p].0 != pairs[q].0
    ensures InsertAll(WithCapacity<V>(VEC_PRIMITIVE_MAP, 100), pairs).Ok?
    ensures forall i :: 0 <= i < |pairs| ==>
              Get(InsertAll(WithCapacity<V>(VEC_PRIMITIVE_MAP, 100), pairs).value, pairs[i].0) == Ok(Some(pairs[i].1))
  {
    var m := WithCapacity<V>(VEC_PRIMITIVE_MAP, 100);
    FreshMapChained<V>(VEC_PRIMITIVE_MAP, 100, Store.Array2);
    InsertAllChained(m, pairs);
    forall i | 0 <= i < |pairs|
      ensures Get(InsertAll(m, pairs).value, pairs[i].0) == Ok(Some(pairs[i].1))
    {
      LastValueOfDistinct(pairs, i);
    }
  }

  /** `insert_and_get_dynamic`, and a second insertion under the same key: the first
      `insert` returns nothing, the second returns the first value, and `get` returns
      the second. */
  lemma InsertAndGetDynamic(k: Key, v: bv32, w: bv32)
    ensures var m := New<bv32>(VEC_PRIMITIVE_MAP);
            && Insert(m, k, v).Ok?
            && Insert(m, k, v).value.1 == None
            && Get(Insert(m, k, v).value.0, k) == Ok(Some(v))
            && Insert(Insert(m, k, v).value.0, k, w).Ok?
            && Insert(Insert(m, k, v).value.0, k, w).value.1 == Some(v)
            && Get(Insert(Insert(m, k, v).value.0, k, w).value.0, k) == Ok(Some(w))
  {
    var m := New<bv32>(VEC_PRIMITIVE_MAP);
    FreshMapChained<bv32>(VEC_PRIMITIVE_MAP, 0, Store.Array2);
    FreshMapIsEmpty<bv32>(VEC_PRIMITIVE_MAP, 0, Store.Array2, k);
    InsertChained(m, k, v);
    InsertChained(Insert(m, k, v).value.0, k, w);
  }
}
