/** `PrimitiveMap`: a bucket store addressed by the default hasher. `insert` writes to
    the first bucket in probe order from the key's address that is not full; `get`
    and `get_mut` read the first bucket in probe order from the key's address that
    holds the key. */
module PrimitiveMap {
  import opened Common
  import opened Hash
  import opened Probe
  import Buckets
  import Store

  /** A map: its bucket store. The hasher is a zero-sized marker, and every alias uses
      the default one. */
  datatype Map<V> = Map(buckets: seq<Buckets.Bucket<Key, V>>)

  /** `get_addr`: the key's address in the store, a remainder-by-zero panic when the
      store is empty. */
  function GetAddr<V>(m: Map<V>, k: Key): (r: Result<nat>)
    ensures r.Err? <==> |m.buckets| == 0
    ensures r.Err? ==> r.panic == RemainderByZero
    ensures r.Ok? ==> r.value < |m.buckets| && r.value == Address(k, |m.buckets|).value
  {
    AddressInRange(k, |m.buckets|);
    Address(k, |m.buckets|)
  }

  /** The key's home: its address in a non-empty store. */
  function Home<V>(m: Map<V>, k: Key): (a: nat)
    requires |m.buckets| > 0
    ensures a < |m.buckets|
  {
    GetAddr(m, k).value
  }

  /** The bucket `insert` writes to: the first one in probe order from the address that
      has not reached its maximum capacity. The `expect` on the search panics when
      every bucket is full. */
  function Target<V>(m: Map<V>, k: Key): (r: Result<nat>)
    ensures r.Err? <==> |m.buckets| == 0 || forall i :: 0 <= i < |m.buckets| ==> Buckets.ReachedMaxCapacity(m.buckets[i])
    ensures r.Err? ==> r.panic == if |m.buckets| == 0 then RemainderByZero else CapacityExhausted
    ensures r.Ok? ==> r.value < |m.buckets| && !Buckets.ReachedMaxCapacity(m.buckets[r.value])
    ensures r.Ok? ==>
              var a := GetAddr(m, k).value;
              forall j :: 0 <= j < StepOf(a, |m.buckets|, r.value) ==>
                Buckets.ReachedMaxCapacity(m.buckets[ProbeOrder(a, |m.buckets|)[j]])
  {
    var a :- GetAddr(m, k);
    var found := Store.SearchBucket(m.buckets, a, Store.HasRoom()).value;
    if found.None? then Err(CapacityExhausted) else Ok(found.value)
  }

  /** `insert`: the target bucket's own `insert`, whose result is returned. Every other
      bucket is left as it was. */
  function Insert<V>(m: Map<V>, k: Key, v: V): (r: Result<(Map<V>, Option<V>)>)
    ensures r.Err? <==> Target(m, k).Err?
    ensures r.Err? ==> r.panic == Target(m, k).panic
    ensures r.Ok? ==>
              var i := Target(m, k).value;
              var m' := r.value.0;
              |m'.buckets| == |m.buckets| &&
              m'.buckets[i] == Buckets.Insert(m.buckets[i], k, v).0 &&
              r.value.1 == Buckets.Get(m.buckets[i], k) &&
              forall j :: 0 <= j < |m.buckets| && j != i ==> m'.buckets[j] == m.buckets[j]
  {
    var i :- Target(m, k);
    var (b, displaced) := Buckets.Insert(m.buckets[i], k, v);
    Ok((Map(m.buckets[i := b]), displaced))
  }

  /** `get_mut`: the bucket holding the reference it returns, the first one in probe
      order from the address whose `get_mut` finds the key. */
  function GetMut<V>(m: Map<V>, k: Key): (r: Result<Option<nat>>)
    ensures r.Err? <==> |m.buckets| == 0
    ensures r.Ok? ==> (r.value.None? <==> forall i :: 0 <= i < |m.buckets| ==> Buckets.Get(m.buckets[i], k).None?)
    ensures r.Ok? && r.value.Some? ==>
              r.value.value < |m.buckets| && Buckets.Get(m.buckets[r.value.value], k).Some?
    ensures r.Ok? && r.value.Some? ==>
              var a := GetAddr(m, k).value;
              forall j :: 0 <= j < StepOf(a, |m.buckets|, r.value.value) ==>
                Buckets.Get(m.buckets[ProbeOrder(a, |m.buckets|)[j]], k).None?
  {
    var a :- GetAddr(m, k);
    Store.SearchEntryMut(m.buckets, a, k)
  }

  /** `get`: the value `get_mut` refers to, read from the same bucket. */
  function Get<V>(m: Map<V>, k: Key): (r: Result<Option<V>>)
    ensures r.Err? <==> |m.buckets| == 0
    ensures r.Err? ==> r.panic == RemainderByZero
    ensures r.Ok? ==> (r.value.None? <==> forall i :: 0 <= i < |m.buckets| ==> Buckets.Get(m.buckets[i], k).None?)
    ensures r.Ok? && r.value.Some? ==>
              r.value == Buckets.Get(m.buckets[GetMut(m, k).value.value], k)
  {
    var a :- GetAddr(m, k);
    match Store.SearchEntry(m.buckets, a, k).value
    case None => Ok(None)
    case Some((_, w)) => Ok(Some(w))
  }

  /** `*map.get_mut(k).unwrap() = v` when there is an entry: the write lands in the
      bucket `get_mut` found. Whether there was one to write to is returned. */
  function SetThroughGetMut<V>(m: Map<V>, k: Key, v: V): (r: Result<(Map<V>, bool)>)
    ensures r.Err? <==> |m.buckets| == 0
    ensures r.Ok? ==> r.value.1 == Get(m, k).value.Some?
    ensures r.Ok? ==> |r.value.0.buckets| == |m.buckets|
    ensures r.Ok? && !r.value.1 ==> r.value.0 == m
  {
    var found :- GetMut(m, k);
    match found
    case None => Ok((m, false))
    case Some(i) => Ok((Map(Store.WriteThrough(m.buckets, i, k, v)), true))
  }

  /** The maps the `for` loops of the unit tests build: the pairs inserted in order. */
  function InsertAll<V>(m: Map<V>, pairs: seq<(Key, V)>): (r: Result<Map<V>>)
    ensures r.Ok? ==> |r.value.buckets| == |m.buckets|
    decreases |pairs|
  {
    if |pairs| == 0 then Ok(m)
    else
      var before :- InsertAll(m, pairs[..|pairs| - 1]);
      var after :- Insert(before, pairs[|pairs| - 1].0, pairs[|pairs| - 1].1);
      Ok(after.0)
  }

  // ---------------------------------------------------------------------------
  // Constructors and aliases
  // ---------------------------------------------------------------------------

  /** `custom`: a map over the given store; the hasher argument is a marker. */
  function Custom<V>(store: seq<Buckets.Bucket<Key, V>>): Map<V>
  {
    Map(store)
  }

  /** `with_buckets`: `custom` with the default hasher. */
  function WithBuckets<V>(store: seq<Buckets.Bucket<Key, V>>): Map<V>
  {
    Custom(store)
  }

  /** `new` over a `Vec` store: the store's `initialized`. */
  function New<V>(p: Buckets.Policy): Map<V>
  {
    Custom(Store.VecInitialized<Key, V>(p))
  }

  /** `with_capacity` over a `Vec` store: `cap` fresh buckets. */
  function WithCapacity<V>(p: Buckets.Policy, cap: nat): Map<V>
  {
    Custom(Store.VecWithCapacity<Key, V>(p, cap))
  }

  /** `new` over a fixed-size array store. */
  function NewArray<V>(a: Store.ArrayStore, p: Buckets.Policy): Map<V>
  {
    Custom(Store.ArrayInitialized<Key, V>(a, p))
  }

  /** `with_capacity` over a fixed-size array store, which always panics. */
  function WithCapacityArray<V>(a: Store.ArrayStore, p: Buckets.Policy, cap: nat): Result<Map<V>>
  {
    Err(Store.ArrayWithCapacity<Key, V>(a, p, cap).panic)
  }

  /** `clone`: a map over a copy of the store. Values are immutable here, so the copy
      is the store itself and the two maps evolve independently. */
  function Clone<V>(m: Map<V>): Map<V>
  {
    Custom(m.buckets)
  }

  /** The bucket type of `PrimitiveMap` when none is named: `SmallVecBucket1`. */
  const DEFAULT_POLICY: Buckets.Policy := Buckets.SmallVecPolicy(Buckets.N1)

  /** `VecPrimitiveMap`: `SmallVecBucket4` buckets in a `Vec`. */
  const VEC_PRIMITIVE_MAP: Buckets.Policy := Buckets.SmallVecPolicy(Buckets.N4)

  /** `ArrayPrimitiveMap`: `SmallVecBucket1` buckets in an array store. */
  const ARRAY_PRIMITIVE_MAP: Buckets.Policy := Buckets.SmallVecPolicy(Buckets.N1)

  /** `LinearPrimitiveMap`: `OptionBucket` slots in an array store. */
  const LINEAR_PRIMITIVE_MAP: Buckets.Policy := Buckets.OptionPolicy

  // ---------------------------------------------------------------------------
  // Properties
  // ---------------------------------------------------------------------------

  /** `new` builds `DEFAULT_BUCKETS_COUNT` fresh buckets over a `Vec` store, and as
      many as the array has over an array store. */
  lemma NewBuildsFreshStore<V>(p: Buckets.Policy, a: Store.ArrayStore, i: nat)
    ensures |New<V>(p).buckets| == Store.DEFAULT_BUCKETS_COUNT
    ensures i < Store.DEFAULT_BUCKETS_COUNT ==> New<V>(p).buckets[i] == Buckets.New<Key, V>(p)
    ensures |NewArray<V>(a, p).buckets| == Store.Size(a)
    ensures i < Store.Size(a) ==> NewArray<V>(a, p).buckets[i] == Buckets.New<Key, V>(p)
  {
  }

  /** `with_capacity(cap)` builds `cap` fresh buckets over a `Vec` store and panics over
      an array store, whatever `cap` is. */
  lemma WithCapacityBuildsFreshStore<V>(p: Buckets.Policy, a: Store.ArrayStore, cap: nat, i: nat)
    ensures |WithCapacity<V>(p, cap).buckets| == cap
    ensures i < cap ==> WithCapacity<V>(p, cap).buckets[i] == Buckets.New<Key, V>(p)
    ensures WithCapacityArray<V>(a, p, cap) == Err(NoRuntimeCapacity)
  {
  }

  /** A map whose buckets are all fresh holds nothing. */
  lemma FreshBucketsHoldNothing<V>(m: Map<V>, p: Buckets.Policy, k: Key)
    requires |m.buckets| > 0
    requires forall i :: 0 <= i < |m.buckets| ==> m.buckets[i] == Buckets.New(p)
    ensures Get(m, k) == Ok(None)
  {
    Buckets.NewIsFresh<Key, V>(p, k);
  }

  /** A freshly built map holds nothing. */
  lemma FreshMapIsEmpty<V>(p: Buckets.Policy, cap: nat, a: Store.ArrayStore, k: Key)
    ensures Get(New<V>(p), k) == Ok(None)
    ensures Get(NewArray<V>(a, p), k) == Ok(None)
    ensures cap > 0 ==> Get(WithCapacity<V>(p, cap), k) == Ok(None)
  {
    var vec, arr, sized := New<V>(p), NewArray<V>(a, p), WithCapacity<V>(p, cap);
    forall i | 0 <= i < |vec.buckets|
      ensures vec.buckets[i] == Buckets.New(p)
    {
      NewBuildsFreshStore<V>(p, a, i);
    }
    forall i | 0 <= i < |arr.buckets|
      ensures arr.buckets[i] == Buckets.New(p)
    {
      NewBuildsFreshStore<V>(p, a, i);
    }
    forall i | 0 <= i < |sized.buckets|
      ensures sized.buckets[i] == Buckets.New(p)
    {
      WithCapacityBuildsFreshStore<V>(p, a, cap, i);
    }
    NewBuildsFreshStore<V>(p, a, 0);
    WithCapacityBuildsFreshStore<V>(p, a, cap, 0);
    FreshBucketsHoldNothing(vec, p, k);
    FreshBucketsHoldNothing(arr, p, k);
    if cap > 0 {
      FreshBucketsHoldNothing(sized, p, k);
    }
  }

  /** A map over an empty store, which `with_capacity(0)` builds, panics on every `get`
      and `insert` while computing the address. */
  lemma EmptyStorePanics<V>(p: Buckets.Policy, k: Key, v: V)
    ensures Get(WithCapacity<V>(p, 0), k) == Err(RemainderByZero)
    ensures Insert(WithCapacity<V>(p, 0), k, v) == Err(RemainderByZero)
    ensures GetMut(WithCapacity<V>(p, 0), k) == Err(RemainderByZero)
  {
  }

  /** A clone answers every `get` as the original does, and an `insert` into either
      one leaves the other as it was. */
  lemma CloneIsIndependent<V>(m: Map<V>, k: Key, v: V, k': Key)
    ensures Get(Clone(m), k') == Get(m, k')
    ensures Insert(Clone(m), k, v) == Insert(m, k, v)
  {
  }

  /** The value written through `get_mut` is what `get` then returns, and the write
      changes nothing when `get` finds nothing. */
  lemma SetThroughGetMutThenGet<V>(m: Map<V>, k: Key, v: V)
    requires |m.buckets| > 0
    ensures SetThroughGetMut(m, k, v).Ok?
    ensures Get(SetThroughGetMut(m, k, v).value.0, k) ==
              if Get(m, k).value.Some? then Ok(Some(v)) else Ok(None)
  {
    var r := SetThroughGetMut(m, k, v).value;
    if r.1 {
      var i := GetMut(m, k).value.value;
      var a := GetAddr(m, k).value;
      Store.SearchBucketCongruent(m.buckets, r.0.buckets, a, Store.HoldsKey(k), Store.HoldsKey(k));
      assert GetMut(r.0, k) == GetMut(m, k);
    }
  }
}
