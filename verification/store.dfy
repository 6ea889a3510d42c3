/** Bucket stores: a `Vec` of buckets or one of the fixed-size array stores, both seen
    through the slice they expose. Every search walks the probe order from a start
    index and stops at the first bucket that answers. A search returns the index of the
    bucket it found; the mutable reference of the source is that index together with
    `WriteThrough`. */
module Store {
  import opened Common
  import opened Probe
  import Buckets

  /** `DEFAULT_BUCKETS_COUNT`: the size of a `Vec` store built by `initialized`. */
  const DEFAULT_BUCKETS_COUNT: nat := 256

  /** The position in `order` of the first index whose bucket satisfies `pred`. */
  function FirstIn<B>(store: seq<B>, order: seq<nat>, pred: B -> bool): (r: Option<nat>)
    requires forall i :: 0 <= i < |order| ==> order[i] < |store|
    ensures r.Some? ==> r.value < |order| && pred(store[order[r.value]])
    ensures r.Some? ==> forall j :: 0 <= j < r.value ==> !pred(store[order[j]])
    ensures r.None? <==> forall j :: 0 <= j < |order| ==> !pred(store[order[j]])
    decreases |order|
  {
    if |order| == 0 then None
    else if pred(store[order[0]]) then Some(0)
    else match FirstIn(store, order[1..], pred)
      case None => None
      case Some(j) => Some(j + 1)
  }

  /** `search_bucket`: the first bucket in probe order from `start` that satisfies the
      predicate. The iterator's assertion fails for a start past the end; on an empty
      store the search finds nothing. */
  function SearchBucket<B>(store: seq<B>, start: nat, pred: B -> bool): (r: Result<Option<nat>>)
    ensures r.Err? <==> start > |store|
    ensures r.Err? ==> r.panic == StartPastLength
    ensures r.Ok? ==> (r.value.None? <==> forall i :: 0 <= i < |store| ==> !pred(store[i]))
    ensures r.Ok? && r.value.Some? ==> r.value.value < |store| && pred(store[r.value.value])
    ensures r.Ok? && r.value.Some? ==>
              forall j :: 0 <= j < StepOf(start, |store|, r.value.value) ==>
                !pred(store[ProbeOrder(start, |store|)[j]])
  {
    if start > |store| then Err(StartPastLength)
    else
      var order := ProbeOrder(start, |store|);
      ProbeOrderIsPermutation(start, |store|);
      match FirstIn(store, order, pred)
      case None =>
        NoneInProbeOrder(store, start, pred);
        Ok(None)
      case Some(s) =>
        assert StepOf(start, |store|, order[s]) == s;
        Ok(Some(order[s]))
  }

  /** A bucket that no index of the probe order satisfies is satisfied by no index. */
  lemma NoneInProbeOrder<B>(store: seq<B>, start: nat, pred: B -> bool)
    requires start <= |store|
    requires forall j :: 0 <= j < |store| ==> !pred(store[ProbeOrder(start, |store|)[j]])
    ensures forall i :: 0 <= i < |store| ==> !pred(store[i])
  {
    forall i | 0 <= i < |store|
      ensures !pred(store[i])
    {
      assert ProbeOrder(start, |store|)[StepOf(start, |store|, i)] == i;
    }
  }

  /** The question `search_entry` and `search_entry_mut` ask each bucket: does its
      `get` find the key? */
  function HoldsKey<K(==, !new), V>(k: K): Buckets.Bucket<K, V> -> bool
  {
    b => Buckets.Get(b, k).Some?
  }

  /** The question `insert` asks each bucket: has it room for one more entry? */
  function HasRoom<K(==, !new), V>(): Buckets.Bucket<K, V> -> bool
  {
    b => !Buckets.ReachedMaxCapacity(b)
  }

  /** `search_entry_mut`: the first bucket in probe order from `start` whose `get_mut`
      finds the key. */
  function SearchEntryMut<K(==, !new), V>(store: seq<Buckets.Bucket<K, V>>, start: nat, k: K): (r: Result<Option<nat>>)
    ensures r.Err? <==> start > |store|
    ensures r.Ok? ==> (r.value.None? <==> forall i :: 0 <= i < |store| ==> Buckets.Get(store[i], k).None?)
    ensures r.Ok? && r.value.Some? ==> r.value.value < |store| && Buckets.Get(store[r.value.value], k).Some?
    ensures r.Ok? && r.value.Some? ==>
              forall j :: 0 <= j < StepOf(start, |store|, r.value.value) ==>
                Buckets.Get(store[ProbeOrder(start, |store|)[j]], k).None?
  {
    SearchBucket(store, start, HoldsKey(k))
  }

  /** `search_entry`: the key paired with its value in the first bucket in probe order
      from `start` that holds it. The bucket it reads is the one `search_entry_mut`
      finds. */
  function SearchEntry<K(==, !new), V>(store: seq<Buckets.Bucket<K, V>>, start: nat, k: K): (r: Result<Option<(K, V)>>)
    ensures r.Err? <==> start > |store|
    ensures r.Err? ==> r.panic == StartPastLength
    ensures r.Ok? ==> (r.value.None? <==> forall i :: 0 <= i < |store| ==> Buckets.Get(store[i], k).None?)
    ensures r.Ok? && r.value.Some? ==>
              var i := SearchEntryMut(store, start, k).value.value;
              r.value.value == (k, Buckets.Get(store[i], k).value)
  {
    var found :- SearchBucket(store, start, HoldsKey(k));
    match found
    case None => Ok(None)
    case Some(i) => Ok(Some((k, Buckets.Get(store[i], k).value)))
  }

  /** Writing `v` through the reference a search returned for bucket `i`: only that
      bucket changes. */
  function WriteThrough<K(==, !new), V>(store: seq<Buckets.Bucket<K, V>>, i: nat, k: K, v: V): (r: seq<Buckets.Bucket<K, V>>)
    requires i < |store|
    ensures |r| == |store| && forall j :: 0 <= j < |store| && j != i ==> r[j] == store[j]
    ensures Buckets.Get(r[i], k) == if Buckets.Get(store[i], k).Some? then Some(v) else None
  {
    store[i := Buckets.SetFound(store[i], k, v)]
  }

  // ---------------------------------------------------------------------------
  // Constructors
  // ---------------------------------------------------------------------------

  /** `Vec::initialized_with_capacity`: `cap` fresh buckets; a capacity of 0 is accepted. */
  function VecWithCapacity<K(==, !new), V>(p: Buckets.Policy, cap: nat): seq<Buckets.Bucket<K, V>>
  {
    seq(cap, _ => Buckets.New(p))
  }

  /** `Vec::initialized_with_capacity` builds exactly `cap` fresh buckets of the
      policy. */
  lemma VecWithCapacityIsFresh<K(!new), V>(p: Buckets.Policy, cap: nat, i: nat)
    ensures |VecWithCapacity<K, V>(p, cap)| == cap
    ensures i < cap ==> VecWithCapacity<K, V>(p, cap)[i] == Buckets.New<K, V>(p)
  {
  }

  /** `Vec::initialized`: the default number of fresh buckets. */
  function VecInitialized<K(==, !new), V>(p: Buckets.Policy): seq<Buckets.Bucket<K, V>>
  {
    VecWithCapacity(p, DEFAULT_BUCKETS_COUNT)
  }

  /** `Vec::initialized` builds `DEFAULT_BUCKETS_COUNT` fresh buckets of the policy. */
  lemma VecInitializedIsDefaultCapacity<K(!new), V>(p: Buckets.Policy, i: nat)
    ensures |VecInitialized<K, V>(p)| == DEFAULT_BUCKETS_COUNT
    ensures i < DEFAULT_BUCKETS_COUNT ==> VecInitialized<K, V>(p)[i] == Buckets.New<K, V>(p)
  {
  }

  /** The fixed-size array stores, one per size the crate instantiates. */
  datatype ArrayStore =
    | Array2 | Array4 | Array8 | Array16 | Array32 | Array64 | Array128 | Array256
    | Array512 | Array768 | Array1024 | Array2048 | Array4096 | Array8192 | Array16384
    | Array32768

  /** The number of buckets of an array store, fixed when its type is chosen; never
      zero. */
  function Size(a: ArrayStore): (n: nat)
    ensures n >= 2
  {
    match a
    case Array2 => 2
    case Array4 => 4
    case Array8 => 8
    case Array16 => 16
    case Array32 => 32
    case Array64 => 64
    case Array128 => 128
    case Array256 => 256
    case Array512 => 512
    case Array768 => 768
    case Array1024 => 1024
    case Array2048 => 2048
    case Array4096 => 4096
    case Array8192 => 8192
    case Array16384 => 16384
    case Array32768 => 32768
  }

  /** The array store's `initialized`: every one of its buckets fresh. */
  function ArrayInitialized<K(==, !new), V>(a: ArrayStore, p: Buckets.Policy): seq<Buckets.Bucket<K, V>>
  {
    seq(Size(a), _ => Buckets.New(p))
  }

  /** An array store's `initialized` fills every one of its `Size(a)` buckets with a
      fresh bucket of the policy. */
  lemma ArrayInitializedIsFresh<K(!new), V>(a: ArrayStore, p: Buckets.Policy, i: nat)
    ensures |ArrayInitialized<K, V>(a, p)| == Size(a)
    ensures i < Size(a) ==> ArrayInitialized<K, V>(a, p)[i] == Buckets.New<K, V>(p)
  {
  }

  /** The array store's `initialized_with_capacity`: the size is part of the type, so
      every requested capacity panics. */
  function ArrayWithCapacity<K(==, !new), V>(a: ArrayStore, p: Buckets.Policy, cap: nat): Result<seq<Buckets.Bucket<K, V>>>
  {
    Err(NoRuntimeCapacity)
  }

  /** An array store's `initialized_with_capacity` panics whatever the capacity. */
  lemma ArrayWithCapacityPanics<K(!new), V>(a: ArrayStore, p: Buckets.Policy, cap: nat)
    ensures ArrayWithCapacity<K, V>(a, p, cap) == Err(NoRuntimeCapacity)
  {
  }

  // ---------------------------------------------------------------------------
  // Properties
  // ---------------------------------------------------------------------------

  /** A search looks at nothing but whether each bucket satisfies the predicate: two
      stores of one length whose buckets answer alike give the same result. */
  lemma {:induction false} FirstInCongruent<B, C>(s: seq<B>, t: seq<C>, order: seq<nat>, p: B -> bool, q: C -> bool)
    requires |s| == |t| && forall i :: 0 <= i < |s| ==> p(s[i]) == q(t[i])
    requires forall i :: 0 <= i < |order| ==> order[i] < |s|
    ensures FirstIn(s, order, p) == FirstIn(t, order, q)
    decreases |order|
  {
    if |order| > 0 && !p(s[order[0]]) {
      FirstInCongruent(s, t, order[1..], p, q);
    }
  }

  lemma SearchBucketCongruent<B, C>(s: seq<B>, t: seq<C>, start: nat, p: B -> bool, q: C -> bool)
    requires |s| == |t| && forall i :: 0 <= i < |s| ==> p(s[i]) == q(t[i])
    ensures SearchBucket(s, start, p) == SearchBucket(t, start, q)
  {
    if start <= |s| {
      FirstInCongruent(s, t, ProbeOrder(start, |s|), p, q);
    }
  }

  /** A search that starts at a bucket satisfying the predicate stops there at once. */
  lemma SearchBucketStopsAtStart<B>(store: seq<B>, start: nat, pred: B -> bool)
    requires start < |store| && pred(store[start])
    ensures SearchBucket(store, start, pred) == Ok(Some(start))
  {
    assert ProbeOrder(start, |store|)[0] == start;
  }

  /** A search for a key that the start bucket holds stops there, and so does a search
      for room that starts at a bucket with room. */
  lemma SearchStopsAtStart<K(!new), V>(store: seq<Buckets.Bucket<K, V>>, start: nat, k: K)
    requires start < |store|
    ensures Buckets.Get(store[start], k).Some? ==> SearchEntryMut(store, start, k) == Ok(Some(start))
    ensures !Buckets.ReachedMaxCapacity(store[start]) ==> SearchBucket(store, start, HasRoom()) == Ok(Some(start))
  {
    if Buckets.Get(store[start], k).Some? {
      SearchBucketStopsAtStart(store, start, HoldsKey(k));
    }
    if !Buckets.ReachedMaxCapacity(store[start]) {
      SearchBucketStopsAtStart(store, start, HasRoom());
    }
  }

  /** The two unit tests of the `Vec` store. Over two occupied slots, a search from
      index 1 for key 1 wraps round to index 0; over two list buckets, a search from
      index 1 for the bucket holding key 2 also wraps round to index 0. */
  lemma VecStoreExamples()
    ensures SearchBucket([Some((1, 1)), Some((2, 2))], 1,
                         (b: Option<(int, int)>) => b.Some? && b.value.0 == 1) == Ok(Some(0))
    ensures SearchBucket([[(1, 1), (2, 2)], [(3, 3)]], 1,
                         (b: seq<(int, int)>) => exists e :: e in b && e.0 == 2) == Ok(Some(0))
  {
    assert ProbeOrder(1, 2) == [1, 0];
    assert [1, 0][1..] == [0];
    var o: seq<Option<(int, int)>> := [Some((1, 1)), Some((2, 2))];
    assert FirstIn(o, [1, 0], (b: Option<(int, int)>) => b.Some? && b.value.0 == 1) == Some(1);
    var l: seq<seq<(int, int)>> := [[(1, 1), (2, 2)], [(3, 3)]];
    assert (2, 2) in l[0];
    assert forall e :: e in l[1] ==> e == (3, 3);
  }

  /** A fresh store finds no entry anywhere, and the empty store finds nothing. */
  lemma FreshStoreIsEmpty<K(!new), V>(p: Buckets.Policy, cap: nat, start: nat, k: K)
    requires start <= cap
    ensures SearchEntry(VecWithCapacity<K, V>(p, cap), start, k) == Ok(None)
    ensures SearchEntry<K, V>([], 0, k) == Ok(None)
  {
  }
}
