/** Maps over `OptionBucket` slots (`LinearPrimitiveMap`): open addressing with linear
    probing. A slot is full once it holds a pair, `insert` fills the first empty slot in
    probe order from the key's home, and `get` answers with the first occupied slot from
    the home without comparing keys. */
module LinearProbing {
  import opened Common
  import opened Hash
  import opened Probe
  import Buckets
  import Store
  import opened PrimitiveMap

  /** A linear-probing map: a non-empty store of slots. */
  ghost predicate Linear<V>(m: Map<V>) {
    && |m.buckets| > 0
    && forall i :: 0 <= i < |m.buckets| ==> m.buckets[i].Slot?
  }

  /** The indices of the occupied slots. */
  function Occupied<V>(m: Map<V>): (s: set<nat>)
  {
    set i: nat | i < |m.buckets| && Buckets.ReachedMaxCapacity(m.buckets[i])
  }

  /** The question `get` ends up asking each slot: is it occupied? */
  function IsOccupied<V>(): Buckets.Bucket<Key, V> -> bool
  {
    b => Buckets.ReachedMaxCapacity(b)
  }

  // ---------------------------------------------------------------------------
  // One operation
  // ---------------------------------------------------------------------------

  /** `insert` into a linear-probing map panics exactly when every slot is occupied.
      Otherwise it fills a slot that was empty, returns nothing, and leaves every other
      slot as it was. */
  lemma LinearInsert<V>(m: Map<V>, k: Key, v: V)
    requires Linear(m)
    ensures Insert(m, k, v).Err? <==> forall i :: 0 <= i < |m.buckets| ==> i in Occupied(m)
    ensures Insert(m, k, v).Err? ==> Insert(m, k, v).panic == CapacityExhausted
    ensures Insert(m, k, v).Ok? ==>
              var t := Target(m, k).value;
              var m' := Insert(m, k, v).value.0;
              && Insert(m, k, v).value.1 == None
              && m.buckets[t] == Buckets.Slot(None)
              && m'.buckets[t] == Buckets.Slot(Some((k, v)))
              && Linear(m')
              && Occupied(m') == Occupied(m) + {t}
  {
    if Insert(m, k, v).Ok? {
      var t := Target(m, k).value;
      var m' := Insert(m, k, v).value.0;
      assert m.buckets[t] == Buckets.Slot(None);
      assert forall i :: 0 <= i < |m.buckets| && i != t ==> m'.buckets[i] == m.buckets[i];
      assert m'.buckets[t] == Buckets.Slot(Some((k, v)));
      assert t !in Occupied(m);
    } else {
      forall i | 0 <= i < |m.buckets|
        ensures i in Occupied(m)
      {
      }
    }
  }

  /** In a linear-probing map `get_mut` finds the first occupied slot in probe order from
      the key's home, whatever key that slot holds. */
  lemma GetMutFindsFirstOccupied<V>(m: Map<V>, k: Key)
    requires Linear(m)
    ensures GetMut(m, k) == Store.SearchBucket(m.buckets, Home(m, k), IsOccupied())
  {
    Store.SearchBucketCongruent(m.buckets, m.buckets, Home(m, k), Store.HoldsKey(k), IsOccupied());
  }

  /** In a linear-probing map `get` returns nothing exactly when every slot is empty;
      otherwise it returns the value in the first occupied slot from the key's home,
      every slot before it in probe order being empty. */
  lemma LinearGet<V>(m: Map<V>, k: Key)
    requires Linear(m)
    ensures Get(m, k).Ok?
    ensures Get(m, k).value.None? <==> Occupied(m) == {}
    ensures Get(m, k).value.Some? ==>
              var i := GetMut(m, k).value.value;
              var a := Home(m, k);
              && m.buckets[i].slot.Some?
              && Get(m, k).value.value == m.buckets[i].slot.value.1
              && forall j :: 0 <= j < StepOf(a, |m.buckets|, i) ==>
                   m.buckets[ProbeOrder(a, |m.buckets|)[j]].slot.None?
  {
    if Get(m, k).value.None? {
      assert forall i :: 0 <= i < |m.buckets| ==> i !in Occupied(m);
    } else {
      var i := GetMut(m, k).value.value;
      assert i in Occupied(m);
    }
  }

  /** Keys that share a home are indistinguishable to `get` in a linear-probing map. */
  lemma SameHomeSameGet<V>(m: Map<V>, k: Key, k': Key)
    requires Linear(m) && Home(m, k) == Home(m, k')
    ensures Get(m, k) == Get(m, k')
  {
    GetMutFindsFirstOccupied(m, k);
    GetMutFindsFirstOccupied(m, k');
    LinearGet(m, k);
    LinearGet(m, k');
  }

  /** When the key's home slot is empty, `insert` fills it and `get` then returns the
      inserted value. */
  lemma InsertIntoEmptyHome<V>(m: Map<V>, k: Key, v: V)
    requires Linear(m) && m.buckets[Home(m, k)] == Buckets.Slot(None)
    ensures Target(m, k) == Ok(Home(m, k))
    ensures Insert(m, k, v).Ok? && Insert(m, k, v).value.1 == None
    ensures Get(Insert(m, k, v).value.0, k) == Ok(Some(v))
  {
    var a := Home(m, k);
    Store.SearchStopsAtStart(m.buckets, a, k);
    var m' := Insert(m, k, v).value.0;
    assert m'.buckets[a] == Buckets.Slot(Some((k, v)));
    assert Home(m', k) == a;
    Store.SearchStopsAtStart(m'.buckets, a, k);
  }

  /** A second `insert` under a key does not replace the first: when the home slot
      already holds the key, the new pair goes to another slot, `insert` returns
      nothing, and `get` still returns the first value. */
  lemma ReinsertTakesAnotherSlot<V>(m: Map<V>, k: Key, v: V, w: V)
    requires Linear(m) && m.buckets[Home(m, k)] == Buckets.Slot(Some((k, v)))
    ensures Insert(m, k, w).Ok? ==>
              && Insert(m, k, w).value.1 == None
              && Target(m, k).value != Home(m, k)
              && Get(Insert(m, k, w).value.0, k) == Ok(Some(v))
  {
    var a := Home(m, k);
    if Insert(m, k, w).Ok? {
      LinearInsert(m, k, w);
      var m' := Insert(m, k, w).value.0;
      assert m'.buckets[a] == m.buckets[a];
      assert Home(m', k) == a;
      Store.SearchStopsAtStart(m'.buckets, a, k);
    }
  }

  // ---------------------------------------------------------------------------
  // Many operations
  // ---------------------------------------------------------------------------

  /** The pair the last insertion of `pairs` placed at address `i` of an `n`-slot store,
      when every key went to its own address. */
  function Placed<V>(pairs: seq<(Key, V)>, n: nat, i: nat): (r: Option<(Key, V)>)
    requires n > 0
    ensures r.None? <==> forall j :: 0 <= j < |pairs| ==> Address(pairs[j].0, n).value != i
    ensures r.Some? ==> r.value in pairs && Address(r.value.0, n).value == i
    decreases |pairs|
  {
    if |pairs| == 0 then None
    else
      var last := pairs[|pairs| - 1];
      if Address(last.0, n).value == i then
        assert Address(pairs[|pairs| - 1].0, n).value == i;
        Some(last)
      else
        var r := Placed(pairs[..|pairs| - 1], n, i);
        assert forall j :: 0 <= j < |pairs| - 1 ==> pairs[..|pairs| - 1][j] == pairs[j];
        r
  }

  /** Pairs whose keys have pairwise distinct addresses in an `n`-slot store. */
  ghost predicate DistinctHomes<V>(pairs: seq<(Key, V)>, n: nat)
    requires n > 0
  {
    forall p, q :: 0 <= p < q < |pairs| ==>
      Address(pairs[p].0, n).value != Address(pairs[q].0, n).value
  }

  /** With distinct addresses, the pair placed at a key's address is that key's pair. */
  lemma {:induction false} PlacedAtOwnHome<V>(pairs: seq<(Key, V)>, n: nat, i: nat)
    requires n > 0 && i < |pairs| && DistinctHomes(pairs, n)
    ensures Placed(pairs, n, Address(pairs[i].0, n).value) == Some(pairs[i])
    decreases |pairs|
  {
    if i < |pairs| - 1 {
      var init := pairs[..|pairs| - 1];
      assert init[i] == pairs[i];
      assert DistinctHomes(init, n) by {
        forall p, q | 0 <= p < q < |init|
          ensures Address(init[p].0, n).value != Address(init[q].0, n).value
        {
          assert init[p] == pairs[p] && init[q] == pairs[q];
        }
      }
      PlacedAtOwnHome(init, n, i);
    }
  }

  /** One step of filling by distinct addresses: a pair whose address no earlier pair
      had goes to the slot at that address, which was still empty. */
  lemma {:induction false} PlaceNext<V>(before: Map<V>, init: seq<(Key, V)>, k: Key, v: V)
    requires Linear(before)
    requires forall i :: 0 <= i < |before.buckets| ==>
               before.buckets[i] == Buckets.Slot(Placed(init, |before.buckets|, i))
    requires forall j :: 0 <= j < |init| ==>
               Address(init[j].0, |before.buckets|).value != Address(k, |before.buckets|).value
    ensures Insert(before, k, v).Ok?
    ensures forall i :: 0 <= i < |before.buckets| ==>
              Insert(before, k, v).value.0.buckets[i] ==
                Buckets.Slot(Placed(init + [(k, v)], |before.buckets|, i))
  {
    var n := |before.buckets|;
    var a := Home(before, k);
    assert Placed(init, n, a).None?;
    InsertIntoEmptyHome(before, k, v);
    var after := Insert(before, k, v).value.0;
    assert (init + [(k, v)])[..|init|] == init;
    forall i | 0 <= i < n
      ensures after.buckets[i] == Buckets.Slot(Placed(init + [(k, v)], n, i))
    {
      if i == a {
        assert after.buckets[i] == Buckets.Slot(Some((k, v)));
      } else {
        assert after.buckets[i] == before.buckets[i];
      }
    }
  }

  /** Inserting pairs with pairwise distinct addresses into an empty linear-probing map
      never panics, and each pair lands in the slot at its key's address. */
  lemma {:induction false} InsertAllAtOwnHomes<V>(m: Map<V>, pairs: seq<(Key, V)>)
    requires Linear(m) && Occupied(m) == {}
    requires DistinctHomes(pairs, |m.buckets|)
    ensures InsertAll(m, pairs).Ok?
    ensures forall i :: 0 <= i < |m.buckets| ==>
              InsertAll(m, pairs).value.buckets[i] == Buckets.Slot(Placed(pairs, |m.buckets|, i))
    decreases |pairs|
  {
    var n := |m.buckets|;
    if |pairs| == 0 {
      forall i | 0 <= i < n
        ensures m.buckets[i] == Buckets.Slot(None)
      {
        assert i !in Occupied(m);
      }
    } else {
      var init := pairs[..|pairs| - 1];
      var (k, v) := pairs[|pairs| - 1];
      assert pairs == init + [(k, v)];
      assert DistinctHomes(init, n) by {
        forall p, q | 0 <= p < q < |init|
          ensures Address(init[p].0, n).value != Address(init[q].0, n).value
        {
          assert init[p] == pairs[p] && init[q] == pairs[q];
        }
      }
      InsertAllAtOwnHomes(m, init);
      var before := InsertAll(m, init).value;
      forall j | 0 <= j < |init|
        ensures Address(init[j].0, n).value != Address(k, n).value
      {
        assert init[j] == pairs[j];
      }
      PlaceNext(before, init, k, v);
    }
  }

  /** A store whose every slot holds the pair placed at its address answers `get` for
      each placed key with that key's value. */
  lemma GetPlaced<V>(m: Map<V>, pairs: seq<(Key, V)>, i: nat)
    requires Linear(m) && i < |pairs| && DistinctHomes(pairs, |m.buckets|)
    requires forall j :: 0 <= j < |m.buckets| ==> m.buckets[j] == Buckets.Slot(Placed(pairs, |m.buckets|, j))
    ensures Get(m, pairs[i].0) == Ok(Some(pairs[i].1))
  {
    var k := pairs[i].0;
    var a := Home(m, k);
    PlacedAtOwnHome(pairs, |m.buckets|, i);
    assert m.buckets[a] == Buckets.Slot(Some(pairs[i]));
    Store.SearchStopsAtStart(m.buckets, a, k);
  }

  /** Filling an empty linear-probing map with pairs whose keys have pairwise distinct
      addresses: every `insert` succeeds and `get` returns each pair's value. */
  lemma FullLoad<V>(m: Map<V>, pairs: seq<(Key, V)>)
    requires Linear(m) && Occupied(m) == {}
    requires DistinctHomes(pairs, |m.buckets|)
    ensures InsertAll(m, pairs).Ok?
    ensures forall i :: 0 <= i < |pairs| ==> Get(InsertAll(m, pairs).value, pairs[i].0) == Ok(Some(pairs[i].1))
  {
    InsertAllAtOwnHomes(m, pairs);
    forall i | 0 <= i < |pairs|
      ensures Get(InsertAll(m, pairs).value, pairs[i].0) == Ok(Some(pairs[i].1))
    {
      GetPlaced(InsertAll(m, pairs).value, pairs, i);
    }
  }

  /** `n` distinct indices below `n` include every index below `n`. */
  lemma {:induction false} Pigeonhole(s: seq<nat>, n: nat, a: nat)
    requires |s| == n && a < n
    requires forall i :: 0 <= i < |s| ==> s[i] < n
    requires forall i, j :: 0 <= i < j < |s| ==> s[i] != s[j]
    ensures a in s
    decreases n
  {
    if j :| 0 <= j < n && s[j] == n - 1 {
      if a < n - 1 {
        var rest := s[..j] + s[j + 1..];
        assert forall i :: 0 <= i < |rest| ==> rest[i] == if i < j then s[i] else s[i + 1];
        Pigeonhole(rest, n - 1, a);
        var i :| 0 <= i < |rest| && rest[i] == a;
        assert s[if i < j then i else i + 1] == a;
      } else {
        assert s[j] == a;
      }
    } else {
      Pigeonhole(s[..n - 1], n - 1, s[n - 1]);
      assert false;
    }
  }

  /** As many pairs as slots, with pairwise distinct addresses, occupy every slot. */
  lemma EveryAddressPlaced<V>(pairs: seq<(Key, V)>, n: nat, a: nat)
    requires n > 0 && a < n && |pairs| == n && DistinctHomes(pairs, n)
    ensures Placed(pairs, n, a).Some?
  {
    var homes := seq(n, j requires 0 <= j < n => Address(pairs[j].0, n).value);
    forall j | 0 <= j < n
      ensures homes[j] < n
    {
      AddressInRange(pairs[j].0, n);
    }
    Pigeonhole(homes, n, a);
    var j :| 0 <= j < n && homes[j] == a;
    assert Address(pairs[j].0, n).value == a;
  }

  /** The saturation boundary: once as many pairs as slots, with pairwise distinct
      addresses, fill an empty linear-probing map, each is retrievable and the next
      `insert` of any key panics because capacity is exhausted. */
  lemma SaturationBoundary<V>(m: Map<V>, pairs: seq<(Key, V)>, k: Key, v: V)
    requires Linear(m) && Occupied(m) == {}
    requires |pairs| == |m.buckets| && DistinctHomes(pairs, |m.buckets|)
    ensures InsertAll(m, pairs).Ok?
    ensures forall i :: 0 <= i < |pairs| ==> Get(InsertAll(m, pairs).value, pairs[i].0) == Ok(Some(pairs[i].1))
    ensures Insert(InsertAll(m, pairs).value, k, v) == Err(CapacityExhausted)
  {
    FullLoad(m, pairs);
    InsertAllAtOwnHomes(m, pairs);
    var full := InsertAll(m, pairs).value;
    PlacedStoreIsFull(full, pairs);
    LinearInsert(full, k, v);
  }

  /** A store holding, at every slot, the pair placed there by as many pairs as slots
      has every slot occupied. */
  lemma PlacedStoreIsFull<V>(full: Map<V>, pairs: seq<(Key, V)>)
    requires |full.buckets| > 0 && |pairs| == |full.buckets| && DistinctHomes(pairs, |full.buckets|)
    requires forall i :: 0 <= i < |full.buckets| ==>
               full.buckets[i] == Buckets.Slot(Placed(pairs, |full.buckets|, i))
    ensures Linear(full)
    ensures forall i :: 0 <= i < |full.buckets| ==> i in Occupied(full)
  {
    forall i | 0 <= i < |full.buckets|
      ensures i in Occupied(full)
    {
      EveryAddressPlaced(pairs, |full.buckets|, i);
    }
  }

  /** A fresh linear-probing map, over an array store or a non-empty `Vec` store, is
      empty. */
  lemma FreshLinearMap<V>(a: Store.ArrayStore, cap: nat)
    ensures var m := WithBuckets(Store.ArrayInitialized<Key, V>(a, LINEAR_PRIMITIVE_MAP));
            Linear(m) && Occupied(m) == {}
    ensures cap > 0 ==>
              var m := Custom(Store.VecWithCapacity<Key, V>(LINEAR_PRIMITIVE_MAP, cap));
              Linear(m) && Occupied(m) == {}
  {
    var m := WithBuckets(Store.ArrayInitialized<Key, V>(a, LINEAR_PRIMITIVE_MAP));
    assert forall i :: 0 <= i < |m.buckets| ==> i !in Occupied(m);
    if cap > 0 {
      var m' := Custom(Store.VecWithCapacity<Key, V>(LINEAR_PRIMITIVE_MAP, cap));
      assert forall i :: 0 <= i < |m'.buckets| ==> i !in Occupied(m');
    }
  }

  // ---------------------------------------------------------------------------
  // The unit tests of the map
  // ---------------------------------------------------------------------------

  /** `i32` keys paired with values. */
  function I32Pairs<V>(pairs: seq<(bv32, V)>): (r: seq<(Key, V)>)
  {
    seq(|pairs|, i requires 0 <= i < |pairs| => (I32(pairs[i].0), pairs[i].1))
  }

  /** Distinct `i32` keys below 1024 have distinct addresses in 1024 slots. */
  lemma SmallI32PairsDistinctHomes<V>(pairs: seq<(bv32, V)>)
    requires forall i :: 0 <= i < |pairs| ==> pairs[i].0 < 1024
    requires forall p, q :: 0 <= p < q < |pairs| ==> pairs[p].0 != pairs[q].0
    ensures DistinctHomes(I32Pairs(pairs), 1024)
  {
    var keyed := I32Pairs(pairs);
    forall p, q | 0 <= p < q < |keyed|
      ensures Address(keyed[p].0, 1024).value != Address(keyed[q].0, 1024).value
    {
      SmallI32KeysOwnAddresses(pairs[p].0, pairs[q].0);
    }
  }

  /** `insert_full_load_linear_probing`: a `LinearPrimitiveMap` over 1024 slots takes
      any list of distinct `i32` keys below 1024, such as all 1024 of the test, and
      `get` then returns each pair's value. */
  lemma FullLoadLinearProbing<V>(pairs: seq<(bv32, V)>)
    requires forall i :: 0 <= i < |pairs| ==> pairs[i].0 < 1024
    requires forall p, q :: 0 <= p < q < |pairs| ==> pairs[p].0 != pairs[q].0
    ensures var m := WithBuckets(Store.ArrayInitialized<Key, V>(Store.Array1024, LINEAR_PRIMITIVE_MAP));
            && InsertAll(m, I32Pairs(pairs)).Ok?
            && forall i :: 0 <= i < |pairs| ==>
                 Get(InsertAll(m, I32Pairs(pairs)).value, I32(pairs[i].0)) == Ok(Some(pairs[i].1))
  {
    var m := WithBuckets(Store.ArrayInitialized<Key, V>(Store.Array1024, LINEAR_PRIMITIVE_MAP));
    FreshLinearMap<V>(Store.Array1024, 0);
    FullLoadI32(m, pairs);
  }

  /** Distinct `i32` keys below 1024 all go into an empty 1024-slot map, and each is
      retrievable. */
  lemma FullLoadI32<V>(m: Map<V>, pairs: seq<(bv32, V)>)
    requires Linear(m) && Occupied(m) == {} && |m.buckets| == 1024
    requires forall i :: 0 <= i < |pairs| ==> pairs[i].0 < 1024
    requires forall p, q :: 0 <= p < q < |pairs| ==> pairs[p].0 != pairs[q].0
    ensures InsertAll(m, I32Pairs(pairs)).Ok?
    ensures forall i :: 0 <= i < |pairs| ==>
              Get(InsertAll(m, I32Pairs(pairs)).value, I32(pairs[i].0)) == Ok(Some(pairs[i].1))
  {
    var keyed := I32Pairs(pairs);
    SmallI32PairsDistinctHomes(pairs);
    FullLoad(m, keyed);
    forall i | 0 <= i < |pairs|
      ensures Get(InsertAll(m, keyed).value, I32(pairs[i].0)) == Ok(Some(pairs[i].1))
    {
      assert keyed[i] == (I32(pairs[i].0), pairs[i].1);
    }
  }

  /** After all 1024 `i32` keys of `insert_full_load_linear_probing`, or any 1024
      distinct `i32` keys below 1024, every slot of the map is occupied and one more
      `insert` panics. */
  lemma FullLoadSaturates<V>(pairs: seq<(bv32, V)>, k: Key, v: V)
    requires |pairs| == 1024
    requires forall i :: 0 <= i < |pairs| ==> pairs[i].0 < 1024
    requires forall p, q :: 0 <= p < q < |pairs| ==> pairs[p].0 != pairs[q].0
    ensures var m := WithBuckets(Store.ArrayInitialized<Key, V>(Store.Array1024, LINEAR_PRIMITIVE_MAP));
            && InsertAll(m, I32Pairs(pairs)).Ok?
            && Insert(InsertAll(m, I32Pairs(pairs)).value, k, v) == Err(CapacityExhausted)
  {
    var m := WithBuckets(Store.ArrayInitialized<Key, V>(Store.Array1024, LINEAR_PRIMITIVE_MAP));
    FreshLinearMap<V>(Store.Array1024, 0);
    SmallI32PairsDistinctHomes(pairs);
    SaturationBoundary(m, I32Pairs(pairs), k, v);
  }

  /** The first `insert` of `insert_and_get_fixed`: the `i16` key 0 has address 0 in a
      64-slot map and takes that slot, leaving slot 1 empty. */
  lemma FirstInsertFixed(v: bv32)
    ensures var m := WithBuckets(Store.ArrayInitialized<Key, bv32>(Store.Array64, LINEAR_PRIMITIVE_MAP));
            var once := Insert(m, I16(0), v);
            && once.Ok? && once.value.1 == None
            && Linear(once.value.0)
            && Home(once.value.0, I16(0)) == 0
            && once.value.0.buckets[0] == Buckets.Slot(Some((I16(0), v)))
            && 1 !in Occupied(once.value.0)
  {
    var m := WithBuckets(Store.ArrayInitialized<Key, bv32>(Store.Array64, LINEAR_PRIMITIVE_MAP));
    FreshLinearMap<bv32>(Store.Array64, 0);
    assert Home(m, I16(0)) == 0;
    assert m.buckets[0] == Buckets.Slot(None);
    InsertIntoEmptyHome(m, I16(0), v);
    LinearInsert(m, I16(0), v);
    var once := Insert(m, I16(0), v).value.0;
    assert 1 !in Occupied(m);
  }

  /** `insert_and_get_fixed`, followed by a second `insert` under the same key: a
      `LinearPrimitiveMap` over 64 slots returns the first value for the `i16` key 0
      after both insertions, and neither insertion returns anything. */
  lemma InsertAndGetFixed(v: bv32, w: bv32)
    ensures var m := WithBuckets(Store.ArrayInitialized<Key, bv32>(Store.Array64, LINEAR_PRIMITIVE_MAP));
            var once := Insert(m, I16(0), v);
            && once.Ok? && once.value.1 == None
            && Get(once.value.0, I16(0)) == Ok(Some(v))
            && Insert(once.value.0, I16(0), w).Ok?
            && Insert(once.value.0, I16(0), w).value.1 == None
            && Get(Insert(once.value.0, I16(0), w).value.0, I16(0)) == Ok(Some(v))
  {
    var m := WithBuckets(Store.ArrayInitialized<Key, bv32>(Store.Array64, LINEAR_PRIMITIVE_MAP));
    FirstInsertFixed(v);
    var once := Insert(m, I16(0), v).value.0;
    Store.SearchStopsAtStart(once.buckets, 0, I16(0));
    LinearInsert(once, I16(0), w);
    ReinsertTakesAnotherSlot(once, I16(0), v, w);
  }
}
