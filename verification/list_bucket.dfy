/** `VecBucket` and every `SmallVecBucketN`: an unordered list of entries, updated in
    place by `swap_remove` and `push`. The inline size `N` of a `SmallVec` decides only
    where the entries are stored, so one model serves all of them. */
module ListBucket {
  import opened Common

  /** `Bucket::new`: no entries. */
  function New<K, V>(): seq<(K, V)>
  {
    []
  }

  /** No key occurs in two entries. */
  ghost predicate Unique<K, V>(b: seq<(K, V)>) {
    forall i, j :: 0 <= i < j < |b| ==> b[i].0 != b[j].0
  }

  /** `IndexOf::index_of`: the least index whose entry has the key. */
  function IndexOf<K(==), V>(b: seq<(K, V)>, k: K): (r: Option<nat>)
    ensures r.Some? ==> r.value < |b| && b[r.value].0 == k
    ensures r.Some? ==> forall j :: 0 <= j < r.value ==> b[j].0 != k
    ensures r.None? <==> forall j :: 0 <= j < |b| ==> b[j].0 != k
    decreases |b|
  {
    if |b| == 0 then None
    else if b[0].0 == k then Some(0)
    else match IndexOf(b[1..], k)
      case None => None
      case Some(i) => Some(i + 1)
  }

  /** `Bucket::get`: the value of the first entry with the key, found by its own scan. */
  function Get<K(==), V>(b: seq<(K, V)>, k: K): (r: Option<V>)
    ensures r.None? <==> forall j :: 0 <= j < |b| ==> b[j].0 != k
    ensures r.Some? ==> (k, r.value) in b
    decreases |b|
  {
    if |b| == 0 then None
    else if b[0].0 == k then Some(b[0].1)
    else Get(b[1..], k)
  }

  /** The two scans agree: `get` returns the value at the index `index_of` finds. */
  lemma {:induction false} GetAtIndexOf<K, V>(b: seq<(K, V)>, k: K)
    ensures Get(b, k) == if IndexOf(b, k).Some? then Some(b[IndexOf(b, k).value].1) else None
    decreases |b|
  {
    if |b| > 0 && b[0].0 != k {
      GetAtIndexOf(b[1..], k);
    }
  }

  /** With unique keys, `get` finds exactly the stored entries. */
  lemma GetOfUnique<K, V>(b: seq<(K, V)>, k: K, v: V)
    requires Unique(b)
    ensures Get(b, k) == Some(v) <==> (k, v) in b
  {
    GetAtIndexOf(b, k);
    if (k, v) in b {
      var i :| 0 <= i < |b| && b[i] == (k, v);
      assert IndexOf(b, k) == Some(i);
    }
  }

  /** `Vec::swap_remove`: take out the element at `i` and move the last element into
      its place. */
  function SwapRemove<T>(s: seq<T>, i: nat): (r: (T, seq<T>))
    requires i < |s|
    ensures r.0 == s[i] && |r.1| == |s| - 1
    ensures forall j :: 0 <= j < |r.1| && j != i ==> r.1[j] == s[j]
    ensures i < |r.1| ==> r.1[i] == s[|s| - 1]
    ensures multiset(r.1) + multiset{s[i]} == multiset(s)
  {
    SwapRemovePermutes(s, i);
    (s[i], s[i := s[|s| - 1]][..|s| - 1])
  }

  lemma SwapRemovePermutes<T>(s: seq<T>, i: nat)
    requires i < |s|
    ensures multiset(s[i := s[|s| - 1]][..|s| - 1]) + multiset{s[i]} == multiset(s)
  {
    var n := |s|;
    var rest := s[i := s[n - 1]][..n - 1];
    if i == n - 1 {
      assert rest == s[..n - 1];
      assert s == s[..n - 1] + [s[n - 1]];
    } else {
      assert rest == s[..i] + [s[n - 1]] + s[i + 1..n - 1];
      assert s == s[..i] + [s[i]] + s[i + 1..n - 1] + [s[n - 1]];
    }
  }

  /** `Bucket::insert`: an entry with the key is swap-removed and its value returned,
      then the new entry is pushed at the end. */
  function Insert<K(==), V>(b: seq<(K, V)>, k: K, v: V): (r: (seq<(K, V)>, Option<V>))
    ensures r.1 == Get(b, k)
    ensures |r.0| == if r.1.Some? then |b| else |b| + 1
    ensures r.0 == r.0[..|r.0| - 1] + [(k, v)]
    ensures r.1.None? ==> multiset(r.0) == multiset(b) + multiset{(k, v)}
    ensures r.1.Some? ==> multiset(r.0) + multiset{(k, r.1.value)} == multiset(b) + multiset{(k, v)}
  {
    GetAtIndexOf(b, k);
    match IndexOf(b, k)
    case None => (b + [(k, v)], None)
    case Some(i) =>
      var (removed, rest) := SwapRemove(b, i);
      (rest + [(k, v)], Some(removed.1))
  }

  /** `Bucket::reached_max_capacity`: a list bucket is never full, whatever the number of
      entries, because a `SmallVec` spills to the heap past its inline size. */
  predicate ReachedMaxCapacity<K, V>(b: seq<(K, V)>) {
    false
  }

  /** The write through the reference `get_mut` returns: the first entry with the key
      takes the new value; without such an entry nothing changes. */
  function SetFound<K(==), V>(b: seq<(K, V)>, k: K, v: V): (r: seq<(K, V)>)
    ensures |r| == |b|
    ensures forall j :: 0 <= j < |b| ==> r[j].0 == b[j].0
  {
    match IndexOf(b, k)
    case None => b
    case Some(i) => b[i := (k, v)]
  }

  // ---------------------------------------------------------------------------
  // Properties
  // ---------------------------------------------------------------------------

  /** A new list bucket has no entries, so it answers nothing and trivially holds each
      key at most once. */
  lemma NewIsEmpty<K, V>(k: K)
    ensures |New<K, V>()| == 0 && Get(New<K, V>(), k) == None && Unique(New<K, V>())
  {
  }

  /** Swap-removing an entry from a list with unique keys leaves unique keys, none of
      them the removed entry's key. */
  lemma SwapRemoveKeepsUnique<K, V>(b: seq<(K, V)>, i: nat)
    requires Unique(b) && i < |b|
    ensures Unique(SwapRemove(b, i).1)
    ensures forall j :: 0 <= j < |SwapRemove(b, i).1| ==> SwapRemove(b, i).1[j].0 != b[i].0
  {
    var rest := SwapRemove(b, i).1;
    forall j | 0 <= j < |rest|
      ensures rest[j].0 != b[i].0
    {
      if j != i {
        assert rest[j] == b[j];
      } else {
        assert rest[j] == b[|b| - 1];
      }
    }
    forall p, q | 0 <= p < q < |rest|
      ensures rest[p].0 != rest[q].0
    {
      if p == i {
        assert rest[p] == b[|b| - 1] && rest[q] == b[q];
      } else if q == i {
        assert rest[p] == b[p] && rest[q] == b[|b| - 1];
      } else {
        assert rest[p] == b[p] && rest[q] == b[q];
      }
    }
  }

  /** Appending an entry whose key is absent keeps the keys unique. */
  lemma AppendFreshKeepsUnique<K, V>(b: seq<(K, V)>, k: K, v: V)
    requires Unique(b) && forall j :: 0 <= j < |b| ==> b[j].0 != k
    ensures Unique(b + [(k, v)])
  {
  }

  /** Inserting keeps the keys unique: the old entry for the key, if any, is the one
      removed. */
  lemma InsertKeepsUnique<K, V>(b: seq<(K, V)>, k: K, v: V)
    requires Unique(b)
    ensures Unique(Insert(b, k, v).0)
  {
    match IndexOf(b, k)
    case None =>
      AppendFreshKeepsUnique(b, k, v);
    case Some(i) =>
      SwapRemoveKeepsUnique(b, i);
      AppendFreshKeepsUnique(SwapRemove(b, i).1, k, v);
  }

  /** After `insert(k, v)`, `get(k)` is `v`. */
  lemma InsertThenGet<K, V>(b: seq<(K, V)>, k: K, v: V)
    requires Unique(b)
    ensures Get(Insert(b, k, v).0, k) == Some(v)
  {
    var r := Insert(b, k, v).0;
    InsertKeepsUnique(b, k, v);
    assert r[|r| - 1] == (k, v);
    GetOfUnique(r, k, v);
  }

  /** `insert(k, v)` leaves what `get` returns for every other key unchanged. */
  lemma InsertKeepsOthers<K, V>(b: seq<(K, V)>, k: K, v: V, k': K)
    requires Unique(b) && k' != k
    ensures Get(Insert(b, k, v).0, k') == Get(b, k')
  {
    var r := Insert(b, k, v);
    InsertKeepsUnique(b, k, v);
    forall w: V
      ensures (k', w) in r.0 <==> (k', w) in b
    {
      assert (k', w) in multiset(r.0) <==> (k', w) in multiset(b);
    }
    match Get(b, k')
    case None =>
      if Get(r.0, k').Some? {
        GetOfUnique(r.0, k', Get(r.0, k').value);
        GetOfUnique(b, k', Get(r.0, k').value);
      }
    case Some(w) =>
      GetOfUnique(b, k', w);
      GetOfUnique(r.0, k', w);
  }

  /** The value written through `get_mut` is what `get` then returns; the other keys
      are untouched. */
  lemma {:induction false} SetFoundThenGet<K, V>(b: seq<(K, V)>, k: K, v: V, k': K)
    ensures Get(SetFound(b, k, v), k) == if Get(b, k).Some? then Some(v) else None
    ensures k' != k ==> Get(SetFound(b, k, v), k') == Get(b, k')
    decreases |b|
  {
    if |b| > 0 && b[0].0 != k {
      SetFoundThenGet(b[1..], k, v, k');
      assert SetFound(b, k, v) == [b[0]] + SetFound(b[1..], k, v);
    }
  }

  /** Both scans stop at the first entry with the key. */
  lemma FirstMatchExample()
    ensures IndexOf([(1, 10), (2, 20), (1, 30)], 1) == Some(0)
    ensures Get([(1, 10), (2, 20), (1, 30)], 1) == Some(10)
  {
  }

  /** A new key is appended. */
  lemma InsertNewKeyExample()
    ensures Insert([(1, 10), (2, 20)], 3, 30) == ([(1, 10), (2, 20), (3, 30)], None)
  {
    var b: seq<(int, int)> := [(1, 10), (2, 20)];
    assert IndexOf(b, 3) == None;
    assert b + [(3, 30)] == [(1, 10), (2, 20), (3, 30)];
  }

  /** A present key's entry is swap-removed, so the last entry takes its place, and the
      new entry goes to the end. */
  lemma InsertPresentKeyExample()
    ensures Insert([(1, 10), (2, 20), (3, 30)], 1, 11) == ([(3, 30), (2, 20), (1, 11)], Some(10))
  {
    var c: seq<(int, int)> := [(1, 10), (2, 20), (3, 30)];
    assert IndexOf(c, 1) == Some(0);
    assert SwapRemove(c, 0).1 == [(3, 30), (2, 20)];
    assert Insert(c, 1, 11).0 == [(3, 30), (2, 20)] + [(1, 11)];
    assert [(3, 30), (2, 20)] + [(1, 11)] == [(3, 30), (2, 20), (1, 11)];
  }
}
