/** The older bucket API kept beside the current one: a bucket is pushed to, never
    updated, and a bucket list is a fixed number of buckets. `SmallVecBucket` grows
    without bound; `ArrayBucket` is an array of `BUCKET_SIZE` pairs with a fill count,
    whose unused places hold default pairs. */
module LegacyBucket {
  import opened Common
  import ListBucket

  /** `BUCKET_SIZE`: the places in an `ArrayBucket`. */
  const BUCKET_SIZE: nat := 2

  /** `BUCKET_LIST_SIZE`: the buckets in a bucket list. */
  const BUCKET_LIST_SIZE: nat := 2048

  /** Pushing a pair to the end of a list of pairs: a scan for the first match still
      finds the earlier pair of a key pushed twice. */
  lemma {:induction false} FirstMatchAfterAppend<K, V>(b: seq<(K, V)>, k: K, v: V, k': K)
    ensures ListBucket.Get(b + [(k, v)], k') ==
              if ListBucket.Get(b, k').Some? then ListBucket.Get(b, k')
              else if k' == k then Some(v) else None
    decreases |b|
  {
    if |b| > 0 {
      assert (b + [(k, v)])[1..] == b[1..] + [(k, v)];
      if b[0].0 != k' {
        FirstMatchAfterAppend(b[1..], k, v, k');
      }
    }
  }

  // ---------------------------------------------------------------------------
  // SmallVecBucket
  // ---------------------------------------------------------------------------

  /** `SmallVecBucket`: the pairs in the order they were pushed. */
  datatype SmallVecBucket<K, V> = SmallVecBucket(members: seq<(K, V)>)

  /** `SmallVecBucket::new`: no pairs. */
  function NewSmallVec<K(==, !new), V>(): SmallVecBucket<K, V>
  {
    SmallVecBucket([])
  }

  /** `SmallVecBucket::push`: always succeeds and never removes a pair, so a key
      already present keeps answering with its earlier value. */
  function PushSmallVec<K(==, !new), V>(b: SmallVecBucket<K, V>, k: K, v: V): (r: SmallVecBucket<K, V>)
    ensures |r.members| == |b.members| + 1
    ensures forall k' :: GetSmallVec(r, k') ==
              if GetSmallVec(b, k').Some? then GetSmallVec(b, k')
              else if k' == k then Some(v) else None
  {
    var r := SmallVecBucket(b.members + [(k, v)]);
    forall k' {
      FirstMatchAfterAppend(b.members, k, v, k');
    }
    r
  }

  /** `SmallVecBucket::get`: the value of the first pair with the key. */
  function GetSmallVec<K(==), V>(b: SmallVecBucket<K, V>, k: K): (r: Option<V>)
    ensures r.None? <==> forall j :: 0 <= j < |b.members| ==> b.members[j].0 != k
    ensures r.Some? ==> exists j :: 0 <= j < |b.members| && b.members[j] == (k, r.value) &&
                          forall i :: 0 <= i < j ==> b.members[i].0 != k
  {
    ListBucket.GetAtIndexOf(b.members, k);
    ListBucket.Get(b.members, k)
  }

  // ---------------------------------------------------------------------------
  // ArrayBucket
  // ---------------------------------------------------------------------------

  /** `ArrayBucket`: `BUCKET_SIZE` places and the number of them filled so far. */
  datatype ArrayBucket<K, V> = ArrayBucket(members: seq<(K, V)>, len: nat) {
    /** The shape every `ArrayBucket` has: the array's length is part of its type, and a
        push past the end panics before the count grows. */
    ghost predicate Valid() {
      |members| == BUCKET_SIZE && len <= BUCKET_SIZE
    }
  }

  /** The pairs pushed so far: the filled places, in order. */
  function Contents<K, V>(b: ArrayBucket<K, V>): (r: seq<(K, V)>)
    requires b.Valid()
  {
    b.members[..b.len]
  }

  /** `ArrayBucket::new`: every place holds the default key and value; none is filled. */
  function NewArray<K, V>(defaultKey: K, defaultValue: V): (b: ArrayBucket<K, V>)
    ensures b.Valid() && b.len == 0
    ensures forall i :: 0 <= i < BUCKET_SIZE ==> b.members[i] == (defaultKey, defaultValue)
  {
    ArrayBucket([(defaultKey, defaultValue), (defaultKey, defaultValue)], 0)
  }

  /** `ArrayBucket::push`: writes the place at the fill count and counts it. With every
      place filled the write indexes past the array and panics. */
  function PushArray<K, V>(b: ArrayBucket<K, V>, k: K, v: V): (r: Result<ArrayBucket<K, V>>)
    requires b.Valid()
    ensures r.Err? <==> b.len == BUCKET_SIZE
    ensures r.Err? ==> r.panic == IndexOutOfBounds
    ensures r.Ok? ==> r.value.Valid() && Contents(r.value) == Contents(b) + [(k, v)]
  {
    if b.len >= BUCKET_SIZE then Err(IndexOutOfBounds)
    else
      var r := ArrayBucket(b.members[b.len := (k, v)], b.len + 1);
      assert Contents(r) == Contents(b) + [(k, v)];
      Ok(r)
  }

  /** `ArrayBucket::get`: the value of the first filled place with the key. */
  function GetArray<K(==), V>(b: ArrayBucket<K, V>, k: K): (r: Option<V>)
    requires b.Valid()
    ensures r.None? <==> forall j :: 0 <= j < b.len ==> b.members[j].0 != k
    ensures r.Some? ==> exists j :: 0 <= j < b.len && b.members[j] == (k, r.value)
  {
    ListBucket.Get(b.members[..b.len], k)
  }

  /** An `ArrayBucket` answers exactly like a `SmallVecBucket` of its filled places. */
  lemma ArrayRefinesSmallVec<K(!new), V>(b: ArrayBucket<K, V>, k: K, v: V, k': K)
    requires b.Valid()
    ensures GetArray(b, k') == GetSmallVec(SmallVecBucket(Contents(b)), k')
    ensures PushArray(b, k, v).Ok? ==>
              SmallVecBucket(Contents(PushArray(b, k, v).value)) ==
                PushSmallVec(SmallVecBucket(Contents(b)), k, v)
  {
  }

  // ---------------------------------------------------------------------------
  // Bucket lists
  // ---------------------------------------------------------------------------

  /** `SmallVecBucketList::empty`: `BUCKET_LIST_SIZE` empty buckets. */
  function EmptySmallVecList<K(==, !new), V>(): seq<SmallVecBucket<K, V>>
  {
    seq(BUCKET_LIST_SIZE, _ => NewSmallVec())
  }

  /** `ArrayBucketList::empty`: `BUCKET_LIST_SIZE` copies of a new `ArrayBucket`. */
  function EmptyArrayList<K, V>(defaultKey: K, defaultValue: V): (l: seq<ArrayBucket<K, V>>)
    ensures |l| == BUCKET_LIST_SIZE
    ensures forall i :: 0 <= i < |l| ==> l[i] == NewArray(defaultKey, defaultValue)
  {
    seq(BUCKET_LIST_SIZE, _ => NewArray(defaultKey, defaultValue))
  }

  /** `BucketList::len`: the number of buckets. */
  function Len<B>(l: seq<B>): nat
  {
    |l|
  }

  /** `BucketList::get`: the bucket at the index; an index past the end panics. */
  function At<B>(l: seq<B>, idx: nat): (r: Result<B>)
    ensures r.Err? <==> idx >= |l|
    ensures r.Err? ==> r.panic == IndexOutOfBounds
    ensures r.Ok? ==> r.value == l[idx]
  {
    if idx < |l| then Ok(l[idx]) else Err(IndexOutOfBounds)
  }

  /** `BucketList::get_mut` followed by `push`: only the bucket at the index changes. */
  function PushAt<K(==, !new), V>(l: seq<SmallVecBucket<K, V>>, idx: nat, k: K, v: V): (r: Result<seq<SmallVecBucket<K, V>>>)
    ensures r.Err? <==> idx >= |l|
    ensures r.Ok? ==> |r.value| == |l|
    ensures r.Ok? ==> forall i :: 0 <= i < |l| && i != idx ==> r.value[i] == l[i]
    ensures r.Ok? ==>
              GetSmallVec(r.value[idx], k) ==
                if GetSmallVec(l[idx], k).Some? then GetSmallVec(l[idx], k) else Some(v)
  {
    var b :- At(l, idx);
    Ok(l[idx := PushSmallVec(b, k, v)])
  }

  // ---------------------------------------------------------------------------
  // Properties
  // ---------------------------------------------------------------------------

  /** Two pushes fill an `ArrayBucket`; the third panics. */
  lemma ThirdPushPanics<K, V>(dk: K, dv: V, k1: K, v1: V, k2: K, v2: V, k3: K, v3: V)
    ensures var b0 := NewArray(dk, dv);
            && PushArray(b0, k1, v1).Ok?
            && PushArray(PushArray(b0, k1, v1).value, k2, v2).Ok?
            && PushArray(PushArray(PushArray(b0, k1, v1).value, k2, v2).value, k3, v3) ==
                 Err(IndexOutOfBounds)
  {
  }

  /** The default pairs padding an `ArrayBucket` are never returned: a new bucket
      answers nothing, even for the default key, and after one push the default key
      finds only what was pushed. */
  lemma PaddingNeverReturned<K, V>(dk: K, dv: V, v: V)
    ensures GetArray(NewArray(dk, dv), dk) == None
    ensures PushArray(NewArray(dk, dv), dk, v).Ok?
    ensures GetArray(PushArray(NewArray(dk, dv), dk, v).value, dk) == Some(v)
  {
    var b := PushArray(NewArray(dk, dv), dk, v).value;
    assert b.members[0] == (dk, v);
  }

  /** A new `SmallVecBucket` answers nothing for every key. */
  lemma NewSmallVecIsEmpty<K(!new), V>(k: K)
    ensures GetSmallVec(NewSmallVec<K, V>(), k).None?
  {
  }

  /** Pushing a key twice does not replace its value: both buckets answer with the
      earlier one. */
  lemma EarliestValueWins<K(!new), V>(dk: K, dv: V, k: K, v: V, w: V)
    ensures GetSmallVec(PushSmallVec(PushSmallVec(NewSmallVec(), k, v), k, w), k) == Some(v)
    ensures var b := PushArray(NewArray(dk, dv), k, v).value;
            GetArray(PushArray(b, k, w).value, k) == Some(v)
  {
    var b := PushArray(NewArray(dk, dv), k, v).value;
    ArrayRefinesSmallVec(b, k, w, k);
    ArrayRefinesSmallVec(PushArray(b, k, w).value, k, w, k);
  }

  /** Both empty bucket lists hold `BUCKET_LIST_SIZE` buckets, and every bucket answers
      nothing for every key. */
  lemma EmptyListsHoldNothing<K(!new), V>(dk: K, dv: V, idx: nat, k: K)
    ensures Len(EmptySmallVecList<K, V>()) == Len(EmptyArrayList(dk, dv)) == BUCKET_LIST_SIZE
    ensures idx < BUCKET_LIST_SIZE ==> At(EmptySmallVecList<K, V>(), idx).value == NewSmallVec<K, V>()
    ensures idx < BUCKET_LIST_SIZE ==> GetSmallVec(At(EmptySmallVecList<K, V>(), idx).value, k) == None
    ensures idx < BUCKET_LIST_SIZE ==> GetArray(At(EmptyArrayList(dk, dv), idx).value, k) == None
    ensures idx >= BUCKET_LIST_SIZE ==> At(EmptyArrayList(dk, dv), idx) == Err(IndexOutOfBounds)
  {
  }
}
