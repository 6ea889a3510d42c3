/** The `Bucket` trait over its implementations. A map is instantiated with one bucket
    type; here a bucket is a value of a closed sum type, and the `Policy` a map is
    built with decides which kind `new` produces. */
module Buckets {
  import opened Common
  import OptionBucket
  import ListBucket
  import BTreeBucket

  /** The inline sizes the crate instantiates `SmallVecBucketN` for. */
  datatype InlineSize = N1 | N2 | N4 | N8 | N16 | N32 | N64

  /** The bucket type a map is instantiated with. */
  datatype Policy =
    | OptionPolicy                      // `OptionBucket`
    | VecPolicy                         // `VecBucket`
    | SmallVecPolicy(size: InlineSize)  // `SmallVecBucketN`
    | BTreePolicy                       // `BTreeBucket`

  /** A bucket: one optional slot, a list of entries (a `Vec` or a `SmallVec` of any
      inline size) or a tree map. */
  datatype Bucket<K(==, !new), V> =
    | Slot(slot: Option<(K, V)>)
    | Entries(entries: seq<(K, V)>)
    | Tree(tree: map<K, V>)

  /** The bucket kind a policy builds. */
  predicate Fits<K(==, !new), V>(p: Policy, b: Bucket<K, V>) {
    match p
    case OptionPolicy => b.Slot?
    case VecPolicy => b.Entries?
    case SmallVecPolicy(_) => b.Entries?
    case BTreePolicy => b.Tree?
  }

  /** The invariant every bucket built by `new` and `insert` keeps: a list bucket holds
      each key at most once. */
  ghost predicate WellFormed<K(!new), V>(b: Bucket<K, V>) {
    b.Entries? ==> ListBucket.Unique(b.entries)
  }

  /** `Bucket::new` for the policy's bucket type. */
  function New<K(==, !new), V>(p: Policy): Bucket<K, V>
  {
    match p
    case OptionPolicy => Slot(OptionBucket.New())
    case VecPolicy => Entries(ListBucket.New())
    case SmallVecPolicy(_) => Entries(ListBucket.New())
    case BTreePolicy => Tree(BTreeBucket.New())
  }

  /** `Bucket::get`, and the value `get_mut` refers to. A slot answers whenever it is
      occupied, whatever the key; a list answers exactly when some entry has the key,
      with a value stored under it; a tree answers exactly for its keys. */
  function Get<K(==, !new), V>(b: Bucket<K, V>, k: K): (r: Option<V>)
    ensures b.Slot? ==> (r.Some? <==> b.slot.Some?)
    ensures b.Entries? ==> (r.None? <==> forall j :: 0 <= j < |b.entries| ==> b.entries[j].0 != k)
    ensures b.Entries? && r.Some? ==> (k, r.value) in b.entries
    ensures b.Tree? ==> (r.Some? <==> k in b.tree) && (r.Some? ==> r.value == b.tree[k])
  {
    match b
    case Slot(s) => OptionBucket.Get(s, k)
    case Entries(e) => ListBucket.Get(e, k)
    case Tree(t) => BTreeBucket.Get(t, k)
  }

  /** `Bucket::reached_max_capacity`: only an occupied slot is full. */
  predicate ReachedMaxCapacity<K(==, !new), V>(b: Bucket<K, V>)
  {
    match b
    case Slot(s) => OptionBucket.ReachedMaxCapacity(s)
    case Entries(e) => ListBucket.ReachedMaxCapacity(e)
    case Tree(t) => BTreeBucket.ReachedMaxCapacity(t)
  }

  /** `Bucket::insert`. It returns what `get` returned before; afterwards `get` returns
      the new value. A list or tree bucket keeps the other keys' values, while a slot
      forgets whatever it held and becomes full. */
  function Insert<K(==, !new), V>(b: Bucket<K, V>, k: K, v: V): (r: (Bucket<K, V>, Option<V>))
    ensures r.1 == Get(b, k)
    ensures forall p: Policy :: Fits(p, b) ==> Fits(p, r.0)
    ensures WellFormed(b) ==> WellFormed(r.0) && Get(r.0, k) == Some(v)
    ensures WellFormed(b) && !b.Slot? ==>
              forall k' :: k' != k ==> Get(r.0, k') == Get(b, k')
    ensures ReachedMaxCapacity(r.0) <==> b.Slot?
  {
    match b
    case Slot(s) =>
      var (s', displaced) := OptionBucket.Insert(s, k, v);
      OptionBucket.InsertThenGet(s, k, v, k);
      (Slot(s'), displaced)
    case Entries(e) =>
      var (e', displaced) := ListBucket.Insert(e, k, v);
      InsertEntriesFacts(e, k, v);
      (Entries(e'), displaced)
    case Tree(t) =>
      var (t', displaced) := BTreeBucket.Insert(t, k, v);
      (Tree(t'), displaced)
  }

  lemma InsertEntriesFacts<K(!new), V>(e: seq<(K, V)>, k: K, v: V)
    ensures ListBucket.Unique(e) ==> ListBucket.Unique(ListBucket.Insert(e, k, v).0)
    ensures ListBucket.Unique(e) ==> ListBucket.Get(ListBucket.Insert(e, k, v).0, k) == Some(v)
    ensures ListBucket.Unique(e) ==> forall k' :: k' != k ==>
              ListBucket.Get(ListBucket.Insert(e, k, v).0, k') == ListBucket.Get(e, k')
  {
    if ListBucket.Unique(e) {
      ListBucket.InsertKeepsUnique(e, k, v);
      ListBucket.InsertThenGet(e, k, v);
      forall k' | k' != k
        ensures ListBucket.Get(ListBucket.Insert(e, k, v).0, k') == ListBucket.Get(e, k')
      {
        ListBucket.InsertKeepsOthers(e, k, v, k');
      }
    }
  }

  /** The write through the reference `get_mut(k)` returns: `get(k)` then returns the
      written value if there was one to refer to. A list or tree bucket keeps the other
      keys' values; a slot answers every key with its one value. */
  function SetFound<K(==, !new), V>(b: Bucket<K, V>, k: K, v: V): (r: Bucket<K, V>)
    ensures Get(r, k) == if Get(b, k).Some? then Some(v) else None
    ensures !b.Slot? ==> forall k' :: k' != k ==> Get(r, k') == Get(b, k')
    ensures forall p: Policy :: Fits(p, b) ==> Fits(p, r)
    ensures WellFormed(b) ==> WellFormed(r)
    ensures ReachedMaxCapacity(r) == ReachedMaxCapacity(b)
  {
    match b
    case Slot(s) =>
      OptionBucket.SetFoundThenGet(s, k, v, k);
      Slot(OptionBucket.SetFound(s, k, v))
    case Entries(e) =>
      SetFoundKeepsOtherEntries(e, k, v);
      Entries(ListBucket.SetFound(e, k, v))
    case Tree(t) =>
      Tree(BTreeBucket.SetFound(t, k, v))
  }

  lemma SetFoundKeepsOtherEntries<K(!new), V>(e: seq<(K, V)>, k: K, v: V)
    ensures ListBucket.Get(ListBucket.SetFound(e, k, v), k) ==
              if ListBucket.Get(e, k).Some? then Some(v) else None
    ensures forall k' :: k' != k ==>
              ListBucket.Get(ListBucket.SetFound(e, k, v), k') == ListBucket.Get(e, k')
    ensures ListBucket.Unique(e) ==> ListBucket.Unique(ListBucket.SetFound(e, k, v))
  {
    ListBucket.SetFoundThenGet(e, k, v, k);
    forall k' | k' != k
      ensures ListBucket.Get(ListBucket.SetFound(e, k, v), k') == ListBucket.Get(e, k')
    {
      ListBucket.SetFoundThenGet(e, k, v, k');
    }
  }

  // ---------------------------------------------------------------------------
  // Properties
  // ---------------------------------------------------------------------------

  /** `new` builds the policy's bucket kind, well formed, with room, and answering
      nothing for every key. */
  lemma NewIsFresh<K(!new), V>(p: Policy, k: K)
    ensures Fits(p, New<K, V>(p)) && WellFormed(New<K, V>(p))
    ensures !ReachedMaxCapacity(New<K, V>(p)) && Get(New<K, V>(p), k).None?
  {
  }

  /** Which `SmallVecBucketN` a map uses makes no difference: all of them, and
      `VecBucket`, start from the same empty list and share every operation. */
  lemma InlineSizeUnobservable<K(!new), V>(n: InlineSize, m: InlineSize)
    ensures New<K, V>(SmallVecPolicy(n)) == New<K, V>(SmallVecPolicy(m)) == New<K, V>(VecPolicy)
  {
  }

  /** Only the linear-probing slot can be full, and a list or tree bucket accepts every
      insertion. */
  lemma OnlySlotsFill<K(!new), V>(b: Bucket<K, V>, k: K, v: V)
    ensures ReachedMaxCapacity(b) ==> b.Slot?
    ensures !b.Slot? ==> !ReachedMaxCapacity(Insert(b, k, v).0)
  {
  }

  /** A bucket is full exactly when it is a slot that answers, whatever the key, and
      then it answers with the value it holds. */
  lemma FullExactlyWhenSlotAnswers<K(!new), V>(b: Bucket<K, V>, k: K)
    ensures ReachedMaxCapacity(b) <==> b.Slot? && Get(b, k).Some?
    ensures ReachedMaxCapacity(b) ==> Get(b, k) == Some(b.slot.value.1)
  {
  }
}
