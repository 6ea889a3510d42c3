/** `BTreeBucket`: a bucket that is itself an ordered map from key to value. The tree
    structure and key order are not observable through the bucket, so it is a finite
    map here. */
module BTreeBucket {
  import opened Common

  /** `Bucket::new`: the empty map. */
  function New<K(!new), V>(): map<K, V>
  {
    map[]
  }

  /** `Bucket::get` and the value `get_mut` refers to. */
  function Get<K(!new), V>(m: map<K, V>, k: K): (r: Option<V>)
    ensures r.Some? <==> k in m
    ensures r.Some? ==> r.value == m[k]
  {
    if k in m then Some(m[k]) else None
  }

  /** `Bucket::insert`: `BTreeMap::insert`, which returns the value it replaces. */
  function Insert<K(!new), V>(m: map<K, V>, k: K, v: V): (r: (map<K, V>, Option<V>))
    ensures r.1 == Get(m, k)
    ensures Get(r.0, k) == Some(v)
    ensures forall k' :: k' != k ==> Get(r.0, k') == Get(m, k')
    ensures |r.0| == if k in m then |m| else |m| + 1
  {
    (m[k := v], Get(m, k))
  }

  /** `Bucket::reached_max_capacity`: a tree is never full. */
  predicate ReachedMaxCapacity<K(!new), V>(m: map<K, V>) {
    false
  }

  /** `len`: the number of distinct keys stored, zero only for the empty map. */
  function Len<K(!new), V>(m: map<K, V>): (n: nat)
    ensures n == |m.Keys|
    ensures n == 0 <==> m == map[]
  {
    |m|
  }

  /** `remove_entry`: the key's entry is deleted and returned, paired with the key
      asked for; an absent key changes nothing. */
  function RemoveEntry<K(!new), V>(m: map<K, V>, k: K): (r: (map<K, V>, Option<(K, V)>))
    ensures r.1.Some? <==> k in m
    ensures r.1.Some? ==> r.1.value == (k, m[k])
    ensures Get(r.0, k) == None
    ensures forall k' :: k' != k ==> Get(r.0, k') == Get(m, k')
    ensures |r.0| == if k in m then |m| - 1 else |m|
  {
    if k in m then (m - {k}, Some((k, m[k]))) else (m, None)
  }

  /** `clear`: no entries are left. */
  function Clear<K(!new), V>(m: map<K, V>): (r: map<K, V>)
    ensures |r| == 0 && forall k :: Get(r, k).None?
  {
    map[]
  }

  /** The write through the reference `get_mut` returns. */
  function SetFound<K(!new), V>(m: map<K, V>, k: K, v: V): (r: map<K, V>)
    ensures Get(r, k) == if k in m then Some(v) else None
    ensures forall k' :: k' != k ==> Get(r, k') == Get(m, k')
    ensures r.Keys == m.Keys
  {
    if k in m then m[k := v] else m
  }

  // ---------------------------------------------------------------------------
  // Properties
  // ---------------------------------------------------------------------------

  /** A new tree bucket holds no keys and answers nothing. */
  lemma NewIsEmpty<K(!new), V>(k: K)
    ensures Len(New<K, V>()) == 0 && Get(New<K, V>(), k) == None
  {
  }

  /** Removing a key just inserted returns the inserted pair and, when the key was new,
      gives back the map as it was. */
  lemma InsertThenRemove<K(!new), V>(m: map<K, V>, k: K, v: V)
    ensures RemoveEntry(Insert(m, k, v).0, k).1 == Some((k, v))
    ensures k !in m ==> RemoveEntry(Insert(m, k, v).0, k).0 == m
  {
  }

  /** `len` counts keys, not insertions: inserting a key already present keeps it. */
  lemma LenCountsKeys<K(!new), V>(m: map<K, V>, k: K, v: V, w: V)
    ensures Len(Insert(Insert(m, k, v).0, k, w).0) == Len(Insert(m, k, v).0)
    ensures Len(Insert(m, k, v).0) == Len(m) + (if k in m then 0 else 1)
  {
  }
}
