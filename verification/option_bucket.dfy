/** `OptionBucket`: a single slot, the bucket of linear probing. It holds at most one
    entry, is full as soon as it holds one, and never compares keys: `get` returns the
    stored value whatever key is asked for, and `insert` replaces whatever is there. */
module OptionBucket {
  import opened Common

  /** `Bucket::new`: the empty slot. */
  function New<K, V>(): Option<(K, V)>
  {
    None
  }

  /** `Bucket::get` and the value `get_mut` refers to: the stored value, if any. The key
      is not looked at. */
  function Get<K, V>(b: Option<(K, V)>, k: K): (r: Option<V>)
    ensures r.Some? <==> b.Some?
    ensures r.Some? ==> b == Some((b.value.0, r.value))
  {
    match b
    case None => None
    case Some((_, v)) => Some(v)
  }

  /** `Bucket::insert`: take out whatever pair is stored, store the new pair, and return
      the value taken out. */
  function Insert<K, V>(b: Option<(K, V)>, k: K, v: V): (r: (Option<(K, V)>, Option<V>))
    ensures r.1 == Get(b, k)
    ensures r.0 == Some((k, v)) && ReachedMaxCapacity(r.0)
  {
    var displaced := match b case None => None case Some((_, w)) => Some(w);
    (Some((k, v)), displaced)
  }

  /** `Bucket::reached_max_capacity`: the slot is occupied. */
  predicate ReachedMaxCapacity<K, V>(b: Option<(K, V)>)
  {
    b.Some?
  }

  /** The write through the reference `get_mut` returns: the stored value is replaced
      and the stored key kept, whatever key was asked for. */
  function SetFound<K, V>(b: Option<(K, V)>, k: K, v: V): (r: Option<(K, V)>)
    ensures r.Some? <==> b.Some?
    ensures r.Some? ==> r.value.0 == b.value.0
  {
    match b
    case None => None
    case Some((stored, _)) => Some((stored, v))
  }

  // ---------------------------------------------------------------------------
  // Properties
  // ---------------------------------------------------------------------------

  /** A new slot is empty: it answers nothing and has room for an entry. */
  lemma NewIsEmpty<K, V>(k: K)
    ensures New<K, V>().None? && Get(New<K, V>(), k) == None
    ensures !ReachedMaxCapacity(New<K, V>())
  {
  }

  /** After `insert(k, v)` every key reads `v`, and a value stored under a different key
      is displaced and returned all the same. */
  lemma InsertThenGet<K, V>(b: Option<(K, V)>, k: K, v: V, k': K)
    ensures Get(Insert(b, k, v).0, k') == Some(v)
    ensures b.Some? ==> Insert(b, k, v).1 == Some(b.value.1)
  {
  }

  /** The write through `get_mut` is what every later `get` reads. */
  lemma SetFoundThenGet<K, V>(b: Option<(K, V)>, k: K, v: V, k': K)
    ensures Get(SetFound(b, k, v), k') == if b.Some? then Some(v) else None
  {
  }

  /** The slot never looks at keys: two keys always read the same. */
  lemma GetIgnoresKey<K, V>(b: Option<(K, V)>, k: K, k': K)
    ensures Get(b, k) == Get(b, k')
  {
  }

  /** A slot is full exactly when it answers, and a full slot answers every key with
      its value; a slot with room answers nothing. */
  lemma FullExactlyWhenAnswering<K, V>(b: Option<(K, V)>, k: K)
    ensures ReachedMaxCapacity(b) <==> Get(b, k).Some?
    ensures ReachedMaxCapacity(b) ==> Get(b, k) == Some(b.value.1)
  {
  }
}
