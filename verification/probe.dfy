/** The probe order: `WrappingIndexIterator` walks the indices of a store of `length`
    buckets starting at `start`, wraps from the end back to 0, and stops when it
    comes back round to `start`. The iterator is a value here and `Next` returns the
    advanced iterator along with the item. */
module Probe {
  import opened Common

  datatype WrappingIndexIterator = WrappingIndexIterator(
    start: nat, length: nat, current: nat, first: bool)
  {
    /** The states reachable from `New`: the cursor never passes the end. */
    predicate Valid() {
      start <= length && current <= length
    }

    /** Back at the start after the first step: every later `Next` yields nothing. */
    predicate Exhausted() {
      current == start && !first
    }
  }

  /** `WrappingIndexIterator::new`, which asserts that the start is not past the end. */
  function New(start: nat, length: nat): (r: Result<WrappingIndexIterator>)
    ensures r.Err? <==> start > length
    ensures r.Err? ==> r.panic == StartPastLength
    ensures r.Ok? ==> r.value.Valid() && !r.value.Exhausted()
    ensures r.Ok? ==> r.value.start == start && r.value.length == length
  {
    if start <= length then Ok(WrappingIndexIterator(start, length, start, true))
    else Err(StartPastLength)
  }

  /** `Iterator::next`: unless back at the start, yield the cursor and advance it, or,
      at the end, move the cursor to 0 and try once more. */
  function Next(it: WrappingIndexIterator): (r: (Option<nat>, WrappingIndexIterator))
    requires it.Valid()
    ensures r.1.Valid() && r.1.start == it.start && r.1.length == it.length
    ensures r.0.Some? ==> r.0.value < it.length && r.1.current == r.0.value + 1 && !r.1.first
    ensures r.0.None? ==> r.1.Exhausted()
    ensures it.Exhausted() ==> r == (None, it)
    decreases if it.current < it.length || it.Exhausted() then 0 else 1
  {
    if it.current != it.start || it.first then
      if it.current < it.length then
        (Some(it.current), it.(current := it.current + 1, first := false))
      else
        Next(it.(current := 0, first := false))
    else
      (None, it)
  }

  /** The `i`-th index visited from `start`: counting on from `start` and wrapping once. */
  function Wrap(start: nat, length: nat, i: nat): nat
  {
    if start + i < length then start + i else start + i - length
  }

  /** Everything the iterator yields from `New(start, length)`, in order. */
  function ProbeOrder(start: nat, length: nat): (r: seq<nat>)
    requires start <= length
    ensures |r| == length
    ensures forall i :: 0 <= i < |r| ==> r[i] < length
  {
    seq(length, i requires 0 <= i < length => Wrap(start, length, i))
  }

  /** The iterator after it has yielded `k` items. */
  function After(start: nat, length: nat, k: nat): WrappingIndexIterator
    requires start <= length && k <= length
  {
    if k == 0 then WrappingIndexIterator(start, length, start, true)
    else WrappingIndexIterator(start, length, Wrap(start, length, k - 1) + 1, false)
  }

  lemma AfterValid(start: nat, length: nat, k: nat)
    requires start <= length && k <= length
    ensures After(start, length, k).Valid()
  {
  }

  /** Before it has gone all the way round, the iterator yields the next index of the
      probe order. */
  lemma NextAfter(start: nat, length: nat, k: nat)
    requires start <= length && k < length
    ensures After(start, length, k).Valid()
    ensures Next(After(start, length, k)) == (Some(Wrap(start, length, k)), After(start, length, k + 1))
  {
    var it := After(start, length, k);
    if k == 0 && start == length {
      assert Next(it) == Next(it.(current := 0, first := false));
    } else if k > 0 && Wrap(start, length, k - 1) + 1 == length {
      assert Next(it) == Next(it.(current := 0, first := false));
    }
  }

  /** Once all `length` indices have been yielded, the iterator yields nothing. */
  lemma NextAfterAll(start: nat, length: nat)
    requires start <= length
    ensures After(start, length, length).Valid()
    ensures Next(After(start, length, length)).0 == None
  {
    var it := After(start, length, length);
    if length == 0 || (start == 0 && length > 0) {
      assert Next(it) == Next(it.(current := 0, first := false));
    }
  }

  /** Running the iterator from `New(start, length)` to the end: a panic when `start` is
      past the end, the probe order otherwise. */
  method Collect(start: nat, length: nat) returns (r: Result<seq<nat>>)
    ensures r.Err? <==> start > length
    ensures r.Err? ==> r.panic == StartPastLength
    ensures r.Ok? ==> start <= length && r.value == ProbeOrder(start, length)
  {
    var it :- New(start, length);
    var out: seq<nat> := [];
    while true
      invariant |out| <= length
      invariant it == After(start, length, |out|)
      invariant out == ProbeOrder(start, length)[..|out|]
      decreases length - |out|
    {
      AfterValid(start, length, |out|);
      var step := Next(it);
      if step.0.None? {
        if |out| < length {
          NextAfter(start, length, |out|);
        }
        break;
      }
      if |out| == length {
        NextAfterAll(start, length);
      }
      NextAfter(start, length, |out|);
      out := out + [step.0.value];
      it := step.1;
    }
    return Ok(out);
  }

  // ---------------------------------------------------------------------------
  // The probe order as a rotation
  // ---------------------------------------------------------------------------

  /** The indices `0, 1, ..., length - 1` in increasing order. */
  function Indices(length: nat): (r: seq<nat>)
  {
    seq(length, i requires 0 <= i < length => i)
  }

  /** The probe order is the index range rotated left by `start`: `start, ..., length - 1`
      followed by `0, ..., start - 1`. A start equal to the length rotates by a full turn. */
  lemma ProbeOrderIsRotation(start: nat, length: nat)
    requires start <= length
    ensures ProbeOrder(start, length) == Indices(length)[start..] + Indices(length)[..start]
  {
    var p, q := ProbeOrder(start, length), Indices(length)[start..] + Indices(length)[..start];
    assert |p| == |q|;
    forall i | 0 <= i < |p|
      ensures p[i] == q[i]
    {
      if i < length - start {
        assert q[i] == Indices(length)[start + i];
      } else {
        assert q[i] == Indices(length)[i - (length - start)];
      }
    }
  }

  /** Counting on from `start` and wrapping once is the remainder of `start + i` by
      the length. */
  lemma WrapIsRemainder(start: nat, length: nat, i: nat)
    requires start <= length && i < length
    ensures Wrap(start, length, i) == (start + i) % length
  {
    if start + i >= length {
      assert start + i == 1 * length + (start + i - length);
    }
  }

  /** The `i`-th index of the probe order is `(start + i) % length`. */
  lemma ProbeOrderIsModular(start: nat, length: nat)
    requires start <= length
    ensures forall i :: 0 <= i < length ==> ProbeOrder(start, length)[i] == (start + i) % length
  {
    forall i | 0 <= i < length
      ensures ProbeOrder(start, length)[i] == (start + i) % length
    {
      WrapIsRemainder(start, length, i);
    }
  }

  /** The step at which the probe order from `start` reaches index `a`. */
  function StepOf(start: nat, length: nat, a: nat): (k: nat)
    requires start <= length && a < length
    ensures k < length && ProbeOrder(start, length)[k] == a
  {
    if start <= a then a - start else length - start + a
  }

  /** The probe order visits every index of the store exactly once. */
  lemma ProbeOrderIsPermutation(start: nat, length: nat)
    requires start <= length
    ensures forall a: nat :: a in ProbeOrder(start, length) <==> a < length
    ensures forall i, j :: 0 <= i < j < length ==>
              ProbeOrder(start, length)[i] != ProbeOrder(start, length)[j]
  {
    var p := ProbeOrder(start, length);
    forall a: nat | a < length
      ensures a in p
    {
      assert p[StepOf(start, length, a)] == a;
    }
  }

  /** The probe starts at `start`, or at 0 when `start` is the length itself. */
  lemma ProbeOrderStart(start: nat, length: nat)
    requires start <= length && length > 0
    ensures ProbeOrder(start, length)[0] == if start < length then start else 0
  {
  }

  /** The four cases of the iterator's unit test, and the panic of its
      invalid-input test. */
  lemma ProbeOrderExamples()
    ensures ProbeOrder(0, 5) == [0, 1, 2, 3, 4]
    ensures ProbeOrder(2, 5) == [2, 3, 4, 0, 1]
    ensures ProbeOrder(0, 1) == [0]
    ensures ProbeOrder(0, 0) == []
    ensures ProbeOrder(3, 3) == [0, 1, 2]
    ensures New(1, 0) == Err(StartPastLength)
  {
    assert ProbeOrder(2, 5)[3] == 0;
  }
}
