/**
 * The sequential state that the two locks of the queue protect, as a value:
 * the storage slots, the write cursor (owned by the producer lock), the read
 * cursor (owned by the consumer lock) and the occupancy counter. The step
 * functions here are what one `enq` or one `deq` does to that state once its
 * lock is held; the classes in module Deque are proved against them.
 */
module RingBuffer {
  import opened Types

  datatype Ring<T> = Ring(slots: seq<Option<T>>, wr: nat, rd: nat, size: nat)

  /** What one `enq` produces: the new state, its result, and whether dequeuers must be woken. */
  datatype EnqOutcome<T> = EnqOutcome(ring: Ring<T>, result: Result<()>, wake: bool)

  /** What one `deq` produces: the new state and the value taken out. */
  datatype DeqOutcome<T> = DeqOutcome(ring: Ring<T>, elem: T)

  /** Facts about `%` on the small range the cursors live in. */
  lemma ModRange(a: int, n: int)
    requires 0 < n && 0 <= a < 2 * n
    ensures a % n == if a < n then a else a - n
  {
    if a < n {
      assert a == 0 * n + a;
    } else {
      assert a == 1 * n + (a - n);
    }
  }

  /** Number of forward steps, wrapping around, from slot `from` to slot `to` of an n-slot ring. */
  function Dist(from: nat, to: nat, n: nat): (d: nat)
    requires from < n && to < n
    ensures d < n
    ensures (from + d) % n == to
  {
    ModRange(from + (if from <= to then to - from else to + n - from), n);
    if from <= to then to - from else to + n - from
  }

  /** Walking k < n steps forward from `from` lands on a slot at distance k. */
  lemma DistOfAdvance(from: nat, k: nat, n: nat)
    requires from < n && k < n
    ensures (from + k) % n < n && Dist(from, (from + k) % n, n) == k
  {
    ModRange(from + k, n);
  }

  /** Advancing the start by one slot shortens the distance to every other slot by one. */
  lemma DistAfterStep(from: nat, to: nat, n: nat)
    requires from < n && to < n
    ensures (from + 1) % n < n
    ensures to == from ==> Dist((from + 1) % n, to, n) == n - 1
    ensures to != from ==> Dist((from + 1) % n, to, n) == Dist(from, to, n) - 1
  {
    ModRange(from + 1, n);
  }

  /**
   * The invariant linking the cursors and the counter: at most `capacity`
   * values, the write cursor `size` slots after the read cursor, and the
   * occupied slots exactly the `size` slots starting at the read cursor,
   * wrapping around.
   */
  ghost predicate Valid<T>(r: Ring<T>)
  {
    var n := |r.slots|;
    && 0 < n && r.wr < n && r.rd < n && r.size <= n
    && r.wr == (r.rd + r.size) % n
    && forall i :: 0 <= i < n ==> (r.slots[i].Some? <==> Dist(r.rd, i, n) < r.size)
  }

  /** `r` holds the FIFO sequence `q`: `q[k]` sits k slots after the read cursor. */
  ghost predicate Represents<T>(r: Ring<T>, q: seq<T>)
  {
    && Valid(r)
    && |q| == r.size
    && forall i :: 0 <= i < |r.slots| && Dist(r.rd, i, |r.slots|) < r.size ==>
         r.slots[i] == Some(q[Dist(r.rd, i, |r.slots|)])
  }

  /** A fresh ring of `capacity` empty slots with both cursors at 0 holds the empty queue. */
  function Create<T>(capacity: nat): (r: Ring<T>)
    requires capacity >= 1
    ensures |r.slots| == capacity && r.wr == 0 && r.rd == 0
    ensures Represents(r, [])
  {
    Ring(seq(capacity, _ => None), 0, 0, 0)
  }

  /** The slot at the write cursor is occupied exactly when the ring is full. */
  lemma FullIffWriteSlotOccupied<T>(r: Ring<T>)
    requires Valid(r)
    ensures r.slots[r.wr].Some? <==> r.size == |r.slots|
  {
    var n := |r.slots|;
    if r.size < n {
      DistOfAdvance(r.rd, r.size, n);
    } else {
      assert Dist(r.rd, r.wr, n) < n;
    }
  }

  /**
   * One `enq` with the producer lock held: reject when the slot at the write
   * cursor is occupied; otherwise store the value there, advance the write
   * cursor modulo the capacity and increment the counter, asking for a wake-up
   * when the counter was 0 before.
   */
  function EnqStep<T>(r: Ring<T>, elem: T): (o: EnqOutcome<T>)
    requires Valid(r)
    ensures Valid(o.ring)
    ensures o.result.Err? <==> r.size == |r.slots|
    ensures o.wake <==> r.size == 0 && o.ring.size == 1
  {
    FullIffWriteSlotOccupied(r);
    if r.slots[r.wr].Some? then
      EnqOutcome(r, Err(WouldBlock), false)
    else
      var r' := Ring(r.slots[r.wr := Some(elem)], (r.wr + 1) % |r.slots|, r.rd, r.size + 1);
      EnqKeepsValid(r, r', elem);
      EnqOutcome(r', Ok(()), r.size == 0)
  }

  lemma EnqKeepsValid<T>(r: Ring<T>, r': Ring<T>, elem: T)
    requires Valid(r) && r.size < |r.slots|
    requires r' == Ring(r.slots[r.wr := Some(elem)], (r.wr + 1) % |r.slots|, r.rd, r.size + 1)
    ensures Valid(r')
  {
    var n := |r.slots|;
    ModRange(r.rd + r.size, n);
    ModRange(r.wr + 1, n);
    ModRange(r.rd + r.size + 1, n);
    DistOfAdvance(r.rd, r.size, n);
    forall i | 0 <= i < n
      ensures r'.slots[i].Some? <==> Dist(r.rd, i, n) < r'.size
    {
      if i != r.wr {
        assert Dist(r.rd, i, n) != r.size;
      }
    }
  }

  /**
   * One `deq` with the consumer lock held and the counter non-zero: take the
   * value out of the slot at the read cursor, leave that slot empty, advance
   * the read cursor modulo the capacity and decrement the counter.
   */
  function DeqStep<T>(r: Ring<T>): (o: DeqOutcome<T>)
    requires Valid(r) && r.size > 0
    ensures Valid(o.ring) && o.ring.size == r.size - 1
  {
    var n := |r.slots|;
    var r' := Ring(r.slots[r.rd := None], r.wr, (r.rd + 1) % n, r.size - 1);
    DeqKeepsValid(r, r');
    DeqOutcome(r', r.slots[r.rd].value)
  }

  lemma DeqKeepsValid<T>(r: Ring<T>, r': Ring<T>)
    requires Valid(r) && r.size > 0
    requires r' == Ring(r.slots[r.rd := None], r.wr, (r.rd + 1) % |r.slots|, r.size - 1)
    ensures Valid(r')
  {
    var n := |r.slots|;
    ModRange(r.rd + 1, n);
    ModRange(r.rd + r.size, n);
    ModRange(r'.rd + r'.size, n);
    forall i | 0 <= i < n
      ensures r'.slots[i].Some? <==> Dist(r'.rd, i, n) < r'.size
    {
      DistAfterStep(r.rd, i, n);
    }
  }

  /** Under the invariant the slot at the read cursor of a non-empty ring is occupied. */
  lemma ReadSlotOccupied<T>(r: Ring<T>)
    requires Valid(r) && r.size > 0
    ensures r.slots[r.rd].Some?
  {
    assert Dist(r.rd, r.rd, |r.slots|) == 0;
  }

  /** `enq` on the ring is push-back on the queue it holds, and fails exactly when that queue is full. */
  lemma EnqRefines<T>(r: Ring<T>, q: seq<T>, elem: T)
    requires Represents(r, q)
    ensures |q| < |r.slots| ==> EnqStep(r, elem).result == Ok(()) && Represents(EnqStep(r, elem).ring, q + [elem])
    ensures |q| == |r.slots| ==> EnqStep(r, elem) == EnqOutcome(r, Err(WouldBlock), false)
  {
    var n := |r.slots|;
    FullIffWriteSlotOccupied(r);
    if |q| < n {
      var r' := EnqStep(r, elem).ring;
      DistOfAdvance(r.rd, r.size, n);
      forall i | 0 <= i < n && Dist(r'.rd, i, n) < r'.size
        ensures r'.slots[i] == Some((q + [elem])[Dist(r'.rd, i, n)])
      {
        if i != r.wr {
          assert Dist(r.rd, i, n) != r.size;
        }
      }
    }
  }

  /** `deq` on a non-empty ring is pop-front on the queue it holds and returns its head. */
  lemma DeqRefines<T>(r: Ring<T>, q: seq<T>)
    requires Represents(r, q) && |q| > 0
    ensures DeqStep(r).elem == q[0]
    ensures Represents(DeqStep(r).ring, q[1..])
  {
    var n := |r.slots|;
    var r' := DeqStep(r).ring;
    assert Dist(r.rd, r.rd, n) == 0;
    forall i | 0 <= i < n && Dist(r'.rd, i, n) < r'.size
      ensures r'.slots[i] == Some(q[1..][Dist(r'.rd, i, n)])
    {
      DistAfterStep(r.rd, i, n);
    }
  }

  /** Number of occupied slots. */
  function Occupied<T>(s: seq<Option<T>>): nat
  {
    if s == [] then 0
    else Occupied(s[..|s| - 1]) + (if s[|s| - 1].Some? then 1 else 0)
  }

  /** Counting the occupied slots when they form, or when the empty ones form, one block [lo, hi). */
  lemma {:induction false} OccupiedBlock<T>(s: seq<Option<T>>, lo: nat, hi: nat, inside: bool)
    requires lo <= hi <= |s|
    requires forall i :: 0 <= i < |s| ==> (s[i].Some? <==> ((lo <= i < hi) == inside))
    ensures Occupied(s) == if inside then hi - lo else |s| - (hi - lo)
    decreases |s|
  {
    if s != [] {
      var m := |s| - 1;
      var s' := s[..m];
      OccupiedBlock(s', if lo > m then m else lo, if hi > m then m else hi, inside);
    }
  }

  /** The occupancy counter always equals the number of occupied slots. */
  lemma SizeIsOccupancy<T>(r: Ring<T>)
    requires Valid(r)
    ensures Occupied(r.slots) == r.size
  {
    var n := |r.slots|;
    if r.rd + r.size <= n {
      OccupiedBlock(r.slots, r.rd, r.rd + r.size, true);
    } else {
      OccupiedBlock(r.slots, r.rd + r.size - n, r.rd, false);
    }
  }
}
