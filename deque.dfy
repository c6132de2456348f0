/**
 * The queue itself. `InnerQueue` holds the slot array, the two cursors that
 * the source keeps inside its two mutexes, and the occupancy counter; its
 * methods are the bodies of the two critical sections, proved against the
 * step functions of module RingBuffer. `Queue` is the handle that forwards to
 * one shared `InnerQueue`.
 */
module Deque {
  import opened Types
  import opened RingBuffer

  class InnerQueue<T> {
    const capacity: nat
    const data: array<Option<T>>
    /** The write cursor, guarded by the producer lock. */
    var wr: nat
    /** The read cursor, guarded by the consumer lock. */
    var rd: nat
    /** The occupancy counter. */
    var size: nat
    /** The FIFO sequence the queue holds, oldest value first. */
    ghost var contents: seq<T>

    ghost function State(): Ring<T>
      reads this, data
    {
      Ring(data[..], wr, rd, size)
    }

    ghost predicate Valid()
      reads this, data
    {
      data.Length == capacity && Represents(State(), contents)
    }

    /** `capacity` empty slots, both cursors at 0, counter 0. */
    constructor WithCapacity(capacity: nat)
      requires capacity >= 1
      ensures Valid() && fresh(data)
      ensures this.capacity == capacity && contents == []
      ensures forall i :: 0 <= i < capacity ==> data[i] == None
      ensures wr == 0 && rd == 0 && size == 0
      ensures State() == Create(capacity)
    {
      var slots := new Option<T>[capacity];
      for i := 0 to capacity
        invariant forall j :: 0 <= j < i ==> slots[j] == None
      {
        slots[i] := None;
      }
      this.capacity := capacity;
      data := slots;
      wr, rd, size := 0, 0, 0;
      contents := [];
      new;
      assert data[..] == Create<T>(capacity).slots;
    }

    /** The constructor without arguments uses the default capacity. */
    static method New() returns (q: InnerQueue<T>)
      ensures fresh(q) && fresh(q.data) && q.Valid()
      ensures q.capacity == DefaultCapacity && q.contents == []
      ensures q.State() == Create(DefaultCapacity)
    {
      q := new InnerQueue.WithCapacity(DefaultCapacity);
    }

    /**
     * Stores `elem` at the write cursor unless that slot is occupied. The
     * second result says whether the counter went from 0 to 1, which is when
     * the source wakes every blocked dequeuer.
     */
    method Enq(elem: T) returns (res: Result<()>, mustWakeDequeuers: bool)
      requires Valid()
      modifies this, data
      ensures Valid()
      ensures EnqStep(old(State()), elem) == EnqOutcome(State(), res, mustWakeDequeuers)
      ensures res.Err? <==> old(size) == capacity
      ensures res.Err? ==>
        && res == Err(WouldBlock)
        && data[..] == old(data[..]) && wr == old(wr) && size == old(size)
        && contents == old(contents)
      ensures res.Ok? ==>
        && old(data[wr]) == None
        && data[..] == old(data[..])[old(wr) := Some(elem)]
        && wr == (old(wr) + 1) % capacity
        && size == old(size) + 1
        && contents == old(contents) + [elem]
      ensures rd == old(rd)
      ensures mustWakeDequeuers <==> old(size) == 0
    {
      ghost var before := State();
      EnqRefines(before, contents, elem);
      mustWakeDequeuers := false;
      if data[wr].Some? {
        return Err(WouldBlock), mustWakeDequeuers;
      }
      data[wr] := Some(elem);
      wr := (wr + 1) % capacity;
      var previous := size;
      size := size + 1;
      if previous == 0 {
        mustWakeDequeuers := true;
      }
      contents := contents + [elem];
      res := Ok(());
      assert State() == EnqStep(before, elem).ring;
    }

    /**
     * Takes the value out of the slot at the read cursor. The source blocks
     * until the counter is non-zero; here that is the precondition.
     */
    method Deq() returns (elem: T)
      requires Valid() && size > 0
      modifies this, data
      ensures Valid()
      ensures DeqStep(old(State())) == DeqOutcome(State(), elem)
      ensures elem == old(contents)[0] && contents == old(contents)[1..]
      ensures old(data[rd]) == Some(elem)
      ensures data[..] == old(data[..])[old(rd) := None]
      ensures rd == (old(rd) + 1) % capacity && size == old(size) - 1
      ensures wr == old(wr)
    {
      ghost var before := State();
      DeqRefines(before, contents);
      var slot := data[rd];
      data[rd] := None;
      match slot {
        case Some(e) =>
          rd := (rd + 1) % capacity;
          size := size - 1;
          contents := contents[1..];
          elem := e;
      }
      assert State() == DeqStep(before).ring;
    }
  }

  /** The handle: every call forwards to the one shared `InnerQueue`. */
  class Queue<T> {
    const inner: InnerQueue<T>

    ghost predicate Valid()
      reads this, inner, inner.data
    {
      inner.Valid()
    }

    constructor WithCapacity(capacity: nat)
      requires capacity >= 1
      ensures Valid() && fresh(inner) && fresh(inner.data)
      ensures inner.capacity == capacity && inner.contents == []
    {
      inner := new InnerQueue.WithCapacity(capacity);
    }

    static method New() returns (q: Queue<T>)
      ensures fresh(q) && fresh(q.inner) && fresh(q.inner.data) && q.Valid()
      ensures q.inner.capacity == DefaultCapacity && q.inner.contents == []
    {
      q := new Queue.WithCapacity(DefaultCapacity);
    }

    method Enq(elem: T) returns (res: Result<()>)
      requires Valid()
      modifies inner, inner.data
      ensures Valid()
      ensures res == if |old(inner.contents)| < inner.capacity then Ok(()) else Err(WouldBlock)
      ensures inner.contents == if res.Ok? then old(inner.contents) + [elem] else old(inner.contents)
    {
      var wake;
      res, wake := inner.Enq(elem);
    }

    method Deq() returns (elem: T)
      requires Valid() && inner.size > 0
      modifies inner, inner.data
      ensures Valid()
      ensures elem == old(inner.contents)[0] && inner.contents == old(inner.contents)[1..]
    {
      elem := inner.Deq();
    }
  }
}
