/**
 * The reference behaviour a single thread observes: a FIFO sequence bounded
 * by the capacity, with `enq` as push-back (rejected when full) and `deq` as
 * pop-front. A `deq` on the empty queue would block, so a single-threaded run
 * does not issue it.
 */
module Refinement {
  import opened Types

  datatype Action<T> = Enq(elem: T) | Deq

  /** What a call returned: an `enq` with its result, or a `deq` with the value it took out. */
  datatype Reply<T> = Enqueued(elem: T, result: Result<()>) | Dequeued(elem: T)

  /** The queue left after a run, and the replies of the calls issued, in order. */
  datatype Run<T> = Run(queue: seq<T>, replies: seq<Reply<T>>)

  /** One action on the reference FIFO of the given capacity. */
  function Step<T>(q: seq<T>, capacity: nat, a: Action<T>): Run<T>
  {
    match a
    case Enq(x) =>
      if |q| < capacity then Run(q + [x], [Enqueued(x, Ok(()))])
      else Run(q, [Enqueued(x, Err(WouldBlock))])
    case Deq =>
      if q == [] then Run(q, [])
      else Run(q[1..], [Dequeued(q[0])])
  }

  /** A whole sequence of actions on the reference FIFO. */
  function RunFifo<T>(q: seq<T>, capacity: nat, actions: seq<Action<T>>): Run<T>
    decreases |actions|
  {
    if actions == [] then Run(q, [])
    else
      var first := Step(q, capacity, actions[0]);
      var rest := RunFifo(first.queue, capacity, actions[1..]);
      Run(rest.queue, first.replies + rest.replies)
  }

  /** Moving one action from the pending part of a run to the finished part. */
  lemma RunFifoAdvance<T>(done: seq<Reply<T>>, q: seq<T>, capacity: nat, actions: seq<Action<T>>, i: nat, total: Run<T>)
    requires i < |actions|
    requires done + RunFifo(q, capacity, actions[i..]).replies == total.replies
    requires RunFifo(q, capacity, actions[i..]).queue == total.queue
    ensures var step := Step(q, capacity, actions[i]);
      && (done + step.replies) + RunFifo(step.queue, capacity, actions[i + 1..]).replies == total.replies
      && RunFifo(step.queue, capacity, actions[i + 1..]).queue == total.queue
  {
    assert actions[i..][0] == actions[i] && actions[i..][1..] == actions[i + 1..];
  }

  /** The values whose `enq` returned `Ok`, in order. */
  function Accepted<T>(rs: seq<Reply<T>>): seq<T>
  {
    if rs == [] then []
    else (if rs[0].Enqueued? && rs[0].result.Ok? then [rs[0].elem] else []) + Accepted(rs[1..])
  }

  /** The values returned by `deq`, in order. */
  function Delivered<T>(rs: seq<Reply<T>>): seq<T>
  {
    if rs == [] then []
    else (if rs[0].Dequeued? then [rs[0].elem] else []) + Delivered(rs[1..])
  }

  lemma {:induction false} AcceptedAppend<T>(a: seq<Reply<T>>, b: seq<Reply<T>>)
    ensures Accepted(a + b) == Accepted(a) + Accepted(b)
    decreases |a|
  {
    if a == [] {
      assert a + b == b;
    } else {
      assert (a + b)[0] == a[0];
      assert (a + b)[1..] == a[1..] + b;
      AcceptedAppend(a[1..], b);
    }
  }

  lemma {:induction false} DeliveredAppend<T>(a: seq<Reply<T>>, b: seq<Reply<T>>)
    ensures Delivered(a + b) == Delivered(a) + Delivered(b)
    decreases |a|
  {
    if a == [] {
      assert a + b == b;
    } else {
      assert (a + b)[0] == a[0];
      assert (a + b)[1..] == a[1..] + b;
      DeliveredAppend(a[1..], b);
    }
  }

  /** A run never holds more than the capacity, and every `enq` fails exactly when the queue is full. */
  lemma {:induction false} RunStaysBounded<T>(q: seq<T>, capacity: nat, actions: seq<Action<T>>)
    requires |q| <= capacity
    ensures |RunFifo(q, capacity, actions).queue| <= capacity
    decreases |actions|
  {
    if actions != [] {
      RunStaysBounded(Step(q, capacity, actions[0]).queue, capacity, actions[1..]);
    }
  }

  /** A single action conserves values: what was queued plus what it accepted is what it delivered plus what is queued after. */
  lemma StepConserves<T>(q: seq<T>, capacity: nat, a: Action<T>)
    ensures var step := Step(q, capacity, a);
      q + Accepted(step.replies) == Delivered(step.replies) + step.queue
  {
    var step := Step(q, capacity, a);
    assert step.replies == [] || step.replies[1..] == [];
    match a
    case Enq(x) =>
      assert Delivered(step.replies) == [];
      if |q| < capacity {
        assert Accepted(step.replies) == [x];
      } else {
        assert Accepted(step.replies) == [];
      }
    case Deq =>
      assert Accepted(step.replies) == [];
      if q != [] {
        assert Delivered(step.replies) == [q[0]];
        assert q == [q[0]] + q[1..];
      } else {
        assert Delivered(step.replies) == [];
      }
  }

  /** Every `enq` reply of a run is `Ok` when the run cannot reach the capacity. */
  ghost predicate NoneRejected<T>(rs: seq<Reply<T>>)
  {
    forall k :: 0 <= k < |rs| && rs[k].Enqueued? ==> rs[k].result == Ok(())
  }

  /** A run that starts with `|q|` values and issues at most `capacity - |q|` actions never sees `WouldBlock`. */
  lemma {:induction false} ShortRunNeverRejects<T>(q: seq<T>, capacity: nat, actions: seq<Action<T>>)
    requires |q| + |actions| <= capacity
    ensures NoneRejected(RunFifo(q, capacity, actions).replies)
    decreases |actions|
  {
    if actions != [] {
      var first := Step(q, capacity, actions[0]);
      var rest := RunFifo(first.queue, capacity, actions[1..]);
      ShortRunNeverRejects(first.queue, capacity, actions[1..]);
      assert NoneRejected(first.replies);
      var all := first.replies + rest.replies;
      forall k | 0 <= k < |all| && all[k].Enqueued?
        ensures all[k].result == Ok(())
      {
        if k >= |first.replies| {
          assert all[k] == rest.replies[k - |first.replies|];
        }
      }
    }
  }

  /** Chaining two conservation equations. */
  lemma Regroup<T>(q: seq<T>, a1: seq<T>, a2: seq<T>, d1: seq<T>, q1: seq<T>, d2: seq<T>, q2: seq<T>)
    requires q + a1 == d1 + q1 && q1 + a2 == d2 + q2
    ensures q + (a1 + a2) == (d1 + d2) + q2
  {
    calc {
      q + (a1 + a2);
      (d1 + q1) + a2;
      d1 + (d2 + q2);
    }
  }

  /**
   * No loss and no duplication: what was queued before plus every value whose
   * `enq` returned `Ok` equals every value `deq` returned followed by what is
   * still queued, in order.
   */
  lemma {:induction false} NoLossNoDuplication<T>(q: seq<T>, capacity: nat, actions: seq<Action<T>>)
    ensures var run := RunFifo(q, capacity, actions);
      q + Accepted(run.replies) == Delivered(run.replies) + run.queue
    decreases |actions|
  {
    var run := RunFifo(q, capacity, actions);
    if actions == [] {
      assert run.replies == [];
    } else {
      var first := Step(q, capacity, actions[0]);
      var rest := RunFifo(first.queue, capacity, actions[1..]);
      assert run == Run(rest.queue, first.replies + rest.replies);
      NoLossNoDuplication(first.queue, capacity, actions[1..]);
      StepConserves(q, capacity, actions[0]);
      AcceptedAppend(first.replies, rest.replies);
      DeliveredAppend(first.replies, rest.replies);
      Regroup(q, Accepted(first.replies), Accepted(rest.replies), Delivered(first.replies),
              first.queue, Delivered(rest.replies), rest.queue);
    }
  }

  /** Starting empty, once the queue is drained every accepted value has been delivered exactly once, in order. */
  lemma DrainedRunDeliversAccepted<T>(capacity: nat, actions: seq<Action<T>>)
    requires RunFifo([], capacity, actions).queue == []
    ensures Delivered(RunFifo([], capacity, actions).replies) == Accepted(RunFifo([], capacity, actions).replies)
  {
    var run := RunFifo([], capacity, actions);
    NoLossNoDuplication([], capacity, actions);
    assert [] + Accepted(run.replies) == Accepted(run.replies);
    assert Delivered(run.replies) + [] == Delivered(run.replies);
  }
}
