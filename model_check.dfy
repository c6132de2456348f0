/**
 * The sequential model check: a single thread drives a queue of the default
 * capacity and a plain FIFO sequence side by side through a list of actions,
 * and every value taken out of the queue equals the one taken off the front
 * of the sequence. A `deq` on an empty model is skipped, since it would block.
 */
module ModelCheck {
  import opened Types
  import opened Refinement
  import opened Deque

  method SequentialModelCheck<T>(actions: seq<Action<T>>) returns (replies: seq<Reply<T>>, remaining: seq<T>)
    ensures replies == RunFifo([], DefaultCapacity, actions).replies
    ensures remaining == RunFifo([], DefaultCapacity, actions).queue
    ensures Accepted(replies) == Delivered(replies) + remaining
    ensures |actions| <= DefaultCapacity ==> NoneRejected(replies)
  {
    var sut := Queue<T>.New();
    var model: seq<T> := [];
    replies := [];
    for i := 0 to |actions|
      invariant sut.Valid() && fresh(sut.inner) && fresh(sut.inner.data)
      invariant sut.inner.capacity == DefaultCapacity
      invariant sut.inner.contents == model
      invariant replies + RunFifo(model, DefaultCapacity, actions[i..]).replies
             == RunFifo([], DefaultCapacity, actions).replies
      invariant RunFifo(model, DefaultCapacity, actions[i..]).queue
             == RunFifo([], DefaultCapacity, actions).queue
    {
      ghost var step := Step(model, DefaultCapacity, actions[i]);
      RunFifoAdvance(replies, model, DefaultCapacity, actions, i, RunFifo([], DefaultCapacity, actions));
      ghost var done := replies;
      match actions[i] {
        case Enq(v) =>
          var res := sut.Enq(v);
          if res.Ok? {
            model := model + [v];
          }
          replies := replies + [Enqueued(v, res)];
        case Deq =>
          if model != [] {
            var v := sut.Deq();
            assert v == model[0];
            model := model[1..];
            replies := replies + [Dequeued(v)];
          }
      }
      assert model == step.queue && replies == done + step.replies;
    }
    remaining := model;
    NoLossNoDuplication([], DefaultCapacity, actions);
    if |actions| <= DefaultCapacity {
      ShortRunNeverRejects([], DefaultCapacity, actions);
    }
    assert [] + Accepted(replies) == Accepted(replies);
  }
}
