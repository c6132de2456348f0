# Two-lock bounded queue, modelled in Dafny

This project models the bounded multi-producer/multi-consumer FIFO queue of
`src/deque.rs`. The queue is the two-lock queue from "The Art of
Multiprocessor Programming". `InnerQueue` holds four things:

- a fixed array of `capacity` optional slots;
- a write cursor, kept inside the producer mutex (`enq_lock`);
- a read cursor, kept inside the consumer mutex (`deq_lock`);
- an occupancy counter `size`.

`Queue` is a handle that forwards every call to one shared `InnerQueue`.

Under the locks, each operation is a sequential step on the buffer:

- `enq` stores a value in the empty slot at the write cursor. If that slot is
  occupied, it returns `Err(WouldBlock)`.
- `deq` takes the value out of the slot at the read cursor once `size > 0`.

Files:

- `types.dfy` (module `Types`): the slot type `Option`, the error
  `WouldBlock`, `Result`, and the default capacity 1024.
- `ring.dfy` (module `RingBuffer`): the locked state as a value `Ring`.
  - `Valid` is the invariant: `size <= capacity`; the write cursor is
    `(rd + size) % capacity`; the occupied slots are exactly the `size` slots
    starting at the read cursor, wrapping around.
  - `Represents` ties a ring to the FIFO sequence it holds.
  - `EnqStep` and `DeqStep` are one locked `enq` and one locked `deq`.
  - The lemmas prove that `enq` fails exactly when the ring is full, that the
    `None` arm of `deq` cannot be reached, that both steps refine push-back
    and pop-front, and that the counter equals the number of occupied slots.
- `refinement.dfy` (module `Refinement`): a reference FIFO bounded by the
  capacity, runs of `enq`/`deq` actions over it, and the no-loss,
  no-duplication law for such runs.
- `deque.dfy` (module `Deque`): the classes `InnerQueue` and `Queue`.
  `InnerQueue` keeps an `array<Option<T>>`, the fields `wr`, `rd` and `size`,
  and a ghost `contents`. Each method updates the array in place. Each is
  proved against `EnqStep`/`DeqStep` and states its full new state.
- `model_check.dfy` (module `ModelCheck`): the sequential model check of the
  source's tests. One thread runs a queue of the default capacity next to a
  plain FIFO sequence. The method is proved to give the reference FIFO's
  replies.

## Model

| member | source | states |
|---|---|---|
| `RingBuffer.Create` | src/deque.rs:35-48 | a fresh ring has exactly `capacity` slots, both cursors at 0, and holds the empty queue (so every slot is `None` and `size` is 0) |
| `RingBuffer.FullIffWriteSlotOccupied` | src/deque.rs:59-62 | under the invariant, the slot at the write cursor is occupied exactly when `size == capacity` |
| `RingBuffer.EnqStep` | src/deque.rs:50-76 | one locked `enq` keeps the invariant; it returns `Err` exactly when the ring is full; it asks to wake dequeuers exactly on the 0 to 1 transition of `size` |
| `RingBuffer.EnqKeepsValid` | src/deque.rs:62-67 | storing at the write cursor, advancing it modulo the capacity and incrementing `size` keeps the cursor/counter/occupancy invariant |
| `RingBuffer.DeqStep` | src/deque.rs:83-93 | one locked `deq` on a non-empty ring keeps the invariant and decrements `size` |
| `RingBuffer.DeqKeepsValid` | src/deque.rs:85-89 | emptying the slot at the read cursor, advancing it modulo the capacity and decrementing `size` keeps the invariant |
| `RingBuffer.ReadSlotOccupied` | src/deque.rs:85-92 | when `size > 0`, the slot at the read cursor is `Some`, so the `unreachable!()` arm cannot be taken |
| `RingBuffer.EnqRefines` | src/deque.rs:59-75 | on a ring holding queue `q`: below capacity, `enq` returns `Ok(())` and the ring then holds `q + [elem]`; at capacity, it returns `Err(WouldBlock)` and nothing changes |
| `RingBuffer.DeqRefines` | src/deque.rs:83-93 | on a ring holding a non-empty `q`, `deq` returns `q[0]` and the ring then holds `q[1..]` |
| `RingBuffer.SizeIsOccupancy` | src/deque.rs:16 | under the invariant, the occupancy counter equals the number of occupied slots |
| `RingBuffer.OccupiedBlock` | src/deque.rs:16 | counting rule used for the occupancy: when the occupied (or the empty) slots form one block `[lo, hi)`, their count is the block's length (or the rest) |
| `Refinement.RunStaysBounded` | src/deque.rs:59-60 | a run of the bounded reference FIFO never holds more than the capacity |
| `Refinement.StepConserves` | src/deque.rs:211-215 | one action conserves values: old queue plus accepted values equals delivered values plus new queue |
| `Refinement.NoLossNoDuplication` | src/deque.rs:211-239 | for any run, the old queue followed by the values whose `enq` returned `Ok` equals the values `deq` returned followed by what is still queued, in order |
| `Refinement.DrainedRunDeliversAccepted` | src/deque.rs:220-239 | starting empty, once the queue is drained, the delivered values are exactly the accepted ones, in order (hence the same multiset) |
| `Refinement.ShortRunNeverRejects` | src/deque.rs:172-177 | a run that cannot reach the capacity never sees `WouldBlock`, which is the `is_ok()` assertion of the sequential test |
| `Deque.InnerQueue.WithCapacity` | src/deque.rs:35-48 | fills `capacity` slots with `None` in a loop; both cursors and `size` are 0, the contents are empty, and the invariant holds |
| `Deque.InnerQueue.New` | src/deque.rs:31-33 | a queue of capacity 1024 with empty contents |
| `Deque.InnerQueue.Enq` | src/deque.rs:50-76 | if full: `Err(WouldBlock)`, and no slot, cursor, counter or content changes. Otherwise: `Some(elem)` goes into the previously `None` slot at the write cursor, other slots stay the same, the write cursor becomes `(wr + 1) % capacity`, `size` gains 1, the contents gain `elem` at the back, and the result is `Ok(())`. The read cursor never moves. The wake flag is set exactly when `size` was 0. The new state is `EnqStep` of the old one |
| `Deque.InnerQueue.Deq` | src/deque.rs:78-94 | returns the value in the slot at the read cursor, which is the head of the contents. It leaves that slot `None` and every other slot as it was, sets the read cursor to `(rd + 1) % capacity`, decrements `size` and drops the head of the contents. The match has no `None` arm, because the verifier shows it cannot occur. The new state is `DeqStep` of the old one |
| `Deque.Queue.WithCapacity` | src/deque.rs:119-122 | a handle to a freshly built `InnerQueue` of that capacity |
| `Deque.Queue.New` | src/deque.rs:124-126 | a handle to a fresh queue of capacity 1024 |
| `Deque.Queue.Enq` | src/deque.rs:128-130 | forwards to the inner queue: `Ok(())` and push-back below capacity, `Err(WouldBlock)` and no change at capacity |
| `Deque.Queue.Deq` | src/deque.rs:132-134 | forwards to the inner queue: returns the head and pops it |
| `ModelCheck.SequentialModelCheck` | src/deque.rs:164-189 | driving a default-capacity queue and a FIFO sequence side by side gives the reference FIFO's replies and final queue, with every `deq` equal to the sequence's front. The accepted values equal the delivered ones followed by what remains. For at most 1024 actions, no `enq` is rejected |

## Left out

- The mutexes, the condition variable, `notify_all` and the wait loop in `deq` (src/deque.rs:17-19, 52, 69-74, 79-82). They exist for concurrency, which this sequential model does not cover.
- `Deque.InnerQueue.Enq` returns the decision to wake dequeuers as a second result (`mustWakeDequeuers`) instead of calling `notify_all`.
- `Deque.InnerQueue.Deq`: blocking while `size == 0` is modelled as the precondition `size > 0`, so no call can wait. The same holds for `Deque.Queue.Deq` and `RingBuffer.DeqStep`.
- `Deque.InnerQueue.WithCapacity`: requires `capacity >= 1`. With capacity 0, the source's cursor update `%= 0` would panic. The same holds for `Deque.Queue.WithCapacity` and `RingBuffer.Create`.
- The relaxed atomic memory ordering of `size` (src/deque.rs:65, 80, 89): `size` is a plain integer field.
- Integer widths: the capacity and `size` are `usize`, and the cursors are `isize` with `capacity as isize` in the update. They are unbounded naturals here. A capacity above `isize::MAX` is not modelled.
- Raw-pointer storage (src/deque.rs:15, 36-42, 53-58, 83-84): the slots are an owned Dafny array. The source takes the pointer from a local `Vec` that is dropped when `with_capacity` returns, so the pointer dangles. This memory unsafety is not modelled.
- `Queue::clone` and the `unsafe impl Send/Sync` (src/deque.rs:7-8, 102, 105-112): sharing one `InnerQueue` between threads is aliasing and threading, which this model leaves out. `Queue` holds its `InnerQueue` as a constant field and forwards to it.
- `enq` and `deq` lock-poisoning panics (`expect("... poisoned")`) and the null-pointer checks: no lock or raw pointer exists in the model.
- The multi-threaded `model_check` test, thread spawning and joining, and the QuickCheck generator (src/deque.rs:145-162, 191-243). Only their sequential facts are modelled: `Refinement.NoLossNoDuplication` and `Refinement.DrainedRunDeliversAccepted`.
- `ModelCheck.SequentialModelCheck`: the test asserts that every `enq` succeeds. The model records each `enq` result instead, and proves that all succeed when there are at most 1024 actions.
