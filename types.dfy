/** Values shared by every part of the queue model. */
module Types {

  /** One storage slot: empty, or occupied by a queued value. */
  datatype Option<T> = None | Some(value: T)

  /** The only recoverable error: `enq` found the slot at the write cursor occupied. */
  datatype Error = WouldBlock

  /** What `enq` returns: `Ok(())` when the value was stored, `Err(WouldBlock)` otherwise. */
  datatype Result<T> = Ok(value: T) | Err(error: Error)

  /** Capacity used by the constructors that take none. */
  const DefaultCapacity: nat := 1024
}
