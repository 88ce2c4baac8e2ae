/** Values shared by every part of the model: optional references, the
    exceptions the synchronizer throws, thread identities and Java `int`
    arithmetic. */
module Base {

  /** A nullable reference: `None` stands for Java's `null`. */
  datatype Option<T> = None | Some(value: T)

  /** The exceptions the modelled code throws, as values. */
  datatype Failure =
    | IllegalMonitorState       // IllegalMonitorStateException
    | MaximumLockCountExceeded  // Error("Maximum lock count exceeded")
    | NotOwner                  // IllegalArgumentException("not owner")
    | NullArgument              // NullPointerException

  /** The outcome of an operation that may throw. */
  datatype Result<T> = Ok(value: T) | Err(failure: Failure)

  /** The identity of a `Thread` object; `Thread.currentThread()` is passed in. */
  type ThreadId = nat

  const INT_MIN: int := -0x8000_0000
  const INT_MAX: int := 0x7fff_ffff

  /** `x` fits in a Java `int`. */
  predicate IsInt(x: int) {
    INT_MIN <= x <= INT_MAX
  }

  /** The Java `int` that an exact result `x` wraps around to (two's complement). */
  function Wrap(x: int): (r: int)
    ensures IsInt(r)
    ensures IsInt(x) ==> r == x
    ensures (x - r) % 0x1_0000_0000 == 0
  {
    (x - INT_MIN) % 0x1_0000_0000 + INT_MIN
  }
}
