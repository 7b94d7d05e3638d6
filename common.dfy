/** Shared vocabulary: the unsigned 64-bit sample type and the failure-carrying
    result types of the fail-fast paths, where a failed dassert aborts. */
module Common {

  const TwoTo64: int := 0x1_0000_0000_0000_0000

  /** An unsigned 64-bit integer (uint64_t). */
  type u64 = x: int | 0 <= x < TwoTo64

  /** Reduction modulo 2^64: uint64_t arithmetic wraps modulo 2^64 on overflow. */
  function Wrap64(x: int): (r: u64)
    ensures (r - x) % TwoTo64 == 0
  {
    x % TwoTo64
  }

  datatype Option<+T> = None | Some(value: T)

  /** A value, or the message a failed dassert aborts with. */
  datatype Result<+T> = Success(value: T) | Failure(error: string)

  /** The message a failed dassert aborts with, for an operation that
      always fails fast. */
  datatype Outcome = Fail(error: string)
}
