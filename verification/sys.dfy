/**
 * Shared vocabulary for the model: the errno values the library tests,
 * the result of one system call as a script entry, and opaque pointers.
 *
 * Every system call of the library is replaced by a script: a sequence of
 * results that the kernel is assumed to deliver, consumed one per call.
 */
module Sys {

  /** The errno values the library distinguishes; any other is OtherErrno. */
  datatype Errno = EINTR | EAGAIN | ENOSPC | EINVAL | OtherErrno(code: int)

  /** One system call's report: a non-negative count, or -1 with errno set. */
  datatype SysResult = Ok(n: nat) | Err(errno: Errno)

  datatype Option<T> = None | Some(value: T)

  /**
   * The outcome of a call driven by a script: it returned `value` after
   * consuming `used` script entries, it panicked (abort or exit) after
   * consuming `used` entries, or the script ran out while the source would
   * still be retrying or blocked.
   */
  datatype Call<T> = Returned(value: T, used: nat) | Panicked(used: nat) | Pending

  /** An opaque `void *` or function pointer, by identity; 0 is NULL. */
  type Ptr = nat
  const NULL: Ptr := 0

  /** A file descriptor. */
  type Fd = int

  const U64_LIMIT: int := 0x1_0000_0000_0000_0000

  /** One past the largest C `unsigned int`. */
  const UINT_LIMIT: nat := 0x1_0000_0000

  /** A transient failure that the retry loops of the library go round again for. */
  predicate Transient(r: SysResult)
  {
    r.Err? && (r.errno == EINTR || r.errno == EAGAIN)
  }
}
