/**
 * The helpers of src/util.c: the reclamation hook and the allocators that
 * never return NULL, the transient-retry read and write wrappers, the
 * byte-accounting loops xread and xwrite, and the eventfd wrappers.
 */
module Util {
  import opened Sys
  import opened UtilMacros

  // ---------------------------------------------------------------------
  // Reclamation hook and allocators
  // ---------------------------------------------------------------------

  /** The installed try-to-free routine: the built-in do_nothing, or a caller's function. */
  datatype Hook = DoNothing | Routine(fn: Ptr)

  /** One invocation of the try-to-free routine, with the size it was given. */
  datatype HookCall = HookCall(hook: Hook, size: nat)

  /**
   * What an allocator call did: the block it returned (None: it panicked
   * with "Out of memory"), the sizes it asked the C library for, in order,
   * and the hook invocations it made.
   */
  datatype Allocation = Allocation(block: Option<nat>, requests: seq<nat>, hookCalls: seq<HookCall>)

  /**
   * One allocation round: ask for `size` bytes and, when that fails for a
   * zero-size request, ask for one byte. `ok[at..]` says whether each
   * successive library call succeeds; `fits` is false when the request
   * cannot be represented (a calloc product beyond 64 bits), which makes
   * the first call fail whatever the script says.
   */
  function AllocRound(size: nat, fits: bool, ok: seq<bool>, at: nat): (r: (Option<nat>, seq<nat>))
    requires at + 2 <= |ok|
    ensures 1 <= |r.1| <= 2 && r.1[0] == size
    ensures |r.1| == 2 <==> !(fits && ok[at]) && size == 0
    ensures |r.1| == 2 ==> r.1[1] == 1
    ensures r.0.Some? <==> (fits && ok[at]) || (size == 0 && ok[at + 1])
    ensures r.0.Some? ==> r.0.value == size || (size == 0 && r.0.value == 1)
  {
    if fits && ok[at] then (Some(size), [size])
    else if size == 0 then (if ok[at + 1] then Some(1) else None, [size, 1])
    else (None, [size])
  }

  /** The global hook `try_to_free_routine` and the allocators that call it. */
  class Allocator {
    var tryToFree: Hook

    constructor ()
      ensures tryToFree == DoNothing
    {
      tryToFree := DoNothing;
    }

    /** Install `routine` (do_nothing for NULL) and give back the previous hook. */
    method SetTryToFreeRoutine(routine: Ptr) returns (previous: Hook)
      modifies this
      ensures previous == old(tryToFree)
      ensures tryToFree == if routine == NULL then DoNothing else Routine(routine)
      ensures tryToFree != Routine(NULL)
    {
      previous := tryToFree;
      var installed := if routine == NULL then DoNothing else Routine(routine);
      tryToFree := installed;
    }

    /**
     * xmalloc: one round; on failure call the hook once with the requested
     * size and try one more round; if that fails too, panic. `ok` scripts
     * the success of each malloc call (at most four are made).
     */
    method XMalloc(size: nat, ok: seq<bool>) returns (a: Allocation)
      requires size < U64_LIMIT
      requires |ok| >= 4
      ensures var first := AllocRound(size, true, ok, 0);
        if first.0.Some? then
          a == Allocation(first.0, first.1, [])
        else
          var second := AllocRound(size, true, ok, |first.1|);
          a == Allocation(second.0, first.1 + second.1, [HookCall(tryToFree, size)])
      ensures |a.hookCalls| <= 1
      ensures a.block.Some? ==> a.block.value == size || (size == 0 && a.block.value == 1)
      ensures forall q | q in a.requests :: q == size || (size == 0 && q == 1)
    {
      var first := AllocRound(size, true, ok, 0);
      if first.0.Some? {
        return Allocation(first.0, first.1, []);
      }
      var call := HookCall(tryToFree, size);
      var second := AllocRound(size, true, ok, |first.1|);
      a := Allocation(second.0, first.1 + second.1, [call]);
    }

    /**
     * xcalloc: as xmalloc, for `nmemb` elements of `size` bytes. calloc
     * fails when the product does not fit in 64 bits; the hook receives the
     * product as a 64-bit size_t, that is, wrapped. The one-byte fallback
     * applies when either factor is zero.
     */
    method XCalloc(nmemb: nat, size: nat, ok: seq<bool>) returns (a: Allocation)
      requires nmemb < U64_LIMIT && size < U64_LIMIT
      requires |ok| >= 4
      ensures var fits := nmemb * size < U64_LIMIT;
        var first := AllocRound(nmemb * size, fits, ok, 0);
        if first.0.Some? then
          a == Allocation(first.0, first.1, [])
        else
          var second := AllocRound(nmemb * size, fits, ok, |first.1|);
          a == Allocation(second.0, first.1 + second.1, [HookCall(tryToFree, (nmemb * size) % U64_LIMIT)])
      ensures |a.hookCalls| <= 1
      ensures a.block.Some? ==> a.block.value == nmemb * size || ((nmemb == 0 || size == 0) && a.block.value == 1)
    {
      var fits := nmemb * size < U64_LIMIT;
      var first := AllocRound(nmemb * size, fits, ok, 0);
      if first.0.Some? {
        return Allocation(first.0, first.1, []);
      }
      var call := HookCall(tryToFree, (nmemb * size) % U64_LIMIT);
      var second := AllocRound(nmemb * size, fits, ok, |first.1|);
      a := Allocation(second.0, first.1 + second.1, [call]);
    }
  }

  // ---------------------------------------------------------------------
  // Read and write wrappers
  // ---------------------------------------------------------------------

  /** What a read or write of `len` bytes returns: the kernel never moves more than asked. */
  function Clamp(r: SysResult, len: nat): (c: SysResult)
    ensures c.Ok? <==> r.Ok?
    ensures c.Ok? ==> c.n <= len && c.n <= r.n && (c.n == r.n || c.n == len)
    ensures c.Err? ==> c == r
  {
    match r
    case Ok(n) => Ok(Min(n, len))
    case Err(e) => Err(e)
  }

  /**
   * _read / _write: repeat the call while it fails with EAGAIN or EINTR
   * and hand back the first other result unchanged.
   */
  method RetryTransient(len: nat, script: seq<SysResult>) returns (c: Call<SysResult>)
    ensures !c.Panicked?
    ensures c.Pending? <==> forall k | 0 <= k < |script| :: Transient(script[k])
    ensures c.Returned? ==>
      && 1 <= c.used <= |script|
      && (forall k | 0 <= k < c.used - 1 :: Transient(script[k]))
      && !Transient(script[c.used - 1])
      && c.value == Clamp(script[c.used - 1], len)
  {
    var i := 0;
    while i < |script|
      invariant 0 <= i <= |script|
      invariant forall k | 0 <= k < i :: Transient(script[k])
    {
      if !Transient(script[i]) {
        return Returned(Clamp(script[i], len), i + 1);
      }
      i := i + 1;
    }
    return Pending;
  }

  function Sum(s: seq<nat>): nat
  {
    if s == [] then 0 else s[0] + Sum(s[1..])
  }

  lemma SumAppend(s: seq<nat>, x: nat)
    ensures Sum(s + [x]) == Sum(s) + x
  {
    if s != [] {
      assert (s + [x])[1..] == s[1..] + [x];
      SumAppend(s[1..], x);
    }
  }

  /**
   * What xread (`write` false) or xwrite (`write` true) makes of the script
   * from entry `pos` on, with `remaining` bytes still to move and `total`
   * moved so far: the outcome and the sizes of the chunks moved, in order.
   * Transient failures are skipped, as _read and _write retry them; the
   * first other failure ends the call with that error; a transfer of no
   * bytes ends it with the partial total (xread) or ENOSPC (xwrite).
   */
  function Transfer(write: bool, remaining: nat, total: nat, script: seq<SysResult>, pos: nat): (r: (Call<SysResult>, seq<nat>))
    requires pos <= |script|
    decreases |script| - pos, 1
  {
    if remaining == 0 then (Returned(Ok(total), pos), [])
    else if pos == |script| then (Pending, [])
    else if Transient(script[pos]) then Transfer(write, remaining, total, script, pos + 1)
    else Settle(write, Clamp(script[pos], remaining), remaining, total, script, pos + 1)
  }

  /** What the transfer does with the non-transient result `v` of the call that ends before entry `next`. */
  function Settle(write: bool, v: SysResult, remaining: nat, total: nat, script: seq<SysResult>, next: nat): (r: (Call<SysResult>, seq<nat>))
    requires next <= |script|
    requires v.Ok? ==> v.n <= remaining
    decreases |script| - next, 2
  {
    match v
    case Err(e) => (Returned(Err(e), next), [])
    case Ok(n) =>
      if n == 0 then (Returned(if write then Err(ENOSPC) else Ok(total), next), [])
      else
        var r := Transfer(write, remaining - n, total + n, script, next);
        (r.0, [n] + r.1)
  }

  /** A run of transient failures changes nothing: the transfer goes on from the entry after it. */
  lemma {:induction false} TransferSkips(write: bool, remaining: nat, total: nat, script: seq<SysResult>, pos: nat, next: nat)
    requires remaining > 0 && pos <= next <= |script|
    requires forall k | pos <= k < next :: Transient(script[k])
    ensures Transfer(write, remaining, total, script, pos) == Transfer(write, remaining, total, script, next)
    decreases next - pos
  {
    if pos < next {
      TransferSkips(write, remaining, total, script, pos + 1, next);
    }
  }

  /**
   * One call of _read or _write inside the xread/xwrite loop, from entry
   * `pos`: it consumes the transient failures and the next other result,
   * which the transfer then acts on; when only transient failures are left
   * the transfer is pending.
   */
  method TransferStep(write: bool, remaining: nat, total: nat, script: seq<SysResult>, pos: nat)
    returns (c: Call<SysResult>)
    requires remaining > 0 && pos <= |script|
    ensures c.Pending? ==> Transfer(write, remaining, total, script, pos) == (Pending, [])
    ensures c.Returned? ==>
      && pos < pos + c.used <= |script|
      && c.value == Clamp(script[pos + c.used - 1], remaining)
      && !Transient(script[pos + c.used - 1])
      && Transfer(write, remaining, total, script, pos) == Settle(write, c.value, remaining, total, script, pos + c.used)
    ensures !c.Panicked?
  {
    c := RetryTransient(remaining, script[pos..]);
    if c.Pending? {
      TransferSkips(write, remaining, total, script, pos, |script|);
    } else {
      assert forall k | pos <= k < pos + c.used - 1 :: script[k] == script[pos..][k - pos];
      TransferSkips(write, remaining, total, script, pos, pos + c.used - 1);
    }
  }

  /**
   * xread: read until `count` bytes are loaded. The result is the number
   * loaded (`chunks` lists the size of each successful read); it stops
   * early with the partial total at end of stream and returns -1 with the
   * read's errno on an error.
   */
  method XRead(count: nat, script: seq<SysResult>) returns (c: Call<SysResult>, ghost chunks: seq<nat>)
    ensures (c, chunks) == Transfer(false, count, 0, script, 0)
    ensures !c.Panicked?
    ensures c.Returned? ==> c.used <= |script|
    ensures c.Returned? && c.value.Ok? ==>
      && c.value.n == Sum(chunks) <= count
      && (forall k | 0 <= k < |chunks| :: chunks[k] > 0)
      && (c.value.n < count ==> c.used >= 1 && script[c.used - 1] == Ok(0))
    ensures c.Returned? && c.value.Err? ==>
      c.used >= 1 && script[c.used - 1] == c.value && !Transient(c.value)
    ensures count == 0 ==> c == Returned(Ok(0), 0)
  {
    var remaining: nat, total: nat, pos: nat := count, 0, 0;
    chunks := [];
    AfterNone(Transfer(false, count, 0, script, 0));
    while remaining > 0
      invariant pos <= |script|
      invariant total == Sum(chunks) && total + remaining == count
      invariant forall k | 0 <= k < |chunks| :: chunks[k] > 0
      invariant count == 0 ==> pos == 0
      invariant Transfer(false, count, 0, script, 0) == After(chunks, Transfer(false, remaining, total, script, pos))
      decreases remaining, |script| - pos
    {
      var loaded := TransferStep(false, remaining, total, script, pos);
      if loaded.Pending? {
        AfterLast<Call<SysResult>, nat>(chunks, Pending);
        return Pending, chunks;
      }
      pos := pos + loaded.used;
      match loaded.value
      case Err(e) =>
        AfterLast(chunks, Returned(Err(e), pos));
        return Returned(Err(e), pos), chunks;
      case Ok(n) =>
        if n == 0 {
          AfterLast(chunks, Returned(Ok(total), pos));
          return Returned(Ok(total), pos), chunks;
        }
        SumAppend(chunks, n);
        AfterAppend(chunks, n, Transfer(false, remaining - n, total + n, script, pos));
        chunks := chunks + [n];
        remaining, total := remaining - n, total + n;
    }
    AfterLast(chunks, Returned(Ok(total), pos));
    return Returned(Ok(total), pos), chunks;
  }

  /**
   * xwrite: write until `count` bytes are written and return `count`. A
   * write that moves nothing makes it return -1 with errno ENOSPC; an error
   * makes it return -1 with the write's errno.
   */
  method XWrite(count: nat, script: seq<SysResult>) returns (c: Call<SysResult>, ghost chunks: seq<nat>)
    ensures (c, chunks) == Transfer(true, count, 0, script, 0)
    ensures !c.Panicked?
    ensures c.Returned? ==> c.used <= |script|
    ensures c.Returned? && c.value.Ok? ==>
      c.value.n == count == Sum(chunks) && forall k | 0 <= k < |chunks| :: chunks[k] > 0
    ensures c.Returned? && c.value.Err? ==>
      && c.used >= 1
      && (script[c.used - 1] == Ok(0) ==> c.value == Err(ENOSPC))
      && (script[c.used - 1] != Ok(0) ==> script[c.used - 1] == c.value && !Transient(c.value))
    ensures count == 0 ==> c == Returned(Ok(0), 0)
  {
    var remaining: nat, total: nat, pos: nat := count, 0, 0;
    chunks := [];
    AfterNone(Transfer(true, count, 0, script, 0));
    while remaining > 0
      invariant pos <= |script|
      invariant total == Sum(chunks) && total + remaining == count
      invariant forall k | 0 <= k < |chunks| :: chunks[k] > 0
      invariant count == 0 ==> pos == 0
      invariant Transfer(true, count, 0, script, 0) == After(chunks, Transfer(true, remaining, total, script, pos))
      decreases remaining, |script| - pos
    {
      var written := TransferStep(true, remaining, total, script, pos);
      if written.Pending? {
        AfterLast<Call<SysResult>, nat>(chunks, Pending);
        return Pending, chunks;
      }
      pos := pos + written.used;
      match written.value
      case Err(e) =>
        AfterLast(chunks, Returned(Err(e), pos));
        return Returned(Err(e), pos), chunks;
      case Ok(n) =>
        if n == 0 {
          AfterLast(chunks, Returned(Err(ENOSPC), pos));
          return Returned(Err(ENOSPC), pos), chunks;
        }
        SumAppend(chunks, n);
        AfterAppend(chunks, n, Transfer(true, remaining - n, total + n, script, pos));
        chunks := chunks + [n];
        remaining, total := remaining - n, total + n;
    }
    AfterLast(chunks, Returned(Ok(total), pos));
    return Returned(Ok(total), pos), chunks;
  }

  /** An outcome with `done` prepended to the chunks that come after it. */
  function After<T, C>(done: seq<C>, r: (T, seq<C>)): (T, seq<C>)
  {
    (r.0, done + r.1)
  }

  lemma AfterNone<T, C>(r: (T, seq<C>))
    ensures After([], r) == r
  {
    assert [] + r.1 == r.1;
  }

  lemma AfterLast<T, C>(done: seq<C>, t: T)
    ensures After(done, (t, [])) == (t, done)
  {
    assert done + [] == done;
  }

  lemma AfterConcat<T, C>(done: seq<C>, more: seq<C>, r: (T, seq<C>))
    ensures After(done, After(more, r)) == After(done + more, r)
  {
    assert done + (more + r.1) == (done + more) + r.1;
  }

  lemma AfterAppend<T, C>(done: seq<C>, x: C, r: (T, seq<C>))
    ensures After(done, (r.0, [x] + r.1)) == After(done + [x], r)
  {
    assert done + ([x] + r.1) == (done + [x]) + r.1;
  }

  // ---------------------------------------------------------------------
  // eventfd wrappers
  // ---------------------------------------------------------------------

  /** The largest value an eventfd counter can hold. */
  const EVENTFD_MAX: int := 0xffff_ffff_ffff_fffe

  /** A C `int` holding a 64-bit value: the value reduced to 32 bits, two's complement. */
  function ToInt32(v: int): (r: int)
    ensures -0x8000_0000 <= r < 0x8000_0000
    ensures (r - v) % 0x1_0000_0000 == 0
    ensures 0 <= v < 0x8000_0000 ==> r == v
  {
    var w := v % 0x1_0000_0000;
    if w < 0x8000_0000 then w else w - 0x1_0000_0000
  }

  /**
   * An eventfd: a 64-bit counter that writes add to and a read takes and
   * resets. Reading zero fails with EAGAIN when non-blocking and blocks
   * otherwise; a write that would pass EVENTFD_MAX does the same.
   */
  class EventFd {
    var counter: nat
    const nonblocking: bool

    ghost predicate Valid()
      reads this
    {
      counter <= EVENTFD_MAX
    }

    constructor (initval: nat, nonblocking: bool)
      requires initval <= EVENTFD_MAX
      ensures Valid() && counter == initval && this.nonblocking == nonblocking
    {
      counter := initval;
      this.nonblocking := nonblocking;
    }
  }

  /** The number of EINTR failures before the first other error (all of them when there is none). */
  function LeadingEintr(faults: seq<Errno>): (n: nat)
    ensures n <= |faults|
    ensures forall k | 0 <= k < n :: faults[k] == EINTR
    ensures n < |faults| ==> faults[n] != EINTR
  {
    if faults == [] || faults[0] != EINTR then 0 else 1 + LeadingEintr(faults[1..])
  }

  /** The number of transient failures before the first other error. */
  function LeadingTransient(faults: seq<Errno>): (n: nat)
    ensures n <= |faults|
    ensures forall k | 0 <= k < n :: Transient(Err(faults[k]))
    ensures n < |faults| ==> !Transient(Err(faults[n]))
  {
    if faults == [] || !Transient(Err(faults[0])) then 0 else 1 + LeadingTransient(faults[1..])
  }

  /**
   * eventfd_xread: `faults` are the errors the kernel reports before the
   * read goes through. EINTR is retried; EAGAIN returns -1; anything else
   * panics. The read itself returns the counter (as a C int) and resets it,
   * or fails with EAGAIN on an empty non-blocking eventfd.
   */
  method EventfdXRead(efd: EventFd, faults: seq<Errno>) returns (c: Call<int>)
    requires efd.Valid()
    modifies efd
    ensures efd.Valid()
    ensures c.Returned? && c.value != -1 ==> efd.counter == 0
    ensures var n := LeadingEintr(faults);
      if n < |faults| then
        efd.counter == old(efd.counter) && c == (if faults[n] == EAGAIN then Returned(-1, n + 1) else Panicked(n + 1))
      else if old(efd.counter) > 0 then
        c == Returned(ToInt32(old(efd.counter)), n) && efd.counter == 0
      else if efd.nonblocking then
        c == Returned(-1, n) && efd.counter == 0
      else
        c == Pending && efd.counter == 0
  {
    var i := 0;
    while i < |faults|
      invariant 0 <= i <= LeadingEintr(faults)
    {
      if faults[i] != EINTR {
        if faults[i] == EAGAIN {
          return Returned(-1, i + 1);
        }
        return Panicked(i + 1);
      }
      i := i + 1;
    }
    if efd.counter > 0 {
      var value := efd.counter;
      efd.counter := 0;
      return Returned(ToInt32(value), i);
    }
    if efd.nonblocking {
      return Returned(-1, i);
    }
    return Pending;
  }

  /**
   * eventfd_xwrite: add `value`, converted to a 64-bit unsigned, to the
   * counter. EINTR and EAGAIN are retried, any other failure panics. The
   * all-ones value is refused with EINVAL; an addition that would pass
   * EVENTFD_MAX would block (or be retried forever), so it never returns.
   */
  method EventfdXWrite(efd: EventFd, value: int, faults: seq<Errno>) returns (c: Call<()>)
    requires efd.Valid()
    modifies efd
    ensures efd.Valid()
    ensures var n := LeadingTransient(faults);
      var v := value % U64_LIMIT;
      if n < |faults| then
        c == Panicked(n + 1) && efd.counter == old(efd.counter)
      else if v == U64_LIMIT - 1 then
        c == Panicked(n) && efd.counter == old(efd.counter)
      else if old(efd.counter) + v > EVENTFD_MAX then
        c == Pending && efd.counter == old(efd.counter)
      else
        c == Returned((), n) && efd.counter == old(efd.counter) + v
  {
    var i := 0;
    while i < |faults|
      invariant 0 <= i <= LeadingTransient(faults)
    {
      if !Transient(Err(faults[i])) {
        return Panicked(i + 1);
      }
      i := i + 1;
    }
    var v := value % U64_LIMIT;
    if v == U64_LIMIT - 1 {
      return Panicked(i);
    }
    if efd.counter + v > EVENTFD_MAX {
      return Pending;
    }
    efd.counter := efd.counter + v;
    return Returned((), i);
  }
}
