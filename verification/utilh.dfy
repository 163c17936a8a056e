/**
 * The comparison and selection macros of src/util.h.
 */
module UtilMacros {

  /**
   * intcmp(x, y): 1 when x is larger, 0 when they are equal, -1 otherwise.
   */
  function IntCmp(x: int, y: int): (r: int)
    ensures r == 1 <==> x > y
    ensures r == 0 <==> x == y
    ensures r == -1 <==> x < y
  {
    if x < y then -1 else if x > y then 1 else 0
  }

  /** Swapping the arguments of intcmp negates its result. */
  lemma IntCmpAntisymmetric(x: int, y: int)
    ensures IntCmp(x, y) == -IntCmp(y, x)
  {
  }

  /** intcmp orders integers transitively, so it is a valid comparator for a search tree. */
  lemma IntCmpTransitive(x: int, y: int, z: int)
    ensures IntCmp(x, y) <= 0 && IntCmp(y, z) <= 0 ==> IntCmp(x, z) <= 0
    ensures IntCmp(x, y) < 0 && IntCmp(y, z) < 0 ==> IntCmp(x, z) < 0
  {
  }

  /** The MIN macro: `(x) > (y) ? (y) : (x)`. */
  function MinMacro(x: int, y: int): (r: int)
    ensures r <= x && r <= y
    ensures r == x || r == y
  {
    if x > y then y else x
  }

  /** The MAX macro: `(x) > (y) ? (x) : (y)`. */
  function MaxMacro(x: int, y: int): (r: int)
    ensures r >= x && r >= y
    ensures r == x || r == y
  {
    if x > y then x else y
  }

  /** The type-checked `min`: `_x < _y ? _x : _y`. */
  function Min(x: int, y: int): (r: int)
    ensures r <= x && r <= y
    ensures r == x || r == y
  {
    if x < y then x else y
  }

  /** The type-checked `max`: `_x > _y ? _x : _y`; MacrosAgree relates it to MaxMacro. */
  function Max(x: int, y: int): (r: int)
    ensures r >= x && r >= y
    ensures r == x || r == y
  {
    if x > y then x else y
  }

  /** For arguments of one type, the macros and the type-checked forms agree. */
  lemma MacrosAgree(x: int, y: int)
    ensures MinMacro(x, y) == Min(x, y) && MaxMacro(x, y) == Max(x, y)
    ensures Min(x, y) + Max(x, y) == x + y
  {
  }
}

/**
 * bs_init_mutex of src/util.h: pthread_mutex_init is retried while it
 * reports EAGAIN, and any other failure panics. A script gives the
 * successive return values of pthread_mutex_init (0 or an error number).
 */
module Locks {
  import opened Sys

  /** The value of EAGAIN on Linux, as pthread functions return it. */
  const EAGAIN_VALUE: int := 11

  /**
   * bs_init_mutex as written: the loop test `ret = EAGAIN` assigns
   * EAGAIN to `ret` and tests that, so the loop goes round again whatever
   * pthread_mutex_init returned, and never ends: every scripted result is
   * consumed and the call is still pending.
   */
  method InitMutexAsWritten(results: seq<int>) returns (c: Call<()>, calls: nat)
    ensures c == Pending && calls == |results|
  {
    calls := 0;
    var ret := EAGAIN_VALUE;
    while ret != 0
      invariant calls <= |results| && ret == EAGAIN_VALUE
      decreases |results| - calls
    {
      if calls == |results| {
        return Pending, calls;
      }
      ret := results[calls];
      calls := calls + 1;
      ret := EAGAIN_VALUE;
    }
    assert false;
  }

  /**
   * bs_init_mutex as intended (`ret == EAGAIN`): EAGAIN is retried; 0
   * returns after the calls made and any other error panics. The call is
   * pending exactly when every scripted result is EAGAIN.
   */
  method InitMutex(results: seq<int>) returns (c: Call<()>)
    ensures c.Returned? ==> 0 < c.used <= |results| && results[c.used - 1] == 0
    ensures c.Panicked? ==> 0 < c.used <= |results| && results[c.used - 1] != 0 && results[c.used - 1] != EAGAIN_VALUE
    ensures !c.Pending? ==> forall k | 0 <= k < c.used - 1 :: results[k] == EAGAIN_VALUE
    ensures c.Pending? <==> forall k | 0 <= k < |results| :: results[k] == EAGAIN_VALUE
  {
    var used := 0;
    var ret := EAGAIN_VALUE;
    while ret == EAGAIN_VALUE
      invariant used <= |results|
      invariant forall k | 0 <= k < used - 1 :: results[k] == EAGAIN_VALUE
      invariant used == 0 ==> ret == EAGAIN_VALUE
      invariant used > 0 ==> ret == results[used - 1]
      decreases |results| - used
    {
      if used == |results| {
        return Pending;
      }
      ret := results[used];
      used := used + 1;
    }
    if ret != 0 {
      return Panicked(used);
    }
    return Returned((), used);
  }
}
