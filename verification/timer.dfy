/**
 * The timers of src/timer.c: a POSIX timer that raises a real-time
 * signal, read back through a signalfd that the reactor watches. The
 * kernel objects are opaque: the POSIX timer is its current `itimerspec`,
 * the signalfd is the fd number the oracle hands out, and each system
 * call that can fail has an oracle flag.
 */
module Timer {
  import opened Sys
  import opened Event

  // ---------------------------------------------------------------------
  // itimerspec arithmetic
  // ---------------------------------------------------------------------

  const MSEC_PER_SEC: nat := 1000
  const NSEC_PER_MSEC: nat := 1000000
  const NSEC_PER_SEC: nat := 1000000000

  /** `struct timespec`. */
  datatype TimeSpec = TimeSpec(sec: int, nsec: int)

  /** `struct itimerspec`: the first expiry and the period (zero: fire once). */
  datatype ITimerSpec = ITimerSpec(value: TimeSpec, interval: TimeSpec)

  const ZERO: TimeSpec := TimeSpec(0, 0)
  const DISARMED: ITimerSpec := ITimerSpec(ZERO, ZERO)

  /** `enum timer_type`. */
  datatype TimerType = Periodic | Absolute | OneShot

  const TIMER_PERIODIC: int := 0
  const TIMER_ABSOLUTE: int := 1
  const TIMER_ONESHOT: int := 2

  /** The enumerator a C `enum timer_type` value stands for, if any. */
  function KindOf(code: int): (k: Option<TimerType>)
    ensures k == Some(Periodic) <==> code == TIMER_PERIODIC
    ensures k == Some(Absolute) <==> code == TIMER_ABSOLUTE
    ensures k == Some(OneShot) <==> code == TIMER_ONESHOT
    ensures k.None? <==> code !in {TIMER_PERIODIC, TIMER_ABSOLUTE, TIMER_ONESHOT}
  {
    if code == TIMER_PERIODIC then Some(Periodic)
    else if code == TIMER_ABSOLUTE then Some(Absolute)
    else if code == TIMER_ONESHOT then Some(OneShot)
    else None
  }

  /** `tv_sec = msec / 1000`, `tv_nsec = (msec % 1000) * 1000000`. */
  function MsecToTimeSpec(msec: nat): (ts: TimeSpec)
    ensures 0 <= ts.sec && 0 <= ts.nsec < NSEC_PER_SEC && ts.nsec % NSEC_PER_MSEC == 0
    ensures ts.sec * MSEC_PER_SEC + ts.nsec / NSEC_PER_MSEC == msec
  {
    TimeSpec(msec / MSEC_PER_SEC, (msec % MSEC_PER_SEC) * NSEC_PER_MSEC)
  }

  /** The milliseconds a timespec stands for (whole milliseconds only). */
  function TimeSpecToMsec(ts: TimeSpec): int
  {
    ts.sec * MSEC_PER_SEC + ts.nsec / NSEC_PER_MSEC
  }

  /** A millisecond count survives the split into seconds and nanoseconds. */
  lemma MsecRoundTrip(msec: nat)
    ensures TimeSpecToMsec(MsecToTimeSpec(msec)) == msec
  {
  }

  /** Every normalised whole-millisecond timespec is the split of its millisecond count. */
  lemma TimeSpecRoundTrip(ts: TimeSpec)
    requires 0 <= ts.sec && 0 <= ts.nsec < NSEC_PER_SEC && ts.nsec % NSEC_PER_MSEC == 0
    ensures TimeSpecToMsec(ts) >= 0 && MsecToTimeSpec(TimeSpecToMsec(ts)) == ts
  {
    var m := TimeSpecToMsec(ts);
    var q := ts.nsec / NSEC_PER_MSEC;
    assert ts.nsec == q * NSEC_PER_MSEC;
    assert 0 <= q < MSEC_PER_SEC;
    assert m == ts.sec * MSEC_PER_SEC + q;
    DivModUnique(m, ts.sec, q);
  }

  lemma DivModUnique(m: int, s: int, q: int)
    requires 0 <= s && 0 <= q < 1000 && m == s * 1000 + q
    ensures m / 1000 == s && m % 1000 == q
  {
  }

  /**
   * The itimerspec add_timer arms the timer with (it is zeroed first):
   * the expiry is `msec`; a periodic timer repeats with the same period,
   * the other kinds get a zero interval. None for an unknown type.
   */
  function ArmSpec(code: int, msec: nat): (it: Option<ITimerSpec>)
    ensures it.Some? <==> KindOf(code).Some?
    ensures it.Some? ==> it.value.value == MsecToTimeSpec(msec)
    ensures it.Some? ==> it.value.interval == if KindOf(code) == Some(Periodic) then it.value.value else ZERO
  {
    match KindOf(code)
    case Some(Periodic) => Some(ITimerSpec(MsecToTimeSpec(msec), MsecToTimeSpec(msec)))
    case Some(_) => Some(ITimerSpec(MsecToTimeSpec(msec), ZERO))
    case None => None
  }

  /**
   * The itimerspec modify_timer computes as written: `it` is not zeroed,
   * so for the non-periodic kinds the interval is whatever `stale` the
   * stack held.
   */
  function ModifySpecAsWritten(code: int, msec: nat, stale: ITimerSpec): (it: Option<ITimerSpec>)
    ensures it.Some? <==> KindOf(code).Some?
    ensures it.Some? ==> it.value.value == MsecToTimeSpec(msec)
  {
    match KindOf(code)
    case Some(Periodic) => Some(ITimerSpec(MsecToTimeSpec(msec), MsecToTimeSpec(msec)))
    case Some(_) => Some(ITimerSpec(MsecToTimeSpec(msec), stale.interval))
    case None => None
  }

  /** A one-shot timer re-armed by modify_timer as written can keep firing every second. */
  lemma ModifyOneShotMayRepeat()
    ensures var stale := ITimerSpec(ZERO, TimeSpec(1, 0));
      && ModifySpecAsWritten(TIMER_ONESHOT, 500, stale) == Some(ITimerSpec(TimeSpec(0, 500000000), TimeSpec(1, 0)))
      && ArmSpec(TIMER_ONESHOT, 500) == Some(ITimerSpec(TimeSpec(0, 500000000), ZERO))
  {
  }

  /** The corrected computation agrees with the written one whenever the stack held zeros, and for periodic timers. */
  lemma ModifySpecAgrees(code: int, msec: nat, stale: ITimerSpec)
    requires stale.interval == ZERO || KindOf(code) == Some(Periodic)
    ensures ModifySpecAsWritten(code, msec, stale) == ArmSpec(code, msec)
  {
  }

  // ---------------------------------------------------------------------
  // ev_mask
  // ---------------------------------------------------------------------

  /** set_timer_event: `ev_mask |= event`. */
  function SetBits(mask: bv32, event: bv32): (m: bv32)
    ensures m & event == event
    ensures m & !event == mask & !event
  {
    mask | event
  }

  /** clear_timer_event: `ev_mask &= ~event`. */
  function ClearBits(mask: bv32, event: bv32): (m: bv32)
    ensures m & event == 0
    ensures m & !event == mask & !event
  {
    mask & !event
  }

  /** Setting is exact (it changes the given bits only) and idempotent. */
  lemma SetBitsExact(mask: bv32, event: bv32, m: bv32)
    requires m & event == event && m & !event == mask & !event
    ensures m == SetBits(mask, event)
    ensures SetBits(SetBits(mask, event), event) == SetBits(mask, event)
  {
  }

  /** Clearing is exact and idempotent, and it undoes a set of bits that were clear. */
  lemma ClearBitsExact(mask: bv32, event: bv32, m: bv32)
    requires m & event == 0 && m & !event == mask & !event
    ensures m == ClearBits(mask, event)
    ensures ClearBits(ClearBits(mask, event), event) == ClearBits(mask, event)
    ensures mask & event == 0 ==> ClearBits(SetBits(mask, event), event) == mask
  {
  }

  // ---------------------------------------------------------------------
  // struct timer
  // ---------------------------------------------------------------------

  /** The address of timer_handler, the handler every timer registers. */
  const TIMER_HANDLER: Ptr := 1

  /** One call of a timer's callback: the function and the argument it got. */
  datatype CallbackCall = CallbackCall(fn: Ptr, arg: Ptr)

  /** `struct timer`, with the POSIX timer it owns reduced to the itimerspec it is armed with. */
  class Timer {
    /** The struct's own address: the `data` register_event stores. */
    const id: Ptr
    const tid: nat
    var sfd: Fd
    const name: string
    const signo: int
    var evMask: bv32
    var ttype: int
    var callback: Ptr
    var data: Ptr
    var setting: ITimerSpec
    var fired: seq<CallbackCall>

    /** create_timer when timer_create succeeds: a zeroed struct with its name and signal. */
    constructor (id: Ptr, name: string, signo: int, tid: nat)
      ensures this.id == id && this.name == name && this.signo == signo && this.tid == tid
      ensures sfd == 0 && evMask == 0 && ttype == TIMER_PERIODIC && callback == NULL && data == NULL
      ensures setting == DISARMED && fired == []
    {
      this.id := id;
      this.name := name;
      this.signo := signo;
      this.tid := tid;
      sfd := 0;
      evMask := 0;
      ttype := 0;
      callback := NULL;
      data := NULL;
      setting := DISARMED;
      fired := [];
    }

    /** set_timer_event. */
    method SetTimerEvent(event: bv32)
      modifies this
      ensures evMask == SetBits(old(evMask), event)
      ensures sfd == old(sfd) && ttype == old(ttype) && setting == old(setting) && fired == old(fired)
    {
      evMask := evMask | event;
    }

    /** clear_timer_event. */
    method ClearTimerEvent(event: bv32)
      modifies this
      ensures evMask == ClearBits(old(evMask), event)
      ensures sfd == old(sfd) && ttype == old(ttype) && setting == old(setting) && fired == old(fired)
    {
      evMask := evMask & !event;
    }

    /** cancle_timer: disarm the timer; -1 when timer_settime fails. */
    method CancelTimer(settimeOk: bool) returns (ret: int)
      modifies this
      ensures settimeOk ==> ret == 0 && setting == DISARMED
      ensures !settimeOk ==> ret == -1 && setting == old(setting)
      ensures sfd == old(sfd) && ttype == old(ttype) && evMask == old(evMask) && fired == old(fired)
    {
      if !settimeOk {
        return -1;
      }
      setting := DISARMED;
      ret := 0;
    }

    /**
     * modify_timer, with the interval computed as add_timer computes it.
     * The type is stored before it is checked.
     */
    method ModifyTimer(code: int, msec: nat, settimeOk: bool) returns (ret: int)
      requires msec < UINT_LIMIT
      modifies this
      ensures ttype == code
      ensures ArmSpec(code, msec).Some? && settimeOk ==> ret == 0 && setting == ArmSpec(code, msec).value
      ensures !(ArmSpec(code, msec).Some? && settimeOk) ==> ret == -1 && setting == old(setting)
      ensures sfd == old(sfd) && evMask == old(evMask) && fired == old(fired)
      ensures callback == old(callback) && data == old(data)
    {
      ttype := code;
      var it := ArmSpec(code, msec);
      if it.None? {
        return -1;
      }
      if !settimeOk {
        return -1;
      }
      setting := it.value;
      ret := 0;
    }
  }

  /**
   * add_timer as written: store type, callback and data; block the signal
   * and open a signalfd for it; arm the timer; register the signalfd with
   * timer_handler and the timer as data. The signalfd is never stored in
   * `t.sfd`. `sfdResult` is what signalfd returns.
   */
  method AddTimerAsWritten(t: Timer, reactor: Reactor, code: int, msec: nat, callback: Ptr, data: Ptr,
                           maskOk: bool, sfdResult: int, settimeOk: bool, refused: bool) returns (ret: int)
    requires reactor.Valid() && msec < UINT_LIMIT
    modifies t, reactor
    ensures reactor.Valid()
    ensures t.ttype == code && t.callback == callback && t.data == data
    ensures t.sfd == old(t.sfd) && t.evMask == old(t.evMask) && t.fired == old(t.fired)
    ensures reactor.calls == old(reactor.calls) && reactor.refresh == old(reactor.refresh)
    ensures var armed := maskOk && sfdResult >= 0 && ArmSpec(code, msec).Some? && settimeOk;
      && (armed ==> t.setting == ArmSpec(code, msec).value)
      && (!armed ==> t.setting == old(t.setting) && reactor.registry == old(reactor.registry) && reactor.epoll == old(reactor.epoll))
      && (ret == 0 <==> armed && sfdResult !in old(reactor.registry) && !refused)
      && (ret != 0 ==> ret == -1 && reactor.registry == old(reactor.registry) && reactor.epoll == old(reactor.epoll))
      && (ret == 0 ==>
            && sfdResult in reactor.registry
            && reactor.registry[sfdResult].handler == TIMER_HANDLER
            && reactor.registry[sfdResult].data == t.id
            && reactor.registry == old(reactor.registry)[sfdResult := reactor.registry[sfdResult]])
  {
    t.ttype := code;
    t.callback := callback;
    t.data := data;
    if !maskOk {
      return -1;
    }
    if sfdResult < 0 {
      return -1;
    }
    var it := ArmSpec(code, msec);
    if it.None? {
      return -1;
    }
    if !settimeOk {
      return -1;
    }
    t.setting := it.value;
    var r := reactor.Register(sfdResult, TIMER_HANDLER, t.id, refused);
    if r < 0 {
      return -1;
    }
    ret := 0;
  }

  /** add_timer with the signalfd kept in `t.sfd` once it is open, so that del_timer can find it. */
  method AddTimer(t: Timer, reactor: Reactor, code: int, msec: nat, callback: Ptr, data: Ptr,
                  maskOk: bool, sfdResult: int, settimeOk: bool, refused: bool) returns (ret: int)
    requires reactor.Valid() && msec < UINT_LIMIT
    modifies t, reactor
    ensures reactor.Valid()
    ensures t.ttype == code && t.callback == callback && t.data == data
    ensures t.sfd == if maskOk && sfdResult >= 0 then sfdResult else old(t.sfd)
    ensures t.evMask == old(t.evMask) && t.fired == old(t.fired)
    ensures reactor.calls == old(reactor.calls) && reactor.refresh == old(reactor.refresh)
    ensures var armed := maskOk && sfdResult >= 0 && ArmSpec(code, msec).Some? && settimeOk;
      && (armed ==> t.setting == ArmSpec(code, msec).value)
      && (!armed ==> t.setting == old(t.setting))
      && (ret == 0 <==> armed && sfdResult !in old(reactor.registry) && !refused)
      && (ret != 0 ==> reactor.registry == old(reactor.registry) && reactor.epoll == old(reactor.epoll))
    ensures ret == 0 ==>
      && ArmSpec(code, msec).Some?
      && t.setting == ArmSpec(code, msec).value
      && t.sfd in reactor.registry
      && reactor.registry[t.sfd].handler == TIMER_HANDLER
      && reactor.registry[t.sfd].data == t.id
      && reactor.registry == old(reactor.registry)[t.sfd := reactor.registry[t.sfd]]
    ensures ret != 0 ==> ret == -1
  {
    ret := AddTimerAsWritten(t, reactor, code, msec, callback, data, maskOk, sfdResult, settimeOk, refused);
    if maskOk && sfdResult >= 0 {
      t.sfd := sfdResult;
    }
  }

  /**
   * timer_handler for signalfd `fd` of timer `t`: when reading the signal
   * record fails nothing happens; otherwise the callback runs once with
   * the timer's data, and a one-shot timer's fd is unregistered and
   * closed (the closed fd is returned).
   */
  method TimerHandler(t: Timer, reactor: Reactor, fd: Fd, readOk: bool) returns (closed: Option<Fd>)
    requires reactor.Valid()
    modifies t, reactor
    ensures reactor.Valid()
    ensures !readOk ==> closed == None && t.fired == old(t.fired)
    ensures readOk ==> t.fired == old(t.fired) + [CallbackCall(t.callback, t.data)]
    ensures closed.Some? <==> readOk && KindOf(t.ttype) == Some(OneShot)
    ensures closed.Some? ==> closed.value == fd && fd !in reactor.registry && reactor.registry == old(reactor.registry) - {fd}
    ensures closed.None? ==> reactor.registry == old(reactor.registry) && reactor.epoll == old(reactor.epoll)
    ensures t.sfd == old(t.sfd) && t.ttype == old(t.ttype) && t.setting == old(t.setting)
    ensures t.callback == old(t.callback) && t.data == old(t.data) && t.evMask == old(t.evMask)
  {
    if !readOk {
      return None;
    }
    t.fired := t.fired + [CallbackCall(t.callback, t.data)];
    if KindOf(t.ttype) == Some(OneShot) {
      reactor.Unregister(fd);
      return Some(fd);
    }
    return None;
  }

  /**
   * del_timer: delete the POSIX timer, unregister and close `t.sfd`; the
   * struct is then freed. The closed fd is returned.
   */
  method DelTimer(t: Timer, reactor: Reactor) returns (closed: Fd)
    requires reactor.Valid()
    modifies t, reactor
    ensures reactor.Valid()
    ensures closed == t.sfd && t.sfd == old(t.sfd)
    ensures t.sfd !in reactor.registry && reactor.registry == old(reactor.registry) - {t.sfd}
    ensures t.setting == DISARMED
  {
    t.setting := DISARMED;
    reactor.Unregister(t.sfd);
    closed := t.sfd;
  }

  /**
   * As written, deleting a freshly added timer closes fd 0 and leaves the
   * signalfd registered with the freed timer as its data.
   */
  method DelAfterAddAsWritten() returns (added: int, closed: Fd, dangling: bool)
    ensures added == 0 && closed == 0 && dangling
  {
    var reactor := new Reactor(4);
    var t := new Timer(100, "t", 34, 7);
    added := AddTimerAsWritten(t, reactor, TIMER_ONESHOT, 250, 5, 6, true, 3, true, false);
    closed := DelTimer(t, reactor);
    dangling := 3 in reactor.registry && reactor.registry[3].data == t.id;
  }

  /**
   * With the signalfd stored, a freshly added timer is registered under its
   * signalfd, and deleting it removes that registration.
   */
  method DelAfterAdd() returns (added: int, registered: bool, closed: Fd, dangling: bool)
    ensures added == 0 && registered && closed == 3 && !dangling
  {
    var reactor := new Reactor(4);
    var t := new Timer(100, "t", 34, 7);
    added := AddTimer(t, reactor, TIMER_ONESHOT, 250, 5, 6, true, 3, true, false);
    registered := 3 in reactor.registry && reactor.registry[3].data == t.id;
    closed := DelTimer(t, reactor);
    dangling := 3 in reactor.registry;
  }
}
