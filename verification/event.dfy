/**
 * The reactor of src/event.c: a registry from file descriptor to
 * (handler, data), kept in step with the epoll interest list, and the
 * event loop that dispatches one readiness snapshot at a time and starts
 * over with a fresh wait as soon as a handler sets the refresh flag.
 *
 * The kernel side is abstract: the epoll interest list is a map from fd
 * to (mask, the event_info pointer handed to epoll_ctl), epoll_ctl
 * failures are oracle flags, and epoll_wait is an oracle result filtered
 * the way the kernel filters it. Handler code is a script of the reactor
 * calls it makes.
 */
module Event {
  import opened Sys
  import opened UtilMacros

  const EPOLLIN: bv32 := 0x001
  const EPOLLERR: bv32 := 0x008
  const EPOLLHUP: bv32 := 0x010

  /** One `struct event_info`, allocated by register_event and freed by unregister_event. */
  class EventInfo {
    const fd: Fd
    const handler: Ptr
    const data: Ptr

    constructor (fd: Fd, handler: Ptr, data: Ptr)
      ensures this.fd == fd && this.handler == handler && this.data == data
    {
      this.fd := fd;
      this.handler := handler;
      this.data := data;
    }
  }

  /** event_cmp: the registry order, by fd. */
  function EventCmp(e1: EventInfo, e2: EventInfo): (r: int)
    ensures r == 0 <==> e1.fd == e2.fd
    ensures r > 0 <==> e1.fd > e2.fd
    ensures r == -IntCmp(e2.fd, e1.fd)
  {
    IntCmp(e1.fd, e2.fd)
  }

  /** An entry of the epoll interest list: the mask and the pointer stored in `data.ptr`. */
  datatype Watch = Watch(mask: bv32, info: EventInfo)

  /** One slot of the reused `events` buffer; `Empty` is the zeroed slot calloc gives. */
  datatype Slot = Empty | Ready(events: bv32, info: EventInfo)

  /** What epoll_wait does: fail with an errno, or report the given (fd, events) candidates. */
  datatype WaitResult = WaitFailed(errno: Errno) | WaitReady(proposed: seq<(Fd, bv32)>)

  /** A reactor call made by handler code. */
  datatype Action =
    | DoRegister(fd: Fd, handler: Ptr, data: Ptr, refused: bool)
    | DoUnregister(fd: Fd)
    | DoModify(fd: Fd, mask: bv32, refused: bool)
    | DoRefresh

  /** One handler invocation: `info.handler(info.fd, events, info.data)`. */
  datatype Dispatch = Dispatch(info: EventInfo, events: bv32)

  /** How event_loop ends: EINTR return, exit(1), normal return, or the wait script ran out. */
  datatype Outcome = Interrupted | Exited(status: int) | Finished | OutOfWaits

  /** Each entry of the interest list holds the event_info of its own fd. */
  ghost predicate Keyed(epoll: map<Fd, Watch>)
  {
    forall fd | fd in epoll :: epoll[fd].info.fd == fd
  }

  /** `info` is the event_info the interest list holds for its fd. */
  ghost predicate Watched(epoll: map<Fd, Watch>, info: EventInfo)
  {
    info.fd in epoll && epoll[info.fd].info == info
  }

  /** The events the kernel reports for `fd` under `mask`: the requested ones plus error and hang-up. */
  function Reportable(mask: bv32, ev: bv32): bv32
  {
    ev & (mask | EPOLLERR | EPOLLHUP)
  }

  /**
   * The kernel's side of epoll_wait: of the candidate (fd, events) pairs,
   * those whose fd is on the interest list and whose reportable events are
   * not empty, with that list's event_info pointer.
   */
  function Harvest(epoll: map<Fd, Watch>, proposed: seq<(Fd, bv32)>): (r: seq<Slot>)
    ensures |r| <= |proposed|
    ensures forall k | 0 <= k < |r| :: r[k].Ready? && r[k].events != 0
    ensures Keyed(epoll) ==> forall k | 0 <= k < |r| :: Watched(epoll, r[k].info)
  {
    if proposed == [] then []
    else
      var fd, ev := proposed[0].0, proposed[0].1;
      var rest := Harvest(epoll, proposed[1..]);
      if fd in epoll && Reportable(epoll[fd].mask, ev) != 0 then
        [Ready(Reportable(epoll[fd].mask, ev), epoll[fd].info)] + rest
      else rest
  }

  /** At most `max` of the harvested events fit the buffer. */
  function Reported(epoll: map<Fd, Watch>, proposed: seq<(Fd, bv32)>, max: nat): (r: seq<Slot>)
    ensures |r| <= max
    ensures forall k | 0 <= k < |r| :: r[k].Ready? && r[k].events != 0
    ensures Keyed(epoll) ==> forall k | 0 <= k < |r| :: Watched(epoll, r[k].info)
  {
    var h := Harvest(epoll, proposed);
    if |h| <= max then h else h[..max]
  }

  /** The handler script of the `k`-th dispatch (none when the script is shorter). */
  function HandlerAt(handlers: seq<seq<Action>>, k: nat): seq<Action>
  {
    if k < |handlers| then handlers[k] else []
  }

  /** The handler invocations of a pass that dispatched the first `n` of the reported events `slots`, in order. */
  function Dispatches(slots: seq<Slot>, n: nat): seq<Dispatch>
    requires n <= |slots| && forall j | 0 <= j < n :: slots[j].Ready?
  {
    seq(n, j requires 0 <= j < n => Dispatch(slots[j].info, slots[j].events))
  }

  /** Per pass of the loop: the reported events, all ready, and how many of them were dispatched. */
  predicate Passes(snaps: seq<seq<Slot>>, counts: seq<nat>)
  {
    && |snaps| == |counts|
    && forall k | 0 <= k < |counts| :: counts[k] <= |snaps[k]| && forall j | 0 <= j < |snaps[k]| :: snaps[k][j].Ready?
  }

  /** The handler invocations of successive passes, one pass after the other. */
  function AllDispatches(snaps: seq<seq<Slot>>, counts: seq<nat>): seq<Dispatch>
    requires Passes(snaps, counts)
  {
    if counts == [] then []
    else AllDispatches(snaps[..|snaps| - 1], counts[..|counts| - 1]) + Dispatches(snaps[|snaps| - 1], counts[|counts| - 1])
  }

  /** What the interest list holds for one fd, as the handlers see it: the mask and the registered handler and data. */
  datatype Entry = Entry(mask: bv32, handler: Ptr, data: Ptr)

  /** The interest list up to the identity of its event_info objects. */
  function ViewOf(epoll: map<Fd, Watch>): (v: map<Fd, Entry>)
    ensures v.Keys == epoll.Keys
  {
    map fd | fd in epoll :: Entry(epoll[fd].mask, epoll[fd].info.handler, epoll[fd].info.data)
  }

  /** Putting an entry on the interest list puts its view in the view. */
  lemma ViewInsert(epoll: map<Fd, Watch>, fd: Fd, w: Watch)
    ensures ViewOf(epoll[fd := w]) == ViewOf(epoll)[fd := Entry(w.mask, w.info.handler, w.info.data)]
  {
  }

  /** Dropping an fd from the interest list drops it from the view. */
  lemma ViewRemove(epoll: map<Fd, Watch>, fd: Fd)
    ensures ViewOf(epoll - {fd}) == ViewOf(epoll) - {fd}
  {
  }

  /**
   * The effect of one reactor call on the interest list and the refresh
   * flag: register_event adds an EPOLLIN entry for a new fd unless the
   * kernel refuses; unregister_event drops a known fd and sets the flag;
   * modify_event changes a known fd's mask unless refused; and
   * event_force_refresh sets the flag.
   */
  function Step(s: (map<Fd, Entry>, bool), a: Action): (r: (map<Fd, Entry>, bool))
    ensures s.1 ==> r.1
  {
    match a
    case DoRegister(fd, h, d, refused) => if fd in s.0 || refused then s else (s.0[fd := Entry(EPOLLIN, h, d)], s.1)
    case DoUnregister(fd) => if fd in s.0 then (s.0 - {fd}, true) else s
    case DoModify(fd, mask, refused) => if fd !in s.0 || refused then s else (s.0[fd := s.0[fd].(mask := mask)], s.1)
    case DoRefresh => (s.0, true)
  }

  /** The effect of a handler script: its calls one after the other. */
  function Apply(s: (map<Fd, Entry>, bool), actions: seq<Action>): (r: (map<Fd, Entry>, bool))
    ensures s.1 ==> r.1
    decreases |actions|
  {
    if actions == [] then s else Step(Apply(s, actions[..|actions| - 1]), actions[|actions| - 1])
  }

  /** Running one script and then another is running the two joined. */
  lemma {:induction false} ApplyConcat(s: (map<Fd, Entry>, bool), a: seq<Action>, b: seq<Action>)
    ensures Apply(s, a + b) == Apply(Apply(s, a), b)
    decreases |b|
  {
    if b == [] {
      assert a + b == a;
    } else {
      assert (a + b)[..|a + b| - 1] == a + b[..|b| - 1];
      ApplyConcat(s, a, b[..|b| - 1]);
    }
  }

  /** The handler scripts of dispatches `base` to `base + n - 1`, joined. */
  function Effects(handlers: seq<seq<Action>>, base: nat, n: nat): seq<Action>
  {
    if n == 0 then [] else Effects(handlers, base, n - 1) + HandlerAt(handlers, base + n - 1)
  }

  /** A call log that grew by the first `d` reported events, dispatched in order, is the old log followed by their dispatches. */
  lemma CallsExtend(before: seq<Dispatch>, after: seq<Dispatch>, slots: seq<Slot>, d: nat)
    requires d <= |slots| && forall j | 0 <= j < d :: slots[j].Ready?
    requires |after| == |before| + d && after[..|before|] == before
    requires forall j | 0 <= j < d :: after[|before| + j] == Dispatch(slots[j].info, slots[j].events)
    ensures after == before + Dispatches(slots, d)
  {
    assert forall j | 0 <= j < |before| :: after[j] == after[..|before|][j];
  }

  /** The reactor's global state: `events_tree`, the interest list, `event_loop_refresh` and the buffer. */
  class Reactor {
    var registry: map<Fd, EventInfo>
    var epoll: map<Fd, Watch>
    var refresh: bool
    const events: array<Slot>
    /** Every handler invocation so far, and the registry at the moment of each. */
    var calls: seq<Dispatch>
    ghost var seen: seq<map<Fd, EventInfo>>

    ghost predicate Valid()
      reads this
    {
      && registry.Keys == epoll.Keys
      && (forall fd | fd in registry :: registry[fd].fd == fd && epoll[fd].info == registry[fd])
      && events.Length > 0
      && |seen| == |calls|
      && (forall j | 0 <= j < |calls| :: calls[j].info.fd in seen[j] && seen[j][calls[j].info.fd] == calls[j].info)
    }

    /** The interest list, up to the identity of its event_info objects, and the refresh flag are `s`. */
    ghost predicate Reached(s: (map<Fd, Entry>, bool))
      reads this
    {
      (ViewOf(epoll), refresh) == s
    }

    /** The call log is `start` followed by the dispatches of the first `n` buffer entries, in order. */
    ghost predicate Logged(start: seq<Dispatch>, n: nat)
      reads this, events
    {
      && n <= events.Length
      && |calls| == |start| + n && calls[..|start|] == start
      && forall j | 0 <= j < n :: events[j].Ready? && calls[|start| + j] == Dispatch(events[j].info, events[j].events)
    }

    /** init_event with a positive buffer size, when epoll_create succeeds. */
    constructor (nr: nat)
      requires nr > 0
      ensures Valid() && fresh(events) && events.Length == nr
      ensures registry == map[] && epoll == map[] && !refresh && calls == []
    {
      registry := map[];
      epoll := map[];
      refresh := false;
      events := new Slot[nr](_ => Empty);
      calls := [];
      seen := [];
    }

    /** lookup_event: the event_info registered for `fd`, if any. */
    function Lookup(fd: Fd): (r: Option<EventInfo>)
      reads this
      requires Valid()
      ensures r.Some? <==> fd in registry
      ensures r.Some? ==> r.value.fd == fd && epoll[fd].info == r.value
    {
      if fd in registry then Some(registry[fd]) else None
    }

    /** Registered event_info objects with equal keys are the same object: the tree has no duplicate keys. */
    lemma KeysUnique(a: EventInfo, b: EventInfo)
      requires Valid() && Watched(epoll, a) && Watched(epoll, b)
      ensures EventCmp(a, b) == 0 <==> a == b
    {
    }

    /**
     * register_event: epoll_ctl(ADD) fails when the fd is already on the
     * interest list (EEXIST) or when the kernel refuses it; then nothing
     * changes and -1 is returned. Otherwise a new event_info is put on the
     * list with interest EPOLLIN and inserted into the registry.
     */
    method Register(fd: Fd, handler: Ptr, data: Ptr, refused: bool) returns (ret: int)
      requires Valid()
      modifies this
      ensures Valid()
      ensures refresh == old(refresh) && calls == old(calls) && seen == old(seen)
      ensures fd in old(registry) || refused ==>
        ret == -1 && registry == old(registry) && epoll == old(epoll)
      ensures !(fd in old(registry) || refused) ==>
        && ret == 0
        && fd in registry && fresh(registry[fd])
        && registry[fd].handler == handler && registry[fd].data == data
        && registry == old(registry)[fd := registry[fd]]
        && epoll == old(epoll)[fd := Watch(EPOLLIN, registry[fd])]
    {
      var ei := new EventInfo(fd, handler, data);
      if fd in epoll || refused {
        return -1;
      }
      epoll := epoll[fd := Watch(EPOLLIN, ei)];
      registry := registry[fd := ei];
      ret := 0;
    }

    /**
     * unregister_event: nothing happens for an unknown fd. Otherwise the
     * fd leaves the interest list and the registry, and the loop is told
     * to refresh because the freed event_info may still be in the buffer.
     */
    method Unregister(fd: Fd)
      requires Valid()
      modifies this
      ensures Valid()
      ensures calls == old(calls) && seen == old(seen)
      ensures fd !in old(registry) ==>
        registry == old(registry) && epoll == old(epoll) && refresh == old(refresh)
      ensures fd in old(registry) ==>
        registry == old(registry) - {fd} && epoll == old(epoll) - {fd} && refresh
    {
      var ei := Lookup(fd);
      if ei.None? {
        return;
      }
      epoll := epoll - {fd};
      registry := registry - {fd};
      ForceRefresh();
    }

    /**
     * modify_event: -1 for an unknown fd or when epoll_ctl(MOD) fails; on
     * success only the interest mask of `fd` changes.
     */
    method Modify(fd: Fd, newEvents: bv32, refused: bool) returns (ret: int)
      requires Valid()
      modifies this
      ensures Valid()
      ensures registry == old(registry) && refresh == old(refresh) && calls == old(calls) && seen == old(seen)
      ensures fd !in registry || refused ==> ret == -1 && epoll == old(epoll)
      ensures !(fd !in registry || refused) ==>
        ret == 0 && epoll == old(epoll)[fd := Watch(newEvents, registry[fd])]
    {
      var ei := Lookup(fd);
      if ei.None? {
        return -1;
      }
      if refused {
        return -1;
      }
      epoll := epoll[fd := Watch(newEvents, ei.value)];
      ret := 0;
    }

    /** `event_loop_refresh = false` at the top of event_loop. */
    method ClearRefresh()
      requires Valid()
      modifies this
      ensures Valid() && !refresh
      ensures registry == old(registry) && epoll == old(epoll) && calls == old(calls) && seen == old(seen)
    {
      refresh := false;
    }

    /** event_force_refresh. */
    method ForceRefresh()
      modifies this
      ensures refresh
      ensures registry == old(registry) && epoll == old(epoll) && calls == old(calls) && seen == old(seen)
    {
      refresh := true;
    }

    /** One reactor call made by a handler, with the effect Step gives it. */
    method Perform(a: Action)
      requires Valid()
      modifies this
      ensures Valid()
      ensures calls == old(calls) && seen == old(seen)
      ensures (ViewOf(epoll), refresh) == Step((ViewOf(old(epoll)), old(refresh)), a)
      ensures !refresh ==> forall fd | fd in old(registry) :: fd in registry && registry[fd] == old(registry)[fd]
    {
      match a
      case DoRegister(fd, h, d, refused) =>
        var _ := Register(fd, h, d, refused);
        if !(fd in old(registry) || refused) {
          ViewInsert(old(epoll), fd, Watch(EPOLLIN, registry[fd]));
        }
      case DoUnregister(fd) =>
        Unregister(fd);
        if fd in old(registry) {
          ViewRemove(old(epoll), fd);
        }
      case DoModify(fd, mask, refused) =>
        var _ := Modify(fd, mask, refused);
        if !(fd !in registry || refused) {
          ViewInsert(old(epoll), fd, Watch(mask, registry[fd]));
        }
      case DoRefresh =>
        ForceRefresh();
    }

    /**
     * One handler body: its reactor calls in order, so the interest list
     * and the flag become Apply of the script. The refresh flag never goes
     * back to false, and while it is false no registration has been
     * removed or replaced.
     */
    method RunHandler(actions: seq<Action>)
      requires Valid()
      modifies this
      ensures Valid()
      ensures calls == old(calls) && seen == old(seen)
      ensures (ViewOf(epoll), refresh) == Apply((ViewOf(old(epoll)), old(refresh)), actions)
      ensures old(refresh) ==> refresh
      ensures !refresh ==> forall fd | fd in old(registry) :: fd in registry && registry[fd] == old(registry)[fd]
    {
      for k := 0 to |actions|
        invariant Valid()
        invariant calls == old(calls) && seen == old(seen)
        invariant (ViewOf(epoll), refresh) == Apply((ViewOf(old(epoll)), old(refresh)), actions[..k])
        invariant !refresh ==> forall fd | fd in old(registry) :: fd in registry && registry[fd] == old(registry)[fd]
      {
        Perform(actions[k]);
        assert actions[..k + 1][..k] == actions[..k];
      }
      assert actions[..|actions|] == actions;
    }

    /** The kernel copies the reported events into the buffer and returns their number. */
    method Wait(proposed: seq<(Fd, bv32)>) returns (nr: nat)
      requires Valid()
      modifies events
      ensures nr <= events.Length
      ensures events[..nr] == Reported(epoll, proposed, events.Length)
    {
      var snap := Reported(epoll, proposed, events.Length);
      nr := |snap|;
      forall k | 0 <= k < nr {
        events[k] := snap[k];
      }
    }

    /** `ei->handler(ei->fd, events, ei->data)` for a registered event_info, then the handler's own calls. */
    method DispatchOne(ei: EventInfo, events: bv32, actions: seq<Action>)
      requires Valid() && !refresh && ei.fd in registry && registry[ei.fd] == ei
      modifies this
      ensures Valid()
      ensures calls == old(calls) + [Dispatch(ei, events)]
      ensures (ViewOf(epoll), refresh) == Apply((ViewOf(old(epoll)), false), actions)
      ensures !refresh ==> forall fd | fd in old(registry) :: fd in registry && registry[fd] == old(registry)[fd]
    {
      calls := calls + [Dispatch(ei, events)];
      seen := seen + [registry];
      RunHandler(actions);
    }

    /** The body of that loop for entry `k`: the handler runs after those of the entries before it. */
    method DispatchAt(k: nat, ghost s0: (map<Fd, Entry>, bool), ghost script: seq<Action>, actions: seq<Action>, ghost snapshot: map<Fd, EventInfo>, ghost start: seq<Dispatch>)
      requires Valid() && !refresh && k < events.Length
      requires forall j | 0 <= j <= k :: events[j].Ready?
      requires events[k].info.fd in snapshot && snapshot[events[k].info.fd] == events[k].info
      requires forall fd | fd in snapshot :: fd in registry && registry[fd] == snapshot[fd]
      requires Reached(Apply(s0, script))
      requires Logged(start, k)
      modifies this
      ensures Valid()
      ensures calls == old(calls) + [Dispatch(events[k].info, events[k].events)]
      ensures Logged(start, k + 1)
      ensures Reached(Apply(s0, script + actions))
      ensures !refresh ==> forall fd | fd in snapshot :: fd in registry && registry[fd] == snapshot[fd]
    {
      var slot := events[k];
      ApplyConcat(s0, script, actions);
      DispatchOne(slot.info, slot.events, actions);
    }

    /**
     * The `for` loop of event_loop over `nr` reported events. Each entry
     * is dispatched in buffer order with its own event_info; the pass
     * stops right after the first handler that leaves the refresh flag
     * set. Every dispatched event_info is registered when its handler runs.
     */
    method DispatchPass(nr: nat, handlers: seq<seq<Action>>, base: nat) returns (dispatched: nat, ghost flags: seq<bool>)
      requires Valid() && !refresh && nr <= events.Length
      requires forall j | 0 <= j < nr :: events[j].Ready? && Watched(epoll, events[j].info)
      modifies this
      ensures Valid()
      ensures dispatched <= nr && |flags| == dispatched
      ensures |calls| == |old(calls)| + dispatched && calls[..|old(calls)|] == old(calls)
      ensures forall j | 0 <= j < dispatched :: calls[|old(calls)| + j] == Dispatch(events[j].info, events[j].events)
      ensures forall j | 0 <= j < dispatched :: flags[j] == (j == dispatched - 1 && refresh)
      ensures dispatched < nr ==> refresh
      ensures refresh ==> dispatched > 0
      ensures Reached(Apply((ViewOf(old(epoll)), false), Effects(handlers, base, dispatched)))
    {
      ghost var snapshot := registry;
      ghost var s0 := (ViewOf(epoll), false);
      ghost var script := [];
      assert forall j | 0 <= j < nr :: events[j].info.fd in snapshot && snapshot[events[j].info.fd] == events[j].info;
      dispatched := 0;
      while dispatched < nr && !refresh
        invariant Valid() && dispatched <= nr && (refresh ==> dispatched > 0)
        invariant !refresh ==> forall fd | fd in snapshot :: fd in registry && registry[fd] == snapshot[fd]
        invariant forall j | 0 <= j < nr :: events[j].Ready? && events[j].info.fd in snapshot && snapshot[events[j].info.fd] == events[j].info
        invariant Logged(old(calls), dispatched)
        invariant script == Effects(handlers, base, dispatched)
        invariant Reached(Apply(s0, script))
        decreases nr - dispatched
      {
        DispatchAt(dispatched, s0, script, HandlerAt(handlers, base + dispatched), snapshot, old(calls));
        script := script + HandlerAt(handlers, base + dispatched);
        dispatched := dispatched + 1;
      }
      ghost var stopped := refresh;
      flags := seq(dispatched, j => j == dispatched - 1 && stopped);
    }

    /**
     * One round of event_loop after the flag is cleared: epoll_wait fills
     * the buffer from the interest list, then the `for` loop dispatches.
     * The flag is only ever set by a handler, so a pass that ends with it
     * set has dispatched something; a pass that stops early has it set.
     */
    method Pass(proposed: seq<(Fd, bv32)>, handlers: seq<seq<Action>>, base: nat) returns (dispatched: nat, ghost snap: seq<Slot>)
      requires Valid() && !refresh
      modifies this, events
      ensures Valid()
      ensures snap == Reported(old(epoll), proposed, events.Length)
      ensures dispatched <= |snap|
      ensures dispatched < |snap| ==> refresh
      ensures refresh ==> dispatched > 0
      ensures calls == old(calls) + Dispatches(snap, dispatched)
      ensures Reached(Apply((ViewOf(old(epoll)), false), Effects(handlers, base, dispatched)))
    {
      var nr := Wait(proposed);
      snap := events[..nr];
      assert forall j | 0 <= j < nr :: events[j] == snap[j];
      ghost var flags;
      dispatched, flags := DispatchPass(nr, handlers, base);
      CallsExtend(old(calls), calls, snap, dispatched);
    }

    /** A pass that got events, run on the interest list the last logged pass left: the log extended by it stays chained. */
    method ChainedPass(proposed: seq<(Fd, bv32)>, handlers: seq<seq<Action>>, base: nat, ghost log: PassLog) returns (dispatched: nat, ghost snap: seq<Slot>)
      requires Valid() && !refresh
      requires Chained(log, handlers, ViewOf(epoll)) && base == Count(log.counts)
      modifies this, events
      ensures Valid()
      ensures snap == Reported(old(epoll), proposed, events.Length)
      ensures dispatched <= |snap|
      ensures dispatched < |snap| ==> refresh
      ensures refresh ==> dispatched > 0
      ensures calls == old(calls) + Dispatches(snap, dispatched)
      ensures var log' := PassLog(log.tables + [old(epoll)], log.snaps + [snap], log.counts + [dispatched], log.flagged + [refresh]);
        && Chained(log', handlers, ViewOf(epoll)) && base + dispatched == Count(log'.counts)
    {
      ghost var table := epoll;
      dispatched, snap := Pass(proposed, handlers, base);
      ghost var effect := Apply((ViewOf(table), false), Effects(handlers, base, dispatched));
      assert refresh == effect.1;
      ChainPass(log, handlers, table, snap, dispatched, effect);
      CountAppend(log.counts, dispatched);
    }

    /** A pass that got events, added to the log of passes and to the call log. */
    method LoggedPass(proposed: seq<(Fd, bv32)>, handlers: seq<seq<Action>>, base: nat, ghost waits: seq<WaitResult>, ghost start: seq<Dispatch>, ghost log: PassLog)
      returns (dispatched: nat, ghost log': PassLog)
      requires Valid() && !refresh
      requires Recorded(waits, log, events.Length) && AllFlagged(log)
      requires |log.snaps| < |waits| && waits[|log.snaps|] == WaitReady(proposed)
      requires calls == start + AllDispatches(log.snaps, log.counts)
      requires Chained(log, handlers, ViewOf(epoll)) && base == Count(log.counts)
      modifies this, events
      ensures Valid()
      ensures Recorded(waits, log', events.Length)
      ensures calls == start + AllDispatches(log'.snaps, log'.counts)
      ensures |log'.snaps| == |log.snaps| + 1
      ensures log'.tables == log.tables + [old(epoll)] && log'.flagged == log.flagged + [refresh]
      ensures log'.counts == log.counts + [dispatched]
      ensures log'.tables[0] == if log.tables == [] then old(epoll) else log.tables[0]
      ensures refresh ==> AllFlagged(log')
      ensures Chained(log', handlers, ViewOf(epoll)) && base + dispatched == Count(log'.counts)
    {
      ghost var table, snap := epoll, [];
      dispatched, snap := ChainedPass(proposed, handlers, base, log);
      log' := PassLog(log.tables + [table], log.snaps + [snap], log.counts + [dispatched], log.flagged + [refresh]);
      RecordPass(waits, log, table, snap, dispatched, refresh, events.Length);
      DispatchesAppend(log.snaps, log.counts, snap, dispatched);
      LogExtend(start, old(calls), AllDispatches(log.snaps, log.counts), Dispatches(snap, dispatched), calls);
    }

    /**
     * One round of event_loop after earlier passes that all ended with the
     * flag set: clear the flag and take the next wait. A failed wait stops
     * the loop (EINTR returns, anything else exits with status 1) and
     * changes nothing else; a ready one is a pass, added to the log and the
     * call log, that stops the loop exactly when the flag is still clear.
     */
    method Round(w: WaitResult, handlers: seq<seq<Action>>, base: nat, ghost waits: seq<WaitResult>, ghost start: seq<Dispatch>, ghost log: PassLog)
      returns (stop: Option<Outcome>, dispatched: nat, ghost log': PassLog)
      requires Valid()
      requires Recorded(waits, log, events.Length) && AllFlagged(log)
      requires |log.snaps| < |waits| && waits[|log.snaps|] == w
      requires calls == start + AllDispatches(log.snaps, log.counts)
      requires Chained(log, handlers, ViewOf(epoll)) && base == Count(log.counts)
      modifies this, events
      ensures Valid()
      ensures Recorded(waits, log', events.Length)
      ensures calls == start + AllDispatches(log'.snaps, log'.counts)
      ensures Chained(log', handlers, ViewOf(epoll)) && base + dispatched == Count(log'.counts)
      ensures log'.tables == [] ==> log.tables == [] && epoll == old(epoll)
      ensures stop.Some? ==> !refresh
      ensures w.WaitFailed? ==>
        && stop == Some(if w.errno == EINTR then Interrupted else Exited(1))
        && log' == log && dispatched == 0 && calls == old(calls) && registry == old(registry) && epoll == old(epoll)
      ensures w.WaitReady? ==>
        && |log'.snaps| == |log.snaps| + 1
        && log'.tables[0] == (if log.tables == [] then old(epoll) else log.tables[0])
        && (stop.None? ==> AllFlagged(log'))
        && (stop.Some? ==> stop == Some(Finished) && log'.flagged == log.flagged + [false])
    {
      ClearRefresh();
      log', dispatched := log, 0;
      if w.WaitFailed? {
        stop := Some(if w.errno == EINTR then Interrupted else Exited(1));
        return;
      }
      dispatched, log' := LoggedPass(w.proposed, handlers, base, waits, start, log);
      stop := if refresh then None else Some(Finished);
    }

    /**
     * event_loop: clear the refresh flag and wait; EINTR returns, any
     * other failure exits with status 1; a pass that ends with the flag
     * set goes back to wait. `waits` scripts the successive epoll_wait
     * results and `handlers` the handler bodies of successive dispatches.
     * `log` records each pass that got events: the interest list the wait
     * read, what it reported, how many of those were dispatched and
     * whether the flag was set at the end.
     */
    method EventLoop(waits: seq<WaitResult>, handlers: seq<seq<Action>>) returns (outcome: Outcome, passes: nat, ghost log: PassLog)
      requires Valid()
      modifies this, events
      ensures Valid() && !refresh
      ensures Ended(waits, outcome, passes, log)
      ensures waits != [] && waits[0].WaitFailed? ==> passes == 1
      ensures passes == 1 && waits[0].WaitFailed? ==> calls == old(calls) && registry == old(registry)
      ensures Recorded(waits, log, events.Length)
      ensures log.tables != [] ==> log.tables[0] == old(epoll)
      ensures calls == old(calls) + AllDispatches(log.snaps, log.counts)
      ensures Chained(log, handlers, ViewOf(epoll))
      ensures log.tables == [] ==> epoll == old(epoll)
    {
      passes := 0;
      log := PassLog([], [], [], []);
      var used := 0;
      var stop: Option<Outcome> := None;
      assert old(calls) + [] == old(calls);
      while stop.None? && passes < |waits|
        invariant Valid() && passes <= |waits|
        invariant passes == 0 ==> registry == old(registry) && stop.None?
        invariant passes == 1 && waits[0].WaitFailed? ==> registry == old(registry)
        invariant Recorded(waits, log, events.Length)
        invariant stop.None? ==> |log.snaps| == passes && AllFlagged(log)
        invariant stop.Some? ==> !refresh && Ended(waits, stop.value, passes, log)
        invariant log.tables != [] ==> log.tables[0] == old(epoll)
        invariant calls == old(calls) + AllDispatches(log.snaps, log.counts)
        invariant Chained(log, handlers, ViewOf(epoll)) && used == Count(log.counts)
        invariant log.tables == [] ==> epoll == old(epoll)
        decreases |waits| - passes
      {
        var dispatched;
        ghost var before := log;
        stop, dispatched, log := Round(waits[passes], handlers, used, waits, old(calls), log);
        passes := passes + 1;
        used := used + dispatched;
        if stop.Some? {
          StopEnds(waits, events.Length, passes - 1, before, log, stop.value);
        }
      }
      if stop.Some? {
        outcome := stop.value;
      } else {
        ClearRefresh();
        outcome := OutOfWaits;
        ExhaustedEnds(waits, events.Length, log);
      }
    }
  }

  /**
   * What the loop records of its passes that got events: for the `k`-th,
   * the wait reported `snaps[k]` from the interest list `tables[k]`; of
   * those, `counts[k]` were dispatched; `flagged[k]` says whether the flag
   * was set when the pass ended.
   */
  datatype PassLog = PassLog(tables: seq<map<Fd, Watch>>, snaps: seq<seq<Slot>>, counts: seq<nat>, flagged: seq<bool>)

  /**
   * The log is consistent with the waits: a pass that ended with the flag
   * set dispatched something, one that ended with it clear dispatched
   * everything reported, and every pass but the last ended with it set.
   */
  ghost predicate Recorded(waits: seq<WaitResult>, log: PassLog, max: nat)
  {
    && Passes(log.snaps, log.counts) && |log.tables| == |log.snaps| && |log.flagged| == |log.snaps| && |log.snaps| <= |waits|
    && (forall k | 0 <= k < |log.snaps| :: waits[k].WaitReady? && log.snaps[k] == Reported(log.tables[k], waits[k].proposed, max))
    && (forall k | 0 <= k < |log.flagged| :: (log.flagged[k] ==> log.counts[k] > 0) && (!log.flagged[k] ==> log.counts[k] == |log.snaps[k]|))
    && (forall k | 0 <= k < |log.flagged| - 1 :: log.flagged[k])
  }

  /**
   * How the loop ended after `passes` waits: a failed wait ends it (EINTR
   * returns, anything else exits with status 1) and every earlier wait was
   * ready; it finishes exactly when the last pass left the flag clear; it
   * runs out of waits only after using them all.
   */
  predicate Ended(waits: seq<WaitResult>, outcome: Outcome, passes: nat, log: PassLog)
  {
    && (0 < passes <= |waits| || (passes == 0 && waits == [] && outcome == OutOfWaits))
    && (forall k | 0 <= k < passes - 1 :: waits[k].WaitReady?)
    && (outcome == Interrupted <==> passes > 0 && waits[passes - 1] == WaitFailed(EINTR))
    && (outcome.Exited? <==> passes > 0 && waits[passes - 1].WaitFailed? && waits[passes - 1].errno != EINTR)
    && (outcome.Exited? ==> outcome.status == 1)
    && (outcome == Finished ==> waits[passes - 1].WaitReady?)
    && (outcome == OutOfWaits ==> passes == |waits|)
    && |log.snaps| == (if outcome == Interrupted || outcome.Exited? then passes - 1 else passes)
    && (outcome == Finished <==> log.flagged != [] && !log.flagged[|log.flagged| - 1])
  }

  predicate AllFlagged(log: PassLog)
  {
    forall k | 0 <= k < |log.flagged| :: log.flagged[k]
  }

  /** The loop stops at wait `p` after ready waits whose passes all ended with the flag set. */
  lemma StopEnds(waits: seq<WaitResult>, max: nat, p: nat, log: PassLog, log': PassLog, stop: Outcome)
    requires p < |waits| && Recorded(waits, log, max) && |log.snaps| == p && AllFlagged(log)
    requires waits[p].WaitFailed? ==> stop == (if waits[p].errno == EINTR then Interrupted else Exited(1)) && log' == log
    requires waits[p].WaitReady? ==> stop == Finished && |log'.snaps| == p + 1 && log'.flagged == log.flagged + [false]
    ensures Ended(waits, stop, p + 1, log')
  {
  }

  /** The loop runs out of waits after passes that all ended with the flag set. */
  lemma ExhaustedEnds(waits: seq<WaitResult>, max: nat, log: PassLog)
    requires Recorded(waits, log, max) && |log.snaps| == |waits| && AllFlagged(log)
    ensures Ended(waits, OutOfWaits, |waits|, log)
  {
  }

  lemma LogExtend(log: seq<Dispatch>, before: seq<Dispatch>, earlier: seq<Dispatch>, more: seq<Dispatch>, after: seq<Dispatch>)
    requires before == log + earlier && after == before + more
    ensures after == log + (earlier + more)
  {
  }

  /** A further pass, after passes that all ended with the flag set, extends the record and the call log. */
  lemma RecordPass(waits: seq<WaitResult>, log: PassLog, table: map<Fd, Watch>, snap: seq<Slot>, n: nat, flag: bool, max: nat)
    requires Recorded(waits, log, max) && AllFlagged(log)
    requires |log.snaps| < |waits| && waits[|log.snaps|].WaitReady? && snap == Reported(table, waits[|log.snaps|].proposed, max)
    requires n <= |snap| && (flag ==> n > 0) && (!flag ==> n == |snap|)
    ensures Recorded(waits, PassLog(log.tables + [table], log.snaps + [snap], log.counts + [n], log.flagged + [flag]), max)
    ensures flag ==> AllFlagged(PassLog(log.tables + [table], log.snaps + [snap], log.counts + [n], log.flagged + [flag]))
    ensures (log.tables + [table])[0] == if log.tables == [] then table else log.tables[0]
  {
    PassesAppend(log.snaps, log.counts, snap, n);
    ReportedAppend(waits, log.tables, log.snaps, table, snap, max);
    FlagsAppend(log.snaps, log.counts, log.flagged, snap, n, flag);
  }

  /** The call log of one more pass is the earlier passes' followed by that pass's dispatches. */
  lemma DispatchesAppend(snaps: seq<seq<Slot>>, counts: seq<nat>, snap: seq<Slot>, n: nat)
    requires Passes(snaps, counts) && n <= |snap| && forall j | 0 <= j < |snap| :: snap[j].Ready?
    ensures Passes(snaps + [snap], counts + [n])
    ensures AllDispatches(snaps + [snap], counts + [n]) == AllDispatches(snaps, counts) + Dispatches(snap, n)
  {
    PassesAppend(snaps, counts, snap, n);
    assert (snaps + [snap])[..|snaps|] == snaps;
    assert (counts + [n])[..|counts|] == counts;
  }

  lemma PassesAppend(snaps: seq<seq<Slot>>, counts: seq<nat>, snap: seq<Slot>, n: nat)
    requires Passes(snaps, counts) && n <= |snap| && forall j | 0 <= j < |snap| :: snap[j].Ready?
    ensures Passes(snaps + [snap], counts + [n])
  {
    forall k | 0 <= k < |snaps|
      ensures (counts + [n])[k] <= |(snaps + [snap])[k]| && forall j | 0 <= j < |(snaps + [snap])[k]| :: (snaps + [snap])[k][j].Ready?
    {
      assert (snaps + [snap])[k] == snaps[k] && (counts + [n])[k] == counts[k];
    }
  }

  lemma ReportedAppend(waits: seq<WaitResult>, tables: seq<map<Fd, Watch>>, snaps: seq<seq<Slot>>, table: map<Fd, Watch>, snap: seq<Slot>, max: nat)
    requires |tables| == |snaps| < |waits|
    requires forall k | 0 <= k < |snaps| :: waits[k].WaitReady? && snaps[k] == Reported(tables[k], waits[k].proposed, max)
    requires waits[|snaps|].WaitReady? && snap == Reported(table, waits[|snaps|].proposed, max)
    ensures forall k | 0 <= k < |snaps| + 1 :: waits[k].WaitReady? && (snaps + [snap])[k] == Reported((tables + [table])[k], waits[k].proposed, max)
  {
    forall k | 0 <= k < |snaps| + 1
      ensures waits[k].WaitReady? && (snaps + [snap])[k] == Reported((tables + [table])[k], waits[k].proposed, max)
    {
      if k < |snaps| {
        assert (snaps + [snap])[k] == snaps[k] && (tables + [table])[k] == tables[k];
      }
    }
  }

  lemma FlagsAppend(snaps: seq<seq<Slot>>, counts: seq<nat>, flagged: seq<bool>, snap: seq<Slot>, n: nat, flag: bool)
    requires |snaps| == |counts| == |flagged|
    requires forall k | 0 <= k < |flagged| :: (flagged[k] ==> counts[k] > 0) && (!flagged[k] ==> counts[k] == |snaps[k]|)
    requires forall k | 0 <= k < |flagged| :: flagged[k]
    requires n <= |snap| && (flag ==> n > 0) && (!flag ==> n == |snap|)
    ensures forall k | 0 <= k < |flagged| + 1 ::
      ((flagged + [flag])[k] ==> (counts + [n])[k] > 0) && (!(flagged + [flag])[k] ==> (counts + [n])[k] == |(snaps + [snap])[k]|)
    ensures forall k | 0 <= k < |flagged| :: (flagged + [flag])[k]
    ensures flag ==> forall k | 0 <= k < |flagged| + 1 :: (flagged + [flag])[k]
  {
    forall k | 0 <= k < |flagged| + 1
      ensures ((flagged + [flag])[k] ==> (counts + [n])[k] > 0) && (!(flagged + [flag])[k] ==> (counts + [n])[k] == |(snaps + [snap])[k]|)
    {
      if k < |flagged| {
        assert (flagged + [flag])[k] == flagged[k] && (counts + [n])[k] == counts[k] && (snaps + [snap])[k] == snaps[k];
      }
    }
  }

  /** How many handlers the passes with these dispatch counts ran in all. */
  function Count(counts: seq<nat>): nat
  {
    if counts == [] then 0 else Count(counts[..|counts| - 1]) + counts[|counts| - 1]
  }

  lemma CountAppend(counts: seq<nat>, n: nat)
    ensures Count(counts + [n]) == Count(counts) + n
  {
    assert (counts + [n])[..|counts|] == counts;
  }

  /**
   * What pass `k` leaves: the handlers of the events it dispatched, which
   * are the next ones in `handlers` after those of the earlier passes, run
   * in order on the interest list its wait read, with the flag clear at the
   * start.
   */
  ghost function PassEffect(tables: seq<map<Fd, Watch>>, counts: seq<nat>, handlers: seq<seq<Action>>, k: nat): (map<Fd, Entry>, bool)
    requires k < |tables| && |counts| == |tables|
  {
    Apply((ViewOf(tables[k]), false), Effects(handlers, Count(counts[..k]), counts[k]))
  }

  /**
   * The passes follow from one another and `now` is what the last one
   * left: each pass ends with the flag its handlers left, and the next pass,
   * or `now` after the last, starts from the interest list they left.
   */
  ghost predicate Chain(tables: seq<map<Fd, Watch>>, counts: seq<nat>, flagged: seq<bool>, handlers: seq<seq<Action>>, now: map<Fd, Entry>)
    decreases |tables|
  {
    && |counts| == |tables| && |flagged| == |tables|
    && (tables != [] ==>
      var m := |tables| - 1;
      && Chain(tables[..m], counts[..m], flagged[..m], handlers, ViewOf(tables[m]))
      && PassEffect(tables, counts, handlers, m) == (now, flagged[m]))
  }

  ghost predicate Chained(log: PassLog, handlers: seq<seq<Action>>, now: map<Fd, Entry>)
  {
    Chain(log.tables, log.counts, log.flagged, handlers, now)
  }

  /** What a pass did does not depend on the passes after it. */
  lemma PassEffectPrefix(tables: seq<map<Fd, Watch>>, counts: seq<nat>, handlers: seq<seq<Action>>, j: nat, k: nat)
    requires k < j <= |tables| && |counts| == |tables|
    ensures PassEffect(tables[..j], counts[..j], handlers, k) == PassEffect(tables, counts, handlers, k)
  {
    assert counts[..j][..k] == counts[..k];
  }

  /**
   * In a chained log, pass `k` ends with the flag its handlers left, and
   * the next pass, or `now` after the last, starts from the interest list
   * they left.
   */
  lemma {:induction false} ChainedAt(tables: seq<map<Fd, Watch>>, counts: seq<nat>, flagged: seq<bool>, handlers: seq<seq<Action>>, now: map<Fd, Entry>, k: nat)
    requires Chain(tables, counts, flagged, handlers, now) && k < |tables|
    ensures flagged[k] == PassEffect(tables, counts, handlers, k).1
    ensures k + 1 < |tables| ==> ViewOf(tables[k + 1]) == PassEffect(tables, counts, handlers, k).0
    ensures k + 1 == |tables| ==> now == PassEffect(tables, counts, handlers, k).0
    decreases |tables|
  {
    var m := |tables| - 1;
    assert Chain(tables[..m], counts[..m], flagged[..m], handlers, ViewOf(tables[m]));
    if k < m {
      ChainedAt(tables[..m], counts[..m], flagged[..m], handlers, ViewOf(tables[m]), k);
      PassEffectPrefix(tables, counts, handlers, m, k);
      assert flagged[..m][k] == flagged[k];
      if k + 1 < m {
        assert tables[..m][k + 1] == tables[k + 1];
      }
    }
  }

  /** A further pass that ran its handlers on the interest list the last pass left keeps the log chained. */
  lemma ChainPass(log: PassLog, handlers: seq<seq<Action>>, table: map<Fd, Watch>, snap: seq<Slot>, n: nat, s: (map<Fd, Entry>, bool))
    requires Chained(log, handlers, ViewOf(table))
    requires s == Apply((ViewOf(table), false), Effects(handlers, Count(log.counts), n))
    ensures Chained(PassLog(log.tables + [table], log.snaps + [snap], log.counts + [n], log.flagged + [s.1]), handlers, s.0)
  {
    var tables, counts, flagged := log.tables + [table], log.counts + [n], log.flagged + [s.1];
    var m := |log.tables|;
    assert tables[..m] == log.tables && counts[..m] == log.counts && flagged[..m] == log.flagged;
    assert PassEffect(tables, counts, handlers, m) == s;
  }
}
