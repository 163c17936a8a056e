/**
 * The work pools of src/work.c, run as a sequence of atomic steps (each
 * step is one lock section of the source): a producer queues work, a
 * pool's worker takes the head of its pending list, finishes it onto the
 * finished list and bumps the completion eventfd, and the main thread's
 * drain runs the `done` callbacks of every pool's finished work.
 */
module Work {
  import opened Sys

  /** `struct work`: its address and its two callbacks. */
  datatype Work = Work(id: Ptr, fn: Ptr, done: Ptr)

  /** One callback invocation: `fn(work)`. */
  datatype Invocation = Invocation(fn: Ptr, work: Ptr)

  /** The contents of a pool at one moment, as a value. */
  datatype PoolState = PoolState(pending: seq<Work>, executing: Option<Work>, finished: seq<Work>,
                                 nrQueued: int, submitted: seq<Work>, completed: seq<Work>)

  /** A pool after its finished work has been done, in order, and counted off. */
  function AfterDrain(s: PoolState): (t: PoolState)
  {
    s.(finished := [], completed := s.completed + s.finished, nrQueued := s.nrQueued - |s.finished|)
  }

  /**
   * The counter counts the work not yet done, and the work goes through
   * pending, executing, finished and done without being reordered.
   */
  predicate ValidState(s: PoolState)
  {
    && s.nrQueued == |s.pending| + |AsSeq(s.executing)| + |s.finished|
    && s.completed + s.finished + AsSeq(s.executing) + s.pending == s.submitted
  }

  /** Draining keeps a pool's invariant. */
  lemma AfterDrainValid(s: PoolState)
    requires ValidState(s)
    ensures ValidState(AfterDrain(s))
  {
    assert s.completed + s.finished + AsSeq(s.executing) + s.pending == (s.completed + s.finished) + [] + AsSeq(s.executing) + s.pending;
  }

  /** A worker finishing its executing work keeps the pool's invariant. */
  lemma FinishValid(s: PoolState)
    requires ValidState(s) && s.executing.Some?
    ensures ValidState(s.(finished := s.finished + [s.executing.value], executing := None))
  {
    assert s.completed + (s.finished + [s.executing.value]) + [] + s.pending
        == s.completed + s.finished + AsSeq(s.executing) + s.pending;
  }

  function AsSeq(x: Option<Work>): (s: seq<Work>)
    ensures x.Some? ==> s == [x.value]
    ensures x.None? ==> s == []
  {
    if x.Some? then [x.value] else []
  }

  /** `struct wq_info`, with one worker thread. */
  class Pool {
    const name: string
    var pending: seq<Work>
    /** The work the worker has taken and not yet finished. */
    var executing: Option<Work>
    var finished: seq<Work>
    var nrQueued: nat
    /** Every work ever queued here, in queueing order. */
    ghost var submitted: seq<Work>
    /** The works whose `done` has run, in the order it ran. */
    ghost var completed: seq<Work>

    ghost predicate Valid()
      reads this
    {
      ValidState(State())
    }

    ghost function State(): PoolState
      reads this
    {
      PoolState(pending, executing, finished, nrQueued, submitted, completed)
    }

    /** The part of create_work_queue that builds the struct: empty lists, counter 0. */
    constructor (name: string)
      ensures Valid() && this.name == name
      ensures pending == [] && executing == None && finished == [] && nrQueued == 0
      ensures submitted == [] && completed == []
    {
      this.name := name;
      pending := [];
      executing := None;
      finished := [];
      nrQueued := 0;
      submitted := [];
      completed := [];
    }

    /** work_queue_empty: the counter is zero exactly when no work is pending, executing or finished. */
    function WorkQueueEmpty(): (r: bool)
      reads this
      requires Valid()
      ensures r <==> pending == [] && executing.None? && finished == []
      ensures r <==> completed == submitted
    {
      nrQueued == 0
    }

    /** queue_work: count the work and link it at the tail of the pending list. */
    method QueueWork(w: Work)
      requires Valid()
      modifies this
      ensures Valid()
      ensures pending == old(pending) + [w] && nrQueued == old(nrQueued) + 1
      ensures executing == old(executing) && finished == old(finished)
      ensures submitted == old(submitted) + [w] && completed == old(completed)
    {
      nrQueued := nrQueued + 1;
      pending := pending + [w];
      submitted := submitted + [w];
    }

    /**
     * The first lock section of a worker iteration: take the head of the
     * pending list, or (on an empty list) take nothing and change nothing.
     */
    method WorkerTake() returns (taken: Option<Work>)
      requires Valid() && executing.None?
      modifies this
      ensures Valid()
      ensures old(pending) == [] ==> taken == None && pending == [] && executing == None
      ensures old(pending) != [] ==> taken == Some(old(pending)[0]) && pending == old(pending)[1..] && executing == taken
      ensures finished == old(finished) && nrQueued == old(nrQueued)
      ensures submitted == old(submitted) && completed == old(completed)
    {
      if pending == [] {
        return None;
      }
      taken := Some(pending[0]);
      executing := taken;
      pending := pending[1..];
    }
  }

  /** A pool list without repeats. */
  ghost predicate DistinctPools(pools: seq<Pool>)
  {
    forall i, j | 0 <= i < j < |pools| :: pools[i] != pools[j]
  }

  /** The finished lists of pools in states `ss`, one after the other. */
  function AllFinished(ss: seq<PoolState>): (r: seq<Work>)
  {
    if ss == [] then [] else AllFinished(ss[..|ss| - 1]) + ss[|ss| - 1].finished
  }

  /** The `done` calls for the finished work of the first `i` pools, pool by pool. */
  function AllDones(ss: seq<PoolState>, i: nat): (r: seq<Invocation>)
    requires i <= |ss|
  {
    if i == 0 then [] else AllDones(ss, i - 1) + Dones(ss[i - 1].finished)
  }

  /** Draining pool by pool runs `done` for the pools' finished lists one after the other. */
  lemma {:induction false} AllDonesInOrder(ss: seq<PoolState>, i: nat)
    requires i <= |ss|
    ensures AllDones(ss, i) == Dones(AllFinished(ss[..i]))
  {
    if i > 0 {
      AllDonesInOrder(ss, i - 1);
      assert ss[..i][..i - 1] == ss[..i - 1];
      DonesConcat(AllFinished(ss[..i - 1]), ss[i - 1].finished);
    }
  }

  /** The library's globals: the pool list (newest first), the completion eventfd and the callback logs. */
  class Runtime {
    var pools: seq<Pool>
    /** The completion eventfd's counter. */
    var completions: nat
    /** Every `fn` call made by a worker, in order. */
    var fnLog: seq<Invocation>
    /** Every `done` call made by the drain, in order. */
    var doneLog: seq<Invocation>

    ghost predicate Valid()
      reads this, pools
    {
      && DistinctPools(pools)
      && (forall k | 0 <= k < |pools| :: pools[k].Valid())
    }

    constructor ()
      ensures Valid() && pools == [] && completions == 0 && fnLog == [] && doneLog == []
    {
      pools := [];
      completions := 0;
      fnLog := [];
      doneLog := [];
    }

    /**
     * create_work_queue: a new pool with empty lists; when its worker
     * thread starts it is linked at the head of the pool list, otherwise
     * everything is torn down and NULL is returned. `startup` is what the
     * creating thread does to startup_lock, unlocking it once on failure.
     */
    method CreateWorkQueue(name: string, threadOk: bool) returns (q: Pool?, ghost startup: seq<LockOp>)
      requires Valid()
      modifies this
      ensures Valid()
      ensures startup == CreateStartupOps(threadOk) && Bracketed(startup, false)
      ensures completions == old(completions) && fnLog == old(fnLog) && doneLog == old(doneLog)
      ensures !threadOk ==> q == null && pools == old(pools)
      ensures threadOk ==> q != null && fresh(q) && pools == [q] + old(pools)
      ensures threadOk ==> q.name == name && q.pending == [] && q.executing == None && q.finished == [] && q.nrQueued == 0
    {
      startup := CreateStartupOps(threadOk);
      var wi := new Pool(name);
      if !threadOk {
        return null, startup;
      }
      LinkPool(wi);
      q := wi;
    }

    /** `list_add(&wi->list, &wq_info_list)`: link a pool not yet listed at the head of the pool list. */
    method LinkPool(wi: Pool)
      requires Valid() && wi.Valid() && wi !in pools
      modifies this
      ensures Valid() && pools == [wi] + old(pools)
      ensures completions == old(completions) && fnLog == old(fnLog) && doneLog == old(doneLog)
    {
      pools := [wi] + pools;
    }

    /**
     * The rest of a worker iteration: run `fn` when it is set, link the
     * work at the tail of the finished list and add 1 to the eventfd.
     */
    method WorkerFinish(p: Pool)
      requires Valid() && p in pools && p.executing.Some?
      modifies this, p
      ensures Valid()
      ensures var w := old(p.executing).value;
        && p.finished == old(p.finished) + [w] && p.executing == None
        && fnLog == old(fnLog) + (if w.fn != NULL then [Invocation(w.fn, w.id)] else [])
      ensures p.pending == old(p.pending) && p.nrQueued == old(p.nrQueued)
      ensures p.submitted == old(p.submitted) && p.completed == old(p.completed)
      ensures completions == old(completions) + 1 && doneLog == old(doneLog) && pools == old(pools)
    {
      var w := p.executing.value;
      FinishValid(p.State());
      if w.fn != NULL {
        fnLog := fnLog + [Invocation(w.fn, w.id)];
      }
      p.finished := p.finished + [w];
      p.executing := None;
      completions := completions + 1;
      forall k | 0 <= k < |pools|
        ensures pools[k].Valid()
      {
        if pools[k] != p {
          assert pools[k].State() == old(pools[k].State());
        }
      }
    }

    /**
     * One pool's part of the drain: take its whole finished list and run
     * each work's `done` in list order, counting it off the pool.
     */
    method DrainPool(p: Pool)
      requires p.Valid()
      modifies this, p
      ensures p.Valid() && p.State() == AfterDrain(old(p.State()))
      ensures doneLog == old(doneLog) + Dones(old(p.finished))
      ensures pools == old(pools) && completions == old(completions) && fnLog == old(fnLog)
    {
      ghost var s0 := p.State();
      var list := p.finished;
      p.finished := [];
      ghost var k := 0;
      while list != []
        invariant 0 <= k <= |s0.finished| && list == s0.finished[k..]
        invariant p.State() == s0.(finished := [], completed := s0.completed + s0.finished[..k], nrQueued := s0.nrQueued - k)
        invariant doneLog == old(doneLog) + Dones(s0.finished[..k])
        invariant pools == old(pools) && completions == old(completions) && fnLog == old(fnLog)
        decreases |list|
      {
        var w := list[0];
        list := list[1..];
        doneLog := doneLog + [Invocation(w.done, w.id)];
        p.completed := p.completed + [w];
        p.nrQueued := p.nrQueued - 1;
        assert s0.finished[..k + 1] == s0.finished[..k] + [w];
        DonesAppend(s0.finished[..k], w);
        k := k + 1;
      }
      assert s0.finished[..k] == s0.finished;
      AfterDrainValid(s0);
    }

    /**
     * worker_thread_request_done: read (and so reset) the eventfd, then
     * drain every pool in list order. Afterwards no pool has finished
     * work, every pool's counter has dropped by its finished work, and the
     * `done` calls are the finished lists in pool order.
     */
    method RequestDone()
      requires Valid()
      modifies this, pools
      ensures Valid() && pools == old(pools) && completions == 0 && fnLog == old(fnLog)
      ensures doneLog == old(doneLog) + AllDones(old(States(pools)), |pools|)
      ensures forall k | 0 <= k < |pools| :: pools[k].State() == AfterDrain(old(pools[k].State()))
    {
      ghost var st := States(pools);
      ghost var log0 := doneLog;
      assert forall k | 0 <= k < |pools| :: ValidState(st[k]);
      completions := 0;
      var i := 0;
      while i < |pools|
        invariant 0 <= i <= |pools| && pools == old(pools) && completions == 0 && fnLog == old(fnLog)
        invariant DrainedUpTo(i, st, log0)
      {
        DrainNext(i, st, log0);
        i := i + 1;
      }
      forall k | 0 <= k < |pools|
        ensures pools[k].Valid()
      {
        AfterDrainValid(st[k]);
      }
    }

    /** The first `i` pools of `st` are drained, the others untouched, and the done calls logged so far. */
    ghost predicate DrainedUpTo(i: nat, st: seq<PoolState>, log0: seq<Invocation>)
      reads this, pools
    {
      && i <= |pools| == |st|
      && DistinctPools(pools)
      && (forall k | 0 <= k < |pools| :: ValidState(st[k]))
      && (forall k | 0 <= k < |pools| :: pools[k].State() == if k < i then AfterDrain(st[k]) else st[k])
      && doneLog == log0 + AllDones(st, i)
    }

    /** Drain the next pool of the list. */
    method DrainNext(i: nat, ghost st: seq<PoolState>, ghost log0: seq<Invocation>)
      requires DrainedUpTo(i, st, log0) && i < |pools|
      modifies this, pools[i]
      ensures DrainedUpTo(i + 1, st, log0)
      ensures pools == old(pools) && completions == old(completions) && fnLog == old(fnLog)
    {
      var p := pools[i];
      DrainPool(p);
      forall k | 0 <= k < |pools| && k != i
        ensures pools[k].State() == old(pools[k].State())
      {
        assert pools[k] != p;
      }
    }
  }

  /** The state of each pool. */
  ghost function States(pools: seq<Pool>): (r: seq<PoolState>)
    reads pools
    ensures |r| == |pools| && forall k | 0 <= k < |pools| :: r[k] == pools[k].State()
  {
    if pools == [] then [] else States(pools[..|pools| - 1]) + [pools[|pools| - 1].State()]
  }

  /** The `done` invocations for a list of works, in order. */
  function Dones(ws: seq<Work>): (r: seq<Invocation>)
    ensures |r| == |ws|
  {
    if ws == [] then [] else Dones(ws[..|ws| - 1]) + [Invocation(ws[|ws| - 1].done, ws[|ws| - 1].id)]
  }

  lemma DonesAppend(ws: seq<Work>, w: Work)
    ensures Dones(ws + [w]) == Dones(ws) + [Invocation(w.done, w.id)]
  {
    assert (ws + [w])[..|ws|] == ws;
  }

  lemma {:induction false} DonesConcat(a: seq<Work>, b: seq<Work>)
    ensures Dones(a + b) == Dones(a) + Dones(b)
    decreases |b|
  {
    if b != [] {
      var b' := b[..|b| - 1];
      assert a + b == (a + b') + [b[|b| - 1]];
      assert b == b' + [b[|b| - 1]];
      DonesConcat(a, b');
      DonesAppend(a + b', b[|b| - 1]);
      DonesAppend(b', b[|b| - 1]);
    } else {
      assert a + b == a;
    }
  }

  /**
   * With one worker per pool, `done` runs in submission order: the works
   * already done are always a prefix of the works queued.
   */
  lemma DoneInSubmissionOrder(p: Pool)
    requires p.Valid()
    ensures p.completed == p.submitted[..|p.completed|]
  {
    assert p.submitted == p.completed + (p.finished + AsSeq(p.executing) + p.pending);
  }

  /** An operation on one mutex. */
  datatype LockOp = Lock | Unlock

  /**
   * A run of operations on a mutex, starting with it `held` or not, that
   * locks it only while it is free, unlocks it only while it is held and
   * leaves it free.
   */
  predicate Bracketed(ops: seq<LockOp>, held: bool)
    decreases |ops|
  {
    if ops == [] then !held
    else if ops[0] == Lock then !held && Bracketed(ops[1..], true)
    else held && Bracketed(ops[1..], false)
  }

  /**
   * create_worker_threads: startup_lock is locked around pthread_create and
   * unlocked on its failure path and on its success path alike.
   */
  function StartupOps(threadOk: bool): (ops: seq<LockOp>)
    ensures Bracketed(ops, false)
  {
    [Lock, Unlock]
  }

  /**
   * The startup_lock operations of create_work_queue as written: when the
   * thread cannot be created, destroy_threads unlocks startup_lock again.
   */
  function CreateStartupOpsAsWritten(threadOk: bool): (ops: seq<LockOp>)
  {
    StartupOps(threadOk) + if threadOk then [] else [Unlock]
  }

  /** The intended create_work_queue leaves startup_lock to create_worker_threads. */
  function CreateStartupOps(threadOk: bool): (ops: seq<LockOp>)
    ensures Bracketed(ops, false)
  {
    StartupOps(threadOk)
  }

  /**
   * As written, a failed thread creation unlocks startup_lock a second
   * time, after create_worker_threads has already unlocked it; a
   * successful one is well bracketed.
   */
  lemma CreateFailureUnlocksTwice()
    ensures !Bracketed(CreateStartupOpsAsWritten(false), false)
    ensures CreateStartupOpsAsWritten(false)[..2] == CreateStartupOps(false)
    ensures Bracketed(CreateStartupOpsAsWritten(true), false)
  {
    assert CreateStartupOpsAsWritten(false) == [Lock, Unlock, Unlock];
    assert !Bracketed([Unlock], false);
  }

  /**
   * Where a pool's worker thread is in worker_routine: going round its
   * loop, blocked in bs_cond_wait on an empty pending list, or blocked
   * for ever.
   */
  datatype WorkerAt = Looping | Waiting | Deadlocked

  /**
   * One pool as its producer and its worker see it: the pending list, the
   * works the worker has finished, where the worker is, and whether the
   * producer is blocked for ever on pending_lock.
   */
  datatype Loop = Loop(pending: seq<Work>, finished: seq<Work>, at: WorkerAt, producerBlocked: bool)

  /** One step of a run: the main thread queues a work, or the worker takes its turn. */
  datatype Move = Submit(w: Work) | Turn

  /** A new pool whose worker has just started. */
  const FreshLoop := Loop([], [], Looping, false)

  /**
   * queue_work: while the worker holds pending_lock for ever, the producer
   * blocks on it; otherwise the work joins the tail of the pending list.
   */
  function SubmitStep(s: Loop, w: Work): (t: Loop)
  {
    if s.producerBlocked then s
    else if s.at == Deadlocked then s.(producerBlocked := true)
    else s.(pending := s.pending + [w])
  }

  /**
   * A turn of worker_routine as written: on an empty list it waits; once
   * woken with work pending it holds pending_lock (bs_cond_wait gives it
   * back) and `continue` locks it again, which never returns.
   */
  function WorkerStepAsWritten(s: Loop): (t: Loop)
  {
    match s.at
    case Deadlocked => s
    case Waiting => if s.pending == [] then s else s.(at := Deadlocked)
    case Looping =>
      if s.pending == [] then s.(at := Waiting)
      else s.(pending := s.pending[1..], finished := s.finished + [s.pending[0]])
  }

  /**
   * A turn of worker_routine as intended: woken or not, the worker looks
   * at the pending list under the lock, waits when it is empty and
   * otherwise takes its head and finishes it. This is the take-then-finish
   * order that Pool.WorkerTake and Runtime.WorkerFinish follow on the pool
   * itself; the loop here is an abstraction of them on values and is not
   * proved equal to them.
   */
  function WorkerStep(s: Loop): (t: Loop)
    ensures s.at != Deadlocked ==> t.at != Deadlocked && t.producerBlocked == s.producerBlocked
    ensures t.finished + t.pending == s.finished + s.pending
    ensures s.at != Deadlocked && s.pending != [] ==> t.finished == s.finished + [s.pending[0]]
  {
    if s.at == Deadlocked then s
    else if s.pending == [] then s.(at := Waiting)
    else
      assert s.finished + [s.pending[0]] + s.pending[1..] == s.finished + s.pending;
      s.(pending := s.pending[1..], finished := s.finished + [s.pending[0]], at := Looping)
  }

  /** A run of moves, with the worker as written or as intended. */
  function Run(intended: bool, s: Loop, moves: seq<Move>): (t: Loop)
    decreases |moves|
  {
    if moves == [] then s
    else
      var next := if moves[0].Submit? then SubmitStep(s, moves[0].w)
                  else if intended then WorkerStep(s) else WorkerStepAsWritten(s);
      Run(intended, next, moves[1..])
  }

  /** The works a run of moves queues, in order. */
  function Submitted(moves: seq<Move>): (ws: seq<Work>)
    ensures |ws| <= |moves|
  {
    if moves == [] then [] else (if moves[0].Submit? then [moves[0].w] else []) + Submitted(moves[1..])
  }

  /**
   * As written, a deadlocked worker stays deadlocked: whatever happens
   * next, no pending work is taken and no further work is finished.
   */
  lemma {:induction false} DeadlockedForever(s: Loop, moves: seq<Move>)
    requires s.at == Deadlocked
    ensures Run(false, s, moves).at == Deadlocked
    ensures Run(false, s, moves).pending == s.pending && Run(false, s, moves).finished == s.finished
    decreases |moves|
  {
    if moves != [] {
      var next := if moves[0].Submit? then SubmitStep(s, moves[0].w) else WorkerStepAsWritten(s);
      DeadlockedForever(next, moves[1..]);
    }
  }

  /**
   * As written, a new pool whose worker finds its list empty never
   * finishes the first work queued to it, whatever follows; as intended,
   * the same three moves finish it.
   */
  lemma FirstWorkNeverFinishes(w: Work, more: seq<Move>)
    ensures Run(false, FreshLoop, [Turn, Submit(w), Turn] + more).finished == []
    ensures Run(true, FreshLoop, [Turn, Submit(w), Turn]).finished == [w]
  {
    var waiting, woken := Loop([], [], Waiting, false), Loop([w], [], Waiting, false);
    var stuck := Loop([w], [], Deadlocked, false);
    assert ([Turn, Submit(w), Turn] + more)[1..] == [Submit(w), Turn] + more;
    assert ([Submit(w), Turn] + more)[1..] == [Turn] + more;
    assert ([Turn] + more)[1..] == more;
    assert Run(false, FreshLoop, [Turn, Submit(w), Turn] + more) == Run(false, waiting, [Submit(w), Turn] + more);
    assert SubmitStep(waiting, w) == woken by { assert [] + [w] == [w]; }
    assert Run(false, waiting, [Submit(w), Turn] + more) == Run(false, woken, [Turn] + more);
    assert Run(false, woken, [Turn] + more) == Run(false, stuck, more);
    DeadlockedForever(stuck, more);
    assert Run(true, FreshLoop, [Turn, Submit(w), Turn]) == Run(true, waiting, [Submit(w), Turn]);
    assert Run(true, waiting, [Submit(w), Turn]) == Run(true, woken, [Turn]);
    assert Run(true, woken, [Turn]) == Run(true, Loop([], [w], Looping, false), []);
  }

  /**
   * As intended, the worker never deadlocks and loses or reorders no work:
   * the finished works followed by the pending ones are those there were
   * before, followed by the works queued, in queueing order.
   */
  lemma {:induction false} WorkerKeepsOrder(s: Loop, moves: seq<Move>)
    requires s.at != Deadlocked && !s.producerBlocked
    ensures Run(true, s, moves).at != Deadlocked && !Run(true, s, moves).producerBlocked
    ensures Run(true, s, moves).finished + Run(true, s, moves).pending == s.finished + s.pending + Submitted(moves)
    decreases |moves|
  {
    if moves != [] {
      var next := if moves[0].Submit? then SubmitStep(s, moves[0].w) else WorkerStep(s);
      WorkerKeepsOrder(next, moves[1..]);
      if moves[0].Submit? {
        assert next.finished + next.pending == s.finished + s.pending + [moves[0].w];
      }
    }
  }
}
