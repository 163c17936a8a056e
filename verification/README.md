# A Dafny model of the Bootstrap reactor library

Bootstrap is a small C library for event-driven servers. Its core is built from seven parts:

- A **reactor** (`src/event.c`). It keeps a registry from file descriptor to handler, in step with an epoll interest list. Its loop dispatches one readiness snapshot at a time and starts over with a fresh wait as soon as a handler asks for a refresh.
- **Timers** (`src/timer.c`). Each is a POSIX timer that raises a signal, read back through a signalfd that the reactor watches.
- **Work pools** (`src/work.c`). Producers queue work, a worker thread per pool runs it, and the main thread is woken through an eventfd to run each work's `done` callback.
- A **notification queue** (`src/queue.c`). It is an intrusive FIFO that can notify its owner through an eventfd registered with the reactor.
- **Byte and address helpers** (`src/net.c`): the iovec cursor of `forward_iov`, the retrying `do_read`/`do_write`, the family decision of `addr_to_str`/`str_to_addr` and the dotted-quad text of `sockaddr_in_to_str`.
- **Utility loops** (`src/util.c`): the never-NULL allocators and their reclamation hook, `xread`/`xwrite` and the eventfd wrappers.
- **Comparator and min/max macros** (`src/util.h`).

The model has one module per source file: `Sys` (shared vocabulary), `UtilMacros` and `Locks` (both for `src/util.h`), `Util`, `Net`, `Event`, `Timer`, `Queue` and `Work`. It follows each file's own form:

- Pure code becomes functions and lemmas.
- State that the C code updates in place becomes classes with `modifies` frames: the reactor, a `msghdr` over an iovec array, a timer, a queue, the pools and the eventfd counter.
- Loops stay loops, with their invariants.

The outside world is made explicit as parameters:

- **System calls** are scripts of results, consumed one per call. A script that runs out while the C code would still retry or block gives the outcome `Pending`.
- **Kernel objects** become plain state: the epoll interest list is a map, an eventfd is a counter, and a POSIX timer is the `itimerspec` it is armed with.
- **Callbacks and handlers** are logged invocations. A handler's body is a script of the reactor calls it makes.

## Model

| member | source | states |
|---|---|---|
| UtilMacros.IntCmp | src/util.h:41-53 | 1 exactly when x > y, 0 exactly when they are equal, -1 exactly when x < y |
| UtilMacros.IntCmpAntisymmetric | src/util.h:47-53 | swapping the arguments negates the result |
| UtilMacros.IntCmpTransitive | src/util.h:47-53 | `<= 0` and `< 0` are transitive, so intcmp is a valid ordering for the registry tree |
| UtilMacros.MinMacro | src/util.h:26 | the result is at most both arguments and is one of them |
| UtilMacros.MaxMacro | src/util.h:27 | the result is at least both arguments and is one of them |
| UtilMacros.Min | src/util.h:29-33 | the result is at most both arguments and is one of them |
| UtilMacros.Max | src/util.h:35-39 | the result is at least both arguments and is one of them |
| UtilMacros.MacrosAgree | src/util.h:26-39 | MIN agrees with min and MAX with max, and min + max = x + y |
| Locks.InitMutexAsWritten | src/util.h:71-81 | as written: whatever pthread_mutex_init returns, the loop calls it again, so every scripted result is used and the call never returns |
| Locks.InitMutex | src/util.h:71-81 | as intended: EAGAIN is retried; it returns right after a 0 and panics right after any other error, all earlier results being EAGAIN; it blocks exactly when every result is EAGAIN |
| Util.AllocRound | src/util.c:33-35 | the first request is for `size`; a second, one-byte request is made exactly when the first fails on a zero size; the round succeeds exactly when one of them does, with `size` bytes or (for size 0) one byte |
| Util.Allocator.SetTryToFreeRoutine | src/util.c:22-29 | returns the previous hook; NULL installs do_nothing, so a NULL hook is never installed |
| Util.Allocator.XMalloc | src/util.c:31-45 | a first round; only if it fails, exactly one hook call with the requested size and a second round; no block after both (None) is the out-of-memory panic; any block has the requested size, or one byte for size 0 |
| Util.Allocator.XCalloc | src/util.c:47-61 | as xmalloc for nmemb * size; a product beyond 64 bits always fails, the hook gets the product wrapped to 64 bits, and the one-byte fallback applies when either factor is zero |
| Util.Clamp | src/util.c:67-70 | a successful transfer moves no more than asked; errors pass unchanged |
| Util.RetryTransient | src/util.c:63-83 | retries while the call fails with EAGAIN or EINTR; it blocks (Pending) exactly when every scripted result is transient, otherwise it returns the first other result |
| Util.TransferSkips | src/util.c:63-72 | EINTR and EAGAIN failures of the inner retry loop leave the outcome of the transfer unchanged |
| Util.TransferStep | src/util.c:63-83 | one call of `_read`/`_write`: it blocks only if the transfer does, and otherwise returns the first non-transient result (capped at the bytes asked for), from which the rest of the transfer follows |
| Util.XRead | src/util.c:85-102 | the outcome and the chunks read are those of Transfer over the script: each chunk is a successful read's count, taken after any transient failures; the result is the sum of the positive chunks read and at most `count`; it is short only when the last read hit end of stream; an error returns that read's errno; count 0 reads nothing |
| Util.XWrite | src/util.c:104-123 | the outcome and the chunks written are those of Transfer over the script; success returns exactly `count`, the sum of the positive chunks written; a write of 0 bytes gives ENOSPC; an error returns that write's errno |
| Util.ToInt32 | src/util.c:139-140 | the counter stored in a C int: in 32-bit range, congruent to the value mod 2^32, unchanged for small values |
| Util.LeadingEintr | src/util.c:135-137 | the number of leading EINTR failures: all of them are EINTR and the next one is not |
| Util.LeadingTransient | src/util.c:151-153 | the number of leading EINTR/EAGAIN failures: all are transient and the next one is not |
| Util.EventfdXRead | src/util.c:130-145 | after the EINTR retries: EAGAIN returns -1 and another error panics, both leaving the counter; otherwise a nonzero counter is returned (as an int) and reset; an empty counter gives -1 when non-blocking and blocks otherwise |
| Util.EventfdXWrite | src/util.c:147-157 | after the transient retries, another error panics; the value is taken as a 64-bit unsigned; all-ones panics (EINVAL); an overflowing add blocks; otherwise it is added to the counter |
| Net.Consumed | src/net.c:227-231 | the number of leading entries the sent bytes use up: fewer than all of them, each no longer than the bytes still to skip; the entries consumed cover at most `len` bytes, and with the next one more than `len` |
| Net.ForwardIov | src/net.c:225-235 | drops exactly the fully sent entries and advances the next one in place; the new byte stream is the old one minus its first `len` bytes, and the other array entries are untouched |
| Net.SkipWhole | src/net.c:227-231 | the loop drops entries one at a time; the remaining count is shorter than the new first entry, and the stream from it equals the original stream from `len` |
| Net.AdvanceFirst | src/net.c:233-234 | the first entry moves its base forward and shrinks by `r`; the stream loses exactly its first `r` addresses |
| Net.ForwardStep | src/net.c:227-230 | skipping a whole first entry preserves the stream suffix and counts one consumed entry |
| Net.ForwardFinish | src/net.c:233-234 | advancing the first entry in place drops exactly `r` addresses from the stream |
| Net.ReadFromEntries | src/net.c:192-223 | every read before the last is a positive count below the bytes wanted when the call started, an EINTR or an EAGAIN; the chunks never exceed what is wanted, and fall short of it while the call blocks |
| Net.WriteFromEntries | src/net.c:237-266 | every send before the last is a count below the bytes still unsent, an EINTR or an EAGAIN; the bytes sent are a prefix of the stream, all of it on success, and a blocked call has sent less than all |
| Net.DoRead | src/net.c:192-223 | the outcome and the chunks are those of ReadFrom over the script; every read before the last is a positive short count, an EINTR or an EAGAIN; EINTR is retried without limit and EAGAIN at most `max_count` times; it returns `len` after reads that sum to `len`, 0 exactly when the last read saw end of stream, and -1 on any other error or the EAGAIN after the last allowed retry |
| Net.DoWrite | src/net.c:237-266 | the outcome and the bytes sent are those of WriteFrom over the script and the message's stream; on success the bytes handed to the kernel are exactly the message's stream, in order; after a failure, what was sent plus what remains is the original stream; the error and retry cases are as in do_read |
| Net.AddrFamily | src/net.c:275-284 | the scan picks IPv4 (starting at byte 12) exactly when bytes 0-11 are zero and byte 12 is not |
| Net.AddrToStr | src/net.c:268-295 | renders bytes 12-15 as IPv4 for that layout and all 16 bytes as IPv6 otherwise, then ":port" in decimal unless the port is 0 |
| Net.Decimal | src/net.c:291 | `%d` of a natural number: at least one digit, all digits, no leading zero |
| Net.DecimalRoundTrip | src/net.c:308-311 | reading the printed digits back gives the number |
| Net.DecimalLength | src/net.c:308-311 | a number below 10^k prints in at most k digits |
| Net.StrToAddr | src/net.c:316-328 | text without ':' is IPv4: bytes 0-11 are zeroed (even when parsing fails) and the four parsed bytes land at 12; other text fills all 16 bytes; NULL exactly when parsing fails |
| Net.StrToAddrKeepsIpv4 | src/net.c:316-328 | a placed IPv4 address is printed back as IPv4 exactly when its first octet is nonzero, with the same four bytes |
| Net.StrToAddrKeepsIpv6 | src/net.c:316-328 | a placed IPv6 address with a nonzero byte among 0-11 is printed back as IPv6 |
| Net.QuadFields | src/net.c:307-311 | the five printed numbers are all digit strings |
| Net.SockaddrInToStr | src/net.c:297-314 | the text is "a.b.c.d:port" with each number in decimal, in memory byte order, and it always fits the 32-byte buffer |
| Net.QuadTailComplete | src/net.c:307-311 | printing the fields one by one gives the joined dotted quad |
| Net.DottedQuadFits | src/net.c:300-311 | every dotted quad with a 16-bit port has at most 21 characters ("255.255.255.255:65535"), well inside the 32-byte buffer |
| Net.SplitAtSeparator | src/net.c:308-309 | a digit field followed by a non-digit separator splits uniquely |
| Net.DecimalInjective | src/net.c:308-311 | different numbers print differently |
| Net.JoinQuadInjective | src/net.c:307-311 | the joined text determines its five fields |
| Net.DottedQuadInjective | src/net.c:297-314 | the text determines the four octets and the port, so distinct endpoints print distinctly |
| Net.OctetsEqual | src/net.c:306-309 | four octets equal as numbers are the same byte sequence |
| Event.EventCmp | src/event.c:26-29 | 0 exactly for equal fds, positive exactly when the first fd is larger, and antisymmetric |
| Event.Harvest | src/event.c:145 | the kernel reports at most one slot per candidate, each with a nonzero event mask, and on a keyed interest list each slot holds the event_info registered for its fd |
| Event.Reported | src/event.c:145 | at most the buffer size of harvested slots, with the same guarantees |
| Event.Reactor.constructor | src/event.c:31-42 | an empty registry and interest list, no refresh pending, a buffer of `nr` slots |
| Event.Reactor.Lookup | src/event.c:44-54 | finds an entry exactly when the fd is registered, and it is the one on the interest list |
| Event.Reactor.KeysUnique | src/event.c:71-78 | two registered event_info objects compare equal exactly when they are the same object |
| Event.Reactor.Register | src/event.c:56-81 | a known fd or a refused epoll_ctl returns -1 and changes nothing; otherwise a new event_info for (fd, handler, data) is added to both the registry and the interest list with mask EPOLLIN, and nothing else changes |
| Event.Reactor.Unregister | src/event.c:83-106 | an unknown fd changes nothing; otherwise the fd leaves the registry and the interest list and the refresh flag is set |
| Event.Reactor.Modify | src/event.c:108-130 | -1 for an unknown fd or a refused epoll_ctl with nothing changed; otherwise only the fd's interest mask changes |
| Event.Reactor.ForceRefresh | src/event.c:134-137 | sets the refresh flag and nothing else |
| Event.Step | src/event.c:56-137 | no reactor call a handler can make (register, unregister, modify, force_refresh) clears the refresh flag |
| Event.ApplyConcat | src/event.c:156 | running two call scripts one after the other is running their concatenation |
| Event.Reactor.Perform | src/event.c:56-137 | a handler's reactor call changes the interest list, up to event_info identity, and the flag exactly as Step says, and leaves the call log alone; while the flag stays clear no registration was removed or replaced |
| Event.Reactor.RunHandler | src/event.c:156 | a handler's calls run in order: the interest list, up to event_info identity, and the flag end as Apply of its script on their old values; the flag is never cleared, and while it is clear no registration was removed or replaced |
| Event.Reactor.Wait | src/event.c:145 | returns the number of slots reported and fills the buffer with exactly them |
| Event.Reactor.DispatchOne | src/event.c:155-156 | calls the handler of a registered event_info with its fd, events and data, and logs that call; the interest list and the flag end as Apply of the handler's script |
| Event.Reactor.DispatchPass | src/event.c:152-160 | dispatches the buffer in order, each with its own event_info, registered at the moment its handler runs; stops right after the first handler that leaves the refresh flag set, and only then early; the interest list and the flag end as the scripts of the dispatched handlers, joined in dispatch order (Effects), applied to the list at the start with the flag clear |
| Event.Reactor.ClearRefresh | src/event.c:144 | the flag is clear and nothing else changes |
| Event.Reactor.Pass | src/event.c:145-160 | a ready wait reports the interest list's events; the handlers called are the first `dispatched` of them, in order; it stops early only with the flag set, and a set flag means something was dispatched; the interest list and the flag end as the dispatched handlers' scripts applied to the list the wait read |
| Event.Reactor.ChainedPass | src/event.c:145-160 | a pass run on the interest list the last logged pass left extends the chain: the new pass's flag and the list it leaves are its handlers' effect, and the handler count grows by what it dispatched |
| Event.Reactor.LoggedPass | src/event.c:145-160 | a pass appended to the log: its interest list, report, count and flag, keeping the log consistent with the waits and the calls, and chained, with the interest list now the one it left |
| Event.Reactor.Round | src/event.c:143-160 | clears the flag and takes one wait: EINTR gives Interrupted and any other failure Exited(1), with nothing changed; a ready wait is one logged pass, and the loop stops there exactly when the flag is clear; the log stays chained to the current interest list |
| Event.ChainedAt | src/event.c:139-163 | in a chained log, pass k ends with the flag its handlers left, and the next pass's wait, or the reactor after the last pass, sees the interest list they left |
| Event.RecordPass | src/event.c:143-160 | appending a pass that matches the next wait keeps the log consistent with the waits |
| Event.StopEnds | src/event.c:146-151 | a loop that stops at a failed wait, or at a pass that left the flag clear, ended as Ended describes |
| Event.ExhaustedEnds | src/event.c:143-159 | a loop whose passes all set the flag ran through all the waits |
| Event.Reactor.EventLoop | src/event.c:139-163 | the calls made are the old calls followed, pass by pass, by the dispatches of the first `counts[k]` events that pass k's wait reported from the interest list; every pass but the last ended with the flag set, having dispatched something; the loop finishes exactly when the last pass left the flag clear, and such a pass dispatched every reported event; EINTR returns and any other wait failure exits with status 1; a failing first wait dispatches nothing; the log is chained (Chain): each pass's flag is the one left by the handler scripts of the events it dispatched, which are the next ones in `handlers`, and each later pass's wait, and the final interest list, see the list those scripts left, up to event_info identity; with no pass the interest list is unchanged |
| Timer.KindOf | src/timer.h:4-8 | maps the codes 0, 1 and 2 to periodic, absolute and one-shot, and any other code to none |
| Timer.MsecToTimeSpec | src/timer.c:89-90 | a normalised timespec (nsec below 10^9, whole milliseconds) whose value is exactly `msec` milliseconds |
| Timer.MsecRoundTrip | src/timer.c:89-90 | converting milliseconds to a timespec and back gives the milliseconds |
| Timer.TimeSpecRoundTrip | src/timer.c:96-97 | every normalised whole-millisecond timespec is the conversion of its milliseconds |
| Timer.ArmSpec | src/timer.c:71-101 | starts from a zeroed itimerspec: the expiry is `msec`; a periodic timer repeats with the same period, absolute and one-shot timers get a zero interval, and an unknown type gives none |
| Timer.ModifySpecAsWritten | src/timer.c:135-153 | as written: the expiry is `msec`, and for non-periodic kinds the interval is whatever the uninitialised stack held |
| Timer.ModifyOneShotMayRepeat | src/timer.c:146-150 | a one-shot timer re-armed as written can get a one-second interval where add_timer would give zero |
| Timer.ModifySpecAgrees | src/timer.c:139-153 | the written and the corrected computation agree for periodic timers and when the stack held a zero interval |
| Timer.SetBits | src/timer.c:171-175 | the given bits end up set and every other bit keeps its value |
| Timer.ClearBits | src/timer.c:177-181 | the given bits end up clear and every other bit keeps its value |
| Timer.SetBitsExact | src/timer.c:174 | those two facts determine the result, and setting twice is setting once |
| Timer.ClearBitsExact | src/timer.c:180 | those two facts determine the result; clearing is idempotent and undoes a set of bits that were clear |
| Timer.Timer.constructor | src/timer.c:40-58 | a zeroed timer (type 0, which is periodic; sfd 0; disarmed) with its name, signal and POSIX timer |
| Timer.Timer.SetTimerEvent | src/timer.c:171-175 | ev_mask becomes SetBits of the old mask; nothing else changes |
| Timer.Timer.ClearTimerEvent | src/timer.c:177-181 | ev_mask becomes ClearBits of the old mask; nothing else changes |
| Timer.Timer.CancelTimer | src/timer.c:116-131 | disarms the timer and returns 0, or returns -1 with the setting unchanged when timer_settime fails |
| Timer.Timer.ModifyTimer | src/timer.c:133-161 | as intended, with a zeroed itimerspec: stores the type even when it is invalid; an unknown type or a failed timer_settime returns -1 with the setting unchanged; otherwise the timer is armed with ArmSpec |
| Timer.AddTimerAsWritten | src/timer.c:60-114 | type, callback and data are always stored and the sfd never is; the calls fail in order (sigprocmask, signalfd, type, timer_settime, register_event); 0 exactly when all succeed, and then the signalfd is registered with timer_handler and the timer as data; on any failure -1, with the registry and interest list unchanged and, short of arming, the old setting kept |
| Timer.AddTimer | src/timer.c:60-114 | as add_timer, and the opened signalfd is kept in the timer: the timer is armed with ArmSpec exactly when sigprocmask, signalfd, the type and timer_settime succeed, and otherwise keeps its setting; 0 exactly when it is armed and its new sfd is registered (not yet registered and epoll_ctl accepts), and then the timer's own sfd is registered with timer_handler and the timer; otherwise -1 with the registry and interest list unchanged |
| Timer.TimerHandler | src/timer.c:16-38 | a failed read does nothing; otherwise the callback runs once with the timer's data, and the fd is unregistered and closed exactly for a one-shot timer |
| Timer.DelTimer | src/timer.c:163-169 | disarms the timer, unregisters and closes the timer's stored sfd |
| Timer.DelAfterAddAsWritten | src/timer.c:163-169 | as written, deleting a freshly added timer closes fd 0 and leaves its signalfd registered with the freed timer as data |
| Timer.DelAfterAdd | src/timer.c:163-169 | with the sfd stored, adding a fresh timer succeeds and registers its signalfd 3 with the timer as data, and deleting it closes fd 3 and removes that registration |
| Queue.RemoveSlice | src/queue.c:80-83 | unlinking `e` leaves the elements before it followed by those after it, in order, one fewer |
| Queue.RemoveDistinct | src/queue.c:80-83 | in a list without repeats, unlinking removes `e` and nothing else and keeps the list without repeats |
| Queue.RemoveHead | src/queue.c:72-83 | unlinking the first entry drops the head |
| Queue.NotifyQueue.QEmpty | src/queue.c:62-65 | true exactly when no element is queued |
| Queue.NotifyQueue.QAdd | src/queue.c:67-70 | appends at the tail, keeps the earlier order, and the queue is no longer empty |
| Queue.NotifyQueue.QFirstEntry | src/queue.c:72-78 | the oldest element, which occurs nowhere else in the queue |
| Queue.NotifyQueue.QDel | src/queue.c:80-83 | removes exactly the given element and keeps the others in order |
| Queue.NotifyQueue.QHandler | src/queue.c:22-31 | reads the eventfd, then calls notify_callback with the queue's data exactly once whenever the read returns (whatever it returned) |
| Queue.QInit | src/queue.c:33-60 | an empty queue holding the limit (as a C int), callback and data; only with a callback is a blocking eventfd opened and registered with q_handler and the queue as data, and failing to open or register it aborts |
| Queue.AddThenDrain | src/queue.c:67-83 | adding e1..en and then repeatedly taking the first entry and deleting it yields e1..en and leaves the queue empty |
| Work.AfterDrainValid | src/work.c:128-135 | draining a pool keeps its count and ordering invariant |
| Work.FinishValid | src/work.c:162-167 | finishing the executing work keeps the pool's invariant |
| Work.Pool.constructor | src/work.c:196-205 | empty pending and finished lists, nothing executing, counter 0 |
| Work.Pool.WorkQueueEmpty | src/work.c:230-235 | the counter is 0 exactly when nothing is pending, executing or finished, that is, when every queued work is done |
| Work.Pool.QueueWork | src/work.c:102-113 | counts the work and appends it to the pending list, keeping the earlier order |
| Work.Pool.WorkerTake | src/work.c:150-160 | takes exactly the head of a non-empty pending list; on an empty list it takes nothing and changes nothing |
| Work.Runtime.WorkerFinish | src/work.c:162-170 | runs `fn` once if it is set, appends the work to the finished list and adds 1 to the completion counter |
| Work.Runtime.DrainPool | src/work.c:124-135 | runs `done` for the pool's finished works in list order, empties the list and lowers the counter by their number |
| Work.Runtime.DrainNext | src/work.c:123-136 | one step of the pool loop: the next pool is drained and the others are untouched |
| Work.Runtime.RequestDone | src/work.c:115-137 | resets the completion counter and drains every pool in list order, so no pool keeps finished work and the `done` calls are the pools' finished lists one after the other |
| Work.Runtime.CreateWorkQueue | src/work.c:196-228 | on success the new, empty pool is put at the head of the pool list; on failure NULL is returned and the list is unchanged; startup_lock is locked and unlocked once, as create_worker_threads does |
| Work.Runtime.LinkPool | src/work.c:216 | a pool not yet listed goes to the head of the pool list, which stays free of repeats with every pool's invariant kept; nothing else changes |
| Work.StartupOps | src/work.c:84-100 | create_worker_threads locks startup_lock and unlocks it on both paths, leaving it free |
| Work.CreateStartupOps | src/work.c:212-221 | as intended, create_work_queue's startup_lock operations are create_worker_threads', so well bracketed |
| Work.CreateFailureUnlocksTwice | src/work.c:212-221 | as written, a failed thread creation unlocks startup_lock a second time while it is free; a successful one is well bracketed |
| Work.WorkerStep | src/work.c:148-171 | as intended, a turn of the worker takes the head of a non-empty list and finishes it, never deadlocks, and loses no work |
| Work.DeadlockedForever | src/work.c:150-153 | as written, once the worker re-locks pending_lock it holds, it stays blocked and no pending work is taken or finished |
| Work.FirstWorkNeverFinishes | src/work.c:148-160 | as written, a new pool's first work, queued while the worker waits, is never finished whatever follows; as intended, it is finished |
| Work.WorkerKeepsOrder | src/work.c:102-171 | as intended, the worker never deadlocks and the finished works followed by the pending ones are the earlier ones followed by the works queued, in order |
| Work.AllDonesInOrder | src/work.c:123-136 | draining pool by pool runs `done` for the concatenation of the finished lists |
| Work.DoneInSubmissionOrder | src/work.c:109 | with one worker per pool, the works already done are always a prefix of the works queued, so `done` runs in submission order |

## Left out

- Threads, locks and condition variables: the mutex, cond and rwlock wrappers other than `bs_init_mutex` (src/util.h:83-234, which retry `ret == EAGAIN` and panic on other errors), `pthread_create`, the worker's own lock and unlock of startup_lock (src/work.c:144-146), and the registry rwlock. Each pool is a sequence of atomic steps, one per lock section of the source, so interleavings are modelled but parallelism is not. Only the startup_lock operations of create_work_queue are modelled, as a sequence of lock operations.
- Work.Pool.WorkerTake: models the intended step, where an empty pending list takes nothing and the list is checked again later. The self-deadlock of the loop as written (src/work.c:150-153) is modelled by Work.WorkerStepAsWritten and listed under Findings. Spurious wake-ups from `bs_cond_wait` are not modelled.
- Queue.QInit: as written, `q_init` never returns, because `bs_init_mutex` (src/util.h:71-81, called at src/queue.c:41) loops for ever (see Findings). The model follows the intended `bs_init_mutex` (Locks.InitMutex) and takes its first `pthread_mutex_init` to succeed; its retry and panic paths are modelled by Locks.InitMutex alone.
- Work.Runtime.CreateWorkQueue: as written, `create_work_queue` never returns either, for the same reason (src/work.c:209-210). The model takes both mutex inits to succeed, as for Queue.QInit. `bs_init_cond` and the destroy calls and `free` of the failure path are not modelled.
- Kernel objects are abstract. The epoll interest list is a map, an eventfd a counter and a POSIX timer its armed `itimerspec`. `epoll_create`, `signalfd`, `sigprocmask`, `timer_create`, `timer_settime` and `register_event` failures are oracle flags or scripted results. The signal mask that `add_timer` blocks, and `close`, have no state here.
- `init_event` failing in `epoll_create` (src/event.c:36-39): Event.Reactor.constructor models the success path only.
- `create_timer` panicking when `timer_create` fails (src/timer.c:51-55): Timer.Timer.constructor models the success path only.
- `init_work_queue` (src/work.c:176-194) opens the completion eventfd and registers it: kernel plumbing, not part of this model; Work.Runtime holds the counter directly.
- `get_msec_time`, `WQ_PROTECTION_PERIOD` and the empty `wq_destroy` (src/work.c:71-82): time and unimplemented code.
- `q_notify`, `q_notify_on` and `q_notify_off` (src/queue.c:85-98) are thin calls to `eventfd_xwrite` and `modify_event`, both modelled, and are not modelled themselves. The `int` functions `q_notify_on`/`q_notify_off` return no value.
- Socket plumbing in src/net.c (listening and connecting sockets, socket options, `get_local_addr`, `inetaddr_is_valid`, `do_writev2`) and the text that `inet_ntop` renders or `inet_pton` parses. Net.AddrToStr models the family choice, the bytes rendered and the port suffix; Net.StrToAddr takes the parsed bytes as a parameter.
- Net.AddrFamily and Net.AddrToStr: the source detects the all-zero-prefix embedding of an IPv4 address (section 2.5.5.1 of RFC 4291, "IPv4-compatible"), not the `::ffff:` mapped form of section 2.5.5.2. The model follows the code.
- Net.DoRead and Net.DoWrite: `remain`, `len` and the 32-bit `int` arithmetic are unbounded here, and `max_count` is required to fit an `int`.
- Net.DoRead: the buffer pointer arithmetic is not modelled; the successive chunk sizes stand for it.
- Net.DoWrite: `sendmsg` is assumed to take bytes from the front of the message's stream. `sent` records their addresses.
- Event.Harvest: the kernel is assumed to report each fd at most once per wait; the candidate list is taken as given.
- Event.Reactor.Unregister: a failing `epoll_ctl(DEL)` only prints a message in the source; the model treats the fd as removed in both places, as the source then does in its registry.
- Event.Reactor.EventLoop: the wait timeout is not modelled (a wait that times out is an empty WaitReady).
- Timer.AddTimerAsWritten: `TIMER_ABSOLUTE` arms the timer with flags 0, that is, relative to now, exactly like `TIMER_ONESHOT`. The model follows the code and does not model absolute clock time.
- Timer.AddTimerAsWritten: the signalfd opened before an unknown type or a failing `timer_settime` is leaked in the source; the model has no fd table.
- Timer.TimerHandler: the contents of the `signalfd_siginfo` record are not modelled, only whether the read failed.
- Timer.DelTimer: `timer_delete` and `free` are not modelled beyond disarming the timer.
- Util.Allocator.XMalloc and Util.Allocator.XCalloc: the block's contents (calloc's zeroing) are not modelled.
- Queue.NotifyQueue.QHandler: a read of the blocking eventfd at count zero blocks (Pending). Whether the reactor can call the handler then is left to the reactor model.
- Queue.QInit: the `count` field is zeroed by `xcalloc` and never used; it is not modelled.
- Work.Runtime.RequestDone: the eventfd read is modelled as a reset of the counter; its EINTR and EAGAIN retries are modelled by Util.EventfdXRead and not repeated here.
- Work.Runtime.RequestDone: a NULL `done` pointer would crash the source, and it is not checked here.
- Callbacks (`fn`, `done`, timer callbacks, `notify_callback`, reactor handlers) are logged invocations. Except for reactor handlers, whose reactor calls are scripted, they do not act on the model's state.
- `nr_queued_work` is updated atomically outside the locks in the source; here each update belongs to its step.

## Findings

| source | as written | input that shows it | evidently intended | confidence | as-written member | corrected member |
|---|---|---|---|---|---|---|
| src/timer.c:81 | `add_timer` opens the signalfd into a local and never stores it in `t->sfd`; `del_timer` (src/timer.c:166-167) unregisters and closes `t->sfd`, which is still 0 from `xcalloc` | create a timer, add it with signalfd 3, then delete it: fd 0 is closed and fd 3 stays registered with the freed timer as data | store the signalfd in `t->sfd`, so that `del_timer` removes the timer's own registration | not executed | Timer.AddTimerAsWritten, Timer.DelAfterAddAsWritten | Timer.AddTimer, Timer.DelAfterAdd |
| src/util.h:77 | the loop test of `bs_init_mutex` is `ret = EAGAIN`, an assignment whose value is nonzero, so the loop calls `pthread_mutex_init` again whatever it returned and never ends; `q_init` (src/queue.c:41) and `create_work_queue` (src/work.c:209-210) never return | `pthread_mutex_init` returns 0 on its first call | `ret == EAGAIN`, as in the other wrappers (src/util.h:89): retry on EAGAIN, return on 0, panic otherwise | not executed | Locks.InitMutexAsWritten | Locks.InitMutex |
| src/work.c:221 | when `pthread_create` fails, `create_worker_threads` has already unlocked startup_lock (src/work.c:93), and `destroy_threads` unlocks it again, a mutex the thread no longer holds | `pthread_create` fails | no unlock in `destroy_threads` | not executed | Work.CreateStartupOpsAsWritten, Work.CreateFailureUnlocksTwice | Work.CreateStartupOps, Work.Runtime.CreateWorkQueue |
| src/work.c:150-153 | `bs_cond_wait` returns with pending_lock held, and `continue` goes back to `bs_mutex_lock` on that same lock: the worker blocks for ever holding it, and `queue_work` then blocks on it too | a new pool whose worker finds the list empty and waits; then one `queue_work`: that work is never run | wait in a loop on the list check while holding the lock, then take the head | not executed | Work.WorkerStepAsWritten, Work.DeadlockedForever, Work.FirstWorkNeverFinishes | Work.WorkerStep, Work.WorkerKeepsOrder |
| src/timer.c:135 | `modify_timer` never initialises `it`; for one-shot and absolute timers the interval is whatever the stack held | re-arm a one-shot timer for 500 ms when the stack holds a one-second interval: it fires again every second | a zeroed `itimerspec`, as in `add_timer` (src/timer.c:71), so non-periodic timers fire once | not executed | Timer.ModifySpecAsWritten, Timer.ModifyOneShotMayRepeat | Timer.ArmSpec, Timer.Timer.ModifyTimer |
