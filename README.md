# DTU synchronisation layer, modelled in Dafny

The DTU firmware forwards bytes between a serial port and a TCP socket. Its
threads coordinate through a small synchronisation layer built by hand from
a raw platform lock, a one-shot timer and a raw thread spawn
(`code/threading.py`):

- `Lock` — a mutex that records the identity of the thread holding it;
- `Waiter` — a single-use gate, locked at construction, opened once either
  by an explicit `release` (a notify) or by its timer's callback;
- `Condition` — a condition variable: a FIFO list of waiters guarded by a
  `Lock`, with `wait`, `wait_for`, `notify` and `notify_all`;
- `Thread` — start, stop and liveness of a platform thread, with the
  target's exceptions swallowed.

Two consumers are modelled with it: the serial port (`code/serial.py`),
whose `read` turns the UART's "data arrived" callback into a guarded
check-and-drain with a timeout, and the status LED (`code/led.py`), whose
`blink` never starts a burst while the previous one runs.

## How the model is built

- `outcomes.dfy` (module `Outcomes`): `Option`, `Outcome` (returns nothing
  or raises), `Result` (returns a value or raises) and the exception kinds.
- `threading.dfy` (module `Threading`): `Lock`, `Waiter`, `Condition`,
  `Thread` as classes whose methods update their fields, plus
  `ThreadTable`, the platform's table of live threads.
- `serial.dfy` (module `Serial`): the UART driver reduced to a receive and
  a transmit byte queue, and the `Serial` class.
- `led.dfy` (module `Led`): the `Led` class; the pin is the sequence of
  values written to it.

Threads do not run concurrently in the model. The calling thread is an
explicit `caller` identity (what `_thread.get_ident()` returns). A call that
would block has, as its precondition, the state in which it returns: the
lock is free for `Lock.Acquire`, the gate is open for the second half of a
waiter's `acquire`. `Waiter.acquire` is split into `BeginAcquire` and
`FinishAcquire`, and `Condition.wait` into `BeginWait` (append a waiter,
release the lock), `StartWait` (the waiter's acquire up to its block) and
`EndWait` (the rest, after the gate opened) or `AbandonWait` (the `finally`
when the acquire raised), so other threads' calls (a notify, the timer
callback `FireTimer`) can be placed between the parts. The races between a
notify, the timer and the start of the acquire are then calls in some
order, and the state of the gate decides the outcome.

`wait_for` and `Serial.read` are run over observations supplied as inputs:
the value the predicate returns in each round, the clock reading `wait_for`
takes, whether a notify reaches that round's waiter before its acquire, and
for `read` the bytes that reach the UART during each wait. When
the observations run out while the loop would wait again, the result is
"still parked". Time is an integer clock.

The condition's invariant (`Condition.Valid`) says that the queue holds no
waiter twice, that waiters have distinct gates, none of them the
condition's own lock, and that a queued waiter has not been released by a
notify: its gate is still locked, or its own timer opened it and `gotit` is
false. From this, `EndWait` and `AbandonWait` prove that a wait never leaves
its waiter in the queue, whichever of the notify, the timer and the start
of the acquire came first.

Three behaviours of the code that a reader may not expect; the model
follows the code:

- a `Thread` keeps its `ident` after its platform thread ends by itself;
  only `stop` clears it, and `is_running` asks the platform;
- `wait_for` hands its first `wait` the raw timeout, and a waiter treats a
  timeout of zero or less as "block until notified", so `wait_for` with a
  non-positive timeout and a false predicate blocks until a notify instead
  of returning at once;
- `Lock.release` does not check who releases; only the condition's methods
  check ownership.

## Model

| member | source | states |
|---|---|---|
| `Threading.Remove` | code/threading.py:130-134 | removal that tolerates absence: the list without `x` is unchanged, otherwise exactly one occurrence of `x` goes (multiset difference) and nothing else is added |
| `Threading.RemoveFirst` | code/threading.py:130-134 | the removal drops the first occurrence of the waiter and keeps every other waiter in its order |
| `Threading.RemoveDistinct` | code/threading.py:130-134 | removing from a duplicate-free waiter list leaves no copy of the waiter and keeps the list duplicate-free |
| `Threading.Lock.constructor` | code/threading.py:23-25 | a new lock is unlocked and has no owner |
| `Threading.Lock.Acquire` | code/threading.py:33-36 | once the raw lock is free, the caller holds it and is recorded as owner; the flag returned is true |
| `Threading.Lock.Release` | code/threading.py:38-40 | the owner is cleared on both paths; releasing an unlocked lock raises RuntimeError, otherwise the lock ends unlocked |
| `Threading.Lock.Locked` | code/threading.py:42-43 | reports the raw lock; an unlocked lock has no recorded owner |
| `Threading.Lock.Owner` | code/threading.py:45-47 | an owner is reported only while the lock is locked |
| `Threading.Waiter.constructor` | code/threading.py:53-56 | a new waiter's gate is locked by its creator, `gotit` is true and no timer runs |
| `Threading.Waiter.BeginAcquire` | code/threading.py:72-78 | RuntimeError, with nothing changed, exactly when the gate is already open; otherwise `gotit` is true and the timer is armed only for a positive timeout |
| `Threading.Waiter.FinishAcquire` | code/threading.py:79-83 | after the gate was opened, the acquire returns `gotit`, stops the timer and leaves the gate unlocked, so the waiter cannot be acquired again |
| `Threading.Waiter.Release` | code/threading.py:85-93 | returns true exactly when it unlocked a locked gate; an open gate gives false without an exception |
| `Threading.Waiter.AutoRelease` | code/threading.py:66-70 | the timer callback sets `gotit` to false exactly when it was the one that unlocked the gate; the one-shot timer is spent |
| `Threading.ReleaseTimerRace` | code/threading.py:66-93 | notify and timer on one waiter, in either order: exactly the first one unlocks, the acquire returns true exactly when the notify came first, and a second acquire raises RuntimeError |
| `Threading.Condition.constructor` | code/threading.py:98-104 | a new condition has its own unlocked lock and an empty queue |
| `Threading.Condition.IsOwned` | code/threading.py:112-113 | the caller owns the condition exactly when the lock's recorded owner is the caller (an owner is recorded only while the lock is locked) |
| `Threading.Condition.Acquire` | code/threading.py:103 | the condition's acquire is its lock's: the caller then owns it |
| `Threading.Condition.Release` | code/threading.py:104 | the condition's release is its lock's |
| `Threading.Condition.BeginWait` | code/threading.py:115-120 | without ownership RuntimeError and no change; otherwise exactly one fresh waiter, its gate locked and no timer armed, joins the tail and the lock is released |
| `Threading.Condition.StartWait` | code/threading.py:72-78 | the waiter's acquire inside `wait` raises RuntimeError, changing nothing, exactly when a notify already opened its gate; otherwise its timer is armed only for a positive timeout (none means block until notified) |
| `Threading.Condition.AbandonWait` | code/threading.py:128-134 | when the acquire raised, the lock is re-acquired for the caller and the waiter is removed if still queued, absence tolerated; it is never left queued |
| `Threading.Condition.StartWaitFixed` | code/threading.py:72-78 | corrected acquire: a gate a notify opened before the acquire began is not treated as reuse; nothing changes and `gotit` stays true |
| `Threading.Condition.EndWait` | code/threading.py:122-134 | the wait returns the waiter's `gotit`, re-acquires the lock for the caller, removes its waiter when not satisfied, and never leaves it queued |
| `Threading.Condition.FireTimer` | code/threading.py:77-78 | the timer of a waiter of this condition fires: `gotit` is false exactly when the gate was still locked, and the condition's invariant holds |
| `Threading.Condition.WaitFor` | code/threading.py:136-150 | a true predicate returns true with no wait; otherwise the result is the last predicate value; without a timeout only a true predicate ends it; with one, the first wait gets the raw timeout, later waits the positive time left before the deadline fixed in the first round, and a false result means that time reached zero; a wait raises RuntimeError, ending it, exactly when the caller does not own the lock (first wait) or a notify reached that wait's waiter before its acquire |
| `Threading.Condition.Notify` | code/threading.py:152-163 | RuntimeError without ownership, checked before ValueError for `n < 0`, both with no change; otherwise the first `min(n, len)` waiters are released and dropped, the rest stay queued in order and untouched |
| `Threading.Condition.NotifyAll` | code/threading.py:165-168 | RuntimeError without ownership; otherwise every queued waiter is released and the queue is empty |
| `Threading.WaitRace` | code/threading.py:115-134 | a timed wait and a notify from another thread in each of three orders: a notify before the waiter's acquire makes the wait raise RuntimeError; after it, the wait returns true exactly when the notify beat the timer; in every order the waiting thread re-owns the lock and the queue is empty |
| `Threading.WaitRaceFixed` | code/threading.py:115-134 | with the corrected acquire, a notify before the waiter's acquire makes the wait return true; it returns false only when the timer came first; the lock is re-owned and the queue empty |
| `Threading.Thread.constructor` | code/threading.py:173-177 | a new thread object carries its arguments and has no identity |
| `Threading.Thread.IsRunning` | code/threading.py:182-186 | never running without an identity |
| `Threading.Thread.Start` | code/threading.py:188-190 | no change while running; otherwise a new platform thread is spawned and its identity, one not live before, is recorded; afterwards the thread runs |
| `Threading.Thread.Stop` | code/threading.py:192-195 | no change unless running; otherwise the platform thread is killed and the identity cleared; afterwards the thread does not run |
| `Threading.Thread.Run` | code/threading.py:197-201 | anything derived from Exception that the target raises is swallowed; only BaseException-only kinds escape |
| `Serial.Serial.constructor` | code/serial.py:24-34 | a new port is closed and has a read condition and a separate, free write lock |
| `Serial.Serial.CurrentUart` | code/serial.py:43-47 | the driver while the port is open, TypeError otherwise |
| `Serial.Serial.Open` | code/serial.py:49-64 | opening installs a new driver with empty queues |
| `Serial.Serial.Close` | code/serial.py:66-69 | the driver is closed and the port forgets it; closing a port that is not open raises AttributeError |
| `Serial.Serial.UartCallback` | code/serial.py:71-74 | the receive callback releases every queued reader and leaves the read condition unlocked with no queued waiter |
| `Serial.Serial.Write` | code/serial.py:76-79 | under the write lock, released on every path, the data goes to the driver and its result is returned; TypeError when not open; the read condition is untouched |
| `Serial.WaitsSeen` | code/serial.py:90 | for the rounds `read`'s predicate goes through, every wait that happened saw no byte queued, no notify reached a wait before its acquire except possibly the one that raised, and with a timeout every later wait had positive time left |
| `Serial.Serial.WaitForBytes` | code/serial.py:90 | `wait_for` under "bytes are queued": true exactly when the queue it last saw is not empty; false only with a timeout whose deadline passed; RuntimeError only from a wait a notify reached before its acquire; still parked only after every round, and the parked wait's timer is armed exactly when its timeout is a positive number |
| `Serial.Serial.Park` | code/threading.py:115-126 | a reader that stays parked has one fresh waiter, its gate locked and acquire begun, at the tail of the queue, and the read condition is free; the timer is armed only for a positive timeout |
| `Serial.Serial.Read` | code/serial.py:81-93 | TypeError exactly when not open; it waits only while no byte is queued; bytes are returned only when some were queued, and they are the first `min(size, any())` of the queue as the drain sees it (what the predicate saw plus the bytes that landed before the drain), the rest staying queued; Serial.TimeoutError only with a timeout, no byte queued and the deadline passed; a read still parked has not reached its deadline and has its waiter at the tail of the queue with the read condition free; RuntimeError exactly when the receive callback's notify reached a wait's waiter before its acquire; on every other path the read condition is let go and its queue is as before |
| `Led.CyclesShape` | code/led.py:44-50 | a burst of `count` cycles writes `max(count, 0)` alternations of 1 then 0, switches the pin on `max(count, 0)` times and ends at 0 |
| `Led.Led.constructor` | code/led.py:22-29 | a new LED's pin is at 0 and there is no blink thread |
| `Led.Led.On` | code/led.py:31-32 | writes 1 to the pin |
| `Led.Led.Off` | code/led.py:34-35 | writes 0 to the pin |
| `Led.Led.Blink` | code/led.py:37-42 | no change while the previous blink thread runs; otherwise a fresh thread carrying `(on, off, count)` replaces it and is running |
| `Led.Led.BlinkWorker` | code/led.py:44-50 | the worker appends exactly the writes of `count` cycles to the pin |

## Findings

| source | as written | input that shows it | evidently intended | confidence | as-written member | corrected member |
|---|---|---|---|---|---|---|
| code/threading.py:74-75 | `wait` releases the lock (line 120) before its waiter's `acquire` runs the single-use check, which raises RuntimeError on an open gate; a notify in between pops the waiter and opens its gate | `Serial.read` with no byte queued: a byte arrives and the UART callback's `notify_all` (code/serial.py:73-74) runs after the release and before `waiter.acquire`; `read` raises RuntimeError instead of returning the byte | a waiter released before its acquire began was notified: the wait returns true | high; not executed | `Threading.WaitRace` (order `NotifyBeforeAcquire`) | `Threading.WaitRaceFixed` with `Threading.Condition.StartWaitFixed` |

`Condition.WaitFor` and `Serial.Serial.Read` keep the behaviour as written
(a round with `notifiedEarly` raises RuntimeError), since they state what
the firmware does; the corrected acquire is proved separately.

## Left out

- Real blocking, scheduling and the platform's raw lock, timer and thread
  primitives: blocking is a precondition or a split into two halves, the
  timer firing is `FireTimer`/`AutoRelease`, a thread ending by itself is
  `ThreadTable.ThreadEnds`.
- Waiter.FinishAcquire: runs as one step, so a timer that fires after the
  waiting thread re-took the gate and before it stopped the timer is not
  modelled (in the code that interleaving makes a notified wait report
  false).
- Waiter.unlock_timer (code/threading.py:58-64): the lazily created timer
  object and the conversion of seconds to milliseconds are reduced to the
  `timerArmed` flag.
- Condition.constructor: a condition always creates its own lock; passing
  an existing lock is not modelled (the serial port does not do it).
- Condition.WaitFor: other threads enter only as each round's
  `notifiedEarly` observation; the rest of what they do to the condition
  while the caller is parked is not replayed. The method states the
  caller's own rounds only and leaves the condition as it found it: a
  finished wait removes its own waiter and re-acquires the lock, but a
  result `Parked` (the caller still blocked in its last wait, where the
  code has that wait's waiter at the tail of the queue and the lock free)
  records only the observations; `Serial.Serial.Park` builds that parked
  state for `read`.
- Serial.Serial.Read: bytes that arrive while the reader is parked are an
  input, one chunk per wait, and so is whether the receive callback's
  notify reached a wait before its acquire; the callback's other
  notifications are not replayed on the condition. Bytes that land between
  the predicate's `any()` and the drain's `any()` are the input `late`;
  bytes that land during the drain itself are not modelled.
- ThreadTable: identities come from a counter, so this table never reuses
  one; the `Thread` contracts promise only an identity that was not live,
  which is all the platform's `_thread` is relied on for.
- Serial.Uart: the UART driver is two byte queues; its behaviour for a
  read of zero or fewer bytes (nothing is returned) is an assumption.
- The UART and RS485 configuration in `Serial.open`, the `Pin` hardware,
  `utime.sleep_ms` delays, fractional seconds of `utime.time()`: hardware
  and timing details with no effect on the bookkeeping modelled.
- Thread keyword arguments, `Thread.get_current_thread_ident` (the
  `caller` parameter stands for it), the abrupt kill in `stop` beyond
  removing the thread from the table, and calling the target (`Run` takes
  what the target raised).
- Logging, exception printing and the `__repr__`/`__str__` methods.
- `code/dtu.py` (configuration file, network readiness loop and the two
  forwarding loops) and `code/socket.py` (a thin wrapper over the socket
  driver) are not part of this model.
