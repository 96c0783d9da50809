/** The hand-built synchronisation layer of the DTU firmware: a lock that
    records its owner, a single-use gate released by a notify or by a
    one-shot timer, a condition variable keeping a FIFO queue of such gates,
    and a thread wrapper.

    Threads are not run concurrently here. The thread that performs an
    operation is an explicit `caller` identity; an operation that would
    block has the state that lets it return as a precondition, or is split
    into the half before the block and the half after it. Timer expiry and
    thread termination are methods that the environment calls. */
module Threading {
  import opened Outcomes

  function Min(a: int, b: int): int { if a <= b then a else b }

  /** No element occurs twice. */
  ghost predicate Distinct<T>(s: seq<T>)
  {
    forall i, j :: 0 <= i < j < |s| ==> s[i] != s[j]
  }

  /** Python's `list.remove(x)` wrapped in `try ... except ValueError: pass`:
      the first occurrence of `x` is dropped, and a list without `x` is left
      as it is instead of raising. */
  function Remove<T(==)>(s: seq<T>, x: T): (r: seq<T>)
    ensures x !in s ==> r == s
    ensures multiset(r) == multiset(s) - multiset{x}
    ensures |r| == if x in s then |s| - 1 else |s|
    ensures forall y :: y in r ==> y in s
  {
    if s == [] then []
    else
      assert s == [s[0]] + s[1..];
      if s[0] == x then s[1..] else [s[0]] + Remove(s[1..], x)
  }

  /** The tail of a list without duplicates has none, and lacks the head. */
  lemma DistinctTail<T>(s: seq<T>)
    requires Distinct(s) && s != []
    ensures Distinct(s[1..]) && s[0] !in s[1..]
  {
    forall i, j | 0 <= i < j < |s| - 1 ensures s[1..][i] != s[1..][j] {
      assert s[1..][i] == s[i + 1] && s[1..][j] == s[j + 1];
    }
    forall j | 0 <= j < |s| - 1 ensures s[1..][j] != s[0] {
      assert s[1..][j] == s[j + 1];
    }
  }

  /** Putting a new element in front keeps a list free of duplicates. */
  lemma DistinctCons<T>(x: T, t: seq<T>)
    requires Distinct(t) && x !in t
    ensures Distinct([x] + t)
  {
    var s := [x] + t;
    forall i, j | 0 <= i < j < |s| ensures s[i] != s[j] {
      assert s[j] == t[j - 1];
      if i > 0 {
        assert s[i] == t[i - 1];
      }
    }
  }

  /** Removing from a list without duplicates removes the element
      completely and keeps the list free of duplicates. */
  lemma {:induction false} RemoveDistinct<T>(s: seq<T>, x: T)
    requires Distinct(s)
    ensures Distinct(Remove(s, x))
    ensures x !in Remove(s, x)
  {
    if s != [] {
      DistinctTail(s);
      if s[0] != x {
        RemoveDistinct(s[1..], x);
        DistinctCons(s[0], Remove(s[1..], x));
      }
    }
  }

  /** Past a head that differs from `x`, `Remove` keeps the head. */
  lemma RemoveCons<T>(s: seq<T>, x: T)
    requires s != [] && s[0] != x
    ensures Remove(s, x) == [s[0]] + Remove(s[1..], x)
  {
  }

  /** The slices around index `k` of a list, seen from its tail. */
  lemma SplitAround<T>(s: seq<T>, k: nat)
    requires 0 < k < |s|
    ensures s[..k] == [s[0]] + s[1..][..k - 1]
    ensures s[1..][k..] == s[k + 1..]
  {
  }

  /** `Remove` drops the first occurrence and keeps the order of the rest:
      when `k` is the first index holding `x`, the result is the list
      without index `k`. */
  lemma {:induction false} RemoveFirst<T>(s: seq<T>, x: T, k: nat)
    requires k < |s| && s[k] == x && x !in s[..k]
    ensures Remove(s, x) == s[..k] + s[k + 1..]
  {
    if k > 0 {
      SplitAround(s, k);
      RemoveCons(s, x);
      RemoveFirst(s[1..], x, k - 1);
    }
  }

  /** Removing the head of a list removes exactly the first element. */
  lemma RemoveHead<T>(s: seq<T>)
    requires s != []
    ensures Remove(s, s[0]) == s[1..]
  {
  }

  // ---------------------------------------------------------------------
  // Lock

  /** A mutex that records the identity of the thread that acquired it.
      `held` is the state of the platform's raw lock. */
  class Lock {
    var held: bool
    var owner: Option<int>

    /** An owner is recorded only while the raw lock is held. */
    ghost predicate Valid()
      reads this
    {
      owner.Some? ==> held
    }

    constructor ()
      ensures Valid() && !held && owner == None
    {
      held := false;
      owner := None;
    }

    /** Takes the raw lock (the caller blocks until it is free), then records
        the caller as owner. Returns the raw lock's flag, which is true. */
    method Acquire(caller: int) returns (flag: bool)
      requires !held
      modifies this
      ensures Valid() && held && owner == Some(caller) && flag
    {
      held := true;
      flag := true;
      owner := Some(caller);
    }

    /** Clears the owner first and then releases the raw lock, which raises
        RuntimeError when the lock was not held; the owner is cleared on
        both paths. The raw lock does not check who releases it. */
    method Release() returns (r: Outcome)
      modifies this
      ensures Valid() && !held && owner == None
      ensures r == if old(held) then Pass else Fail(RuntimeError)
    {
      owner := None;
      if held {
        held := false;
        r := Pass;
      } else {
        r := Fail(RuntimeError);
      }
    }

    /** `locked()`: the state of the raw lock. An unlocked lock has no
        recorded owner. */
    function Locked(): (locked: bool)
      reads this
      ensures Valid() && !locked ==> owner == None
    {
      held
    }

    /** The recorded owner; there is one only while the lock is locked. */
    function Owner(): (r: Option<int>)
      reads this
      requires Valid()
      ensures r.Some? ==> Locked()
    {
      owner
    }
  }

  // ---------------------------------------------------------------------
  // Waiter

  /** A single-use gate. The gate is a Lock that the constructor locks; one
      `acquire` blocks until somebody else unlocks it, either an explicit
      `release` (from a notify) or the callback of a one-shot timer armed by
      an `acquire` with a positive timeout. `gotit` ends up false exactly
      when the timer was the one that unlocked the gate. */
  class Waiter {
    const gate: Lock
    var gotit: bool
    /** The one-shot timer has been started and has neither fired nor been
        stopped. */
    var timerArmed: bool

    constructor (caller: int)
      ensures fresh(gate) && gate.held && gate.owner == Some(caller)
      ensures gotit && !timerArmed
    {
      gate := new Lock();
      gotit := true;
      timerArmed := false;
      new;
      var flag := gate.Acquire(caller);
    }

    /** The part of `acquire` before it blocks. A gate that is already open
        means the waiter was used before: RuntimeError, and nothing changes.
        Otherwise `gotit` is reset and the timer is armed when the timeout is
        positive; a timeout of zero or less arms nothing, so the block that
        follows is unbounded. */
    method BeginAcquire(timeout: int) returns (r: Outcome)
      modifies this
      ensures r == if old(gate.held) then Pass else Fail(RuntimeError)
      ensures r.Pass? ==> gotit
      ensures r.Pass? ==> timerArmed == (timeout > 0 || old(timerArmed))
      ensures r.Fail? ==> gotit == old(gotit) && timerArmed == old(timerArmed)
    {
      if !gate.Locked() {
        return Fail(RuntimeError);
      }
      gotit := true;
      if timeout > 0 {
        timerArmed := true;
      }
      r := Pass;
    }

    /** The part of `acquire` after the gate was opened: the caller takes the
        gate, stops the timer and unlocks the gate again, so the waiter can
        never be acquired a second time. Returns `gotit`. */
    method FinishAcquire(caller: int) returns (got: bool)
      requires !gate.held
      modifies this, gate
      ensures got == gotit == old(gotit)
      ensures !timerArmed
      ensures gate.Valid() && !gate.held && gate.owner == None
    {
      var flag := gate.Acquire(caller);
      timerArmed := false;
      var unlocked := Release();
      got := gotit;
    }

    /** Unlocks the gate; true exactly when this call unlocked a locked gate,
        false (and no exception) when it was already open. */
    method Release() returns (unlocked: bool)
      modifies gate
      ensures unlocked == old(gate.held)
      ensures gate.Valid() && !gate.held && gate.owner == None
    {
      var r := gate.Release();
      unlocked := r.Pass?;
    }

    /** The timer callback. Only an armed timer fires, and a one-shot timer
        fires once. `gotit` becomes false when the callback unlocked the
        gate, and true when a release had already opened it. */
    method AutoRelease()
      requires timerArmed
      modifies this, gate
      ensures gotit == !old(gate.held)
      ensures !timerArmed
      ensures gate.Valid() && !gate.held && gate.owner == None
    {
      timerArmed := false;
      var unlocked := Release();
      if unlocked {
        gotit := false;
      } else {
        gotit := true;
      }
    }
  }

  /** A notify and a timer expiry racing on one waiter, in either order:
      exactly one of them unlocks the gate, the acquire reports a notify
      exactly when the notify came first, and a second acquire on the same
      waiter fails. */
  method ReleaseTimerRace(caller: int, timeout: int, notifyFirst: bool)
    returns (released: bool, gotit: bool, again: Outcome)
    requires timeout > 0
    ensures released == notifyFirst
    ensures gotit == notifyFirst
    ensures again == Fail(RuntimeError)
  {
    var w := new Waiter(caller);
    var first := w.BeginAcquire(timeout);
    if notifyFirst {
      released := w.Release();
      w.AutoRelease();
    } else {
      w.AutoRelease();
      released := w.Release();
    }
    gotit := w.FinishAcquire(caller);
    again := w.BeginAcquire(timeout);
  }

  // ---------------------------------------------------------------------
  // Condition

  /** One round of `wait_for`: the value the predicate returned, the clock
      reading taken next if the predicate was false, and whether another
      thread's notify reached the waiter of the `wait` that follows between
      the moment that `wait` released the lock and its waiter's acquire. */
  datatype Round = Round(holds: bool, now: int, notifiedEarly: bool)

  /** How `wait_for` ended, with the timeouts of the `wait`s it began: it
      returned a value; the last `wait` raised; or the observations ran out
      while it was still parked in its last `wait`. */
  datatype WaitForResult =
    | Returned(value: bool, waits: seq<Option<int>>)
    | Raised(error: Error, waits: seq<Option<int>>)
    | Parked(waits: seq<Option<int>>)

  /** The time left in round `j` before the deadline fixed in round 0. */
  function Remaining(rounds: seq<Round>, timeout: int, j: nat): int
    requires j < |rounds|
  {
    rounds[0].now + timeout - rounds[j].now
  }

  /** A condition variable over its own Lock, with a FIFO queue of waiters. */
  class Condition {
    const lock: Lock
    var waiters: seq<Waiter>
    /** Every waiter this condition ever created. */
    ghost var issued: set<Waiter>

    ghost function Gates(): set<Lock>
      reads this
    {
      set w | w in issued :: w.gate
    }

    /** A queued waiter has not been released by a notify: its gate is still
        locked, or its own timer opened it, which makes `gotit` false and
        spends the timer. */
    static ghost predicate NotNotified(w: Waiter)
      reads w, w.gate
    {
      w.gate.held || (!w.gotit && !w.timerArmed)
    }

    ghost predicate Valid()
      reads this, lock, issued, Gates()
    {
      && lock.Valid()
      && Distinct(waiters)
      && (forall i :: 0 <= i < |waiters| ==> waiters[i] in issued)
      && (forall w :: w in issued ==> w.gate != lock)
      && (forall u, v :: u in issued && v in issued && u != v ==> u.gate != v.gate)
      && (forall i :: 0 <= i < |waiters| ==> NotNotified(waiters[i]))
    }

    constructor ()
      ensures Valid() && fresh(lock)
      ensures !lock.held && waiters == [] && issued == {}
    {
      lock := new Lock();
      waiters := [];
      issued := {};
    }

    /** `__is_owned`: the lock is locked and its recorded owner is the
        calling thread. Since an owner is recorded only while the lock is
        locked, the recorded owner alone decides. */
    function IsOwned(caller: int): (owned: bool)
      reads this, lock
      ensures lock.Valid() ==> (owned <==> lock.Owner() == Some(caller))
    {
      lock.Locked() && lock.owner == Some(caller)
    }

    /** The condition's `acquire` is its lock's `acquire`. */
    method Acquire(caller: int) returns (flag: bool)
      requires Valid() && !lock.held
      modifies lock
      ensures Valid() && IsOwned(caller) && flag
    {
      flag := lock.Acquire(caller);
    }

    /** The condition's `release` is its lock's `release`. */
    method Release() returns (r: Outcome)
      requires Valid()
      modifies lock
      ensures Valid() && !lock.held && lock.owner == None
      ensures r == if old(lock.held) then Pass else Fail(RuntimeError)
    {
      r := lock.Release();
    }

    /** The first part of `wait`. Without ownership: RuntimeError and no
        change. Otherwise a new waiter, its gate locked, joins the tail of
        the queue and the lock is released. Other threads can take the lock
        before the waiter's acquire starts (`StartWait`). */
    method BeginWait(caller: int) returns (r: Result<Waiter>)
      requires Valid()
      modifies this, lock
      ensures Valid()
      ensures r.Failure? <==> !old(IsOwned(caller))
      ensures r.Failure? ==> r.error == RuntimeError && waiters == old(waiters)
      ensures r.Failure? ==> issued == old(issued) && unchanged(lock)
      ensures r.Success? ==> fresh(r.value) && fresh(r.value.gate)
      ensures r.Success? ==> waiters == old(waiters) + [r.value] && issued == old(issued) + {r.value}
      ensures r.Success? ==> !lock.held && lock.owner == None
      ensures r.Success? ==> r.value.gate.held && r.value.gotit && !r.value.timerArmed
    {
      if !IsOwned(caller) {
        return Failure(RuntimeError);
      }
      var w := new Waiter(caller);
      waiters := waiters + [w];
      issued := issued + {w};
      var released := lock.Release();
      r := Success(w);
    }

    /** The waiter's `acquire` up to its block, with the wait's timeout
        (none means -1, an unbounded block). When a notify released the
        waiter after `BeginWait` let the lock go, the acquire's single-use
        check finds the gate open: RuntimeError, and nothing changes. */
    method StartWait(w: Waiter, timeout: Option<int>) returns (r: Outcome)
      requires Valid() && w in issued
      modifies w
      ensures Valid()
      ensures r == if old(w.gate.held) then Pass else Fail(RuntimeError)
      ensures r.Pass? ==> w.gotit
      ensures r.Pass? ==> w.timerArmed == ((timeout.Some? && timeout.value > 0) || old(w.timerArmed))
      ensures r.Fail? ==> w.gotit == old(w.gotit) && w.timerArmed == old(w.timerArmed)
    {
      r := w.BeginAcquire(if timeout.Some? then timeout.value else -1);
    }

    /** The `finally` of `wait` when the waiter's acquire raised: the lock is
        re-acquired and, the wait's `gotit` being still false, the waiter is
        removed if it is queued; a notify that popped it leaves nothing to
        remove, which is tolerated. The RuntimeError then propagates. */
    method AbandonWait(caller: int, w: Waiter)
      requires Valid() && w in issued
      requires !w.gate.held  // the acquire found the gate open and raised
      requires !lock.held    // blocks until the lock is free
      modifies this, lock
      ensures Valid() && IsOwned(caller) && issued == old(issued)
      ensures w !in waiters
      ensures waiters == Remove(old(waiters), w)
    {
      var flag := lock.Acquire(caller);
      RemoveDistinct(waiters, w);
      ghost var before := waiters;
      waiters := Remove(waiters, w);
      forall i | 0 <= i < |waiters| ensures waiters[i] in issued && NotNotified(waiters[i]) {
        assert waiters[i] in before;
        assert old(NotNotified(waiters[i]));
      }
    }

    /** The corrected first half of the waiter's acquire inside `wait`: a gate
        that a notify opened before the acquire began is that notify's
        verdict, not a reuse of the waiter, so the acquire goes on without
        raising and returns `gotit`, still true. */
    method StartWaitFixed(w: Waiter, timeout: Option<int>)
      requires Valid() && w in issued
      modifies w
      ensures Valid()
      ensures old(w.gate.held) ==> w.gotit
      ensures old(w.gate.held) ==>
        w.timerArmed == ((timeout.Some? && timeout.value > 0) || old(w.timerArmed))
      ensures !old(w.gate.held) ==> w.gotit == old(w.gotit) && w.timerArmed == old(w.timerArmed)
    {
      if w.gate.Locked() {
        var started := w.BeginAcquire(if timeout.Some? then timeout.value else -1);
      }
    }

    /** The part of `wait` after the waiter's gate was opened: finish the
        waiter's acquire, re-acquire the lock (on every path), and when the
        wait was not satisfied drop the waiter if it is still queued. The
        waiter is never left in the queue. Returns `gotit`. */
    method EndWait(caller: int, w: Waiter) returns (gotit: bool)
      requires Valid() && w in issued
      requires !w.gate.held  // blocks until a notify or the timer opens the gate
      requires !lock.held    // then blocks until the lock is free
      modifies this, lock, w, w.gate
      ensures Valid() && IsOwned(caller) && issued == old(issued)
      ensures gotit == old(w.gotit)
      ensures w !in waiters
      ensures waiters == if gotit then old(waiters) else Remove(old(waiters), w)
    {
      gotit := w.FinishAcquire(caller);
      var flag := lock.Acquire(caller);
      RemoveDistinct(waiters, w);
      if !gotit {
        ghost var before := waiters;
        waiters := Remove(waiters, w);
        forall i | 0 <= i < |waiters| ensures waiters[i] in issued {
          assert waiters[i] in before;
        }
      }
      forall i | 0 <= i < |waiters| ensures NotNotified(waiters[i]) {
        var u := waiters[i];
        assert u in old(waiters) && u != w && u.gate != w.gate;
        assert old(NotNotified(u));
      }
    }

    /** The one-shot timer of a waiter of this condition fires. */
    method FireTimer(w: Waiter)
      requires Valid() && w in issued && w.timerArmed
      modifies w, w.gate
      ensures Valid()
      ensures w.gotit == !old(w.gate.held)
      ensures !w.timerArmed && !w.gate.held
    {
      w.AutoRelease();
    }

    /** `wait_for`, over a sequence of observations of the predicate, the
        clock and the other threads. The predicate is evaluated first; while
        it is false, the first round fixes the deadline as the clock reading
        plus the timeout and waits with the timeout unchanged, and every
        later round recomputes the time remaining and stops once it is zero
        or less. The result is the last value the predicate returned. A
        `wait` raises RuntimeError when the caller does not own the lock,
        which only the first can meet since every `wait` re-acquires the
        lock, and when a notify reaches its waiter before the waiter's
        acquire (`notifiedEarly`); the exception ends `wait_for`. Every
        `wait` leaves its own waiter out of the queue, so this method leaves
        the condition as it found it. */
    method WaitFor(caller: int, rounds: seq<Round>, timeout: Option<int>) returns (r: WaitForResult)
      requires |rounds| > 0
      ensures rounds[0].holds ==> r == Returned(true, [])
      ensures r.Returned? ==> |r.waits| < |rounds| && r.value == rounds[|r.waits|].holds
      ensures r.Parked? ==> |r.waits| == |rounds|
      ensures r.Raised? ==> 0 < |r.waits| <= |rounds| && r.error == RuntimeError
      ensures forall j :: 0 <= j < |r.waits| ==> !rounds[j].holds
      ensures !rounds[0].holds && !IsOwned(caller) ==> r == Raised(RuntimeError, [timeout])
      ensures r.Raised? && IsOwned(caller) ==> rounds[|r.waits| - 1].notifiedEarly
      ensures forall j :: 0 <= j < |r.waits| - 1 ==> !rounds[j].notifiedEarly
      ensures !r.Raised? ==> forall j :: 0 <= j < |r.waits| ==> !rounds[j].notifiedEarly
      ensures timeout.None? ==> forall j :: 0 <= j < |r.waits| ==> r.waits[j].None?
      ensures timeout.None? && r.Returned? ==> r.value
      ensures timeout.Some? && |r.waits| > 0 ==> r.waits[0] == timeout
      ensures timeout.Some? ==>
        forall j :: 1 <= j < |r.waits| ==>
          r.waits[j] == Some(Remaining(rounds, timeout.value, j)) && Remaining(rounds, timeout.value, j) > 0
      ensures timeout.Some? && r.Returned? && !r.value ==>
        |r.waits| > 0 && Remaining(rounds, timeout.value, |r.waits|) <= 0
    {
      var owned := IsOwned(caller);
      var endtime: Option<int> := None;
      var remaining := timeout;
      var waits: seq<Option<int>> := [];
      var i := 0;
      var result := rounds[0].holds;
      while !result
        invariant 0 <= i < |rounds| && |waits| == i
        invariant result == rounds[i].holds
        invariant forall j :: 0 <= j < i ==> !rounds[j].holds && !rounds[j].notifiedEarly
        invariant i == 0 ==> owned == IsOwned(caller)
        invariant i > 0 ==> owned && IsOwned(caller)
        invariant timeout.None? ==> remaining.None?
        invariant timeout.None? ==> forall j :: 0 <= j < i ==> waits[j].None?
        invariant timeout.Some? ==> remaining.Some?
        invariant timeout.Some? && i == 0 ==> endtime.None? && remaining == timeout
        invariant timeout.Some? && i > 0 ==> endtime == Some(rounds[0].now + timeout.value)
        invariant timeout.Some? && i > 0 ==> waits[0] == timeout
        invariant timeout.Some? ==>
          forall j :: 1 <= j < i ==>
            waits[j] == Some(Remaining(rounds, timeout.value, j)) && Remaining(rounds, timeout.value, j) > 0
        decreases |rounds| - i
      {
        if remaining.Some? {
          if endtime.None? {
            endtime := Some(rounds[i].now + remaining.value);
          } else {
            remaining := Some(endtime.value - rounds[i].now);
            if remaining.value <= 0 {
              break;
            }
          }
        }
        waits := waits + [remaining];
        if !owned || rounds[i].notifiedEarly {
          return Raised(RuntimeError, waits);
        }
        if i + 1 == |rounds| {
          return Parked(waits);
        }
        i := i + 1;
        result := rounds[i].holds;
        owned := true;
      }
      r := Returned(result, waits);
    }

    /** Releases the first `min(n, len(waiters))` waiters in arrival order
        and drops them from the queue, leaving the rest queued in order and
        untouched. Ownership is checked before the argument. */
    method Notify(caller: int, n: int) returns (r: Outcome)
      requires Valid()
      modifies this, set w | w in waiters :: w.gate
      ensures Valid() && issued == old(issued) && unchanged(lock)
      ensures r == if !old(IsOwned(caller)) then Fail(RuntimeError)
                   else if n < 0 then Fail(ValueError)
                   else Pass
      ensures r.Fail? ==> waiters == old(waiters)
      ensures r.Fail? ==> forall i :: 0 <= i < |old(waiters)| ==> unchanged(old(waiters)[i].gate)
      ensures r.Pass? ==> waiters == old(waiters)[Min(n, |old(waiters)|)..]
      ensures r.Pass? ==> forall i :: 0 <= i < Min(n, |old(waiters)|) ==> !old(waiters)[i].gate.held
      ensures r.Pass? ==>
        forall i :: Min(n, |old(waiters)|) <= i < |old(waiters)| ==> unchanged(old(waiters)[i].gate)
    {
      if !IsOwned(caller) {
        return Fail(RuntimeError);
      }
      if n < 0 {
        return Fail(ValueError);
      }
      var toNotify := waiters[..Min(n, |waiters|)];
      var i := 0;
      while i < |toNotify|
        invariant 0 <= i <= |toNotify|
        invariant toNotify == old(waiters)[..|toNotify|]
        invariant waiters == old(waiters)[i..]
        invariant Valid() && issued == old(issued) && unchanged(lock)
        invariant forall j :: 0 <= j < i ==> !toNotify[j].gate.held
        invariant forall j :: i <= j < |old(waiters)| ==> unchanged(old(waiters)[j].gate)
      {
        var w := toNotify[i];
        ghost var before := waiters;
        label Before:
        var released := w.Release();
        RemoveHead(waiters);
        waiters := Remove(waiters, w);
        forall k | 0 <= k < |waiters| ensures waiters[k] in issued && NotNotified(waiters[k]) {
          assert waiters[k] == before[k + 1] && before[k + 1] != w;
          assert old@Before(NotNotified(before[k + 1]));
        }
        i := i + 1;
      }
      r := Pass;
    }

    /** Ownership check, then `notify(len(waiters))`: every queued waiter is
        released and the queue is left empty. */
    method NotifyAll(caller: int) returns (r: Outcome)
      requires Valid()
      modifies this, set w | w in waiters :: w.gate
      ensures Valid() && issued == old(issued) && unchanged(lock)
      ensures r == if old(IsOwned(caller)) then Pass else Fail(RuntimeError)
      ensures r.Fail? ==> waiters == old(waiters)
      ensures r.Fail? ==> forall i :: 0 <= i < |old(waiters)| ==> unchanged(old(waiters)[i].gate)
      ensures r.Pass? ==> waiters == []
      ensures r.Pass? ==> forall i :: 0 <= i < |old(waiters)| ==> !old(waiters)[i].gate.held
    {
      if !IsOwned(caller) {
        return Fail(RuntimeError);
      }
      r := Notify(caller, |waiters|);
    }
  }

  /** The orders in which a notify from another thread can meet a timed
      `wait`: before the waiter's acquire began, or after it and before or
      after the waiter's timer fired. */
  datatype Order = NotifyBeforeAcquire | NotifyFirst | TimerFirst

  /** Another thread runs `with cond: cond.notify()`: the oldest waiter is
      released and popped, and the lock is free again. */
  method NotifyOne(c: Condition, notifying: int)
    requires c.Valid() && !c.lock.held
    modifies c, c.lock, set w | w in c.waiters :: w.gate
    ensures c.Valid() && c.issued == old(c.issued) && !c.lock.held
    ensures old(c.waiters) != [] ==> c.waiters == old(c.waiters)[1..] && !old(c.waiters)[0].gate.held
  {
    var flag := c.Acquire(notifying);
    ghost var queue := c.waiters;
    assert queue != [] ==> Min(1, |queue|) == 1;
    var notified := c.Notify(notifying, 1);
    var released := c.Release();
  }

  /** A timed wait raced by a notify from another thread. A notify that
      lands between the wait's release of the lock and its waiter's acquire
      makes the acquire's single-use check raise RuntimeError. Otherwise
      whichever of the notify and the timer comes first decides `gotit`;
      when the timer wins, the notify still pops the waiter and the waiting
      thread's own removal finds it gone and tolerates that. In every order
      the waiting thread owns the lock again and the queue is empty. */
  method WaitRace(waiting: int, notifying: int, timeout: int, order: Order)
    returns (r: Result<bool>, queued: nat, owned: bool)
    requires timeout > 0
    ensures r == if order.NotifyBeforeAcquire? then Failure(RuntimeError) else Success(order.NotifyFirst?)
    ensures queued == 0 && owned
  {
    var c := new Condition();
    var flag := c.Acquire(waiting);
    var begun := c.BeginWait(waiting);
    var w := begun.value;
    if order.NotifyBeforeAcquire? {
      NotifyOne(c, notifying);
      var started := c.StartWait(w, Some(timeout));
      c.AbandonWait(waiting, w);
      r := Failure(started.error);
    } else {
      var started := c.StartWait(w, Some(timeout));
      if order.NotifyFirst? {
        NotifyOne(c, notifying);
        c.FireTimer(w);
      } else {
        c.FireTimer(w);
        NotifyOne(c, notifying);
      }
      var gotit := c.EndWait(waiting, w);
      r := Success(gotit);
    }
    queued := |c.waiters|;
    owned := c.IsOwned(waiting);
  }

  /** The same race with the corrected acquire (`StartWaitFixed`): a notify
      that lands before the waiter's acquire counts as a notify, so the wait
      returns true; it returns false only when the timer came first. */
  method WaitRaceFixed(waiting: int, notifying: int, timeout: int, order: Order)
    returns (gotit: bool, queued: nat, owned: bool)
    requires timeout > 0
    ensures gotit == !order.TimerFirst?
    ensures queued == 0 && owned
  {
    var c := new Condition();
    var flag := c.Acquire(waiting);
    var begun := c.BeginWait(waiting);
    var w := begun.value;
    if order.NotifyBeforeAcquire? {
      NotifyOne(c, notifying);
      c.StartWaitFixed(w, Some(timeout));
    } else {
      c.StartWaitFixed(w, Some(timeout));
      if order.NotifyFirst? {
        NotifyOne(c, notifying);
        c.FireTimer(w);
      } else {
        c.FireTimer(w);
        NotifyOne(c, notifying);
      }
    }
    gotit := c.EndWait(waiting, w);
    queued := |c.waiters|;
    owned := c.IsOwned(waiting);
  }

  // ---------------------------------------------------------------------
  // Thread

  /** The platform's thread table: the identities of the threads that are
      alive, and the next identity it will hand out. */
  class ThreadTable {
    var live: set<int>
    var next: int

    ghost predicate Valid()
      reads this
    {
      forall t :: t in live ==> t < next
    }

    constructor ()
      ensures Valid() && live == {}
    {
      live := {};
      next := 0;
    }

    predicate ThreadIsRunning(id: int)
      reads this
    {
      id in live
    }

    /** Spawns a thread; its identity was never handed out before. */
    method StartNewThread() returns (id: int)
      requires Valid()
      modifies this
      ensures Valid()
      ensures id !in old(live) && live == old(live) + {id}
    {
      id := next;
      live := live + {id};
      next := next + 1;
    }

    /** Kills a thread. */
    method StopThread(id: int)
      requires Valid()
      modifies this
      ensures Valid() && live == old(live) - {id}
    {
      live := live - {id};
    }

    /** A thread returns from its entry point and ends by itself. */
    method ThreadEnds(id: int)
      requires Valid()
      modifies this
      ensures Valid() && live == old(live) - {id}
    {
      live := live - {id};
    }
  }

  /** What a thread's target can raise: a subclass of Exception, or one of
      the exceptions that derive from BaseException only. */
  datatype Raise = Exception(error: Error) | SystemExit | KeyboardInterrupt | GeneratorExit

  /** A thread object holding the arguments for its target and the identity
      of the platform thread it last started (kept after that thread ended
      by itself; cleared only by `stop`). */
  class Thread<A> {
    const args: A
    var ident: Option<int>

    constructor (args: A)
      ensures this.args == args && ident == None
    {
      this.args := args;
      ident := None;
    }

    /** Asks the platform only when an identity is recorded. */
    function IsRunning(table: ThreadTable): (running: bool)
      reads this, table
      ensures ident.None? ==> !running
    {
      if ident.None? then false else table.ThreadIsRunning(ident.value)
    }

    /** No-op while running; otherwise spawns a new platform thread and
        records its identity. */
    method Start(table: ThreadTable)
      requires table.Valid()
      modifies this, table
      ensures table.Valid() && IsRunning(table)
      ensures old(IsRunning(table)) ==> ident == old(ident) && unchanged(table)
      ensures !old(IsRunning(table)) ==>
        ident.Some? && ident.value !in old(table.live) && table.live == old(table.live) + {ident.value}
    {
      if !IsRunning(table) {
        var id := table.StartNewThread();
        ident := Some(id);
      }
    }

    /** Acts only while running: kills the platform thread and clears the
        identity. */
    method Stop(table: ThreadTable)
      requires table.Valid()
      modifies this, table
      ensures table.Valid() && !IsRunning(table)
      ensures old(IsRunning(table)) ==> ident == None && table.live == old(table.live) - {old(ident).value}
      ensures !old(IsRunning(table)) ==> ident == old(ident) && unchanged(table)
    {
      if IsRunning(table) {
        table.StopThread(ident.value);
        ident := None;
      }
    }

    /** The thread's entry point, given what the target raised: anything
        derived from Exception is caught and the thread ends quietly; only
        the BaseException-only kinds escape. */
    method Run(raised: Option<Raise>) returns (escaped: Option<Raise>)
      ensures escaped.Some? ==> escaped == raised && !raised.value.Exception?
      ensures raised.Some? && !raised.value.Exception? ==> escaped == raised
      ensures raised.None? || raised.value.Exception? ==> escaped.None?
    {
      match raised {
        case None =>
          escaped := None;
        case Some(e) =>
          if e.Exception? {
            escaped := None;
          } else {
            escaped := raised;
          }
      }
    }
  }
}
