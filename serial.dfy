/** The serial port of the DTU firmware (class Serial): reads wait on a
    condition variable that the UART's receive callback notifies, writes are
    serialised by a separate lock.

    The UART driver is reduced to its two byte queues. Bytes that reach the
    UART while a reader is parked in `wait_for` are an input of `Read`, one
    chunk per `wait`, together with the clock readings `wait_for` takes. */
module Serial {
  import opened Outcomes
  import opened Threading

  type byte = b: int | 0 <= b < 256

  /** The bytes of a sequence of chunks, in order. */
  function Flatten(chunks: seq<seq<byte>>): seq<byte>
  {
    if chunks == [] then [] else Flatten(chunks[..|chunks| - 1]) + chunks[|chunks| - 1]
  }

  /** The receive queue as `read` sees it after `j` waits: what was queued
      when it started, then the chunks that arrived during those waits. */
  function Seen(rx: seq<byte>, arrivals: seq<seq<byte>>, j: nat): seq<byte>
    requires j <= |arrivals|
  {
    rx + Flatten(arrivals[..j])
  }

  /** The rounds `wait_for` goes through in `read`: the predicate (bytes are
      waiting), the clock, and whether the receive callback's notify reached
      the waiter of that round's `wait` before the waiter's acquire. */
  function Rounds(rx: seq<byte>, arrivals: seq<seq<byte>>, clock: seq<int>, races: seq<bool>): seq<Round>
    requires |clock| == |arrivals| + 1 && |races| == |clock|
  {
    seq(|clock|, j requires 0 <= j < |clock| => Round(Seen(rx, arrivals, j) != [], clock[j], races[j]))
  }

  /** What `waited` waits of `read` reveal about its inputs: no byte was
      queued when any of them began, no notify came early before the last
      one (nor at the last unless it raised), and with a timeout every wait
      after the first had time left before the deadline. */
  ghost predicate WaitsIdle(rx: seq<byte>, arrivals: seq<seq<byte>>, clock: seq<int>, races: seq<bool>,
                            timeout: Option<int>, waited: nat, raised: bool)
    requires |clock| == |arrivals| + 1 && |races| == |clock| && waited <= |clock|
  {
    && (forall j :: 0 <= j < waited ==> Seen(rx, arrivals, j) == [])
    && (forall j :: 0 <= j < waited - 1 ==> !races[j])
    && (!raised ==> forall j :: 0 <= j < waited ==> !races[j])
    && (timeout.Some? ==> forall j :: 1 <= j < waited ==> clock[0] + timeout.value - clock[j] > 0)
  }

  /** The rounds `wait_for` passed through in `read` give `WaitsIdle`. */
  lemma WaitsSeen(rx: seq<byte>, arrivals: seq<seq<byte>>, clock: seq<int>, races: seq<bool>,
                  timeout: Option<int>, waits: seq<Option<int>>, raised: bool)
    requires |clock| == |arrivals| + 1 && |races| == |clock| && |waits| <= |clock|
    requires var rounds := Rounds(rx, arrivals, clock, races);
      && (forall j :: 0 <= j < |waits| ==> !rounds[j].holds)
      && (forall j :: 0 <= j < |waits| - 1 ==> !rounds[j].notifiedEarly)
      && (!raised ==> forall j :: 0 <= j < |waits| ==> !rounds[j].notifiedEarly)
      && (timeout.Some? ==> forall j :: 1 <= j < |waits| ==> Remaining(rounds, timeout.value, j) > 0)
    ensures WaitsIdle(rx, arrivals, clock, races, timeout, |waits|, raised)
  {
    var rounds := Rounds(rx, arrivals, clock, races);
    forall j | 0 <= j < |waits|
      ensures Seen(rx, arrivals, j) == []
      ensures j < |waits| - 1 || !raised ==> !races[j]
      ensures timeout.Some? && j >= 1 ==> clock[0] + timeout.value - clock[j] > 0
    {
      assert rounds[j] == Round(Seen(rx, arrivals, j) != [], clock[j], races[j]);
      assert rounds[0].now == clock[0];
      if timeout.Some? && j >= 1 {
        assert Remaining(rounds, timeout.value, j) > 0;
      }
    }
  }

  /** The UART driver: the bytes received and not yet read, and every byte
      written. */
  class Uart {
    var rx: seq<byte>
    var tx: seq<byte>
    var closed: bool

    constructor ()
      ensures rx == [] && tx == [] && !closed
    {
      rx, tx, closed := [], [], false;
    }

    /** `any()`: how many received bytes wait to be read. */
    function Any(): nat
      reads this
    {
      |rx|
    }

    /** Hands out the oldest `n` received bytes, or all of them when fewer
        are queued; nothing when `n` is not positive. */
    method Read(n: int) returns (data: seq<byte>)
      modifies this
      ensures var k := if n <= 0 then 0 else Min(n, |old(rx)|);
              data == old(rx)[..k] && rx == old(rx)[k..]
      ensures tx == old(tx) && closed == old(closed)
    {
      var k := if n <= 0 then 0 else Min(n, |rx|);
      data := rx[..k];
      rx := rx[k..];
    }

    /** Sends `data`; returns the number of bytes written. */
    method Write(data: seq<byte>) returns (n: int)
      modifies this
      ensures tx == old(tx) + data && n == |data|
      ensures rx == old(rx) && closed == old(closed)
    {
      tx := tx + data;
      n := |data|;
    }

    /** Bytes arrive on the line. */
    method Receive(data: seq<byte>)
      modifies this
      ensures rx == old(rx) + data
      ensures tx == old(tx) && closed == old(closed)
    {
      rx := rx + data;
    }

    method Close()
      modifies this
      ensures closed && rx == old(rx) && tx == old(tx)
    {
      closed := true;
    }
  }

  /** How a `read` ended: bytes, an exception, or still parked in a wait
      on the given waiter when the observations ran out. */
  datatype ReadOutcome = Got(data: seq<byte>) | Failed(error: Error) | Blocked(parked: Waiter)

  class Serial {
    var uart: Uart?
    /** Guards the receive side; the UART callback notifies it. */
    const rCond: Condition
    /** Serialises writers; distinct from the read condition's lock. */
    const wLock: Lock

    ghost predicate Valid()
      reads this, rCond, rCond.lock, rCond.issued, rCond.Gates(), wLock
    {
      && rCond.Valid()
      && wLock.Valid()
      && wLock != rCond.lock
      && wLock !in rCond.Gates()
    }

    constructor ()
      ensures Valid() && uart == null
      ensures fresh(rCond) && fresh(rCond.lock) && fresh(wLock)
      ensures !rCond.lock.held && rCond.waiters == [] && !wLock.held
    {
      uart := null;
      rCond := new Condition();
      wLock := new Lock();
    }

    /** The `uart` property: the driver, or TypeError while the port is not
        open. */
    function CurrentUart(): (r: Result<Uart>)
      reads this
      ensures r.Success? <==> uart != null
      ensures r.Success? ==> r.value == uart
      ensures r.Failure? ==> r.error == TypeError
    {
      if uart == null then Failure(TypeError) else Success(uart)
    }

    /** Opens a new driver; its receive callback is `UartCallback`. */
    method Open()
      modifies this
      ensures uart != null && fresh(uart)
      ensures uart.rx == [] && uart.tx == [] && !uart.closed
    {
      uart := new Uart();
    }

    /** Closes the driver and forgets it. Closing a port that is not open
        fails on the missing driver (AttributeError). */
    method Close() returns (r: Outcome)
      modifies this, uart
      ensures uart == null
      ensures r == if old(uart) == null then Fail(AttributeError) else Pass
      ensures old(uart) != null ==> old(uart).closed
    {
      if uart == null {
        return Fail(AttributeError);
      }
      uart.Close();
      uart := null;
      r := Pass;
    }

    /** The receive callback: takes the read condition, wakes every queued
        reader and lets the condition go; no waiter stays queued. */
    method UartCallback(caller: int)
      requires Valid()
      requires !rCond.lock.held  // blocks until the read condition is free
      modifies rCond, rCond.lock, set w | w in rCond.waiters :: w.gate
      ensures Valid() && rCond.issued == old(rCond.issued)
      ensures !rCond.lock.held && rCond.waiters == []
      ensures forall i :: 0 <= i < |old(rCond.waiters)| ==> !old(rCond.waiters)[i].gate.held
      ensures unchanged(wLock)
    {
      var flag := rCond.Acquire(caller);
      var notified := rCond.NotifyAll(caller);
      var released := rCond.Release();
    }

    /** Writes under the write lock, which is released on every path, and
        returns what the driver returns; TypeError when the port is not
        open. The read condition is not touched. */
    method Write(caller: int, data: seq<byte>) returns (r: Result<int>)
      requires Valid()
      requires !wLock.held  // blocks until no other writer holds the lock
      modifies wLock, uart
      ensures Valid() && !wLock.held && uart == old(uart)
      ensures r == if old(uart) == null then Failure(TypeError) else Success(|data|)
      ensures old(uart) != null ==> uart.tx == old(uart.tx) + data && uart.rx == old(uart.rx)
      ensures unchanged(rCond) && unchanged(rCond.lock)
    {
      var flag := wLock.Acquire(caller);
      var u := CurrentUart();
      if u.Failure? {
        var released := wLock.Release();
        return Failure(u.error);
      }
      var n := u.value.Write(data);
      var released := wLock.Release();
      r := Success(n);
    }

    /** The `wait_for` of `read` under its predicate "bytes are queued",
        stated in the terms of `read`'s inputs: the predicate held at the
        round `wait_for` returned true in, and a false return is a passed
        deadline; a raise is an early notify; a parked `read` has waited
        every round, its last wait with a timer exactly when a timeout is
        given and has time left. */
    method WaitForBytes(caller: int, timeout: Option<int>, arrivals: seq<seq<byte>>, clock: seq<int>,
                        races: seq<bool>) returns (w: WaitForResult)
      requires rCond.IsOwned(caller) && uart != null
      requires |clock| == |arrivals| + 1 && |races| == |clock|
      ensures |w.waits| <= |clock|
      ensures WaitsIdle(uart.rx, arrivals, clock, races, timeout, |w.waits|, w.Raised?)
      ensures w.Returned? ==> |w.waits| <= |arrivals|
      ensures w.Returned? ==> (w.value <==> Seen(uart.rx, arrivals, |w.waits|) != [])
      ensures w.Returned? && !w.value ==>
        timeout.Some? && |w.waits| > 0 && clock[0] + timeout.value - clock[|w.waits|] <= 0
      ensures w.Raised? ==> w.error == RuntimeError && |w.waits| > 0 && races[|w.waits| - 1]
      ensures w.Parked? ==> |w.waits| == |clock|
      ensures w.Parked? ==>
        var last := w.waits[|w.waits| - 1];
        (last.Some? && last.value > 0) == (timeout.Some? && (|w.waits| > 1 || timeout.value > 0))
    {
      var rounds := Rounds(uart.rx, arrivals, clock, races);
      w := rCond.WaitFor(caller, rounds, timeout);
      WaitsSeen(uart.rx, arrivals, clock, races, timeout, w.waits, w.Raised?);
      if w.Returned? {
        assert rounds[|w.waits|].holds == (Seen(uart.rx, arrivals, |w.waits|) != []);
        if timeout.Some? && !w.value {
          assert rounds[0].now == clock[0] && rounds[|w.waits|].now == clock[|w.waits|];
        }
      }
      if w.Raised? {
        assert rounds[|w.waits| - 1].notifiedEarly == races[|w.waits| - 1];
      }
    }

    /** The first part of a `wait` with the given timeout, up to its block:
        a fresh waiter is queued, the condition is let go and the waiter's
        timer is armed for a positive timeout. */
    method Park(caller: int, timeout: Option<int>) returns (p: Waiter)
      requires Valid() && rCond.IsOwned(caller)
      modifies rCond, rCond.lock
      ensures Valid() && !rCond.lock.held && unchanged(wLock)
      ensures fresh(p) && fresh(p.gate) && p.gate.held && p.gotit
      ensures rCond.waiters == old(rCond.waiters) + [p] && rCond.issued == old(rCond.issued) + {p}
      ensures p.timerArmed == (timeout.Some? && timeout.value > 0)
    {
      var begun := rCond.BeginWait(caller);
      p := begun.value;
      var started := rCond.StartWait(p, timeout);
    }

    /** `read(size, timeout)`: under the read condition, wait until bytes
        are queued, then drain at most `size` of them before the condition
        is let go. `arrivals[j]` reaches the UART during the j-th wait,
        `clock[j]` is the clock reading of round j, and `races[j]` says
        whether the receive callback's notify reached the j-th wait's waiter
        before its acquire, which makes that wait raise RuntimeError.
        `late` reaches the UART after the predicate saw bytes and before the
        drain asks `any()` again, so the drain takes from both. `waited` is
        the number of waits begun. TypeError exactly when the port is not
        open; Serial.TimeoutError exactly when `wait_for` gives up, which
        needs a timeout. A read still parked when the observations run out
        has its waiter at the tail of the queue and the condition free. */
    method Read(caller: int, size: int, timeout: Option<int>, arrivals: seq<seq<byte>>, clock: seq<int>,
                races: seq<bool>, late: seq<byte>)
      returns (r: ReadOutcome, waited: nat)
      requires Valid()
      requires !rCond.lock.held  // blocks until the read condition is free
      requires |clock| == |arrivals| + 1 && |races| == |clock|
      modifies rCond, rCond.lock, uart
      ensures Valid() && !rCond.lock.held && uart == old(uart) && unchanged(wLock)
      ensures !r.Blocked? ==> rCond.waiters == old(rCond.waiters) && rCond.issued == old(rCond.issued)
      ensures r.Blocked? ==>
        && fresh(r.parked) && fresh(r.parked.gate) && r.parked.gate.held && r.parked.gotit
        && rCond.waiters == old(rCond.waiters) + [r.parked]
        && rCond.issued == old(rCond.issued) + {r.parked}
      ensures r == Failed(TypeError) <==> old(uart) == null
      ensures old(uart) == null ==> waited == 0
      ensures r.Failed? ==> r.error == TypeError || r.error == SerialTimeout || r.error == RuntimeError
      ensures waited <= |clock|
      ensures r.Got? || r == Failed(SerialTimeout) ==> waited <= |arrivals|
      ensures r.Blocked? ==> waited == |clock|
      ensures r.Blocked? ==> r.parked.timerArmed == (timeout.Some? && (waited > 1 || timeout.value > 0))
      ensures r == Failed(RuntimeError) ==> waited > 0 && races[waited - 1]
      ensures old(uart) != null ==>
        WaitsIdle(old(uart.rx), arrivals, clock, races, timeout, waited, r == Failed(RuntimeError))
      ensures old(uart) != null ==> uart.tx == old(uart.tx)
      ensures old(uart) != null && !r.Got? ==> uart.rx == Seen(old(uart.rx), arrivals, Min(waited, |arrivals|))
      ensures r.Got? ==>
        var seen := Seen(old(uart.rx), arrivals, waited);
        && seen != []
        && |r.data| == (if size <= 0 then 0 else Min(size, |seen + late|))
        && r.data + uart.rx == seen + late
      ensures r == Failed(SerialTimeout) ==>
        && timeout.Some? && waited > 0
        && Seen(old(uart.rx), arrivals, waited) == []
        && clock[0] + timeout.value - clock[waited] <= 0
    {
      var flag := rCond.Acquire(caller);
      if uart == null {
        var released := rCond.Release();
        return Failed(TypeError), 0;
      }
      var w := WaitForBytes(caller, timeout, arrivals, clock, races);
      waited := |w.waits|;
      uart.Receive(Flatten(arrivals[..Min(waited, |arrivals|)]));
      if w.Parked? {
        // The observations ran out inside the last wait: its waiter is
        // queued and the condition is free.
        var parked := Park(caller, w.waits[waited - 1]);
        return Blocked(parked), waited;
      }
      if w.Returned? {
        if w.value {
          uart.Receive(late);
          var data := uart.Read(Min(size, uart.Any()));
          r := Got(data);
        } else {
          r := Failed(SerialTimeout);
        }
      } else {
        r := Failed(w.error);
      }
      var released := rCond.Release();
    }
  }
}
