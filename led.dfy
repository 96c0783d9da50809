/** The status LED of the DTU firmware (class Led): a pin that is written 1
    or 0, and a blink burst run on its own thread that a second burst never
    overlaps. The pin is the sequence of values written to it; the delays
    between writes are not modelled. */
module Led {
  import opened Threading

  /** The arguments a burst thread carries: on time, off time, cycles. */
  datatype BlinkArgs = BlinkArgs(onMs: int, offMs: int, count: int)

  /** The pin writes of `count` on/off cycles (none when `count` is not
      positive). */
  function Cycles(count: int): seq<int>
    decreases count
  {
    if count <= 0 then [] else Cycles(count - 1) + [1, 0]
  }

  function CountOf(s: seq<int>, v: int): nat
  {
    if s == [] then 0 else CountOf(s[..|s| - 1], v) + (if s[|s| - 1] == v then 1 else 0)
  }

  /** A burst of `count` cycles is `max(count, 0)` alternations of 1 and
      then 0: the pin is switched on exactly `max(count, 0)` times, and a
      burst that wrote anything leaves the pin at 0. */
  lemma {:induction false} CyclesShape(count: int)
    ensures |Cycles(count)| == 2 * (if count <= 0 then 0 else count)
    ensures forall i :: 0 <= i < |Cycles(count)| ==> Cycles(count)[i] == (if i % 2 == 0 then 1 else 0)
    ensures CountOf(Cycles(count), 1) == (if count <= 0 then 0 else count)
    ensures count > 0 ==> Cycles(count)[|Cycles(count)| - 1] == 0
    decreases count
  {
    if count > 0 {
      CyclesShape(count - 1);
      var p := Cycles(count - 1);
      var s := Cycles(count);
      assert s == p + [1, 0];
      assert s[..|s| - 1] == p + [1];
      assert (p + [1])[..|p + [1]| - 1] == p;
    }
  }

  class Led {
    /** Every value written to the pin, oldest first. */
    var writes: seq<int>
    var blinkThread: Thread?<BlinkArgs>

    /** The pin level: the last value written, and 0 (the level the pin is
        configured with) before any write. */
    function Level(): int
      reads this
    {
      if writes == [] then 0 else writes[|writes| - 1]
    }

    constructor ()
      ensures writes == [] && Level() == 0 && blinkThread == null
    {
      writes := [];
      blinkThread := null;
    }

    method On()
      modifies this
      ensures writes == old(writes) + [1] && Level() == 1
      ensures blinkThread == old(blinkThread)
    {
      writes := writes + [1];
    }

    method Off()
      modifies this
      ensures writes == old(writes) + [0] && Level() == 0
      ensures blinkThread == old(blinkThread)
    {
      writes := writes + [0];
    }

    /** A no-op while the previous burst thread is still running; otherwise
        a new thread carrying the burst's arguments replaces it and is
        started. The pin is not written here. */
    method Blink(table: ThreadTable, onMs: int, offMs: int, count: int)
      requires table.Valid()
      modifies this, table
      ensures table.Valid() && writes == old(writes)
      ensures old(blinkThread != null && blinkThread.IsRunning(table)) ==>
        blinkThread == old(blinkThread) && unchanged(table)
      ensures !old(blinkThread != null && blinkThread.IsRunning(table)) ==>
        && blinkThread != null && fresh(blinkThread)
        && blinkThread.args == BlinkArgs(onMs, offMs, count)
        && blinkThread.IsRunning(table)
        && table.live == old(table.live) + {blinkThread.ident.value}
    {
      if blinkThread != null && blinkThread.IsRunning(table) {
        return;
      }
      var t := new Thread(BlinkArgs(onMs, offMs, count));
      blinkThread := t;
      t.Start(table);
    }

    /** The burst thread's target: while `count` is positive, switch the
        pin on, then off, and count down. */
    method BlinkWorker(onMs: int, offMs: int, count: int)
      modifies this
      ensures writes == old(writes) + Cycles(count)
      ensures blinkThread == old(blinkThread)
    {
      var c := count;
      while c > 0
        invariant c == count || 0 <= c
        invariant c <= count
        invariant writes == old(writes) + Cycles(count - c)
        invariant blinkThread == old(blinkThread)
      {
        On();
        Off();
        c := c - 1;
      }
    }
  }
}
