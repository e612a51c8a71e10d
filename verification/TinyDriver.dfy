/** The tiny tty driver's own objects: ports, timers and the table, changed in place. */
module TinyDriver {
  import P = TinyPorts
  import M = TinyModem

  class TimerList {
    ghost const id: nat
    var pending: bool
    var expires: int

    /** A fresh timer is not pending. */
    constructor (ghost id: nat)
      ensures this.id == id && !pending
    {
      this.id := id;
      pending, expires := false, 0;
    }

    ghost function View(): P.Timer
      reads this
    {
      P.Timer(id, pending, expires)
    }

    /** add_timer must not be applied to a pending timer. */
    method AddTimer()
      requires !pending
      modifies this`pending
      ensures pending
    {
      pending := true;
    }

    method DelTimer()
      modifies this`pending
      ensures !pending
    {
      pending := false;
    }
  }

  class TinySerial {
    ghost const id: nat
    var openCount: int
    var timer: TimerList?
    var msr: M.Word
    var mcr: M.Word

    /** The shadow registers start with whatever the allocator left there. */
    constructor (ghost id: nat)
      ensures this.id == id && openCount == 0 && timer == null
    {
      this.id := id;
      openCount, timer := 0, null;
    }

    method TinyTiocmget() returns (result: M.Word)
      ensures result == M.Tiocmget(mcr, msr)
      ensures forall l :: l in result <==> M.LineOn(mcr, msr, l)
      ensures (1 in result <==> 0 in mcr) && (2 in result <==> 1 in mcr) && (15 in result <==> 2 in mcr)
      ensures (5 in result <==> 3 in msr) && (6 in result <==> 4 in msr)
      ensures (7 in result <==> 5 in msr) && (8 in result <==> 6 in msr)
    {
      M.ReportedLines(mcr, msr);
      M.ReportedBits(mcr, msr);
      hide M.LineOn;
      result := (if M.MCR_DTR in mcr then {M.TIOCM_DTR} else {})
        + (if M.MCR_RTS in mcr then {M.TIOCM_RTS} else {})
        + (if M.MCR_LOOP in mcr then {M.TIOCM_LOOP} else {})
        + (if M.MSR_CTS in msr then {M.TIOCM_CTS} else {})
        + (if M.MSR_CD in msr then {M.TIOCM_CAR} else {})
        + (if M.MSR_RI in msr then {M.TIOCM_RI} else {})
        + (if M.MSR_DSR in msr then {M.TIOCM_DSR} else {});
    }

    method TinyTiocmset(raise: M.Word, clear: M.Word)
      modifies this`mcr
      ensures mcr == M.Tiocmset(old(mcr), M.SetCall(raise, clear))
      ensures M.MCR_RTS in mcr <==> !M.Names(clear) && (M.Names(raise) || M.MCR_RTS in old(mcr))
      ensures mcr - {M.MCR_RTS} == old(mcr) - {M.MCR_RTS}
      ensures forall bit :: bit != 1 ==> (bit in mcr <==> bit in old(mcr))
      ensures 1 in mcr <==> 1 !in clear && 2 !in clear && (1 in raise || 2 in raise || 1 in old(mcr))
    {
      var m := mcr;
      if M.TIOCM_RTS in raise { m := m + {M.MCR_RTS}; }
      if M.TIOCM_DTR in raise { m := m + {M.MCR_RTS}; }
      if M.TIOCM_RTS in clear { m := m - {M.MCR_RTS}; }
      if M.TIOCM_DTR in clear { m := m - {M.MCR_RTS}; }
      mcr := m;
    }

    ghost function TimerView(): P.Timer
      reads this, timer
    {
      if timer == null then P.NoTimer else timer.View()
    }

    ghost function View(): P.Port
      reads this, timer
    {
      P.Port(id, openCount, TimerView())
    }

    /** The part of an open that follows the lookup; a new timer gets the number `timerId`. */
    method OpenPort(timerAlloc: bool, ghost timerId: nat, jiffies: int, delay: int) returns (ret: int)
      requires openCount >= 0 && (timer != null && openCount == 0 ==> !timer.pending)
      modifies this, timer
      ensures openCount == old(openCount) + 1
      ensures timer == old(timer) || (old(timer) == null && fresh(timer))
      ensures TimerView() ==
        if openCount != 1 || (old(timer) == null && !timerAlloc) then old(TimerView())
        else P.Timer(if old(timer) == null then timerId else old(timer.id), true, jiffies + delay)
      ensures ret == if openCount == 1 && old(timer) == null && !timerAlloc then -P.ENOMEM else 0
    {
      openCount := openCount + 1;
      if openCount == 1 {
        if timer == null {
          if !timerAlloc {
            return -P.ENOMEM;
          }
          timer := new TimerList(timerId);
        }
        timer.expires := jiffies + delay;
        timer.AddTimer();
      }
      return 0;
    }

    method DoClose()
      requires P.CloseDefined(View()) && openCount >= 0
      modifies this`openCount, timer
      ensures View() == P.DoClose(old(View()))
    {
      if openCount == 0 {
        return;
      }
      openCount := openCount - 1;
      if openCount <= 0 {
        timer.DelTimer();
      }
    }
  }

  class TtyStruct {
    const index: nat
    var driverData: TinySerial?

    constructor (index: nat)
      ensures this.index == index && driverData == null
    {
      this.index := index;
      driverData := null;
    }
  }

  ghost function PortView(t: TinySerial?): P.Port
    reads t, if t == null then null else t.timer
  {
    if t == null then P.Absent else t.View()
  }

  class Driver {
    const hz: int
    const table: array<TinySerial?>
    var jiffies: int
    var flips: seq<P.Char>
    ghost var nextId: nat
    ghost var freed: seq<P.Freed>

    ghost function Serials(): set<TinySerial?>
      reads this, table
    {
      set k | 0 <= k < table.Length :: table[k]
    }

    ghost function Timers(): set<TimerList?>
      reads this, table, Serials()
    {
      set k | 0 <= k < table.Length && table[k] != null :: table[k].timer
    }

    /** Different slots hold different ports with different timers. */
    ghost predicate Valid()
      reads this, table, Serials()
    {
      && table.Length == P.TINY_TTY_MINORS && hz > 0
      && forall j, k :: 0 <= j < k < table.Length && table[j] != null && table[k] != null ==>
           table[j] != table[k] && (table[j].timer != null ==> table[j].timer != table[k].timer)
    }

    ghost function View(): P.Tty
      requires Valid()
      reads this, table, Serials(), Timers()
      ensures |View().ports| == P.TINY_TTY_MINORS && table.Length == P.TINY_TTY_MINORS
    {
      P.Tty([PortView(table[0]), PortView(table[1]), PortView(table[2]), PortView(table[3])],
            jiffies, flips, nextId, freed)
    }

    ghost predicate PortsOk()
      requires Valid()
      reads this, table, Serials(), Timers()
    {
      P.PortsOk(View().ports)
    }

    constructor (hz: int, now: int)
      requires hz > 0
      ensures Valid() && View() == P.Init(now) && this.hz == hz
      ensures fresh(table)
    {
      this.hz := hz;
      table := new TinySerial?[P.TINY_TTY_MINORS](_ => null);
      jiffies, flips, nextId, freed := now, [], 0, [];
    }

    /** Every slot but `i` holds the port it held, with the timer and the value it had. */
    twostate predicate OthersKept(i: nat)
      reads this, table, Serials(), Timers()
    {
      forall k :: 0 <= k < table.Length && k != i ==>
        && table[k] == old(table[k])
        && (table[k] != null ==> table[k].timer == old(table[k].timer))
        && PortView(table[k]) == old(PortView(table[k]))
    }

    /** Slot `i` shares nothing with the other slots. */
    ghost predicate Apart(i: nat)
      reads this, table, Serials()
    {
      i < table.Length && forall k :: 0 <= k < table.Length && k != i && table[k] != null && table[i] != null ==>
        table[k] != table[i] && (table[k].timer != null ==> table[k].timer != table[i].timer)
    }

    /** Nothing but slot `i` and the driver's own fields have changed. */
    twostate lemma OneSlotChanged(i: nat)
      requires old(Valid()) && i < table.Length && OthersKept(i) && Apart(i)
      ensures Valid() && |View().ports| == |old(View()).ports| == P.TINY_TTY_MINORS
      ensures View() == P.Tty(old(View()).ports[i := PortView(table[i])], jiffies, flips, nextId, freed)
      ensures old(View()) == P.Tty(old(View()).ports, old(jiffies), old(flips), old(nextId), old(freed))
      ensures old(View()).ports[i] == old(PortView(table[i]))
    {
      assert forall j, k :: 0 <= j < k < table.Length && table[j] != null && table[k] != null ==>
        old(table[j]) != null || j == i;
    }

    /** What the table says about port `i`. */
    lemma PortShown(i: nat)
      requires Valid() && i < table.Length
      ensures |View().ports| == P.TINY_TTY_MINORS && View().ports[i] == PortView(table[i])
      ensures PortsOk() ==> P.Sound(PortView(table[i])) || P.Timerless(PortView(table[i]))
    {
    }

    method TinyOpen(tty: TtyStruct, portAlloc: bool, timerAlloc: bool) returns (ret: int)
      requires Valid() && PortsOk() && tty.index < table.Length
      modifies this, table, table[tty.index], if table[tty.index] == null then null else table[tty.index].timer, tty
      ensures Valid() && PortsOk()
      ensures View() == P.Next(hz, old(View()), P.Open(tty.index, portAlloc, timerAlloc))
      ensures tty.driverData == table[tty.index]
      ensures ret == if table[tty.index] == null then -12
                     else if table[tty.index].openCount == 1 && table[tty.index].timer == null then -12 else 0
      ensures table[tty.index] != null && table[tty.index].openCount == 1 && table[tty.index].timer != null ==>
        table[tty.index].timer.pending && table[tty.index].timer.expires == old(jiffies) + 2 * hz
    {
      hide P.OpenPort, P.PortsOk, PortView, View, Valid;
      ghost var s := View();
      P.OpenFails(hz, s, tty.index, timerAlloc);
      P.PortsOkNext(hz, s, P.Open(tty.index, portAlloc, timerAlloc));
      P.OpenInTwoSteps(hz, s, tty.index, timerAlloc);
      Attach(tty, null);
      var tiny := LookUp(tty.index, portAlloc);
      if tiny == null {
        return -P.ENOMEM;
      }
      Attach(tty, tiny);
      ret := OpenFound(tty.index, tiny, timerAlloc);
    }

    /** Setting the tty's driver data touches no port. */
    method Attach(tty: TtyStruct, tiny: TinySerial?)
      requires Valid()
      modifies tty`driverData
      ensures Valid() && View() == old(View()) && (old(PortsOk()) ==> PortsOk())
      ensures tty.driverData == tiny
    {
      tty.driverData := tiny;
    }

    /** The port of slot `index`, created if need be. */
    method LookUp(index: nat, portAlloc: bool) returns (tiny: TinySerial?)
      requires Valid() && PortsOk() && index < table.Length
      modifies this`nextId, table
      ensures Valid() && table[index] == tiny
      ensures tiny == null <==> old(table[index]) == null && !portAlloc
      ensures tiny != null ==>
        tiny.openCount >= 0 && (tiny.timer != null && tiny.openCount == 0 ==> !tiny.timer.pending)
      ensures old(table[index]) == null <==> old(View()).ports[index].Absent?
      ensures if old(table[index]) == null
              then tiny == null || (fresh(tiny) && tiny.openCount == 0 && tiny.timer == null)
              else tiny == old(table[index])
      ensures View() ==
        if old(table[index]) != null || !portAlloc then old(View())
        else old(View()).(ports := old(View()).ports[index := P.Port(old(View()).nextId, 0, P.NoTimer)],
                          nextId := old(View()).nextId + 1)
    {
      tiny := table[index];
      assert P.Sound(View().ports[index]) || P.Timerless(View().ports[index]);
      if tiny == null {
        if !portAlloc {
          return null;
        }
        tiny := new TinySerial(nextId);
        nextId := nextId + 1;
        table[index] := tiny;
        OneSlotChanged(index);
      }
    }

    /** The open of a port that has been looked up or just created. */
    method OpenFound(index: nat, tiny: TinySerial, timerAlloc: bool) returns (ret: int)
      requires Valid() && index < table.Length && table[index] == tiny
      requires tiny.openCount >= 0 && (tiny.timer != null && tiny.openCount == 0 ==> !tiny.timer.pending)
      modifies this`nextId, tiny, tiny.timer
      ensures Valid()
      ensures View() == P.OpenPort(hz, old(View()), index, true, timerAlloc)
      ensures ret == if tiny.openCount == 1 && tiny.timer == null then -12 else 0
      ensures tiny.openCount == 1 && tiny.timer != null ==>
        tiny.timer.pending && tiny.timer.expires == jiffies + 2 * hz
    {
      hide View;
      ghost var hadTimer := tiny.timer != null;
      ret := tiny.OpenPort(timerAlloc, nextId, jiffies, P.Delay(hz));
      if tiny.timer != null && !hadTimer {
        nextId := nextId + 1;
      }
      OneSlotChanged(index);
    }

    method DoClose(i: nat, tiny: TinySerial)
      requires Valid() && PortsOk() && i < table.Length && table[i] == tiny && P.CloseDefined(tiny.View())
      modifies tiny`openCount, tiny.timer
      ensures Valid() && PortsOk() && old(tiny.openCount) >= 0 && tiny.View() == P.DoClose(old(tiny.View()))
      ensures View() == P.Next(hz, old(View()), P.Close(i, true))
      ensures View() == old(View()).(ports := old(View()).ports[i := tiny.View()])
      ensures table[i] == tiny && tiny.timer == old(tiny.timer)
    {
      hide View, P.PortsOk, P.DoClose;
      PortShown(i);
      tiny.DoClose();
      OneSlotChanged(i);
      P.PortsOkNext(hz, old(View()), P.Close(i, true));
    }

    method TinyClose(tty: TtyStruct)
      requires Valid() && PortsOk() && tty.index < table.Length
      requires tty.driverData == null || tty.driverData == table[tty.index]
      requires tty.driverData != null ==> P.CloseDefined(tty.driverData.View())
      modifies tty.driverData, if tty.driverData == null then null else tty.driverData.timer
      ensures Valid() && PortsOk()
      ensures P.Defined(old(View()), P.Close(tty.index, tty.driverData != null))
      ensures View() == P.Next(hz, old(View()), P.Close(tty.index, tty.driverData != null))
    {
      if tty.driverData != null {
        DoClose(tty.index, tty.driverData);
      }
    }

    /** A due timer is taken off the queue and its handler runs. */
    method RunTimer(i: nat)
      requires Valid() && PortsOk() && i < table.Length && P.Enabled(View(), P.Fire(i))
      modifies this`flips, table[i].timer
      ensures Valid() && PortsOk() && View() == P.Next(hz, old(View()), P.Fire(i))
      ensures flips == old(flips) + [P.Char(i, jiffies)]
      ensures table[i] != null && table[i].timer != null && table[i].timer.pending
      ensures table[i].timer.expires == jiffies + 2 * hz
    {
      hide View, P.PortsOk;
      PortShown(i);
      table[i].timer.DelTimer();
      TinyTimer(i, table[i]);
      OneSlotChanged(i);
      P.PortsOkNext(hz, old(View()), P.Fire(i));
    }

    method TinyTimer(i: nat, tiny: TinySerial)
      requires tiny.timer != null && !tiny.timer.pending
      modifies this`flips, tiny.timer
      ensures flips == old(flips) + [P.Char(i, jiffies)]
      ensures tiny.timer.View() == P.Timer(tiny.timer.id, true, jiffies + P.Delay(hz))
    {
      flips := flips + [P.Char(i, jiffies)];
      tiny.timer.expires := jiffies + P.Delay(hz);
      tiny.timer.AddTimer();
    }

    /** One pass of the shutdown loop. */
    method ExitPort(i: nat)
      requires Valid() && PortsOk() && i < table.Length && P.ExitDefined(View())
      modifies this`freed, table, table[i], if table[i] == null then null else table[i].timer
      ensures Valid() && PortsOk() && View() == P.ExitOne(old(View()), i)
      ensures table[i] == null && forall k :: 0 <= k < table.Length && k != i ==> table[k] == old(table[k])
    {
      var tiny := table[i];
      assert View().ports[i] == PortView(tiny);
      if tiny == null {
        return;
      }
      CloseAll(i, tiny);
      FreePort(i, tiny);
    }

    method CloseAll(i: nat, tiny: TinySerial)
      requires Valid() && PortsOk() && i < table.Length && table[i] == tiny
      requires tiny.openCount >= 0 && tiny.timer != null
      modifies tiny`openCount, tiny.timer
      ensures Valid() && PortsOk() && tiny.View() == P.CloseAll(old(tiny.View()))
      ensures View() == old(View()).(ports := old(View()).ports[i := tiny.View()])
    {
      hide P.PortsOk;
      ghost var s := View();
      assert s.ports[i := tiny.View()] == s.ports;
      while tiny.openCount != 0
        invariant Valid() && PortsOk() && table[i] == tiny && tiny.openCount >= 0
        invariant View() == s.(ports := s.ports[i := tiny.View()])
        invariant P.CloseAll(tiny.View()) == P.CloseAll(old(tiny.View()))
        decreases tiny.openCount
      {
        DoClose(i, tiny);
      }
    }

    /** Deleting the timer and freeing timer and port. */
    method FreePort(i: nat, tiny: TinySerial)
      requires Valid() && PortsOk() && i < table.Length && table[i] == tiny && tiny.timer != null
      modifies this`freed, table, tiny.timer
      ensures Valid() && PortsOk()
      ensures View() == old(View()).(ports := old(View()).ports[i := P.Absent],
                                     freed := old(View()).freed
                                              + [P.Freed(tiny.timer.id, false), P.Freed(tiny.id, false)])
      ensures table[i] == null && forall k :: 0 <= k < table.Length && k != i ==> table[k] == old(table[k])
    {
      hide View;
      tiny.timer.DelTimer();
      freed := freed + [P.Freed(tiny.timer.id, tiny.timer.pending)] + [P.Freed(tiny.id, false)];
      table[i] := null;
      OneSlotChanged(i);
    }

    method TinyExit()
      requires Valid() && PortsOk() && P.ExitDefined(View())
      modifies this`freed, table, Serials(), Timers()
      ensures Valid() && View() == P.ExitUpTo(old(View()), P.TINY_TTY_MINORS)
      ensures forall k :: 0 <= k < table.Length ==> table[k] == null
    {
      hide P.PortsOk, P.ExitOne, P.ExitDefined, View;
      ghost var s := View();
      for i := 0 to P.TINY_TTY_MINORS
        invariant Valid() && PortsOk() && View() == P.ExitUpTo(s, i)
        invariant forall k :: 0 <= k < i ==> table[k] == null
        invariant forall k :: i <= k < table.Length ==> table[k] == old(table[k])
        invariant forall k :: i <= k < table.Length && table[k] != null ==> table[k].timer == old(table[k].timer)
      {
        ExitPort(i);
      }
    }
  }
}
