/** Modem bits and the wait for a modem change. */
module TinyModem {

  // ----- Bits -----------------------------------------------------------------------------

  /** A register or argument word, as the set of the positions of its one bits. */
  type Word = set<nat>

  const MCR_DTR: nat := 0
  const MCR_RTS: nat := 1
  const MCR_LOOP: nat := 2
  const MSR_CTS: nat := 3
  const MSR_CD: nat := 4
  const MSR_RI: nat := 5
  const MSR_DSR: nat := 6

  const TIOCM_DTR: nat := 1
  const TIOCM_RTS: nat := 2
  const TIOCM_CTS: nat := 5
  const TIOCM_CAR: nat := 6
  const TIOCM_RI: nat := 7
  const TIOCM_DSR: nat := 8
  const TIOCM_LOOP: nat := 15

  /** The reported line `to` if register bit `from` is one. */
  function Line(reg: Word, from: nat, to: nat): Word { if from in reg then {to} else {} }

  /** The reported lines. */
  function Tiocmget(mcr: Word, msr: Word): Word {
    Line(mcr, MCR_DTR, TIOCM_DTR) + Line(mcr, MCR_RTS, TIOCM_RTS) + Line(mcr, MCR_LOOP, TIOCM_LOOP)
    + Line(msr, MSR_CTS, TIOCM_CTS) + Line(msr, MSR_CD, TIOCM_CAR)
    + Line(msr, MSR_RI, TIOCM_RI) + Line(msr, MSR_DSR, TIOCM_DSR)
  }

  /** Line `l` is reported on: its bit is one in the register that shadows it. */
  predicate LineOn(mcr: Word, msr: Word, l: nat) {
    || (l == TIOCM_DTR && MCR_DTR in mcr) || (l == TIOCM_RTS && MCR_RTS in mcr) || (l == TIOCM_LOOP && MCR_LOOP in mcr)
    || (l == TIOCM_CTS && MSR_CTS in msr) || (l == TIOCM_CAR && MSR_CD in msr)
    || (l == TIOCM_RI && MSR_RI in msr) || (l == TIOCM_DSR && MSR_DSR in msr)
  }

  /** Which bit of which register is reported where: DTR, RTS and LOOP from the control register, CTS, CD,
      RI and DSR from the status register, and nothing else. */
  lemma ReportedBits(mcr: Word, msr: Word)
    ensures var r := Tiocmget(mcr, msr);
            && (1 in r <==> 0 in mcr) && (2 in r <==> 1 in mcr) && (15 in r <==> 2 in mcr)
            && (5 in r <==> 3 in msr) && (6 in r <==> 4 in msr) && (7 in r <==> 5 in msr) && (8 in r <==> 6 in msr)
            && forall l :: l in r ==> l == 1 || l == 2 || l == 15 || 5 <= l <= 8
  {
    ReportedLines(mcr, msr);
    hide Tiocmget;
  }

  lemma ReportedLines(mcr: Word, msr: Word)
    ensures forall l :: l in Tiocmget(mcr, msr) <==> LineOn(mcr, msr, l)
  {
  }

  datatype SetCall = SetCall(raise: Word, clear: Word)

  /** The new control register; requests for either line act on the RTS bit. */
  function Tiocmset(mcr: Word, call: SetCall): Word {
    var m1 := if TIOCM_RTS in call.raise then mcr + {MCR_RTS} else mcr;
    var m2 := if TIOCM_DTR in call.raise then m1 + {MCR_RTS} else m1;
    var m3 := if TIOCM_RTS in call.clear then m2 - {MCR_RTS} else m2;
    if TIOCM_DTR in call.clear then m3 - {MCR_RTS} else m3
  }

  function McrAfter(mcr: Word, calls: seq<SetCall>): Word {
    if calls == [] then mcr else Tiocmset(McrAfter(mcr, calls[..|calls| - 1]), calls[|calls| - 1])
  }

  predicate Names(lines: Word) { TIOCM_RTS in lines || TIOCM_DTR in lines }

  /** One call: only the reported RTS line can change, and a clear wins over a set. */
  lemma OneSetCall(mcr: Word, msr: Word, call: SetCall)
    ensures forall l :: l != TIOCM_RTS ==> (l in Tiocmget(Tiocmset(mcr, call), msr) <==> l in Tiocmget(mcr, msr))
    ensures TIOCM_RTS in Tiocmget(Tiocmset(mcr, call), msr)
            <==> !Names(call.clear) && (Names(call.raise) || TIOCM_RTS in Tiocmget(mcr, msr))
  {
    OnlyRtsChanges(mcr, call);
    ReportedLines(mcr, msr);
    ReportedLines(Tiocmset(mcr, call), msr);
    hide Tiocmget, Tiocmset, Names;
  }

  lemma OnlyRtsChanges(mcr: Word, call: SetCall)
    ensures forall bit :: bit != MCR_RTS ==> (bit in Tiocmset(mcr, call) <==> bit in mcr)
    ensures MCR_RTS in Tiocmset(mcr, call) <==> !Names(call.clear) && (Names(call.raise) || MCR_RTS in mcr)
  {
  }

  /** The same in bit positions: arguments have DTR at 1 and RTS at 2, the register has RTS at 1. */
  lemma SetCallBits(mcr: Word, call: SetCall)
    ensures forall bit :: bit != 1 ==> (bit in Tiocmset(mcr, call) <==> bit in mcr)
    ensures 1 in Tiocmset(mcr, call) <==>
            1 !in call.clear && 2 !in call.clear && (1 in call.raise || 2 in call.raise || 1 in mcr)
  {
  }

  /** Over any sequence of calls the last one naming RTS or DTR decides the reported RTS line, clear
      beating set; without such a call it keeps its value; and no other reported line ever changes. */
  lemma {:induction false} LastNamingCallDecides(mcr: Word, msr: Word, calls: seq<SetCall>, k: int)
    requires -1 <= k < |calls|
    requires forall j :: k < j < |calls| ==> !Names(calls[j].raise) && !Names(calls[j].clear)
    requires k >= 0 ==> Names(calls[k].raise) || Names(calls[k].clear)
    ensures TIOCM_RTS in Tiocmget(McrAfter(mcr, calls), msr)
            <==> if k < 0 then TIOCM_RTS in Tiocmget(mcr, msr) else !Names(calls[k].clear)
    ensures forall l :: l != TIOCM_RTS ==> (l in Tiocmget(McrAfter(mcr, calls), msr) <==> l in Tiocmget(mcr, msr))
    decreases |calls|
  {
    hide Tiocmget, Tiocmset, Names;
    if calls != [] {
      var init, last := calls[..|calls| - 1], calls[|calls| - 1];
      OneSetCall(McrAfter(mcr, init), msr, last);
      if k < |calls| - 1 {
        assert !Names(calls[|calls| - 1].raise);
        LastNamingCallDecides(mcr, msr, init, k);
      } else {
        OtherLinesKept(mcr, msr, init);
      }
    }
  }

  lemma {:induction false} OtherLinesKept(mcr: Word, msr: Word, calls: seq<SetCall>)
    ensures forall l :: l != TIOCM_RTS ==> (l in Tiocmget(McrAfter(mcr, calls), msr) <==> l in Tiocmget(mcr, msr))
  {
    hide Tiocmget, Tiocmset, Names;
    if calls != [] {
      OtherLinesKept(mcr, msr, calls[..|calls| - 1]);
      OneSetCall(McrAfter(mcr, calls[..|calls| - 1]), msr, calls[|calls| - 1]);
    }
  }

  /** A request for the DTR line is honoured exactly when the line already had the requested value. */
  lemma DtrHonouredIff(mcr: Word, msr: Word, call: SetCall)
    requires TIOCM_DTR in call.raise + call.clear
    ensures var wanted := TIOCM_DTR !in call.clear;
            (TIOCM_DTR in Tiocmget(Tiocmset(mcr, call), msr) <==> wanted) <==> (MCR_DTR in mcr <==> wanted)
  {
  }

  // ----- Waiting for a change -------------------------------------------------------------

  const EIO := 5
  const ERESTARTSYS := 512

  datatype Counts = Counts(rng: int, dsr: int, dcd: int, cts: int)

  /** A wake-up: whether a signal is pending, and the counters then. */
  datatype Wake = Wake(signal: bool, now: Counts)

  datatype Outcome = StillWaiting | Finished(ret: int, at: nat)

  /** TIOCM_RNG and TIOCM_CD are the bits TIOCM_RI and TIOCM_CAR. */
  predicate SelectedChange(arg: Word, now: Counts, prev: Counts) {
    || (TIOCM_RI in arg && now.rng != prev.rng)
    || (TIOCM_DSR in arg && now.dsr != prev.dsr)
    || (TIOCM_CAR in arg && now.dcd != prev.dcd)
    || (TIOCM_CTS in arg && now.cts != prev.cts)
  }

  /** The counters wake `k` is compared with: those of the wake before it. */
  function Previous(start: Counts, wakes: seq<Wake>, k: nat): Counts
    requires k < |wakes|
  {
    if k == 0 then start else wakes[k - 1].now
  }

  /** Wake `k` is without a signal, and some line changed but only lines not asked for. */
  predicate WaitsAgain(start: Counts, arg: Word, wakes: seq<Wake>, k: nat)
    requires k < |wakes|
  {
    var prev := Previous(start, wakes, k);
    !wakes[k].signal && wakes[k].now != prev && !SelectedChange(arg, wakes[k].now, prev)
  }

  /** Some counter changed, but none of a line asked for: RNG by bit 7, DSR by bit 8, CD by bit 6, CTS by bit 5. */
  predicate OnlyUnasked(arg: Word, prev: Counts, now: Counts) {
    && now != prev
    && (7 in arg ==> now.rng == prev.rng) && (8 in arg ==> now.dsr == prev.dsr)
    && (6 in arg ==> now.dcd == prev.dcd) && (5 in arg ==> now.cts == prev.cts)
  }

  lemma UnaskedInBits(arg: Word, prev: Counts, now: Counts)
    ensures OnlyUnasked(arg, prev, now) <==> now != prev && !SelectedChange(arg, now, prev)
  {
  }

  /** The wait ends at the first wake that does not make it wait again, with the reason as result. */
  method Tiocmiwait(start: Counts, arg: Word, wakes: seq<Wake>) returns (r: Outcome)
    ensures r.StillWaiting? ==> forall j :: 0 <= j < |wakes| ==> WaitsAgain(start, arg, wakes, j)
    ensures r.Finished? ==>
      && r.at < |wakes| && !WaitsAgain(start, arg, wakes, r.at)
      && (forall j :: 0 <= j < r.at ==> WaitsAgain(start, arg, wakes, j))
      && r.ret == if wakes[r.at].signal then -ERESTARTSYS
                  else if wakes[r.at].now == Previous(start, wakes, r.at) then -EIO else 0
    ensures r == WaitFrom(start, arg, wakes, 0)
    ensures forall j :: 0 <= j < |wakes| && (r.Finished? ==> j < r.at) ==>
      !wakes[j].signal && OnlyUnasked(arg, if j == 0 then start else wakes[j - 1].now, wakes[j].now)
    ensures r.Finished? ==>
      var prev, now := if r.at == 0 then start else wakes[r.at - 1].now, wakes[r.at].now;
      if wakes[r.at].signal then r.ret == -512
      else if now == prev then r.ret == -5
      else r.ret == 0 && !OnlyUnasked(arg, prev, now)
  {
    hide SelectedChange, OnlyUnasked;
    var cprev := start;
    var k := 0;
    while k < |wakes|
      invariant k <= |wakes| && cprev == if k == 0 then start else wakes[k - 1].now
      invariant forall j :: 0 <= j < k ==> WaitsAgain(start, arg, wakes, j)
      invariant forall j :: 0 <= j < k ==>
        !wakes[j].signal && OnlyUnasked(arg, if j == 0 then start else wakes[j - 1].now, wakes[j].now)
      invariant WaitFrom(start, arg, wakes, 0) == WaitFrom(cprev, arg, wakes, k)
    {
      if wakes[k].signal {
        return Finished(-ERESTARTSYS, k);
      }
      var cnow := wakes[k].now;
      UnaskedInBits(arg, cprev, cnow);
      if cnow.rng == cprev.rng && cnow.dsr == cprev.dsr && cnow.dcd == cprev.dcd && cnow.cts == cprev.cts {
        return Finished(-EIO, k);
      }
      if SelectedChange(arg, cnow, cprev) {
        return Finished(0, k);
      }
      cprev := cnow;
      k := k + 1;
    }
    return StillWaiting;
  }

  /** The same wait, wake by wake. */
  function WaitFrom(prev: Counts, arg: Word, wakes: seq<Wake>, k: nat): Outcome
    requires k <= |wakes|
    decreases |wakes| - k
  {
    if k == |wakes| then StillWaiting
    else if wakes[k].signal then Finished(-ERESTARTSYS, k)
    else if wakes[k].now == prev then Finished(-EIO, k)
    else if SelectedChange(arg, wakes[k].now, prev) then Finished(0, k)
    else WaitFrom(wakes[k].now, arg, wakes, k + 1)
  }

  /** The first wake-up, if it comes without a signal and some counter has changed: the wait ends with 0
      exactly when a changed line is asked for, RNG by bit 7, DSR by bit 8, CD by bit 6 and CTS by bit 5. */
  lemma FirstWake(start: Counts, arg: Word, wakes: seq<Wake>)
    requires wakes != [] && !wakes[0].signal && wakes[0].now != start
    ensures var now, r := wakes[0].now, WaitFrom(start, arg, wakes, 0);
            && (r == Finished(0, 0) <==>
                  || (7 in arg && now.rng != start.rng) || (8 in arg && now.dsr != start.dsr)
                  || (6 in arg && now.dcd != start.dcd) || (5 in arg && now.cts != start.cts))
            && (now == start.(rng := now.rng) ==> (r == Finished(0, 0) <==> 7 in arg))
            && (now == start.(dsr := now.dsr) ==> (r == Finished(0, 0) <==> 8 in arg))
            && (now == start.(dcd := now.dcd) ==> (r == Finished(0, 0) <==> 6 in arg))
            && (now == start.(cts := now.cts) ==> (r == Finished(0, 0) <==> 5 in arg))
  {
    if !SelectedChange(arg, wakes[0].now, start) {
      WaitLater(wakes[0].now, arg, wakes, 1);
    }
  }

  lemma {:induction false} WaitLater(prev: Counts, arg: Word, wakes: seq<Wake>, k: nat)
    requires k <= |wakes|
    ensures WaitFrom(prev, arg, wakes, k).Finished? ==> WaitFrom(prev, arg, wakes, k).at >= k
    decreases |wakes| - k
  {
    if k < |wakes| {
      WaitLater(wakes[k].now, arg, wakes, k + 1);
    }
  }
}
