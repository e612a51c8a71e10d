/** Properties of all runs over the tiny tty ports. */
module TinyPortsProperties {
  import opened TinyPorts

  // ----- Timers and open counts -----------------------------------------------------------

  /** The event takes the path where the port's timer cannot be allocated. */
  predicate TimerAllocFails(s: Tty, e: Event) {
    && e.Open? && e.i < |s.ports| && !e.timerAlloc
    && (if s.ports[e.i].Absent? then e.portAlloc
        else s.ports[e.i].openCount == 0 && s.ports[e.i].timer.NoTimer?)
  }

  ghost predicate SomeTimerAllocFails(states: seq<Tty>, evs: seq<Event>, n: nat)
    requires n <= |evs| <= |states|
  {
    exists k :: 0 <= k < n && TimerAllocFails(states[k], evs[k])
  }

  /** Every port stays sound or timerless, and a timerless one stays so. */
  lemma PortsNext(hz: int, s: Tty, e: Event)
    requires Enabled(s, e) && Defined(s, e)
    requires PortsOk(s.ports)
    ensures var r := Next(hz, s, e);
            && PortsOk(r.ports)
            && (forall i :: 0 <= i < |s.ports| && Timerless(s.ports[i]) ==> Timerless(r.ports[i]))
            && ((exists i :: 0 <= i < |r.ports| && Timerless(r.ports[i])) <==>
                TimerAllocFails(s, e) || exists i :: 0 <= i < |s.ports| && Timerless(s.ports[i]))
  {
    var r := Next(hz, s, e);
    if TimerAllocFails(s, e) {
      assert Timerless(r.ports[e.i]);
    }
  }

  /** On every run that does not crash, all ports have their timer pending exactly while they are
      open if, and only if, no event of the run failed to allocate a timer it needed. */
  lemma {:induction false} TimersFollowCountsIff(hz: int, states: seq<Tty>, evs: seq<Event>, n: nat)
    requires IsRun(hz, states, evs) && n <= |evs|
    ensures |states[n].ports| == TINY_TTY_MINORS
    ensures PortsOk(states[n].ports)
    ensures (forall i :: 0 <= i < TINY_TTY_MINORS ==> Sound(states[n].ports[i]))
            <==> !SomeTimerAllocFails(states, evs, n)
  {
    if n > 0 {
      TimersFollowCountsIff(hz, states, evs, n - 1);
      var s, e := states[n - 1], evs[n - 1];
      assert states[n - 1 + 1] == Next(hz, s, e);
      PortsNext(hz, s, e);
      assert SomeTimerAllocFails(states, evs, n) <==>
             SomeTimerAllocFails(states, evs, n - 1) || TimerAllocFails(s, e);
    }
  }

  /** The failure path, concretely: one open whose timer allocation fails leaves a port with count 1
      and no timer, and closing it would use the missing timer. */
  lemma FailedTimerAllocBreaksClose(hz: int, now: int)
    requires hz > 0
    ensures var s := Next(hz, Init(now), Open(0, true, false));
            Timerless(s.ports[0]) && Enabled(s, Close(0, true)) && !Defined(s, Close(0, true))
  {
  }

  /** Without such a failure no event can crash, and `add_timer` never meets a pending timer. */
  lemma NoCrashWithoutFailure(hz: int, states: seq<Tty>, evs: seq<Event>, e: Event)
    requires IsRun(hz, states, evs) && !SomeTimerAllocFails(states, evs, |evs|)
    requires Enabled(states[|evs|], e)
    ensures Defined(states[|evs|], e)
    ensures e.Open? && states[|evs|].ports[e.i].Port? && states[|evs|].ports[e.i].openCount == 0
            ==> states[|evs|].ports[e.i].timer.Timer? && !states[|evs|].ports[e.i].timer.pending
  {
    TimersFollowCountsIff(hz, states, evs, |evs|);
  }

  /** With one, closes alone lead from the end of the run to a close that uses the missing timer. */
  lemma FailureLeadsToCrash(hz: int, states: seq<Tty>, evs: seq<Event>)
      returns (states': seq<Tty>, evs': seq<Event>, e: Event)
    requires IsRun(hz, states, evs) && SomeTimerAllocFails(states, evs, |evs|)
    ensures IsRun(hz, states', evs') && states <= states' && evs <= evs'
    ensures forall k :: |evs| <= k < |evs'| ==> evs'[k].Close?
    ensures e.Close? && Enabled(states'[|evs'|], e) && !Defined(states'[|evs'|], e)
  {
    TimersFollowCountsIff(hz, states, evs, |evs|);
    var i :| 0 <= i < TINY_TTY_MINORS && !Sound(states[|evs|].ports[i]);
    assert Timerless(states[|evs|].ports[i]);
    states', evs' := CloseUntilOne(hz, states, evs, i);
    e := Close(i, true);
  }

  lemma {:induction false} CloseUntilOne(hz: int, states: seq<Tty>, evs: seq<Event>, i: nat)
      returns (states': seq<Tty>, evs': seq<Event>)
    requires IsRun(hz, states, evs) && i < |states[|evs|].ports| && Timerless(states[|evs|].ports[i])
    ensures IsRun(hz, states', evs') && states <= states' && evs <= evs'
    ensures forall k :: |evs| <= k < |evs'| ==> evs'[k].Close?
    ensures i < |states'[|evs'|].ports| && Timerless(states'[|evs'|].ports[i])
    ensures states'[|evs'|].ports[i].openCount == 1
    decreases states[|evs|].ports[i].openCount
  {
    var s := states[|evs|];
    if s.ports[i].openCount == 1 {
      states', evs' := states, evs;
    } else {
      var next := Next(hz, s, Close(i, true));
      states', evs' := CloseUntilOne(hz, states + [next], evs + [Close(i, true)], i);
      assert states <= states + [next] <= states' && evs <= evs + [Close(i, true)] <= evs';
    }
  }

  /** Opens that reached the port minus closes, each close stopping at zero. */
  ghost function Balance(states: seq<Tty>, evs: seq<Event>, i: nat, n: nat): int
    requires n <= |evs| <= |states|
  {
    if n == 0 then 0
    else BalanceAfter(states[n - 1], evs[n - 1], i, Balance(states, evs, i, n - 1))
  }

  /** How one event changes the balance of port `i`. */
  function BalanceAfter(s: Tty, e: Event, i: nat, b: int): int {
    if e.Open? && e.i == i && i < |s.ports| && (s.ports[i].Port? || e.portAlloc) then b + 1
    else if e.Close? && e.i == i && e.linked && b > 0 then b - 1
    else b
  }

  function OpenCount(p: Port): int { if p.Absent? then 0 else p.openCount }

  lemma BalanceNext(hz: int, s: Tty, e: Event, i: nat)
    requires Enabled(s, e) && Defined(s, e) && PortsOk(s.ports) && i < |s.ports|
    ensures OpenCount(Next(hz, s, e).ports[i]) == BalanceAfter(s, e, i, OpenCount(s.ports[i]))
  {
    assert Sound(s.ports[i]) || Timerless(s.ports[i]);
  }

  lemma {:induction false} OpenCountIsBalance(hz: int, states: seq<Tty>, evs: seq<Event>, i: nat, n: nat)
    requires IsRun(hz, states, evs) && n <= |evs| && i < TINY_TTY_MINORS
    ensures |states[n].ports| == TINY_TTY_MINORS
    ensures Balance(states, evs, i, n) == OpenCount(states[n].ports[i])
  {
    TimersFollowCountsIff(hz, states, evs, n);
    if n > 0 {
      OpenCountIsBalance(hz, states, evs, i, n - 1);
      TimersFollowCountsIff(hz, states, evs, n - 1);
      RunStep(hz, states, evs, n - 1);
      hide IsRun, PortsOk, Sound, Next, Enabled, Defined, OpenCount, BalanceAfter;
      BalanceNext(hz, states[n - 1], evs[n - 1], i);
    }
  }

  // ----- The rate of characters -----------------------------------------------------------

  /** Characters lie in the past, at least a delay apart on each port, and a pending timer expires at
      least a delay after the port's last character and at most a delay from now. */
  ghost predicate Spaced(hz: int, s: Tty) {
    && (forall k :: 0 <= k < |s.chars| ==> s.chars[k].at <= s.now && s.chars[k].port < |s.ports|)
    && (forall j, k :: 0 <= j < k < |s.chars| && s.chars[j].port == s.chars[k].port
          ==> s.chars[k].at - s.chars[j].at >= Delay(hz))
    && (forall k :: 0 <= k < |s.chars| ==> ExpiresAfter(s.ports[s.chars[k].port], s.chars[k].at + Delay(hz)))
    && (forall i :: 0 <= i < |s.ports| && Ticking(s.ports[i]) ==> s.ports[i].timer.expires <= s.now + Delay(hz))
  }

  predicate Ticking(p: Port) { p.Port? && p.timer.Timer? && p.timer.pending }

  predicate ExpiresAfter(p: Port, time: int) { Ticking(p) ==> p.timer.expires >= time }

  /** What an event other than a firing does to characters, time and pending timers. */
  lemma NoFireStep(hz: int, s: Tty, e: Event)
    requires hz > 0 && Enabled(s, e) && Defined(s, e) && !e.Fire?
    ensures var r := Next(hz, s, e);
            && r.chars == s.chars && r.now >= s.now && |r.ports| == |s.ports|
            && forall i :: 0 <= i < |r.ports| && Ticking(r.ports[i]) ==>
                 || (Ticking(s.ports[i]) && r.ports[i].timer.expires == s.ports[i].timer.expires)
                 || r.ports[i].timer.expires == r.now + Delay(hz)
  {
  }

  lemma SpacedNext(hz: int, s: Tty, e: Event)
    requires hz > 0 && Spaced(hz, s) && Enabled(s, e) && Defined(s, e)
    ensures Spaced(hz, Next(hz, s, e))
  {
    hide Next, Enabled, Defined, Ticking;
    if e.Fire? {
      SpacedFire(hz, s, e);
    } else {
      NoFireStep(hz, s, e);
      var r := Next(hz, s, e);
      forall k | 0 <= k < |s.chars| ensures ExpiresAfter(r.ports[s.chars[k].port], s.chars[k].at + Delay(hz)) {
        assert ExpiresAfter(s.ports[s.chars[k].port], s.chars[k].at + Delay(hz));
      }
    }
  }

  lemma SpacedFire(hz: int, s: Tty, e: Event)
    requires hz > 0 && Spaced(hz, s) && Enabled(s, e) && Defined(s, e) && e.Fire?
    ensures Spaced(hz, Next(hz, s, e))
  {
    var r := Next(hz, s, e);
    forall k | 0 <= k < |s.chars|
      ensures s.chars[k].port == e.i ==> s.now - s.chars[k].at >= Delay(hz)
      ensures r.chars[k] == s.chars[k] && ExpiresAfter(r.ports[s.chars[k].port], s.chars[k].at + Delay(hz))
    {
      assert ExpiresAfter(s.ports[s.chars[k].port], s.chars[k].at + Delay(hz));
    }
  }

  lemma {:induction false} SpacedAlways(hz: int, states: seq<Tty>, evs: seq<Event>, n: nat)
    requires IsRun(hz, states, evs) && n <= |evs|
    ensures Spaced(hz, states[n])
  {
    if n > 0 {
      SpacedAlways(hz, states, evs, n - 1);
      assert states[n - 1 + 1] == Next(hz, states[n - 1], evs[n - 1]);
      SpacedNext(hz, states[n - 1], evs[n - 1]);
    }
  }

  /** Two characters on the same port are at least two seconds apart, across closes and reopens too, and a
      pending timer is due within two seconds. */
  lemma CharactersAreSpaced(hz: int, states: seq<Tty>, evs: seq<Event>, n: nat)
    requires IsRun(hz, states, evs) && n <= |evs|
    ensures Spaced(hz, states[n])
    ensures forall j, k :: 0 <= j < k < |states[n].chars| && states[n].chars[j].port == states[n].chars[k].port
              ==> states[n].chars[k].at - states[n].chars[j].at >= 2 * hz
    ensures forall i :: 0 <= i < |states[n].ports| && states[n].ports[i].Port?
                        && states[n].ports[i].timer.Timer? && states[n].ports[i].timer.pending
              ==> states[n].ports[i].timer.expires <= states[n].now + 2 * hz
  {
    SpacedAlways(hz, states, evs, n);
    hide IsRun;
  }

  /** When timers are set: a firing, and an open that raises the count to one with a timer, leave the
      port's timer due exactly two seconds later; nothing else sets or moves a pending timer. */
  lemma TimersAreSet(hz: int, states: seq<Tty>, evs: seq<Event>, n: nat, i: nat)
    requires IsRun(hz, states, evs) && n < |evs| && i < TINY_TTY_MINORS
    ensures |states[n].ports| == |states[n + 1].ports| == TINY_TTY_MINORS
    ensures var p, e := states[n + 1].ports[i], evs[n];
            if e == Fire(i) then
              p.Port? && p.timer.Timer? && p.timer.pending && p.timer.expires == states[n].now + 2 * hz
            else if e.Open? && e.i == i && p.Port? && p.openCount == 1 && p.timer.Timer? then
              p.timer.pending && p.timer.expires == states[n].now + 2 * hz
            else p.Port? && p.timer.Timer? && p.timer.pending ==>
              states[n].ports[i].Port? && states[n].ports[i].timer == p.timer
  {
    TimersFollowCountsIff(hz, states, evs, n);
    TimersFollowCountsIff(hz, states, evs, n + 1);
    RunStep(hz, states, evs, n);
    hide IsRun;
    assert Sound(states[n].ports[i]) || Timerless(states[n].ports[i]);
  }

  function CharsOn(chars: seq<Char>, i: nat): nat {
    if chars == [] then 0 else CharsOn(chars[..|chars| - 1], i) + if chars[|chars| - 1].port == i then 1 else 0
  }

  /** Each timer firing inserts exactly one character, stamped now, on a port whose count is positive,
      and no other event inserts any. */
  lemma CharactersComeFromOpenPorts(hz: int, states: seq<Tty>, evs: seq<Event>, n: nat)
    requires IsRun(hz, states, evs) && n < |evs|
    ensures states[n + 1].chars == states[n].chars + if evs[n].Fire? then [Char(evs[n].i, states[n].now)] else []
    ensures evs[n].Fire? ==> evs[n].i < |states[n].ports| && states[n].ports[evs[n].i].Port?
                             && states[n].ports[evs[n].i].openCount > 0
  {
    TimersFollowCountsIff(hz, states, evs, n);
    assert states[n + 1] == Next(hz, states[n], evs[n]);
    if evs[n].Fire? {
      assert Sound(states[n].ports[evs[n].i]);
    }
  }

  /** `k` delays in a row. */
  function Delays(hz: int, k: nat): int {
    if k == 0 then 0 else Delays(hz, k - 1) + Delay(hz)
  }

  lemma {:induction false} DelaysMany(hz: int, k: nat)
    ensures Delays(hz, k) == k * Delay(hz)
  {
    if k > 0 {
      DelaysMany(hz, k - 1);
      assert (k - 1) * Delay(hz) + Delay(hz) == k * Delay(hz);
    }
  }

  lemma FloorBound(k: int, d: int, t: int)
    requires d > 0 && k * d <= t
    ensures k <= t / d
  {
    var q := t / d;
    assert t < (q + 1) * d;
    if k > q {
      TimesMonotone(q + 1, k, d);
      assert false;
    }
  }

  lemma TimesMonotone(a: int, b: int, d: int)
    requires a <= b && d > 0
    ensures a * d <= b * d
  {
  }

  /** From time `since` on, when `before` characters had been inserted: a delay passes before each
      further character, and before the next one. */
  ghost predicate Paced(hz: int, s: Tty, i: nat, since: int, before: nat) {
    && i < |s.ports| && before <= CharsOn(s.chars, i)
    && var k := CharsOn(s.chars, i) - before;
       && Delays(hz, k) <= s.now - since
       && ExpiresAfter(s.ports[i], since + Delays(hz, k + 1))
  }

  lemma PacedNext(hz: int, s: Tty, e: Event, i: nat, since: int, before: nat)
    requires hz > 0 && Enabled(s, e) && Defined(s, e) && Paced(hz, s, i, since, before)
    ensures Paced(hz, Next(hz, s, e), i, since, before)
  {
    var r := Next(hz, s, e);
    var k := CharsOn(s.chars, i) - before;
    assert Delays(hz, k + 2) == Delays(hz, k + 1) + Delay(hz) == Delays(hz, k) + Delay(hz) + Delay(hz);
    if e.Fire? {
      assert r.chars[..|s.chars|] == s.chars;
    }
  }

  lemma RunStep(hz: int, states: seq<Tty>, evs: seq<Event>, k: nat)
    requires IsRun(hz, states, evs) && k < |evs|
    ensures hz > 0 && |states| == |evs| + 1
    ensures Enabled(states[k], evs[k]) && Defined(states[k], evs[k])
    ensures states[k + 1] == Next(hz, states[k], evs[k])
  {
  }

  lemma {:induction false} PacedAlways(hz: int, states: seq<Tty>, evs: seq<Event>, i: nat, m: nat, n: nat)
    requires IsRun(hz, states, evs) && m < n <= |evs| && i < TINY_TTY_MINORS
    requires |states[m].ports| == |states[m + 1].ports| == TINY_TTY_MINORS
    requires !Ticking(states[m].ports[i]) && Ticking(states[m + 1].ports[i])
    ensures Paced(hz, states[n], i, states[m].now, CharsOn(states[m].chars, i))
    decreases n
  {
    hide IsRun, Paced, Next, Enabled, Defined, CharsOn, Ticking;
    RunStep(hz, states, evs, n - 1);
    if n == m + 1 {
      PacedFromStart(hz, states[m], evs[m], i);
    } else {
      PacedAlways(hz, states, evs, i, m, n - 1);
      PacedNext(hz, states[n - 1], evs[n - 1], i, states[m].now, CharsOn(states[m].chars, i));
    }
  }

  lemma TwoSeconds(hz: int)
    ensures Delay(hz) == 2 * hz
  {
  }

  /** The rate bound: counted from the open that takes a port's count from 0 to 1 at time `a`, at most
      floor((now - a) / (2 * HZ)) characters have been inserted on the port by any later moment. */
  lemma RateBound(hz: int, states: seq<Tty>, evs: seq<Event>, i: nat, m: nat, n: nat)
    requires IsRun(hz, states, evs) && m < n <= |evs| && i < TINY_TTY_MINORS
    requires |states[m + 1].ports| == TINY_TTY_MINORS && evs[m].Open? && evs[m].i == i
    requires states[m + 1].ports[i].Port? && states[m + 1].ports[i].openCount == 1
    ensures hz > 0 && CharsOn(states[n].chars, i) - CharsOn(states[m].chars, i)
                      <= (states[n].now - states[m].now) / (2 * hz)
  {
    TimersFollowCountsIff(hz, states, evs, m);
    RunStep(hz, states, evs, m);
    hide IsRun, Next, Enabled, Defined, PortsOk, Ticking, Timerless, Sound, CharsOn, Delay;
    TwoSeconds(hz);
    FirstOpen(hz, states[m], evs[m], i);
    var k := CharsOn(states[n].chars, i) - CharsOn(states[m].chars, i);
    if Ticking(states[m + 1].ports[i]) {
      PacedAlways(hz, states, evs, i, m, n);
      DelaysMany(hz, k);
      FloorBound(k, Delay(hz), states[n].now - states[m].now);
    } else {
      TimerlessIsSilent(hz, states, evs, i, m + 1, n);
      TimeAdvances(hz, states, evs, m, n);
      ZeroBound(states[n].now - states[m].now, Delay(hz));
    }
  }

  /** The open that takes a port's count to one finds its timer idle and sets it, or there is none. */
  lemma FirstOpen(hz: int, s: Tty, e: Event, i: nat)
    requires Enabled(s, e) && Defined(s, e) && PortsOk(s.ports) && e.Open? && e.i == i
    requires i < |s.ports| && Next(hz, s, e).ports[i].Port? && Next(hz, s, e).ports[i].openCount == 1
    ensures !Ticking(s.ports[i]) && Next(hz, s, e).chars == s.chars
    ensures Ticking(Next(hz, s, e).ports[i]) || Timerless(Next(hz, s, e).ports[i])
  {
    assert Sound(s.ports[i]) || Timerless(s.ports[i]);
  }

  lemma ZeroBound(x: int, d: int)
    requires x >= 0 && d > 0
    ensures 0 <= x / d
  {
  }

  /** A port that has lost its timer inserts nothing any more. */
  lemma {:induction false} TimerlessIsSilent(hz: int, states: seq<Tty>, evs: seq<Event>, i: nat, m: nat, n: nat)
    requires IsRun(hz, states, evs) && m <= n <= |evs| && i < TINY_TTY_MINORS
    requires |states[m].ports| == TINY_TTY_MINORS && Timerless(states[m].ports[i])
    ensures |states[n].ports| == TINY_TTY_MINORS && Timerless(states[n].ports[i])
    ensures CharsOn(states[n].chars, i) == CharsOn(states[m].chars, i)
    decreases n
  {
    hide IsRun, Next, CharsOn, Enabled, Defined, Timerless;
    if m < n {
      TimerlessIsSilent(hz, states, evs, i, m, n - 1);
      RunStep(hz, states, evs, n - 1);
      TimerlessStep(hz, states[n - 1], evs[n - 1], i);
    }
  }

  lemma TimerlessStep(hz: int, s: Tty, e: Event, i: nat)
    requires Enabled(s, e) && Defined(s, e) && i < |s.ports| && Timerless(s.ports[i])
    ensures |Next(hz, s, e).ports| == |s.ports| && Timerless(Next(hz, s, e).ports[i])
    ensures CharsOn(Next(hz, s, e).chars, i) == CharsOn(s.chars, i)
  {
    if e.Fire? {
      assert Next(hz, s, e).chars[..|s.chars|] == s.chars;
    }
  }

  lemma {:induction false} TimeAdvances(hz: int, states: seq<Tty>, evs: seq<Event>, m: nat, n: nat)
    requires IsRun(hz, states, evs) && m <= n <= |evs|
    ensures states[m].now <= states[n].now
    decreases n
  {
    hide IsRun;
    if m < n {
      TimeAdvances(hz, states, evs, m, n - 1);
      RunStep(hz, states, evs, n - 1);
    }
  }

  lemma PacedFromStart(hz: int, s: Tty, e: Event, i: nat)
    requires hz > 0 && Enabled(s, e) && Defined(s, e) && i < |s.ports|
    requires !Ticking(s.ports[i]) && Ticking(Next(hz, s, e).ports[i])
    ensures Paced(hz, Next(hz, s, e), i, s.now, CharsOn(s.chars, i))
  {
    assert e.Open? && e.i == i;
    assert Delays(hz, 1) == Delay(hz);
  }

  // ----- Conservation of allocations ------------------------------------------------------

  /** How often the port owns object `x`, as the port structure itself or as its timer. */
  function Owns(p: Port, x: int): nat {
    match p
    case Absent => 0
    case Port(id, _, timer) => (if id == x then 1 else 0) + if timer.Timer? && timer.id == x then 1 else 0
  }

  function OwnedTimes(ports: seq<Port>, x: int): nat {
    if ports == [] then 0 else OwnedTimes(ports[..|ports| - 1], x) + Owns(ports[|ports| - 1], x)
  }

  function FreedTimes(freed: seq<Freed>, x: int): nat {
    if freed == [] then 0
    else FreedTimes(freed[..|freed| - 1], x) + if freed[|freed| - 1].id == x then 1 else 0
  }

  lemma {:induction false} OwnedUpdate(ports: seq<Port>, i: nat, p: Port, x: int)
    requires i < |ports|
    ensures OwnedTimes(ports[i := p], x) == OwnedTimes(ports, x) - Owns(ports[i], x) + Owns(p, x)
    decreases |ports|
  {
    var m := |ports| - 1;
    if i < m {
      OwnedUpdate(ports[..m], i, p, x);
      assert ports[i := p][..m] == ports[..m][i := p];
    } else {
      assert ports[i := p][..m] == ports[..m];
    }
  }

  /** Nothing is freed before the shutdown, and every object allocated so far belongs to exactly one
      port, in one place. */
  ghost predicate Conserved(s: Tty) {
    s.freed == [] && forall x :: OwnedTimes(s.ports, x) == if 0 <= x < s.nextId then 1 else 0
  }

  /** One event changes one port, and what that port owns by the objects allocated. */
  lemma OwnedByEvent(hz: int, s: Tty, e: Event)
    requires Enabled(s, e) && Defined(s, e) && PortsOk(s.ports) && s.freed == []
    ensures var r := Next(hz, s, e);
            && r.freed == [] && r.nextId >= s.nextId
            && (e.Advance? ==> r.ports == s.ports && r.nextId == s.nextId)
            && (!e.Advance? ==>
                  && e.i < |s.ports| == |r.ports| && r.ports == s.ports[e.i := r.ports[e.i]]
                  && forall x :: Owns(r.ports[e.i], x)
                                 == Owns(s.ports[e.i], x) + if s.nextId <= x < r.nextId then 1 else 0)
  {
    if !e.Advance? {
      assert Sound(s.ports[e.i]) || Timerless(s.ports[e.i]);
    }
  }

  lemma ConservedNext(hz: int, s: Tty, e: Event)
    requires Enabled(s, e) && Defined(s, e) && Conserved(s)
    requires PortsOk(s.ports)
    ensures Conserved(Next(hz, s, e))
  {
    hide OwnedTimes, Owns, Next, Enabled, Defined, PortsOk;
    OwnedByEvent(hz, s, e);
    var r := Next(hz, s, e);
    if !e.Advance? {
      forall x ensures OwnedTimes(r.ports, x) == if 0 <= x < r.nextId then 1 else 0 {
        assert OwnedTimes(s.ports, x) == if 0 <= x < s.nextId then 1 else 0;
        OwnedUpdate(s.ports, e.i, r.ports[e.i], x);
      }
    }
  }

  lemma {:induction false} RunConserved(hz: int, states: seq<Tty>, evs: seq<Event>, n: nat)
    requires IsRun(hz, states, evs) && n <= |evs|
    ensures Conserved(states[n])
  {
    if n == 0 {
      NothingOwned(states[0].ports);
    } else {
      RunConserved(hz, states, evs, n - 1);
      TimersFollowCountsIff(hz, states, evs, n - 1);
      assert states[n - 1 + 1] == Next(hz, states[n - 1], evs[n - 1]);
      ConservedNext(hz, states[n - 1], evs[n - 1]);
    }
  }

  lemma {:induction false} NothingOwned(ports: seq<Port>)
    requires forall i :: 0 <= i < |ports| ==> ports[i].Absent?
    ensures forall x :: OwnedTimes(ports, x) == 0
  {
    if ports != [] {
      NothingOwned(ports[..|ports| - 1]);
    }
  }

  lemma FreedTwoMore(freed: seq<Freed>, a: Freed, b: Freed, x: int)
    ensures FreedTimes(freed + [a, b], x)
            == FreedTimes(freed, x) + (if a.id == x then 1 else 0) + if b.id == x then 1 else 0
  {
    assert (freed + [a, b])[..|freed| + 1] == freed + [a] && (freed + [a])[..|freed|] == freed;
  }

  /** The shutdown moves objects from ports to the allocator, losing and inventing none. */
  lemma {:induction false} ExitMovesObjects(s: Tty, n: nat, x: int)
    requires ExitDefined(s) && n <= |s.ports|
    ensures var r := ExitUpTo(s, n);
            FreedTimes(r.freed, x) + OwnedTimes(r.ports, x) == FreedTimes(s.freed, x) + OwnedTimes(s.ports, x)
  {
    hide OwnedTimes, FreedTimes, ExitOne;
    if n > 0 {
      ExitMovesObjects(s, n - 1, x);
      ExitOneMoves(ExitUpTo(s, n - 1), n - 1, x);
    }
  }

  lemma ExitOneMoves(s: Tty, i: nat, x: int)
    requires ExitDefined(s) && i < |s.ports|
    ensures var r := ExitOne(s, i);
            FreedTimes(r.freed, x) + OwnedTimes(r.ports, x) == FreedTimes(s.freed, x) + OwnedTimes(s.ports, x)
  {
    hide OwnedTimes, FreedTimes, CloseAll;
    var p := s.ports[i];
    if p.Port? {
      OwnedUpdate(s.ports, i, Absent, x);
      FreedTwoMore(s.freed, Freed(p.timer.id, false), Freed(p.id, false), x);
    }
  }

  predicate AbsentBelow(ports: seq<Port>, n: nat)
    requires n <= |ports|
  {
    forall i :: 0 <= i < n ==> ports[i].Absent?
  }

  predicate NonePending(freed: seq<Freed>) {
    forall k :: 0 <= k < |freed| ==> !freed[k].pending
  }

  lemma {:induction false} ExitEmptiesTable(s: Tty, n: nat)
    requires ExitDefined(s) && n <= |s.ports| && NonePending(s.freed)
    ensures AbsentBelow(ExitUpTo(s, n).ports, n)
    ensures NonePending(ExitUpTo(s, n).freed)
  {
    if n > 0 {
      ExitEmptiesTable(s, n - 1);
    }
  }

  /** The shutdown goes through without using a missing timer if, and only if, no event of the run
      failed to allocate a timer it needed. */
  lemma ShutdownDefinedIff(hz: int, states: seq<Tty>, evs: seq<Event>)
    requires IsRun(hz, states, evs)
    ensures ExitDefined(states[|evs|]) <==> !SomeTimerAllocFails(states, evs, |evs|)
  {
    TimersFollowCountsIff(hz, states, evs, |evs|);
    var ports := states[|evs|].ports;
    hide IsRun, SomeTimerAllocFails;
    forall i | 0 <= i < TINY_TTY_MINORS
      ensures Sound(ports[i]) <==> (ports[i].Port? ==> ports[i].timer.Timer? && ports[i].openCount >= 0) {
      assert Sound(ports[i]) || Timerless(ports[i]);
    }
  }

  /** From the end of every run without a failed timer allocation, the shutdown empties the table and
      frees every object ever allocated exactly once, and nothing else; no timer is pending when freed. */
  lemma ShutdownConserves(hz: int, states: seq<Tty>, evs: seq<Event>)
    requires IsRun(hz, states, evs) && !SomeTimerAllocFails(states, evs, |evs|)
    ensures ExitDefined(states[|evs|]) && |states[|evs|].ports| == TINY_TTY_MINORS
    ensures var s := states[|evs|];
            var r := ExitUpTo(s, TINY_TTY_MINORS);
            && AbsentBelow(r.ports, TINY_TTY_MINORS)
            && (forall x :: FreedTimes(r.freed, x) == if 0 <= x < s.nextId then 1 else 0)
            && NonePending(r.freed)
            && r.chars == s.chars
  {
    var s := states[|evs|];
    TimersFollowCountsIff(hz, states, evs, |evs|);
    RunConserved(hz, states, evs, |evs|);
    ShutdownDefinedIff(hz, states, evs);
    hide Sound, ExitUpTo, OwnedTimes, Owns, IsRun;
    var r := ExitUpTo(s, TINY_TTY_MINORS);
    ExitEmptiesTable(s, TINY_TTY_MINORS);
    NothingOwned(r.ports);
    forall x ensures FreedTimes(r.freed, x) == if 0 <= x < s.nextId then 1 else 0 {
      ExitMovesObjects(s, TINY_TTY_MINORS, x);
      assert OwnedTimes(r.ports, x) == 0;
    }
    ExitKeepsChars(s, TINY_TTY_MINORS);
  }

  lemma {:induction false} ExitKeepsChars(s: Tty, n: nat)
    requires ExitDefined(s) && n <= |s.ports|
    ensures ExitUpTo(s, n).chars == s.chars
  {
    if n > 0 {
      ExitKeepsChars(s, n - 1);
    }
  }
}
