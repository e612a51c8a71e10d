/** The tiny tty ports as values: what opens, closes, timer firings and the shutdown do. */
module TinyPorts {

  const TINY_TTY_MINORS := 4
  const ENOMEM := 12

  datatype Timer = NoTimer | Timer(id: nat, pending: bool, expires: int)

  datatype Port = Absent | Port(id: nat, openCount: int, timer: Timer)

  /** A character handed to the tty layer, with the time in jiffies. */
  datatype Char = Char(port: nat, at: int)

  /** An object given back to the allocator, and whether it was a pending timer. */
  datatype Freed = Freed(id: nat, pending: bool)

  /** Objects get the numbers 0, 1, 2, ... in the order they are allocated; `nextId` is the next. */
  datatype Tty = Tty(ports: seq<Port>, now: int, chars: seq<Char>, nextId: nat, freed: seq<Freed>)

  function Delay(hz: int): int { hz * 2 }

  function Init(now: int): Tty {
    Tty([Absent, Absent, Absent, Absent], now, [], 0, [])
  }

  // ----- Ports ----------------------------------------------------------------------------

  /** The timer is there, and pending exactly while the port is open. */
  predicate Sound(p: Port) {
    p.Port? ==> p.openCount >= 0 && p.timer.Timer? && (p.timer.pending <==> p.openCount > 0)
  }

  /** A port whose first open could not allocate a timer: open, and no timer will ever come. */
  predicate Timerless(p: Port) { p.Port? && p.openCount > 0 && p.timer.NoTimer? }

  predicate PortsOk(ports: seq<Port>) {
    forall i :: 0 <= i < |ports| ==> Sound(ports[i]) || Timerless(ports[i])
  }

  // ----- Operations -----------------------------------------------------------------------

  /** Opening port `i`; the flags say whether an allocation, if one is needed, succeeds. */
  function OpenPort(hz: int, s: Tty, i: nat, portAlloc: bool, timerAlloc: bool): Tty
    requires i < |s.ports|
  {
    if s.ports[i].Absent? && !portAlloc then s
    else
      var (p, id) := if s.ports[i].Absent? then (Port(s.nextId, 0, NoTimer), s.nextId + 1)
                     else (s.ports[i], s.nextId);
      var q := p.(openCount := p.openCount + 1);
      if q.openCount != 1 || (q.timer.NoTimer? && !timerAlloc) then
        s.(ports := s.ports[i := q], nextId := id)
      else
        var (timerId, id') := if q.timer.NoTimer? then (id, id + 1) else (q.timer.id, id);
        s.(ports := s.ports[i := q.(timer := Timer(timerId, true, s.now + Delay(hz)))], nextId := id')
  }

  lemma OpenFails(hz: int, s: Tty, i: nat, timerAlloc: bool)
    requires i < |s.ports|
    ensures s.ports[i].Absent? ==> OpenPort(hz, s, i, false, timerAlloc) == s
    ensures s.ports[i].Port? ==> OpenPort(hz, s, i, false, timerAlloc) == OpenPort(hz, s, i, true, timerAlloc)
  {
  }

  /** Creating the port and then opening it is what opening an absent port does. */
  lemma OpenInTwoSteps(hz: int, s: Tty, i: nat, timerAlloc: bool)
    requires i < |s.ports|
    ensures s.ports[i].Absent? ==>
      OpenPort(hz, s.(ports := s.ports[i := Port(s.nextId, 0, NoTimer)], nextId := s.nextId + 1), i, true, timerAlloc)
      == OpenPort(hz, s, i, true, timerAlloc)
  {
  }

  /** The last close deletes the timer; it must be there. */
  predicate CloseDefined(p: Port) { p.Port? && (p.openCount == 1 ==> p.timer.Timer?) }

  function DoClose(p: Port): (r: Port)
    requires CloseDefined(p) && p.openCount >= 0
    ensures r.Port? && r.openCount == if p.openCount == 0 then 0 else p.openCount - 1
  {
    if p.openCount == 0 then p
    else if p.openCount - 1 <= 0 then p.(openCount := p.openCount - 1, timer := p.timer.(pending := false))
    else p.(openCount := p.openCount - 1)
  }

  /** The timer handler: one character, and the timer is set again. */
  function FirePort(hz: int, s: Tty, i: nat): Tty
    requires i < |s.ports| && s.ports[i].Port? && s.ports[i].timer.Timer?
  {
    var p := s.ports[i];
    s.(chars := s.chars + [Char(i, s.now)],
       ports := s.ports[i := p.(timer := p.timer.(pending := true, expires := s.now + Delay(hz)))])
  }

  // ----- Runs -----------------------------------------------------------------------------

  /** `linked` says whether the tty being closed got its port from a successful lookup at open. */
  datatype Event =
    | Open(i: nat, portAlloc: bool, timerAlloc: bool)
    | Close(i: nat, linked: bool)
    | Fire(i: nat)
    | Advance(d: nat)

  /** What the kernel guarantees of an event: it names a port, and timers fire when due. */
  predicate Enabled(s: Tty, e: Event) {
    match e
    case Open(i, _, _) => i < |s.ports|
    case Close(i, _) => i < |s.ports|
    case Fire(i) => i < |s.ports| && s.ports[i].Port? && s.ports[i].timer.Timer?
                    && s.ports[i].timer.pending && s.now >= s.ports[i].timer.expires
    case Advance(_) => true
  }

  /** The event does not make the driver use a missing timer. */
  predicate Defined(s: Tty, e: Event) {
    e.Close? && e.i < |s.ports| && s.ports[e.i].Port? && e.linked ==>
      CloseDefined(s.ports[e.i]) && s.ports[e.i].openCount >= 0
  }

  function Next(hz: int, s: Tty, e: Event): (r: Tty)
    requires Enabled(s, e) && Defined(s, e)
    ensures |r.ports| == |s.ports|
  {
    match e
    case Open(i, portAlloc, timerAlloc) => OpenPort(hz, s, i, portAlloc, timerAlloc)
    case Close(i, linked) =>
      if s.ports[i].Absent? || !linked then s else s.(ports := s.ports[i := DoClose(s.ports[i])])
    case Fire(i) => FirePort(hz, s, i)
    case Advance(d) => s.(now := s.now + d)
  }

  lemma PortsOkNext(hz: int, s: Tty, e: Event)
    requires Enabled(s, e) && Defined(s, e) && PortsOk(s.ports)
    ensures PortsOk(Next(hz, s, e).ports)
  {
  }

  ghost predicate IsRun(hz: int, states: seq<Tty>, evs: seq<Event>) {
    && hz > 0 && |states| == |evs| + 1 && states[0] == Init(states[0].now)
    && forall k :: 0 <= k < |evs| ==>
         Enabled(states[k], evs[k]) && Defined(states[k], evs[k]) && states[k + 1] == Next(hz, states[k], evs[k])
  }

  // ----- Shutdown -------------------------------------------------------------------------

  /** Closing until nobody has the port open. */
  function CloseAll(p: Port): (r: Port)
    requires p.Port? && p.timer.Timer? && p.openCount >= 0
    ensures r.Port? && r.timer.Timer? && r.openCount == 0
    ensures r.id == p.id && r.timer.id == p.timer.id
    decreases if p.Port? then p.openCount else 0
  {
    if p.openCount == 0 then p else CloseAll(DoClose(p))
  }

  predicate ExitDefined(s: Tty) {
    forall i :: 0 <= i < |s.ports| && s.ports[i].Port? ==> s.ports[i].timer.Timer? && s.ports[i].openCount >= 0
  }

  /** One pass of the shutdown loop: close, delete the timer, free the timer, free the port. */
  function ExitOne(s: Tty, i: nat): (r: Tty)
    requires ExitDefined(s) && i < |s.ports|
    ensures ExitDefined(r) && |r.ports| == |s.ports|
  {
    if s.ports[i].Absent? then s
    else
      var p := CloseAll(s.ports[i]);
      var t := p.timer.(pending := false);
      s.(ports := s.ports[i := Absent], freed := s.freed + [Freed(t.id, t.pending), Freed(p.id, false)])
  }

  /** The shutdown loop over the first `n` ports. */
  function ExitUpTo(s: Tty, n: nat): (r: Tty)
    requires ExitDefined(s) && n <= |s.ports|
    ensures ExitDefined(r) && |r.ports| == |s.ports|
  {
    if n == 0 then s else ExitOne(ExitUpTo(s, n - 1), n - 1)
  }
}
