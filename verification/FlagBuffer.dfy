/** The flag hand-off: writers set a condition flag, one reader thread waits for it and clears it. */
module FlagBuffer {
  import opened Bytes
  import opened UserCopy

  const POLLIN := 0x0001
  const POLLRDNORM := 0x0040

  // ----- States and steps -----------------------------------------------------------------

  /** An assignment to the flag, as it happens on a run. */
  datatype Mark = SetMark | ClearMark

  datatype State = State(condition: int, sem: int, buffer: seq<Byte>, pcs: seq<Pc>, log: seq<Mark>)

  datatype Action =
    | Invoke(c: nat) | Pass(c: nat) | Down(c: nat) | Copy(c: nat, step: CopyStep)
    | Up(c: nat) | Clear(c: nat) | Set(c: nat) | Return(c: nat)

  predicate WellFormed(calls: seq<Call>, s: State) {
    && |s.pcs| == |calls| && |s.buffer| == BUFFER_LEN
    && forall c :: 0 <= c < |calls| ==> PcOk(calls[c], s.pcs[c])
  }

  function Init(calls: seq<Call>, init: seq<Byte>): State {
    State(0, 1, init, seq(|calls|, _ => Idle), [])
  }

  predicate Active(pc: Pc) { !pc.Idle? && !pc.Returned? }

  /** The reader thread makes its reads one after the other. */
  predicate ReaderFree(calls: seq<Call>, s: State)
    requires |s.pcs| == |calls|
  {
    forall d :: 0 <= d < |calls| && calls[d].ReadCall? ==> !Active(s.pcs[d])
  }

  predicate Enabled(calls: seq<Call>, s: State, a: Action) {
    && WellFormed(calls, s) && a.c < |calls|
    && match a
       case Invoke(c) => s.pcs[c].Idle? && (calls[c].ReadCall? ==> ReaderFree(calls, s))
       case Pass(c) => calls[c].ReadCall? && s.pcs[c].Waiting? && s.condition == 1
       case Down(c) => calls[c].WriteCall? && s.pcs[c].Waiting? && s.sem > 0
       case Copy(c, step) => CopyEnabled(calls[c], s.pcs[c], step)
       case Up(c) => calls[c].WriteCall? && s.pcs[c].Copied?
       case Clear(c) => calls[c].ReadCall? && s.pcs[c].Copied?
       case Set(c) => calls[c].WriteCall? && s.pcs[c].Released?
       case Return(c) => if calls[c].ReadCall? then s.pcs[c].Released? else s.pcs[c].Signalled?
  }

  function Next(calls: seq<Call>, s: State, a: Action): (r: State)
    requires Enabled(calls, s, a)
    ensures WellFormed(calls, r)
  {
    match a
    case Invoke(c) => s.(pcs := s.pcs[c := Waiting])
    case Pass(c) => s.(pcs := s.pcs[c := Entered])
    case Down(c) => s.(sem := s.sem - 1, pcs := s.pcs[c := Entered])
    case Copy(c, step) => s.(buffer := BufferAfter(calls[c], s.buffer, s.pcs[c], step),
                             pcs := s.pcs[c := PcAfter(calls[c], s.buffer, s.pcs[c], step)])
    case Up(c) => s.(sem := s.sem + 1, pcs := s.pcs[c := Released(s.pcs[c].n, s.pcs[c].got)])
    case Clear(c) => s.(condition := 0, pcs := s.pcs[c := Released(s.pcs[c].n, s.pcs[c].got)],
                        log := s.log + [ClearMark])
    case Set(c) => s.(condition := 1, pcs := s.pcs[c := Signalled(s.pcs[c].n, s.pcs[c].got)],
                      log := s.log + [SetMark])
    case Return(c) => s.(pcs := s.pcs[c := Returned(s.pcs[c].n, s.pcs[c].got)])
  }

  /** The event mask `poll` reports. */
  function PollMask(s: State): int { if s.condition == 1 then POLLIN + POLLRDNORM else 0 }

  /** Every state follows from the one before by one enabled step of some call. */
  ghost predicate Path(calls: seq<Call>, states: seq<State>, acts: seq<Action>) {
    && |states| == |acts| + 1
    && forall i :: 0 <= i < |acts| ==>
         Enabled(calls, states[i], acts[i]) && states[i + 1] == Next(calls, states[i], acts[i])
  }

  ghost predicate IsRun(calls: seq<Call>, init: seq<Byte>, states: seq<State>, acts: seq<Action>) {
    |init| == BUFFER_LEN && Path(calls, states, acts) && states[0] == Init(calls, init)
  }

  // ----- One call on its own --------------------------------------------------------------

  /** `states` leads on from `s` by steps of call `c` only. */
  ghost predicate Solo(calls: seq<Call>, s: State, c: nat, states: seq<State>, acts: seq<Action>) {
    Path(calls, states, acts) && states[0] == s && forall i :: 0 <= i < |acts| ==> acts[i].c == c
  }

  lemma Further(calls: seq<Call>, s: State, states: seq<State>, acts: seq<Action>, a: Action)
      returns (states': seq<State>, acts': seq<Action>)
    requires Solo(calls, s, a.c, states, acts) && |states| == |acts| + 1 && Enabled(calls, states[|acts|], a)
    ensures Solo(calls, s, a.c, states', acts') && |states'| == |acts'| + 1
    ensures states'[|acts'|] == Next(calls, states[|acts|], a)
  {
    hide Enabled, Next, WellFormed;
    states', acts' := states + [Next(calls, states[|acts|], a)], acts + [a];
  }

  /** The steps of a copy's bytes, taken in the driver. */
  lemma SoloBytes(calls: seq<Call>, s: State, states: seq<State>, acts: seq<Action>,
                  c: nat, copied: nat, junk: seq<Byte>)
      returns (states': seq<State>, acts': seq<Action>)
    requires Solo(calls, s, c, states, acts) && |states| == |acts| + 1 && WellFormed(calls, states[|acts|])
    requires c < |calls| && states[|acts|].pcs[c] == Copying(calls[c].Window(), 0, [])
    requires CanCopy(calls[c], copied, junk)
    ensures Solo(calls, s, c, states', acts') && |states'| == |acts'| + 1
    ensures var t := states[|acts|];
            states'[|acts'|] == t.(buffer := CopiedBuffer(calls[c], t.buffer, copied, junk),
                                   pcs := t.pcs[c := Copied(copied, CopiedBytes(calls[c], t.buffer, copied))])
  {
    hide Solo, PcAfter, BufferAfter, CopiedBytes, CopiedBuffer;
    var t := states[|acts|];
    var moments, steps := WholeTrace(calls[c], t.buffer, copied, junk);
    states', acts' := states, acts;
    for i := 0 to |steps|
      invariant Solo(calls, s, c, states', acts') && |states'| == |acts'| + 1
      invariant states'[|acts'|] == t.(buffer := moments[i].buffer, pcs := t.pcs[c := moments[i].pc])
    {
      assert TraceStep(calls[c], moments[i], steps[i], moments[i + 1]);
      states', acts' := Further(calls, s, states', acts', Copy(c, steps[i]));
    }
  }

  /** The same from entering, with the choice of the length. */
  lemma SoloCopy(calls: seq<Call>, s: State, states: seq<State>, acts: seq<Action>,
                 c: nat, copied: nat, junk: seq<Byte>)
      returns (states': seq<State>, acts': seq<Action>)
    requires Solo(calls, s, c, states, acts) && |states| == |acts| + 1 && WellFormed(calls, states[|acts|])
    requires c < |calls| && states[|acts|].pcs[c].Entered? && CanCopy(calls[c], copied, junk)
    ensures Solo(calls, s, c, states', acts') && |states'| == |acts'| + 1
    ensures var t := states[|acts|];
            states'[|acts'|] == t.(buffer := CopiedBuffer(calls[c], t.buffer, copied, junk),
                                   pcs := t.pcs[c := Copied(copied, CopiedBytes(calls[c], t.buffer, copied))])
  {
    hide Solo, CopiedBytes, CopiedBuffer;
    states', acts' := Further(calls, s, states, acts, Copy(c, ComputeLen));
    states', acts' := SoloBytes(calls, s, states', acts', c, copied, junk);
  }

  /** A call that does not have to wait: a write that finds the semaphore free, a read that finds the flag set. */
  predicate Ready(calls: seq<Call>, s: State, c: nat) {
    && WellFormed(calls, s) && c < |calls| && s.pcs[c].Idle?
    && if calls[c].ReadCall? then s.condition == 1 && ReaderFree(calls, s) else s.sem > 0
  }

  /** A call running alone takes these steps and no others, and acts as one operation. */
  lemma SoloCall(calls: seq<Call>, s: State, c: nat, copied: nat, junk: seq<Byte>)
      returns (states: seq<State>, acts: seq<Action>)
    requires Ready(calls, s, c) && CanCopy(calls[c], copied, junk)
    ensures Solo(calls, s, c, states, acts) && |states| == |acts| + 1
    ensures states[|acts|] == State(if calls[c].ReadCall? then 0 else 1, s.sem,
                                    CopiedBuffer(calls[c], s.buffer, copied, junk),
                                    s.pcs[c := Returned(copied, CopiedBytes(calls[c], s.buffer, copied))],
                                    s.log + [if calls[c].ReadCall? then ClearMark else SetMark])
  {
    states, acts := [s], [];
    assert Solo(calls, s, c, states, acts);
    hide Solo, CopiedBytes, CopiedBuffer;
    states, acts := Further(calls, s, states, acts, Invoke(c));
    states, acts := Further(calls, s, states, acts, if calls[c].ReadCall? then Pass(c) else Down(c));
    states, acts := SoloCopy(calls, s, states, acts, c, copied, junk);
    if calls[c].ReadCall? {
      states, acts := Further(calls, s, states, acts, Clear(c));
    } else {
      states, acts := Further(calls, s, states, acts, Up(c));
      states, acts := Further(calls, s, states, acts, Set(c));
    }
    states, acts := Further(calls, s, states, acts, Return(c));
  }

  // ----- The driver -----------------------------------------------------------------------

  /** A call of the step system, and a state in which it has not been made yet. */
  datatype Caller = Caller(calls: seq<Call>, start: State, c: nat)

  /** The driver's globals, and a trail of the steps the call being carried out has taken so far. 
      A read or write is one call running alone, of which `copied` bytes get through. */
  class SampleCharDrv {
    const buffer: array<Byte>
    var condition: int
    var sem: int
    ghost var caller: Caller
    ghost var states: seq<State>
    ghost var acts: seq<Action>

    constructor ()
      ensures fresh(buffer) && buffer.Length == BUFFER_LEN && condition == 0 && sem == 1
    {
      buffer := new Byte[BUFFER_LEN];
      condition, sem := 0, 1;
    }

    ghost predicate Shown(s: State)
      reads this, buffer
    {
      s.condition == condition && s.sem == sem && s.buffer == buffer[..]
    }

    /** The trail is a path of steps of the caller alone, and has led it to `pc` and to these globals. */
    ghost predicate Trail(pc: Pc)
      reads this, buffer
    {
      && buffer.Length == BUFFER_LEN && caller.c < |caller.calls| == |caller.start.pcs|
      && Solo(caller.calls, caller.start, caller.c, states, acts) && |states| == |acts| + 1
      && WellFormed(caller.calls, states[|acts|]) && Shown(states[|acts|])
      && states[|acts|].pcs == caller.start.pcs[caller.c := pc]
    }

    lemma TrailLength(len: nat)
      requires Trail(Copying(len, 0, []))
      ensures len == caller.calls[caller.c].Window() <= BUFFER_LEN
    {
      assert PcOk(caller.calls[caller.c], states[|acts|].pcs[caller.c]);
    }

    ghost method Begin(who: Caller)
      requires Ready(who.calls, who.start, who.c) && buffer.Length == BUFFER_LEN && Shown(who.start)
      modifies this`caller, this`states, this`acts
      ensures caller == who && Trail(Waiting)
      ensures if who.calls[who.c].ReadCall? then condition == 1 else sem > 0
    {
      caller := who;
      states, acts := [who.start], [];
      states, acts := Further(who.calls, who.start, states, acts, Invoke(who.c));
    }

    method WaitForFlag()
      requires Trail(Waiting) && caller.calls[caller.c].ReadCall? && condition == 1
      modifies this`states, this`acts
      ensures Trail(Entered)
    {
      states, acts := Further(caller.calls, caller.start, states, acts, Action.Pass(caller.c));
    }

    method Down()
      requires Trail(Waiting) && caller.calls[caller.c].WriteCall? && sem > 0
      modifies this`sem, this`states, this`acts
      ensures Trail(Entered) && sem == old(sem) - 1
    {
      sem := sem - 1;
      states, acts := Further(caller.calls, caller.start, states, acts, Action.Down(caller.c));
    }

    method Up(ghost n: nat, ghost got: seq<Byte>)
      requires Trail(Copied(n, got)) && caller.calls[caller.c].WriteCall?
      modifies this`sem, this`states, this`acts
      ensures Trail(Released(n, got)) && sem == old(sem) + 1
    {
      sem := sem + 1;
      states, acts := Further(caller.calls, caller.start, states, acts, Action.Up(caller.c));
    }

    method ClearFlag(ghost n: nat, ghost got: seq<Byte>)
      requires Trail(Copied(n, got)) && caller.calls[caller.c].ReadCall?
      modifies this`condition, this`states, this`acts
      ensures Trail(Released(n, got)) && condition == 0
    {
      condition := 0;
      states, acts := Further(caller.calls, caller.start, states, acts, Action.Clear(caller.c));
    }

    method SetFlag(ghost n: nat, ghost got: seq<Byte>)
      requires Trail(Released(n, got)) && caller.calls[caller.c].WriteCall?
      modifies this`condition, this`states, this`acts
      ensures Trail(Signalled(n, got)) && condition == 1
    {
      condition := 1;
      states, acts := Further(caller.calls, caller.start, states, acts, Action.Set(caller.c));
    }

    /** The count asked for, but no more than the buffer holds. */
    method ChooseLength(count: nat) returns (len: nat)
      requires Trail(Entered) && caller.calls[caller.c].Count() == count
      modifies this`states, this`acts
      ensures Trail(Copying(len, 0, [])) && len == if count < 4000 then count else 4000
    {
      if count > BUFFER_LEN {
        len := BUFFER_LEN;
      } else {
        len := count;
      }
      states, acts := Further(caller.calls, caller.start, states, acts, Copy(caller.c, ComputeLen));
    }

    method CopyOut(len: nat, copied: nat) returns (left: nat, out: seq<Byte>)
      requires Trail(Copying(len, 0, [])) && caller.calls[caller.c].ReadCall? && copied <= len
      modifies this`states, this`acts
      ensures len <= buffer.Length
      ensures Trail(Copied(copied, out)) && left == len - copied && out == buffer[..copied]
    {
      TrailLength(len);
      left, out := CopyToUser(buffer, len, copied);
      states, acts := SoloBytes(caller.calls, caller.start, states, acts, caller.c, copied, []);
    }

    method CopyIn(data: seq<Byte>, len: nat, copied: nat, junk: seq<Byte>) returns (left: nat)
      requires Trail(Copying(len, 0, [])) && caller.calls[caller.c] == WriteCall(data)
      requires copied <= len && |junk| == len - copied
      modifies this`states, this`acts, buffer
      ensures len <= buffer.Length && len <= |data|
      ensures Trail(Copied(copied, [])) && left == len - copied
      ensures buffer[..] == Splice(old(buffer[..]), 0, data[..copied] + junk)
    {
      TrailLength(len);
      left := CopyFromUser(buffer, data, len, copied, junk);
      states, acts := SoloBytes(caller.calls, caller.start, states, acts, caller.c, copied, junk);
    }

    ghost method End(n: nat, got: seq<Byte>)
      requires caller.c < |caller.calls|
      requires Trail(if caller.calls[caller.c].ReadCall? then Released(n, got) else Signalled(n, got))
      modifies this`states, this`acts
      ensures Trail(Returned(n, got))
    {
      states, acts := Further(caller.calls, caller.start, states, acts, Return(caller.c));
    }

    method SampleCharDrvRead(count: nat, copied: nat, ghost who: Caller) returns (ret: nat, out: seq<Byte>)
      requires Ready(who.calls, who.start, who.c) && buffer.Length == BUFFER_LEN && Shown(who.start)
      requires who.calls[who.c] == ReadCall(count) && copied <= if count < 4000 then count else 4000
      modifies this
      ensures ret == copied && out == buffer[..copied] && buffer[..] == old(buffer[..])
      ensures AtomicStep(ReadCall(count), ret, out, old(buffer[..]), buffer[..])
      ensures condition == 0 && sem == old(sem)
      ensures caller == who && Trail(Returned(ret, out))
    {
      hide *;
      LoneRead(count, copied, buffer[..]);
      Begin(who);
      WaitForFlag();
      var len := ChooseLength(count);
      var left: nat;
      left, out := CopyOut(len, copied);
      ClearFlag(copied, out);
      ret := len - left;
      End(ret, out);
    }

    method SampleCharDrvWrite(data: seq<Byte>, copied: nat, junk: seq<Byte>, ghost who: Caller) returns (ret: nat)
      requires Ready(who.calls, who.start, who.c) && buffer.Length == BUFFER_LEN && Shown(who.start)
      requires who.calls[who.c] == WriteCall(data)
      requires copied + |junk| == if |data| < 4000 then |data| else 4000
      modifies this, buffer
      ensures ret == copied && buffer[..] == data[..copied] + junk + old(buffer[copied + |junk|..])
      ensures AtomicStep(WriteCall(data), ret, [], old(buffer[..]), buffer[..])
      ensures condition == 1 && sem == old(sem)
      ensures caller == who && Trail(Returned(ret, []))
    {
      hide *;
      LoneWrite(data, copied, junk, buffer[..]);
      Begin(who);
      Down();
      var len := ChooseLength(|data|);
      var left := CopyIn(data, len, copied, junk);
      Up(copied, []);
      SetFlag(copied, []);
      ret := len - left;
      End(ret, []);
    }

    method SampleCharDrvPoll(ghost s: State) returns (mask: int)
      requires Shown(s)
      ensures mask == PollMask(s) && mask == if condition == 1 then 0x41 else 0
    {
      mask := 0;
      if condition == 1 {
        mask := POLLIN + POLLRDNORM;
      }
    }
  }

  // ----- What every step keeps ------------------------------------------------------------

  function WriterInside(call: Call, pc: Pc): int { if call.WriteCall? && Inside(pc) then 1 else 0 }

  function HasSet(call: Call, pc: Pc): int {
    if call.WriteCall? && (pc.Signalled? || pc.Returned?) then 1 else 0
  }

  function HasCleared(call: Call, pc: Pc): int {
    if call.ReadCall? && (pc.Released? || pc.Returned?) then 1 else 0
  }

  function Count(log: seq<Mark>, m: Mark): nat {
    if log == [] then 0 else Count(log[..|log| - 1], m) + if log[|log| - 1] == m then 1 else 0
  }

  /** Sets that found the flag clear. */
  function Raises(log: seq<Mark>): nat {
    if log == [] then 0
    else Raises(log[..|log| - 1])
         + if log[|log| - 1] == SetMark && (|log| == 1 || log[|log| - 2] == ClearMark) then 1 else 0
  }

  /** At most one read at a time, and a read past its wait keeps the flag up until it clears it. */
  ghost predicate ReaderOk(calls: seq<Call>, s: State)
    requires |s.pcs| == |calls|
  {
    && (forall c, d :: 0 <= c < d < |calls| && calls[c].ReadCall? && calls[d].ReadCall? ==>
          !(Active(s.pcs[c]) && Active(s.pcs[d])))
    && (forall c :: 0 <= c < |calls| && calls[c].ReadCall? ==>
          !s.pcs[c].Signalled? && (Inside(s.pcs[c]) ==> s.condition == 1))
  }

  ghost predicate LogOk(s: State) {
    && (s.condition == if s.log != [] && s.log[|s.log| - 1] == SetMark then 1 else 0)
    && (forall j :: 0 <= j < |s.log| && s.log[j] == ClearMark ==> j > 0 && s.log[j - 1] == SetMark)
    && Count(s.log, ClearMark) + s.condition == Raises(s.log)
  }

  ghost predicate CountsOk(calls: seq<Call>, s: State)
    requires |s.pcs| == |calls|
  {
    && s.sem + Sum(WriterInside, calls, s.pcs) == 1 && s.sem >= 0
    && Count(s.log, SetMark) == Sum(HasSet, calls, s.pcs)
    && Count(s.log, ClearMark) == Sum(HasCleared, calls, s.pcs)
  }

  ghost predicate Inv(calls: seq<Call>, s: State) {
    WellFormed(calls, s) && ReaderOk(calls, s) && LogOk(s) && CountsOk(calls, s)
  }

  lemma ReaderNext(calls: seq<Call>, s: State, a: Action)
    requires WellFormed(calls, s) && ReaderOk(calls, s) && Enabled(calls, s, a)
    ensures ReaderOk(calls, Next(calls, s, a))
  {
    hide PcOk, BufferAfter;
    var r := Next(calls, s, a);
    forall c, d | 0 <= c < d < |calls| && calls[c].ReadCall? && calls[d].ReadCall?
      ensures !(Active(r.pcs[c]) && Active(r.pcs[d])) {
      assert !(Active(s.pcs[c]) && Active(s.pcs[d]));
    }
    forall c | 0 <= c < |calls| && calls[c].ReadCall?
      ensures !r.pcs[c].Signalled? && (Inside(r.pcs[c]) ==> r.condition == 1) {
      assert !s.pcs[c].Signalled? && (Inside(s.pcs[c]) ==> s.condition == 1);
      if a.Clear? && a.c != c {
        assert Active(s.pcs[a.c]) && !Active(s.pcs[c]);
      }
    }
  }

  lemma LogNext(calls: seq<Call>, s: State, a: Action)
    requires WellFormed(calls, s) && ReaderOk(calls, s) && LogOk(s) && Enabled(calls, s, a)
    ensures LogOk(Next(calls, s, a))
  {
    hide Count, Raises, PcAfter, BufferAfter, PcOk;
    LogAppend(s.log, SetMark);
    LogAppend(s.log, ClearMark);
  }

  lemma LogAppend(log: seq<Mark>, m: Mark)
    ensures Count(log + [m], m) == Count(log, m) + 1
    ensures forall x :: x != m ==> Count(log + [m], x) == Count(log, x)
    ensures Raises(log + [m])
            == Raises(log) + if m == SetMark && (log == [] || log[|log| - 1] == ClearMark) then 1 else 0
  {
    assert (log + [m])[..|log|] == log;
  }

  lemma CountsNext(calls: seq<Call>, s: State, a: Action)
    requires WellFormed(calls, s) && ReaderOk(calls, s) && CountsOk(calls, s) && Enabled(calls, s, a)
    ensures CountsOk(calls, Next(calls, s, a))
  {
    hide PcOk, BufferAfter, Count, Raises, Sum;
    var r := Next(calls, s, a);
    var pc := r.pcs[a.c];
    assert r.pcs == s.pcs[a.c := pc];
    SumUpdate(WriterInside, calls, s.pcs, a.c, pc);
    SumUpdate(HasSet, calls, s.pcs, a.c, pc);
    SumUpdate(HasCleared, calls, s.pcs, a.c, pc);
    LogAppend(s.log, SetMark);
    LogAppend(s.log, ClearMark);
  }

  lemma RunStep(calls: seq<Call>, init: seq<Byte>, states: seq<State>, acts: seq<Action>, k: nat)
    requires IsRun(calls, init, states, acts) && k < |acts|
    ensures |states| == |acts| + 1
    ensures Enabled(calls, states[k], acts[k]) && states[k + 1] == Next(calls, states[k], acts[k])
  {
  }

  lemma InitInv(calls: seq<Call>, init: seq<Byte>)
    requires |init| == BUFFER_LEN
    ensures Inv(calls, Init(calls, init))
  {
    var pcs := Init(calls, init).pcs;
    SumZero(WriterInside, calls, pcs);
    SumZero(HasSet, calls, pcs);
    SumZero(HasCleared, calls, pcs);
  }

  lemma InvNext(calls: seq<Call>, s: State, a: Action)
    requires Inv(calls, s) && Enabled(calls, s, a)
    ensures Inv(calls, Next(calls, s, a))
  {
    hide ReaderOk, LogOk, CountsOk, Next, Enabled, WellFormed;
    ReaderNext(calls, s, a);
    LogNext(calls, s, a);
    CountsNext(calls, s, a);
  }

  lemma RunStart(calls: seq<Call>, init: seq<Byte>, states: seq<State>, acts: seq<Action>)
    requires IsRun(calls, init, states, acts)
    ensures |init| == BUFFER_LEN && |states| == |acts| + 1 && states[0] == Init(calls, init)
  {
  }

  lemma {:induction false} RunInv(calls: seq<Call>, init: seq<Byte>, states: seq<State>, acts: seq<Action>, i: nat)
    requires IsRun(calls, init, states, acts) && i < |states|
    ensures Inv(calls, states[i])
  {
    hide *;
    RunStart(calls, init, states, acts);
    if i == 0 {
      InitInv(calls, init);
    } else {
      RunStep(calls, init, states, acts, i - 1);
      RunInv(calls, init, states, acts, i - 1);
      InvNext(calls, states[i - 1], acts[i - 1]);
    }
  }

  // ----- Counts ---------------------------------------------------------------------------

  predicate Faulted(acts: seq<Action>, c: nat) {
    exists i :: 0 <= i < |acts| && acts[i].Copy? && acts[i].c == c && acts[i].step.CopyFault?
  }

  lemma CountStep(calls: seq<Call>, s: State, a: Action, c: nat)
    requires Enabled(calls, s, a) && c < |calls| && WholeCount(calls[c], s.pcs[c])
    requires !(a.Copy? && a.c == c && a.step.CopyFault?)
    ensures |Next(calls, s, a).pcs| == |calls| && WholeCount(calls[c], Next(calls, s, a).pcs[c])
  {
    hide BufferAfter, PcAfter;
    if a.Copy? && a.c == c {
      WholeCountKept(calls[c], s.buffer, s.pcs[c], a.step);
    }
  }

  /** A call whose copy does not fault returns the count it asked for, or 4000 if that is less; a read has
      got that many bytes. */
  lemma {:induction false} FaultFreeCount(calls: seq<Call>, init: seq<Byte>, states: seq<State>,
                                          acts: seq<Action>, i: nat, c: nat)
    requires IsRun(calls, init, states, acts) && i < |states| && c < |calls| && !Faulted(acts, c)
    ensures |states[i].pcs| == |calls| && WholeCount(calls[c], states[i].pcs[c])
    ensures var pc, count := states[i].pcs[c], calls[c].Count();
            pc.Copied? || pc.Released? || pc.Signalled? || pc.Returned? ==>
              && pc.n == (if count < 4000 then count else 4000)
              && (calls[c].ReadCall? ==> |pc.got| == if count < 4000 then count else 4000)
  {
    hide IsRun, Next, Enabled, Faulted;
    StartCount(calls, init, states, acts, c);
    if i > 0 {
      RunStep(calls, init, states, acts, i - 1);
      FaultFreeCount(calls, init, states, acts, i - 1, c);
      NoFaultStep(acts, i - 1, c);
      CountStep(calls, states[i - 1], acts[i - 1], c);
    }
  }

  lemma StartCount(calls: seq<Call>, init: seq<Byte>, states: seq<State>, acts: seq<Action>, c: nat)
    requires IsRun(calls, init, states, acts) && c < |calls|
    ensures |states| == |acts| + 1 && |init| == BUFFER_LEN
    ensures |states[0].pcs| == |calls| && states[0].pcs[c] == Idle
  {
  }

  lemma NoFaultStep(acts: seq<Action>, i: nat, c: nat)
    requires i < |acts| && !Faulted(acts, c)
    ensures !(acts[i].Copy? && acts[i].c == c && acts[i].step.CopyFault?)
  {
  }

  // ----- The hand-off ---------------------------------------------------------------------

  /** On every run any two clears of the flag have a set between them, and the first clear has one
      before it; every raise of the flag is cleared exactly once or still standing. */
  lemma ClearsAreSeparated(calls: seq<Call>, init: seq<Byte>, states: seq<State>, acts: seq<Action>, i: int, j: int)
    requires IsRun(calls, init, states, acts)
    requires var log := states[|acts|].log;
             -1 <= i < j < |log| && log[j] == ClearMark && (i >= 0 ==> log[i] == ClearMark)
    ensures exists k :: i < k < j && states[|acts|].log[k] == SetMark
    ensures Count(states[|acts|].log, ClearMark) + states[|acts|].condition == Raises(states[|acts|].log)
  {
    RunInv(calls, init, states, acts, |acts|);
    assert states[|acts|].log[j - 1] == SetMark;
  }

  lemma {:induction false} RaisesAtMostSets(log: seq<Mark>)
    ensures Raises(log) <= Count(log, SetMark)
  {
    if log != [] {
      RaisesAtMostSets(log[..|log| - 1]);
    }
  }

  /** At every moment of every run, no more reads have completed than writes have set the flag. */
  lemma ReadsNeverExceedWrites(calls: seq<Call>, init: seq<Byte>, states: seq<State>, acts: seq<Action>, i: nat)
    requires IsRun(calls, init, states, acts) && i < |states|
    ensures |states[i].pcs| == |calls|
    ensures Sum(ReadsReturned, calls, states[i].pcs) + states[i].condition <= Sum(HasSet, calls, states[i].pcs)
  {
    hide Sum;
    RunInv(calls, init, states, acts, i);
    RaisesAtMostSets(states[i].log);
    SumMonotone(ReadsReturned, HasCleared, calls, states[i].pcs);
  }

  /** Once poll reports readable it goes on doing so until the reader's next clear, and a read that is
      waiting before that clear does not block. */
  lemma {:induction false} ReadableUntilCleared(calls: seq<Call>, init: seq<Byte>, states: seq<State>,
                                                acts: seq<Action>, i: nat, j: nat)
    requires IsRun(calls, init, states, acts) && i <= j < |states|
    requires PollMask(states[i]) != 0
    requires forall k :: i <= k < j ==> !acts[k].Clear?
    ensures PollMask(states[j]) == POLLIN + POLLRDNORM
    ensures WellFormed(calls, states[j])
    ensures forall c :: 0 <= c < |calls| && calls[c].ReadCall? && states[j].pcs[c].Waiting?
              ==> Enabled(calls, states[j], Pass(c))
    decreases j
  {
    RunInv(calls, init, states, acts, j);
    if i < j {
      ReadableUntilCleared(calls, init, states, acts, i, j - 1);
      assert states[j - 1 + 1] == Next(calls, states[j - 1], acts[j - 1]);
    }
  }

  // ----- Where every run ends -------------------------------------------------------------

  lemma StepUsesWork(calls: seq<Call>, s: State, a: Action)
    requires Enabled(calls, s, a)
    ensures MovesOn(calls, s.pcs, Next(calls, s, a).pcs, a.c)
  {
    if a.Copy? {
      CopyRankDrops(calls[a.c], s.buffer, s.pcs[a.c], a.step);
    }
  }

  /** Where the calls stand along a run, and whose step each one is. */
  ghost function Trace(states: seq<State>): (r: seq<seq<Pc>>)
    ensures |r| == |states| && forall k :: 0 <= k < |states| ==> r[k] == states[k].pcs
  {
    seq(|states|, k requires 0 <= k < |states| => states[k].pcs)
  }

  ghost function Who(acts: seq<Action>): (r: seq<nat>)
    ensures |r| == |acts| && forall k :: 0 <= k < |acts| ==> r[k] == acts[k].c
  {
    seq(|acts|, k requires 0 <= k < |acts| => acts[k].c)
  }

  /** Every step uses up work, so no schedule is longer than the work there was at the start. */
  lemma RunsAreBounded(calls: seq<Call>, init: seq<Byte>, states: seq<State>, acts: seq<Action>, i: nat)
    requires IsRun(calls, init, states, acts) && i < |states|
    ensures |states[i].pcs| == |calls|
    ensures 0 <= Sum(Rank, calls, states[i].pcs) <= Sum(Rank, calls, Init(calls, init).pcs) - i
  {
    assert |states| == |acts| + 1 && states[0] == Init(calls, init) && PcsOk(calls, states[0].pcs);
    hide IsRun, Enabled, Next, MovesOn, Rank, PcsOk, Trace, Who, Sum, Init;
    forall k | 0 <= k < |acts| ensures UsesWork(calls, Trace(states), Who(acts), k) {
      RunStep(calls, init, states, acts, k);
      StepUsesWork(calls, states[k], acts[k]);
    }
    WorkBoundsRuns(calls, Trace(states), Who(acts), i);
    SameLength(calls, states[i].pcs);
  }

  ghost predicate Quiescent(calls: seq<Call>, s: State) {
    forall a: Action :: !Enabled(calls, s, a)
  }

  /** A call inside its copy can take a step. */
  lemma CopyGoesOn(calls: seq<Call>, s: State, c: nat)
    requires WellFormed(calls, s) && c < |calls| && (s.pcs[c].Entered? || s.pcs[c].Copying?)
    ensures Enabled(calls, s, Copy(c, NextCopyStep(calls[c], s.pcs[c])))
  {
  }

  /** In a quiescent state nobody is inside a copy, so the semaphore is free. */
  lemma QuiescentInside(calls: seq<Call>, s: State, c: nat)
    requires Inv(calls, s) && Quiescent(calls, s) && c < |calls|
    ensures !Inside(s.pcs[c])
  {
    assert !Enabled(calls, s, Up(c)) && !Enabled(calls, s, Clear(c));
    if s.pcs[c].Entered? || s.pcs[c].Copying? {
      CopyGoesOn(calls, s, c);
      assert false;
    }
  }

  lemma QuiescentSem(calls: seq<Call>, s: State)
    requires Inv(calls, s) && Quiescent(calls, s)
    ensures s.sem == 1
  {
    SumNonNegative(WriterInside, calls, s.pcs);
    if Sum(WriterInside, calls, s.pcs) > 0 {
      var c := SumPositive(WriterInside, calls, s.pcs);
      QuiescentInside(calls, s, c);
      assert false;
    }
  }

  lemma QuiescentPc(calls: seq<Call>, s: State, c: nat)
    requires Inv(calls, s) && Quiescent(calls, s) && c < |calls|
    ensures calls[c].WriteCall? ==> s.pcs[c].Returned?
    ensures calls[c].ReadCall? ==> s.pcs[c].Returned? || s.pcs[c].Idle? || (s.pcs[c].Waiting? && s.condition == 0)
  {
    QuiescentSem(calls, s);
    QuiescentInside(calls, s, c);
    assert !Enabled(calls, s, Invoke(c)) && !Enabled(calls, s, Pass(c)) && !Enabled(calls, s, Down(c));
    assert !Enabled(calls, s, Set(c)) && !Enabled(calls, s, Return(c));
  }

  /** Where every run ends: all writes have returned; if there were writes and reads, at least one
      read has returned and at most as many as writes; and reads are left over only with the flag down. */
  lemma RunsEnd(calls: seq<Call>, init: seq<Byte>, states: seq<State>, acts: seq<Action>)
    requires IsRun(calls, init, states, acts) && Quiescent(calls, states[|acts|])
    ensures |states[|acts|].pcs| == |calls|
    ensures forall c :: 0 <= c < |calls| && calls[c].WriteCall? ==> states[|acts|].pcs[c].Returned?
    ensures var pcs := states[|acts|].pcs;
            var w, r, served := Sum(IsWrite, calls, pcs), Sum(IsRead, calls, pcs), Sum(ReadsReturned, calls, pcs);
            && served <= w && served <= r
            && (w > 0 && r > 0 ==> served > 0)
            && (served < r ==> states[|acts|].condition == 0)
            && served + states[|acts|].condition == Raises(states[|acts|].log)
  {
    hide Sum, Enabled, Quiescent;
    var s := states[|acts|];
    RunInv(calls, init, states, acts, |acts|);
    forall c | 0 <= c < |calls|
      ensures calls[c].WriteCall? ==> s.pcs[c].Returned?
      ensures calls[c].ReadCall? ==> s.pcs[c].Returned? || s.pcs[c].Idle? || (s.pcs[c].Waiting? && s.condition == 0) {
      QuiescentPc(calls, s, c);
    }
    SumEqual(HasSet, IsWrite, calls, s.pcs, s.pcs);
    SumEqual(HasCleared, ReadsReturned, calls, s.pcs, s.pcs);
    SumMonotone(ReadsReturned, IsRead, calls, s.pcs);
    RaisesAtMostSets(s.log);
    if Sum(ReadsReturned, calls, s.pcs) < Sum(IsRead, calls, s.pcs) {
      FlagIsDown(calls, s);
    }
    SomeRaise(s.log);
  }

  /** With reads left over, one of them waits in vain. */
  lemma FlagIsDown(calls: seq<Call>, s: State)
    requires Inv(calls, s) && Quiescent(calls, s)
    requires Sum(ReadsReturned, calls, s.pcs) < Sum(IsRead, calls, s.pcs)
    ensures s.condition == 0
  {
    var c := UnreturnedRead(calls, s.pcs);
    QuiescentPc(calls, s, c);
    if s.pcs[c].Idle? {
      assert !Enabled(calls, s, Invoke(c));
      var d :| 0 <= d < |calls| && calls[d].ReadCall? && Active(s.pcs[d]);
      QuiescentPc(calls, s, d);
    }
  }

  lemma UnreturnedRead(calls: seq<Call>, pcs: seq<Pc>) returns (c: nat)
    requires |calls| == |pcs| && Sum(ReadsReturned, calls, pcs) < Sum(IsRead, calls, pcs)
    ensures c < |calls| && calls[c].ReadCall? && !pcs[c].Returned?
  {
    if forall i :: 0 <= i < |calls| ==> ReadsReturned(calls[i], pcs[i]) == IsRead(calls[i], pcs[i]) {
      SumEqual(ReadsReturned, IsRead, calls, pcs, pcs);
      assert false;
    }
    c :| 0 <= c < |calls| && ReadsReturned(calls[c], pcs[c]) != IsRead(calls[c], pcs[c]);
  }

  /** A flag that was ever set was raised. */
  lemma {:induction false} SomeRaise(log: seq<Mark>)
    ensures Count(log, SetMark) > 0 ==> Raises(log) > 0
  {
    if log != [] {
      var init := log[..|log| - 1];
      SomeRaise(init);
      assert init != [] ==> init[|init| - 1] == log[|log| - 2];
      assert init != [] && init[|init| - 1] == SetMark ==> Count(init, SetMark) > 0;
    }
  }

  // ----- Every count of served reads ------------------------------------------------------

  ghost predicate Reachable(calls: seq<Call>, init: seq<Byte>, s: State) {
    exists states, acts :: IsRun(calls, init, states, acts) && states[|acts|] == s
  }

  lemma ReachStep(calls: seq<Call>, init: seq<Byte>, s: State, a: Action)
    requires Reachable(calls, init, s) && Enabled(calls, s, a)
    ensures Reachable(calls, init, Next(calls, s, a))
  {
    hide Enabled, Next, WellFormed, Init;
    var states, acts :| IsRun(calls, init, states, acts) && states[|acts|] == s;
    var states', acts' := states + [Next(calls, s, a)], acts + [a];
    assert IsRun(calls, init, states', acts') && states'[|acts'|] == Next(calls, s, a);
  }

  lemma {:induction false} ReachPath(calls: seq<Call>, init: seq<Byte>, states: seq<State>, acts: seq<Action>, i: nat)
    requires Path(calls, states, acts) && i < |states| && Reachable(calls, init, states[0])
    ensures Reachable(calls, init, states[i])
  {
    if i > 0 {
      ReachPath(calls, init, states, acts, i - 1);
      assert states[i - 1 + 1] == Next(calls, states[i - 1], acts[i - 1]);
      ReachStep(calls, init, states[i - 1], acts[i - 1]);
    }
  }

  /** A whole call, made and returned from with nothing in between. */
  lemma ReachCall(calls: seq<Call>, init: seq<Byte>, s: State, c: nat) returns (t: State)
    requires Reachable(calls, init, s) && Ready(calls, s, c)
    ensures Reachable(calls, init, t) && WellFormed(calls, t) && t.sem == s.sem
    ensures t.condition == if calls[c].ReadCall? then 0 else 1
    ensures t.pcs == s.pcs[c := t.pcs[c]] && t.pcs[c].Returned?
  {
    var states, acts := SoloCall(calls, s, c, calls[c].Window(), []);
    ReachPath(calls, init, states, acts, |acts|);
    t := states[|acts|];
  }

  predicate IdleOrReturned(pc: Pc) { pc.Idle? || pc.Returned? }

  ghost predicate Rested(calls: seq<Call>, s: State) {
    WellFormed(calls, s) && s.sem == 1 && forall c :: 0 <= c < |calls| ==> IdleOrReturned(s.pcs[c])
  }

  function IdleWrite(call: Call, pc: Pc): int { if call.WriteCall? && pc.Idle? then 1 else 0 }

  function IdleRead(call: Call, pc: Pc): int { if call.ReadCall? && pc.Idle? then 1 else 0 }

  /** All writes not yet made are made, one after the other. */
  lemma AllWrites(calls: seq<Call>, init: seq<Byte>, s: State) returns (t: State)
    requires Reachable(calls, init, s) && WellFormed(calls, s) && s.sem == 1
    requires forall c :: 0 <= c < |calls| && calls[c].WriteCall? ==> IdleOrReturned(s.pcs[c])
    ensures Reachable(calls, init, t) && WellFormed(calls, t) && t.sem == 1
    ensures forall c :: 0 <= c < |calls| ==> if calls[c].WriteCall? then t.pcs[c].Returned? else t.pcs[c] == s.pcs[c]
    ensures (forall c :: 0 <= c < |calls| ==> !calls[c].WriteCall?) ==> t.condition == s.condition
  {
    hide Reachable, ReaderFree;
    t := s;
    for i := 0 to |calls|
      invariant Reachable(calls, init, t) && WellFormed(calls, t) && t.sem == 1
      invariant forall c :: 0 <= c < |calls| && calls[c].WriteCall? ==> IdleOrReturned(t.pcs[c])
      invariant forall c :: 0 <= c < i && calls[c].WriteCall? ==> t.pcs[c].Returned?
      invariant forall c :: 0 <= c < |calls| && calls[c].ReadCall? ==> t.pcs[c] == s.pcs[c]
      invariant (forall c :: 0 <= c < |calls| ==> !calls[c].WriteCall?) ==> t.condition == s.condition
    {
      if calls[i].WriteCall? && t.pcs[i].Idle? {
        t := ReachCall(calls, init, t, i);
      }
    }
  }

  /** One write and one read served by it. */
  lemma ServeOne(calls: seq<Call>, init: seq<Byte>, s: State) returns (t: State)
    requires Reachable(calls, init, s) && Rested(calls, s)
    requires Sum(IdleWrite, calls, s.pcs) > 0 && Sum(IdleRead, calls, s.pcs) > 0
    ensures Reachable(calls, init, t) && Rested(calls, t)
    ensures Sum(IdleWrite, calls, t.pcs) == Sum(IdleWrite, calls, s.pcs) - 1
    ensures Sum(IdleRead, calls, t.pcs) == Sum(IdleRead, calls, s.pcs) - 1
    ensures Sum(ReadsReturned, calls, t.pcs) == Sum(ReadsReturned, calls, s.pcs) + 1
  {
    hide Reachable, Sum;
    var w := SumPositive(IdleWrite, calls, s.pcs);
    var r := SumPositive(IdleRead, calls, s.pcs);
    var u := ReachCall(calls, init, s, w);
    t := ReachCall(calls, init, u, r);
    forall f: (Call, Pc) -> int
      ensures Sum(f, calls, t.pcs) == Sum(f, calls, s.pcs) - f(calls[w], s.pcs[w]) + f(calls[w], u.pcs[w])
                                      - f(calls[r], u.pcs[r]) + f(calls[r], t.pcs[r]) {
      SumUpdate(f, calls, s.pcs, w, u.pcs[w]);
      SumUpdate(f, calls, u.pcs, r, t.pcs[r]);
    }
  }

  /** One read that is overtaken: all remaining writes happen between its copy and its clear. */
  lemma ServeLast(calls: seq<Call>, init: seq<Byte>, s: State) returns (t: State)
    requires Reachable(calls, init, s) && Rested(calls, s)
    requires Sum(IdleWrite, calls, s.pcs) > 0 && Sum(IdleRead, calls, s.pcs) > 0
    ensures Reachable(calls, init, t) && Rested(calls, t) && t.condition == 0
    ensures forall c :: 0 <= c < |calls| && calls[c].WriteCall? ==> t.pcs[c].Returned?
    ensures Sum(ReadsReturned, calls, t.pcs) == Sum(ReadsReturned, calls, s.pcs) + 1
  {
    hide Reachable, Sum;
    var w := SumPositive(IdleWrite, calls, s.pcs);
    var r := SumPositive(IdleRead, calls, s.pcs);
    var u := ReachCall(calls, init, s, w);
    t := CopyOnly(calls, init, u, r);
    t := AllWrites(calls, init, t);
    t := ClearAndReturn(calls, init, t, r);
    SumUpdate(ReadsReturned, calls, s.pcs, r, t.pcs[r]);
    SumEqual(ReadsReturned, ReadsReturned, calls, s.pcs[r := t.pcs[r]], t.pcs);
  }

  /** A read that has copied but not yet cleared the flag. */
  lemma CopyOnly(calls: seq<Call>, init: seq<Byte>, s: State, r: nat) returns (t: State)
    requires Reachable(calls, init, s) && Ready(calls, s, r) && calls[r].ReadCall?
    ensures Reachable(calls, init, t) && WellFormed(calls, t) && t.sem == s.sem
    ensures t.pcs == s.pcs[r := t.pcs[r]] && t.pcs[r].Copied?
  {
    hide Reachable;
    ReachStep(calls, init, s, Invoke(r));
    var s1 := Next(calls, s, Invoke(r));
    ReachStep(calls, init, s1, Pass(r));
    var s2 := Next(calls, s1, Pass(r));
    var states, acts := SoloCopy(calls, s2, [s2], [], r, calls[r].Window(), []);
    ReachPath(calls, init, states, acts, |acts|);
    t := states[|acts|];
  }

  lemma ClearAndReturn(calls: seq<Call>, init: seq<Byte>, s: State, r: nat) returns (t: State)
    requires Reachable(calls, init, s) && WellFormed(calls, s)
    requires r < |calls| && calls[r].ReadCall? && s.pcs[r].Copied?
    ensures Reachable(calls, init, t) && WellFormed(calls, t) && t.sem == s.sem && t.condition == 0
    ensures t.pcs == s.pcs[r := t.pcs[r]] && t.pcs[r].Returned?
  {
    hide Reachable;
    ReachStep(calls, init, s, Clear(r));
    var s1 := Next(calls, s, Clear(r));
    ReachStep(calls, init, s1, Return(r));
    t := Next(calls, s1, Return(r));
  }

  /** Where nobody can be served any more, one more read waits in vain, if there is one, and nothing is left to do. */
  lemma Settle(calls: seq<Call>, init: seq<Byte>, s: State) returns (t: State)
    requires Reachable(calls, init, s) && Rested(calls, s)
    requires forall c :: 0 <= c < |calls| && calls[c].WriteCall? ==> s.pcs[c].Returned?
    requires s.condition == 0 || forall c :: 0 <= c < |calls| ==> !calls[c].ReadCall?
    ensures Reachable(calls, init, t) && Quiescent(calls, t) && |t.pcs| == |calls|
    ensures Sum(ReadsReturned, calls, t.pcs) == Sum(ReadsReturned, calls, s.pcs)
  {
    hide Reachable, Sum;
    if r :| 0 <= r < |calls| && calls[r].ReadCall? && s.pcs[r].Idle? {
      ReachStep(calls, init, s, Invoke(r));
      t := Next(calls, s, Invoke(r));
      SumUpdate(ReadsReturned, calls, s.pcs, r, Waiting);
      assert Active(t.pcs[r]);
    } else {
      t := s;
    }
  }

  lemma {:induction false} ServeMany(calls: seq<Call>, init: seq<Byte>, s: State, m: nat) returns (t: State)
    requires Reachable(calls, init, s) && Rested(calls, s)
    requires 1 <= m <= Sum(IdleWrite, calls, s.pcs) && m <= Sum(IdleRead, calls, s.pcs)
    ensures Reachable(calls, init, t) && Quiescent(calls, t) && |t.pcs| == |calls|
    ensures Sum(ReadsReturned, calls, t.pcs) == Sum(ReadsReturned, calls, s.pcs) + m
    decreases m
  {
    hide Reachable, Sum, Quiescent;
    if m == 1 {
      t := ServeLast(calls, init, s);
      t := Settle(calls, init, t);
    } else {
      t := ServeOne(calls, init, s);
      t := ServeMany(calls, init, t, m - 1);
    }
  }

  /** A run can end with `m` reads served. */
  ghost predicate CanServe(calls: seq<Call>, init: seq<Byte>, m: nat) {
    exists s :: Reachable(calls, init, s) && Quiescent(calls, s) && |s.pcs| == |calls|
                && Sum(ReadsReturned, calls, s.pcs) == m
  }

  lemma InitReachable(calls: seq<Call>, init: seq<Byte>)
    requires |init| == BUFFER_LEN
    ensures Reachable(calls, init, Init(calls, init))
  {
    var states: seq<State>, acts: seq<Action> := [Init(calls, init)], [];
    assert IsRun(calls, init, states, acts) && states[|acts|] == Init(calls, init);
  }

  /** Without writes, or without reads, no read is served. */
  lemma ServeNone(calls: seq<Call>, init: seq<Byte>)
    requires |init| == BUFFER_LEN
    requires (forall c :: 0 <= c < |calls| ==> !calls[c].WriteCall?)
             || forall c :: 0 <= c < |calls| ==> !calls[c].ReadCall?
    ensures CanServe(calls, init, 0)
  {
    hide Reachable, Sum, Quiescent;
    InitReachable(calls, init);
    var t := AllWrites(calls, init, Init(calls, init));
    SumZero(ReadsReturned, calls, t.pcs) by {
      assert forall c :: 0 <= c < |calls| && calls[c].ReadCall? ==> t.pcs[c] == Idle;
    }
    t := Settle(calls, init, t);
  }

  lemma NoneOf(w: (Call, Pc) -> int, calls: seq<Call>, pcs: seq<Pc>)
    requires |calls| == |pcs| && forall i :: 0 <= i < |calls| ==> w(calls[i], pcs[i]) >= 0
    requires Sum(w, calls, pcs) <= 0
    ensures forall c :: 0 <= c < |calls| ==> w(calls[c], pcs[c]) == 0
  {
    forall c | 0 <= c < |calls| ensures w(calls[c], pcs[c]) == 0 {
      SumAtLeast(w, calls, pcs, c);
    }
  }

  lemma ServedInRange(calls: seq<Call>, init: seq<Byte>, s: State)
    requires Reachable(calls, init, s) && Quiescent(calls, s)
    ensures |s.pcs| == |calls|
    ensures var pcs := Init(calls, init).pcs;
            var w, r, served := Sum(IsWrite, calls, pcs), Sum(IsRead, calls, pcs), Sum(ReadsReturned, calls, s.pcs);
            served <= w && served <= r && (w > 0 && r > 0 ==> served > 0)
  {
    hide Sum, Quiescent;
    var states, acts :| IsRun(calls, init, states, acts) && states[|acts|] == s;
    RunsEnd(calls, init, states, acts);
    SumEqual(IsWrite, IsWrite, calls, s.pcs, Init(calls, init).pcs);
    SumEqual(IsRead, IsRead, calls, s.pcs, Init(calls, init).pcs);
  }

  lemma ServedOnly(calls: seq<Call>, init: seq<Byte>, m: nat)
    requires |init| == BUFFER_LEN && CanServe(calls, init, m)
    ensures var pcs := Init(calls, init).pcs;
            var w, r := Sum(IsWrite, calls, pcs), Sum(IsRead, calls, pcs);
            if w == 0 || r == 0 then m == 0 else 1 <= m <= w && m <= r
  {
    hide Reachable, Sum, Quiescent;
    var pcs := Init(calls, init).pcs;
    var t :| Reachable(calls, init, t) && Quiescent(calls, t) && |t.pcs| == |calls|
             && Sum(ReadsReturned, calls, t.pcs) == m;
    ServedInRange(calls, init, t);
    SumNonNegative(IsWrite, calls, pcs);
    SumNonNegative(IsRead, calls, pcs);
  }

  lemma ServedAny(calls: seq<Call>, init: seq<Byte>, m: nat)
    requires |init| == BUFFER_LEN
    requires 1 <= m <= Sum(IsWrite, calls, Init(calls, init).pcs) && m <= Sum(IsRead, calls, Init(calls, init).pcs)
    ensures CanServe(calls, init, m)
  {
    hide Reachable, Sum, Quiescent;
    var s := Init(calls, init);
    InitReachable(calls, init);
    SumEqual(IdleWrite, IsWrite, calls, s.pcs, s.pcs);
    SumEqual(IdleRead, IsRead, calls, s.pcs, s.pcs);
    SumZero(ReadsReturned, calls, s.pcs);
    var t := ServeMany(calls, init, s, m);
  }

  lemma OneSideMissing(calls: seq<Call>, pcs: seq<Pc>)
    requires |calls| == |pcs| && (Sum(IsWrite, calls, pcs) == 0 || Sum(IsRead, calls, pcs) == 0)
    ensures (forall c :: 0 <= c < |calls| ==> !calls[c].WriteCall?)
            || forall c :: 0 <= c < |calls| ==> !calls[c].ReadCall?
  {
    hide Sum;
    if Sum(IsWrite, calls, pcs) == 0 {
      NoneOf(IsWrite, calls, pcs);
      assert forall c :: 0 <= c < |calls| ==> IsWrite(calls[c], pcs[c]) == 0;
    } else {
      NoneOf(IsRead, calls, pcs);
      assert forall c :: 0 <= c < |calls| ==> IsRead(calls[c], pcs[c]) == 0;
    }
  }

  /** Exactly how many reads can be served: with W writes and R reads, any number from one to min(W, R);
      none at all only when there are no writes or no reads. A set that lands between a read's copy
      and its clear is lost, so more writes promise no more than one read. */
  lemma ServedExactly(calls: seq<Call>, init: seq<Byte>, m: nat)
    requires |init| == BUFFER_LEN
    ensures var pcs := Init(calls, init).pcs;
            var w, r := Sum(IsWrite, calls, pcs), Sum(IsRead, calls, pcs);
            CanServe(calls, init, m) <==> if w == 0 || r == 0 then m == 0 else 1 <= m <= w && m <= r
  {
    hide Sum, CanServe;
    var pcs := Init(calls, init).pcs;
    if CanServe(calls, init, m) {
      ServedOnly(calls, init, m);
    } else if Sum(IsWrite, calls, pcs) == 0 || Sum(IsRead, calls, pcs) == 0 {
      OneSideMissing(calls, pcs);
      ServeNone(calls, init);
    } else if 1 <= m <= Sum(IsWrite, calls, pcs) && m <= Sum(IsRead, calls, pcs) {
      ServedAny(calls, init, m);
    }
  }
}
