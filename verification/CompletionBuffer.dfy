/** The completion hand-off: writes signal, every read waits for a signal of its own. */
module CompletionBuffer {
  import opened Bytes
  import opened UserCopy

  // ----- States and steps -----------------------------------------------------------------

  /** `done` is the completion's counter. */
  datatype State = State(done: int, buffer: seq<Byte>, pcs: seq<Pc>)

  datatype Action = Invoke(c: nat) | Admit(c: nat) | Copy(c: nat, step: CopyStep) | Complete(c: nat) | Return(c: nat)

  predicate WellFormed(calls: seq<Call>, s: State) {
    && |s.pcs| == |calls| && |s.buffer| == BUFFER_LEN
    && forall c :: 0 <= c < |calls| ==> PcOk(calls[c], s.pcs[c])
  }

  function Init(calls: seq<Call>, init: seq<Byte>): State {
    State(0, init, seq(|calls|, _ => Idle))
  }

  predicate Enabled(calls: seq<Call>, s: State, a: Action) {
    && WellFormed(calls, s) && a.c < |calls|
    && match a
       case Invoke(c) => s.pcs[c].Idle?
       case Admit(c) => calls[c].ReadCall? && s.pcs[c].Waiting? && s.done > 0
       case Copy(c, step) => CopyEnabled(calls[c], s.pcs[c], step)
       case Complete(c) => calls[c].WriteCall? && s.pcs[c].Copied?
       case Return(c) => if calls[c].ReadCall? then s.pcs[c].Copied? else s.pcs[c].Released?
  }

  function Next(calls: seq<Call>, s: State, a: Action): (r: State)
    requires Enabled(calls, s, a)
    ensures WellFormed(calls, r)
  {
    match a
    case Invoke(c) => s.(pcs := s.pcs[c := if calls[c].ReadCall? then Waiting else Entered])
    case Admit(c) => s.(done := s.done - 1, pcs := s.pcs[c := Entered])
    case Copy(c, step) => s.(buffer := BufferAfter(calls[c], s.buffer, s.pcs[c], step),
                             pcs := s.pcs[c := PcAfter(calls[c], s.buffer, s.pcs[c], step)])
    case Complete(c) => s.(done := s.done + 1, pcs := s.pcs[c := Released(s.pcs[c].n, s.pcs[c].got)])
    case Return(c) => s.(pcs := s.pcs[c := Returned(s.pcs[c].n, s.pcs[c].got)])
  }

  /** Every state follows from the one before by one enabled step of some call. */
  ghost predicate Path(calls: seq<Call>, states: seq<State>, acts: seq<Action>) {
    && |states| == |acts| + 1
    && forall i :: 0 <= i < |acts| ==>
         Enabled(calls, states[i], acts[i]) && states[i + 1] == Next(calls, states[i], acts[i])
  }

  ghost predicate IsRun(calls: seq<Call>, init: seq<Byte>, states: seq<State>, acts: seq<Action>) {
    |init| == BUFFER_LEN && Path(calls, states, acts) && states[0] == Init(calls, init)
  }

  // ----- One call on its own --------------------------------------------------------------

  /** `states` leads on from `s` by steps of call `c` only. */
  ghost predicate Solo(calls: seq<Call>, s: State, c: nat, states: seq<State>, acts: seq<Action>) {
    Path(calls, states, acts) && states[0] == s && forall i :: 0 <= i < |acts| ==> acts[i].c == c
  }

  lemma Further(calls: seq<Call>, s: State, states: seq<State>, acts: seq<Action>, a: Action)
      returns (states': seq<State>, acts': seq<Action>)
    requires Solo(calls, s, a.c, states, acts) && |states| == |acts| + 1 && Enabled(calls, states[|acts|], a)
    ensures Solo(calls, s, a.c, states', acts') && |states'| == |acts'| + 1
    ensures states'[|acts'|] == Next(calls, states[|acts|], a)
  {
    hide Enabled, Next, WellFormed;
    states', acts' := states + [Next(calls, states[|acts|], a)], acts + [a];
  }

  /** The steps of a copy's bytes, taken in the driver. */
  lemma SoloBytes(calls: seq<Call>, s: State, states: seq<State>, acts: seq<Action>,
                  c: nat, copied: nat, junk: seq<Byte>)
      returns (states': seq<State>, acts': seq<Action>)
    requires Solo(calls, s, c, states, acts) && |states| == |acts| + 1 && WellFormed(calls, states[|acts|])
    requires c < |calls| && states[|acts|].pcs[c] == Copying(calls[c].Window(), 0, [])
    requires CanCopy(calls[c], copied, junk)
    ensures Solo(calls, s, c, states', acts') && |states'| == |acts'| + 1
    ensures var t := states[|acts|];
            states'[|acts'|] == t.(buffer := CopiedBuffer(calls[c], t.buffer, copied, junk),
                                   pcs := t.pcs[c := Copied(copied, CopiedBytes(calls[c], t.buffer, copied))])
  {
    hide Solo, PcAfter, BufferAfter, CopiedBytes, CopiedBuffer;
    var t := states[|acts|];
    var moments, steps := WholeTrace(calls[c], t.buffer, copied, junk);
    states', acts' := states, acts;
    for i := 0 to |steps|
      invariant Solo(calls, s, c, states', acts') && |states'| == |acts'| + 1
      invariant states'[|acts'|] == t.(buffer := moments[i].buffer, pcs := t.pcs[c := moments[i].pc])
    {
      assert TraceStep(calls[c], moments[i], steps[i], moments[i + 1]);
      states', acts' := Further(calls, s, states', acts', Copy(c, steps[i]));
    }
  }

  /** The same from entering, with the choice of the length. */
  lemma SoloCopy(calls: seq<Call>, s: State, states: seq<State>, acts: seq<Action>,
                 c: nat, copied: nat, junk: seq<Byte>)
      returns (states': seq<State>, acts': seq<Action>)
    requires Solo(calls, s, c, states, acts) && |states| == |acts| + 1 && WellFormed(calls, states[|acts|])
    requires c < |calls| && states[|acts|].pcs[c].Entered? && CanCopy(calls[c], copied, junk)
    ensures Solo(calls, s, c, states', acts') && |states'| == |acts'| + 1
    ensures var t := states[|acts|];
            states'[|acts'|] == t.(buffer := CopiedBuffer(calls[c], t.buffer, copied, junk),
                                   pcs := t.pcs[c := Copied(copied, CopiedBytes(calls[c], t.buffer, copied))])
  {
    hide Solo, CopiedBytes, CopiedBuffer;
    states', acts' := Further(calls, s, states, acts, Copy(c, ComputeLen));
    states', acts' := SoloBytes(calls, s, states', acts', c, copied, junk);
  }

  /** A call that has not been made; a read with a signal to consume. */
  predicate Ready(calls: seq<Call>, s: State, c: nat) {
    WellFormed(calls, s) && c < |calls| && s.pcs[c].Idle? && (calls[c].ReadCall? ==> s.done > 0)
  }

  /** A call running alone takes these steps and no others, and acts as one operation. */
  lemma SoloCall(calls: seq<Call>, s: State, c: nat, copied: nat, junk: seq<Byte>)
      returns (states: seq<State>, acts: seq<Action>)
    requires Ready(calls, s, c) && CanCopy(calls[c], copied, junk)
    ensures Solo(calls, s, c, states, acts) && |states| == |acts| + 1
    ensures states[|acts|] == State(s.done + if calls[c].ReadCall? then -1 else 1,
                                    CopiedBuffer(calls[c], s.buffer, copied, junk),
                                    s.pcs[c := Returned(copied, CopiedBytes(calls[c], s.buffer, copied))])
  {
    states, acts := [s], [];
    assert Solo(calls, s, c, states, acts);
    hide Solo, CopiedBytes, CopiedBuffer;
    states, acts := Further(calls, s, states, acts, Invoke(c));
    if calls[c].ReadCall? {
      states, acts := Further(calls, s, states, acts, Admit(c));
    }
    states, acts := SoloCopy(calls, s, states, acts, c, copied, junk);
    if calls[c].WriteCall? {
      states, acts := Further(calls, s, states, acts, Complete(c));
    }
    states, acts := Further(calls, s, states, acts, Return(c));
  }

  // ----- The driver -----------------------------------------------------------------------

  /** A call of the step system, and a state in which it has not been made yet. */
  datatype Caller = Caller(calls: seq<Call>, start: State, c: nat)

  /** The driver's globals, and a trail of the steps the call being carried out has taken so far. 
      A read or write is one call running alone, of which `copied` bytes get through. */
  class SampleCharDrv {
    const buffer: array<Byte>
    var done: int
    ghost var caller: Caller
    ghost var states: seq<State>
    ghost var acts: seq<Action>

    constructor ()
      ensures fresh(buffer) && buffer.Length == BUFFER_LEN && done == 0
    {
      buffer := new Byte[BUFFER_LEN];
      done := 0;
    }

    ghost predicate Shown(s: State)
      reads this, buffer
    {
      s.done == done && s.buffer == buffer[..]
    }

    /** The trail is a path of steps of the caller alone, and has led it to `pc` and to these globals. */
    ghost predicate Trail(pc: Pc)
      reads this, buffer
    {
      && buffer.Length == BUFFER_LEN && caller.c < |caller.calls| == |caller.start.pcs|
      && Solo(caller.calls, caller.start, caller.c, states, acts) && |states| == |acts| + 1
      && WellFormed(caller.calls, states[|acts|]) && Shown(states[|acts|])
      && states[|acts|].pcs == caller.start.pcs[caller.c := pc]
    }

    lemma TrailLength(len: nat)
      requires Trail(Copying(len, 0, []))
      ensures len == caller.calls[caller.c].Window() <= BUFFER_LEN
    {
      assert PcOk(caller.calls[caller.c], states[|acts|].pcs[caller.c]);
    }

    ghost method Begin(who: Caller)
      requires Ready(who.calls, who.start, who.c) && buffer.Length == BUFFER_LEN && Shown(who.start)
      modifies this`caller, this`states, this`acts
      ensures caller == who && Trail(if who.calls[who.c].ReadCall? then Waiting else Entered)
      ensures who.calls[who.c].ReadCall? ==> done > 0
    {
      caller := who;
      states, acts := [who.start], [];
      states, acts := Further(who.calls, who.start, states, acts, Invoke(who.c));
    }

    method WaitForCompletion()
      requires Trail(Waiting) && caller.calls[caller.c].ReadCall? && done > 0
      modifies this`done, this`states, this`acts
      ensures Trail(Entered) && done == old(done) - 1
    {
      done := done - 1;
      states, acts := Further(caller.calls, caller.start, states, acts, Action.Admit(caller.c));
    }

    method Complete(ghost n: nat, ghost got: seq<Byte>)
      requires Trail(Copied(n, got)) && caller.calls[caller.c].WriteCall?
      modifies this`done, this`states, this`acts
      ensures Trail(Released(n, got)) && done == old(done) + 1
    {
      done := done + 1;
      states, acts := Further(caller.calls, caller.start, states, acts, Action.Complete(caller.c));
    }

    /** The count asked for, but no more than the buffer holds. */
    method ChooseLength(count: nat) returns (len: nat)
      requires Trail(Entered) && caller.calls[caller.c].Count() == count
      modifies this`states, this`acts
      ensures Trail(Copying(len, 0, [])) && len == if count < 4000 then count else 4000
    {
      if count > BUFFER_LEN {
        len := BUFFER_LEN;
      } else {
        len := count;
      }
      states, acts := Further(caller.calls, caller.start, states, acts, Copy(caller.c, ComputeLen));
    }

    method CopyOut(len: nat, copied: nat) returns (left: nat, out: seq<Byte>)
      requires Trail(Copying(len, 0, [])) && caller.calls[caller.c].ReadCall? && copied <= len
      modifies this`states, this`acts
      ensures len <= buffer.Length
      ensures Trail(Copied(copied, out)) && left == len - copied && out == buffer[..copied]
    {
      TrailLength(len);
      left, out := CopyToUser(buffer, len, copied);
      states, acts := SoloBytes(caller.calls, caller.start, states, acts, caller.c, copied, []);
    }

    method CopyIn(data: seq<Byte>, len: nat, copied: nat, junk: seq<Byte>) returns (left: nat)
      requires Trail(Copying(len, 0, [])) && caller.calls[caller.c] == WriteCall(data)
      requires copied <= len && |junk| == len - copied
      modifies this`states, this`acts, buffer
      ensures len <= buffer.Length && len <= |data|
      ensures Trail(Copied(copied, [])) && left == len - copied
      ensures buffer[..] == Splice(old(buffer[..]), 0, data[..copied] + junk)
    {
      TrailLength(len);
      left := CopyFromUser(buffer, data, len, copied, junk);
      states, acts := SoloBytes(caller.calls, caller.start, states, acts, caller.c, copied, junk);
    }

    ghost method End(n: nat, got: seq<Byte>)
      requires caller.c < |caller.calls|
      requires Trail(if caller.calls[caller.c].ReadCall? then Copied(n, got) else Released(n, got))
      modifies this`states, this`acts
      ensures Trail(Returned(n, got))
    {
      states, acts := Further(caller.calls, caller.start, states, acts, Return(caller.c));
    }

    method SampleCharDrvRead(count: nat, copied: nat, ghost who: Caller) returns (ret: nat, out: seq<Byte>)
      requires Ready(who.calls, who.start, who.c) && buffer.Length == BUFFER_LEN && Shown(who.start)
      requires who.calls[who.c] == ReadCall(count) && copied <= if count < 4000 then count else 4000
      modifies this
      ensures ret == copied && out == buffer[..copied] && buffer[..] == old(buffer[..])
      ensures AtomicStep(ReadCall(count), ret, out, old(buffer[..]), buffer[..])
      ensures done == old(done) - 1
      ensures caller == who && Trail(Returned(ret, out))
    {
      hide *;
      LoneRead(count, copied, buffer[..]);
      Begin(who);
      WaitForCompletion();
      var len := ChooseLength(count);
      var left: nat;
      left, out := CopyOut(len, copied);
      ret := len - left;
      End(ret, out);
    }

    method SampleCharDrvWrite(data: seq<Byte>, copied: nat, junk: seq<Byte>, ghost who: Caller) returns (ret: nat)
      requires Ready(who.calls, who.start, who.c) && buffer.Length == BUFFER_LEN && Shown(who.start)
      requires who.calls[who.c] == WriteCall(data)
      requires copied + |junk| == if |data| < 4000 then |data| else 4000
      modifies this, buffer
      ensures ret == copied && buffer[..] == data[..copied] + junk + old(buffer[copied + |junk|..])
      ensures AtomicStep(WriteCall(data), ret, [], old(buffer[..]), buffer[..])
      ensures done == old(done) + 1
      ensures caller == who && Trail(Returned(ret, []))
    {
      hide *;
      LoneWrite(data, copied, junk, buffer[..]);
      Begin(who);
      var len := ChooseLength(|data|);
      var left := CopyIn(data, len, copied, junk);
      Complete(copied, []);
      ret := len - left;
      End(ret, []);
    }
  }

  // ----- Conservation of signals ----------------------------------------------------------

  function Signals(call: Call, pc: Pc): int {
    if call.WriteCall? && (pc.Released? || pc.Returned?) then 1 else 0
  }

  function Admissions(call: Call, pc: Pc): int {
    if call.ReadCall? && Begun(pc) then 1 else 0
  }

  /** Only writes stop at `Released`, only reads wait, and nothing else is used. */
  predicate PathOk(call: Call, pc: Pc) {
    !pc.Signalled? && (call.ReadCall? ==> !pc.Released?) && (call.WriteCall? ==> !pc.Waiting?)
  }

  ghost predicate Inv(calls: seq<Call>, s: State) {
    && WellFormed(calls, s)
    && (forall c :: 0 <= c < |calls| ==> PathOk(calls[c], s.pcs[c]))
    && s.done >= 0
    && s.done == Sum(Signals, calls, s.pcs) - Sum(Admissions, calls, s.pcs)
  }

  lemma PathNext(calls: seq<Call>, s: State, a: Action)
    requires Enabled(calls, s, a) && forall c :: 0 <= c < |calls| ==> PathOk(calls[c], s.pcs[c])
    ensures var r := Next(calls, s, a);
            && |r.pcs| == |calls| && r.pcs == s.pcs[a.c := r.pcs[a.c]]
            && PathOk(calls[a.c], r.pcs[a.c])
            && forall c :: 0 <= c < |calls| ==> PathOk(calls[c], r.pcs[c])
  {
    hide BufferAfter, PcOk;
  }

  /** One step changes the counter as it changes the two counts. */
  lemma CountsNext(calls: seq<Call>, s: State, a: Action)
    requires Enabled(calls, s, a) && PathOk(calls[a.c], s.pcs[a.c])
    ensures var r, c := Next(calls, s, a), a.c;
            r.done - s.done == Signals(calls[c], r.pcs[c]) - Signals(calls[c], s.pcs[c])
                               - Admissions(calls[c], r.pcs[c]) + Admissions(calls[c], s.pcs[c])
    ensures s.done >= 0 ==> Next(calls, s, a).done >= 0
  {
    hide BufferAfter, PcOk;
  }

  lemma InvNext(calls: seq<Call>, s: State, a: Action)
    requires Inv(calls, s) && Enabled(calls, s, a)
    ensures Inv(calls, Next(calls, s, a))
  {
    assert a.c < |calls| && PathOk(calls[a.c], s.pcs[a.c]) && WellFormed(calls, Next(calls, s, a));
    hide Sum, Signals, Admissions, Next, Enabled, PathOk, WellFormed;
    PathNext(calls, s, a);
    CountsNext(calls, s, a);
    var pc := Next(calls, s, a).pcs[a.c];
    SumUpdate(Signals, calls, s.pcs, a.c, pc);
    SumUpdate(Admissions, calls, s.pcs, a.c, pc);
  }

  /** On every interleaving the counter is completed signals minus admitted reads. */
  lemma {:induction false} TokensConserved(calls: seq<Call>, init: seq<Byte>, states: seq<State>,
                                           acts: seq<Action>, i: nat)
    requires IsRun(calls, init, states, acts) && i < |states|
    ensures Inv(calls, states[i])
  {
    if i == 0 {
      SumZero(Signals, calls, states[0].pcs);
      SumZero(Admissions, calls, states[0].pcs);
    } else {
      TokensConserved(calls, init, states, acts, i - 1);
      assert states[i - 1 + 1] == Next(calls, states[i - 1], acts[i - 1]);
      InvNext(calls, states[i - 1], acts[i - 1]);
    }
  }

  /** No read gets past its wait before some write has finished copying and signalled. */
  lemma ReadsFollowASignal(calls: seq<Call>, s: State, c: nat) returns (w: nat)
    requires Inv(calls, s) && c < |calls| && calls[c].ReadCall? && Begun(s.pcs[c])
    ensures w < |calls| && calls[w].WriteCall? && (s.pcs[w].Released? || s.pcs[w].Returned?)
  {
    SumAtLeast(Admissions, calls, s.pcs, c);
    w := SumPositive(Signals, calls, s.pcs);
  }

  // ----- Where every run ends -------------------------------------------------------------

  lemma StepUsesWork(calls: seq<Call>, s: State, a: Action)
    requires Enabled(calls, s, a)
    ensures MovesOn(calls, s.pcs, Next(calls, s, a).pcs, a.c)
  {
    if a.Copy? {
      CopyRankDrops(calls[a.c], s.buffer, s.pcs[a.c], a.step);
    }
  }

  /** Where the calls stand along a run, and whose step each one is. */
  ghost function Trace(states: seq<State>): (r: seq<seq<Pc>>)
    ensures |r| == |states| && forall k :: 0 <= k < |states| ==> r[k] == states[k].pcs
  {
    seq(|states|, k requires 0 <= k < |states| => states[k].pcs)
  }

  ghost function Who(acts: seq<Action>): (r: seq<nat>)
    ensures |r| == |acts| && forall k :: 0 <= k < |acts| ==> r[k] == acts[k].c
  {
    seq(|acts|, k requires 0 <= k < |acts| => acts[k].c)
  }

  /** Every step uses up work, so no schedule is longer than the work there was at the start. */
  lemma RunsAreBounded(calls: seq<Call>, init: seq<Byte>, states: seq<State>, acts: seq<Action>, i: nat)
    requires IsRun(calls, init, states, acts) && i < |states|
    ensures |states[i].pcs| == |calls|
    ensures 0 <= Sum(Rank, calls, states[i].pcs) <= Sum(Rank, calls, Init(calls, init).pcs) - i
  {
    assert |states| == |acts| + 1 && states[0] == Init(calls, init) && PcsOk(calls, states[0].pcs);
    hide IsRun, Enabled, Next, MovesOn, Rank, PcsOk, Trace, Who, Sum, Init;
    forall k | 0 <= k < |acts| ensures UsesWork(calls, Trace(states), Who(acts), k) {
      RunStep(calls, init, states, acts, k);
      StepUsesWork(calls, states[k], acts[k]);
    }
    WorkBoundsRuns(calls, Trace(states), Who(acts), i);
    SameLength(calls, states[i].pcs);
  }

  ghost predicate Quiescent(calls: seq<Call>, s: State) {
    forall a: Action :: !Enabled(calls, s, a)
  }

  /** A call inside its copy can take a step. */
  lemma CopyGoesOn(calls: seq<Call>, s: State, c: nat)
    requires WellFormed(calls, s) && c < |calls| && (s.pcs[c].Entered? || s.pcs[c].Copying?)
    ensures Enabled(calls, s, Copy(c, NextCopyStep(calls[c], s.pcs[c])))
  {
  }

  /** In a quiescent state every write has returned, and a read has returned unless it waits. */
  lemma QuiescentPc(calls: seq<Call>, s: State, c: nat)
    requires Inv(calls, s) && Quiescent(calls, s) && c < |calls|
    ensures s.pcs[c].Returned? || (calls[c].ReadCall? && s.pcs[c].Waiting? && s.done == 0)
  {
    assert PathOk(calls[c], s.pcs[c]);
    assert !Enabled(calls, s, Invoke(c)) && !Enabled(calls, s, Admit(c));
    assert !Enabled(calls, s, Complete(c)) && !Enabled(calls, s, Return(c));
    if s.pcs[c].Entered? || s.pcs[c].Copying? {
      CopyGoesOn(calls, s, c);
      assert false;
    }
  }

  /** When no step remains, exactly min(W, R) reads have returned, and unused signals are left over. */
  lemma ReadsServed(calls: seq<Call>, init: seq<Byte>, states: seq<State>, acts: seq<Action>)
    requires IsRun(calls, init, states, acts) && Quiescent(calls, states[|acts|])
    ensures |states[|acts|].pcs| == |calls|
    ensures forall c :: 0 <= c < |calls| && calls[c].WriteCall? ==> states[|acts|].pcs[c].Returned?
    ensures var pcs := states[|acts|].pcs;
            var w, r := Sum(IsWrite, calls, pcs), Sum(IsRead, calls, pcs);
            && Sum(ReadsReturned, calls, pcs) == (if w < r then w else r)
            && states[|acts|].done == (if w < r then 0 else w - r)
  {
    hide Sum, Enabled;
    TokensConserved(calls, init, states, acts, |acts|);
    var s := states[|acts|];
    forall c | 0 <= c < |calls|
      ensures s.pcs[c].Returned? || (calls[c].ReadCall? && s.pcs[c].Waiting? && s.done == 0) {
      QuiescentPc(calls, s, c);
    }
    SumEqual(Signals, IsWrite, calls, s.pcs, s.pcs);
    SumEqual(Admissions, ReadsReturned, calls, s.pcs, s.pcs);
    SumMonotone(ReadsReturned, IsRead, calls, s.pcs);
    if s.done > 0 {
      SumEqual(ReadsReturned, IsRead, calls, s.pcs, s.pcs);
    }
  }

  // ----- What an admitted read sees -------------------------------------------------------

  ghost predicate OnlyWriter(calls: seq<Call>, w: nat) {
    w < |calls| && forall c :: 0 <= c < |calls| ==> (calls[c].WriteCall? <==> c == w)
  }

  /** With a single writer: before it signals only it touches the buffer; afterwards nobody does. */
  ghost predicate Published(calls: seq<Call>, init: seq<Byte>, s: State, w: nat)
    requires Inv(calls, s) && OnlyWriter(calls, w)
  {
    && (if Begun(s.pcs[w]) then Progressed(calls[w], s.pcs[w], init, s.buffer) else s.buffer == init)
    && forall c :: 0 <= c < |calls| && calls[c].ReadCall? && Begun(s.pcs[c]) ==>
         Progressed(calls[c], s.pcs[c], s.buffer, s.buffer)
  }

  lemma {:induction false} PublishedAlways(calls: seq<Call>, init: seq<Byte>, states: seq<State>,
                                           acts: seq<Action>, i: nat, w: nat)
    requires IsRun(calls, init, states, acts) && i < |states| && OnlyWriter(calls, w)
    ensures Inv(calls, states[i]) && Published(calls, init, states[i], w)
  {
    TokensConserved(calls, init, states, acts, i);
    if i > 0 {
      PublishedAlways(calls, init, states, acts, i - 1, w);
      assert states[i - 1 + 1] == Next(calls, states[i - 1], acts[i - 1]);
      PublishedNext(calls, init, states[i - 1], acts[i - 1], w);
    }
  }

  lemma PublishedNext(calls: seq<Call>, init: seq<Byte>, s: State, a: Action, w: nat)
    requires |init| == BUFFER_LEN
    requires Inv(calls, s) && Enabled(calls, s, a) && OnlyWriter(calls, w) && Published(calls, init, s, w)
    requires Inv(calls, Next(calls, s, a))
    ensures Published(calls, init, Next(calls, s, a), w)
  {
    hide Sum;
    var r := Next(calls, s, a);
    if a.Copy? {
      hide PcAfter, BufferAfter;
      if a.c == w {
        ProgressKept(calls[w], s.pcs[w], init, s.buffer, a.step);
        forall c | 0 <= c < |calls| && calls[c].ReadCall? ensures !Begun(s.pcs[c]) {
          if Begun(s.pcs[c]) {
            var v := ReadsFollowASignal(calls, s, c);
            assert false;
          }
        }
      } else {
        ProgressKept(calls[a.c], s.pcs[a.c], s.buffer, s.buffer, a.step);
        ReadKeepsBuffer(calls[a.c], s.buffer, s.pcs[a.c], a.step);
      }
    }
  }

  lemma ReadKeepsBuffer(call: Call, buffer: seq<Byte>, pc: Pc, step: CopyStep)
    requires |buffer| == BUFFER_LEN && PcOk(call, pc) && CopyEnabled(call, pc, step) && call.ReadCall?
    ensures BufferAfter(call, buffer, pc, step) == buffer
  {
  }

  /** Safe publication: with one writer, whatever the interleaving, every returned read got a prefix
      of the buffer as that write left it, and that write acted on the initial buffer as one step. */
  lemma SingleWriteIsPublished(calls: seq<Call>, init: seq<Byte>, states: seq<State>, acts: seq<Action>,
                               w: nat, c: nat)
    requires IsRun(calls, init, states, acts) && OnlyWriter(calls, w)
    requires c < |calls| && calls[c].ReadCall? && |states[|acts|].pcs| == |calls|
    requires states[|acts|].pcs[c].Returned?
    ensures var s := states[|acts|];
            && (s.pcs[w].Released? || s.pcs[w].Returned?)
            && AtomicStep(calls[w], s.pcs[w].n, [], init, s.buffer)
            && s.pcs[c].n <= calls[c].Window() && s.pcs[c].got == s.buffer[..s.pcs[c].n]
  {
    PublishedAlways(calls, init, states, acts, |acts|, w);
    var v := ReadsFollowASignal(calls, states[|acts|], c);
    assert Progressed(calls[c], states[|acts|].pcs[c], states[|acts|].buffer, states[|acts|].buffer);
  }

  predicate Faulted(acts: seq<Action>, c: nat) {
    exists i :: 0 <= i < |acts| && acts[i].Copy? && acts[i].c == c && acts[i].step.CopyFault?
  }

  lemma CountStep(calls: seq<Call>, s: State, a: Action, c: nat)
    requires Enabled(calls, s, a) && c < |calls| && WholeCount(calls[c], s.pcs[c])
    requires !(a.Copy? && a.c == c && a.step.CopyFault?)
    ensures |Next(calls, s, a).pcs| == |calls| && WholeCount(calls[c], Next(calls, s, a).pcs[c])
  {
    hide BufferAfter, PcAfter;
    if a.Copy? && a.c == c {
      WholeCountKept(calls[c], s.buffer, s.pcs[c], a.step);
    }
  }

  /** A call whose copy does not fault returns the count it asked for, or 4000 if that is less; a read has
      got that many bytes. */
  lemma {:induction false} FaultFreeCount(calls: seq<Call>, init: seq<Byte>, states: seq<State>,
                                          acts: seq<Action>, i: nat, c: nat)
    requires IsRun(calls, init, states, acts) && i < |states| && c < |calls| && !Faulted(acts, c)
    ensures |states[i].pcs| == |calls| && WholeCount(calls[c], states[i].pcs[c])
    ensures var pc, count := states[i].pcs[c], calls[c].Count();
            pc.Copied? || pc.Released? || pc.Signalled? || pc.Returned? ==>
              && pc.n == (if count < 4000 then count else 4000)
              && (calls[c].ReadCall? ==> |pc.got| == if count < 4000 then count else 4000)
  {
    hide IsRun, Next, Enabled, Faulted;
    StartCount(calls, init, states, acts, c);
    if i > 0 {
      RunStep(calls, init, states, acts, i - 1);
      FaultFreeCount(calls, init, states, acts, i - 1, c);
      NoFaultStep(acts, i - 1, c);
      CountStep(calls, states[i - 1], acts[i - 1], c);
    }
  }

  lemma StartCount(calls: seq<Call>, init: seq<Byte>, states: seq<State>, acts: seq<Action>, c: nat)
    requires IsRun(calls, init, states, acts) && c < |calls|
    ensures |states| == |acts| + 1 && |init| == BUFFER_LEN
    ensures |states[0].pcs| == |calls| && states[0].pcs[c] == Idle
  {
  }

  lemma NoFaultStep(acts: seq<Action>, i: nat, c: nat)
    requires i < |acts| && !Faulted(acts, c)
    ensures !(acts[i].Copy? && acts[i].c == c && acts[i].step.CopyFault?)
  {
  }

  /** The same without faults, byte for byte: the write puts its payload, or the first 4000 bytes of it, at
      the front of the initial buffer, and every returned read got as many bytes of that as it asked for, up to 4000. */
  lemma FaultFreePublication(calls: seq<Call>, init: seq<Byte>, states: seq<State>, acts: seq<Action>,
                             w: nat, c: nat)
    requires IsRun(calls, init, states, acts) && OnlyWriter(calls, w)
    requires !Faulted(acts, w) && !Faulted(acts, c)
    requires c < |calls| && calls[c].ReadCall? && |states[|acts|].pcs| == |calls|
    requires states[|acts|].pcs[c].Returned?
    ensures var p, count := calls[w].payload, calls[c].count;
            var m, n := if |p| < 4000 then |p| else 4000, if count < 4000 then count else 4000;
            && states[|acts|].buffer == p[..m] + init[m..]
            && states[|acts|].pcs[c].got == states[|acts|].buffer[..n]
  {
    SingleWriteIsPublished(calls, init, states, acts, w, c);
    FaultFreeCount(calls, init, states, acts, |acts|, w);
    FaultFreeCount(calls, init, states, acts, |acts|, c);
    var buffer, m := states[|acts|].buffer, calls[w].Window();
    assert buffer == buffer[..m] + buffer[m..];
  }

  /** With any number of writers: a read gets a prefix of the buffer it was admitted to, as long as no
      write copies anything between its admission and its last byte. */
  lemma {:induction false} QuietReadIsExact(calls: seq<Call>, init: seq<Byte>, states: seq<State>,
                                            acts: seq<Action>, i: nat, j: nat, c: nat)
    requires IsRun(calls, init, states, acts) && i <= j < |states|
    requires c < |calls| && calls[c].ReadCall?
    requires |states[i].pcs| == |calls| && |states[i].buffer| == BUFFER_LEN && states[i].pcs[c].Entered?
    requires forall k :: i <= k < j && acts[k].Copy? ==> acts[k].c < |calls| && calls[acts[k].c].ReadCall?
    ensures |states[j].pcs| == |calls| && states[j].buffer == states[i].buffer
    ensures Progressed(calls[c], states[j].pcs[c], states[i].buffer, states[j].buffer)
    decreases j
  {
    assert |states| == |acts| + 1;
    hide IsRun, Inv, Next, Enabled, Progressed;
    if i == j {
      EnteredProgress(calls[c], states[i].buffer);
    } else {
      QuietReadIsExact(calls, init, states, acts, i, j - 1, c);
      QuietRunStep(calls, init, states, acts, j - 1, c);
    }
  }

  lemma QuietRunStep(calls: seq<Call>, init: seq<Byte>, states: seq<State>, acts: seq<Action>, k: nat, c: nat)
    requires IsRun(calls, init, states, acts) && k < |acts|
    requires c < |calls| && calls[c].ReadCall? && |states[k].pcs| == |calls|
    requires acts[k].Copy? ==> acts[k].c < |calls| && calls[acts[k].c].ReadCall?
    requires Progressed(calls[c], states[k].pcs[c], states[k].buffer, states[k].buffer)
    ensures |states| == |acts| + 1
    ensures |states[k + 1].pcs| == |calls| && states[k + 1].buffer == states[k].buffer
    ensures Progressed(calls[c], states[k + 1].pcs[c], states[k].buffer, states[k].buffer)
  {
    hide Inv, Next, Enabled, Progressed;
    RunStep(calls, init, states, acts, k);
    TokensConserved(calls, init, states, acts, k);
    hide IsRun;
    QuietStep(calls, states[k], acts[k], c);
  }

  lemma EnteredProgress(call: Call, buffer: seq<Byte>)
    requires |buffer| == BUFFER_LEN
    ensures Progressed(call, Entered, buffer, buffer)
  {
  }

  lemma RunStep(calls: seq<Call>, init: seq<Byte>, states: seq<State>, acts: seq<Action>, k: nat)
    requires IsRun(calls, init, states, acts) && k < |acts|
    ensures Enabled(calls, states[k], acts[k]) && states[k + 1] == Next(calls, states[k], acts[k])
    ensures |states| == |acts| + 1 && acts[k].c < |calls| && |states[k + 1].pcs| == |calls|
  {
  }

  lemma QuietStep(calls: seq<Call>, s: State, a: Action, c: nat)
    requires Inv(calls, s) && Enabled(calls, s, a) && c < |calls| && calls[c].ReadCall?
    requires a.Copy? ==> calls[a.c].ReadCall?
    requires Progressed(calls[c], s.pcs[c], s.buffer, s.buffer)
    ensures |Next(calls, s, a).pcs| == |calls| && Next(calls, s, a).buffer == s.buffer
    ensures Progressed(calls[c], Next(calls, s, a).pcs[c], s.buffer, s.buffer)
  {
    hide Sum, PcAfter, BufferAfter;
    if a.Copy? {
      ReadKeepsBuffer(calls[a.c], s.buffer, s.pcs[a.c], a.step);
      if a.c == c {
        ProgressKept(calls[c], s.pcs[c], s.buffer, s.buffer, a.step);
      }
    }
  }

  // ----- When reads are whole -------------------------------------------------------------

  predicate InsideAt(s: State, c: nat) { c < |s.pcs| && Inside(s.pcs[c]) }

  /** The bytes are the front of the buffer as it was at some moment of the copy of call `c`, up to state `i`. */
  ghost predicate Seen(states: seq<State>, i: nat, c: nat, got: seq<Byte>) {
    exists j :: 0 <= j <= i && j < |states| && InsideAt(states[j], c) && got <= states[j].buffer
  }

  /** Call `c`, if it is a read and has returned at the end of the run, got such bytes. */
  ghost predicate Whole(calls: seq<Call>, states: seq<State>, acts: seq<Action>, c: nat) {
    |acts| < |states| && c < |calls| && calls[c].ReadCall?
    && c < |states[|acts|].pcs| && states[|acts|].pcs[c].Returned?
    ==> Seen(states, |acts|, c, states[|acts|].pcs[c].got)
  }

  ghost predicate ReadsAreWhole(calls: seq<Call>, init: seq<Byte>) {
    forall states, acts, c: nat :: IsRun(calls, init, states, acts) ==> Whole(calls, states, acts, c)
  }

  /** Two writes, one of them for more than one byte, and a read for more than one byte. */
  predicate Racing(calls: seq<Call>, v: nat, w: nat, r: nat) {
    && v < |calls| && w < |calls| && r < |calls| && v != w
    && calls[v].WriteCall? && calls[w].WriteCall? && calls[w].Window() >= 2
    && calls[r].ReadCall? && calls[r].Window() >= 2
  }

  ghost predicate SomeRace(calls: seq<Call>) { exists v, w, r :: Racing(calls, v, w, r) }

  /** Calls among which no read can be torn a byte at a time. */
  predicate ShortReads(calls: seq<Call>) {
    forall c :: 0 <= c < |calls| && calls[c].ReadCall? ==> calls[c].Window() <= 1
  }

  predicate ShortWrites(calls: seq<Call>) {
    forall c :: 0 <= c < |calls| && calls[c].WriteCall? ==> calls[c].Window() <= 1
  }

  ghost predicate Calm(calls: seq<Call>) {
    ShortReads(calls) || ShortWrites(calls) || exists w: nat :: OnlyWriter(calls, w)
  }

  /** Writes of at most one byte never touch the rest of the buffer. */
  lemma {:induction false} TailKept(calls: seq<Call>, init: seq<Byte>, states: seq<State>, acts: seq<Action>, i: nat)
    requires IsRun(calls, init, states, acts) && i < |states| && ShortWrites(calls)
    ensures WellFormed(calls, states[i]) && |states[i].buffer| == BUFFER_LEN && states[i].buffer[1..] == init[1..]
  {
    if i > 0 {
      TailKept(calls, init, states, acts, i - 1);
      var s, a := states[i - 1], acts[i - 1];
      assert states[i - 1 + 1] == Next(calls, s, a);
      if a.Copy? && a.step.CopyByte? && calls[a.c].WriteCall? {
        assert s.pcs[a.c].done == 0;
      }
    }
  }

  /** What a call has got so far. */
  function BytesOf(pc: Pc): seq<Byte> {
    match pc
    case Copying(_, _, got) => got
    case Copied(_, got) => got
    case Released(_, got) => got
    case Signalled(_, got) => got
    case Returned(_, got) => got
    case _ => []
  }

  /** Every step but an admission and the copying of a byte leaves what a read has got alone. */
  lemma BytesStay(calls: seq<Call>, s: State, a: Action, c: nat)
    requires Enabled(calls, s, a) && c < |calls| && calls[c].ReadCall?
    requires a != Admit(c) && a != Copy(c, CopyByte)
    ensures Begun(Next(calls, s, a).pcs[c]) ==> Begun(s.pcs[c])
    ensures BytesOf(Next(calls, s, a).pcs[c]) == BytesOf(s.pcs[c])
  {
  }

  lemma {:induction false} CalmReadsAreWhole(calls: seq<Call>, init: seq<Byte>, states: seq<State>,
                                             acts: seq<Action>, i: nat, c: nat)
    requires IsRun(calls, init, states, acts) && i < |states| && c < |calls| && calls[c].ReadCall? && Calm(calls)
    ensures WellFormed(calls, states[i])
    ensures Begun(states[i].pcs[c]) ==> Seen(states, i, c, BytesOf(states[i].pcs[c]))
  {
    TokensConserved(calls, init, states, acts, i);
    if i > 0 {
      RunStep(calls, init, states, acts, i - 1);
      hide IsRun, WellFormed, Inv, Next, Calm, Enabled, Begun, BytesOf, InsideAt;
      CalmReadsAreWhole(calls, init, states, acts, i - 1, c);
      var s, a := states[i - 1], acts[i - 1];
      if a == Admit(c) {
        Admitted(calls, s, c);
        assert [] <= states[i].buffer;
      } else if a == Copy(c, CopyByte) {
        OneMoreByte(calls, init, states, acts, i - 1, c);
      } else {
        BytesStay(calls, s, a, c);
      }
    }
  }

  lemma Admitted(calls: seq<Call>, s: State, c: nat)
    requires Enabled(calls, s, Admit(c))
    ensures var r := Next(calls, s, Admit(c));
            InsideAt(r, c) && BytesOf(r.pcs[c]) == []
  {
  }

  lemma TailsAgree(b: seq<Byte>, b': seq<Byte>, got: seq<Byte>)
    requires |b| == |b'| > |got| > 0 && b[1..] == b'[1..] && got <= b
    ensures got + [b'[|got|]] <= b
  {
    assert b[|got|] == b[1..][|got| - 1] == b'[1..][|got| - 1] == b'[|got|];
  }

  lemma ByteRead(calls: seq<Call>, s: State, c: nat)
    requires Enabled(calls, s, Copy(c, CopyByte)) && calls[c].ReadCall?
    ensures |s.buffer| == BUFFER_LEN && InsideAt(s, c) && Begun(s.pcs[c]) && |BytesOf(s.pcs[c])| < calls[c].Window()
    ensures BytesOf(Next(calls, s, Copy(c, CopyByte)).pcs[c]) == BytesOf(s.pcs[c]) + [s.buffer[|BytesOf(s.pcs[c])|]]
  {
    assert PcOk(calls[c], s.pcs[c]);
  }

  lemma OneByteLonger(got: seq<Byte>, buffer: seq<Byte>)
    requires got <= buffer && |got| < |buffer|
    ensures got + [buffer[|got|]] <= buffer
  {
  }

  /** The moment that shows what a calm read has got shows one byte more, or the present moment does. */
  lemma LongerIsSeen(calls: seq<Call>, init: seq<Byte>, states: seq<State>, acts: seq<Action>,
                     i: nat, c: nat, got: seq<Byte>)
    requires IsRun(calls, init, states, acts) && i < |states| && c < |calls| && calls[c].ReadCall? && Calm(calls)
    requires Inv(calls, states[i]) && InsideAt(states[i], c) && got == BytesOf(states[i].pcs[c])
    requires |got| < calls[c].Window() && Begun(states[i].pcs[c]) && Seen(states, i, c, got)
    ensures Seen(states, i, c, got + [states[i].buffer[|got|]])
  {
    var now := states[i].buffer;
    assert |now| == BUFFER_LEN;
    hide IsRun, Inv, WellFormed, InsideAt, BytesOf, Begun;
    if got == [] {
      OneByteLonger([], now);
    } else if exists w: nat :: OnlyWriter(calls, w) {
      var w: nat :| OnlyWriter(calls, w);
      PublishedAlways(calls, init, states, acts, i, w);
      PublishedBytes(calls, init, states[i], w, c);
      OneByteLonger(got, now);
    } else {
      var j :| 0 <= j <= i && j < |states| && InsideAt(states[j], c) && got <= states[j].buffer;
      TailKept(calls, init, states, acts, i);
      TailKept(calls, init, states, acts, j);
      TailsAgree(states[j].buffer, now, got);
    }
  }

  lemma OneMoreByte(calls: seq<Call>, init: seq<Byte>, states: seq<State>, acts: seq<Action>, i: nat, c: nat)
    requires IsRun(calls, init, states, acts) && i < |acts| && c < |calls| && calls[c].ReadCall? && Calm(calls)
    requires acts[i] == Copy(c, CopyByte) && Enabled(calls, states[i], Copy(c, CopyByte))
    requires Begun(states[i].pcs[c]) ==> Seen(states, i, c, BytesOf(states[i].pcs[c]))
    ensures |states| == |acts| + 1 && |states[i + 1].pcs| == |calls|
    ensures Seen(states, i + 1, c, BytesOf(states[i + 1].pcs[c]))
  {
    RunStep(calls, init, states, acts, i);
    hide Next, Enabled, IsRun, Inv, Calm, InsideAt, BytesOf, Begun;
    TokensConserved(calls, init, states, acts, i);
    ByteRead(calls, states[i], c);
    LongerIsSeen(calls, init, states, acts, i, c, BytesOf(states[i].pcs[c]));
  }

  lemma PublishedBytes(calls: seq<Call>, init: seq<Byte>, s: State, w: nat, c: nat)
    requires Inv(calls, s) && OnlyWriter(calls, w) && Published(calls, init, s, w)
    requires c < |calls| && calls[c].ReadCall? && Begun(s.pcs[c])
    ensures |s.buffer| == BUFFER_LEN && BytesOf(s.pcs[c]) <= s.buffer
  {
    assert Progressed(calls[c], s.pcs[c], s.buffer, s.buffer);
  }

  predicate Faults(a: Action) { a.Copy? && a.step.CopyFault? }

  predicate StartsWith(buffer: seq<Byte>, bad: seq<Byte>) { bad <= buffer }

  /** A run, without faults if `clean`, whose buffer never starts with the bytes `bad`. */
  ghost predicate Avoids(calls: seq<Call>, init: seq<Byte>, states: seq<State>, acts: seq<Action>,
                         bad: seq<Byte>, clean: bool) {
    && IsRun(calls, init, states, acts)
    && (forall i :: 0 <= i < |states| ==> !StartsWith(states[i].buffer, bad))
    && (clean ==> forall i :: 0 <= i < |acts| ==> !Faults(acts[i]))
  }

  lemma StartAvoiding(calls: seq<Call>, init: seq<Byte>, bad: seq<Byte>, clean: bool)
      returns (states: seq<State>, acts: seq<Action>)
    requires |init| == BUFFER_LEN && !StartsWith(init, bad)
    ensures Avoids(calls, init, states, acts, bad, clean) && states == [Init(calls, init)] && acts == []
    ensures WellFormed(calls, states[0])
  {
    states, acts := [Init(calls, init)], [];
  }

  lemma RunOn(calls: seq<Call>, init: seq<Byte>, states: seq<State>, acts: seq<Action>,
              bad: seq<Byte>, clean: bool, a: Action)
      returns (states': seq<State>, acts': seq<Action>)
    requires Avoids(calls, init, states, acts, bad, clean) && |states| == |acts| + 1
    requires Enabled(calls, states[|acts|], a) && !StartsWith(Next(calls, states[|acts|], a).buffer, bad)
    requires clean ==> !Faults(a)
    ensures Avoids(calls, init, states', acts', bad, clean) && |states'| == |acts'| + 1
    ensures WellFormed(calls, states'[|acts'|])
    ensures states'[|acts'|] == Next(calls, states[|acts|], a)
  {
    hide Enabled, Next, WellFormed;
    states', acts' := states + [Next(calls, states[|acts|], a)], acts + [a];
  }

  /** A write is made and decides on its length. */
  lemma BeginWrite(calls: seq<Call>, init: seq<Byte>, states: seq<State>, acts: seq<Action>,
                   bad: seq<Byte>, clean: bool, c: nat)
      returns (states': seq<State>, acts': seq<Action>)
    requires Avoids(calls, init, states, acts, bad, clean) && |states| == |acts| + 1
    requires WellFormed(calls, states[|acts|]) && c < |calls| && calls[c].WriteCall? && states[|acts|].pcs[c].Idle?
    requires !StartsWith(states[|acts|].buffer, bad)
    ensures Avoids(calls, init, states', acts', bad, clean) && |states'| == |acts'| + 1
    ensures WellFormed(calls, states'[|acts'|])
    ensures var s := states[|acts|];
            states'[|acts'|] == s.(pcs := s.pcs[c := PcAt(calls[c], s.buffer, 0)])
  {
    var s := states[|acts|];
    hide Avoids;
    states', acts' := RunOn(calls, init, states, acts, bad, clean, Invoke(c));
    states', acts' := RunOn(calls, init, states', acts', bad, clean, Copy(c, ComputeLen));
    CopyStartsAt(calls[c], s.buffer);
  }

  /** A write that stands after `k` bytes, the other calls standing at `pcs`. */
  function WriteAt(calls: seq<Call>, done: int, pcs: seq<Pc>, c: nat, buffer: seq<Byte>, k: nat): State
    requires |pcs| == |calls| && c < |calls| && |buffer| == BUFFER_LEN && k <= calls[c].Window()
  {
    State(done, BufferAt(calls[c], buffer, k), pcs[c := PcAt(calls[c], buffer, k)])
  }

  lemma WriteByteTaken(calls: seq<Call>, done: int, pcs: seq<Pc>, c: nat, buffer: seq<Byte>, k: nat)
    requires |pcs| == |calls| && c < |calls| && |buffer| == BUFFER_LEN && k < calls[c].Window()
    requires WellFormed(calls, WriteAt(calls, done, pcs, c, buffer, k))
    ensures var t := WriteAt(calls, done, pcs, c, buffer, k);
            && Enabled(calls, t, Copy(c, CopyByte))
            && Next(calls, t, Copy(c, CopyByte)) == WriteAt(calls, done, pcs, c, buffer, k + 1)
  {
    hide PcAfter, BufferAfter, PcAt, BufferAt;
    CopyByteAt(calls[c], buffer, k);
  }

  /** A write copies `k` bytes. */
  lemma FirstBytes(calls: seq<Call>, init: seq<Byte>, states: seq<State>, acts: seq<Action>,
                   bad: seq<Byte>, clean: bool, c: nat, k: nat)
      returns (states': seq<State>, acts': seq<Action>)
    requires Avoids(calls, init, states, acts, bad, clean) && |states| == |acts| + 1
    requires WellFormed(calls, states[|acts|]) && c < |calls| && calls[c].WriteCall? && states[|acts|].pcs[c].Idle?
    requires k <= calls[c].Window()
    requires forall i :: 0 <= i <= k ==> !StartsWith(BufferAt(calls[c], states[|acts|].buffer, i), bad)
    ensures Avoids(calls, init, states', acts', bad, clean) && |states'| == |acts'| + 1
    ensures WellFormed(calls, states'[|acts'|])
    ensures var s := states[|acts|];
            states'[|acts'|] == State(s.done, BufferAt(calls[c], s.buffer, k), s.pcs[c := PcAt(calls[c], s.buffer, k)])
  {
    var s := states[|acts|];
    CopyStartsAt(calls[c], s.buffer);
    assert |s.buffer| == BUFFER_LEN && |s.pcs| == |calls|;
    states', acts' := BeginWrite(calls, init, states, acts, bad, clean, c);
    assert states'[|acts'|] == WriteAt(calls, s.done, s.pcs, c, s.buffer, 0);
    assert forall i :: 0 <= i <= k ==>
      WriteAt(calls, s.done, s.pcs, c, s.buffer, i).buffer == BufferAt(calls[c], s.buffer, i);
    hide Avoids, PcAt, BufferAt, Next, Enabled, WellFormed, StartsWith;
    states', acts' := ByteLoop(calls, init, states', acts', bad, clean, c, s, k);
  }

  lemma ByteLoop(calls: seq<Call>, init: seq<Byte>, states: seq<State>, acts: seq<Action>,
                 bad: seq<Byte>, clean: bool, c: nat, s: State, k: nat)
      returns (states': seq<State>, acts': seq<Action>)
    requires |s.buffer| == BUFFER_LEN && |s.pcs| == |calls| && c < |calls| && k <= calls[c].Window()
    requires Avoids(calls, init, states, acts, bad, clean) && |states| == |acts| + 1
    requires WellFormed(calls, states[|acts|]) && states[|acts|] == WriteAt(calls, s.done, s.pcs, c, s.buffer, 0)
    requires forall i :: 0 <= i <= k ==> !StartsWith(WriteAt(calls, s.done, s.pcs, c, s.buffer, i).buffer, bad)
    ensures Avoids(calls, init, states', acts', bad, clean) && |states'| == |acts'| + 1
    ensures WellFormed(calls, states'[|acts'|]) && states'[|acts'|] == WriteAt(calls, s.done, s.pcs, c, s.buffer, k)
  {
    hide Avoids, WriteAt, Next, Enabled, WellFormed, StartsWith;
    states', acts' := states, acts;
    for i := 0 to k
      invariant Avoids(calls, init, states', acts', bad, clean) && |states'| == |acts'| + 1
      invariant WellFormed(calls, states'[|acts'|])
      invariant states'[|acts'|] == WriteAt(calls, s.done, s.pcs, c, s.buffer, i)
    {
      WriteByteTaken(calls, s.done, s.pcs, c, s.buffer, i);
      states', acts' := RunOn(calls, init, states', acts', bad, clean, Copy(c, CopyByte));
    }
  }

  /** An admitted read copies its first byte. */
  lemma FirstByte(calls: seq<Call>, init: seq<Byte>, states: seq<State>, acts: seq<Action>,
                  bad: seq<Byte>, clean: bool, r: nat)
      returns (states': seq<State>, acts': seq<Action>)
    requires Avoids(calls, init, states, acts, bad, clean) && |states| == |acts| + 1
    requires WellFormed(calls, states[|acts|]) && states[|acts|].done > 0 && !StartsWith(states[|acts|].buffer, bad)
    requires r < |calls| && calls[r].ReadCall? && calls[r].Window() >= 2 && states[|acts|].pcs[r].Idle?
    ensures Avoids(calls, init, states', acts', bad, clean) && |states'| == |acts'| + 1
    ensures WellFormed(calls, states'[|acts'|])
    ensures var s := states[|acts|];
            states'[|acts'|] == State(s.done - 1, s.buffer, s.pcs[r := Copying(calls[r].Window(), 1, [s.buffer[0]])])
  {
    var s := states[|acts|];
    assert [] + [s.buffer[0]] == [s.buffer[0]];
    hide Avoids;
    states', acts' := RunOn(calls, init, states, acts, bad, clean, Invoke(r));
    states', acts' := RunOn(calls, init, states', acts', bad, clean, Admit(r));
    states', acts' := RunOn(calls, init, states', acts', bad, clean, Copy(r, ComputeLen));
    states', acts' := RunOn(calls, init, states', acts', bad, clean, Copy(r, CopyByte));
  }

  /** It copies the rest from the buffer as it is now and returns. */
  lemma OtherBytes(calls: seq<Call>, init: seq<Byte>, states: seq<State>, acts: seq<Action>,
                   bad: seq<Byte>, clean: bool,
                   r: nat, b: Byte) returns (states': seq<State>, acts': seq<Action>)
    requires Avoids(calls, init, states, acts, bad, clean) && |states| == |acts| + 1
    requires WellFormed(calls, states[|acts|]) && !StartsWith(states[|acts|].buffer, bad)
    requires r < |calls| && calls[r].ReadCall? && calls[r].Window() >= 2
    requires states[|acts|].pcs[r] == Copying(calls[r].Window(), 1, [b])
    ensures Avoids(calls, init, states', acts', bad, clean) && |states'| == |acts'| + 1
    ensures WellFormed(calls, states'[|acts'|])
    ensures |states'[|acts'|].pcs| == |calls| && states'[|acts'|].pcs[r].Returned?
    ensures [b, states[|acts|].buffer[1]] <= states'[|acts'|].pcs[r].got
  {
    var s := states[|acts|];
    states', acts' := CopyRest(calls, init, states, acts, bad, clean, r, b);
    hide Avoids;
    states', acts' := RunOn(calls, init, states', acts', bad, clean, Copy(r, CopyDone));
    states', acts' := RunOn(calls, init, states', acts', bad, clean, Return(r));
  }

  /** A read that stands after `i` bytes, the first of which was `b`, in a state otherwise like `s`. */
  function ReadAt(calls: seq<Call>, s: State, r: nat, b: Byte, i: nat): State
    requires r < |s.pcs| == |calls| && |s.buffer| == BUFFER_LEN && 1 <= i <= BUFFER_LEN
  {
    s.(pcs := s.pcs[r := Copying(calls[r].Window(), i, [b] + s.buffer[1..i])])
  }

  lemma ReadByteTaken(calls: seq<Call>, s: State, r: nat, b: Byte, i: nat)
    requires r < |s.pcs| == |calls| && |s.buffer| == BUFFER_LEN && calls[r].ReadCall? && 1 <= i < calls[r].Window()
    requires WellFormed(calls, ReadAt(calls, s, r, b, i))
    ensures var t := ReadAt(calls, s, r, b, i);
            && Enabled(calls, t, Copy(r, CopyByte))
            && Next(calls, t, Copy(r, CopyByte)) == ReadAt(calls, s, r, b, i + 1)
            && t.buffer == s.buffer
  {
    assert [b] + s.buffer[1..i] + [s.buffer[i]] == [b] + s.buffer[1..i + 1];
  }

  lemma CopyRest(calls: seq<Call>, init: seq<Byte>, states: seq<State>, acts: seq<Action>,
                 bad: seq<Byte>, clean: bool, r: nat, b: Byte)
      returns (states': seq<State>, acts': seq<Action>)
    requires Avoids(calls, init, states, acts, bad, clean) && |states| == |acts| + 1
    requires WellFormed(calls, states[|acts|]) && !StartsWith(states[|acts|].buffer, bad)
    requires r < |calls| && calls[r].ReadCall? && calls[r].Window() >= 2
    requires states[|acts|].pcs[r] == Copying(calls[r].Window(), 1, [b])
    ensures Avoids(calls, init, states', acts', bad, clean) && |states'| == |acts'| + 1
    ensures WellFormed(calls, states'[|acts'|]) && |states[|acts|].buffer| == BUFFER_LEN
    ensures states'[|acts'|] == ReadAt(calls, states[|acts|], r, b, calls[r].Window())
  {
    var s, n := states[|acts|], calls[r].Window();
    states', acts' := states, acts;
    hide Avoids, ReadAt, Next, Enabled, WellFormed, StartsWith;
    OneByteRead(calls, s, r, b);
    for i := 1 to n
      invariant Avoids(calls, init, states', acts', bad, clean) && |states'| == |acts'| + 1
      invariant WellFormed(calls, states'[|acts'|])
      invariant states'[|acts'|] == ReadAt(calls, s, r, b, i) && states'[|acts'|].buffer == s.buffer
    {
      ReadByteTaken(calls, s, r, b, i);
      SameBuffer(calls, s, r, b, i + 1);
      states', acts' := RunOn(calls, init, states', acts', bad, clean, Copy(r, CopyByte));
    }
  }

  lemma OneByteRead(calls: seq<Call>, s: State, r: nat, b: Byte)
    requires WellFormed(calls, s) && r < |calls| && s.pcs[r] == Copying(calls[r].Window(), 1, [b])
    ensures |s.buffer| == BUFFER_LEN && |s.pcs| == |calls| && s == ReadAt(calls, s, r, b, 1)
  {
    assert [b] + s.buffer[1..1] == [b];
  }

  lemma SameBuffer(calls: seq<Call>, s: State, r: nat, b: Byte, i: nat)
    requires r < |s.pcs| == |calls| && |s.buffer| == BUFFER_LEN && 1 <= i <= BUFFER_LEN
    ensures ReadAt(calls, s, r, b, i).buffer == s.buffer
  {
  }

  /** A returned read whose bytes are the front of the buffer at no moment of the run at all. */
  ghost predicate Torn(calls: seq<Call>, init: seq<Byte>, states: seq<State>, acts: seq<Action>, r: nat) {
    && IsRun(calls, init, states, acts) && r < |calls| == |states[|acts|].pcs| && states[|acts|].pcs[r].Returned?
    && forall j :: 0 <= j < |states| ==> !(states[|acts|].pcs[r].got <= states[j].buffer)
  }

  lemma PrefixOfPrefix(a: seq<Byte>, b: seq<Byte>, c: seq<Byte>)
    ensures a <= b && b <= c ==> a <= c
  {
  }

  lemma AvoidingIsTorn(calls: seq<Call>, init: seq<Byte>, states: seq<State>, acts: seq<Action>,
                       bad: seq<Byte>, clean: bool, r: nat)
    requires Avoids(calls, init, states, acts, bad, clean) && |states| == |acts| + 1
    requires r < |calls| == |states[|acts|].pcs| && states[|acts|].pcs[r].Returned? && bad <= states[|acts|].pcs[r].got
    ensures Torn(calls, init, states, acts, r)
    ensures clean ==> forall i :: 0 <= i < |acts| ==> !Faults(acts[i])
  {
    forall j | 0 <= j < |states| ensures !(states[|acts|].pcs[r].got <= states[j].buffer) {
      PrefixOfPrefix(bad, states[|acts|].pcs[r].got, states[j].buffer);
    }
  }

  /** A write that faults at once, leaving `junk` in its window. */
  lemma FaultingWrite(calls: seq<Call>, init: seq<Byte>, states: seq<State>, acts: seq<Action>, bad: seq<Byte>,
                      c: nat, junk: seq<Byte>) returns (states': seq<State>, acts': seq<Action>)
    requires Avoids(calls, init, states, acts, bad, false) && |states| == |acts| + 1
    requires WellFormed(calls, states[|acts|]) && !StartsWith(states[|acts|].buffer, bad)
    requires c < |calls| && calls[c].WriteCall? && states[|acts|].pcs[c].Idle? && |junk| == calls[c].Window()
    requires !StartsWith(Splice(states[|acts|].buffer, 0, junk), bad)
    ensures Avoids(calls, init, states', acts', bad, false) && |states'| == |acts'| + 1
    ensures WellFormed(calls, states'[|acts'|])
    ensures var s := states[|acts|];
            states'[|acts'|] == State(s.done, Splice(s.buffer, 0, junk), s.pcs[c := Copied(0, [])])
  {
    var call, s := calls[c], states[|acts|];
    assert call.payload[..0] + junk == junk;
    CopyStartsAt(call, s.buffer);
    hide Avoids, PcAfter, BufferAfter, Splice;
    states', acts' := FirstBytes(calls, init, states, acts, bad, false, c, 0);
    CopyStopsAt(call, s.buffer, 0, junk);
    states', acts' := RunOn(calls, init, states', acts', bad, false, Copy(c, StopStep(call, 0, junk)));
  }

  /** Racing calls, among any other calls and from any buffer, have a run in which the read is torn: the
      writes are cut short by faults, one leaving the buffer as it is, one changing every byte. */
  lemma RacingWritesTearARead(calls: seq<Call>, init: seq<Byte>, v: nat, w: nat, r: nat)
      returns (states: seq<State>, acts: seq<Action>)
    requires |init| == BUFFER_LEN && Racing(calls, v, w, r)
    ensures Torn(calls, init, states, acts, r)
  {
    var quiet := init[..calls[v].Window()];
    var junk := seq(calls[w].Window(), i requires 0 <= i < calls[w].Window() => if init[i] == 0 then 1 else 0);
    var other := Splice(init, 0, junk);
    var bad := [init[0], other[1]];
    assert other[0] == junk[0] != init[0] && other[1] == junk[1] != init[1];
    assert bad[0] == init[0] && bad[1] == other[1];
    assert !StartsWith(init, bad) && !StartsWith(other, bad) && Splice(init, 0, quiet) == init;
    hide Avoids, Splice, WellFormed;
    states, acts := StartAvoiding(calls, init, bad, false);
    states, acts := FaultingWrite(calls, init, states, acts, bad, v, quiet);
    states, acts := RunOn(calls, init, states, acts, bad, false, Complete(v));
    states, acts := FirstByte(calls, init, states, acts, bad, false, r);
    states, acts := FaultingWrite(calls, init, states, acts, bad, w, junk);
    states, acts := OtherBytes(calls, init, states, acts, bad, false, r, init[0]);
    AvoidingIsTorn(calls, init, states, acts, bad, false, r);
  }

  /** A write that copies its window and signals. */
  lemma WholeWrite(calls: seq<Call>, init: seq<Byte>, states: seq<State>, acts: seq<Action>,
                   bad: seq<Byte>, clean: bool,
                   c: nat) returns (states': seq<State>, acts': seq<Action>)
    requires Avoids(calls, init, states, acts, bad, clean) && |states| == |acts| + 1
    requires WellFormed(calls, states[|acts|]) && c < |calls| && calls[c].WriteCall? && states[|acts|].pcs[c].Idle?
    requires forall i :: 0 <= i <= calls[c].Window() ==> !StartsWith(BufferAt(calls[c], states[|acts|].buffer, i), bad)
    ensures Avoids(calls, init, states', acts', bad, clean) && |states'| == |acts'| + 1
    ensures WellFormed(calls, states'[|acts'|])
    ensures var s := states[|acts|];
            states'[|acts'|] == State(s.done + 1, BufferAt(calls[c], s.buffer, calls[c].Window()),
                                      s.pcs[c := Released(calls[c].Window(), [])])
  {
    hide Avoids, BufferAt;
    states', acts' := FirstBytes(calls, init, states, acts, bad, clean, c, calls[c].Window());
    states', acts' := RunOn(calls, init, states', acts', bad, clean, Copy(c, CopyDone));
    states', acts' := RunOn(calls, init, states', acts', bad, clean, Complete(c));
  }

  /** The two bytes are the front of the buffer at no moment of the two writes. */
  lemma CleanFronts(v: Call, w: Call, init: seq<Byte>, bad: seq<Byte>)
    requires |init| == BUFFER_LEN && v.WriteCall? && w.WriteCall? && w.Window() >= 2
    requires var b, q := BufferAt(v, init, v.Window()), w.payload;
             q[0] != b[0] && q[1] != b[1] && q[1] != init[1] && bad == [b[0], q[1]]
    ensures var b := BufferAt(v, init, v.Window());
            && (forall i :: 0 <= i <= v.Window() ==> !StartsWith(BufferAt(v, init, i), bad))
            && (forall i :: 0 <= i <= 2 ==> !StartsWith(BufferAt(w, b, i), bad))
            && BufferAt(v, init, 0) == init && BufferAt(w, b, 2)[1] == w.payload[1]
  {
    var b := BufferAt(v, init, v.Window());
    var q := w.payload[1];
    forall i | 0 <= i <= v.Window() ensures !StartsWith(BufferAt(v, init, i), bad) {
      FrontByte(v, init, i, 1);
      FrontByte(v, init, v.Window(), 1);
      assert BufferAt(v, init, i)[1] != bad[1];
    }
    forall i | 0 <= i <= 2 ensures !StartsWith(BufferAt(w, b, i), bad) {
      FrontByte(w, b, i, 0);
      FrontByte(w, b, i, 1);
      assert BufferAt(w, b, i)[0] != bad[0] || BufferAt(w, b, i)[1] != bad[1];
    }
    FrontByte(w, b, 2, 1);
  }

  lemma FrontByte(call: Call, buffer: seq<Byte>, k: nat, i: nat)
    requires |buffer| == BUFFER_LEN && k <= call.Window() && i < BUFFER_LEN && call.WriteCall?
    ensures BufferAt(call, buffer, k)[i] == if i < k then call.payload[i] else buffer[i]
    ensures BufferAt(call, buffer, 0) == buffer
  {
  }

  /** Without any fault racing calls still have such a run if the bytes written differ enough: the
      second byte of the later write from both second bytes before it, and its first byte too. */
  lemma TornWithoutFaults(calls: seq<Call>, init: seq<Byte>, v: nat, w: nat, r: nat)
      returns (states: seq<State>, acts: seq<Action>)
    requires |init| == BUFFER_LEN && Racing(calls, v, w, r)
    requires var b, q := BufferAt(calls[v], init, calls[v].Window()), calls[w].payload;
             q[0] != b[0] && q[1] != b[1] && q[1] != init[1]
    ensures Torn(calls, init, states, acts, r)
    ensures forall i :: 0 <= i < |acts| ==> !Faults(acts[i])
  {
    hide Avoids, BufferAt, BufferAfter, WellFormed;
    var b := BufferAt(calls[v], init, calls[v].Window());
    var bad := [b[0], calls[w].payload[1]];
    CleanFronts(calls[v], calls[w], init, bad);
    states, acts := StartAvoiding(calls, init, bad, true);
    states, acts := WholeWrite(calls, init, states, acts, bad, true, v);
    states, acts := FirstByte(calls, init, states, acts, bad, true, r);
    states, acts := FirstBytes(calls, init, states, acts, bad, true, w, 2);
    states, acts := OtherBytes(calls, init, states, acts, bad, true, r, b[0]);
    AvoidingIsTorn(calls, init, states, acts, bad, true, r);
  }

  /** Exactly when reads are whole: in every run every returned read got the front of the buffer as it
      was at some moment of its copy, if and only if there are no two writes, one of them for more
      than one byte, together with a read for more than one byte. */
  lemma ReadsAreWholeIff(calls: seq<Call>, init: seq<Byte>)
    requires |init| == BUFFER_LEN
    ensures ReadsAreWhole(calls, init) <==> !SomeRace(calls)
  {
    if SomeRace(calls) {
      var v, w, r :| Racing(calls, v, w, r);
      var states, acts := RacingWritesTearARead(calls, init, v, w, r);
      assert !Whole(calls, states, acts, r);
    } else {
      hide IsRun, SomeRace, Whole;
      forall states, acts, c: nat | IsRun(calls, init, states, acts) ensures Whole(calls, states, acts, c) {
        WholeWithoutRace(calls, init, states, acts, c);
      }
    }
  }

  /** Calls of the same kinds and lengths. */
  predicate SameShape(calls: seq<Call>, calls': seq<Call>) {
    && |calls| == |calls'|
    && forall c :: 0 <= c < |calls| ==>
         calls[c].ReadCall? == calls'[c].ReadCall? && calls[c].Count() == calls'[c].Count()
  }

  /** Runs without any fault, whatever bytes the writes bring and the buffer starts with. */
  ghost predicate FaultFreeReadsAreWhole(calls: seq<Call>) {
    forall calls', init, states, acts, c: nat ::
      SameShape(calls, calls') && FaultFreeRun(calls', init, states, acts) ==> Whole(calls', states, acts, c)
  }

  ghost predicate FaultFreeRun(calls: seq<Call>, init: seq<Byte>, states: seq<State>, acts: seq<Action>) {
    IsRun(calls, init, states, acts) && forall i :: 0 <= i < |acts| ==> !Faults(acts[i])
  }

  /** The same condition is exact for runs without faults, if nothing is known of the bytes written: so it
      does not rest on what a fault leaves behind. */
  lemma FaultFreeReadsAreWholeIff(calls: seq<Call>)
    ensures FaultFreeReadsAreWhole(calls) <==> !SomeRace(calls)
  {
    if SomeRace(calls) {
      var v, w, r :| Racing(calls, v, w, r);
      var calls', init := Marked(calls, w), seq(BUFFER_LEN, _ => 0);
      MarkedBytes(calls, v, w, r, init);
      var states, acts := TornWithoutFaults(calls', init, v, w, r);
      assert FaultFreeRun(calls', init, states, acts) && !Whole(calls', states, acts, r);
    } else {
      hide IsRun, Calm, SomeRace, Whole;
      forall calls', init, states, acts, c: nat | SameShape(calls, calls') && FaultFreeRun(calls', init, states, acts)
        ensures Whole(calls', states, acts, c) {
        SameRaces(calls, calls');
        WholeWithoutRace(calls', init, states, acts, c);
      }
    }
  }

  /** Writes of that shape: ones for call `w`, zeros for the others. */
  function Marked(calls: seq<Call>, w: nat): (r: seq<Call>)
    ensures |r| == |calls|
  {
    seq(|calls|, c requires 0 <= c < |calls| =>
      match calls[c]
      case ReadCall(n) => ReadCall(n)
      case WriteCall(p) => WriteCall(seq(|p|, _ => if c == w then 1 else 0)))
  }

  lemma MarkedBytes(calls: seq<Call>, v: nat, w: nat, r: nat, init: seq<Byte>)
    requires Racing(calls, v, w, r) && |init| == BUFFER_LEN && forall i :: 0 <= i < BUFFER_LEN ==> init[i] == 0
    ensures SameShape(calls, Marked(calls, w)) && Racing(Marked(calls, w), v, w, r)
    ensures var calls' := Marked(calls, w);
            var b, q := BufferAt(calls'[v], init, calls'[v].Window()), calls'[w].payload;
            q[0] != b[0] && q[1] != b[1] && q[1] != init[1]
  {
    var calls' := Marked(calls, w);
    FrontByte(calls'[v], init, calls'[v].Window(), 0);
    FrontByte(calls'[v], init, calls'[v].Window(), 1);
  }

  lemma SameRaces(calls: seq<Call>, calls': seq<Call>)
    requires SameShape(calls, calls')
    ensures SomeRace(calls) <==> SomeRace(calls')
  {
    assert forall v, w, r :: Racing(calls, v, w, r) <==> Racing(calls', v, w, r);
  }

  lemma WholeWithoutRace(calls: seq<Call>, init: seq<Byte>, states: seq<State>, acts: seq<Action>, c: nat)
    requires IsRun(calls, init, states, acts) && !SomeRace(calls)
    ensures Whole(calls, states, acts, c)
  {
    NoRaceIsCalm(calls);
    hide IsRun, Calm, SomeRace;
    if |acts| < |states| && c < |calls| && calls[c].ReadCall? {
      CalmReadsAreWhole(calls, init, states, acts, |acts|, c);
    }
  }

  lemma NoRaceIsCalm(calls: seq<Call>)
    requires !SomeRace(calls)
    ensures Calm(calls)
  {
    if !ShortReads(calls) && !ShortWrites(calls) {
      var w :| 0 <= w < |calls| && calls[w].WriteCall? && calls[w].Window() > 1;
      var r :| 0 <= r < |calls| && calls[r].ReadCall? && calls[r].Window() > 1;
      forall v | 0 <= v < |calls| ensures calls[v].WriteCall? <==> v == w {
        assert !Racing(calls, v, w, r);
      }
      assert OnlyWriter(calls, w);
    }
  }
}
