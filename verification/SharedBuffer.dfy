/** The semaphore-guarded shared buffer: any number of concurrent calls, copied byte by byte. */
module SharedBuffer {
  import opened Bytes
  import opened UserCopy

  // ----- States and steps -----------------------------------------------------------------

  /** `order` lists the calls in the order they got the semaphore, `snaps` the buffer each found. */
  datatype State = State(sem: int, buffer: seq<Byte>, pcs: seq<Pc>, order: seq<nat>, snaps: seq<seq<Byte>>)

  datatype Action = Invoke(c: nat) | Down(c: nat) | Copy(c: nat, step: CopyStep) | Up(c: nat) | Return(c: nat)

  predicate WellFormed(calls: seq<Call>, s: State) {
    && |s.pcs| == |calls| && |s.buffer| == BUFFER_LEN
    && forall c :: 0 <= c < |calls| ==> PcOk(calls[c], s.pcs[c])
  }

  function Init(calls: seq<Call>, init: seq<Byte>): State {
    State(1, init, seq(|calls|, _ => Idle), [], [])
  }

  predicate Enabled(calls: seq<Call>, s: State, a: Action) {
    && WellFormed(calls, s) && a.c < |calls|
    && match a
       case Invoke(c) => s.pcs[c].Idle?
       case Down(c) => s.pcs[c].Waiting? && s.sem > 0
       case Copy(c, step) => CopyEnabled(calls[c], s.pcs[c], step)
       case Up(c) => s.pcs[c].Copied?
       case Return(c) => s.pcs[c].Released?
  }

  function Next(calls: seq<Call>, s: State, a: Action): (r: State)
    requires Enabled(calls, s, a)
    ensures WellFormed(calls, r)
  {
    match a
    case Invoke(c) => s.(pcs := s.pcs[c := Waiting])
    case Down(c) => s.(sem := s.sem - 1, pcs := s.pcs[c := Entered],
                       order := s.order + [c], snaps := s.snaps + [s.buffer])
    case Copy(c, step) => s.(buffer := BufferAfter(calls[c], s.buffer, s.pcs[c], step),
                             pcs := s.pcs[c := PcAfter(calls[c], s.buffer, s.pcs[c], step)])
    case Up(c) => s.(sem := s.sem + 1, pcs := s.pcs[c := Released(s.pcs[c].n, s.pcs[c].got)])
    case Return(c) => s.(pcs := s.pcs[c := Returned(s.pcs[c].n, s.pcs[c].got)])
  }

  /** Every state follows from the one before by one enabled step of some call. */
  ghost predicate Path(calls: seq<Call>, states: seq<State>, acts: seq<Action>) {
    && |states| == |acts| + 1
    && forall i :: 0 <= i < |acts| ==>
         Enabled(calls, states[i], acts[i]) && states[i + 1] == Next(calls, states[i], acts[i])
  }

  ghost predicate IsRun(calls: seq<Call>, init: seq<Byte>, states: seq<State>, acts: seq<Action>) {
    |init| == BUFFER_LEN && Path(calls, states, acts) && states[0] == Init(calls, init)
  }

  // ----- One call on its own --------------------------------------------------------------

  /** `states` leads on from `s` by steps of call `c` only. */
  ghost predicate Solo(calls: seq<Call>, s: State, c: nat, states: seq<State>, acts: seq<Action>) {
    Path(calls, states, acts) && states[0] == s && forall i :: 0 <= i < |acts| ==> acts[i].c == c
  }

  lemma Further(calls: seq<Call>, s: State, states: seq<State>, acts: seq<Action>, a: Action)
      returns (states': seq<State>, acts': seq<Action>)
    requires Solo(calls, s, a.c, states, acts) && |states| == |acts| + 1 && Enabled(calls, states[|acts|], a)
    ensures Solo(calls, s, a.c, states', acts') && |states'| == |acts'| + 1
    ensures states'[|acts'|] == Next(calls, states[|acts|], a)
  {
    hide Enabled, Next, WellFormed;
    states', acts' := states + [Next(calls, states[|acts|], a)], acts + [a];
  }

  /** The steps of a copy's bytes, taken in the driver. */
  lemma SoloBytes(calls: seq<Call>, s: State, states: seq<State>, acts: seq<Action>,
                  c: nat, copied: nat, junk: seq<Byte>)
      returns (states': seq<State>, acts': seq<Action>)
    requires Solo(calls, s, c, states, acts) && |states| == |acts| + 1 && WellFormed(calls, states[|acts|])
    requires c < |calls| && states[|acts|].pcs[c] == Copying(calls[c].Window(), 0, [])
    requires CanCopy(calls[c], copied, junk)
    ensures Solo(calls, s, c, states', acts') && |states'| == |acts'| + 1
    ensures var t := states[|acts|];
            states'[|acts'|] == t.(buffer := CopiedBuffer(calls[c], t.buffer, copied, junk),
                                   pcs := t.pcs[c := Copied(copied, CopiedBytes(calls[c], t.buffer, copied))])
  {
    hide Solo, PcAfter, BufferAfter, CopiedBytes, CopiedBuffer;
    var t := states[|acts|];
    var moments, steps := WholeTrace(calls[c], t.buffer, copied, junk);
    states', acts' := states, acts;
    for i := 0 to |steps|
      invariant Solo(calls, s, c, states', acts') && |states'| == |acts'| + 1
      invariant states'[|acts'|] == t.(buffer := moments[i].buffer, pcs := t.pcs[c := moments[i].pc])
    {
      assert TraceStep(calls[c], moments[i], steps[i], moments[i + 1]);
      states', acts' := Further(calls, s, states', acts', Copy(c, steps[i]));
    }
  }

  /** The same from entering, with the choice of the length. */
  lemma SoloCopy(calls: seq<Call>, s: State, states: seq<State>, acts: seq<Action>,
                 c: nat, copied: nat, junk: seq<Byte>)
      returns (states': seq<State>, acts': seq<Action>)
    requires Solo(calls, s, c, states, acts) && |states| == |acts| + 1 && WellFormed(calls, states[|acts|])
    requires c < |calls| && states[|acts|].pcs[c].Entered? && CanCopy(calls[c], copied, junk)
    ensures Solo(calls, s, c, states', acts') && |states'| == |acts'| + 1
    ensures var t := states[|acts|];
            states'[|acts'|] == t.(buffer := CopiedBuffer(calls[c], t.buffer, copied, junk),
                                   pcs := t.pcs[c := Copied(copied, CopiedBytes(calls[c], t.buffer, copied))])
  {
    hide Solo, CopiedBytes, CopiedBuffer;
    states', acts' := Further(calls, s, states, acts, Copy(c, ComputeLen));
    states', acts' := SoloBytes(calls, s, states', acts', c, copied, junk);
  }

  /** A call that has not been made, while the semaphore is free. */
  predicate Ready(calls: seq<Call>, s: State, c: nat) {
    WellFormed(calls, s) && c < |calls| && s.pcs[c].Idle? && s.sem > 0
  }

  /** A call running alone takes these steps and no others, and acts as one operation. */
  lemma SoloCall(calls: seq<Call>, s: State, c: nat, copied: nat, junk: seq<Byte>)
      returns (states: seq<State>, acts: seq<Action>)
    requires Ready(calls, s, c) && CanCopy(calls[c], copied, junk)
    ensures Solo(calls, s, c, states, acts) && |states| == |acts| + 1
    ensures states[|acts|] == s.(buffer := CopiedBuffer(calls[c], s.buffer, copied, junk),
                                 pcs := s.pcs[c := Returned(copied, CopiedBytes(calls[c], s.buffer, copied))],
                                 order := s.order + [c], snaps := s.snaps + [s.buffer])
  {
    states, acts := [s], [];
    assert Solo(calls, s, c, states, acts);
    hide Solo, CopiedBytes, CopiedBuffer;
    states, acts := Further(calls, s, states, acts, Invoke(c));
    states, acts := Further(calls, s, states, acts, Down(c));
    states, acts := SoloCopy(calls, s, states, acts, c, copied, junk);
    states, acts := Further(calls, s, states, acts, Up(c));
    states, acts := Further(calls, s, states, acts, Return(c));
  }

  // ----- The driver -----------------------------------------------------------------------

  /** A call of the step system, and a state in which it has not been made yet. */
  datatype Caller = Caller(calls: seq<Call>, start: State, c: nat)

  /** The driver's globals, and a trail of the steps the call being carried out has taken so far.
      A read or write is one call running alone, of which `copied` bytes get through. */
  class SampleCharDrv {
    const buffer: array<Byte>
    var sem: int
    ghost var caller: Caller
    ghost var states: seq<State>
    ghost var acts: seq<Action>

    constructor ()
      ensures fresh(buffer) && buffer.Length == BUFFER_LEN && sem == 1
    {
      buffer := new Byte[BUFFER_LEN];
      sem := 1;
    }

    ghost predicate Shown(s: State)
      reads this, buffer
    {
      s.sem == sem && s.buffer == buffer[..]
    }

    /** The trail is a path of steps of the caller alone, and has led it to `pc` and to these globals. */
    ghost predicate Trail(pc: Pc)
      reads this, buffer
    {
      && buffer.Length == BUFFER_LEN && caller.c < |caller.calls| == |caller.start.pcs|
      && Solo(caller.calls, caller.start, caller.c, states, acts) && |states| == |acts| + 1
      && WellFormed(caller.calls, states[|acts|]) && Shown(states[|acts|])
      && states[|acts|].pcs == caller.start.pcs[caller.c := pc]
    }

    lemma TrailLength(len: nat)
      requires Trail(Copying(len, 0, []))
      ensures len == caller.calls[caller.c].Window() <= BUFFER_LEN
    {
      assert PcOk(caller.calls[caller.c], states[|acts|].pcs[caller.c]);
    }

    ghost method Begin(who: Caller)
      requires Ready(who.calls, who.start, who.c) && buffer.Length == BUFFER_LEN && Shown(who.start)
      modifies this`caller, this`states, this`acts
      ensures caller == who && Trail(Waiting)
      ensures sem > 0
    {
      caller := who;
      states, acts := [who.start], [];
      states, acts := Further(who.calls, who.start, states, acts, Invoke(who.c));
    }

    method Down()
      requires Trail(Waiting) && sem > 0
      modifies this`sem, this`states, this`acts
      ensures Trail(Entered) && sem == old(sem) - 1
    {
      sem := sem - 1;
      states, acts := Further(caller.calls, caller.start, states, acts, Action.Down(caller.c));
    }

    method Up(ghost n: nat, ghost got: seq<Byte>)
      requires Trail(Copied(n, got))
      modifies this`sem, this`states, this`acts
      ensures Trail(Released(n, got)) && sem == old(sem) + 1
    {
      sem := sem + 1;
      states, acts := Further(caller.calls, caller.start, states, acts, Action.Up(caller.c));
    }

    /** The count asked for, but no more than the buffer holds. */
    method ChooseLength(count: nat) returns (len: nat)
      requires Trail(Entered) && caller.calls[caller.c].Count() == count
      modifies this`states, this`acts
      ensures Trail(Copying(len, 0, [])) && len == if count < 4000 then count else 4000
    {
      if count > BUFFER_LEN {
        len := BUFFER_LEN;
      } else {
        len := count;
      }
      states, acts := Further(caller.calls, caller.start, states, acts, Copy(caller.c, ComputeLen));
    }

    method CopyOut(len: nat, copied: nat) returns (left: nat, out: seq<Byte>)
      requires Trail(Copying(len, 0, [])) && caller.calls[caller.c].ReadCall? && copied <= len
      modifies this`states, this`acts
      ensures len <= buffer.Length
      ensures Trail(Copied(copied, out)) && left == len - copied && out == buffer[..copied]
    {
      TrailLength(len);
      left, out := CopyToUser(buffer, len, copied);
      states, acts := SoloBytes(caller.calls, caller.start, states, acts, caller.c, copied, []);
    }

    method CopyIn(data: seq<Byte>, len: nat, copied: nat, junk: seq<Byte>) returns (left: nat)
      requires Trail(Copying(len, 0, [])) && caller.calls[caller.c] == WriteCall(data)
      requires copied <= len && |junk| == len - copied
      modifies this`states, this`acts, buffer
      ensures len <= buffer.Length && len <= |data|
      ensures Trail(Copied(copied, [])) && left == len - copied
      ensures buffer[..] == Splice(old(buffer[..]), 0, data[..copied] + junk)
    {
      TrailLength(len);
      left := CopyFromUser(buffer, data, len, copied, junk);
      states, acts := SoloBytes(caller.calls, caller.start, states, acts, caller.c, copied, junk);
    }

    ghost method End(n: nat, got: seq<Byte>)
      requires Trail(Released(n, got))
      modifies this`states, this`acts
      ensures Trail(Returned(n, got))
    {
      states, acts := Further(caller.calls, caller.start, states, acts, Return(caller.c));
    }

    method SampleCharDrvRead(count: nat, copied: nat, ghost who: Caller) returns (ret: nat, out: seq<Byte>)
      requires Ready(who.calls, who.start, who.c) && buffer.Length == BUFFER_LEN && Shown(who.start)
      requires who.calls[who.c] == ReadCall(count) && copied <= if count < 4000 then count else 4000
      modifies this
      ensures ret == copied && out == buffer[..copied] && buffer[..] == old(buffer[..])
      ensures AtomicStep(ReadCall(count), ret, out, old(buffer[..]), buffer[..])
      ensures sem == old(sem)
      ensures caller == who && Trail(Returned(ret, out))
    {
      hide *;
      LoneRead(count, copied, buffer[..]);
      Begin(who);
      Down();
      var len := ChooseLength(count);
      var left: nat;
      left, out := CopyOut(len, copied);
      Up(copied, out);
      ret := len - left;
      End(ret, out);
    }

    method SampleCharDrvWrite(data: seq<Byte>, copied: nat, junk: seq<Byte>, ghost who: Caller) returns (ret: nat)
      requires Ready(who.calls, who.start, who.c) && buffer.Length == BUFFER_LEN && Shown(who.start)
      requires who.calls[who.c] == WriteCall(data)
      requires copied + |junk| == if |data| < 4000 then |data| else 4000
      modifies this, buffer
      ensures ret == copied && buffer[..] == data[..copied] + junk + old(buffer[copied + |junk|..])
      ensures AtomicStep(WriteCall(data), ret, [], old(buffer[..]), buffer[..])
      ensures sem == old(sem)
      ensures caller == who && Trail(Returned(ret, []))
    {
      hide *;
      LoneWrite(data, copied, junk, buffer[..]);
      Begin(who);
      Down();
      var len := ChooseLength(|data|);
      var left := CopyIn(data, len, copied, junk);
      Up(copied, []);
      ret := len - left;
      End(ret, []);
    }
  }

  // ----- What every step keeps ------------------------------------------------------------

  /** The buffer as the call after position `k` of the order found it, or as it is now. */
  function Found(s: State, k: nat): seq<Byte> {
    if k < |s.snaps| then s.snaps[k] else s.buffer
  }

  ghost predicate OrderOk(calls: seq<Call>, s: State) {
    && |s.snaps| == |s.order|
    && (forall k :: 0 <= k < |s.order| ==> s.order[k] < |s.pcs|)
    && (forall k :: 0 <= k < |s.order| ==> Begun(s.pcs[s.order[k]]) && !s.pcs[s.order[k]].Signalled?)
    && (forall j, k :: 0 <= j < k < |s.order| ==> s.order[j] != s.order[k])
    && (forall c :: 0 <= c < |s.pcs| && Begun(s.pcs[c]) ==> c in s.order)
  }

  ghost predicate HolderOk(s: State)
    requires forall k :: 0 <= k < |s.order| ==> s.order[k] < |s.pcs|
  {
    && 0 <= s.sem <= 1
    && (s.sem == 0 ==> s.order != [] && Inside(s.pcs[s.order[|s.order| - 1]]))
    && (forall c :: 0 <= c < |s.pcs| && Inside(s.pcs[c]) ==>
          s.sem == 0 && s.order != [] && c == s.order[|s.order| - 1])
  }

  ghost predicate ProgressOk(calls: seq<Call>, init: seq<Byte>, s: State)
    requires |s.pcs| == |calls| && forall k :: 0 <= k < |s.order| ==> s.order[k] < |s.pcs|
  {
    && Found(s, 0) == init
    && forall k :: 0 <= k < |s.order| ==>
         Progressed(calls[s.order[k]], s.pcs[s.order[k]], Found(s, k), Found(s, k + 1))
  }

  ghost predicate Inv(calls: seq<Call>, init: seq<Byte>, s: State) {
    WellFormed(calls, s) && OrderOk(calls, s) && HolderOk(s) && ProgressOk(calls, init, s)
  }

  lemma OrderNext(calls: seq<Call>, s: State, a: Action)
    requires WellFormed(calls, s) && OrderOk(calls, s) && HolderOk(s) && Enabled(calls, s, a)
    ensures OrderOk(calls, Next(calls, s, a))
  {
    hide PcOk, BufferAfter, HolderOk;
    if a.Down? {
      DownKeepsOrder(calls, s, a.c);
    } else {
      var r := Next(calls, s, a);
      assert r.order == s.order && r.snaps == s.snaps;
      forall c | 0 <= c < |s.pcs|
        ensures (Begun(s.pcs[c]) <==> Begun(r.pcs[c])) && (!s.pcs[c].Signalled? ==> !r.pcs[c].Signalled?) {
      }
      hide Next, Enabled, WellFormed;
    }
  }

  lemma DownKeepsOrder(calls: seq<Call>, s: State, c: nat)
    requires OrderOk(calls, s) && Enabled(calls, s, Down(c))
    ensures OrderOk(calls, Next(calls, s, Down(c)))
  {
    var r := Next(calls, s, Down(c));
    assert r.order == s.order + [c] && r.snaps == s.snaps + [s.buffer] && r.pcs == s.pcs[c := Entered];
    assert s.pcs[c].Waiting? && |s.pcs| == |calls|;
    hide Next, Enabled, WellFormed;
    assert c !in s.order;
    forall d | 0 <= d < |r.pcs| && Begun(r.pcs[d]) ensures d in r.order {
      if d == c {
        assert r.order[|s.order|] == d;
      } else {
        assert d in s.order;
      }
    }
  }

  lemma HolderNext(calls: seq<Call>, s: State, a: Action)
    requires WellFormed(calls, s) && OrderOk(calls, s) && HolderOk(s) && Enabled(calls, s, a)
    requires OrderOk(calls, Next(calls, s, a))
    ensures HolderOk(Next(calls, s, a))
  {
    hide PcOk, BufferAfter;
  }

  lemma ProgressNext(calls: seq<Call>, init: seq<Byte>, s: State, a: Action)
    requires Inv(calls, init, s) && Enabled(calls, s, a)
    requires OrderOk(calls, Next(calls, s, a))
    ensures ProgressOk(calls, init, Next(calls, s, a))
  {
    var r := Next(calls, s, a);
    forall k | 0 <= k < |r.order|
      ensures Progressed(calls[r.order[k]], r.pcs[r.order[k]], Found(r, k), Found(r, k + 1)) {
      hide PcOk, PcAfter, BufferAfter, HolderOk, AtomicStep, Enabled, Progressed;
      if a.Copy? {
        HolderIsLast(calls, s, a.c, a.step);
      }
      if r.order[k] == a.c {
        OwnProgress(calls, init, s, a, k);
      } else {
        OthersProgress(calls, init, s, a, k);
      }
    }
  }

  /** The progress of the calls that do not take the step. */
  lemma OthersProgress(calls: seq<Call>, init: seq<Byte>, s: State, a: Action, k: nat)
    requires Inv(calls, init, s) && Enabled(calls, s, a)
    requires k < |Next(calls, s, a).order| && Next(calls, s, a).order[k] != a.c
    requires a.Copy? ==> s.order != [] && s.order[|s.order| - 1] == a.c
    ensures var r := Next(calls, s, a);
            && k < |s.order| && r.order[k] == s.order[k] && r.pcs[r.order[k]] == s.pcs[s.order[k]]
            && Found(r, k) == Found(s, k) && Found(r, k + 1) == Found(s, k + 1)
            && Progressed(calls[s.order[k]], s.pcs[s.order[k]], Found(s, k), Found(s, k + 1))
  {
    hide PcOk, PcAfter, BufferAfter, HolderOk, AtomicStep, Enabled, Progressed;
  }

  /** The progress of the call that takes the step. */
  lemma OwnProgress(calls: seq<Call>, init: seq<Byte>, s: State, a: Action, k: nat)
    requires Inv(calls, init, s) && Enabled(calls, s, a)
    requires OrderOk(calls, Next(calls, s, a)) && k < |Next(calls, s, a).order|
    requires Next(calls, s, a).order[k] == a.c
    ensures var r := Next(calls, s, a);
            Progressed(calls[a.c], r.pcs[a.c], Found(r, k), Found(r, k + 1))
  {
    hide PcOk, PcAfter, BufferAfter, AtomicStep;
    if k < |s.order| {
      assert s.order[k] == a.c;
      assert Progressed(calls[s.order[k]], s.pcs[s.order[k]], Found(s, k), Found(s, k + 1));
      if a.Copy? {
        HolderIsLast(calls, s, a.c, a.step);
        ProgressKept(calls[a.c], s.pcs[a.c], s.snaps[k], s.buffer, a.step);
      }
    }
  }

  /** Only the call that got the semaphore last can be copying. */
  lemma HolderIsLast(calls: seq<Call>, s: State, c: nat, step: CopyStep)
    requires WellFormed(calls, s) && OrderOk(calls, s) && HolderOk(s) && Enabled(calls, s, Copy(c, step))
    ensures s.order != [] && s.order[|s.order| - 1] == c
  {
    assert Inside(s.pcs[c]);
  }

  lemma InvNext(calls: seq<Call>, init: seq<Byte>, s: State, a: Action)
    requires Inv(calls, init, s) && Enabled(calls, s, a)
    ensures Inv(calls, init, Next(calls, s, a))
  {
    OrderNext(calls, s, a);
    HolderNext(calls, s, a);
    ProgressNext(calls, init, s, a);
  }

  lemma {:induction false} RunInv(calls: seq<Call>, init: seq<Byte>, states: seq<State>, acts: seq<Action>, i: nat)
    requires IsRun(calls, init, states, acts) && i < |states|
    ensures Inv(calls, init, states[i])
  {
    if i > 0 {
      RunInv(calls, init, states, acts, i - 1);
      assert states[i - 1 + 1] == Next(calls, states[i - 1], acts[i - 1]);
      InvNext(calls, init, states[i - 1], acts[i - 1]);
    }
  }

  lemma {:induction false} OrderGrows(calls: seq<Call>, init: seq<Byte>, states: seq<State>, acts: seq<Action>,
                                      i: nat, j: nat)
    requires IsRun(calls, init, states, acts) && i <= j < |states|
    ensures states[i].order <= states[j].order
    decreases j
  {
    if i < j {
      OrderGrows(calls, init, states, acts, i, j - 1);
      assert states[j - 1 + 1] == Next(calls, states[j - 1], acts[j - 1]);
    }
  }

  // ----- Linearizability ------------------------------------------------------------------

  /** A finished operation: the call, the count it returns, the bytes a reader got. */
  datatype Entry = Entry(call: Call, n: nat, got: seq<Byte>)

  predicate Finished(pc: Pc) { pc.Released? || pc.Returned? }

  /** The finished operations, in the order they got the semaphore. */
  ghost function History(calls: seq<Call>, s: State): seq<Entry>
    requires |s.pcs| == |calls| && OrderOk(calls, s) && HolderOk(s)
  {
    var m := if s.sem == 0 then |s.order| - 1 else |s.order|;
    seq(m, k requires 0 <= k < m =>
      var pc := s.pcs[s.order[k]];
      Entry(calls[s.order[k]], pc.n, pc.got))
  }

  /** A sequential history of the atomic buffer, with the buffers it goes through. */
  ghost predicate Legal(init: seq<Byte>, h: seq<Entry>, bufs: seq<seq<Byte>>) {
    && |bufs| == |h| + 1 && bufs[0] == init
    && forall k :: 0 <= k < |h| ==> AtomicStep(h[k].call, h[k].n, h[k].got, bufs[k], bufs[k + 1])
  }

  ghost function Buffers(s: State): seq<seq<Byte>> {
    if s.sem == 0 then s.snaps else s.snaps + [s.buffer]
  }

  lemma HistoryLegal(calls: seq<Call>, init: seq<Byte>, s: State)
    requires Inv(calls, init, s)
    ensures Legal(init, History(calls, s), Buffers(s))
    ensures s.sem == 1 ==> Buffers(s)[|History(calls, s)|] == s.buffer
  {
    hide AtomicStep, PcOk;
    var h, bufs := History(calls, s), Buffers(s);
    assert bufs[0] == Found(s, 0);
    forall k | 0 <= k < |h| ensures AtomicStep(h[k].call, h[k].n, h[k].got, bufs[k], bufs[k + 1]) {
      assert bufs[k] == Found(s, k) && bufs[k + 1] == Found(s, k + 1);
      assert s.order[k] != s.order[|s.order| - 1] || k == |s.order| - 1;
    }
  }

  lemma HistoryComplete(calls: seq<Call>, init: seq<Byte>, s: State, c: nat)
    requires Inv(calls, init, s) && c < |calls|
    ensures Finished(s.pcs[c]) <==> exists k :: 0 <= k < |History(calls, s)| && s.order[k] == c
  {
    hide AtomicStep, PcOk, ProgressOk, Progressed;
    if Finished(s.pcs[c]) {
      assert c in s.order;
      var k :| 0 <= k < |s.order| && s.order[k] == c;
      assert k < |History(calls, s)|;
    }
  }

  /** Every interleaving is equivalent to running the finished calls one at a time, in semaphore
      order, on an atomic buffer; every returned call is among them with what it returned. */
  lemma Linearizable(calls: seq<Call>, init: seq<Byte>, states: seq<State>, acts: seq<Action>)
    requires IsRun(calls, init, states, acts)
    ensures var s := states[|acts|];
            && Inv(calls, init, s)
            && Legal(init, History(calls, s), Buffers(s))
            && (s.sem == 1 ==> Buffers(s)[|History(calls, s)|] == s.buffer)
            && forall c :: 0 <= c < |calls| ==>
                 (Finished(s.pcs[c]) <==> exists k :: 0 <= k < |History(calls, s)| && s.order[k] == c)
  {
    RunInv(calls, init, states, acts, |acts|);
    var s := states[|acts|];
    HistoryLegal(calls, init, s);
    forall c | 0 <= c < |calls|
      ensures Finished(s.pcs[c]) <==> exists k :: 0 <= k < |History(calls, s)| && s.order[k] == c {
      HistoryComplete(calls, init, s, c);
    }
  }

  /** The order respects real time: a call that has returned before another is made comes first. */
  lemma RealTimeOrder(calls: seq<Call>, init: seq<Byte>, states: seq<State>, acts: seq<Action>,
                      i: nat, a: nat, b: nat, ka: nat, kb: nat)
    requires IsRun(calls, init, states, acts) && i < |states|
    requires a < |calls| && b < |calls| && |states[i].pcs| == |calls|
    requires states[i].pcs[a].Returned? && states[i].pcs[b].Idle?
    requires var order := states[|acts|].order;
             ka < |order| && kb < |order| && order[ka] == a && order[kb] == b
    ensures ka < kb
  {
    RunInv(calls, init, states, acts, i);
    RunInv(calls, init, states, acts, |acts|);
    OrderGrows(calls, init, states, acts, i, |acts|);
    var early, order := states[i].order, states[|acts|].order;
    assert a in early;
    var k :| 0 <= k < |early| && early[k] == a;
    assert order[k] == a;
    assert b !in early;
    assert forall j :: 0 <= j < |early| ==> early[j] == order[j];
  }

  /** The buffer after a sequential history in which every write is complete. */
  function WritesApplied(init: seq<Byte>, h: seq<Entry>): (r: seq<Byte>)
    requires |init| == BUFFER_LEN
    ensures |r| == BUFFER_LEN
  {
    if h == [] then init
    else
      var before := WritesApplied(init, h[..|h| - 1]);
      match h[|h| - 1].call
      case ReadCall(_) => before
      case WriteCall(payload) => Splice(before, 0, payload[..h[|h| - 1].call.Window()])
  }

  lemma {:induction false} FaultFreeBuffers(init: seq<Byte>, h: seq<Entry>, bufs: seq<seq<Byte>>, k: nat)
    requires |init| == BUFFER_LEN && Legal(init, h, bufs) && k <= |h|
    requires forall j :: 0 <= j < k && h[j].call.WriteCall? ==> h[j].n == h[j].call.Window()
    ensures bufs[k] == WritesApplied(init, h[..k])
  {
    if k > 0 {
      FaultFreeBuffers(init, h, bufs, k - 1);
      assert h[..k][..k - 1] == h[..k - 1];
      assert AtomicStep(h[k - 1].call, h[k - 1].n, h[k - 1].got, bufs[k - 1], bufs[k]);
      if h[k - 1].call.WriteCall? {
        var w := h[k - 1].call.Window();
        assert bufs[k] == bufs[k][..w] + bufs[k][w..];
      }
    }
  }

  predicate WritesComplete(h: seq<Entry>) {
    forall j :: 0 <= j < |h| && h[j].call.WriteCall? ==> h[j].n == h[j].call.Window()
  }

  /** No torn reads: unless a write before it was cut short by a fault, a finished read got a prefix
      of the buffer with exactly the writes before it in the order applied, each in full. */
  lemma ReadsSeeWholeWrites(calls: seq<Call>, init: seq<Byte>, states: seq<State>, acts: seq<Action>)
    requires IsRun(calls, init, states, acts)
    ensures Inv(calls, init, states[|acts|])
    ensures var h := History(calls, states[|acts|]);
            forall k :: 0 <= k < |h| && h[k].call.ReadCall? && WritesComplete(h[..k]) ==>
              h[k].n <= h[k].call.Window() && h[k].got == WritesApplied(init, h[..k])[..h[k].n]
  {
    Linearizable(calls, init, states, acts);
    var s := states[|acts|];
    var h := History(calls, s);
    hide Inv, History, IsRun;
    forall k | 0 <= k < |h| && h[k].call.ReadCall? && WritesComplete(h[..k])
      ensures h[k].n <= h[k].call.Window() && h[k].got == WritesApplied(init, h[..k])[..h[k].n] {
      forall j | 0 <= j < k && h[j].call.WriteCall? ensures h[j].n == h[j].call.Window() {
        assert h[..k][j] == h[j];
      }
      FaultFreeBuffers(init, h, Buffers(s), k);
      assert AtomicStep(h[k].call, h[k].n, h[k].got, Buffers(s)[k], Buffers(s)[k + 1]);
    }
  }

  lemma RunStep(calls: seq<Call>, init: seq<Byte>, states: seq<State>, acts: seq<Action>, k: nat)
    requires IsRun(calls, init, states, acts) && k < |acts|
    ensures |states| == |acts| + 1
    ensures Enabled(calls, states[k], acts[k]) && states[k + 1] == Next(calls, states[k], acts[k])
  {
  }

  predicate Faulted(acts: seq<Action>, c: nat) {
    exists i :: 0 <= i < |acts| && acts[i].Copy? && acts[i].c == c && acts[i].step.CopyFault?
  }

  lemma CountStep(calls: seq<Call>, s: State, a: Action, c: nat)
    requires Enabled(calls, s, a) && c < |calls| && WholeCount(calls[c], s.pcs[c])
    requires !(a.Copy? && a.c == c && a.step.CopyFault?)
    ensures |Next(calls, s, a).pcs| == |calls| && WholeCount(calls[c], Next(calls, s, a).pcs[c])
  {
    hide BufferAfter, PcAfter;
    if a.Copy? && a.c == c {
      WholeCountKept(calls[c], s.buffer, s.pcs[c], a.step);
    }
  }

  /** A call whose copy does not fault returns the count it asked for, or 4000 if that is less; a read has
      got that many bytes. */
  lemma {:induction false} FaultFreeCount(calls: seq<Call>, init: seq<Byte>, states: seq<State>,
                                          acts: seq<Action>, i: nat, c: nat)
    requires IsRun(calls, init, states, acts) && i < |states| && c < |calls| && !Faulted(acts, c)
    ensures |states[i].pcs| == |calls| && WholeCount(calls[c], states[i].pcs[c])
    ensures var pc, count := states[i].pcs[c], calls[c].Count();
            pc.Copied? || pc.Released? || pc.Signalled? || pc.Returned? ==>
              && pc.n == (if count < 4000 then count else 4000)
              && (calls[c].ReadCall? ==> |pc.got| == if count < 4000 then count else 4000)
  {
    hide IsRun, Next, Enabled, Faulted;
    StartCount(calls, init, states, acts, c);
    if i > 0 {
      RunStep(calls, init, states, acts, i - 1);
      FaultFreeCount(calls, init, states, acts, i - 1, c);
      NoFaultStep(acts, i - 1, c);
      CountStep(calls, states[i - 1], acts[i - 1], c);
    }
  }

  lemma StartCount(calls: seq<Call>, init: seq<Byte>, states: seq<State>, acts: seq<Action>, c: nat)
    requires IsRun(calls, init, states, acts) && c < |calls|
    ensures |states| == |acts| + 1 && |init| == BUFFER_LEN
    ensures |states[0].pcs| == |calls| && states[0].pcs[c] == Idle
  {
  }

  lemma NoFaultStep(acts: seq<Action>, i: nat, c: nat)
    requires i < |acts| && !Faulted(acts, c)
    ensures !(acts[i].Copy? && acts[i].c == c && acts[i].step.CopyFault?)
  {
  }

  /** A complete write puts its payload, or the first 4000 bytes of it, at the front and keeps the rest. */
  lemma WriteApplied(init: seq<Byte>, h: seq<Entry>, k: nat)
    requires |init| == BUFFER_LEN && k < |h| && h[k].call.WriteCall?
    ensures var p := h[k].call.payload;
            var m := if |p| < 4000 then |p| else 4000;
            WritesApplied(init, h[..k + 1]) == p[..m] + WritesApplied(init, h[..k])[m..]
  {
    hide WritesApplied, Splice;
    LastApplied(init, h, k);
    SpliceFront(WritesApplied(init, h[..k]), h[k].call.payload[..h[k].call.Window()]);
  }

  lemma LastApplied(init: seq<Byte>, h: seq<Entry>, k: nat)
    requires |init| == BUFFER_LEN && k < |h| && h[k].call.WriteCall?
    ensures WritesApplied(init, h[..k + 1])
            == Splice(WritesApplied(init, h[..k]), 0, h[k].call.payload[..h[k].call.Window()])
  {
    hide Splice;
    assert h[..k + 1][..k] == h[..k];
  }

  /** When no copy faults at all, the buffer between calls is what complete writes make of it, one after
      the other, and every finished read got the first bytes of it, as many as it asked for up to 4000. */
  lemma FaultFreeReads(calls: seq<Call>, init: seq<Byte>, states: seq<State>, acts: seq<Action>)
    requires IsRun(calls, init, states, acts)
    requires forall i :: 0 <= i < |acts| && acts[i].Copy? ==> !acts[i].step.CopyFault?
    ensures Inv(calls, init, states[|acts|])
    ensures var s := states[|acts|];
            var h := History(calls, s);
            && (s.sem == 1 ==> s.buffer == WritesApplied(init, h))
            && (forall k :: 0 <= k < |h| && h[k].call.ReadCall? ==>
                  h[k].got == WritesApplied(init, h[..k])[..if h[k].call.count < 4000 then h[k].call.count else 4000])
            && (forall k :: 0 <= k < |h| && h[k].call.WriteCall? ==>
                  var p := h[k].call.payload;
                  var m := if |p| < 4000 then |p| else 4000;
                  h[k].n == m && WritesApplied(init, h[..k + 1]) == p[..m] + WritesApplied(init, h[..k])[m..])
  {
    hide History, Legal, WritesApplied, AtomicStep, ProgressOk, Found;
    Linearizable(calls, init, states, acts);
    var s := states[|acts|];
    var h := History(calls, s);
    assert |init| == BUFFER_LEN;
    forall k | 0 <= k < |h|
      ensures h[k].n == h[k].call.Window() == if h[k].call.Count() < 4000 then h[k].call.Count() else 4000
      ensures h[k].call.WriteCall? ==>
                var p := h[k].call.payload;
                var m := if |p| < 4000 then |p| else 4000;
                WritesApplied(init, h[..k + 1]) == p[..m] + WritesApplied(init, h[..k])[m..] {
      FaultFreeEntry(calls, init, states, acts, k);
      if h[k].call.WriteCall? {
        WriteApplied(init, h, k);
      }
    }
    ReadsSeeWholeWrites(calls, init, states, acts);
    LastBuffer(calls, init, s);
    assert h[..|h|] == h;
  }

  lemma FaultFreeEntry(calls: seq<Call>, init: seq<Byte>, states: seq<State>, acts: seq<Action>, k: nat)
    requires IsRun(calls, init, states, acts)
    requires forall i :: 0 <= i < |acts| && acts[i].Copy? ==> !acts[i].step.CopyFault?
    requires Inv(calls, init, states[|acts|]) && k < |History(calls, states[|acts|])|
    ensures var e := History(calls, states[|acts|])[k];
            e.n == e.call.Window() == if e.call.Count() < 4000 then e.call.Count() else 4000
  {
    var s := states[|acts|];
    HistoryComplete(calls, init, s, s.order[k]);
    FaultFreeCount(calls, init, states, acts, |acts|, s.order[k]);
  }

  /** With the semaphore free and all writes complete, the buffer is what they make of it. */
  lemma LastBuffer(calls: seq<Call>, init: seq<Byte>, s: State)
    requires Inv(calls, init, s) && |init| == BUFFER_LEN && WritesComplete(History(calls, s))
    ensures s.sem == 1 ==> s.buffer == WritesApplied(init, History(calls, s))
  {
    var h := History(calls, s);
    HistoryLegal(calls, init, s);
    FaultFreeBuffers(init, h, Buffers(s), |h|);
    assert h[..|h|] == h;
  }

  // ----- Mutual exclusion and completion --------------------------------------------------

  function InsideWeight(call: Call, pc: Pc): int { if Inside(pc) then 1 else 0 }

  /** The semaphore value and the number of calls between `down` and `up` always add up to one. */
  lemma {:induction false} MutualExclusion(calls: seq<Call>, init: seq<Byte>, states: seq<State>,
                                           acts: seq<Action>, i: nat)
    requires IsRun(calls, init, states, acts) && i < |states|
    ensures |states[i].pcs| == |calls|
    ensures states[i].sem + Sum(InsideWeight, calls, states[i].pcs) == 1 && states[i].sem >= 0
  {
    RunInv(calls, init, states, acts, i);
    if i == 0 {
      SumZero(InsideWeight, calls, states[0].pcs);
    } else {
      MutualExclusion(calls, init, states, acts, i - 1);
      var s, a := states[i - 1], acts[i - 1];
      assert states[i - 1 + 1] == Next(calls, s, a);
      SumUpdate(InsideWeight, calls, s.pcs, a.c, states[i].pcs[a.c]);
      assert states[i].pcs == s.pcs[a.c := states[i].pcs[a.c]];
    }
  }

  lemma StepUsesWork(calls: seq<Call>, s: State, a: Action)
    requires Enabled(calls, s, a)
    ensures MovesOn(calls, s.pcs, Next(calls, s, a).pcs, a.c)
  {
    if a.Copy? {
      CopyRankDrops(calls[a.c], s.buffer, s.pcs[a.c], a.step);
    }
  }

  /** Where the calls stand along a run, and whose step each one is. */
  ghost function Trace(states: seq<State>): (r: seq<seq<Pc>>)
    ensures |r| == |states| && forall k :: 0 <= k < |states| ==> r[k] == states[k].pcs
  {
    seq(|states|, k requires 0 <= k < |states| => states[k].pcs)
  }

  ghost function Who(acts: seq<Action>): (r: seq<nat>)
    ensures |r| == |acts| && forall k :: 0 <= k < |acts| ==> r[k] == acts[k].c
  {
    seq(|acts|, k requires 0 <= k < |acts| => acts[k].c)
  }

  /** Every step uses up work, so no schedule is longer than the work there was at the start. */
  lemma RunsAreBounded(calls: seq<Call>, init: seq<Byte>, states: seq<State>, acts: seq<Action>, i: nat)
    requires IsRun(calls, init, states, acts) && i < |states|
    ensures |states[i].pcs| == |calls|
    ensures 0 <= Sum(Rank, calls, states[i].pcs) <= Sum(Rank, calls, Init(calls, init).pcs) - i
  {
    assert |states| == |acts| + 1 && states[0] == Init(calls, init) && PcsOk(calls, states[0].pcs);
    hide IsRun, Enabled, Next, MovesOn, Rank, PcsOk, Trace, Who, Sum, Init;
    forall k | 0 <= k < |acts| ensures UsesWork(calls, Trace(states), Who(acts), k) {
      RunStep(calls, init, states, acts, k);
      StepUsesWork(calls, states[k], acts[k]);
    }
    WorkBoundsRuns(calls, Trace(states), Who(acts), i);
    SameLength(calls, states[i].pcs);
  }

  /** No reachable state with an unfinished call is stuck. */
  lemma SomeStepEnabled(calls: seq<Call>, init: seq<Byte>, s: State, c: nat) returns (a: Action)
    requires Inv(calls, init, s) && c < |calls| && !s.pcs[c].Returned?
    ensures Enabled(calls, s, a)
  {
    if s.pcs[c].Idle? {
      return Invoke(c);
    } else if s.pcs[c].Released? {
      return Return(c);
    } else if s.sem > 0 {
      return Down(c);
    }
    var holder := s.order[|s.order| - 1];
    return if s.pcs[holder].Copied? then Up(holder)
      else Copy(holder, NextCopyStep(calls[holder], s.pcs[holder]));
  }

  /** A run that cannot be extended has returned from every call. */
  lemma MaximalRunsFinish(calls: seq<Call>, init: seq<Byte>, states: seq<State>, acts: seq<Action>)
    requires IsRun(calls, init, states, acts)
    requires forall a: Action :: !Enabled(calls, states[|acts|], a)
    ensures |states[|acts|].pcs| == |calls|
    ensures forall c :: 0 <= c < |calls| ==> states[|acts|].pcs[c].Returned?
  {
    RunInv(calls, init, states, acts, |acts|);
    forall c | 0 <= c < |calls| ensures states[|acts|].pcs[c].Returned? {
      if !states[|acts|].pcs[c].Returned? {
        var a := SomeStepEnabled(calls, init, states[|acts|], c);
        assert false;
      }
    }
  }
}
