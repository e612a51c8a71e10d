/** Read and write calls on a character driver's buffer, carried out one byte at a time. */
module UserCopy {
  import opened Bytes

  const BUFFER_LEN: nat := 4000

  /** A call made by some thread; a write brings `|payload|` bytes. */
  datatype Call = ReadCall(count: nat) | WriteCall(payload: seq<Byte>) {
    function Count(): nat {
      match this
      case ReadCall(n) => n
      case WriteCall(p) => |p|
    }

    /** The length the driver decides to copy. */
    function Window(): nat {
      if Count() > BUFFER_LEN then BUFFER_LEN else Count()
    }
  }

  /** Where a call stands. `got` is what has reached the reader; `n` is the count to be returned. */
  datatype Pc =
    | Idle
    | Waiting
    | Entered
    | Copying(len: nat, done: nat, got: seq<Byte>)
    | Copied(n: nat, got: seq<Byte>)
    | Released(n: nat, got: seq<Byte>)
    | Signalled(n: nat, got: seq<Byte>)
    | Returned(n: nat, got: seq<Byte>)

  /** Steps between entering and leaving the copy. A fault stops the copy early; for a write it
      may leave arbitrary bytes in the rest of the window. */
  datatype CopyStep = ComputeLen | CopyByte | CopyDone | CopyFault(junk: seq<Byte>)

  predicate PcOk(call: Call, pc: Pc) {
    pc.Copying? ==>
      && pc.done <= pc.len == call.Window()
      && |pc.got| == if call.ReadCall? then pc.done else 0
  }

  predicate CopyEnabled(call: Call, pc: Pc, step: CopyStep) {
    match step
    case ComputeLen => pc.Entered?
    case CopyByte => pc.Copying? && pc.done < pc.len
    case CopyDone => pc.Copying? && pc.done == pc.len
    case CopyFault(junk) =>
      pc.Copying? && pc.done < pc.len && |junk| == if call.WriteCall? then pc.len - pc.done else 0
  }

  function PcAfter(call: Call, buffer: seq<Byte>, pc: Pc, step: CopyStep): (r: Pc)
    requires |buffer| == BUFFER_LEN && PcOk(call, pc) && CopyEnabled(call, pc, step)
    ensures PcOk(call, r)
  {
    match step
    case ComputeLen => Copying(call.Window(), 0, [])
    case CopyByte => pc.(done := pc.done + 1,
                         got := if call.ReadCall? then pc.got + [buffer[pc.done]] else pc.got)
    case CopyDone => Copied(pc.len, pc.got)
    case CopyFault(_) => Copied(pc.done, pc.got)
  }

  function BufferAfter(call: Call, buffer: seq<Byte>, pc: Pc, step: CopyStep): (r: seq<Byte>)
    requires |buffer| == BUFFER_LEN && PcOk(call, pc) && CopyEnabled(call, pc, step)
    ensures |r| == BUFFER_LEN
  {
    match (step, call)
    case (CopyByte, WriteCall(payload)) => buffer[pc.done := payload[pc.done]]
    case (CopyFault(junk), WriteCall(_)) => Splice(buffer, pc.done, junk)
    case _ => buffer
  }

  /** Past its wait, and past its wait but not yet done copying. */
  predicate Begun(pc: Pc) { !pc.Idle? && !pc.Waiting? }

  predicate Inside(pc: Pc) { pc.Entered? || pc.Copying? || pc.Copied? }

  // ----- The copies in place --------------------------------------------------------------

  /** copy_to_user of `len` bytes, of which `copied` arrive; returns the number left over. */
  method CopyToUser(buffer: array<Byte>, len: nat, copied: nat) returns (left: nat, out: seq<Byte>)
    requires copied <= len <= buffer.Length
    ensures left == len - copied && out == buffer[..copied]
  {
    out := buffer[..copied];
    left := len - copied;
  }

  /** copy_from_user likewise; the window's bytes beyond the copied ones end up as `junk`. */
  method CopyFromUser(buffer: array<Byte>, data: seq<Byte>, len: nat, copied: nat, junk: seq<Byte>)
      returns (left: nat)
    requires copied <= len <= buffer.Length && len <= |data| && |junk| == len - copied
    modifies buffer
    ensures left == len - copied && buffer[..] == Splice(old(buffer[..]), 0, data[..copied] + junk)
  {
    StoreBytes(buffer, 0, data[..copied] + junk);
    left := len - copied;
  }

  // ----- A copy that nothing disturbs -----------------------------------------------------

  /** A copy of `copied` bytes; a write cut short leaves `junk` in the rest of its window. */
  predicate CanCopy(call: Call, copied: nat, junk: seq<Byte>) {
    copied <= call.Window() && |junk| == if call.WriteCall? then call.Window() - copied else 0
  }

  function CopiedBytes(call: Call, buffer: seq<Byte>, copied: nat): seq<Byte>
    requires |buffer| == BUFFER_LEN && copied <= call.Window()
  {
    if call.ReadCall? then buffer[..copied] else []
  }

  function CopiedBuffer(call: Call, buffer: seq<Byte>, copied: nat, junk: seq<Byte>): (r: seq<Byte>)
    requires |buffer| == BUFFER_LEN && CanCopy(call, copied, junk)
    ensures |r| == BUFFER_LEN
  {
    match call
    case ReadCall(_) => buffer
    case WriteCall(payload) => Splice(buffer, 0, payload[..copied] + junk)
  }

  /** Where the copy stands after `k` of its bytes, and the buffer then. */
  function PcAt(call: Call, buffer: seq<Byte>, k: nat): Pc
    requires |buffer| == BUFFER_LEN && k <= call.Window()
  {
    Copying(call.Window(), k, CopiedBytes(call, buffer, k))
  }

  function BufferAt(call: Call, buffer: seq<Byte>, k: nat): (r: seq<Byte>)
    requires |buffer| == BUFFER_LEN && k <= call.Window()
    ensures |r| == BUFFER_LEN
  {
    match call
    case ReadCall(_) => buffer
    case WriteCall(payload) => Splice(buffer, 0, payload[..k])
  }

  function StopStep(call: Call, copied: nat, junk: seq<Byte>): CopyStep {
    if copied == call.Window() then CopyDone else CopyFault(junk)
  }

  lemma CopyStartsAt(call: Call, buffer: seq<Byte>)
    requires |buffer| == BUFFER_LEN
    ensures PcOk(call, Entered) && CopyEnabled(call, Entered, ComputeLen)
    ensures PcAfter(call, buffer, Entered, ComputeLen) == PcAt(call, buffer, 0) == Copying(call.Window(), 0, [])
    ensures BufferAfter(call, buffer, Entered, ComputeLen) == BufferAt(call, buffer, 0) == buffer
  {
  }

  lemma CopyByteAt(call: Call, buffer: seq<Byte>, k: nat)
    requires |buffer| == BUFFER_LEN && k < call.Window()
    ensures PcOk(call, PcAt(call, buffer, k)) && CopyEnabled(call, PcAt(call, buffer, k), CopyByte)
    ensures PcAfter(call, BufferAt(call, buffer, k), PcAt(call, buffer, k), CopyByte) == PcAt(call, buffer, k + 1)
    ensures BufferAfter(call, BufferAt(call, buffer, k), PcAt(call, buffer, k), CopyByte)
            == BufferAt(call, buffer, k + 1)
  {
    match call
    case ReadCall(_) => assert buffer[..k] + [buffer[k]] == buffer[..k + 1];
    case WriteCall(payload) => SpliceOneMore(buffer, payload, k);
  }

  lemma CopyStopsAt(call: Call, buffer: seq<Byte>, copied: nat, junk: seq<Byte>)
    requires |buffer| == BUFFER_LEN && CanCopy(call, copied, junk)
    ensures var pc, step := PcAt(call, buffer, copied), StopStep(call, copied, junk);
            && PcOk(call, pc) && CopyEnabled(call, pc, step)
            && PcAfter(call, BufferAt(call, buffer, copied), pc, step)
               == Copied(copied, CopiedBytes(call, buffer, copied))
            && BufferAfter(call, BufferAt(call, buffer, copied), pc, step) == CopiedBuffer(call, buffer, copied, junk)
  {
    if call.WriteCall? {
      SpliceAppend(buffer, 0, call.payload[..copied], junk);
    }
  }

  /** The buffer and a call's place in its copy. */
  datatype Moment = Moment(buffer: seq<Byte>, pc: Pc)

  /** A copy step by step, with the moments before and after each step. */
  ghost predicate CopyTrace(call: Call, moments: seq<Moment>, steps: seq<CopyStep>) {
    && |moments| == |steps| + 1
    && forall i :: 0 <= i < |steps| ==> TraceStep(call, moments[i], steps[i], moments[i + 1])
  }

  predicate TraceStep(call: Call, m: Moment, step: CopyStep, m': Moment) {
    && |m.buffer| == BUFFER_LEN && PcOk(call, m.pc) && CopyEnabled(call, m.pc, step)
    && m' == Moment(BufferAfter(call, m.buffer, m.pc, step), PcAfter(call, m.buffer, m.pc, step))
  }

  lemma TraceOn(call: Call, moments: seq<Moment>, steps: seq<CopyStep>, step: CopyStep, m: Moment)
    requires CopyTrace(call, moments, steps) && moments != [] && TraceStep(call, moments[|moments| - 1], step, m)
    ensures CopyTrace(call, moments + [m], steps + [step])
  {
    forall i | 0 <= i < |steps| + 1
      ensures TraceStep(call, (moments + [m])[i], (steps + [step])[i], (moments + [m])[i + 1]) {
    }
  }

  /** All bytes of a copy, from its start to where it stops. */
  lemma WholeTrace(call: Call, buffer: seq<Byte>, copied: nat, junk: seq<Byte>)
      returns (moments: seq<Moment>, steps: seq<CopyStep>)
    requires |buffer| == BUFFER_LEN && CanCopy(call, copied, junk)
    ensures CopyTrace(call, moments, steps) && |moments| == |steps| + 1
    ensures moments[0] == Moment(buffer, Copying(call.Window(), 0, []))
    ensures moments[|steps|] == Moment(CopiedBuffer(call, buffer, copied, junk),
                                       Copied(copied, CopiedBytes(call, buffer, copied)))
  {
    hide CopyTrace, PcAfter, BufferAfter, PcAt, BufferAt, CopiedBytes, CopiedBuffer;
    CopyStartsAt(call, buffer);
    var m := Moment(buffer, PcAt(call, buffer, 0));
    StartTrace(call, m);
    moments, steps := [m], [];
    for k := 0 to copied
      invariant CopyTrace(call, moments, steps) && |moments| == |steps| + 1 && moments[0] == m
      invariant moments[|steps|] == Moment(BufferAt(call, buffer, k), PcAt(call, buffer, k))
    {
      CopyByteAt(call, buffer, k);
      var next := Moment(BufferAt(call, buffer, k + 1), PcAt(call, buffer, k + 1));
      TraceOn(call, moments, steps, CopyByte, next);
      moments, steps := moments + [next], steps + [CopyByte];
    }
    CopyStopsAt(call, buffer, copied, junk);
    var last := Moment(CopiedBuffer(call, buffer, copied, junk), Copied(copied, CopiedBytes(call, buffer, copied)));
    TraceOn(call, moments, steps, StopStep(call, copied, junk), last);
    moments, steps := moments + [last], steps + [StopStep(call, copied, junk)];
  }

  lemma StartTrace(call: Call, m: Moment)
    ensures CopyTrace(call, [m], [])
  {
  }

  // ----- The same call as one indivisible operation ---------------------------------------

  /** What one call may do to the buffer if nothing else happens meanwhile: a read returns a prefix
      of the buffer; a write puts a prefix of its payload at the front and keeps everything beyond
      its window. Only a write cut short by a fault is loose about the rest of its window. */
  predicate AtomicStep(call: Call, n: nat, got: seq<Byte>, before: seq<Byte>, after: seq<Byte>) {
    && n <= call.Window() <= |before| == |after|
    && match call
       case ReadCall(_) => got == before[..n] && after == before
       case WriteCall(payload) =>
         && got == []
         && after[..n] == payload[..n]
         && after[call.Window()..] == before[call.Window()..]
  }

  lemma LoneRead(count: nat, copied: nat, buffer: seq<Byte>)
    requires |buffer| == BUFFER_LEN && copied <= if count < 4000 then count else 4000
    ensures CanCopy(ReadCall(count), copied, []) && ReadCall(count).Count() == count
    ensures AtomicStep(ReadCall(count), copied, buffer[..copied], buffer, buffer)
  {
  }

  lemma LoneWrite(data: seq<Byte>, copied: nat, junk: seq<Byte>, before: seq<Byte>)
    requires |before| == BUFFER_LEN && copied + |junk| == if |data| < 4000 then |data| else 4000
    ensures CanCopy(WriteCall(data), copied, junk) && WriteCall(data).Count() == |data|
    ensures var after := Splice(before, 0, data[..copied] + junk);
            && after == data[..copied] + junk + before[copied + |junk|..]
            && AtomicStep(WriteCall(data), copied, [], before, after)
  {
  }

  /** How far a call has got between its start on buffer `before` and the buffer `now`, when no
      other call has touched the buffer in between. */
  predicate Progressed(call: Call, pc: Pc, before: seq<Byte>, now: seq<Byte>) {
    && |before| == |now| == BUFFER_LEN
    && match pc
       case Entered => now == before
       case Copying(len, done, got) =>
         && PcOk(call, pc)
         && (match call
             case ReadCall(_) => got == before[..done] && now == before
             case WriteCall(payload) => now == Splice(before, 0, payload[..done]))
       case Copied(n, got) => AtomicStep(call, n, got, before, now)
       case Released(n, got) => AtomicStep(call, n, got, before, now)
       case Signalled(n, got) => AtomicStep(call, n, got, before, now)
       case Returned(n, got) => AtomicStep(call, n, got, before, now)
       case _ => false
  }

  /** Undisturbed steps of a copy keep the account of what has been copied. */
  lemma ProgressKept(call: Call, pc: Pc, before: seq<Byte>, now: seq<Byte>, step: CopyStep)
    requires PcOk(call, pc) && CopyEnabled(call, pc, step) && Progressed(call, pc, before, now)
    ensures Progressed(call, PcAfter(call, now, pc, step), before, BufferAfter(call, now, pc, step))
  {
    match call
    case ReadCall(_) => ReadProgressKept(call, pc, before, now, step);
    case WriteCall(_) => WriteProgressKept(call, pc, before, now, step);
  }

  lemma ReadProgressKept(call: Call, pc: Pc, before: seq<Byte>, now: seq<Byte>, step: CopyStep)
    requires call.ReadCall? && PcOk(call, pc) && CopyEnabled(call, pc, step) && Progressed(call, pc, before, now)
    ensures Progressed(call, PcAfter(call, now, pc, step), before, BufferAfter(call, now, pc, step))
  {
    if step.CopyByte? {
      assert before[..pc.done] + [before[pc.done]] == before[..pc.done + 1];
    }
  }

  lemma WriteProgressKept(call: Call, pc: Pc, before: seq<Byte>, now: seq<Byte>, step: CopyStep)
    requires call.WriteCall? && PcOk(call, pc) && CopyEnabled(call, pc, step) && Progressed(call, pc, before, now)
    ensures Progressed(call, PcAfter(call, now, pc, step), before, BufferAfter(call, now, pc, step))
  {
    var p := call.payload;
    match step
    case ComputeLen =>
      assert Splice(before, 0, p[..0]) == before;
    case CopyByte =>
      SpliceOneMore(before, p, pc.done);
    case CopyDone =>
      SpliceKeepsRest(before, 0, p[..pc.done]);
      SpliceReadBack(before, 0, p[..pc.done]);
    case CopyFault(junk) =>
      SpliceAppend(before, 0, p[..pc.done], junk);
      SpliceKeepsRest(before, 0, p[..pc.done] + junk);
      SpliceReadBack(before, 0, p[..pc.done] + junk);
      assert (p[..pc.done] + junk)[..pc.done] == p[..pc.done];
  }

  /** A call that has copied without a fault stands with the count asked for, or the buffer's 4000 bytes
      if that is less; a read has got that many bytes. */
  predicate WholeCount(call: Call, pc: Pc) {
    var limit := if call.Count() < 4000 then call.Count() else 4000;
    match pc
    case Copying(len, _, _) => len == limit && PcOk(call, pc)
    case Copied(n, got) => n == limit && |got| == if call.ReadCall? then limit else 0
    case Released(n, got) => n == limit && |got| == if call.ReadCall? then limit else 0
    case Signalled(n, got) => n == limit && |got| == if call.ReadCall? then limit else 0
    case Returned(n, got) => n == limit && |got| == if call.ReadCall? then limit else 0
    case _ => true
  }

  lemma WholeCountKept(call: Call, buffer: seq<Byte>, pc: Pc, step: CopyStep)
    requires |buffer| == BUFFER_LEN && PcOk(call, pc) && CopyEnabled(call, pc, step) && !step.CopyFault?
    requires WholeCount(call, pc)
    ensures WholeCount(call, PcAfter(call, buffer, pc, step))
  {
  }

  // ----- Counting over all calls ----------------------------------------------------------

  /** The weights of all calls, added up. */
  ghost function Sum(w: (Call, Pc) -> int, calls: seq<Call>, pcs: seq<Pc>): int
    requires |calls| == |pcs|
  {
    if calls == [] then 0
    else Sum(w, calls[..|calls| - 1], pcs[..|calls| - 1]) + w(calls[|calls| - 1], pcs[|calls| - 1])
  }

  lemma {:induction false} SumUpdate(w: (Call, Pc) -> int, calls: seq<Call>, pcs: seq<Pc>, c: nat, pc: Pc)
    requires |calls| == |pcs| && c < |calls|
    ensures Sum(w, calls, pcs[c := pc]) == Sum(w, calls, pcs) - w(calls[c], pcs[c]) + w(calls[c], pc)
  {
    var m := |calls| - 1;
    if c < m {
      SumUpdate(w, calls[..m], pcs[..m], c, pc);
      assert pcs[c := pc][..m] == pcs[..m][c := pc];
    } else {
      assert pcs[c := pc][..m] == pcs[..m];
    }
  }

  lemma {:induction false} SumAtLeast(w: (Call, Pc) -> int, calls: seq<Call>, pcs: seq<Pc>, c: nat)
    requires |calls| == |pcs| && c < |calls|
    requires forall i :: 0 <= i < |calls| ==> w(calls[i], pcs[i]) >= 0
    ensures Sum(w, calls, pcs) >= w(calls[c], pcs[c])
  {
    var m := |calls| - 1;
    SumNonNegative(w, calls[..m], pcs[..m]);
    if c < m {
      SumAtLeast(w, calls[..m], pcs[..m], c);
    }
  }

  lemma {:induction false} SumNonNegative(w: (Call, Pc) -> int, calls: seq<Call>, pcs: seq<Pc>)
    requires |calls| == |pcs|
    requires forall i :: 0 <= i < |calls| ==> w(calls[i], pcs[i]) >= 0
    ensures Sum(w, calls, pcs) >= 0
  {
    if calls != [] {
      SumNonNegative(w, calls[..|calls| - 1], pcs[..|calls| - 1]);
    }
  }

  lemma {:induction false} SumZero(w: (Call, Pc) -> int, calls: seq<Call>, pcs: seq<Pc>)
    requires |calls| == |pcs| && forall i :: 0 <= i < |calls| ==> w(calls[i], pcs[i]) == 0
    ensures Sum(w, calls, pcs) == 0
  {
    if calls != [] {
      SumZero(w, calls[..|calls| - 1], pcs[..|calls| - 1]);
    }
  }

  /** A positive sum has a positive weight in it. */
  lemma {:induction false} SumPositive(w: (Call, Pc) -> int, calls: seq<Call>, pcs: seq<Pc>) returns (c: nat)
    requires |calls| == |pcs| && Sum(w, calls, pcs) > 0
    ensures c < |calls| && w(calls[c], pcs[c]) > 0
  {
    var m := |calls| - 1;
    if w(calls[m], pcs[m]) > 0 {
      c := m;
    } else {
      c := SumPositive(w, calls[..m], pcs[..m]);
    }
  }

  /** Smaller weights, smaller sum; strictly so if one weight is strictly smaller. */
  lemma {:induction false} SumMonotone(w: (Call, Pc) -> int, v: (Call, Pc) -> int, calls: seq<Call>, pcs: seq<Pc>)
    requires |calls| == |pcs|
    requires forall i :: 0 <= i < |calls| ==> w(calls[i], pcs[i]) <= v(calls[i], pcs[i])
    ensures Sum(w, calls, pcs) <= Sum(v, calls, pcs)
    ensures (exists i :: 0 <= i < |calls| && w(calls[i], pcs[i]) < v(calls[i], pcs[i]))
            ==> Sum(w, calls, pcs) < Sum(v, calls, pcs)
  {
    if calls != [] {
      var m := |calls| - 1;
      SumMonotone(w, v, calls[..m], pcs[..m]);
      if i :| 0 <= i < |calls| && w(calls[i], pcs[i]) < v(calls[i], pcs[i]) {
        assert i < m ==> calls[..m][i] == calls[i] && pcs[..m][i] == pcs[i];
      }
    }
  }

  /** Sums agree when the weights do. */
  lemma {:induction false} SumEqual(w: (Call, Pc) -> int, v: (Call, Pc) -> int, calls: seq<Call>,
                                    pcs: seq<Pc>, pcs': seq<Pc>)
    requires |calls| == |pcs| == |pcs'|
    requires forall i :: 0 <= i < |calls| ==> w(calls[i], pcs[i]) == v(calls[i], pcs'[i])
    ensures Sum(w, calls, pcs) == Sum(v, calls, pcs')
  {
    if calls != [] {
      var m := |calls| - 1;
      SumEqual(w, v, calls[..m], pcs[..m], pcs'[..m]);
    }
  }

  function IsRead(call: Call, pc: Pc): int { if call.ReadCall? then 1 else 0 }

  function IsWrite(call: Call, pc: Pc): int { if call.WriteCall? then 1 else 0 }

  function ReadsReturned(call: Call, pc: Pc): int {
    if call.ReadCall? && pc.Returned? then 1 else 0
  }

  /** The number of steps a call can still take. */
  function Rank(call: Call, pc: Pc): (r: int)
    ensures PcOk(call, pc) ==> r >= 0
  {
    match pc
    case Idle => call.Window() + 7
    case Waiting => call.Window() + 6
    case Entered => call.Window() + 5
    case Copying(len, done, _) => len - done + 4
    case Copied(_, _) => 3
    case Released(_, _) => 2
    case Signalled(_, _) => 1
    case Returned(_, _) => 0
  }

  lemma CopyRankDrops(call: Call, buffer: seq<Byte>, pc: Pc, step: CopyStep)
    requires |buffer| == BUFFER_LEN && PcOk(call, pc) && CopyEnabled(call, pc, step)
    ensures Rank(call, PcAfter(call, buffer, pc, step)) < Rank(call, pc)
  {
  }

  predicate PcsOk(calls: seq<Call>, pcs: seq<Pc>) {
    |calls| == |pcs| && forall c :: 0 <= c < |calls| ==> PcOk(calls[c], pcs[c])
  }

  lemma SameLength(calls: seq<Call>, pcs: seq<Pc>)
    requires PcsOk(calls, pcs)
    ensures |pcs| == |calls|
  {
  }

  /** One call, `c`, moves on to a smaller rank. */
  predicate MovesOn(calls: seq<Call>, pcs: seq<Pc>, pcs': seq<Pc>, c: nat) {
    && PcsOk(calls, pcs) && PcsOk(calls, pcs') && c < |calls|
    && pcs' == pcs[c := pcs'[c]] && Rank(calls[c], pcs'[c]) < Rank(calls[c], pcs[c])
  }

  /** Step `k` of a run, taken by call `who[k]`, uses up work. */
  predicate UsesWork(calls: seq<Call>, trace: seq<seq<Pc>>, who: seq<nat>, k: nat)
    requires |trace| == |who| + 1 && k < |who|
  {
    MovesOn(calls, trace[k], trace[k + 1], who[k])
  }

  /** A run whose every step uses up work is no longer than the work there was at the start. */
  lemma {:induction false} WorkBoundsRuns(calls: seq<Call>, trace: seq<seq<Pc>>, who: seq<nat>, i: nat)
    requires |trace| == |who| + 1 && i < |trace| && PcsOk(calls, trace[0])
    requires forall k :: 0 <= k < |who| ==> UsesWork(calls, trace, who, k)
    ensures PcsOk(calls, trace[i])
    ensures 0 <= Sum(Rank, calls, trace[i]) <= Sum(Rank, calls, trace[0]) - i
  {
    if i > 0 {
      WorkBoundsRuns(calls, trace, who, i - 1);
      var c := who[i - 1];
      assert UsesWork(calls, trace, who, i - 1);
      SumUpdate(Rank, calls, trace[i - 1], c, trace[i][c]);
    }
    SumNonNegative(Rank, calls, trace[i]);
  }

  /** A call inside its copy can always take a step. */
  function NextCopyStep(call: Call, pc: Pc): (step: CopyStep)
    requires PcOk(call, pc) && (pc.Entered? || pc.Copying?)
    ensures CopyEnabled(call, pc, step)
  {
    if pc.Entered? then ComputeLen else if pc.done < pc.len then CopyByte else CopyDone
  }
}
