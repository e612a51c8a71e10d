/** The positioned character device: chunked reads and writes through per-open positions. */
module CharStream {
  import opened Bytes
  import opened CInt

  const MAX_LENGTH := 4000
  const ENOSPC := 28

  // ----- One call -------------------------------------------------------------------------

  /** The length to copy, with the C conversions: an `int` compared with a `size_t`. */
  function BytesToDo(ppos: int, lbuf: int): int {
    var maxbytes := Int32(MAX_LENGTH - ppos);
    if Uint64(maxbytes) > lbuf then Int32(lbuf) else maxbytes
  }

  /** For a position inside the device the conversions are exact, for every 64-bit length. */
  lemma BytesToDoExact(ppos: int, lbuf: int)
    requires 0 <= ppos <= MAX_LENGTH && 0 <= lbuf < TWO_TO_64
    ensures BytesToDo(ppos, lbuf) == if 4000 - ppos < lbuf then 4000 - ppos else lbuf
    ensures BytesToDo(ppos, lbuf) == 0 <==> ppos == 4000 || lbuf == 0
  {
  }

  /** What a call does: a read's `copied` bytes reach the user; a write's fault after `copied` bytes
      may leave arbitrary bytes in the rest of its window. */
  datatype Call = Read(lbuf: nat, copied: nat) | Write(data: seq<Byte>, copied: nat, junk: seq<Byte>) {
    function Lbuf(): nat { if Read? then lbuf else |data| }
  }

  predicate Possible(ppos: int, call: Call) {
    && 0 <= ppos <= MAX_LENGTH && call.Lbuf() < TWO_TO_64
    && call.copied <= BytesToDo(ppos, call.Lbuf())
    && (call.Write? ==> |call.junk| == BytesToDo(ppos, call.Lbuf()) - call.copied)
  }

  /** The device and a file after a call, with the value returned and the bytes the user got. */
  datatype Effect = Effect(buf: seq<Byte>, ppos: int, ret: int, out: seq<Byte>)

  function CallEffect(buf: seq<Byte>, ppos: int, call: Call): (r: Effect)
    requires |buf| == MAX_LENGTH && Possible(ppos, call)
    ensures |r.buf| == MAX_LENGTH && 0 <= r.ppos <= MAX_LENGTH
  {
    BytesToDoExact(ppos, call.Lbuf());
    var todo := BytesToDo(ppos, call.Lbuf());
    if todo == 0 then Effect(buf, ppos, -ENOSPC, [])
    else
      match call
      case Read(_, copied) => Effect(buf, ppos + copied, copied, buf[ppos..ppos + copied])
      case Write(data, copied, junk) => Effect(Splice(buf, ppos, data[..copied] + junk), ppos + copied, copied, [])
  }

  // ----- The driver, in place -------------------------------------------------------------

  class OpenFile {
    var ppos: int

    constructor ()
      ensures ppos == 0
    {
      ppos := 0;
    }
  }

  class CharDevice {
    const buf: array<Byte>

    constructor ()
      ensures fresh(buf) && buf.Length == MAX_LENGTH
    {
      buf := new Byte[MAX_LENGTH];
    }

    method CharDevRead(file: OpenFile, lbuf: nat, copied: nat) returns (ret: int, out: seq<Byte>)
      requires buf.Length == MAX_LENGTH && Possible(file.ppos, Read(lbuf, copied))
      modifies file
      ensures Effect(buf[..], file.ppos, ret, out) == CallEffect(buf[..], old(file.ppos), Read(lbuf, copied))
      ensures buf[..] == old(buf[..])
      ensures if old(file.ppos) == 4000 || lbuf == 0 then ret == -28 && file.ppos == old(file.ppos) && out == []
              else ret == copied && file.ppos == old(file.ppos) + copied && out == buf[old(file.ppos)..file.ppos]
    {
      BytesToDoExact(file.ppos, lbuf);
      var maxbytes := Int32(MAX_LENGTH - file.ppos);
      var bytesToDo := if Uint64(maxbytes) > lbuf then Int32(lbuf) else maxbytes;
      if bytesToDo == 0 {
        return -ENOSPC, [];
      }
      out := buf[file.ppos..file.ppos + copied];
      var nbytes := bytesToDo - (bytesToDo - copied);
      file.ppos := file.ppos + nbytes;
      ret := nbytes;
    }

    method CharDevWrite(file: OpenFile, data: seq<Byte>, copied: nat, junk: seq<Byte>) returns (ret: int)
      requires buf.Length == MAX_LENGTH && Possible(file.ppos, Write(data, copied, junk))
      modifies file, buf
      ensures Effect(buf[..], file.ppos, ret, [])
              == CallEffect(old(buf[..]), old(file.ppos), Write(data, copied, junk))
      ensures copied + |junk| == if |data| < 4000 - old(file.ppos) then |data| else 4000 - old(file.ppos)
      ensures if old(file.ppos) == 4000 || data == [] then ret == -28 && file.ppos == old(file.ppos)
              else ret == copied && file.ppos == old(file.ppos) + copied
      ensures buf[..] == old(buf[..])[..old(file.ppos)] + data[..copied] + junk
                         + old(buf[..])[old(file.ppos) + copied + |junk|..]
    {
      CallFrame(buf[..], file.ppos, Write(data, copied, junk));
      BytesToDoExact(file.ppos, |data|);
      var maxbytes := Int32(MAX_LENGTH - file.ppos);
      var bytesToDo := if Uint64(maxbytes) > |data| then Int32(|data|) else maxbytes;
      if bytesToDo == 0 {
        return -ENOSPC;
      }
      StoreBytes(buf, file.ppos, data[..copied] + junk);
      var nbytes := bytesToDo - (bytesToDo - copied);
      file.ppos := file.ppos + nbytes;
      ret := nbytes;
    }
  }

  // ----- Runs over several open files -----------------------------------------------------

  datatype State = State(buf: seq<Byte>, pos: seq<int>)

  datatype Event = Event(f: nat, call: Call)

  predicate Ok(s: State) {
    |s.buf| == MAX_LENGTH && forall f :: 0 <= f < |s.pos| ==> 0 <= s.pos[f] <= MAX_LENGTH
  }

  predicate Allowed(s: State, e: Event) { e.f < |s.pos| && Possible(s.pos[e.f], e.call) }

  function EffectOf(s: State, e: Event): (r: Effect)
    requires Ok(s) && Allowed(s, e)
    ensures |r.buf| == MAX_LENGTH && 0 <= r.ppos <= MAX_LENGTH
  {
    CallEffect(s.buf, s.pos[e.f], e.call)
  }

  function Next(s: State, e: Event): (r: State)
    requires Ok(s) && Allowed(s, e)
    ensures Ok(r) && |r.pos| == |s.pos|
  {
    State(EffectOf(s, e).buf, s.pos[e.f := EffectOf(s, e).ppos])
  }

  /** The states a run goes through: `states[i]` is the state before event `i`. */
  ghost predicate IsRun(states: seq<State>, evs: seq<Event>) {
    && |states| == |evs| + 1 && Ok(states[0])
    && forall i :: 0 <= i < |evs| ==>
         Ok(states[i]) && Allowed(states[i], evs[i]) && states[i + 1] == Next(states[i], evs[i])
  }

  lemma {:induction false} RunOk(states: seq<State>, evs: seq<Event>, n: nat)
    requires IsRun(states, evs) && n <= |evs|
    ensures Ok(states[n]) && |states[n].pos| == |states[0].pos|
  {
    if n > 0 {
      RunOk(states, evs, n - 1);
      assert states[n - 1 + 1] == Next(states[n - 1], evs[n - 1]);
    }
  }

  // ----- Position conservation ------------------------------------------------------------

  /** The non-negative counts returned on file `f` by the first `n` calls, added up. */
  ghost function Returned(states: seq<State>, evs: seq<Event>, f: nat, n: nat): int
    requires IsRun(states, evs) && n <= |evs|
  {
    if n == 0 then 0
    else
      var ret := EffectOf(states[n - 1], evs[n - 1]).ret;
      Returned(states, evs, f, n - 1) + if evs[n - 1].f == f && ret >= 0 then ret else 0
  }

  /** The calls on `f` among the first `n` that made progress. */
  ghost function ProgressCalls(states: seq<State>, evs: seq<Event>, f: nat, n: nat): nat
    requires IsRun(states, evs) && n <= |evs|
  {
    if n == 0 then 0
    else
      var ret := EffectOf(states[n - 1], evs[n - 1]).ret;
      ProgressCalls(states, evs, f, n - 1) + if evs[n - 1].f == f && ret > 0 then 1 else 0
  }

  /** On every run each open file's position is its start plus all that was returned on it, never
      leaves the device, and bounds the number of calls that can make progress. */
  lemma {:induction false} PositionConserved(states: seq<State>, evs: seq<Event>, f: nat, n: nat)
    requires IsRun(states, evs) && n <= |evs| && f < |states[0].pos|
    ensures |states[n].pos| == |states[0].pos|
    ensures states[n].pos[f] == states[0].pos[f] + Returned(states, evs, f, n)
    ensures 0 <= states[n].pos[f] <= MAX_LENGTH
    ensures ProgressCalls(states, evs, f, n) <= states[n].pos[f] - states[0].pos[f] <= MAX_LENGTH - states[0].pos[f]
  {
    RunOk(states, evs, n);
    if n > 0 {
      PositionConserved(states, evs, f, n - 1);
      assert states[n - 1 + 1] == Next(states[n - 1], evs[n - 1]);
    }
  }

  /** A call reports a full device exactly at position 4000 or for a zero length; then it changes nothing. */
  lemma FullDeviceIff(s: State, e: Event)
    requires Ok(s) && Allowed(s, e)
    ensures EffectOf(s, e).ret == -28 <==> s.pos[e.f] == 4000 || e.call.Lbuf() == 0
    ensures EffectOf(s, e).ret < 0 ==> Next(s, e) == s
    ensures EffectOf(s, e).ret >= 0 ==> EffectOf(s, e).ret == e.call.copied
  {
    BytesToDoExact(s.pos[e.f], e.call.Lbuf());
  }

  // ----- What stays and who wrote last ----------------------------------------------------

  /** The bytes a call leaves alone: all of them for a read and a failing call; for a write all but its
      window, which starts at the position and is as long as the data, or reaches the end of the device. */
  lemma CallFrame(buf: seq<Byte>, ppos: int, call: Call)
    requires |buf| == MAX_LENGTH && Possible(ppos, call)
    ensures var r := CallEffect(buf, ppos, call).buf;
            match call
            case Read(_, _) => r == buf
            case Write(data, copied, junk) =>
              var n := if |data| < 4000 - ppos then |data| else 4000 - ppos;
              && |r| == 4000 && ppos + n <= 4000 && copied + |junk| == n
              && r == buf[..ppos] + data[..copied] + junk + buf[ppos + n..]
  {
    BytesToDoExact(ppos, call.Lbuf());
    if call.Write? {
      assert buf == buf[..ppos] + buf[ppos..];
    }
  }

  /** A write whose window covers device byte `at`. */
  predicate Covers(s: State, e: Event, at: nat) {
    e.call.Write? && e.f < |s.pos| && s.pos[e.f] <= at < 4000 && at < s.pos[e.f] + |e.call.data|
  }

  /** What such a write leaves at `at`: its data as far as that was copied, and then what the fault left. */
  function Stored(s: State, e: Event, at: nat): Byte
    requires Ok(s) && Allowed(s, e) && Covers(s, e, at)
  {
    BytesToDoExact(s.pos[e.f], |e.call.data|);
    var i := at - s.pos[e.f];
    if i < e.call.copied then e.call.data[i] else e.call.junk[i - e.call.copied]
  }

  lemma StepOnByte(s: State, e: Event, at: nat)
    requires Ok(s) && Allowed(s, e) && at < MAX_LENGTH
    ensures Next(s, e).buf[at] == if Covers(s, e, at) then Stored(s, e, at) else s.buf[at]
  {
    hide BytesToDo, CallEffect, Splice;
    BytesToDoExact(s.pos[e.f], e.call.Lbuf());
    CallFrame(s.buf, s.pos[e.f], e.call);
  }

  lemma RunStep(states: seq<State>, evs: seq<Event>, n: nat)
    requires IsRun(states, evs) && n < |evs|
    ensures |states| == |evs| + 1 && Ok(states[n]) && Allowed(states[n], evs[n])
    ensures states[n + 1] == Next(states[n], evs[n]) && |states[n].buf| == |states[n + 1].buf| == 4000
  {
  }

  lemma RunStart(states: seq<State>, evs: seq<Event>)
    requires IsRun(states, evs)
    ensures |states| == |evs| + 1 && |states[0].buf| == 4000
  {
  }

  /** On every run over any open files, whichever of them write: a device byte is the one stored by the last
      write whose window covered it, or the initial byte if there was none. */
  lemma {:induction false} LastWriteDecides(states: seq<State>, evs: seq<Event>, n: nat, at: nat) returns (k: int)
    requires IsRun(states, evs) && n <= |evs| && at < 4000
    ensures -1 <= k < n && |states[n].buf| == 4000 && |states[0].buf| == 4000
    ensures k >= 0 ==> Ok(states[k]) && Allowed(states[k], evs[k]) && Covers(states[k], evs[k], at)
                       && states[n].buf[at] == Stored(states[k], evs[k], at)
    ensures k < 0 ==> states[n].buf[at] == states[0].buf[at]
    ensures forall j :: k < j < n ==> !Covers(states[j], evs[j], at)
  {
    hide IsRun, Ok, Allowed, Covers, Stored, Next;
    RunStart(states, evs);
    if n == 0 {
      k := -1;
    } else {
      RunStep(states, evs, n - 1);
      StepOnByte(states[n - 1], evs[n - 1], at);
      if Covers(states[n - 1], evs[n - 1], at) {
        k := n - 1;
      } else {
        k := LastWriteDecides(states, evs, n - 1, at);
      }
    }
  }

  // ----- Chunked round trip ---------------------------------------------------------------

  /** Only file `f` writes, and each of its writes offers a chunk of `stream` from where the counts
      returned so far have brought it. */
  ghost predicate Streams(states: seq<State>, evs: seq<Event>, f: nat, stream: seq<Byte>)
    requires IsRun(states, evs) && f < |states[0].pos|
  {
    forall i :: 0 <= i < |evs| && evs[i].call.Write? ==>
      && evs[i].f == f
      && Returned(states, evs, f, i) + |evs[i].call.data| <= |stream|
      && 0 <= Returned(states, evs, f, i)
      && evs[i].call.data == stream[Returned(states, evs, f, i)..Returned(states, evs, f, i) + |evs[i].call.data|]
  }

  /** A position that no read of the writing file has moved. */
  ghost predicate NoReadsOn(evs: seq<Event>, f: nat) {
    forall i :: 0 <= i < |evs| && evs[i].f == f ==> evs[i].call.Write?
  }

  lemma {:induction false} WritesStorePrefix(states: seq<State>, evs: seq<Event>, f: nat, stream: seq<Byte>, n: nat)
    requires IsRun(states, evs) && n <= |evs| && f < |states[0].pos| && states[0].pos[f] == 0
    requires Streams(states, evs, f, stream) && NoReadsOn(evs, f)
    ensures |states[n].pos| == |states[0].pos| && Ok(states[n])
    ensures 0 <= states[n].pos[f] <= |stream|
    ensures states[n].buf[..states[n].pos[f]] == stream[..states[n].pos[f]]
  {
    hide BytesToDo, Splice;
    RunOk(states, evs, n);
    if n > 0 {
      WritesStorePrefix(states, evs, f, stream, n - 1);
      PositionConserved(states, evs, f, n - 1);
      var s, e := states[n - 1], evs[n - 1];
      assert states[n - 1 + 1] == Next(s, e);
      if e.call.Write? {
        hide CallEffect;
        WriteExtends(s.buf, s.pos[f], e.call, stream);
      }
    }
  }

  lemma WriteExtends(buf: seq<Byte>, ppos: int, call: Call, stream: seq<Byte>)
    requires |buf| == MAX_LENGTH && Possible(ppos, call) && call.Write?
    requires ppos + |call.data| <= |stream| && call.data == stream[ppos..ppos + |call.data|]
    requires buf[..ppos] == stream[..ppos]
    ensures var r := CallEffect(buf, ppos, call);
            r.ppos <= |stream| && r.buf[..r.ppos] == stream[..r.ppos]
  {
    BytesToDoExact(ppos, |call.data|);
    var r := CallEffect(buf, ppos, call);
    if BytesToDo(ppos, |call.data|) != 0 {
      assert stream[..r.ppos] == stream[..ppos] + call.data[..call.copied];
      assert r.buf[..r.ppos] == buf[..ppos] + call.data[..call.copied];
    }
  }

  /** Everything file `g` has got, in order. */
  ghost function Got(states: seq<State>, evs: seq<Event>, g: nat, n: nat): seq<Byte>
    requires IsRun(states, evs) && n <= |evs|
  {
    if n == 0 then []
    else Got(states, evs, g, n - 1)
         + if evs[n - 1].f == g then EffectOf(states[n - 1], evs[n - 1]).out else []
  }

  lemma ReadStep(s: State, e: Event)
    requires Ok(s) && Allowed(s, e) && e.call.Read?
    ensures var r := Next(s, e);
            && r.buf == s.buf && 0 <= s.pos[e.f] <= r.pos[e.f] <= MAX_LENGTH
            && (forall f :: 0 <= f < |s.pos| && f != e.f ==> r.pos[f] == s.pos[f])
            && EffectOf(s, e).out == s.buf[s.pos[e.f]..r.pos[e.f]]
  {
    hide BytesToDo;
    BytesToDoExact(s.pos[e.f], e.call.Lbuf());
  }

  /** Without writes, a fresh file gets the device's bytes in order, whatever the chunk sizes. */
  lemma {:induction false} ReadsRecover(states: seq<State>, evs: seq<Event>, g: nat, n: nat)
    requires IsRun(states, evs) && n <= |evs| && g < |states[0].pos| && states[0].pos[g] == 0
    requires forall i :: 0 <= i < |evs| ==> evs[i].call.Read?
    ensures |states[n].pos| == |states[0].pos| && Ok(states[n]) && states[n].buf == states[0].buf
    ensures Got(states, evs, g, n) == states[0].buf[..states[n].pos[g]]
  {
    hide Next, EffectOf, CallEffect, BytesToDo;
    RunOk(states, evs, n);
    if n > 0 {
      ReadsRecover(states, evs, g, n - 1);
      assert states[n - 1 + 1] == Next(states[n - 1], evs[n - 1]);
      ReadStep(states[n - 1], evs[n - 1]);
      Appended(states[0].buf, states[n - 1].pos[g], states[n].pos[g]);
    }
  }

  lemma Appended(buf: seq<Byte>, p: nat, q: nat)
    requires p <= q <= |buf|
    ensures buf[..p] + buf[p..q] == buf[..q] && buf[..p] + [] == buf[..p]
  {
  }

  lemma {:induction false} PositionGrows(states: seq<State>, evs: seq<Event>, f: nat, i: nat, n: nat)
    requires IsRun(states, evs) && i <= n <= |evs| && f < |states[0].pos|
    ensures |states[i].pos| == |states[n].pos| == |states[0].pos|
    ensures states[i].pos[f] <= states[n].pos[f] <= MAX_LENGTH
  {
    RunOk(states, evs, n);
    if i < n {
      PositionGrows(states, evs, f, i, n - 1);
      assert states[n - 1 + 1] == Next(states[n - 1], evs[n - 1]);
    }
  }

  /** Some call on `f` with a nonzero length has been told that the device is full. */
  ghost predicate EndReported(states: seq<State>, evs: seq<Event>, f: nat)
    requires IsRun(states, evs)
  {
    exists i :: 0 <= i < |evs| && evs[i].f == f && evs[i].call.Lbuf() > 0
                && EffectOf(states[i], evs[i]).ret == -ENOSPC
  }

  lemma EndReportedAtEnd(states: seq<State>, evs: seq<Event>, f: nat)
    requires IsRun(states, evs) && f < |states[0].pos| && EndReported(states, evs, f)
    ensures |states[|evs|].pos| == |states[0].pos| && states[|evs|].pos[f] == MAX_LENGTH
  {
    hide BytesToDo;
    var i :| 0 <= i < |evs| && evs[i].f == f && evs[i].call.Lbuf() > 0
             && EffectOf(states[i], evs[i]).ret == -ENOSPC;
    FullDeviceIff(states[i], evs[i]);
    PositionGrows(states, evs, f, i, |evs|);
  }

  /** Chunking-independent round trip: whatever the chunks, faults and resumptions on the writing side
      and the chunks and partial copies on the reading side, a second file's bytes agree with the
      stream as far as both have got. A writer that has nothing left, or has been told that the device
      is full, has stored the stream truncated at 4000; a reader told so has got the whole device. */
  lemma RoundTrip(wstates: seq<State>, ws: seq<Event>, rstates: seq<State>, rs: seq<Event>,
                  f: nat, g: nat, stream: seq<Byte>)
    requires IsRun(wstates, ws) && f < |wstates[0].pos| && wstates[0].pos[f] == 0
    requires Streams(wstates, ws, f, stream) && NoReadsOn(ws, f)
    requires IsRun(rstates, rs) && rstates[0] == wstates[|ws|]
    requires g < |rstates[0].pos| && rstates[0].pos[g] == 0
    requires forall i :: 0 <= i < |rs| ==> rs[i].call.Read?
    ensures f < |wstates[|ws|].pos| && g < |rstates[|rs|].pos|
    ensures var sent, got := wstates[|ws|].pos[f], Got(rstates, rs, g, |rs|);
            && 0 <= sent <= MAX_LENGTH && sent <= |stream|
            && |got| == rstates[|rs|].pos[g]
            && (if |got| <= sent then got == stream[..|got|] else got[..sent] == stream[..sent])
            && (sent == |stream| || EndReported(wstates, ws, f) ==>
                  sent == if |stream| < MAX_LENGTH then |stream| else MAX_LENGTH)
            && (EndReported(rstates, rs, g) ==> |got| == MAX_LENGTH && got == wstates[|ws|].buf)
  {
    hide EndReported, Streams, NoReadsOn, Got;
    WritesStorePrefix(wstates, ws, f, stream, |ws|);
    ReadsRecover(rstates, rs, g, |rs|);
    var s := wstates[|ws|];
    var sent, got := s.pos[f], Got(rstates, rs, g, |rs|);
    if |got| <= sent {
      assert got == s.buf[..sent][..|got|];
    } else {
      assert got[..sent] == s.buf[..sent];
    }
    if EndReported(wstates, ws, f) {
      EndReportedAtEnd(wstates, ws, f);
    }
    if EndReported(rstates, rs, g) {
      EndReportedAtEnd(rstates, rs, g);
    }
  }
}
