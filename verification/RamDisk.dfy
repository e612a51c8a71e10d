/** The RAM block device: request model, byte-level meaning of a request, and the driver itself. */
module RamDisk {
  import opened Bytes
  import opened CInt

  const SECTOR := 512
  const EIO := 5
  const ENOMEM := 12

  // ----- Requests -------------------------------------------------------------------------

  datatype Direction = Read | Write

  /** One segment of a bio: `len` bytes of host memory from `addr` on. */
  datatype Segment = Segment(addr: nat, len: nat)

  /** A block-layer request. `dataLen` is the byte count still to be transferred. */
  datatype Request = Request(isFs: bool, dir: Direction, pos: nat, dataLen: nat,
                             bios: seq<seq<Segment>>, errors: int) {
    function Segments(): seq<Segment> { Flatten(bios) }
    function Sectors(): nat { dataLen / SECTOR }
  }

  function Flatten(bios: seq<seq<Segment>>): seq<Segment> {
    if bios == [] then [] else Flatten(bios[..|bios| - 1]) + bios[|bios| - 1]
  }

  function Total(segs: seq<Segment>): nat {
    if segs == [] then 0 else Total(segs[..|segs| - 1]) + segs[|segs| - 1].len
  }

  predicate InMemory(segs: seq<Segment>, size: nat) {
    forall i :: 0 <= i < |segs| ==> segs[i].addr + segs[i].len <= size
  }

  predicate Disjoint(s: Segment, t: Segment) {
    s.addr + s.len <= t.addr || t.addr + t.len <= s.addr
  }

  predicate PairwiseDisjoint(segs: seq<Segment>) {
    forall i, j :: 0 <= i < j < |segs| ==> Disjoint(segs[i], segs[j])
  }

  predicate Covers(segs: seq<Segment>, a: int) {
    exists i :: 0 <= i < |segs| && segs[i].addr <= a < segs[i].addr + segs[i].len
  }

  // ----- Geometry -------------------------------------------------------------------------

  /** The module parameters. Both products `sbd_init` forms are `int` products, which wrap. */
  datatype Geometry = Geometry(nsectors: int, hardsect: int) {
    /** The byte count asked of vmalloc. */
    function Size(): int { Int32(nsectors * hardsect) }

    /** The capacity given to the block layer, in 512-byte sectors. */
    function Advertised(): nat
      requires hardsect > 0
    {
      Uint64(Int32(nsectors * (hardsect / SECTOR)))
    }

    /** Positive `int` parameters for which memory can be had. */
    predicate Possible() { 0 < nsectors <= INT_MAX && 0 < hardsect <= INT_MAX && Size() > 0 }

    /** Those with which no request the block layer submits makes the driver leave its memory: there is
        nothing to submit, or no sign is lost in the capacity and `nsectors` sectors fit. */
    predicate Good() {
      Possible() && (Advertised() == 0 || (Advertised() <= INT_MAX && nsectors * SECTOR <= Size()))
    }
  }

  /** What the block layer guarantees of a filesystem request it queues. */
  predicate Submitted(g: Geometry, memSize: nat, req: Request)
    requires g.Possible()
  {
    req.isFs ==>
      && req.pos < g.Advertised()
      && req.dataLen < TWO_TO_32
      && req.dataLen % SECTOR == 0
      && Total(req.Segments()) == req.dataLen
      && InMemory(req.Segments(), memSize)
  }

  predicate AllSubmitted(g: Geometry, memSize: nat, reqs: seq<Request>)
    requires g.Possible()
  {
    forall i :: 0 <= i < |reqs| ==> Submitted(g, memSize, reqs[i])
  }

  // ----- The driver's own arithmetic ------------------------------------------------------

  /** The range check, in 32-bit signed arithmetic. */
  predicate PassesCheck(nsectors: int, req: Request) {
    var sector := Int32(req.pos);
    var maxSectors := Int32(req.Sectors());
    !(sector > nsectors || Int32(sector + maxSectors) > nsectors)
  }

  /** The byte offset of the first sector, in 32-bit signed arithmetic. */
  function ByteOffset(req: Request): int { Int32(Int32(req.pos) * SECTOR) }

  /** The byte count handed back at the end of a transfer: an `unsigned int` shifted left. */
  function RetireArgument(req: Request): nat { Uint32(req.dataLen * SECTOR) }

  lemma TimesAtMost(n: int, a: int, b: int)
    requires n > 0 && a <= b
    ensures n * a <= n * b
  {
    assert n * b == n * a + n * (b - a);
  }

  lemma TimesAssociative(n: int, q: int)
    ensures n * (q * SECTOR) == n * q * SECTOR
  {
  }

  /** Without overflow of the product of the parameters all is as meant. */
  lemma NoOverflowIsGood(g: Geometry)
    requires g.nsectors > 0 && g.hardsect > 0 && g.nsectors * g.hardsect <= INT_MAX
    ensures g.Good() && g.Size() == g.nsectors * g.hardsect
    ensures g.Advertised() == g.nsectors * (g.hardsect / SECTOR) && g.Advertised() * SECTOR <= g.Size()
  {
    var n, h := g.nsectors, g.hardsect;
    var q := h / SECTOR;
    TimesAtMost(n, 1, h);
    TimesAtMost(h, 1, n);
    TimesAtMost(n, 0, q);
    TimesAtMost(n, q * SECTOR, h);
    TimesAssociative(n, q);
    if q > 0 {
      TimesAtMost(n, SECTOR, h);
    }
    ProductsFit(g, n * h, n * q);
  }

  lemma ProductsFit(g: Geometry, size: int, capacity: int)
    requires g.nsectors > 0 && g.hardsect > 0 && size == g.nsectors * g.hardsect
    requires capacity == g.nsectors * (g.hardsect / SECTOR)
    requires g.nsectors <= size <= INT_MAX && g.hardsect <= size && 0 <= capacity && capacity * SECTOR <= size
    requires g.hardsect / SECTOR == 0 ==> capacity == 0
    requires g.hardsect / SECTOR > 0 ==> g.nsectors * SECTOR <= size
    ensures g.Good() && g.Size() == size && g.Advertised() == capacity
  {
  }

  /** No 32-bit overflow for a submitted request: the driver's check is the true one, what passes it
      has its true byte offset, and lies inside the allocated bytes. */
  lemma ArithmeticIsExact(g: Geometry, memSize: nat, req: Request)
    requires g.Good() && req.isFs && Submitted(g, memSize, req)
    ensures Int32(req.pos) == req.pos
    ensures PassesCheck(g.nsectors, req) <==> req.pos + req.Sectors() <= g.nsectors
    ensures PassesCheck(g.nsectors, req) ==>
      && Int32(req.pos + req.Sectors()) == req.pos + req.Sectors() && ByteOffset(req) == req.pos * SECTOR
      && req.pos * SECTOR + req.dataLen <= g.Size()
    ensures g.nsectors * g.hardsect <= INT_MAX ==>
      Int32(req.pos + req.Sectors()) == req.pos + req.Sectors() && ByteOffset(req) == req.pos * SECTOR
  {
    if g.nsectors * g.hardsect <= INT_MAX {
      NoOverflowIsGood(g);
    }
    hide Geometry.Size, Geometry.Advertised, Submitted;
    SubmittedBounds(g, memSize, req);
  }

  lemma SubmittedBounds(g: Geometry, memSize: nat, req: Request)
    requires g.Good() && req.isFs && Submitted(g, memSize, req)
    ensures 0 <= req.pos < g.Advertised() <= INT_MAX && g.nsectors * SECTOR <= g.Size() <= INT_MAX
    ensures req.Sectors() < TWO_TO_32 / SECTOR && req.Sectors() * SECTOR == req.dataLen
  {
  }

  // ----- Meaning of a request on bytes ----------------------------------------------------

  datatype Store = Store(disk: seq<Byte>, mem: seq<Byte>)

  /** The bytes of the segments, one after the other. */
  function Gather(mem: seq<Byte>, segs: seq<Segment>): (r: seq<Byte>)
    requires InMemory(segs, |mem|)
    ensures |r| == Total(segs)
  {
    if segs == [] then []
    else
      var last := segs[|segs| - 1];
      Gather(mem, segs[..|segs| - 1]) + mem[last.addr..last.addr + last.len]
  }

  /** Memory after the segments have been filled, in order, from the disk bytes at `base`. */
  function Scatter(mem: seq<Byte>, segs: seq<Segment>, disk: seq<Byte>, base: nat): (r: seq<Byte>)
    requires InMemory(segs, |mem|) && base + Total(segs) <= |disk|
    ensures |r| == |mem|
  {
    if segs == [] then mem
    else
      var init := segs[..|segs| - 1];
      Splice(Scatter(mem, init, disk, base), segs[|segs| - 1].addr, disk[base + Total(init)..base + Total(segs)])
  }

  /** A transfer at byte offset `base`: a range update of the disk, or a range lookup into memory. */
  function Transfer(dir: Direction, st: Store, base: nat, segs: seq<Segment>): (r: Store)
    requires InMemory(segs, |st.mem|) && base + Total(segs) <= |st.disk|
    ensures |r.disk| == |st.disk| && |r.mem| == |st.mem|
  {
    match dir
    case Write => Store(Splice(st.disk, base, Gather(st.mem, segs)), st.mem)
    case Read => Store(st.disk, Scatter(st.mem, segs, st.disk, base))
  }

  function Exec(g: Geometry, st: Store, req: Request): (r: Store)
    requires g.Good() && |st.disk| == g.Size() && Submitted(g, |st.mem|, req)
    ensures |r.disk| == |st.disk| && |r.mem| == |st.mem|
  {
    if !req.isFs || !PassesCheck(g.nsectors, req) then st
    else
      ArithmeticIsExact(g, |st.mem|, req);
      Transfer(req.dir, st, ByteOffset(req), req.Segments())
  }

  function Drain(g: Geometry, st: Store, reqs: seq<Request>): (r: Store)
    requires g.Good() && |st.disk| == g.Size() && AllSubmitted(g, |st.mem|, reqs)
    ensures |r.disk| == |st.disk| && |r.mem| == |st.mem|
  {
    if reqs == [] then st
    else Exec(g, Drain(g, st, reqs[..|reqs| - 1]), reqs[|reqs| - 1])
  }

  /** How a request was handed back: error code and bytes retired. */
  datatype Ended = Ended(req: Request, error: int, retired: nat)

  function EndOf(g: Geometry, req: Request): Ended {
    if !req.isFs || !PassesCheck(g.nsectors, req) then Ended(req, 0, 0)
    else Ended(req, if req.errors != 0 then -EIO else 0, Min(RetireArgument(req), req.dataLen))
  }

  function Min(a: nat, b: nat): nat { if a < b then a else b }

  function EndsOf(g: Geometry, reqs: seq<Request>): seq<Ended> {
    seq(|reqs|, i requires 0 <= i < |reqs| => EndOf(g, reqs[i]))
  }

  // ----- Stepping through segments --------------------------------------------------------

  lemma TotalPrefix(segs: seq<Segment>, k: nat)
    requires k <= |segs|
    ensures Total(segs[..k]) <= Total(segs)
    decreases |segs|
  {
    if k < |segs| {
      TotalPrefix(segs[..|segs| - 1], k);
      assert segs[..|segs| - 1][..k] == segs[..k];
    } else {
      assert segs[..k] == segs;
    }
  }

  lemma FlattenPrefix(bios: seq<seq<Segment>>, b: nat, s: nat)
    requires b < |bios| && s <= |bios[b]|
    ensures Flatten(bios[..b]) + bios[b][..s] <= Flatten(bios)
    decreases |bios|
  {
    var init := bios[..|bios| - 1];
    if b < |init| {
      FlattenPrefix(init, b, s);
      assert init[..b] == bios[..b];
    }
  }

  lemma TransferNothing(dir: Direction, t: Store, at: nat)
    requires at <= |t.disk|
    ensures Transfer(dir, t, at, []) == t
  {
  }

  /** One memcpy between the disk at `addr` and the segment `x`. */
  function CopyOne(dir: Direction, t: Store, addr: nat, x: Segment): Store
    requires InMemory([x], |t.mem|) && addr + x.len <= |t.disk|
  {
    assert [x][0] == x;
    match dir
    case Write => t.(disk := Splice(t.disk, addr, t.mem[x.addr..x.addr + x.len]))
    case Read => t.(mem := Splice(t.mem, x.addr, t.disk[addr..addr + x.len]))
  }

  lemma InMemoryAppend(xs: seq<Segment>, ys: seq<Segment>, size: nat)
    ensures InMemory(xs + ys, size) <==> InMemory(xs, size) && InMemory(ys, size)
  {
    if InMemory(xs + ys, size) {
      assert forall i :: 0 <= i < |xs| ==> (xs + ys)[i] == xs[i];
      assert forall i :: 0 <= i < |ys| ==> (xs + ys)[|xs| + i] == ys[i];
    }
  }

  lemma TotalLast(segs: seq<Segment>, x: Segment)
    ensures Total(segs + [x]) == Total(segs) + x.len
  {
    assert (segs + [x])[..|segs|] == segs;
  }

  lemma GatherLast(mem: seq<Byte>, segs: seq<Segment>, x: Segment)
    requires InMemory(segs, |mem|) && InMemory(segs + [x], |mem|) && x.addr + x.len <= |mem|
    ensures Gather(mem, segs + [x]) == Gather(mem, segs) + mem[x.addr..x.addr + x.len]
  {
    hide InMemory, Total;
    assert (segs + [x])[..|segs|] == segs && (segs + [x])[|segs|] == x;
  }

  lemma ScatterLast(mem: seq<Byte>, segs: seq<Segment>, x: Segment, disk: seq<Byte>, base: nat)
    requires InMemory(segs, |mem|) && InMemory(segs + [x], |mem|) && x.addr + x.len <= |mem|
    requires Total(segs + [x]) == Total(segs) + x.len && base + Total(segs) + x.len <= |disk|
    ensures Scatter(mem, segs + [x], disk, base)
            == Splice(Scatter(mem, segs, disk, base), x.addr, disk[base + Total(segs)..base + Total(segs) + x.len])
  {
    hide Splice, InMemory, Total;
    assert (segs + [x])[..|segs|] == segs && (segs + [x])[|segs|] == x;
  }

  /** Copying one more segment extends a transfer by that segment. */
  lemma TransferExtend(dir: Direction, st: Store, base: nat, segs: seq<Segment>, x: Segment)
    requires InMemory(segs + [x], |st.mem|) && base + Total(segs) + x.len <= |st.disk|
    ensures InMemory(segs, |st.mem|) && InMemory([x], |st.mem|) && Total(segs + [x]) == Total(segs) + x.len
    ensures Transfer(dir, st, base, segs + [x])
            == CopyOne(dir, Transfer(dir, st, base, segs), base + Total(segs), x)
  {
    hide Gather, Scatter, Splice, Total;
    InMemoryAppend(segs, [x], |st.mem|);
    TotalLast(segs, x);
    assert [x][0] == x;
    match dir
    case Write =>
      GatherLast(st.mem, segs, x);
      SpliceAppend(st.disk, base, Gather(st.mem, segs), st.mem[x.addr..x.addr + x.len]);
    case Read =>
      ScatterLast(st.mem, segs, x, st.disk, base);
  }

  lemma SeenNothing(bios: seq<seq<Segment>>, size: nat)
    ensures Flatten(bios[..0]) == [] && Total([]) == 0 && InMemory([], size)
  {
  }

  /** Inside the walk: the segments seen so far, and one more. */
  lemma NextSegment(bios: seq<seq<Segment>>, b: nat, s: nat, size: nat)
    requires b < |bios| && s < |bios[b]| && InMemory(Flatten(bios), size)
    ensures var seen := Flatten(bios[..b]) + bios[b][..s];
            var next := Flatten(bios[..b]) + bios[b][..s + 1];
            && next == seen + [bios[b][s]]
            && InMemory(seen, size) && InMemory(next, size)
            && Total(next) == Total(seen) + bios[b][s].len
            && Total(next) <= Total(Flatten(bios))
  {
    var segs := Flatten(bios);
    var seen := Flatten(bios[..b]) + bios[b][..s];
    var next := Flatten(bios[..b]) + bios[b][..s + 1];
    assert next == seen + [bios[b][s]];
    FlattenPrefix(bios, b, s + 1);
    assert segs[..|next|] == next && next[..|seen|] == seen;
    TotalPrefix(segs, |next|);
    InMemoryAppend(next, segs[|next|..], size);
    assert segs == next + segs[|next|..];
    InMemoryAppend(seen, [bios[b][s]], size);
  }

  lemma BioDone(bios: seq<seq<Segment>>, b: nat)
    requires b < |bios|
    ensures Flatten(bios[..b + 1]) == Flatten(bios[..b]) + bios[b][..|bios[b]|]
  {
    assert bios[..b + 1][..b] == bios[..b] && bios[b][..|bios[b]|] == bios[b];
  }

  // ----- Stepping through a queue ---------------------------------------------------------

  lemma QueueStart(g: Geometry, st: Store, all: seq<Request>)
    requires g.Good() && |st.disk| == g.Size()
    ensures all[..0] == [] && AllSubmitted(g, |st.mem|, []) && Drain(g, st, []) == st && EndsOf(g, []) == []
  {
  }

  lemma QueueStep(g: Geometry, st: Store, all: seq<Request>, k: nat)
    requires g.Good() && |st.disk| == g.Size() && AllSubmitted(g, |st.mem|, all) && k < |all|
    ensures Submitted(g, |st.mem|, all[k]) && AllSubmitted(g, |st.mem|, all[..k + 1])
    ensures Drain(g, st, all[..k + 1]) == Exec(g, Drain(g, st, all[..k]), all[k])
    ensures EndsOf(g, all[..k + 1]) == EndsOf(g, all[..k]) + [EndOf(g, all[k])]
    ensures !all[k].isFs ==> Exec(g, Drain(g, st, all[..k]), all[k]) == Drain(g, st, all[..k])
    ensures !all[k].isFs ==> EndOf(g, all[k]) == Ended(all[k], 0, 0)
  {
    assert all[..k + 1][..k] == all[..k];
    assert EndsOf(g, all[..k + 1]) == EndsOf(g, all[..k]) + [EndOf(g, all[k])];
  }

  /** What is left of a queue after one more fetch. */
  lemma FetchStep(all: seq<Request>, k: nat)
    requires k < |all|
    ensures all[k + 1..] == [] <==> k + 1 == |all|
    ensures all[k + 1..] != [] ==> all[k + 1..][0] == all[k + 1] && all[k + 1..][1..] == all[k + 2..]
  {
  }

  lemma EndsAppend(before: seq<Ended>, ends: seq<Ended>, e: Ended)
    ensures before + ends + [e] == before + (ends + [e])
  {
  }

  // ----- The driver -----------------------------------------------------------------------

  datatype Option<T> = None | Some(value: T)

  /** The block layer's queue as the driver sees it: requests to fetch, requests handed back. */
  class RequestQueue {
    var pending: seq<Request>
    var ended: seq<Ended>

    constructor (reqs: seq<Request>)
      ensures pending == reqs && ended == []
    {
      pending, ended := reqs, [];
    }

    method Fetch() returns (r: Option<Request>)
      modifies this`pending
      ensures r == if old(pending) == [] then None else Some(old(pending)[0])
      ensures pending == if old(pending) == [] then [] else old(pending)[1..]
    {
      if pending == [] {
        return None;
      }
      r := Some(pending[0]);
      pending := pending[1..];
    }

    method EndRequest(req: Request, error: int, nbytes: nat)
      modifies this`ended
      ensures ended == old(ended) + [Ended(req, error, Min(nbytes, req.dataLen))]
    {
      ended := ended + [Ended(req, error, Min(nbytes, req.dataLen))];
    }
  }

  class SbdDevice {
    const geometry: Geometry
    const data: array<Byte>

    ghost predicate Valid() {
      geometry.Good() && data.Length == geometry.Size()
    }

    constructor (g: Geometry)
      requires g.Size() > 0
      ensures geometry == g && fresh(data) && data.Length == g.Size()
      ensures forall i :: 0 <= i < data.Length ==> data[i] == 0
    {
      geometry := g;
      data := new Byte[g.Size()](_ => 0);
    }

    /** One pass of the inner loop: the segment is copied and the transfer grows by it. */
    method CopySegment(dir: Direction, addr: nat, seg: Segment, mem: array<Byte>,
                       ghost st: Store, ghost base: nat, ghost seen: seq<Segment>)
      requires mem != data && |st.disk| == data.Length && |st.mem| == mem.Length
      requires InMemory(seen + [seg], mem.Length)
      requires InMemory(seen, mem.Length) && addr == base + Total(seen) && addr + seg.len <= data.Length
      requires Store(data[..], mem[..]) == Transfer(dir, st, base, seen)
      modifies data, mem
      ensures Total(seen + [seg]) == Total(seen) + seg.len
      ensures Store(data[..], mem[..]) == Transfer(dir, st, base, seen + [seg])
    {
      hide Gather, Scatter, Splice, Total, Transfer;
      TransferExtend(dir, st, base, seen, seg);
      assert (seen + [seg])[|seen|] == seg;
      if dir == Write {
        CopyBytes(data, addr, mem, seg.addr, seg.len);
      } else {
        CopyBytes(mem, seg.addr, data, addr, seg.len);
      }
    }

    /** The walk over all segments of all bios. */
    method CopyBios(dir: Direction, base: nat, bios: seq<seq<Segment>>, mem: array<Byte>)
      requires mem != data && InMemory(Flatten(bios), mem.Length) && base + Total(Flatten(bios)) <= data.Length
      modifies data, mem
      ensures Store(data[..], mem[..]) == Transfer(dir, old(Store(data[..], mem[..])), base, Flatten(bios))
    {
      hide Gather, Scatter, Splice, Flatten, Total, InMemory, Transfer;
      ghost var st := Store(data[..], mem[..]);
      var addr := base;
      SeenNothing(bios, mem.Length);
      TransferNothing(dir, st, base);
      for b := 0 to |bios|
        invariant InMemory(Flatten(bios[..b]), mem.Length)
        invariant addr == base + Total(Flatten(bios[..b])) <= data.Length
        invariant Store(data[..], mem[..]) == Transfer(dir, st, base, Flatten(bios[..b]))
      {
        var bio := bios[b];
        assert Flatten(bios[..b]) + bio[..0] == Flatten(bios[..b]);
        for s := 0 to |bio|
          invariant InMemory(Flatten(bios[..b]) + bio[..s], mem.Length)
          invariant addr == base + Total(Flatten(bios[..b]) + bio[..s]) <= data.Length
          invariant Store(data[..], mem[..]) == Transfer(dir, st, base, Flatten(bios[..b]) + bio[..s])
        {
          NextSegment(bios, b, s, mem.Length);
          CopySegment(dir, addr, bio[s], mem, st, base, Flatten(bios[..b]) + bio[..s]);
          addr := addr + bio[s].len;
        }
        BioDone(bios, b);
      }
      assert bios[..|bios|] == bios;
    }

    method DoActualReq(req: Request, mem: array<Byte>, q: RequestQueue)
      requires Valid() && mem != data && req.isFs && Submitted(geometry, mem.Length, req)
      modifies data, mem, q`ended
      ensures Store(data[..], mem[..]) == Exec(geometry, old(Store(data[..], mem[..])), req)
      ensures q.ended == old(q.ended) + [EndOf(geometry, req)]
    {
      ArithmeticIsExact(geometry, mem.Length, req);
      var sector := Int32(req.pos);
      var maxSectors := Int32(req.Sectors());
      if sector > geometry.nsectors || Int32(sector + maxSectors) > geometry.nsectors {
        q.EndRequest(req, 0, 0);
        return;
      }
      CopyBios(req.dir, Int32(sector * SECTOR), req.bios, mem);
      var error := if req.errors != 0 then -EIO else 0;
      q.EndRequest(req, error, RetireArgument(req));
    }

    method SbdRequest(q: RequestQueue, mem: array<Byte>)
      requires Valid() && mem != data && AllSubmitted(geometry, mem.Length, q.pending)
      modifies data, mem, q
      ensures q.pending == []
      ensures Store(data[..], mem[..]) == Drain(geometry, old(Store(data[..], mem[..])), old(q.pending))
      ensures q.ended == old(q.ended) + EndsOf(geometry, old(q.pending))
    {
      hide Drain, Exec, EndsOf, EndOf, Submitted, AllSubmitted;
      ghost var all := q.pending;
      ghost var st := Store(data[..], mem[..]);
      ghost var k := 0;
      QueueStart(geometry, st, all);
      var fetched := q.Fetch();
      while fetched.Some?
        invariant k <= |all|
        invariant if fetched.Some? then k < |all| && fetched.value == all[k] && q.pending == all[k + 1..]
                  else k == |all| && q.pending == []
        invariant AllSubmitted(geometry, mem.Length, all[..k])
        invariant Store(data[..], mem[..]) == Drain(geometry, st, all[..k])
        invariant q.ended == old(q.ended) + EndsOf(geometry, all[..k])
        decreases |all| - k
      {
        var req := fetched.value;
        QueueStep(geometry, st, all, k);
        FetchStep(all, k);
        EndsAppend(old(q.ended), EndsOf(geometry, all[..k]), EndOf(geometry, req));
        if !req.isFs {
          q.EndRequest(req, 0, 0);
        } else {
          DoActualReq(req, mem, q);
        }
        k := k + 1;
        fetched := q.Fetch();
      }
      assert all[..k] == all;
    }
  }

  /** Setting up the device: for every pair of module parameters either there is no memory for the byte
      count asked for (none at all for a product that wraps to zero or below), or the device has
      that many bytes, all zero; without overflow it is `nsectors * hardsect_size`. */
  method SbdInit(g: Geometry, vmallocOk: bool) returns (ret: int, device: SbdDevice?)
    ensures ret == if vmallocOk && g.Size() > 0 then 0 else -12
    ensures device == null <==> ret != 0
    ensures device != null ==>
      && fresh(device) && fresh(device.data) && device.geometry == g && device.data.Length == g.Size()
      && (forall i :: 0 <= i < device.data.Length ==> device.data[i] == 0)
      && (g.Good() ==> device.Valid())
    ensures g.nsectors > 0 && g.hardsect > 0 && g.nsectors * g.hardsect <= INT_MAX
            ==> g.Good() && g.Size() == g.nsectors * g.hardsect
  {
    if g.nsectors > 0 && g.hardsect > 0 && g.nsectors * g.hardsect <= INT_MAX {
      NoOverflowIsGood(g);
    }
    if !vmallocOk || g.Size() <= 0 {
      return -ENOMEM, null;
    }
    device := new SbdDevice(g);
    ret := 0;
  }
}
