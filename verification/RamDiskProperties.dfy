/** What the RAM disk promises: properties of single requests, request pairs and whole queues. */
module RamDiskProperties {
  import opened Bytes
  import opened CInt
  import opened RamDisk

  // ----- Geometry -------------------------------------------------------------------------

  /** A filesystem request for at least one byte with the sector count in range of an `int`. */
  predicate Moves(req: Request) {
    req.isFs && req.dataLen > 0 && req.pos + req.Sectors() <= INT_MAX
  }

  /** Passing the sector check keeps every transfer inside the allocated bytes, whatever became of the
      product of the two parameters, exactly when `nsectors` kernel sectors fit in them; if the
      product did not overflow, that is when a hardware sector is at least a kernel sector. */
  lemma CheckProtectsMemoryIff(g: Geometry)
    requires 0 < g.nsectors <= INT_MAX && 0 < g.hardsect <= INT_MAX
    ensures g.nsectors * SECTOR <= g.Size() <==>
            forall req: Request :: Moves(req) && PassesCheck(g.nsectors, req)
              ==> (req.pos + req.Sectors()) * SECTOR <= g.Size()
    ensures g.nsectors * g.hardsect <= INT_MAX ==> (g.nsectors * SECTOR <= g.Size() <==> g.hardsect >= SECTOR)
  {
    var n, size := g.nsectors, g.Size();
    if n * g.hardsect <= INT_MAX {
      NoOverflowIsGood(g);
      if g.hardsect < SECTOR { TimesAtMost(n, g.hardsect, SECTOR - 1); } else { TimesAtMost(n, SECTOR, g.hardsect); }
    }
    hide Geometry.Size;
    if n * SECTOR > size {
      var req := ReadRequest(n - 1, 1);
      assert Moves(req) && PassesCheck(n, req);
    }
  }

  /** A read of `k` sectors at `pos` into one segment at the start of memory. */
  function ReadRequest(pos: nat, k: nat): (r: Request)
    ensures r.isFs && r.dir == Read && r.pos == pos && r.Sectors() == k && r.dataLen == k * SECTOR
  {
    Request(true, Read, pos, k * SECTOR, [[Segment(0, k * SECTOR)]], 0)
  }

  lemma ReadRequestSubmitted(g: Geometry, pos: nat, k: nat)
    requires g.Possible() && pos < g.Advertised() && k * SECTOR < TWO_TO_32
    ensures Submitted(g, k * SECTOR, ReadRequest(pos, k))
  {
    hide Geometry.Size, Geometry.Advertised;
    var seg := Segment(0, k * SECTOR);
    var bios := [[seg]];
    assert bios[..0] == [] && Flatten(bios) == [] + [seg];
    assert [seg][..0] == [];
    assert Total([seg]) == Total([seg][..0]) + seg.len;
  }

  /** The driver's transfer for an accepted request stays inside the allocated bytes. */
  predicate StaysInside(g: Geometry, req: Request) {
    0 <= ByteOffset(req) && ByteOffset(req) + req.dataLen <= g.Size()
  }

  ghost predicate SubmittedStayInside(g: Geometry)
    requires g.Possible()
  {
    forall memSize: nat, req: Request ::
      Submitted(g, memSize, req) && req.isFs && req.dataLen > 0 && PassesCheck(g.nsectors, req) ==> StaysInside(g, req)
  }

  /** For all positive module parameters: whatever nonempty requests the block layer submits against the
      advertised capacity, those the driver accepts stay inside its memory if and only if the
      parameters are good. */
  lemma SubmittedStayInsideIff(g: Geometry)
    requires g.Possible()
    ensures SubmittedStayInside(g) <==> g.Good()
  {
    if g.Good() {
      forall memSize: nat, req: Request
        | Submitted(g, memSize, req) && req.isFs && req.dataLen > 0 && PassesCheck(g.nsectors, req)
        ensures StaysInside(g, req) {
        ArithmeticIsExact(g, memSize, req);
      }
    } else {
      var req := EscapingRequest(g);
    }
  }

  /** With bad parameters a request longer than the memory is submitted and accepted. */
  lemma EscapingRequest(g: Geometry) returns (req: Request)
    requires g.Possible() && !g.Good()
    ensures Submitted(g, req.dataLen, req) && req.isFs && req.dataLen > 0 && PassesCheck(g.nsectors, req)
    ensures !StaysInside(g, req)
  {
    var most := TWO_TO_32 / SECTOR - 1;
    var k := if g.Advertised() > INT_MAX || g.nsectors > most then most else g.nsectors;
    var pos := if g.Advertised() > INT_MAX then INT_MAX + 1 else 0;
    AdvertisedAboveInt(g);
    SizeAtMostInt(g);
    ReadRequestSubmitted(g, pos, k);
    req := ReadRequest(pos, k);
    hide Geometry.Size, Geometry.Advertised, Submitted, ReadRequest, Geometry.Good;
    LongRequestEscapes(g, req);
  }

  /** A request longer than the memory, at a position the check lets through. */
  lemma LongRequestEscapes(g: Geometry, req: Request)
    requires 0 < g.nsectors <= INT_MAX && req.dataLen == req.Sectors() * SECTOR > g.Size()
    requires req.Sectors() < TWO_TO_32 / SECTOR
    requires (req.pos == 0 && req.Sectors() <= g.nsectors) || req.pos == INT_MAX + 1
    ensures PassesCheck(g.nsectors, req) && !StaysInside(g, req)
  {
    hide Geometry.Size;
  }

  lemma SizeAtMostInt(g: Geometry)
    ensures g.Size() <= INT_MAX
  {
  }

  /** A capacity that does not fit in an `int` came from a negative product. */
  lemma AdvertisedAboveInt(g: Geometry)
    requires g.Possible()
    ensures g.Advertised() > INT_MAX ==> g.Advertised() > INT_MAX + 1
  {
  }

  predicate WithinCapacity(g: Geometry, req: Request)
    requires g.Possible()
  {
    req.dataLen < TWO_TO_32 && req.pos + req.Sectors() <= g.Advertised()
  }

  /** The capacity is advertised in 512-byte units but checked against `nsectors`: every nonempty request
      the block layer submits inside the advertised capacity is accepted exactly when the capacity
      does not exceed `nsectors`, that is, without overflow, when `hardsect_size` is below 1024. */
  lemma AdvertisedCapacityServedIff(g: Geometry)
    requires g.Good()
    ensures g.Advertised() <= g.nsectors <==>
            forall memSize: nat, req: Request ::
              Submitted(g, memSize, req) && Moves(req) && WithinCapacity(g, req) ==> PassesCheck(g.nsectors, req)
    ensures g.nsectors * g.hardsect <= INT_MAX ==> (g.Advertised() <= g.nsectors <==> g.hardsect < 2 * SECTOR)
  {
    if g.nsectors * g.hardsect <= INT_MAX {
      CapacityInSectors(g);
    }
    hide Geometry.Size, Geometry.Advertised, Submitted;
    if g.Advertised() > g.nsectors {
      var req := ReadRequest(g.nsectors, 1);
      ReadRequestSubmitted(g, g.nsectors, 1);
      assert Moves(req) && WithinCapacity(g, req) && !PassesCheck(g.nsectors, req);
    }
  }

  lemma CapacityInSectors(g: Geometry)
    requires g.nsectors > 0 && g.hardsect > 0 && g.nsectors * g.hardsect <= INT_MAX
    ensures g.Good() && g.Advertised() <= INT_MAX / SECTOR
    ensures g.hardsect < 2 * SECTOR ==> g.Advertised() <= g.nsectors
    ensures g.hardsect >= 2 * SECTOR ==> g.Advertised() >= 2 * g.nsectors
  {
    NoOverflowIsGood(g);
    hide Geometry.Size, Geometry.Advertised, Geometry.Good;
    var q := g.hardsect / SECTOR;
    if q <= 1 { TimesAtMost(g.nsectors, q, 1); } else { TimesAtMost(g.nsectors, 2, q); }
  }

  // ----- Handing requests back ------------------------------------------------------------

  /** The byte count passed back is wrapped to 32 bits: only the low 14 bits of the sector count survive. */
  lemma RetireArgumentOfSectors(k: nat)
    requires k * SECTOR < TWO_TO_32
    ensures Uint32(k * SECTOR * SECTOR) == k % 16384 * 0x4_0000
  {
    var q, r := k / 16384, k % 16384;
    assert k == q * 16384 + r;
    assert k * SECTOR * SECTOR == q * TWO_TO_32 + r * 0x4_0000;
  }

  /** A request is retired down to its last byte exactly when it is empty, or it is a filesystem
      request inside `nsectors` whose wrapped byte count still covers its length. */
  lemma WhollyRetiredIff(g: Geometry, memSize: nat, req: Request)
    requires g.Good() && Submitted(g, memSize, req)
    ensures EndOf(g, req).retired == req.dataLen <==>
            || req.dataLen == 0
            || (&& req.isFs
                && req.pos + req.Sectors() <= g.nsectors
                && 511 * (req.Sectors() % 16384) >= 16384 * (req.Sectors() / 16384))
    ensures req.isFs && req.pos + req.Sectors() <= g.nsectors && req.dataLen < 0x80_0000
            ==> EndOf(g, req).retired == req.dataLen
    ensures EndOf(g, req).retired != req.dataLen && req.dataLen < 0x80_0000 ==> EndOf(g, req).retired == 0
  {
    if req.isFs {
      ArithmeticIsExact(g, memSize, req);
      var k := req.Sectors();
      assert req.dataLen == k * SECTOR;
      RetireArgumentOfSectors(k);
      assert k == k / 16384 * 16384 + k % 16384;
    }
  }

  /** How every request of a queue is handed back: in order; with error -EIO, which is -5, exactly when it is
      a filesystem request inside `nsectors` that carries errors, else with 0; and with the bytes
      retired that the wrapped count covers, none for a rejected or a non-filesystem request. */
  lemma HandedBack(g: Geometry, memSize: nat, reqs: seq<Request>, k: nat)
    requires g.Good() && AllSubmitted(g, memSize, reqs) && k < |reqs|
    ensures |EndsOf(g, reqs)| == |reqs| && EndsOf(g, reqs)[k].req == reqs[k]
    ensures var req, e := reqs[k], EndsOf(g, reqs)[k];
            var accepted := req.isFs && req.pos + req.dataLen / 512 <= g.nsectors;
            && (e.error != 0 <==> accepted && req.errors != 0)
            && (e.error != 0 ==> e.error == -5)
            && e.retired == if !accepted then 0
                            else if req.dataLen < req.dataLen / 512 % 16384 * 0x4_0000 then req.dataLen
                            else req.dataLen / 512 % 16384 * 0x4_0000
  {
    var req := reqs[k];
    assert Submitted(g, memSize, req);
    if req.isFs {
      ArithmeticIsExact(g, memSize, req);
      if PassesCheck(g.nsectors, req) {
        RetireArgumentOfSectors(req.Sectors());
      }
    }
  }

  /** An 8 MiB request that is accepted and carried out hands back nothing at all. */
  lemma EightMegabytesRetireNothing(g: Geometry, memSize: nat, req: Request)
    requires g.Good() && Submitted(g, memSize, req) && req.isFs
    requires req.dataLen == 0x80_0000 && req.pos + req.Sectors() <= g.nsectors
    ensures PassesCheck(g.nsectors, req) && EndOf(g, req).retired == 0
  {
    ArithmeticIsExact(g, memSize, req);
  }

  lemma SmallProduct(g: Geometry)
    requires 0 < g.nsectors < 16384 && 0 < g.hardsect < 2 * SECTOR
    ensures g.nsectors * g.hardsect <= INT_MAX
  {
    TimesAtMost(g.nsectors, g.hardsect, 2 * SECTOR);
  }

  /** A device below 8 MiB with hardware sectors below 1024 bytes serves every filesystem request within
      its advertised capacity to the last byte. The default geometry is one. */
  lemma SmallDeviceServesAll(g: Geometry, memSize: nat, req: Request)
    requires g.Good() && g.nsectors < 16384 && g.hardsect < 2 * SECTOR
    requires req.isFs && Submitted(g, memSize, req) && WithinCapacity(g, req)
    ensures PassesCheck(g.nsectors, req) && EndOf(g, req).retired == req.dataLen
    ensures Geometry(1024, 512).Good()
  {
    SmallProduct(g);
    CapacityInSectors(g);
    WhollyRetiredIff(g, memSize, req);
    ArithmeticIsExact(g, memSize, req);
  }

  // ----- Scatter and gather ---------------------------------------------------------------

  lemma CoversLast(segs: seq<Segment>, a: int)
    requires segs != []
    ensures Covers(segs, a) <==> Covers(segs[..|segs| - 1], a)
                                 || segs[|segs| - 1].addr <= a < segs[|segs| - 1].addr + segs[|segs| - 1].len
  {
    var init := segs[..|segs| - 1];
    if Covers(init, a) {
      var i :| 0 <= i < |init| && init[i].addr <= a < init[i].addr + init[i].len;
      assert segs[i] == init[i];
    }
    if Covers(segs, a) {
      var i :| 0 <= i < |segs| && segs[i].addr <= a < segs[i].addr + segs[i].len;
      assert i < |init| ==> init[i] == segs[i];
    }
  }

  lemma {:induction false} ScatterFrame(mem: seq<Byte>, segs: seq<Segment>, disk: seq<Byte>, base: nat)
    requires InMemory(segs, |mem|) && base + Total(segs) <= |disk|
    ensures forall a :: 0 <= a < |mem| && !Covers(segs, a) ==> Scatter(mem, segs, disk, base)[a] == mem[a]
  {
    if segs != [] {
      var init, last := segs[..|segs| - 1], segs[|segs| - 1];
      ScatterFrame(mem, init, disk, base);
      forall a ensures Covers(segs, a) <==> Covers(init, a) || last.addr <= a < last.addr + last.len {
        CoversLast(segs, a);
      }
    }
  }

  /** Gathering only looks at the bytes of the segments. */
  lemma {:induction false} GatherFrame(mem: seq<Byte>, mem': seq<Byte>, segs: seq<Segment>)
    requires |mem| == |mem'| && InMemory(segs, |mem|)
    requires forall a :: 0 <= a < |mem| && Covers(segs, a) ==> mem[a] == mem'[a]
    ensures Gather(mem, segs) == Gather(mem', segs)
  {
    if segs != [] {
      var init, last := segs[..|segs| - 1], segs[|segs| - 1];
      forall a ensures Covers(segs, a) <==> Covers(init, a) || last.addr <= a < last.addr + last.len {
        CoversLast(segs, a);
      }
      GatherFrame(mem, mem', init);
      assert mem[last.addr..last.addr + last.len] == mem'[last.addr..last.addr + last.len];
    }
  }

  /** Bytes scattered over disjoint segments are read back unchanged by gathering them. */
  lemma {:induction false} GatherOfScatter(mem: seq<Byte>, segs: seq<Segment>, disk: seq<Byte>, base: nat)
    requires InMemory(segs, |mem|) && base + Total(segs) <= |disk| && PairwiseDisjoint(segs)
    ensures Gather(Scatter(mem, segs, disk, base), segs) == disk[base..base + Total(segs)]
  {
    hide Gather, Scatter, Splice, Total, InMemory;
    if segs == [] {
      ScatterNothing(mem, disk, base);
      GatherNothing(mem);
    } else {
      var init, last := segs[..|segs| - 1], segs[|segs| - 1];
      LastInMemory(segs, |mem|);
      assert segs == init + [last];
      TotalLast(init, last);
      var mid, end := base + Total(init), base + Total(segs);
      var m1 := Scatter(mem, init, disk, base);
      GatherOfScatter(mem, init, disk, base);
      ScatterLast(mem, init, last, disk, base);
      GatherLast(Splice(m1, last.addr, disk[mid..end]), init, last);
      GatherMissesSplice(m1, init, last, disk[mid..end]);
      SpliceReadBack(m1, last.addr, disk[mid..end]);
      assert disk[base..mid] + disk[mid..end] == disk[base..end];
    }
  }

  lemma GatherNothing(mem: seq<Byte>)
    ensures InMemory([], |mem|) && Gather(mem, []) == []
  {
  }

  /** Overwriting a segment disjoint from `segs` does not change what `segs` gather. */
  lemma GatherMissesSplice(mem: seq<Byte>, segs: seq<Segment>, x: Segment, d: seq<Byte>)
    requires InMemory(segs, |mem|) && x.addr + x.len <= |mem| && |d| == x.len
    requires forall i :: 0 <= i < |segs| ==> Disjoint(segs[i], x)
    ensures Gather(Splice(mem, x.addr, d), segs) == Gather(mem, segs)
  {
    hide Gather;
    forall a | 0 <= a < |mem| && Covers(segs, a) ensures mem[a] == Splice(mem, x.addr, d)[a] {
      var i :| 0 <= i < |segs| && segs[i].addr <= a < segs[i].addr + segs[i].len;
      assert Disjoint(segs[i], x);
      SpliceAt(mem, x.addr, d, a);
    }
    GatherFrame(mem, Splice(mem, x.addr, d), segs);
  }

  /** What an accepted request does, whatever its bio and segment structure. A write replaces the
      bytes of its sectors by the concatenated segments; a read leaves the disk alone and makes the
      concatenated segments equal those bytes; nothing else changes. */
  lemma ScatterGatherTransparent(g: Geometry, st: Store, req: Request)
    requires g.Good() && |st.disk| == g.Size() && Submitted(g, |st.mem|, req)
    requires req.isFs && req.pos + req.Sectors() <= g.nsectors
    ensures req.pos * SECTOR + req.dataLen <= |st.disk|
    ensures var r := Exec(g, st, req);
            var lo, hi := req.pos * SECTOR, req.pos * SECTOR + req.dataLen;
            match req.dir
            case Write =>
              && r.mem == st.mem
              && r.disk[lo..hi] == Gather(st.mem, req.Segments())
              && r.disk[..lo] == st.disk[..lo] && r.disk[hi..] == st.disk[hi..]
            case Read =>
              && r.disk == st.disk
              && (PairwiseDisjoint(req.Segments()) ==> Gather(r.mem, req.Segments()) == st.disk[lo..hi])
              && forall a :: 0 <= a < |st.mem| && !Covers(req.Segments(), a) ==> r.mem[a] == st.mem[a]
  {
    hide Gather, Scatter, Splice, PassesCheck, ByteOffset;
    ArithmeticIsExact(g, |st.mem|, req);
    var segs := req.Segments();
    var lo, hi := req.pos * SECTOR, req.pos * SECTOR + req.dataLen;
    match req.dir
    case Write =>
      SpliceReadBack(st.disk, lo, Gather(st.mem, segs));
      SpliceKeepsRest(st.disk, lo, Gather(st.mem, segs));
    case Read =>
      ScatterFrame(st.mem, segs, st.disk, lo);
      if PairwiseDisjoint(segs) {
        GatherOfScatter(st.mem, segs, st.disk, lo);
      }
  }

  // ----- Byte by byte ---------------------------------------------------------------------

  lemma {:induction false} GatheredByte(mem: seq<Byte>, segs: seq<Segment>, k: nat, i: nat)
    requires InMemory(segs, |mem|) && k < |segs| && i < segs[k].len
    ensures Total(segs[..k]) + i < Total(segs)
    ensures Gather(mem, segs)[Total(segs[..k]) + i] == mem[segs[k].addr + i]
    decreases |segs|
  {
    var init, last := segs[..|segs| - 1], segs[|segs| - 1];
    if k < |init| {
      GatheredByte(mem, init, k, i);
      assert init[..k] == segs[..k];
    }
  }

  lemma SegmentOf(bios: seq<seq<Segment>>, b: nat, s: nat)
    requires b < |bios| && s < |bios[b]|
    ensures var k := |Flatten(bios[..b])| + s;
            && k < |Flatten(bios)| && Flatten(bios)[k] == bios[b][s]
            && Flatten(bios)[..k] == Flatten(bios[..b]) + bios[b][..s]
  {
    var segs, k := Flatten(bios), |Flatten(bios[..b])| + s;
    FlattenPrefix(bios, b, s + 1);
    assert (Flatten(bios[..b]) + bios[b][..s + 1])[k] == bios[b][s];
    assert segs[..k] == (Flatten(bios[..b]) + bios[b][..s + 1])[..k];
  }

  /** Scatter and gather byte by byte: byte `i` of segment `s` of bio `b`, with all segments of the bios and of
      this bio before it added up in front, is the byte that an accepted write stores on the disk and
      an accepted read fills in memory. */
  lemma EverySegmentByte(g: Geometry, st: Store, req: Request, b: nat, s: nat, i: nat)
    requires g.Good() && |st.disk| == g.Size() && Submitted(g, |st.mem|, req)
    requires req.isFs && req.pos + req.Sectors() <= g.nsectors
    requires b < |req.bios| && s < |req.bios[b]| && i < req.bios[b][s].len
    ensures var seg := req.bios[b][s];
            var at := req.pos * 512 + Total(Flatten(req.bios[..b])) + Total(req.bios[b][..s]) + i;
            && at < |st.disk| && seg.addr + i < |st.mem|
            && (req.dir == Write ==> Exec(g, st, req).disk[at] == st.mem[seg.addr + i])
            && (req.dir == Read && PairwiseDisjoint(req.Segments()) ==>
                  Exec(g, st, req).mem[seg.addr + i] == st.disk[at])
  {
    hide Gather, Exec, PairwiseDisjoint, Covers, PassesCheck, Flatten, Total, Geometry.Good;
    var segs, k := Flatten(req.bios), |Flatten(req.bios[..b])| + s;
    SegmentOf(req.bios, b, s);
    TotalAppend(Flatten(req.bios[..b]), req.bios[b][..s]);
    ScatterGatherTransparent(g, st, req);
    ExecAccepted(g, st, req);
    var lo, j := req.pos * SECTOR, Total(segs[..k]) + i;
    var r := Exec(g, st, req);
    GatheredByte(st.mem, segs, k, i);
    if req.dir == Write {
      assert r.disk[lo..lo + req.dataLen][j] == r.disk[lo + j];
    } else {
      GatheredByte(r.mem, segs, k, i);
      assert st.disk[lo..lo + req.dataLen][j] == st.disk[lo + j];
    }
  }

  lemma DrainPair(g: Geometry, st: Store, a: Request, b: Request)
    requires g.Good() && |st.disk| == g.Size()
    requires Submitted(g, |st.mem|, a) && Submitted(g, |st.mem|, b)
    ensures Drain(g, st, [a, b]) == Exec(g, Exec(g, st, a), b)
  {
    var reqs := [a, b];
    assert reqs[..1] == [a];
    assert [a][..0] == [];
    assert Drain(g, st, [a]) == Exec(g, st, a);
    assert AllSubmitted(g, |st.mem|, reqs);
    assert Drain(g, st, reqs) == Exec(g, Drain(g, st, reqs[..1]), reqs[1]);
  }

  /** Write, then read the same sectors through any other segmentation: the same bytes come back. */
  lemma WriteThenRead(g: Geometry, st: Store, w: Request, r: Request)
    requires g.Good() && |st.disk| == g.Size()
    requires Submitted(g, |st.mem|, w) && Submitted(g, |st.mem|, r)
    requires w.isFs && w.dir == Write && r.isFs && r.dir == Read
    requires r.pos == w.pos && r.dataLen == w.dataLen && w.pos + w.Sectors() <= g.nsectors
    requires PairwiseDisjoint(r.Segments())
    ensures var s := Drain(g, st, [w, r]);
            && Gather(s.mem, r.Segments()) == Gather(st.mem, w.Segments())
            && s.disk == Exec(g, st, w).disk
  {
    hide Drain, Exec, Gather, PairwiseDisjoint, Covers, Total;
    DrainPair(g, st, w, r);
    ScatterGatherTransparent(g, st, w);
    ScatterGatherTransparent(g, Exec(g, st, w), r);
  }

  // ----- Splitting and merging ------------------------------------------------------------

  lemma {:induction false} TotalAppend(xs: seq<Segment>, ys: seq<Segment>)
    ensures Total(xs + ys) == Total(xs) + Total(ys)
    decreases |ys|
  {
    if ys == [] {
      assert xs + ys == xs;
    } else {
      assert (xs + ys)[..|xs + ys| - 1] == xs + ys[..|ys| - 1];
      TotalAppend(xs, ys[..|ys| - 1]);
    }
  }

  lemma LastInMemory(segs: seq<Segment>, size: nat)
    requires segs != [] && InMemory(segs, size)
    ensures InMemory(segs[..|segs| - 1], size)
    ensures segs[|segs| - 1].addr + segs[|segs| - 1].len <= size
  {
  }

  lemma SeqAssociative(a: seq<Byte>, b: seq<Byte>, c: seq<Byte>)
    ensures a + (b + c) == a + b + c
  {
  }

  lemma {:induction false} GatherAppend(mem: seq<Byte>, xs: seq<Segment>, ys: seq<Segment>)
    requires InMemory(xs, |mem|) && InMemory(ys, |mem|) && InMemory(xs + ys, |mem|)
    ensures Gather(mem, xs + ys) == Gather(mem, xs) + Gather(mem, ys)
    decreases |ys|
  {
    if ys == [] {
      assert xs + ys == xs;
    } else {
      hide Gather, InMemory, Total;
      var init, y := ys[..|ys| - 1], ys[|ys| - 1];
      LastInMemory(ys, |mem|);
      assert ys == init + [y] && xs + ys == xs + init + [y];
      InMemoryAppend(xs, init, |mem|);
      GatherAppend(mem, xs, init);
      GatherLast(mem, xs + init, y);
      GatherLast(mem, init, y);
      SeqAssociative(Gather(mem, xs), Gather(mem, init), mem[y.addr..y.addr + y.len]);
    }
  }

  lemma ScatterNothing(mem: seq<Byte>, disk: seq<Byte>, base: nat)
    requires base <= |disk|
    ensures InMemory([], |mem|) && Total([]) == 0 && Scatter(mem, [], disk, base) == mem
  {
  }

  lemma {:induction false} ScatterAppend(mem: seq<Byte>, xs: seq<Segment>, ys: seq<Segment>,
                                         disk: seq<Byte>, base: nat)
    requires InMemory(xs, |mem|) && InMemory(ys, |mem|) && InMemory(xs + ys, |mem|)
    requires Total(xs + ys) == Total(xs) + Total(ys) && base + Total(xs + ys) <= |disk|
    ensures Scatter(Scatter(mem, xs, disk, base), ys, disk, base + Total(xs)) == Scatter(mem, xs + ys, disk, base)
    decreases |ys|
  {
    hide Scatter, Splice, Total, InMemory;
    if ys == [] {
      assert xs + ys == xs;
      ScatterNothing(Scatter(mem, xs, disk, base), disk, base + Total(xs));
    } else {
      var init, y := ys[..|ys| - 1], ys[|ys| - 1];
      LastInMemory(ys, |mem|);
      assert ys == init + [y] && xs + ys == xs + init + [y];
      TotalAppend(xs, init);
      TotalLast(init, y);
      TotalLast(xs + init, y);
      InMemoryAppend(xs, init, |mem|);
      ScatterAppend(mem, xs, init, disk, base);
      ScatterLast(mem, xs + init, y, disk, base);
      ScatterLast(Scatter(mem, xs, disk, base), init, y, disk, base + Total(xs));
    }
  }

  /** A transfer of `xs + ys` is a transfer of `xs` followed by one of `ys` right behind it. */
  lemma TransferAppend(dir: Direction, st: Store, base: nat, xs: seq<Segment>, ys: seq<Segment>)
    requires InMemory(xs, |st.mem|) && InMemory(ys, |st.mem|) && InMemory(xs + ys, |st.mem|)
    requires Total(xs + ys) == Total(xs) + Total(ys)
    requires base + Total(xs + ys) <= |st.disk|
    ensures Transfer(dir, Transfer(dir, st, base, xs), base + Total(xs), ys) == Transfer(dir, st, base, xs + ys)
  {
    hide Gather, Scatter, Splice, Total, InMemory;
    match dir
    case Write =>
      GatherAppend(st.mem, xs, ys);
      SpliceAppend(st.disk, base, Gather(st.mem, xs), Gather(st.mem, ys));
    case Read =>
      ScatterAppend(st.mem, xs, ys, st.disk, base);
  }

  /** The host addresses a segment list goes through, byte by byte. */
  function Addrs(segs: seq<Segment>): seq<nat> {
    if segs == [] then []
    else Addrs(segs[..|segs| - 1]) + Range(segs[|segs| - 1].addr, segs[|segs| - 1].len)
  }

  function Range(addr: nat, len: nat): seq<nat> { seq(len, i requires 0 <= i < len => addr + i) }

  lemma {:induction false} AddrsLength(segs: seq<Segment>)
    ensures |Addrs(segs)| == Total(segs)
  {
    if segs != [] {
      AddrsLength(segs[..|segs| - 1]);
    }
  }

  lemma AddrsLast(segs: seq<Segment>, x: Segment)
    ensures Addrs(segs + [x]) == Addrs(segs) + Range(x.addr, x.len)
  {
    assert (segs + [x])[..|segs|] == segs;
  }

  /** The bytes at given addresses, and memory with given bytes stored at them, in order; addresses
      outside memory play no part. */
  function Pick(mem: seq<Byte>, addrs: seq<nat>): seq<Byte> {
    seq(|addrs|, i requires 0 <= i < |addrs| => if addrs[i] < |mem| then mem[addrs[i]] else 0)
  }

  function Put(mem: seq<Byte>, addr: nat, v: Byte): (r: seq<Byte>)
    ensures |r| == |mem|
  {
    if addr < |mem| then mem[addr := v] else mem
  }

  function Fill(mem: seq<Byte>, addrs: seq<nat>, bytes: seq<Byte>): (r: seq<Byte>)
    requires |bytes| == |addrs|
    ensures |r| == |mem|
  {
    if addrs == [] then mem
    else Put(Fill(mem, addrs[..|addrs| - 1], bytes[..|addrs| - 1]), addrs[|addrs| - 1], bytes[|addrs| - 1])
  }

  lemma PickRange(mem: seq<Byte>, addrs: seq<nat>, addr: nat, len: nat)
    requires addr + len <= |mem|
    ensures Pick(mem, addrs + Range(addr, len)) == Pick(mem, addrs) + mem[addr..addr + len]
  {
  }

  lemma {:induction false} GatherPicks(mem: seq<Byte>, segs: seq<Segment>)
    requires InMemory(segs, |mem|)
    ensures Gather(mem, segs) == Pick(mem, Addrs(segs))
  {
    if segs != [] {
      hide Gather, InMemory, Addrs, Pick, Range;
      var init, last := segs[..|segs| - 1], segs[|segs| - 1];
      assert segs == init + [last];
      LastInMemory(segs, |mem|);
      GatherPicks(mem, init);
      GatherLast(mem, init, last);
      AddrsLast(init, last);
      PickRange(mem, Addrs(init), last.addr, last.len);
    }
  }

  lemma FillLast(mem: seq<Byte>, addrs: seq<nat>, bytes: seq<Byte>, a: nat, v: Byte)
    requires |bytes| == |addrs|
    ensures Fill(mem, addrs + [a], bytes + [v]) == Put(Fill(mem, addrs, bytes), a, v)
  {
    assert (addrs + [a])[..|addrs|] == addrs && (bytes + [v])[..|addrs|] == bytes;
  }

  lemma SpliceLast(mem: seq<Byte>, addr: nat, d: seq<Byte>, v: Byte)
    requires addr + |d| < |mem|
    ensures Splice(mem, addr, d + [v]) == Put(Splice(mem, addr, d), addr + |d|, v)
  {
  }

  lemma RangeLast(addr: nat, len: nat)
    ensures |Range(addr, len)| == len && Range(addr, 0) == []
    ensures Range(addr, len + 1) == Range(addr, len) + [addr + len]
  {
  }

  /** Storing at consecutive addresses is one block copy. */
  lemma {:induction false} FillRange(mem: seq<Byte>, addrs: seq<nat>, bytes: seq<Byte>, addr: nat, d: seq<Byte>)
    requires |bytes| == |addrs| && addr + |d| <= |mem|
    ensures |Range(addr, |d|)| == |d|
    ensures Fill(mem, addrs + Range(addr, |d|), bytes + d) == Splice(Fill(mem, addrs, bytes), addr, d)
    decreases |d|
  {
    hide Fill, Splice, Range, Put;
    if d == [] {
      RangeLast(addr, 0);
      assert addrs + [] == addrs && bytes + d == bytes;
      SpliceNothing(Fill(mem, addrs, bytes), addr);
    } else {
      var init, v := d[..|d| - 1], d[|d| - 1];
      assert bytes + d == bytes + init + [v] && d == init + [v];
      FillRange(mem, addrs, bytes, addr, init);
      RangeLast(addr, |init|);
      assert addrs + (Range(addr, |init|) + [addr + |init|]) == addrs + Range(addr, |init|) + [addr + |init|];
      FillLast(mem, addrs + Range(addr, |init|), bytes + init, addr + |init|, v);
      SpliceLast(Fill(mem, addrs, bytes), addr, init, v);
    }
  }

  lemma SpliceNothing(mem: seq<Byte>, addr: nat)
    requires addr <= |mem|
    ensures Splice(mem, addr, []) == mem
  {
  }

  lemma {:induction false} ScatterFills(mem: seq<Byte>, segs: seq<Segment>, disk: seq<Byte>, base: nat)
    requires InMemory(segs, |mem|) && base + Total(segs) <= |disk| && |Addrs(segs)| == Total(segs)
    ensures Scatter(mem, segs, disk, base) == Fill(mem, Addrs(segs), disk[base..base + Total(segs)])
  {
    hide Fill, Splice, InMemory, Addrs, Scatter, Total, Range;
    if segs == [] {
      ScatterNothing(mem, disk, base);
      FillNothing(mem, disk[base..base]);
    } else {
      var init, last := segs[..|segs| - 1], segs[|segs| - 1];
      assert segs == init + [last];
      LastInMemory(segs, |mem|);
      TotalLast(init, last);
      AddrsLength(init);
      AddrsLast(init, last);
      ScatterFills(mem, init, disk, base);
      ScatterLast(mem, init, last, disk, base);
      var mid, end := base + Total(init), base + Total(segs);
      FillRange(mem, Addrs(init), disk[base..mid], last.addr, disk[mid..end]);
      assert disk[base..mid] + disk[mid..end] == disk[base..end];
    }
  }

  lemma FillNothing(mem: seq<Byte>, bytes: seq<Byte>)
    requires bytes == []
    ensures Addrs([]) == [] && Fill(mem, [], bytes) == mem
  {
  }

  /** A transfer depends on its segments only through the addresses they go through. */
  lemma SameAddrsSameTransfer(dir: Direction, st: Store, base: nat, xs: seq<Segment>, ys: seq<Segment>)
    requires InMemory(xs, |st.mem|) && InMemory(ys, |st.mem|) && Addrs(xs) == Addrs(ys)
    requires Total(xs) == Total(ys) == |Addrs(xs)| && base + Total(xs) <= |st.disk|
    ensures Transfer(dir, st, base, xs) == Transfer(dir, st, base, ys)
  {
    hide Gather, Scatter, Splice, Addrs, Total, InMemory, Fill, Pick;
    match dir
    case Write =>
      GatherPicks(st.mem, xs);
      GatherPicks(st.mem, ys);
    case Read =>
      ScatterFills(st.mem, xs, st.disk, base);
      ScatterFills(st.mem, ys, st.disk, base);
  }

  /** The segments of several requests, one request after the other. */
  function AllSegments(parts: seq<Request>): seq<Segment> {
    if parts == [] then [] else AllSegments(parts[..|parts| - 1]) + parts[|parts| - 1].Segments()
  }

  /** `parts` go the same way and follow each other on the disk without a gap. */
  predicate Adjacent(dir: Direction, parts: seq<Request>) {
    && (forall i :: 0 <= i < |parts| ==> parts[i].isFs && parts[i].dir == dir)
    && (forall i :: 0 < i < |parts| ==> parts[i].pos == parts[i - 1].pos + parts[i - 1].Sectors())
  }

  lemma {:induction false} AdjacentPartsTransfer(g: Geometry, st: Store, dir: Direction, parts: seq<Request>)
    requires g.Good() && |st.disk| == g.Size() && AllSubmitted(g, |st.mem|, parts)
    requires parts != [] && Adjacent(dir, parts)
    requires parts[|parts| - 1].pos + parts[|parts| - 1].Sectors() <= g.nsectors
    ensures InMemory(AllSegments(parts), |st.mem|)
    ensures parts[0].pos * SECTOR + Total(AllSegments(parts))
            == (parts[|parts| - 1].pos + parts[|parts| - 1].Sectors()) * SECTOR <= |st.disk|
    ensures Drain(g, st, parts) == Transfer(dir, st, parts[0].pos * SECTOR, AllSegments(parts))
    decreases |parts|
  {
    hide Gather, Scatter, Splice, Transfer, ByteOffset, PassesCheck, InMemory, Total;
    var init, last := parts[..|parts| - 1], parts[|parts| - 1];
    var segs := last.Segments();
    ExecAccepted(g, st, last);
    if init == [] {
      assert AllSegments(parts) == segs;
    } else {
      assert parts[|parts| - 1].pos == parts[|parts| - 2].pos + parts[|parts| - 2].Sectors();
      AdjacentPartsTransfer(g, st, dir, init);
      var xs := AllSegments(init);
      ExecAccepted(g, Drain(g, st, init), last);
      InMemoryAppend(xs, segs, |st.mem|);
      TotalAppend(xs, segs);
      TransferAppend(dir, st, parts[0].pos * SECTOR, xs, segs);
    }
  }

  lemma ExecAccepted(g: Geometry, st: Store, req: Request)
    requires g.Good() && |st.disk| == g.Size() && Submitted(g, |st.mem|, req)
    requires req.isFs && req.pos + req.Sectors() <= g.nsectors
    ensures InMemory(req.Segments(), |st.mem|)
    ensures Total(req.Segments()) == req.dataLen == req.Sectors() * SECTOR
    ensures (req.pos + req.Sectors()) * SECTOR <= |st.disk|
    ensures Exec(g, st, req) == Transfer(req.dir, st, req.pos * SECTOR, req.Segments())
  {
    ArithmeticIsExact(g, |st.mem|, req);
  }

  /** One accepted request and any sector-aligned adjacent requests over the same host bytes in the same
      order, however either is cut into bios and segments, leave the same disk and the same memory. */
  lemma SplitOrMerge(g: Geometry, st: Store, whole: Request, parts: seq<Request>)
    requires g.Good() && |st.disk| == g.Size()
    requires AllSubmitted(g, |st.mem|, parts) && Submitted(g, |st.mem|, whole)
    requires whole.isFs && whole.pos + whole.Sectors() <= g.nsectors
    requires parts != [] && Adjacent(whole.dir, parts)
    requires parts[0].pos == whole.pos && Addrs(AllSegments(parts)) == Addrs(whole.Segments())
    ensures Drain(g, st, parts) == Exec(g, st, whole)
  {
    hide Exec, Drain, Transfer, Addrs, Total, PassesCheck;
    PartsEnd(g, |st.mem|, whole.dir, parts);
    ExecAccepted(g, st, whole);
    AddrsLength(AllSegments(parts));
    AddrsLength(whole.Segments());
    AdjacentPartsTransfer(g, st, whole.dir, parts);
    SameAddrsSameTransfer(whole.dir, st, whole.pos * SECTOR, AllSegments(parts), whole.Segments());
  }

  lemma {:induction false} PartsEnd(g: Geometry, memSize: nat, dir: Direction, parts: seq<Request>)
    requires g.Good() && AllSubmitted(g, memSize, parts)
    requires parts != [] && Adjacent(dir, parts)
    ensures parts[0].pos * SECTOR + Total(AllSegments(parts))
            == (parts[|parts| - 1].pos + parts[|parts| - 1].Sectors()) * SECTOR
    decreases |parts|
  {
    var init, last := parts[..|parts| - 1], parts[|parts| - 1];
    TotalAppend(AllSegments(init), last.Segments());
    assert Submitted(g, memSize, last) && Total(last.Segments()) == last.dataLen;
    if init != [] {
      assert parts[|parts| - 1].pos == parts[|parts| - 2].pos + parts[|parts| - 2].Sectors();
      PartsEnd(g, memSize, dir, init);
    }
  }

  /** Accepted writes to disjoint sector ranges commute. */
  lemma DisjointWritesCommute(g: Geometry, st: Store, a: Request, b: Request)
    requires g.Good() && |st.disk| == g.Size()
    requires Submitted(g, |st.mem|, a) && Submitted(g, |st.mem|, b)
    requires a.isFs && a.dir == Write && b.isFs && b.dir == Write
    requires a.pos + a.Sectors() <= b.pos || b.pos + b.Sectors() <= a.pos
    ensures Drain(g, st, [a, b]) == Drain(g, st, [b, a])
  {
    DrainPair(g, st, a, b);
    DrainPair(g, st, b, a);
    ArithmeticIsExact(g, |st.mem|, a);
    ArithmeticIsExact(g, |st.mem|, b);
    if PassesCheck(g.nsectors, a) && PassesCheck(g.nsectors, b) {
      SpliceCommute(st.disk, a.pos * SECTOR, Gather(st.mem, a.Segments()),
                    b.pos * SECTOR, Gather(st.mem, b.Segments()));
    }
  }

  // ----- Whole queues ---------------------------------------------------------------------

  /** An accepted filesystem write that covers disk byte `i`. */
  predicate WritesByte(g: Geometry, req: Request, i: int) {
    && req.isFs && req.dir == Write && req.pos + req.Sectors() <= g.nsectors
    && req.pos * SECTOR <= i < req.pos * SECTOR + req.dataLen
  }

  /** One request, seen from one disk byte. */
  lemma ExecOnByte(g: Geometry, st: Store, req: Request, i: nat)
    requires g.Good() && |st.disk| == g.Size() && Submitted(g, |st.mem|, req) && i < |st.disk|
    ensures if WritesByte(g, req, i)
            then Exec(g, st, req).disk[i] == Gather(st.mem, req.Segments())[i - req.pos * SECTOR]
            else Exec(g, st, req).disk[i] == st.disk[i]
  {
    hide Gather, Scatter, Splice;
    if req.isFs {
      ArithmeticIsExact(g, |st.mem|, req);
      if req.dir == Write && PassesCheck(g.nsectors, req) {
        SpliceAt(st.disk, req.pos * SECTOR, Gather(st.mem, req.Segments()), i);
      }
    }
  }

  /** After any queue, a disk byte that no accepted write covers is unchanged. */
  lemma {:induction false} UnwrittenByteKept(g: Geometry, st: Store, reqs: seq<Request>, i: nat)
    requires g.Good() && |st.disk| == g.Size() && AllSubmitted(g, |st.mem|, reqs) && i < |st.disk|
    requires forall k :: 0 <= k < |reqs| ==> !WritesByte(g, reqs[k], i)
    ensures Drain(g, st, reqs).disk[i] == st.disk[i]
    decreases |reqs|
  {
    hide Exec, WritesByte;
    if reqs != [] {
      var init := reqs[..|reqs| - 1];
      UnwrittenByteKept(g, st, init, i);
      ExecOnByte(g, Drain(g, st, init), reqs[|reqs| - 1], i);
    }
  }

  /** After any queue, a disk byte holds what the last accepted write covering it had gathered for
      it, from memory as the requests before that write left it. */
  lemma {:induction false} LastWriterDecides(g: Geometry, st: Store, reqs: seq<Request>, i: nat, k: nat)
    requires g.Good() && |st.disk| == g.Size() && AllSubmitted(g, |st.mem|, reqs) && i < |st.disk|
    requires k < |reqs| && WritesByte(g, reqs[k], i)
    requires forall j :: k < j < |reqs| ==> !WritesByte(g, reqs[j], i)
    ensures AllSubmitted(g, |st.mem|, reqs[..k])
    ensures Drain(g, st, reqs).disk[i]
            == Gather(Drain(g, st, reqs[..k]).mem, reqs[k].Segments())[i - reqs[k].pos * SECTOR]
    decreases |reqs|
  {
    hide Gather, Exec;
    var init := reqs[..|reqs| - 1];
    ExecOnByte(g, Drain(g, st, init), reqs[|reqs| - 1], i);
    if k < |init| {
      LastWriterDecides(g, st, init, i, k);
      assert init[..k] == reqs[..k];
    }
  }

  /** What a read in a queue returns: each of its bytes is the one gathered by the last accepted write
      before it that covers the byte, or the initial disk byte if there is none. */
  lemma ReadReturnsLastWritten(g: Geometry, st: Store, reqs: seq<Request>, k: nat, i: nat) returns (w: int)
    requires g.Good() && |st.disk| == g.Size() && AllSubmitted(g, |st.mem|, reqs)
    requires k < |reqs| && reqs[k].isFs && reqs[k].dir == Read && reqs[k].pos + reqs[k].Sectors() <= g.nsectors
    requires PairwiseDisjoint(reqs[k].Segments()) && i < reqs[k].dataLen
    ensures reqs[k].pos * SECTOR + reqs[k].dataLen <= |st.disk|
    ensures -1 <= w < k && (w >= 0 ==> WritesByte(g, reqs[w], reqs[k].pos * SECTOR + i))
    ensures forall j :: w < j < k ==> !WritesByte(g, reqs[j], reqs[k].pos * SECTOR + i)
    ensures w >= 0 ==> AllSubmitted(g, |st.mem|, reqs[..w])
    ensures Gather(Drain(g, st, reqs[..k + 1]).mem, reqs[k].Segments())[i]
            == if w < 0 then st.disk[reqs[k].pos * SECTOR + i]
               else Gather(Drain(g, st, reqs[..w]).mem, reqs[w].Segments())
                      [reqs[k].pos * SECTOR + i - reqs[w].pos * SECTOR]
  {
    hide Gather, Drain, Exec, WritesByte, PassesCheck;
    var at := reqs[k].pos * SECTOR + i;
    QueueStep(g, st, reqs, k);
    var before := Drain(g, st, reqs[..k]);
    ScatterGatherTransparent(g, before, reqs[k]);
    assert before.disk[at - i..at - i + reqs[k].dataLen][i] == before.disk[at];
    w := k - 1;
    while w >= 0 && !WritesByte(g, reqs[w], at)
      invariant -1 <= w < k && forall j :: w < j < k ==> !WritesByte(g, reqs[j], at)
    {
      w := w - 1;
    }
    if w < 0 {
      UnwrittenByteKept(g, st, reqs[..k], at);
    } else {
      LastWriterDecides(g, st, reqs[..k], at, w);
      assert reqs[..k][..w] == reqs[..w];
    }
  }

  /** Rejected and non-filesystem requests can be struck from a queue without any effect on disk or memory. */
  function Accepted(g: Geometry, reqs: seq<Request>): seq<Request> {
    if reqs == [] then []
    else
      var last := reqs[|reqs| - 1];
      Accepted(g, reqs[..|reqs| - 1]) + if last.isFs && last.pos + last.Sectors() <= g.nsectors then [last] else []
  }

  lemma {:induction false} OnlyAcceptedCount(g: Geometry, st: Store, reqs: seq<Request>)
    requires g.Good() && |st.disk| == g.Size() && AllSubmitted(g, |st.mem|, reqs)
    ensures AllSubmitted(g, |st.mem|, Accepted(g, reqs))
    ensures Drain(g, st, reqs) == Drain(g, st, Accepted(g, reqs))
    decreases |reqs|
  {
    if reqs != [] {
      var init, last := reqs[..|reqs| - 1], reqs[|reqs| - 1];
      var acc := Accepted(g, init);
      assert acc + [] == acc && (acc + [last])[..|acc|] == acc && (acc + [last])[|acc|] == last;
      hide Exec, Submitted;
      OnlyAcceptedCount(g, st, init);
      if !(last.isFs && last.pos + last.Sectors() <= g.nsectors) {
        RejectedDoesNothing(g, Drain(g, st, init), last);
      }
    }
  }

  lemma RejectedDoesNothing(g: Geometry, st: Store, req: Request)
    requires g.Good() && |st.disk| == g.Size() && Submitted(g, |st.mem|, req)
    requires !(req.isFs && req.pos + req.Sectors() <= g.nsectors)
    ensures Exec(g, st, req) == st
  {
    if req.isFs {
      ArithmeticIsExact(g, |st.mem|, req);
    }
  }
}
