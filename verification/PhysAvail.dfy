/** Building phys_avail: walk the memory map page by page, gather usable pages
    into chunks, and trim chunks too small to hold the message buffer. */
module PhysAvail {
  import opened Common
  import opened Physmap

  const PAGE_SIZE := 4096
  const MAX_CHUNKS := PHYS_AVAIL_ENTRIES / 2

  function RoundPage(a: nat): nat {
    a + PAGE_SIZE - 1 - (a + PAGE_SIZE - 1) % PAGE_SIZE
  }

  function TruncPage(a: nat): nat {
    a - a % PAGE_SIZE
  }

  /** What the walk is told: the pages below Maxmem, the kernel's and the dcons
      ranges, and the pages the memory test rejects. */
  datatype Limits = Limits(maxmem: nat, kernphys: nat, first: nat, dconsAddr: nat, dconsSize: nat, bad: nat -> bool)

  function RegionEnd(lim: Limits, x: Region): nat {
    if x.hi < lim.maxmem * PAGE_SIZE then TruncPage(x.hi) else lim.maxmem * PAGE_SIZE
  }

  predicate Blocked(lim: Limits, pa: nat) {
    || (lim.kernphys <= pa < lim.first)
    || (lim.dconsAddr > 0 && TruncPage(lim.dconsAddr) <= pa < lim.dconsAddr + lim.dconsSize)
    || lim.bad(pa)
  }

  /** A whole page of the region, below Maxmem, that nothing blocks. */
  predicate Usable(lim: Limits, x: Region, pa: nat) {
    pa % PAGE_SIZE == 0 && x.lo <= pa < RegionEnd(lim, x) && !Blocked(lim, pa)
  }

  lemma WholePageBelow(pa: nat, a: nat)
    requires pa % 4096 == 0
    ensures pa < a - a % 4096 <==> pa + 4096 <= a
  {
  }

  /** The pages the walk may use are the whole pages of the region, below
      Maxmem, outside the kernel's and the dcons ranges, that are not bad. */
  lemma UsableExact(lim: Limits, x: Region, pa: nat)
    requires pa % 4096 == 0
    ensures Usable(lim, x, pa) <==>
            && x.lo <= pa && pa + 4096 <= x.hi && pa + 4096 <= lim.maxmem * 4096
            && !(lim.kernphys <= pa < lim.first)
            && !(lim.dconsAddr > 0 && lim.dconsAddr - lim.dconsAddr % 4096 <= pa < lim.dconsAddr + lim.dconsSize)
            && !lim.bad(pa)
  {
    WholePageBelow(pa, x.hi);
    WholePageBelow(pa, lim.maxmem * 4096);
  }

  /** pa is a usable page of one of the first i regions, or of region i below limit. */
  ghost predicate Wanted(lim: Limits, rs: seq<Region>, i: nat, limit: nat, pa: nat) {
    || (exists r | 0 <= r < i && r < |rs| :: Usable(lim, rs[r], pa))
    || (i < |rs| && Usable(lim, rs[i], pa) && pa < limit)
  }

  // ----- chunks

  ghost predicate ChunkOk(c: Region) {
    c.lo == c.hi || (c.lo < c.hi && c.lo % PAGE_SIZE == 0 && c.hi % PAGE_SIZE == 0)
  }

  lemma GrownChunkOk(c: Region, pa: nat)
    requires ChunkOk(c) && pa % PAGE_SIZE == 0
    ensures ChunkOk(Region(pa, pa + PAGE_SIZE))
    ensures c.hi == pa ==> ChunkOk(Region(c.lo, pa + PAGE_SIZE)) && c.lo < pa + PAGE_SIZE
  {
  }

  /** Ascending, disjoint, page-aligned chunks; only the first may be empty. */
  ghost predicate ChunksOk(cs: seq<Region>, limit: nat) {
    && cs != [] && cs[|cs| - 1].hi <= limit
    && (forall r | 0 <= r < |cs| :: ChunkOk(cs[r]))
    && (forall r | 0 < r < |cs| :: cs[r].lo < cs[r].hi)
    && (forall r, q | 0 <= r < q < |cs| :: cs[r].hi <= cs[q].lo)
  }

  function Pages(cs: seq<Region>): int {
    if cs == [] then 0
    else Pages(cs[..|cs| - 1]) + (cs[|cs| - 1].hi - cs[|cs| - 1].lo) / PAGE_SIZE
  }

  /** A good page extends the last chunk or starts a new one. */
  function WithPage(cs: seq<Region>, pa: nat): seq<Region>
    requires cs != []
  {
    var last := cs[|cs| - 1];
    if last.hi == pa then cs[|cs| - 1 := Region(last.lo, pa + PAGE_SIZE)]
    else cs + [Region(pa, pa + PAGE_SIZE)]
  }

  lemma WithPageOk(cs: seq<Region>, pa: nat)
    requires ChunksOk(cs, pa) && pa % PAGE_SIZE == 0
    ensures ChunksOk(WithPage(cs, pa), pa + PAGE_SIZE)
  {
    var n := |cs| - 1;
    GrownChunkOk(cs[n], pa);
    forall r | 0 <= r < n ensures cs[r].hi <= cs[n].lo <= cs[n].hi {
      assert ChunkOk(cs[n]);
    }
  }

  lemma WithPageCounts(cs: seq<Region>, pa: nat)
    requires cs != []
    ensures Pages(WithPage(cs, pa)) == Pages(cs) + 1
  {
    var n := |cs| - 1;
    var m := WithPage(cs, pa);
    if cs[n].hi == pa {
      assert m[..n] == cs[..n];
    } else {
      assert m[..|cs|] == cs;
    }
  }

  lemma WithPageCovers(cs: seq<Region>, pa: nat, a: int)
    requires ChunksOk(cs, pa)
    ensures Covers(WithPage(cs, pa), a) <==> Covers(cs, a) || pa <= a < pa + PAGE_SIZE
  {
    var n := |cs| - 1;
    if cs[n].hi == pa {
      UpdateCovers(cs, n, Region(cs[n].lo, pa + PAGE_SIZE), a);
      UpdateCovers(WithPage(cs, pa), n, cs[n], a);
    } else {
      CoversSnoc(cs, Region(pa, pa + PAGE_SIZE), a);
    }
  }

  // ----- the walk

  /** The chunks hold usable pages met so far only, and all of them unless the
      array ran out: full means that a page found every chunk taken. */
  ghost predicate Gathered(lim: Limits, rs: seq<Region>, i: nat, limit: nat, cs: seq<Region>, full: bool) {
    && ChunksOk(cs, limit) && |cs| <= MAX_CHUNKS && (full ==> |cs| == MAX_CHUNKS)
    && (forall pa: nat | pa % PAGE_SIZE == 0 && Covers(cs, pa) :: Wanted(lim, rs, i, limit, pa))
    && (!full ==> forall pa: nat | Wanted(lim, rs, i, limit, pa) :: Covers(cs, pa))
  }

  lemma BeforeNextPage(pa: nat, p: nat)
    requires pa % PAGE_SIZE == 0 && p % PAGE_SIZE == 0
    ensures p < pa + PAGE_SIZE <==> p < pa || p == pa
  {
  }

  lemma WantedStep(lim: Limits, rs: seq<Region>, i: nat, pa: nat, p: nat)
    requires i < |rs| && pa % PAGE_SIZE == 0 && p % PAGE_SIZE == 0
    ensures Wanted(lim, rs, i, pa + PAGE_SIZE, p) <==>
            Wanted(lim, rs, i, pa, p) || (p == pa && Usable(lim, rs[i], pa))
  {
    BeforeNextPage(pa, p);
  }

  lemma WantedIsPage(lim: Limits, rs: seq<Region>, i: nat, limit: nat, p: nat)
    requires Wanted(lim, rs, i, limit, p)
    ensures p % PAGE_SIZE == 0
  {
  }

  lemma TakePoint(lim: Limits, rs: seq<Region>, i: nat, pa: nat, cs: seq<Region>, p: nat)
    requires i < |rs| && Usable(lim, rs[i], pa) && ChunksOk(cs, pa) && p % PAGE_SIZE == 0
    ensures Covers(WithPage(cs, pa), p) <==> Covers(cs, p) || p == pa
    ensures Wanted(lim, rs, i, pa + PAGE_SIZE, p) <==> Wanted(lim, rs, i, pa, p) || p == pa
  {
    WithPageCovers(cs, pa, p);
    BeforeNextPage(p, pa);
    BeforeNextPage(pa, p);
    WantedStep(lim, rs, i, pa, p);
  }

  lemma TakeStep(lim: Limits, rs: seq<Region>, i: nat, pa: nat, cs: seq<Region>, full: bool)
    requires i < |rs| && Usable(lim, rs[i], pa) && Gathered(lim, rs, i, pa, cs, full)
    requires |WithPage(cs, pa)| <= MAX_CHUNKS
    ensures Gathered(lim, rs, i, pa + PAGE_SIZE, WithPage(cs, pa), full)
  {
    WithPageOk(cs, pa);
    forall p: nat | p % PAGE_SIZE == 0 && Covers(WithPage(cs, pa), p)
      ensures Wanted(lim, rs, i, pa + PAGE_SIZE, p)
    {
      TakePoint(lim, rs, i, pa, cs, p);
    }
    forall p: nat | !full && Wanted(lim, rs, i, pa + PAGE_SIZE, p) ensures Covers(WithPage(cs, pa), p) {
      WantedIsPage(lim, rs, i, pa + PAGE_SIZE, p);
      TakePoint(lim, rs, i, pa, cs, p);
    }
  }

  lemma SkipStep(lim: Limits, rs: seq<Region>, i: nat, pa: nat, cs: seq<Region>, full: bool)
    requires i < |rs| && pa % PAGE_SIZE == 0 && Gathered(lim, rs, i, pa, cs, full)
    requires !full ==> !Usable(lim, rs[i], pa)
    ensures Gathered(lim, rs, i, pa + PAGE_SIZE, cs, full)
  {
    forall p: nat | p % PAGE_SIZE == 0
      ensures Wanted(lim, rs, i, pa, p) ==> Wanted(lim, rs, i, pa + PAGE_SIZE, p)
      ensures !full && Wanted(lim, rs, i, pa + PAGE_SIZE, p) ==> Wanted(lim, rs, i, pa, p)
    {
      WantedStep(lim, rs, i, pa, p);
    }
  }

  /** No page of a region starts before its first whole page. */
  lemma FirstPage(lo: nat, p: nat)
    requires p % PAGE_SIZE == 0 && lo <= p
    ensures RoundPage(lo) <= p
  {
  }

  lemma WantedNext(lim: Limits, rs: seq<Region>, i: nat, pa: nat, limit: nat, p: nat)
    requires i < |rs| && (i + 1 < |rs| ==> limit == RoundPage(rs[i + 1].lo))
    ensures Wanted(lim, rs, i, pa, p) ==> Wanted(lim, rs, i + 1, limit, p)
    ensures RegionEnd(lim, rs[i]) <= pa && Wanted(lim, rs, i + 1, limit, p) ==> Wanted(lim, rs, i, pa, p)
  {
    if i + 1 < |rs| && Usable(lim, rs[i + 1], p) {
      FirstPage(rs[i + 1].lo, p);
    }
  }

  /** Past the end of region i, its pages count as met; the next limit is the
      first page of the next region. */
  lemma RegionDone(lim: Limits, rs: seq<Region>, i: nat, pa: nat, limit: nat, cs: seq<Region>, full: bool)
    requires i < |rs| && Gathered(lim, rs, i, pa, cs, full) && (RegionEnd(lim, rs[i]) <= pa || full)
    requires i + 1 < |rs| ==> limit == RoundPage(rs[i + 1].lo)
    requires cs[|cs| - 1].hi <= limit
    ensures Gathered(lim, rs, i + 1, limit, cs, full)
  {
    forall p: nat
      ensures Wanted(lim, rs, i, pa, p) ==> Wanted(lim, rs, i + 1, limit, p)
      ensures !full && Wanted(lim, rs, i + 1, limit, p) ==> Wanted(lim, rs, i, pa, p)
    {
      WantedNext(lim, rs, i, pa, limit, p);
    }
  }

  lemma WalkStarts(lim: Limits, rs: seq<Region>)
    requires rs != []
    ensures Gathered(lim, rs, 0, RoundPage(rs[0].lo), [Region(rs[0].lo, rs[0].lo)], false)
  {
    forall p: nat ensures !Wanted(lim, rs, 0, RoundPage(rs[0].lo), p) {
      if Usable(lim, rs[0], p) {
        FirstPage(rs[0].lo, p);
      }
    }
  }

  /** phys_avail as chunks, its index standing at the end of the last one. */
  ghost predicate AvailOk(s: seq<nat>, paIndx: nat) {
    |s| == PHYS_AVAIL_ENTRIES + 2 && paIndx % 2 == 1 && paIndx < PHYS_AVAIL_ENTRIES
  }

  ghost function Chunks(s: seq<nat>, paIndx: nat): (cs: seq<Region>)
    requires AvailOk(s, paIndx)
    ensures |cs| == (paIndx + 1) / 2
  {
    Regions(s, (paIndx + 1) / 2)
  }

  /** Put a good page into phys_avail. */
  method TakePage(pa: nat, physAvail: array<nat>, paIndx: nat) returns (newIndx: nat, full: bool)
    requires AvailOk(physAvail[..], paIndx)
    modifies physAvail
    ensures AvailOk(physAvail[..], newIndx)
    ensures var want := WithPage(old(Chunks(physAvail[..], paIndx)), pa);
            && full == (|want| > MAX_CHUNKS)
            && (full ==> newIndx == paIndx && physAvail[..] == old(physAvail[..]))
            && (!full ==> Chunks(physAvail[..], newIndx) == want)
  {
    ghost var s, n := physAvail[..], (paIndx + 1) / 2;
    assert Regions(s, n)[n - 1] == Region(s[paIndx - 1], s[paIndx]);
    full, newIndx := false, paIndx;
    if physAvail[paIndx] == pa {
      UpdatedRegions(s, n, n - 1, pa + PAGE_SIZE);
      physAvail[paIndx] := physAvail[paIndx] + PAGE_SIZE;
      assert physAvail[..] == s[2 * (n - 1) + 1 := pa + PAGE_SIZE];
    } else {
      newIndx := newIndx + 1;
      if newIndx == PHYS_AVAIL_ENTRIES {
        newIndx := newIndx - 1;
        full := true;
        return;
      }
      physAvail[newIndx] := pa;
      newIndx := newIndx + 1;
      physAvail[newIndx] := pa + PAGE_SIZE;
      assert Regions(physAvail[..], n + 1) == Regions(s, n) + [Region(pa, pa + PAGE_SIZE)];
    }
  }

  function Max(a: nat, b: nat): nat {
    if a < b then b else a
  }

  lemma PageBounds(lim: Limits, x: Region)
    ensures RoundPage(x.lo) % PAGE_SIZE == 0 && x.lo <= RoundPage(x.lo)
    ensures RegionEnd(lim, x) % PAGE_SIZE == 0
  {
  }

  lemma NextPageFits(pa: nat, end: nat)
    requires pa < end && pa % PAGE_SIZE == 0 && end % PAGE_SIZE == 0
    ensures pa + PAGE_SIZE <= end && (pa + PAGE_SIZE) % PAGE_SIZE == 0
  {
  }

  /** Giving up on the rest of a region leaves what was gathered sound. */
  lemma StopWalk(lim: Limits, rs: seq<Region>, i: nat, pa: nat, top: nat, cs: seq<Region>)
    requires i < |rs| && pa <= top && Gathered(lim, rs, i, pa, cs, true)
    ensures Gathered(lim, rs, i, top, cs, true)
  {
  }

  /** phys_avail holds these chunks. */
  ghost predicate Holds(s: seq<nat>, paIndx: nat, cs: seq<Region>) {
    AvailOk(s, paIndx) && Chunks(s, paIndx) == cs
  }

  /** One page of a region: block it out, take it, or find phys_avail full, in
      which case the rest of the region, up to top, is given up. limit is how
      far the walk has come. */
  method VisitPage(lim: Limits, ghost rs: seq<Region>, ghost i: nat, pa: nat, ghost top: nat,
                   physAvail: array<nat>, paIndx: nat, physmem: int, wasFull: bool, ghost cs: seq<Region>)
    returns (newIndx: nat, newPhysmem: int, full: bool, stop: bool, ghost cs': seq<Region>, ghost limit: nat)
    requires Holds(physAvail[..], paIndx, cs) && i < |rs|
    requires pa % PAGE_SIZE == 0 && rs[i].lo <= pa < RegionEnd(lim, rs[i]) && pa <= top
    requires Gathered(lim, rs, i, pa, cs, wasFull)
    modifies physAvail
    ensures Holds(physAvail[..], newIndx, cs') && newPhysmem - physmem == Pages(cs') - Pages(cs)
    ensures Gathered(lim, rs, i, limit, cs', full)
    ensures limit == if stop then top else pa + PAGE_SIZE
  {
    newIndx, newPhysmem, full, stop, cs', limit := paIndx, physmem, wasFull, false, cs, pa + PAGE_SIZE;
    if Blocked(lim, pa) {
      SkipStep(lim, rs, i, pa, cs, full);
      return;
    }
    newIndx, stop := TakePage(pa, physAvail, paIndx);
    if stop {
      full, limit := true, top;
      StopWalk(lim, rs, i, pa, top, cs);
    } else {
      TakeStep(lim, rs, i, pa, cs, full);
      WithPageCounts(cs, pa);
      newPhysmem, cs' := physmem + 1, WithPage(cs, pa);
    }
  }

  /** The inner loop of getmemsize, from one page boundary to another. */
  method WalkPages(lim: Limits, ghost rs: seq<Region>, ghost i: nat, start: nat, end: nat,
                   physAvail: array<nat>, paIndx: nat, physmem: int, wasFull: bool, ghost cs: seq<Region>)
    returns (newIndx: nat, newPhysmem: int, full: bool, ghost cs': seq<Region>)
    requires Holds(physAvail[..], paIndx, cs) && i < |rs|
    requires rs[i].lo <= start && end == RegionEnd(lim, rs[i])
    requires start % PAGE_SIZE == 0 && end % PAGE_SIZE == 0
    requires Gathered(lim, rs, i, start, cs, wasFull)
    modifies physAvail
    ensures Holds(physAvail[..], newIndx, cs') && newPhysmem - physmem == Pages(cs') - Pages(cs)
    ensures Gathered(lim, rs, i, Max(start, end), cs', full)
  {
    newIndx, newPhysmem, full, cs' := paIndx, physmem, wasFull, cs;
    ghost var top, limit := Max(start, end), start;
    var pa := start;
    while pa < end
      invariant pa % PAGE_SIZE == 0 && start <= pa <= top && limit == pa
      invariant Holds(physAvail[..], newIndx, cs') && newPhysmem - physmem == Pages(cs') - Pages(cs)
      invariant Gathered(lim, rs, i, limit, cs', full)
    {
      NextPageFits(pa, end);
      var stop;
      newIndx, newPhysmem, full, stop, cs', limit :=
        VisitPage(lim, rs, i, pa, top, physAvail, newIndx, newPhysmem, full, cs');
      if stop {
        return;
      }
      pa := pa + PAGE_SIZE;
    }
  }

  /** One region, from its first whole page on. */
  method WalkRegion(lim: Limits, ghost rs: seq<Region>, ghost i: nat, x: Region,
                    physAvail: array<nat>, paIndx: nat, physmem: int, wasFull: bool, ghost cs: seq<Region>)
    returns (newIndx: nat, newPhysmem: int, full: bool, ghost cs': seq<Region>)
    requires Holds(physAvail[..], paIndx, cs) && i < |rs| && rs[i] == x
    requires Gathered(lim, rs, i, RoundPage(x.lo), cs, wasFull)
    modifies physAvail
    ensures Holds(physAvail[..], newIndx, cs') && newPhysmem - physmem == Pages(cs') - Pages(cs)
    ensures Gathered(lim, rs, i, Max(RoundPage(x.lo), RegionEnd(lim, x)), cs', full)
  {
    PageBounds(lim, x);
    newIndx, newPhysmem, full, cs' := WalkPages(lim, rs, i, RoundPage(x.lo), RegionEnd(lim, x),
                                                physAvail, paIndx, physmem, wasFull, cs);
  }

  lemma PagesInOrder(lo: nat, hi: nat, next: nat)
    requires lo < hi <= next
    ensures RoundPage(lo) <= RoundPage(next) && TruncPage(hi) <= hi <= RoundPage(next)
  {
  }

  lemma NextLimit(lim: Limits, rs: seq<Region>, i: nat)
    requires Sorted(rs) && i + 1 < |rs|
    ensures Max(RoundPage(rs[i].lo), RegionEnd(lim, rs[i])) <= RoundPage(rs[i + 1].lo)
  {
    assert rs[i].lo < rs[i].hi && rs[i].hi <= rs[i + 1].lo;
    PagesInOrder(rs[i].lo, rs[i].hi, rs[i + 1].lo);
  }

  /** The limit the walk has reached after i regions. */
  ghost function LimitAt(lim: Limits, rs: seq<Region>, i: nat): nat
    requires rs != []
  {
    if i < |rs| then RoundPage(rs[i].lo)
    else Max(RoundPage(rs[|rs| - 1].lo), RegionEnd(lim, rs[|rs| - 1]))
  }

  lemma RegionStep(lim: Limits, rs: seq<Region>, i: nat, cs: seq<Region>, full: bool)
    requires Sorted(rs) && i < |rs|
    requires Gathered(lim, rs, i, Max(RoundPage(rs[i].lo), RegionEnd(lim, rs[i])), cs, full)
    ensures Gathered(lim, rs, i + 1, LimitAt(lim, rs, i + 1), cs, full)
  {
    var top := Max(RoundPage(rs[i].lo), RegionEnd(lim, rs[i]));
    if i + 1 < |rs| { NextLimit(lim, rs, i); }
    RegionDone(lim, rs, i, top, LimitAt(lim, rs, i + 1), cs, full);
  }

  /** phys_avail starts with one empty chunk at the bottom of the map. */
  method StartChunk(lim: Limits, ghost rs: seq<Region>, bottom: nat, physAvail: array<nat>)
    returns (paIndx: nat, ghost cs: seq<Region>)
    requires physAvail.Length == PHYS_AVAIL_ENTRIES + 2 && rs != [] && rs[0].lo == bottom
    modifies physAvail
    ensures Holds(physAvail[..], paIndx, cs) && Pages(cs) == 0
    ensures Gathered(lim, rs, 0, LimitAt(lim, rs, 0), cs, false)
  {
    paIndx := 0;
    physAvail[paIndx] := bottom;
    paIndx := paIndx + 1;
    physAvail[paIndx] := bottom;
    WalkStarts(lim, rs);
    cs := [Region(bottom, bottom)];
    assert Chunks(physAvail[..], paIndx) == cs;
  }

  /** The walk of getmemsize over the whole map. */
  method GatherPages(lim: Limits, physmap: array<nat>, n: nat, physAvail: array<nat>, physmem: int)
    returns (paIndx: nat, newPhysmem: int, full: bool, ghost cs: seq<Region>)
    requires physmap != physAvail && physAvail.Length == PHYS_AVAIL_ENTRIES + 2
    requires 0 < n && MapOk(physmap[..], n)
    modifies physAvail
    ensures Holds(physAvail[..], paIndx, cs) && newPhysmem - physmem == Pages(cs)
    ensures var rs := Regions(physmap[..], n); Gathered(lim, rs, n, LimitAt(lim, rs, n), cs, full)
  {
    ghost var rs := Regions(physmap[..], n);
    newPhysmem, full := physmem, false;
    paIndx, cs := StartChunk(lim, rs, physmap[0], physAvail);
    var i := 0;
    while i < n
      invariant i <= n && Regions(physmap[..], n) == rs
      invariant Holds(physAvail[..], paIndx, cs) && newPhysmem - physmem == Pages(cs)
      invariant Gathered(lim, rs, i, LimitAt(lim, rs, i), cs, full)
    {
      var x := Region(physmap[2 * i], physmap[2 * i + 1]);
      assert rs[i] == x;
      paIndx, newPhysmem, full, cs := WalkRegion(lim, rs, i, x, physAvail, paIndx, newPhysmem, full, cs);
      RegionStep(lim, rs, i, cs, full);
      i := i + 1;
    }
  }

  /** A chunk larger than one page plus the message buffer, spare bytes in all. */
  predicate Roomy(c: Region, spare: nat) {
    c.lo + spare < c.hi
  }

  /** The chunks up to the last roomy one. */
  function Trimmed(cs: seq<Region>, spare: nat): seq<Region> {
    if cs == [] || Roomy(cs[|cs| - 1], spare) then cs else Trimmed(cs[..|cs| - 1], spare)
  }

  ghost predicate SomeRoomy(cs: seq<Region>, spare: nat) {
    exists c | c in cs :: Roomy(c, spare)
  }

  lemma TrimOne(cs: seq<Region>, spare: nat)
    requires SomeRoomy(cs, spare) && !Roomy(cs[|cs| - 1], spare)
    ensures |cs| > 1 && SomeRoomy(cs[..|cs| - 1], spare) && Trimmed(cs[..|cs| - 1], spare) == Trimmed(cs, spare)
  {
    var c :| c in cs && Roomy(c, spare);
    assert cs == cs[..|cs| - 1] + [cs[|cs| - 1]];
    assert c in cs[..|cs| - 1];
  }

  lemma {:induction false} TrimmedEnds(cs: seq<Region>, spare: nat)
    requires SomeRoomy(cs, spare)
    ensures var kept := Trimmed(cs, spare); kept != [] && kept <= cs && Roomy(kept[|kept| - 1], spare)
  {
    var n := |cs| - 1;
    if !Roomy(cs[n], spare) {
      TrimOne(cs, spare);
      TrimmedEnds(cs[..n], spare);
    }
  }

  lemma PrefixOk(cs: seq<Region>, kept: seq<Region>, limit: nat)
    requires ChunksOk(cs, limit) && kept != [] && kept <= cs
    ensures ChunksOk(kept, limit)
  {
    var k, n := |kept| - 1, |cs| - 1;
    assert kept[k] == cs[k];
    assert ChunkOk(cs[n]) && (k < n ==> cs[k].hi <= cs[n].lo);
  }

  lemma {:induction false} DroppedAreSmall(cs: seq<Region>, spare: nat, r: nat)
    requires |Trimmed(cs, spare)| <= r < |cs|
    ensures cs[r].hi <= cs[r].lo + spare
    decreases |cs|
  {
    if r < |cs| - 1 { DroppedAreSmall(cs[..|cs| - 1], spare, r); }
  }

  /** Trimming keeps a prefix, which is still well formed and ends in a chunk
      with more than the spare bytes; every chunk it drops has no more. */
  lemma TrimmedIsPrefix(cs: seq<Region>, spare: nat, limit: nat)
    requires ChunksOk(cs, limit) && SomeRoomy(cs, spare)
    ensures var kept := Trimmed(cs, spare);
            && kept <= cs && ChunksOk(kept, limit)
            && kept[|kept| - 1].lo + spare < kept[|kept| - 1].hi
            && forall r | |kept| <= r < |cs| :: cs[r].hi <= cs[r].lo + spare
  {
    TrimmedEnds(cs, spare);
    PrefixOk(cs, Trimmed(cs, spare), limit);
    forall r | |Trimmed(cs, spare)| <= r < |cs| ensures cs[r].hi <= cs[r].lo + spare {
      DroppedAreSmall(cs, spare, r);
    }
  }

  /** Clear the last chunk and take its pages off the count. */
  method DropLast(physAvail: array<nat>, paIndx: nat, physmem: int) returns (newIndx: nat, newPhysmem: int)
    requires AvailOk(physAvail[..], paIndx) && paIndx > 1
    modifies physAvail
    ensures AvailOk(physAvail[..], newIndx)
    ensures var cs := old(Chunks(physAvail[..], paIndx));
            Chunks(physAvail[..], newIndx) == cs[..|cs| - 1]
    ensures newPhysmem - physmem == Pages(Chunks(physAvail[..], newIndx)) - old(Pages(Chunks(physAvail[..], paIndx)))
  {
    ghost var cs := Chunks(physAvail[..], paIndx);
    assert cs[|cs| - 1] == Region(physAvail[paIndx - 1], physAvail[paIndx]);
    newIndx := paIndx;
    newPhysmem := physmem - (physAvail[newIndx] - physAvail[newIndx - 1]) / PAGE_SIZE;
    physAvail[newIndx] := 0;
    newIndx := newIndx - 1;
    physAvail[newIndx] := 0;
    newIndx := newIndx - 1;
    assert Chunks(physAvail[..], newIndx) == cs[..|cs| - 1];
  }

  lemma LastChunk(s: seq<nat>, paIndx: nat)
    requires AvailOk(s, paIndx)
    ensures var cs := Chunks(s, paIndx); cs[|cs| - 1] == Region(s[paIndx - 1], s[paIndx])
  {
  }

  /** The trimming loop of getmemsize; it stops because some chunk is roomy. */
  method TrimChunks(physAvail: array<nat>, paIndx: nat, physmem: int, spare: nat)
    returns (newIndx: nat, newPhysmem: int)
    requires AvailOk(physAvail[..], paIndx) && SomeRoomy(Chunks(physAvail[..], paIndx), spare)
    modifies physAvail
    ensures AvailOk(physAvail[..], newIndx)
    ensures Chunks(physAvail[..], newIndx) == Trimmed(old(Chunks(physAvail[..], paIndx)), spare)
    ensures newPhysmem - physmem == Pages(Chunks(physAvail[..], newIndx)) - old(Pages(Chunks(physAvail[..], paIndx)))
  {
    ghost var cs, now := Chunks(physAvail[..], paIndx), Chunks(physAvail[..], paIndx);
    newIndx, newPhysmem := paIndx, physmem;
    LastChunk(physAvail[..], newIndx);
    while physAvail[newIndx - 1] + spare >= physAvail[newIndx]
      invariant AvailOk(physAvail[..], newIndx) && now == Chunks(physAvail[..], newIndx)
      invariant now[|now| - 1] == Region(physAvail[newIndx - 1], physAvail[newIndx])
      invariant SomeRoomy(now, spare) && Trimmed(now, spare) == Trimmed(cs, spare)
      invariant newPhysmem - physmem == Pages(now) - Pages(cs)
      decreases newIndx
    {
      TrimOne(now, spare);
      now := now[..|now| - 1];
      newIndx, newPhysmem := DropLast(physAvail, newIndx, newPhysmem);
      LastChunk(physAvail[..], newIndx);
    }
  }

  method HasRoomy(physAvail: array<nat>, paIndx: nat, spare: nat) returns (found: bool)
    requires AvailOk(physAvail[..], paIndx)
    ensures found <==> SomeRoomy(Chunks(physAvail[..], paIndx), spare)
  {
    ghost var cs := Chunks(physAvail[..], paIndx);
    var k := 0;
    while k < paIndx
      invariant k % 2 == 0 && k <= paIndx + 1
      invariant forall r | 0 <= r < k / 2 :: !Roomy(cs[r], spare)
    {
      assert cs[k / 2] == Region(physAvail[k], physAvail[k + 1]);
      if Roomy(Region(physAvail[k], physAvail[k + 1]), spare) {
        assert cs[k / 2] in cs;
        return true;
      }
      k := k + 2;
    }
    found := false;
  }

  /** What trimming leaves: ascending disjoint chunks of usable pages only, the
      last one with room for the message buffer. */
  ghost predicate Trimming(lim: Limits, rs: seq<Region>, cs: seq<Region>, spare: nat)
    requires rs != []
  {
    && ChunksOk(cs, LimitAt(lim, rs, |rs|)) && Roomy(cs[|cs| - 1], spare)
    && forall pa: nat | pa % PAGE_SIZE == 0 && Covers(cs, pa) :: exists x | x in rs :: Usable(lim, x, pa)
  }

  lemma KeptIsUsable(lim: Limits, rs: seq<Region>, cs: seq<Region>, kept: seq<Region>, full: bool)
    requires rs != [] && Gathered(lim, rs, |rs|, LimitAt(lim, rs, |rs|), cs, full) && kept <= cs
    ensures forall pa: nat | pa % PAGE_SIZE == 0 && Covers(kept, pa) :: exists x | x in rs :: Usable(lim, x, pa)
  {
    forall pa: nat | pa % PAGE_SIZE == 0 && Covers(kept, pa) ensures exists x | x in rs :: Usable(lim, x, pa) {
      var r :| 0 <= r < |kept| && kept[r].lo <= pa < kept[r].hi;
      assert cs[r] == kept[r];
      assert Wanted(lim, rs, |rs|, LimitAt(lim, rs, |rs|), pa);
      var q :| 0 <= q < |rs| && Usable(lim, rs[q], pa);
      assert rs[q] in rs;
    }
  }

  lemma TrimmedIsUsable(lim: Limits, rs: seq<Region>, cs: seq<Region>, spare: nat, full: bool)
    requires rs != [] && Gathered(lim, rs, |rs|, LimitAt(lim, rs, |rs|), cs, full) && SomeRoomy(cs, spare)
    ensures Trimming(lim, rs, Trimmed(cs, spare), spare)
  {
    TrimmedIsPrefix(cs, spare, LimitAt(lim, rs, |rs|));
    KeptIsUsable(lim, rs, cs, Trimmed(cs, spare), full);
  }

  /** No page of these chunks is the kernel's, in the dcons buffer or bad; each
      one lies wholly in a region and below Maxmem. */
  ghost predicate HoldsFree(lim: Limits, rs: seq<Region>, cs: seq<Region>) {
    forall pa: nat | pa % 4096 == 0 && Covers(cs, pa) ::
      && !(lim.kernphys <= pa < lim.first)
      && !(lim.dconsAddr > 0 && lim.dconsAddr - lim.dconsAddr % 4096 <= pa < lim.dconsAddr + lim.dconsSize)
      && !lim.bad(pa)
      && pa + 4096 <= lim.maxmem * 4096
      && exists x | x in rs :: x.lo <= pa && pa + 4096 <= x.hi
  }

  /** Every whole page of a region, below Maxmem, that is not the kernel's, not
      in the dcons buffer and not bad is in these chunks. */
  ghost predicate HoldsAllFree(lim: Limits, rs: seq<Region>, cs: seq<Region>) {
    forall pa: nat, x |
      && pa % 4096 == 0 && x in rs && x.lo <= pa && pa + 4096 <= x.hi
      && pa + 4096 <= lim.maxmem * 4096
      && !(lim.kernphys <= pa < lim.first)
      && !(lim.dconsAddr > 0 && lim.dconsAddr - lim.dconsAddr % 4096 <= pa < lim.dconsAddr + lim.dconsSize)
      && !lim.bad(pa) ::
      Covers(cs, pa)
  }

  lemma TrimmedHoldsFree(lim: Limits, rs: seq<Region>, cs: seq<Region>, spare: nat)
    requires rs != [] && Trimming(lim, rs, cs, spare)
    ensures HoldsFree(lim, rs, cs)
  {
    forall pa: nat | pa % 4096 == 0 && Covers(cs, pa)
      ensures exists x | x in rs :: Usable(lim, x, pa) && x.lo <= pa && pa + 4096 <= x.hi
    {
      var x :| x in rs && Usable(lim, x, pa);
      UsableExact(lim, x, pa);
    }
    forall pa: nat, x | pa % 4096 == 0 && Covers(cs, pa) && x in rs && Usable(lim, x, pa)
      ensures !(lim.kernphys <= pa < lim.first) && !lim.bad(pa) && pa + 4096 <= lim.maxmem * 4096
      ensures !(lim.dconsAddr > 0 && lim.dconsAddr - lim.dconsAddr % 4096 <= pa < lim.dconsAddr + lim.dconsSize)
    {
      UsableExact(lim, x, pa);
    }
  }

  lemma GatheredHoldsAllFree(lim: Limits, rs: seq<Region>, limit: nat, cs: seq<Region>)
    requires Gathered(lim, rs, |rs|, limit, cs, false)
    ensures HoldsAllFree(lim, rs, cs)
  {
    forall pa: nat, x | pa % 4096 == 0 && x in rs && Usable(lim, x, pa) ensures Covers(cs, pa) {
      var r :| 0 <= r < |rs| && rs[r] == x;
      assert Wanted(lim, rs, |rs|, limit, pa);
    }
    forall pa: nat, x |
      && pa % 4096 == 0 && x in rs && x.lo <= pa && pa + 4096 <= x.hi && pa + 4096 <= lim.maxmem * 4096
      && !(lim.kernphys <= pa < lim.first) && !lim.bad(pa)
      && !(lim.dconsAddr > 0 && lim.dconsAddr - lim.dconsAddr % 4096 <= pa < lim.dconsAddr + lim.dconsSize)
      ensures Usable(lim, x, pa)
    {
      UsableExact(lim, x, pa);
    }
  }

  lemma RoundPageIs(a: nat)
    ensures RoundPage(a) == (a + 4095) / 4096 * 4096
  {
  }

  lemma LastHasRoom(s: seq<nat>, paIndx: nat, msgbufsize: nat)
    requires AvailOk(s, paIndx)
    requires var cs := Chunks(s, paIndx); Roomy(cs[|cs| - 1], PAGE_SIZE + RoundPage(msgbufsize))
    ensures s[paIndx - 1] + 4096 + (msgbufsize + 4095) / 4096 * 4096 < s[paIndx]
  {
    LastChunk(s, paIndx);
    RoundPageIs(msgbufsize);
  }

  /** What getmemsize leaves in phys_avail: of the gathered chunks those up to
      the last large one, free pages only, counted, and room for the message
      buffer and a page more in the last chunk. */
  ghost predicate Sized(lim: Limits, rs: seq<Region>, gathered: seq<Region>, msgbufsize: nat,
                        s: seq<nat>, paIndx: nat, grown: int)
    requires rs != []
  {
    && AvailOk(s, paIndx)
    && s[paIndx - 1] + 4096 + (msgbufsize + 4095) / 4096 * 4096 < s[paIndx]
    && var cs := Chunks(s, paIndx);
       && cs == Trimmed(gathered, PAGE_SIZE + RoundPage(msgbufsize))
       && Trimming(lim, rs, cs, PAGE_SIZE + RoundPage(msgbufsize))
       && HoldsFree(lim, rs, cs)
       && grown == Pages(cs)
  }

  lemma TrimmedIsSized(lim: Limits, rs: seq<Region>, gathered: seq<Region>, full: bool, msgbufsize: nat,
                       s: seq<nat>, paIndx: nat)
    requires rs != [] && Gathered(lim, rs, |rs|, LimitAt(lim, rs, |rs|), gathered, full)
    requires SomeRoomy(gathered, PAGE_SIZE + RoundPage(msgbufsize))
    requires AvailOk(s, paIndx) && Chunks(s, paIndx) == Trimmed(gathered, PAGE_SIZE + RoundPage(msgbufsize))
    ensures Sized(lim, rs, gathered, msgbufsize, s, paIndx, Pages(Chunks(s, paIndx)))
  {
    var spare := PAGE_SIZE + RoundPage(msgbufsize);
    TrimmedIsUsable(lim, rs, gathered, spare, full);
    TrimmedHoldsFree(lim, rs, Trimmed(gathered, spare), spare);
    LastHasRoom(s, paIndx, msgbufsize);
  }

  /** The chunk-building and trimming part of getmemsize, up to the point where
      the message buffer is cut off. gathered are the chunks before trimming.
      None stands for the case in which no chunk is roomy, where the source's
      trimming loop runs off the array. */
  method GetMemSize(lim: Limits, physmap: array<nat>, n: nat, physAvail: array<nat>, physmem: int, msgbufsize: nat)
    returns (r: Option<(nat, int)>, full: bool, ghost gathered: seq<Region>)
    requires physmap != physAvail && physAvail.Length == PHYS_AVAIL_ENTRIES + 2
    requires 0 < n && MapOk(physmap[..], n)
    modifies physAvail
    ensures var rs := Regions(physmap[..], n); Gathered(lim, rs, n, LimitAt(lim, rs, n), gathered, full)
    ensures if full then |gathered| == 63 else HoldsAllFree(lim, Regions(physmap[..], n), gathered)
    ensures r.Some? <==> SomeRoomy(gathered, PAGE_SIZE + RoundPage(msgbufsize))
    ensures r.Some? ==> Sized(lim, Regions(physmap[..], n), gathered, msgbufsize,
                              physAvail[..], r.value.0, r.value.1 - physmem)
  {
    var paIndx, newPhysmem;
    paIndx, newPhysmem, full, gathered := GatherPages(lim, physmap, n, physAvail, physmem);
    ghost var rs := Regions(physmap[..], n);
    if !full {
      GatheredHoldsAllFree(lim, rs, LimitAt(lim, rs, n), gathered);
    }
    var spare := PAGE_SIZE + RoundPage(msgbufsize);
    var enough := HasRoomy(physAvail, paIndx, spare);
    if !enough {
      return None, full, gathered;
    }
    paIndx, newPhysmem := TrimChunks(physAvail, paIndx, newPhysmem, spare);
    TrimmedIsSized(lim, rs, gathered, full, msgbufsize, physAvail[..], paIndx);
    r := Some((paIndx, newPhysmem));
  }

  // ----- from the firmware's map to phys_avail

  /** Every address of this page is in a memory region the firmware reported and
      the map accepted. */
  ghost predicate PageAccepted(smaps: seq<Smap>, pa: nat) {
    forall a: int | pa <= a < pa + 4096 :: Covers(Accepted(smaps), a)
  }

  lemma UsableIsAccepted(lim: Limits, rs: seq<Region>, smaps: seq<Smap>, x: Region, pa: nat)
    requires SameCover(rs, Accepted(smaps)) && x in rs && Usable(lim, x, pa)
    ensures PageAccepted(smaps, pa)
  {
    UsableExact(lim, x, pa);
    var r :| 0 <= r < |rs| && rs[r] == x;
    forall a: int | pa <= a < pa + PAGE_SIZE ensures Covers(Accepted(smaps), a) {
      assert rs[r].lo <= a < rs[r].hi;
      assert Covers(rs, a);
    }
  }

  lemma PagesAccepted(lim: Limits, rs: seq<Region>, smaps: seq<Smap>, cs: seq<Region>, spare: nat)
    requires rs != [] && SameCover(rs, Accepted(smaps)) && Trimming(lim, rs, cs, spare)
    ensures forall pa: nat | pa % PAGE_SIZE == 0 && Covers(cs, pa) :: PageAccepted(smaps, pa)
  {
    forall pa: nat | pa % PAGE_SIZE == 0 && Covers(cs, pa) ensures PageAccepted(smaps, pa) {
      var x :| x in rs && Usable(lim, x, pa);
      UsableIsAccepted(lim, rs, smaps, x, pa);
    }
  }

  /** bios_add_smap_entries and then getmemsize, over n regions. None if the
      firmware's map was cut short or is empty, or if no chunk is large enough. */
  method BuildPhysAvail(smaps: seq<Smap>, lim: Limits, physmap: array<nat>, physAvail: array<nat>,
                        physmem: int, msgbufsize: nat)
    returns (r: Option<(nat, int)>, done: nat, full: bool, ghost n: nat, ghost gathered: seq<Region>)
    requires physmap != physAvail && physAvail.Length == PHYS_AVAIL_ENTRIES + 2
    requires MapOk(physmap[..], 0) && forall x | x in smaps && x.memory :: x.base + x.length < WORD_SPAN
    modifies physmap, physAvail
    ensures done <= |smaps| && (done == |smaps| ==> Folded(physmap[..], n, smaps))
    ensures done == |smaps| && n > 0 ==>
              var rs := Regions(physmap[..], n); Gathered(lim, rs, n, LimitAt(lim, rs, n), gathered, full)
    ensures r.Some? <==> done == |smaps| && n > 0 && SomeRoomy(gathered, PAGE_SIZE + RoundPage(msgbufsize))
    ensures r.Some? ==>
              && Sized(lim, Regions(physmap[..], n), gathered, msgbufsize,
                       physAvail[..], r.value.0, r.value.1 - physmem)
              && forall pa: nat | pa % 4096 == 0 && Covers(Chunks(physAvail[..], r.value.0), pa) ::
                   PageAccepted(smaps, pa)
    ensures done == |smaps| && n > 0 ==>
              if full then |gathered| == 63 else HoldsAllFree(lim, Regions(physmap[..], n), gathered)
  {
    var physmapIdx;
    physmapIdx, done, n := FoldFirmware(smaps, physmap);
    gathered := [];
    if done < |smaps| || physmapIdx == 0 {
      return None, done, false, n, gathered;
    }
    r, full, gathered := GetMemSize(lim, physmap, physmapIdx / 2, physAvail, physmem, msgbufsize);
    if r.Some? {
      ghost var rs := Regions(physmap[..], n);
      PagesAccepted(lim, rs, smaps, Chunks(physAvail[..], r.value.0), PAGE_SIZE + RoundPage(msgbufsize));
    }
  }
}
