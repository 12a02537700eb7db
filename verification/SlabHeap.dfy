/** The heap of src/slab.c as a whole: zones and large blocks on top of the page
    allocator. */
module SlabHeap {
  import opened Lists
  import P = PageAlloc
  import Z = SlabZones

  const PAGE: nat := 4096

  /** `slab.zone` is the size of a zone in bytes; pages are numbered by address. */
  datatype Memory = Memory(pages: P.Heap, slab: Z.Slab)

  function ZonePages(m: Memory): nat { m.slab.zone / PAGE }

  /** The zone is in use or kept back. */
  ghost predicate Owned(slab: Z.Slab, id: nat) {
    id in slab.zones || id in slab.spare
  }

  /** Every zone occupies an extent of its own, got from the page allocator. */
  ghost predicate Backed(m: Memory) {
    forall id: nat | Owned(m.slab, id) :: P.Extent(id, ZonePages(m)) in m.pages.live
  }

  ghost predicate Inv(m: Memory, pool: P.Extent) {
    P.Inv(m.pages, pool) && Z.SlabOk(m.slab) && Backed(m)
  }

  // ----- Operations

  /** rt_malloc of fewer bytes than the zone limit; pages are asked for only when there is
      neither a linked nor a spare zone. */
  ghost function SmallAlloc(m: Memory, n: nat): (Memory, Option<Z.Chunk>)
    requires Z.SlabOk(m.slab) && 0 < n < Z.Limit(m.slab.zone)
  {
    Z.ClassWithinLimit(m.slab.zone, n);
    Z.ChunkSizeOfIndex(n);
    if m.slab.lists[Z.ZoneIndex(n)] == [] && m.slab.spare == [] then
      var page := P.Allocated(m.pages.list, ZonePages(m)).1;
      var (slab, r) := Z.Malloc(m.slab, n, page);
      (Memory(P.Next(m.pages, P.Allocs(ZonePages(m))), slab), r)
    else
      var (slab, r) := Z.Malloc(m.slab, n, None);
      (m.(slab := slab), r)
  }

  /** rt_free of a chunk of a zone */
  ghost function SmallFree(m: Memory, chunk: Z.Chunk): Memory
    requires Z.SlabOk(m.slab) && Z.Live(m.slab, chunk) && P.Extent(chunk.zone, ZonePages(m)) in m.pages.live
  {
    var (slab, page) := Z.Free(m.slab, chunk);
    if page.Some? then
      Memory(P.Next(m.pages, P.Frees(Index(m.pages.live, P.Extent(chunk.zone, ZonePages(m))))), slab)
    else m.(slab := slab)
  }

  ghost function Index(live: P.Extents, b: P.Extent): (i: nat)
    requires b in live
    ensures i < |live| && live[i] == b
  {
    var i :| 0 <= i < |live| && live[i] == b;
    i
  }

  /** rt_malloc of at least the zone limit */
  function LargeAlloc(m: Memory, pages: nat): Memory {
    m.(pages := P.Next(m.pages, P.Allocs(pages)))
  }

  /** rt_free of a large block, which is no zone */
  function LargeFree(m: Memory, i: nat): Memory
    requires i < |m.pages.live|
  {
    m.(pages := P.Next(m.pages, P.Frees(i)))
  }

  // ----- Every operation keeps the invariant

  lemma OwnedLives(m: Memory, id: nat)
    requires Backed(m) && Owned(m.slab, id) && ZonePages(m) > 0
    ensures P.Lives(m.pages.live, id)
  {
    var i := Index(m.pages.live, P.Extent(id, ZonePages(m)));
    assert m.pages.live[i].start <= id < P.End(m.pages.live[i]);
  }

  /** The page allocator never returns a page that a zone starts at. */
  lemma NewPageIsFresh(m: Memory, pool: P.Extent, n: nat)
    requires Inv(m, pool) && ZonePages(m) > 0
    ensures Z.FreshPage(m.slab, P.Allocated(m.pages.list, n).1)
  {
    var r := P.Allocated(m.pages.list, n).1;
    if r.Some? {
      var a := r.value;
      P.AllocatesSome(m.pages.list, n);
      P.AllocatedPages(m.pages.list, n, a);
      assert P.Has(m.pages.list, a);
      if Owned(m.slab, a) {
        OwnedLives(m, a);
      }
    }
  }

  lemma MallocOwns(s: Z.Slab, n: nat, page: Option<nat>, id: nat)
    requires Z.SlabOk(s) && 0 < n < Z.Limit(s.zone)
    requires Owned(Z.Malloc(s, n, page).0, id)
    ensures Owned(s, id) || page == Some(id)
  {
    Z.ClassWithinLimit(s.zone, n);
    Z.ChunkSizeOfIndex(n);
    var zi := Z.ZoneIndex(n);
    if s.lists[zi] != [] {
      assert Z.ListOk(s.zones, s.lists[zi], zi) && s.lists[zi][0] in s.lists[zi];
    }
  }

  lemma FreeOwns(s: Z.Slab, chunk: Z.Chunk, id: nat)
    requires Z.SlabOk(s) && Z.Live(s, chunk)
    ensures Owned(Z.Free(s, chunk).0, id) ==> Owned(s, id)
    ensures Z.Free(s, chunk).1.Some? ==> Z.Free(s, chunk).1.value == chunk.zone
    ensures Z.Free(s, chunk).0.zone == s.zone
  {
  }

  lemma SmallAllocKeeps(m: Memory, pool: P.Extent, n: nat)
    requires Inv(m, pool) && 0 < n < Z.Limit(m.slab.zone)
    ensures Inv(SmallAlloc(m, n).0, pool)
    ensures var (m', r) := SmallAlloc(m, n);
      r.Some? ==> !Z.Live(m.slab, r.value) && forall ch :: Z.Live(m'.slab, ch) <==> Z.Live(m.slab, ch) || ch == r.value
  {
    Z.ClassWithinLimit(m.slab.zone, n);
    Z.ChunkSizeOfIndex(n);
    var (m', r) := SmallAlloc(m, n);
    var zp := ZonePages(m);
    var asks := m.slab.lists[Z.ZoneIndex(n)] == [] && m.slab.spare == [];
    var page := if asks then P.Allocated(m.pages.list, zp).1 else None;
    NewPageIsFresh(m, pool, zp);
    Z.MallocKeeps(m.slab, n, page);
    if page.Some? {
      P.AllocKeeps(m.pages, zp, pool);
    }
    forall id: nat | Owned(m'.slab, id)
      ensures P.Extent(id, ZonePages(m')) in m'.pages.live
    {
      MallocOwns(m.slab, n, page, id);
    }
  }

  lemma SmallFreeKeeps(m: Memory, pool: P.Extent, chunk: Z.Chunk)
    requires Inv(m, pool) && Z.Live(m.slab, chunk)
    ensures P.Extent(chunk.zone, ZonePages(m)) in m.pages.live
    ensures Inv(SmallFree(m, chunk), pool)
    ensures forall ch :: Z.Live(SmallFree(m, chunk).slab, ch) <==> Z.Live(m.slab, ch) && ch != chunk
  {
    assert Owned(m.slab, chunk.zone);
    Z.FreeKeeps(m.slab, chunk);
    FreeOwns(m.slab, chunk, 0);
    var (slab, page) := Z.Free(m.slab, chunk);
    var m' := SmallFree(m, chunk);
    var b := P.Extent(chunk.zone, ZonePages(m));
    var i := Index(m.pages.live, b);
    if page.Some? {
      P.FreeKeeps(m.pages, i, pool);
    }
    forall id: nat | Owned(slab, id)
      ensures P.Extent(id, ZonePages(m)) in m'.pages.live
    {
      FreeOwns(m.slab, chunk, id);
      if page.Some? {
        WithoutHasRest(m.pages.live, i, P.Extent(id, ZonePages(m)));
      }
    }
  }

  lemma LargeAllocKeeps(m: Memory, pool: P.Extent, pages: nat)
    requires Inv(m, pool)
    ensures Inv(LargeAlloc(m, pages), pool)
  {
    if P.Allocated(m.pages.list, pages).1.Some? {
      P.AllocKeeps(m.pages, pages, pool);
    }
  }

  lemma LargeFreeKeeps(m: Memory, pool: P.Extent, i: nat)
    requires Inv(m, pool) && i < |m.pages.live| && !Owned(m.slab, m.pages.live[i].start)
    ensures Inv(LargeFree(m, i), pool)
  {
    P.FreeKeeps(m.pages, i, pool);
    forall id: nat | Owned(m.slab, id)
      ensures P.Extent(id, ZonePages(m)) in LargeFree(m, i).pages.live
    {
      WithoutHasRest(m.pages.live, i, P.Extent(id, ZonePages(m)));
    }
  }

  // ----- No page is lost

  /** The extent is a large block: live, and no zone's. */
  ghost predicate Large(m: Memory, b: P.Extent) {
    b in m.pages.live && !(b.count == ZonePages(m) && Owned(m.slab, b.start))
  }

  lemma LiveOnce(live: P.Extents, i: nat, b: P.Extent)
    requires P.Apart(live) && i < |live| && live[i] == b && b.count > 0
    ensures b !in Without(live, i)
  {
    forall j | 0 <= j < |live| - 1
      ensures Without(live, i)[j] != b
    {
      assert Without(live, i)[j] == live[if j < i then j else j + 1];
    }
  }

  /** A small request turns no extent into a large block: pages it gets become a zone. */
  lemma SmallAllocLeaksNothing(m: Memory, pool: P.Extent, n: nat, b: P.Extent)
    requires Inv(m, pool) && 0 < n < Z.Limit(m.slab.zone) && Large(SmallAlloc(m, n).0, b)
    ensures Large(m, b)
  {
    Z.ClassWithinLimit(m.slab.zone, n);
    Z.ChunkSizeOfIndex(n);
    var zp := ZonePages(m);
    var asks := m.slab.lists[Z.ZoneIndex(n)] == [] && m.slab.spare == [];
    var page := if asks then P.Allocated(m.pages.list, zp).1 else None;
    NewPageIsFresh(m, pool, zp);
    Z.MallocReuses(m.slab, n, page);
    Z.StockedIsListed(m.slab, Z.ZoneIndex(n));
    if m.slab.spare != [] {
      assert m.slab.spare == [m.slab.spare[0]] + m.slab.spare[1..];
    }
  }

  /** Nor does a small free: a zone given up goes back to the pages, or is kept spare. */
  lemma SmallFreeLeaksNothing(m: Memory, pool: P.Extent, chunk: Z.Chunk, b: P.Extent)
    requires Inv(m, pool) && Z.Live(m.slab, chunk)
    requires P.Extent(chunk.zone, ZonePages(m)) in m.pages.live && Large(SmallFree(m, chunk), b)
    ensures Large(m, b)
  {
    Z.FreeGivesUp(m.slab, chunk);
    FreeOwns(m.slab, chunk, 0);
    var zone := P.Extent(chunk.zone, ZonePages(m));
    var i := Index(m.pages.live, zone);
    if Z.Free(m.slab, chunk).1.Some? {
      LiveOnce(m.pages.live, i, zone);
      WithoutHad(m.pages.live, i, b);
    }
  }

  // ----- Whole runs

  datatype Call = SmallAllocs(n: nat) | SmallFrees(chunk: Z.Chunk) | LargeAllocs(pages: nat) | LargeFrees(i: nat)

  ghost predicate Enabled(m: Memory, c: Call) {
    match c
    case SmallAllocs(n) => 0 < n < Z.Limit(m.slab.zone)
    case SmallFrees(chunk) => Z.Live(m.slab, chunk)
    case LargeAllocs(pages) => true
    case LargeFrees(i) => i < |m.pages.live| && !Owned(m.slab, m.pages.live[i].start)
  }

  /** After a state in which the zones are in disorder anything could happen. */
  ghost predicate Step(m: Memory, c: Call, m': Memory) {
    Enabled(m, c) && (Z.SlabOk(m.slab) && Backed(m) ==> m' == Next(m, c))
  }

  ghost function Next(m: Memory, c: Call): Memory
    requires Enabled(m, c) && Z.SlabOk(m.slab) && Backed(m)
  {
    match c
    case SmallAllocs(n) => SmallAlloc(m, n).0
    case SmallFrees(chunk) => assert Owned(m.slab, chunk.zone); SmallFree(m, chunk)
    case LargeAllocs(pages) => LargeAlloc(m, pages)
    case LargeFrees(i) => LargeFree(m, i)
  }

  ghost predicate Run(pool: P.Extent, zone: nat, states: seq<Memory>, calls: seq<Call>) {
    && |states| == |calls| + 1 && Z.ZoneSize(zone) && pool.count > 0
    && states[0] == Memory(P.Heap([pool], []), Z.Slab(zone, map[], seq(Z.ZONES, i => []), []))
    && forall k | 0 <= k < |calls| :: Step(states[k], calls[k], states[k + 1])
  }

  lemma {:induction false} RunsAreSafe(pool: P.Extent, zone: nat, states: seq<Memory>, calls: seq<Call>, k: nat)
    requires Run(pool, zone, states, calls) && k <= |calls|
    ensures Inv(states[k], pool)
  {
    if k == 0 {
      P.InitialInv(pool);
    } else {
      RunsAreSafe(pool, zone, states, calls, k - 1);
      var m := states[k - 1];
      assert Step(m, calls[k - 1], states[k]);
      match calls[k - 1]
      case SmallAllocs(n) => SmallAllocKeeps(m, pool, n);
      case SmallFrees(chunk) => SmallFreeKeeps(m, pool, chunk);
      case LargeAllocs(pages) => LargeAllocKeeps(m, pool, pages);
      case LargeFrees(i) => LargeFreeKeeps(m, pool, i);
    }
  }

  /** In every run a large block is one that was asked for as such: no step but a large
      request makes one, so no page is ever live that is neither a zone's nor a large block's. */
  lemma NothingLeaks(pool: P.Extent, zone: nat, states: seq<Memory>, calls: seq<Call>, k: nat, b: P.Extent)
    requires Run(pool, zone, states, calls) && k < |calls| && Large(states[k + 1], b) && !Large(states[k], b)
    ensures calls[k].LargeAllocs? && b.count == calls[k].pages
  {
    RunsAreSafe(pool, zone, states, calls, k);
    var m := states[k];
    assert Step(m, calls[k], states[k + 1]);
    match calls[k]
    case SmallAllocs(n) => SmallAllocLeaksNothing(m, pool, n, b);
    case SmallFrees(chunk) =>
      assert Owned(m.slab, chunk.zone);
      SmallFreeLeaksNothing(m, pool, chunk, b);
    case LargeAllocs(pages) =>
    case LargeFrees(i) => WithoutHad(m.pages.live, i, b);
  }

  // ----- No two blocks overlap

  /** The first byte of a chunk. */
  ghost function Address(m: Memory, ch: Z.Chunk): nat
    requires Z.SlabOk(m.slab) && Z.Live(m.slab, ch)
  {
    assert Z.ZoneOk(m.slab.zones[ch.zone]) && Z.Fits(m.slab.zone, m.slab.zones[ch.zone]);
    ch.zone * PAGE + Z.Start(ChunkBytes(m, ch), ch.place)
  }

  ghost function ChunkBytes(m: Memory, ch: Z.Chunk): nat
    requires Z.SlabOk(m.slab) && Z.Live(m.slab, ch)
  {
    assert Z.ZoneOk(m.slab.zones[ch.zone]);
    Z.SizeOf(m.slab.zones[ch.zone].index)
  }

  lemma WholePages(zone: nat)
    requires Z.ZoneSize(zone)
    ensures zone == zone / PAGE * PAGE
  {
  }

  lemma ChunkInZone(m: Memory, ch: Z.Chunk)
    requires Z.SlabOk(m.slab) && Z.Live(m.slab, ch)
    ensures ch.zone * PAGE + Z.HEADER <= Address(m, ch)
    ensures Address(m, ch) + ChunkBytes(m, ch) <= (ch.zone + ZonePages(m)) * PAGE
  {
    var z := m.slab.zones[ch.zone];
    assert Z.ZoneOk(z) && Z.Fits(m.slab.zone, z);
    Z.ChunkInside(m.slab.zone, z, ch.place);
    WholePages(m.slab.zone);
  }

  lemma ExtentsApart(live: P.Extents, a: P.Extent, b: P.Extent)
    requires P.Apart(live) && a in live && b in live && a != b
    ensures P.End(a) <= b.start || P.End(b) <= a.start
  {
    var i, j := Index(live, a), Index(live, b);
    assert i < j || j < i;
  }

  /** In every reachable state different live chunks, of whatever zones, occupy disjoint
      bytes. */
  lemma ChunksDisjoint(m: Memory, pool: P.Extent, a: Z.Chunk, b: Z.Chunk)
    requires Inv(m, pool) && Z.Live(m.slab, a) && Z.Live(m.slab, b) && a != b
    ensures Address(m, a) + ChunkBytes(m, a) <= Address(m, b) || Address(m, b) + ChunkBytes(m, b) <= Address(m, a)
  {
    if a.zone == b.zone {
      if a.place < b.place {
        Z.ChunksApart(m.slab, a, b);
      } else {
        Z.ChunksApart(m.slab, b, a);
      }
    } else {
      assert Owned(m.slab, a.zone) && Owned(m.slab, b.zone);
      ExtentsApart(m.pages.live, P.Extent(a.zone, ZonePages(m)), P.Extent(b.zone, ZonePages(m)));
      ChunkInZone(m, a);
      ChunkInZone(m, b);
    }
  }

  /** Nor does a live chunk share a byte with a large block. */
  lemma ChunkApartFromLarge(m: Memory, pool: P.Extent, a: Z.Chunk, i: nat)
    requires Inv(m, pool) && Z.Live(m.slab, a) && i < |m.pages.live| && !Owned(m.slab, m.pages.live[i].start)
    ensures var b := m.pages.live[i];
      Address(m, a) + ChunkBytes(m, a) <= b.start * PAGE || P.End(b) * PAGE <= Address(m, a)
  {
    assert Owned(m.slab, a.zone);
    ExtentsApart(m.pages.live, P.Extent(a.zone, ZonePages(m)), m.pages.live[i]);
    ChunkInZone(m, a);
  }
}
