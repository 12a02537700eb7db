/** The zone allocator of src/slab.c: size classes, and zones cut into chunks of one
    class each.  Zones are named by the page they start at. */
module SlabZones {
  import opened Lists

  const ZONES: nat := 72
  const LARGEST: nat := 16384
  const KEPT: nat := 2
  const HEADER: nat := 36

  // ----- Size classes

  function Granule(n: nat): (g: nat)
    ensures g > 0
  {
    if n < 128 then 8 else if n < 256 then 16 else if n < 512 then 32 else if n < 1024 then 64
    else if n < 2048 then 128 else if n < 4096 then 256 else if n < 8192 then 512 else 1024
  }

  function Base(n: nat): int {
    if n < 128 then -1 else if n < 256 then 7 else if n < 512 then 15 else if n < 1024 then 23
    else if n < 2048 then 31 else if n < 4096 then 39 else if n < 8192 then 47 else 55
  }

  /** What zoneindex makes of the request size. */
  function ChunkSize(n: nat): nat {
    if n < LARGEST then (n + Granule(n) - 1) / Granule(n) * Granule(n) else n
  }

  /** zoneindex; a request it does not expect gets index 0. */
  function ZoneIndex(n: nat): int {
    if n < LARGEST then ChunkSize(n) / Granule(n) + Base(n) else 0
  }

  lemma Rounded(n: nat)
    requires 0 < n < LARGEST
    ensures var g := Granule(n);
      ChunkSize(n) % g == 0 && n <= ChunkSize(n) < n + g && ZoneIndex(n) == (n + g - 1) / g + Base(n)
  {
    var g := Granule(n);
    var q := (n + g - 1) / g;
    MultipleOf(q, g);
    assert n + g - 1 == q * g + (n + g - 1) % g;
  }

  lemma GranuleIsSmall(n: nat)
    requires n < LARGEST
    ensures Granule(n) % 8 == 0 && Granule(n) <= (if n / 8 > 8 then n / 8 else 8)
  {
  }

  lemma ChunkIsAligned(n: nat)
    requires n < LARGEST
    ensures ChunkSize(n) % 8 == 0
  {
    var g := Granule(n);
    var q := (n + g - 1) / g;
    GranuleIsSmall(n);
    var e := g / 8;
    assert g == e * 8 && q * g == q * e * 8;
    MultipleOf(q * e, 8);
  }

  lemma IndexInRange(n: nat)
    requires 0 < n < LARGEST
    ensures 0 <= ZoneIndex(n) < ZONES && ChunkSize(n) <= LARGEST
  {
    Rounded(n);
  }

  /** A chunk is at least as large as the request and wastes less than 8 bytes or an
      eighth of it. */
  lemma ChunkFits(n: nat)
    requires 0 < n < LARGEST
    ensures n <= ChunkSize(n) <= LARGEST && ChunkSize(n) % 8 == 0
    ensures ChunkSize(n) - n < (if n / 8 > 8 then n / 8 else 8)
    ensures 0 <= ZoneIndex(n) < ZONES
  {
    Rounded(n);
    GranuleIsSmall(n);
    ChunkIsAligned(n);
    IndexInRange(n);
    hide Granule, ChunkSize, ZoneIndex;
  }

  /** The index grows with the request. */
  lemma ZoneIndexMonotone(n: nat, m: nat)
    requires 0 < n <= m < LARGEST
    ensures ZoneIndex(n) <= ZoneIndex(m)
  {
    Rounded(n);
    Rounded(m);
  }

  /** The chunk size of a zone index. */
  function SizeOf(zi: nat): nat
    requires zi < ZONES
  {
    if zi < 16 then 8 * (zi + 1)
    else if zi < 24 then 16 * (zi - 7)
    else if zi < 32 then 32 * (zi - 15)
    else if zi < 40 then 64 * (zi - 23)
    else if zi < 48 then 128 * (zi - 31)
    else if zi < 56 then 256 * (zi - 39)
    else if zi < 64 then 512 * (zi - 47)
    else 1024 * (zi - 55)
  }

  lemma ChunkSizeOfIndex(n: nat)
    requires 0 < n < LARGEST
    ensures 0 <= ZoneIndex(n) < ZONES && ChunkSize(n) == SizeOf(ZoneIndex(n))
  {
    ChunkFits(n);
    Rounded(n);
  }

  /** Sizes grow with the index, also where the step between classes changes. */
  lemma SizesGrow(zi: nat, zj: nat)
    requires zi < zj < ZONES
    ensures SizeOf(zi) < SizeOf(zj)
  {
  }

  /** One index, one chunk size. */
  lemma IndexFixesSize(n: nat, m: nat)
    requires 0 < n < LARGEST && 0 < m < LARGEST
    ensures ZoneIndex(n) == ZoneIndex(m) <==> ChunkSize(n) == ChunkSize(m)
  {
    ChunkSizeOfIndex(n);
    ChunkSizeOfIndex(m);
    if ZoneIndex(n) < ZoneIndex(m) {
      SizesGrow(ZoneIndex(n), ZoneIndex(m));
    } else if ZoneIndex(m) < ZoneIndex(n) {
      SizesGrow(ZoneIndex(m), ZoneIndex(n));
    }
  }

  /** Among the class sizes a request gets the smallest it fits into. */
  lemma SmallestClass(n: nat, zi: nat)
    requires 0 < n < LARGEST && zi < ZONES && n <= SizeOf(zi)
    ensures ZoneIndex(n) <= zi && ChunkSize(n) <= SizeOf(zi)
  {
    ChunkSizeOfIndex(n);
    if zi < ZoneIndex(n) {
      BelowIndex(n, zi);
    } else if ZoneIndex(n) < zi {
      SizesGrow(ZoneIndex(n), zi);
    }
  }

  lemma BelowIndex(n: nat, zi: nat)
    requires 0 < n < LARGEST && zi < ZoneIndex(n) < ZONES
    ensures SizeOf(zi) < n
  {
    ChunkSizeOfIndex(n);
    var top := ZoneIndex(n) - 1;
    if zi < top {
      SizesGrow(zi, top);
    }
    TopBelow(n);
  }

  lemma TopBelow(n: nat)
    requires 0 < n < LARGEST && 0 < ZoneIndex(n) < ZONES
    ensures SizeOf(ZoneIndex(n) - 1) < n
  {
    Rounded(n);
  }

  // ----- The layout of a zone

  predicate PowerOfTwo(n: nat) {
    n == 1 || (n > 1 && n % 2 == 0 && PowerOfTwo(n / 2))
  }

  function RoundUp(x: nat, to: nat): (r: nat)
    requires to > 0
    ensures x <= r < x + to && r % to == 0
  {
    var y := x + to - 1;
    assert (y - y % to) % to == 0 by { MultipleBelow(y, to); }
    y - y % to
  }

  lemma MultipleBelow(y: nat, to: nat)
    requires to > 0
    ensures (y - y % to) % to == 0
  {
    assert y - y % to == y / to * to;
    MultipleOf(y / to, to);
  }

  lemma AtLeastOnce(d: int, to: nat)
    requires d >= 1
    ensures d * to >= to
  {
  }

  lemma MultipleOf(k: nat, to: nat)
    requires to > 0
    ensures (k * to) % to == 0 && k * to / to == k
  {
    var q, r := k * to / to, (k * to) % to;
    assert (k - q) * to == r;
    if k - q >= 1 {
      AtLeastOnce(k - q, to);
    } else if q - k >= 1 {
      AtLeastOnce(q - k, to);
    }
  }

  /** Where the chunks start: at a multiple of a power-of-two chunk size, else at a
      multiple of 8. */
  function Offset(size: nat): nat
    requires size > 0
  {
    if PowerOfTwo(size) then RoundUp(HEADER, size) else RoundUp(HEADER, 8)
  }

  function Capacity(zone: nat, size: nat): nat
    requires size > 0 && Offset(size) <= zone
  {
    Quotient(zone - Offset(size), size)
  }

  function Quotient(space: nat, size: nat): nat
    requires size > 0
  {
    space / size
  }

  /** Zones are 32, 64 or 128 kilobytes, and requests of a quarter of that, or of 16
      kilobytes, go to the page allocator instead. */
  ghost predicate ZoneSize(zone: nat) {
    zone == 32768 || zone == 65536 || zone == 131072
  }

  /** The zone size rt_system_heap_init chooses for a heap of `limsize` bytes. */
  method ZoneSizeFor(limsize: nat) returns (zone: nat)
    ensures ZoneSize(zone)
    ensures zone == (if limsize / 1024 <= 65536 then 32768 else if limsize / 1024 <= 131072 then 65536 else 131072)
  {
    zone := 32768;
    while zone < 131072 && 2 * zone < limsize / 1024
      invariant ZoneSize(zone) && (zone > 32768 ==> zone < limsize / 1024)
      decreases 131072 - zone
    {
      zone := 2 * zone;
    }
  }

  function Limit(zone: nat): (r: nat)
    ensures (zone == 32768 ==> r == 8192) && (zone == 65536 || zone == 131072 ==> r == 16384)
  {
    if zone / 4 > LARGEST then LARGEST else zone / 4
  }

  lemma DivideTwice(space: nat, size: nat)
    requires size > 0 && 2 * size <= space
    ensures space / size >= 2 && space / size * size <= space < space / size * size + size
  {
    var q := space / size;
    assert space == q * size + space % size;
    assert q < 2 ==> q * size <= size;
  }

  /** A new zone has room for two chunks at least, so it is never full at once; all its
      chunks lie inside it, behind its header, and one more would not. */
  lemma ZoneHasRoom(zone: nat, n: nat)
    requires ZoneSize(zone) && 0 < n < Limit(zone)
    ensures var size := ChunkSize(n);
      size > 0 && HEADER <= Offset(size) <= zone && Capacity(zone, size) >= 2 &&
      Offset(size) + Capacity(zone, size) * size <= zone < Offset(size) + Capacity(zone, size) * size + size
  {
    var size := ChunkSize(n);
    ClassWithinLimit(zone, n);
    var off := Offset(size);
    assert off < HEADER + size || off < HEADER + 8;
    DivideTwice(zone - off, size);
  }

  lemma ClassWithinLimit(zone: nat, n: nat)
    requires ZoneSize(zone) && 0 < n < Limit(zone)
    ensures 8 <= ChunkSize(n) <= Limit(zone) && n < LARGEST
  {
    Rounded(n);
  }

  // ----- One zone

  /** `live` remembers which chunks are handed out. */
  datatype Zone = Zone(index: nat, nmax: nat, nfree: nat, uindex: nat, chunks: seq<nat>, live: set<nat>)

  /** nfree counts the chunks never used yet and the free list, and the chunks used so
      far are either live or once in the free list. */
  ghost predicate ZoneOk(z: Zone) {
    && z.uindex < z.nmax && 2 <= z.nmax && z.index < ZONES
    && z.nfree == (z.nmax - 1 - z.uindex) + |z.chunks|
    && Distinct(z.chunks)
    && (forall c: nat :: c in z.live || c in z.chunks <==> c <= z.uindex)
    && (forall c :: c in z.chunks ==> c !in z.live)
    && |z.live| + |z.chunks| == z.uindex + 1
  }

  function NewZone(index: nat, nmax: nat): Zone
    requires nmax > 0
  {
    Zone(index, nmax, nmax - 1, 0, [], {0})
  }

  /** The part of rt_malloc that takes a chunk out of a zone. */
  function TakeChunk(z: Zone): (Zone, nat)
    requires z.nfree > 0 && (z.uindex + 1 == z.nmax ==> z.chunks != [])
  {
    if z.uindex + 1 != z.nmax then
      var c := z.uindex + 1;
      (z.(nfree := z.nfree - 1, uindex := c, live := z.live + {c}), c)
    else
      var c := z.chunks[0];
      (z.(nfree := z.nfree - 1, chunks := z.chunks[1..], live := z.live + {c}), c)
  }

  /** The part of rt_free that puts a chunk back. */
  function GiveChunk(z: Zone, c: nat): Zone {
    z.(nfree := z.nfree + 1, chunks := [c] + z.chunks, live := z.live - {c})
  }

  lemma NewZoneOk(index: nat, nmax: nat)
    requires nmax >= 2 && index < ZONES
    ensures ZoneOk(NewZone(index, nmax))
  {
  }

  lemma TakeUnused(z: Zone)
    requires ZoneOk(z) && z.nfree > 0 && z.uindex + 1 != z.nmax
    ensures var (z', c) := TakeChunk(z); ZoneOk(z') && c !in z.live && c < z.nmax
  {
    var c := z.uindex + 1;
    assert c !in z.live && c !in z.chunks;
    assert |z.live + {c}| == |z.live| + 1;
  }

  lemma TakeListed(z: Zone)
    requires ZoneOk(z) && z.nfree > 0 && z.uindex + 1 == z.nmax
    ensures z.chunks != []
    ensures var (z', c) := TakeChunk(z); ZoneOk(z') && c !in z.live && c < z.nmax
  {
    HeadApart(z.chunks);
    var c := z.chunks[0];
    assert c in z.chunks;
    assert |z.live + {c}| == |z.live| + 1;
  }

  /** A chunk taken was not live, and lies within the zone: the next one never used, or when
      all have been the one freed last. */
  lemma TakeChunkOk(z: Zone)
    requires ZoneOk(z) && z.nfree > 0
    ensures z.uindex + 1 == z.nmax ==> z.chunks != []
    ensures var (z', c) := TakeChunk(z);
      ZoneOk(z') && c !in z.live && c < z.nmax && z'.live == z.live + {c} &&
      c == if z.uindex < z.nmax - 1 then z.uindex + 1 else z.chunks[0]
  {
    if z.uindex + 1 != z.nmax {
      TakeUnused(z);
    } else {
      TakeListed(z);
    }
  }

  lemma GiveChunkOk(z: Zone, c: nat)
    requires ZoneOk(z) && c in z.live
    ensures ZoneOk(GiveChunk(z, c)) && GiveChunk(z, c).live == z.live - {c}
  {
    assert ([c] + z.chunks)[1..] == z.chunks;
  }

  /** nfree reaches nmax exactly when nothing of the zone is live. */
  lemma FullMeansNoneLive(z: Zone)
    requires ZoneOk(z)
    ensures |z.live| + z.nfree == z.nmax && (z.nfree == z.nmax <==> z.live == {})
  {
  }

  // ----- All zones

  /** `lists` lists, per index, the zones with free chunks; `spare` the empty zones kept
      back from the page allocator. */
  datatype Slab = Slab(zone: nat, zones: map<nat, Zone>, lists: seq<seq<nat>>, spare: seq<nat>)

  /** A chunk, by its zone and its place in it. */
  datatype Chunk = Chunk(zone: nat, place: nat)

  /** The chunks of the zone lie inside it, behind its header. */
  ghost predicate Fits(zone: nat, z: Zone)
    requires z.index < ZONES
  {
    var size := SizeOf(z.index);
    size > 0 && HEADER <= Offset(size) && Offset(size) + z.nmax * size <= zone
  }

  ghost predicate ZonesOk(zone: nat, zones: map<nat, Zone>) {
    forall id | id in zones :: ZoneOk(zones[id]) && Fits(zone, zones[id])
  }

  ghost predicate Linked(zones: map<nat, Zone>, zi: nat, id: nat) {
    id in zones && zones[id].index == zi && zones[id].nfree > 0
  }

  /** List zi links exactly the zones of that index with free chunks, each once. */
  ghost predicate ListOk(zones: map<nat, Zone>, list: seq<nat>, zi: nat) {
    Distinct(list) && forall id :: id in list <==> Linked(zones, zi, id)
  }

  ghost predicate ListsOk(zones: map<nat, Zone>, lists: seq<seq<nat>>) {
    |lists| == ZONES && forall zi | 0 <= zi < ZONES :: ListOk(zones, lists[zi], zi)
  }

  ghost predicate SpareOk(zones: map<nat, Zone>, spare: seq<nat>) {
    Distinct(spare) && |spare| <= KEPT && forall id :: id in spare ==> id !in zones
  }

  ghost predicate SlabOk(s: Slab) {
    && ZoneSize(s.zone)
    && ZonesOk(s.zone, s.zones)
    && ListsOk(s.zones, s.lists)
    && SpareOk(s.zones, s.spare)
  }

  /** The zone path of rt_malloc; `page` is what the page allocator would answer. */
  ghost function Malloc(s: Slab, n: nat, page: Option<nat>): (Slab, Option<Chunk>)
    requires SlabOk(s) && 0 < n < Limit(s.zone)
  {
    ZoneHasRoom(s.zone, n);
    ClassWithinLimit(s.zone, n);
    ChunkSizeOfIndex(n);
    var zi := ZoneIndex(n);
    if s.lists[zi] != [] then
      var id := s.lists[zi][0];
      assert ListOk(s.zones, s.lists[zi], zi) && id in s.lists[zi];
      TakeChunkOk(s.zones[id]);
      var (z, c) := TakeChunk(s.zones[id]);
      (s.(zones := s.zones[id := z], lists := if z.nfree == 0 then s.lists[zi := s.lists[zi][1..]] else s.lists),
       Some(Chunk(id, c)))
    else
      var z := NewZone(zi, Capacity(s.zone, ChunkSize(n)));
      if s.spare != [] then
        (s.(zones := s.zones[s.spare[0] := z], lists := s.lists[zi := [s.spare[0]] + s.lists[zi]], spare := s.spare[1..]),
         Some(Chunk(s.spare[0], 0)))
      else if page.Some? then
        (s.(zones := s.zones[page.value := z], lists := s.lists[zi := [page.value] + s.lists[zi]]),
         Some(Chunk(page.value, 0)))
      else (s, None)
  }

  /** The zone path of rt_free; also the zone given back to the page allocator, if any. */
  ghost function Free(s: Slab, chunk: Chunk): (Slab, Option<nat>)
    requires SlabOk(s) && chunk.zone in s.zones && chunk.place in s.zones[chunk.zone].live
  {
    var id := chunk.zone;
    var z := GiveChunk(s.zones[id], chunk.place);
    var zi := z.index;
    assert ZoneOk(s.zones[id]);
    var lists := if s.zones[id].nfree == 0 then s.lists[zi := [id] + s.lists[zi]] else s.lists;
    var freed := s.(zones := s.zones[id := z], lists := lists);
    if z.nfree == z.nmax && lists[zi] != [id] then
      var gone := freed.(zones := Forget(s.zones, id), lists := lists[zi := Removed(lists[zi], id)]);
      if |s.spare| + 1 > KEPT then (gone, Some(id)) else (gone.(spare := [id] + s.spare), None)
    else (freed, None)
  }

  // ----- Every operation keeps the lists right

  /** Changing one zone without changing whether it has free chunks. */
  lemma UpdateKeepsLists(zones: map<nat, Zone>, lists: seq<seq<nat>>, id: nat, z: Zone)
    requires ListsOk(zones, lists) && id in zones && z.index == zones[id].index
    requires z.nfree > 0 <==> zones[id].nfree > 0
    ensures ListsOk(zones[id := z], lists)
  {
    var zones' := zones[id := z];
    forall zi | 0 <= zi < ZONES
      ensures ListOk(zones', lists[zi], zi)
    {
      assert ListOk(zones, lists[zi], zi);
      forall x
        ensures Linked(zones', zi, x) <==> Linked(zones, zi, x)
      {
      }
    }
  }

  /** Linking a zone at the head of its list. */
  lemma LinkKeepsLists(zones: map<nat, Zone>, lists: seq<seq<nat>>, id: nat, z: Zone)
    requires ListsOk(zones, lists) && z.index < ZONES && z.nfree > 0
    requires id in zones ==> zones[id].nfree == 0
    ensures ListsOk(zones[id := z], lists[z.index := [id] + lists[z.index]])
  {
    var zones', lists' := zones[id := z], lists[z.index := [id] + lists[z.index]];
    forall zi | 0 <= zi < ZONES
      ensures ListOk(zones', lists'[zi], zi)
    {
      assert ListOk(zones, lists[zi], zi);
      assert id !in lists[zi];
      forall x
        ensures Linked(zones', zi, x) <==> Linked(zones, zi, x) || (x == id && zi == z.index)
      {
      }
    }
  }

  /** Unlinking a zone that has run full or is given up. */
  lemma UnlinkKeepsLists(zones: map<nat, Zone>, zones': map<nat, Zone>, lists: seq<seq<nat>>, list: seq<nat>, zi0: nat, id: nat)
    requires ListsOk(zones, lists) && zi0 < ZONES && id in zones && zones[id].index == zi0
    requires forall x :: x != id ==> (x in zones' <==> x in zones) && (x in zones ==> zones'[x] == zones[x])
    requires id in zones' ==> zones'[id].nfree == 0
    requires Distinct(list) && forall x :: x in list <==> x in lists[zi0] && x != id
    ensures ListsOk(zones', lists[zi0 := list])
  {
    var lists' := lists[zi0 := list];
    forall zi | 0 <= zi < ZONES
      ensures ListOk(zones', lists'[zi], zi)
    {
      assert ListOk(zones, lists[zi], zi);
      forall x
        ensures Linked(zones', zi, x) <==> Linked(zones, zi, x) && x != id
      {
      }
    }
  }

  ghost predicate Live(s: Slab, chunk: Chunk) {
    chunk.zone in s.zones && chunk.place in s.zones[chunk.zone].live
  }

  ghost predicate FreshPage(s: Slab, page: Option<nat>) {
    page.Some? ==> page.value !in s.zones && page.value !in s.spare
  }

  lemma TakenLists(zones: map<nat, Zone>, lists: seq<seq<nat>>, zi: nat, z: Zone)
    requires ListsOk(zones, lists) && zi < ZONES && lists[zi] != [] && z.index == zi
    ensures ListsOk(zones[lists[zi][0] := z], if z.nfree == 0 then lists[zi := lists[zi][1..]] else lists)
  {
    var list := lists[zi];
    var id := list[0];
    assert ListOk(zones, list, zi) && id in list && Linked(zones, zi, id);
    if z.nfree == 0 {
      assert list == [id] + list[1..];
      UnlinkKeepsLists(zones, zones[id := z], lists, list[1..], zi, id);
    } else {
      UpdateKeepsLists(zones, lists, id, z);
    }
  }

  lemma LiveAfterTake(zones: map<nat, Zone>, id: nat, z: Zone, place: nat)
    requires id in zones && z.live == zones[id].live + {place}
    ensures forall x, c: nat :: x in zones[id := z] && c in zones[id := z][x].live <==>
      (x in zones && c in zones[x].live) || (x == id && c == place)
  {
  }

  lemma MallocFromZone(s: Slab, n: nat, page: Option<nat>)
    requires SlabOk(s) && 0 < n < Limit(s.zone)
    requires 0 <= ZoneIndex(n) < ZONES && s.lists[ZoneIndex(n)] != []
    ensures SlabOk(Malloc(s, n, page).0)
    ensures var (s', r) := Malloc(s, n, page);
      r.Some? && !Live(s, r.value) && forall ch :: Live(s', ch) <==> Live(s, ch) || ch == r.value
  {
    var zi := ZoneIndex(n);
    var id := s.lists[zi][0];
    assert ListOk(s.zones, s.lists[zi], zi) && id in s.lists[zi] && Linked(s.zones, zi, id);
    TakeChunkOk(s.zones[id]);
    var (z, c) := TakeChunk(s.zones[id]);
    TakenLists(s.zones, s.lists, zi, z);
    LiveAfterTake(s.zones, id, z, c);
    TakenZones(s, id, z);
  }

  lemma TakenZones(s: Slab, id: nat, z: Zone)
    requires ZonesOk(s.zone, s.zones) && SpareOk(s.zones, s.spare) && id in s.zones
    requires ZoneOk(z) && z.index == s.zones[id].index && z.nmax == s.zones[id].nmax
    ensures ZonesOk(s.zone, s.zones[id := z]) && SpareOk(s.zones[id := z], s.spare)
  {
    assert Fits(s.zone, s.zones[id]);
  }

  lemma MallocNewZone(s: Slab, n: nat, page: Option<nat>)
    requires SlabOk(s) && 0 < n < Limit(s.zone) && FreshPage(s, page)
    requires 0 <= ZoneIndex(n) < ZONES && s.lists[ZoneIndex(n)] == []
    ensures SlabOk(Malloc(s, n, page).0)
    ensures var (s', r) := Malloc(s, n, page);
      (r.None? <==> s.spare == [] && page.None?) && (r.None? ==> s' == s) &&
      (r.Some? ==> !Live(s, r.value) && forall ch :: Live(s', ch) <==> Live(s, ch) || ch == r.value)
  {
    ZoneHasRoom(s.zone, n);
    ClassWithinLimit(s.zone, n);
    ChunkSizeOfIndex(n);
    var z := NewZone(ZoneIndex(n), Capacity(s.zone, ChunkSize(n)));
    NewZoneOk(z.index, z.nmax);
    if s.spare != [] {
      assert s.spare == [s.spare[0]] + s.spare[1..];
      LinkKeepsLists(s.zones, s.lists, s.spare[0], z);
    } else if page.Some? {
      LinkKeepsLists(s.zones, s.lists, page.value, z);
    }
  }

  /** A chunk handed out was not live before, is the only one that became live, and
      belongs to a zone of the request's class; and a request is refused only when no
      zone of its class has a chunk, no zone is spare and the page allocator has none. */
  lemma MallocKeeps(s: Slab, n: nat, page: Option<nat>)
    requires SlabOk(s) && 0 < n < Limit(s.zone) && FreshPage(s, page)
    ensures 0 <= ZoneIndex(n) < ZONES
    ensures var (s', r) := Malloc(s, n, page);
      SlabOk(s') &&
      (r.None? <==> s.lists[ZoneIndex(n)] == [] && s.spare == [] && page.None?) && (r.None? ==> s' == s) &&
      (r.Some? ==> !Live(s, r.value) && forall ch :: Live(s', ch) <==> Live(s, ch) || ch == r.value) &&
      (r.Some? ==> s'.zones[r.value.zone].index == ZoneIndex(n) && n <= SizeOf(ZoneIndex(n)))
  {
    ClassWithinLimit(s.zone, n);
    ChunkSizeOfIndex(n);
    ChunkFits(n);
    if s.lists[ZoneIndex(n)] != [] {
      MallocFromZone(s, n, page);
      assert ListOk(s.zones, s.lists[ZoneIndex(n)], ZoneIndex(n));
      assert s.lists[ZoneIndex(n)][0] in s.lists[ZoneIndex(n)];
    } else {
      MallocNewZone(s, n, page);
    }
  }

  lemma GiveBack(s: Slab, chunk: Chunk)
    requires SlabOk(s) && Live(s, chunk)
    ensures var z := GiveChunk(s.zones[chunk.zone], chunk.place);
      var lists := if s.zones[chunk.zone].nfree == 0 then s.lists[z.index := [chunk.zone] + s.lists[z.index]] else s.lists;
      z.index < ZONES && SlabOk(s.(zones := s.zones[chunk.zone := z], lists := lists))
  {
    var id := chunk.zone;
    GiveChunkOk(s.zones[id], chunk.place);
    var z := GiveChunk(s.zones[id], chunk.place);
    if s.zones[id].nfree == 0 {
      LinkKeepsLists(s.zones, s.lists, id, z);
    } else {
      UpdateKeepsLists(s.zones, s.lists, id, z);
    }
  }

  ghost function Forget(zones: map<nat, Zone>, id: nat): map<nat, Zone> {
    map k | k in zones && k != id :: zones[k]
  }

  lemma GiveUp(s: Slab, id: nat)
    requires SlabOk(s) && id in s.zones
    ensures s.zones[id].index < ZONES
    ensures var zi := s.zones[id].index;
      var gone := s.(zones := Forget(s.zones, id), lists := s.lists[zi := Removed(s.lists[zi], id)]);
      SlabOk(gone) && FreshPage(gone, Some(id)) &&
      (|s.spare| < KEPT ==> SlabOk(gone.(spare := [id] + s.spare)))
  {
    var zi := s.zones[id].index;
    assert ZoneOk(s.zones[id]);
    assert ListOk(s.zones, s.lists[zi], zi);
    RemovedMembers(s.lists[zi], id);
    UnlinkKeepsLists(s.zones, Forget(s.zones, id), s.lists, Removed(s.lists[zi], id), zi, id);
    assert ([id] + s.spare)[1..] == s.spare;
  }

  lemma LiveAfterGive(zones: map<nat, Zone>, id: nat, place: nat)
    requires id in zones && ZoneOk(zones[id]) && place in zones[id].live
    ensures var z := GiveChunk(zones[id], place);
      (forall x, c: nat :: x in zones[id := z] && c in zones[id := z][x].live <==>
        x in zones && c in zones[x].live && !(x == id && c == place)) &&
      (z.nfree == z.nmax ==> z.live == {})
  {
    GiveChunkOk(zones[id], place);
    FullMeansNoneLive(GiveChunk(zones[id], place));
  }

  lemma FreeIsSound(s: Slab, chunk: Chunk)
    requires SlabOk(s) && Live(s, chunk)
    ensures var (s', page) := Free(s, chunk); SlabOk(s') && FreshPage(s', page)
  {
    GiveBack(s, chunk);
    var id := chunk.zone;
    assert ZoneOk(s.zones[id]);
    var z := GiveChunk(s.zones[id], chunk.place);
    var lists := if s.zones[id].nfree == 0 then s.lists[z.index := [id] + s.lists[z.index]] else s.lists;
    var freed := s.(zones := s.zones[id := z], lists := lists);
    if z.nfree == z.nmax && lists[z.index] != [id] {
      GiveUp(freed, id);
      assert Forget(freed.zones, id) == Forget(s.zones, id);
    }
  }

  /** Freeing a live chunk makes exactly that chunk no longer live; a zone given back
      to the page allocator is forgotten here and had nothing live. */
  lemma FreeKeeps(s: Slab, chunk: Chunk)
    requires SlabOk(s) && Live(s, chunk)
    ensures var (s', page) := Free(s, chunk); SlabOk(s') && FreshPage(s', page)
    ensures forall ch :: Live(Free(s, chunk).0, ch) <==> Live(s, ch) && ch != chunk
  {
    FreeIsSound(s, chunk);
    assert ZoneOk(s.zones[chunk.zone]);
    LiveAfterGive(s.zones, chunk.zone, chunk.place);
    forall ch
      ensures Live(Free(s, chunk).0, ch) <==> Live(s, ch) && ch != chunk
    {
      var zones := s.zones[chunk.zone := GiveChunk(s.zones[chunk.zone], chunk.place)];
      assert ch.zone in zones && ch.place in zones[ch.zone].live <==>
        ch.zone in s.zones && ch.place in s.zones[ch.zone].live && !(ch.zone == chunk.zone && ch.place == chunk.place);
    }
  }

  // ----- Where chunks come from and zones go

  /** Some zone of index zi has a free chunk. */
  ghost predicate Stocked(s: Slab, zi: nat) {
    exists id :: Linked(s.zones, zi, id)
  }

  lemma StockedIsListed(s: Slab, zi: nat)
    requires ListsOk(s.zones, s.lists) && zi < ZONES
    ensures Stocked(s, zi) <==> s.lists[zi] != []
  {
    assert ListOk(s.zones, s.lists[zi], zi);
    if s.lists[zi] != [] {
      assert s.lists[zi][0] in s.lists[zi];
    }
  }

  /** A zone is taken into use only when no zone of the class has a free chunk: first a spare
      one, then one of new pages; and a new zone is cut into as many chunks as it holds. */
  lemma MallocReuses(s: Slab, n: nat, page: Option<nat>)
    requires SlabOk(s) && 0 < n < Limit(s.zone) && FreshPage(s, page)
    ensures 0 <= ZoneIndex(n) < ZONES && ChunkSize(n) > 0
    ensures var (s', r), zi, size := Malloc(s, n, page), ZoneIndex(n), ChunkSize(n);
      if Stocked(s, zi) then
        r.Some? && Linked(s.zones, zi, r.value.zone) && s'.zones.Keys == s.zones.Keys && s'.spare == s.spare
      else if s.spare == [] && page.None? then r.None? && s' == s
      else
        var id := if s.spare != [] then s.spare[0] else page.value;
        && r == Some(Chunk(id, 0)) && s'.zones.Keys == s.zones.Keys + {id}
        && s'.spare == (if s.spare != [] then s.spare[1..] else [])
        && s'.zones[id].index == zi && s'.zones[id].live == {0} && s'.zones[id].nfree == s'.zones[id].nmax - 1
        && Offset(size) + s'.zones[id].nmax * size <= s.zone < Offset(size) + s'.zones[id].nmax * size + size
  {
    MallocKeeps(s, n, page);
    ZoneHasRoom(s.zone, n);
    StockedIsListed(s, ZoneIndex(n));
    if s.lists[ZoneIndex(n)] != [] {
      assert ListOk(s.zones, s.lists[ZoneIndex(n)], ZoneIndex(n));
      assert s.lists[ZoneIndex(n)][0] in s.lists[ZoneIndex(n)];
    }
  }

  lemma LastChunk(z: Zone, c: nat)
    requires ZoneOk(z) && c in z.live
    ensures var z' := GiveChunk(z, c); z'.nfree == z'.nmax <==> z.live == {c}
  {
    GiveChunkOk(z, c);
    FullMeansNoneLive(GiveChunk(z, c));
  }

  lemma OnlyOne(list: seq<nat>, id: nat)
    requires Distinct(list) && id in list
    ensures list == [id] <==> forall x :: x in list ==> x == id
  {
    if forall x :: x in list ==> x == id {
      if |list| > 1 {
        assert list[0] in list && list[1] in list && list[0] != list[1];
      }
    }
  }

  lemma AloneInList(s: Slab, chunk: Chunk)
    requires SlabOk(s) && Live(s, chunk)
    ensures var z := s.zones[chunk.zone];
      z.index < ZONES &&
      var list := if z.nfree == 0 then [chunk.zone] + s.lists[z.index] else s.lists[z.index];
      list == [chunk.zone] <==> forall x :: x != chunk.zone ==> !Linked(s.zones, z.index, x)
  {
    var id, z := chunk.zone, s.zones[chunk.zone];
    assert ZoneOk(z);
    assert ListOk(s.zones, s.lists[z.index], z.index);
    if z.nfree == 0 {
      assert id !in s.lists[z.index];
      if s.lists[z.index] != [] {
        assert s.lists[z.index][0] in s.lists[z.index];
      }
    } else {
      assert Linked(s.zones, z.index, id);
      OnlyOne(s.lists[z.index], id);
    }
  }

  /** A zone is given up exactly when its last chunk is freed and another zone of its class
      has a free one; two such zones are kept spare and any more go back to the pages. */
  lemma FreeGivesUp(s: Slab, chunk: Chunk)
    requires SlabOk(s) && Live(s, chunk)
    ensures var (s', page), id, z := Free(s, chunk), chunk.zone, s.zones[chunk.zone];
      if z.live == {chunk.place} && exists x :: x != id && Linked(s.zones, z.index, x) then
        && s'.zones.Keys == s.zones.Keys - {id}
        && if |s.spare| < 2 then s'.spare == [id] + s.spare && page.None? else s'.spare == s.spare && page == Some(id)
      else s'.zones.Keys == s.zones.Keys && s'.spare == s.spare && page.None?
  {
    assert ZoneOk(s.zones[chunk.zone]);
    LastChunk(s.zones[chunk.zone], chunk.place);
    AloneInList(s, chunk);
  }

  /** In a zone all of whose chunks have been used, the chunk freed last is taken next. */
  lemma TakeUndoesGive(z: Zone, c: nat)
    requires ZoneOk(z) && c in z.live && z.uindex + 1 == z.nmax
    ensures GiveChunk(z, c).nfree > 0 && TakeChunk(GiveChunk(z, c)) == (z, c)
  {
    assert ([c] + z.chunks)[1..] == z.chunks;
    assert z.live - {c} + {c} == z.live;
  }

  // ----- Whole runs

  datatype Call = Mallocs(n: nat, page: Option<nat>) | Frees(chunk: Chunk)

  ghost predicate Enabled(s: Slab, c: Call) {
    match c
    case Mallocs(n, page) => 0 < n < Limit(s.zone) && FreshPage(s, page)
    case Frees(chunk) => Live(s, chunk)
  }

  ghost predicate Step(s: Slab, c: Call, s': Slab) {
    Enabled(s, c) && (SlabOk(s) ==> s' == match c
      case Mallocs(n, page) => Malloc(s, n, page).0
      case Frees(chunk) => Free(s, chunk).0)
  }

  ghost predicate Run(zone: nat, states: seq<Slab>, calls: seq<Call>) {
    && |states| == |calls| + 1 && ZoneSize(zone)
    && states[0] == Slab(zone, map[], seq(ZONES, i => []), [])
    && forall k | 0 <= k < |calls| :: Step(states[k], calls[k], states[k + 1])
  }

  /** In every state of every run each zone's nfree counts its free chunks, a zone is
      linked exactly when it has some, and the chunks used so far are either live or
      once in its free list. */
  lemma {:induction false} RunsAreSafe(zone: nat, states: seq<Slab>, calls: seq<Call>, k: nat)
    requires Run(zone, states, calls) && k <= |calls|
    ensures SlabOk(states[k])
  {
    if k > 0 {
      RunsAreSafe(zone, states, calls, k - 1);
      var s, c := states[k - 1], calls[k - 1];
      assert Step(s, c, states[k]);
      match c
      case Mallocs(n, page) => MallocKeeps(s, n, page);
      case Frees(chunk) => FreeKeeps(s, chunk);
    }
  }

  /** The bytes of a chunk, from the start of its zone. */
  ghost function Start(size: nat, place: nat): nat
    requires size > 0
  {
    Offset(size) + place * size
  }

  lemma SumOfMultiples(a: nat, k: nat, to: nat)
    requires to > 0 && a % to == 0
    ensures (a + k * to) % to == 0
  {
    assert a == a / to * to;
    assert a + k * to == (a / to + k) * to;
    MultipleOf(a / to + k, to);
  }

  /** Chunks whose size is a power of two start at a multiple of it, all others (whose size
      is a multiple of 8) at a multiple of 8, and the first as close to the header as that
      allows. */
  lemma ChunksAligned(size: nat, place: nat)
    requires size > 0 && size % 8 == 0
    ensures var to := if PowerOfTwo(size) then size else 8;
      Start(size, place) % to == 0 && 36 <= Start(size, 0) < 36 + to
  {
    if PowerOfTwo(size) {
      SumOfMultiples(Offset(size), place, size);
    } else {
      assert place * size == place * (size / 8) * 8;
      SumOfMultiples(Offset(size), place * (size / 8), 8);
    }
  }

  lemma Further(i: nat, j: nat, size: nat)
    requires i < j
    ensures i * size + size <= j * size
  {
    AtLeastOnce(j - i, size);
    assert (j - i) * size == j * size - i * size;
  }

  lemma Layout(off: nat, size: nat, i: nat, j: nat, nmax: nat, zone: nat)
    requires i < j < nmax && off + nmax * size <= zone
    ensures off + i * size + size <= off + j * size && off + j * size + size <= zone
  {
    Further(i, j, size);
    Further(j, nmax, size);
  }

  /** Live chunks of one zone do not overlap, and lie between header and end of zone. */
  lemma ChunksApart(s: Slab, a: Chunk, b: Chunk)
    requires SlabOk(s) && Live(s, a) && Live(s, b) && a.zone == b.zone && a.place < b.place
    ensures s.zones[a.zone].index < ZONES && SizeOf(s.zones[a.zone].index) > 0
    ensures var size := SizeOf(s.zones[a.zone].index);
      HEADER <= Start(size, a.place) && Start(size, a.place) + size <= Start(size, b.place) &&
      Start(size, b.place) + size <= s.zone
  {
    var z := s.zones[a.zone];
    assert ZoneOk(z) && Fits(s.zone, z);
    ChunksApartIn(s.zone, z, a.place, b.place);
  }

  lemma ChunksApartIn(zone: nat, z: Zone, a: nat, b: nat)
    requires z.index < ZONES && Fits(zone, z) && a < b < z.nmax
    ensures var size := SizeOf(z.index);
      HEADER <= Start(size, a) && Start(size, a) + size <= Start(size, b) && Start(size, b) + size <= zone
  {
    var size := SizeOf(z.index);
    Layout(Offset(size), size, a, b, z.nmax, zone);
  }

  lemma ChunkInside(zone: nat, z: Zone, place: nat)
    requires z.index < ZONES && Fits(zone, z) && place < z.nmax
    ensures var size := SizeOf(z.index); HEADER <= Start(size, place) && Start(size, place) + size <= zone
  {
    Further(place, z.nmax, SizeOf(z.index));
  }

  // ----- The object

  class Allocator {
    const zone: nat
    var zones: map<nat, Zone>
    var lists: seq<seq<nat>>
    var spare: seq<nat>

    function Value(): Slab
      reads this
    {
      Slab(zone, zones, lists, spare)
    }

    /** rt_system_heap_init for a heap of `limsize` bytes */
    constructor (limsize: nat)
      ensures zone == (if limsize / 1024 <= 65536 then 32768 else if limsize / 1024 <= 131072 then 65536 else 131072)
      ensures Value() == Slab(zone, map[], seq(ZONES, i => []), []) && SlabOk(Value())
    {
      var size := ZoneSizeFor(limsize);
      zone := size;
      zones, lists, spare := map[], seq(ZONES, i => []), [];
    }

    /** The zone path of rt_malloc. */
    method AllocChunk(n: nat, page: Option<nat>) returns (r: Option<Chunk>)
      requires SlabOk(Value()) && 0 < n < Limit(zone) && FreshPage(Value(), page)
      modifies this
      ensures (Value(), r) == Malloc(old(Value()), n, page) && SlabOk(Value())
    {
      MallocKeeps(Value(), n, page);
      var zi := ZoneIndex(n);
      if lists[zi] != [] {
        var id := lists[zi][0];
        assert ListOk(zones, lists[zi], zi) && id in lists[zi] && Linked(zones, zi, id);
        TakeChunkOk(zones[id]);
        r := TakeFrom(zi, id);
        return;
      }
      ZoneHasRoom(zone, n);
      var id;
      if spare != [] {
        id := spare[0];
        spare := spare[1..];
      } else {
        if page.None? {
          return None;
        }
        id := page.value;
      }
      zones := zones[id := NewZone(zi, Capacity(zone, ChunkSize(n)))];
      lists := lists[zi := [id] + lists[zi]];
      return Some(Chunk(id, 0));
    }

    /** Takes a chunk out of the first zone of list zi. */
    method TakeFrom(zi: nat, id: nat) returns (r: Option<Chunk>)
      requires zi < |lists| && lists[zi] != [] && id in zones
      requires zones[id].nfree > 0 && (zones[id].uindex + 1 == zones[id].nmax ==> zones[id].chunks != [])
      modifies this`zones, this`lists
      ensures var (z, c) := TakeChunk(old(zones)[id]);
        zones == old(zones)[id := z] && r == Some(Chunk(id, c)) &&
        lists == if z.nfree == 0 then old(lists)[zi := old(lists)[zi][1..]] else old(lists)
    {
      var z, c := zones[id], 0;
      z := z.(nfree := z.nfree - 1);
      if z.nfree == 0 {
        lists := lists[zi := lists[zi][1..]];
      }
      if z.uindex + 1 != z.nmax {
        z := z.(uindex := z.uindex + 1);
        c := z.uindex;
      } else {
        c := z.chunks[0];
        z := z.(chunks := z.chunks[1..]);
      }
      zones := zones[id := z.(live := z.live + {c})];
      return Some(Chunk(id, c));
    }

    /** The zone path of rt_free; also the zone to give back to the page allocator. */
    method FreeChunk(chunk: Chunk) returns (page: Option<nat>)
      requires SlabOk(Value()) && Live(Value(), chunk)
      modifies this
      ensures (Value(), page) == Free(old(Value()), chunk) && SlabOk(Value())
    {
      FreeKeeps(Value(), chunk);
      assert ZoneOk(zones[chunk.zone]);
      GiveBack(Value(), chunk);
      var id := chunk.zone;
      var z := zones[id];
      var zi := z.index;
      if z.nfree == 0 {
        lists := lists[zi := [id] + lists[zi]];
      }
      z := GiveChunk(z, chunk.place);
      if z.nfree == z.nmax && lists[zi] != [id] {
        assert ListOk(old(zones)[id := z], lists[zi], zi) && Linked(old(zones)[id := z], zi, id);
        var list := Unlinked(lists[zi], id);
        lists := lists[zi := list];
        zones := map k | k in zones && k != id :: zones[k];
        if |spare| + 1 > KEPT {
          return Some(id);
        }
        spare := [id] + spare;
        return None;
      }
      zones := zones[id := z];
      return None;
    }
  }

  /** The loop of rt_free that takes a zone out of its list. */
  method Unlinked(list: seq<nat>, id: nat) returns (r: seq<nat>)
    requires id in list
    ensures r == Removed(list, id)
  {
    var k := 0;
    while list[k] != id
      invariant 0 <= k < |list| && forall j | 0 <= j < k :: list[j] != id
      decreases |list| - k
    {
      k := k + 1;
    }
    RemovedAt(list, id, k);
    r := list[..k] + list[k + 1..];
  }
}
