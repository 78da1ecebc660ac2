/** The slab allocator of os/rt-thread-nano/src/slab.c. Small requests are served from zones, runs of
    pages that are divided into chunks of one size; large ones go to the page allocator. Addresses are
    byte offsets from heap_start, which is page-aligned. */
module Slab {
  import opened Lists
  import Pages
  import opened Zones

  type Page = nat

  /** ZONE_RELEASE_THRESH. */
  const RELEASE_THRESH: nat := 2

  /** A slab_zone header; chunks are named by their number in the zone, and `free` is the list that
      starts at z_freechunk. */
  datatype Zone = Zone(index: nat, chunk: nat, nmax: nat, nfree: nat, uindex: nat, free: seq<nat>)

  /** The memusage entry of a page. */
  datatype Usage = Unused | Small(offset: nat) | Large(pages: nat)

  /** `arrays` are the lists of zone_array and `spare` is zone_free; the memusage array itself is the
      allocation at page `table`. */
  datatype State = State(zoneSize: nat, pages: Pages.State, table: Page, usage: seq<Usage>,
                         zones: map<Page, Zone>, arrays: seq<seq<Page>>, spare: seq<Page>)
  {
    /** zone_page_cnt. */
    function Span(): nat { zoneSize / PAGE }
  }

  datatype Pointer = Null | Ptr(address: nat)

  function ChunkAddress(z: Page, chunk: nat, c: nat): nat
    requires chunk > 0
  {
    z * PAGE + Offset(chunk) + c * chunk
  }

  /** The number of the chunk at an address, from the address of the first chunk. */
  function ChunkNumber(first: nat, chunk: nat, address: nat): nat
    requires chunk > 0 && first <= address
  {
    (address - first) / chunk
  }

  // ---------- rt_malloc ----------

  /** The entries of a zone's pages. */
  function Marked(usage: seq<Usage>, z: Page, span: nat): (r: seq<Usage>)
    requires z + span <= |usage|
    ensures |r| == |usage|
    ensures forall p :: 0 <= p < |r| ==> r[p] == if z <= p < z + span then Small(p - z) else usage[p]
  {
    seq(|usage|, p requires 0 <= p < |usage| => if z <= p < z + span then Small(p - z) else usage[p])
  }

  function Unmarked(usage: seq<Usage>, z: Page, span: nat): (r: seq<Usage>)
    ensures |r| == |usage|
    ensures forall p :: 0 <= p < |r| ==> r[p] == if z <= p < z + span then Unused else usage[p]
  {
    seq(|usage|, p requires 0 <= p < |usage| => if z <= p < z + span then Unused else usage[p])
  }

  /** A chunk from a zone with free ones: never used space first, then the list of freed chunks. */
  function TakeChunk(q: Zone): (Zone, nat)
    requires q.nfree > 0 && (q.uindex + 1 == q.nmax ==> q.free != [])
  {
    if q.uindex + 1 != q.nmax then (q.(nfree := q.nfree - 1, uindex := q.uindex + 1), q.uindex + 1)
    else (q.(nfree := q.nfree - 1, free := q.free[1..]), q.free[0])
  }

  function TakeFrom(s: State, z: Page): (State, Pointer)
    requires z in s.zones && s.zones[z].index < |s.arrays| && s.arrays[s.zones[z].index] != [] && s.zones[z].chunk > 0
    requires s.zones[z].nfree > 0 && (s.zones[z].uindex + 1 == s.zones[z].nmax ==> s.zones[z].free != [])
  {
    var zi := s.zones[z].index;
    var (q, c) := TakeChunk(s.zones[z]);
    var arrays := if q.nfree == 0 then s.arrays[zi := s.arrays[zi][1..]] else s.arrays;
    (s.(zones := s.zones[z := q], arrays := arrays), Ptr(ChunkAddress(z, q.chunk, c)))
  }

  /** A fresh zone for an index: its first chunk is handed out. */
  function NewZone(s: State, z: Page, zi: nat, chunk: nat): (State, Pointer)
    requires zi < |s.arrays| && chunk > 0 && ChunksIn(s.zoneSize, chunk) > 0
  {
    var nmax := ChunksIn(s.zoneSize, chunk);
    (s.(zones := s.zones[z := Zone(zi, chunk, nmax, nmax - 1, 0, [])], arrays := s.arrays[zi := [z] + s.arrays[zi]]),
     Ptr(ChunkAddress(z, chunk, 0)))
  }

  function PagesTaken(s: State, n: nat): (Pages.State, Pages.Allocation) {
    (Pages.Apply(s.pages, Pages.Allocate(n)), Pages.Alloc(s.pages.runs, n).1)
  }

  function MallocSmall(s: State, size: nat): (State, Pointer)
    requires 0 < size < Limit(s.zoneSize) && Ready(s)
  {
    var (zi, chunk) := ZoneIndex(size);
    ZoneHoldsItsChunks(s.zoneSize, size);
    ChunkFitsTightly(size);
    if s.arrays[zi] != [] then TakeFrom(s, s.arrays[zi][0])
    else if s.spare != [] then NewZone(s.(spare := s.spare[1..]), s.spare[0], zi, chunk)
    else
      var (pages, r) := PagesTaken(s, s.Span());
      if r.Failed? || r.page + s.Span() > |s.usage| then (s, Null)
      else NewZone(s.(pages := pages, usage := Marked(s.usage, r.page, s.Span())), r.page, zi, chunk)
  }

  function MallocLarge(s: State, size: nat): (State, Pointer)
    requires size > 0
  {
    var n := RoundUp(size, PAGE) / PAGE;
    var (pages, r) := PagesTaken(s, n);
    if r.Failed? || r.page >= |s.usage| then (s, Null)
    else (s.(pages := pages, usage := s.usage[r.page := Large(n)]), Ptr(r.page * PAGE))
  }

  function Malloc(s: State, size: nat): (State, Pointer)
    requires Ready(s)
  {
    if size == 0 then (s, Null)
    else if size >= Limit(s.zoneSize) then MallocLarge(s, size)
    else MallocSmall(s, size)
  }

  // ---------- rt_free ----------

  /** A zone without live chunks leaves its list if that has others; more than two spare zones are not kept. */
  function Retired(s: State, z: Page, zi: nat): State
    requires zi < |s.arrays| && z in s.pages.live
  {
    var t := s.(zones := s.zones - {z}, arrays := s.arrays[zi := Without(s.arrays[zi], z)]);
    if |s.spare| + 1 > RELEASE_THRESH
    then t.(usage := Unmarked(s.usage, z, s.Span()), pages := Pages.Apply(s.pages, Pages.Release(z)))
    else t.(spare := [z] + s.spare)
  }

  function FreeChunk(s: State, z: Page, c: nat): State
    requires z in s.zones && s.zones[z].index < |s.arrays| && z in s.pages.live
  {
    var q := s.zones[z];
    var zi := q.index;
    var q1 := q.(free := [c] + q.free, nfree := q.nfree + 1);
    var list := if q.nfree == 0 then [z] + s.arrays[zi] else s.arrays[zi];
    var t := s.(zones := s.zones[z := q1], arrays := s.arrays[zi := list]);
    if q1.nfree == q1.nmax && |list| > 1 then Retired(t, z, zi) else t
  }

  function FreeLarge(s: State, p: Page): State
    requires p < |s.usage| && p in s.pages.live
  {
    s.(usage := s.usage[p := Large(0)], pages := Pages.Apply(s.pages, Pages.Release(p)))
  }

  /** The page and the zone are found from the address alone, through memusage. */
  function Free(s: State, address: nat): State
    requires Freeable(s, address)
  {
    var p := address / PAGE;
    match s.usage[p]
    case Large(n) => FreeLarge(s, p)
    case Small(off) =>
      var z := p - off;
      FreeChunk(s, z, ChunkNumber(ChunkAddress(z, s.zones[z].chunk, 0), s.zones[z].chunk, address))
  }

  predicate Freeable(s: State, address: nat) {
    var p := address / PAGE;
    && p < |s.usage|
    && match s.usage[p]
       case Unused => false
       case Large(n) => p in s.pages.live
       case Small(off) =>
         && off <= p && p - off in s.zones && p - off in s.pages.live
         && var q := s.zones[p - off];
            q.index < |s.arrays| && q.chunk > 0 && ChunkAddress(p - off, q.chunk, 0) <= address
  }

  // ---------- The invariant ----------

  /** z_nfree counts never used and freed chunks, and the freed ones are distinct used ones. */
  ghost predicate ZoneOk(zoneSize: nat, q: Zone) {
    && q.index < NZONES && q.chunk == ChunkOf(q.index) && q.chunk > 0
    && q.nmax == ChunksIn(zoneSize, q.chunk) && q.nmax >= 3
    && HEADER <= Offset(q.chunk) && Offset(q.chunk) + q.nmax * q.chunk <= zoneSize
    && q.uindex < q.nmax
    && q.nfree == q.nmax - 1 - q.uindex + |q.free|
    && Distinct(q.free) && forall c :: c in q.free ==> c <= q.uindex
  }

  /** The page list and memusage know a zone: it is one allocation, and every page leads to its first. */
  ghost predicate Known(s: State, z: Page) {
    && z in s.pages.live && s.pages.live[z] == s.Span()
    && forall i: nat :: i < s.Span() ==> IsMarked(s.usage, z, i)
  }

  predicate IsMarked(usage: seq<Usage>, z: Page, i: nat) {
    z + i < |usage| && usage[z + i] == Small(i)
  }

  predicate Reserved(s: State, p: Page) {
    p in s.zones || p in s.spare || p == s.table
  }

  /** zone_array[i] holds exactly the zones of index i with free chunks. */
  ghost predicate Listed(s: State) {
    && |s.arrays| == NZONES
    && (forall i :: 0 <= i < NZONES ==> Distinct(s.arrays[i]))
    && forall i: nat, z: Page :: i < NZONES ==>
         (InList(s.arrays, i, z) <==> z in s.zones && s.zones[z].index == i && s.zones[z].nfree > 0)
  }

  predicate InList(arrays: seq<seq<Page>>, i: nat, z: Page) {
    i < |arrays| && z in arrays[i]
  }

  ghost predicate Inv(s: State) {
    InvBut(s, s.table)
  }

  /** The invariant, except that one allocation of pages may be neither a large block nor a zone yet. */
  ghost predicate InvBut(s: State, raw: Page) {
    && IsZoneSize(s.zoneSize)
    && Pages.Inv(s.pages) && |s.usage| == s.pages.total
    && (forall z :: z in s.zones ==> ZoneOk(s.zoneSize, s.zones[z]) && Known(s, z))
    && Listed(s)
    && Distinct(s.spare) && |s.spare| <= RELEASE_THRESH
    && (forall z :: z in s.spare ==> z !in s.zones && Known(s, z))
    && s.table in s.pages.live && s.table !in s.zones && s.table !in s.spare
    && forall p :: p in s.pages.live && p != raw && !Reserved(s, p) ==> p < |s.usage| && s.usage[p] == Large(s.pages.live[p])
  }

  /** What an allocation relies on. */
  ghost predicate Ready(s: State) {
    && IsZoneSize(s.zoneSize) && |s.arrays| == NZONES
    && forall i, z :: 0 <= i < NZONES && z in s.arrays[i] ==>
         && z in s.zones && s.zones[z].index == i && s.zones[z].chunk > 0 && s.zones[z].nfree > 0
         && (s.zones[z].uindex + 1 == s.zones[z].nmax ==> s.zones[z].free != [])
  }

  // ---------- Live blocks ----------

  datatype Block = Chunk(z: Page, c: nat) | PageBlock(p: Page)

  predicate IsLive(s: State, b: Block) {
    match b
    case Chunk(z, c) => z in s.zones && c <= s.zones[z].uindex && c !in s.zones[z].free
    case PageBlock(p) => p in s.pages.live && !Reserved(s, p)
  }

  function Address(s: State, b: Block): nat {
    match b
    case Chunk(z, c) => if z in s.zones && s.zones[z].chunk > 0 then ChunkAddress(z, s.zones[z].chunk, c) else 0
    case PageBlock(p) => p * PAGE
  }

  function Length(s: State, b: Block): nat {
    match b
    case Chunk(z, c) => if z in s.zones then s.zones[z].chunk else 0
    case PageBlock(p) => if p in s.pages.live then s.pages.live[p] * PAGE else 0
  }
}
