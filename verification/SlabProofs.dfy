/** Every call of the slab allocator keeps its invariant, and hands out and takes back exactly one
    block, which overlaps no other block and no zone header. */
module SlabProofs {
  import opened Lists
  import Pages
  import opened Zones
  import opened Slab

  lemma InvIsReady(s: State)
    requires Inv(s)
    ensures Ready(s)
  {
    forall i, z | 0 <= i < NZONES && z in s.arrays[i]
      ensures && z in s.zones && s.zones[z].index == i && s.zones[z].chunk > 0 && s.zones[z].nfree > 0
              && (s.zones[z].uindex + 1 == s.zones[z].nmax ==> s.zones[z].free != [])
    {
      assert InList(s.arrays, i, z);
      assert ZoneOk(s.zoneSize, s.zones[z]);
    }
  }

  // ---------- Taking a chunk ----------

  lemma TakeChunkIsOk(zoneSize: nat, q: Zone)
    requires ZoneOk(zoneSize, q) && q.nfree > 0
    ensures q.uindex + 1 == q.nmax ==> q.free != []
    ensures var (r, c) := TakeChunk(q);
            && ZoneOk(zoneSize, r) && r.index == q.index && r.chunk == q.chunk && r.nfree == q.nfree - 1
            && c < q.nmax && !(c <= q.uindex && c !in q.free)
            && forall d: nat :: d <= r.uindex && d !in r.free <==> (d <= q.uindex && d !in q.free) || d == c
  {
    if q.uindex + 1 == q.nmax {
      assert q.free == [q.free[0]] + q.free[1..] && q.free[0] in q.free;
      assert forall c :: c in q.free[1..] ==> c in q.free;
      assert q.free[0] !in q.free[1..];
    }
  }

  /** One zone has changed, and its list if it has become empty or is no longer so. */
  lemma ZoneChanged(s: State, r: State, z: Page, q: Zone)
    requires Inv(s) && z in s.zones && ZoneOk(s.zoneSize, q) && q.index == s.zones[z].index
    requires r == s.(zones := s.zones[z := q], arrays := r.arrays)
    requires Listed(r)
    ensures Inv(r)
  {
    forall w | w in r.zones ensures ZoneOk(r.zoneSize, r.zones[w]) && Known(r, w) {
      assert Known(s, w);
    }
    forall w | w in r.spare ensures w !in r.zones && Known(r, w) {
      assert Known(s, w);
    }
  }

  lemma TakeFromIsInv(s: State, zi: nat)
    requires Inv(s) && zi < NZONES && s.arrays[zi] != []
    ensures var z := s.arrays[zi][0];
            && z in s.zones && s.zones[z].index == zi && s.zones[z].nfree > 0 && s.zones[z].chunk > 0
            && (s.zones[z].uindex + 1 == s.zones[z].nmax ==> s.zones[z].free != [])
            && Inv(TakeFrom(s, z).0)
  {
    var list := s.arrays[zi];
    var z := list[0];
    assert InList(s.arrays, zi, z);
    TakeChunkIsOk(s.zoneSize, s.zones[z]);
    var r := TakeFrom(s, z).0;
    var q := r.zones[z];
    hide ZoneOk, Known, Pages.Inv, TakeChunk;
    assert list == [z] + list[1..];
    assert z !in list[1..];
    forall i: nat, w: Page | i < NZONES
      ensures InList(r.arrays, i, w) <==> w in r.zones && r.zones[w].index == i && r.zones[w].nfree > 0
    {
      assert InList(s.arrays, i, w) <==> w in s.zones && s.zones[w].index == i && s.zones[w].nfree > 0;
    }
    ZoneChanged(s, r, z, q);
  }

  // ---------- A new zone ----------

  lemma NewZoneIsInv(s: State, z: Page, size: nat)
    requires InvBut(s, z) && 0 < size < Limit(s.zoneSize) && z !in s.zones && z !in s.spare && z != s.table && Known(s, z)
    ensures var (zi, chunk) := ZoneIndex(size);
            zi < NZONES && chunk > 0 && ChunksIn(s.zoneSize, chunk) > 0 && Inv(NewZone(s, z, zi, chunk).0)
  {
    var (zi, chunk) := ZoneIndex(size);
    ZoneHoldsItsChunks(s.zoneSize, size);
    ChunkFitsTightly(size);
    hide ZoneIndex, ChunkOf, Offset, ChunksIn, Pages.Inv;
    var r := NewZone(s, z, zi, chunk).0;
    assert ZoneOk(r.zoneSize, r.zones[z]);
    assert Listed(r) by {
      NewZoneIsListed(s, r, z, zi);
    }
    hide Listed, ZoneOk;
    forall w | w in r.zones ensures ZoneOk(r.zoneSize, r.zones[w]) && Known(r, w) {
      assert Known(s, w);
    }
    forall w | w in r.spare ensures w !in r.zones && Known(r, w) {
      assert Known(s, w);
    }
  }

  lemma NewZoneIsListed(s: State, r: State, z: Page, zi: nat)
    requires Listed(s) && zi < NZONES && z !in s.zones && z in r.zones && r.zones[z].index == zi && r.zones[z].nfree > 0
    requires r.zones == s.zones[z := r.zones[z]] && r.arrays == s.arrays[zi := [z] + s.arrays[zi]]
    ensures Listed(r)
  {
    assert !InList(s.arrays, zi, z);
    forall i: nat, w: Page | i < NZONES
      ensures InList(r.arrays, i, w) <==> w in r.zones && r.zones[w].index == i && r.zones[w].nfree > 0
    {
      assert InList(s.arrays, i, w) <==> w in s.zones && s.zones[w].index == i && s.zones[w].nfree > 0;
    }
  }

  lemma SpareIsKnown(s: State)
    requires Inv(s) && s.spare != []
    ensures var (z, r) := (s.spare[0], s.(spare := s.spare[1..]));
            InvBut(r, z) && z !in r.zones && z !in r.spare && z != r.table && Known(r, z)
  {
    var z := s.spare[0];
    assert s.spare == [z] + s.spare[1..];
    assert z in s.spare;
    assert Known(s, z);
    var r := s.(spare := s.spare[1..]);
    assert z !in r.spare;
    forall w | w in r.zones || w in r.spare ensures Known(r, w) {
      assert Known(s, w);
    }
  }

  // ---------- Pages ----------

  /** Pages that are given to a new allocation belong to no zone and no large block. */
  lemma FreshPages(s: State, n: nat)
    requires Inv(s) && n > 0 && PagesTaken(s, n).1.At?
    ensures var (pages, r) := PagesTaken(s, n);
            && pages == s.pages.(runs := pages.runs, live := s.pages.live[r.page := n]) && Pages.Inv(pages)
            && r.page !in s.pages.live && r.page + n <= |s.usage|
            && forall a: Page, p: Page :: Pages.Owns(s.pages.live, a, p) ==> !Pages.Within(r.page, n, p)
  {
    var (pages, r) := PagesTaken(s, n);
    Pages.CallKeepsInv(s.pages, Pages.Allocate(n));
    Pages.AllocTakes(s.pages.runs, n);
    assert Pages.Within(r.page, n, r.page) && Pages.Within(r.page, n, r.page + n - 1);
    assert !Pages.Owns(s.pages.live, r.page, r.page);
  }

  /** Whatever happens to other pages, a zone stays known. */
  lemma StaysKnown(s: State, r: State, w: Page)
    requires Known(s, w) && r.zoneSize == s.zoneSize && |r.usage| == |s.usage|
    requires w in r.pages.live && r.pages.live[w] == s.pages.live[w]
    requires forall p: Page :: Pages.Owns(s.pages.live, w, p) && p < |s.usage| ==> r.usage[p] == s.usage[p]
    ensures Known(r, w)
  {
    forall i: nat | i < r.Span() ensures IsMarked(r.usage, w, i) {
      assert IsMarked(s.usage, w, i);
      assert Pages.Owns(s.pages.live, w, w + i);
    }
  }

  lemma ZoneFromPages(s: State)
    requires Inv(s) && PagesTaken(s, s.Span()).1.At?
    ensures var (pages, x) := PagesTaken(s, s.Span());
            && x.page + s.Span() <= |s.usage|
            && var r := s.(pages := pages, usage := Marked(s.usage, x.page, s.Span()));
               InvBut(r, x.page) && x.page !in r.zones && x.page !in r.spare && x.page != r.table && Known(r, x.page)
  {
    var n := s.Span();
    FreshPages(s, n);
    var (pages, x) := PagesTaken(s, n);
    var r := s.(pages := pages, usage := Marked(s.usage, x.page, n));
    hide Pages.Inv, Listed, ZoneOk, PagesTaken;
    forall w | w in s.zones || w in s.spare ensures w != x.page && Known(r, w) {
      assert Known(s, w);
      StaysKnown(s, r, w);
    }
    forall p | p in r.pages.live && p != x.page && !Reserved(r, p) ensures p < |r.usage| && r.usage[p] == Large(r.pages.live[p]) {
      assert !Reserved(s, p);
      OwnsItsFirst(s.pages, p);
    }
    forall i: nat | i < n ensures IsMarked(r.usage, x.page, i) {
    }
  }

  lemma OwnsItsFirst(pages: Pages.State, p: Page)
    requires Pages.Inv(pages) && p in pages.live
    ensures Pages.Owns(pages.live, p, p) && p < pages.total
  {
    assert Pages.Owns(pages.live, p, p);
  }

  lemma LargeIsInv(s: State, n: nat)
    requires Inv(s) && n > 0 && PagesTaken(s, n).1.At?
    ensures var (pages, x) := PagesTaken(s, n);
            x.page < |s.usage| && Inv(s.(pages := pages, usage := s.usage[x.page := Large(n)]))
  {
    FreshPages(s, n);
    var (pages, x) := PagesTaken(s, n);
    var r := s.(pages := pages, usage := s.usage[x.page := Large(n)]);
    hide Pages.Inv, Listed, ZoneOk, PagesTaken;
    assert Pages.Within(x.page, n, x.page);
    forall w | w in s.zones || w in s.spare ensures w != x.page && Known(r, w) {
      assert Known(s, w);
      StaysKnown(s, r, w);
    }
    forall p | p in r.pages.live && !Reserved(r, p) ensures p < |r.usage| && r.usage[p] == Large(r.pages.live[p]) {
      assert !Reserved(s, p);
    }
  }

  /** Every allocation keeps the invariant. */
  lemma MallocKeepsInv(s: State, size: nat)
    requires Inv(s)
    ensures Ready(s) && Inv(Malloc(s, size).0)
  {
    InvIsReady(s);
    if 0 < size < Limit(s.zoneSize) {
      var (zi, chunk) := ZoneIndex(size);
      ZoneHoldsItsChunks(s.zoneSize, size);
      ChunkFitsTightly(size);
      hide Inv, InvBut, ZoneIndex, PagesTaken, TakeFrom, NewZone, ChunksIn, Offset, ChunkOf;
      if s.arrays[zi] != [] {
        TakeFromIsInv(s, zi);
      } else if s.spare != [] {
        SpareIsKnown(s);
        NewZoneIsInv(s.(spare := s.spare[1..]), s.spare[0], size);
      } else if PagesTaken(s, s.Span()).1.At? {
        ZoneFromPages(s);
        var (pages, x) := PagesTaken(s, s.Span());
        NewZoneIsInv(s.(pages := pages, usage := Marked(s.usage, x.page, s.Span())), x.page, size);
      }
    } else if size > 0 {
      var n := RoundUp(size, PAGE) / PAGE;
      assert n > 0;
      hide Inv, InvBut, PagesTaken;
      if PagesTaken(s, n).1.At? {
        LargeIsInv(s, n);
      }
    }
  }

  // ---------- Giving back ----------

  lemma ChunkFreedIsOk(zoneSize: nat, q: Zone, c: nat)
    requires ZoneOk(zoneSize, q) && c <= q.uindex && c !in q.free
    ensures ZoneOk(zoneSize, q.(free := [c] + q.free, nfree := q.nfree + 1))
  {
  }

  /** If all chunks of a zone count as free, none is live. */
  lemma AllFreeIsEmpty(zoneSize: nat, q: Zone, c: nat)
    requires ZoneOk(zoneSize, q) && q.nfree == q.nmax && c <= q.uindex
    ensures c in q.free
  {
    NoneMissing(q.free, q.uindex + 1, c);
  }

  /** The zone after a chunk of it has been freed, back on its list if it was full. */
  function Returned(s: State, z: Page, c: nat): State
    requires z in s.zones && s.zones[z].index < |s.arrays|
  {
    var q := s.zones[z];
    var list := if q.nfree == 0 then [z] + s.arrays[q.index] else s.arrays[q.index];
    s.(zones := s.zones[z := q.(free := [c] + q.free, nfree := q.nfree + 1)], arrays := s.arrays[q.index := list])
  }

  lemma ReturnedIsInv(s: State, z: Page, c: nat)
    requires Inv(s) && z in s.zones && c <= s.zones[z].uindex && c !in s.zones[z].free
    ensures s.zones[z].index < NZONES == |s.arrays| && z in s.pages.live
    ensures Inv(Returned(s, z, c)) && z in Returned(s, z, c).arrays[s.zones[z].index]
  {
    var q := s.zones[z];
    ChunkFreedIsOk(s.zoneSize, q, c);
    assert Known(s, z);
    var r := Returned(s, z, c);
    var q1 := r.zones[z];
    assert InList(s.arrays, q.index, z) <==> q.nfree > 0;
    hide ZoneOk, Known, Pages.Inv;
    forall i: nat, w: Page | i < NZONES
      ensures InList(r.arrays, i, w) <==> w in r.zones && r.zones[w].index == i && r.zones[w].nfree > 0
    {
      assert InList(s.arrays, i, w) <==> w in s.zones && s.zones[w].index == i && s.zones[w].nfree > 0;
    }
    ZoneChanged(s, r, z, q1);
  }

  lemma UnlistedIsListed(s: State, r: State, z: Page)
    requires Listed(s) && z in s.zones && s.zones[z].index < NZONES
    requires r.zones == s.zones - {z} && r.arrays == s.arrays[s.zones[z].index := Without(s.arrays[s.zones[z].index], z)]
    ensures Listed(r)
  {
    var zi := s.zones[z].index;
    WithoutIsDistinct(s.arrays[zi], z);
    forall i: nat, w: Page | i < NZONES
      ensures InList(r.arrays, i, w) <==> w in r.zones && r.zones[w].index == i && r.zones[w].nfree > 0
    {
      assert InList(s.arrays, i, w) <==> w in s.zones && s.zones[w].index == i && s.zones[w].nfree > 0;
    }
  }

  lemma RetiredToSpare(s: State, z: Page)
    requires Inv(s) && z in s.zones && |s.spare| < RELEASE_THRESH
    ensures s.zones[z].index < |s.arrays| && z in s.pages.live && Inv(Retired(s, z, s.zones[z].index))
  {
    assert ZoneOk(s.zoneSize, s.zones[z]) && Known(s, z);
    var r := Retired(s, z, s.zones[z].index);
    hide ZoneOk, Pages.Inv;
    UnlistedIsListed(s, r, z);
    hide Listed;
    forall w | w in r.zones || w in r.spare ensures Known(r, w) {
      assert Known(s, w);
    }
    forall w | w in r.zones ensures ZoneOk(r.zoneSize, r.zones[w]) {
      assert ZoneOk(s.zoneSize, s.zones[w]);
    }
  }

  /** Pages that are released belong to nobody else. */
  lemma ReleasedPages(s: State, z: Page)
    requires Inv(s) && z in s.pages.live
    ensures var pages := Pages.Apply(s.pages, Pages.Release(z));
            pages.total == s.pages.total && pages.live == s.pages.live - {z} && Pages.Inv(pages)
    ensures forall a: Page, p: Page :: a != z && Pages.Owns(s.pages.live, a, p) ==> !Pages.Within(z, s.pages.live[z], p)
  {
    Pages.CallKeepsInv(s.pages, Pages.Release(z));
    forall a: Page, p: Page | a != z && Pages.Owns(s.pages.live, a, p) ensures !Pages.Within(z, s.pages.live[z], p) {
      assert Pages.Owns(s.pages.live, z, p) <==> Pages.Within(z, s.pages.live[z], p);
    }
  }

  lemma RetiredToPages(s: State, z: Page)
    requires Inv(s) && z in s.zones && |s.spare| >= RELEASE_THRESH
    ensures s.zones[z].index < |s.arrays| && z in s.pages.live && Inv(Retired(s, z, s.zones[z].index))
  {
    assert ZoneOk(s.zoneSize, s.zones[z]) && Known(s, z);
    ReleasedPages(s, z);
    var r := Retired(s, z, s.zones[z].index);
    hide ZoneOk, Pages.Inv, Pages.Apply;
    UnlistedIsListed(s, r, z);
    hide Listed;
    forall w | w in r.zones || w in r.spare ensures w != z && Known(r, w) {
      assert Known(s, w);
      StaysKnown(s, r, w);
    }
    forall w | w in r.zones ensures ZoneOk(r.zoneSize, r.zones[w]) {
      assert ZoneOk(s.zoneSize, s.zones[w]);
    }
    forall p | p in r.pages.live && !Reserved(r, p) ensures p < |r.usage| && r.usage[p] == Large(r.pages.live[p]) {
      OwnsItsFirst(s.pages, p);
    }
  }

  lemma FreeChunkIsInv(s: State, z: Page, c: nat)
    requires Inv(s) && z in s.zones && c <= s.zones[z].uindex && c !in s.zones[z].free
    ensures s.zones[z].index < |s.arrays| && z in s.pages.live && Inv(FreeChunk(s, z, c))
  {
    ReturnedIsInv(s, z, c);
    hide Inv, Retired;
    var t := Returned(s, z, c);
    if |s.spare| < RELEASE_THRESH { RetiredToSpare(t, z); } else { RetiredToPages(t, z); }
  }

  lemma FreeLargeIsInv(s: State, p: Page)
    requires Inv(s) && p in s.pages.live && !Reserved(s, p)
    ensures p < |s.usage| && Inv(FreeLarge(s, p))
  {
    ReleasedPages(s, p);
    OwnsItsFirst(s.pages, p);
    var r := FreeLarge(s, p);
    hide Pages.Inv, Listed, ZoneOk, Pages.Apply;
    forall w | w in s.zones || w in s.spare ensures w != p && Known(r, w) {
      assert Known(s, w);
      StaysKnown(s, r, w);
    }
    forall a | a in r.pages.live && !Reserved(r, a) ensures a < |r.usage| && r.usage[a] == Large(r.pages.live[a]) {
      assert !Reserved(s, a);
    }
  }

  // ---------- Where blocks lie ----------

  ghost predicate ByteOf(s: State, b: Block, x: nat) {
    Address(s, b) <= x < Address(s, b) + Length(s, b)
  }

  /** The allocation of pages that a block lies in. */
  function Owner(b: Block): Page {
    match b
    case Chunk(z, c) => z
    case PageBlock(p) => p
  }

  lemma PageOf(z: Page, off: nat, n: nat)
    requires off < n * PAGE
    ensures z <= (z * PAGE + off) / PAGE < z + n
  {
  }

  /** A chunk lies behind the header of its zone and inside its pages. */
  lemma ChunkInZone(zoneSize: nat, q: Zone, c: nat)
    requires IsZoneSize(zoneSize) && ZoneOk(zoneSize, q) && c < q.nmax
    ensures HEADER <= Offset(q.chunk) + c * q.chunk
    ensures Offset(q.chunk) + c * q.chunk + q.chunk <= zoneSize
  {
    hide Offset, ChunksIn, ChunkOf;
    Scaled(c + 1, q.nmax, q.chunk);
    assert (c + 1) * q.chunk == c * q.chunk + q.chunk;
  }

  lemma BlockInItsPages(s: State, b: Block, x: nat)
    requires Inv(s) && IsLive(s, b) && ByteOf(s, b, x)
    ensures Pages.Owns(s.pages.live, Owner(b), x / PAGE)
    ensures b.Chunk? ==> b.z * PAGE + HEADER <= x
  {
    match b
    case Chunk(z, c) =>
      assert ZoneOk(s.zoneSize, s.zones[z]) && Known(s, z);
      hide Inv, Known, ZoneOk, ChunkAddress;
      ChunkByte(s.zoneSize, s.zones[z], z, c, x);
      assert z in s.pages.live && s.pages.live[z] == s.Span() by {
        assert Known(s, z);
        KnownIsLive(s, z);
      }
    case PageBlock(p) =>
      hide Inv;
      PageOf(p, x - p * PAGE, s.pages.live[p]);
  }

  lemma KnownIsLive(s: State, z: Page)
    requires Known(s, z)
    ensures z in s.pages.live && s.pages.live[z] == s.Span()
  {
  }

  lemma ChunkByte(zoneSize: nat, q: Zone, z: Page, c: nat, x: nat)
    requires IsZoneSize(zoneSize) && ZoneOk(zoneSize, q) && c < q.nmax
    requires ChunkAddress(z, q.chunk, c) <= x < ChunkAddress(z, q.chunk, c) + q.chunk
    ensures z <= x / PAGE < z + zoneSize / PAGE && z * PAGE + HEADER <= x
  {
    ChunkInZone(zoneSize, q, c);
    hide ZoneOk, Offset;
    PageOf(z, x - z * PAGE, zoneSize / PAGE);
  }

  lemma ChunksApart(chunk: nat, c: nat, d: nat, base: nat, x: nat)
    requires base + c * chunk <= x < base + c * chunk + chunk && base + d * chunk <= x < base + d * chunk + chunk
    ensures c == d
  {
    assert (c + 1) * chunk == c * chunk + chunk && (d + 1) * chunk == d * chunk + chunk;
    if c < d {
      Scaled(c + 1, d, chunk);
    }
    if d < c {
      Scaled(d + 1, c, chunk);
    }
  }

  lemma OneOwner(pages: Pages.State, a: Page, b: Page, p: Page)
    requires Pages.Inv(pages) && Pages.Owns(pages.live, a, p) && Pages.Owns(pages.live, b, p)
    ensures a == b
  {
  }

  /** No byte belongs to two live blocks, and none to a live block and a zone header. */
  lemma LiveBlocksAreDisjoint(s: State, a: Block, b: Block, x: nat)
    requires Inv(s) && IsLive(s, a) && IsLive(s, b) && ByteOf(s, a, x) && ByteOf(s, b, x)
    ensures a == b
  {
    BlockInItsPages(s, a, x);
    BlockInItsPages(s, b, x);
    OneOwner(s.pages, Owner(a), Owner(b), x / PAGE);
    if a.Chunk? && b.Chunk? {
      assert ZoneOk(s.zoneSize, s.zones[a.z]);
      var q := s.zones[a.z];
      hide Inv, ZoneOk, Offset;
      ChunksApart(q.chunk, a.c, b.c, a.z * PAGE + Offset(q.chunk), x);
    }
  }

  lemma BlocksAvoidHeaders(s: State, b: Block, z: Page, x: nat)
    requires Inv(s) && IsLive(s, b) && ByteOf(s, b, x) && z in s.zones
    ensures !(z * PAGE <= x < z * PAGE + HEADER)
  {
    if z * PAGE <= x < z * PAGE + HEADER {
      BlockInItsPages(s, b, x);
      assert Known(s, z);
      PageOf(z, x - z * PAGE, s.Span());
      OneOwner(s.pages, Owner(b), z, x / PAGE);
    }
  }

  // ---------- Finding a block from its address ----------

  /** Every live block is found again from its address, through memusage. */
  lemma AddressFindsBlock(s: State, b: Block)
    requires Inv(s) && IsLive(s, b)
    ensures Freeable(s, Address(s, b))
    ensures Free(s, Address(s, b)) == match b
                                      case Chunk(z, c) => FreeChunk(s, z, c)
                                      case PageBlock(p) => FreeLarge(s, p)
  {
    match b
    case Chunk(z, c) => ChunkIsFreed(s, z, c);
    case PageBlock(p) =>
      PageIsFound(s, p);
      hide Inv, FreeLarge;
  }

  lemma ChunkIsFreed(s: State, z: Page, c: nat)
    requires Inv(s) && IsLive(s, Chunk(z, c))
    ensures s.zones[z].index < |s.arrays| && z in s.pages.live
    ensures Freeable(s, Address(s, Chunk(z, c))) && Free(s, Address(s, Chunk(z, c))) == FreeChunk(s, z, c)
  {
    ChunkIsFound(s, z, c);
    var address := ChunkAddress(z, s.zones[z].chunk, c);
    assert Address(s, Chunk(z, c)) == address;
    var p := address / PAGE;
    hide Inv, FreeChunk, FreeLarge, ChunkAddress, ChunkNumber, Address;
    assert s.usage[p] == Small(p - z) && p - (p - z) == z;
  }

  lemma PageIsFound(s: State, p: Page)
    requires Inv(s) && IsLive(s, PageBlock(p))
    ensures p * PAGE / PAGE == p < |s.usage| && s.usage[p] == Large(s.pages.live[p])
  {
    hide ZoneOk, Known, Listed, Pages.Inv;
    PageOf(p, 0, 1);
  }

  lemma ChunkIsFound(s: State, z: Page, c: nat)
    requires Inv(s) && IsLive(s, Chunk(z, c))
    ensures s.zones[z].chunk > 0 && z in s.pages.live && s.zones[z].index < |s.arrays|
    ensures var address := ChunkAddress(z, s.zones[z].chunk, c);
            && ChunkAddress(z, s.zones[z].chunk, 0) <= address
            && z <= address / PAGE < |s.usage|
            && s.usage[address / PAGE] == Small(address / PAGE - z)
            && ChunkNumber(ChunkAddress(z, s.zones[z].chunk, 0), s.zones[z].chunk, address) == c
  {
    var q := s.zones[z];
    assert ZoneOk(s.zoneSize, q) && Known(s, z) && q.index < |s.arrays|;
    hide Inv, Known, ChunkOf, ChunksIn, Offset;
    NumberOf(z, q.chunk, c);
    ChunkInPages(s.zoneSize, q, z, c);
    hide ChunkAddress, ChunkNumber, ZoneOk;
    var p := ChunkAddress(z, q.chunk, c) / PAGE;
    assert IsMarked(s.usage, z, p - z) by {
      assert p - z < s.Span();
      assert Known(s, z);
      MarkOf(s, z, p - z);
    }
  }

  lemma MarkOf(s: State, z: Page, i: nat)
    requires Known(s, z) && i < s.Span()
    ensures IsMarked(s.usage, z, i)
  {
  }

  lemma ChunkInPages(zoneSize: nat, q: Zone, z: Page, c: nat)
    requires IsZoneSize(zoneSize) && ZoneOk(zoneSize, q) && c < q.nmax
    ensures z <= ChunkAddress(z, q.chunk, c) / PAGE < z + zoneSize / PAGE
  {
    ChunkInZone(zoneSize, q, c);
    hide ZoneOk, Offset;
    PageOf(z, Offset(q.chunk) + c * q.chunk, zoneSize / PAGE);
  }

  lemma NumberOf(z: Page, chunk: nat, c: nat)
    requires chunk > 0
    ensures ChunkAddress(z, chunk, 0) <= ChunkAddress(z, chunk, c)
    ensures ChunkNumber(ChunkAddress(z, chunk, 0), chunk, ChunkAddress(z, chunk, c)) == c
  {
    hide Offset;
    DivideAt(c * chunk, chunk, c);
  }

  // ---------- What the calls do to live blocks ----------

  /** Releasing a live block keeps the invariant, and takes exactly that block: in particular no zone with
      another live chunk goes back to the page allocator. */
  lemma FreeTakesOneBlock(s: State, b: Block)
    requires Inv(s) && IsLive(s, b)
    ensures Freeable(s, Address(s, b)) && Inv(Free(s, Address(s, b)))
    ensures forall x: Block :: IsLive(Free(s, Address(s, b)), x) <==> IsLive(s, x) && x != b
    ensures forall x: Block :: IsLive(s, x) && x != b ==>
              Address(Free(s, Address(s, b)), x) == Address(s, x) && Length(Free(s, Address(s, b)), x) == Length(s, x)
  {
    AddressFindsBlock(s, b);
    match b
    case Chunk(z, c) =>
      FreeChunkIsInv(s, z, c);
      FreeChunkLive(s, z, c);
    case PageBlock(p) =>
      FreeLargeIsInv(s, p);
      hide Inv, Freeable, Free;
  }

  /** The live blocks of one state are those of another but for one. */
  ghost predicate Minus(s: State, r: State, b: Block) {
    && (forall x: Block :: IsLive(r, x) <==> IsLive(s, x) && x != b)
    && forall x: Block :: IsLive(s, x) && x != b ==> Address(r, x) == Address(s, x) && Length(r, x) == Length(s, x)
  }

  lemma FreeChunkLive(s: State, z: Page, c: nat)
    requires Inv(s) && z in s.zones && c <= s.zones[z].uindex && c !in s.zones[z].free
    requires s.zones[z].index < |s.arrays| && z in s.pages.live
    ensures Minus(s, FreeChunk(s, z, c), Chunk(z, c))
  {
    var q := s.zones[z];
    var t := Returned(s, z, c);
    ReturnedLive(s, z, c);
    if q.nfree + 1 == q.nmax && |t.arrays[q.index]| > 1 {
      EmptyWhenAllFree(s, z, c);
      RetiredLive(t, z, q.index);
      hide Inv, IsLive, Address, Length;
    }
  }

  lemma ReturnedLive(s: State, z: Page, c: nat)
    requires z in s.zones && s.zones[z].index < |s.arrays|
    ensures Minus(s, Returned(s, z, c), Chunk(z, c))
  {
    hide ChunkAddress;
  }

  lemma EmptyWhenAllFree(s: State, z: Page, c: nat)
    requires Inv(s) && z in s.zones && c <= s.zones[z].uindex && c !in s.zones[z].free
    requires s.zones[z].nfree + 1 == s.zones[z].nmax
    ensures forall d: nat :: d <= s.zones[z].uindex ==> d in [c] + s.zones[z].free
  {
    var q := s.zones[z];
    assert ZoneOk(s.zoneSize, q);
    hide Inv;
    ChunkFreedIsOk(s.zoneSize, q, c);
    var q1 := q.(free := [c] + q.free, nfree := q.nfree + 1);
    forall d: nat | d <= q.uindex ensures d in q1.free {
      AllFreeIsEmpty(s.zoneSize, q1, d);
    }
  }

  lemma RetiredLive(t: State, z: Page, zi: nat)
    requires z in t.zones && zi < |t.arrays| && z in t.pages.live
    requires forall d: nat :: d <= t.zones[z].uindex ==> d in t.zones[z].free
    ensures var r := Retired(t, z, zi);
            && (forall x: Block :: IsLive(r, x) <==> IsLive(t, x))
            && forall x: Block :: IsLive(t, x) ==> Address(r, x) == Address(t, x) && Length(r, x) == Length(t, x)
  {
    hide ChunkAddress, Unmarked, Pages.Free;
  }

  /** A new live block at an address, which is long enough; all others stay. */
  ghost predicate Gives(s: State, r: State, address: nat, b: Block, size: nat) {
    && !IsLive(s, b) && Address(r, b) == address && Length(r, b) >= size
    && (forall x: Block :: IsLive(r, x) <==> IsLive(s, x) || x == b)
    && forall x: Block :: IsLive(s, x) ==> Address(r, x) == Address(s, x) && Length(r, x) == Length(s, x)
  }

  /** An allocation that does not fail hands out one new block, which is long enough; all others stay. */
  lemma MallocGivesOneBlock(s: State, size: nat) returns (b: Block)
    requires Inv(s)
    ensures Ready(s)
    ensures var (r, p) := Malloc(s, size);
            if p.Null? then r == s else size > 0 && Gives(s, r, p.address, b, size)
  {
    InvIsReady(s);
    b := PageBlock(0);
    if size >= Limit(s.zoneSize) && size > 0 {
      b := LargeBlock(s, size);
    } else if size > 0 {
      b := SmallBlock(s, size);
    }
  }

  lemma LargeBlock(s: State, size: nat) returns (b: Block)
    requires Inv(s) && size > 0
    ensures var (r, p) := MallocLarge(s, size);
            if p.Null? then r == s else Gives(s, r, p.address, b, size)
  {
    var n := RoundUp(size, PAGE) / PAGE;
    RoundedUp(size, PAGE);
    var (pages, x) := PagesTaken(s, n);
    b := PageBlock(if x.At? then x.page else 0);
    if x.At? {
      FreshPages(s, n);
      NotReserved(s, x.page);
      hide Inv, PagesTaken, RoundUp;
    }
  }

  lemma NotReserved(s: State, p: Page)
    requires Inv(s) && p !in s.pages.live
    ensures !Reserved(s, p)
  {
    assert Reserved(s, p) ==> p == s.table || Known(s, p);
  }

  lemma SmallBlock(s: State, size: nat) returns (b: Block)
    requires Inv(s) && Ready(s) && 0 < size < Limit(s.zoneSize)
    ensures var (r, p) := MallocSmall(s, size);
            if p.Null? then r == s else Gives(s, r, p.address, b, size)
  {
    var (zi, chunk) := ZoneIndex(size);
    ZoneHoldsItsChunks(s.zoneSize, size);
    ChunkFitsTightly(size);
    hide Inv, Ready, ZoneIndex, ChunksIn, Gives;
    if s.arrays[zi] != [] {
      TakeFromIsInv(s, zi);
      IndexOfZone(s, s.arrays[zi][0]);
      b := TakeFromGives(s, s.arrays[zi][0]);
      assert Gives(s, MallocSmall(s, size).0, MallocSmall(s, size).1.address, b, size) by {
        GivesLess(s, TakeFrom(s, s.arrays[zi][0]).0, TakeFrom(s, s.arrays[zi][0]).1.address, b, chunk, size);
      }
    } else if s.spare != [] {
      b := SpareGives(s, size);
    } else if PagesTaken(s, s.Span()).1.At? {
      b := PagesGive(s, size);
    } else {
      b := PageBlock(0);
    }
  }

  lemma IndexOfZone(s: State, z: Page)
    requires Inv(s) && z in s.zones
    ensures ZoneOk(s.zoneSize, s.zones[z]) && s.zones[z].chunk == ChunkOf(s.zones[z].index)
  {
  }

  lemma GivesLess(s: State, r: State, address: nat, b: Block, more: nat, size: nat)
    requires Gives(s, r, address, b, more) && size <= more
    ensures Gives(s, r, address, b, size)
  {
  }

  lemma SpareGives(s: State, size: nat) returns (b: Block)
    requires Inv(s) && 0 < size < Limit(s.zoneSize) && s.spare != []
    ensures var (zi, chunk) := ZoneIndex(size);
            && zi < |s.arrays| && chunk > 0 && ChunksIn(s.zoneSize, chunk) > 0
            && var (r, p) := NewZone(s.(spare := s.spare[1..]), s.spare[0], zi, chunk);
               p.Ptr? && Gives(s, r, p.address, b, size)
  {
    var (zi, chunk) := ZoneIndex(size);
    ZoneHoldsItsChunks(s.zoneSize, size);
    ChunkFitsTightly(size);
    b := Chunk(s.spare[0], 0);
    SpareIsKnown(s);
    hide Inv, InvBut, ZoneIndex, ChunkAddress, ChunkOf, ChunksIn, Known;
    var t := s.(spare := s.spare[1..]);
    assert s.spare == [s.spare[0]] + t.spare;
    assert Raw(s, t, s.spare[0]);
    hide Raw;
    NewZoneGives(s, t, s.spare[0], zi, chunk);
    hide NewZone;
    GivesLess(s, NewZone(t, s.spare[0], zi, chunk).0, ChunkAddress(s.spare[0], chunk, 0), b, chunk, size);
  }

  lemma PagesGive(s: State, size: nat) returns (b: Block)
    requires Inv(s) && 0 < size < Limit(s.zoneSize) && PagesTaken(s, s.Span()).1.At?
    ensures var (zi, chunk) := ZoneIndex(size);
            var (pages, x) := PagesTaken(s, s.Span());
            && zi < |s.arrays| && chunk > 0 && ChunksIn(s.zoneSize, chunk) > 0 && x.page + s.Span() <= |s.usage|
            && var (r, p) := NewZone(s.(pages := pages, usage := Marked(s.usage, x.page, s.Span())), x.page, zi, chunk);
               p.Ptr? && Gives(s, r, p.address, b, size)
  {
    var (zi, chunk) := ZoneIndex(size);
    ZoneHoldsItsChunks(s.zoneSize, size);
    ChunkFitsTightly(size);
    var (pages, x) := PagesTaken(s, s.Span());
    b := Chunk(x.page, 0);
    PagesAreRaw(s);
    var t := s.(pages := pages, usage := Marked(s.usage, x.page, s.Span()));
    hide Inv, Raw, NewZone, ZoneIndex, ChunkAddress, ChunkOf, ChunksIn, PagesTaken, Gives;
    NewZoneGives(s, t, x.page, zi, chunk);
    GivesLess(s, NewZone(t, x.page, zi, chunk).0, ChunkAddress(x.page, chunk, 0), b, chunk, size);
  }

  lemma PagesAreRaw(s: State)
    requires Inv(s) && PagesTaken(s, s.Span()).1.At?
    ensures |s.arrays| == NZONES
    ensures var (pages, x) := PagesTaken(s, s.Span());
            && x.page + s.Span() <= |s.usage|
            && Raw(s, s.(pages := pages, usage := Marked(s.usage, x.page, s.Span())), x.page)
  {
    FreshPages(s, s.Span());
    ZoneFromPages(s);
    NotReserved(s, PagesTaken(s, s.Span()).1.page);
    hide Inv, InvBut, ChunkAddress, PagesTaken, Known;
  }

  lemma TakeFromGives(s: State, z: Page) returns (b: Block)
    requires z in s.zones && s.zones[z].index < |s.arrays| && s.arrays[s.zones[z].index] != []
    requires ZoneOk(s.zoneSize, s.zones[z]) && s.zones[z].nfree > 0
    ensures s.zones[z].uindex + 1 == s.zones[z].nmax ==> s.zones[z].free != []
    ensures var (r, p) := TakeFrom(s, z); p.Ptr? && Gives(s, r, p.address, b, s.zones[z].chunk)
  {
    TakeChunkIsOk(s.zoneSize, s.zones[z]);
    assert s.zones[z].chunk > 0;
    b := Chunk(z, TakeChunk(s.zones[z]).1);
    hide ZoneOk, TakeChunk, ChunkAddress;
  }

  /** Pages have been set aside for a zone, and nothing else has changed for live blocks. */
  ghost predicate Raw(s: State, t: State, z: Page) {
    && z !in s.zones && z !in t.zones
    && (forall x: Block :: IsLive(t, x) && x != PageBlock(z) <==> IsLive(s, x))
    && forall x: Block :: IsLive(s, x) ==> Address(t, x) == Address(s, x) && Length(t, x) == Length(s, x)
  }

  lemma NewZoneGives(s: State, t: State, z: Page, zi: nat, chunk: nat)
    requires zi < |t.arrays| && chunk > 0 && ChunksIn(t.zoneSize, chunk) > 0 && Raw(s, t, z)
    ensures var (r, p) := NewZone(t, z, zi, chunk);
            p == Ptr(ChunkAddress(z, chunk, 0)) && Gives(s, r, p.address, Chunk(z, 0), chunk)
  {
    hide ChunkAddress, ChunksIn;
  }

  /** Requests that are powers of two from 8 to 4096 are aligned to their own size. */
  lemma PowerRequestsAreAligned(s: State, size: nat)
    requires Inv(s) && 8 <= size <= 4096 && size < Limit(s.zoneSize) && IsPowerOfTwo(size)
    ensures Ready(s) && (Malloc(s, size).1.Ptr? ==> Malloc(s, size).1.address % size == 0)
  {
    InvIsReady(s);
    hide *;
    if Malloc(s, size).1.Ptr? {
      var z, c := MallocsChunk(s, size);
      PowerChunkIsAligned(z, size, c);
    }
  }

  lemma PowerChunkIsAligned(z: Page, n: nat, c: nat)
    requires 8 <= n <= 4096 && IsPowerOfTwo(n)
    ensures ZoneIndex(n).1 == n && ChunkAddress(z, n, c) % n == 0
  {
    PowersAreAligned(z, n, c);
    hide ZoneIndex, Offset, IsPowerOfTwo;
  }

  /** A small request is served by some chunk of some zone. */
  lemma MallocsChunk(s: State, size: nat) returns (z: Page, c: nat)
    requires Inv(s) && Ready(s) && 0 < size < Limit(s.zoneSize) && Malloc(s, size).1.Ptr?
    ensures ZoneIndex(size).1 > 0 && Malloc(s, size).1.address == ChunkAddress(z, ZoneIndex(size).1, c)
  {
    var (zi, chunk) := ZoneIndex(size);
    ChunkFitsTightly(size);
    ZoneHoldsItsChunks(s.zoneSize, size);
    if s.arrays[zi] != [] {
      z := s.arrays[zi][0];
      TakeFromIsInv(s, zi);
      IndexOfZone(s, z);
      TakeChunkIsOk(s.zoneSize, s.zones[z]);
      c := TakeChunk(s.zones[z]).1;
      hide Inv, ZoneOk, ZoneIndex, ChunkOf, ChunksIn, TakeChunk, ChunkAddress;
    } else {
      hide Inv, ZoneIndex, ChunkOf, ChunksIn, ChunkAddress, PagesTaken;
      z := if s.spare != [] then s.spare[0] else PagesTaken(s, s.Span()).1.page;
      c := 0;
    }
  }

  // ---------- Runs ----------

  datatype Call = Allocate(size: nat) | Release(b: Block)

  ghost predicate Enabled(s: State, c: Call) {
    c.Release? ==> IsLive(s, c.b)
  }

  ghost function Apply(s: State, c: Call): (r: State)
    requires Inv(s) && Enabled(s, c)
    ensures Inv(r)
  {
    match c
    case Allocate(size) => MallocKeepsInv(s, size); Malloc(s, size).0
    case Release(b) => FreeTakesOneBlock(s, b); Free(s, Address(s, b))
  }

  ghost predicate Leads(s: State, calls: seq<Call>, r: State)
    requires Inv(s)
    decreases |calls|
  {
    if calls == [] then r == s else Enabled(s, calls[0]) && Leads(Apply(s, calls[0]), calls[1..], r)
  }

  /** rt_system_heap_init: the whole heap is one free run, of which the memusage array takes the first pages. */
  function Init(zoneSize: nat, total: nat): State {
    var pages := Pages.Apply(Pages.Init(total), Pages.Allocate(RoundUp(4 * total, PAGE) / PAGE));
    State(zoneSize, pages, 0, seq(total, _ => Unused), map[], seq(NZONES, _ => []), [])
  }

  lemma InitIsInv(zoneSize: nat, total: nat)
    requires IsZoneSize(zoneSize) && total > 0
    ensures Inv(Init(zoneSize, total))
  {
    var n := RoundUp(4 * total, PAGE) / PAGE;
    RoundedUp(4 * total, PAGE);
    assert 0 < n <= total;
    Pages.InitIsInv(total);
    Pages.CallKeepsInv(Pages.Init(total), Pages.Allocate(n));
    var s := Init(zoneSize, total);
    assert s.pages.live == map[0 := n];
    hide Pages.Inv, RoundUp;
    forall i: nat, z: Page | i < NZONES ensures !InList(s.arrays, i, z) {
    }
  }

  /** In every reachable state the free counts are right, the zone lists hold exactly the zones with free
      chunks, and no two live blocks share a byte. */
  lemma {:induction false} SlabIsSafe(s: State, calls: seq<Call>, r: State)
    requires Inv(s) && Leads(s, calls, r)
    ensures Inv(r)
    ensures forall a: Block, b: Block, x: nat :: IsLive(r, a) && IsLive(r, b) && ByteOf(r, a, x) && ByteOf(r, b, x) ==> a == b
    decreases |calls|
  {
    hide Inv, Enabled, IsLive;
    if calls == [] {
      forall a: Block, b: Block, x: nat | IsLive(r, a) && IsLive(r, b) && ByteOf(r, a, x) && ByteOf(r, b, x) ensures a == b {
        LiveBlocksAreDisjoint(r, a, b, x);
      }
    } else {
      SlabIsSafe(Apply(s, calls[0]), calls[1..], r);
    }
  }
}
