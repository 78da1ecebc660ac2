/** rt_malloc and rt_free of os/rt-thread-nano/src/slab.c on their global variables, over the page list
    of class PageHeap. */
module SlabObject {
  import opened Lists
  import Pages
  import opened PageHeapObject
  import opened Zones
  import opened Slab
  import opened SlabProofs

  class SlabHeap {
    const zoneSize: nat
    const heap: PageHeap
    const memusage: array<Usage>
    const table: Page
    const zoneArray: array<seq<Page>>
    var zones: map<Page, Zone>     // the headers in the zones
    var zoneFree: seq<Page>
    var zoneFreeCnt: nat

    ghost var live: map<Page, nat>

    ghost predicate Valid()
      reads this, heap, heap.next, heap.page, memusage, zoneArray
    {
      && heap.Valid() && heap.next.Length == memusage.Length && zoneFreeCnt == |zoneFree|
      && zoneArray.Length == NZONES && IsZoneSize(zoneSize)
    }

    ghost function Abs(): State
      reads this, heap, memusage, zoneArray
    {
      State(zoneSize, Pages.State(memusage.Length, heap.runs, live), table, memusage[..], zones, zoneArray[..], zoneFree)
    }

    /** rt_system_heap_init, on a heap of whole pages. */
    constructor (npages: nat)
      requires npages > 0
      ensures Valid() && Inv(Abs()) && Abs() == Init(zoneSize, npages)
      ensures fresh(heap) && fresh(heap.next) && fresh(heap.page) && fresh(memusage) && fresh(zoneArray)
    {
      heap := new PageHeap(npages);
      var size := ZoneSize(npages * PAGE);
      zoneSize := size;
      memusage := new Usage[npages](_ => Unused);
      zoneArray := new seq<Page>[NZONES](_ => []);
      table, zones, zoneFree, zoneFreeCnt, live := 0, map[], [], 0, map[];
      new;
      InitIsInv(zoneSize, npages);
      RoundedUp(4 * npages, PAGE);
      ghost var n := RoundUp(4 * npages, PAGE) / PAGE;
      var page := heap.Alloc(RoundUp(4 * npages, PAGE) / PAGE);
      assert Pages.Free([], 0, npages) == [Pages.Run(0, npages)];
      live := live[0 := n];
    }

    /** rt_page_alloc, and what it means for the live allocations. */
    method PageAlloc(n: nat) returns (page: int)
      requires Valid() && Inv(Abs()) && n > 0
      modifies heap, heap.next, heap.page, `live
      ensures Valid()
      ensures var (pages, x) := PagesTaken(old(Abs()), n);
              page == (if x.At? then x.page else -1) && Abs() == old(Abs()).(pages := pages)
    {
      if Pages.Alloc(heap.runs, n).1.Failed? {
        Pages.FailureKeepsRuns(heap.runs, n);
      }
      page := heap.Alloc(n);
      if page >= 0 {
        live := live[page := n];
      }
    }

    method MallocLarge(size: nat) returns (p: Pointer)
      requires Valid() && Inv(Abs()) && size > 0
      modifies this, heap, heap.next, heap.page, memusage
      ensures Valid() && (Abs(), p) == Slab.MallocLarge(old(Abs()), size)
    {
      RoundedUp(size, PAGE);
      hide Inv, RoundUp, PagesTaken;
      var n := RoundUp(size, PAGE) / PAGE;
      ghost var s := Abs();
      assert PagesTaken(s, n).1.At? ==> PagesTaken(s, n).1.page < |s.usage| by {
        if PagesTaken(s, n).1.At? {
          LargeIsInv(s, n);
        }
      }
      var page := PageAlloc(n);
      if page < 0 {
        return Null;
      }
      memusage[page] := Large(n);
      p := Ptr(page * PAGE);
    }

    /** A chunk from the first zone of a list; a zone that becomes empty leaves its list. */
    method TakeFrom(z: Page) returns (p: Pointer)
      requires Valid() && Inv(Abs()) && z in zones && zones[z].index < NZONES && zones[z].chunk > 0
      requires zoneArray[zones[z].index] != [] && zones[z].nfree > 0
      requires zones[z].uindex + 1 == zones[z].nmax ==> zones[z].free != []
      modifies this, zoneArray
      ensures Valid() && (Abs(), p) == Slab.TakeFrom(old(Abs()), z)
    {
      hide Inv, ChunkAddress;
      var q := zones[z];
      var zi := q.index;
      q := q.(nfree := q.nfree - 1);
      if q.nfree == 0 {
        zoneArray[zi] := zoneArray[zi][1..];
      }
      var c;
      if q.uindex + 1 != q.nmax {
        q := q.(uindex := q.uindex + 1);
        c := q.uindex;
      } else {
        c := q.free[0];
        q := q.(free := q.free[1..]);
      }
      zones := zones[z := q];
      p := Ptr(ChunkAddress(z, q.chunk, c));
    }

    /** Write the header of a new zone and link the zone. */
    method NewZone(z: Page, zi: nat, chunk: nat) returns (p: Pointer)
      requires Valid() && zi < NZONES && chunk > 0 && ChunksIn(zoneSize, chunk) > 0
      modifies this, zoneArray
      ensures Valid() && (Abs(), p) == Slab.NewZone(old(Abs()), z, zi, chunk)
    {
      hide ChunkAddress, ChunksIn;
      var nmax := ChunksIn(zoneSize, chunk);
      zones := zones[z := Zone(zi, chunk, nmax, nmax - 1, 0, [])];
      zoneArray[zi] := [z] + zoneArray[zi];
      p := Ptr(ChunkAddress(z, chunk, 0));
    }

    /** Mark the pages of a zone in memusage. */
    method Mark(z: Page, span: nat)
      requires z + span <= memusage.Length
      modifies memusage
      ensures memusage[..] == Marked(old(memusage[..]), z, span)
    {
      for off := 0 to span
        invariant forall p :: 0 <= p < memusage.Length ==>
                    memusage[p] == if z <= p < z + off then Small(p - z) else old(memusage[p])
      {
        memusage[z + off] := Small(off);
      }
    }

    method Unmark(z: Page, span: nat)
      requires z + span <= memusage.Length
      modifies memusage
      ensures memusage[..] == Unmarked(old(memusage[..]), z, span)
    {
      for i := 0 to span
        invariant forall p :: 0 <= p < memusage.Length ==>
                    memusage[p] == if z <= p < z + i then Unused else old(memusage[p])
      {
        memusage[z + i] := Unused;
      }
    }

    method MallocSmall(size: nat) returns (p: Pointer)
      requires Valid() && Inv(Abs()) && Ready(Abs()) && 0 < size < Limit(zoneSize)
      modifies this, heap, heap.next, heap.page, memusage, zoneArray
      ensures Valid() && (Abs(), p) == Slab.MallocSmall(old(Abs()), size)
    {
      var (zi, chunk) := ZoneIndex(size);
      ghost var s := Abs();
      ZoneHoldsItsChunks(zoneSize, size);
      ChunkFitsTightly(size);
      if zoneArray[zi] != [] {
        TakeFromIsInv(s, zi);
        hide Inv, ZoneIndex, Slab.TakeFrom;
        p := TakeFrom(zoneArray[zi][0]);
      } else if zoneFree != [] {
        hide Inv, ZoneIndex, Slab.NewZone;
        var z := zoneFree[0];
        zoneFree := zoneFree[1..];
        zoneFreeCnt := zoneFreeCnt - 1;
        p := NewZone(z, zi, chunk);
      } else {
        p := ZoneFromHeap(zi, chunk);
      }
    }

    method ZoneFromHeap(zi: nat, chunk: nat) returns (p: Pointer)
      requires Valid() && Inv(Abs()) && zi < NZONES && chunk > 0 && ChunksIn(zoneSize, chunk) > 0
      modifies this, heap, heap.next, heap.page, memusage, zoneArray
      ensures Valid()
      ensures var s := old(Abs());
              var (pages, x) := PagesTaken(s, s.Span());
              (Abs(), p) == if x.Failed? || x.page + s.Span() > |s.usage| then (s, Null)
                            else Slab.NewZone(s.(pages := pages, usage := Marked(s.usage, x.page, s.Span())), x.page, zi, chunk)
    {
      ghost var s := Abs();
      var span := zoneSize / PAGE;
      assert span > 0;
      if PagesTaken(s, span).1.At? {
        ZoneFromPages(s);
      } else {
        Pages.FailureKeepsRuns(heap.runs, span);
      }
      hide Inv, Slab.NewZone, Pages.Alloc, ChunksIn, PagesTaken;
      var z := PageAlloc(span);
      if z < 0 {
        FailureKeepsPages(s, span);
        return Null;
      }
      Mark(z, span);
      p := NewZone(z, zi, chunk);
    }

    /** rt_malloc. */
    method Malloc(size: nat) returns (p: Pointer)
      requires Valid() && Inv(Abs())
      modifies this, heap, heap.next, heap.page, memusage, zoneArray
      ensures Valid() && Ready(old(Abs())) && (Abs(), p) == Slab.Malloc(old(Abs()), size)
      ensures Inv(Abs())
    {
      InvIsReady(Abs());
      MallocKeepsInv(Abs(), size);
      hide Inv, Ready, Slab.MallocLarge, Slab.MallocSmall;
      if size == 0 {
        return Null;
      }
      if size >= Limit(zoneSize) {
        p := MallocLarge(size);
      } else {
        p := MallocSmall(size);
      }
    }

    /** rt_page_free, and what it means for the live allocations. */
    method PageRelease(p: Page, n: nat)
      requires Valid() && Pages.Inv(Abs().pages) && p in live && live[p] == n
      modifies heap, heap.next, heap.page, `live
      ensures Valid() && Abs() == old(Abs()).(pages := Pages.Apply(old(Abs().pages), Pages.Release(p)))
    {
      PagesOfAllocation(Abs().pages, p);
      heap.Free(p, n);
      live := live - {p};
    }

    /** The search through *pz that takes a zone off its list. */
    method ListRemove(list: seq<Page>, z: Page) returns (r: seq<Page>)
      requires Distinct(list) && z in list
      ensures r == Without(list, z)
    {
      var pz := 0;
      while list[pz] != z
        invariant pz < |list| && z in list[pz..]
        decreases |list| - pz
      {
        pz := pz + 1;
      }
      WithoutAt(list, pz);
      r := list[..pz] + list[pz + 1..];
    }

    method Retire(z: Page, zi: nat)
      requires Valid() && Inv(Abs()) && z in zones && zi == zones[z].index && zi < NZONES && z in zoneArray[zi]
      modifies this, heap, heap.next, heap.page, memusage, zoneArray
      ensures Valid() && z in old(live) && Abs() == Retired(old(Abs()), z, zi)
    {
      ghost var s := Abs();
      IndexOfZone(s, z);
      assert Known(s, z);
      KnownPages(s, z);
      assert Distinct(s.arrays[zi]) && Pages.Inv(s.pages);
      hide Inv, Pages.Apply, Known, Unmarked, Pages.Inv, ZoneOk;
      var list := ListRemove(zoneArray[zi], z);
      zoneArray[zi] := list;
      zones := zones - {z};
      zoneFree := [z] + zoneFree;
      zoneFreeCnt := zoneFreeCnt + 1;
      if zoneFreeCnt > RELEASE_THRESH {
        var last := zoneFree[0];
        zoneFree := zoneFree[1..];
        zoneFreeCnt := zoneFreeCnt - 1;
        Unmark(last, zoneSize / PAGE);
        PageRelease(last, zoneSize / PAGE);
      }
    }

    /** The chunk joins the free list of its zone, and a zone that was full its zone list. */
    method ReturnChunk(z: Page, c: nat)
      requires Valid() && z in zones && zones[z].index < NZONES
      modifies `zones, zoneArray
      ensures Valid() && Abs() == Returned(old(Abs()), z, c)
    {
      var q := zones[z];
      q := q.(free := [c] + q.free);
      if q.nfree == 0 {
        zoneArray[q.index] := [z] + zoneArray[q.index];
      }
      q := q.(nfree := q.nfree + 1);
      zones := zones[z := q];
    }

    method FreeChunk(z: Page, c: nat)
      requires Valid() && Inv(Abs()) && IsLive(Abs(), Chunk(z, c))
      modifies this, heap, heap.next, heap.page, memusage, zoneArray
      ensures Valid() && old(zones[z].index) < NZONES && z in old(live)
      ensures Abs() == Slab.FreeChunk(old(Abs()), z, c)
    {
      ReturnedIsInv(Abs(), z, c);
      hide Inv, Retired, IsLive;
      ReturnChunk(z, c);
      if zones[z].nfree == zones[z].nmax && |zoneArray[zones[z].index]| > 1 {
        Retire(z, zones[z].index);
      }
    }

    /** rt_free of a block in use. */
    method Free(address: nat, ghost b: Block)
      requires Valid() && Inv(Abs()) && IsLive(Abs(), b) && address == Address(Abs(), b)
      modifies this, heap, heap.next, heap.page, memusage, zoneArray
      ensures Valid() && Inv(Abs()) && Freeable(old(Abs()), address) && Abs() == Slab.Free(old(Abs()), address)
    {
      FreeKeepsInv(Abs(), b);
      FreeByKind(Abs(), b);
      hide Inv, Slab.FreeChunk, Slab.FreeLarge, Slab.Free, Freeable, Address;
      FreeBlock(address, b);
    }

    /** The block is found from its address. */
    method FreeBlock(address: nat, ghost b: Block)
      requires Valid() && Inv(Abs()) && IsLive(Abs(), b) && address == Address(Abs(), b)
      modifies this, heap, heap.next, heap.page, memusage, zoneArray
      ensures Valid()
      ensures b.Chunk? ==> old(zones[b.z].index) < NZONES && b.z in old(live) && Abs() == Slab.FreeChunk(old(Abs()), b.z, b.c)
      ensures b.PageBlock? ==> b.p < memusage.Length && b.p in old(live) && Abs() == FreeLarge(old(Abs()), b.p)
    {
      FoundByPage(Abs(), b);
      hide Inv, Slab.FreeChunk, Slab.FreeLarge, Address, ChunkAddress, ChunkNumber;
      var p := address / PAGE;
      match memusage[p] {
        case Large(n) => FreePages(p, n);
        case Small(off) =>
          var z := p - off;
          FreeChunk(z, ChunkNumber(ChunkAddress(z, zones[z].chunk, 0), zones[z].chunk, address));
      }
    }

    method FreePages(p: Page, n: nat)
      requires Valid() && Inv(Abs()) && p < memusage.Length && p in live && live[p] == n
      modifies heap, heap.next, heap.page, memusage, `live
      ensures Valid() && Abs() == FreeLarge(old(Abs()), p)
    {
      assert Pages.Inv(Abs().pages);
      hide Inv, Pages.Apply, Pages.Inv;
      memusage[p] := Large(0);
      PageRelease(p, n);
    }
  }

  lemma KnownPages(s: State, z: Page)
    requires Known(s, z) && Inv(s)
    ensures z in s.pages.live && s.pages.live[z] == s.Span() && z + s.Span() <= |s.usage|
  {
    assert s.Span() > 0;
    assert IsMarked(s.usage, z, s.Span() - 1);
  }

  lemma PagesOfAllocation(s: Pages.State, p: Page)
    requires Pages.Inv(s) && p in s.live
    ensures s.live[p] > 0 && p + s.live[p] <= s.total && Pages.NoneFree(s.runs, p, s.live[p])
  {
    assert Pages.Owns(s.live, p, p + s.live[p] - 1);
    forall q: Page | Pages.Within(p, s.live[p], q) ensures !Pages.IsFree(s.runs, q) {
      assert Pages.Owns(s.live, p, q);
    }
  }

  lemma FreeKeepsInv(s: State, b: Block)
    requires Inv(s) && IsLive(s, b)
    ensures Freeable(s, Address(s, b)) && Inv(Free(s, Address(s, b)))
  {
    FreeTakesOneBlock(s, b);
  }

  lemma FreeByKind(s: State, b: Block)
    requires Inv(s) && IsLive(s, b)
    ensures Freeable(s, Address(s, b))
    ensures b.Chunk? ==> Free(s, Address(s, b)) == FreeChunk(s, b.z, b.c)
    ensures b.PageBlock? ==> b.p in s.pages.live && Free(s, Address(s, b)) == FreeLarge(s, b.p)
  {
    AddressFindsBlock(s, b);
  }

  lemma FoundByPage(s: State, b: Block)
    requires Inv(s) && IsLive(s, b)
    ensures Address(s, b) / PAGE < |s.usage|
    ensures b.Chunk? ==>
              && s.zones[b.z].chunk > 0 && b.z <= Address(s, b) / PAGE
              && s.usage[Address(s, b) / PAGE] == Small(Address(s, b) / PAGE - b.z)
              && ChunkAddress(b.z, s.zones[b.z].chunk, 0) <= Address(s, b)
              && ChunkNumber(ChunkAddress(b.z, s.zones[b.z].chunk, 0), s.zones[b.z].chunk, Address(s, b)) == b.c
    ensures b.PageBlock? ==> b.p == Address(s, b) / PAGE && s.usage[b.p] == Large(s.pages.live[b.p])
  {
    match b
    case Chunk(z, c) => ChunkIsFound(s, z, c);
    case PageBlock(a) => PageIsFound(s, a);
  }

  lemma FailureKeepsPages(s: State, n: nat)
    ensures PagesTaken(s, n).1.Failed? ==> PagesTaken(s, n).0 == s.pages
  {
  }
}
