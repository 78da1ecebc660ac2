/** The memory pools of os/rt-thread-nano/src/memheap.c: a circular list of blocks in address order, a
    list of the free ones in the order in which they were freed, and running statistics. Addresses are
    byte offsets in the pool, and a block is named by the address of its header. */
module MemHeap {
  import opened Lists

  const HEADER: nat := 24      // RT_MEMHEAP_SIZE
  const MINIALLOC: nat := 12   // RT_MEMHEAP_MINIALLOC
  const WRAP: nat := 0x1_0000_0000

  datatype Block = Block(at: nat, used: bool)

  type Layout = seq<Block>

  /** `blocks` are in address order, and the last one is the used tailer of length 0; `free` is the free
      list from its first node. */
  datatype State = State(blocks: Layout, free: seq<nat>, pool: nat, available: int, maxUsed: int)

  function Payload(bs: Layout, i: nat): int
    requires i + 1 < |bs|
  {
    bs[i + 1].at - bs[i].at - HEADER
  }

  /** The size a request is rounded to; RT_ALIGN works on 32 bits. */
  function Request(bytes: nat): nat {
    var size := (bytes + 3) % WRAP / 4 * 4;
    if size < MINIALLOC then MINIALLOC else size
  }

  function Greater(a: int, b: int): int { if a < b then b else a }

  // ---------- The three changes the operations are made of ----------

  function Flagged(bs: Layout, k: nat, used: bool): Layout
    requires k < |bs|
  {
    bs[k := Block(bs[k].at, used)]
  }

  /** A free block is cut off the end of block k. */
  function Cut(bs: Layout, k: nat, size: nat): Layout
    requires k < |bs|
  {
    InsertAt(bs, k + 1, Block(bs[k].at + HEADER + size, false))
  }

  /** Block k becomes part of the block before it. */
  function Joined(bs: Layout, k: nat): Layout
    requires k < |bs|
  {
    bs[..k] + bs[k + 1..]
  }

  // ---------- The operations ----------

  /** The block with the given address. */
  function IndexOf(bs: Layout, a: nat): (k: nat)
    ensures k <= |bs| && (k < |bs| ==> bs[k].at == a) && forall i :: 0 <= i < k ==> bs[i].at != a
  {
    if bs == [] || bs[0].at == a then 0 else 1 + IndexOf(bs[1..], a)
  }

  function SizeAt(bs: Layout, a: nat): int {
    var k := IndexOf(bs, a);
    if k + 1 < |bs| then Payload(bs, k) else 0
  }

  /** The first node of the free list that is large enough. */
  function FirstFit(bs: Layout, free: seq<nat>, size: nat): (f: nat)
    ensures f <= |free| && (f < |free| ==> SizeAt(bs, free[f]) >= size)
    ensures forall i :: 0 <= i < f ==> SizeAt(bs, free[i]) < size
  {
    if free == [] || SizeAt(bs, free[0]) >= size then 0 else 1 + FirstFit(bs, free[1..], size)
  }

  function TakeBlock(s: State, k: nat, size: nat): State
    requires k + 1 < |s.blocks|
  {
    var bs, a, rest := s.blocks, s.blocks[k].at, Without(s.free, s.blocks[k].at);
    var available := if Payload(bs, k) >= size + HEADER + MINIALLOC then s.available - size - HEADER
                     else s.available - Payload(bs, k);
    var maxUsed := Greater(s.maxUsed, s.pool - available);
    if Payload(bs, k) >= size + HEADER + MINIALLOC
    then State(Cut(Flagged(bs, k, true), k, size), [a + HEADER + size] + rest, s.pool, available, maxUsed)
    else State(Flagged(bs, k, true), rest, s.pool, available, maxUsed)
  }

  datatype Pointer = Null | Ptr(header: nat)

  /** rt_memheap_alloc of an aligned size. */
  function Alloc(s: State, size: nat): (State, Pointer) {
    if size >= s.available then (s, Null)
    else
      var f := FirstFit(s.blocks, s.free, size);
      if f == |s.free| then (s, Null)
      else
        var k := IndexOf(s.blocks, s.free[f]);
        if k + 1 < |s.blocks| then (TakeBlock(s, k, size), Ptr(s.free[f])) else (s, Null)
  }

  /** The first half of rt_memheap_free: the block joins a free block before it, or becomes free itself. */
  function JoinLeft(s: State, k: nat): (State, nat)
    requires k + 1 < |s.blocks|
  {
    var bs := s.blocks;
    var freed := Flagged(bs, k, false);
    if k > 0 && !bs[k - 1].used
    then (s.(blocks := Joined(freed, k), available := s.available + Payload(bs, k) + HEADER), k - 1)
    else (s.(blocks := freed, available := s.available + Payload(bs, k), free := [bs[k].at] + s.free), k)
  }

  /** The second half: it swallows a free block behind it. */
  function JoinRight(s: State, k: nat): State
    requires k + 1 < |s.blocks|
  {
    if !s.blocks[k + 1].used
    then s.(blocks := Joined(s.blocks, k + 1), available := s.available + HEADER, free := Without(s.free, s.blocks[k + 1].at))
    else s
  }

  function FreeBlock(s: State, k: nat): State
    requires k + 1 < |s.blocks|
  {
    var (t, j) := JoinLeft(s, k);
    if j + 1 < |t.blocks| then JoinRight(t, j) else t
  }

  /** Growing in place: the free block behind gives up its front. */
  predicate CanExpand(s: State, k: nat, size: nat) {
    && k + 2 < |s.blocks| && !s.blocks[k + 1].used && size > Payload(s.blocks, k)
    && Payload(s.blocks, k + 1) + Payload(s.blocks, k) > size + MINIALLOC
  }

  function ExpandBlock(s: State, k: nat, size: nat): State
    requires CanExpand(s, k, size)
  {
    var bs, a := s.blocks, s.blocks[k].at;
    var available := s.available - (size - Payload(bs, k));
    State(Cut(Joined(bs, k + 1), k, size), [a + HEADER + size] + Without(s.free, bs[k + 1].at),
          s.pool, available, Greater(s.maxUsed, s.pool - available))
  }

  /** The guard of that branch, and what the branch writes, in the 32-bit arithmetic of the source. */
  predicate GrowsInPlace(s: State, k: nat, size: nat) {
    && k + 2 < |s.blocks| && !s.blocks[k + 1].used && size > Payload(s.blocks, k)
    && Payload(s.blocks, k + 1) + Payload(s.blocks, k) > (size + MINIALLOC) % WRAP
  }

  function GrowBlock(s: State, k: nat, size: nat): State
    requires k + 2 < |s.blocks|
  {
    var bs, a, x := s.blocks, s.blocks[k].at, (s.blocks[k].at + HEADER + size) % WRAP;
    var available := (s.available - (size - Payload(bs, k))) % WRAP;
    State(InsertAt(Joined(bs, k + 1), k + 1, Block(x, false)), [x] + Without(s.free, bs[k + 1].at),
          s.pool, available, Greater(s.maxUsed, (s.pool - available) % WRAP))
  }

  /** Shrinking in place: the end becomes a free block, and swallows a free one behind it. */
  predicate CanShrink(s: State, k: nat, size: nat) {
    k + 1 < |s.blocks| && size + HEADER + MINIALLOC < Payload(s.blocks, k)
  }

  function ShrinkBlock(s: State, k: nat, size: nat): State
    requires CanShrink(s, k, size)
  {
    var bs, x := s.blocks, s.blocks[k].at + HEADER + size;
    if !bs[k + 1].used && k + 2 < |bs|
    then
      var cut := Cut(Joined(bs, k + 1), k, size);
      s.(blocks := cut, free := [x] + Without(s.free, bs[k + 1].at),
         available := s.available - Payload(bs, k + 1) + (bs[k + 2].at - x - HEADER))
    else
      s.(blocks := Cut(bs, k, size), free := [x] + s.free, available := s.available + (bs[k + 1].at - x - HEADER))
  }

  // ---------- The invariant ----------

  ghost predicate Tiles(bs: Layout, pool: nat) {
    && |bs| >= 2 && bs[0].at == 0 && pool >= HEADER && bs[|bs| - 1] == Block(pool - HEADER, true)
    && forall i :: 0 <= i < |bs| - 1 ==> bs[i].at + HEADER + MINIALLOC <= bs[i + 1].at
  }

  ghost predicate Coalesced(bs: Layout) {
    forall i :: 0 <= i < |bs| - 1 ==> bs[i].used || bs[i + 1].used
  }

  /** The total payload of the free blocks. */
  ghost function FreeSum(bs: Layout): int {
    if |bs| < 2 then 0
    else (if bs[0].used then 0 else bs[1].at - bs[0].at - HEADER) + FreeSum(bs[1..])
  }

  predicate Has(bs: Layout, a: nat, used: bool) {
    exists i :: 0 <= i < |bs| && bs[i] == Block(a, used)
  }

  ghost predicate Inv(s: State) {
    && Tiles(s.blocks, s.pool) && Coalesced(s.blocks)
    && Distinct(s.free) && (forall a: nat :: a in s.free <==> Has(s.blocks, a, false))
    && s.available == FreeSum(s.blocks)
    && s.maxUsed >= s.pool - s.available && s.pool < WRAP
  }

  /** A block in use: n bytes of payload behind the header at a. */
  ghost predicate IsLive(bs: Layout, a: nat, n: nat) {
    exists i: nat :: i + 1 < |bs| && LiveBlock(bs, i, a, n)
  }

  predicate LiveBlock(bs: Layout, i: nat, a: nat, n: nat)
    requires i + 1 < |bs|
  {
    bs[i] == Block(a, true) && bs[i + 1].at == a + HEADER + n
  }

  // ---------- Layouts ----------

  lemma {:induction false} Increasing(bs: Layout, pool: nat, i: nat, j: nat)
    requires Tiles(bs, pool) && i < j < |bs|
    ensures bs[i].at + HEADER + MINIALLOC <= bs[j].at
  {
    if i + 1 < j {
      Increasing(bs, pool, i, j - 1);
    }
  }

  lemma IndexIs(bs: Layout, pool: nat, k: nat)
    requires Tiles(bs, pool) && k < |bs|
    ensures IndexOf(bs, bs[k].at) == k
  {
    var i := IndexOf(bs, bs[k].at);
    if i < k {
      Increasing(bs, pool, i, k);
    }
  }

  lemma {:induction false} FreeSumAt(bs: Layout, k: nat)
    requires k < |bs|
    ensures FreeSum(bs) == FreeSum(bs[..k + 1]) + FreeSum(bs[k..])
  {
    if k > 0 {
      FreeSumAt(bs[1..], k - 1);
      assert bs[..k + 1][1..] == bs[1..][..k] && bs[1..][k - 1..] == bs[k..];
    } else {
      assert bs[0..] == bs;
    }
  }

  lemma {:induction false} FreeSumIgnoresLast(bs: Layout, b: Block)
    requires |bs| > 0 && b.at == bs[|bs| - 1].at
    ensures FreeSum(bs[|bs| - 1 := b]) == FreeSum(bs)
  {
    if |bs| > 1 {
      FreeSumIgnoresLast(bs[1..], b);
      assert bs[|bs| - 1 := b][1..] == bs[1..][|bs| - 2 := b];
    }
  }

  // ---------- What the three changes do ----------

  lemma FlaggedTiles(bs: Layout, pool: nat, k: nat, used: bool)
    requires Tiles(bs, pool) && k + 1 < |bs|
    ensures Tiles(Flagged(bs, k, used), pool)
    ensures FreeSum(Flagged(bs, k, used)) == FreeSum(bs)
              + (if used then 0 else Payload(bs, k)) - (if bs[k].used then 0 else Payload(bs, k))
  {
    var r := Flagged(bs, k, used);
    FreeSumAt(bs, k);
    FreeSumAt(r, k);
    FreeSumIgnoresLast(bs[..k + 1], r[k]);
    assert r[..k + 1] == bs[..k + 1][k := r[k]];
    assert r[k..][1..] == bs[k..][1..];
  }

  lemma CutTiles(bs: Layout, pool: nat, k: nat, size: nat)
    requires Tiles(bs, pool) && k + 1 < |bs| && bs[k].used
    requires size >= MINIALLOC && size + HEADER + MINIALLOC <= Payload(bs, k)
    ensures Tiles(Cut(bs, k, size), pool)
    ensures FreeSum(Cut(bs, k, size)) == FreeSum(bs) + Payload(bs, k) - size - HEADER
  {
    var r := Cut(bs, k, size);
    FreeSumAt(bs, k);
    FreeSumAt(r, k);
    assert r[..k + 1] == bs[..k + 1];
    assert r[k..][1..][1..] == bs[k..][1..];
  }

  lemma JoinedTiles(bs: Layout, pool: nat, k: nat)
    requires Tiles(bs, pool) && 0 < k < |bs| - 1 && !bs[k].used
    ensures Tiles(Joined(bs, k), pool)
    ensures FreeSum(Joined(bs, k)) == FreeSum(bs) + if bs[k - 1].used then -Payload(bs, k) else HEADER
  {
    var r := Joined(bs, k);
    Increasing(bs, pool, k - 1, k + 1);
    FreeSumAt(bs, k - 1);
    FreeSumAt(r, k - 1);
    assert r[..k] == bs[..k];
    assert bs[k - 1..][1..][1..] == r[k - 1..][1..];
  }

  lemma HasAfterFlagged(bs: Layout, pool: nat, k: nat, used: bool, a: nat)
    requires Tiles(bs, pool) && k < |bs|
    ensures Has(Flagged(bs, k, used), a, false) <==> if a == bs[k].at then !used else Has(bs, a, false)
  {
    var r := Flagged(bs, k, used);
    if i :| 0 <= i < |r| && r[i] == Block(a, false) {
      if i < k { Increasing(bs, pool, i, k); } else if i > k { Increasing(bs, pool, k, i); }
      assert i != k ==> bs[i] == Block(a, false);
    }
    if i :| 0 <= i < |bs| && bs[i] == Block(a, false) {
      assert i != k ==> r[i] == Block(a, false);
    }
    assert r[k] == Block(bs[k].at, used);
  }

  lemma HasAfterInsert(bs: Layout, k: nat, b: Block, a: nat)
    requires k <= |bs|
    ensures Has(InsertAt(bs, k, b), a, false) <==> Has(bs, a, false) || b == Block(a, false)
  {
    var r := InsertAt(bs, k, b);
    if i :| 0 <= i < |r| && r[i] == Block(a, false) {
      if i != k {
        assert bs[if i < k then i else i - 1] == Block(a, false);
      }
    }
    if i :| 0 <= i < |bs| && bs[i] == Block(a, false) {
      assert r[if i < k then i else i + 1] == Block(a, false);
    }
    assert r[k] == b;
  }

  lemma HasAfterJoined(bs: Layout, pool: nat, k: nat, a: nat)
    requires Tiles(bs, pool) && k < |bs|
    ensures Has(Joined(bs, k), a, false) <==> Has(bs, a, false) && a != bs[k].at
  {
    var r := Joined(bs, k);
    if i :| 0 <= i < |r| && r[i] == Block(a, false) {
      var j := if i < k then i else i + 1;
      assert bs[j] == r[i];
      if i < k { Increasing(bs, pool, i, k); } else { Increasing(bs, pool, k, j); }
    }
    if i :| 0 <= i < |bs| && bs[i] == Block(a, false) {
      assert i != k ==> r[if i < k then i else i - 1] == Block(a, false);
    }
  }

  // ---------- The operations keep the invariant ----------

  /** The invariant without coalescing and statistics. */
  ghost predicate Listed(s: State) {
    && Tiles(s.blocks, s.pool) && Distinct(s.free)
    && forall a: nat :: a in s.free <==> Has(s.blocks, a, false)
  }

  /** A block that is taken leaves the free list. */
  lemma FlaggedIsListed(s: State, k: nat)
    requires Listed(s) && k + 1 < |s.blocks| && !s.blocks[k].used
    ensures Listed(s.(blocks := Flagged(s.blocks, k, true), free := Without(s.free, s.blocks[k].at)))
  {
    FlaggedTiles(s.blocks, s.pool, k, true);
    WithoutIsDistinct(s.free, s.blocks[k].at);
    hide Tiles, Has;
    var r := s.(blocks := Flagged(s.blocks, k, true), free := Without(s.free, s.blocks[k].at));
    forall a: nat ensures a in r.free <==> Has(r.blocks, a, false) {
      HasAfterFlagged(s.blocks, s.pool, k, true, a);
    }
  }

  lemma TakeBlockKeepsInv(s: State, k: nat, size: nat)
    requires Inv(s) && k + 1 < |s.blocks| && !s.blocks[k].used && MINIALLOC <= size <= Payload(s.blocks, k)
    ensures Inv(TakeBlock(s, k, size))
    ensures TakeBlock(s, k, size).maxUsed == Greater(s.maxUsed, s.pool - TakeBlock(s, k, size).available)
  {
    var bs := s.blocks;
    FlaggedTiles(bs, s.pool, k, true);
    FlaggedIsListed(s, k);
    var t := s.(blocks := Flagged(bs, k, true), free := Without(s.free, bs[k].at));
    assert t.blocks[k].used && t.blocks[k].at == bs[k].at && t.blocks[k + 1].at == bs[k + 1].at;
    if Payload(bs, k) >= size + HEADER + MINIALLOC {
      CutCoalesces(bs, k, size);
      hide Has, Tiles, Without, FreeSum;
      CutIsListed(t, k, size);
      assert FreeSum(Cut(t.blocks, k, size)) == FreeSum(t.blocks) + Payload(bs, k) - size - HEADER by {
        CutTiles(t.blocks, s.pool, k, size);
      }
      hide Cut;
    } else {
      FlaggedCoalesces(bs, k);
      hide Has, Tiles, Without, FreeSum;
    }
  }

  lemma FlaggedCoalesces(bs: Layout, k: nat)
    requires Coalesced(bs) && k < |bs|
    ensures Coalesced(Flagged(bs, k, true))
  {
  }

  lemma CutCoalesces(bs: Layout, k: nat, size: nat)
    requires Coalesced(bs) && k + 1 < |bs| && bs[k + 1].used
    ensures Coalesced(Cut(Flagged(bs, k, true), k, size))
  {
    var r := Cut(Flagged(bs, k, true), k, size);
    forall i | 0 <= i < |r| - 1 ensures r[i].used || r[i + 1].used {
      if i > k + 1 {
        assert r[i] == bs[i - 1] && r[i + 1] == bs[i];
      }
    }
  }

  /** A block that is cut off a used one goes to the front of the free list. */
  lemma CutIsListed(s: State, k: nat, size: nat)
    requires Listed(s) && k + 1 < |s.blocks| && s.blocks[k].used
    requires size >= MINIALLOC && size + HEADER + MINIALLOC <= Payload(s.blocks, k)
    ensures Listed(s.(blocks := Cut(s.blocks, k, size), free := [s.blocks[k].at + HEADER + size] + s.free))
  {
    var x := s.blocks[k].at + HEADER + size;
    var b := Block(x, false);
    CutTiles(s.blocks, s.pool, k, size);
    NoBlockInside(s.blocks, s.pool, k, x);
    hide Tiles, Has;
    assert !Has(s.blocks, x, false);
    var r := s.(blocks := Cut(s.blocks, k, size), free := [x] + s.free);
    forall a: nat ensures a in r.free <==> Has(r.blocks, a, false) {
      HasAfterInsert(s.blocks, k + 1, b, a);
    }
  }

  lemma NoBlockInside(bs: Layout, pool: nat, k: nat, x: nat)
    requires Tiles(bs, pool) && k + 1 < |bs| && bs[k].at < x < bs[k + 1].at
    ensures !Has(bs, x, false)
  {
    if i :| 0 <= i < |bs| && bs[i] == Block(x, false) {
      if i < k { Increasing(bs, pool, i, k); } else if i > k + 1 { Increasing(bs, pool, k + 1, i); }
    }
  }

  /** A free block that joins the block before it leaves the free list. */
  lemma JoinedIsListed(s: State, k: nat)
    requires Listed(s) && 0 < k < |s.blocks| - 1 && !s.blocks[k].used
    ensures Listed(s.(blocks := Joined(s.blocks, k), free := Without(s.free, s.blocks[k].at)))
  {
    JoinedTiles(s.blocks, s.pool, k);
    WithoutIsDistinct(s.free, s.blocks[k].at);
    hide Tiles, Has;
    var r := s.(blocks := Joined(s.blocks, k), free := Without(s.free, s.blocks[k].at));
    forall a: nat ensures a in r.free <==> Has(r.blocks, a, false) {
      HasAfterJoined(s.blocks, s.pool, k, a);
    }
  }

  ghost predicate CoalescedBut(bs: Layout, j: nat) {
    forall i :: 0 <= i < |bs| - 1 && i != j ==> bs[i].used || bs[i + 1].used
  }

  lemma FlagsAfterJoin(bs: Layout, k: nat)
    requires Coalesced(bs) && 0 < k < |bs| - 1 && bs[k].used && !bs[k - 1].used
    ensures var r := Joined(Flagged(bs, k, false), k);
            !r[k - 1].used && (k > 1 ==> r[k - 2].used) && CoalescedBut(r, k - 1)
  {
    var r := Joined(Flagged(bs, k, false), k);
    forall i | 0 <= i < |r| - 1 && i != k - 1 ensures r[i].used || r[i + 1].used {
      if i >= k {
        assert r[i] == bs[i + 1] && r[i + 1] == bs[i + 2];
      } else {
        assert r[i] == bs[i] && r[i + 1] == bs[i + 1];
      }
    }
  }

  /** What the first half of a release leaves for the second. */
  ghost predicate HalfFreed(s: State, t: State, j: nat) {
    && Listed(t) && t.available == FreeSum(t.blocks) && t.available > s.available && t.pool == s.pool && t.maxUsed == s.maxUsed
    && j + 1 < |t.blocks| && !t.blocks[j].used && (j > 0 ==> t.blocks[j - 1].used) && CoalescedBut(t.blocks, j)
  }

  lemma LeftJoined(s: State, k: nat)
    requires Inv(s) && 0 < k < |s.blocks| - 1 && s.blocks[k].used && !s.blocks[k - 1].used
    ensures var (t, j) := JoinLeft(s, k); HalfFreed(s, t, j)
  {
    var bs := s.blocks;
    var freed := Flagged(bs, k, false);
    FlaggedTiles(bs, s.pool, k, false);
    UsedIsNotFree(bs, s.pool, k);
    assert Payload(bs, k) > 0;
    JoinedTiles(freed, s.pool, k);
    FlagsAfterJoin(bs, k);
    var t := JoinLeft(s, k).0;
    assert freed[k - 1] == bs[k - 1];
    hide Tiles, Has, FreeSum, Joined, Flagged, Coalesced, CoalescedBut;
    forall a: nat ensures a in t.free <==> Has(t.blocks, a, false) {
      HasAfterFlagged(bs, s.pool, k, false, a);
      HasAfterJoined(freed, s.pool, k, a);
    }
  }

  lemma LeftPushed(s: State, k: nat)
    requires Inv(s) && k + 1 < |s.blocks| && s.blocks[k].used && (k > 0 ==> s.blocks[k - 1].used)
    ensures var (t, j) := JoinLeft(s, k); HalfFreed(s, t, j)
  {
    var bs := s.blocks;
    var freed := Flagged(bs, k, false);
    FlaggedTiles(bs, s.pool, k, false);
    UsedIsNotFree(bs, s.pool, k);
    assert Payload(bs, k) > 0;
    assert CoalescedBut(freed, k);
    var t := JoinLeft(s, k).0;
    hide Tiles, Has, FreeSum, Coalesced, CoalescedBut;
    forall a: nat ensures a in t.free <==> Has(t.blocks, a, false) {
      HasAfterFlagged(bs, s.pool, k, false, a);
    }
  }

  lemma UsedIsNotFree(bs: Layout, pool: nat, k: nat)
    requires Tiles(bs, pool) && k < |bs| && bs[k].used
    ensures !Has(bs, bs[k].at, false)
  {
    if i :| 0 <= i < |bs| && bs[i] == Block(bs[k].at, false) {
      if i < k { Increasing(bs, pool, i, k); } else if i > k { Increasing(bs, pool, k, i); }
    }
  }

  lemma FreeBlockKeepsInv(s: State, k: nat)
    requires Inv(s) && k + 1 < |s.blocks| && s.blocks[k].used
    ensures Inv(FreeBlock(s, k)) && FreeBlock(s, k).maxUsed == s.maxUsed && FreeBlock(s, k).available > s.available
  {
    if k > 0 && !s.blocks[k - 1].used { LeftJoined(s, k); } else { LeftPushed(s, k); }
    var (t, j) := JoinLeft(s, k);
    assert !t.blocks[j + 1].used ==> j + 2 < |t.blocks|;
    assert s.maxUsed >= s.pool - s.available && s.pool < WRAP;
    hide JoinLeft, Inv, HalfFreed;
    JoinRightKeepsInv(s, t, j);
  }

  lemma JoinRightKeepsInv(s: State, t: State, j: nat)
    requires HalfFreed(s, t, j) && s.maxUsed >= s.pool - s.available && s.pool < WRAP
    ensures Inv(JoinRight(t, j)) && JoinRight(t, j).maxUsed == s.maxUsed && JoinRight(t, j).available > s.available
  {
    if !t.blocks[j + 1].used {
      assert j + 2 < |t.blocks|;
      JoinedIsListed(t, j + 1);
      JoinedTiles(t.blocks, t.pool, j + 1);
      JoinRightCoalesces(t.blocks, j);
      hide Joined, Has, Tiles, FreeSum, CoalescedBut, Coalesced;
    } else {
      hide Has, Tiles, FreeSum;
    }
  }

  lemma JoinRightCoalesces(bs: Layout, j: nat)
    requires CoalescedBut(bs, j) && j + 2 < |bs| && !bs[j + 1].used && (j > 0 ==> bs[j - 1].used)
    ensures Coalesced(Joined(bs, j + 1))
  {
    var r := Joined(bs, j + 1);
    assert bs[j + 2].used;
    forall i | 0 <= i < |r| - 1 ensures r[i].used || r[i + 1].used {
      if i > j {
        assert r[i] == bs[i + 1] && r[i + 1] == bs[i + 2];
      }
    }
  }

  // ---------- Resizing in place ----------

  lemma CutKeepsInv(s: State, t: State, k: nat, size: nat, r: State)
    requires Listed(t) && k + 1 < |t.blocks| && t.blocks[k].used && t.blocks[k + 1].used && Coalesced(t.blocks)
    requires size >= MINIALLOC && size + HEADER + MINIALLOC <= Payload(t.blocks, k)
    requires r.blocks == Cut(t.blocks, k, size) && r.free == [t.blocks[k].at + HEADER + size] + t.free && r.pool == t.pool < WRAP
    requires r.available == FreeSum(t.blocks) + Payload(t.blocks, k) - size - HEADER && r.maxUsed >= r.pool - r.available
    ensures Inv(r)
  {
    CutTiles(t.blocks, t.pool, k, size);
    assert Flagged(t.blocks, k, true) == t.blocks;
    CutCoalesces(t.blocks, k, size);
    hide Has, Tiles, FreeSum, Coalesced;
    CutIsListed(t, k, size);
  }

  lemma JoinedCoalesces(bs: Layout, k: nat)
    requires Coalesced(bs) && k + 2 < |bs| && bs[k].used && !bs[k + 1].used
    ensures Coalesced(Joined(bs, k + 1)) && Joined(bs, k + 1)[k + 1] == bs[k + 2] && bs[k + 2].used
  {
    var r := Joined(bs, k + 1);
    forall i | 0 <= i < |r| - 1 ensures r[i].used || r[i + 1].used {
      if i > k {
        assert r[i] == bs[i + 1] && r[i + 1] == bs[i + 2];
      }
    }
  }

  lemma ExpandKeepsInv(s: State, k: nat, size: nat)
    requires Inv(s) && CanExpand(s, k, size) && s.blocks[k].used && size >= MINIALLOC
    ensures Inv(ExpandBlock(s, k, size))
    ensures ExpandBlock(s, k, size).maxUsed == Greater(s.maxUsed, s.pool - ExpandBlock(s, k, size).available)
  {
    var bs := s.blocks;
    JoinedIsListed(s, k + 1);
    JoinedTiles(bs, s.pool, k + 1);
    JoinedCoalesces(bs, k);
    var t := s.(blocks := Joined(bs, k + 1), free := Without(s.free, bs[k + 1].at));
    assert t.blocks[k] == bs[k];
    var r := ExpandBlock(s, k, size);
    hide Has, Tiles, FreeSum, Coalesced, Joined, Without;
    CutKeepsInv(s, t, k, size, r);
  }

  lemma ShrinkKeepsInv(s: State, k: nat, size: nat)
    requires Inv(s) && CanShrink(s, k, size) && s.blocks[k].used && size >= MINIALLOC
    ensures Inv(ShrinkBlock(s, k, size)) && ShrinkBlock(s, k, size).maxUsed == s.maxUsed
    ensures ShrinkBlock(s, k, size).available > s.available
  {
    var bs := s.blocks;
    if !bs[k + 1].used {
      ShrinkIntoFree(s, k, size);
    } else {
      hide Has, Tiles, FreeSum, Coalesced, Joined, Without;
      CutKeepsInv(s, s, k, size, ShrinkBlock(s, k, size));
    }
  }

  lemma ShrinkIntoFree(s: State, k: nat, size: nat)
    requires Inv(s) && CanShrink(s, k, size) && s.blocks[k].used && size >= MINIALLOC && !s.blocks[k + 1].used
    ensures Inv(ShrinkBlock(s, k, size)) && ShrinkBlock(s, k, size).maxUsed == s.maxUsed
    ensures ShrinkBlock(s, k, size).available > s.available
  {
    var bs := s.blocks;
    var r := ShrinkBlock(s, k, size);
    assert k + 2 < |bs|;
    JoinedIsListed(s, k + 1);
    JoinedTiles(bs, s.pool, k + 1);
    JoinedCoalesces(bs, k);
    var t := s.(blocks := Joined(bs, k + 1), free := Without(s.free, bs[k + 1].at));
    assert t.blocks[k] == bs[k];
    assert bs[k + 2].at > bs[k + 1].at;
    hide Has, Tiles, FreeSum, Coalesced, Joined, Without, Cut;
    CutKeepsInv(s, t, k, size, r);
  }

  // ---------- Live blocks ----------

  lemma OneBlockPerAddress(bs: Layout, pool: nat, i: nat, j: nat)
    requires Tiles(bs, pool) && i < |bs| && j < |bs| && bs[i].at == bs[j].at
    ensures i == j
  {
    if i < j { Increasing(bs, pool, i, j); } else if j < i { Increasing(bs, pool, j, i); }
  }

  lemma LiveAfterFlag(bs: Layout, pool: nat, k: nat, used: bool, a: nat, n: nat)
    requires Tiles(bs, pool) && k + 1 < |bs|
    ensures IsLive(Flagged(bs, k, used), a, n)
       <==> if a == bs[k].at then used && n == Payload(bs, k) else IsLive(bs, a, n)
  {
    var r := Flagged(bs, k, used);
    if IsLive(r, a, n) {
      var i: nat :| i + 1 < |r| && LiveBlock(r, i, a, n);
      if a == bs[k].at { OneBlockPerAddress(bs, pool, i, k); } else { assert LiveBlock(bs, i, a, n); }
    }
    if a != bs[k].at && IsLive(bs, a, n) {
      var i: nat :| i + 1 < |bs| && LiveBlock(bs, i, a, n);
      assert LiveBlock(r, i, a, n);
    }
    if a == bs[k].at && used && n == Payload(bs, k) {
      assert LiveBlock(r, k, a, n);
    }
  }

  lemma LiveAfterCut(bs: Layout, pool: nat, k: nat, size: nat, a: nat, n: nat)
    requires Tiles(bs, pool) && k + 1 < |bs| && bs[k].used
    ensures IsLive(Cut(bs, k, size), a, n) <==> if a == bs[k].at then n == size else IsLive(bs, a, n)
  {
    if IsLive(Cut(bs, k, size), a, n) {
      LiveBeforeCut(bs, pool, k, size, a, n);
    }
    var r := Cut(bs, k, size);
    hide Cut, Tiles;
    if a == bs[k].at && n == size {
      assert LiveBlock(r, k, a, n) by {
        CutIndex(bs, k, size, k);
        CutIndex(bs, k, size, k + 1);
      }
    }
    if a != bs[k].at && IsLive(bs, a, n) {
      var i: nat :| i + 1 < |bs| && LiveBlock(bs, i, a, n);
      var i1 := if i < k then i else i + 1;
      CutIndex(bs, k, size, i1);
      CutIndex(bs, k, size, i1 + 1);
      assert LiveBlock(r, i1, a, n);
    }
  }

  lemma CutIndex(bs: Layout, k: nat, size: nat, i: nat)
    requires k < |bs|
    ensures |Cut(bs, k, size)| == |bs| + 1
    ensures i <= |bs| ==> Cut(bs, k, size)[i] == if i <= k then bs[i] else if i == k + 1 then Block(bs[k].at + HEADER + size, false) else bs[i - 1]
  {
  }

  lemma LiveBeforeCut(bs: Layout, pool: nat, k: nat, size: nat, a: nat, n: nat)
    requires Tiles(bs, pool) && k + 1 < |bs| && bs[k].used && IsLive(Cut(bs, k, size), a, n)
    ensures if a == bs[k].at then n == size else IsLive(bs, a, n)
  {
    var r := Cut(bs, k, size);
    var i: nat :| i + 1 < |r| && LiveBlock(r, i, a, n);
    CutIndex(bs, k, size, i);
    CutIndex(bs, k, size, i + 1);
    hide Cut;
    var i0 := if i <= k then i else i - 1;
    if a == bs[k].at {
      OneBlockPerAddress(bs, pool, i0, k);
    } else {
      assert LiveBlock(bs, i0, a, n);
    }
  }

  lemma LiveAfterJoined(bs: Layout, pool: nat, k: nat, a: nat, n: nat)
    requires Tiles(bs, pool) && 0 < k < |bs| - 1 && !bs[k].used
    ensures IsLive(Joined(bs, k), a, n)
       <==> if a == bs[k - 1].at then bs[k - 1].used && n == bs[k + 1].at - a - HEADER else IsLive(bs, a, n)
  {
    if IsLive(Joined(bs, k), a, n) {
      LiveBeforeJoined(bs, pool, k, a, n);
    }
    var r := Joined(bs, k);
    hide Joined, Tiles;
    if a == bs[k - 1].at && bs[k - 1].used && n == bs[k + 1].at - a - HEADER {
      JoinedIndex(bs, k, k - 1);
      JoinedIndex(bs, k, k);
      assert LiveBlock(r, k - 1, a, n);
    }
    if a != bs[k - 1].at && IsLive(bs, a, n) {
      var i: nat :| i + 1 < |bs| && LiveBlock(bs, i, a, n);
      var i1 := if i < k then i else i - 1;
      JoinedIndex(bs, k, i1);
      JoinedIndex(bs, k, i1 + 1);
      assert LiveBlock(r, i1, a, n);
    }
  }

  lemma JoinedIndex(bs: Layout, k: nat, i: nat)
    requires k < |bs|
    ensures |Joined(bs, k)| == |bs| - 1
    ensures i < |bs| - 1 ==> Joined(bs, k)[i] == bs[if i < k then i else i + 1]
  {
  }

  lemma LiveBeforeJoined(bs: Layout, pool: nat, k: nat, a: nat, n: nat)
    requires Tiles(bs, pool) && 0 < k < |bs| - 1 && !bs[k].used && IsLive(Joined(bs, k), a, n)
    ensures if a == bs[k - 1].at then bs[k - 1].used && n == bs[k + 1].at - a - HEADER else IsLive(bs, a, n)
  {
    var r := Joined(bs, k);
    var i: nat :| i + 1 < |r| && LiveBlock(r, i, a, n);
    JoinedIndex(bs, k, i);
    JoinedIndex(bs, k, i + 1);
    hide Joined;
    var j := if i < k then i else i + 1;
    if a == bs[k - 1].at {
      OneBlockPerAddress(bs, pool, j, k - 1);
    } else {
      assert LiveBlock(bs, j, a, n);
    }
  }

  /** No two live blocks overlap. */
  lemma LiveBlocksAreDisjoint(s: State, a: nat, n: nat, b: nat, m: nat)
    requires Inv(s) && IsLive(s.blocks, a, n) && IsLive(s.blocks, b, m) && a <= b
    ensures (a == b && n == m) || a + HEADER + n <= b
  {
    var i: nat :| i + 1 < |s.blocks| && LiveBlock(s.blocks, i, a, n);
    var j: nat :| j + 1 < |s.blocks| && LiveBlock(s.blocks, j, b, m);
    if i < j {
      if i + 1 < j { Increasing(s.blocks, s.pool, i + 1, j); }
    } else if j < i {
      Increasing(s.blocks, s.pool, j, i);
    }
  }

  // ---------- What the operations do to live blocks ----------

  lemma FreeNodeIsBlock(s: State, a: nat)
    requires Inv(s) && a in s.free
    ensures var k := IndexOf(s.blocks, a); k + 1 < |s.blocks| && s.blocks[k] == Block(a, false)
  {
    assert Has(s.blocks, a, false);
    var i :| 0 <= i < |s.blocks| && s.blocks[i] == Block(a, false);
    IndexIs(s.blocks, s.pool, i);
  }

  /** An aligned allocation fails exactly if it asks for all that is available, or more, or no free block
      is large enough; otherwise it takes a free block, and leaves all live blocks alone. */
  lemma AllocIsExact(s: State, size: nat)
    requires Inv(s) && size >= MINIALLOC
    ensures var (r, p) := Alloc(s, size);
            && Inv(r) && r.maxUsed == Greater(s.maxUsed, r.pool - r.available)
            && (p.Null? <==> size >= s.available || forall i :: 0 <= i < |s.blocks| - 1 && !s.blocks[i].used ==> Payload(s.blocks, i) < size)
            && (p.Null? ==> r == s)
  {
    var f := FirstFit(s.blocks, s.free, size);
    if f < |s.free| {
      FreeNodeIsBlock(s, s.free[f]);
      var k := IndexOf(s.blocks, s.free[f]);
      TakeBlockKeepsInv(s, k, size);
    } else {
      forall i | 0 <= i < |s.blocks| - 1 && !s.blocks[i].used ensures Payload(s.blocks, i) < size {
        assert Has(s.blocks, s.blocks[i].at, false);
        var g :| 0 <= g < |s.free| && s.free[g] == s.blocks[i].at;
        IndexIs(s.blocks, s.pool, i);
      }
    }
  }

  /** The live blocks of r are those of s, but for the one at a, which is now live with m bytes, or not. */
  ghost predicate OnlyChanges(s: State, r: State, a: nat, live: bool, m: int) {
    forall b: nat, n: nat :: IsLive(r.blocks, b, n) <==> if b == a then live && n == m else IsLive(s.blocks, b, n)
  }

  /** How many bytes a taken block gets. */
  function Given(bs: Layout, k: nat, size: nat): int
    requires k + 1 < |bs|
  {
    if Payload(bs, k) >= size + HEADER + MINIALLOC then size else Payload(bs, k)
  }

  lemma TakeBlockLive(s: State, k: nat, size: nat)
    requires Inv(s) && k + 1 < |s.blocks| && !s.blocks[k].used && MINIALLOC <= size <= Payload(s.blocks, k)
    ensures OnlyChanges(s, TakeBlock(s, k, size), s.blocks[k].at, true, Given(s.blocks, k, size))
  {
    var bs, r := s.blocks, TakeBlock(s, k, size);
    var flagged := Flagged(bs, k, true);
    FlaggedTiles(bs, s.pool, k, true);
    assert flagged[k].used && flagged[k].at == bs[k].at;
    hide Inv, Flagged, Cut, IsLive, FreeSum;
    forall b: nat, n: nat
      ensures IsLive(r.blocks, b, n) <==> if b == bs[k].at then n == Given(bs, k, size) else IsLive(bs, b, n)
    {
      LiveAfterFlag(bs, s.pool, k, true, b, n);
      if Payload(bs, k) >= size + HEADER + MINIALLOC {
        LiveAfterCut(flagged, s.pool, k, size, b, n);
      }
    }
  }

  lemma FreeBlockLive(s: State, k: nat)
    requires Inv(s) && k + 1 < |s.blocks| && s.blocks[k].used
    ensures OnlyChanges(s, FreeBlock(s, k), s.blocks[k].at, false, 0)
  {
    var r := FreeBlock(s, k);
    if k > 0 && !s.blocks[k - 1].used { LeftJoined(s, k); } else { LeftPushed(s, k); }
    var (t, j) := JoinLeft(s, k);
    assert r == JoinRight(t, j);
    hide JoinLeft, JoinRight, Inv, IsLive, HalfFreed, FreeBlock;
    forall b: nat, n: nat ensures IsLive(r.blocks, b, n) <==> b != s.blocks[k].at && IsLive(s.blocks, b, n) {
      LeftLive(s, k, b, n);
      RightLive(s, t, j, b, n);
    }
  }

  lemma RightLive(s: State, t: State, j: nat, b: nat, n: nat)
    requires HalfFreed(s, t, j)
    ensures IsLive(JoinRight(t, j).blocks, b, n) <==> IsLive(t.blocks, b, n)
  {
    if !t.blocks[j + 1].used {
      assert j + 2 < |t.blocks|;
      hide Joined, IsLive, FreeSum, CoalescedBut;
      LiveAfterJoined(t.blocks, t.pool, j + 1, b, n);
      FreeIsNotLive(t.blocks, t.pool, j, n);
    }
  }

  lemma FreeIsNotLive(bs: Layout, pool: nat, j: nat, n: nat)
    requires Tiles(bs, pool) && j < |bs| && !bs[j].used
    ensures !IsLive(bs, bs[j].at, n)
  {
    if IsLive(bs, bs[j].at, n) {
      var i: nat :| i + 1 < |bs| && LiveBlock(bs, i, bs[j].at, n);
      OneBlockPerAddress(bs, pool, i, j);
    }
  }

  lemma LeftLive(s: State, k: nat, b: nat, n: nat)
    requires Inv(s) && k + 1 < |s.blocks| && s.blocks[k].used
    ensures IsLive(JoinLeft(s, k).0.blocks, b, n) <==> b != s.blocks[k].at && IsLive(s.blocks, b, n)
  {
    var bs := s.blocks;
    var freed := Flagged(bs, k, false);
    FlaggedTiles(bs, s.pool, k, false);
    LiveAfterFlag(bs, s.pool, k, false, b, n);
    if k > 0 && !bs[k - 1].used {
      assert freed[k - 1] == bs[k - 1];
      LiveAfterJoined(freed, s.pool, k, b, n);
      FreeIsNotLive(bs, s.pool, k - 1, n);
      Increasing(bs, s.pool, k - 1, k);
    }
  }

  lemma ExpandLive(s: State, k: nat, size: nat)
    requires Inv(s) && CanExpand(s, k, size) && s.blocks[k].used && size >= MINIALLOC
    ensures OnlyChanges(s, ExpandBlock(s, k, size), s.blocks[k].at, true, size)
  {
    var bs := s.blocks;
    JoinedTiles(bs, s.pool, k + 1);
    var joined := Joined(bs, k + 1);
    assert joined[k] == bs[k];
    hide Inv, Joined, Cut, IsLive, FreeSum;
    forall b: nat, n: nat
      ensures IsLive(Cut(joined, k, size), b, n) <==> if b == bs[k].at then n == size else IsLive(bs, b, n)
    {
      LiveAfterJoined(bs, s.pool, k + 1, b, n);
      LiveAfterCut(joined, s.pool, k, size, b, n);
    }
  }

  lemma ShrinkLive(s: State, k: nat, size: nat)
    requires Inv(s) && CanShrink(s, k, size) && s.blocks[k].used && size >= MINIALLOC
    ensures OnlyChanges(s, ShrinkBlock(s, k, size), s.blocks[k].at, true, size)
  {
    var r := ShrinkBlock(s, k, size);
    hide Inv, IsLive, ShrinkBlock;
    forall b: nat, n: nat
      ensures IsLive(r.blocks, b, n) <==> if b == s.blocks[k].at then n == size else IsLive(s.blocks, b, n)
    {
      ShrinkLiveAt(s, k, size, b, n);
    }
  }

  lemma ShrinkLiveAt(s: State, k: nat, size: nat, b: nat, n: nat)
    requires Inv(s) && CanShrink(s, k, size) && s.blocks[k].used && size >= MINIALLOC
    ensures IsLive(ShrinkBlock(s, k, size).blocks, b, n) <==> if b == s.blocks[k].at then n == size else IsLive(s.blocks, b, n)
  {
    var bs := s.blocks;
    if !bs[k + 1].used {
      assert k + 2 < |bs|;
      JoinedTiles(bs, s.pool, k + 1);
      LiveAfterJoined(bs, s.pool, k + 1, b, n);
      var joined := Joined(bs, k + 1);
      assert joined[k] == bs[k];
      hide Inv, Joined, Cut, IsLive, FreeSum, Tiles;
      LiveAfterCut(joined, s.pool, k, size, b, n);
    } else {
      hide Cut, IsLive, FreeSum;
      LiveAfterCut(bs, s.pool, k, size, b, n);
    }
  }

  // ---------- Whole calls and runs ----------

  /** rt_memheap_free. */
  function Free(s: State, a: nat): State {
    var k := IndexOf(s.blocks, a);
    if k + 1 < |s.blocks| then FreeBlock(s, k) else s
  }

  /** rt_memheap_realloc of a block to an aligned size. */
  function Realloc(s: State, a: nat, size: nat): (State, Pointer) {
    var k := IndexOf(s.blocks, a);
    if k + 1 >= |s.blocks| then (s, Null)
    else if size > Payload(s.blocks, k) then
      if GrowsInPlace(s, k, size) then (GrowBlock(s, k, size), Ptr(a))
      else
        var (t, p) := Alloc(s, size);
        if p.Null? then (t, p) else (Free(t, a), p)
    else if CanShrink(s, k, size) then (ShrinkBlock(s, k, size), Ptr(a))
    else (s, Ptr(a))
  }

  datatype Call = Allocate(bytes: nat) | Release(a: nat) | Reallocate(a: nat, bytes: nat)

  /** A call of a live block, with a size of 32 bits. */
  ghost predicate Enabled(s: State, c: Call) {
    && (!c.Allocate? ==> exists n: nat :: IsLive(s.blocks, c.a, n))
    && (!c.Release? ==> c.bytes < WRAP)
  }

  predicate Overflows(size: nat) { size + MINIALLOC >= WRAP }

  /** The block behind is in use, so that growing in place is out of the question, or the guard of that
      branch does not overflow. */
  predicate SafeSize(s: State, a: nat, size: nat) {
    var k := IndexOf(s.blocks, a);
    !Overflows(size) || (k + 1 < |s.blocks| && s.blocks[k + 1].used)
  }

  predicate Safe(s: State, c: Call) {
    c.Reallocate? && c.bytes > 0 ==> SafeSize(s, c.a, Request(c.bytes))
  }

  function Apply(s: State, c: Call): State {
    match c
    case Allocate(bytes) => Alloc(s, Request(bytes)).0
    case Release(a) => Free(s, a)
    case Reallocate(a, bytes) => if bytes == 0 then Free(s, a) else Realloc(s, a, Request(bytes)).0
  }

  lemma LiveIndex(s: State, a: nat, n: nat)
    requires Inv(s) && IsLive(s.blocks, a, n)
    ensures var k := IndexOf(s.blocks, a); k + 1 < |s.blocks| && LiveBlock(s.blocks, k, a, n) && Payload(s.blocks, k) == n
  {
    var i: nat :| i + 1 < |s.blocks| && LiveBlock(s.blocks, i, a, n);
    IndexIs(s.blocks, s.pool, i);
  }

  /** Releasing a live block takes exactly it. */
  lemma FreeTakesOne(s: State, a: nat, n: nat)
    requires Inv(s) && IsLive(s.blocks, a, n)
    ensures var r := Free(s, a); Inv(r) && r.maxUsed == s.maxUsed && r.available > s.available && OnlyChanges(s, r, a, false, 0)
  {
    LiveIndex(s, a, n);
    hide Inv, IsLive, FreeBlock;
    FreeBlockKeepsInv(s, IndexOf(s.blocks, a));
    FreeBlockLive(s, IndexOf(s.blocks, a));
  }

  /** An allocation that does not fail gives one block that was not live, and is large enough. */
  lemma AllocGivesOne(s: State, size: nat)
    requires Inv(s) && size >= MINIALLOC && Alloc(s, size).1.Ptr?
    ensures var (r, p) := Alloc(s, size);
            && (forall n: nat :: !IsLive(s.blocks, p.header, n))
            && exists m: nat :: m >= size && OnlyChanges(s, r, p.header, true, m)
  {
    var f := FirstFit(s.blocks, s.free, size);
    var a := s.free[f];
    FreeNodeIsBlock(s, a);
    var k := IndexOf(s.blocks, a);
    TakeBlockLive(s, k, size);
    var m: nat := Given(s.blocks, k, size);
    assert OnlyChanges(s, Alloc(s, size).0, a, true, m);
    forall n: nat ensures !IsLive(s.blocks, a, n) {
      FreeIsNotLive(s.blocks, s.pool, k, n);
    }
  }

  /** The block at a has made way for one of at least that size at q, which was not live if it is another
      one; nothing else has become live or stopped being so. */
  ghost predicate Resized(s: State, r: State, a: nat, q: nat, size: nat) {
    && (q != a ==> forall l: nat :: !IsLive(s.blocks, q, l))
    && exists m: nat :: m >= size && Replaced(s, r, a, q, m)
  }

  ghost predicate Replaced(s: State, r: State, a: nat, q: nat, m: nat) {
    forall b: nat, l: nat :: IsLive(r.blocks, b, l) <==> if b == q then l == m else b != a && IsLive(s.blocks, b, l)
  }

  lemma ResizedInPlace(s: State, r: State, a: nat, size: nat, m: nat)
    requires OnlyChanges(s, r, a, true, m) && size <= m
    ensures Resized(s, r, a, a, size)
  {
    hide IsLive;
    assert Replaced(s, r, a, a, m);
  }

  lemma OneSize(s: State, a: nat, n: nat, l: nat)
    requires Inv(s) && IsLive(s.blocks, a, n) && IsLive(s.blocks, a, l)
    ensures l == n
  {
    LiveIndex(s, a, n);
    LiveIndex(s, a, l);
  }

  lemma {:induction false} FreeSumBounds(bs: Layout, pool: nat, i: nat)
    requires Tiles(bs, pool) && i < |bs|
    ensures 0 <= FreeSum(bs[i..]) <= pool - HEADER - bs[i].at
    decreases |bs| - i
  {
    if i + 1 < |bs| {
      assert bs[i..][1..] == bs[i + 1..];
      FreeSumBounds(bs, pool, i + 1);
    }
  }

  /** Without overflow, the growing branch is taken if and only if the block behind has room for what is
      missing and a block of the smallest size, and does what it is meant to. */
  lemma GrowsAsMeant(s: State, k: nat, size: nat)
    requires Inv(s) && size >= MINIALLOC && !Overflows(size)
    ensures GrowsInPlace(s, k, size) <==> CanExpand(s, k, size)
    ensures CanExpand(s, k, size) && s.blocks[k].used ==> GrowBlock(s, k, size) == ExpandBlock(s, k, size)
  {
    if CanExpand(s, k, size) && s.blocks[k].used {
      ExpandBounds(s, k, size);
      hide Inv, FreeSum, Has, Joined, Without;
    }
  }

  lemma ExpandBounds(s: State, k: nat, size: nat)
    requires Inv(s) && CanExpand(s, k, size) && s.blocks[k].used && size >= MINIALLOC
    ensures s.blocks[k].at + HEADER + size < WRAP
    ensures 0 <= s.available - (size - Payload(s.blocks, k)) <= s.pool < WRAP
  {
    var r := ExpandBlock(s, k, size);
    ExpandKeepsInv(s, k, size);
    FreeSumBounds(r.blocks, r.pool, 0);
    assert r.blocks[0..] == r.blocks;
    assert r.blocks[k + 1].at == s.blocks[k].at + HEADER + size;
    hide FreeSum, Has, Joined, Without, ExpandBlock;
    Increasing(r.blocks, r.pool, k + 1, |r.blocks| - 1);
  }

  /** With overflow, and a free block behind, the new header is written into the header of the block itself. */
  lemma GrowingOverflows(s: State, k: nat, size: nat)
    requires Inv(s) && k + 1 < |s.blocks| && Overflows(size) && size <= WRAP - 4
    ensures GrowsInPlace(s, k, size) <==> !s.blocks[k + 1].used
    ensures GrowsInPlace(s, k, size) ==> !Tiles(GrowBlock(s, k, size).blocks, s.pool)
  {
    var bs := s.blocks;
    Increasing(bs, s.pool, k, k + 1);
    Increasing(bs, s.pool, k, |bs| - 1);
    if !bs[k + 1].used {
      assert k + 2 < |bs|;
      Increasing(bs, s.pool, k + 1, k + 2);
      if k + 2 < |bs| - 1 { Increasing(bs, s.pool, k + 2, |bs| - 1); }
      var r := GrowBlock(s, k, size).blocks;
      assert r[k] == bs[k] && r[k + 1].at == bs[k].at + HEADER + size - WRAP;
      assert r[k].at + HEADER + MINIALLOC > r[k + 1].at;
    }
  }

  /** A reallocation of a live block, to a size that is safe, keeps the block or moves it; whoever else is
      live stays as he is. */
  lemma ReallocKeepsOthers(s: State, a: nat, n: nat, size: nat)
    requires Inv(s) && IsLive(s.blocks, a, n) && MINIALLOC <= size && SafeSize(s, a, size)
    ensures var (r, p) := Realloc(s, a, size);
            && Inv(r) && r.pool == s.pool
            && (p.Null? ==> r == s)
            && (p.Ptr? ==> Resized(s, r, a, p.header, size))
  {
    LiveIndex(s, a, n);
    var k := IndexOf(s.blocks, a);
    GrowsIfSafe(s, k, size);
    if size <= n {
      ReallocShrinks(s, a, n, size, k);
    } else if CanExpand(s, k, size) {
      ReallocExpands(s, a, n, size, k);
    } else {
      AllocIsExact(s, size);
      hide Inv, IsLive, Free;
      if Alloc(s, size).1.Ptr? {
        ReallocMoves(s, a, n, size);
      }
    }
  }

  lemma GrowsIfSafe(s: State, k: nat, size: nat)
    requires Inv(s) && size >= MINIALLOC && k + 1 < |s.blocks| && s.blocks[k].used
    requires s.blocks[k + 1].used || !Overflows(size)
    ensures GrowsInPlace(s, k, size) <==> CanExpand(s, k, size)
    ensures CanExpand(s, k, size) ==> GrowBlock(s, k, size) == ExpandBlock(s, k, size)
  {
    if !Overflows(size) {
      GrowsAsMeant(s, k, size);
    }
  }

  lemma ReallocShrinks(s: State, a: nat, n: nat, size: nat, k: nat)
    requires Inv(s) && k + 1 < |s.blocks| && LiveBlock(s.blocks, k, a, n) && MINIALLOC <= size <= n
    ensures var r := if CanShrink(s, k, size) then ShrinkBlock(s, k, size) else s;
            Inv(r) && r.pool == s.pool && Resized(s, r, a, a, size)
  {
    if CanShrink(s, k, size) {
      ShrinkKeepsInv(s, k, size);
      ShrinkLive(s, k, size);
      hide Inv, IsLive, ShrinkBlock;
      ResizedInPlace(s, ShrinkBlock(s, k, size), a, size, size);
    } else {
      assert IsLive(s.blocks, a, n);
      forall b: nat, l: nat ensures IsLive(s.blocks, b, l) <==> if b == a then l == n else IsLive(s.blocks, b, l) {
        if b == a && IsLive(s.blocks, b, l) {
          OneSize(s, a, n, l);
        }
      }
      hide IsLive;
      ResizedInPlace(s, s, a, size, n);
    }
  }

  lemma ReallocExpands(s: State, a: nat, n: nat, size: nat, k: nat)
    requires Inv(s) && CanExpand(s, k, size) && LiveBlock(s.blocks, k, a, n) && MINIALLOC <= size
    ensures var r := ExpandBlock(s, k, size);
            Inv(r) && r.pool == s.pool && Resized(s, r, a, a, size)
  {
    ExpandKeepsInv(s, k, size);
    ExpandLive(s, k, size);
    hide Inv, IsLive, ExpandBlock;
    ResizedInPlace(s, ExpandBlock(s, k, size), a, size, size);
  }

  /** Growing a block keeps the pool in order if and only if the block behind it is in use, or the sum in
      the guard does not overflow. */
  lemma ReallocIsSafe(s: State, a: nat, n: nat, bytes: nat)
    requires Inv(s) && IsLive(s.blocks, a, n) && 0 < bytes < WRAP
    ensures var k := IndexOf(s.blocks, a);
            k + 1 < |s.blocks| && (Inv(Realloc(s, a, Request(bytes)).0) <==> s.blocks[k + 1].used || !Overflows(Request(bytes)))
  {
    LiveIndex(s, a, n);
    var k, size := IndexOf(s.blocks, a), Request(bytes);
    hide Inv, IsLive, Realloc, Request;
    if Overflows(size) {
      ReallocOverflows(s, n, size, k);
    } else {
      ReallocKeepsOthers(s, a, n, size);
    }
  }

  lemma ReallocOverflows(s: State, n: nat, size: nat, k: nat)
    requires Inv(s) && k + 1 < |s.blocks| && Payload(s.blocks, k) == n && Overflows(size) && size <= WRAP - 4
    ensures Inv(Realloc(s, s.blocks[k].at, size).0) <==> s.blocks[k + 1].used
  {
    IndexIs(s.blocks, s.pool, k);
    GrowingOverflows(s, k, size);
    Increasing(s.blocks, s.pool, k, |s.blocks| - 1);
    if k + 1 < |s.blocks| - 1 { Increasing(s.blocks, s.pool, k + 1, |s.blocks| - 1); }
    FreeSumBounds(s.blocks, s.pool, 0);
    assert s.blocks[0..] == s.blocks;
    hide GrowBlock, FreeSum, Has, Coalesced;
  }

  /** The sizes that overflow are those of the last sixteen bytes below 2^32 that do not round to zero. */
  lemma SizesThatOverflow(bytes: nat)
    requires bytes < WRAP
    ensures Overflows(Request(bytes)) <==> WRAP - 16 < bytes <= WRAP - 4
  {
  }

  /** A run to such a call: a block of twelve bytes in a pool of a thousand is to grow to almost 2^32. */
  lemma ReallocCanBreakThePool()
    ensures var s := Apply(Init(1000), Allocate(12));
            && Inv(s) && IsLive(s.blocks, 0, 12)
            && !Inv(Apply(s, Reallocate(0, WRAP - 8)))
  {
    InitIsInv(1000);
    FirstOfThousand();
    hide Inv, Apply, IsLive;
    CallIsExact(Init(1000), Allocate(12));
    GrowingTheFirst(Apply(Init(1000), Allocate(12)));
  }

  lemma GrowingTheFirst(s: State)
    requires Inv(s) && s.blocks == [Block(0, true), Block(36, false), Block(976, true)]
    ensures IsLive(s.blocks, 0, 12) && !Inv(Apply(s, Reallocate(0, WRAP - 8)))
  {
    assert LiveBlock(s.blocks, 0, 0, 12);
    assert IndexOf(s.blocks, 0) == 0;
    hide Inv, Realloc, IsLive;
    ReallocIsSafe(s, 0, 12, WRAP - 8);
  }

  lemma FirstOfThousand()
    ensures Apply(Init(1000), Allocate(12)).blocks == [Block(0, true), Block(36, false), Block(976, true)]
  {
    var start := Init(1000);
    assert SizeAt(start.blocks, start.free[0]) == 952;
    assert FirstFit(start.blocks, start.free, 12) == 0;
  }

  lemma ChangeAt(s: State, r: State, a: nat, live: bool, m: int, b: nat, n: nat)
    requires OnlyChanges(s, r, a, live, m)
    ensures IsLive(r.blocks, b, n) <==> if b == a then live && n == m else IsLive(s.blocks, b, n)
  {
  }

  lemma ReallocMoves(s: State, a: nat, n: nat, size: nat)
    requires Inv(s) && IsLive(s.blocks, a, n) && size >= MINIALLOC && Alloc(s, size).1.Ptr?
    ensures var (t, p) := Alloc(s, size);
            var r := Free(t, a);
            && Inv(r) && r.pool == s.pool
            && Resized(s, r, a, p.header, size)
  {
    AllocIsExact(s, size);
    AllocGivesOne(s, size);
    var (t, p) := Alloc(s, size);
    PoolStays(s, size);
    PoolStaysFree(t, a);
    assert !IsLive(s.blocks, p.header, n);
    var m: nat :| m >= size && OnlyChanges(s, t, p.header, true, m);
    hide Inv, IsLive, Alloc, Free, OnlyChanges;
    ChangeAt(s, t, p.header, true, m, a, n);
    FreeTakesOne(t, a, n);
    var r := Free(t, a);
    forall b: nat, l: nat
      ensures IsLive(r.blocks, b, l) <==> if b == p.header then l == m else b != a && IsLive(s.blocks, b, l)
    {
      ChangeAt(s, t, p.header, true, m, b, l);
      ChangeAt(t, r, a, false, 0, b, l);
    }
    assert Replaced(s, r, a, p.header, m);
  }

  /** A call keeps the invariant if and only if it is no reallocation that overflows with a free block behind. */
  lemma CallIsExact(s: State, c: Call)
    requires Inv(s) && Enabled(s, c)
    ensures Inv(Apply(s, c)) <==> Safe(s, c)
    ensures Safe(s, c) ==> Apply(s, c).pool == s.pool
  {
    hide Inv, IsLive, Alloc, Free, Realloc, Request;
    if c.Reallocate? && c.bytes > 0 {
      var n: nat :| IsLive(s.blocks, c.a, n);
      AtLeastMinimum(c.bytes);
      ReallocIsSafe(s, c.a, n, c.bytes);
      if Safe(s, c) {
        ReallocKeepsOthers(s, c.a, n, Request(c.bytes));
      }
    } else if c.Allocate? {
      AtLeastMinimum(c.bytes);
      AllocIsExact(s, Request(c.bytes));
      PoolStays(s, Request(c.bytes));
    } else {
      var n: nat :| IsLive(s.blocks, c.a, n);
      FreeTakesOne(s, c.a, n);
      PoolStaysFree(s, c.a);
    }
  }

  lemma PoolStays(s: State, size: nat)
    ensures Alloc(s, size).0.pool == s.pool
  {
  }

  lemma PoolStaysFree(s: State, a: nat)
    ensures Free(s, a).pool == s.pool
  {
  }

  ghost predicate Leads(s: State, calls: seq<Call>, r: State)
    decreases |calls|
  {
    if calls == [] then r == s else Enabled(s, calls[0]) && Leads(Apply(s, calls[0]), calls[1..], r)
  }

  /** rt_memheap_init. */
  function Init(pool: nat): State
    requires pool >= 2 * HEADER
  {
    State([Block(0, false), Block(pool - HEADER, true)], [0], pool, pool - 2 * HEADER, 2 * HEADER)
  }

  lemma InitIsInv(pool: nat)
    requires 2 * HEADER + MINIALLOC <= pool < WRAP
    ensures Inv(Init(pool))
  {
    var s := Init(pool);
    assert s.blocks[0] == Block(0, false) && s.blocks[1..] == [Block(pool - HEADER, true)];
  }

  ghost predicate InvThroughout(s: State, calls: seq<Call>)
    decreases |calls|
  {
    Inv(s) && (calls != [] ==> Enabled(s, calls[0]) && InvThroughout(Apply(s, calls[0]), calls[1..]))
  }

  ghost predicate SafeRun(s: State, calls: seq<Call>)
    decreases |calls|
  {
    calls != [] ==> Enabled(s, calls[0]) && Safe(s, calls[0]) && SafeRun(Apply(s, calls[0]), calls[1..])
  }

  /** The invariant holds in every state of a run if and only if no call of it is such a reallocation. */
  lemma {:induction false} RunIsExact(s: State, calls: seq<Call>, r: State)
    requires Inv(s) && Leads(s, calls, r)
    ensures InvThroughout(s, calls) <==> SafeRun(s, calls)
    ensures SafeRun(s, calls) ==> Inv(r) && r.pool == s.pool
    decreases |calls|
  {
    hide Inv, Apply, Enabled, Safe;
    if calls != [] {
      CallIsExact(s, calls[0]);
      if Safe(s, calls[0]) {
        RunIsExact(Apply(s, calls[0]), calls[1..], r);
      }
    }
  }

  // ---------- The running maximum ----------

  function InUse(s: State): int { s.pool - s.available }

  /** The state in the middle of a call, where the lock is free: between the allocation and the release of
      a moving reallocation. */
  function Middle(s: State, c: Call): seq<State> {
    if c.Reallocate? && c.bytes > 0 && Moves(s, c.a, Request(c.bytes)) then [Alloc(s, Request(c.bytes)).0] else []
  }

  predicate Moves(s: State, a: nat, size: nat) {
    var k := IndexOf(s.blocks, a);
    && k + 1 < |s.blocks| && size > Payload(s.blocks, k) && !GrowsInPlace(s, k, size) && Alloc(s, size).1.Ptr?
  }

  /** All states a run passes, in order. */
  function History(s: State, calls: seq<Call>): seq<State>
    decreases |calls|
  {
    if calls == [] then [s] else [s] + Middle(s, calls[0]) + History(Apply(s, calls[0]), calls[1..])
  }

  /** The statistics of r are kept from s through a call, given the state in its middle. */
  ghost predicate Keeps(s: State, middle: seq<State>, r: State) {
    && s.maxUsed <= r.maxUsed && (forall i :: 0 <= i < |middle| ==> InUse(middle[i]) <= r.maxUsed)
    && (r.maxUsed == s.maxUsed || r.maxUsed == InUse(r) || exists i :: 0 <= i < |middle| && r.maxUsed == InUse(middle[i]))
  }

  lemma CallKeepsMaximum(s: State, c: Call)
    requires Inv(s) && Enabled(s, c) && Safe(s, c)
    ensures Keeps(s, Middle(s, c), Apply(s, c))
  {
    hide IsLive, Alloc, Free, Realloc, Moves, FreeSum, Has, Request;
    match c
    case Allocate(bytes) =>
      AtLeastMinimum(bytes);
      AllocIsExact(s, Request(bytes));
      PoolStays(s, Request(bytes));
    case Release(a) =>
      var n: nat :| IsLive(s.blocks, a, n);
      FreeTakesOne(s, a, n);
    case Reallocate(a, bytes) =>
      var n: nat :| IsLive(s.blocks, a, n);
      if bytes == 0 {
        FreeTakesOne(s, a, n);
      } else {
        AtLeastMinimum(bytes);
        ReallocKeepsMaximum(s, a, n, Request(bytes));
      }
  }

  lemma AtLeastMinimum(bytes: nat)
    ensures Request(bytes) >= MINIALLOC
  {
  }

  lemma ReallocKeepsMaximum(s: State, a: nat, n: nat, size: nat)
    requires Inv(s) && IsLive(s.blocks, a, n) && size >= MINIALLOC && SafeSize(s, a, size)
    ensures Keeps(s, if Moves(s, a, size) then [Alloc(s, size).0] else [], Realloc(s, a, size).0)
  {
    LiveIndex(s, a, n);
    var k := IndexOf(s.blocks, a);
    GrowsIfSafe(s, k, size);
    ReallocBranches(s, a, size, k);
    hide Realloc, IsLive, FreeSum, Has, GrowsInPlace;
    if size <= n {
      if CanShrink(s, k, size) {
        ShrinkKeepsInv(s, k, size);
        hide Inv, ShrinkBlock;
      }
    } else if CanExpand(s, k, size) {
      ExpandKeepsInv(s, k, size);
      hide Inv, ExpandBlock, GrowBlock;
    } else {
      MovingKeepsMaximum(s, a, n, size);
      hide Inv, Alloc, Free;
    }
  }

  lemma ReallocBranches(s: State, a: nat, size: nat, k: nat)
    requires k == IndexOf(s.blocks, a) && k + 1 < |s.blocks|
    ensures size <= Payload(s.blocks, k) ==>
              Realloc(s, a, size) == (if CanShrink(s, k, size) then ShrinkBlock(s, k, size) else s, Ptr(a))
    ensures GrowsInPlace(s, k, size) ==> Realloc(s, a, size) == (GrowBlock(s, k, size), Ptr(a))
    ensures size > Payload(s.blocks, k) && !GrowsInPlace(s, k, size) ==>
              var (t, p) := Alloc(s, size);
              Realloc(s, a, size) == if p.Null? then (t, p) else (Free(t, a), p)
  {
    hide Alloc, Free, GrowBlock, ShrinkBlock;
  }

  lemma MovingKeepsMaximum(s: State, a: nat, n: nat, size: nat)
    requires Inv(s) && IsLive(s.blocks, a, n) && size >= MINIALLOC
    ensures var (t, p) := Alloc(s, size);
            if p.Ptr? then Keeps(s, [t], Free(t, a)) else t == s
  {
    hide IsLive, FreeSum, Has, Free;
    AllocIsExact(s, size);
    var (t, p) := Alloc(s, size);
    if p.Ptr? {
      AllocKeepsLive(s, size, a, n);
      hide Inv, Alloc;
      FreeTakesOne(t, a, n);
      assert t == [t][0];
    }
  }

  lemma AllocKeepsLive(s: State, size: nat, a: nat, n: nat)
    requires Inv(s) && size >= MINIALLOC && IsLive(s.blocks, a, n) && Alloc(s, size).1.Ptr?
    ensures IsLive(Alloc(s, size).0.blocks, a, n)
  {
    AllocGivesOne(s, size);
    var (r, p) := Alloc(s, size);
    assert !IsLive(s.blocks, p.header, n);
    var m: nat :| m >= size && OnlyChanges(s, r, p.header, true, m);
    hide IsLive, Alloc, Inv;
    ChangeAt(s, r, p.header, true, m, a, n);
  }

  lemma {:induction false} RunKeepsMaximum(s: State, calls: seq<Call>, r: State)
    requires Inv(s) && Leads(s, calls, r) && SafeRun(s, calls)
    ensures s.maxUsed <= r.maxUsed && forall h :: h in History(s, calls) ==> InUse(h) <= r.maxUsed
    ensures r.maxUsed == s.maxUsed || exists h :: h in History(s, calls) && InUse(h) == r.maxUsed
    decreases |calls|
  {
    assert InUse(s) <= s.maxUsed;
    hide Inv, Apply, Enabled, Safe, Middle;
    if calls != [] {
      var t, middle, rest := Apply(s, calls[0]), Middle(s, calls[0]), History(Apply(s, calls[0]), calls[1..]);
      CallIsExact(s, calls[0]);
      CallKeepsMaximum(s, calls[0]);
      RunKeepsMaximum(t, calls[1..], r);
      assert t in rest && History(s, calls) == [s] + middle + rest;
    }
  }

  /** After every run max_used_size is the largest amount that was in use in any state the run passed,
      including the middle of a moving reallocation. */
  lemma MaximumIsExact(pool: nat, calls: seq<Call>, r: State)
    requires 2 * HEADER + MINIALLOC <= pool < WRAP && Leads(Init(pool), calls, r) && SafeRun(Init(pool), calls)
    ensures forall h :: h in History(Init(pool), calls) ==> InUse(h) <= r.maxUsed
    ensures exists h :: h in History(Init(pool), calls) && InUse(h) == r.maxUsed
  {
    InitIsInv(pool);
    RunKeepsMaximum(Init(pool), calls, r);
    assert History(Init(pool), calls)[0] == Init(pool) && InUse(Init(pool)) == Init(pool).maxUsed;
  }

  /** Whatever was allocated, resized and released in between: once nothing is live the pool is the one
      free block it was at the start, and all of it is available again. */
  lemma ReleasingAllRestoresThePool(pool: nat, calls: seq<Call>, r: State)
    requires 2 * HEADER + MINIALLOC <= pool < WRAP && Leads(Init(pool), calls, r) && SafeRun(Init(pool), calls)
    requires forall a: nat, n: nat :: !IsLive(r.blocks, a, n)
    ensures r.blocks == Init(pool).blocks && r.free == [0] && r.available == Init(pool).available
  {
    InitIsInv(pool);
    RunIsExact(Init(pool), calls, r);
    var bs := r.blocks;
    forall i | 0 <= i < |bs| - 1 ensures !bs[i].used {
      if bs[i].used {
        UsedIsLive(bs, pool, i);
      }
    }
    assert |bs| == 2;
    assert bs == [Block(0, false), Block(pool - HEADER, true)];
    assert bs[1..] == [Block(pool - HEADER, true)];
    assert Has(bs, 0, false);
    OnlyZero(r.free);
  }

  lemma UsedIsLive(bs: Layout, pool: nat, i: nat)
    requires Tiles(bs, pool) && i + 1 < |bs| && bs[i].used
    ensures exists n: nat :: IsLive(bs, bs[i].at, n)
  {
    assert LiveBlock(bs, i, bs[i].at, Payload(bs, i));
    assert IsLive(bs, bs[i].at, Payload(bs, i));
  }

  lemma OnlyZero(free: seq<nat>)
    requires Distinct(free) && 0 in free && forall a: nat :: a in free ==> a == 0
    ensures free == [0]
  {
    Pigeonhole(free, 1);
  }

  /** RT_ALIGN works on 32 bits: the rounded size reaches the request exactly if it does not wrap, and a
      larger request is treated as the smallest. */
  lemma RequestsThatWrap(bytes: nat)
    requires bytes < WRAP
    ensures Request(bytes) >= bytes <==> bytes <= WRAP - 4
    ensures bytes > WRAP - 4 ==> Request(bytes) == MINIALLOC
  {
  }
}
