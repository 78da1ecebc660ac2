/** struct rt_memheap of os/rt-thread-nano/src/memheap.c and the links in its item headers. The items are
    named by their addresses; the header of the free list is named by the address behind the pool. */
module MemHeapObject {
  import opened Lists
  import opened Rings
  import opened MemHeap

  /** The addresses of the blocks behind the first one, which is the head of the block list. */
  function Others(bs: Layout): (nodes: seq<nat>)
    requires bs != []
    ensures |nodes| == |bs| - 1 && forall i :: 0 <= i < |nodes| ==> nodes[i] == bs[i + 1].at
  {
    seq(|bs| - 1, i requires 0 <= i < |bs| - 1 => bs[i + 1].at)
  }

  lemma OthersAt(bs: Layout, i: nat)
    requires bs != [] && bs[0].at == 0 && i <= |bs|
    ensures NodeAt(0, Others(bs), i) == if i < |bs| then bs[i].at else 0
  {
  }

  lemma OthersAfterCut(bs: Layout, k: nat, size: nat)
    requires k < |bs|
    ensures Others(Cut(bs, k, size)) == InsertAt(Others(bs), k, bs[k].at + HEADER + size)
  {
  }

  lemma OthersAfterJoin(bs: Layout, k: nat)
    requires 0 < k < |bs|
    ensures Others(Joined(bs, k)) == Others(bs)[..k - 1] + Others(bs)[k..]
  {
  }

  class Pool {
    const poolSize: nat
    var items: Links          // next and prev of every item
    var frees: Links          // next_free and prev_free
    var used: seq<bool>       // RT_MEMHEAP_USED
    var availableSize: int
    var maxUsedSize: int

    ghost var blocks: Layout
    ghost var free: seq<nat>

    ghost function Abs(): State
      reads this
    {
      State(blocks, free, poolSize, availableSize, maxUsedSize)
    }

    /** The links spell out both lists. */
    ghost predicate Linked()
      reads `items, `frees, `used, `blocks, `free
    {
      && |used| == poolSize && |items.next| == poolSize && |frees.next| == poolSize + 1
      && blocks != [] && blocks[0].at == 0
      && Ring(items, 0, Others(blocks)) && Ring(frees, poolSize, free)
      && forall i :: 0 <= i < |blocks| ==> blocks[i].at < poolSize && used[blocks[i].at] == blocks[i].used
    }

    ghost predicate Valid()
      reads this
    {
      Linked() && Inv(Abs())
    }

    /** rt_memheap_init. */
    constructor (poolSize: nat)
      requires 2 * HEADER + MINIALLOC <= poolSize < WRAP
      ensures Valid() && Abs() == Init(poolSize)
    {
      this.poolSize := poolSize;
      var tail := poolSize - HEADER;
      var zeros := seq(poolSize, _ => 0);
      items := Links(zeros[0 := tail][tail := 0], zeros[0 := tail][tail := 0]);
      var none := seq(poolSize + 1, _ => 0);
      frees := Links(none[0 := poolSize][poolSize := 0], none[0 := poolSize][poolSize := 0]);
      used := seq(poolSize, i => i == tail);
      availableSize := poolSize - 2 * HEADER;
      maxUsedSize := poolSize - (poolSize - 2 * HEADER);
      blocks, free := Init(poolSize).blocks, [0];
      new;
      InitIsInv(poolSize);
    }

    lemma NextItem(k: nat)
      requires Linked() && k < |blocks|
      ensures items.next[blocks[k].at] == if k + 1 < |blocks| then blocks[k + 1].at else 0
      ensures k + 1 < |blocks| ==> items.prev[blocks[k + 1].at] == blocks[k].at
      ensures k == 0 ==> items.prev[0] == blocks[|blocks| - 1].at
    {
      OthersAt(blocks, k);
      OthersAt(blocks, k + 1);
      assert Adjacent(items, NodeAt(0, Others(blocks), k), NodeAt(0, Others(blocks), k + 1));
      OthersAt(blocks, |blocks| - 1);
      assert Adjacent(items, NodeAt(0, Others(blocks), |blocks| - 1), NodeAt(0, Others(blocks), |blocks|));
    }

    /** MEMITEM_SIZE. */
    method ItemSize(item: nat, ghost k: nat) returns (size: int)
      requires Linked() && k + 1 < |blocks| && item == blocks[k].at
      ensures size == Payload(blocks, k)
    {
      NextItem(k);
      size := items.next[item] - item - HEADER;
    }

    lemma NextFree(f: nat)
      requires Linked() && f <= |free|
      ensures NodeAt(poolSize, free, f) <= poolSize && frees.next[NodeAt(poolSize, free, f)] == NodeAt(poolSize, free, f + 1)
      ensures f < |free| ==> NodeAt(poolSize, free, f + 1) == free[f] && free[f] != poolSize && free[f] in free
    {
      assert Adjacent(frees, NodeAt(poolSize, free, f), NodeAt(poolSize, free, f + 1));
    }

    method FreeAfter(node: nat, ghost f: nat) returns (n: nat)
      requires Linked() && f <= |free| && node == NodeAt(poolSize, free, f)
      ensures n == NodeAt(poolSize, free, f + 1)
    {
      NextFree(f);
      n := frees.next[node];
    }

    /** Search the free list for the first block that is large enough. */
    method Search(size: nat) returns (header: nat)
      requires Valid()
      ensures var f := FirstFit(blocks, free, size); header == if f < |free| then free[f] else poolSize
    {
      hide Linked, Ring, Inv, SizeAt, NodeAt, IndexOf, FirstFit;
      ghost var f := 0;
      assert free[0..] == free;
      HeadAt(poolSize, free);
      header := FreeAfter(poolSize, 0);
      while header != poolSize
        invariant f <= |free| && header == NodeAt(poolSize, free, f + 1)
        invariant FirstFit(blocks, free, size) == f + FirstFit(blocks, free[f..], size)
        decreases |free| - f
      {
        HeadAt(poolSize, free);
        NextFree(f);
        FreeNodeIsBlock(Abs(), header);
        FirstFitStep(blocks, free, f, size);
        ghost var k := IndexOf(blocks, header);
        SizeOfBlock(blocks, header);
        var freeSize := ItemSize(header, k);
        if freeSize >= size {
          return;
        }
        header := FreeAfter(header, f + 1);
        f := f + 1;
      }
      NextFree(f);
      FirstFitStep(blocks, free, f, size);
    }

    // ---------- The writes the operations are made of ----------

    /** Put an item at the front of the free list. */
    method PushFree(x: nat)
      requires Linked() && x < poolSize && x !in free
      modifies `frees, `free
      ensures Linked() && free == [x] + old(free)
    {
      RingInsert(frees, poolSize, free, 0, x);
      HeadAt(poolSize, free);
      frees := InsertAfter(frees, poolSize, x);
      assert InsertAt(free, 0, x) == [x] + free;
      free := [x] + free;
    }

    /** Take an item off the free list. */
    method DropFree(x: nat)
      requires Linked() && x in free
      modifies `frees, `free
      ensures Linked() && free == Without(old(free), x)
    {
      ghost var f :| 0 <= f < |free| && free[f] == x;
      RingBypass(frees, poolSize, free, f);
      WithoutAt(free, f);
      frees := Bypass(frees, x);
      free := Without(free, x);
    }

    /** Write the header of a block that is cut off the end of block k. */
    method SplitItem(header: nat, size: nat, ghost k: nat)
      requires Linked() && Tiles(blocks, poolSize) && k + 1 < |blocks| && header == blocks[k].at
      requires MINIALLOC <= size && size + HEADER + MINIALLOC <= Payload(blocks, k)
      modifies `items, `used, `blocks
      ensures Linked() && blocks == Cut(old(blocks), k, size)
    {
      var x := header + size + HEADER;
      ghost var bs := blocks;
      NotAnItem(bs, poolSize, k, x);
      OthersAt(bs, k);
      RingInsert(items, 0, Others(bs), k, x);
      OthersAfterCut(bs, k, size);
      items := InsertAfter(items, header, x);
      used := used[x := false];
      blocks := Cut(bs, k, size);
      hide Ring, Tiles;
      forall i | 0 <= i < |blocks| ensures blocks[i].at < poolSize && used[blocks[i].at] == blocks[i].used {
        CutIndex(bs, k, size, i);
      }
      CutIndex(bs, k, size, 0);
    }

    /** Block k becomes part of the block before it. */
    method MergeItem(item: nat, ghost k: nat)
      requires Linked() && 0 < k < |blocks| && item == blocks[k].at
      modifies `items, `blocks
      ensures Linked() && blocks == Joined(old(blocks), k)
    {
      ghost var bs := blocks;
      RingBypass(items, 0, Others(bs), k - 1);
      OthersAfterJoin(bs, k);
      items := Bypass(items, item);
      blocks := Joined(bs, k);
      hide Ring;
      forall i | 0 <= i < |blocks| ensures blocks[i].at < poolSize && used[blocks[i].at] == blocks[i].used {
        JoinedIndex(bs, k, i);
      }
      JoinedIndex(bs, k, 0);
    }

    method SetUsed(item: nat, flag: bool, ghost k: nat)
      requires Linked() && Tiles(blocks, poolSize) && k < |blocks| && item == blocks[k].at
      modifies `used, `blocks
      ensures Linked() && blocks == Flagged(old(blocks), k, flag)
    {
      ghost var bs := blocks;
      used := used[item := flag];
      blocks := Flagged(bs, k, flag);
      assert Others(blocks) == Others(bs);
      hide Ring;
      forall i | 0 <= i < |blocks| ensures blocks[i].at < poolSize && used[blocks[i].at] == blocks[i].used {
        if i != k {
          DifferentItems(bs, poolSize, i, k);
        }
      }
    }

    // ---------- The operations ----------

    /** Hand out a free block, and free its end again if that is large enough. */
    method TakeItem(header: nat, size: nat, ghost k: nat)
      requires Valid() && k + 1 < |blocks| && header == blocks[k].at && !blocks[k].used && MINIALLOC <= size <= Payload(blocks, k)
      modifies this
      ensures Valid() && Abs() == TakeBlock(old(Abs()), k, size)
    {
      ghost var s := Abs();
      TakeBlockKeepsInv(s, k, size);
      FreeIsListed(s, k);
      NotAFreeItem(s, k, header + HEADER + size);
      var freeSize := ItemSize(header, k);
      hide Inv, TakeBlock, FreeSum;
      ClaimItem(header, k);
      DivideItem(header, size, freeSize, k, s);
    }

    /** What remains to be done when the block is taken. */
    method DivideItem(header: nat, size: nat, freeSize: int, ghost k: nat, ghost s: State)
      requires Linked() && Tiles(blocks, poolSize) && k + 1 < |s.blocks| && header == s.blocks[k].at
      requires Abs() == s.(blocks := Flagged(s.blocks, k, true), free := Without(s.free, header))
      requires MINIALLOC <= size <= freeSize == Payload(s.blocks, k)
      requires header + HEADER + size < s.blocks[k + 1].at ==> header + HEADER + size !in s.free
      modifies this
      ensures Linked() && Abs() == TakeBlock(s, k, size)
    {
      hide Linked, Tiles, Cut, Without;
      if freeSize >= size + HEADER + MINIALLOC {
        CutFree(header, size, k);
        availableSize := availableSize - size - HEADER;
      } else {
        availableSize := availableSize - freeSize;
      }
      maxUsedSize := if poolSize - availableSize > maxUsedSize then poolSize - availableSize else maxUsedSize;
    }

    /** The end of a block is cut off and put at the front of the free list. */
    method CutFree(header: nat, size: nat, ghost k: nat)
      requires Linked() && Tiles(blocks, poolSize) && k + 1 < |blocks| && header == blocks[k].at
      requires MINIALLOC <= size && size + HEADER + MINIALLOC <= Payload(blocks, k)
      requires header + HEADER + size !in free
      modifies `items, `used, `blocks, `frees, `free
      ensures Linked() && blocks == Cut(old(blocks), k, size) && free == [header + HEADER + size] + old(free)
    {
      NotAnItem(blocks, poolSize, k, header + HEADER + size);
      hide Linked, Cut, Tiles;
      SplitItem(header, size, k);
      PushFree(header + size + HEADER);
    }

    /** A free block leaves the free list and is marked used. */
    method ClaimItem(header: nat, ghost k: nat)
      requires Linked() && Tiles(blocks, poolSize) && k + 1 < |blocks| && header == blocks[k].at && header in free
      modifies `used, `blocks, `frees, `free
      ensures Linked() && Tiles(blocks, poolSize)
      ensures blocks == Flagged(old(blocks), k, true) && free == Without(old(free), header)
    {
      FlaggedTiles(blocks, poolSize, k, true);
      hide Linked, Tiles, FreeSum;
      SetUsed(header, true, k);
      DropFree(header);
    }

    /** rt_memheap_alloc of an aligned size. */
    method Alloc(size: nat) returns (p: Pointer)
      requires Valid() && size >= MINIALLOC
      modifies this
      ensures Valid() && (Abs(), p) == MemHeap.Alloc(old(Abs()), size)
    {
      p := Null;
      if size < availableSize {
        var header := Search(size);
        if header != poolSize {
          FreeNodeIsBlock(Abs(), header);
          SizeOfBlock(blocks, header);
          hide Inv, Linked, TakeBlock;
          ghost var k := IndexOf(blocks, header);
          TakeItem(header, size, k);
          p := Ptr(header);
        }
      }
    }

    /** rt_memheap_free: the block joins free neighbours, and goes on the free list if the one before it
        is not free. */
    method FreeItem(header: nat, ghost k: nat)
      requires Valid() && k + 1 < |blocks| && header == blocks[k].at && blocks[k].used
      modifies this
      ensures Valid() && Abs() == FreeBlock(old(Abs()), k)
    {
      ghost var s := Abs();
      FreeBlockKeepsInv(s, k);
      assert Tiles(blocks, poolSize);
      HalfFreedItems(s, k);
      hide Inv, FreeSum, CoalescedBut, Linked, Tiles, Has;
      var item, insert := FreeLeft(header, k);
      ghost var (t, j) := JoinLeft(s, k);
      hide JoinLeft, JoinRight;
      FreeRight(item, j, insert, t);
    }

    /** Whether the item before another is used; before the first one comes the tailer. */
    method Previous(header: nat, ghost k: nat) returns (prev: int, prevUsed: bool)
      requires Linked() && Tiles(blocks, poolSize) && k + 1 < |blocks| && header == blocks[k].at
      ensures prevUsed <==> (k > 0 ==> blocks[k - 1].used)
      ensures k > 0 ==> prev == blocks[k - 1].at
    {
      NextItem(k);
      if k > 0 { NextItem(k - 1); }
      prev := items.prev[header];
      prevUsed := used[prev];
    }

    method FreeLeft(header: nat, ghost k: nat) returns (item: nat, insert: bool)
      requires Linked() && Tiles(blocks, poolSize) && k + 1 < |blocks| && header == blocks[k].at && blocks[k].used
      modifies `items, `used, `blocks, `availableSize
      ensures Linked()
      ensures var (t, j) := JoinLeft(old(Abs()), k);
              && j < |t.blocks| && blocks == t.blocks && item == blocks[j].at && availableSize == t.available
              && t.free == if insert then [item] + free else free
    {
      ghost var bs := blocks;
      FlaggedTiles(bs, poolSize, k, false);
      hide Linked, Tiles, FreeSum;
      var size := ItemSize(header, k);
      var prev, prevUsed := Previous(header, k);
      SetUsed(header, false, k);
      availableSize := availableSize + size;
      item, insert := header, true;
      if !prevUsed {
        availableSize := availableSize + HEADER;
        MergeItem(header, k);
        item, insert := prev, false;
      }
    }

    method FreeRight(item: nat, ghost j: nat, insert: bool, ghost t: State)
      requires Linked() && j + 1 < |blocks| && item == blocks[j].at && !blocks[j].used
      requires Abs() == t.(free := free) && t.free == (if insert then [item] + free else free)
      requires item < poolSize && (insert ==> item !in free) && j + 2 <= |blocks|
      requires !blocks[j + 1].used ==> blocks[j + 1].at in free && blocks[j + 1].at != item
      modifies this
      ensures Linked() && Abs() == JoinRight(t, j)
    {
      NextItem(j);
      var next := items.next[item];
      assert used[next] == blocks[j + 1].used;
      hide Linked, Joined;
      if !used[next] {
        availableSize := availableSize + HEADER;
        MergeItem(next, j + 1);
        DropFree(next);
        assert insert ==> Without([item] + old(free), next) == [item] + Without(old(free), next);
      }
      if insert {
        PushFree(item);
      }
    }

    /** rt_memheap_free of a live block. */
    method Free(header: nat, ghost n: nat)
      requires Valid() && IsLive(blocks, header, n)
      modifies this
      ensures Valid() && Abs() == MemHeap.Free(old(Abs()), header)
    {
      LiveIndex(Abs(), header, n);
      hide Inv, Linked, IsLive, FreeBlock;
      FreeItem(header, IndexOf(blocks, header));
    }

    /** The block grows into the free one behind it, the rest of which becomes a new free block. */
    method ExpandItem(header: nat, size: nat, oldSize: int, ghost k: nat)
      requires Valid() && CanExpand(Abs(), k, size) && blocks[k].used && header == blocks[k].at
      requires size >= MINIALLOC && oldSize == Payload(blocks, k)
      modifies this
      ensures Valid() && Abs() == ExpandBlock(old(Abs()), k, size)
    {
      ghost var s := Abs();
      hide Inv, Linked, Tiles, FreeSum, Joined, Cut, Without;
      ExpandKeepsInv(s, k, size);
      FreeIsListed(s, k + 1);
      ExpandRoom(s, k, size);
      var next := ItemBehind(header, k);
      MoveBoundary(header, size, next, k);
      availableSize := availableSize - (size - oldSize);
      maxUsedSize := if poolSize - availableSize > maxUsedSize then poolSize - availableSize else maxUsedSize;
    }

    method ItemBehind(header: nat, ghost k: nat) returns (next: nat)
      requires Linked() && k + 1 < |blocks| && header == blocks[k].at
      ensures next == blocks[k + 1].at
    {
      NextItem(k);
      next := items.next[header];
    }

    method MoveBoundary(header: nat, size: nat, next: nat, ghost k: nat)
      requires Linked() && k + 2 < |blocks| && header == blocks[k].at && next == blocks[k + 1].at && next in free
      requires Tiles(Joined(blocks, k + 1), poolSize) && size >= MINIALLOC
      requires header + HEADER + size !in Without(free, next)
      requires var j := Joined(blocks, k + 1); k + 1 < |j| && j[k].at == header && size + HEADER + MINIALLOC <= Payload(j, k)
      modifies `items, `used, `blocks, `frees, `free
      ensures Linked() && blocks == Cut(Joined(old(blocks), k + 1), k, size)
      ensures free == [header + HEADER + size] + Without(old(free), next)
    {
      hide Linked, Tiles, Joined, Cut, Without;
      DropFree(next);
      ghost var rest := free;
      assert rest == Without(old(free), next);
      MergeItem(next, k + 1);
      CutFree(header, size, k);
      assert free == [header + HEADER + size] + rest;
    }

    /** The end of the block becomes a free block, and swallows a free one behind it. */
    method ShrinkItem(header: nat, size: nat, ghost k: nat)
      requires Valid() && CanShrink(Abs(), k, size) && blocks[k].used && header == blocks[k].at && size >= MINIALLOC
      modifies this
      ensures Valid() && Abs() == ShrinkBlock(old(Abs()), k, size)
    {
      ghost var s := Abs();
      ShrinkKeepsInv(s, k, size);
      NotAFreeItem(s, k, header + HEADER + size);
      NotAnItem(blocks, poolSize, k, header + HEADER + size);
      NextItem(k);
      var next := items.next[header];
      var nextUsed := used[next];
      assert nextUsed == blocks[k + 1].used && (!nextUsed ==> k + 2 < |blocks|);
      if !nextUsed {
        FreeIsListed(s, k + 1);
      }
      hide Inv, Linked, FreeSum;
      var x := header + size + HEADER;
      if nextUsed {
        ShrinkAlone(header, size, next, k);
      } else {
        ShrinkInto(header, size, next, k);
      }
    }

    method ShrinkAlone(header: nat, size: nat, next: int, ghost k: nat)
      requires Linked() && Tiles(blocks, poolSize) && CanShrink(Abs(), k, size) && header == blocks[k].at && size >= MINIALLOC
      requires next == blocks[k + 1].at && blocks[k + 1].used && header + HEADER + size !in free
      modifies this
      ensures Linked() && Abs() == ShrinkBlock(old(Abs()), k, size)
    {
      hide Linked, Tiles, Cut;
      CutFree(header, size, k);
      availableSize := availableSize + (next - (header + size + HEADER) - HEADER);
    }

    method ShrinkInto(header: nat, size: nat, next: nat, ghost k: nat)
      requires Linked() && Tiles(blocks, poolSize) && CanShrink(Abs(), k, size) && header == blocks[k].at && size >= MINIALLOC
      requires k + 2 < |blocks| && next == blocks[k + 1].at && !blocks[k + 1].used && next in free
      requires header + HEADER + size !in free && header + HEADER + size < poolSize
      modifies this
      ensures Linked() && Abs() == ShrinkBlock(old(Abs()), k, size)
    {
      ghost var bs := blocks;
      hide Linked, Tiles, Cut, Joined, Without;
      CutThenJoin(bs, k, size);
      var nextSize := ItemSize(next, k + 1);
      SplitItem(header, size, k);
      availableSize := availableSize - nextSize;
      MergeItem(next, k + 2);
      DropFree(next);
      PushFree(header + size + HEADER);
      var newSize := ItemSize(header + size + HEADER, k + 1);
      availableSize := availableSize + newSize;
    }

    /** rt_memheap_realloc of a live block to an aligned size, unless the guard of the growing branch overflows
        with a free block behind (ReallocIsSafe); the contents are not part of this model. */
    method Realloc(header: nat, size: nat, ghost n: nat) returns (p: Pointer)
      requires Valid() && IsLive(blocks, header, n) && size >= MINIALLOC && SafeSize(Abs(), header, size)
      modifies this
      ensures Valid() && (Abs(), p) == MemHeap.Realloc(old(Abs()), header, size)
    {
      ghost var k := IndexOf(blocks, header);
      LiveIndex(Abs(), header, n);
      ReallocBranches(Abs(), header, size, k);
      var oldSize := ItemSize(header, k);
      if size > oldSize {
        p := Grow(header, size, oldSize, n, k);
      } else {
        hide Inv, Linked, IsLive, ShrinkBlock, MemHeap.Realloc, GrowBlock, MemHeap.Alloc, MemHeap.Free;
        p := Ptr(header);
        if size + HEADER + MINIALLOC < oldSize {
          ShrinkItem(header, size, k);
        }
      }
    }

    method Grow(header: nat, size: nat, oldSize: int, ghost n: nat, ghost k: nat) returns (p: Pointer)
      requires Valid() && IsLive(blocks, header, n) && k == IndexOf(blocks, header) && k + 1 < |blocks|
      requires LiveBlock(blocks, k, header, n) && oldSize == Payload(blocks, k) == n && size > oldSize
      requires size >= MINIALLOC && (blocks[k + 1].used || !Overflows(size))
      modifies this
      ensures Valid() && (Abs(), p) == MemHeap.Realloc(old(Abs()), header, size)
    {
      ghost var s := Abs();
      ReallocBranches(s, header, size, k);
      GrowsIfSafe(s, k, size);
      hide Inv, Linked, IsLive, CanExpand, GrowsInPlace, MemHeap.Alloc, MemHeap.Free, MemHeap.Realloc, ExpandBlock, GrowBlock;
      var grows := GuardHolds(header, size, oldSize, k);
      if grows {
        ExpandItem(header, size, oldSize, k);
        p := Ptr(header);
      } else {
        p := Move(header, size, n);
      }
    }

    method Move(header: nat, size: nat, ghost n: nat) returns (p: Pointer)
      requires Valid() && IsLive(blocks, header, n) && size >= MINIALLOC
      modifies this
      ensures Valid()
      ensures var (t, q) := MemHeap.Alloc(old(Abs()), size);
              p == q && Abs() == if p.Null? then t else MemHeap.Free(t, header)
    {
      ghost var s := Abs();
      hide Inv, Linked, IsLive, MemHeap.Alloc, MemHeap.Free;
      p := Alloc(size);
      if p != Null {
        AllocKeepsLive(s, size, header, n);
        Free(header, n);
      }
    }

    /** The guard of the growing branch, in 32-bit arithmetic. */
    method GuardHolds(header: nat, size: nat, oldSize: int, ghost k: nat) returns (holds: bool)
      requires Valid() && k + 1 < |blocks| && header == blocks[k].at && oldSize == Payload(blocks, k) && size > oldSize
      ensures holds <==> GrowsInPlace(Abs(), k, size)
    {
      NextItem(k);
      var next := items.next[header];
      if used[next] {
        return false;
      }
      assert k + 2 < |blocks|;
      hide Inv, Linked;
      var nextSize := ItemSize(next, k + 1);
      holds := nextSize + oldSize > (size + MINIALLOC) % WRAP;
    }
  }

  lemma CutThenJoin(bs: Layout, k: nat, size: nat)
    requires k + 2 < |bs|
    ensures Joined(Cut(bs, k, size), k + 2) == Cut(Joined(bs, k + 1), k, size)
    ensures |Cut(bs, k, size)| == |bs| + 1 && Cut(bs, k, size)[k + 2] == bs[k + 1]
    ensures var r := Cut(Joined(bs, k + 1), k, size);
            |r| == |bs| && r[k + 1].at == bs[k].at + HEADER + size && r[k + 2].at == bs[k + 2].at
  {
  }

  lemma ExpandRoom(s: State, k: nat, size: nat)
    requires Inv(s) && CanExpand(s, k, size) && size >= MINIALLOC
    ensures Tiles(Joined(s.blocks, k + 1), s.pool)
    ensures var j := Joined(s.blocks, k + 1);
            k + 1 < |j| && j[k].at == s.blocks[k].at && size + HEADER + MINIALLOC <= Payload(j, k)
    ensures s.blocks[k].at + HEADER + size !in Without(s.free, s.blocks[k + 1].at)
  {
    JoinedTiles(s.blocks, s.pool, k + 1);
    JoinedIsListed(s, k + 1);
    var j := Joined(s.blocks, k + 1);
    NoBlockInside(j, s.pool, k, s.blocks[k].at + HEADER + size);
  }

  /** What the second half of a release finds. */
  lemma HalfFreedItems(s: State, k: nat)
    requires Inv(s) && k + 1 < |s.blocks| && s.blocks[k].used
    ensures var (t, j) := JoinLeft(s, k);
            && j + 1 < |t.blocks| && !t.blocks[j].used && t.blocks[j].at < t.pool && Distinct(t.free)
            && (!t.blocks[j + 1].used ==> t.blocks[j + 1].at in t.free && t.blocks[j + 1].at != t.blocks[j].at)
  {
    if k > 0 && !s.blocks[k - 1].used { LeftJoined(s, k); } else { LeftPushed(s, k); }
    var (t, j) := JoinLeft(s, k);
    hide JoinLeft, FreeSum;
    Increasing(t.blocks, t.pool, j, j + 1);
    Increasing(t.blocks, t.pool, j, |t.blocks| - 1);
    assert !t.blocks[j + 1].used ==> Has(t.blocks, t.blocks[j + 1].at, false);
  }

  /** A free block is on the free list. */
  lemma FreeIsListed(s: State, k: nat)
    requires Inv(s) && k < |s.blocks| && !s.blocks[k].used
    ensures s.blocks[k].at in s.free
  {
    assert Has(s.blocks, s.blocks[k].at, false);
  }

  lemma NotAFreeItem(s: State, k: nat, x: nat)
    requires Inv(s) && k + 1 < |s.blocks| && s.blocks[k].at < x
    ensures x < s.blocks[k + 1].at ==> x !in s.free && x < s.pool
  {
    if x < s.blocks[k + 1].at {
      NoBlockInside(s.blocks, s.pool, k, x);
      NotAnItem(s.blocks, s.pool, k, x);
    }
  }

  lemma HeadAt(head: nat, nodes: seq<nat>)
    ensures NodeAt(head, nodes, 0) == head && NodeAt(head, nodes, |nodes| + 1) == head
  {
  }

  lemma FirstFitStep(bs: Layout, free: seq<nat>, f: nat, size: nat)
    requires f <= |free|
    ensures FirstFit(bs, free[f..], size)
         == if f == |free| || SizeAt(bs, free[f]) >= size then 0 else 1 + FirstFit(bs, free[f + 1..], size)
  {
    if f < |free| {
      assert free[f..][1..] == free[f + 1..];
    }
  }

  lemma SizeOfBlock(bs: Layout, a: nat)
    requires IndexOf(bs, a) + 1 < |bs|
    ensures SizeAt(bs, a) == Payload(bs, IndexOf(bs, a))
  {
  }

  lemma DifferentItems(bs: Layout, pool: nat, i: nat, k: nat)
    requires Tiles(bs, pool) && i < |bs| && k < |bs| && i != k
    ensures bs[i].at != bs[k].at
  {
    if bs[i].at == bs[k].at {
      OneBlockPerAddress(bs, pool, i, k);
    }
  }

  lemma NotAnItem(bs: Layout, pool: nat, k: nat, x: nat)
    requires Tiles(bs, pool) && k + 1 < |bs| && bs[k].at < x < bs[k + 1].at
    ensures x != 0 && x < pool && x !in Others(bs) && forall i :: 0 <= i < |bs| ==> bs[i].at != x
  {
    forall i | 0 <= i < |bs| ensures bs[i].at != x {
      if i < k { Increasing(bs, pool, i, k); } else if i > k + 1 { Increasing(bs, pool, k + 1, i); }
    }
    if k + 1 < |bs| - 1 { Increasing(bs, pool, k + 1, |bs| - 1); }
  }
}
