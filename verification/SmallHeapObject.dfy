/** os/rt-thread-nano/src/mem.c as an object over its word memory. */
module SmallHeapObject {
  import opened SmallHeap
  import opened SmallHeapProofs

  /** A pointer into the address space, as a word offset from the start of the heap. */
  datatype Pointer = Null | To(word: int)

  /** RT_ALIGN(size, 4) in 32-bit arithmetic, in words: it wraps to zero for the largest sizes. */
  function AlignedWords(bytes: nat): nat {
    (bytes + WORD_BYTES - 1) % WRAP / WORD_BYTES
  }

  function RequestWords(bytes: nat): nat {
    if AlignedWords(bytes) < MIN_SIZE then MIN_SIZE else AlignedWords(bytes)
  }

  /** The largest three requests below 2^32 round to zero, so that rt_malloc gives them the smallest block,
      and rt_realloc frees; all others get what they ask for. */
  lemma RequestsThatWrap(bytes: nat)
    requires bytes < WRAP
    ensures AlignedWords(bytes) == 0 <==> bytes == 0 || bytes > WRAP - WORD_BYTES
    ensures RequestWords(bytes) * WORD_BYTES >= bytes <==> bytes <= WRAP - WORD_BYTES
    ensures bytes > WRAP - WORD_BYTES ==> RequestWords(bytes) == MIN_SIZE
  {
  }

  lemma AlignedAgain(bytes: nat)
    requires bytes < WRAP
    ensures AlignedWords(bytes) * WORD_BYTES < WRAP
    ensures AlignedWords(AlignedWords(bytes) * WORD_BYTES) == AlignedWords(bytes)
    ensures RequestWords(AlignedWords(bytes) * WORD_BYTES) == RequestWords(bytes)
  {
  }

  function Larger(a: int, b: int): int { if a < b then b else a }

  /** A move to the front of block k; the maximum counts both allocations. */
  ghost predicate MovedTo(q: int, bs: Layout, k: nat, size: nat, max: int, newMax: int) {
    k + 1 < |bs| && q == bs[k].at + HEADER && newMax == Larger(max, UsedWords(Take(bs, k, size)))
  }

  /** The branches of rt_realloc that leave an allocation of n words where it is. */
  predicate Stays(n: nat, newSize: nat) { n == newSize || newSize + HEADER + MIN_SIZE < n }

  class Heap {
    var mem: array<int>
    var lfree: int
    var usedMem: int
    var maxMem: int
    const memSize: nat   // mem_size_aligned
    ghost var blocks: Layout

    ghost predicate Formed()
      reads this, mem
    {
      && memSize >= MIN_SIZE
      && mem.Length == memSize + 2 * HEADER
      && Represents(mem[..], blocks)
    }

    ghost predicate Valid()
      reads this, mem
    {
      && Formed()
      && Coalesced(blocks)
      && lfree == blocks[FirstFree(blocks)].at
      && usedMem == UsedWords(blocks) <= maxMem
    }

    function End(): nat { memSize + HEADER }

    /** rt_system_heap_init on a region that leaves at least MIN_SIZE for data. */
    constructor (memSize: nat)
      requires memSize >= MIN_SIZE
      ensures Valid() && fresh(mem) && this.memSize == memSize
      ensures blocks == [Block(0, false), Block(memSize + HEADER, true)]
      ensures usedMem == maxMem == 0
    {
      var end := memSize + HEADER;
      this.memSize := memSize;
      mem := new int[memSize + 2 * HEADER](i => 0);
      lfree, usedMem, maxMem := 0, 0, 0;
      blocks := [Block(0, false), Block(end, true)];
      new;
      mem[0], mem[1], mem[2] := Tag(false), end, 0;
      mem[end], mem[end + 1], mem[end + 2] := Tag(true), end, end;
    }

    method IsUsed(at: int) returns (used: bool)
      requires 0 <= at < mem.Length && exists b :: mem[at] == Tag(b)
      ensures mem[at] == Tag(used)
    {
      used := mem[at] / 0x1_0000 != 0;
    }

    method WriteSplitHeaders(ptr: nat, ptr2: nat, next: nat)
      requires ptr + HEADER <= ptr2 && ptr2 + HEADER <= next && next + HEADER <= mem.Length == memSize + 2 * HEADER
      modifies mem
      ensures mem[..] == WriteSplit(old(mem[..]), ptr, ptr2, next)
    {
      mem[ptr2], mem[ptr2 + 1], mem[ptr2 + 2] := Tag(false), next, ptr;
      mem[ptr + 1] := ptr2;
      mem[ptr] := Tag(true);
      if next != memSize + HEADER {
        mem[next + 2] := ptr2;
      }
    }

    /** Cut `size` words off the front of block k and use them. */
    method SplitBlock(ghost k: nat, ptr: nat, size: nat)
      requires Formed() && k + 1 < |blocks| && ptr == blocks[k].at && 1 <= size && size + HEADER < Payload(blocks, k)
      modifies mem, `blocks
      ensures Formed() && blocks == Split(old(blocks), k, size)
      ensures SamePayloads(old(mem[..]), mem[..], blocks)
    {
      assert HeaderAt(mem[..], blocks, k) && HeaderAt(mem[..], blocks, k + 1);
      SplitRepresents(mem[..], blocks, k, size);
      SplitKeepsPayloads(mem[..], blocks, k, size);
      WriteSplitHeaders(ptr, ptr + HEADER + size, mem[ptr + 1]);
      assert mem[..] == old(SplitWords(mem[..], blocks, k, size));
      blocks := Split(blocks, k, size);
    }

    method SetFlag(ghost k: nat, ptr: nat, used: bool)
      requires Formed() && k + 1 < |blocks| && ptr == blocks[k].at
      modifies mem, `blocks
      ensures Formed() && blocks == old(blocks)[k := Block(ptr, used)]
      ensures SamePayloads(old(mem[..]), mem[..], blocks)
      ensures SamePayloads(old(mem[..]), mem[..], old(blocks))
    {
      FlagRepresents(mem[..], blocks, k, used);
      FlagKeepsPayloads(mem[..], blocks, k, Tag(used));
      FlagKeepsPayloads(mem[..], blocks[k := Block(ptr, used)], k, Tag(used));
      mem[ptr] := Tag(used);
      assert mem[..] == old(mem[..])[ptr := Tag(used)];
      blocks := blocks[k := Block(ptr, used)];
    }

    /** Mark block k used, splitting off the rest if it is large enough, and keep the statistics. */
    method Occupy(ghost k: nat, ptr: nat, size: nat)
      requires Formed() && k + 1 < |blocks| && ptr == blocks[k].at && MIN_SIZE <= size
      modifies mem, `blocks, `usedMem, `maxMem
      ensures Formed() && blocks == Take(old(blocks), k, size)
      ensures SamePayloads(old(mem[..]), mem[..], blocks)
      ensures usedMem == old(usedMem) + HEADER + (if Payload(old(blocks), k) >= size + HEADER + MIN_SIZE then size else Payload(old(blocks), k))
      ensures maxMem == if old(maxMem) < usedMem then usedMem else old(maxMem)
    {
      assert HeaderAt(mem[..], blocks, k);
      var next := mem[ptr + 1];
      if next - (ptr + HEADER) >= size + HEADER + MIN_SIZE {
        SplitBlock(k, ptr, size);
        usedMem := usedMem + size + HEADER;
      } else {
        SetFlag(k, ptr, true);
        usedMem := usedMem + next - ptr;
      }
      if maxMem < usedMem {
        maxMem := usedMem;
      }
    }

    /** Move lfree on to the next free block, or to the end marker. */
    method AdvanceLfree(ghost from: nat)
      requires Formed() && from < |blocks| && lfree == blocks[from].at
      requires forall i :: 0 <= i < from ==> blocks[i].used
      modifies `lfree
      ensures lfree == blocks[FirstFree(blocks)].at
    {
      ghost var k := from;
      assert HeaderAt(mem[..], blocks, k);
      var used := IsUsed(lfree);
      while used && lfree != End()
        invariant k < |blocks| && lfree == blocks[k].at
        invariant HeaderAt(mem[..], blocks, k) && used == blocks[k].used
        invariant forall i :: 0 <= i < k ==> blocks[i].used
        decreases |blocks| - k
      {
        assert HeaderAt(mem[..], blocks, k + 1);
        lfree := mem[lfree + 1];
        k := k + 1;
        used := IsUsed(lfree);
      }
      if k < |blocks| - 1 {
        Increasing(blocks, End(), k, |blocks| - 1);
      }
      FirstFreeIs(blocks, k);
    }

    /** The successful end of the search: take the block and find the lowest free one again. */
    method FinishMalloc(ghost k: nat, ptr: nat, size: nat)
      requires Valid() && MIN_SIZE <= size && k + 1 < |blocks| && ptr == blocks[k].at && Accepts(blocks, End(), k, size)
      modifies this, mem
      ensures Valid() && mem == old(mem)
      ensures maxMem == if old(maxMem) < usedMem then usedMem else old(maxMem)
      ensures blocks == Take(old(blocks), k, size)
      ensures SamePayloads(old(mem[..]), mem[..], blocks)
    {
      ghost var f := FirstFree(blocks);
      TakeKeeps(blocks, End(), k, size);
      UsedWordsOfTake(blocks, k, size);
      LowestAfterTake(blocks, k, size);
      Occupy(k, ptr, size);
      if ptr == lfree {
        AdvanceLfree(f);
      }
    }

    /** The search loop of rt_malloc: the first acceptable block from lfree on. */
    method Search(size: nat) returns (found: bool, ptr: int, ghost k: nat)
      requires Valid()
      ensures found ==> IsFirstFit(blocks, End(), k, size) && ptr == blocks[k].at
      ensures !found ==> NothingFits(blocks, End(), size)
    {
      found, ptr, k := false, lfree, FirstFree(blocks);
      while ptr < memSize - size
        invariant k < |blocks| && ptr == blocks[k].at
        invariant forall i :: 0 <= i < k ==> !Accepts(blocks, End(), i, size)
        decreases |blocks| - k
      {
        assert HeaderAt(mem[..], blocks, k);
        var used := IsUsed(ptr);
        if !used && mem[ptr + 1] - (ptr + HEADER) >= size {
          found := true;
          return;
        }
        ptr := mem[ptr + 1];
        k := k + 1;
      }
      SearchIsOver(blocks, End(), size, k);
    }

    /** rt_malloc.  `k` is the block that was taken. */
    method Malloc(bytes: nat) returns (p: Pointer, ghost k: nat)
      requires Valid() && bytes < WRAP
      modifies this, mem
      ensures Valid() && mem == old(mem)
      ensures maxMem == if old(maxMem) < usedMem then usedMem else old(maxMem)
      ensures p.Null? <==> bytes == 0 || AlignedWords(bytes) > memSize || NothingFits(old(blocks), End(), RequestWords(bytes))
      ensures p.Null? ==> blocks == old(blocks) && mem[..] == old(mem[..])
      ensures p.To? ==>
                && IsFirstFit(old(blocks), End(), k, RequestWords(bytes))
                && p.word == old(blocks)[k].at + HEADER
                && blocks == Take(old(blocks), k, RequestWords(bytes))
                && SamePayloads(old(mem[..]), mem[..], blocks)
    {
      p, k := Null, 0;
      if bytes == 0 || AlignedWords(bytes) > memSize {
        return;
      }
      var size := RequestWords(bytes);
      var found, ptr;
      found, ptr, k := Search(size);
      if found {
        FinishMalloc(k, ptr, size);
        p := To(ptr + HEADER);
      }
    }

    /** Join block k to the free block before it: two header writes. */
    method Unlink(ghost k: nat, prev: nat, next: nat)
      requires Formed() && 0 < k < |blocks| - 1 && !blocks[k - 1].used && !blocks[k].used
      requires prev == blocks[k - 1].at && next == blocks[k + 1].at
      modifies mem, `blocks
      ensures Formed() && blocks == Remove(old(blocks), k)
      ensures SamePayloads(old(mem[..]), mem[..], old(blocks))
    {
      assert HeaderAt(mem[..], blocks, k + 1) && HeaderAt(mem[..], blocks, k - 1);
      RemoveRepresents(mem[..], blocks, k);
      RemoveKeepsPayloads(mem[..], blocks, k);
      mem[prev + 1] := next;
      mem[next + 2] := prev;
      assert mem[..] == old(RemoveWords(mem[..], blocks, k));
      blocks := Remove(blocks, k);
    }

    /** The first half of plug_holes: absorb the next block if it is free. */
    method MergeForward(ghost k: nat, at: nat)
      requires Formed() && k + 1 < |blocks| && at == blocks[k].at && !blocks[k].used
      requires lfree <= at
      modifies mem, `blocks, `lfree
      ensures Formed() && blocks == MergeNext(old(blocks), k) && lfree == old(lfree)
      ensures SamePayloads(old(mem[..]), mem[..], old(blocks))
    {
      assert HeaderAt(mem[..], blocks, k);
      var nmem := mem[at + 1];
      assert HeaderAt(mem[..], blocks, k + 1);
      var used := IsUsed(nmem);
      MarkerIsLast(blocks, End(), k + 1);
      if at != nmem && !used && nmem != End() {
        lfree := if lfree == nmem then at else lfree;
        Unlink(k + 1, at, mem[nmem + 1]);
      }
    }

    /** The second half of plug_holes: be absorbed by the previous block if it is free. */
    method MergeBackward(ghost k: nat, at: nat)
      requires Formed() && k + 1 < |blocks| && at == blocks[k].at && !blocks[k].used
      requires lfree == blocks[FirstFree(blocks)].at
      modifies mem, `blocks, `lfree
      ensures Formed() && blocks == MergePrevious(old(blocks), k) && lfree == old(lfree)
      ensures SamePayloads(old(mem[..]), mem[..], old(blocks))
    {
      assert HeaderAt(mem[..], blocks, k);
      LowestBeforeFreePrevious(blocks, End(), k);
      if k > 0 {
        assert HeaderAt(mem[..], blocks, k - 1);
      }
      var pmem := mem[at + 2];
      var used := IsUsed(pmem);
      if pmem != at && !used {
        lfree := if lfree == at then pmem else lfree;
        Unlink(k, pmem, mem[at + 1]);
      }
    }

    /** plug_holes */
    method PlugHoles(ghost k: nat, at: nat)
      requires Formed() && k + 1 < |blocks| && at == blocks[k].at && !blocks[k].used
      requires lfree == blocks[FirstFree(blocks)].at
      modifies mem, `blocks, `lfree
      ensures Formed() && blocks == Plug(old(blocks), k)
      ensures lfree == blocks[FirstFree(blocks)].at
      ensures SamePayloads(old(mem[..]), mem[..], old(blocks))
    {
      ghost var before, m0 := blocks, mem[..];
      FirstFreeOfPlug(blocks, k);
      FirstFreeOfMergeNext(blocks, k);
      LowestIsNotLater(blocks, End(), k);
      MergeForward(k, at);
      ghost var m1 := mem[..];
      MergeBackward(k, at);
      PayloadsOfPlug(m0, m1, mem[..], before, k);
    }

    /** A pointer the caller may hand back: null, outside the heap, or a live allocation. */
    ghost predicate Returnable(p: Pointer)
      reads this
    {
      p.To? && 0 <= p.word < End() ==> exists n: nat :: IsLive(blocks, p.word, n)
    }

    function InHeap(p: Pointer): bool { p.To? && 0 <= p.word < End() }

    /** rt_free.  `k` is the block that was released. */
    method Free(p: Pointer) returns (ghost k: nat)
      requires Valid() && Returnable(p)
      modifies this, mem
      ensures Valid() && mem == old(mem) && maxMem == old(maxMem)
      ensures !InHeap(p) ==> blocks == old(blocks) && mem[..] == old(mem[..])
      ensures InHeap(p) ==>
                && k + 1 < |old(blocks)| && old(blocks)[k].used && p.word == old(blocks)[k].at + HEADER
                && blocks == Release(old(blocks), k)
                && SamePayloads(old(mem[..]), mem[..], blocks)
    {
      k := 0;
      if p.Null? || p.word < 0 || End() <= p.word {
        return;
      }
      ghost var n: nat :| IsLive(blocks, p.word, n);
      k :| k + 1 < |blocks| && LiveBlock(blocks, k, p.word, n);
      ReleaseBlock(k, p.word - HEADER);
    }

    method ReleaseBlock(ghost k: nat, at: nat)
      requires Valid() && k + 1 < |blocks| && at == blocks[k].at && blocks[k].used
      modifies this, mem
      ensures Valid() && mem == old(mem) && maxMem == old(maxMem)
      ensures blocks == Release(old(blocks), k)
      ensures SamePayloads(old(mem[..]), mem[..], blocks)
    {
      hide UsedWords, SamePayloads, FirstFree, Plug, Coalesced, HeaderAt;
      ReleaseCoalesces(blocks, End(), k);
      UsedWordsOfRelease(blocks, k);
      MarkFree(k, at);
      ghost var freed, m1 := blocks, mem[..];
      PlugHoles(k, at);
      PayloadsOfRelease(old(mem[..]), m1, mem[..], freed, k);
    }

    /** The part of rt_free before plug_holes. */
    method MarkFree(ghost k: nat, at: nat)
      requires Formed() && k + 1 < |blocks| && at == blocks[k].at && lfree == blocks[FirstFree(blocks)].at
      modifies mem, `blocks, `lfree, `usedMem
      ensures Formed() && blocks == old(blocks)[k := Block(at, false)]
      ensures lfree == blocks[FirstFree(blocks)].at
      ensures usedMem == old(usedMem) - (Payload(old(blocks), k) + HEADER)
      ensures SamePayloads(old(mem[..]), mem[..], blocks)
    {
      FirstFreeOfRelease(blocks, k);
      LowestAgainst(blocks, End(), k);
      assert HeaderAt(mem[..], blocks, k);
      usedMem := usedMem - (mem[at + 1] - at);
      SetFlag(k, at, false);
      if at < lfree {
        lfree := at;
      }
    }

    /** rt_memcpy of c words into the live allocation at q. */
    method CopyWords(p: nat, q: nat, c: nat, ghost l: nat)
      requires Formed() && IsLive(blocks, q, l) && c <= l && p + c <= mem.Length && q + l <= mem.Length
      requires p + c <= q || q + l <= p
      modifies mem
      ensures Formed() && mem[q..q + c] == old(mem[p..p + c])
      ensures SameOtherPayloads(old(mem[..]), mem[..], blocks, q)
    {
      hide SameOtherPayloads, Represents, IsLive;
      ghost var m := mem[..];
      assert SameOtherPayloads(m, mem[..], blocks, q) by { SameOthersReflexive(m, blocks, q); }
      for j := 0 to c
        invariant Formed() && |m| == mem.Length && SameOtherPayloads(m, mem[..], blocks, q)
        invariant mem[p..p + c] == m[p..p + c]
        invariant mem[q..q + j] == m[p..p + j]
      {
        ghost var before := mem[..];
        CopyWord(p + j, q + j, m, q, l);
        assert mem[p..p + c] == before[p..p + c];
        assert before[p + j] == before[p..p + c][j] == m[p + j];
        assert mem[q..q + j + 1] == before[q..q + j] + [m[p + j]];
        assert m[p..p + j + 1] == m[p..p + j] + [m[p + j]];
      }
    }

    method CopyWord(from: nat, to: nat, ghost m: seq<int>, ghost q: nat, ghost l: nat)
      requires Formed() && IsLive(blocks, q, l) && q <= to < q + l <= mem.Length && from < mem.Length
      requires SameOtherPayloads(m, mem[..], blocks, q)
      modifies mem
      ensures Formed() && SameOtherPayloads(m, mem[..], blocks, q)
      ensures mem[..] == old(mem[..])[to := old(mem[from])]
    {
      mem[to] := mem[from];
      assert mem[..] == old(mem[..])[to := old(mem[from])];
      CopyStep(m, old(mem[..]), mem[..], blocks, q, l, to);
    }

    /** The in-place branch of rt_realloc: give back the tail of block k. */
    method ShrinkBlock(ghost k: nat, at: nat, size: nat)
      requires Valid() && k + 1 < |blocks| && at == blocks[k].at && blocks[k].used
      requires 1 <= size && ShrinksInPlace(blocks, k, size)
      modifies this, mem
      ensures Valid() && mem == old(mem) && maxMem == old(maxMem)
      ensures blocks == Shrink(old(blocks), k, size)
      ensures SamePayloads(old(mem[..]), mem[..], blocks)
    {
      hide UsedWords, SamePayloads, FirstFree, Plug, Coalesced, HeaderAt;
      ShrinkCoalesces(blocks, End(), k, size);
      UsedWordsOfShrink(blocks, k, size);
      CutTail(k, at, size);
      ghost var cut, m1 := blocks, mem[..];
      PlugHoles(k + 1, at + HEADER + size);
      PayloadsOfRelease(old(mem[..]), m1, mem[..], cut, k + 1);
    }

    /** The part of the in-place branch before plug_holes. */
    method CutTail(ghost k: nat, at: nat, size: nat)
      requires Formed() && k + 1 < |blocks| && at == blocks[k].at && blocks[k].used
      requires 1 <= size && ShrinksInPlace(blocks, k, size) && lfree == blocks[FirstFree(blocks)].at
      modifies mem, `blocks, `lfree, `usedMem
      ensures Formed() && blocks == Split(old(blocks), k, size)
      ensures lfree == blocks[FirstFree(blocks)].at
      ensures usedMem == old(usedMem) - (Payload(old(blocks), k) - size)
      ensures SamePayloads(old(mem[..]), mem[..], blocks)
    {
      FirstFreeOfShrink(blocks, k, size);
      LowestOfCut(blocks, End(), k, size);
      assert HeaderAt(mem[..], blocks, k);
      usedMem := usedMem - (mem[at + 1] - at - HEADER - size);
      SplitBlock(k, at, size);
      if at + HEADER + size < lfree {
        lfree := at + HEADER + size;
      }
    }

    /** rt_realloc.  `k` is the block that was taken if the allocation is new or has moved. */
    method Realloc(p: Pointer, bytes: nat) returns (q: Pointer, ghost k: nat)
      requires Valid() && Returnable(p) && bytes < WRAP
      modifies this, mem
      ensures Valid() && mem == old(mem)
      // too large, or no room for the move: nothing changes
      ensures AlignedWords(bytes) > memSize ==> q.Null? && blocks == old(blocks) && mem[..] == old(mem[..])
      ensures q.Null? && 0 < AlignedWords(bytes) ==> blocks == old(blocks) && mem[..] == old(mem[..])
      // size zero frees
      ensures AlignedWords(bytes) == 0 ==> q.Null?
      ensures AlignedWords(bytes) == 0 && InHeap(p) ==> forall r: nat, n: nat ::
                IsLive(blocks, r, n) <==> IsLive(old(blocks), r, n) && r != p.word
      ensures AlignedWords(bytes) == 0 && !InHeap(p) ==> blocks == old(blocks) && mem[..] == old(mem[..])
      // a null pointer allocates, and a pointer from elsewhere comes back as it is
      ensures p.Null? && 0 < AlignedWords(bytes) <= memSize ==>
                (q.Null? <==> NothingFits(old(blocks), End(), RequestWords(bytes)))
      ensures p.Null? && q.To? ==> IsFirstFit(old(blocks), End(), k, RequestWords(bytes)) && q.word == old(blocks)[k].at + HEADER
                                   && blocks == Take(old(blocks), k, RequestWords(bytes))
                                   && SamePayloads(old(mem[..]), mem[..], blocks)
      ensures p.To? && !InHeap(p) && 0 < AlignedWords(bytes) <= memSize ==> q == p && blocks == old(blocks) && mem[..] == old(mem[..])
      // otherwise the allocation stays or moves with its contents, and nothing else changes
      ensures q.To? && InHeap(p) ==> 0 <= q.word && forall n: nat :: IsLive(old(blocks), p.word, n) ==>
                Reallocated(old(mem[..]), old(blocks), mem[..], blocks, p.word, n, q.word, AlignedWords(bytes))
      // which fails exactly if it has to move and nothing fits
      ensures InHeap(p) && 0 < AlignedWords(bytes) <= memSize ==> forall n: nat :: IsLive(old(blocks), p.word, n) ==>
                (q.Null? <==> !Stays(n, AlignedWords(bytes)) && NothingFits(old(blocks), End(), RequestWords(bytes)))
      ensures q.To? && p.To? && q != p ==> MovedTo(q.word, old(blocks), k, RequestWords(bytes), old(maxMem), maxMem)
      ensures !(q.To? && p.To? && q != p) ==> maxMem == Larger(old(maxMem), usedMem)
    {
      k := 0;
      var size := AlignedWords(bytes);
      AlignedAgain(bytes);
      if size > memSize {
        return Null, k;
      } else if size == 0 {
        ghost var j := Free(p);
        if InHeap(p) {
          LiveAfterReleaseAll(old(blocks), End(), j);
          UsedWordsOfRelease(old(blocks), j);
        }
        return Null, k;
      }
      if p.Null? {
        q, k := Malloc(size * WORD_BYTES);
        return;
      }
      if p.word < 0 || End() <= p.word {
        return p, k;
      }
      ghost var n: nat :| IsLive(blocks, p.word, n);
      ghost var j: nat :| j + 1 < |blocks| && LiveBlock(blocks, j, p.word, n);
      LiveIsUniqueAll(blocks, End(), j, p.word, n);
      q, k := Resize(p.word, size, n, j);
    }

    /** The payload size rt_realloc reads off the header. */
    method SizeOf(p: nat, ghost n: nat, ghost k: nat) returns (size: nat)
      requires Formed() && k + 1 < |blocks| && LiveBlock(blocks, k, p, n)
      ensures size == n == Payload(blocks, k)
    {
      assert HeaderAt(mem[..], blocks, k);
      size := mem[p - HEADER + 1] - (p - HEADER) - HEADER;
    }

    /** rt_realloc of the live allocation of n words at p, in block j. */
    method Resize(p: nat, newSize: nat, ghost n: nat, ghost j: nat) returns (q: Pointer, ghost k: nat)
      requires Valid() && 1 <= newSize <= memSize && newSize * WORD_BYTES < WRAP
      requires j + 1 < |blocks| && LiveBlock(blocks, j, p, n)
      modifies this, mem
      ensures Valid() && mem == old(mem)
      ensures q.Null? ==> blocks == old(blocks) && mem[..] == old(mem[..])
      ensures q.Null? <==> !Stays(n, newSize) && NothingFits(old(blocks), End(), RequestWords(newSize * WORD_BYTES))
      ensures q.To? ==> 0 <= q.word && Reallocated(old(mem[..]), old(blocks), mem[..], blocks, p, n, q.word, newSize)
      ensures q.To? && q.word != p ==>
                MovedTo(q.word, old(blocks), k, RequestWords(newSize * WORD_BYTES), old(maxMem), maxMem)
      ensures q.Null? || q.word == p ==> maxMem == Larger(old(maxMem), usedMem)
    {
      hide UsedWords, SamePayloads, FirstFree, Coalesced, Reallocated, Represents, NothingFits, Take;
      k := 0;
      var size := SizeOf(p, n, j);
      if size == newSize {
        StaysInPlace(mem[..], blocks, p, n, newSize);
        return To(p), k;
      }
      if newSize + HEADER + MIN_SIZE < size {
        UsedWordsOfShrink(blocks, j, newSize);
        ShrinkBlock(j, p - HEADER, newSize);
        ShrinkReallocates(old(mem[..]), old(blocks), mem[..], j, n, newSize);
        return To(p), k;
      }
      q, k := MoveBlock(p, size, newSize, j);
    }

    /** The last branch of rt_realloc: allocate, copy, free. */
    method MoveBlock(p: nat, n: nat, newSize: nat, ghost j: nat) returns (q: Pointer, ghost k: nat)
      requires Valid() && 1 <= newSize <= memSize && newSize * WORD_BYTES < WRAP
      requires j + 1 < |blocks| && LiveBlock(blocks, j, p, n)
      modifies this, mem
      ensures Valid() && mem == old(mem)
      ensures q.Null? ==> blocks == old(blocks) && mem[..] == old(mem[..]) && maxMem == Larger(old(maxMem), usedMem)
      ensures q.Null? <==> NothingFits(old(blocks), End(), RequestWords(newSize * WORD_BYTES))
      ensures q.To? ==> 0 <= q.word && Reallocated(old(mem[..]), old(blocks), mem[..], blocks, p, n, q.word, newSize)
      ensures q.To? ==>
                q.word != p && MovedTo(q.word, old(blocks), k, RequestWords(newSize * WORD_BYTES), old(maxMem), maxMem)
    {
      hide UsedWords, SamePayloads, FirstFree, Coalesced, Reallocated, HeaderAt, IsLive, Take, LiveBlock, TakesFree,
        NothingFits, IsFirstFit, Tiles;
      AlignedAgain(newSize * WORD_BYTES);
      q, k := Malloc(newSize * WORD_BYTES);
      if q.To? {
        ghost var s, bs1 := RequestWords(newSize * WORD_BYTES), blocks;
        ghost var to, l, k1 := MoveTargets(old(blocks), End(), bs1, k, s, j, p, n);
        MoveContents(p, n, newSize, q.word, old(mem[..]), old(blocks), k, s, l, k1);
      }
    }

    /** Copy the common prefix to q and free p, after the allocation at q. */
    method MoveContents(p: nat, n: nat, newSize: nat, q: nat, ghost m: seq<int>, ghost bs: Layout,
                        ghost k0: nat, ghost s: nat, ghost l: nat, ghost k: nat)
      requires Valid() && k + 1 < |blocks| && LiveBlock(blocks, k, p, n) && IsLive(blocks, p, n) && IsLive(blocks, q, l)
      requires |m| == mem.Length && Represents(m, bs) && SamePayloads(m, mem[..], blocks) && IsLive(bs, p, n)
      requires TakesFree(bs, k0, s) && q == bs[k0].at + HEADER && blocks == Take(bs, k0, s)
      requires Tiles(bs, End()) && Tiles(blocks, End())
      requires k0 + 1 < |blocks| && newSize <= s <= l == Payload(blocks, k0)
      requires p != q && p < End() && p + n <= End() && q + l <= End() && (p + n <= q || q + l <= p)
      modifies this, mem
      ensures Valid() && mem == old(mem) && maxMem == old(maxMem)
      ensures Reallocated(m, bs, mem[..], blocks, p, n, q, newSize)
    {
      hide UsedWords, SamePayloads, FirstFree, Coalesced, Reallocated, SameOtherPayloads, HeaderAt, IsLive, Take, Release, Tiles;
      ghost var m1, bs1 := mem[..], blocks;
      var c := if n < newSize then n else newSize;
      CopyWords(p, q, c, l);
      ghost var m2 := mem[..];
      ghost var k1 := Free(To(p));
      assert Moves(m, bs, m1, bs1, m2, mem[..], blocks, k0, s, newSize, k1, p, n, q, l, c);
      MoveReallocates(m, bs, m1, bs1, m2, mem[..], blocks, k0, s, newSize, k1, p, n, q, l, c);
    }
  }
}
