/** What the operations of the small-memory allocator keep: coalescing, the statistics, the set of
    live allocations and their contents. */
module SmallHeapProofs {
  import opened SmallHeap

  // ---------- Statistics ----------

  lemma {:induction false} UsedWordsOfFlag(bs: Layout, k: nat)
    requires k + 1 < |bs|
    ensures UsedWords(bs[k := Block(bs[k].at, true)])
         == UsedWords(bs[k := Block(bs[k].at, false)]) + bs[k + 1].at - bs[k].at
  {
    var t, f := bs[k := Block(bs[k].at, true)], bs[k := Block(bs[k].at, false)];
    if k == 0 {
      assert t[1..] == f[1..];
    } else {
      UsedWordsOfFlag(bs[1..], k - 1);
      assert t[1..] == bs[1..][k - 1 := Block(bs[k].at, true)];
      assert f[1..] == bs[1..][k - 1 := Block(bs[k].at, false)];
    }
  }

  lemma {:induction false} UsedWordsOfSplit(bs: Layout, k: nat, size: nat)
    requires k + 1 < |bs|
    ensures UsedWords(Split(bs, k, size)) == UsedWords(bs[k := Block(bs[k].at, false)]) + size + HEADER
  {
    var s, f := Split(bs, k, size), bs[k := Block(bs[k].at, false)];
    if k == 0 {
      var rest := [Block(bs[0].at + HEADER + size, false)] + bs[1..];
      assert s == [Block(bs[0].at, true)] + rest;
      assert s[1..] == rest && rest[1..] == bs[1..] == f[1..];
    } else {
      UsedWordsOfSplit(bs[1..], k - 1, size);
      assert s[1..] == Split(bs[1..], k - 1, size);
      assert f[1..] == bs[1..][k - 1 := Block(bs[k].at, false)];
    }
  }

  lemma {:induction false} UsedWordsOfRemove(bs: Layout, k: nat)
    requires 0 < k < |bs| - 1 && !bs[k - 1].used && !bs[k].used
    ensures UsedWords(Remove(bs, k)) == UsedWords(bs)
  {
    var r := Remove(bs, k);
    if k == 1 {
      assert r[1..] == bs[1..][1..];
    } else {
      UsedWordsOfRemove(bs[1..], k - 1);
      assert r[1..] == Remove(bs[1..], k - 1);
    }
  }

  lemma UsedWordsOfTake(bs: Layout, k: nat, size: nat)
    requires k + 1 < |bs| && !bs[k].used && Payload(bs, k) >= 0
    ensures UsedWords(Take(bs, k, size)) == UsedWords(bs) + HEADER + Payload(Take(bs, k, size), k)
  {
    assert bs[k := Block(bs[k].at, false)] == bs;
    if Payload(bs, k) >= size + HEADER + MIN_SIZE {
      UsedWordsOfSplit(bs, k, size);
    } else {
      UsedWordsOfFlag(bs, k);
    }
  }

  lemma UsedWordsOfPlug(bs: Layout, k: nat)
    requires k + 1 < |bs| && !bs[k].used
    ensures UsedWords(Plug(bs, k)) == UsedWords(bs)
  {
    if k + 2 < |bs| && !bs[k + 1].used {
      UsedWordsOfRemove(bs, k + 1);
    }
    var b := MergeNext(bs, k);
    if 0 < k && !b[k - 1].used {
      UsedWordsOfRemove(b, k);
    }
  }

  // ---------- Coalescing and the lowest free block ----------

  /** The only adjacent free blocks, if any, involve block k. */
  ghost predicate CoalescedExceptAt(bs: Layout, k: nat) {
    forall i :: 0 <= i < |bs| - 1 ==> bs[i].used || bs[i + 1].used || i == k || i + 1 == k
  }

  lemma SplitCoalesces(bs: Layout, k: nat, size: nat)
    requires Coalesced(bs) && k + 1 < |bs| && !bs[k].used
    ensures Coalesced(Split(bs, k, size))
  {
    var t := Split(bs, k, size);
    assert t[k].used && t[k + 2] == bs[k + 1];
    forall i | 0 <= i < |t| - 1 ensures t[i].used || t[i + 1].used {
      if i < k - 1 {
        assert t[i] == bs[i] && t[i + 1] == bs[i + 1];
      } else if i > k + 1 {
        assert t[i] == bs[i - 1] && t[i + 1] == bs[i];
      }
    }
  }

  lemma FlagCoalesces(bs: Layout, k: nat)
    requires Coalesced(bs) && k < |bs|
    ensures Coalesced(bs[k := Block(bs[k].at, true)])
  {
  }

  lemma TakeKeeps(bs: Layout, end: nat, k: nat, size: nat)
    requires Tiles(bs, end) && Coalesced(bs)
    requires k + 1 < |bs| && !bs[k].used && 1 <= size <= Payload(bs, k)
    ensures Tiles(Take(bs, k, size), end) && Coalesced(Take(bs, k, size))
    ensures size <= Payload(Take(bs, k, size), k)
  {
    hide Coalesced;
    if Payload(bs, k) >= size + HEADER + MIN_SIZE {
      SplitTiles(bs, end, k, size);
      SplitCoalesces(bs, k, size);
    } else {
      FlagCoalesces(bs, k);
    }
  }

  lemma RemoveNextCoalesces(bs: Layout, k: nat)
    requires k + 2 < |bs| && !bs[k + 1].used && bs[k + 2].used && CoalescedExceptAt(bs, k)
    ensures CoalescedExceptAt(Remove(bs, k + 1), k)
  {
    var b := Remove(bs, k + 1);
    forall i | 0 <= i < |b| - 1 ensures b[i].used || b[i + 1].used || i == k || i + 1 == k {
      if i < k {
        assert b[i] == bs[i] && b[i + 1] == bs[i + 1];
      } else if i > k {
        assert b[i] == bs[i + 1] && b[i + 1] == bs[i + 2];
      }
    }
  }

  lemma MergeNextKeeps(bs: Layout, end: nat, k: nat)
    requires Tiles(bs, end) && k + 1 < |bs| && !bs[k].used && CoalescedExceptAt(bs, k)
    ensures var b := MergeNext(bs, k);
            Tiles(b, end) && k + 1 < |b| && b[k] == bs[k] && b[k + 1].used && CoalescedExceptAt(b, k)
  {
    if k + 2 < |bs| && !bs[k + 1].used {
      RemoveTiles(bs, end, k + 1);
      assert bs[k + 2].used;
      RemoveNextCoalesces(bs, k);
    }
  }

  lemma MergePreviousKeeps(bs: Layout, end: nat, k: nat)
    requires Tiles(bs, end) && k + 1 < |bs| && !bs[k].used && bs[k + 1].used && CoalescedExceptAt(bs, k)
    ensures Tiles(MergePrevious(bs, k), end) && Coalesced(MergePrevious(bs, k))
  {
    if 0 < k && !bs[k - 1].used {
      RemoveTiles(bs, end, k);
      var c := Remove(bs, k);
      forall i | 0 <= i < |c| - 1 ensures c[i].used || c[i + 1].used {
        if i < k - 1 {
          assert c[i] == bs[i] && c[i + 1] == bs[i + 1];
        } else if i == k - 1 {
          assert c[i + 1] == bs[k + 1];
        } else {
          assert c[i] == bs[i + 1] && c[i + 1] == bs[i + 2];
        }
      }
    }
  }

  lemma PlugCoalesces(bs: Layout, end: nat, k: nat)
    requires Tiles(bs, end) && k + 1 < |bs| && !bs[k].used && CoalescedExceptAt(bs, k)
    ensures Tiles(Plug(bs, k), end) && Coalesced(Plug(bs, k))
  {
    MergeNextKeeps(bs, end, k);
    MergePreviousKeeps(MergeNext(bs, k), end, k);
  }

  lemma FirstFreeOfPlug(bs: Layout, k: nat)
    requires k + 1 < |bs| && !bs[k].used
    ensures FirstFree(bs) < |Plug(bs, k)| && FirstFree(Plug(bs, k)) == FirstFree(bs)
    ensures Plug(bs, k)[FirstFree(bs)] == bs[FirstFree(bs)]
  {
    var f := FirstFree(bs);
    assert f <= k;
    var b := MergeNext(bs, k);
    assert b[f] == bs[f];
    var c := MergePrevious(b, k);
    assert 0 < k && !b[k - 1].used ==> f <= k - 1;
    assert c[f] == bs[f];
    FirstFreeIs(c, f);
  }

  lemma FirstFreeOfRelease(bs: Layout, k: nat)
    requires k + 1 < |bs|
    ensures var b := bs[k := Block(bs[k].at, false)];
            FirstFree(b) == if k < FirstFree(bs) then k else FirstFree(bs)
  {
    var b := bs[k := Block(bs[k].at, false)];
    FirstFreeIs(b, if k < FirstFree(bs) then k else FirstFree(bs));
  }

  lemma FirstFreeOfShrink(bs: Layout, k: nat, size: nat)
    requires k + 1 < |bs| && bs[k].used
    ensures var b := Split(bs, k, size);
            FirstFree(b) == if k < FirstFree(bs) then k + 1 else FirstFree(bs)
  {
    var b, f := Split(bs, k, size), FirstFree(bs);
    assert b[k] == Block(bs[k].at, true) && b[k + 1] == Block(bs[k].at + HEADER + size, false);
    forall i | 0 <= i < k ensures b[i] == bs[i] {}
    if k < f {
      FirstFreeIs(b, k + 1);
    } else {
      assert f != k && !bs[f].used;
      FirstFreeIs(b, f);
    }
  }

  // ---------- Live allocations and their contents ----------

  lemma HeadersAreOutside(bs: Layout, end: nat, p: nat, n: nat, i: nat)
    requires Tiles(bs, end) && IsLive(bs, p, n) && i < |bs|
    ensures bs[i].at + HEADER <= p || p + n <= bs[i].at
    ensures p + n <= end
  {
    var j: nat :| j + 1 < |bs| && LiveBlock(bs, j, p, n);
    if i < j {
      Increasing(bs, end, i, j);
    } else if j + 1 < i {
      Increasing(bs, end, j + 1, i);
    }
    if j + 1 < |bs| - 1 {
      Increasing(bs, end, j + 1, |bs| - 1);
    }
  }

  lemma LiveAfterFlag(bs: Layout, k: nat, p: nat, n: nat)
    requires k + 1 < |bs|
    ensures IsLive(bs[k := Block(bs[k].at, true)], p, n)
       <==> IsLive(bs[k := Block(bs[k].at, false)], p, n) || (p == bs[k].at + HEADER && p + n == bs[k + 1].at)
  {
    var t, f := bs[k := Block(bs[k].at, true)], bs[k := Block(bs[k].at, false)];
    if IsLive(f, p, n) {
      var i: nat :| i + 1 < |f| && LiveBlock(f, i, p, n);
      assert LiveBlock(t, i, p, n);
    }
    if p == bs[k].at + HEADER && p + n == bs[k + 1].at {
      assert LiveBlock(t, k, p, n);
    }
    if IsLive(t, p, n) {
      var i: nat :| i + 1 < |t| && LiveBlock(t, i, p, n);
      assert i != k ==> LiveBlock(f, i, p, n);
    }
  }

  lemma LiveAfterSplit(bs: Layout, k: nat, size: nat, p: nat, n: nat)
    requires k + 1 < |bs|
    ensures IsLive(Split(bs, k, size), p, n)
       <==> IsLive(bs[k := Block(bs[k].at, false)], p, n) || (p == bs[k].at + HEADER && n == size)
  {
    var s, f := Split(bs, k, size), bs[k := Block(bs[k].at, false)];
    assert s[k] == Block(bs[k].at, true) && s[k + 1] == Block(bs[k].at + HEADER + size, false);
    if IsLive(f, p, n) {
      var i: nat :| i + 1 < |f| && LiveBlock(f, i, p, n);
      assert if i < k then LiveBlock(s, i, p, n) else LiveBlock(s, i + 1, p, n);
    }
    if p == bs[k].at + HEADER && n == size {
      assert LiveBlock(s, k, p, n);
    }
    if IsLive(s, p, n) {
      var j: nat :| j + 1 < |s| && LiveBlock(s, j, p, n);
      assert j != k ==> if j < k then LiveBlock(f, j, p, n) else LiveBlock(f, j - 1, p, n);
    }
  }

  lemma LiveAfterRemove(bs: Layout, k: nat, p: nat, n: nat)
    requires 0 < k < |bs| - 1 && !bs[k - 1].used && !bs[k].used
    ensures IsLive(Remove(bs, k), p, n) <==> IsLive(bs, p, n)
  {
    var r := Remove(bs, k);
    if IsLive(bs, p, n) {
      var i: nat :| i + 1 < |bs| && LiveBlock(bs, i, p, n);
      assert if i < k then LiveBlock(r, i, p, n) else LiveBlock(r, i - 1, p, n);
    }
    if IsLive(r, p, n) {
      var j: nat :| j + 1 < |r| && LiveBlock(r, j, p, n);
      assert if j < k then LiveBlock(bs, j, p, n) else LiveBlock(bs, j + 1, p, n);
    }
  }

  /** Two live allocations at the same address are the same allocation. */
  lemma LiveIsUnique(bs: Layout, end: nat, k: nat, p: nat, n: nat)
    requires Tiles(bs, end) && k + 1 < |bs| && IsLive(bs, p, n) && p == bs[k].at + HEADER
    ensures bs[k].used && p + n == bs[k + 1].at
  {
    var i: nat :| i + 1 < |bs| && LiveBlock(bs, i, p, n);
    if i < k {
      Increasing(bs, end, i, k);
    } else if k < i {
      Increasing(bs, end, k, i);
    }
  }

  lemma LiveAfterTake(bs: Layout, k: nat, size: nat, p: nat, n: nat)
    requires k + 1 < |bs| && !bs[k].used && size <= Payload(bs, k)
    ensures IsLive(Take(bs, k, size), p, n)
       <==> IsLive(bs, p, n) || (p == bs[k].at + HEADER && n == Payload(Take(bs, k, size), k))
  {
    assert bs[k := Block(bs[k].at, false)] == bs;
    LiveAfterFlag(bs, k, p, n);
    LiveAfterSplit(bs, k, size, p, n);
  }

  lemma LiveAfterPlug(bs: Layout, k: nat, p: nat, n: nat)
    requires k + 1 < |bs| && !bs[k].used
    ensures IsLive(Plug(bs, k), p, n) <==> IsLive(bs, p, n)
  {
    if k + 2 < |bs| && !bs[k + 1].used {
      LiveAfterRemove(bs, k + 1, p, n);
    }
    var b := MergeNext(bs, k);
    if 0 < k && !b[k - 1].used {
      LiveAfterRemove(b, k, p, n);
    }
  }

  lemma FreedIsNotLive(bs: Layout, end: nat, k: nat, n: nat)
    requires Tiles(bs, end) && k + 1 < |bs|
    ensures !IsLive(bs[k := Block(bs[k].at, false)], bs[k].at + HEADER, n)
  {
    var f := bs[k := Block(bs[k].at, false)];
    if IsLive(f, bs[k].at + HEADER, n) {
      LiveIsUnique(f, end, k, bs[k].at + HEADER, n);
    }
  }

  lemma LiveAfterRelease(bs: Layout, end: nat, k: nat, p: nat, n: nat)
    requires Tiles(bs, end) && k + 1 < |bs| && bs[k].used
    ensures IsLive(Release(bs, k), p, n) <==> IsLive(bs, p, n) && p != bs[k].at + HEADER
  {
    assert bs[k := Block(bs[k].at, true)] == bs;
    LiveAfterFlag(bs, k, p, n);
    FreedIsNotLive(bs, end, k, n);
    LiveAfterPlug(bs[k := Block(bs[k].at, false)], k, p, n);
  }

  lemma LiveAfterShrink(bs: Layout, end: nat, k: nat, size: nat, p: nat, n: nat)
    requires Tiles(bs, end) && k + 1 < |bs| && bs[k].used
    ensures IsLive(Shrink(bs, k, size), p, n)
       <==> (IsLive(bs, p, n) && p != bs[k].at + HEADER) || (p == bs[k].at + HEADER && n == size)
  {
    assert bs[k := Block(bs[k].at, true)] == bs;
    LiveAfterFlag(bs, k, p, n);
    FreedIsNotLive(bs, end, k, n);
    LiveAfterSplit(bs, k, size, p, n);
    LiveAfterPlug(Split(bs, k, size), k + 1, p, n);
  }

  lemma SplitKeepsPayloads(m: seq<int>, bs: Layout, k: nat, size: nat)
    requires Represents(m, bs) && k + 1 < |bs| && 1 <= size && size + HEADER < Payload(bs, k)
    requires bs[k + 1].at + HEADER <= |m|
    ensures SamePayloads(m, SplitWords(m, bs, k, size), Split(bs, k, size))
  {
    var s, end := Split(bs, k, size), |m| - HEADER;
    SplitTiles(bs, end, k, size);
    assert s[k].at == bs[k].at && s[k + 1].at == bs[k].at + HEADER + size && s[k + 2].at == bs[k + 1].at;
    forall p: nat, n: nat | IsLive(s, p, n) && p + n <= |m|
      ensures SplitWords(m, bs, k, size)[p..p + n] == m[p..p + n]
    {
      HeadersAreOutside(s, end, p, n, k);
      HeadersAreOutside(s, end, p, n, k + 1);
      HeadersAreOutside(s, end, p, n, k + 2);
    }
  }

  lemma RemoveKeepsPayloads(m: seq<int>, bs: Layout, k: nat)
    requires Represents(m, bs) && 0 < k < |bs| - 1
    requires bs[k - 1].at + HEADER <= |m| && bs[k + 1].at + HEADER <= |m|
    ensures SamePayloads(m, RemoveWords(m, bs, k), bs)
  {
    forall p: nat, n: nat | IsLive(bs, p, n) && p + n <= |m|
      ensures RemoveWords(m, bs, k)[p..p + n] == m[p..p + n]
    {
      HeadersAreOutside(bs, |m| - HEADER, p, n, k - 1);
      HeadersAreOutside(bs, |m| - HEADER, p, n, k + 1);
    }
  }

  lemma FlagKeepsPayloads(m: seq<int>, bs: Layout, k: nat, tag: int)
    requires |m| >= HEADER && Tiles(bs, |m| - HEADER) && k < |bs| && bs[k].at < |m|
    ensures SamePayloads(m, m[bs[k].at := tag], bs)
  {
    forall p: nat, n: nat | IsLive(bs, p, n) && p + n <= |m|
      ensures m[bs[k].at := tag][p..p + n] == m[p..p + n]
    {
      HeadersAreOutside(bs, |m| - HEADER, p, n, k);
    }
  }

  /** Taking a block other than the lowest free one leaves the lowest free one where it was. */
  lemma LowestAfterTake(bs: Layout, k: nat, size: nat)
    requires k + 1 < |bs| && !bs[k].used
    ensures var f, t := FirstFree(bs), Take(bs, k, size);
            && f <= k && f < |t| && t[f].at == bs[f].at
            && (forall i :: 0 <= i < f ==> t[i].used)
            && (f < k ==> FirstFree(t) == f)
  {
    var f, t := FirstFree(bs), Take(bs, k, size);
    assert forall i :: 0 <= i < k ==> t[i] == bs[i];
    if f < k {
      FirstFreeIs(t, f);
    }
  }

  /** If block k is free, the lowest free block is not after it. */
  lemma LowestIsNotLater(bs: Layout, end: nat, k: nat)
    requires Tiles(bs, end) && k + 1 < |bs| && !bs[k].used
    ensures FirstFree(bs) <= k && bs[FirstFree(bs)].at <= bs[k].at < bs[k + 1].at
  {
    if FirstFree(bs) < k {
      Increasing(bs, end, FirstFree(bs), k);
    }
  }

  lemma MarkerIsLast(bs: Layout, end: nat, k: nat)
    requires Tiles(bs, end) && k < |bs|
    ensures bs[k].at == end <==> k == |bs| - 1
  {
    if k < |bs| - 1 {
      Increasing(bs, end, k, |bs| - 1);
    }
  }

  lemma LowestBeforeFreePrevious(bs: Layout, end: nat, k: nat)
    requires Tiles(bs, end) && k + 1 < |bs| && !bs[k].used
    ensures 0 < k && !bs[k - 1].used ==> bs[FirstFree(bs)].at < bs[k].at
  {
    if 0 < k && !bs[k - 1].used {
      Increasing(bs, end, FirstFree(bs), k);
    }
  }

  lemma FirstFreeOfMergeNext(bs: Layout, k: nat)
    requires k + 1 < |bs| && !bs[k].used
    ensures var b := MergeNext(bs, k);
            k + 1 < |b| && b[k] == bs[k] && FirstFree(b) == FirstFree(bs) <= k && b[FirstFree(bs)] == bs[FirstFree(bs)]
  {
    assert forall i :: 0 <= i <= k ==> MergeNext(bs, k)[i] == bs[i];
    FirstFreeIs(MergeNext(bs, k), FirstFree(bs));
  }

  lemma PayloadsOfPlug(m0: seq<int>, m1: seq<int>, m2: seq<int>, bs: Layout, k: nat)
    requires k + 1 < |bs| && !bs[k].used
    requires SamePayloads(m0, m1, bs) && SamePayloads(m1, m2, MergeNext(bs, k))
    ensures SamePayloads(m0, m2, bs)
  {
    forall p: nat, n: nat | IsLive(bs, p, n) && p + n <= |m0|
      ensures m2[p..p + n] == m0[p..p + n]
    {
      if k + 2 < |bs| && !bs[k + 1].used {
        LiveAfterRemove(bs, k + 1, p, n);
      }
    }
  }

  lemma UsedWordsOfRelease(bs: Layout, k: nat)
    requires k + 1 < |bs| && bs[k].used
    ensures UsedWords(Release(bs, k)) == UsedWords(bs) - (bs[k + 1].at - bs[k].at)
  {
    assert bs[k := Block(bs[k].at, true)] == bs;
    UsedWordsOfFlag(bs, k);
    UsedWordsOfPlug(bs[k := Block(bs[k].at, false)], k);
  }

  lemma PayloadsOfRelease(m0: seq<int>, m1: seq<int>, m2: seq<int>, freed: Layout, k: nat)
    requires k + 1 < |freed| && !freed[k].used
    requires SamePayloads(m0, m1, freed) && SamePayloads(m1, m2, freed)
    ensures SamePayloads(m0, m2, Plug(freed, k))
  {
    SamePayloadsTransitive(m0, m1, m2, freed);
    PayloadsAfterPlug(m0, m2, freed, k);
  }

  lemma ReleaseCoalesces(bs: Layout, end: nat, k: nat)
    requires Tiles(bs, end) && Coalesced(bs) && k + 1 < |bs| && bs[k].used
    ensures Tiles(Release(bs, k), end) && Coalesced(Release(bs, k))
  {
    var f := bs[k := Block(bs[k].at, false)];
    assert CoalescedExceptAt(f, k) by {
      forall i | 0 <= i < |f| - 1 ensures f[i].used || f[i + 1].used || i == k || i + 1 == k {
        assert bs[i].used || bs[i + 1].used;
      }
    }
    PlugCoalesces(f, end, k);
  }

  lemma ShrinkCoalesces(bs: Layout, end: nat, k: nat, size: nat)
    requires Tiles(bs, end) && Coalesced(bs) && k + 1 < |bs| && bs[k].used
    requires 1 <= size && ShrinksInPlace(bs, k, size)
    ensures Tiles(Shrink(bs, k, size), end) && Coalesced(Shrink(bs, k, size))
  {
    var t := Split(bs, k, size);
    SplitTiles(bs, end, k, size);
    assert t[k].used && !t[k + 1].used;
    assert CoalescedExceptAt(t, k + 1) by {
      forall i | 0 <= i < |t| - 1 ensures t[i].used || t[i + 1].used || i == k + 1 || i + 1 == k + 1 {
        if i < k - 1 {
          assert t[i] == bs[i] && t[i + 1] == bs[i + 1];
        } else if i > k + 1 {
          assert t[i] == bs[i - 1] && t[i + 1] == bs[i];
        }
      }
    }
    PlugCoalesces(t, end, k + 1);
  }

  lemma UsedWordsOfShrink(bs: Layout, k: nat, size: nat)
    requires k + 1 < |bs| && bs[k].used
    ensures UsedWords(Shrink(bs, k, size)) == UsedWords(bs) - (Payload(bs, k) - size)
  {
    assert bs[k := Block(bs[k].at, true)] == bs;
    UsedWordsOfFlag(bs, k);
    UsedWordsOfSplit(bs, k, size);
    UsedWordsOfPlug(Split(bs, k, size), k + 1);
  }

  lemma LowestAgainst(bs: Layout, end: nat, k: nat)
    requires Tiles(bs, end) && k < |bs|
    ensures k < FirstFree(bs) <==> bs[k].at < bs[FirstFree(bs)].at
  {
    if k < FirstFree(bs) {
      Increasing(bs, end, k, FirstFree(bs));
    } else if FirstFree(bs) < k {
      Increasing(bs, end, FirstFree(bs), k);
    }
  }

  lemma LowestOfCut(bs: Layout, end: nat, k: nat, size: nat)
    requires Tiles(bs, end) && k + 1 < |bs| && bs[k].used && 1 <= size && size + HEADER < Payload(bs, k)
    ensures k < FirstFree(bs) <==> bs[k].at + HEADER + size < bs[FirstFree(bs)].at
    ensures var f := FirstFree(bs);
            f < k ==> Split(bs, k, size)[f] == bs[f]
    ensures Split(bs, k, size)[k + 1].at == bs[k].at + HEADER + size
  {
    LowestAgainst(bs, end, k);
    var f := FirstFree(bs);
    assert f != k;
    if k + 1 < f {
      Increasing(bs, end, k + 1, f);
    }
  }

  lemma LiveAfterReleaseAll(bs: Layout, end: nat, k: nat)
    requires Tiles(bs, end) && k + 1 < |bs| && bs[k].used
    ensures forall r: nat, n: nat :: IsLive(Release(bs, k), r, n) <==> IsLive(bs, r, n) && r != bs[k].at + HEADER
  {
    forall r: nat, n: nat
      ensures IsLive(Release(bs, k), r, n) <==> IsLive(bs, r, n) && r != bs[k].at + HEADER
    {
      LiveAfterRelease(bs, end, k, r, n);
    }
  }

  lemma LiveIsUniqueAll(bs: Layout, end: nat, k: nat, p: nat, n: nat)
    requires Tiles(bs, end) && k + 1 < |bs| && LiveBlock(bs, k, p, n)
    ensures forall i: nat :: IsLive(bs, p, i) ==> i == n
  {
    forall i: nat | IsLive(bs, p, i) ensures i == n {
      LiveIsUnique(bs, end, k, p, i);
    }
  }

  lemma PayloadsAfterPlug(m: seq<int>, m': seq<int>, bs: Layout, k: nat)
    requires k + 1 < |bs| && !bs[k].used && SamePayloads(m, m', bs)
    ensures SamePayloads(m, m', Plug(bs, k))
  {
    forall p: nat, n: nat | IsLive(Plug(bs, k), p, n) ensures IsLive(bs, p, n) {
      LiveAfterPlug(bs, k, p, n);
    }
  }

  // ---------- When the search fails ----------

  /** Once the search has passed the bound, no later block is accepted either. */
  lemma SearchIsOver(bs: Layout, end: nat, size: nat, k: nat)
    requires Tiles(bs, end) && k < |bs| && bs[k].at >= end - HEADER - size
    requires forall i :: 0 <= i < k ==> !Accepts(bs, end, i, size)
    ensures NothingFits(bs, end, size)
  {
    forall i | 0 <= i < |bs| - 1 ensures !Accepts(bs, end, i, size) {
      if k < i {
        Increasing(bs, end, k, i);
      }
    }
  }

  /** The search of rt_malloc passes over a fitting free block only if it is the last block and fits
      exactly: the bound of its loop is strict. */
  lemma SearchMissesOnlyExactLastFit(bs: Layout, end: nat, size: nat, i: nat)
    requires Tiles(bs, end) && i + 1 < |bs| && !bs[i].used && size <= Payload(bs, i)
    ensures Accepts(bs, end, i, size) <==> !(i + 2 == |bs| && Payload(bs, i) == size)
  {
    if i + 2 < |bs| {
      Increasing(bs, end, i + 1, |bs| - 1);
    }
  }

  /** Distinct live allocations do not overlap, nor does either overlap any header. */
  lemma LiveAreDisjoint(bs: Layout, end: nat, p: nat, n: nat, q: nat, l: nat)
    requires Tiles(bs, end) && IsLive(bs, p, n) && IsLive(bs, q, l) && p != q
    ensures p + n + HEADER <= q || q + l + HEADER <= p
    ensures p >= HEADER && p + n <= end
  {
    var i: nat :| i + 1 < |bs| && LiveBlock(bs, i, p, n);
    var j: nat :| j + 1 < |bs| && LiveBlock(bs, j, q, l);
    if i < j {
      Increasing(bs, end, i, j);
      HeadersAreOutside(bs, end, p, n, j);
    } else {
      Increasing(bs, end, j, i);
      HeadersAreOutside(bs, end, q, l, i);
    }
    HeadersAreOutside(bs, end, p, n, |bs| - 1);
  }

  lemma UsedIsLive(bs: Layout, end: nat, i: nat)
    requires Tiles(bs, end) && i + 1 < |bs| && bs[i].used
    ensures IsLive(bs, bs[i].at + HEADER, Payload(bs, i))
  {
    assert LiveBlock(bs, i, bs[i].at + HEADER, Payload(bs, i));
  }

  /** Freeing everything leaves the single free block of a fresh heap. */
  lemma AllFreeIsInitial(bs: Layout, end: nat)
    requires Tiles(bs, end) && Coalesced(bs) && forall p: nat, n: nat :: !IsLive(bs, p, n)
    ensures bs == [Block(0, false), Block(end, true)] && UsedWords(bs) == 0
  {
    forall i: nat | i + 1 < |bs| ensures !bs[i].used {
      if bs[i].used {
        UsedIsLive(bs, end, i);
      }
    }
    assert bs[0].used || bs[1].used;
    assert |bs| == 2;
  }

  // ---------- The smallest payload ----------

  ghost predicate AllAtLeastMinimum(bs: Layout) {
    forall i :: 0 <= i < |bs| - 1 ==> Payload(bs, i) >= MIN_SIZE
  }

  /** rt_malloc leaves no payload below the minimum. */
  lemma TakeKeepsMinimum(bs: Layout, k: nat, size: nat)
    requires AllAtLeastMinimum(bs) && k + 1 < |bs| && MIN_SIZE <= size <= Payload(bs, k)
    ensures AllAtLeastMinimum(Take(bs, k, size))
  {
    if Payload(bs, k) >= size + HEADER + MIN_SIZE {
      SplitPayloads(bs, k, size);
    } else {
      var r := Take(bs, k, size);
      forall i | 0 <= i < |r| - 1 ensures Payload(r, i) >= MIN_SIZE {
        assert Payload(bs, i) >= MIN_SIZE;
      }
    }
  }

  lemma SplitPayloads(bs: Layout, k: nat, size: nat)
    requires AllAtLeastMinimum(bs) && k + 1 < |bs| && size + HEADER <= Payload(bs, k)
    ensures |Split(bs, k, size)| == |bs| + 1
    ensures Payload(Split(bs, k, size), k) == size
    ensures Payload(Split(bs, k, size), k + 1) == Payload(bs, k) - size - HEADER
    ensures forall i :: 0 <= i < |bs| && i != k && i != k + 1 ==> Payload(Split(bs, k, size), i) >= MIN_SIZE
  {
    var r := Split(bs, k, size);
    forall i | 0 <= i < |bs| && i != k && i != k + 1 ensures Payload(r, i) >= MIN_SIZE {
      var j := if i < k then i else i - 1;
      assert r[i].at == bs[j].at && r[i + 1].at == bs[j + 1].at && Payload(bs, j) >= MIN_SIZE;
    }
  }

  lemma PlugKeepsMinimum(bs: Layout, k: nat)
    requires AllAtLeastMinimum(bs) && k + 1 < |bs|
    ensures AllAtLeastMinimum(Plug(bs, k))
  {
    var t := MergeNext(bs, k);
    assert AllAtLeastMinimum(t) by {
      if k + 2 < |bs| && !bs[k + 1].used { RemoveKeepsMinimum(bs, k + 1); }
    }
    if 0 < k < |t| && !t[k - 1].used { RemoveKeepsMinimum(t, k); }
  }

  lemma RemoveKeepsMinimum(bs: Layout, k: nat)
    requires AllAtLeastMinimum(bs) && 0 < k < |bs| - 1
    ensures AllAtLeastMinimum(Remove(bs, k))
  {
    var r := Remove(bs, k);
    forall i | 0 <= i < |r| - 1 ensures Payload(r, i) >= MIN_SIZE {
      if i == k - 1 {
        assert r[i] == bs[k - 1] && r[i + 1] == bs[k + 1];
        assert Payload(bs, k - 1) >= MIN_SIZE && Payload(bs, k) >= MIN_SIZE;
      } else {
        var j := if i < k - 1 then i else i + 1;
        assert r[i] == bs[j] && r[i + 1] == bs[j + 1] && Payload(bs, j) >= MIN_SIZE;
      }
    }
  }

  /** Nor does rt_free. */
  lemma ReleaseKeepsMinimum(bs: Layout, k: nat)
    requires AllAtLeastMinimum(bs) && k + 1 < |bs|
    ensures AllAtLeastMinimum(Release(bs, k))
  {
    var freed := bs[k := Block(bs[k].at, false)];
    assert AllAtLeastMinimum(freed) by {
      forall i | 0 <= i < |freed| - 1 ensures Payload(freed, i) >= MIN_SIZE {
        assert Payload(bs, i) >= MIN_SIZE;
      }
    }
    PlugKeepsMinimum(freed, k);
  }

  /** A shrinking rt_realloc does if and only if it is asked for less than the minimum: the tail it cuts off
      is always larger, but nothing keeps the allocation itself from being smaller. */
  lemma ShrinkKeepsMinimum(bs: Layout, k: nat, size: nat)
    requires AllAtLeastMinimum(bs) && k + 1 < |bs| && 1 <= size && ShrinksInPlace(bs, k, size)
    ensures Payload(Split(bs, k, size), k + 1) > MIN_SIZE
    ensures AllAtLeastMinimum(Shrink(bs, k, size)) <==> size >= MIN_SIZE
  {
    var t := Split(bs, k, size);
    SplitPayloads(bs, k, size);
    if size >= MIN_SIZE {
      PlugKeepsMinimum(t, k + 1);
    } else {
      var n := MergeNext(t, k + 1);
      assert n[k] == t[k] && n[k + 1] == t[k + 1];
      assert Shrink(bs, k, size) == n;
      assert Payload(n, k) == size;
    }
  }

  ghost predicate Reaches(bs: Layout, end: nat, k: nat, size: nat, r: Layout) {
    IsFirstFit(bs, end, k, size) && r == Take(bs, k, size)
  }

  /** Such an allocation becomes a free block below the minimum when it is released after what was cut off
      has been allocated: five calls on a fresh heap of 37 words. */
  lemma ShortFreeBlock()
    ensures var start := [Block(0, false), Block(40, true)];
            var one := [Block(0, true), Block(20, false), Block(40, true)];
            var two := [Block(0, true), Block(20, true), Block(40, true)];
            var shrunk := [Block(0, true), Block(4, false), Block(20, true), Block(40, true)];
            var three := [Block(0, true), Block(4, true), Block(20, true), Block(40, true)];
            && Reaches(start, 40, 0, 17, one) && Reaches(one, 40, 1, 16, two)
            && ShrinksInPlace(two, 0, 1) && shrunk == Shrink(two, 0, 1)
            && Reaches(shrunk, 40, 1, 13, three)
            && Release(three, 0) == [Block(0, false), Block(4, true), Block(20, true), Block(40, true)]
            && Payload(Release(three, 0), 0) == 1
  {
    var start := [Block(0, false), Block(40, true)];
    var one := [Block(0, true), Block(20, false), Block(40, true)];
    var two := [Block(0, true), Block(20, true), Block(40, true)];
    var shrunk := [Block(0, true), Block(4, false), Block(20, true), Block(40, true)];
    var three := [Block(0, true), Block(4, true), Block(20, true), Block(40, true)];
    assert Take(start, 0, 17) == one;
    assert Take(one, 1, 16) == two;
    assert Split(two, 0, 1) == shrunk;
    assert Shrink(two, 0, 1) == shrunk;
    assert Take(shrunk, 1, 13) == three;
  }

  lemma SamePayloadsTransitive(m0: seq<int>, m1: seq<int>, m2: seq<int>, bs: Layout)
    requires SamePayloads(m0, m1, bs) && SamePayloads(m1, m2, bs)
    ensures SamePayloads(m0, m2, bs)
  {
  }

  // ---------- Moving an allocation ----------

  lemma WriteInPayload(m: seq<int>, bs: Layout, q: nat, l: nat, x: nat, value: int)
    requires Represents(m, bs) && IsLive(bs, q, l) && q <= x < q + l && x < |m|
    ensures Represents(m[x := value], bs)
  {
    var m' := m[x := value];
    forall i: nat | i < |bs| ensures HeaderAt(m', bs, i) {
      HeadersAreOutside(bs, |m| - HEADER, q, l, i);
      assert HeaderAt(m, bs, i);
    }
  }

  /** Every live allocation other than the one at q has the same words in both memories. */
  ghost predicate SameOtherPayloads(m: seq<int>, m': seq<int>, bs: Layout, q: nat) {
    && |m| == |m'|
    && forall p: nat, n: nat :: IsLive(bs, p, n) && p != q && p + n <= |m| ==> m'[p..p + n] == m[p..p + n]
  }

  lemma SameOthersReflexive(m: seq<int>, bs: Layout, q: nat)
    ensures SameOtherPayloads(m, m, bs, q)
  {
  }

  lemma WriteKeepsOthers(m0: seq<int>, m: seq<int>, bs: Layout, q: nat, l: nat, x: nat, value: int)
    requires |m| >= HEADER && Tiles(bs, |m| - HEADER) && IsLive(bs, q, l) && q <= x < q + l && x < |m|
    requires SameOtherPayloads(m0, m, bs, q)
    ensures SameOtherPayloads(m0, m[x := value], bs, q)
  {
    forall p: nat, n: nat | IsLive(bs, p, n) && p != q && p + n <= |m|
      ensures m[x := value][p..p + n] == m0[p..p + n]
    {
      LiveAreDisjoint(bs, |m| - HEADER, p, n, q, l);
    }
  }

  function Lesser(a: nat, b: nat): nat {
    if a < b then a else b
  }

  /** One step of the copy into the allocation at q. */
  lemma CopyStep(m0: seq<int>, m: seq<int>, m': seq<int>, bs: Layout, q: nat, l: nat, x: nat)
    requires Represents(m, bs) && IsLive(bs, q, l) && q <= x < q + l && x < |m|
    requires |m'| == |m| && m' == m[x := m'[x]] && SameOtherPayloads(m0, m, bs, q)
    ensures Represents(m', bs) && SameOtherPayloads(m0, m', bs, q)
  {
    WriteInPayload(m, bs, q, l, x, m'[x]);
    WriteKeepsOthers(m0, m, bs, q, l, x, m'[x]);
  }

  /** What rt_realloc promises when it returns an allocation: the one at p with its n words is now at
      q with at least `size` words, the common prefix is kept, and nothing else has changed. */
  ghost predicate Reallocated(m: seq<int>, bs: Layout, m': seq<int>, bs': Layout, p: nat, n: nat, q: nat, size: nat) {
    var c := Lesser(n, size);
    && OthersUntouched(m, bs, m', bs', p, q)
    && p + c <= |m| && q + c <= |m|
    && (exists l: nat :: size <= l && IsLive(bs', q, l))
    && m'[q..q + c] == m[p..p + c]
    && (p != q ==> Vacated(bs, bs', p, q))
  }

  ghost predicate Vacated(bs: Layout, bs': Layout, p: nat, q: nat) {
    forall k: nat :: !IsLive(bs', p, k) && !IsLive(bs, q, k)
  }

  ghost predicate OthersUntouched(m: seq<int>, bs: Layout, m': seq<int>, bs': Layout, p: nat, q: nat) {
    && |m| == |m'|
    && forall r: nat, k: nat :: r != p && r != q ==>
      && (IsLive(bs', r, k) <==> IsLive(bs, r, k))
      && (IsLive(bs, r, k) && r + k <= |m| ==> m'[r..r + k] == m[r..r + k])
  }

  lemma StaysInPlace(m: seq<int>, bs: Layout, p: nat, n: nat, size: nat)
    requires Represents(m, bs) && IsLive(bs, p, n) && size <= n
    ensures Reallocated(m, bs, m, bs, p, n, p, size)
  {
    HeadersAreOutside(bs, |m| - HEADER, p, n, 0);
  }

  lemma PrefixOfEqual(m: seq<int>, m': seq<int>, p: nat, n: nat, c: nat)
    requires c <= n && p + n <= |m| == |m'| && m'[p..p + n] == m[p..p + n]
    ensures m'[p..p + c] == m[p..p + c]
  {
    assert m'[p..p + c] == m'[p..p + n][..c];
    assert m[p..p + c] == m[p..p + n][..c];
  }

  lemma ShrinkReallocates(m: seq<int>, bs: Layout, m': seq<int>, k: nat, n: nat, size: nat)
    requires Represents(m, bs) && k + 1 < |bs| && bs[k].used && Payload(bs, k) == n && size <= n
    requires SamePayloads(m, m', Shrink(bs, k, size))
    ensures Reallocated(m, bs, m', Shrink(bs, k, size), bs[k].at + HEADER, n, bs[k].at + HEADER, size)
  {
    var p, end, bs' := bs[k].at + HEADER, |m| - HEADER, Shrink(bs, k, size);
    forall r: nat, l: nat
      ensures IsLive(bs', r, l) <==> (IsLive(bs, r, l) && r != p) || (r == p && l == size)
    {
      LiveAfterShrink(bs, end, k, size, r, l);
    }
    assert IsLive(bs', p, size);
    UsedIsLive(bs, end, k);
    HeadersAreOutside(bs, end, p, n, 0);
  }

  ghost predicate TakesFree(bs: Layout, k: nat, size: nat) {
    k + 1 < |bs| && !bs[k].used && 1 <= size <= Payload(bs, k)
  }

  lemma PrefixThrough(m: seq<int>, m1: seq<int>, m2: seq<int>, m3: seq<int>, bs1: Layout, bs3: Layout,
                      p: nat, n: nat, q: nat, l: nat, c: nat)
    requires SamePayloads(m, m1, bs1) && IsLive(bs1, p, n) && SamePayloads(m2, m3, bs3) && IsLive(bs3, q, l)
    requires |m1| == |m2| && c <= n && c <= l && p + n <= |m| && q + l <= |m|
    requires m2[q..q + c] == m1[p..p + c]
    ensures m3[q..q + c] == m[p..p + c]
  {
    PrefixOfEqual(m2, m3, q, l, c);
    PrefixOfEqual(m, m1, p, n, c);
  }

  /** Allocate block k0 at q, copy c words, release block k1 at p: the layouts bs, bs1, bs3 and the
      memories m, m1 (allocated), m2 (copied), m3 (released). */
  ghost predicate Moves(m: seq<int>, bs: Layout, m1: seq<int>, bs1: Layout, m2: seq<int>, m3: seq<int>, bs3: Layout,
                        k0: nat, s: nat, size: nat, k1: nat, p: nat, n: nat, q: nat, l: nat, c: nat)
  {
    && |m| >= HEADER && Tiles(bs, |m| - HEADER) && Tiles(bs1, |m| - HEADER)
    && TakesFree(bs, k0, s) && IsLive(bs, p, n) && p != q == bs[k0].at + HEADER
    && bs1 == Take(bs, k0, s) && size <= s <= l == Payload(bs1, k0) && c == Lesser(n, size)
    && k1 + 1 < |bs1| && bs1[k1].used && bs1[k1].at + HEADER == p && bs3 == Release(bs1, k1)
    && SamePayloads(m, m1, bs1) && SameOtherPayloads(m1, m2, bs1, q) && SamePayloads(m2, m3, bs3)
    && p + c <= |m| && q + c <= |m| && m2[q..q + c] == m1[p..p + c]
  }

  lemma LiveOfMove(bs: Layout, end: nat, bs1: Layout, bs3: Layout, k0: nat, s: nat, k1: nat, p: nat, q: nat, l: nat, r: nat, i: nat)
    requires Tiles(bs1, end) && TakesFree(bs, k0, s) && q == bs[k0].at + HEADER
    requires bs1 == Take(bs, k0, s) && l == Payload(bs1, k0)
    requires k1 + 1 < |bs1| && bs1[k1].used && bs1[k1].at + HEADER == p && bs3 == Release(bs1, k1)
    ensures IsLive(bs1, r, i) <==> IsLive(bs, r, i) || (r == q && i == l)
    ensures IsLive(bs3, r, i) <==> IsLive(bs1, r, i) && r != p
  {
    LiveAfterTake(bs, k0, s, r, i);
    LiveAfterRelease(bs1, end, k1, r, i);
  }

  lemma MoveKeepsPrefix(m: seq<int>, bs: Layout, m1: seq<int>, bs1: Layout, m2: seq<int>, m3: seq<int>, bs3: Layout,
                        k0: nat, s: nat, size: nat, k1: nat, p: nat, n: nat, q: nat, l: nat, c: nat)
    requires Moves(m, bs, m1, bs1, m2, m3, bs3, k0, s, size, k1, p, n, q, l, c)
    ensures IsLive(bs3, q, l) && m3[q..q + c] == m[p..p + c]
  {
    var end := |m| - HEADER;
    LiveOfMove(bs, end, bs1, bs3, k0, s, k1, p, q, l, q, l);
    LiveOfMove(bs, end, bs1, bs3, k0, s, k1, p, q, l, p, n);
    HeadersAreOutside(bs1, end, q, l, 0);
    HeadersAreOutside(bs1, end, p, n, 0);
    PrefixThrough(m, m1, m2, m3, bs1, bs3, p, n, q, l, c);
  }

  lemma MoveKeepsOthers(m: seq<int>, bs: Layout, m1: seq<int>, bs1: Layout, m2: seq<int>, m3: seq<int>, bs3: Layout,
                        k0: nat, s: nat, size: nat, k1: nat, p: nat, n: nat, q: nat, l: nat, c: nat)
    requires Moves(m, bs, m1, bs1, m2, m3, bs3, k0, s, size, k1, p, n, q, l, c)
    ensures OthersUntouched(m, bs, m3, bs3, p, q)
  {
    forall r: nat, i: nat | r != p && r != q
      ensures IsLive(bs3, r, i) <==> IsLive(bs, r, i)
      ensures IsLive(bs, r, i) && r + i <= |m| ==> m3[r..r + i] == m[r..r + i]
    {
      LiveOfMove(bs, |m| - HEADER, bs1, bs3, k0, s, k1, p, q, l, r, i);
    }
  }

  lemma MoveVacates(m: seq<int>, bs: Layout, m1: seq<int>, bs1: Layout, m2: seq<int>, m3: seq<int>, bs3: Layout,
                    k0: nat, s: nat, size: nat, k1: nat, p: nat, n: nat, q: nat, l: nat, c: nat)
    requires Moves(m, bs, m1, bs1, m2, m3, bs3, k0, s, size, k1, p, n, q, l, c)
    ensures c == Lesser(n, size) && p + c <= |m| && q + c <= |m| && size <= l && p != q && Vacated(bs, bs3, p, q)
  {
    forall i: nat ensures !IsLive(bs3, p, i) && !IsLive(bs, q, i) {
      LiveOfMove(bs, |m| - HEADER, bs1, bs3, k0, s, k1, p, q, l, p, i);
      if IsLive(bs, q, i) {
        LiveIsUnique(bs, |m| - HEADER, k0, q, i);
      }
    }
  }

  lemma MoveReallocates(m: seq<int>, bs: Layout, m1: seq<int>, bs1: Layout, m2: seq<int>, m3: seq<int>, bs3: Layout,
                        k0: nat, s: nat, size: nat, k1: nat, p: nat, n: nat, q: nat, l: nat, c: nat)
    requires Moves(m, bs, m1, bs1, m2, m3, bs3, k0, s, size, k1, p, n, q, l, c)
    ensures Reallocated(m, bs, m3, bs3, p, n, q, size)
  {
    hide Moves;
    MoveKeepsPrefix(m, bs, m1, bs1, m2, m3, bs3, k0, s, size, k1, p, n, q, l, c);
    MoveKeepsOthers(m, bs, m1, bs1, m2, m3, bs3, k0, s, size, k1, p, n, q, l, c);
    MoveVacates(m, bs, m1, bs1, m2, m3, bs3, k0, s, size, k1, p, n, q, l, c);
  }

  /** After the allocation, the old block is still there and apart from the new one. */
  lemma MoveTargets(bs: Layout, end: nat, bs1: Layout, k0: nat, s: nat, k: nat, p: nat, n: nat)
    returns (q: nat, l: nat, k1: nat)
    requires Tiles(bs, end) && Coalesced(bs) && IsFirstFit(bs, end, k0, s) && 1 <= s && bs1 == Take(bs, k0, s)
    requires k + 1 < |bs| && LiveBlock(bs, k, p, n)
    ensures TakesFree(bs, k0, s) && k0 + 1 < |bs1| && s <= l == Payload(bs1, k0) && q == bs[k0].at + HEADER
    ensures k1 + 1 < |bs1| && LiveBlock(bs1, k1, p, n)
    ensures Tiles(bs1, end) && IsLive(bs1, p, n) && IsLive(bs, p, n) && IsLive(bs1, q, l)
    ensures p != q && p < end && p + n <= end && q + l <= end && (p + n <= q || q + l <= p)
  {
    TakeKeeps(bs, end, k0, s);
    q, l := bs[k0].at + HEADER, Payload(bs1, k0);
    assert IsLive(bs, p, n);
    if p == q {
      LiveIsUnique(bs, end, k0, p, n);
    }
    LiveAfterTake(bs, k0, s, p, n);
    LiveAfterTake(bs, k0, s, q, l);
    LiveAreDisjoint(bs1, end, p, n, q, l);
    HeadersAreOutside(bs1, end, q, l, 0);
    k1 :| k1 + 1 < |bs1| && LiveBlock(bs1, k1, p, n);
  }
}
