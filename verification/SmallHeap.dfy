/** The small-memory allocator of os/rt-thread-nano/src/mem.c.

    The heap is an array of machine words of RT_ALIGN_SIZE = 4 bytes with the block headers inside
    it, as in the source; offsets and sizes below are in words, and SIZEOF_STRUCT_MEM and MIN_SIZE
    are three words each.  Requests come in bytes and are rounded with the source's 32-bit RT_ALIGN. */
module SmallHeap {

  const HEADER := 3
  const MIN_SIZE := 3
  const MAGIC := 0x1ea0
  const WORD_BYTES := 4
  const WRAP := 0x1_0000_0000

  // ---------- The abstract heap: blocks in address order, the end marker last ----------

  datatype Block = Block(at: nat, used: bool)

  type Layout = seq<Block>

  /** Blocks start at 0, leave room for a header and at least one word, and end at the marker. */
  ghost predicate Tiles(bs: Layout, end: nat) {
    && |bs| >= 2
    && bs[0].at == 0
    && bs[|bs| - 1] == Block(end, true)
    && forall i :: 0 <= i < |bs| - 1 ==> bs[i].at + HEADER < bs[i + 1].at
  }

  /** No two free blocks are adjacent. */
  ghost predicate Coalesced(bs: Layout) {
    forall i :: 0 <= i < |bs| - 1 ==> bs[i].used || bs[i + 1].used
  }

  function Payload(bs: Layout, i: nat): int
    requires i + 1 < |bs|
  {
    bs[i + 1].at - bs[i].at - HEADER
  }

  /** Index of the lowest free block, or of the end marker. */
  ghost function FirstFree(bs: Layout): (k: nat)
    requires |bs| > 0
    ensures k < |bs|
    ensures forall i :: 0 <= i < k ==> bs[i].used
    ensures !bs[k].used || k == |bs| - 1
  {
    if |bs| == 1 || !bs[0].used then 0 else 1 + FirstFree(bs[1..])
  }

  /** Total size, headers included, of the used blocks; the last block only marks the end. */
  ghost function UsedWords(bs: Layout): int {
    if |bs| < 2 then 0
    else UsedWords(bs[1..]) + if bs[0].used then bs[1].at - bs[0].at else 0
  }

  /** A live allocation: n words of payload from p. */
  ghost predicate IsLive(bs: Layout, p: nat, n: nat) {
    exists i: nat :: i + 1 < |bs| && LiveBlock(bs, i, p, n)
  }

  ghost predicate LiveBlock(bs: Layout, i: nat, p: nat, n: nat)
    requires i + 1 < |bs|
  {
    bs[i].used && bs[i].at + HEADER == p && bs[i + 1].at == p + n
  }

  // ---------- What the operations do to the layout ----------

  /** The search of rt_malloc accepts block i: free, large enough, and below the bound of the loop. */
  ghost predicate Accepts(bs: Layout, end: nat, i: nat, size: nat)
    requires i + 1 < |bs|
  {
    !bs[i].used && Payload(bs, i) >= size && bs[i].at < end - HEADER - size
  }

  ghost predicate IsFirstFit(bs: Layout, end: nat, k: nat, size: nat) {
    && k + 1 < |bs|
    && Accepts(bs, end, k, size)
    && forall i :: 0 <= i < k ==> !Accepts(bs, end, i, size)
  }

  ghost predicate NothingFits(bs: Layout, end: nat, size: nat) {
    forall i :: 0 <= i < |bs| - 1 ==> !Accepts(bs, end, i, size)
  }

  function Split(bs: Layout, k: nat, size: nat): Layout
    requires k < |bs|
  {
    bs[..k] + [Block(bs[k].at, true), Block(bs[k].at + HEADER + size, false)] + bs[k + 1..]
  }

  function Take(bs: Layout, k: nat, size: nat): Layout
    requires k + 1 < |bs|
  {
    if Payload(bs, k) >= size + HEADER + MIN_SIZE then Split(bs, k, size)
    else bs[k := Block(bs[k].at, true)]
  }

  function Remove(bs: Layout, k: nat): Layout
    requires k < |bs|
  {
    bs[..k] + bs[k + 1..]
  }

  function MergeNext(bs: Layout, k: nat): Layout {
    if k + 2 < |bs| && !bs[k + 1].used then Remove(bs, k + 1) else bs
  }

  function MergePrevious(bs: Layout, k: nat): Layout {
    if 0 < k < |bs| && !bs[k - 1].used then Remove(bs, k) else bs
  }

  function Plug(bs: Layout, k: nat): Layout {
    MergePrevious(MergeNext(bs, k), k)
  }

  function Release(bs: Layout, k: nat): Layout
    requires k < |bs|
  {
    Plug(bs[k := Block(bs[k].at, false)], k)
  }

  /** The guard of the in-place branch of rt_realloc. */
  predicate ShrinksInPlace(bs: Layout, k: nat, size: nat)
    requires k + 1 < |bs|
  {
    size + HEADER + MIN_SIZE < Payload(bs, k)
  }

  function Shrink(bs: Layout, k: nat, size: nat): Layout
    requires k < |bs|
  {
    Plug(Split(bs, k, size), k + 1)
  }

  // ---------- The headers inside the memory ----------

  function Tag(used: bool): int {
    if used then MAGIC + 0x1_0000 else MAGIC
  }

  function NextOf(bs: Layout, i: nat): int
    requires i < |bs|
  {
    if i + 1 < |bs| then bs[i + 1].at else bs[i].at
  }

  ghost predicate HeaderAt(m: seq<int>, bs: Layout, i: nat)
    requires i < |bs|
  {
    var at := bs[i].at;
    && at + HEADER <= |m|
    && m[at] == Tag(bs[i].used)
    && m[at + 1] == NextOf(bs, i)
    && (i == 0 ==> m[at + 2] == 0)
    && (0 < i < |bs| - 1 ==> m[at + 2] == bs[i - 1].at)   // heap_end's prev is not maintained
  }

  ghost predicate Represents(m: seq<int>, bs: Layout) {
    && |m| >= HEADER
    && Tiles(bs, |m| - HEADER)
    && forall i :: 0 <= i < |bs| ==> HeaderAt(m, bs, i)
  }

  /** Every live allocation of bs has the same words in both memories. */
  ghost predicate SamePayloads(m: seq<int>, m': seq<int>, bs: Layout) {
    && |m| == |m'|
    && forall p: nat, n: nat :: IsLive(bs, p, n) && p + n <= |m| ==> m'[p..p + n] == m[p..p + n]
  }

  // ---------- Lemmas about layouts ----------

  lemma {:induction false} Increasing(bs: Layout, end: nat, i: nat, j: nat)
    requires Tiles(bs, end) && i < j < |bs|
    ensures bs[i].at + HEADER < bs[j].at
  {
    if i + 1 < j {
      Increasing(bs, end, i, j - 1);
    }
  }

  lemma FirstFreeIs(bs: Layout, k: nat)
    requires k < |bs| && (forall i :: 0 <= i < k ==> bs[i].used) && (!bs[k].used || k == |bs| - 1)
    ensures FirstFree(bs) == k
  {
  }

  // ---------- Splitting, removing and flagging keep the tiling and the headers ----------

  lemma SplitTiles(bs: Layout, end: nat, k: nat, size: nat)
    requires Tiles(bs, end) && k + 1 < |bs| && 1 <= size && size + HEADER < Payload(bs, k)
    ensures Tiles(Split(bs, k, size), end)
  {
  }

  lemma RemoveTiles(bs: Layout, end: nat, k: nat)
    requires Tiles(bs, end) && 0 < k < |bs| - 1
    ensures Tiles(Remove(bs, k), end)
  {
    Increasing(bs, end, k - 1, k + 1);
  }

  /** The header writes that cut a used block off the front of the block from `at` to `next`. */
  function WriteSplit(m: seq<int>, at: nat, at2: nat, next: nat): seq<int>
    requires at + HEADER <= at2 && at2 + HEADER <= next && next + HEADER <= |m|
  {
    var m := m[at2 := Tag(false)][at2 + 1 := next][at2 + 2 := at][at + 1 := at2][at := Tag(true)];
    if next != |m| - HEADER then m[next + 2 := at2] else m
  }

  function SplitWords(m: seq<int>, bs: Layout, k: nat, size: nat): seq<int>
    requires k + 1 < |bs| && bs[k + 1].at + HEADER <= |m| && size + HEADER <= Payload(bs, k)
  {
    WriteSplit(m, bs[k].at, bs[k].at + HEADER + size, bs[k + 1].at)
  }

  lemma SplitHeaderBefore(m: seq<int>, bs: Layout, k: nat, size: nat, i: nat)
    requires Represents(m, bs) && k + 1 < |bs| && 1 <= size && size + HEADER < Payload(bs, k) && i < k
    requires HeaderAt(m, bs, k + 1)
    ensures HeaderAt(SplitWords(m, bs, k, size), Split(bs, k, size), i)
  {
    var bs' := Split(bs, k, size);
    assert HeaderAt(m, bs, i);
    Increasing(bs, |m| - HEADER, i, k);
    assert bs'[i] == bs[i] && NextOf(bs', i) == NextOf(bs, i);
  }

  lemma SplitHeaderAfter(m: seq<int>, bs: Layout, k: nat, size: nat, i: nat)
    requires Represents(m, bs) && k + 1 < |bs| && 1 <= size && size + HEADER < Payload(bs, k) && k + 1 < i < |bs|
    requires HeaderAt(m, bs, k + 1)
    ensures HeaderAt(SplitWords(m, bs, k, size), Split(bs, k, size), i + 1)
  {
    var bs' := Split(bs, k, size);
    assert HeaderAt(m, bs, i);
    Increasing(bs, |m| - HEADER, k + 1, i);
    assert bs'[i + 1] == bs[i] && NextOf(bs', i + 1) == NextOf(bs, i) && bs'[i] == bs[i - 1];
  }

  lemma SplitHeaderOfBlock(m: seq<int>, bs: Layout, k: nat, size: nat)
    requires Represents(m, bs) && k + 1 < |bs| && 1 <= size && size + HEADER < Payload(bs, k)
    requires HeaderAt(m, bs, k + 1)
    ensures HeaderAt(SplitWords(m, bs, k, size), Split(bs, k, size), k)
  {
    var bs' := Split(bs, k, size);
    assert HeaderAt(m, bs, k);
    assert bs'[k] == Block(bs[k].at, true) && bs'[k + 1] == Block(bs[k].at + HEADER + size, false);
    if k > 0 {
      assert bs'[k - 1] == bs[k - 1];
    }
  }

  lemma SplitHeaderOfRest(m: seq<int>, bs: Layout, k: nat, size: nat)
    requires Represents(m, bs) && k + 1 < |bs| && 1 <= size && size + HEADER < Payload(bs, k)
    requires HeaderAt(m, bs, k + 1)
    ensures HeaderAt(SplitWords(m, bs, k, size), Split(bs, k, size), k + 1)
  {
    var bs' := Split(bs, k, size);
    assert bs'[k] == Block(bs[k].at, true) && bs'[k + 1] == Block(bs[k].at + HEADER + size, false);
    assert bs'[k + 2] == bs[k + 1];
  }

  lemma SplitHeaderOfNext(m: seq<int>, bs: Layout, k: nat, size: nat)
    requires Represents(m, bs) && k + 1 < |bs| && 1 <= size && size + HEADER < Payload(bs, k)
    requires HeaderAt(m, bs, k + 1)
    ensures HeaderAt(SplitWords(m, bs, k, size), Split(bs, k, size), k + 2)
  {
    var bs', end := Split(bs, k, size), |m| - HEADER;
    assert bs'[k + 1] == Block(bs[k].at + HEADER + size, false);
    assert bs'[k + 2] == bs[k + 1] && NextOf(bs', k + 2) == NextOf(bs, k + 1);
    if k + 1 < |bs| - 1 {
      Increasing(bs, end, k + 1, |bs| - 1);
    }
  }

  lemma SplitHeader(m: seq<int>, bs: Layout, k: nat, size: nat, i: nat)
    requires Represents(m, bs) && k + 1 < |bs| && 1 <= size && size + HEADER < Payload(bs, k) && i <= |bs|
    requires HeaderAt(m, bs, k + 1)
    ensures HeaderAt(SplitWords(m, bs, k, size), Split(bs, k, size), i)
  {
    if i < k {
      SplitHeaderBefore(m, bs, k, size, i);
    } else if i == k {
      SplitHeaderOfBlock(m, bs, k, size);
    } else if i == k + 1 {
      SplitHeaderOfRest(m, bs, k, size);
    } else if i == k + 2 {
      SplitHeaderOfNext(m, bs, k, size);
    } else {
      SplitHeaderAfter(m, bs, k, size, i - 1);
    }
  }

  lemma SplitRepresents(m: seq<int>, bs: Layout, k: nat, size: nat)
    requires Represents(m, bs) && k + 1 < |bs| && 1 <= size && size + HEADER < Payload(bs, k)
    ensures bs[k + 1].at + HEADER <= |m|
    ensures Represents(SplitWords(m, bs, k, size), Split(bs, k, size))
  {
    assert HeaderAt(m, bs, k + 1);
    SplitTiles(bs, |m| - HEADER, k, size);
    var m', bs' := SplitWords(m, bs, k, size), Split(bs, k, size);
    forall i: nat | i < |bs'| ensures HeaderAt(m', bs', i) {
      SplitHeader(m, bs, k, size, i);
    }
  }

  function RemoveWords(m: seq<int>, bs: Layout, k: nat): seq<int>
    requires 0 < k < |bs| - 1 && bs[k - 1].at + HEADER <= |m| && bs[k + 1].at + HEADER <= |m|
  {
    m[bs[k - 1].at + 1 := bs[k + 1].at][bs[k + 1].at + 2 := bs[k - 1].at]
  }

  lemma RemoveHeaderBefore(m: seq<int>, bs: Layout, k: nat, i: nat)
    requires Represents(m, bs) && 0 < k < |bs| - 1 && i < k
    requires HeaderAt(m, bs, k - 1) && HeaderAt(m, bs, k + 1)
    ensures HeaderAt(RemoveWords(m, bs, k), Remove(bs, k), i)
  {
    var end, bs' := |m| - HEADER, Remove(bs, k);
    assert HeaderAt(m, bs, i) && bs'[i] == bs[i];
    Increasing(bs, end, i, k + 1);
    if i < k - 1 {
      Increasing(bs, end, i, k - 1);
      assert NextOf(bs', i) == NextOf(bs, i);
    }
  }

  lemma RemoveHeaderAfter(m: seq<int>, bs: Layout, k: nat, i: nat)
    requires Represents(m, bs) && 0 < k < |bs| - 1 && k < i < |bs|
    requires HeaderAt(m, bs, k - 1) && HeaderAt(m, bs, k + 1)
    ensures HeaderAt(RemoveWords(m, bs, k), Remove(bs, k), i - 1)
  {
    var end, bs' := |m| - HEADER, Remove(bs, k);
    assert HeaderAt(m, bs, i) && bs'[i - 1] == bs[i] && NextOf(bs', i - 1) == NextOf(bs, i);
    Increasing(bs, end, k - 1, i);
    if i > k + 1 {
      Increasing(bs, end, k + 1, i);
      assert bs'[i - 2] == bs[i - 1];
    }
  }

  lemma RemoveRepresents(m: seq<int>, bs: Layout, k: nat)
    requires Represents(m, bs) && 0 < k < |bs| - 1
    ensures bs[k - 1].at + HEADER <= |m| && bs[k + 1].at + HEADER <= |m|
    ensures Represents(RemoveWords(m, bs, k), Remove(bs, k))
  {
    assert HeaderAt(m, bs, k - 1) && HeaderAt(m, bs, k + 1);
    RemoveTiles(bs, |m| - HEADER, k);
    var m', bs' := RemoveWords(m, bs, k), Remove(bs, k);
    forall i | 0 <= i < |bs'| ensures HeaderAt(m', bs', i) {
      if i < k {
        RemoveHeaderBefore(m, bs, k, i);
      } else {
        RemoveHeaderAfter(m, bs, k, i + 1);
      }
    }
  }

  lemma FlagRepresents(m: seq<int>, bs: Layout, k: nat, used: bool)
    requires Represents(m, bs) && k + 1 < |bs|
    ensures bs[k].at < |m|
    ensures Represents(m[bs[k].at := Tag(used)], bs[k := Block(bs[k].at, used)])
  {
    var end, bs' := |m| - HEADER, bs[k := Block(bs[k].at, used)];
    assert HeaderAt(m, bs, k);
    var m' := m[bs[k].at := Tag(used)];
    forall i | 0 <= i < |bs'| ensures HeaderAt(m', bs', i) {
      assert HeaderAt(m, bs, i);
      if i < k {
        Increasing(bs, end, i, k);
      } else if k < i {
        Increasing(bs, end, k, i);
      }
    }
  }
}
