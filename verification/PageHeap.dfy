/** rt_page_alloc and rt_page_free of os/rt-thread-nano/src/slab.c on the list as it is kept in memory:
    the first page of a free run holds the length of the run and the address of the next one. */
module PageHeapObject {
  import opened Pages

  class PageHeap {
    const next: array<int>
    const page: array<nat>
    var list: int
    ghost var runs: seq<Run>

    ghost predicate Valid()
      reads this, next, page
    {
      && next.Length == page.Length
      && Coalesced(runs) && list == FirstOf(runs) && Chained(next[..], page[..], runs)
    }

    /** rt_page_init. */
    constructor (npages: nat)
      requires npages > 0
      ensures Valid() && next.Length == npages && runs == [Run(0, npages)] && fresh(next) && fresh(page)
    {
      next, page := new int[npages](_ => NULL), new nat[npages](_ => 0);
      list, runs := NULL, [];
      new;
      Free(0, npages);
    }

    /** *prev = n, where prev is the list head or the next field of a page. */
    method SetLink(prev: int, n: int)
      requires prev == NULL || 0 <= prev < next.Length
      modifies `list, next
      ensures list == if prev == NULL then n else old(list)
      ensures next[..] == if prev == NULL then old(next[..]) else old(next[..])[prev := n]
    {
      if prev == NULL {
        list := n;
      } else {
        next[prev] := n;
      }
    }

    method Alloc(npages: nat) returns (b: int)
      requires Valid()
      modifies this, next, page
      ensures Valid()
      ensures var (r, x) := Pages.Alloc(old(runs), npages); runs == r && b == if x.At? then x.page else NULL
    {
      if npages == 0 {
        return NULL;
      }
      var prev := NULL;
      b := list;
      ghost var i := 0;
      while b != NULL
        invariant i <= |runs| && b == FirstOf(runs[i..])
        invariant prev == if i == 0 then NULL else runs[i - 1].start
        invariant forall j :: 0 <= j < i ==> runs[j].count < npages
        decreases |runs| - i
      {
        assert Headed(next[..], page[..], runs, i);
        if page[b] >= npages {
          break;
        }
        prev := b;
        b := next[b];
        i := i + 1;
      }
      AllocPasses(runs, npages, i);
      if b != NULL {
        if page[b] > npages {
          SplitRun(prev, b, npages, i);
        } else {
          DropRun(prev, b, npages, i);
        }
      } else {
        assert runs[i..] == [] && runs[..i] + [] == runs;
      }
    }

    /** The cursor has found a run that is too long: keep its upper part. */
    method SplitRun(prev: int, b: nat, npages: nat, ghost i: nat)
      requires Valid() && i < |runs| && b == runs[i].start && 0 < npages < runs[i].count
      requires prev == if i == 0 then NULL else runs[i - 1].start
      requires Pages.Alloc(runs, npages).0 == runs[..i] + Pages.Alloc(runs[i..], npages).0
      modifies this, next, page
      ensures Valid() && runs == old(Pages.Alloc(runs, npages).0)
    {
      ghost var was, links, counts := runs, next[..], page[..];
      assert Headed(links, counts, was, i);
      hide Coalesced, IsFree, Chained;
      StartsInPages(links, counts, was);
      SplitPoint(was, i, npages);
      if i > 0 {
        Others(was, i - 1);
      }
      AllocCoalesces(was, npages);
      hide Pages.Alloc, Headed;
      var n := b + npages;
      next[n] := next[b];
      page[n] := page[b] - npages;
      SetLink(prev, n);
      ghost var run := Run(n, page[n]);
      runs := was[i := run];
      Replaced(links, counts, was, i, run, next[..], page[..]);
    }

    /** The cursor has found a run of the right length: remove it. */
    method DropRun(prev: int, b: nat, npages: nat, ghost i: nat)
      requires Valid() && i < |runs| && b == runs[i].start && 0 < npages == runs[i].count
      requires prev == if i == 0 then NULL else runs[i - 1].start
      requires Pages.Alloc(runs, npages).0 == runs[..i] + Pages.Alloc(runs[i..], npages).0
      modifies this, next
      ensures Valid() && runs == old(Pages.Alloc(runs, npages).0)
    {
      ghost var was, links, counts := runs, next[..], page[..];
      assert Headed(links, counts, was, i);
      hide Coalesced, IsFree, Chained;
      StartsInPages(links, counts, was);
      if i > 0 {
        Others(was, i - 1);
      }
      AllocCoalesces(was, npages);
      SetLink(prev, next[b]);
      assert Pages.Alloc(was[i..], npages).0 == [] + was[i + 1..];
      runs := was[..i] + ([] + was[i + 1..]);
      Spliced(links, counts, was, i, i + 1, [], next[..], page[..]);
    }

    /** The pages start where run b ends: lengthen it, and join it with the next run if it reaches that. */
    method JoinBehind(b: nat, npages: nat, ghost i: nat)
      requires Valid() && i < |runs| && b == runs[i].start && npages > 0 && runs[i].End() + npages <= next.Length
      requires NoneFree(runs, runs[i].End(), npages)
      requires Pages.Free(runs, runs[i].End(), npages) == runs[..i] + Pages.Free(runs[i..], runs[i].End(), npages)
      modifies next, page, `runs
      ensures Valid() && runs == old(Pages.Free(runs, runs[i].End(), npages))
    {
      assert Headed(next[..], page[..], runs, i);
      page[b] := page[b] + npages;
      assert page[..][b := runs[i].count] == old(page[..]);
      if b + page[b] == next[b] {
        FillGap(b, npages, i);
      } else {
        Lengthen(b, npages, i);
      }
    }

    /** The run has been lengthened, and does not reach the next one. */
    method Lengthen(b: nat, npages: nat, ghost i: nat)
      requires next.Length == page.Length && i < |runs| && b == runs[i].start && npages > 0
      requires Coalesced(runs) && list == FirstOf(runs) && b < page.Length && page[b] == runs[i].count + npages
      requires Chained(next[..], page[..][b := runs[i].count], runs)
      requires runs[i].End() + npages <= next.Length && next[b] != b + page[b]
      requires NoneFree(runs, runs[i].End(), npages)
      requires Pages.Free(runs, runs[i].End(), npages) == runs[..i] + Pages.Free(runs[i..], runs[i].End(), npages)
      modifies `runs
      ensures Valid() && runs == old(Pages.Free(runs, runs[i].End(), npages))
    {
      ghost var was, links, counts := runs, next[..], page[..][b := runs[i].count];
      assert Headed(links, counts, was, i);
      assert i > 0 ==> Headed(links, counts, was, i - 1);
      hide Coalesced, IsFree, NoneFree, Chained;
      StartsInPages(links, counts, was);
      Others(was, i);
      FreeCoalesces(was, was[i].End(), npages);
      ghost var run := Run(b, page[b]);
      assert Pages.Free(was, was[i].End(), npages) == was[i := run];
      runs := was[i := run];
      hide Headed;
      Replaced(links, counts, was, i, run, next[..], page[..]);
    }

    /** The run has been lengthened, and reaches the next one. */
    method FillGap(b: nat, npages: nat, ghost i: nat)
      requires next.Length == page.Length && i < |runs| && b == runs[i].start && npages > 0
      requires Coalesced(runs) && list == FirstOf(runs) && b < page.Length && page[b] == runs[i].count + npages
      requires Chained(next[..], page[..][b := runs[i].count], runs)
      requires runs[i].End() + npages <= next.Length && next[b] == b + page[b]
      requires NoneFree(runs, runs[i].End(), npages)
      requires Pages.Free(runs, runs[i].End(), npages) == runs[..i] + Pages.Free(runs[i..], runs[i].End(), npages)
      modifies next, page, `runs
      ensures Valid() && runs == old(Pages.Free(runs, runs[i].End(), npages))
    {
      ghost var was, links, counts := runs, next[..], page[..][b := runs[i].count];
      assert Headed(links, counts, was, i);
      assert Headed(links, counts, was, i + 1);
      assert i > 0 ==> Headed(links, counts, was, i - 1);
      hide Coalesced, IsFree, NoneFree, Chained;
      StartsInPages(links, counts, was);
      Others(was, i);
      FreeCoalesces(was, was[i].End(), npages);
      FreeFuses(was, i, npages);
      page[b] := page[b] + page[next[b]];
      next[b] := next[next[b]];
      hide Headed, Pages.Free, Fused;
      ghost var run := Run(b, page[b]);
      runs := Fused(was, i, run);
      FusedIsChained(links, counts, was, i, run, next[..], page[..]);
      assert list == FirstOf(runs) by {
        FirstOfFused(was, i, run);
      }
    }

    /** The pages end where run b starts: they become the start of the run. */
    method JoinBefore(prev: int, b: nat, a: nat, npages: nat, ghost i: nat)
      requires Valid() && i < |runs| && b == runs[i].start == a + npages && npages > 0
      requires prev == if i == 0 then NULL else runs[i - 1].start
      requires NoneFree(runs, a, npages) && runs[i].End() != a
      requires Pages.Free(runs, a, npages) == runs[..i] + Pages.Free(runs[i..], a, npages)
      modifies this, next, page
      ensures Valid() && runs == old(Pages.Free(runs, a, npages))
    {
      ghost var was, links, counts := runs, next[..], page[..];
      assert Headed(links, counts, was, i);
      hide Coalesced, IsFree, NoneFree, Chained;
      StartsInPages(links, counts, was);
      NotStarts(was, a, npages);
      FreeCoalesces(was, a, npages);
      page[a] := page[b] + npages;
      next[a] := next[b];
      SetLink(prev, a);
      ghost var run := Run(a, page[a]);
      assert Pages.Free(was, a, npages) == was[i := run];
      runs := was[i := run];
      if i > 0 {
        Others(was, i - 1);
      }
      hide Headed;
      Replaced(links, counts, was, i, run, next[..], page[..]);
    }

    /** The pages touch no run: they become one. */
    method NewRun(prev: int, b: int, a: nat, npages: nat, ghost i: nat)
      requires Valid() && i <= |runs| && b == FirstOf(runs[i..]) && npages > 0 && a + npages <= next.Length
      requires prev == if i == 0 then NULL else runs[i - 1].start
      requires NoneFree(runs, a, npages)
      requires Pages.Free(runs, a, npages) == runs[..i] + ([Run(a, npages)] + runs[i..])
      modifies this, next, page
      ensures Valid() && runs == old(Pages.Free(runs, a, npages))
    {
      ghost var was, links, counts := runs, next[..], page[..];
      hide Coalesced, IsFree, NoneFree, Chained;
      StartsInPages(links, counts, was);
      NotStarts(was, a, npages);
      FreeCoalesces(was, a, npages);
      page[a] := npages;
      next[a] := b;
      SetLink(prev, a);
      ghost var mid := [Run(a, npages)];
      runs := was[..i] + (mid + was[i..]);
      if i > 0 {
        Others(was, i - 1);
      }
      Spliced(links, counts, was, i, i, mid, next[..], page[..]);
    }

    method Free(a: nat, npages: nat)
      requires Valid() && npages > 0 && a + npages <= next.Length && NoneFree(runs, a, npages)
      modifies this, next, page
      ensures Valid() && runs == Pages.Free(old(runs), a, npages)
    {
      var prev, b := NULL, list;
      ghost var i := 0;
      while b != NULL
        invariant i <= |runs| && b == FirstOf(runs[i..])
        invariant prev == if i == 0 then NULL else runs[i - 1].start
        invariant forall j :: 0 <= j < i ==> runs[j].End() != a && runs[j].start < a + npages
        invariant Valid() && runs == old(runs)
        decreases |runs| - i
      {
        assert Headed(next[..], page[..], runs, i);
        FreePasses(runs, a, npages, i);
        if b + page[b] == a {
          JoinBehind(b, npages, i);
          return;
        }
        if b == a + npages {
          JoinBefore(prev, b, a, npages, i);
          return;
        }
        if b > a + npages {
          break;
        }
        prev := b;
        b := next[b];
        i := i + 1;
      }
      FreePasses(runs, a, npages, i);
      NewRun(prev, b, a, npages, i);
    }
  }

  lemma FreeCoalesces(runs: seq<Run>, a: Page, n: nat)
    requires Coalesced(runs) && n > 0 && NoneFree(runs, a, n)
    ensures Coalesced(Pages.Free(runs, a, n))
  {
    FreeGives(runs, a, n);
  }

  lemma AllocCoalesces(runs: seq<Run>, n: nat)
    requires Coalesced(runs)
    ensures Coalesced(Pages.Alloc(runs, n).0)
  {
    AllocTakes(runs, n);
  }

  lemma FirstOfFused(runs: seq<Run>, i: nat, run: Run)
    requires i + 1 < |runs| && run.start == runs[i].start
    ensures FirstOf(Fused(runs, i, run)) == FirstOf(runs)
  {
  }

  lemma Others(runs: seq<Run>, i: nat)
    requires Coalesced(runs) && i < |runs|
    ensures forall j :: 0 <= j < |runs| && j != i ==> runs[j].start != runs[i].start
  {
    forall j | 0 <= j < |runs| && j != i ensures runs[j].start != runs[i].start {
      if j < i { Pages.Apart(runs, j, i); } else { Pages.Apart(runs, i, j); }
    }
  }

  /** Splitting a run replaces it by its upper part, which starts where no run does. */
  lemma SplitPoint(runs: seq<Run>, i: nat, n: nat)
    requires Coalesced(runs) && i < |runs| && 0 < n < runs[i].count
    requires Pages.Alloc(runs, n).0 == runs[..i] + Pages.Alloc(runs[i..], n).0
    ensures forall j :: 0 <= j < |runs| ==> runs[j].start != runs[i].start + n
    ensures Pages.Alloc(runs, n).0 == runs[i := Run(runs[i].start + n, runs[i].count - n)]
  {
    forall j | 0 <= j < |runs| ensures runs[j].start != runs[i].start + n {
      if j < i {
        Pages.Apart(runs, j, i);
      } else if i < j {
        Pages.Apart(runs, i, j);
      }
    }
  }

  lemma {:induction false} NotStarts(runs: seq<Run>, a: Page, n: nat)
    requires Coalesced(runs) && n > 0 && NoneFree(runs, a, n)
    ensures forall j :: 0 <= j < |runs| ==> runs[j].start != a
  {
    if runs != [] {
      assert Within(a, n, a);
      assert IsFree(runs, runs[0].start);
      NotStarts(runs[1..], a, n);
      assert forall j :: 0 < j < |runs| ==> runs[j] == runs[1..][j - 1];
    }
  }
}
