/** The page allocator under os/rt-thread-nano/src/slab.c: a list of free runs of pages, kept in the
    free pages themselves, in address order and fully coalesced. Pages are numbered. */
module Pages {

  type Page = nat

  datatype Run = Run(start: Page, count: nat)
  {
    function End(): nat { start + count }

    predicate Contains(p: Page) { start <= p < End() }
  }

  datatype Allocation = Failed | At(page: Page)

  // ---------- rt_page_alloc and rt_page_free on the list of runs ----------

  function Alloc(runs: seq<Run>, n: nat): (seq<Run>, Allocation) {
    if runs == [] || n == 0 then (runs, Failed)
    else
      var b := runs[0];
      if b.count > n then ([Run(b.start + n, b.count - n)] + runs[1..], At(b.start))
      else if b.count == n then (runs[1..], At(b.start))
      else
        var (rest, r) := Alloc(runs[1..], n);
        ([b] + rest, r)
  }

  function Free(runs: seq<Run>, a: Page, n: nat): seq<Run> {
    if runs == [] then [Run(a, n)]
    else
      var b, rest := runs[0], runs[1..];
      if b.End() == a then
        if rest != [] && b.End() + n == rest[0].start
        then [Run(b.start, b.count + n + rest[0].count)] + rest[1..]
        else [Run(b.start, b.count + n)] + rest
      else if b.start == a + n then [Run(a, b.count + n)] + rest
      else if b.start > a + n then [Run(a, n)] + runs
      else [b] + Free(rest, a, n)
  }

  // ---------- What a list of runs means ----------

  predicate IsFree(runs: seq<Run>, p: Page) {
    runs != [] && (runs[0].Contains(p) || IsFree(runs[1..], p))
  }

  predicate Within(a: Page, n: nat, p: Page) {
    a <= p < a + n
  }

  /** In address order, disjoint, and no two runs adjacent. */
  predicate Coalesced(runs: seq<Run>) {
    runs != [] ==>
      && runs[0].count > 0
      && (|runs| > 1 ==> runs[0].End() < runs[1].start)
      && Coalesced(runs[1..])
  }

  /** No page of the list comes before the first run. */
  lemma {:induction false} NoneBefore(runs: seq<Run>, p: Page)
    requires Coalesced(runs) && runs != [] && p < runs[0].start
    ensures !IsFree(runs, p)
  {
    if |runs| > 1 {
      NoneBefore(runs[1..], p);
    }
  }

  /** Nor directly behind it. */
  lemma NoneAtEnd(runs: seq<Run>)
    requires Coalesced(runs) && runs != []
    ensures !IsFree(runs, runs[0].End())
  {
    if |runs| > 1 {
      NoneBefore(runs[1..], runs[0].End());
    }
  }

  lemma RestIsBehind(runs: seq<Run>, p: Page)
    requires Coalesced(runs) && runs != [] && IsFree(runs[1..], p)
    ensures runs[0].End() < p && |runs| > 1 && runs[1].start <= p
  {
    if p < runs[1].start {
      NoneBefore(runs[1..], p);
    }
  }

  /** A coalesced list is determined by the set of its pages. */
  lemma {:induction false} OneListPerSet(x: seq<Run>, y: seq<Run>)
    requires Coalesced(x) && Coalesced(y)
    requires forall p: Page :: IsFree(x, p) <==> IsFree(y, p)
    ensures x == y
    decreases |x|
  {
    if x == [] {
      if y != [] {
        assert !IsFree(x, y[0].start);
      }
    } else {
      assert IsFree(x, x[0].start);
      assert IsFree(y, x[0].start);
      assert IsFree(y, y[0].start);
      if x[0].start < y[0].start {
        NoneBefore(y, x[0].start);
      }
      if y[0].start < x[0].start {
        NoneBefore(x, y[0].start);
      }
      SameFirstRun(x, y);
      SameFirstRun(y, x);
      forall p: Page ensures IsFree(x[1..], p) <==> IsFree(y[1..], p) {
        assert IsFree(x, p) <==> IsFree(y, p);
        if IsFree(x[1..], p) {
          RestIsBehind(x, p);
        }
        if IsFree(y[1..], p) {
          RestIsBehind(y, p);
        }
      }
      OneListPerSet(x[1..], y[1..]);
      assert x == [x[0]] + x[1..] && y == [y[0]] + y[1..];
    }
  }

  lemma SameFirstRun(x: seq<Run>, y: seq<Run>)
    requires Coalesced(x) && Coalesced(y) && x != [] && y != [] && x[0].start == y[0].start
    requires forall p: Page :: IsFree(x, p) <==> IsFree(y, p)
    ensures x[0].End() >= y[0].End()
  {
    if x[0].End() < y[0].End() {
      assert y[0].Contains(x[0].End());
      assert IsFree(y, x[0].End());
      NoneAtEnd(x);
    }
  }

  /** Consecutive free pages lie in one run. */
  lemma {:induction false} InOneRun(runs: seq<Run>, a: Page, n: nat)
    requires Coalesced(runs) && n > 0 && forall p: Page :: Within(a, n, p) ==> IsFree(runs, p)
    ensures exists i :: 0 <= i < |runs| && runs[i].start <= a && a + n <= runs[i].End()
  {
    assert Within(a, n, a);
    if runs[0].Contains(a) {
      if runs[0].End() < a + n {
        assert Within(a, n, runs[0].End());
        NoneAtEnd(runs);
      }
    } else {
      RestIsBehind(runs, a);
      forall p: Page | Within(a, n, p) ensures IsFree(runs[1..], p) {
      }
      InOneRun(runs[1..], a, n);
      var i :| 0 <= i < |runs[1..]| && runs[1..][i].start <= a && a + n <= runs[1..][i].End();
      assert runs[i + 1] == runs[1..][i];
    }
  }

  // ---------- What allocation and release do ----------

  lemma {:induction false} AllocTakes(runs: seq<Run>, n: nat)
    requires Coalesced(runs)
    ensures var (r, x) := Alloc(runs, n);
            && Coalesced(r)
            && (r != [] ==> runs != [] && runs[0].start <= r[0].start)
            && forall p: Page :: IsFree(r, p) <==> IsFree(runs, p) && !(x.At? && Within(x.page, n, p))
    ensures Alloc(runs, n).1.At? ==> forall p: Page :: Within(Alloc(runs, n).1.page, n, p) ==> IsFree(runs, p)
  {
    if runs != [] && n != 0 {
      var b := runs[0];
      var (r, x) := Alloc(runs, n);
      if b.count >= n {
        forall p: Page ensures IsFree(r, p) <==> IsFree(runs, p) && !Within(b.start, n, p) {
          if IsFree(runs[1..], p) {
            RestIsBehind(runs, p);
          }
          if b.count > n {
            assert r[1..] == runs[1..];
          }
        }
      } else {
        AllocTakes(runs[1..], n);
        assert r[1..] == Alloc(runs[1..], n).0;
        forall p: Page ensures IsFree(r, p) <==> IsFree(runs, p) && !(x.At? && Within(x.page, n, p)) {
          if x.At? && Within(x.page, n, p) {
            RestIsBehind(runs, p);
          }
        }
      }
    }
  }

  lemma {:induction false} LowestRun(runs: seq<Run>, n: nat, a: Page)
    requires Coalesced(runs) && n > 0
    requires exists i :: 0 <= i < |runs| && runs[i].start <= a && a + n <= runs[i].End()
    ensures Alloc(runs, n).1.At? && Alloc(runs, n).1.page <= a
  {
    var i :| 0 <= i < |runs| && runs[i].start <= a && a + n <= runs[i].End();
    if i > 0 {
      assert runs[1..][i - 1] == runs[i];
      LowestRun(runs[1..], n, a);
      if runs[0].count >= n {
        Increasing(runs, i);
      }
    }
  }

  lemma {:induction false} Increasing(runs: seq<Run>, i: nat)
    requires Coalesced(runs) && i < |runs|
    ensures runs[0].start <= runs[i].start
  {
    if i > 0 {
      Increasing(runs[1..], i - 1);
    }
  }

  /** An allocation fails exactly if there are not so many free pages in a row, and otherwise takes
      the lowest ones that are. */
  lemma AllocIsLowestFit(runs: seq<Run>, n: nat)
    requires Coalesced(runs) && n > 0
    ensures Alloc(runs, n).1.Failed? <==> !exists a: Page :: AllFree(runs, a, n)
    ensures forall a: Page :: AllFree(runs, a, n) ==> Alloc(runs, n).1.At? && Alloc(runs, n).1.page <= a
    ensures Alloc(runs, n).1.At? ==> AllFree(runs, Alloc(runs, n).1.page, n)
  {
    AllocTakes(runs, n);
    assert Alloc(runs, n).1.At? ==> AllFree(runs, Alloc(runs, n).1.page, n);
    forall a: Page | AllFree(runs, a, n) ensures Alloc(runs, n).1.At? && Alloc(runs, n).1.page <= a {
      InOneRun(runs, a, n);
      LowestRun(runs, n, a);
    }
  }

  ghost predicate AllFree(runs: seq<Run>, a: Page, n: nat) {
    forall p: Page :: Within(a, n, p) ==> IsFree(runs, p)
  }

  ghost predicate NoneFree(runs: seq<Run>, a: Page, n: nat) {
    forall p: Page :: Within(a, n, p) ==> !IsFree(runs, p)
  }

  /** Releasing pages adds exactly them, and merges with both neighbours. */
  lemma {:induction false} FreeGives(runs: seq<Run>, a: Page, n: nat)
    requires Coalesced(runs) && n > 0 && NoneFree(runs, a, n)
    ensures var r := Free(runs, a, n);
            && Coalesced(r)
            && (r[0].start == a || (runs != [] && r[0].start == runs[0].start))
            && forall p: Page :: IsFree(r, p) <==> IsFree(runs, p) || Within(a, n, p)
  {
    var r := Free(runs, a, n);
    if runs != [] {
      var b, rest := runs[0], runs[1..];
      assert IsFree(runs, b.start);
      assert rest != [] ==> rest[0] == runs[1];
      if b.End() == a {
        if rest != [] {
          assert IsFree(rest, rest[0].start);
          assert Within(a, n, rest[0].start) || a + n <= rest[0].start;
          assert b.End() + n == rest[0].start ==> r[1..] == rest[1..];
        }
      } else if b.start > a + n {
        assert r[1..] == runs;
      } else if b.start != a + n {
        assert !Within(a, n, b.start) && Within(a, n, a);
        assert !IsFree(runs, a);
        assert NoneFree(rest, a, n);
        FreeGives(rest, a, n);
        assert r[1..] == Free(rest, a, n);
      }
    }
  }

  // ---------- Runs of allocations and releases ----------

  /** `live` maps the first page of every allocation in use to its number of pages. */
  datatype State = State(total: nat, runs: seq<Run>, live: map<Page, nat>)

  datatype Call = Allocate(n: nat) | Release(a: Page)

  predicate Owns(live: map<Page, nat>, a: Page, p: Page) {
    a in live && Within(a, live[a], p)
  }

  /** Every page is in exactly one free run or exactly one live allocation. */
  ghost predicate Inv(s: State) {
    && Coalesced(s.runs)
    && (forall p: Page :: IsFree(s.runs, p) ==> p < s.total)
    && (forall a: Page, p: Page :: Owns(s.live, a, p) ==> p < s.total && !IsFree(s.runs, p))
    && (forall a: Page, b: Page, p: Page :: Owns(s.live, a, p) && Owns(s.live, b, p) ==> a == b)
    && (forall p: Page :: p < s.total ==> IsFree(s.runs, p) || exists a: Page :: Owns(s.live, a, p))
    && (forall a :: a in s.live ==> s.live[a] > 0)
  }

  predicate Enabled(s: State, c: Call) {
    c.Release? ==> c.a in s.live
  }

  function Apply(s: State, c: Call): State
    requires Enabled(s, c)
  {
    match c
    case Allocate(n) =>
      var (runs, r) := Alloc(s.runs, n);
      if r.At? then s.(runs := runs, live := s.live[r.page := n]) else s
    case Release(a) =>
      s.(runs := Free(s.runs, a, s.live[a]), live := s.live - {a})
  }

  lemma CallKeepsInv(s: State, c: Call)
    requires Inv(s) && Enabled(s, c)
    ensures Inv(Apply(s, c))
  {
    hide Coalesced, IsFree, Alloc, Free;
    var r := Apply(s, c);
    match c
    case Allocate(n) =>
      AllocTakes(s.runs, n);
      var x := Alloc(s.runs, n).1;
      if x.At? {
        assert n > 0 by {
          AllocOfNothing(s.runs);
        }
        assert Within(x.page, n, x.page);
        assert !Owns(s.live, x.page, x.page);
        forall a: Page, p: Page ensures Owns(r.live, a, p) <==> Owns(s.live, a, p) || (a == x.page && Within(x.page, n, p)) {
        }
        assert forall p: Page :: Within(x.page, n, p) ==> Owns(r.live, x.page, p);
      }
    case Release(a) =>
      var n := s.live[a];
      forall p: Page | Within(a, n, p) ensures !IsFree(s.runs, p) {
        assert Owns(s.live, a, p);
      }
      FreeGives(s.runs, a, n);
      forall b: Page, p: Page ensures Owns(r.live, b, p) <==> Owns(s.live, b, p) && b != a {
      }
      forall p: Page ensures Within(a, n, p) <==> Owns(s.live, a, p) {
      }
  }

  lemma AllocOfNothing(runs: seq<Run>)
    ensures Alloc(runs, 0).1 == Failed
  {
  }

  predicate Leads(s: State, calls: seq<Call>, r: State)
    decreases |calls|
  {
    if calls == [] then r == s else Enabled(s, calls[0]) && Leads(Apply(s, calls[0]), calls[1..], r)
  }

  lemma {:induction false} RunKeepsInv(s: State, calls: seq<Call>, r: State)
    requires Inv(s) && Leads(s, calls, r)
    ensures Inv(r) && r.total == s.total
    decreases |calls|
  {
    hide Inv;
    if calls != [] {
      CallKeepsInv(s, calls[0]);
      RunKeepsInv(Apply(s, calls[0]), calls[1..], r);
    }
  }

  /** rt_page_init. */
  function Init(total: nat): State {
    State(total, Free([], 0, total), map[])
  }

  lemma InitIsInv(total: nat)
    requires total > 0
    ensures Inv(Init(total))
  {
    forall p: Page ensures IsFree(Init(total).runs, p) <==> p < total {
      assert Init(total).runs[1..] == [];
    }
  }

  /** Whatever was allocated and released in between, in whatever order: once everything is released the
      list is the single run it was at the start. */
  lemma ReleasingAllRestoresTheHeap(total: nat, calls: seq<Call>, r: State)
    requires total > 0 && Leads(Init(total), calls, r) && r.live == map[]
    ensures r.runs == [Run(0, total)]
  {
    InitIsInv(total);
    RunKeepsInv(Init(total), calls, r);
    var whole := [Run(0, total)];
    forall p: Page ensures IsFree(r.runs, p) <==> IsFree(whole, p) {
      assert whole[1..] == [];
    }
    OneListPerSet(r.runs, whole);
  }

  // ---------- The list in the pages ----------

  const NULL: int := -1

  function FirstOf(runs: seq<Run>): int {
    if runs == [] then NULL else runs[0].start
  }

  /** The headers of a run: its first page holds the length and the next run. */
  predicate Headed(next: seq<int>, page: seq<nat>, runs: seq<Run>, i: nat)
    requires i < |runs|
  {
    var b := runs[i];
    && b.start < |next| == |page| && b.End() <= |next| && page[b.start] == b.count
    && next[b.start] == if i + 1 < |runs| then runs[i + 1].start else NULL
  }

  ghost predicate Chained(next: seq<int>, page: seq<nat>, runs: seq<Run>) {
    |next| == |page| && forall i :: 0 <= i < |runs| ==> Headed(next, page, runs, i)
  }

  lemma {:induction false} Apart(runs: seq<Run>, i: nat, j: nat)
    requires Coalesced(runs) && i < j < |runs|
    ensures runs[i].count > 0 && runs[j].count > 0 && runs[i].End() < runs[j].start
  {
    if i > 0 {
      Apart(runs[1..], i - 1, j - 1);
    } else if j > 1 {
      Apart(runs[1..], 0, j - 1);
    } else {
      assert Coalesced(runs[1..]);
    }
  }

  /** The runs before a cursor are passed over by an allocation and by a release. */
  lemma {:induction false} AllocPasses(runs: seq<Run>, n: nat, i: nat)
    requires i <= |runs| && n > 0 && forall j :: 0 <= j < i ==> runs[j].count < n
    ensures Alloc(runs, n) == (runs[..i] + Alloc(runs[i..], n).0, Alloc(runs[i..], n).1)
  {
    if i == 0 {
      assert runs[0..] == runs && runs[..0] + Alloc(runs, n).0 == Alloc(runs, n).0;
    } else {
      AllocPasses(runs[1..], n, i - 1);
      assert runs[1..][..i - 1] == runs[1..i] && runs[1..][i - 1..] == runs[i..];
      assert runs[..i] == [runs[0]] + runs[1..i];
      assert [runs[0]] + (runs[1..i] + Alloc(runs[i..], n).0) == runs[..i] + Alloc(runs[i..], n).0;
    }
  }

  lemma {:induction false} FreePasses(runs: seq<Run>, a: Page, n: nat, i: nat)
    requires i <= |runs|
    requires forall j :: 0 <= j < i ==> runs[j].End() != a && runs[j].start < a + n
    ensures Free(runs, a, n) == runs[..i] + Free(runs[i..], a, n)
  {
    if i == 0 {
      assert runs[0..] == runs && runs[..0] + Free(runs, a, n) == Free(runs, a, n);
    } else {
      FreePasses(runs[1..], a, n, i - 1);
      assert runs[1..][..i - 1] == runs[1..i] && runs[1..][i - 1..] == runs[i..];
      assert runs[..i] == [runs[0]] + runs[1..i];
      assert [runs[0]] + (runs[1..i] + Free(runs[i..], a, n)) == runs[..i] + Free(runs[i..], a, n);
    }
  }

  /** Some runs have been replaced: the links before and behind them are as they were, except that the
      run before them leads to the new ones. */
  lemma Spliced(next: seq<int>, page: seq<nat>, runs: seq<Run>, i: nat, k: nat, mid: seq<Run>, next1: seq<int>, page1: seq<nat>)
    requires Chained(next, page, runs) && i <= k <= |runs| && |next1| == |page1| == |next|
    requires forall j :: 0 <= j < |runs| && (j < i || k <= j) ==> runs[j].start < |next| && page1[runs[j].start] == page[runs[j].start]
    requires forall j :: 0 <= j < |runs| && (j < i - 1 || k <= j) ==> next1[runs[j].start] == next[runs[j].start]
    requires i > 0 ==> next1[runs[i - 1].start] == FirstOf(mid + runs[k..])
    requires forall j :: 0 <= j < |mid| ==> Headed(next1, page1, mid + runs[k..], j)
    ensures Chained(next1, page1, runs[..i] + (mid + runs[k..]))
  {
    var after := runs[..i] + (mid + runs[k..]);
    forall j | 0 <= j < |after| ensures Headed(next1, page1, after, j) {
      if j < i {
        assert Headed(next, page, runs, j);
      } else if j < i + |mid| {
        assert Headed(next1, page1, mid + runs[k..], j - i);
      } else {
        assert Headed(next, page, runs, j - i - |mid| + k);
      }
    }
  }

  /** The special case of one run for another. */
  lemma Replaced(next: seq<int>, page: seq<nat>, runs: seq<Run>, i: nat, run: Run, next1: seq<int>, page1: seq<nat>)
    requires Chained(next, page, runs) && i < |runs| && |next1| == |page1| == |next|
    requires run.start < |next| && run.End() <= |next| && page1[run.start] == run.count
    requires next1[run.start] == if i + 1 < |runs| then runs[i + 1].start else NULL
    requires forall j :: 0 <= j < |runs| && j != i ==> runs[j].start < |next| && page1[runs[j].start] == page[runs[j].start]
    requires forall j :: 0 <= j < |runs| && j != i && j != i - 1 ==> next1[runs[j].start] == next[runs[j].start]
    requires i > 0 ==> next1[runs[i - 1].start] == run.start
    ensures Chained(next1, page1, runs[i := run])
  {
    var after := runs[i := run];
    forall j | 0 <= j < |runs| ensures Headed(next1, page1, after, j) {
      assert Headed(next, page, runs, j);
    }
  }

  /** Two runs made one. */
  function Fused(runs: seq<Run>, i: nat, run: Run): seq<Run>
    requires i + 1 < |runs|
  {
    runs[..i] + [run] + runs[i + 2..]
  }

  lemma FusedIsChained(next: seq<int>, page: seq<nat>, runs: seq<Run>, i: nat, run: Run, next1: seq<int>, page1: seq<nat>)
    requires Chained(next, page, runs) && i + 1 < |runs| && |next1| == |page1| == |next|
    requires run.start == runs[i].start < |next| && run.End() <= |next| && page1[run.start] == run.count
    requires runs[i + 1].start < |next| && next1[run.start] == next[runs[i + 1].start]
    requires forall j :: 0 <= j < |runs| && j != i ==> runs[j].start < |next|
    requires forall j :: 0 <= j < |runs| && j != i ==> page1[runs[j].start] == page[runs[j].start]
    requires forall j :: 0 <= j < |runs| && j != i ==> next1[runs[j].start] == next[runs[j].start]
    ensures Chained(next1, page1, Fused(runs, i, run))
  {
    var after := Fused(runs, i, run);
    assert Headed(next, page, runs, i + 1);
    forall j | 0 <= j < |after| ensures Headed(next1, page1, after, j) {
      if j <= i {
        assert Headed(next, page, runs, j);
      } else {
        assert Headed(next, page, runs, j + 1);
      }
    }
  }

  /** Releasing the pages between two runs fuses them. */
  lemma FreeFuses(runs: seq<Run>, i: nat, n: nat)
    requires i + 1 < |runs| && runs[i].End() + n == runs[i + 1].start
    requires Free(runs, runs[i].End(), n) == runs[..i] + Free(runs[i..], runs[i].End(), n)
    ensures Free(runs, runs[i].End(), n) == Fused(runs, i, Run(runs[i].start, runs[i].count + n + runs[i + 1].count))
  {
    assert runs[i..][1..] == runs[i + 1..] && runs[i + 1..][1..] == runs[i + 2..];
  }

  /** A failed allocation changes nothing. */
  lemma {:induction false} FailureKeepsRuns(runs: seq<Run>, n: nat)
    requires Alloc(runs, n).1.Failed?
    ensures Alloc(runs, n).0 == runs
  {
    if runs != [] && n != 0 {
      FailureKeepsRuns(runs[1..], n);
    }
  }

  lemma StartsInPages(next: seq<int>, page: seq<nat>, runs: seq<Run>)
    requires Chained(next, page, runs)
    ensures forall j :: 0 <= j < |runs| ==> runs[j].start < |next| && runs[j].End() <= |next|
  {
    forall j | 0 <= j < |runs| ensures runs[j].start < |next| && runs[j].End() <= |next| {
      assert Headed(next, page, runs, j);
    }
  }
}
