/** The hard timers of os/rt-thread-nano/src/timer.c: a skip list ordered by 32-bit deadlines that
    wrap around, and the check that fires the expired ones. */
module Timers {
  import opened Lists

  type Timer = nat
  type Tick = t: nat | t < TICKS

  const TICKS: nat := 0x1_0000_0000

  /** RT_TICK_MAX / 2. */
  const HALF: nat := 0x7FFF_FFFF

  /** Unsigned 32-bit subtraction. */
  function Minus(a: Tick, b: Tick): Tick {
    (a - b) % TICKS
  }

  function Plus(a: Tick, b: Tick): Tick {
    (a + b) % TICKS
  }

  /** The comparison of the insertion: deadline `a` lies strictly behind `b`. */
  predicate After(a: Tick, b: Tick) {
    Minus(a, b) != 0 && Minus(a, b) < HALF
  }

  /** The comparison of the check: a deadline has passed. */
  predicate Expired(now: Tick, deadline: Tick) {
    Minus(now, deadline) < HALF
  }

  // ---------- Half-range windows ----------

  /** How far a tick lies behind the start of a window. */
  function Rank(start: Tick, t: Tick): Tick {
    Minus(t, start)
  }

  predicate InWindow(start: Tick, t: Tick) {
    Rank(start, t) < HALF
  }

  /** Inside a window of half the range, wrapping comparisons are comparisons of ranks. */
  lemma ComparesByRank(start: Tick, a: Tick, b: Tick)
    requires InWindow(start, a) && InWindow(start, b)
    ensures After(a, b) <==> Rank(start, a) > Rank(start, b)
    ensures Expired(a, b) <==> Rank(start, b) <= Rank(start, a)
    ensures a == b <==> Rank(start, a) == Rank(start, b)
  {
  }

  lemma RankOfLater(start: Tick, now: Tick, delay: Tick)
    requires Rank(start, now) + delay < HALF
    ensures Rank(start, Plus(now, delay)) == Rank(start, now) + delay
  {
  }

  /** Outside such a window the order is not even transitive. */
  lemma AfterNeedsAWindow()
    ensures After(0x5000_0000, 0) && After(0xA000_0000, 0x5000_0000) && After(0, 0xA000_0000)
  {
  }

  // ---------- Lists and rows ----------

  function DeadlineOf(deadline: seq<Tick>, t: Timer): Tick {
    if t < |deadline| then deadline[t] else 0
  }

  function HeightOf(height: seq<nat>, t: Timer): nat {
    if t < |height| then height[t] else 0
  }

  /** The timers of a list that are linked in at least so many rows. */
  function Row(list: seq<Timer>, height: seq<nat>, least: nat): seq<Timer>
  {
    if list == [] then []
    else if HeightOf(height, list[0]) >= least then [list[0]] + Row(list[1..], height, least)
    else Row(list[1..], height, least)
  }

  // ---------- Starting and stopping ----------

  /** Timers are numbered; `list` is the bottom row, and a timer of height h is linked in the h lowest
      of the `levels` rows. */
  datatype State = State(levels: nat, list: seq<Timer>, deadline: seq<Tick>, initTick: seq<Tick>, height: seq<nat>,
                         periodic: seq<bool>, active: seq<bool>, random: nat)
  {
    predicate Sized() {
      && |deadline| == |initTick| == |height| == |periodic| == |active|
      && levels > 0
      && forall t :: t in list ==> t < |deadline|
    }
  }

  /** Where a linear scan of the bottom row puts a deadline: before the first one strictly behind it. */
  function Place(list: seq<Timer>, deadline: seq<Tick>, d: Tick): (k: nat)
    ensures k <= |list|
  {
    if list == [] || After(DeadlineOf(deadline, list[0]), d) then 0 else 1 + Place(list[1..], deadline, d)
  }

  /** The number of rows a new timer joins, from the insertion counter: RT_TIMER_SKIP_LIST_MASK is 3. */
  function Height(random: nat, levels: nat): (h: nat)
    ensures 1 <= h && (levels >= 1 ==> h <= levels)
  {
    if levels <= 1 || random % 4 != 0 then 1 else 1 + Height(random / 4, levels - 1)
  }

  function Stopped(s: State, t: Timer): State
    requires s.Sized() && t < |s.active|
  {
    s.(list := Without(s.list, t), active := s.active[t := false])
  }

  function Started(s: State, t: Timer, now: Tick): State
    requires s.Sized() && t < |s.active|
  {
    var d := Plus(now, s.initTick[t]);
    var rest := Without(s.list, t);
    var deadline := s.deadline[t := d];
    var random := (s.random + 1) % TICKS;
    s.(list := InsertAt(rest, Place(rest, deadline, d), t), deadline := deadline,
       height := s.height[t := Height(random, s.levels)], active := s.active[t := true], random := random)
  }

  // ---------- Facts about rows ----------

  lemma {:induction false} RowMembers(list: seq<Timer>, height: seq<nat>, least: nat)
    ensures forall x :: x in Row(list, height, least) <==> x in list && HeightOf(height, x) >= least
  {
    if list != [] {
      RowMembers(list[1..], height, least);
      assert list == [list[0]] + list[1..];
    }
  }

  lemma {:induction false} RowOfTwo(a: seq<Timer>, b: seq<Timer>, height: seq<nat>, least: nat)
    ensures Row(a + b, height, least) == Row(a, height, least) + Row(b, height, least)
  {
    if a == [] {
      assert a + b == b;
    } else {
      RowOfTwo(a[1..], b, height, least);
      assert a + b == [a[0]] + (a[1..] + b);
    }
  }

  lemma {:induction false} RowElsewhere(list: seq<Timer>, height: seq<nat>, least: nat, t: Timer, h: nat)
    requires t < |height| && t !in list
    ensures Row(list, height[t := h], least) == Row(list, height, least)
  {
    if list != [] {
      RowElsewhere(list[1..], height, least, t, h);
    }
  }

  lemma {:induction false} RowWithout(list: seq<Timer>, height: seq<nat>, least: nat, t: Timer)
    ensures Row(Without(list, t), height, least) == Without(Row(list, height, least), t)
  {
    if list != [] {
      RowWithout(list[1..], height, least, t);
    }
  }

  /** A row is a subsequence of every row below it, and of the bottom row. */
  lemma {:induction false} RowsNest(list: seq<Timer>, height: seq<nat>, low: nat, high: nat)
    requires low <= high
    ensures Row(Row(list, height, low), height, high) == Row(list, height, high)
  {
    RowMembers(list, height, low);
    if list != [] {
      RowsNest(list[1..], height, low, high);
      if HeightOf(height, list[0]) >= low {
        assert Row(list, height, low)[1..] == Row(list[1..], height, low);
      }
    }
  }

  /** Inserting a timer into the bottom row inserts it into a higher row, if it is tall enough,
      behind the timers of that row that come before it. */
  lemma RowInsert(list: seq<Timer>, height: seq<nat>, least: nat, k: nat, t: Timer)
    requires k <= |list| && t < |height|
    ensures |Row(list[..k], height, least)| <= |Row(list, height, least)|
    ensures Row(InsertAt(list, k, t), height, least)
         == if HeightOf(height, t) >= least then InsertAt(Row(list, height, least), |Row(list[..k], height, least)|, t)
            else Row(list, height, least)
  {
    var a, b := list[..k], list[k..];
    assert list == a + b && InsertAt(list, k, t) == a + ([t] + b);
    InsertMembers(list, k, t);
    RowOfTwo(a, b, height, least);
    RowOfTwo(a, [t] + b, height, least);
    assert ([t] + b)[1..] == b;
  }

  // ---------- Order ----------

  ghost predicate Sorted(list: seq<Timer>, deadline: seq<Tick>, start: Tick)
  {
    forall i, j :: 0 <= i < j < |list| ==> Rank(start, DeadlineOf(deadline, list[i])) <= Rank(start, DeadlineOf(deadline, list[j]))
  }

  /** The deadlines of the linked timers lie in a window of half the range from `start`, and the bottom
      row is sorted in it. */
  ghost predicate Ordered(s: State, start: Tick) {
    && s.Sized() && Distinct(s.list)
    && Sorted(s.list, s.deadline, start)
    && (forall t :: t in s.list ==> InWindow(start, DeadlineOf(s.deadline, t)))
    && (forall t :: t in s.list ==> 1 <= HeightOf(s.height, t) <= s.levels)
  }

  /** Exactly the linked timers are active. */
  ghost predicate Inv(s: State, start: Tick) {
    Ordered(s, start) && forall t: Timer :: t < |s.active| ==> (s.active[t] <==> t in s.list)
  }

  /** In a sorted list a deadline goes behind all that are not later, in particular behind equal ones. */
  lemma {:induction false} PlaceSplits(list: seq<Timer>, deadline: seq<Tick>, d: Tick, start: Tick)
    requires forall t :: t in list ==> InWindow(start, DeadlineOf(deadline, t))
    requires Sorted(list, deadline, start) && InWindow(start, d)
    ensures forall i :: 0 <= i < |list| ==>
              (i < Place(list, deadline, d) <==> Rank(start, DeadlineOf(deadline, list[i])) <= Rank(start, d))
  {
    if list != [] {
      ComparesByRank(start, DeadlineOf(deadline, list[0]), d);
      PlaceSplits(list[1..], deadline, d, start);
      forall i | 0 <= i < |list|
        ensures i < Place(list, deadline, d) <==> Rank(start, DeadlineOf(deadline, list[i])) <= Rank(start, d)
      {
        if i > 0 {
          assert list[1..][i - 1] == list[i];
          assert Rank(start, DeadlineOf(deadline, list[0])) <= Rank(start, DeadlineOf(deadline, list[i]));
        }
      }
    }
  }

  lemma {:induction false} RowIsSorted(list: seq<Timer>, height: seq<nat>, least: nat, deadline: seq<Tick>, start: Tick)
    requires Sorted(list, deadline, start)
    ensures Sorted(Row(list, height, least), deadline, start)
  {
    RowMembers(list, height, least);
    if list != [] {
      RowIsSorted(list[1..], height, least, deadline, start);
      RowMembers(list[1..], height, least);
      var rest, row := Row(list[1..], height, least), Row(list, height, least);
      forall i, j | 0 <= i < j < |row| ensures Rank(start, DeadlineOf(deadline, row[i])) <= Rank(start, DeadlineOf(deadline, row[j])) {
        if HeightOf(height, list[0]) >= least {
          assert row[j] == rest[j - 1] && rest[j - 1] in list[1..];
          if i > 0 {
            assert row[i] == rest[i - 1];
          }
        }
      }
    }
  }

  lemma SortedWithout(list: seq<Timer>, t: Timer, deadline: seq<Tick>, start: Tick)
    requires Distinct(list) && Sorted(list, deadline, start)
    ensures Sorted(Without(list, t), deadline, start)
  {
    if t in list {
      var k :| 0 <= k < |list| && list[k] == t;
      WithoutAt(list, k);
    } else {
      WithoutAbsent(list, t);
    }
  }

  lemma StoppedKeepsOrdered(s: State, t: Timer, start: Tick)
    requires Ordered(s, start) && t < |s.active|
    ensures Ordered(Stopped(s, t), start)
  {
    WithoutIsDistinct(s.list, t);
    SortedWithout(s.list, t, s.deadline, start);
  }

  lemma SortedElsewhere(list: seq<Timer>, deadline: seq<Tick>, t: Timer, d: Tick, start: Tick)
    requires t < |deadline| && t !in list && Sorted(list, deadline, start)
    ensures Sorted(list, deadline[t := d], start)
  {
    forall i, j | 0 <= i < j < |list|
      ensures Rank(start, DeadlineOf(deadline[t := d], list[i])) <= Rank(start, DeadlineOf(deadline[t := d], list[j]))
    {
      assert list[i] in list && list[j] in list;
    }
  }

  lemma InsertKeepsSorted(list: seq<Timer>, t: Timer, deadline: seq<Tick>, start: Tick)
    requires forall x :: x in list ==> InWindow(start, DeadlineOf(deadline, x))
    requires Sorted(list, deadline, start) && t < |deadline| && InWindow(start, DeadlineOf(deadline, t))
    ensures var r := InsertAt(list, Place(list, deadline, DeadlineOf(deadline, t)), t);
            Sorted(r, deadline, start)
  {
    var k := Place(list, deadline, DeadlineOf(deadline, t));
    PlaceSplits(list, deadline, DeadlineOf(deadline, t), start);
    InsertMembers(list, k, t);
    var r := InsertAt(list, k, t);
    forall i, j | 0 <= i < j < |r| ensures Rank(start, DeadlineOf(deadline, r[i])) <= Rank(start, DeadlineOf(deadline, r[j])) {
    }
  }

  /** Starting a timer keeps the order while its deadline lies in the window of the others. */
  lemma StartedKeepsOrdered(s: State, t: Timer, now: Tick, start: Tick)
    requires Ordered(s, start) && t < |s.active| && InWindow(start, Plus(now, s.initTick[t]))
    ensures Ordered(Started(s, t, now), start)
    ensures forall x :: x in Started(s, t, now).list <==> x in s.list || x == t
  {
    hide Rank, Plus, InWindow, Sorted, Place;
    var d := Plus(now, s.initTick[t]);
    var rest, deadline := Without(s.list, t), s.deadline[t := d];
    WithoutIsDistinct(s.list, t);
    SortedWithout(s.list, t, s.deadline, start);
    SortedElsewhere(rest, s.deadline, t, d, start);
    InsertKeepsSorted(rest, t, deadline, start);
    var k := Place(rest, deadline, d);
    InsertMembers(rest, k, t);
    InsertIsDistinct(rest, k, t);
  }

  /** Any sequence of starts and stops keeps the invariant. */
  lemma StartAndStopKeepInv(s: State, t: Timer, now: Tick, start: Tick)
    requires Inv(s, start) && t < |s.active|
    ensures Inv(Stopped(s, t), start)
    ensures InWindow(start, Plus(now, s.initTick[t])) ==> Inv(Started(s, t, now), start)
  {
    assert s.Sized();
    hide Ordered, Plus, InWindow, Place;
    StoppedKeepsOrdered(s, t, start);
    if InWindow(start, Plus(now, s.initTick[t])) {
      StartedKeepsOrdered(s, t, now, start);
    }
  }

  /** Every row of the skip list is sorted, and a subsequence of the row below it. */
  lemma RowsAreSkipList(s: State, start: Tick, low: nat, high: nat)
    requires Ordered(s, start) && low <= high
    ensures Sorted(Row(s.list, s.height, high), s.deadline, start)
    ensures Row(s.list, s.height, high) == Row(Row(s.list, s.height, low), s.height, high)
  {
    RowsNest(s.list, s.height, low, high);
    RowMembers(s.list, s.height, high);
    RowIsSorted(s.list, s.height, high, s.deadline, start);
  }
}
