/** The linked rows of os/rt-thread-nano/src/timer.c, with the list operations of
    os/rt-thread-nano/include/rtservice.h: rt_timer_start's search through the skip list is proved to
    put a timer where a linear scan of the bottom row would. */
module TimerObject {
  import opened Lists
  import opened Rings
  import opened Timers
  import opened TimerCheck

  // ---------- Rows ----------

  predicate Unlinked(r: Links, n: nat) {
    n < |r.next| && n < |r.prev| && r.next[n] == n && r.prev[n] == n
  }

  /** The links of one row: nodes 0 to n-1 are the timers, node n is the list head, and the timers that are
      not in the row point to themselves. */
  ghost predicate RowRing(r: Links, head: nat, nodes: seq<Timer>) {
    && Ring(r, head, nodes) && |r.next| == head + 1
    && forall n: nat :: n < head && n !in nodes ==> Unlinked(r, n)
  }

  /** rt_list_remove. */
  function Unlink(r: Links, n: nat): Links
    requires |r.next| == |r.prev| && n < |r.next| && 0 <= r.next[n] < |r.prev| && 0 <= r.prev[n] < |r.next|
  {
    var b := Bypass(r, n);
    Links(b.next[n := n], b.prev[n := n])
  }

  lemma RowInsertAfter(r: Links, head: nat, nodes: seq<Timer>, k: nat, n: Timer)
    requires RowRing(r, head, nodes) && k <= |nodes| && n < head && n !in nodes
    ensures var l := NodeAt(head, nodes, k);
            && l <= head && 0 <= r.next[l] <= head
            && RowRing(InsertAfter(r, l, n), head, InsertAt(nodes, k, n))
  {
    RingInsert(r, head, nodes, k, n);
    InsertMembers(nodes, k, n);
    var l, m := NodeAt(head, nodes, k), NodeAt(head, nodes, k + 1);
    assert Adjacent(r, l, m);
    var after, list := InsertAfter(r, l, n), InsertAt(nodes, k, n);
    hide Ring, InsertAt;
    forall x: nat | x < head && x !in list ensures Unlinked(after, x) {
      assert Unlinked(r, x);
    }
  }

  /** Unlinking a timer from a row takes it out of the row, and does nothing if it is not in it. */
  lemma RowUnlink(r: Links, head: nat, nodes: seq<Timer>, n: Timer)
    requires RowRing(r, head, nodes) && n < head
    ensures 0 <= r.next[n] <= head && 0 <= r.prev[n] <= head
    ensures RowRing(Unlink(r, n), head, Without(nodes, n))
  {
    if n in nodes {
      var k :| 0 <= k < |nodes| && nodes[k] == n;
      UnlinkMember(r, head, nodes, k, n);
    } else {
      assert Unlinked(r, n);
      WithoutAbsent(nodes, n);
      assert Unlink(r, n) == r;
    }
  }

  lemma UnlinkMember(r: Links, head: nat, nodes: seq<Timer>, k: nat, n: Timer)
    requires RowRing(r, head, nodes) && k < |nodes| && n == nodes[k]
    ensures n < head && 0 <= r.next[n] <= head && 0 <= r.prev[n] <= head
    ensures RowRing(Unlink(r, n), head, Without(nodes, n))
  {
    assert n in nodes && n == NodeAt(head, nodes, k + 1);
    RingBypass(r, head, nodes, k);
    WithoutAt(nodes, k);
    assert Adjacent(r, NodeAt(head, nodes, k), n) && Adjacent(r, n, NodeAt(head, nodes, k + 2));
    NeighboursAreOthers(head, nodes, k);
    SelfLinked(Bypass(r, n), head, Without(nodes, n), n);
    hide Ring, NodeAt, Without;
    forall x: nat | x < head && x !in Without(nodes, n) ensures Unlinked(Unlink(r, n), x) {
      assert x != n ==> Unlinked(r, x);
    }
  }

  lemma NeighboursAreOthers(head: nat, nodes: seq<Timer>, k: nat)
    requires Distinct(nodes) && head !in nodes && k < |nodes|
    ensures NodeAt(head, nodes, k) == head || NodeAt(head, nodes, k) in nodes
    ensures NodeAt(head, nodes, k + 2) == head || NodeAt(head, nodes, k + 2) in nodes
  {
  }

  /** A node outside a ring may point anywhere. */
  lemma SelfLinked(r: Links, head: nat, nodes: seq<Timer>, n: Timer)
    requires Ring(r, head, nodes) && n !in nodes && n != head && n < |r.next|
    ensures Ring(Links(r.next[n := n], r.prev[n := n]), head, nodes)
  {
    var after := Links(r.next[n := n], r.prev[n := n]);
    forall i: nat | i <= |nodes| ensures Adjacent(after, NodeAt(head, nodes, i), NodeAt(head, nodes, i + 1)) {
      assert Adjacent(r, NodeAt(head, nodes, i), NodeAt(head, nodes, i + 1));
    }
  }

  // ---------- Searching the rows ----------

  /** How many timers of a row come before a place in the bottom row. */
  function Ahead(list: seq<Timer>, height: seq<nat>, least: nat, k: nat): nat
    requires k <= |list|
  {
    |Row(list[..k], height, least)|
  }

  lemma PlaceSeparates(s: State, d: Tick, start: Tick)
    requires Ordered(s, start) && InWindow(start, d)
    ensures var k := Place(s.list, s.deadline, d);
            && (forall t :: t in s.list[..k] ==> !After(DeadlineOf(s.deadline, t), d))
            && (forall t :: t in s.list[k..] ==> After(DeadlineOf(s.deadline, t), d))
  {
    hide Rank, After, InWindow, Place, Sorted;
    var k := Place(s.list, s.deadline, d);
    PlaceSplits(s.list, s.deadline, d, start);
    forall t | t in s.list ensures After(DeadlineOf(s.deadline, t), d) <==> Rank(start, DeadlineOf(s.deadline, t)) > Rank(start, d) {
      ComparesByRank(start, DeadlineOf(s.deadline, t), d);
    }
    forall t | t in s.list[..k] ensures !After(DeadlineOf(s.deadline, t), d) {
      var i :| 0 <= i < k && s.list[i] == t;
    }
    forall t | t in s.list[k..] ensures After(DeadlineOf(s.deadline, t), d) {
      var i :| 0 <= i < |s.list| - k && s.list[k..][i] == t;
      assert s.list[k + i] == t;
    }
  }

  /** In every row exactly the timers ahead of the place are not strictly behind the deadline. */
  lemma RowSplits(s: State, least: nat, d: Tick, start: Tick)
    requires Ordered(s, start) && InWindow(start, d)
    ensures var row, p := Row(s.list, s.height, least), Ahead(s.list, s.height, least, Place(s.list, s.deadline, d));
            && p <= |row|
            && forall i :: 0 <= i < |row| ==> (i < p <==> !After(DeadlineOf(s.deadline, row[i]), d))
  {
    PlaceSeparates(s, d, start);
    hide Rank, After, InWindow, Ordered, Place, Row;
    var k := Place(s.list, s.deadline, d);
    var a, b := s.list[..k], s.list[k..];
    assert s.list == a + b;
    RowOfTwo(a, b, s.height, least);
    RowMembers(a, s.height, least);
    RowMembers(b, s.height, least);
    var row, ahead, behind := Row(s.list, s.height, least), Row(a, s.height, least), Row(b, s.height, least);
    forall i | 0 <= i < |row| ensures i < |ahead| <==> !After(DeadlineOf(s.deadline, row[i]), d) {
      if i < |ahead| {
        assert ahead[i] in ahead;
      } else {
        assert behind[i - |ahead|] in behind;
      }
    }
  }

  /** The node that ends the search of one row is found again in the row below, not too far on. */
  lemma Descends(list: seq<Timer>, height: seq<nat>, least: nat, k: nat, head: nat) returns (j: nat)
    requires k <= |list| && least > 0
    ensures j <= Ahead(list, height, least - 1, k) <= |Row(list, height, least - 1)|
    ensures Ahead(list, height, least, k) <= |Row(list, height, least)|
    ensures NodeAt(head, Row(list, height, least - 1), j)
         == NodeAt(head, Row(list, height, least), Ahead(list, height, least, k))
  {
    var a, b := list[..k], list[k..];
    assert list == a + b;
    RowOfTwo(a, b, height, least);
    RowOfTwo(a, b, height, least - 1);
    var p := Ahead(list, height, least, k);
    j := 0;
    if p > 0 {
      RowMembers(a, height, least);
      RowMembers(a, height, least - 1);
      var node := Row(a, height, least)[p - 1];
      assert node in Row(a, height, least - 1);
      var i :| 0 <= i < |Row(a, height, least - 1)| && Row(a, height, least - 1)[i] == node;
      j := i + 1;
    }
  }

  lemma {:induction false} BottomRow(list: seq<Timer>, height: seq<nat>)
    requires forall t :: t in list ==> HeightOf(height, t) >= 1
    ensures Row(list, height, 1) == list
  {
    if list != [] {
      BottomRow(list[1..], height);
      assert list == [list[0]] + list[1..];
    }
  }

  class TimerList {
    const count: nat
    const levels: nat
    var rows: seq<Links>
    const timeoutTick: array<Tick>
    const initTick: array<Tick>
    const periodic: array<bool>
    const activated: array<bool>
    var randomNr: nat
    var temporary: Temporary   // the list on the stack of rt_timer_check

    ghost var list: seq<Timer>
    ghost var height: seq<nat>

    ghost predicate Shaped()
      reads this, timeoutTick, initTick, periodic, activated
    {
      && levels > 0 && |rows| == levels
      && timeoutTick.Length == initTick.Length == periodic.Length == activated.Length == |height| == count
      && timeoutTick != initTick && periodic != activated
      && forall t :: t in list ==> t < count
    }

    ghost predicate Linked()
      reads `rows, `list, `height
    {
      |rows| == levels && forall l :: 0 <= l < levels ==> RowRing(rows[l], count, Row(list, height, levels - l))
    }

    ghost predicate Valid()
      reads this, timeoutTick, initTick, periodic, activated
    {
      Shaped() && Linked()
    }

    ghost function Abs(): (s: State)
      reads this, timeoutTick, initTick, periodic, activated
      requires Shaped()
      ensures s.Sized()
    {
      State(levels, list, timeoutTick[..], initTick[..], height, periodic[..], activated[..], randomNr)
    }

    /** rt_system_timer_init and rt_timer_init: heads and timers point to themselves, and no timer is active. */
    constructor (count: nat, levels: nat, times: array<Tick>, periodic: array<bool>)
      requires levels > 0 && times.Length == periodic.Length == count
      ensures Valid() && temporary == Empty
      ensures Abs() == State(levels, [], seq(count, _ => 0), times[..], seq(count, _ => 1), periodic[..], seq(count, _ => false), 0)
      ensures forall start :: Inv(Abs(), start)
    {
      this.count, this.levels := count, levels;
      var alone := seq(count + 1, i => i as int);
      rows := seq(levels, _ => Links(alone, alone));
      timeoutTick, initTick := new Tick[count](_ => 0), times;
      this.periodic, activated := periodic, new bool[count](_ => false);
      randomNr, temporary, list, height := 0, Empty, [], seq(count, _ => 1);
    }

    /** _rt_timer_remove: the timer leaves every row it is in, and the temporary list. */
    method Remove(t: Timer)
      requires Valid() && t < count
      modifies `rows, `list, `temporary
      ensures Valid() && list == Without(old(list), t) && temporary == TakenOff(old(temporary), t)
    {
      ghost var was := list;
      list := Without(list, t);
      temporary := TakenOff(temporary, t);
      for i := 0 to levels
        modifies `rows
        invariant |rows| == levels
        invariant forall l :: 0 <= l < i ==> RowRing(rows[l], count, Row(list, height, levels - l))
        invariant forall l :: i <= l < levels ==> RowRing(rows[l], count, Row(was, height, levels - l))
      {
        RowUnlink(rows[i], count, Row(was, height, levels - i), t);
        RowWithout(was, height, levels - i, t);
        rows := rows[i := Unlink(rows[i], t)];
      }
    }

    /** rt_timer_stop. */
    method Stop(t: Timer) returns (ok: bool)
      requires Valid() && t < count
      modifies `rows, `list, `temporary, activated
      ensures Valid() && ok == old(activated[t])
      ensures temporary == if ok then TakenOff(old(temporary), t) else old(temporary)
      ensures Abs() == if ok then Stopped(old(Abs()), t) else old(Abs())
    {
      ok := activated[t];
      if ok {
        Remove(t);
        activated[t] := false;
      }
    }

    /** The inner loop of the search: go along one row from a node that is not too far on. */
    method ScanRow(l: nat, from: nat, d: Tick, ghost i0: nat, ghost start: Tick) returns (node: nat)
      requires Valid() && Ordered(Abs(), start) && InWindow(start, d) && l < levels
      requires i0 <= Ahead(list, height, levels - l, Place(list, timeoutTick[..], d))
      requires from == NodeAt(count, Row(list, height, levels - l), i0)
      ensures node == NodeAt(count, Row(list, height, levels - l), Ahead(list, height, levels - l, Place(list, timeoutTick[..], d)))
    {
      ghost var row := Row(list, height, levels - l);
      ghost var p := Ahead(list, height, levels - l, Place(list, timeoutTick[..], d));
      RowSplits(Abs(), levels - l, d, start);
      var r := rows[l];
      assert RowRing(r, count, row);
      hide Ordered, Place, Row, Ahead, After, InWindow;
      node := from;
      ghost var i := i0;
      assert Adjacent(r, NodeAt(count, row, |row|), NodeAt(count, row, |row| + 1));
      while node != r.prev[count]
        invariant i <= p <= |row| && node == NodeAt(count, row, i)
        decreases |row| - i
      {
        assert Adjacent(r, NodeAt(count, row, i), NodeAt(count, row, i + 1));
        var next := r.next[node];
        assert i < |row| && next == row[i];
        assert row[i] in row;
        if After(timeoutTick[next], d) {
          break;
        }
        node := next;
        i := i + 1;
      }
      OnlyLastIsLast(count, row, i);
    }

    /** The search of rt_timer_start, from the top row down: in every row, the last node that is not
        strictly behind the deadline. */
    method Search(d: Tick, ghost start: Tick) returns (rowHead: seq<nat>)
      requires Valid() && Ordered(Abs(), start) && InWindow(start, d)
      ensures |rowHead| == levels && forall l :: 0 <= l < levels ==> EndsSearch(l, rowHead[l], d)
    {
      hide Ordered, Place, Row, Ahead, InWindow, NodeAt;
      ghost var k := Place(list, timeoutTick[..], d);
      rowHead := [];
      var from := count;
      FirstNode(count, Row(list, height, levels));
      ghost var i: nat := 0;
      for l := 0 to levels
        invariant |rowHead| == l
        invariant forall m :: 0 <= m < l ==> EndsSearch(m, rowHead[m], d)
        invariant l < levels ==> i <= Ahead(list, height, levels - l, k) && from == NodeAt(count, Row(list, height, levels - l), i)
      {
        from := ScanRow(l, from, d, i, start);
        rowHead := rowHead + [from];
        if l + 1 < levels {
          i := Descends(list, height, levels - l, k, count);
        }
      }
    }

    /** A started timer joins the bottom row, and as many rows above it as the counter says. */
    method LinkRows(t: Timer, rowHead: seq<nat>, d: Tick)
      requires Valid() && t < count && t !in list
      requires |rowHead| == levels && forall l :: 0 <= l < levels ==> EndsSearch(l, rowHead[l], d)
      modifies `rows, `list, `height
      ensures Valid() && height == old(height)[t := Height(randomNr, levels)]
      ensures list == InsertAt(old(list), Place(old(list), timeoutTick[..], d), t)
    {
      hide RowRing, Place, Row, EndsSearch, InsertAfter, InsertAt, Ahead;
      ghost var k := Place(list, timeoutTick[..], d);
      ghost var was, tall := rows, Height(randomNr, levels);
      LinksAreReady(rowHead, t, d);
      var lvl := levels - 1;
      assert LinkReady(was[lvl], rowHead[lvl], count, list, height, levels - lvl, k, t);
      rows := rows[lvl := InsertAfter(rows[lvl], rowHead[lvl], t)];
      var tst := randomNr;
      while lvl > 0 && tst % 4 == 0
        modifies `rows
        invariant lvl < levels && |rows| == levels
        invariant tall == levels - lvl - 1 + Height(tst, lvl + 1)
        invariant forall l :: 0 <= l < lvl ==> rows[l] == was[l]
        invariant forall l :: lvl <= l < levels ==> LinkReady(was[l], rowHead[l], count, list, height, levels - l, k, t)
        invariant forall l :: lvl <= l < levels ==> rows[l] == InsertAfter(was[l], rowHead[l], t)
      {
        lvl := lvl - 1;
        assert LinkReady(was[lvl], rowHead[lvl], count, list, height, levels - lvl, k, t);
        rows := rows[lvl := InsertAfter(rows[lvl], rowHead[lvl], t)];
        tst := tst / 4;
      }
      forall l | 0 <= l < levels
        ensures RowRing(rows[l], count, Row(InsertAt(list, k, t), height[t := tall], levels - l))
      {
        assert LinkReady(was[l], rowHead[l], count, list, height, levels - l, k, t);
        RowAfterLinking(list, height, levels - l, k, t, tall);
      }
      InsertMembers(list, k, t);
      list, height := InsertAt(list, k, t), height[t := tall];
    }

    lemma LinksAreReady(rowHead: seq<nat>, t: Timer, d: Tick)
      requires Linked() && t < count && t !in list
      requires |rowHead| == levels && forall l :: 0 <= l < levels ==> EndsSearch(l, rowHead[l], d)
      ensures forall l :: 0 <= l < levels ==>
                LinkReady(rows[l], rowHead[l], count, list, height, levels - l, Place(list, timeoutTick[..], d), t)
    {
      forall l | 0 <= l < levels
        ensures LinkReady(rows[l], rowHead[l], count, list, height, levels - l, Place(list, timeoutTick[..], d), t)
      {
        assert EndsSearch(l, rowHead[l], d);
        RowLinked(rows[l], count, list, height, levels - l, Place(list, timeoutTick[..], d), t);
      }
    }

    /** rt_timer_start: the result is that of a linear scan of the bottom row, behind all equal deadlines. */
    method Start(t: Timer, now: Tick, ghost start: Tick)
      requires Valid() && Ordered(Abs(), start) && t < count && InWindow(start, Plus(now, initTick[t]))
      modifies `rows, `list, `height, `randomNr, `temporary, timeoutTick, activated
      ensures Valid() && Abs() == Started(old(Abs()), t, now) && temporary == TakenOff(old(temporary), t)
    {
      hide Ordered, Linked, Place, InWindow, Plus;
      ghost var before := Abs();
      Remove(t);
      activated[t] := false;
      var d := Plus(now, initTick[t]);
      timeoutTick[t] := d;
      RetimedKeepsOrdered(before, t, d, start);
      assert Abs() == Stopped(before, t).(deadline := before.deadline[t := d]);
      var rowHead := Search(d, start);
      randomNr := (randomNr + 1) % TICKS;
      LinkRows(t, rowHead, d);
      activated[t] := true;
    }

    /** A timeout function. */
    method RunCallback(actions: seq<Action>, now: Tick, ghost start: Tick, ghost arms: set<Timer>)
      requires Valid() && Ready(Moment(Abs(), temporary), now, start, arms)
      requires GoodActions(count, actions, now, start, arms)
      modifies this, timeoutTick, initTick, periodic, activated
      ensures Valid() && Moment(Abs(), temporary) == Acts(old(Moment(Abs(), temporary)), actions, now, start, arms)
    {
      hide Linked, Ordered, InWindow, Plus, GoodTime, DueCount;
      var rest := actions;
      while rest != []
        invariant Valid() && Ready(Moment(Abs(), temporary), now, start, arms) && GoodActions(count, rest, now, start, arms)
        invariant Acts(Moment(Abs(), temporary), rest, now, start, arms) == Acts(old(Moment(Abs(), temporary)), actions, now, start, arms)
        decreases |rest|
      {
        ActKeepsReady(Moment(Abs(), temporary), rest[0], now, start, arms);
        Perform(rest[0], now, start, arms);
        rest := rest[1..];
      }
    }

    method Perform(a: Action, now: Tick, ghost start: Tick, ghost arms: set<Timer>)
      requires Valid() && Ready(Moment(Abs(), temporary), now, start, arms) && GoodAction(Abs(), a, now, start, arms)
      modifies this, timeoutTick, initTick, periodic, activated
      ensures Valid() && Moment(Abs(), temporary) == Act(old(Moment(Abs(), temporary)), a, now)
    {
      hide Linked, Ordered, InWindow, Plus, GoodTime;
      match a {
        case StartIt(t) =>
          StartedIsLater(start, now, initTick[t]);
          Start(t, now, start);
        case StopIt(t) => var _ := Stop(t);
        case SetTime(t, time) => initTick[t] := time;
        case SetPeriodic(t, on) => periodic[t] := on;
      }
    }

    /** The first timer of the bottom row. */
    method First(ghost start: Tick) returns (t: nat)
      requires Valid() && Ordered(Abs(), start)
      ensures t == if list == [] then count else list[0]
      ensures list != [] ==> t < count
    {
      hide InWindow;
      BottomRow(list, height);
      var r := rows[levels - 1];
      assert RowRing(r, count, list);
      assert Adjacent(r, NodeAt(count, list, 0), NodeAt(count, list, 1));
      t := r.next[count];
      assert list != [] ==> list[0] in list;
    }

    method TakeFirst(t: Timer, ghost start: Tick)
      requires Valid() && Ordered(Abs(), start) && list != [] && t == list[0] < count
      modifies `rows, `list, `temporary, activated
      ensures Valid() && Moment(Abs(), temporary) == Taken(old(Abs()))
    {
      WithoutFirst(list);
      hide Linked, Ordered;
      Remove(t);
      if !periodic[t] {
        activated[t] := false;
      }
      temporary := Holds(t);
    }

    /** After the callback of timer t. */
    method Rearm(t: Timer, now: Tick, ghost start: Tick, ghost arms: set<Timer>)
      requires Valid() && Ready(Moment(Abs(), temporary), now, start, arms) && (temporary == Empty || temporary == Holds(t))
      modifies `rows, `list, `height, `randomNr, `temporary, timeoutTick, activated
      ensures Valid() && temporary == Empty && Abs() == Rearmed(old(Moment(Abs(), temporary)), now)
    {
      hide Linked, Ordered, InWindow, Plus, GoodTime;
      if temporary == Empty {
        return;
      }
      ghost var before := Abs();
      temporary := Empty;
      if periodic[t] && activated[t] {
        activated[t] := false;
        assert Abs() == before.(active := before.active[t := false]);
        OnlySettings(before, Abs(), start);
        StartedIsLater(start, now, initTick[t]);
        Start(t, now, start);
      }
    }

    /** One round of the loop of rt_timer_check. */
    method Fire(t: Timer, now: Tick, callbacks: Callbacks, ghost start: Tick, ghost arms: set<Timer>)
      requires Valid() && Ready(Moment(Abs(), Empty), now, start, arms)
      requires GoodCallbacks(count, callbacks, now, start, arms)
      requires list != [] && t == list[0] < count && Due(Abs(), t, now)
      modifies this, timeoutTick, initTick, periodic, activated
      ensures Valid() && temporary == Empty && Abs() == Round(old(Abs()), callbacks, now, start, arms)
    {
      ghost var s := Abs();
      TakenIsReady(s, now, start, arms);
      assert GoodActions(count, callbacks(t), now, start, arms);
      hide Linked, Ordered, InWindow, Plus, GoodTime, GoodActions, GoodCallbacks, DueCount, Acts, Rearmed, Taken, Expired;
      TakeFirst(t, start);
      TemporaryStays(Moment(Abs(), temporary), callbacks(t), now, start, arms);
      RunCallback(callbacks(t), now, start, arms);
      Rearm(t, now, start, arms);
    }

    /** rt_timer_check. */
    method Check(now: Tick, callbacks: Callbacks, ghost start: Tick, ghost arms: set<Timer>) returns (fired: seq<Firing>)
      requires Valid() && Ready(Moment(Abs(), Empty), now, start, arms) && temporary == Empty
      requires GoodCallbacks(count, callbacks, now, start, arms)
      modifies this, timeoutTick, initTick, periodic, activated
      ensures Valid() && temporary == Empty && (Abs(), fired) == TimerCheck.Check(old(Abs()), callbacks, now, start, arms)
    {
      hide Linked, Ordered, InWindow, GoodTime, Round, Expired, GoodCallbacks;
      fired := [];
      ghost var whole := TimerCheck.Check(Abs(), callbacks, now, start, arms);
      assert fired + whole.1 == whole.1;
      var t := First(start);
      while t != count && Expired(now, timeoutTick[t])
        invariant Valid() && Ready(Moment(Abs(), Empty), now, start, arms) && temporary == Empty
        invariant t == (if list == [] then count else list[0]) && (list != [] ==> t < count)
        invariant var rest := TimerCheck.Check(Abs(), callbacks, now, start, arms); whole == (rest.0, fired + rest.1)
        decreases DueCount(list, timeoutTick[..], now)
      {
        ghost var s, before := Abs(), fired;
        var f := Firing(t, timeoutTick[t]);
        fired := fired + [f];
        Fire(t, now, callbacks, start, arms);
        ghost var rest := TimerCheck.Check(Abs(), callbacks, now, start, arms);
        assert TimerCheck.Check(s, callbacks, now, start, arms) == (rest.0, [f] + rest.1);
        assert before + ([f] + rest.1) == fired + rest.1;
        t := First(start);
      }
      assert fired + [] == fired;
    }

    ghost predicate EndsSearch(l: nat, node: nat, d: Tick)
      reads `list, `height, timeoutTick
      requires l < levels
    {
      node == NodeAt(count, Row(list, height, levels - l), Ahead(list, height, levels - l, Place(list, timeoutTick[..], d)))
    }
  }

  /** Only the timer being fired is ever on the temporary list. */
  lemma {:induction false} TemporaryStays(m: Moment, actions: seq<Action>, now: Tick, start: Tick, arms: set<Timer>)
    requires Ready(m, now, start, arms) && GoodActions(|m.s.active|, actions, now, start, arms)
    ensures Acts(m, actions, now, start, arms).temporary == m.temporary || Acts(m, actions, now, start, arms).temporary == Empty
    decreases |actions|
  {
    if actions != [] {
      ActKeepsReady(m, actions[0], now, start, arms);
      var r := Act(m, actions[0], now);
      assert r.temporary == m.temporary || r.temporary == Empty;
      hide Act, Ordered;
      TemporaryStays(r, actions[1..], now, start, arms);
    }
  }

  lemma WithoutFirst(list: seq<Timer>)
    requires Distinct(list) && list != []
    ensures Without(list, list[0]) == list[1..]
  {
    WithoutAt(list, 0);
  }

  /** A timer can be linked behind node h of a row, and is then where it belongs. */
  ghost predicate LinkReady(r: Links, h: nat, head: nat, list: seq<Timer>, height: seq<nat>, least: nat, k: nat, t: Timer) {
    && k <= |list| && |r.next| == |r.prev| == head + 1 && t < head && h <= head && 0 <= r.next[h] <= head
    && RowRing(r, head, Row(list, height, least))
    && Ahead(list, height, least, k) <= |Row(list, height, least)|
    && RowRing(InsertAfter(r, h, t), head, InsertAt(Row(list, height, least), Ahead(list, height, least, k), t))
  }

  /** Linking a timer behind the node that ends the search of one row. */
  lemma RowLinked(r: Links, head: nat, list: seq<Timer>, height: seq<nat>, least: nat, k: nat, t: Timer)
    requires RowRing(r, head, Row(list, height, least)) && k <= |list| && t < head && t !in list
    ensures LinkReady(r, NodeAt(head, Row(list, height, least), Ahead(list, height, least, k)), head, list, height, least, k, t)
  {
    RowMembers(list, height, least);
    assert list == list[..k] + list[k..];
    RowOfTwo(list[..k], list[k..], height, least);
    RowInsertAfter(r, head, Row(list, height, least), Ahead(list, height, least, k), t);
  }

  lemma RetimedKeepsOrdered(s: State, t: Timer, d: Tick, start: Tick)
    requires Ordered(s, start) && t < |s.active|
    ensures Ordered(Stopped(s, t).(deadline := s.deadline[t := d]), start)
  {
    StoppedKeepsOrdered(s, t, start);
    SortedElsewhere(Without(s.list, t), s.deadline, t, d, start);
  }

  lemma RowAfterLinking(list: seq<Timer>, height: seq<nat>, least: nat, k: nat, t: Timer, tall: nat)
    requires k <= |list| && t < |height| && t !in list
    ensures Ahead(list, height, least, k) <= |Row(list, height, least)|
    ensures Row(InsertAt(list, k, t), height[t := tall], least)
         == if tall >= least then InsertAt(Row(list, height, least), Ahead(list, height, least, k), t)
            else Row(list, height, least)
  {
    RowInsert(list, height[t := tall], least, k, t);
    RowElsewhere(list, height, least, t, tall);
    RowElsewhere(list[..k], height, least, t, tall);
  }

  lemma OnlyLastIsLast(head: nat, nodes: seq<Timer>, i: nat)
    requires Distinct(nodes) && head !in nodes && i <= |nodes|
    ensures NodeAt(head, nodes, i) == NodeAt(head, nodes, |nodes|) ==> i == |nodes|
  {
    if i < |nodes| {
      NodesDiffer(head, nodes, i, |nodes|);
    }
  }

  lemma FirstNode(head: nat, nodes: seq<Timer>)
    ensures NodeAt(head, nodes, 0) == head
  {
  }
}
