/** rt_timer_check of os/rt-thread-nano/src/timer.c: fire the expired timers, whose callbacks may
    themselves start, stop and change timers. */
module TimerCheck {
  import opened Lists
  import opened Timers

  /** What a callback may do to timers, its own included. */
  datatype Action =
    | StartIt(t: Timer)
    | StopIt(t: Timer)
    | SetTime(t: Timer, time: Tick)
    | SetPeriodic(t: Timer, on: bool)

  /** A timer that is being fired waits on a temporary list; starting or stopping it takes it off. */
  datatype Temporary = Empty | Holds(t: Timer)

  datatype Moment = Moment(s: State, temporary: Temporary)

  function TakenOff(temporary: Temporary, t: Timer): Temporary {
    if temporary == Holds(t) then Empty else temporary
  }

  predicate ValidAction(s: State, a: Action) {
    a.t < |s.active|
  }

  function Act(m: Moment, a: Action, now: Tick): Moment
    requires m.s.Sized() && ValidAction(m.s, a)
  {
    var s := m.s;
    match a
    case StartIt(t) => Moment(Started(s, t, now), TakenOff(m.temporary, t))
    case StopIt(t) => if s.active[t] then Moment(Stopped(s, t), TakenOff(m.temporary, t)) else m
    case SetTime(t, time) => m.(s := s.(initTick := s.initTick[t := time]))
    case SetPeriodic(t, on) => m.(s := s.(periodic := s.periodic[t := on]))
  }

  // ---------- What must hold while timers fire ----------

  /** A period that is not zero and ends inside the window. */
  predicate GoodTime(time: Tick, now: Tick, start: Tick) {
    0 < time && Rank(start, now) + time < HALF
  }

  /** What the source asks of a timeout function: the timers it starts or makes periodic are in `arms`, and
      it gives those no time that would make them expire at once or outside the window. */
  predicate Careful(a: Action, now: Tick, start: Tick, arms: set<Timer>) {
    match a
    case StartIt(t) => t in arms
    case StopIt(_) => true
    case SetTime(t, time) => t in arms ==> GoodTime(time, now, start)
    case SetPeriodic(t, on) => on ==> t in arms
  }

  predicate GoodAction(s: State, a: Action, now: Tick, start: Tick, arms: set<Timer>) {
    ValidAction(s, a) && Careful(a, now, start, arms)
  }

  /** The order holds and a timer being fired is not linked. The timers in `arms` are those that can be
      started during the check: the linked ones that are periodic, and those that a timeout function starts
      or makes periodic. Only they need a time that is not zero; all others may have any. */
  ghost predicate Ready(m: Moment, now: Tick, start: Tick, arms: set<Timer>) {
    && Ordered(m.s, start) && InWindow(start, now)
    && (m.temporary.Holds? ==> m.temporary.t < |m.s.active| && m.temporary.t !in m.s.list)
    && Armed(m, arms) && GoodTimes(m.s, now, start, arms)
  }

  ghost predicate Armed(m: Moment, arms: set<Timer>) {
    forall t: Timer :: t < |m.s.periodic| && m.s.periodic[t] && (t in m.s.list || m.temporary == Holds(t)) ==> t in arms
  }

  ghost predicate GoodTimes(s: State, now: Tick, start: Tick, arms: set<Timer>) {
    forall t: Timer :: t in arms && t < |s.initTick| ==> GoodTime(s.initTick[t], now, start)
  }

  predicate Due(s: State, t: Timer, now: Tick) {
    Expired(now, DeadlineOf(s.deadline, t))
  }

  /** How many timers of a list have expired. */
  function DueCount(list: seq<Timer>, deadline: seq<Tick>, now: Tick): nat {
    if list == [] then 0
    else (if Expired(now, DeadlineOf(deadline, list[0])) then 1 else 0) + DueCount(list[1..], deadline, now)
  }

  lemma {:induction false} DueCountOfTwo(a: seq<Timer>, b: seq<Timer>, deadline: seq<Tick>, now: Tick)
    ensures DueCount(a + b, deadline, now) == DueCount(a, deadline, now) + DueCount(b, deadline, now)
  {
    if a == [] {
      assert a + b == b;
    } else {
      DueCountOfTwo(a[1..], b, deadline, now);
      assert a + b == [a[0]] + (a[1..] + b);
    }
  }

  lemma {:induction false} DueCountWithout(list: seq<Timer>, t: Timer, deadline: seq<Tick>, now: Tick)
    ensures DueCount(Without(list, t), deadline, now) <= DueCount(list, deadline, now)
  {
    if list != [] {
      DueCountWithout(list[1..], t, deadline, now);
    }
  }

  lemma {:induction false} DueCountElsewhere(list: seq<Timer>, deadline: seq<Tick>, t: Timer, d: Tick, now: Tick)
    requires t < |deadline| && t !in list
    ensures DueCount(list, deadline[t := d], now) == DueCount(list, deadline, now)
  {
    if list != [] {
      DueCountElsewhere(list[1..], deadline, t, d, now);
    }
  }

  lemma DueCountInsert(list: seq<Timer>, k: nat, t: Timer, deadline: seq<Tick>, now: Tick)
    requires k <= |list| && !Expired(now, DeadlineOf(deadline, t))
    ensures DueCount(InsertAt(list, k, t), deadline, now) == DueCount(list, deadline, now)
  {
    assert list == list[..k] + list[k..];
    DueCountOfTwo(list[..k], list[k..], deadline, now);
    DueCountOfTwo(list[..k], [t] + list[k..], deadline, now);
    assert InsertAt(list, k, t) == list[..k] + ([t] + list[k..]) && ([t] + list[k..])[1..] == list[k..];
  }

  lemma StartedIsLater(start: Tick, now: Tick, time: Tick)
    requires GoodTime(time, now, start)
    ensures InWindow(start, Plus(now, time)) && InWindow(start, now) && !Expired(now, Plus(now, time))
    ensures Rank(start, Plus(now, time)) == Rank(start, now) + time
  {
    RankOfLater(start, now, time);
    ComparesByRank(start, now, Plus(now, time));
  }

  /** Starting a timer never adds an expired one. */
  lemma StartingAddsNoneDue(s: State, t: Timer, now: Tick, start: Tick)
    requires Ordered(s, start) && t < |s.active| && GoodTime(s.initTick[t], now, start)
    ensures DueCount(Started(s, t, now).list, Started(s, t, now).deadline, now) <= DueCount(s.list, s.deadline, now)
  {
    assert s.Sized();
    hide Ordered, GoodTime, Plus, Expired, Place;
    var d := Plus(now, s.initTick[t]);
    var rest, deadline := Without(s.list, t), s.deadline[t := d];
    StartedIsLater(start, now, s.initTick[t]);
    DueCountWithout(s.list, t, s.deadline, now);
    DueCountElsewhere(rest, s.deadline, t, d, now);
    DueCountInsert(rest, Place(rest, deadline, d), t, deadline, now);
  }

  lemma ActKeepsReady(m: Moment, a: Action, now: Tick, start: Tick, arms: set<Timer>)
    requires Ready(m, now, start, arms) && GoodAction(m.s, a, now, start, arms)
    ensures var r := Act(m, a, now);
            && Ready(r, now, start, arms) && |r.s.active| == |m.s.active|
            && DueCount(r.s.list, r.s.deadline, now) <= DueCount(m.s.list, m.s.deadline, now)
  {
    assert m.s.Sized();
    hide Ordered, GoodTime, Plus, Expired, Place, InWindow;
    match a
    case StartIt(t) =>
      StartedIsLater(start, now, m.s.initTick[t]);
      StartedKeepsOrdered(m.s, t, now, start);
      StartingAddsNoneDue(m.s, t, now, start);
    case StopIt(t) =>
      StoppedKeepsOrdered(m.s, t, start);
      DueCountWithout(m.s.list, t, m.s.deadline, now);
    case SetTime(t, time) => OnlySettings(m.s, Act(m, a, now).s, start);
    case SetPeriodic(t, on) => OnlySettings(m.s, Act(m, a, now).s, start);
  }

  lemma OnlySettings(s: State, r: State, start: Tick)
    requires Ordered(s, start) && r.Sized()
    requires r.list == s.list && r.deadline == s.deadline && r.height == s.height && r.levels == s.levels
    ensures Ordered(r, start)
  {
  }

  // ---------- Firing ----------

  ghost predicate GoodActions(n: nat, actions: seq<Action>, now: Tick, start: Tick, arms: set<Timer>) {
    forall i :: 0 <= i < |actions| ==> actions[i].t < n && Careful(actions[i], now, start, arms)
  }

  /** The actions of a callback, one after the other. */
  ghost function Acts(m: Moment, actions: seq<Action>, now: Tick, start: Tick, arms: set<Timer>): (r: Moment)
    requires Ready(m, now, start, arms) && GoodActions(|m.s.active|, actions, now, start, arms)
    ensures Ready(r, now, start, arms) && |r.s.active| == |m.s.active|
    ensures DueCount(r.s.list, r.s.deadline, now) <= DueCount(m.s.list, m.s.deadline, now)
    decreases |actions|
  {
    if actions == [] then m
    else
      ActKeepsReady(m, actions[0], now, start, arms);
      Acts(Act(m, actions[0], now), actions[1..], now, start, arms)
  }

  /** The first timer of the list goes to the temporary list; a one-shot timer is no longer active. */
  function Taken(s: State): Moment
    requires s.Sized() && s.list != []
  {
    assert s.list[0] in s.list;
    var t := s.list[0];
    Moment(s.(list := s.list[1..], active := if s.periodic[t] then s.active else s.active[t := false]), Holds(t))
  }

  lemma OrderedRest(s: State, start: Tick)
    requires Ordered(s, start) && s.list != []
    ensures Ordered(s.(list := s.list[1..]), start) && s.list[0] !in s.list[1..] && s.list[0] in s.list
    ensures forall t :: t in s.list[1..] ==>
              t in s.list && Rank(start, DeadlineOf(s.deadline, s.list[0])) <= Rank(start, DeadlineOf(s.deadline, t))
  {
    hide Rank, InWindow;
    var rest := s.list[1..];
    assert s.list == [s.list[0]] + rest;
    forall t | t in rest
      ensures t in s.list && Rank(start, DeadlineOf(s.deadline, s.list[0])) <= Rank(start, DeadlineOf(s.deadline, t))
    {
      var i :| 0 <= i < |rest| && rest[i] == t;
      assert s.list[i + 1] == t;
    }
  }

  lemma TakenIsReady(s: State, now: Tick, start: Tick, arms: set<Timer>)
    requires Ready(Moment(s, Empty), now, start, arms) && s.list != [] && Due(s, s.list[0], now)
    ensures s.Sized() && Ready(Taken(s), now, start, arms)
    ensures DueCount(Taken(s).s.list, Taken(s).s.deadline, now) == DueCount(s.list, s.deadline, now) - 1
  {
    assert s.Sized();
    hide Ordered, GoodTime, Expired, InWindow;
    OrderedRest(s, start);
    OnlySettings(s.(list := s.list[1..]), Taken(s).s, start);
  }

  /** After the callback: a timer that is still on the temporary list, periodic and active, starts again. */
  function Rearmed(m: Moment, now: Tick): State
    requires m.s.Sized() && (m.temporary.Holds? ==> m.temporary.t < |m.s.active|)
  {
    if m.temporary.Holds? && m.s.periodic[m.temporary.t] && m.s.active[m.temporary.t]
    then Started(m.s.(active := m.s.active[m.temporary.t := false]), m.temporary.t, now)
    else m.s
  }

  lemma RearmedIsReady(m: Moment, now: Tick, start: Tick, arms: set<Timer>)
    requires Ready(m, now, start, arms)
    ensures var r := Rearmed(m, now);
            && Ready(Moment(r, Empty), now, start, arms) && |r.active| == |m.s.active|
            && DueCount(r.list, r.deadline, now) <= DueCount(m.s.list, m.s.deadline, now)
  {
    assert m.s.Sized();
    hide Ordered, GoodTime, Plus, Expired, Place, InWindow;
    if m.temporary.Holds? && m.s.periodic[m.temporary.t] && m.s.active[m.temporary.t] {
      var t := m.temporary.t;
      var s := m.s.(active := m.s.active[t := false]);
      OnlySettings(m.s, s, start);
      StartedIsLater(start, now, s.initTick[t]);
      StartedKeepsOrdered(s, t, now, start);
      StartingAddsNoneDue(s, t, now, start);
    }
  }

  // ---------- The whole check ----------

  datatype Firing = Firing(t: Timer, deadline: Tick)

  /** In one check every timer fires at most once, so its callback is the list of what it does. */
  type Callbacks = Timer -> seq<Action>

  ghost predicate GoodCallbacks(n: nat, callbacks: Callbacks, now: Tick, start: Tick, arms: set<Timer>) {
    forall t: Timer :: GoodActions(n, callbacks(t), now, start, arms)
  }

  /** One round of the loop: the first timer is taken off, its callback runs, and it may start again. */
  ghost function Round(s: State, callbacks: Callbacks, now: Tick, start: Tick, arms: set<Timer>): (r: State)
    requires Ready(Moment(s, Empty), now, start, arms) && GoodCallbacks(|s.active|, callbacks, now, start, arms)
    requires s.list != [] && Due(s, s.list[0], now)
    ensures Ready(Moment(r, Empty), now, start, arms) && |r.active| == |s.active|
    ensures DueCount(r.list, r.deadline, now) < DueCount(s.list, s.deadline, now)
  {
    TakenIsReady(s, now, start, arms);
    var m := Acts(Taken(s), callbacks(s.list[0]), now, start, arms);
    RearmedIsReady(m, now, start, arms);
    Rearmed(m, now)
  }

  /** rt_timer_check terminates: every round leaves fewer expired timers. */
  ghost function Check(s: State, callbacks: Callbacks, now: Tick, start: Tick, arms: set<Timer>): (r: (State, seq<Firing>))
    requires Ready(Moment(s, Empty), now, start, arms) && GoodCallbacks(|s.active|, callbacks, now, start, arms)
    ensures Ready(Moment(r.0, Empty), now, start, arms) && |r.0.active| == |s.active|
    decreases DueCount(s.list, s.deadline, now)
  {
    if s.list == [] || !Due(s, s.list[0], now) then (s, [])
    else
      var (last, firings) := Check(Round(s, callbacks, now, start, arms), callbacks, now, start, arms);
      (last, [Firing(s.list[0], DeadlineOf(s.deadline, s.list[0]))] + firings)
  }

  lemma NoneDueBehind(s: State, now: Tick, start: Tick)
    requires Ordered(s, start) && InWindow(start, now) && (s.list != [] ==> !Due(s, s.list[0], now))
    ensures forall t :: t in s.list ==> !Due(s, t, now)
  {
    forall t | t in s.list ensures !Due(s, t, now) {
      OrderedRest(s, start);
      assert InWindow(start, DeadlineOf(s.deadline, t)) && InWindow(start, DeadlineOf(s.deadline, s.list[0]));
      hide Ordered, Rank, Expired, InWindow;
      ComparesByRank(start, now, DeadlineOf(s.deadline, t));
      ComparesByRank(start, now, DeadlineOf(s.deadline, s.list[0]));
      assert t == s.list[0] || t in s.list[1..];
    }
  }

  /** When it is done no linked timer has expired. */
  lemma {:induction false} NoneLeftDue(s: State, callbacks: Callbacks, now: Tick, start: Tick, arms: set<Timer>)
    requires Ready(Moment(s, Empty), now, start, arms) && GoodCallbacks(|s.active|, callbacks, now, start, arms)
    ensures var r := Check(s, callbacks, now, start, arms).0; forall t :: t in r.list ==> !Due(r, t, now)
    decreases DueCount(s.list, s.deadline, now)
  {
    hide Expired, GoodTime, GoodCallbacks, Ordered, Round, InWindow, DueCount;
    if s.list == [] || !Due(s, s.list[0], now) {
      NoneDueBehind(s, now, start);
    } else {
      var r := Round(s, callbacks, now, start, arms);
      NoneLeftDue(r, callbacks, now, start, arms);
      assert Check(s, callbacks, now, start, arms).0 == Check(r, callbacks, now, start, arms).0;
    }
  }

  // ---------- The order of firing ----------

  /** No linked timer is due earlier than this. */
  ghost predicate From(s: State, rank: Tick, start: Tick) {
    forall t :: t in s.list ==> rank <= Rank(start, DeadlineOf(s.deadline, t))
  }

  lemma StartedIsFrom(s: State, t: Timer, now: Tick, rank: Tick, start: Tick)
    requires Ordered(s, start) && From(s, rank, start) && t < |s.active| && GoodTime(s.initTick[t], now, start)
    requires rank <= Rank(start, now)
    ensures From(Started(s, t, now), rank, start)
  {
    assert s.Sized();
    StartedIsLater(start, now, s.initTick[t]);
    StartedKeepsOrdered(s, t, now, start);
    hide Ordered, Rank, Plus, Place;
  }

  lemma {:induction false} ActsAreFrom(m: Moment, actions: seq<Action>, now: Tick, rank: Tick, start: Tick, arms: set<Timer>)
    requires Ready(m, now, start, arms) && GoodActions(|m.s.active|, actions, now, start, arms)
    requires From(m.s, rank, start) && rank <= Rank(start, now)
    ensures From(Acts(m, actions, now, start, arms).s, rank, start)
    decreases |actions|
  {
    assert m.s.Sized();
    hide Ordered, Rank, Plus, Place, InWindow, GoodTime, DueCount;
    if actions != [] {
      var a := actions[0];
      ActKeepsReady(m, a, now, start, arms);
      if a.StartIt? {
        StartedIsFrom(m.s, a.t, now, rank, start);
      }
      ActsAreFrom(Act(m, a, now), actions[1..], now, rank, start, arms);
    }
  }

  lemma RoundIsFrom(s: State, callbacks: Callbacks, now: Tick, start: Tick, arms: set<Timer>)
    requires Ready(Moment(s, Empty), now, start, arms) && GoodCallbacks(|s.active|, callbacks, now, start, arms)
    requires s.list != [] && Due(s, s.list[0], now)
    ensures var rank := Rank(start, DeadlineOf(s.deadline, s.list[0]));
            rank <= Rank(start, now) && From(Round(s, callbacks, now, start, arms), rank, start)
  {
    var d := DeadlineOf(s.deadline, s.list[0]);
    OrderedRest(s, start);
    assert InWindow(start, d);
    ComparesByRank(start, now, d);
    var rank := Rank(start, d);
    TakenIsReady(s, now, start, arms);
    assert From(Taken(s).s, rank, start);
    ActsAreFrom(Taken(s), callbacks(s.list[0]), now, rank, start, arms);
    var m := Acts(Taken(s), callbacks(s.list[0]), now, start, arms);
    assert m.s.Sized();
    hide Ordered, Rank, Plus, Place, InWindow, GoodTime, DueCount, From;
    if m.temporary.Holds? && m.s.periodic[m.temporary.t] && m.s.active[m.temporary.t] {
      var r := m.s.(active := m.s.active[m.temporary.t := false]);
      OnlySettings(m.s, r, start);
      assert From(r, rank, start) by {
        SameFrom(m.s, r, rank, start);
      }
      StartedIsFrom(r, m.temporary.t, now, rank, start);
    }
  }

  lemma SameFrom(s: State, r: State, rank: Tick, start: Tick)
    requires From(s, rank, start) && r.list == s.list && r.deadline == s.deadline
    ensures From(r, rank, start)
  {
  }

  /** Timers fire in the order of their deadlines, and none before its deadline. */
  ghost predicate InOrder(firings: seq<Firing>, now: Tick, rank: Tick, start: Tick) {
    && (forall i :: 0 <= i < |firings| ==> Expired(now, firings[i].deadline) && rank <= Rank(start, firings[i].deadline))
    && forall i, j :: 0 <= i < j < |firings| ==> Rank(start, firings[i].deadline) <= Rank(start, firings[j].deadline)
  }

  lemma InOrderBefore(first: Firing, rest: seq<Firing>, now: Tick, start: Tick)
    requires InOrder(rest, now, Rank(start, first.deadline), start) && Expired(now, first.deadline)
    ensures InOrder([first] + rest, now, Rank(start, first.deadline), start)
  {
    hide Rank, Expired;
  }

  lemma {:induction false} FiresInOrder(s: State, callbacks: Callbacks, now: Tick, rank: Tick, start: Tick, arms: set<Timer>)
    requires Ready(Moment(s, Empty), now, start, arms) && GoodCallbacks(|s.active|, callbacks, now, start, arms)
    requires From(s, rank, start)
    ensures InOrder(Check(s, callbacks, now, start, arms).1, now, rank, start)
    decreases DueCount(s.list, s.deadline, now)
  {
    hide Expired, GoodTime, GoodCallbacks, Ordered, Round, InWindow, DueCount, Rank;
    if s.list != [] && Due(s, s.list[0], now) {
      assert s.list[0] in s.list;
      var d := DeadlineOf(s.deadline, s.list[0]);
      RoundIsFrom(s, callbacks, now, start, arms);
      var r := Round(s, callbacks, now, start, arms);
      FiresInOrder(r, callbacks, now, Rank(start, d), start, arms);
      InOrderBefore(Firing(s.list[0], d), Check(r, callbacks, now, start, arms).1, now, start);
    }
  }

  // ---------- Timers that no callback touches ----------

  predicate Touches(actions: seq<Action>, u: Timer) {
    exists i :: 0 <= i < |actions| && actions[i].t == u
  }

  /** The timer has the same settings and is linked in one state exactly if it is in the other. */
  ghost predicate SameTimer(s: State, r: State, u: Timer) {
    && |r.active| == |s.active| && r.Sized() && s.Sized() && u < |s.active|
    && r.deadline[u] == s.deadline[u] && r.initTick[u] == s.initTick[u]
    && r.periodic[u] == s.periodic[u] && r.active[u] == s.active[u]
    && (u in r.list <==> u in s.list)
  }

  lemma ActLeavesAlone(m: Moment, a: Action, now: Tick, start: Tick, u: Timer, arms: set<Timer>)
    requires Ready(m, now, start, arms) && GoodAction(m.s, a, now, start, arms) && u < |m.s.active| && a.t != u
    ensures SameTimer(m.s, Act(m, a, now).s, u)
    ensures Act(m, a, now).temporary == Holds(u) <==> m.temporary == Holds(u)
  {
    assert m.s.Sized();
    hide Ordered, GoodTime, Plus, Place, InWindow;
    if a.StartIt? {
      StartedIsLater(start, now, m.s.initTick[a.t]);
      StartedKeepsOrdered(m.s, a.t, now, start);
    }
  }

  lemma {:induction false} ActsLeaveAlone(m: Moment, actions: seq<Action>, now: Tick, start: Tick, u: Timer, arms: set<Timer>)
    requires Ready(m, now, start, arms) && GoodActions(|m.s.active|, actions, now, start, arms)
    requires u < |m.s.active| && !Touches(actions, u)
    ensures SameTimer(m.s, Acts(m, actions, now, start, arms).s, u)
    ensures Acts(m, actions, now, start, arms).temporary == Holds(u) <==> m.temporary == Holds(u)
    decreases |actions|
  {
    assert m.s.Sized();
    hide Ordered, GoodTime, InWindow, DueCount;
    if actions != [] {
      assert actions[0].t != u;
      ActKeepsReady(m, actions[0], now, start, arms);
      ActLeavesAlone(m, actions[0], now, start, u, arms);
      var r := Act(m, actions[0], now);
      hide Act;
      ActsLeaveAlone(r, actions[1..], now, start, u, arms);
    }
  }

  /** What a check makes of a timer that no callback touches: an expired one-shot timer stops, an expired
      periodic one starts again, and any other stays as it is. */
  ghost predicate Checked(s: State, r: State, now: Tick, u: Timer)
    requires s.Sized() && r.Sized() && u < |s.active| == |r.active|
  {
    if u in s.list && Due(s, u, now) then
      if s.periodic[u] && s.active[u] then
        u in r.list && r.active[u] && r.deadline[u] == Plus(now, s.initTick[u])
      else u !in r.list && (!s.periodic[u] ==> !r.active[u])
    else SameTimer(s, r, u)
  }

  lemma RoundOnUntouched(s: State, callbacks: Callbacks, now: Tick, start: Tick, u: Timer, arms: set<Timer>)
    requires Ready(Moment(s, Empty), now, start, arms) && GoodCallbacks(|s.active|, callbacks, now, start, arms)
    requires s.list != [] && Due(s, s.list[0], now) && u < |s.active| && !Touches(callbacks(s.list[0]), u)
    ensures s.Sized() && Round(s, callbacks, now, start, arms).Sized()
    ensures if s.list[0] == u then Checked(s, Round(s, callbacks, now, start, arms), now, u)
            else SameTimer(s, Round(s, callbacks, now, start, arms), u)
    ensures s.list[0] == u ==> (u in Round(s, callbacks, now, start, arms).list ==> !Due(Round(s, callbacks, now, start, arms), u, now))
  {
    var t := s.list[0];
    TakenIsReady(s, now, start, arms);
    OrderedRest(s, start);
    ActsLeaveAlone(Taken(s), callbacks(t), now, start, u, arms);
    var m := Acts(Taken(s), callbacks(t), now, start, arms);
    assert s.Sized() && m.s.Sized();
    RearmedIsReady(m, now, start, arms);
    var taken := Taken(s);
    assert u in taken.s.list <==> u in s.list && u != t;
    assert m.temporary.Holds? && m.s.periodic[m.temporary.t] ==> GoodTime(m.s.initTick[m.temporary.t], now, start);
    hide Ordered, InWindow, DueCount, Acts, Plus, Expired, Place, Armed, GoodTimes, GoodTime, GoodCallbacks;
    if m.temporary.Holds? && m.s.periodic[m.temporary.t] && m.s.active[m.temporary.t] {
      var w := m.temporary.t;
      var q := m.s.(active := m.s.active[w := false]);
      OnlySettings(m.s, q, start);
      StartedIsLater(start, now, q.initTick[w]);
      StartedKeepsOrdered(q, w, now, start);
    }
  }

  function Times(firings: seq<Firing>, u: Timer): nat {
    if firings == [] then 0 else (if firings[0].t == u then 1 else 0) + Times(firings[1..], u)
  }

  /** A timer that no callback touches fires exactly once if it has expired, and not at all otherwise;
      and afterwards it is as it should be. */
  lemma {:induction false} FiresExactlyTheExpired(s: State, callbacks: Callbacks, now: Tick, start: Tick, u: Timer, arms: set<Timer>)
    requires Ready(Moment(s, Empty), now, start, arms) && GoodCallbacks(|s.active|, callbacks, now, start, arms)
    requires u < |s.active| && forall t: Timer :: !Touches(callbacks(t), u)
    ensures var (r, firings) := Check(s, callbacks, now, start, arms);
            && s.Sized() && r.Sized() && |r.active| == |s.active|
            && Times(firings, u) == (if u in s.list && Due(s, u, now) then 1 else 0)
            && Checked(s, r, now, u)
    decreases DueCount(s.list, s.deadline, now)
  {
    assert s.Sized();
    if s.list == [] || !Due(s, s.list[0], now) {
      NoneDueBehind(s, now, start);
    } else {
      RoundOnUntouched(s, callbacks, now, start, u, arms);
      var next := Round(s, callbacks, now, start, arms);
      assert s.list[0] in s.list;
      hide Expired, GoodTime, GoodCallbacks, Ordered, Round, InWindow, Rank, DueCount, Plus;
      FiresExactlyTheExpired(next, callbacks, now, start, u, arms);
      var (last, rest) := Check(next, callbacks, now, start, arms);
      var f := Firing(s.list[0], DeadlineOf(s.deadline, s.list[0]));
      assert Check(s, callbacks, now, start, arms) == (last, [f] + rest);
      assert ([f] + rest)[1..] == rest;
    }
  }

  // ---------- Where the source needs care ----------

  /** Exactly the linked timers are active, except for the one being fired. */
  ghost predicate Activity(m: Moment) {
    forall t: Timer :: t < |m.s.active| && m.temporary != Holds(t) ==> (m.s.active[t] <==> t in m.s.list)
  }

  lemma ActKeepsActivity(m: Moment, a: Action, now: Tick, start: Tick, arms: set<Timer>)
    requires Ready(m, now, start, arms) && GoodAction(m.s, a, now, start, arms) && Activity(m)
    ensures Activity(Act(m, a, now))
  {
    assert m.s.Sized();
    hide Ordered, GoodTime, Plus, Place, InWindow;
    if a.StartIt? {
      StartedIsLater(start, now, m.s.initTick[a.t]);
      StartedKeepsOrdered(m.s, a.t, now, start);
    }
  }

  /** When a callback has run, exactly the linked timers are active again, unless it has made its own
      periodic timer a one-shot timer while that is neither restarted nor stopped: such a timer stays
      marked active without being linked. */
  lemma OnlyOwnSwitchStrands(m: Moment, now: Tick, start: Tick, arms: set<Timer>)
    requires Ready(m, now, start, arms) && Activity(m)
    ensures Inv(Rearmed(m, now), start)
       <==> !(m.temporary.Holds? && m.s.active[m.temporary.t] && !m.s.periodic[m.temporary.t])
  {
    RearmedIsReady(m, now, start, arms);
    assert m.s.Sized();
    hide Ordered, GoodTime, Plus, Place, InWindow;
    if m.temporary.Holds? && m.s.periodic[m.temporary.t] && m.s.active[m.temporary.t] {
      var t := m.temporary.t;
      var s := m.s.(active := m.s.active[t := false]);
      OnlySettings(m.s, s, start);
      StartedIsLater(start, now, s.initTick[t]);
      StartedKeepsOrdered(s, t, now, start);
    }
  }

  /** Whenever a periodic timer fires whose timeout function only makes it a one-shot timer, it ends up so. */
  lemma OwnSwitchStrands(s: State, callbacks: Callbacks, now: Tick, start: Tick, arms: set<Timer>)
    requires Ready(Moment(s, Empty), now, start, arms) && GoodCallbacks(|s.active|, callbacks, now, start, arms)
    requires Inv(s, start) && s.list != [] && Due(s, s.list[0], now)
    requires s.list[0] < |s.active| && s.periodic[s.list[0]] && callbacks(s.list[0]) == [SetPeriodic(s.list[0], false)]
    ensures var t, r := s.list[0], Round(s, callbacks, now, start, arms);
            r.Sized() && t < |r.active| && r.active[t] && t !in r.list && !Inv(r, start)
  {
    var t, m := s.list[0], Taken(s);
    OrderedRest(s, start);
    TakenIsReady(s, now, start, arms);
    var off := SetPeriodic(t, false);
    assert callbacks(t)[0] == off && callbacks(t)[1..] == [];
    assert Careful(off, now, start, arms);
    ActKeepsReady(m, off, now, start, arms);
    hide Ordered, GoodTime, InWindow, DueCount;
    assert Acts(m, callbacks(t), now, start, arms) == Act(m, off, now);
  }

  /** Such a state is reached by starting one timer and letting its time pass. */
  lemma StrandedFromTheStart()
    ensures var s := Started(State(1, [], [0], [5], [1], [true], [false], 0), 0, 0);
            var callbacks: Callbacks := (t: Timer) => if t == 0 then [SetPeriodic(0, false)] else [];
            && Ready(Moment(s, Empty), 5, 0, {0}) && GoodCallbacks(1, callbacks, 5, 0, {0})
            && Inv(s, 0) && s.list == [0] && |s.active| == 1 && Due(s, 0, 5)
            && 0 !in Round(s, callbacks, 5, 0, {0}).list && !Inv(Round(s, callbacks, 5, 0, {0}), 0)
  {
    var before := State(1, [], [0], [5], [1], [true], [false], 0);
    var s := Started(before, 0, 0);
    var callbacks: Callbacks := (t: Timer) => if t == 0 then [SetPeriodic(0, false)] else [];
    assert Plus(0, 5) == 5 && InWindow(0, 5);
    StartedKeepsOrdered(before, 0, 0, 0);
    assert s.list == [0] && s.deadline == [5] && s.active == [true];
    OwnSwitchStrands(s, callbacks, 5, 0, {0});
  }

  /** A period of zero would make the check run for ever: the timer is due again as soon as it is rearmed. */
  lemma ZeroPeriodIsDueAgain(s: State, now: Tick, start: Tick)
    requires Ordered(s, start) && InWindow(start, now) && s.list != []
    requires var t := s.list[0]; t < |s.active| && s.periodic[t] && s.active[t] && s.initTick[t] == 0
    ensures var t, r := s.list[0], Rearmed(Taken(s), now); t in r.list && Due(r, t, now)
  {
    var t := s.list[0];
    OrderedRest(s, start);
    var m := Taken(s);
    OnlySettings(s.(list := s.list[1..]), m.s.(active := m.s.active[t := false]), start);
    assert Plus(now, 0) == now;
    StartedKeepsOrdered(m.s.(active := m.s.active[t := false]), t, now, start);
  }
}
