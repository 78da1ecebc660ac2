/** Priority inheritance in os/rt-thread-nano/src/ipc.c: one mutex with the priority flag, and threads
    whose priorities nothing else changes. A smaller number is more urgent. */
module Mutex {
  import opened IpcList
  import opened Lists

  const HOLD_MAX: nat := 0xFF

  /** original_priority of a mutex without owner. */
  const NO_PRIORITY: nat := 0xFF

  datatype Owner = Nobody | By(thread: Thread)

  /** `current` holds the current_priority of every thread. */
  datatype State = State(value: nat, hold: nat, owner: Owner, original: nat, list: seq<Thread>, current: seq<nat>)

  datatype Event =
    | Take(t: Thread, time: int)
    | Release(t: Thread)
    | Expire(t: Thread)      // the timer of a suspended thread fires

  datatype Outcome = Taken | Full | TimedOut | Blocked | Released | NotOwner

  function PriorityIn(current: seq<nat>): Priorities {
    (t: Thread) => if t < |current| then current[t] else NO_PRIORITY
  }

  function Suspended(s: State, t: Thread, flag: Flag): State
    requires t < |s.current|
  {
    // The owner inherits the priority of a more urgent thread that has to wait for it.
    var boosted :=
      if s.owner.By? && s.owner.thread < |s.current| && s.current[t] < s.current[s.owner.thread]
      then s.current[s.owner.thread := s.current[t]]
      else s.current;
    s.(current := boosted, list := Insert(s.list, t, flag, PriorityIn(boosted)))
  }

  /** The last release: the owner falls back, and the mutex passes to the first suspended thread. */
  function PassedOn(s: State): State
    requires s.owner.By?
  {
    var o := s.owner.thread;
    var restored := if o < |s.current| then s.current[o := s.original] else s.current;
    if s.list == [] then State(s.value + 1, 0, Nobody, NO_PRIORITY, [], restored)
    else State(s.value, 1, By(s.list[0]), PriorityIn(restored)(s.list[0]), s.list[1..], restored)
  }

  predicate Enabled(s: State, e: Event) {
    match e
    case Take(t, _) => t < |s.current| && t !in s.list
    case Release(t) => t < |s.current| && t !in s.list
    case Expire(t) => t in s.list
  }

  function Apply(s: State, e: Event, flag: Flag): (State, Outcome)
    requires Enabled(s, e)
  {
    match e
    case Take(t, time) =>
      if s.owner == By(t) then
        if s.hold < HOLD_MAX then (s.(hold := s.hold + 1), Taken) else (s, Full)
      else if s.value > 0 then
        (s.(value := s.value - 1, owner := By(t), original := s.current[t], hold := s.hold + 1), Taken)
      else if time == 0 then (s, TimedOut)
      else (Suspended(s, t, flag), Blocked)
    case Release(t) =>
      if s.owner != By(t) then (s, NotOwner)
      else if s.hold > 1 then (s.(hold := s.hold - 1), Released)
      else (PassedOn(s), Released)
    case Expire(t) => (s.(list := Without(s.list, t)), TimedOut)
  }

  function Init(priorities: seq<nat>): State {
    State(1, 0, Nobody, NO_PRIORITY, [], priorities)
  }

  // ---------- The invariant ----------

  /** `own` are the priorities the threads started with. */
  ghost predicate Inv(s: State, own: seq<nat>) {
    && |s.current| == |own|
    && Distinct(s.list) && (forall t :: t in s.list ==> t < |own|)
    && Sorted(s.list, PriorityIn(s.current))
    && Ownership(s)
    && Inheritance(s, own)
  }

  /** value == 1 exactly if there is no owner, exactly if hold == 0, and then nobody waits. */
  predicate Ownership(s: State) {
    && s.hold <= HOLD_MAX
    && (s.value == 0 || s.value == 1)
    && (s.value == 1 <==> s.owner == Nobody) && (s.hold == 0 <==> s.owner == Nobody)
    && (s.owner == Nobody ==> s.list == [])
    && (s.owner.By? ==> s.owner.thread < |s.current| && s.owner.thread !in s.list)
  }

  /** Only the owner ever runs at another priority than its own; it is never less urgent than its own
      priority or than any thread that waits for it; and what it will fall back to is its own priority. */
  ghost predicate Inheritance(s: State, own: seq<nat>)
    requires |s.current| == |own|
  {
    && (forall t: Thread :: t < |own| && s.owner != By(t) ==> s.current[t] == own[t])
    && (s.owner.By? && s.owner.thread < |own| ==>
          && s.original == own[s.owner.thread]
          && s.current[s.owner.thread] <= own[s.owner.thread]
          && forall t :: t in s.list && t < |own| ==> s.current[s.owner.thread] <= s.current[t])
  }

  lemma InsertedList(list: seq<Thread>, t: Thread, prio: Priorities)
    requires Distinct(list) && t !in list && Sorted(list, prio)
    ensures var r := Insert(list, t, Prio, prio);
            Distinct(r) && Sorted(r, prio) && forall x :: x in r <==> x in list || x == t
  {
    InsertKeepsSorted(list, t, prio);
    InsertMembers(list, Position(list, prio(t), prio), t);
    InsertIsDistinct(list, Position(list, prio(t), prio), t);
  }

  lemma SuspendedKeepsInv(s: State, t: Thread, own: seq<nat>)
    requires Inv(s, own) && t < |own| && t !in s.list && s.owner.By? && s.owner != By(t)
    ensures Inv(Suspended(s, t, Prio), own)
  {
    hide Insert, Distinct;
    var r := Suspended(s, t, Prio);
    SameOrder(s.list, PriorityIn(s.current), PriorityIn(r.current));
    InsertedList(s.list, t, PriorityIn(r.current));
  }

  lemma PassedOnKeepsInv(s: State, own: seq<nat>)
    requires Inv(s, own) && s.owner.By?
    ensures Inv(PassedOn(s), own)
  {
    hide Distinct, Sorted;
    var r := PassedOn(s);
    if s.list != [] {
      RestOfList(s.list, PriorityIn(s.current));
      assert s.list[0] in s.list;
      SameOrder(r.list, PriorityIn(s.current), PriorityIn(r.current));
    } else {
      assert Distinct(r.list) && Sorted(r.list, PriorityIn(r.current)) by {
        NoList(PriorityIn(r.current));
      }
    }
  }

  lemma NoList(prio: Priorities)
    ensures Distinct<Thread>([]) && Sorted([], prio)
  {
  }

  /** Inheritance survives every event: taking, waiting, giving up, releasing and passing on. */
  lemma EventKeepsInv(s: State, e: Event, own: seq<nat>)
    requires Inv(s, own) && Enabled(s, e)
    ensures Inv(Apply(s, e, Prio).0, own)
  {
    match e
    case Take(t, _) =>
      if s.owner.By? && s.owner != By(t) {
        SuspendedKeepsInv(s, t, own);
      }
    case Release(t) =>
      if s.owner == By(t) {
        PassedOnKeepsInv(s, own);
      }
    case Expire(t) =>
      WithoutIsDistinct(s.list, t);
      WithoutKeepsSorted(s.list, t, PriorityIn(s.current));
  }

  predicate Leads(s: State, events: seq<Event>, flag: Flag, r: State)
    decreases |events|
  {
    if events == [] then r == s
    else Enabled(s, events[0]) && Leads(Apply(s, events[0], flag).0, events[1..], flag, r)
  }

  lemma {:induction false} RunKeepsInv(s: State, events: seq<Event>, r: State, own: seq<nat>)
    requires Inv(s, own) && Leads(s, events, Prio, r)
    ensures Inv(r, own)
    decreases |events|
  {
    hide Inv, Apply;
    if events != [] {
      EventKeepsInv(s, events[0], own);
      RunKeepsInv(Apply(s, events[0], Prio).0, events[1..], r, own);
    }
  }

  /** In every reachable state the owner is at least as urgent as every waiter, and everyone else,
      in particular whoever has released the mutex for the last time, is back at its own priority. */
  lemma NoPriorityInversion(priorities: seq<nat>, events: seq<Event>, r: State)
    requires Leads(Init(priorities), events, Prio, r)
    ensures Ownership(r) && |r.current| == |priorities|
    ensures forall o: Thread, t :: r.owner == By(o) && t in r.list && t < |priorities| ==> r.current[o] <= r.current[t] == priorities[t]
    ensures forall t: Thread :: t < |priorities| && r.owner != By(t) ==> r.current[t] == priorities[t]
  {
    RunKeepsInv(Init(priorities), events, r, priorities);
  }

  // ---------- How much is inherited ----------

  /** The owner runs exactly at the most urgent priority among its own and those of its waiters. */
  predicate Exact(s: State, own: seq<nat>)
    requires |s.current| == |own|
  {
    s.owner.By? && s.owner.thread < |own| ==>
      s.current[s.owner.thread] == Most(own[s.owner.thread], s.list, own)
  }

  function Most(p: nat, list: seq<Thread>, own: seq<nat>): nat {
    if list != [] && list[0] < |own| && own[list[0]] < p then own[list[0]] else p
  }

  /** Only a timeout can make the owner keep more urgency than it needs: it does so exactly if the thread
      that gives up was the most urgent waiter, more urgent than the owner and than everyone behind it. */
  predicate LeavesBoost(s: State, e: Event, own: seq<nat>)
    requires |s.current| == |own|
  {
    && e.Expire? && s.list != [] && s.list[0] == e.t
    && s.owner.By? && s.owner.thread < |own| && e.t < |own|
    && own[e.t] < own[s.owner.thread]
    && (|s.list| > 1 && s.list[1] < |own| ==> own[e.t] < own[s.list[1]])
  }

  lemma InsertHead(list: seq<Thread>, t: Thread, prio: Priorities)
    ensures var r := Insert(list, t, Prio, prio);
            r != [] && r[0] == if list == [] || prio(t) < prio(list[0]) then t else list[0]
  {
  }

  lemma WithoutHead(list: seq<Thread>, t: Thread)
    requires Distinct(list) && list != []
    ensures var r := Without(list, t);
            if list[0] != t then r != [] && r[0] == list[0] else r == list[1..]
  {
    if list[0] == t {
      WithoutAbsent(list[1..], t);
    }
  }

  lemma InheritanceIsExact(s: State, e: Event, own: seq<nat>)
    requires Inv(s, own) && Exact(s, own) && Enabled(s, e)
    ensures Inv(Apply(s, e, Prio).0, own)
    ensures Exact(Apply(s, e, Prio).0, own) <==> !LeavesBoost(s, e, own)
  {
    hide Insert, Sorted, Distinct, Without, Position;
    EventKeepsInv(s, e, own);
    var r := Apply(s, e, Prio).0;
    if s.list != [] {
      assert s.list[0] in s.list;
    }
    match e
    case Take(t, _) => InsertHead(s.list, t, PriorityIn(Suspended(s, t, Prio).current));
    case Release(t) =>
      if r.list != [] {
        assert r.list[0] in r.list;
      }
    case Expire(t) =>
      WithoutHead(s.list, t);
      if |s.list| > 1 {
        assert s.list[1] in s.list;
      }
  }

  /** A run to such a timeout: the more urgent thread 1 waits for thread 0, boosts it and gives up. */
  lemma TimeoutLeavesBoost()
    ensures var events, r := [Take(0, -1), Take(1, 10), Expire(1)], State(0, 1, By(0), 2, [], [1, 1]);
            Leads(Init([2, 1]), events, Prio, r) && Inv(r, [2, 1]) && !Exact(r, [2, 1])
  {
    var events, r := [Take(0, -1), Take(1, 10), Expire(1)], State(0, 1, By(0), 2, [], [1, 1]);
    assert !Exact(r, [2, 1]);
    hide Leads, Inv, Exact;
    InitIsInv([2, 1]);
    BoostRun(events, r);
    RunKeepsInv(Init([2, 1]), events, r, [2, 1]);
  }

  lemma InitIsInv(priorities: seq<nat>)
    ensures Inv(Init(priorities), priorities)
  {
  }

  lemma BoostRun(events: seq<Event>, r: State)
    requires events == [Take(0, -1), Take(1, 10), Expire(1)] && r == State(0, 1, By(0), 2, [], [1, 1])
    ensures Leads(Init([2, 1]), events, Prio, r)
  {
    BoostSteps();
    hide Apply, Enabled;
    assert Leads(r, events[3..], Prio, r);
    assert Leads(State(0, 1, By(0), 2, [1], [1, 1]), events[2..], Prio, r);
    assert Leads(State(0, 1, By(0), 2, [], [2, 1]), events[1..], Prio, r);
  }

  lemma BoostSteps()
    ensures Enabled(Init([2, 1]), Take(0, -1))
    ensures Apply(Init([2, 1]), Take(0, -1), Prio).0 == State(0, 1, By(0), 2, [], [2, 1])
    ensures Enabled(State(0, 1, By(0), 2, [], [2, 1]), Take(1, 10))
    ensures Apply(State(0, 1, By(0), 2, [], [2, 1]), Take(1, 10), Prio).0 == State(0, 1, By(0), 2, [1], [1, 1])
    ensures Enabled(State(0, 1, By(0), 2, [1], [1, 1]), Expire(1))
    ensures Apply(State(0, 1, By(0), 2, [1], [1, 1]), Expire(1), Prio).0 == State(0, 1, By(0), 2, [], [1, 1])
  {
    assert [1][1..] == [];
  }

  // ---------- The FIFO flag ----------

  /** The invariant without the order of the list, which the FIFO flag does not keep, and without the
      urgency of the owner. */
  ghost predicate Base(s: State, own: seq<nat>) {
    && |s.current| == |own|
    && Distinct(s.list) && (forall t :: t in s.list ==> t < |own|)
    && Ownership(s)
    && (forall t: Thread :: t < |own| && s.owner != By(t) ==> s.current[t] == own[t])
    && (s.owner.By? && s.owner.thread < |own| ==> s.original == own[s.owner.thread])
  }

  /** A last release that passes the mutex to a thread less urgent than one behind it. */
  predicate PassesToLessUrgent(s: State, e: Event, own: seq<nat>) {
    && e.Release? && s.owner == By(e.t) && s.hold <= 1 && s.list != [] && s.list[0] < |own|
    && exists j :: 0 < j < |s.list| && s.list[j] < |own| && own[s.list[j]] < own[s.list[0]]
  }

  /** With the FIFO flag inheritance survives exactly the events that are no such release. */
  lemma FifoEventIsExact(s: State, e: Event, own: seq<nat>)
    requires Base(s, own) && Inheritance(s, own) && Enabled(s, e)
    ensures var r := Apply(s, e, Fifo).0; Base(r, own) && (Inheritance(r, own) <==> !PassesToLessUrgent(s, e, own))
  {
    match e
    case Take(t, time) =>
    case Release(t) =>
      if s.owner == By(t) && s.hold <= 1 {
        FifoPassesOn(s, own);
      }
    case Expire(t) =>
      WithoutIsDistinct(s.list, t);
  }

  lemma FifoPassesOn(s: State, own: seq<nat>)
    requires Base(s, own) && Inheritance(s, own) && s.owner.By? && s.hold <= 1
    ensures var r := PassedOn(s);
            Base(r, own) && (Inheritance(r, own) <==> !PassesToLessUrgent(s, Release(s.owner.thread), own))
  {
    var r := PassedOn(s);
    if s.list != [] {
      assert s.list[0] in s.list;
      assert s.list[0] !in r.list;
      forall t | t in r.list ensures t in s.list && t < |own| && r.current[t] == own[t] {
        var i :| 0 <= i < |r.list| && r.list[i] == t;
        assert s.list[i + 1] == t;
      }
      if Inheritance(r, own) {
        forall j | 0 < j < |s.list| && s.list[j] < |own| ensures own[s.list[j]] >= own[s.list[0]] {
          assert r.list[j - 1] == s.list[j] && s.list[j] in r.list;
        }
      } else {
        var t :| t in r.list && t < |own| && r.current[s.list[0]] > r.current[t];
        var i :| 0 <= i < |r.list| && r.list[i] == t;
        assert s.list[i + 1] == t;
      }
    }
  }

  ghost predicate InheritsThroughout(s: State, events: seq<Event>, own: seq<nat>)
    decreases |events|
  {
    && |s.current| == |own| && Inheritance(s, own)
    && (events != [] ==> Enabled(s, events[0]) && InheritsThroughout(Apply(s, events[0], Fifo).0, events[1..], own))
  }

  predicate NonePassesToLessUrgent(s: State, events: seq<Event>, own: seq<nat>)
    decreases |events|
  {
    events != [] ==>
      && Enabled(s, events[0]) && !PassesToLessUrgent(s, events[0], own)
      && NonePassesToLessUrgent(Apply(s, events[0], Fifo).0, events[1..], own)
  }

  /** So the owner is never less urgent than a waiter in any state of a run with the FIFO flag if and only
      if no release of the run passes the mutex to a less urgent thread. */
  lemma {:induction false} FifoRunIsExact(s: State, events: seq<Event>, r: State, own: seq<nat>)
    requires Base(s, own) && Inheritance(s, own) && Leads(s, events, Fifo, r)
    ensures InheritsThroughout(s, events, own) <==> NonePassesToLessUrgent(s, events, own)
    ensures NonePassesToLessUrgent(s, events, own) ==> Base(r, own) && Inheritance(r, own)
    decreases |events|
  {
    if events != [] {
      FifoEventIsExact(s, events[0], own);
      var n := Apply(s, events[0], Fifo).0;
      hide Apply, Base, Inheritance, PassesToLessUrgent, Enabled;
      if !PassesToLessUrgent(s, events[0], own) {
        FifoRunIsExact(n, events[1..], r, own);
      }
    }
  }

  /** With the FIFO flag a new owner can be less urgent than a thread already waiting for it. */
  lemma FifoInvertsPriority()
    ensures exists events: seq<Event>, r: State ::
              Leads(Init([1, 3, 2]), events, Fifo, r) && r.owner == By(1) && r.list == [2] && r.current == [1, 3, 2]
  {
    var s := Init([1, 3, 2]);
    var s1 := State(0, 1, By(0), 1, [], [1, 3, 2]);
    var s2 := State(0, 1, By(0), 1, [1], [1, 3, 2]);
    var s3 := State(0, 1, By(0), 1, [1, 2], [1, 3, 2]);
    var s4 := State(0, 1, By(1), 3, [2], [1, 3, 2]);
    var events := [Take(0, -1), Take(1, -1), Take(2, -1), Release(0)];
    assert Apply(s, events[0], Fifo).0 == s1 && Apply(s1, events[1], Fifo).0 == s2;
    assert Apply(s2, events[2], Fifo).0 == s3 && Apply(s3, events[3], Fifo).0 == s4;
    hide Apply;
    assert Leads(s4, events[4..], Fifo, s4);
    assert Leads(s3, events[3..], Fifo, s4);
    assert Leads(s2, events[2..], Fifo, s4);
    assert Leads(s1, events[1..], Fifo, s4);
    assert Leads(s, events, Fifo, s4);
  }

  // ---------- The object ----------

  class MutexObject {
    const flag: Flag
    var value: nat
    var hold: nat
    var owner: Owner
    var originalPriority: nat
    var suspendThread: seq<Thread>
    const currentPriority: array<nat>   // of every thread

    ghost function Abs(): State
      reads this, currentPriority
    {
      State(value, hold, owner, originalPriority, suspendThread, currentPriority[..])
    }

    /** rt_mutex_init. */
    constructor (flag: Flag, currentPriority: array<nat>)
      ensures Abs() == Init(currentPriority[..]) && this.flag == flag && this.currentPriority == currentPriority
    {
      this.flag, this.currentPriority := flag, currentPriority;
      value, hold, owner, originalPriority, suspendThread := 1, 0, Nobody, NO_PRIORITY, [];
    }

    /** rt_mutex_take up to rt_schedule. */
    method Take(t: Thread, time: int) returns (outcome: Outcome)
      requires Ownership(Abs()) && Enabled(Abs(), Event.Take(t, time))
      modifies this, currentPriority
      ensures (Abs(), outcome) == Apply(old(Abs()), Event.Take(t, time), flag)
    {
      if owner == By(t) {
        if hold < HOLD_MAX {
          hold := hold + 1;
          return Taken;
        }
        return Full;
      }
      if value > 0 {
        value := value - 1;
        owner, originalPriority := By(t), currentPriority[t];
        hold := hold + 1;
        return Taken;
      }
      if time == 0 {
        return TimedOut;
      }
      if currentPriority[t] < currentPriority[owner.thread] {
        currentPriority[owner.thread] := currentPriority[t];
      }
      suspendThread := ListSuspend(suspendThread, t, flag, PriorityIn(currentPriority[..]));
      outcome := Blocked;
    }

    /** rt_mutex_release. */
    method Release(t: Thread) returns (outcome: Outcome)
      requires Ownership(Abs()) && Enabled(Abs(), Event.Release(t))
      modifies this, currentPriority
      ensures (Abs(), outcome) == Apply(old(Abs()), Event.Release(t), flag)
    {
      if owner != By(t) {
        return NotOwner;
      }
      hold := hold - 1;
      if hold == 0 {
        if originalPriority != currentPriority[t] {
          currentPriority[t] := originalPriority;
        }
        assert currentPriority[..] == old(currentPriority[..])[t := originalPriority];
        if suspendThread != [] {
          owner := By(suspendThread[0]);
          originalPriority := PriorityIn(currentPriority[..])(suspendThread[0]);
          hold := hold + 1;
          suspendThread := suspendThread[1..];
        } else {
          value := value + 1;
          owner, originalPriority := Nobody, NO_PRIORITY;
        }
      }
      outcome := Released;
    }
  }
}
