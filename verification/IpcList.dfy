/** The suspend lists of os/rt-thread-nano/src/ipc.c, and the threads that have been taken off one
    but have not run again yet. */
module IpcList {
  import opened Lists

  type Thread = nat

  datatype Flag = Fifo | Prio

  /** current_priority: a smaller number is more urgent. */
  type Priorities = Thread -> nat

  // ---------- rt_ipc_list_suspend ----------

  /** Where a thread of the given priority goes in a priority list: before the first less urgent one. */
  function Position(list: seq<Thread>, priority: nat, prio: Priorities): (k: nat)
    ensures k <= |list|
    ensures forall i :: 0 <= i < k ==> prio(list[i]) <= priority
    ensures k < |list| ==> priority < prio(list[k])
  {
    if list == [] || priority < prio(list[0]) then 0 else 1 + Position(list[1..], priority, prio)
  }

  function Insert(list: seq<Thread>, t: Thread, flag: Flag, prio: Priorities): seq<Thread> {
    match flag
    case Fifo => list + [t]
    case Prio =>
      InsertAt(list, Position(list, prio(t), prio), t)
  }

  method ListSuspend(list: seq<Thread>, t: Thread, flag: Flag, prio: Priorities) returns (r: seq<Thread>)
    ensures r == Insert(list, t, flag, prio)
  {
    if flag == Fifo {
      return list + [t];
    }
    var n := 0;
    while n < |list| && prio(list[n]) <= prio(t)
      invariant n <= |list|
      invariant Position(list, prio(t), prio) == n + Position(list[n..], prio(t), prio)
    {
      assert list[n..][1..] == list[n + 1..];
      n := n + 1;
    }
    r := list[..n] + [t] + list[n..];
  }

  /** The calls of the threads that are not on the list. */
  function Spared<C>(calls: map<Thread, C>, list: seq<Thread>): map<Thread, C> {
    map t | t in calls && t !in list :: calls[t]
  }

  /** rt_ipc_list_resume_all: thread by thread, the first of the list is taken off it, and its call fails. */
  method ListResumeAll<C>(list: seq<Thread>, ghost calls: map<Thread, C>) returns (ghost left: map<Thread, C>)
    ensures left == Spared(calls, list)
  {
    var rest := list;
    left := calls;
    while rest != []
      invariant Spared(left, rest) == Spared(calls, list)
      decreases |rest|
    {
      SparedFirst(left, rest);
      left, rest := left - {rest[0]}, rest[1..];
    }
    assert Spared(left, []) == left;
  }

  lemma SparedFirst<C>(calls: map<Thread, C>, list: seq<Thread>)
    requires list != []
    ensures Spared(calls - {list[0]}, list[1..]) == Spared(calls, list)
  {
    assert list == [list[0]] + list[1..];
  }

  ghost predicate Sorted(list: seq<Thread>, prio: Priorities) {
    forall i, j :: 0 <= i < j < |list| ==> prio(list[i]) <= prio(list[j])
  }

  /** A priority list stays sorted, and a new thread goes behind all equally urgent ones. */
  lemma InsertKeepsSorted(list: seq<Thread>, t: Thread, prio: Priorities)
    requires Sorted(list, prio)
    ensures Sorted(Insert(list, t, Prio, prio), prio)
    ensures var k := Position(list, prio(t), prio);
            && Insert(list, t, Prio, prio)[k] == t
            && forall i :: 0 <= i < |list| ==> (prio(list[i]) <= prio(t) <==> i < k)
  {
    var k := Position(list, prio(t), prio);
    var r := Insert(list, t, Prio, prio);
    assert r == InsertAt(list, k, t);
    hide Position, Insert, InsertAt;
    forall i | 0 <= i < |list| ensures prio(list[i]) <= prio(t) <==> i < k {
      if k < i {
        assert prio(list[k]) <= prio(list[i]);
      }
    }
    forall i, j | 0 <= i < j < |r| ensures prio(r[i]) <= prio(r[j]) {
    }
  }

  // ---------- Waiters: suspended threads, and woken ones that have not rechecked ----------

  datatype Waiters = Waiters(list: seq<Thread>, woken: set<Thread>)
  {
    predicate Has(t: Thread) { t in list || t in woken }

    ghost predicate Formed() {
      Distinct(list) && forall t :: t in list ==> t !in woken
    }

    /** No wakeup has been lost: while threads are suspended, every available unit is matched by a
        woken thread that will still look at it. */
    ghost predicate NoneLost(available: int) {
      Formed() && (list != [] ==> available <= |woken|)
    }

    function Suspend(t: Thread, flag: Flag, prio: Priorities): Waiters {
      Waiters(Insert(list, t, flag, prio), woken)
    }

    /** rt_ipc_list_resume, if anyone is suspended. */
    function Wake(): Waiters {
      if list == [] then this else Waiters(list[1..], woken + {list[0]})
    }

    /** A woken thread runs again. */
    function Leave(t: Thread): Waiters {
      Waiters(list, woken - {t})
    }

    /** A suspended thread is removed by its timer. */
    function Expire(t: Thread): Waiters {
      Waiters(Without(list, t), woken)
    }

    /** rt_ipc_list_resume_all: everyone returns with an error. */
    function Flush(): Waiters {
      Waiters([], woken)
    }
  }

  lemma {:induction false} WithoutKeepsSorted(list: seq<Thread>, t: Thread, prio: Priorities)
    requires Sorted(list, prio)
    ensures Sorted(Without(list, t), prio)
  {
    if list != [] {
      WithoutKeepsSorted(list[1..], t, prio);
      var rest, r := Without(list[1..], t), Without(list, t);
      forall i, j | 0 <= i < j < |r| ensures prio(r[i]) <= prio(r[j]) {
        if list[0] != t {
          assert r == [list[0]] + rest && r[j] == rest[j - 1] && r[j] in rest;
          if i > 0 {
            assert r[i] == rest[i - 1];
          }
        }
      }
    }
  }

  /** The first of a list is at least as urgent as the rest, and the rest is a list of the same kind. */
  lemma RestOfList(list: seq<Thread>, prio: Priorities)
    requires Distinct(list) && Sorted(list, prio) && list != []
    ensures Distinct(list[1..]) && Sorted(list[1..], prio) && list[0] !in list[1..]
    ensures forall x :: x in list[1..] ==> x in list && prio(list[0]) <= prio(x)
  {
    forall x | x in list[1..] ensures x in list && prio(list[0]) <= prio(x) {
      var i :| 0 <= i < |list| - 1 && list[1..][i] == x;
      assert list[i + 1] == x;
    }
  }

  lemma SameOrder(list: seq<Thread>, prio: Priorities, after: Priorities)
    requires Sorted(list, prio) && forall t :: t in list ==> after(t) == prio(t)
    ensures Sorted(list, after)
  {
    forall i, j | 0 <= i < j < |list| ensures after(list[i]) <= after(list[j]) {
      assert list[i] in list && list[j] in list;
    }
  }

  lemma SuspendKeeps(w: Waiters, t: Thread, flag: Flag, prio: Priorities, available: int)
    requires w.Formed() && !w.Has(t) && available <= 0
    ensures w.Suspend(t, flag, prio).NoneLost(available)
    ensures forall x :: w.Suspend(t, flag, prio).Has(x) <==> w.Has(x) || x == t
  {
    hide Distinct;
    var k := if flag == Fifo then |w.list| else Position(w.list, prio(t), prio);
    assert w.list[..|w.list|] == w.list;
    InsertMembers(w.list, k, t);
    InsertIsDistinct(w.list, k, t);
    assert w.Suspend(t, flag, prio).list == InsertAt(w.list, k, t);
  }

  lemma WakeKeeps(w: Waiters, available: int)
    requires w.NoneLost(available)
    ensures w.Wake().NoneLost(available + 1)
    ensures forall x :: w.Wake().Has(x) <==> w.Has(x)
  {
    if w.list != [] {
      var r := w.Wake();
      assert w.list == [w.list[0]] + r.list;
      assert w.list[0] !in r.list;
      assert w.list[0] in w.list;
      assert |r.woken| == |w.woken| + 1;
    }
  }

  lemma LeaveKeeps(w: Waiters, t: Thread, available: int)
    requires w.NoneLost(available)
    ensures w.Leave(t).NoneLost(if t in w.woken then available - 1 else available)
    ensures t !in w.list ==> forall x :: w.Leave(t).Has(x) <==> w.Has(x) && x != t
  {
  }

  lemma ExpireKeeps(w: Waiters, t: Thread, available: int)
    requires w.NoneLost(available) && t !in w.woken
    ensures w.Expire(t).NoneLost(available)
    ensures forall x :: w.Expire(t).Has(x) <==> w.Has(x) && x != t
  {
    WithoutIsDistinct(w.list, t);
  }
}
