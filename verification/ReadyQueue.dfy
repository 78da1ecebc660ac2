/** The ready queues of os/rt-thread-nano/src/scheduler.c with their bitmap index, and the operations of
    os/rt-thread-nano/src/thread.c on them. A bitmap is the sequence of its bits, lowest first. */
module ReadyQueue {
  import opened Lists

  type Thread = nat
  type Bits = seq<bool>

  // ---------- __rt_ffs ----------

  /** The entries of __lowest_bit_bitmap: a row of sixteen is the same but for its first entry. */
  const ROW: seq<nat> := [0, 0, 1, 0, 2, 0, 1, 0, 3, 0, 1, 0, 2, 0, 1, 0]
  const FIRST: seq<nat> := [0, 4, 5, 4, 6, 4, 5, 4, 7, 4, 5, 4, 6, 4, 5, 4]

  function LowestBitOfByte(b: nat): nat
    requires b < 256
  {
    if b % 16 == 0 then FIRST[b / 16] else ROW[b % 16]
  }

  function Digit(bit: bool, weight: nat): nat {
    if bit then weight else 0
  }

  /** (value >> 8 * k) & 0xff. */
  function Byte(v: Bits, k: nat): (b: nat)
    requires 8 * k + 8 <= |v|
    ensures b < 256
  {
    Digit(v[8 * k], 1) + Digit(v[8 * k + 1], 2) + Digit(v[8 * k + 2], 4) + Digit(v[8 * k + 3], 8)
    + Digit(v[8 * k + 4], 16) + Digit(v[8 * k + 5], 32) + Digit(v[8 * k + 6], 64) + Digit(v[8 * k + 7], 128)
  }

  function Ffs(v: Bits): nat
    requires |v| == 32
  {
    if Byte(v, 0) == 0 && Byte(v, 1) == 0 && Byte(v, 2) == 0 && Byte(v, 3) == 0 then 0
    else if Byte(v, 0) != 0 then LowestBitOfByte(Byte(v, 0)) + 1
    else if Byte(v, 1) != 0 then LowestBitOfByte(Byte(v, 1)) + 9
    else if Byte(v, 2) != 0 then LowestBitOfByte(Byte(v, 2)) + 17
    else LowestBitOfByte(Byte(v, 3)) + 25
  }

  /** Position n is set and nothing before it is. */
  predicate IsLowest(v: Bits, n: nat) {
    n < |v| && v[n] && forall j :: 0 <= j < n ==> !v[j]
  }

  lemma ByteTable(v: Bits, k: nat)
    requires 8 * k + 8 <= |v|
    ensures Byte(v, k) == 0 <==> forall j :: 8 * k <= j < 8 * k + 8 ==> !v[j]
    ensures Byte(v, k) != 0 ==>
              && LowestBitOfByte(Byte(v, k)) < 8 && v[8 * k + LowestBitOfByte(Byte(v, k))]
              && forall j :: 8 * k <= j < 8 * k + LowestBitOfByte(Byte(v, k)) ==> !v[j]
  {
    var low := Digit(v[8 * k], 1) + Digit(v[8 * k + 1], 2) + Digit(v[8 * k + 2], 4) + Digit(v[8 * k + 3], 8);
    var high := Digit(v[8 * k + 4], 1) + Digit(v[8 * k + 5], 2) + Digit(v[8 * k + 6], 4) + Digit(v[8 * k + 7], 8);
    assert Byte(v, k) == low + 16 * high;
    assert Byte(v, k) % 16 == low && Byte(v, k) / 16 == high;
  }

  /** __rt_ffs is the position of the lowest set bit, counted from one, and zero if there is none. */
  lemma FfsIsLowest(v: Bits)
    requires |v| == 32
    ensures Ffs(v) == 0 <==> forall j :: 0 <= j < 32 ==> !v[j]
    ensures Ffs(v) != 0 ==> IsLowest(v, Ffs(v) - 1)
  {
    ByteTable(v, 0);
    ByteTable(v, 1);
    ByteTable(v, 2);
    ByteTable(v, 3);
    hide Byte, LowestBitOfByte;
  }

  // ---------- The ready queues ----------

  datatype Stat = Initial | Ready | Suspended | Closed

  /** `levels` is RT_THREAD_PRIORITY_MAX. With up to 32 levels `group` has a bit for every level; with
      more, `table` has, and `group` has a bit for every eight levels. */
  datatype State = State(levels: nat, queues: seq<seq<Thread>>, group: Bits, table: seq<Bits>,
                         stat: seq<Stat>, priority: seq<nat>, initPriority: seq<nat>, lockNest: nat, current: Thread)
  {
    ghost predicate Sized() {
      && 0 < levels <= 256 && |queues| == levels && |group| == 32 && |table| == 32
      && (forall n :: 0 <= n < 32 ==> |table[n]| == 8)
      && |stat| == |priority| == |initPriority|
      && (forall t :: 0 <= t < |priority| ==> priority[t] < levels && initPriority[t] < levels)
    }
  }

  function Marked(s: State, p: nat): State
    requires s.Sized() && p < s.levels
  {
    if s.levels <= 32 then s.(group := s.group[p := true])
    else s.(table := s.table[p / 8 := s.table[p / 8][p % 8 := true]], group := s.group[p / 8 := true])
  }

  predicate NoBit(v: Bits) {
    forall i :: 0 <= i < |v| ==> !v[i]
  }

  function Cleared(s: State, p: nat): State
    requires s.Sized() && p < s.levels
  {
    if s.levels <= 32 then s.(group := s.group[p := false])
    else
      var bits := s.table[p / 8][p % 8 := false];
      s.(table := s.table[p / 8 := bits], group := if NoBit(bits) then s.group[p / 8 := false] else s.group)
  }

  /** rt_schedule_insert_thread. */
  function Inserted(s: State, t: Thread): State
    requires s.Sized() && t < |s.stat|
  {
    var p := s.priority[t];
    Marked(s.(stat := s.stat[t := Ready], queues := s.queues[p := s.queues[p] + [t]]), p)
  }

  /** rt_schedule_remove_thread, which is also used on threads that are not ready. */
  function Removed(s: State, t: Thread): State
    requires s.Sized() && t < |s.stat|
  {
    var p := s.priority[t];
    var queue := Without(s.queues[p], t);
    var r := s.(queues := s.queues[p := queue]);
    if queue == [] then Cleared(r, p) else r
  }

  /** The level that rt_schedule works out from the bitmaps. */
  function Highest(s: State): int
    requires s.Sized()
  {
    if s.levels <= 32 then Ffs(s.group) - 1
    else
      var number := Ffs(s.group) - 1;
      if 0 <= number < 32 then 8 * number + Ffs(s.table[number] + seq(24, _ => false)) - 1 else -1
  }

  /** Calls made with interrupts disabled from beginning to end, and calls that are one such section. */
  datatype Op =
    | Startup(t: Thread)
    | Suspend(t: Thread)
    | Resume(t: Thread)
    | Timeout(t: Thread)
    | Yield
    | ChangePriority(t: Thread, p: nat)
    | Close(t: Thread)                  // rt_thread_detach, rt_thread_delete, rt_thread_exit
    | EnterCritical
    | ExitCritical
    | Schedule

  ghost predicate SomeReady(s: State) {
    exists p :: 0 <= p < |s.queues| && s.queues[p] != []
  }

  /** What the source asserts of its callers, and that a schedule finds a ready thread, such as the idle thread. */
  ghost predicate Enabled(s: State, op: Op) {
    && s.Sized()
    && match op
       case Startup(t) => t < |s.stat| && s.stat[t] == Initial
       case Suspend(t) => t < |s.stat|
       case Resume(t) => t < |s.stat|
       case Timeout(t) => t < |s.stat| && s.stat[t] == Suspended
       case Yield => s.current < |s.stat|
       case ChangePriority(t, p) => t < |s.stat| && p < s.levels
       case Close(t) => t < |s.stat|
       case Schedule => SomeReady(s) && 0 <= Highest(s) < s.levels && s.queues[Highest(s)] != []
       case _ => true
  }

  function Resumed(s: State, t: Thread): State
    requires s.Sized() && t < |s.stat|
  {
    if s.stat[t] != Suspended then s else Inserted(s, t)
  }

  function Apply(s: State, op: Op): State
    requires Enabled(s, op)
  {
    match op
    case Startup(t) => Resumed(s.(priority := s.priority[t := s.initPriority[t]], stat := s.stat[t := Suspended]), t)
    case Suspend(t) =>
      if s.stat[t] != Ready then s
      else var r := Removed(s, t); r.(stat := r.stat[t := Suspended])
    case Resume(t) => Resumed(s, t)
    case Timeout(t) => Inserted(s, t)
    case Yield =>
      var t := s.current;
      var p := s.priority[t];
      if s.stat[t] == Ready && t in s.queues[p] && |s.queues[p]| > 1
      then s.(queues := s.queues[p := Without(s.queues[p], t) + [t]])
      else s
    case ChangePriority(t, p) =>
      if s.stat[t] == Ready then Inserted(Removed(s, t).(priority := s.priority[t := p]), t)
      else s.(priority := s.priority[t := p])
    case Close(t) =>
      if s.stat[t] == Closed then s
      else var r := if s.stat[t] != Initial then Removed(s, t) else s; r.(stat := r.stat[t := Closed])
    case EnterCritical => s.(lockNest := s.lockNest + 1)
    case ExitCritical => s.(lockNest := if s.lockNest > 0 then s.lockNest - 1 else 0)
    case Schedule =>
      if s.lockNest == 0 then s.(current := s.queues[Highest(s)][0]) else s
  }

  // ---------- The invariant ----------

  predicate InQueue(s: State, p: nat, t: Thread) {
    p < |s.queues| && t in s.queues[p]
  }

  /** Every thread is in the queue of its priority exactly if it is ready, so it is in at most one queue. */
  ghost predicate Queued(s: State) {
    && (forall p :: 0 <= p < |s.queues| ==> Distinct(s.queues[p]))
    && forall p: nat, t: Thread :: InQueue(s, p, t) <==> t < |s.stat| && s.stat[t] == Ready && t < |s.priority| && s.priority[t] == p
  }

  predicate Occupied(s: State, p: nat) {
    p < |s.queues| && s.queues[p] != []
  }

  predicate TableBit(s: State, p: nat) {
    p / 8 < |s.table| && p % 8 < |s.table[p / 8]| && s.table[p / 8][p % 8]
  }

  /** The bits say which queues are occupied. */
  ghost predicate Indexed(s: State) {
    && |s.group| == 32
    && if s.levels <= 32 then forall p: nat :: p < 32 ==> (s.group[p] <==> Occupied(s, p))
       else
         && (forall p: nat :: p < 256 ==> (TableBit(s, p) <==> Occupied(s, p)))
         && forall n: nat :: n < 32 ==> (s.group[n] <==> n < |s.table| && !NoBit(s.table[n]))
  }

  ghost predicate Inv(s: State) {
    s.Sized() && Queued(s) && Indexed(s)
  }

  lemma DivMod8(p: nat, q: nat)
    ensures p / 8 == q / 8 && p % 8 == q % 8 <==> p == q
    ensures p < 256 ==> p / 8 < 32
  {
  }

  lemma MarkedIsIndexed(s: State, p: nat, was: seq<seq<Thread>>)
    requires s.Sized() && p < s.levels && |was| == |s.queues| && Indexed(s.(queues := was))
    requires s.queues[p] != [] && forall q :: 0 <= q < s.levels && q != p ==> s.queues[q] == was[q]
    ensures Marked(s, p).Sized() && Indexed(Marked(s, p))
  {
    var before, r := s.(queues := was), Marked(s, p);
    forall q: nat | q < 256 ensures Occupied(r, q) <==> Occupied(before, q) || q == p {
    }
    if s.levels > 32 {
      forall q: nat | q < 256 ensures TableBit(r, q) <==> Occupied(r, q) {
        DivMod8(p, q);
        assert TableBit(before, q) <==> Occupied(before, q);
      }
      assert !NoBit(r.table[p / 8]) by {
        assert r.table[p / 8][p % 8];
      }
    }
  }

  lemma ClearedIsIndexed(s: State, p: nat, was: seq<seq<Thread>>)
    requires s.Sized() && p < s.levels && |was| == |s.queues| && Indexed(s.(queues := was))
    requires s.queues[p] == [] && forall q :: 0 <= q < s.levels && q != p ==> s.queues[q] == was[q]
    ensures Cleared(s, p).Sized() && Indexed(Cleared(s, p))
  {
    var before, r := s.(queues := was), Cleared(s, p);
    forall q: nat | q < 256 ensures Occupied(r, q) <==> Occupied(before, q) && q != p {
    }
    if s.levels > 32 {
      forall q: nat | q < 256 ensures TableBit(r, q) <==> Occupied(r, q) {
        DivMod8(p, q);
        assert TableBit(before, q) <==> Occupied(before, q);
      }
      if !NoBit(r.table[p / 8]) {
        var i :| 0 <= i < 8 && r.table[p / 8][i];
        assert s.table[p / 8][i];
      }
    }
  }

  lemma InsertedIsInv(s: State, t: Thread)
    requires Inv(s) && t < |s.stat| && s.stat[t] != Ready
    ensures Inv(Inserted(s, t))
  {
    var p := s.priority[t];
    var m := s.(stat := s.stat[t := Ready], queues := s.queues[p := s.queues[p] + [t]]);
    assert !InQueue(s, p, t);
    SameIndex(s, m.(queues := s.queues));
    MarkedIsIndexed(m, p, s.queues);
    var r := Inserted(s, t);
    hide Indexed;
    forall q: nat, u: Thread
      ensures InQueue(r, q, u) <==> u < |r.stat| && r.stat[u] == Ready && u < |r.priority| && r.priority[u] == q
    {
      assert InQueue(s, q, u) <==> u < |s.stat| && s.stat[u] == Ready && u < |s.priority| && s.priority[u] == q;
    }
  }

  lemma RemovedIsInv(s: State, t: Thread, stat: Stat)
    requires Inv(s) && t < |s.stat| && stat != Ready
    ensures Removed(s, t).Sized() && |Removed(s, t).stat| == |s.stat|
    ensures Inv(Removed(s, t).(stat := Removed(s, t).stat[t := stat]))
    ensures Removed(s, t).stat == s.stat && Removed(s, t).priority == s.priority && Indexed(Removed(s, t))
  {
    var p := s.priority[t];
    var queue := Without(s.queues[p], t);
    var m := s.(queues := s.queues[p := queue]);
    WithoutIsDistinct(s.queues[p], t);
    assert m.(queues := s.queues) == s;
    if queue == [] {
      ClearedIsIndexed(m, p, s.queues);
    } else {
      assert s.queues[p] != [];
      forall q: nat | q < 256 ensures Occupied(m, q) <==> Occupied(s, q) {
      }
      SameIndex(s, m);
    }
    var r := Removed(s, t).(stat := s.stat[t := stat]);
    assert Indexed(r) by {
      SameIndex(Removed(s, t), r);
    }
    hide Indexed;
    forall q: nat, u: Thread
      ensures InQueue(r, q, u) <==> u < |r.stat| && r.stat[u] == Ready && u < |r.priority| && r.priority[u] == q
    {
      assert InQueue(s, q, u) <==> u < |s.stat| && s.stat[u] == Ready && u < |s.priority| && s.priority[u] == q;
    }
  }

  lemma SameIndex(s: State, r: State)
    requires Indexed(s) && r.levels == s.levels && r.group == s.group && r.table == s.table
    requires forall p: nat :: p < 256 ==> (Occupied(r, p) <==> Occupied(s, p))
    ensures Indexed(r)
  {
    forall p: nat | p < 256 ensures TableBit(r, p) <==> TableBit(s, p) {
    }
  }

  lemma ChangedIsInv(s: State, t: Thread, p: nat)
    requires Inv(s) && t < |s.stat| && p < s.levels && s.stat[t] != Ready
    ensures Inv(s.(priority := s.priority[t := p]))
  {
    var r := s.(priority := s.priority[t := p]);
    SameIndex(s, r);
    hide Indexed;
    forall q: nat, u: Thread
      ensures InQueue(r, q, u) <==> u < |r.stat| && r.stat[u] == Ready && u < |r.priority| && r.priority[u] == q
    {
      assert InQueue(s, q, u) <==> u < |s.stat| && s.stat[u] == Ready && u < |s.priority| && s.priority[u] == q;
    }
  }

  lemma StatIsInv(s: State, t: Thread, stat: Stat)
    requires Inv(s) && t < |s.stat| && s.stat[t] != Ready && stat != Ready
    ensures Inv(s.(stat := s.stat[t := stat]))
  {
    var r := s.(stat := s.stat[t := stat]);
    SameIndex(s, r);
    hide Indexed;
    forall q: nat, u: Thread
      ensures InQueue(r, q, u) <==> u < |r.stat| && r.stat[u] == Ready && u < |r.priority| && r.priority[u] == q
    {
      assert InQueue(s, q, u) <==> u < |s.stat| && s.stat[u] == Ready && u < |s.priority| && s.priority[u] == q;
    }
  }

  /** Removing a ready thread and inserting it again at another priority. */
  lemma MovedIsInv(s: State, t: Thread, p: nat)
    requires Inv(s) && t < |s.stat| && p < s.levels && s.stat[t] == Ready
    ensures Removed(s, t).Sized() && t < |Removed(s, t).stat|
    ensures var r := Removed(s, t).(priority := s.priority[t := p]); r.Sized() && t < |r.stat| && Inv(Inserted(r, t))
  {
    RemovedIsInv(s, t, Suspended);
    var r := Removed(s, t);
    var idle := r.(stat := r.stat[t := Suspended]);
    ChangedIsInv(idle, t, p);
    var moved := idle.(priority := idle.priority[t := p]);
    InsertedIsInv(moved, t);
    hide Inv, Removed;
    assert Inserted(r.(priority := r.priority[t := p]), t) == Inserted(moved, t) by {
      assert r.stat[t := Ready] == moved.stat[t := Ready];
    }
  }

  /** The end of a queue keeps every queue's members. */
  lemma YieldedIsInv(s: State, t: Thread)
    requires Inv(s) && t < |s.stat| && s.stat[t] == Ready
    ensures var p := s.priority[t]; Inv(s.(queues := s.queues[p := Without(s.queues[p], t) + [t]]))
  {
    var p := s.priority[t];
    WithoutIsDistinct(s.queues[p], t);
    assert InQueue(s, p, t);
    var r := s.(queues := s.queues[p := Without(s.queues[p], t) + [t]]);
    forall q: nat | q < 256 ensures Occupied(r, q) <==> Occupied(s, q) {
      if q == p {
        assert t in s.queues[p];
      }
    }
    SameIndex(s, r);
    hide Indexed;
    forall q: nat, u: Thread ensures InQueue(r, q, u) <==> InQueue(s, q, u) {
    }
  }

  lemma SameQueues(s: State, r: State)
    requires Inv(s) && r == s.(lockNest := r.lockNest, current := r.current)
    ensures Inv(r)
  {
    SameIndex(s, r);
    forall q: nat, u: Thread ensures InQueue(r, q, u) <==> InQueue(s, q, u) {
    }
  }

  /** Every operation keeps the queues and their index in order. */
  lemma OpKeepsInv(s: State, op: Op)
    requires Inv(s) && Enabled(s, op)
    ensures Inv(Apply(s, op))
  {
    match op
    case Startup(t) =>
      ChangedIsInv(s, t, s.initPriority[t]);
      var c := s.(priority := s.priority[t := s.initPriority[t]]);
      StatIsInv(c, t, Suspended);
      InsertedIsInv(c.(stat := c.stat[t := Suspended]), t);
    case Suspend(t) =>
      RemovedIsInv(s, t, Suspended);
    case Resume(t) =>
      hide Queued, Indexed;
      if s.stat[t] == Suspended { InsertedIsInv(s, t); }
    case Timeout(t) => InsertedIsInv(s, t);
    case Yield =>
      if s.stat[s.current] == Ready { YieldedIsInv(s, s.current); }
    case ChangePriority(t, p) =>
      if s.stat[t] == Ready { MovedIsInv(s, t, p); } else { ChangedIsInv(s, t, p); }
    case Close(t) =>
      if s.stat[t] == Initial { StatIsInv(s, t, Closed); } else { RemovedIsInv(s, t, Closed); }
    case EnterCritical => SameQueues(s, Apply(s, op));
    case ExitCritical => SameQueues(s, Apply(s, op));
    case Schedule => SameQueues(s, Apply(s, op));
  }

  // ---------- The most urgent level ----------

  /** A linear scan for the first queue that is not empty. */
  function Scan(queues: seq<seq<Thread>>): (p: nat)
    ensures p <= |queues| && (forall q :: 0 <= q < p ==> queues[q] == []) && (p < |queues| ==> queues[p] != [])
  {
    if queues == [] || queues[0] != [] then 0 else 1 + Scan(queues[1..])
  }

  /** While some thread is ready, the level worked out from the bitmaps, in either layout, is the one a
      linear scan of the queues finds. */
  lemma HighestIsScan(s: State)
    requires s.Sized() && Indexed(s) && SomeReady(s)
    ensures Highest(s) == Scan(s.queues) < s.levels && s.queues[Highest(s)] != []
  {
    var p := Scan(s.queues);
    assert Occupied(s, p);
    FfsIsLowest(s.group);
    if s.levels <= 32 {
      hide Ffs;
      assert s.group[p];
      forall q: nat | q < p ensures !s.group[q] {
        assert !Occupied(s, q);
      }
    } else {
      HighestOfTwo(s, p);
    }
  }

  lemma HighestOfTwo(s: State, p: nat)
    requires s.Sized() && Indexed(s) && s.levels > 32 && Occupied(s, p) && forall q: nat :: q < p ==> !Occupied(s, q)
    ensures Highest(s) == p
  {
    hide Ffs;
    var n := p / 8;
    assert TableBit(s, p);
    assert !NoBit(s.table[n]) && s.group[n];
    forall m: nat | m < n ensures !s.group[m] {
      forall i | 0 <= i < 8 ensures !s.table[m][i] {
        DivMod8(8 * m + i, p);
        assert !TableBit(s, 8 * m + i) by {
          assert !Occupied(s, 8 * m + i);
        }
        assert (8 * m + i) / 8 == m && (8 * m + i) % 8 == i;
      }
      assert NoBit(s.table[m]);
    }
    FfsIsLowest(s.group);
    assert Ffs(s.group) - 1 == n;
    var bits := s.table[n] + seq(24, _ => false);
    assert bits[p % 8];
    forall i | 0 <= i < p % 8 ensures !bits[i] {
      var q: nat := 8 * n + i;
      assert q / 8 == n && q % 8 == i;
      assert !TableBit(s, q) by {
        assert !Occupied(s, q);
      }
    }
    FfsIsLowest(bits);
  }

  /** A schedule that finds a ready thread always finds the one that has waited longest of the most urgent. */
  lemma ScheduleIsEnabled(s: State)
    requires Inv(s) && SomeReady(s)
    ensures Enabled(s, Schedule)
    ensures s.lockNest == 0 ==>
              var r := Apply(s, Schedule);
              && r.current == s.queues[Scan(s.queues)][0]
              && r.current < |s.stat| && s.stat[r.current] == Ready
              && forall t: Thread :: t < |s.stat| && s.stat[t] == Ready ==> s.priority[r.current] <= s.priority[t]
  {
    HighestIsScan(s);
    var p := Scan(s.queues);
    var c := s.queues[p][0];
    assert InQueue(s, p, c);
    forall t: Thread | t < |s.stat| && s.stat[t] == Ready ensures p <= s.priority[t] {
      assert InQueue(s, s.priority[t], t);
    }
  }

  /** rt_system_scheduler_init, and threads that have been initialised. */
  function Init(levels: nat, initPriority: seq<nat>): State {
    State(levels, seq(levels, _ => []), seq(32, _ => false), seq(32, _ => seq(8, _ => false)),
          seq(|initPriority|, _ => Initial), initPriority, initPriority, 0, 0)
  }

  lemma InitIsInv(levels: nat, initPriority: seq<nat>)
    requires 0 < levels <= 256 && forall t :: 0 <= t < |initPriority| ==> initPriority[t] < levels
    ensures Inv(Init(levels, initPriority))
  {
  }

  /** After a yield another ready thread of the same priority runs, if there is one. */
  lemma YieldGivesWay(s: State)
    requires Inv(s) && SomeReady(s) && s.lockNest == 0 && s.current < |s.stat|
    requires s.stat[s.current] == Ready && Scan(s.queues) == s.priority[s.current] && s.queues[Scan(s.queues)][0] == s.current
    requires |s.queues[Scan(s.queues)]| > 1
    ensures var y := Apply(s, Yield);
            Enabled(y, Schedule) && Apply(y, Schedule).current == s.queues[Scan(s.queues)][1]
  {
    var p := Scan(s.queues);
    OpKeepsInv(s, Yield);
    var y := Apply(s, Yield);
    WithoutAt(s.queues[p], 0);
    assert y.queues[p] == s.queues[p][1..] + [s.current];
    assert Occupied(y, p);
    HighestIsScan(y);
    assert Scan(y.queues) == p;
  }

  // ---------- The object ----------

  class Scheduler {
    const levels: nat
    const priorityTable: array<seq<Thread>>   // rt_thread_priority_table
    var readyPriorityGroup: Bits              // rt_thread_ready_priority_group
    const readyTable: array<Bits>             // rt_thread_ready_table
    const stat: array<Stat>
    const currentPriority: array<nat>
    const initPriority: array<nat>
    var lockNest: nat
    var current: Thread                       // rt_current_thread

    ghost function Abs(): State
      reads this, priorityTable, readyTable, stat, currentPriority, initPriority
    {
      State(levels, priorityTable[..], readyPriorityGroup, readyTable[..], stat[..], currentPriority[..], initPriority[..], lockNest, current)
    }

    ghost predicate Valid()
      reads this, priorityTable, readyTable, stat, currentPriority, initPriority
    {
      Abs().Sized() && currentPriority != initPriority
    }

    /** rt_system_scheduler_init. */
    constructor (levels: nat, stat: array<Stat>, currentPriority: array<nat>, initPriority: array<nat>)
      requires 0 < levels <= 256 && stat.Length == currentPriority.Length == initPriority.Length && currentPriority != initPriority
      requires forall t :: 0 <= t < stat.Length ==> currentPriority[t] < levels && initPriority[t] < levels
      ensures Valid() && fresh(priorityTable) && fresh(readyTable)
      ensures this.stat == stat && this.currentPriority == currentPriority && this.initPriority == initPriority
      ensures Abs() == Init(levels, initPriority[..]).(stat := stat[..], priority := currentPriority[..])
      ensures (forall t :: 0 <= t < stat.Length ==> stat[t] != Ready) ==> Inv(Abs())
    {
      this.levels, this.stat, this.currentPriority, this.initPriority := levels, stat, currentPriority, initPriority;
      priorityTable := new seq<Thread>[levels](_ => []);
      readyTable := new Bits[32](_ => seq(8, _ => false));
      readyPriorityGroup, lockNest, current := seq(32, _ => false), 0, 0;
      new;
      assert priorityTable[..] == seq(levels, _ => []);
      assert readyTable[..] == seq(32, _ => seq(8, _ => false));
    }

    /** rt_schedule_insert_thread. */
    method InsertThread(t: Thread)
      requires Valid() && t < stat.Length
      modifies `readyPriorityGroup, priorityTable, readyTable, stat
      ensures Valid() && Abs() == Inserted(old(Abs()), t)
    {
      stat[t] := Ready;
      var p := currentPriority[t];
      priorityTable[p] := priorityTable[p] + [t];
      if levels > 32 {
        readyTable[p / 8] := readyTable[p / 8][p % 8 := true];
        readyPriorityGroup := readyPriorityGroup[p / 8 := true];
      } else {
        readyPriorityGroup := readyPriorityGroup[p := true];
      }
    }

    /** rt_schedule_remove_thread. */
    method RemoveThread(t: Thread)
      requires Valid() && t < stat.Length
      modifies `readyPriorityGroup, priorityTable, readyTable
      ensures Valid() && Abs() == Removed(old(Abs()), t)
    {
      var p := currentPriority[t];
      priorityTable[p] := Without(priorityTable[p], t);
      if priorityTable[p] == [] {
        if levels > 32 {
          readyTable[p / 8] := readyTable[p / 8][p % 8 := false];
          var empty := AllZero(readyTable[p / 8]);
          if empty {
            readyPriorityGroup := readyPriorityGroup[p / 8 := false];
          }
        } else {
          readyPriorityGroup := readyPriorityGroup[p := false];
        }
      }
    }

    method AllZero(bits: Bits) returns (zero: bool)
      ensures zero == NoBit(bits)
    {
      for i := 0 to |bits|
        invariant forall j :: 0 <= j < i ==> !bits[j]
      {
        if bits[i] {
          return false;
        }
      }
      zero := true;
    }

    /** rt_schedule. */
    method Schedule()
      requires Valid() && Inv(Abs()) && SomeReady(Abs())
      modifies `current
      ensures Valid() && Enabled(old(Abs()), Op.Schedule) && Abs() == Apply(old(Abs()), Op.Schedule)
    {
      HighestIsScan(Abs());
      ScheduleIsEnabled(Abs());
      hide Inv, Ffs, Scan;
      if lockNest == 0 {
        var highest;
        if levels <= 32 {
          highest := Ffs(readyPriorityGroup) - 1;
        } else {
          var number := Ffs(readyPriorityGroup) - 1;
          highest := 8 * number + Ffs(readyTable[number] + seq(24, _ => false)) - 1;
        }
        var toThread := priorityTable[highest][0];
        if toThread != current {
          current := toThread;
        }
      }
    }

    /** rt_thread_suspend with interrupts disabled. */
    method Suspend(t: Thread) returns (ok: bool)
      requires Valid() && t < stat.Length
      modifies `readyPriorityGroup, priorityTable, readyTable, stat
      ensures Valid() && Abs() == Apply(old(Abs()), Op.Suspend(t)) && ok == (old(stat[t]) == Ready)
    {
      ok := stat[t] == Ready;
      if ok {
        RemoveThread(t);
        stat[t] := Suspended;
      }
    }

    /** rt_thread_resume with interrupts disabled, and rt_thread_timeout on a suspended thread. */
    method Resume(t: Thread) returns (ok: bool)
      requires Valid() && t < stat.Length
      modifies `readyPriorityGroup, priorityTable, readyTable, stat
      ensures Valid() && Abs() == Apply(old(Abs()), Op.Resume(t)) && ok == (old(stat[t]) == Suspended)
      ensures ok ==> Abs() == Apply(old(Abs()), Timeout(t))
    {
      ok := stat[t] == Suspended;
      if ok {
        InsertThread(t);
      }
    }

    /** rt_thread_control with RT_THREAD_CTRL_CHANGE_PRIORITY. */
    method ChangePriority(t: Thread, p: nat)
      requires Valid() && t < stat.Length && p < levels
      modifies `readyPriorityGroup, priorityTable, readyTable, stat, currentPriority
      ensures Valid() && Abs() == Apply(old(Abs()), Op.ChangePriority(t, p))
    {
      if stat[t] == Ready {
        RemoveThread(t);
        currentPriority[t] := p;
        InsertThread(t);
      } else {
        currentPriority[t] := p;
      }
    }

    /** rt_thread_yield, before its rt_schedule. */
    method Yield()
      requires Valid() && current < stat.Length
      modifies priorityTable
      ensures Valid() && Abs() == Apply(old(Abs()), Op.Yield)
    {
      var t := current;
      var p := currentPriority[t];
      if stat[t] == Ready && t in priorityTable[p] && |priorityTable[p]| > 1 {
        priorityTable[p] := Without(priorityTable[p], t) + [t];
      }
    }
  }
}
