/** The message queue of os/rt-thread-nano/src/ipc.c as a concurrent protocol.

    A send takes a free node under the interrupt lock, copies its message into the node with
    interrupts enabled, and links the node under the lock again; a receive unlinks, copies and frees
    in the same way. Each of these steps is one event, and threads interleave freely between events. */
module MessageQueue {
  import opened IpcList
  import opened Lists

  type Node = nat
  type Bytes = seq<bv8>

  /** A pool node: the bytes behind its header, and the message last copied there, which may be shorter. */
  datatype Cell = Cell(bytes: Bytes, message: Bytes)

  datatype Call =
    | Sending(message: Bytes, timeout: int)                  // waits for a free node
    | Receiving(size: nat, timeout: int)                     // waits for a message
    | Filling(node: Node, message: Bytes, urgent: bool)      // has taken a free node
    | Filled(node: Node, urgent: bool)                       // has copied its message
    | Emptying(node: Node, size: nat)                        // has unlinked a node
    | Emptied(node: Node)                                    // has copied the message out
  {
    predicate Holds(n: Node) {
      !Sending? && !Receiving? && node == n
    }
  }

  datatype State = State(msgSize: nat, cells: seq<Cell>, free: seq<Node>, queue: seq<Node>,
                         receivers: Waiters, senders: Waiters, calls: map<Thread, Call>)

  datatype Event =
    | EnterSend(t: Thread, message: Bytes, timeout: int)
    | EnterUrgent(t: Thread, message: Bytes)
    | EnterRecv(t: Thread, size: nat, timeout: int)
    | Resume(t: Thread, elapsed: nat)
    | Expire(t: Thread)
    | CopyIn(t: Thread)
    | Link(t: Thread)
    | CopyOut(t: Thread)
    | Release(t: Thread)
    | Reset

  datatype Outcome = Failed | Full | TimedOut | Blocked | Continues | Done | Got(bytes: Bytes)

  function Remaining(timeout: int, elapsed: nat): int {
    if timeout <= 0 then timeout
    else if timeout < elapsed then 0 else timeout - elapsed
  }

  /** memcpy of a message to the front of a node's bytes. */
  function Overwritten(bytes: Bytes, message: Bytes): Bytes {
    if |message| <= |bytes| then message + bytes[|message|..] else message
  }

  function Min(a: nat, b: nat): nat { if a < b then a else b }

  function Backwards(s: seq<Node>): (r: seq<Node>)
    ensures |r| == |s| && forall n :: n in r <==> n in s
  {
    if s == [] then [] else Backwards(s[1..]) + [s[0]]
  }

  // ---------- The atomic sections ----------

  /** One pass through the loop of rt_mq_send_wait. */
  function TakeFree(s: State, t: Thread, message: Bytes, timeout: int, flag: Flag, prio: Priorities): (State, Outcome) {
    if s.free == [] then
      if timeout == 0 then (s, Full)
      else (s.(senders := s.senders.Suspend(t, flag, prio), calls := s.calls[t := Sending(message, timeout)]), Blocked)
    else
      (s.(free := s.free[1..], calls := s.calls[t := Filling(s.free[0], message, false)]), Continues)
  }

  /** One pass through the loop of rt_mq_recv. */
  function TakeHead(s: State, t: Thread, size: nat, timeout: int, flag: Flag, prio: Priorities): (State, Outcome) {
    if s.queue == [] then
      if timeout == 0 then (s, TimedOut)
      else (s.(receivers := s.receivers.Suspend(t, flag, prio), calls := s.calls[t := Receiving(size, timeout)]), Blocked)
    else
      (s.(queue := s.queue[1..], calls := s.calls[t := Emptying(s.queue[0], size)]), Continues)
  }

  predicate Enabled(s: State, e: Event) {
    match e
    case EnterSend(t, _, _) => t !in s.calls
    case EnterUrgent(t, _) => t !in s.calls
    case EnterRecv(t, _, _) => t !in s.calls
    case Resume(t, _) =>
      t in s.calls && ((s.calls[t].Sending? && t in s.senders.woken) || (s.calls[t].Receiving? && t in s.receivers.woken))
    case Expire(t) =>
      && t in s.calls && (s.calls[t].Sending? || s.calls[t].Receiving?)
      && s.calls[t].timeout > 0 && (t in s.senders.list || t in s.receivers.list)
    case CopyIn(t) => t in s.calls && s.calls[t].Filling? && s.calls[t].node < |s.cells|
    case Link(t) => t in s.calls && s.calls[t].Filled?
    case CopyOut(t) => t in s.calls && s.calls[t].Emptying? && s.calls[t].node < |s.cells|
    case Release(t) => t in s.calls && s.calls[t].Emptied?
    case Reset => true
  }

  /** Thread t stops waiting in either capacity. */
  function Returned(s: State, t: Thread): State {
    s.(receivers := s.receivers.Leave(t), senders := s.senders.Leave(t), calls := s.calls - {t})
  }

  /** The calls a reset leaves in progress: it fails only those of suspended threads. */
  function Unfailed(calls: map<Thread, Call>, receivers: seq<Thread>, senders: seq<Thread>): map<Thread, Call> {
    Spared(Spared(calls, receivers), senders)
  }

  function Apply(s: State, e: Event, flag: Flag, prio: Priorities): (State, Outcome)
    requires Enabled(s, e)
  {
    match e
    case EnterSend(t, message, timeout) =>
      if |message| > s.msgSize then (s, Failed) else TakeFree(s, t, message, timeout, flag, prio)
    case EnterUrgent(t, message) =>
      if |message| > s.msgSize then (s, Failed)
      else if s.free == [] then (s, Full)
      else (s.(free := s.free[1..], calls := s.calls[t := Filling(s.free[0], message, true)]), Continues)
    case EnterRecv(t, size, timeout) => TakeHead(s, t, size, timeout, flag, prio)
    case Resume(t, elapsed) =>
      (match s.calls[t]
       case Sending(message, timeout) => TakeFree(Returned(s, t), t, message, Remaining(timeout, elapsed), flag, prio)
       case Receiving(size, timeout) => TakeHead(Returned(s, t), t, size, Remaining(timeout, elapsed), flag, prio))
    case Expire(t) =>
      (s.(receivers := s.receivers.Expire(t), senders := s.senders.Expire(t), calls := s.calls - {t}), TimedOut)
    case CopyIn(t) =>
      var Filling(n, message, urgent) := s.calls[t];
      (s.(cells := s.cells[n := Cell(Overwritten(s.cells[n].bytes, message), message)],
          calls := s.calls[t := Filled(n, urgent)]), Continues)
    case Link(t) =>
      var Filled(n, urgent) := s.calls[t];
      (s.(queue := if urgent then [n] + s.queue else s.queue + [n],
          receivers := s.receivers.Wake(), calls := s.calls - {t}), Done)
    case CopyOut(t) =>
      var Emptying(n, size) := s.calls[t];
      (s.(calls := s.calls[t := Emptied(n)]), Got(s.cells[n].bytes[..Min(size, |s.cells[n].bytes|)]))
    case Release(t) =>
      (s.(free := [s.calls[t].node] + s.free, senders := s.senders.Wake(), calls := s.calls - {t}), Done)
    case Reset =>
      (s.(free := Backwards(s.queue) + s.free, queue := [], receivers := s.receivers.Flush(), senders := s.senders.Flush(),
          calls := Unfailed(s.calls, s.receivers.list, s.senders.list)), Done)
  }

  // ---------- Ownership ----------

  predicate Held(s: State, t: Thread, n: Node) {
    t in s.calls && s.calls[t].Holds(n)
  }

  /** Every node of the pool is in exactly one place: the free list, the queue, or one thread's hands. */
  ghost predicate Partition(s: State) {
    && Distinct(s.free) && Distinct(s.queue)
    && (forall n :: n in s.free ==> n < |s.cells| && n !in s.queue)
    && (forall n :: n in s.queue ==> n < |s.cells|)
    && (forall t: Thread, n: Node :: Held(s, t, n) ==> n < |s.cells| && n !in s.free && n !in s.queue)
    && (forall t: Thread, u: Thread, n: Node :: Held(s, t, n) && Held(s, u, n) ==> t == u)
    && (forall n: Node :: n < |s.cells| && n !in s.free && n !in s.queue ==> exists t: Thread :: Held(s, t, n))
  }

  // ---------- Contents ----------

  /** The node's bytes start with its message. */
  predicate Carries(cell: Cell, msgSize: nat) {
    |cell.bytes| == msgSize && cell.message <= cell.bytes
  }

  ghost predicate Contents(s: State) {
    && (forall n :: 0 <= n < |s.cells| ==> Carries(s.cells[n], s.msgSize))
    && forall t :: t in s.calls && (s.calls[t].Sending? || s.calls[t].Filling?) ==> |s.calls[t].message| <= s.msgSize
  }

  // ---------- Wakeups ----------

  ghost predicate CallMatches(s: State, t: Thread) {
    && (s.receivers.Has(t) <==> t in s.calls && s.calls[t].Receiving?)
    && (s.senders.Has(t) <==> t in s.calls && s.calls[t].Sending?)
  }

  /** Every queued message is matched by a woken receiver, and every free node by a woken sender, while
      others are suspended. `gone` and `goneSenders` have just left to look. */
  ghost predicate Settled(s: State, gone: nat, goneSenders: nat) {
    && s.receivers.NoneLost(|s.queue| - gone)
    && s.senders.NoneLost(|s.free| - goneSenders)
    && forall t: Thread :: CallMatches(s, t)
  }

  ghost predicate Inv(s: State) {
    Partition(s) && Contents(s) && Settled(s, 0, 0)
  }

  // ---------- Ownership moves ----------

  lemma NoNodeMoves(s: State, r: State)
    requires Partition(s) && r.free == s.free && r.queue == s.queue && |r.cells| == |s.cells|
    requires forall t: Thread, n: Node :: Held(r, t, n) <==> Held(s, t, n)
    ensures Partition(r)
  {
    hide Held, Distinct;
  }

  lemma TakenFromFree(s: State, r: State, t: Thread)
    requires Partition(s) && s.free != [] && r.free == s.free[1..] && r.queue == s.queue && |r.cells| == |s.cells|
    requires forall u: Thread, n: Node :: Held(r, u, n) <==> Held(s, u, n) || (u == t && n == s.free[0])
    ensures Partition(r)
  {
    hide Held;
    var f := s.free[0];
    assert s.free == [f] + r.free && f in s.free;
    assert f !in r.free;
    assert forall n :: n in s.free <==> n == f || n in r.free;
    assert Held(r, t, f);
  }

  lemma TakenFromQueue(s: State, r: State, t: Thread)
    requires Partition(s) && s.queue != [] && r.queue == s.queue[1..] && r.free == s.free && |r.cells| == |s.cells|
    requires forall u: Thread, n: Node :: Held(r, u, n) <==> Held(s, u, n) || (u == t && n == s.queue[0])
    ensures Partition(r)
  {
    hide Held;
    var f := s.queue[0];
    assert s.queue == [f] + r.queue && f in s.queue;
    assert f !in r.queue && f !in s.free;
    assert forall n :: n in s.queue <==> n == f || n in r.queue;
    assert Held(r, t, f);
  }

  lemma GivenToQueue(s: State, r: State, t: Thread, f: Node)
    requires Partition(s) && Held(s, t, f) && r.free == s.free && |r.cells| == |s.cells|
    requires r.queue == [f] + s.queue || r.queue == s.queue + [f]
    requires forall u: Thread, n: Node :: Held(r, u, n) <==> Held(s, u, n) && u != t
    requires forall n :: Held(s, t, n) ==> n == f
    ensures Partition(r)
  {
    hide Held;
    assert f !in s.queue;
  }

  lemma GivenToFree(s: State, r: State, t: Thread, f: Node)
    requires Partition(s) && Held(s, t, f) && r.queue == s.queue && |r.cells| == |s.cells|
    requires r.free == [f] + s.free
    requires forall u: Thread, n: Node :: Held(r, u, n) <==> Held(s, u, n) && u != t
    requires forall n :: Held(s, t, n) ==> n == f
    ensures Partition(r)
  {
    hide Held;
    assert f !in s.free;
  }

  lemma {:induction false} BackwardsIsDistinct(q: seq<Node>)
    requires Distinct(q)
    ensures Distinct(Backwards(q))
  {
    if q != [] {
      BackwardsIsDistinct(q[1..]);
      var rest := Backwards(q[1..]);
      assert q[0] !in q[1..];
      forall i, j | 0 <= i < j < |rest| + 1 ensures Backwards(q)[i] != Backwards(q)[j] {
        assert rest[i] in rest;
      }
    }
  }

  lemma QueueFreed(s: State, r: State)
    requires Partition(s) && r.queue == [] && r.free == Backwards(s.queue) + s.free && |r.cells| == |s.cells|
    requires forall u: Thread, n: Node :: Held(r, u, n) <==> Held(s, u, n)
    ensures Partition(r)
  {
    hide Held;
    BackwardsIsDistinct(s.queue);
    var b := Backwards(s.queue);
    forall i, j | 0 <= i < j < |r.free| ensures r.free[i] != r.free[j] {
      if i < |b| <= j {
        assert r.free[i] in b && r.free[j] in s.free;
      }
    }
  }

  /** No event loses a node, or puts one in two places: neither the copying outside the lock, nor a
      reset between two sections of a call, nor a timeout can make two threads write the same node. */
  lemma EventKeepsPartition(s: State, e: Event, flag: Flag, prio: Priorities)
    requires Partition(s) && Enabled(s, e)
    requires forall t :: t in s.receivers.list || t in s.senders.list ==> t in s.calls && (s.calls[t].Sending? || s.calls[t].Receiving?)
    ensures Partition(Apply(s, e, flag, prio).0)
  {
    hide Partition, Insert, Waiters.Wake, Waiters.Leave, Waiters.Expire;
    var r := Apply(s, e, flag, prio).0;
    match e
    case EnterSend(t, message, _) =>
      if |message| <= s.msgSize && s.free != [] { TakenFromFree(s, r, t); } else { NoNodeMoves(s, r); }
    case EnterUrgent(t, message) =>
      if |message| <= s.msgSize && s.free != [] { TakenFromFree(s, r, t); }
    case EnterRecv(t, _, _) =>
      if s.queue != [] { TakenFromQueue(s, r, t); } else { NoNodeMoves(s, r); }
    case Resume(t, _) =>
      if s.calls[t].Sending? && s.free != [] { TakenFromFree(s, r, t); }
      else if s.calls[t].Receiving? && s.queue != [] { TakenFromQueue(s, r, t); }
      else { NoNodeMoves(s, r); }
    case Expire(_) => NoNodeMoves(s, r);
    case CopyIn(_) => NoNodeMoves(s, r);
    case Link(t) => GivenToQueue(s, r, t, s.calls[t].node);
    case CopyOut(_) => NoNodeMoves(s, r);
    case Release(t) => GivenToFree(s, r, t, s.calls[t].node);
    case Reset => QueueFreed(s, r);
  }

  // ---------- The other parts of the invariant ----------

  lemma EventKeepsContents(s: State, e: Event, flag: Flag, prio: Priorities)
    requires Contents(s) && Enabled(s, e)
    ensures Contents(Apply(s, e, flag, prio).0)
  {
    hide Insert, Waiters.Wake, Waiters.Leave, Waiters.Expire;
  }

  lemma TakeFreeSettles(s: State, t: Thread, message: Bytes, timeout: int, flag: Flag, prio: Priorities)
    requires Settled(s, 0, 1) && t !in s.calls
    ensures Settled(TakeFree(s, t, message, timeout, flag, prio).0, 0, 0)
  {
    hide Insert, Distinct, Waiters.Has, Waiters.Suspend;
    assert CallMatches(s, t);
    var r := TakeFree(s, t, message, timeout, flag, prio).0;
    if s.free == [] {
      SuspendKeeps(s.senders, t, flag, prio, 0);
    }
    forall x: Thread ensures CallMatches(r, x) {
      assert CallMatches(s, x);
    }
  }

  lemma TakeHeadSettles(s: State, t: Thread, size: nat, timeout: int, flag: Flag, prio: Priorities)
    requires Settled(s, 1, 0) && t !in s.calls
    ensures Settled(TakeHead(s, t, size, timeout, flag, prio).0, 0, 0)
  {
    hide Insert, Distinct, Waiters.Has, Waiters.Suspend;
    assert CallMatches(s, t);
    var r := TakeHead(s, t, size, timeout, flag, prio).0;
    if s.queue == [] {
      SuspendKeeps(s.receivers, t, flag, prio, 0);
    }
    forall x: Thread ensures CallMatches(r, x) {
      assert CallMatches(s, x);
    }
  }

  lemma ReturnedIsSettled(s: State, t: Thread)
    requires Settled(s, 0, 0) && t in s.calls
    ensures s.calls[t].Sending? && t in s.senders.woken ==> Settled(Returned(s, t), 0, 1)
    ensures s.calls[t].Receiving? && t in s.receivers.woken ==> Settled(Returned(s, t), 1, 0)
  {
    hide Distinct;
    assert CallMatches(s, t);
    var r := Returned(s, t);
    LeaveKeeps(s.senders, t, |s.free|);
    LeaveKeeps(s.receivers, t, |s.queue|);
    if (s.calls[t].Sending? && t in s.senders.woken) || (s.calls[t].Receiving? && t in s.receivers.woken) {
      forall x: Thread ensures CallMatches(r, x) {
        assert CallMatches(s, x);
      }
    }
  }

  lemma HandoverSettles(s: State, e: Event, flag: Flag, prio: Priorities)
    requires Settled(s, 0, 0) && Enabled(s, e)
    requires e.Link? || e.Release? || e.EnterUrgent? || e.CopyIn? || e.CopyOut?
    ensures Settled(Apply(s, e, flag, prio).0, 0, 0)
  {
    hide Distinct, Waiters.Has, Waiters.Wake;
    var r := Apply(s, e, flag, prio).0;
    WakeKeeps(s.receivers, |s.queue|);
    WakeKeeps(s.senders, |s.free|);
    forall x: Thread ensures CallMatches(r, x) {
      assert CallMatches(s, x) && CallMatches(s, e.t);
    }
  }

  lemma ExpireSettles(s: State, t: Thread, flag: Flag, prio: Priorities)
    requires Settled(s, 0, 0) && Enabled(s, Expire(t))
    ensures Settled(Apply(s, Expire(t), flag, prio).0, 0, 0)
  {
    hide Distinct;
    assert CallMatches(s, t);
    var r := Apply(s, Expire(t), flag, prio).0;
    ExpireKeeps(s.senders, t, |s.free|);
    ExpireKeeps(s.receivers, t, |s.queue|);
    forall x: Thread ensures CallMatches(r, x) {
      assert CallMatches(s, x);
    }
  }

  lemma ResetSettles(s: State, flag: Flag, prio: Priorities)
    requires Settled(s, 0, 0)
    ensures Settled(Apply(s, Reset, flag, prio).0, 0, 0)
  {
    var r := Apply(s, Reset, flag, prio).0;
    forall x: Thread ensures CallMatches(r, x) {
      assert CallMatches(s, x);
    }
  }

  lemma EventSettles(s: State, e: Event, flag: Flag, prio: Priorities)
    requires Settled(s, 0, 0) && Enabled(s, e)
    ensures Settled(Apply(s, e, flag, prio).0, 0, 0)
  {
    match e
    case EnterSend(t, message, timeout) =>
      hide Insert, Distinct, CallMatches, TakeFree;
      if |message| <= s.msgSize { TakeFreeSettles(s, t, message, timeout, flag, prio); }
    case EnterRecv(t, size, timeout) => TakeHeadSettles(s, t, size, timeout, flag, prio);
    case Resume(t, elapsed) =>
      hide Insert, Distinct, CallMatches, TakeFree, TakeHead;
      ReturnedIsSettled(s, t);
      match s.calls[t] {
        case Sending(message, timeout) =>
          TakeFreeSettles(Returned(s, t), t, message, Remaining(timeout, elapsed), flag, prio);
        case Receiving(size, timeout) =>
          TakeHeadSettles(Returned(s, t), t, size, Remaining(timeout, elapsed), flag, prio);
      }
    case Expire(t) => ExpireSettles(s, t, flag, prio);
    case Reset => ResetSettles(s, flag, prio);
    case _ => HandoverSettles(s, e, flag, prio);
  }

  /** Every event of every thread keeps ownership, contents and wakeups in order. */
  lemma EventKeepsInv(s: State, e: Event, flag: Flag, prio: Priorities)
    requires Inv(s) && Enabled(s, e)
    ensures Inv(Apply(s, e, flag, prio).0)
  {
    forall t | t in s.receivers.list || t in s.senders.list
      ensures t in s.calls && (s.calls[t].Sending? || s.calls[t].Receiving?)
    {
      assert CallMatches(s, t);
    }
    hide Apply, Partition, Contents, Settled;
    EventKeepsPartition(s, e, flag, prio);
    EventKeepsContents(s, e, flag, prio);
    EventSettles(s, e, flag, prio);
  }

  // ---------- Runs ----------

  /** Some interleaving of events leads from `s` to `r`. */
  predicate Leads(s: State, events: seq<Event>, flag: Flag, prio: Priorities, r: State)
    decreases |events|
  {
    if events == [] then r == s
    else Enabled(s, events[0]) && Leads(Apply(s, events[0], flag, prio).0, events[1..], flag, prio, r)
  }

  lemma {:induction false} RunKeepsInv(s: State, events: seq<Event>, flag: Flag, prio: Priorities, r: State)
    requires Inv(s) && Leads(s, events, flag, prio, r)
    ensures Inv(r)
    decreases |events|
  {
    hide Inv, Apply;
    if events != [] {
      EventKeepsInv(s, events[0], flag, prio);
      RunKeepsInv(Apply(s, events[0], flag, prio).0, events[1..], flag, prio, r);
    }
  }

  function Countdown(n: nat): (q: seq<Node>)
    ensures |q| == n && forall i :: 0 <= i < n ==> q[i] == n - 1 - i
  {
    seq(n, i requires 0 <= i < n => n - 1 - i)
  }

  /** rt_mq_init: every node is free, the last of the pool first. */
  function Init(msgSize: nat, cells: seq<Cell>): State {
    State(msgSize, cells, Countdown(|cells|), [], Waiters([], {}), Waiters([], {}), map[])
  }

  lemma InitIsInv(msgSize: nat, cells: seq<Cell>)
    requires forall n :: 0 <= n < |cells| ==> Carries(cells[n], msgSize)
    ensures Inv(Init(msgSize, cells))
  {
    var s := Init(msgSize, cells);
    forall n: Node | n < |cells| ensures n in s.free {
      assert s.free[|cells| - 1 - n] == n;
    }
  }

  /** After any run: nodes are conserved, and no wakeup is lost. Once no woken thread is still to
      recheck, receivers are suspended only on an empty queue and senders only without a free node. */
  lemma MessageQueueIsSafe(msgSize: nat, cells: seq<Cell>, events: seq<Event>, flag: Flag, prio: Priorities, r: State)
    requires forall n :: 0 <= n < |cells| ==> Carries(cells[n], msgSize)
    requires Leads(Init(msgSize, cells), events, flag, prio, r)
    ensures Partition(r)
    ensures r.receivers.list != [] ==> |r.queue| <= |r.receivers.woken|
    ensures r.senders.list != [] ==> |r.free| <= |r.senders.woken|
    ensures r.receivers.list != [] && r.receivers.woken == {} ==> r.queue == []
    ensures r.senders.list != [] && r.senders.woken == {} ==> r.free == []
  {
    InitIsInv(msgSize, cells);
    RunKeepsInv(Init(msgSize, cells), events, flag, prio, r);
  }

  // ---------- What the queue means ----------

  function MessageIn(s: State, n: Node): Bytes {
    if n < |s.cells| then s.cells[n].message else []
  }

  /** The queued messages, oldest first. */
  function Messages(s: State): (m: seq<Bytes>)
    ensures |m| == |s.queue| && forall i :: 0 <= i < |m| ==> m[i] == MessageIn(s, s.queue[i])
  {
    seq(|s.queue|, i requires 0 <= i < |s.queue| => MessageIn(s, s.queue[i]))
  }

  /** Linking appends the message of the linked node, or prepends it if urgent. */
  lemma LinkingAdds(s: State, t: Thread, flag: Flag, prio: Priorities)
    requires Inv(s) && Enabled(s, Link(t))
    ensures var m := MessageIn(s, s.calls[t].node);
            Messages(Apply(s, Link(t), flag, prio).0)
              == if s.calls[t].urgent then [m] + Messages(s) else Messages(s) + [m]
  {
    hide Settled, Contents, Distinct, Waiters.Wake;
    assert Held(s, t, s.calls[t].node);
  }

  /** The event takes the head of the queue: a receive that finds a message. */
  predicate TakesHead(s: State, e: Event)
    requires Enabled(s, e)
  {
    (e.EnterRecv? || (e.Resume? && s.calls[e.t].Receiving?)) && s.queue != []
  }

  lemma TakingRemovesTheOldest(s: State, e: Event, flag: Flag, prio: Priorities)
    requires Inv(s) && Enabled(s, e) && TakesHead(s, e)
    ensures var r := Apply(s, e, flag, prio).0;
            && e.t in r.calls && r.calls[e.t].Emptying? && MessageIn(r, r.calls[e.t].node) == Messages(s)[0]
            && Messages(r) == Messages(s)[1..]
  {
    hide Insert, Partition, Contents, Settled;
  }

  /** Nothing else changes a queued message or their order; in particular no copying does. */
  lemma OtherEventsKeepMessages(s: State, e: Event, flag: Flag, prio: Priorities)
    requires Inv(s) && Enabled(s, e) && !TakesHead(s, e) && !e.Link? && !e.Reset?
    ensures Messages(Apply(s, e, flag, prio).0) == Messages(s)
  {
    hide Insert, Settled, Contents, Distinct, Waiters.Leave, Waiters.Expire, Waiters.Wake;
    if e.CopyIn? {
      assert Held(s, e.t, s.calls[e.t].node);
      forall i | 0 <= i < |s.queue| ensures s.queue[i] != s.calls[e.t].node {
        assert s.queue[i] in s.queue;
      }
    }
  }

  predicate By(e: Event, t: Thread) {
    !e.Reset? && e.t == t
  }

  /** A node in a thread's hands is left alone by everyone else. */
  lemma OthersLeaveHeldCells(s: State, e: Event, flag: Flag, prio: Priorities, t: Thread, n: Node)
    requires Inv(s) && Enabled(s, e) && !By(e, t) && Held(s, t, n)
    ensures n < |s.cells| && var r := Apply(s, e, flag, prio).0;
            && t in r.calls && r.calls[t] == s.calls[t]
            && |r.cells| == |s.cells| && r.cells[n] == s.cells[n] && r.msgSize == s.msgSize
  {
    hide Insert, Distinct, Waiters.Wake, Waiters.Leave, Waiters.Expire, Contents;
    assert CallMatches(s, t);
    if e.CopyIn? {
      assert Held(s, e.t, s.calls[e.t].node);
    }
  }

  lemma {:induction false} HeldCellSurvives(s: State, events: seq<Event>, flag: Flag, prio: Priorities, r: State,
                                            t: Thread, n: Node)
    requires Inv(s) && Leads(s, events, flag, prio, r) && Held(s, t, n)
    requires forall e :: e in events ==> !By(e, t)
    ensures Inv(r) && t in r.calls && r.calls[t] == s.calls[t]
    ensures n < |s.cells| == |r.cells| && r.cells[n] == s.cells[n] && r.msgSize == s.msgSize
    decreases |events|
  {
    if events == [] {
      assert Partition(s);
    } else {
      hide Inv, Apply;
      var m := Apply(s, events[0], flag, prio).0;
      EventKeepsInv(s, events[0], flag, prio);
      OthersLeaveHeldCells(s, events[0], flag, prio, t, n);
      HeldCellSurvives(m, events[1..], flag, prio, r, t, n);
    }
  }

  /** A receiver gets the message that was the oldest when it unlinked it, whatever other threads do
      before it copies: as many bytes as it asked for and a node has, beginning with the message. */
  lemma ReceiverGetsTheOldest(s: State, t: Thread, size: nat, timeout: int, flag: Flag, prio: Priorities,
                              others: seq<Event>, r: State)
    requires Inv(s) && t !in s.calls && s.queue != []
    requires Leads(Apply(s, EnterRecv(t, size, timeout), flag, prio).0, others, flag, prio, r)
    requires forall e :: e in others ==> !By(e, t)
    ensures Enabled(r, CopyOut(t))
    ensures var outcome := Apply(r, CopyOut(t), flag, prio).1;
            var m := Messages(s)[0];
            var k := Min(size, |m|);
            && outcome.Got? && |outcome.bytes| == Min(size, s.msgSize)
            && k <= |outcome.bytes| && outcome.bytes[..k] == m[..k]
  {
    var e := EnterRecv(t, size, timeout);
    EventKeepsInv(s, e, flag, prio);
    TakingRemovesTheOldest(s, e, flag, prio);
    var taken := Apply(s, e, flag, prio).0;
    var n := taken.calls[t].node;
    assert Held(taken, t, n);
    HeldCellSurvives(taken, others, flag, prio, r, t, n);
    assert Carries(r.cells[n], r.msgSize);
  }

  /** What a sender links is the message it was called with, whatever others do between its sections. */
  lemma SenderLinksItsMessage(s: State, t: Thread, flag: Flag, prio: Priorities,
                              others: seq<Event>, copying: State, more: seq<Event>, linking: State)
    requires Inv(s) && t in s.calls && s.calls[t].Filling?
    requires Leads(s, others, flag, prio, copying) && (forall e :: e in others ==> !By(e, t))
    requires Enabled(copying, CopyIn(t)) && Leads(Apply(copying, CopyIn(t), flag, prio).0, more, flag, prio, linking)
    requires forall e :: e in more ==> !By(e, t)
    ensures Enabled(linking, Link(t))
    ensures var m := s.calls[t].message;
            Messages(Apply(linking, Link(t), flag, prio).0)
              == if s.calls[t].urgent then [m] + Messages(linking) else Messages(linking) + [m]
  {
    hide Partition, Contents, Settled;
    var n := s.calls[t].node;
    assert Held(s, t, n);
    HeldCellSurvives(s, others, flag, prio, copying, t, n);
    EventKeepsInv(copying, CopyIn(t), flag, prio);
    var copied := Apply(copying, CopyIn(t), flag, prio).0;
    assert Held(copied, t, n);
    HeldCellSurvives(copied, more, flag, prio, linking, t, n);
    LinkingAdds(linking, t, flag, prio);
  }
}
