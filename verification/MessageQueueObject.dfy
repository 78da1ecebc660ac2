/** struct rt_messagequeue of os/rt-thread-nano/src/ipc.c: a pool of linked nodes. Each atomic section
    of its calls is proved to be an event of the protocol in module MessageQueue. */
module MessageQueueObject {
  import opened IpcList
  import opened Lists
  import opened MessageQueue

  const NULL: int := -1

  /** RT_MQ_ENTRY_MAX; max_msgs is a 16-bit number, so entry never overflows. */
  const ENTRY_MAX: nat := 0xFFFF

  function First(nodes: seq<Node>): int {
    if nodes == [] then NULL else nodes[0]
  }

  function Last(nodes: seq<Node>): int {
    if nodes == [] then NULL else nodes[|nodes| - 1]
  }

  /** A plain send has ended the chain of its node before it copies. */
  predicate Ended(next: seq<int>, call: Call) {
    call.Filled? ==> call.node < |next| && (call.urgent || next[call.node] == NULL)
  }

  /** Following `next` from `head` visits exactly these nodes. */
  ghost predicate Chain(next: seq<int>, head: int, nodes: seq<Node>) {
    && head == First(nodes)
    && forall i :: 0 <= i < |nodes| ==> Linked(next, nodes, i)
  }

  ghost predicate Linked(next: seq<int>, nodes: seq<Node>, i: nat)
    requires i < |nodes|
  {
    nodes[i] < |next| && next[nodes[i]] == if i + 1 < |nodes| then nodes[i + 1] else NULL
  }

  lemma ChainRest(next: seq<int>, head: int, nodes: seq<Node>)
    requires Chain(next, head, nodes) && nodes != []
    ensures nodes[0] < |next| && Chain(next, next[nodes[0]], nodes[1..])
  {
    assert Linked(next, nodes, 0);
    forall i | 0 <= i < |nodes| - 1 ensures Linked(next, nodes[1..], i) {
      assert Linked(next, nodes, i + 1);
    }
  }

  lemma ChainElsewhere(next: seq<int>, head: int, nodes: seq<Node>, n: Node, v: int)
    requires Chain(next, head, nodes) && n < |next| && n !in nodes
    ensures Chain(next[n := v], head, nodes)
  {
    var after := next[n := v];
    forall i | 0 <= i < |nodes| ensures Linked(after, nodes, i) {
      assert Linked(next, nodes, i) && nodes[i] in nodes;
    }
  }

  lemma ChainPushed(next: seq<int>, head: int, nodes: seq<Node>, n: Node)
    requires Chain(next, head, nodes) && n < |next| && n !in nodes
    ensures Chain(next[n := head], n, [n] + nodes)
  {
    ChainElsewhere(next, head, nodes, n, head);
    var after, pushed := next[n := head], [n] + nodes;
    forall i | 0 <= i < |pushed| ensures Linked(after, pushed, i) {
      if i > 0 {
        assert Linked(after, nodes, i - 1);
      }
    }
  }

  lemma ChainAppended(next: seq<int>, head: int, nodes: seq<Node>, n: Node)
    requires Chain(next, head, nodes) && Distinct(nodes) && n < |next| && n !in nodes && next[n] == NULL
    requires nodes != []
    ensures nodes[|nodes| - 1] < |next| && Chain(next[nodes[|nodes| - 1] := n], head, nodes + [n])
  {
    var last := |nodes| - 1;
    assert Linked(next, nodes, last);
    var after := next[nodes[last] := n];
    forall i | 0 <= i < |nodes| + 1 ensures Linked(after, nodes + [n], i) {
      if i < |nodes| {
        assert Linked(next, nodes, i) && nodes[i] in nodes;
      }
    }
  }

  /** A thread that holds a node leaves room for it in the queue. */
  lemma HolderLeavesRoom(s: State, t: Thread, n: Node)
    requires Partition(s) && Held(s, t, n)
    ensures |s.queue| < |s.cells|
  {
    Pigeonhole(s.queue + [n], |s.cells|);
  }

  class Queue {
    const flag: Flag
    const msgSize: nat
    const next: array<int>
    const data: array<Bytes>
    var msgQueueHead: int
    var msgQueueTail: int
    var msgQueueFree: int
    var entry: nat
    var suspendThread: seq<Thread>
    var suspendSenderThread: seq<Thread>

    // The lists the links spell out, and what the threads are doing.
    ghost var queue: seq<Node>
    ghost var free: seq<Node>
    ghost var sent: seq<Bytes>
    ghost var wokenReceivers: set<Thread>
    ghost var wokenSenders: set<Thread>
    ghost var calls: map<Thread, Call>

    ghost predicate Valid()
      reads this, next, data
    {
      && next.Length == data.Length == |sent| <= ENTRY_MAX
      && Chain(next[..], msgQueueHead, queue)
      && Chain(next[..], msgQueueFree, free)
      && msgQueueTail == Last(queue)
      && entry == |queue|
      && forall t :: t in calls ==> Ended(next[..], calls[t])
    }

    ghost function Abs(): State
      reads this, next, data
      requires Valid()
    {
      State(msgSize, Cells(data[..], sent), free, queue, Waiters(suspendThread, wokenReceivers),
            Waiters(suspendSenderThread, wokenSenders), calls)
    }

    /** rt_mq_init: the nodes are pushed on the free list one by one. */
    constructor (flag: Flag, msgSize: nat, maxMsgs: nat)
      requires maxMsgs <= ENTRY_MAX
      ensures Valid() && fresh(next) && fresh(data) && Inv(Abs())
      ensures Abs() == Init(msgSize, Abs().cells) && |Abs().cells| == maxMsgs && this.flag == flag
    {
      this.flag, this.msgSize := flag, msgSize;
      var zeros := seq(msgSize, _ => 0 as bv8);
      next, data := new int[maxMsgs](_ => NULL), new Bytes[maxMsgs](_ => zeros);
      msgQueueHead, msgQueueTail, msgQueueFree, entry := NULL, NULL, NULL, 0;
      suspendThread, suspendSenderThread := [], [];
      queue, free, sent := [], [], seq(maxMsgs, _ => []);
      wokenReceivers, wokenSenders, calls := {}, {}, map[];
      new;
      for n := 0 to maxMsgs
        modifies `msgQueueFree, `free, next
        invariant Chain(next[..], msgQueueHead, queue) && Chain(next[..], msgQueueFree, free)
        invariant free == Countdown(n)
      {
        PushFree(n);
      }
      InitIsInv(msgSize, Cells(data[..], sent));
    }

    /** rt_mq_send_wait up to the copy: the loop test, then the suspension or taking a free node. */
    method TakeFreeNode(t: Thread, message: Bytes, timeout: int, prio: Priorities) returns (outcome: Outcome, msg: int)
      requires Valid() && t !in calls
      modifies this
      ensures Valid() && (Abs(), outcome) == TakeFree(old(Abs()), t, message, timeout, flag, prio)
      ensures outcome == Continues ==> msg == old(msgQueueFree)
    {
      hide Insert;
      msg := msgQueueFree;
      if msg == NULL {
        if timeout == 0 {
          outcome := Full;
        } else {
          suspendSenderThread := ListSuspend(suspendSenderThread, t, flag, prio);
          calls := calls[t := Sending(message, timeout)];
          outcome := Blocked;
        }
      } else {
        ChainRest(next[..], msgQueueFree, free);
        calls := calls[t := Filling(free[0], message, false)];
        msgQueueFree, free := next[msg], free[1..];
        outcome := Continues;
      }
    }

    /** rt_mq_urgent up to the copy; it never waits. */
    method TakeFreeNodeUrgently(t: Thread, message: Bytes, prio: Priorities) returns (outcome: Outcome, msg: int)
      requires Valid() && t !in calls
      modifies this
      ensures Valid() && (Abs(), outcome) == Apply(old(Abs()), EnterUrgent(t, message), flag, prio)
      ensures outcome == Continues ==> msg == old(msgQueueFree)
    {
      if |message| > msgSize {
        return Failed, NULL;
      }
      msg := msgQueueFree;
      if msg == NULL {
        outcome := Full;
      } else {
        ChainRest(next[..], msgQueueFree, free);
        calls := calls[t := Filling(free[0], message, true)];
        msgQueueFree, free := next[msg], free[1..];
        outcome := Continues;
      }
    }

    /** A woken thread takes up its call again: the time left is worked out, and the loop goes round. */
    method Resume(t: Thread, elapsed: nat, call: Call, prio: Priorities) returns (outcome: Outcome, msg: int)
      requires Valid() && Inv(Abs()) && Enabled(Abs(), Event.Resume(t, elapsed)) && calls[t] == call
      modifies this
      ensures Valid() && (Abs(), outcome) == Apply(old(Abs()), Event.Resume(t, elapsed), flag, prio)
    {
      NodesApart(Abs());
      hide Inv, Partition, Distinct, Chain, TakeFree, TakeHead;
      var timeout := call.timeout;
      if timeout > 0 {
        timeout := timeout - elapsed;
        if timeout < 0 {
          timeout := 0;
        }
      }
      wokenReceivers, wokenSenders, calls := wokenReceivers - {t}, wokenSenders - {t}, calls - {t};
      if call.Sending? {
        outcome, msg := TakeFreeNode(t, call.message, timeout, prio);
      } else {
        outcome, msg := TakeHeadNode(t, call.size, timeout, prio);
      }
    }

    /** The copy of a send, outside the lock; a plain send also ends its node's chain. */
    method FillNode(t: Thread, msg: Node, message: Bytes, urgent: bool, prio: Priorities)
      requires Valid() && Inv(Abs()) && Enabled(Abs(), CopyIn(t)) && calls[t] == Filling(msg, message, urgent)
      modifies this, next, data
      ensures Valid() && (Abs(), Continues) == Apply(old(Abs()), CopyIn(t), flag, prio)
    {
      hide Linked, Chain, Distinct, Inv, Partition, Waiters.Wake;
      assert Held(Abs(), t, msg);
      HeldOnce(Abs(), t, msg);
      if !urgent {
        ChainElsewhere(next[..], msgQueueHead, queue, msg, NULL);
        ChainElsewhere(next[..], msgQueueFree, free, msg, NULL);
        next[msg] := NULL;
      }
      data[msg] := Overwritten(data[msg], message);
      sent := sent[msg := message];
      calls := calls[t := Filled(msg, urgent)];
      CellsUpdated(old(data[..]), old(sent), msg, data[msg], message);
      assert data[..] == old(data[..])[msg := data[msg]];
    }

    /** The second locked section of rt_mq_send_wait and rt_mq_urgent: the node joins the queue, and the first
        suspended receiver is resumed. */
    method LinkNode(t: Thread, msg: Node, urgent: bool, prio: Priorities)
      requires Valid() && Inv(Abs()) && t in calls && calls[t] == Filled(msg, urgent)
      modifies this, next
      ensures Valid() && (Abs(), Done) == Apply(old(Abs()), Link(t), flag, prio)
    {
      hide Inv, Chain, Waiters.Wake;
      EnterQueue(t, msg, urgent);
      WakeReceiver();
    }

    method EnterQueue(t: Thread, msg: Node, urgent: bool)
      requires Valid() && Inv(Abs()) && t in calls && calls[t] == Filled(msg, urgent)
      modifies this, next
      ensures Valid() && Abs() == old(Abs()).(queue := if urgent then [msg] + old(queue) else old(queue) + [msg], calls := old(calls) - {t})
    {
      hide Linked, Chain, Distinct, Inv, Partition;
      assert Held(Abs(), t, msg);
      HeldOnce(Abs(), t, msg);
      HolderLeavesRoom(Abs(), t, msg);
      calls := calls - {t};
      Join(msg, urgent);
      assert entry < ENTRY_MAX;
      entry := entry + 1;
    }

    /** The loop test of rt_mq_recv, then the suspension or unlinking the head. */
    method TakeHeadNode(t: Thread, size: nat, timeout: int, prio: Priorities) returns (outcome: Outcome, msg: int)
      requires Valid() && Distinct(queue) && t !in calls
      modifies this
      ensures Valid() && (Abs(), outcome) == TakeHead(old(Abs()), t, size, timeout, flag, prio)
      ensures outcome == Continues ==> msg == old(msgQueueHead)
    {
      assert msgQueueHead == First(queue);
      hide Insert, Chain, Distinct;
      msg := NULL;
      if entry == 0 {
        if timeout == 0 {
          outcome := TimedOut;
        } else {
          suspendThread := ListSuspend(suspendThread, t, flag, prio);
          calls := calls[t := Receiving(size, timeout)];
          outcome := Blocked;
        }
      } else {
        msg := msgQueueHead;
        UnlinkHead();
        calls := calls[t := Emptying(msg, size)];
        entry := entry - 1;
        outcome := Continues;
      }
    }

    method UnlinkHead()
      requires queue != [] && Distinct(queue)
      requires Chain(next[..], msgQueueHead, queue) && msgQueueTail == Last(queue)
      modifies `msgQueueHead, `msgQueueTail, `queue
      ensures queue == old(queue)[1..]
      ensures Chain(next[..], msgQueueHead, queue) && msgQueueTail == Last(queue)
    {
      var msg := msgQueueHead;
      assert msg == queue[0];
      ChainRest(next[..], msgQueueHead, queue);
      msgQueueHead := next[msg];
      if msgQueueTail == msg {
        msgQueueTail := NULL;
      }
      queue := queue[1..];
    }

    /** The copy of a receive, outside the lock. */
    method EmptyNode(t: Thread, msg: Node, size: nat, prio: Priorities) returns (buffer: Bytes)
      requires Valid() && Enabled(Abs(), CopyOut(t)) && calls[t] == Emptying(msg, size)
      modifies `calls
      ensures Valid() && (Abs(), Got(buffer)) == Apply(old(Abs()), CopyOut(t), flag, prio)
    {
      buffer := data[msg][..Min(size, |data[msg]|)];
      calls := calls[t := Emptied(msg)];
    }

    /** The second locked section of rt_mq_recv: the node is freed, and the first suspended sender resumed. */
    method ReleaseNode(t: Thread, msg: Node, prio: Priorities)
      requires Valid() && Inv(Abs()) && t in calls && calls[t] == Emptied(msg)
      modifies this, next
      ensures Valid() && (Abs(), Done) == Apply(old(Abs()), Release(t), flag, prio)
    {
      hide Linked, Chain, Distinct, Inv, Partition, Waiters.Wake;
      assert Held(Abs(), t, msg);
      HeldOnce(Abs(), t, msg);
      PushFree(msg);
      calls := calls - {t};
      WakeSender();
    }

    method PushFree(msg: Node)
      requires msg < next.Length && msg !in queue && msg !in free
      requires Chain(next[..], msgQueueHead, queue) && Chain(next[..], msgQueueFree, free)
      modifies `msgQueueFree, `free, next
      ensures free == [msg] + old(free)
      ensures Chain(next[..], msgQueueHead, queue) && Chain(next[..], msgQueueFree, free)
      ensures forall n :: 0 <= n < next.Length && n != msg ==> next[n] == old(next[n])
    {
      ChainPushed(next[..], msgQueueFree, free, msg);
      ChainElsewhere(next[..], msgQueueHead, queue, msg, msgQueueFree);
      next[msg] := msgQueueFree;
      msgQueueFree := msg;
      free := [msg] + free;
    }

    /** rt_mq_control with RT_IPC_CMD_RESET: all suspended threads fail, and the queued nodes are freed
        one by one, so that they end up on the free list newest first. */
    method Control(prio: Priorities)
      requires Valid() && Inv(Abs())
      modifies this, next
      ensures Valid() && (Abs(), Done) == Apply(old(Abs()), Reset, flag, prio)
    {
      UnfailedKeeps(calls, suspendThread, suspendSenderThread);
      hide Spared, Linked, Chain, Inv, Distinct;
      NodesApart(Abs());
      calls := ListResumeAll(suspendThread, calls);
      calls := ListResumeAll(suspendSenderThread, calls);
      assert calls == Unfailed(old(calls), suspendThread, suspendSenderThread);
      hide Unfailed;
      suspendThread, suspendSenderThread := [], [];
      FreeQueue();
      entry := 0;
    }

    method FreeQueue()
      requires Chain(next[..], msgQueueHead, queue) && Chain(next[..], msgQueueFree, free)
      requires Distinct(queue) && msgQueueTail == Last(queue) && (forall n :: n in queue ==> n !in free && n < next.Length)
      modifies `msgQueueHead, `msgQueueTail, `msgQueueFree, `queue, `free, next
      ensures queue == [] && msgQueueTail == NULL && free == Backwards(old(queue)) + old(free)
      ensures Chain(next[..], msgQueueHead, queue) && Chain(next[..], msgQueueFree, free)
      ensures forall n :: 0 <= n < next.Length && n !in old(queue) ==> next[n] == old(next[n])
    {
      assert msgQueueHead == First(queue);
      hide Linked, Chain;
      while msgQueueHead != NULL
        invariant Chain(next[..], msgQueueHead, queue) && Chain(next[..], msgQueueFree, free)
        invariant msgQueueHead == First(queue) && Distinct(queue) && msgQueueTail == Last(queue)
        invariant forall n :: n in queue ==> n !in free && n < next.Length && n in old(queue)
        invariant Backwards(queue) + free == Backwards(old(queue)) + old(free)
        invariant forall n :: 0 <= n < next.Length && n !in old(queue) ==> next[n] == old(next[n])
        decreases |queue|
      {
        var msg := msgQueueHead;
        ghost var before := queue;
        assert before[0] in before;
        UnlinkHead();
        assert before == [msg] + queue;
        assert msg !in queue;
        PushFree(msg);
      }
    }

    /** Link a node whose chain ends behind the tail. */
    method AppendNode(msg: Node)
      requires msg < next.Length && next[msg] == NULL && msg !in queue && msg !in free
      requires Chain(next[..], msgQueueHead, queue) && Chain(next[..], msgQueueFree, free)
      requires Distinct(queue) && msgQueueTail == Last(queue) && forall n :: n in queue ==> n !in free
      modifies `msgQueueHead, `msgQueueTail, `queue, next
      ensures queue == old(queue) + [msg] && msgQueueTail == Last(queue)
      ensures Chain(next[..], msgQueueHead, queue) && Chain(next[..], msgQueueFree, free)
      ensures forall n :: 0 <= n < next.Length && n !in old(queue) ==> next[n] == old(next[n])
    {
      if msgQueueTail != NULL {
        assert queue[|queue| - 1] in queue;
        ChainAppended(next[..], msgQueueHead, queue, msg);
        ChainElsewhere(next[..], msgQueueFree, free, queue[|queue| - 1], msg);
        next[msgQueueTail] := msg;
      }
      msgQueueTail := msg;
      if msgQueueHead == NULL {
        msgQueueHead := msg;
      }
      queue := queue + [msg];
    }

    method Join(msg: Node, urgent: bool)
      requires msg < next.Length && (urgent || next[msg] == NULL) && msg !in queue && msg !in free
      requires Chain(next[..], msgQueueHead, queue) && Chain(next[..], msgQueueFree, free)
      requires Distinct(queue) && msgQueueTail == Last(queue) && forall n :: n in queue ==> n !in free
      modifies `msgQueueHead, `msgQueueTail, `queue, next
      ensures queue == (if urgent then [msg] + old(queue) else old(queue) + [msg]) && msgQueueTail == Last(queue)
      ensures Chain(next[..], msgQueueHead, queue) && Chain(next[..], msgQueueFree, free)
      ensures forall n :: 0 <= n < next.Length && n !in old(queue) && n != msg ==> next[n] == old(next[n])
    {
      if urgent {
        PrependNode(msg);
      } else {
        AppendNode(msg);
      }
    }

    method PrependNode(msg: Node)
      requires msg < next.Length && msg !in queue && msg !in free
      requires Chain(next[..], msgQueueHead, queue) && Chain(next[..], msgQueueFree, free)
      requires msgQueueTail == Last(queue)
      modifies `msgQueueHead, `msgQueueTail, `queue, next
      ensures queue == [msg] + old(queue) && msgQueueTail == Last(queue)
      ensures Chain(next[..], msgQueueHead, queue) && Chain(next[..], msgQueueFree, free)
      ensures forall n :: 0 <= n < next.Length && n != msg ==> next[n] == old(next[n])
    {
      ChainPushed(next[..], msgQueueHead, queue, msg);
      ChainElsewhere(next[..], msgQueueFree, free, msg, msgQueueHead);
      next[msg] := msgQueueHead;
      msgQueueHead := msg;
      if msgQueueTail == NULL {
        msgQueueTail := msg;
      }
      queue := [msg] + queue;
    }

    method WakeReceiver()
      modifies `suspendThread, `wokenReceivers
      ensures Waiters(suspendThread, wokenReceivers) == old(Waiters(suspendThread, wokenReceivers)).Wake()
    {
      if suspendThread != [] {
        wokenReceivers := wokenReceivers + {suspendThread[0]};
        suspendThread := suspendThread[1..];
      }
    }

    method WakeSender()
      modifies `suspendSenderThread, `wokenSenders
      ensures Waiters(suspendSenderThread, wokenSenders) == old(Waiters(suspendSenderThread, wokenSenders)).Wake()
    {
      if suspendSenderThread != [] {
        wokenSenders := wokenSenders + {suspendSenderThread[0]};
        suspendSenderThread := suspendSenderThread[1..];
      }
    }
  }

  lemma NodesApart(s: State)
    requires Inv(s)
    ensures Distinct(s.queue) && forall n :: n in s.queue ==> n !in s.free && n < |s.cells|
    ensures forall u :: u in s.calls && s.calls[u].Filled? ==> s.calls[u].node !in s.queue
  {
    forall u | u in s.calls && s.calls[u].Filled? ensures s.calls[u].node !in s.queue {
      assert Held(s, u, s.calls[u].node);
    }
  }

  lemma UnfailedKeeps(calls: map<Thread, Call>, receivers: seq<Thread>, senders: seq<Thread>)
    ensures forall u :: u in Unfailed(calls, receivers, senders) ==> u in calls && calls[u] == Unfailed(calls, receivers, senders)[u]
  {
  }

  /** A held node is in neither list, and in no other thread's hands. */
  lemma HeldOnce(s: State, t: Thread, n: Node)
    requires Inv(s) && Held(s, t, n)
    ensures Partition(s) && n < |s.cells| && n !in s.queue && n !in s.free
    ensures Distinct(s.queue) && Distinct(s.free)
    ensures forall u :: u in s.calls && s.calls[u].Holds(n) ==> u == t
    ensures forall u :: u in s.calls && s.calls[u].Filled? ==> s.calls[u].node !in s.queue
  {
    forall u | u in s.calls && s.calls[u].Holds(n) ensures u == t {
      assert Held(s, u, n);
    }
    forall u | u in s.calls && s.calls[u].Filled? ensures s.calls[u].node !in s.queue {
      assert Held(s, u, s.calls[u].node);
    }
  }

  lemma CellsUpdated(data: seq<Bytes>, sent: seq<Bytes>, n: Node, bytes: Bytes, message: Bytes)
    requires n < |data| == |sent|
    ensures Cells(data[n := bytes], sent[n := message]) == Cells(data, sent)[n := Cell(bytes, message)]
  {
  }

  ghost function Cells(data: seq<Bytes>, sent: seq<Bytes>): (c: seq<Cell>)
    requires |data| == |sent|
    ensures |c| == |data| && forall n :: 0 <= n < |c| ==> c[n] == Cell(data[n], sent[n])
  {
    seq(|data|, n requires 0 <= n < |data| => Cell(data[n], sent[n]))
  }
}
