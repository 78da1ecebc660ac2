/** The mailbox of os/rt-thread-nano/src/ipc.c as a concurrent protocol.

    Each interrupt-disabled section is one atomic event; threads interleave freely between events.
    A blocking call is split at rt_schedule: the section that suspends the thread, and the section
    that rechecks the mailbox when the thread runs again. */
module Mailbox {
  import opened IpcList
  import opened Lists

  type Mail = bv32

  /** A call in progress whose thread is suspended, or woken and about to recheck. */
  datatype Call = Sending(value: Mail, timeout: int) | Receiving(timeout: int)

  datatype Outcome = Sent | Got(value: Mail) | Full | TimedOut | Blocked

  /** `accepted` and `delivered` are the mails taken into and handed out of the mailbox so far;
      a reset forgets the accepted mails it throws away. */
  datatype State = State(size: nat, queue: seq<Mail>, receivers: Waiters, senders: Waiters,
                         calls: map<Thread, Call>, accepted: seq<Mail>, delivered: seq<Mail>)

  function Init(size: nat): State {
    State(size, [], Waiters([], {}), Waiters([], {}), map[], [], [])
  }

  datatype Event =
    | EnterSend(t: Thread, value: Mail, timeout: int)
    | EnterRecv(t: Thread, timeout: int)
    | Resume(t: Thread, elapsed: nat)   // a woken thread runs again after so many ticks
    | Expire(t: Thread)                 // the timer of a suspended thread fires
    | Reset

  /** The time left of a wait; a negative timeout waits forever. */
  function Remaining(timeout: int, elapsed: nat): int {
    if timeout <= 0 then timeout
    else if timeout < elapsed then 0 else timeout - elapsed
  }

  /** One pass through the loop of rt_mb_send_wait. */
  function SendSection(s: State, t: Thread, value: Mail, timeout: int, flag: Flag, prio: Priorities): (State, Outcome) {
    if |s.queue| == s.size then
      if timeout == 0 then (s, Full)
      else (s.(senders := s.senders.Suspend(t, flag, prio), calls := s.calls[t := Sending(value, timeout)]), Blocked)
    else
      (s.(queue := s.queue + [value], accepted := s.accepted + [value], receivers := s.receivers.Wake()), Sent)
  }

  /** One pass through the loop of rt_mb_recv. */
  function RecvSection(s: State, t: Thread, timeout: int, flag: Flag, prio: Priorities): (State, Outcome) {
    if s.queue == [] then
      if timeout == 0 then (s, TimedOut)
      else (s.(receivers := s.receivers.Suspend(t, flag, prio), calls := s.calls[t := Receiving(timeout)]), Blocked)
    else
      (s.(queue := s.queue[1..], delivered := s.delivered + [s.queue[0]], senders := s.senders.Wake()), Got(s.queue[0]))
  }

  predicate Enabled(s: State, e: Event) {
    match e
    case EnterSend(t, _, _) => t !in s.calls
    case EnterRecv(t, _) => t !in s.calls
    case Resume(t, _) => t in s.calls && (t in s.senders.woken || t in s.receivers.woken)
    case Expire(t) => t in s.calls && s.calls[t].timeout > 0 && (t in s.senders.list || t in s.receivers.list)
    case Reset => true
  }

  /** Thread t stops waiting in either capacity. */
  function Returned(s: State, t: Thread): State {
    s.(receivers := s.receivers.Leave(t), senders := s.senders.Leave(t), calls := s.calls - {t})
  }

  /** The calls a reset leaves in progress: those of threads that are not suspended. */
  function Unfailed(calls: map<Thread, Call>, receivers: seq<Thread>, senders: seq<Thread>): map<Thread, Call> {
    Spared(Spared(calls, receivers), senders)
  }

  function Apply(s: State, e: Event, flag: Flag, prio: Priorities): (State, Outcome)
    requires Enabled(s, e)
  {
    match e
    case EnterSend(t, value, timeout) => SendSection(s, t, value, timeout, flag, prio)
    case EnterRecv(t, timeout) => RecvSection(s, t, timeout, flag, prio)
    case Resume(t, elapsed) =>
      var left := Remaining(s.calls[t].timeout, elapsed);
      if s.calls[t].Sending? then SendSection(Returned(s, t), t, s.calls[t].value, left, flag, prio)
      else RecvSection(Returned(s, t), t, left, flag, prio)
    case Expire(t) =>
      (s.(receivers := s.receivers.Expire(t), senders := s.senders.Expire(t), calls := s.calls - {t}), TimedOut)
    case Reset =>
      (s.(queue := [], receivers := s.receivers.Flush(), senders := s.senders.Flush(),
          calls := Unfailed(s.calls, s.receivers.list, s.senders.list), accepted := s.delivered), Sent)
  }

  // ---------- The invariant ----------

  /** A thread is in a call exactly if it waits in one capacity, the one its call says. */
  ghost predicate CallsMatch(s: State) {
    forall t: Thread :: CallMatches(s, t)
  }

  ghost predicate CallMatches(s: State, t: Thread) {
    && (t in s.calls <==> s.receivers.Has(t) || s.senders.Has(t))
    && (t in s.calls ==> (s.calls[t].Sending? <==> s.senders.Has(t)) && (s.calls[t].Receiving? <==> s.receivers.Has(t)))
  }

  /** Between events every mail is matched by a woken receiver that will look at it, and every free
      slot by a woken sender, while others are suspended. `gone` of each have just left to look. */
  ghost predicate Settled(s: State, gone: nat, goneSenders: nat) {
    && |s.queue| <= s.size
    && s.accepted == s.delivered + s.queue
    && s.receivers.NoneLost(|s.queue| - gone)
    && s.senders.NoneLost(s.size - |s.queue| - goneSenders)
    && CallsMatch(s)
  }

  ghost predicate Inv(s: State) {
    Settled(s, 0, 0)
  }

  lemma SendSectionKeeps(s: State, t: Thread, value: Mail, timeout: int, flag: Flag, prio: Priorities)
    requires Settled(s, 0, 1) && t !in s.calls
    ensures Inv(SendSection(s, t, value, timeout, flag, prio).0)
  {
    hide Insert, Distinct, Waiters.Has, Waiters.Suspend, Waiters.Wake;
    assert CallMatches(s, t);
    var r := SendSection(s, t, value, timeout, flag, prio).0;
    if |s.queue| == s.size {
      SuspendKeeps(s.senders, t, flag, prio, 0);
    } else {
      WakeKeeps(s.receivers, |s.queue|);
    }
    forall x: Thread ensures CallMatches(r, x) {
      assert CallMatches(s, x);
    }
  }

  lemma RecvSectionKeeps(s: State, t: Thread, timeout: int, flag: Flag, prio: Priorities)
    requires Settled(s, 1, 0) && t !in s.calls
    ensures Inv(RecvSection(s, t, timeout, flag, prio).0)
  {
    hide Insert, Distinct, Waiters.Has, Waiters.Suspend, Waiters.Wake;
    assert CallMatches(s, t);
    var r := RecvSection(s, t, timeout, flag, prio).0;
    if s.queue == [] {
      SuspendKeeps(s.receivers, t, flag, prio, 0);
    } else {
      WakeKeeps(s.senders, s.size - |s.queue|);
      assert s.queue == [s.queue[0]] + s.queue[1..];
    }
    forall x: Thread ensures CallMatches(r, x) {
      assert CallMatches(s, x);
    }
  }

  lemma ReturnedIsSettled(s: State, t: Thread)
    requires Inv(s) && (t in s.senders.woken || t in s.receivers.woken)
    ensures t in s.calls
    ensures s.calls[t].Sending? ==> Settled(Returned(s, t), 0, 1)
    ensures s.calls[t].Receiving? ==> Settled(Returned(s, t), 1, 0)
    ensures t !in Returned(s, t).calls
  {
    assert CallMatches(s, t);
    assert t !in s.senders.list && t !in s.receivers.list;
    hide Distinct, Waiters.Leave, Waiters.Has;
    var r := Returned(s, t);
    LeaveKeeps(s.senders, t, s.size - |s.queue|);
    LeaveKeeps(s.receivers, t, |s.queue|);
    forall x: Thread ensures CallMatches(r, x) {
      assert CallMatches(s, x);
    }
  }

  lemma ExpireKeepsInv(s: State, t: Thread, flag: Flag, prio: Priorities)
    requires Inv(s) && Enabled(s, Expire(t))
    ensures Inv(Apply(s, Expire(t), flag, prio).0)
  {
    hide Distinct;
    assert CallMatches(s, t);
    var r := Apply(s, Expire(t), flag, prio).0;
    ExpireKeeps(s.senders, t, s.size - |s.queue|);
    ExpireKeeps(s.receivers, t, |s.queue|);
    forall x: Thread ensures CallMatches(r, x) {
      assert CallMatches(s, x);
    }
  }

  lemma ResetKeepsInv(s: State, flag: Flag, prio: Priorities)
    requires Inv(s)
    ensures Inv(Apply(s, Reset, flag, prio).0)
  {
    var r := Apply(s, Reset, flag, prio).0;
    forall x: Thread ensures CallMatches(r, x) {
      assert CallMatches(s, x);
    }
  }

  /** Every atomic event keeps the invariant, whatever thread it belongs to and whoever steals the
      mail or the slot that another thread was woken for. */
  lemma EventKeepsInv(s: State, e: Event, flag: Flag, prio: Priorities)
    requires Inv(s) && Enabled(s, e)
    ensures Inv(Apply(s, e, flag, prio).0)
  {
    hide Insert, Distinct, CallsMatch;
    match e
    case EnterSend(t, value, timeout) => SendSectionKeeps(s, t, value, timeout, flag, prio);
    case EnterRecv(t, timeout) => RecvSectionKeeps(s, t, timeout, flag, prio);
    case Resume(t, elapsed) =>
      ReturnedIsSettled(s, t);
      var left := Remaining(s.calls[t].timeout, elapsed);
      match s.calls[t] {
        case Sending(value, _) => SendSectionKeeps(Returned(s, t), t, value, left, flag, prio);
        case Receiving(_) => RecvSectionKeeps(Returned(s, t), t, left, flag, prio);
      }
    case Expire(t) => ExpireKeepsInv(s, t, flag, prio);
    case Reset => ResetKeepsInv(s, flag, prio);
  }

  // ---------- Runs ----------

  /** Some interleaving of events leads from `s` to `r`. */
  predicate Leads(s: State, events: seq<Event>, flag: Flag, prio: Priorities, r: State)
    decreases |events|
  {
    if events == [] then r == s
    else Enabled(s, events[0]) && Leads(Apply(s, events[0], flag, prio).0, events[1..], flag, prio, r)
  }

  lemma {:induction false} RunKeepsInv(s: State, events: seq<Event>, flag: Flag, prio: Priorities, r: State)
    requires Inv(s) && Leads(s, events, flag, prio, r)
    ensures Inv(r)
    decreases |events|
  {
    hide Inv, Apply;
    if events != [] {
      EventKeepsInv(s, events[0], flag, prio);
      RunKeepsInv(Apply(s, events[0], flag, prio).0, events[1..], flag, prio, r);
    }
  }

  /** Under every interleaving: mails leave in the order they were accepted, none lost, none
      duplicated, never more than the mailbox holds; and no wakeup is lost. Once no woken thread is
      still to recheck, receivers are suspended only on an empty mailbox and senders only on a full one. */
  lemma MailboxIsABoundedQueue(size: nat, events: seq<Event>, flag: Flag, prio: Priorities, r: State)
    requires Leads(Init(size), events, flag, prio, r)
    ensures r.accepted == r.delivered + r.queue && |r.queue| <= r.size
    ensures r.receivers.list != [] ==> |r.queue| <= |r.receivers.woken|
    ensures r.senders.list != [] ==> r.size - |r.queue| <= |r.senders.woken|
    ensures r.receivers.list != [] && r.receivers.woken == {} ==> r.queue == []
    ensures r.senders.list != [] && r.senders.woken == {} ==> |r.queue| == r.size
  {
    var s := Init(size);
    forall x: Thread ensures CallMatches(s, x) {
    }
    RunKeepsInv(s, events, flag, prio, r);
  }

  /** While a receiver is suspended on a mailbox with mail, some thread is able to run again that
      will take the oldest mail, however little of its time is left. */
  lemma SuspendedReceiverIsServed(s: State, flag: Flag, prio: Priorities, elapsed: nat) returns (t: Thread)
    requires Inv(s) && s.receivers.list != [] && s.queue != []
    ensures t in s.receivers.woken && Enabled(s, Resume(t, elapsed))
    ensures Apply(s, Resume(t, elapsed), flag, prio).1 == Got(s.queue[0])
  {
    assert s.receivers.woken != {};
    t :| t in s.receivers.woken;
    assert CallMatches(s, t);
  }

  lemma SuspendedSenderIsServed(s: State, flag: Flag, prio: Priorities, elapsed: nat) returns (t: Thread)
    requires Inv(s) && s.senders.list != [] && |s.queue| < s.size
    ensures t in s.senders.woken && Enabled(s, Resume(t, elapsed))
    ensures Apply(s, Resume(t, elapsed), flag, prio).1 == Sent
    ensures Apply(s, Resume(t, elapsed), flag, prio).0.queue == s.queue + [s.calls[t].value]
  {
    assert s.senders.woken != {};
    t :| t in s.senders.woken;
    assert CallMatches(s, t);
  }

  // ---------- Who waits first ----------

  ghost predicate Ordered(s: State, prio: Priorities) {
    Sorted(s.receivers.list, prio) && Sorted(s.senders.list, prio)
  }

  /** With the priority flag both lists stay sorted by urgency through every event, so the thread
      woken by the next mail or free slot is the most urgent one that waits for it. */
  lemma EventKeepsOrdered(s: State, e: Event, prio: Priorities)
    requires Ordered(s, prio) && Enabled(s, e)
    ensures Ordered(Apply(s, e, Prio, prio).0, prio)
  {
    hide Insert, Position, Without;
    match e
    case EnterSend(t, _, _) => InsertKeepsSorted(s.senders.list, t, prio);
    case EnterRecv(t, _) => InsertKeepsSorted(s.receivers.list, t, prio);
    case Resume(t, _) =>
      InsertKeepsSorted(s.senders.list, t, prio);
      InsertKeepsSorted(s.receivers.list, t, prio);
    case Expire(t) =>
      WithoutKeepsSorted(s.senders.list, t, prio);
      WithoutKeepsSorted(s.receivers.list, t, prio);
    case Reset =>
  }
}
