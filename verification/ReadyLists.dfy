/** What the ready queues of os/rt-thread-nano/src/scheduler.c keep when calls run in their sections, although a
    ready thread may be in no queue for a while: the queues hold only ready threads, and the bits are exact. */
module ReadyLists {
  import opened Lists
  import opened ReadyQueue
  import opened ThreadSections

  /** Every queued thread is ready and in the queue of its priority, once, and the bits say which queues are
      occupied. A ready thread need not be queued: the first section of a delete takes it off. */
  ghost predicate Right(s: State) {
    && s.Sized() && Indexed(s)
    && (forall p :: 0 <= p < |s.queues| ==> Distinct(s.queues[p]))
    && forall p: nat, t: Thread :: InQueue(s, p, t) ==> AtHome(s, p, t)
  }

  predicate AtHome(s: State, p: nat, t: Thread) {
    t < |s.stat| && s.stat[t] == Ready && t < |s.priority| && s.priority[t] == p
  }

  lemma InvIsRight(s: State)
    requires Inv(s)
    ensures Right(s)
  {
  }

  predicate Waits(s: State, t: Thread) {
    t < |s.priority| && InQueue(s, s.priority[t], t)
  }

  // ---------- The changes the operations are made of ----------

  lemma InsertedIsRight(s: State, t: Thread)
    requires Right(s) && t < |s.stat| && !Waits(s, t)
    ensures Right(Inserted(s, t))
  {
    var p := s.priority[t];
    var m := s.(stat := s.stat[t := Ready], queues := s.queues[p := s.queues[p] + [t]]);
    SameIndex(s, m.(queues := s.queues));
    MarkedIsIndexed(m, p, s.queues);
    InsertIsDistinct(s.queues[p], |s.queues[p]|, t);
    assert InsertAt(s.queues[p], |s.queues[p]|, t) == s.queues[p] + [t];
    var r := Inserted(s, t);
    hide Indexed;
    forall q: nat, u: Thread | InQueue(r, q, u) ensures AtHome(r, q, u) {
      assert InQueue(s, q, u) ==> AtHome(s, q, u);
    }
  }

  lemma RemovedIsRight(s: State, t: Thread)
    requires Right(s) && t < |s.stat|
    ensures Right(Removed(s, t)) && !Waits(Removed(s, t), t)
    ensures Removed(s, t).stat == s.stat && Removed(s, t).priority == s.priority && Removed(s, t).levels == s.levels
  {
    var p := s.priority[t];
    var queue := Without(s.queues[p], t);
    var m := s.(queues := s.queues[p := queue]);
    WithoutIsDistinct(s.queues[p], t);
    assert m.(queues := s.queues) == s;
    if queue == [] {
      ClearedIsIndexed(m, p, s.queues);
    } else {
      assert s.queues[p] != [];
      forall q: nat | q < 256 ensures Occupied(m, q) <==> Occupied(s, q) {
      }
      SameIndex(s, m);
    }
    var r := Removed(s, t);
    hide Indexed;
    forall q: nat, u: Thread | InQueue(r, q, u) ensures AtHome(r, q, u) {
      assert InQueue(s, q, u);
    }
  }

  /** The settings of a thread that is not queued do not matter. */
  lemma SetIsRight(s: State, t: Thread, stat: Stat, p: nat)
    requires Right(s) && t < |s.stat| && !Waits(s, t) && p < s.levels
    ensures var r := s.(stat := s.stat[t := stat], priority := s.priority[t := p]); Right(r) && !Waits(r, t)
  {
    var r := s.(stat := s.stat[t := stat], priority := s.priority[t := p]);
    SameIndex(s, r);
    hide Indexed;
    forall q: nat, u: Thread | InQueue(r, q, u) ensures AtHome(r, q, u) && u != t {
      assert InQueue(s, q, u);
    }
  }

  lemma StatIsRight(s: State, t: Thread, stat: Stat)
    requires Right(s) && t < |s.stat| && !Waits(s, t)
    ensures Right(s.(stat := s.stat[t := stat]))
  {
    SetIsRight(s, t, stat, s.priority[t]);
    assert s.priority[t := s.priority[t]] == s.priority;
  }

  lemma RemovedThenSet(s: State, t: Thread, stat: Stat)
    requires Right(s) && t < |s.stat|
    ensures Right(Removed(s, t)) && |Removed(s, t).stat| == |s.stat|
    ensures Right(Removed(s, t).(stat := Removed(s, t).stat[t := stat]))
  {
    RemovedIsRight(s, t);
    StatIsRight(Removed(s, t), t, stat);
  }

  lemma NotReadyNotQueued(s: State, t: Thread)
    requires Right(s) && t < |s.stat| && s.stat[t] != Ready
    ensures !Waits(s, t)
  {
    assert Waits(s, t) ==> AtHome(s, s.priority[t], t);
  }

  lemma OpKeepsRight(s: State, op: Op)
    requires Right(s) && Enabled(s, op)
    ensures Right(Apply(s, op))
  {
    match op
    case Startup(t) =>
      NotReadyNotQueued(s, t);
      SetIsRight(s, t, Suspended, s.initPriority[t]);
      InsertedIsRight(s.(stat := s.stat[t := Suspended], priority := s.priority[t := s.initPriority[t]]), t);
    case Suspend(t) => RemovedThenSet(s, t, Suspended);
    case Resume(t) =>
      if s.stat[t] == Suspended {
        NotReadyNotQueued(s, t);
        InsertedIsRight(s, t);
      }
    case Timeout(t) =>
      NotReadyNotQueued(s, t);
      InsertedIsRight(s, t);
    case Yield => YieldKeepsRight(s);
    case ChangePriority(t, p) => ChangeKeepsRight(s, t, p);
    case Close(t) =>
      if s.stat[t] == Initial {
        NotReadyNotQueued(s, t);
        StatIsRight(s, t, Closed);
      } else {
        RemovedThenSet(s, t, Closed);
      }
    case _ => SameQueuesAreRight(s, Apply(s, op));
  }

  lemma ChangeKeepsRight(s: State, t: Thread, p: nat)
    requires Right(s) && t < |s.stat| && p < s.levels
    ensures Right(Apply(s, ChangePriority(t, p)))
  {
    if s.stat[t] == Ready {
      RemovedIsRight(s, t);
      SetIsRight(Removed(s, t), t, Ready, p);
      assert Removed(s, t).stat[t := Ready] == s.stat;
      InsertedIsRight(Removed(s, t).(priority := s.priority[t := p]), t);
    } else {
      NotReadyNotQueued(s, t);
      SetIsRight(s, t, s.stat[t], p);
      assert s.stat[t := s.stat[t]] == s.stat;
    }
  }

  lemma YieldKeepsRight(s: State)
    requires Right(s) && s.current < |s.stat|
    ensures Right(Apply(s, Yield))
  {
    var t, r := s.current, Apply(s, Yield);
    var p := s.priority[t];
    WithoutIsDistinct(s.queues[p], t);
    var rest := Without(s.queues[p], t);
    InsertIsDistinct(rest, |rest|, t);
    assert InsertAt(rest, |rest|, t) == rest + [t];
    forall q: nat | q < 256 ensures Occupied(r, q) <==> Occupied(s, q) {
    }
    SameIndex(s, r);
    hide Indexed;
    forall q: nat, u: Thread | InQueue(r, q, u) ensures AtHome(r, q, u) {
      assert InQueue(s, q, u);
    }
  }

  lemma SameQueuesAreRight(s: State, r: State)
    requires Right(s) && r == s.(lockNest := r.lockNest, current := r.current)
    ensures Right(r)
  {
    SameIndex(s, r);
    hide Indexed;
    forall q: nat, u: Thread | InQueue(r, q, u) ensures AtHome(r, q, u) {
      assert InQueue(s, q, u);
    }
  }

  // ---------- Sections ----------

  /** A resume takes the last thread off a queue, whose bit it does not clear. */
  ghost predicate LosesLast(m: System, e: Step)
    requires Possible(m, e)
  {
    e.Continue? && m.pending[e.c].Unlinking? && m.s.queues[m.s.priority[m.pending[e.c].t]] == [m.pending[e.c].t]
  }

  /** A resume links a thread that is still queued, or a delete or detach closes one: rt_thread_delete then
      links it into the list of defunct threads. */
  ghost predicate LinksTwice(m: System, e: Step)
    requires Possible(m, e)
  {
    e.Continue? && (m.pending[e.c].Inserting? || m.pending[e.c].Closing?) && Waits(m.s, m.pending[e.c].t)
  }

  /** A step keeps queues and bits right if and only if it is neither. */
  lemma StepKeepsRight(m: System, e: Step)
    requires Right(m.s) && Possible(m, e)
    ensures Right(Do(m, e).s) <==> !LosesLast(m, e) && !LinksTwice(m, e)
  {
    match e
    case Whole(op) => OpKeepsRight(m.s, op);
    case MarkStarted(t) =>
      NotReadyNotQueued(m.s, t);
      SetIsRight(m.s, t, Suspended, m.s.initPriority[t]);
    case Continue(c) => SectionKeepsRight(m.s, m.pending[c]);
    case _ =>
  }

  lemma SectionKeepsRight(s: State, section: Section)
    requires Right(s) && section.t < |s.stat|
    ensures Right(AfterSection(s, section))
       <==> !(section.Unlinking? && s.queues[s.priority[section.t]] == [section.t])
            && !((section.Inserting? || section.Closing?) && Waits(s, section.t))
  {
    var t := section.t;
    match section
    case Unlinking(_) => UnlinkedIsRight(s, t);
    case Inserting(_) =>
      if Waits(s, t) {
        InsertedTwice(s, t);
      } else {
        InsertedIsRight(s, t);
      }
    case Suspending(_) => RemovedThenSet(s, t, Suspended);
    case Removing(_) => RemovedIsRight(s, t);
    case Closing(_) =>
      if Waits(s, t) {
        var r := AfterSection(s, section);
        assert InQueue(r, s.priority[t], t) && !AtHome(r, s.priority[t], t);
      } else {
        StatIsRight(s, t, Closed);
      }
  }

  lemma InsertedTwice(s: State, t: Thread)
    requires Right(s) && t < |s.stat| && Waits(s, t)
    ensures !Right(Inserted(s, t))
  {
    var p := s.priority[t];
    AppendedTwice(s.queues[p], t);
    assert Inserted(s, t).queues[p] == s.queues[p] + [t];
  }

  /** The bits are exact after an unlinking if and only if it does not take the last thread off a queue. */
  lemma UnlinkedIsRight(s: State, t: Thread)
    requires Right(s) && t < |s.stat|
    ensures Right(Unlinked(s, t)) <==> s.queues[s.priority[t]] != [t]
    ensures Indexed(Unlinked(s, t)) <==> s.queues[s.priority[t]] != [t]
  {
    var p, r := s.priority[t], Unlinked(s, t);
    WithoutIsDistinct(s.queues[p], t);
    LastOne(s.queues[p], t);
    if s.queues[p] == [t] {
      assert Occupied(s, p) && !Occupied(r, p);
      DivMod8(p, p);
      assert s.levels > 32 ==> (TableBit(r, p) <==> TableBit(s, p));
    } else {
      forall q: nat | q < 256 ensures Occupied(r, q) <==> Occupied(s, q) {
      }
      SameIndex(s, r);
      hide Indexed;
      forall q: nat, u: Thread | InQueue(r, q, u) ensures AtHome(r, q, u) {
        assert InQueue(s, q, u);
      }
    }
  }

  lemma LastOne(queue: seq<Thread>, t: Thread)
    requires Distinct(queue)
    ensures queue != [] && Without(queue, t) == [] <==> queue == [t]
  {
    OnlyOne(t);
    if |queue| > 1 {
      assert queue[0] != queue[1] && queue[0] in queue && queue[1] in queue;
      var x := if queue[0] == t then queue[1] else queue[0];
      assert x in Without(queue, t);
    } else if |queue| == 1 {
      assert queue == [queue[0]];
      if queue[0] != t {
        assert queue[0] in queue && queue[0] in Without(queue, t);
      }
    }
  }

  // ---------- Runs ----------

  ghost predicate RightThroughout(m: System, steps: seq<Step>)
    decreases |steps|
  {
    Right(m.s) && (steps != [] ==> Possible(m, steps[0]) && RightThroughout(Do(m, steps[0]), steps[1..]))
  }

  /** No section of the run takes the last thread off a queue, or links one twice. */
  ghost predicate Sound(m: System, steps: seq<Step>)
    decreases |steps|
  {
    steps != [] ==>
      && Possible(m, steps[0]) && !LosesLast(m, steps[0]) && !LinksTwice(m, steps[0])
      && Sound(Do(m, steps[0]), steps[1..])
  }

  /** Queues and bits are right in every state of a run if and only if no section of it is of either kind. */
  lemma {:induction false} RunKeepsRight(m: System, steps: seq<Step>, r: System)
    requires Right(m.s) && Runs(m, steps, r)
    ensures RightThroughout(m, steps) <==> Sound(m, steps)
    ensures Sound(m, steps) ==> Right(r.s)
    decreases |steps|
  {
    hide Right, Do, Possible, LosesLast, LinksTwice;
    if steps != [] {
      StepKeepsRight(m, steps[0]);
      var n := Do(m, steps[0]);
      if Right(n.s) {
        RunKeepsRight(n, steps[1..], r);
      }
    }
  }

  ghost predicate NeverLinksTwice(m: System, steps: seq<Step>)
    decreases |steps|
  {
    steps != [] ==> Possible(m, steps[0]) && !LinksTwice(m, steps[0]) && NeverLinksTwice(Do(m, steps[0]), steps[1..])
  }

  ghost predicate NeverLosesLast(m: System, steps: seq<Step>)
    decreases |steps|
  {
    steps != [] ==> Possible(m, steps[0]) && !LosesLast(m, steps[0]) && NeverLosesLast(Do(m, steps[0]), steps[1..])
  }

  /** The bits are exact in every state. */
  ghost predicate ExactThroughout(m: System, steps: seq<Step>)
    decreases |steps|
  {
    m.s.Sized() && Indexed(m.s) && (steps != [] ==> Possible(m, steps[0]) && ExactThroughout(Do(m, steps[0]), steps[1..]))
  }

  /** As long as no list is corrupted, the bits are exact in every state of a run if and only if no resume
      takes the last thread off a queue. */
  lemma {:induction false} BitsAreExact(m: System, steps: seq<Step>, r: System)
    requires Right(m.s) && Runs(m, steps, r) && NeverLinksTwice(m, steps)
    ensures ExactThroughout(m, steps) <==> NeverLosesLast(m, steps)
    decreases |steps|
  {
    if steps != [] {
      var e := steps[0];
      StepKeepsRight(m, e);
      if LosesLast(m, e) {
        UnlinkedIsRight(m.s, m.pending[e.c].t);
      } else {
        BitsAreExact(Do(m, e), steps[1..], r);
      }
      hide Indexed, Do, LosesLast, LinksTwice;
    }
  }

  /** A schedule finds the longest waiting of the most urgent queued threads, which is ready. */
  lemma RightSchedule(s: State)
    requires Right(s) && SomeReady(s)
    ensures Enabled(s, Schedule) && Highest(s) == Scan(s.queues)
    ensures s.lockNest == 0 ==>
              var r := Apply(s, Schedule);
              && r.current == s.queues[Scan(s.queues)][0]
              && r.current < |s.stat| && s.stat[r.current] == Ready
              && forall t: Thread :: t < |s.stat| && Waits(s, t) ==> s.priority[r.current] <= s.priority[t]
  {
    HighestIsScan(s);
    var p := Scan(s.queues);
    var c := s.queues[p][0];
    assert InQueue(s, p, c);
    assert AtHome(s, p, c);
    forall t: Thread | t < |s.stat| && Waits(s, t) ensures p <= s.priority[t] {
      assert s.queues[s.priority[t]] != [];
    }
  }

  /** In every state with a queued thread that a sound run from the start reaches, in either layout, the level
      worked out from the bitmaps is the one a linear scan of the queues finds, and rt_schedule picks the
      longest waiting of the most urgent queued threads, which is ready. */
  lemma SchedulerPicksTheMostUrgent(levels: nat, initPriority: seq<nat>, steps: seq<Step>, r: System)
    requires 0 < levels <= 256 && forall t :: 0 <= t < |initPriority| ==> initPriority[t] < levels
    requires Runs(System(Init(levels, initPriority), map[]), steps, r)
    requires Sound(System(Init(levels, initPriority), map[]), steps) && SomeReady(r.s)
    ensures r.s.Sized() && Highest(r.s) == Scan(r.s.queues) && Enabled(r.s, Schedule)
    ensures r.s.lockNest == 0 ==>
              var c := Apply(r.s, Schedule).current;
              && c == r.s.queues[Scan(r.s.queues)][0] && c < |r.s.stat| && r.s.stat[c] == Ready
              && forall t: Thread :: t < |r.s.stat| && Waits(r.s, t) ==> r.s.priority[c] <= r.s.priority[t]
  {
    InitIsInv(levels, initPriority);
    InvIsRight(Init(levels, initPriority));
    RunKeepsRight(System(Init(levels, initPriority), map[]), steps, r);
    RightSchedule(r.s);
  }

  // ---------- Deletes and detaches that nobody interferes with ----------

  /** The threads that a call in progress is about to close. */
  function Closings(m: System): set<Thread> {
    set c | c in m.pending && m.pending[c].Closing? :: m.pending[c].t
  }

  /** The state as if those threads were closed already. */
  function View(s: State, closings: set<Thread>): State {
    s.(stat := seq(|s.stat|, t requires 0 <= t < |s.stat| => if t in closings then Closed else s.stat[t]))
  }

  /** Queues and bits are in order but for threads that are about to be closed, which are in no queue. */
  ghost predicate InOrder(m: System) {
    Inv(View(m.s, Closings(m)))
  }

  /** Between calls that is the invariant. */
  lemma InOrderBetweenCloses(m: System)
    requires Closings(m) == {}
    ensures InOrder(m) <==> Inv(m.s)
  {
    assert View(m.s, {}).stat == m.s.stat;
  }

  /** The step puts a thread into a queue that is about to be closed. */
  ghost predicate QueuesClosing(m: System, e: Step)
    requires Possible(m, e)
  {
    match e
    case Whole(Startup(t)) => t in Closings(m)
    case Whole(Resume(t)) => m.s.stat[t] == Suspended && t in Closings(m)
    case Whole(Timeout(t)) => t in Closings(m)
    case Whole(ChangePriority(t, _)) => m.s.stat[t] == Ready && t in Closings(m)
    case Continue(c) => m.pending[c].Inserting? && m.pending[c].t in Closings(m)
    case _ => false
  }

  /** A section of a resume comes upon a thread that is ready, and not about to be closed. */
  ghost predicate ResumesReady(m: System, e: Step)
    requires Possible(m, e)
  {
    && e.Continue? && (m.pending[e.c].Unlinking? || m.pending[e.c].Inserting?)
    && m.s.stat[m.pending[e.c].t] == Ready && m.pending[e.c].t !in Closings(m)
  }

  lemma StatOfView(s: State, w: set<Thread>, t: Thread, stat: Stat)
    requires t < |s.stat|
    ensures View(s.(stat := s.stat[t := stat]), w) == View(s, w).(stat := View(s, w).stat[t := if t in w then Closed else stat])
    ensures View(s, w + {t}) == View(s, w).(stat := View(s, w).stat[t := Closed])
    ensures View(s, w).stat[t] == if t in w then Closed else s.stat[t]
  {
  }

  lemma InsertedView(s: State, w: set<Thread>, t: Thread)
    requires s.Sized() && t < |s.stat|
    ensures View(s, w).Sized()
    ensures t !in w ==> View(Inserted(s, t), w) == Inserted(View(s, w), t)
    ensures t in w ==> !Inv(View(Inserted(s, t), w))
  {
    var r := View(Inserted(s, t), w);
    assert r.queues[s.priority[t]][|s.queues[s.priority[t]]|] == t;
    assert InQueue(r, s.priority[t], t);
  }

  lemma RemovedView(s: State, w: set<Thread>, t: Thread)
    requires s.Sized() && t < |s.stat|
    ensures View(s, w).Sized() && Removed(s, t).stat == s.stat && View(Removed(s, t), w) == Removed(View(s, w), t)
  {
    hide Without;
  }

  /** Removing a thread and setting its stat to anything but ready. */
  lemma RemovedInView(s: State, w: set<Thread>, t: Thread, stat: Stat)
    requires s.Sized() && Inv(View(s, w)) && t < |s.stat| && stat != Ready
    ensures |Removed(s, t).stat| == |s.stat| && Inv(View(Removed(s, t).(stat := Removed(s, t).stat[t := stat]), w))
    ensures Inv(View(Removed(s, t), w + {t}))
  {
    RemovedView(s, w, t);
    StatOfView(Removed(s, t), w, t, stat);
    RemovedIsInv(View(s, w), t, if t in w then Closed else stat);
    RemovedIsInv(View(s, w), t, Closed);
    hide Removed, View, Inv;
  }

  lemma ChangeInView(s: State, w: set<Thread>, t: Thread, p: nat)
    requires s.Sized() && Inv(View(s, w)) && t < |s.stat| && p < s.levels
    ensures Inv(View(Apply(s, ChangePriority(t, p)), w)) <==> !(s.stat[t] == Ready && t in w)
  {
    StatOfView(s, w, t, s.stat[t]);
    if s.stat[t] != Ready {
      ChangedIsInv(View(s, w), t, p);
    } else {
      RemovedView(s, w, t);
      var r := Removed(s, t).(priority := s.priority[t := p]);
      MovedSizes(s, t, p);
      InsertedView(r, w, t);
      if t !in w {
        MovedIsInv(View(s, w), t, p);
        assert View(r, w) == Removed(View(s, w), t).(priority := s.priority[t := p]);
      }
      hide Inv, Removed, Inserted;
    }
  }

  lemma MovedSizes(s: State, t: Thread, p: nat)
    requires s.Sized() && t < |s.stat| && p < s.levels
    ensures Removed(s, t).Sized() && Removed(s, t).(priority := s.priority[t := p]).Sized()
    ensures Removed(s, t).priority == s.priority && |Removed(s, t).stat| == |s.stat|
  {
    hide Without;
  }

  lemma OpInView(m: System, op: Op)
    requires InOrder(m) && Possible(m, Whole(op))
    ensures InOrder(Do(m, Whole(op))) <==> !QueuesClosing(m, Whole(op))
  {
    var s, w := m.s, Closings(m);
    var v := View(s, w);
    match op
    case Startup(t) =>
      var r := s.(priority := s.priority[t := s.initPriority[t]], stat := s.stat[t := Suspended]);
      StartedInView(s, w, t);
      InsertedView(r, w, t);
      if t !in w {
        InsertedIsInv(View(r, w), t);
      }
    case Suspend(t) =>
      if s.stat[t] == Ready { RemovedInView(s, w, t, Suspended); }
    case Resume(t) =>
      InsertedView(s, w, t);
      if t !in w && s.stat[t] == Suspended { InsertedIsInv(v, t); }
    case Timeout(t) =>
      InsertedView(s, w, t);
      if t !in w { InsertedIsInv(v, t); }
    case Yield =>
      var p := s.priority[s.current];
      if s.stat[s.current] == Ready && s.current in s.queues[p] && |s.queues[p]| > 1 {
        assert InQueue(v, p, s.current);
        YieldedIsInv(v, s.current);
      }
    case ChangePriority(t, p) => ChangeInView(s, w, t, p);
    case Close(t) =>
      StatOfView(s, w, t, Closed);
      if s.stat[t] == Initial {
        StatIsInv(v, t, Closed);
      } else if s.stat[t] != Closed {
        RemovedInView(s, w, t, Closed);
      }
    case _ => SameQueues(v, View(Apply(s, op), w));
  }

  lemma StartedInView(s: State, w: set<Thread>, t: Thread)
    requires s.Sized() && Inv(View(s, w)) && t < |s.stat| && s.stat[t] == Initial
    ensures Inv(View(s.(priority := s.priority[t := s.initPriority[t]], stat := s.stat[t := Suspended]), w))
  {
    var v := View(s, w);
    StatOfView(s, w, t, Suspended);
    ChangedIsInv(v, t, s.initPriority[t]);
    var c := v.(priority := v.priority[t := s.initPriority[t]]);
    StatIsInv(c, t, if t in w then Closed else Suspended);
  }

  lemma ClosingsAfter(m: System, c: Caller, section: Section)
    requires c !in m.pending || !m.pending[c].Closing?
    ensures Closings(m.(pending := m.pending[c := section])) == if section.Closing? then Closings(m) + {section.t} else Closings(m)
    ensures Closings(m.(pending := m.pending - {c})) == Closings(m)
  {
    var r := m.(pending := m.pending[c := section]);
    forall t ensures t in Closings(r) <==> t in Closings(m) || (section.Closing? && t == section.t) {
      if t in Closings(m) {
        var d :| d in m.pending && m.pending[d].Closing? && m.pending[d].t == t;
        assert d in r.pending && r.pending[d].Closing?;
      }
      assert c in r.pending;
    }
    var q := m.(pending := m.pending - {c});
    forall t ensures t in Closings(q) <==> t in Closings(m) {
      if t in Closings(m) {
        var d :| d in m.pending && m.pending[d].Closing? && m.pending[d].t == t;
        assert d in q.pending;
      }
    }
  }

  lemma BeginsInOrder(m: System, e: Step)
    requires InOrder(m) && Possible(m, e) && (e.BeginResume? || e.BeginSuspend? || e.BeginClose?)
    ensures InOrder(Do(m, e))
  {
    match e
    case BeginResume(c, t) => ClosingsAfter(m, c, Unlinking(t));
    case BeginSuspend(c, t) => ClosingsAfter(m, c, Suspending(t));
    case BeginClose(c, t) =>
      ClosingsAfter(m, c, Removing(t));
      ClosingsAfter(m, c, Closing(t));
      StatOfView(m.s, Closings(m), t, Closed);
      if m.s.stat[t] == Initial {
        StatIsInv(View(m.s, Closings(m)), t, Closed);
      }
  }

  lemma MarkedInOrder(m: System, t: Thread)
    requires InOrder(m) && Possible(m, MarkStarted(t))
    ensures InOrder(Do(m, MarkStarted(t)))
  {
    StartedInView(m.s, Closings(m), t);
  }

  lemma ContinueInOrder(m: System, c: Caller)
    requires InOrder(m) && Possible(m, Continue(c))
    ensures InOrder(Do(m, Continue(c))) <==> !QueuesClosing(m, Continue(c)) && !ResumesReady(m, Continue(c))
  {
    var s, w := m.s, Closings(m);
    var t := m.pending[c].t;
    StatOfView(s, w, t, Closed);
    match m.pending[c]
    case Unlinking(_) =>
      ClosingsAfter(m, c, Inserting(t));
      UnlinkedInView(s, w, t);
    case Inserting(_) =>
      ClosingsAfter(m, c, Inserting(t));
      InsertedInView(s, w, t);
    case Suspending(_) =>
      ClosingsAfter(m, c, Suspending(t));
      RemovedInView(s, w, t, Suspended);
    case Removing(_) =>
      ClosingsAfter(m, c, Closing(t));
      RemovedInView(s, w, t, Closed);
    case Closing(_) => ClosedInView(m, c);
  }

  lemma UnlinkedInView(s: State, w: set<Thread>, t: Thread)
    requires s.Sized() && Inv(View(s, w)) && t < |s.stat|
    ensures Inv(View(Unlinked(s, t), w)) <==> !(s.stat[t] == Ready && t !in w)
  {
    var v, r, p := View(s, w), View(Unlinked(s, t), w), s.priority[t];
    assert v.stat[t] == if t in w then Closed else s.stat[t];
    assert InQueue(v, p, t) <==> v.stat[t] == Ready;
    if v.stat[t] != Ready {
      WithoutAbsent(s.queues[p], t);
      assert Unlinked(s, t) == s;
    } else {
      assert !InQueue(r, p, t) && r.stat[t] == Ready && r.priority[t] == p;
    }
  }

  lemma InsertedInView(s: State, w: set<Thread>, t: Thread)
    requires s.Sized() && Inv(View(s, w)) && t < |s.stat|
    ensures Inv(View(Inserted(s, t), w)) <==> t !in w && s.stat[t] != Ready
  {
    var v, p := View(s, w), s.priority[t];
    InsertedView(s, w, t);
    if t !in w {
      if s.stat[t] != Ready {
        InsertedIsInv(v, t);
      } else {
        assert InQueue(v, p, t);
        AppendedTwice(s.queues[p], t);
        assert Inserted(v, t).queues[p] == s.queues[p] + [t];
      }
    }
  }

  lemma ClosedInView(m: System, c: Caller)
    requires m.s.Sized() && c in m.pending && m.pending[c].Closing? && m.pending[c].t < |m.s.stat|
    ensures Possible(m, Continue(c)) && (InOrder(Do(m, Continue(c))) <==> InOrder(m))
  {
    var r, t := Do(m, Continue(c)), m.pending[c].t;
    assert t in Closings(m);
    forall u: Thread | u != t ensures u in Closings(r) <==> u in Closings(m) {
      if u in Closings(m) {
        var d :| d in m.pending && m.pending[d].Closing? && m.pending[d].t == u;
        assert d in r.pending;
      }
    }
    assert View(r.s, Closings(r)) == View(m.s, Closings(m));
  }

  /** A step keeps that order if and only if it neither queues a thread that is about to be closed nor resumes
      one that is ready. */
  lemma StepKeepsOrder(m: System, e: Step)
    requires InOrder(m) && Possible(m, e)
    ensures InOrder(Do(m, e)) <==> !QueuesClosing(m, e) && !ResumesReady(m, e)
  {
    hide InOrder, Apply;
    match e
    case Whole(op) => OpInView(m, op);
    case MarkStarted(t) => MarkedInOrder(m, t);
    case Continue(c) => ContinueInOrder(m, c);
    case _ => BeginsInOrder(m, e);
  }

  ghost predicate InOrderThroughout(m: System, steps: seq<Step>)
    decreases |steps|
  {
    InOrder(m) && (steps != [] ==> Possible(m, steps[0]) && InOrderThroughout(Do(m, steps[0]), steps[1..]))
  }

  /** No step of the run interferes with a delete or detach, or with a resume. */
  ghost predicate NoneInterferes(m: System, steps: seq<Step>)
    decreases |steps|
  {
    steps != [] ==>
      && Possible(m, steps[0]) && !QueuesClosing(m, steps[0]) && !ResumesReady(m, steps[0])
      && NoneInterferes(Do(m, steps[0]), steps[1..])
  }

  /** Whatever threads are deleted, detached, resumed and started in sections, and whatever comes between: the
      order holds in every state of a run if and only if no step interferes; and the invariant then holds
      again whenever no thread is about to be closed. */
  lemma {:induction false} RunKeepsOrder(m: System, steps: seq<Step>, r: System)
    requires InOrder(m) && Runs(m, steps, r)
    ensures InOrderThroughout(m, steps) <==> NoneInterferes(m, steps)
    ensures NoneInterferes(m, steps) ==> InOrder(r) && (Closings(r) == {} ==> Inv(r.s))
    decreases |steps|
  {
    if Closings(r) == {} {
      InOrderBetweenCloses(r);
    }
    hide InOrder, Inv, Do, Possible, QueuesClosing, ResumesReady, Closings;
    if steps != [] {
      StepKeepsOrder(m, steps[0]);
      var n := Do(m, steps[0]);
      if InOrder(n) {
        RunKeepsOrder(n, steps[1..], r);
      }
    }
  }

  lemma InOrderIsRight(m: System)
    requires InOrder(m)
    ensures Right(m.s)
  {
    var v := View(m.s, Closings(m));
    SameIndex(v, m.s);
    hide Indexed;
    forall p: nat, t: Thread | InQueue(m.s, p, t) ensures AtHome(m.s, p, t) {
      assert InQueue(v, p, t);
    }
  }

  /** In particular a delete or detach of a ready thread, with nothing between its sections. */
  lemma CloseKeepsOrder(m: System, c: Caller, t: Thread)
    requires InOrder(m) && c !in m.pending && t < |m.s.stat|
    ensures Possible(m, BeginClose(c, t)) && InOrder(Do(m, BeginClose(c, t)))
    ensures NoneInterferes(m, [BeginClose(c, t)])
    ensures m.s.stat[t] != Closed ==>
              var n := Do(m, BeginClose(c, t));
              NoneInterferes(n, [Continue(c)]) && (m.s.stat[t] != Initial ==> NoneInterferes(n, [Continue(c), Continue(c)]))
  {
    BeginsInOrder(m, BeginClose(c, t));
  }
}
