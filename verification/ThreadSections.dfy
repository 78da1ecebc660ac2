/** The calls of os/rt-thread-nano/src/thread.c when they are made with interrupts enabled: they test stat
    outside the lock and then run one or two locked sections, between which anything can happen. */
module ThreadSections {
  import opened Lists
  import opened ReadyQueue

  /** What a call has still to do that was made with interrupts enabled and has passed its test. */
  datatype Section =
    | Unlinking(t: Thread)     // rt_thread_resume: take the thread off its list
    | Inserting(t: Thread)     // rt_thread_resume: insert it into the ready queue
    | Suspending(t: Thread)    // rt_thread_suspend
    | Removing(t: Thread)      // rt_thread_detach and rt_thread_delete: remove from the ready queue
    | Closing(t: Thread)       // rt_thread_detach and rt_thread_delete: change stat

  type Caller = nat

  datatype System = System(s: State, pending: map<Caller, Section>)

  datatype Step =
    | Whole(op: Op)
    | MarkStarted(t: Thread)                    // rt_thread_startup before it calls rt_thread_resume
    | BeginResume(c: Caller, t: Thread)         // the test of stat, which is outside the lock
    | BeginSuspend(c: Caller, t: Thread)
    | BeginClose(c: Caller, t: Thread)
    | Continue(c: Caller)                       // the next section of that call

  /** rt_list_remove on a thread: it is in the queue of its priority, or in no queue. */
  function Unlinked(s: State, t: Thread): State
    requires s.Sized() && t < |s.stat|
  {
    s.(queues := s.queues[s.priority[t] := Without(s.queues[s.priority[t]], t)])
  }

  ghost predicate Possible(m: System, e: Step) {
    && m.s.Sized()
    && match e
       case Whole(op) => Enabled(m.s, op)
       case MarkStarted(t) => t < |m.s.stat| && m.s.stat[t] == Initial
       case BeginResume(c, t) => c !in m.pending && t < |m.s.stat|
       case BeginSuspend(c, t) => c !in m.pending && t < |m.s.stat|
       case BeginClose(c, t) => c !in m.pending && t < |m.s.stat|
       case Continue(c) => c in m.pending && m.pending[c].t < |m.s.stat|
  }

  function Do(m: System, e: Step): System
    requires Possible(m, e)
  {
    match e
    case Whole(op) => m.(s := Apply(m.s, op))
    case MarkStarted(t) => m.(s := m.s.(priority := m.s.priority[t := m.s.initPriority[t]], stat := m.s.stat[t := Suspended]))
    case BeginResume(c, t) => if m.s.stat[t] != Suspended then m else m.(pending := m.pending[c := Unlinking(t)])
    case BeginSuspend(c, t) => if m.s.stat[t] != Ready then m else m.(pending := m.pending[c := Suspending(t)])
    case BeginClose(c, t) =>
      if m.s.stat[t] == Closed then m
      else m.(pending := m.pending[c := if m.s.stat[t] == Initial then Closing(t) else Removing(t)])
    case Continue(c) =>
      var done := m.pending - {c};
      match m.pending[c]
      case Unlinking(t) => System(Unlinked(m.s, t), m.pending[c := Inserting(t)])
      case Inserting(t) => System(Inserted(m.s, t), done)
      case Suspending(t) => System(SuspendedNow(m.s, t), done)
      case Removing(t) => System(Removed(m.s, t), m.pending[c := Closing(t)])
      case Closing(t) => System(m.s.(stat := m.s.stat[t := Closed]), done)
  }

  function SuspendedNow(s: State, t: Thread): State
    requires s.Sized() && t < |s.stat|
  {
    var r := Removed(s, t);
    r.(stat := r.stat[t := Suspended])
  }

  /** A section of a resume or a close comes upon a thread that is ready. */
  ghost predicate FindsReady(m: System, e: Step)
    requires Possible(m, e)
  {
    e.Continue? && !m.pending[e.c].Suspending? && m.s.stat[m.pending[e.c].t] == Ready
  }

  /** A step keeps the invariant if and only if it is not such a section: the only steps that can break it
      are those of calls made with interrupts enabled. */
  lemma StepIsExact(m: System, e: Step)
    requires Inv(m.s) && Possible(m, e)
    ensures Inv(Do(m, e).s) <==> !FindsReady(m, e)
  {
    match e
    case Whole(op) => OpKeepsInv(m.s, op);
    case MarkStarted(t) =>
      ChangedIsInv(m.s, t, m.s.initPriority[t]);
      StatIsInv(m.s.(priority := m.s.priority[t := m.s.initPriority[t]]), t, Suspended);
    case Continue(c) => SectionIsExact(m.s, m.pending[c]);
    case _ =>
  }

  function AfterSection(s: State, section: Section): State
    requires s.Sized() && section.t < |s.stat|
  {
    match section
    case Unlinking(t) => Unlinked(s, t)
    case Inserting(t) => Inserted(s, t)
    case Suspending(t) => SuspendedNow(s, t)
    case Removing(t) => Removed(s, t)
    case Closing(t) => s.(stat := s.stat[t := Closed])
  }

  lemma SectionIsExact(s: State, section: Section)
    requires Inv(s) && section.t < |s.stat|
    ensures Inv(AfterSection(s, section)) <==> section.Suspending? || s.stat[section.t] != Ready
  {
    var t, r := section.t, AfterSection(s, section);
    var p := s.priority[t];
    assert InQueue(s, p, t) <==> s.stat[t] == Ready;
    if section.Suspending? {
      RemovedIsInv(s, t, Suspended);
    } else if s.stat[t] != Ready {
      SectionIsHarmless(s, section);
    } else {
      hide Indexed;
      assert section.Inserting? ==> !Distinct(r.queues[p]) by {
        AppendedTwice(s.queues[p], t);
      }
      assert section.Unlinking? || section.Removing? ==> !InQueue(r, p, t) && r.stat[t] == Ready;
      assert section.Closing? ==> InQueue(r, p, t) && r.stat[t] != Ready;
    }
  }

  lemma AppendedTwice(queue: seq<Thread>, t: Thread)
    requires t in queue
    ensures !Distinct(queue + [t])
  {
    var i :| 0 <= i < |queue| && queue[i] == t;
    assert (queue + [t])[i] == (queue + [t])[|queue|];
  }

  lemma SectionIsHarmless(s: State, section: Section)
    requires Inv(s) && section.t < |s.stat| && s.stat[section.t] != Ready && !section.Suspending?
    ensures Inv(AfterSection(s, section))
  {
    var t := section.t;
    var p := s.priority[t];
    assert !InQueue(s, p, t);
    match section
    case Unlinking(_) =>
      WithoutAbsent(s.queues[p], t);
      assert Unlinked(s, t) == s;
    case Inserting(_) => InsertedIsInv(s, t);
    case Removing(_) =>
      RemovedIsInv(s, t, s.stat[t]);
      assert Removed(s, t).(stat := Removed(s, t).stat[t := s.stat[t]]) == Removed(s, t);
    case Closing(_) => StatIsInv(s, t, Closed);
  }

  ghost predicate Runs(m: System, steps: seq<Step>, r: System)
    decreases |steps|
  {
    if steps == [] then r == m else Possible(m, steps[0]) && Runs(Do(m, steps[0]), steps[1..], r)
  }

  /** The invariant holds in every state of the run. */
  ghost predicate Throughout(m: System, steps: seq<Step>)
    decreases |steps|
  {
    Inv(m.s) && (steps != [] ==> Possible(m, steps[0]) && Throughout(Do(m, steps[0]), steps[1..]))
  }

  /** No section in the run does. */
  ghost predicate NeverFindsReady(m: System, steps: seq<Step>)
    decreases |steps|
  {
    steps != [] ==> Possible(m, steps[0]) && !FindsReady(m, steps[0]) && NeverFindsReady(Do(m, steps[0]), steps[1..])
  }

  /** The queues and their index are in order in every state of a run if and only if no section of a resume
      or a close comes upon a ready thread. */
  lemma {:induction false} RunIsExact(m: System, steps: seq<Step>, r: System)
    requires Inv(m.s) && Runs(m, steps, r)
    ensures Throughout(m, steps) <==> NeverFindsReady(m, steps)
    ensures NeverFindsReady(m, steps) ==> Inv(r.s)
    decreases |steps|
  {
    hide Inv, Do, Possible, FindsReady;
    if steps != [] {
      StepIsExact(m, steps[0]);
      var n := Do(m, steps[0]);
      if Inv(n.s) {
        RunIsExact(n, steps[1..], r);
      }
    }
  }

  /** So they are in every state of a run all of whose calls are made with interrupts disabled. */
  lemma {:induction false} WholeCallsKeepOrder(m: System, steps: seq<Step>, r: System)
    requires Inv(m.s) && Runs(m, steps, r) && forall e :: e in steps ==> e.Whole?
    ensures Throughout(m, steps) && NeverFindsReady(m, steps) && Inv(r.s)
    decreases |steps|
  {
    hide Inv, Do, Possible;
    if steps != [] {
      assert steps[0] in steps && steps[0].Whole?;
      StepIsExact(m, steps[0]);
      WholeCallsKeepOrder(Do(m, steps[0]), steps[1..], r);
    }
  }

  /** A call whose sections follow each other without interruption does what the whole call does. */
  lemma SectionsMakeTheCall(m: System, c: Caller, t: Thread)
    requires Inv(m.s) && c !in m.pending && t < |m.s.stat|
    ensures m.s.stat[t] == Suspended ==>
              Runs(m, [BeginResume(c, t), Continue(c), Continue(c)], m.(s := Apply(m.s, Resume(t))))
    ensures m.s.stat[t] == Ready ==>
              Runs(m, [BeginSuspend(c, t), Continue(c)], m.(s := Apply(m.s, Suspend(t))))
    ensures m.s.stat[t] in {Ready, Suspended} ==>
              Runs(m, [BeginClose(c, t), Continue(c), Continue(c)], m.(s := Apply(m.s, Close(t))))
  {
    if m.s.stat[t] == Suspended { ResumeSections(m, c, t); }
    if m.s.stat[t] == Ready { SuspendSections(m, c, t); }
    if m.s.stat[t] in {Ready, Suspended} { CloseSections(m, c, t); }
  }

  lemma ResumeSections(m: System, c: Caller, t: Thread)
    requires Inv(m.s) && c !in m.pending && t < |m.s.stat| && m.s.stat[t] == Suspended
    ensures Runs(m, [BeginResume(c, t), Continue(c), Continue(c)], m.(s := Apply(m.s, Resume(t))))
  {
    var p := m.s.priority[t];
    assert !InQueue(m.s, p, t);
    WithoutAbsent(m.s.queues[p], t);
    assert Unlinked(m.s, t) == m.s;
    var n := m.(pending := m.pending[c := Unlinking(t)]);
    var o := m.(pending := m.pending[c := Inserting(t)]);
    assert n.pending[c := Inserting(t)] == o.pending && o.pending - {c} == m.pending;
    var r := m.(s := Inserted(m.s, t));
    hide Inv, Inserted, Unlinked;
    assert Do(m, BeginResume(c, t)) == n;
    assert Do(n, Continue(c)) == o;
    assert Do(o, Continue(c)) == r;
    ThreeSteps(m, BeginResume(c, t), n, Continue(c), o, Continue(c), r);
  }

  lemma SuspendSections(m: System, c: Caller, t: Thread)
    requires Inv(m.s) && c !in m.pending && t < |m.s.stat| && m.s.stat[t] == Ready
    ensures Runs(m, [BeginSuspend(c, t), Continue(c)], m.(s := Apply(m.s, Suspend(t))))
  {
    var n := m.(pending := m.pending[c := Suspending(t)]);
    assert n.pending - {c} == m.pending;
    var r := m.(s := SuspendedNow(m.s, t));
    hide Inv, Removed;
    assert Do(m, BeginSuspend(c, t)) == n;
    assert Do(n, Continue(c)) == r;
    assert [BeginSuspend(c, t), Continue(c)][1..] == [Continue(c)];
    assert Runs(n, [Continue(c)], r);
  }

  lemma CloseSections(m: System, c: Caller, t: Thread)
    requires Inv(m.s) && c !in m.pending && t < |m.s.stat| && m.s.stat[t] in {Ready, Suspended}
    ensures Runs(m, [BeginClose(c, t), Continue(c), Continue(c)], m.(s := Apply(m.s, Close(t))))
  {
    RemovedIsInv(m.s, t, Closed);
    var n := m.(pending := m.pending[c := Removing(t)]);
    var o := System(Removed(m.s, t), m.pending[c := Closing(t)]);
    assert n.pending[c := Closing(t)] == o.pending && o.pending - {c} == m.pending;
    var r := m.(s := Removed(m.s, t).(stat := Removed(m.s, t).stat[t := Closed]));
    hide Inv, Removed;
    assert Do(m, BeginClose(c, t)) == n;
    assert Do(n, Continue(c)) == o;
    assert Do(o, Continue(c)) == r;
    ThreeSteps(m, BeginClose(c, t), n, Continue(c), o, Continue(c), r);
  }

  lemma ThreeSteps(m: System, e: Step, n: System, f: Step, o: System, g: Step, r: System)
    requires Possible(m, e) && Do(m, e) == n && Possible(n, f) && Do(n, f) == o && Possible(o, g) && Do(o, g) == r
    ensures Runs(m, [e, f, g], r)
  {
    hide Possible, Do;
    assert [e, f, g][1..] == [f, g] && [f, g][1..] == [g] && [g][1..] == [];
    assert Runs(r, [], r);
    assert Runs(o, [g], r);
    assert Runs(n, [f, g], r);
  }

  /** A ready thread is in no queue, and rt_schedule would take the first thread of an empty one. */
  ghost predicate Lost(s: State, t: Thread) {
    && s.Sized() && t < |s.stat| && s.stat[t] == Ready && (forall p: nat :: !InQueue(s, p, t))
    && 0 <= Highest(s) < s.levels && s.queues[Highest(s)] == []
  }

  /** A resume made with interrupts enabled can be overtaken by the timeout of the thread it resumes, which
      is then lost. */
  lemma ResumeCanBeOvertaken(s: State, c: Caller, t: Thread)
    requires Inv(s) && t < |s.stat| && s.stat[t] == Suspended
    requires forall p: nat :: p <= s.priority[t] ==> !Occupied(s, p)
    ensures var steps := [BeginResume(c, t), Whole(Timeout(t)), Continue(c)];
            exists r :: Runs(System(s, map[]), steps, r) && Lost(r.s, t)
  {
    InsertedIsInv(s, t);
    UnlinkedWhileReady(s, t);
    var i := Inserted(s, t);
    var m, n := System(s, map[]), System(s, map[c := Unlinking(t)]);
    var o, r := System(i, map[c := Unlinking(t)]), System(Unlinked(i, t), map[c := Inserting(t)]);
    ResumeBegins(s, c, t);
    ResumeUnlinks(i, c, t);
    hide Inv, Lost, Inserted, Unlinked, Highest;
    assert Do(n, Whole(Timeout(t))) == o;
    hide Do, Possible;
    ThreeSteps(m, BeginResume(c, t), n, Whole(Timeout(t)), o, Continue(c), r);
  }

  lemma ResumeBegins(s: State, c: Caller, t: Thread)
    requires s.Sized() && t < |s.stat| && s.stat[t] == Suspended
    ensures Do(System(s, map[]), BeginResume(c, t)) == System(s, map[c := Unlinking(t)])
  {
    assert map[][c := Unlinking(t)] == map[c := Unlinking(t)];
  }

  lemma ResumeUnlinks(s: State, c: Caller, t: Thread)
    requires s.Sized() && t < |s.stat|
    ensures Do(System(s, map[c := Unlinking(t)]), Continue(c)) == System(Unlinked(s, t), map[c := Inserting(t)])
  {
    assert map[c := Unlinking(t)][c := Inserting(t)] == map[c := Inserting(t)];
  }

  lemma UnlinkedWhileReady(s: State, t: Thread)
    requires Inv(s) && t < |s.stat| && s.stat[t] == Suspended
    requires forall p: nat :: p <= s.priority[t] ==> !Occupied(s, p)
    ensures Inserted(s, t).Sized() && Lost(Unlinked(Inserted(s, t), t), t)
  {
    var p, i := s.priority[t], Inserted(s, t);
    var r := Unlinked(i, t);
    assert !Occupied(s, p);
    assert s.queues[p] + [t] == [t];
    OnlyOne(t);
    assert r.queues[p] == [];
    forall q: nat ensures !InQueue(r, q, t) {
      assert !InQueue(s, q, t);
    }
    InsertedIsInv(s, t);
    assert i.queues[p] != [] && forall q :: 0 <= q < p ==> i.queues[q] == [] by {
      forall q: nat | q < p ensures i.queues[q] == [] {
        assert !Occupied(s, q);
      }
    }
    HighestIsScan(i);
    hide Inv, Ffs, Indexed;
    assert Highest(r) == Highest(i) == p;
  }

  lemma LostBreaksInv(s: State, t: Thread)
    requires Lost(s, t)
    ensures !Inv(s)
  {
    assert !InQueue(s, s.priority[t], t);
  }

  ghost predicate CanLose(s: State, t: Thread) {
    exists steps, r :: Runs(System(s, map[]), steps, r) && Lost(r.s, t)
  }

  lemma CanLoseBefore(s: State, op: Op, t: Thread)
    requires Enabled(s, op) && CanLose(Apply(s, op), t)
    ensures CanLose(s, t)
  {
    var steps, r :| Runs(System(Apply(s, op), map[]), steps, r) && Lost(r.s, t);
    hide Lost, Apply, Enabled, Runs;
    WholeThen(s, op, steps, r);
  }

  /** Such a run begins with three calls: two threads are started, and the more urgent one is suspended. */
  lemma OvertakenFromTheStart()
    ensures CanLose(Init(2, [1, 0]), 1)
  {
    InitIsInv(2, [1, 0]);
    hide Inv, CanLose;
    OvertakenAfter(Init(2, [1, 0]));
  }

  lemma OvertakenAfter(start: State)
    requires Inv(start) && start.levels == 2 && start.stat == [Initial, Initial] && start.initPriority == [1, 0]
    requires start.queues[0] == []
    ensures CanLose(start, 1)
  {
    AfterStartup(start, 0);
    hide Inv, Apply, CanLose;
    TwoStarted(Apply(start, Startup(0)));
    CanLoseBefore(start, Startup(0), 1);
  }

  lemma TwoStarted(s1: State)
    requires Inv(s1) && s1.levels == 2 && s1.stat == [Ready, Initial] && s1.initPriority == [1, 0] && s1.queues[0] == []
    ensures CanLose(s1, 1)
  {
    AfterStartup(s1, 1);
    var s2 := Apply(s1, Startup(1));
    assert s1.queues[0] + [1] == [1];
    AfterSuspend(s2, 1);
    OnlyOne(1);
    var s3 := Apply(s2, Suspend(1));
    assert forall p: nat :: p <= s3.priority[1] ==> !Occupied(s3, p);
    hide Inv, Apply, Lost, Runs, Occupied;
    ResumeCanBeOvertaken(s3, 0, 1);
    assert CanLose(s3, 1);
    hide CanLose;
    CanLoseBefore(s2, Suspend(1), 1);
    CanLoseBefore(s1, Startup(1), 1);
  }

  lemma OnlyOne(t: Thread)
    ensures Without([t], t) == []
  {
    assert [t][1..] == [];
  }

  lemma AfterStartup(s: State, t: Thread)
    requires Inv(s) && t < |s.stat| && s.stat[t] == Initial
    ensures var r, p := Apply(s, Startup(t)), s.initPriority[t];
            && Inv(r) && r.levels == s.levels && r.initPriority == s.initPriority
            && r.queues == s.queues[p := s.queues[p] + [t]]
            && r.stat == s.stat[t := Ready] && r.priority == s.priority[t := p]
  {
    OpKeepsInv(s, Startup(t));
    assert s.stat[t := Suspended][t := Ready] == s.stat[t := Ready];
  }

  lemma AfterSuspend(s: State, t: Thread)
    requires Inv(s) && t < |s.stat| && s.stat[t] == Ready
    ensures var r, p := Apply(s, Suspend(t)), s.priority[t];
            && Inv(r) && r.levels == s.levels && r.queues == s.queues[p := Without(s.queues[p], t)]
            && r.stat == s.stat[t := Suspended] && r.priority == s.priority
  {
    OpKeepsInv(s, Suspend(t));
  }

  /** A close made with interrupts enabled leaves a closed thread in a ready queue, if its priority is
      changed between its sections. */
  lemma CloseCanLeaveTheThreadQueued(s: State, c: Caller, t: Thread)
    requires Inv(s) && t < |s.stat| && s.stat[t] == Ready
    ensures var p := s.priority[t];
            exists r :: && Runs(System(s, map[]), [BeginClose(c, t), Continue(c), Whole(ChangePriority(t, p)), Continue(c)], r)
                        && r.s.Sized() && |r.s.stat| == |s.stat| && r.s.stat[t] == Closed && InQueue(r.s, p, t)
  {
    var p, gone, moved := s.priority[t], Removed(s, t), ClosedLate(s, t);
    RemovedIsInv(s, t, Closed);
    QueuedAgain(s, t);
    var m, n := System(s, map[]), System(s, map[c := Removing(t)]);
    var o, q := System(gone, map[c := Closing(t)]), System(moved, map[c := Closing(t)]);
    var r := System(moved.(stat := moved.stat[t := Closed]), map[]);
    var e, f, g, h := BeginClose(c, t), Continue(c), Whole(ChangePriority(t, p)), Continue(c);
    CloseBegins(s, c, t);
    ChangesInBetween(s, t);
    CloseEnds(moved, c, t);
    assert InQueue(r.s, p, t) <==> InQueue(moved, p, t);
    hide Inv, Removed, ClosedLate, InQueue, Apply, Enabled, Runs;
    assert Possible(o, g) && Do(o, g) == q;
    assert Possible(m, e) && Possible(n, f) && Possible(q, h);
    hide Do, Possible;
    ThreeSteps(n, f, o, g, q, h, r);
    StepThen(m, e, n, [f, g, h], r);
    assert [e] + [f, g, h] == [e, f, g, h];
  }

  lemma StepThen(m: System, e: Step, n: System, steps: seq<Step>, r: System)
    requires Possible(m, e) && Do(m, e) == n && Runs(n, steps, r)
    ensures Runs(m, [e] + steps, r)
  {
    hide Do, Possible;
    assert ([e] + steps)[1..] == steps;
  }

  lemma CloseBegins(s: State, c: Caller, t: Thread)
    requires s.Sized() && t < |s.stat| && s.stat[t] == Ready
    ensures var m, n := System(s, map[]), System(s, map[c := Removing(t)]);
            && Do(m, BeginClose(c, t)) == n
            && Do(n, Continue(c)) == System(Removed(s, t), map[c := Closing(t)])
  {
    hide Removed;
    assert map[][c := Removing(t)] == map[c := Removing(t)] && map[c := Removing(t)][c := Closing(t)] == map[c := Closing(t)];
  }

  lemma CloseEnds(s: State, c: Caller, t: Thread)
    requires s.Sized() && t < |s.stat|
    ensures Do(System(s, map[c := Closing(t)]), Continue(c)) == System(s.(stat := s.stat[t := Closed]), map[])
  {
    assert map[c := Closing(t)] - {c} == map[];
  }

  /** The thread is removed, and inserted again by a change of priority. */
  ghost function ClosedLate(s: State, t: Thread): State
    requires s.Sized() && t < |s.stat|
  {
    var gone := Removed(s, t);
    if gone.Sized() && t < |gone.stat| then
      var r := Removed(gone, t).(priority := gone.priority[t := s.priority[t]]);
      if r.Sized() && t < |r.stat| then Inserted(r, t) else r
    else gone
  }

  lemma QueuedAgain(s: State, t: Thread)
    requires Inv(s) && t < |s.stat| && s.stat[t] == Ready
    ensures var r := ClosedLate(s, t);
            r.Sized() && |r.stat| == |s.stat| && r.stat == s.stat && InQueue(r, s.priority[t], t)
  {
    RemovedIsInv(s, t, Closed);
  }

  lemma ChangesInBetween(s: State, t: Thread)
    requires Inv(s) && t < |s.stat| && s.stat[t] == Ready
    ensures var gone := Removed(s, t);
            Enabled(gone, ChangePriority(t, s.priority[t])) && Apply(gone, ChangePriority(t, s.priority[t])) == ClosedLate(s, t)
  {
    RemovedIsInv(s, t, Closed);
  }

  lemma WholeThen(s: State, op: Op, steps: seq<Step>, r: System)
    requires Enabled(s, op) && Runs(System(Apply(s, op), map[]), steps, r)
    ensures Runs(System(s, map[]), [Whole(op)] + steps, r)
  {
    assert ([Whole(op)] + steps)[1..] == steps;
    assert Do(System(s, map[]), Whole(op)) == System(Apply(s, op), map[]);
  }
}
