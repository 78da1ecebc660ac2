/** The pipeline refines the sequential machine: simulation, precise traps, cycle accounting. */
module PipelineProofs {
  import opened Pipeline

  // ---------- One clock edge ----------

  lemma WriteBackKeepsSame(r: RegFile, s: RegFile, w: BankW)
    requires SameRegs(r, s)
    ensures SameRegs(WriteBack(r, w), WriteBack(s, w))
  {
    forall i: RegIndex
      ensures ReadReg(WriteBack(r, w), i) == ReadReg(WriteBack(s, w), i)
    {
      assert ReadReg(r, i) == ReadReg(s, i);
    }
  }

  lemma WriteBackOfZero(r: RegFile, w: BankW)
    requires w.rd == 0
    ensures SameRegs(WriteBack(r, w), r)
  {
  }

  /** Writing the W bank back after the instruction in M has moved there gives the registers the
      sequential machine has after that instruction. */
  lemma RegistersStep<Sys(!new)>(u: Units<Sys>, p: Pipe<Sys>, v: Valid, a: Arch<Sys>, irq: bool)
    requires Sim(u, p, v, a)
    ensures SameRegs(WriteBack(WriteBack(p.regs, p.w), NextW(u, p.sys, p.m, irq)), Body(u, a, v.m, irq).regs)
  {
    var w := NextW(u, p.sys, p.m, irq);
    WriteBackKeepsSame(WriteBack(p.regs, p.w), a.regs, w);
    if !v.m {
      WriteBackOfZero(a.regs, w);
    }
  }

  lemma ForwardsWhatWillBeWritten<Sys(!new)>(u: Units<Sys>, p: Pipe<Sys>, rs: RegIndex, irq: bool)
    requires p.m.ctl.resultSrc ==> rs != p.m.rd
    ensures Forward(rs, ReadReg(p.regs, rs), p.m, p.w)
         == ReadReg(WriteBack(WriteBack(p.regs, p.w), NextW(u, p.sys, p.m, irq)), rs)
  {
  }

  /** The hazard unit always delivers the value the oldest-first order would have read. */
  lemma ForwardingIsExact<Sys(!new)>(u: Units<Sys>, p: Pipe<Sys>, v: Valid, a: Arch<Sys>, irq: bool)
    requires Sim(u, p, v, a) && v.e
    ensures Forward(p.e.rs1, p.e.rd1, p.m, p.w) == ReadReg(Body(u, a, v.m, irq).regs, p.e.rs1)
    ensures Forward(p.e.rs2, p.e.rd2, p.m, p.w) == ReadReg(Body(u, a, v.m, irq).regs, p.e.rs2)
  {
    RegistersStep(u, p, v, a, irq);
    ForwardsWhatWillBeWritten(u, p, p.e.rs1, irq);
    ForwardsWhatWillBeWritten(u, p, p.e.rs2, irq);
  }

  lemma BodyPC<Sys(!new)>(u: Units<Sys>, v: Valid, a: Arch<Sys>, irq: bool)
    ensures Body(u, a, v.m, irq).pc == BehindM(u, v, a)
  {
  }

  lemma ExecutesInOrder<Sys(!new)>(u: Units<Sys>, p: Pipe<Sys>, v: Valid, a: Arch<Sys>, irq: bool)
    requires Sim(u, p, v, a) && v.e
    ensures var b := Body(u, a, v.m, irq);
            && b.pc == p.e.pc
            && ExecuteE(u, p) == ExecuteAt(u, b.pc, b.regs)
            && NextM(u, p, irq) == if Trap(u, p, irq) then EMPTY_M else IssueAt(u, b.pc, b.regs)
  {
    ForwardingIsExact(u, p, v, a, irq);
    BodyPC(u, v, a, irq);
    var b := Body(u, a, v.m, irq);
    assert MatchesE(u, p, b.pc);
  }

  lemma BubbleInM<Sys(!new)>(u: Units<Sys>, p: Pipe<Sys>, v: Valid, a: Arch<Sys>, irq: bool)
    requires WellFormed(u) && Sim(u, p, v, a) && !v.m
    ensures u.commit(p.sys, irq, p.m) == u.tick(p.sys)
  {
    assert HarmlessBubble(u, p.m.ctl, p.m.imm);
  }

  lemma BubbleInE<Sys(!new)>(u: Units<Sys>, p: Pipe<Sys>, v: Valid, a: Arch<Sys>)
    requires WellFormed(u) && Sim(u, p, v, a) && !v.e
    ensures !Redirect(u, p) && !Returning(u, p) && !Stall(u, p)
  {
    assert HarmlessBubble(u, p.e.ctl, p.e.imm);
  }

  /** A stall and a redirect never coincide, and a stall is never followed by another stall. */
  lemma StallExcludesRedirect<Sys(!new)>(u: Units<Sys>, p: Pipe<Sys>, v: Valid, a: Arch<Sys>)
    requires WellFormed(u) && Sim(u, p, v, a)
    ensures Stall(u, p) ==> !Redirect(u, p) && forall irq :: !Stall(u, Step(u, p, irq))
  {
    if !v.e {
      BubbleInE(u, p, v, a);
    } else {
      var i := u.fetch(BehindM(u, v, a));
      assert p.e.ctl == u.decode(i).ctl && p.e.imm == u.decode(i).imm;
    }
  }

  lemma MovesToM<Sys(!new)>(u: Units<Sys>, p: Pipe<Sys>, v: Valid, a: Arch<Sys>, irq: bool)
    requires Sim(u, p, v, a) && !Trap(u, p, irq)
    ensures var b, m := Body(u, a, v.m, irq), NextM(u, p, irq);
            if v.e then m == IssueAt(u, b.pc, b.regs) else BubbleControls(u, m.ctl, m.imm, m.rd)
  {
    if v.e {
      ExecutesInOrder(u, p, v, a, irq);
    }
  }

  lemma RedirectStep<Sys(!new)>(u: Units<Sys>, p: Pipe<Sys>, v: Valid, a: Arch<Sys>, irq: bool)
    requires WellFormed(u) && Sim(u, p, v, a) && !Trap(u, p, irq) && Redirect(u, p)
    ensures InOrder(u, Step(u, p, irq), NextValid(u, p, v, irq), Body(u, a, v.m, irq))
  {
    MovesToM(u, p, v, a, irq);
    StallExcludesRedirect(u, p, v, a);
    if !v.e {
      BubbleInE(u, p, v, a);
    } else {
      ExecutesInOrder(u, p, v, a, irq);
    }
  }

  lemma StallStep<Sys(!new)>(u: Units<Sys>, p: Pipe<Sys>, v: Valid, a: Arch<Sys>, irq: bool)
    requires WellFormed(u) && Sim(u, p, v, a) && !Trap(u, p, irq) && Stall(u, p)
    ensures InOrder(u, Step(u, p, irq), NextValid(u, p, v, irq), Body(u, a, v.m, irq))
  {
    MovesToM(u, p, v, a, irq);
    StallExcludesRedirect(u, p, v, a);
    if !v.e {
      BubbleInE(u, p, v, a);
    } else {
      ExecutesInOrder(u, p, v, a, irq);
    }
  }

  /** What enters E reads the register file after the write of this cycle, and never needs the
      result of a load that is only now entering M. */
  lemma EntersE<Sys(!new)>(u: Units<Sys>, p: Pipe<Sys>, v: Valid, a: Arch<Sys>, irq: bool, pc: Word)
    requires Sim(u, p, v, a) && !Trap(u, p, irq) && !Stall(u, p) && !Redirect(u, p)
    requires v.d && pc == (if v.e then u.plus4(BehindM(u, v, a)) else BehindM(u, v, a))
    ensures MatchesE(u, Step(u, p, irq), pc)
  {
  }

  lemma PlainStep<Sys(!new)>(u: Units<Sys>, p: Pipe<Sys>, v: Valid, a: Arch<Sys>, irq: bool)
    requires WellFormed(u) && Sim(u, p, v, a)
    requires !Trap(u, p, irq) && !Stall(u, p) && !Redirect(u, p)
    ensures InOrder(u, Step(u, p, irq), NextValid(u, p, v, irq), Body(u, a, v.m, irq))
  {
    MovesToM(u, p, v, a, irq);
    BodyPC(u, v, a, irq);
    var pcE := BehindM(u, v, a);
    if v.e {
      ExecutesInOrder(u, p, v, a, irq);
      EntersE(u, p, v, a, irq, u.plus4(pcE));
    } else if v.d {
      EntersE(u, p, v, a, irq, pcE);
    }
  }

  lemma OrderStep<Sys(!new)>(u: Units<Sys>, p: Pipe<Sys>, v: Valid, a: Arch<Sys>, irq: bool)
    requires WellFormed(u) && Sim(u, p, v, a) && !Trap(u, p, irq)
    ensures InOrder(u, Step(u, p, irq), NextValid(u, p, v, irq), Body(u, a, v.m, irq))
  {
    if Redirect(u, p) {
      RedirectStep(u, p, v, a, irq);
    } else if Stall(u, p) {
      StallStep(u, p, v, a, irq);
    } else {
      PlainStep(u, p, v, a, irq);
    }
  }

  lemma TrapEmptiesThePipe<Sys(!new)>(u: Units<Sys>, p: Pipe<Sys>, v: Valid, a: Arch<Sys>, irq: bool)
    requires Trap(u, p, irq)
    ensures InOrder(u, Step(u, p, irq), NextValid(u, p, v, irq), Cycle(u, a, ActOf(u, p, v, irq), irq))
  {
  }

  lemma SystemStep<Sys(!new)>(u: Units<Sys>, p: Pipe<Sys>, v: Valid, a: Arch<Sys>, irq: bool)
    requires WellFormed(u) && Sim(u, p, v, a)
    ensures NextSys(u, p, irq) == Cycle(u, a, ActOf(u, p, v, irq), irq).sys
  {
    if !v.m {
      BubbleInM(u, p, v, a, irq);
    }
  }

  /** One clock edge of the pipeline is one cycle of the sequential machine. */
  lemma StepRefines<Sys(!new)>(u: Units<Sys>, p: Pipe<Sys>, v: Valid, a: Arch<Sys>, irq: bool)
    requires WellFormed(u) && Sim(u, p, v, a)
    ensures Sim(u, Step(u, p, irq), NextValid(u, p, v, irq), Cycle(u, a, ActOf(u, p, v, irq), irq))
  {
    var b, c := Body(u, a, v.m, irq), Cycle(u, a, ActOf(u, p, v, irq), irq);
    assert SameRegs(WriteBack(Step(u, p, irq).regs, Step(u, p, irq).w), c.regs) by {
      RegistersStep(u, p, v, a, irq);
      assert c.regs == b.regs;
    }
    SystemStep(u, p, v, a, irq);
    assert InOrder(u, Step(u, p, irq), NextValid(u, p, v, irq), c) by {
      if Trap(u, p, irq) {
        TrapEmptiesThePipe(u, p, v, a, irq);
      } else {
        OrderStep(u, p, v, a, irq);
      }
    }
  }

  // ---------- Whole runs ----------

  /** Main refinement theorem: at every cycle of every run, with interrupts at arbitrary cycles,
      the pipeline is the sequential machine plus correctly fetched instructions in flight. */
  lemma {:induction false} Refines<Sys(!new)>(u: Units<Sys>, sys: Sys, irqs: seq<bool>)
    requires WellFormed(u)
    ensures Sim(u, Run(u, sys, irqs), ValidAfter(u, sys, irqs), ArchRun(u, sys, irqs))
  {
    if irqs != [] {
      var before := irqs[..|irqs| - 1];
      Refines(u, sys, before);
      StepRefines(u, Run(u, sys, before), ValidAfter(u, sys, before), ArchRun(u, sys, before), irqs[|irqs| - 1]);
    }
  }

  // ---------- Precise traps ----------

  ghost predicate Advances<Sys>(u: Units<Sys>) {
    forall pc :: u.plus4(pc) != pc && u.plus4(u.plus4(pc)) != pc
  }

  /** The saved program counter is the address of the oldest uncommitted instruction exactly when
      that instruction has not been decoded yet or has an opcode that retires. */
  lemma SavedPCIsPrecise<Sys(!new)>(u: Units<Sys>, p: Pipe<Sys>, v: Valid, a: Arch<Sys>, irq: bool)
    requires WellFormed(u) && Advances(u) && Sim(u, p, v, a)
    ensures var oldest := Body(u, a, v.m, irq).pc;
            SavePC(u, p) == oldest <==> p.pcF == oldest || u.decode(u.fetch(oldest)).ctl.retire
  {
    BodyPC(u, v, a, irq);
    var oldest := BehindM(u, v, a);
    assert u.plus4(oldest) != oldest && u.plus4(u.plus4(oldest)) != oldest;
    if !v.e {
      assert HarmlessBubble(u, p.e.ctl, p.e.imm);
    }
    if !v.d {
      assert !u.decode(0).ctl.retire;
    }
  }

  datatype TrapTaken = NoneTaken | InterruptTaken | ReturnTaken

  /** Which trap the pipeline takes in a cycle; it looks at the CSRs before the instruction in M. */
  function Taken<Sys>(u: Units<Sys>, p: Pipe<Sys>, irq: bool): TrapTaken {
    if u.interrupt(p.sys, irq) then InterruptTaken else if Returning(u, p) then ReturnTaken else NoneTaken
  }

  /** Which trap the instruction set allows where the pipeline would take the given one: the CSRs are looked
      at after the older instructions. An interrupt that is pending may be left to wait, but one that is not
      enabled may not be taken; and only a return returns. */
  function Allowed<Sys>(u: Units<Sys>, b: Arch<Sys>, interrupts: bool, leaves: bool, irq: bool): TrapTaken {
    var dec := u.decode(u.fetch(b.pc));
    if interrupts && u.interrupt(b.sys, irq) then InterruptTaken
    else if leaves && u.isReturn(dec.ctl, dec.imm) then ReturnTaken
    else NoneTaken
  }

  /** A cycle of the precise machine: everything older has committed, nothing younger has happened, and the
      trap taken, where it goes and what it saves are as the CSRs say after the older instructions. */
  function PreciseCycle<Sys>(u: Units<Sys>, a: Arch<Sys>, commits: bool, interrupts: bool, leaves: bool, irq: bool)
    : (Arch<Sys>, TrapTaken)
  {
    var b := Body(u, a, commits, irq);
    var trap := Allowed(u, b, interrupts, leaves, irq);
    (match trap
     case InterruptTaken => Arch(u.vector(b.sys), b.regs, u.enter(b.sys, b.pc))
     case ReturnTaken => Arch(u.savedPC(b.sys), b.regs, u.leave(b.sys))
     case NoneTaken => b, trap)
  }

  /** What must hold in a trapping cycle for the trap to be precise. */
  ghost predicate CleanTrap<Sys>(u: Units<Sys>, p: Pipe<Sys>, b: Arch<Sys>, irq: bool) {
    && (u.interrupt(p.sys, irq) ==>
          && u.interrupt(b.sys, irq)
          && !Returning(u, p)
          && (p.pcF == b.pc || u.decode(u.fetch(b.pc)).ctl.retire)
          && u.vector(b.sys) == u.vector(p.sys))
    && (Returning(u, p) ==> u.savedPC(b.sys) == u.savedPC(p.sys))
  }

  /** The trap updates tell what was saved, and an interrupt from a return. */
  ghost predicate TellsTraps<Sys(!new)>(u: Units<Sys>) {
    && (forall s, pc, pc' :: u.enter(s, pc) == u.enter(s, pc') ==> pc == pc')
    && (forall s, pc :: u.enter(s, pc) != u.leave(s))
  }

  lemma ReturnIsOldest<Sys(!new)>(u: Units<Sys>, p: Pipe<Sys>, v: Valid, a: Arch<Sys>, irq: bool)
    requires WellFormed(u) && Sim(u, p, v, a) && Returning(u, p)
    ensures var dec := u.decode(u.fetch(Body(u, a, v.m, irq).pc)); u.isReturn(dec.ctl, dec.imm)
  {
    BodyPC(u, v, a, irq);
    assert !v.e ==> HarmlessBubble(u, p.e.ctl, p.e.imm);
  }

  /** A cycle is the precise machine's if and only if its trap, if it takes one, is clean. */
  lemma CycleIsPrecise<Sys(!new)>(u: Units<Sys>, p: Pipe<Sys>, v: Valid, a: Arch<Sys>, irq: bool)
    requires WellFormed(u) && Advances(u) && TellsTraps(u) && Sim(u, p, v, a)
    ensures (Cycle(u, a, ActOf(u, p, v, irq), irq), Taken(u, p, irq))
            == PreciseCycle(u, a, v.m, u.interrupt(p.sys, irq), Returning(u, p), irq)
       <==> CleanTrap(u, p, Body(u, a, v.m, irq), irq)
  {
    SavedPCIsPrecise(u, p, v, a, irq);
    if Returning(u, p) {
      ReturnIsOldest(u, p, v, a, irq);
    }
    CycleOfTrap(u, p, v, a, irq);
    var b := Body(u, a, v.m, irq);
    EnterTells(u, b.sys, SavePC(u, p), b.pc);
    hide WellFormed, Advances, TellsTraps, Sim, Body, SavePC, Returning, Cycle, ActOf;
  }

  lemma CycleOfTrap<Sys>(u: Units<Sys>, p: Pipe<Sys>, v: Valid, a: Arch<Sys>, irq: bool)
    ensures var b := Body(u, a, v.m, irq);
            Cycle(u, a, ActOf(u, p, v, irq), irq)
            == match Taken(u, p, irq)
               case InterruptTaken =>
                 Arch(u.vector(p.sys), b.regs, if Returning(u, p) then u.leave(b.sys) else u.enter(b.sys, SavePC(u, p)))
               case ReturnTaken => Arch(u.savedPC(p.sys), b.regs, u.leave(b.sys))
               case NoneTaken => b
  {
    hide Body, SavePC, Returning;
  }

  lemma EnterTells<Sys(!new)>(u: Units<Sys>, s: Sys, pc: Word, pc': Word)
    requires TellsTraps(u)
    ensures u.enter(s, pc) == u.enter(s, pc') <==> pc == pc'
    ensures u.enter(s, pc) != u.leave(s)
  {
  }

  /** The precise machine after a run, and the trap it took in the last cycle; it commits, and would trap,
      when the pipeline does. */
  function PreciseRun<Sys>(u: Units<Sys>, sys: Sys, irqs: seq<bool>): (Arch<Sys>, TrapTaken) {
    if irqs == [] then (Arch(RESET_PC, seq(32, i => 0), sys), NoneTaken)
    else
      var before, irq := irqs[..|irqs| - 1], irqs[|irqs| - 1];
      var p := Run(u, sys, before);
      PreciseCycle(u, PreciseRun(u, sys, before).0, ValidAfter(u, sys, before).m,
                   u.interrupt(p.sys, irq), Returning(u, p), irq)
  }

  /** Every trap taken in the run is clean. */
  ghost predicate CleanRun<Sys>(u: Units<Sys>, sys: Sys, irqs: seq<bool>) {
    irqs != [] ==>
      var before, irq := irqs[..|irqs| - 1], irqs[|irqs| - 1];
      && CleanRun(u, sys, before)
      && CleanTrap(u, Run(u, sys, before), Body(u, ArchRun(u, sys, before), ValidAfter(u, sys, before).m, irq), irq)
  }

  /** The trap the pipeline takes in the last cycle of a run. */
  function LastTaken<Sys>(u: Units<Sys>, sys: Sys, irqs: seq<bool>): TrapTaken {
    if irqs == [] then NoneTaken else Taken(u, Run(u, sys, irqs[..|irqs| - 1]), irqs[|irqs| - 1])
  }

  /** The run is the precise machine's after every cycle, and takes the same traps. */
  ghost predicate PreciseThroughout<Sys>(u: Units<Sys>, sys: Sys, irqs: seq<bool>) {
    && (ArchRun(u, sys, irqs), LastTaken(u, sys, irqs)) == PreciseRun(u, sys, irqs)
    && (irqs != [] ==> PreciseThroughout(u, sys, irqs[..|irqs| - 1]))
  }

  /** Precise interrupts: the pipeline is the precise machine in every cycle if and only if every trap of
      the run is clean. */
  lemma {:induction false} TrapsArePrecise<Sys(!new)>(u: Units<Sys>, sys: Sys, irqs: seq<bool>)
    requires WellFormed(u) && Advances(u) && TellsTraps(u)
    ensures PreciseThroughout(u, sys, irqs) <==> CleanRun(u, sys, irqs)
    ensures CleanRun(u, sys, irqs) ==> Sim(u, Run(u, sys, irqs), ValidAfter(u, sys, irqs), PreciseRun(u, sys, irqs).0)
  {
    Refines(u, sys, irqs);
    if irqs != [] {
      var before, irq := irqs[..|irqs| - 1], irqs[|irqs| - 1];
      TrapsArePrecise(u, sys, before);
      Refines(u, sys, before);
      CycleIsPrecise(u, Run(u, sys, before), ValidAfter(u, sys, before), ArchRun(u, sys, before), irq);
      hide WellFormed, Advances, Sim, CleanTrap, Cycle, PreciseCycle, Taken;
    }
  }

  // ---------- Cycle accounting ----------

  datatype Tally = Tally(commits: nat, stalls: nat, redirects: nat, trapped: nat)

  function Bit(b: bool): nat {
    if b then 1 else 0
  }

  function InFlight(v: Valid): nat {
    Bit(v.d) + Bit(v.e) + Bit(v.m)
  }

  /** Cycles that commit, stall or redirect, and the slots thrown away by traps. */
  function Count<Sys>(u: Units<Sys>, sys: Sys, irqs: seq<bool>): Tally {
    if irqs == [] then Tally(0, 0, 0, 0)
    else
      var before, irq := irqs[..|irqs| - 1], irqs[|irqs| - 1];
      var p, v, t := Run(u, sys, before), ValidAfter(u, sys, before), Count(u, sys, before);
      var trap := Trap(u, p, irq);
      Tally(t.commits + Bit(v.m),
            t.stalls + Bit(!trap && Stall(u, p)),
            t.redirects + Bit(!trap && Redirect(u, p)),
            t.trapped + if trap then 1 + Bit(v.d) + Bit(v.e) else 0)
  }

  lemma SlotsPerCycle<Sys(!new)>(u: Units<Sys>, p: Pipe<Sys>, v: Valid, a: Arch<Sys>, irq: bool)
    requires WellFormed(u) && Sim(u, p, v, a)
    ensures var trap := Trap(u, p, irq);
            Bit(v.m) + InFlight(NextValid(u, p, v, irq)) + Bit(!trap && Stall(u, p)) + 2 * Bit(!trap && Redirect(u, p))
            + (if trap then 1 + Bit(v.d) + Bit(v.e) else 0) == InFlight(v) + 1
    ensures Stall(u, p) || Redirect(u, p) ==> v.e
  {
    StallExcludesRedirect(u, p, v, a);
    if !v.e {
      BubbleInE(u, p, v, a);
    }
  }

  /** Every cycle is accounted for: lost cycles are one per load-use stall and two per taken
      transfer, plus what traps throw away; and no program can hold the pipeline up for more than
      two cycles per instruction. */
  lemma {:induction false} EveryCycleIsAccountedFor<Sys(!new)>(u: Units<Sys>, sys: Sys, irqs: seq<bool>)
    requires WellFormed(u)
    ensures var t, v := Count(u, sys, irqs), ValidAfter(u, sys, irqs);
            && |irqs| == t.commits + InFlight(v) + t.stalls + 2 * t.redirects + t.trapped
            && t.stalls + t.redirects <= t.commits + Bit(v.m)
            && |irqs| <= 3 * t.commits + 5 + t.trapped
  {
    if irqs != [] {
      var before, irq := irqs[..|irqs| - 1], irqs[|irqs| - 1];
      EveryCycleIsAccountedFor(u, sys, before);
      Refines(u, sys, before);
      var p, v, a := Run(u, sys, before), ValidAfter(u, sys, before), ArchRun(u, sys, before);
      SlotsPerCycle(u, p, v, a, irq);
      StallExcludesRedirect(u, p, v, a);
    }
  }
}
