/** From the clocked sequential machine to the program's own view of it: no cycles, no pipeline, no
    CSRs, just one instruction after another on registers and memory. */
module IsaProofs {
  import opened Pipeline
  import opened PipelineProofs

  /** The part of the system state that programs without CSR instructions see, and how one
      instruction reads and writes it.  `retired` is the retired-instruction counter. */
  datatype View<!Sys, !Bus, !Counter> = View(
    bus: Sys -> Bus,
    load: (Bus, BankM) -> Word,
    store: (Bus, BankM) -> Bus,
    retired: Sys -> Counter,
    next: Counter -> Counter)

  datatype Isa<Bus> = Isa(pc: Word, regs: RegFile, bus: Bus)

  function IsaStep<Sys, Bus, Counter>(u: Units<Sys>, w: View<Sys, Bus, Counter>, s: Isa<Bus>): Isa<Bus> {
    var m := IssueAt(u, s.pc, s.regs);
    Isa(Successor(u, s.pc, s.regs),
        WriteBack(s.regs, BankW(m.ctl.regWrite, m.ctl.resultSrc, LoadPCResult(m), w.load(s.bus, m), m.rd)),
        w.store(s.bus, m))
  }

  function IsaRun<Sys, Bus, Counter>(u: Units<Sys>, w: View<Sys, Bus, Counter>, start: Sys, n: nat): Isa<Bus> {
    if n == 0 then Isa(RESET_PC, seq(32, i => 0), w.bus(start))
    else IsaStep(u, w, IsaRun(u, w, start, n - 1))
  }

  function CountIf<Sys, Bus, Counter>(w: View<Sys, Bus, Counter>, c: Counter, retires: bool): Counter {
    if retires then w.next(c) else c
  }

  /** The counter after the first n instructions of the program, each retiring one counted once. */
  function RetiredIn<Sys, Bus, Counter>(u: Units<Sys>, w: View<Sys, Bus, Counter>, start: Sys, n: nat): Counter {
    if n == 0 then w.retired(start)
    else CountIf(w, RetiredIn(u, w, start, n - 1), u.decode(u.fetch(IsaRun(u, w, start, n - 1).pc)).ctl.retire)
  }

  /** An instruction whose effect on the system state is its store and its count. */
  ghost predicate Plain<Sys(!new), Bus, Counter>(u: Units<Sys>, w: View<Sys, Bus, Counter>, dec: Decoded) {
    && !u.isReturn(dec.ctl, dec.imm)
    && forall s, irq, m: BankM :: m.ctl == dec.ctl && m.imm == dec.imm ==>
         && u.read(s, irq, m) == w.load(w.bus(s), m)
         && w.bus(u.commit(s, irq, m)) == w.store(w.bus(s), m)
         && w.retired(u.commit(s, irq, m)) == CountIf(w, w.retired(s), m.ctl.retire)
  }

  ghost predicate PlainProgram<Sys(!new), Bus, Counter>(u: Units<Sys>, w: View<Sys, Bus, Counter>) {
    && (forall pc :: Plain(u, w, u.decode(u.fetch(pc))))
    && (forall s :: !u.interrupt(s, false))
    && (forall s :: w.bus(u.tick(s)) == w.bus(s) && w.retired(u.tick(s)) == w.retired(s))
  }

  lemma NeverTraps<Sys(!new), Bus, Counter>(u: Units<Sys>, w: View<Sys, Bus, Counter>, p: Pipe<Sys>, v: Valid, a: Arch<Sys>)
    requires WellFormed(u) && PlainProgram(u, w) && Sim(u, p, v, a)
    ensures !Trap(u, p, false)
  {
    if !v.e {
      BubbleInE(u, p, v, a);
    } else {
      assert Plain(u, w, u.decode(u.fetch(BehindM(u, v, a))));
    }
  }

  lemma InstructionIsIsaStep<Sys(!new), Bus, Counter>(u: Units<Sys>, w: View<Sys, Bus, Counter>, a: Arch<Sys>, irq: bool)
    requires PlainProgram(u, w)
    ensures var after := Instruction(u, a, irq);
            && IsaStep(u, w, Isa(a.pc, a.regs, w.bus(a.sys))) == Isa(after.pc, after.regs, w.bus(after.sys))
            && w.retired(after.sys) == CountIf(w, w.retired(a.sys), u.decode(u.fetch(a.pc)).ctl.retire)
  {
    assert Plain(u, w, u.decode(u.fetch(a.pc)));
  }

  /** The sequential machine `a` is the program `s` after n instructions. */
  ghost predicate IsProgramAfter<Sys, Bus, Counter>(u: Units<Sys>, w: View<Sys, Bus, Counter>, start: Sys, a: Arch<Sys>, n: nat) {
    && Isa(a.pc, a.regs, w.bus(a.sys)) == IsaRun(u, w, start, n)
    && w.retired(a.sys) == RetiredIn(u, w, start, n)
  }

  lemma CycleOfPlainProgram<Sys(!new), Bus, Counter>(
      u: Units<Sys>, w: View<Sys, Bus, Counter>, start: Sys, p: Pipe<Sys>, v: Valid, a: Arch<Sys>, n: nat)
    requires WellFormed(u) && PlainProgram(u, w) && Sim(u, p, v, a) && IsProgramAfter(u, w, start, a, n)
    ensures IsProgramAfter(u, w, start, Cycle(u, a, ActOf(u, p, v, false), false), n + Bit(v.m))
  {
    hide WellFormed, Sim, IssueAt, Successor, Instruction;
    NeverTraps(u, w, p, v, a);
    if v.m {
      InstructionIsIsaStep(u, w, a, false);
    }
  }

  /** With the timer line low, the pipeline has, at every cycle, the registers and memory of the
      sequential program after exactly as many instructions as have committed. */
  ghost predicate RunsTheProgram<Sys, Bus, Counter>(u: Units<Sys>, w: View<Sys, Bus, Counter>, start: Sys, irqs: seq<bool>) {
    var p, v, a := Run(u, start, irqs), ValidAfter(u, start, irqs), ArchRun(u, start, irqs);
    var n := Count(u, start, irqs).commits;
    var s := IsaRun(u, w, start, n);
    && SameRegs(WriteBack(p.regs, p.w), s.regs)
    && w.bus(p.sys) == s.bus
    && w.retired(p.sys) == RetiredIn(u, w, start, n)
    && a.pc == s.pc && InOrder(u, p, v, a)
  }

  lemma {:induction false} ArchRunsTheProgram<Sys(!new), Bus, Counter>(
      u: Units<Sys>, w: View<Sys, Bus, Counter>, start: Sys, irqs: seq<bool>)
    requires WellFormed(u) && PlainProgram(u, w)
    requires forall n :: 0 <= n < |irqs| ==> !irqs[n]
    ensures IsProgramAfter(u, w, start, ArchRun(u, start, irqs), Count(u, start, irqs).commits)
  {
    if irqs != [] {
      hide WellFormed, PlainProgram, Sim, IsProgramAfter, Cycle, ActOf, Trap, Stall, Redirect, NextValid, Step;
      var before, irq := irqs[..|irqs| - 1], irqs[|irqs| - 1];
      var p, v, a := Run(u, start, before), ValidAfter(u, start, before), ArchRun(u, start, before);
      ArchRunsTheProgram(u, w, start, before);
      Refines(u, start, before);
      CycleOfPlainProgram(u, w, start, p, v, a, Count(u, start, before).commits);
      assert !irq && ArchRun(u, start, irqs) == Cycle(u, a, ActOf(u, p, v, irq), irq);
      assert Count(u, start, irqs).commits == Count(u, start, before).commits + Bit(v.m);
    }
  }

  lemma PlainProgramsRun<Sys(!new), Bus, Counter>(u: Units<Sys>, w: View<Sys, Bus, Counter>, start: Sys, irqs: seq<bool>)
    requires WellFormed(u) && PlainProgram(u, w)
    requires forall n :: 0 <= n < |irqs| ==> !irqs[n]
    ensures RunsTheProgram(u, w, start, irqs)
  {
    hide WellFormed, PlainProgram, InOrder, Run, ArchRun, ValidAfter, Count;
    ArchRunsTheProgram(u, w, start, irqs);
    Refines(u, start, irqs);
  }
}
