/** What is true of the real units: the pipeline theorems apply to them, and a program that leaves the
    CSRs alone runs as the instruction set says. */
module CoreProofs {
  import opened Pipeline
  import opened PipelineProofs
  import opened IsaProofs
  import opened Core

  // ---------- The pipeline theorems apply to the core ----------

  lemma VectorFields(t: bv30)
    ensures VectorField(VectorWord(t)) == t
  {
  }

  lemma EnableFields(c: Clint, irq: bool, addr: Word)
    requires addr == MSTATUS || addr == MIE
    ensures WriteClint(c, addr, ReadClint(c, irq, addr)) == c
  {
  }

  lemma UnmodifiedClint(c: Clint, irq: bool, addr: Word)
    requires InClint(addr)
    ensures WriteClint(c, addr, ReadClint(c, irq, addr)) == c
  {
    if addr == MSTATUS || addr == MIE {
      EnableFields(c, irq, addr);
    } else if addr == MTVEC {
      VectorFields(c.tvbase);
    }
  }

  lemma UnmodifiedWrite(x: Unknown, csr: Csr, irq: bool, addr: Word)
    ensures WriteClint(csr.clint, addr, ReadCsr(x, csr, irq, addr)) == csr.clint
  {
    if InClint(addr) {
      UnmodifiedClint(csr.clint, irq, addr);
    }
  }

  /** Write control 00 leaves the CSR file alone although the CLINT's write enable ignores it. */
  lemma QuietCommit<Bus>(x: Unknown, bus: BusModel<Bus>, s: System<Bus>, irq: bool, m: BankM)
    requires m.ctl.csrWriteControl == 0 && !m.ctl.retire && !m.ctl.memWrite
    ensures Commit(x, bus, s, irq, m) == Tick(bus, s)
  {
    UnmodifiedWrite(x, s.csr, irq, m.imm >> 20);
  }

  lemma ZeroWord(x: Unknown)
    ensures var d := Decode(x, 0);
            && d.rd == 0 && !d.ctl.resultSrc && !d.ctl.retire && !d.ctl.memWrite && d.ctl.csrWriteControl == 0
            && !d.ctl.jump && !d.ctl.branch && !d.ctl.privileged
  {
  }

  lemma BubblesAreHarmless<Bus(!new)>(program: Word -> Word, bus: BusModel<Bus>, x: Unknown, ctl: Controls, imm: Word)
    requires !ctl.resultSrc && !ctl.retire && !ctl.memWrite && ctl.csrWriteControl == 0
    requires !ctl.jump && !ctl.branch && !ctl.privileged
    ensures HarmlessBubble(CoreUnits(program, bus, x), ctl, imm)
  {
    var u := CoreUnits(program, bus, x);
    forall s, irq, m: BankM | m.ctl == ctl && m.imm == imm
      ensures u.commit(s, irq, m) == u.tick(s)
    {
      QuietCommit(x, bus, s, irq, m);
    }
  }

  lemma CoreIsWellFormed<Bus(!new)>(program: Word -> Word, bus: BusModel<Bus>, x: Unknown)
    ensures WellFormed(CoreUnits(program, bus, x)) && Advances(CoreUnits(program, bus, x))
  {
    var u := CoreUnits(program, bus, x);
    ZeroWord(x);
    BubblesAreHarmless(program, bus, x, NO_CONTROLS, 0);
    BubblesAreHarmless(program, bus, x, u.decode(0).ctl, u.decode(0).imm);
  }

  // ---------- The core runs the program ----------

  function CoreView<Bus>(bus: BusModel<Bus>, x: Unknown): View<System<Bus>, Bus, bv64> {
    View((s: System<Bus>) => s.bus,
         (b, m) => LoadData(x, bus, b, m),
         (b, m) => ClockBus(bus, b, m),
         (s: System<Bus>) => s.csr.minstret,
         n => Incremented(n))
  }

  /** No CSR instruction, and no other instruction whose fields happen to select the retire counter. */
  ghost predicate LeavesCsrsAlone(x: Unknown, i: Word) {
    && Opcode(i) != SYSTEM
    && (CsrWriteControl(Funct3(i)) != 0 ==> Extend(x, i) >> 20 != MINSTRET && Extend(x, i) >> 20 != MINSTRETH)
  }

  lemma OrdinaryControls(x: Unknown, i: Word)
    requires Opcode(i) != SYSTEM
    ensures var ctl := ControlUnit(x, i);
            !ctl.privileged && !ctl.readDataSrc && ctl.csrWriteControl == CsrWriteControl(Funct3(i))
  {
  }

  lemma CounterUnwritten(n: bv64, addr: Word, control: bv2, r: Word, retire: bool)
    requires control != 0 ==> addr != MINSTRET && addr != MINSTRETH
    ensures RetireCounter(n, addr, control, r, retire) == if retire then Incremented(n) else n
  {
  }

  lemma OrdinaryClock(x: Unknown, csr: Csr, irq: bool, m: BankM)
    requires m.ctl.csrWriteControl != 0 ==> m.imm >> 20 != MINSTRET && m.imm >> 20 != MINSTRETH
    ensures ClockCsr(x, csr, irq, m).minstret == if m.ctl.retire then Incremented(csr.minstret) else csr.minstret
  {
    CounterUnwritten(csr.minstret, m.imm >> 20, m.ctl.csrWriteControl, CsrValue(x, csr, irq, m), m.ctl.retire);
  }

  lemma OrdinaryInstructionIsPlain<Bus(!new)>(program: Word -> Word, bus: BusModel<Bus>, x: Unknown, i: Word)
    requires LeavesCsrsAlone(x, i)
    ensures Plain(CoreUnits(program, bus, x), CoreView(bus, x), Decode(x, i))
  {
    var u, w, dec := CoreUnits(program, bus, x), CoreView(bus, x), Decode(x, i);
    OrdinaryControls(x, i);
    forall s, irq, m: BankM | m.ctl == dec.ctl && m.imm == dec.imm
      ensures u.read(s, irq, m) == w.load(w.bus(s), m)
      ensures w.bus(u.commit(s, irq, m)) == w.store(w.bus(s), m)
      ensures w.retired(u.commit(s, irq, m)) == CountIf(w, w.retired(s), m.ctl.retire)
    {
      OrdinaryClock(x, s.csr, irq, m);
    }
  }

  /** The main theorem for the core.  With the timer line low and no CSR traffic, after any number
      of cycles the register file (with the pending write-back) and the memory are those of the
      sequential program after exactly as many instructions as have committed, the next instruction
      to commit is the next one of the program, and minstret has counted each retiring one once. */
  lemma CoreRunsTheProgram<Bus(!new)>(
      program: Word -> Word, bus: BusModel<Bus>, x: Unknown, start: Bus, irqs: seq<bool>)
    requires forall pc :: LeavesCsrsAlone(x, program(pc))
    requires forall b :: bus.idle(b) == b
    requires forall n :: 0 <= n < |irqs| ==> !irqs[n]
    ensures RunsTheProgram(CoreUnits(program, bus, x), CoreView(bus, x), System(start, RESET_CSR), irqs)
  {
    var u, w := CoreUnits(program, bus, x), CoreView(bus, x);
    CoreIsWellFormed(program, bus, x);
    forall pc ensures Plain(u, w, u.decode(u.fetch(pc))) {
      OrdinaryInstructionIsPlain(program, bus, x, program(pc));
    }
    PlainProgramsRun(u, w, System(start, RESET_CSR), irqs);
  }

  // ---------- Traps in the core ----------

  /** The CLINT update of a trapping cycle: an interrupt turns interrupts off and saves where to
      resume, and a later return finds that address; but an interrupt that coincides with a return
      leaves interrupts on and saves nothing. */
  lemma TrapUpdate<Bus(!new)>(program: Word -> Word, bus: BusModel<Bus>, x: Unknown, p: Pipe<System<Bus>>, irq: bool)
    requires Trap(CoreUnits(program, bus, x), p, irq)
    ensures var u := CoreUnits(program, bus, x);
            var c, m := NextSys(u, p, irq).csr.clint, Commit(x, bus, p.sys, irq, p.m).csr.clint;
            && (!Returning(u, p) ==> !c.mie && c.mcause == 0x8000_0007
                                     && u.savedPC(NextSys(u, p, irq)) == SavePC(u, p))
            && (Returning(u, p) ==> c.mie && c.mepc == m.mepc && c.mcause == m.mcause)
            && (c.mie <==> Returning(u, p))
  {
  }

  lemma MepcAfter(c: Clint, addr: Word, r: Word)
    ensures WriteClint(c, addr, r).mepc == if addr == MEPC then r else c.mepc
  {
  }

  lemma TvbaseAfter(c: Clint, addr: Word, r: Word)
    ensures WriteClint(c, addr, r).tvbase == if addr == MTVEC then VectorField(r) else c.tvbase
  {
  }

  lemma LuiFields(x: Unknown, i: Word)
    requires Opcode(i) == LUI && Funct3(i) == 1
    ensures Extend(x, i) == i & 0xFFFF_F000
    ensures var ctl := ControlUnit(x, i);
            ctl.csrWriteControl == 1 && !ctl.csrWriteDataSrc && ctl.aluResultSrc == 1 && ctl.aluSrcB
  {
  }

  lemma PassesImmediate(x: Unknown, ctl: Controls, imm: Word, pc: Word, a: Word, b: Word)
    requires ctl.aluResultSrc == 1 && ctl.aluSrcB
    ensures Execute(x, ctl, imm, pc, a, b).aluResult == imm
  {
  }

  lemma SwapsIntoMepc(x: Unknown, csr: Csr, irq: bool, m: BankM)
    requires m.imm >> 20 == MEPC && m.ctl.csrWriteControl == 1 && !m.ctl.csrWriteDataSrc
    ensures ClockCsr(x, csr, irq, m).clint.mepc == m.aluResult
  {
    MepcAfter(csr.clint, m.imm >> 20, CsrValue(x, csr, irq, m));
  }

  /** CSR writes are not gated by the opcode: a LUI whose immediate spells the address of mepc and
      whose bits 14:12 spell csrrw overwrites mepc with its immediate. */
  lemma LuiOverwritesMepc<Bus(!new)>(program: Word -> Word, bus: BusModel<Bus>, x: Unknown,
                                     pc: Word, regs: RegFile, csr: Csr, irq: bool)
    requires Opcode(program(pc)) == LUI && Funct3(program(pc)) == 1 && Extend(x, program(pc)) >> 20 == MEPC
    ensures var m := IssueAt(CoreUnits(program, bus, x), pc, regs);
            ClockCsr(x, csr, irq, m).clint.mepc == program(pc) & 0xFFFF_F000
  {
    var u, i := CoreUnits(program, bus, x), program(pc);
    var m, dec := IssueAt(u, pc, regs), Decode(x, i);
    LuiFields(x, i);
    PassesImmediate(x, dec.ctl, dec.imm, pc, ReadReg(regs, dec.rs1), ReadReg(regs, dec.rs2));
    SwapsIntoMepc(x, csr, irq, m);
  }
}
