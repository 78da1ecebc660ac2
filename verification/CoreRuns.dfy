/** Runs of the core from reset that take an interrupt in the seventh cycle: a program enables the timer
    interrupt, and one instruction of choice is in E when it comes. */
module CoreRuns {
  import opened Pipeline
  import opened PipelineProofs
  import opened Core
  import opened CoreProofs
  import opened CoreTraps

  const ADDI: Word := 0x0880_0093          // addi x1, x0, 0x88
  const SET_MIE: Word := 0x3040_A2F3       // csrrs x5, mie, x1
  const SET_MSTATUS: Word := 0x3000_A2F3   // csrrs x5, mstatus, x1
  const NOP: Word := 0x0000_0013
  const FENCE: Word := 0x0FF0_000F
  const MRET: Word := 0x3020_0073
  const DISABLE: Word := 0x3004_7573       // csrrci x10, mstatus, 8

  function Enabling(i: Word): Word -> Word {
    pc => if pc == 0x1_0000 then ADDI else if pc == 0x1_0004 then SET_MIE else if pc == 0x1_0008 then SET_MSTATUS
          else if pc == 0x1_0010 then i else NOP
  }

  // ---------- What the instructions decode to ----------

  /** Neither jumps, branches, returns, loads nor stores. */
  predicate Straight(ctl: Controls) {
    !ctl.jump && !ctl.branch && !ctl.privileged && !ctl.memWrite
  }

  predicate IsAddi(d: Decoded) {
    && Straight(d.ctl) && d.rs1 == 0 && d.rs2 == 8 && d.rd == 1 && d.imm == 0x88
    && d.ctl.regWrite && !d.ctl.resultSrc && d.ctl.loadPC == 0 && d.ctl.csrWriteControl == 0
    && d.ctl.aluResultSrc == 0 && d.ctl.aluControl == 0 && d.ctl.aluSrcB
  }

  /** csrrs of x1 to a register of the CLINT. */
  predicate IsSet(d: Decoded, imm: Word) {
    && Straight(d.ctl) && d.rs1 == 1 && d.rd == 5 && d.imm == imm && d.rs2 != 5
    && d.ctl.resultSrc && d.ctl.csrWriteControl == 2 && !d.ctl.csrWriteDataSrc && d.ctl.aluResultSrc == 3
  }

  predicate IsNop(d: Decoded) {
    Straight(d.ctl) && d.rs1 == 0 && d.rs2 == 0 && d.rd == 0 && !d.ctl.resultSrc && d.ctl.csrWriteControl == 0 && d.ctl.retire
  }

  lemma Addi(x: Unknown)
    ensures IsAddi(Decode(x, ADDI)) && Retires(ADDI)
  {
  }

  lemma Sets(x: Unknown)
    ensures IsSet(Decode(x, SET_MIE), 0x3040_A280) && IsSet(Decode(x, SET_MSTATUS), 0x3000_A280)
    ensures Retires(SET_MIE) && Retires(SET_MSTATUS) && Decode(x, SET_MSTATUS).rs2 == 0
  {
  }

  lemma Nop(x: Unknown)
    ensures IsNop(Decode(x, NOP)) && Retires(NOP)
  {
  }

  lemma Zero(x: Unknown)
    ensures Straight(Decode(x, 0).ctl) && Decode(x, 0).rd == 0 && !Decode(x, 0).ctl.resultSrc && Decode(x, 0).ctl.csrWriteControl == 0
  {
  }

  // ---------- One cycle without hazards ----------

  ghost predicate NoHazard(x: Unknown, p: Pipe) {
    var dec := Decode(x, p.d.instr);
    Straight(p.e.ctl) && (p.e.ctl.resultSrc ==> dec.rs1 != p.e.rd && dec.rs2 != p.e.rd)
  }

  lemma Flows<Bus(!new)>(program: Word -> Word, bus: BusModel<Bus>, x: Unknown, p: Pipe<System<Bus>>, v: Valid)
    requires NoHazard(x, p)
    ensures var u := CoreUnits(program, bus, x);
            && !Trap(u, p, false) && !Redirect(u, p) && !Stall(u, p)
            && NextValid(u, p, v, false) == Valid(true, v.d, v.e)
  {
    hide Decode, AluFlags, AluResult, Compare;
  }

  lemma Front<Bus(!new)>(program: Word -> Word, bus: BusModel<Bus>, x: Unknown, p: Pipe<System<Bus>>)
    requires NoHazard(x, p)
    ensures var u := CoreUnits(program, bus, x);
            var r, dec := Step(u, p, false), Decode(x, p.d.instr);
            && r.pcF == PlusFour(p.pcF) && r.d == BankD(program(p.pcF), p.pcF, PlusFour(p.pcF))
            && r.e.ctl == dec.ctl && r.e.imm == dec.imm && r.e.rs1 == dec.rs1 && r.e.rd == dec.rd && r.e.pc == p.d.pc
            && r.e.rd1 == ReadReg(WriteBack(p.regs, p.w), dec.rs1)
  {
    Flows(program, bus, x, p, NONE_VALID);
    hide Decode, Execute, Stall, Redirect, Trap, Commit, ReadData, PlusFour;
  }

  lemma Back<Bus(!new)>(program: Word -> Word, bus: BusModel<Bus>, x: Unknown, p: Pipe<System<Bus>>)
    requires NoHazard(x, p)
    ensures var u := CoreUnits(program, bus, x);
            var r := Step(u, p, false);
            && r.m.ctl == p.e.ctl && r.m.imm == p.e.imm && r.m.rd == p.e.rd && r.m.aluResult == ExecuteE(u, p).aluResult
            && r.w.regWrite == p.m.ctl.regWrite && r.w.resultSrc == p.m.ctl.resultSrc && r.w.rd == p.m.rd
            && r.w.loadPCResult == LoadPCResult(p.m) && r.sys == Commit(x, bus, p.sys, false, p.m)
  {
    Flows(program, bus, x, p, NONE_VALID);
    hide Decode, Execute, Stall, Redirect, Trap, Commit, ReadData, PlusFour;
  }

  /** addi with x0 computes its immediate. */
  lemma AddsToZero(x: Unknown, ctl: Controls, pc: Word, rd2: Word)
    requires ctl.aluResultSrc == 0 && ctl.aluControl == 0 && ctl.aluSrcB
    ensures Execute(x, ctl, 0x88, pc, 0, rd2).aluResult == 0x88
  {
    hide Compare, AluFlags;
  }

  lemma PassesOperand(x: Unknown, ctl: Controls, imm: Word, pc: Word, a: Word, b: Word)
    requires ctl.aluResultSrc == 3
    ensures Execute(x, ctl, imm, pc, a, b).aluResult == a
  {
    hide Compare, AluFlags, AluResult;
  }

  // ---------- What the writes do to the CLINT ----------

  lemma NoWrite<Bus>(x: Unknown, bus: BusModel<Bus>, s: System<Bus>, m: BankM)
    requires m.ctl.csrWriteControl == 0
    ensures Commit(x, bus, s, false, m).csr.clint == s.csr.clint
  {
    UnmodifiedWrite(x, s.csr, false, m.imm >> 20);
    hide WriteClint, ReadCsr, CycleCounter, RetireCounter;
  }

  lemma SetResult(x: Unknown, csr: Csr, m: BankM)
    requires m.ctl.csrWriteControl == 2 && !m.ctl.csrWriteDataSrc
    ensures CsrValue(x, csr, false, m) == WithBits(ReadCsr(x, csr, false, CsrAddress(m.imm)), m.aluResult)
  {
    ValueIs(x, csr, m);
    SetsBits(ReadCsr(x, csr, false, CsrAddress(m.imm)), m.aluResult);
    hide ReadCsr, CsrValue, CsrAddress, CsrResult, WithBits;
  }

  function WithBits(old_: Word, data: Word): Word { old_ | data }

  lemma SetsBits(old_: Word, data: Word)
    ensures CsrResult(2, old_, data) == WithBits(old_, data)
  {
  }

  lemma ValueIs(x: Unknown, csr: Csr, m: BankM)
    requires !m.ctl.csrWriteDataSrc
    ensures CsrValue(x, csr, false, m)
         == CsrResult(m.ctl.csrWriteControl, ReadCsr(x, csr, false, CsrAddress(m.imm)), m.aluResult)
  {
    hide ReadCsr, CsrResult;
  }

  lemma EnablesTimer(c: Clint)
    ensures WriteClint(c, MIE, WithBits(ReadClint(c, false, MIE), 0x88)) == c.(mtie := true)
    ensures WriteClint(c, MSTATUS, WithBits(ReadClint(c, false, MSTATUS), 0x88)) == c.(mie := true)
  {
  }

  lemma Addresses()
    ensures CsrAddress(0x3040_A280) == MIE && CsrAddress(0x3000_A280) == MSTATUS
  {
  }

  lemma SetWrites<Bus>(x: Unknown, bus: BusModel<Bus>, s: System<Bus>, m: BankM)
    requires m.ctl.csrWriteControl == 2 && !m.ctl.csrWriteDataSrc && m.aluResult == 0x88
    requires m.imm == 0x3040_A280 || m.imm == 0x3000_A280
    ensures Commit(x, bus, s, false, m).csr.clint
         == if m.imm == 0x3040_A280 then s.csr.clint.(mtie := true) else s.csr.clint.(mie := true)
  {
    SetResult(x, s.csr, m);
    EnablesTimer(s.csr.clint);
    Addresses();
    ClockFields(x, s.csr, false, m);
    hide ClockCsr, WriteClint, ReadClint, CsrValue, CycleCounter, RetireCounter, CsrAddress, WithBits;
  }

  // ---------- Six cycles from reset ----------

  const OFF := RESET_CSR.clint

  lemma Addressing(i: Word)
    ensures PlusFour(0x1_0000) == 0x1_0004 && PlusFour(0x1_0004) == 0x1_0008 && PlusFour(0x1_0008) == 0x1_000C
    ensures PlusFour(0x1_000C) == 0x1_0010 && PlusFour(0x1_0010) == 0x1_0014 && PlusFour(0x1_0014) == 0x1_0018
    ensures Enabling(i)(0x1_0000) == ADDI && Enabling(i)(0x1_0004) == SET_MIE && Enabling(i)(0x1_0008) == SET_MSTATUS
    ensures Enabling(i)(0x1_000C) == NOP && Enabling(i)(0x1_0010) == i && Enabling(i)(0x1_0014) == NOP
  {
  }

  ghost predicate After1<Bus>(x: Unknown, p: Pipe<System<Bus>>) {
    && p.pcF == 0x1_0004 && p.d == BankD(ADDI, 0x1_0000, 0x1_0004) && p.e.ctl == Decode(x, 0).ctl
    && p.m.ctl == NO_CONTROLS && p.sys.csr.clint == OFF
  }

  ghost predicate After2<Bus>(x: Unknown, p: Pipe<System<Bus>>) {
    && p.pcF == 0x1_0008 && p.d == BankD(SET_MIE, 0x1_0004, 0x1_0008)
    && p.e.ctl == Decode(x, ADDI).ctl && p.e.rs1 == 0 && p.e.rd1 == 0 && p.e.imm == 0x88 && p.e.rd == 1
    && p.m.ctl == Decode(x, 0).ctl && p.sys.csr.clint == OFF
  }

  ghost predicate After3<Bus>(x: Unknown, p: Pipe<System<Bus>>) {
    && p.pcF == 0x1_000C && p.d == BankD(SET_MSTATUS, 0x1_0008, 0x1_000C)
    && p.e.ctl == Decode(x, SET_MIE).ctl && p.e.rs1 == 1 && p.e.imm == 0x3040_A280 && p.e.rd == 5
    && p.m.ctl == Decode(x, ADDI).ctl && p.m.rd == 1 && p.m.aluResult == 0x88 && p.sys.csr.clint == OFF
  }

  ghost predicate After4<Bus>(x: Unknown, p: Pipe<System<Bus>>) {
    && p.pcF == 0x1_0010 && p.d == BankD(NOP, 0x1_000C, 0x1_0010)
    && p.e.ctl == Decode(x, SET_MSTATUS).ctl && p.e.rs1 == 1 && p.e.imm == 0x3000_A280 && p.e.rd == 5
    && p.m.ctl == Decode(x, SET_MIE).ctl && p.m.imm == 0x3040_A280 && p.m.rd == 5 && p.m.aluResult == 0x88
    && p.w.regWrite && !p.w.resultSrc && p.w.rd == 1 && p.w.loadPCResult == 0x88 && p.sys.csr.clint == OFF
  }

  ghost predicate After5<Bus>(x: Unknown, i: Word, p: Pipe<System<Bus>>) {
    && p.pcF == 0x1_0014 && p.d == BankD(i, 0x1_0010, 0x1_0014)
    && p.e.ctl == Decode(x, NOP).ctl && p.e.imm == Decode(x, NOP).imm
    && p.m.ctl == Decode(x, SET_MSTATUS).ctl && p.m.imm == 0x3000_A280 && p.m.aluResult == 0x88
    && p.sys.csr.clint == OFF.(mtie := true)
  }

  /** The timer interrupt is on, and the instruction of choice is in E. */
  ghost predicate After6<Bus>(x: Unknown, i: Word, p: Pipe<System<Bus>>) {
    && p.pcF == 0x1_0018 && p.d == BankD(NOP, 0x1_0014, 0x1_0018)
    && p.e.ctl == Decode(x, i).ctl && p.e.imm == Decode(x, i).imm && p.e.rd == Decode(x, i).rd && p.e.pc == 0x1_0010
    && p.m.ctl.csrWriteControl == 0 && p.sys.csr.clint == OFF.(mtie := true, mie := true)
  }

  lemma First<Bus(!new)>(bus: BusModel<Bus>, x: Unknown, i: Word, start: Bus)
    ensures var u, p := CoreUnits(Enabling(i), bus, x), Reset(System(start, RESET_CSR));
            After1(x, Step(u, p, false)) && NextValid(u, p, NONE_VALID, false) == Valid(true, false, false)
  {
    var p := Reset(System(start, RESET_CSR));
    Flows(Enabling(i), bus, x, p, NONE_VALID);
    Front(Enabling(i), bus, x, p);
    Back(Enabling(i), bus, x, p);
    Addressing(i);
    NoWrite(x, bus, p.sys, p.m);
    hide Decode, Step, CoreUnits, Commit, Enabling, PlusFour, NextValid;
  }

  lemma Second<Bus(!new)>(bus: BusModel<Bus>, x: Unknown, i: Word, p: Pipe<System<Bus>>, v: Valid)
    requires After1(x, p)
    ensures var u := CoreUnits(Enabling(i), bus, x);
            After2(x, Step(u, p, false)) && NextValid(u, p, v, false) == Valid(true, v.d, v.e)
  {
    Zero(x);
    Addi(x);
    hide Decode;
    Flows(Enabling(i), bus, x, p, v);
    Front(Enabling(i), bus, x, p);
    Back(Enabling(i), bus, x, p);
    Addressing(i);
    NoWrite(x, bus, p.sys, p.m);
    hide Step, CoreUnits, Commit, Enabling, PlusFour, NextValid;
  }

  lemma Third<Bus(!new)>(bus: BusModel<Bus>, x: Unknown, i: Word, p: Pipe<System<Bus>>, v: Valid)
    requires After2(x, p)
    ensures var u := CoreUnits(Enabling(i), bus, x);
            After3(x, Step(u, p, false)) && NextValid(u, p, v, false) == Valid(true, v.d, v.e)
  {
    Zero(x);
    Addi(x);
    Sets(x);
    hide Decode;
    Flows(Enabling(i), bus, x, p, v);
    Front(Enabling(i), bus, x, p);
    Back(Enabling(i), bus, x, p);
    Addressing(i);
    NoWrite(x, bus, p.sys, p.m);
    AddsToZero(x, p.e.ctl, p.e.pc, Forward(p.e.rs2, p.e.rd2, p.m, p.w));
    hide Step, Execute, Commit, Enabling, PlusFour, NextValid;
  }

  lemma Fourth<Bus(!new)>(bus: BusModel<Bus>, x: Unknown, i: Word, p: Pipe<System<Bus>>, v: Valid)
    requires After3(x, p)
    ensures var u := CoreUnits(Enabling(i), bus, x);
            After4(x, Step(u, p, false)) && NextValid(u, p, v, false) == Valid(true, v.d, v.e)
  {
    Addi(x);
    Sets(x);
    hide Decode;
    Flows(Enabling(i), bus, x, p, v);
    Front(Enabling(i), bus, x, p);
    Back(Enabling(i), bus, x, p);
    Addressing(i);
    NoWrite(x, bus, p.sys, p.m);
    PassesOperand(x, p.e.ctl, p.e.imm, p.e.pc, 0x88, Forward(p.e.rs2, p.e.rd2, p.m, p.w));
    hide Step, Execute, Commit, Enabling, PlusFour, NextValid;
  }

  lemma Fifth<Bus(!new)>(bus: BusModel<Bus>, x: Unknown, i: Word, p: Pipe<System<Bus>>, v: Valid)
    requires After4(x, p)
    ensures var u := CoreUnits(Enabling(i), bus, x);
            After5(x, i, Step(u, p, false)) && NextValid(u, p, v, false) == Valid(true, v.d, v.e)
  {
    Sets(x);
    Nop(x);
    hide Decode;
    Flows(Enabling(i), bus, x, p, v);
    Front(Enabling(i), bus, x, p);
    Back(Enabling(i), bus, x, p);
    Addressing(i);
    SetWrites(x, bus, p.sys, p.m);
    PassesOperand(x, p.e.ctl, p.e.imm, p.e.pc, 0x88, Forward(p.e.rs2, p.e.rd2, p.m, p.w));
    hide Step, Execute, Commit, Enabling, PlusFour, NextValid;
  }

  lemma Sixth<Bus(!new)>(bus: BusModel<Bus>, x: Unknown, i: Word, p: Pipe<System<Bus>>, v: Valid)
    requires After5(x, i, p)
    ensures var u := CoreUnits(Enabling(i), bus, x);
            After6(x, i, Step(u, p, false)) && NextValid(u, p, v, false) == Valid(true, v.d, v.e)
  {
    Sets(x);
    Nop(x);
    hide Decode;
    Flows(Enabling(i), bus, x, p, v);
    Front(Enabling(i), bus, x, p);
    Back(Enabling(i), bus, x, p);
    Addressing(i);
    SetWrites(x, bus, p.sys, p.m);
    hide Step, CoreUnits, Commit, Enabling, PlusFour, NextValid;
  }

  const QUIET: seq<bool> := [false, false, false, false, false, false]

  lemma OneMore<Bus(!new)>(u: Units<System<Bus>>, sys: System<Bus>, before: seq<bool>)
    ensures Run(u, sys, before + [false]) == Step(u, Run(u, sys, before), false)
    ensures ValidAfter(u, sys, before + [false]) == NextValid(u, Run(u, sys, before), ValidAfter(u, sys, before), false)
  {
    assert (before + [false])[..|before|] == before;
  }

  /** After six cycles with the line low, the timer interrupt is on, the instruction of choice is in E, and
      every stage is busy. */
  lemma SixCycles<Bus(!new)>(bus: BusModel<Bus>, x: Unknown, i: Word, start: Bus)
    ensures var u, sys := CoreUnits(Enabling(i), bus, x), System(start, RESET_CSR);
            After6(x, i, Run(u, sys, QUIET)) && ValidAfter(u, sys, QUIET) == Valid(true, true, true)
  {
    var u, sys := CoreUnits(Enabling(i), bus, x), System(start, RESET_CSR);
    hide CoreUnits, Step, NextValid, After1, After2, After3, After4, After5, After6;
    OneMore(u, sys, []);
    First(bus, x, i, start);
    var q1: seq<bool> := [] + [false];
    OneMore(u, sys, q1);
    Second(bus, x, i, Run(u, sys, q1), ValidAfter(u, sys, q1));
    var q2 := q1 + [false];
    OneMore(u, sys, q2);
    Third(bus, x, i, Run(u, sys, q2), ValidAfter(u, sys, q2));
    var q3 := q2 + [false];
    OneMore(u, sys, q3);
    Fourth(bus, x, i, Run(u, sys, q3), ValidAfter(u, sys, q3));
    var q4 := q3 + [false];
    OneMore(u, sys, q4);
    Fifth(bus, x, i, Run(u, sys, q4), ValidAfter(u, sys, q4));
    var q5 := q4 + [false];
    OneMore(u, sys, q5);
    Sixth(bus, x, i, Run(u, sys, q5), ValidAfter(u, sys, q5));
    assert q5 + [false] == QUIET;
  }

  /** The instruction in E is then the oldest that has not committed. */
  lemma OldestInE<Bus(!new)>(bus: BusModel<Bus>, x: Unknown, i: Word, start: Bus)
    ensures var u, sys := CoreUnits(Enabling(i), bus, x), System(start, RESET_CSR);
            Body(u, ArchRun(u, sys, QUIET), ValidAfter(u, sys, QUIET).m, true).pc == 0x1_0010
  {
    var u, sys := CoreUnits(Enabling(i), bus, x), System(start, RESET_CSR);
    SixCycles(bus, x, i, start);
    CoreIsWellFormed(Enabling(i), bus, x);
    hide CoreUnits, WellFormed, ValidAfter, Run, ArchRun;
    Refines(u, sys, QUIET);
    ExecutesInOrder(u, Run(u, sys, QUIET), ValidAfter(u, sys, QUIET), ArchRun(u, sys, QUIET), true);
  }

  lemma Pending<Bus>(x: Unknown, i: Word, p: Pipe<System<Bus>>)
    requires After6(x, i, p)
    ensures InterruptPending(p.sys.csr.clint, true)
  {
  }

  // ---------- Three interrupts ----------

  lemma FenceFields(x: Unknown)
    ensures !Decode(x, FENCE).ctl.retire && !IsReturn(Decode(x, FENCE).ctl, Decode(x, FENCE).imm)
  {
  }

  /** An interrupt that finds a FENCE in E saves the address behind it, so the FENCE is never executed. */
  lemma InterruptSkipsFence<Bus(!new)>(bus: BusModel<Bus>, x: Unknown, start: Bus)
    ensures var u, sys := CoreUnits(Enabling(FENCE), bus, x), System(start, RESET_CSR);
            var p := Run(u, sys, QUIET);
            && u.interrupt(p.sys, true) && !Returning(u, p)
            && Body(u, ArchRun(u, sys, QUIET), ValidAfter(u, sys, QUIET).m, true).pc == 0x1_0010
            && Enabling(FENCE)(0x1_0010) == FENCE && SavePC(u, p) == 0x1_0014
  {
    SixCycles(bus, x, FENCE, start);
    OldestInE(bus, x, FENCE, start);
    FenceFields(x);
    Nop(x);
    Addressing(FENCE);
    hide Run, ArchRun, ValidAfter, Body, Enabling;
    var p := Run(CoreUnits(Enabling(FENCE), bus, x), System(start, RESET_CSR), QUIET);
    Pending(x, FENCE, p);
    hide Decode, IsReturn;
  }

  lemma ReturnFields(x: Unknown)
    ensures IsReturn(Decode(x, MRET).ctl, Decode(x, MRET).imm)
  {
  }

  /** An interrupt that finds a return in E goes to the vector with interrupts still on, and saves nothing. */
  lemma InterruptMeetsReturn<Bus(!new)>(bus: BusModel<Bus>, x: Unknown, start: Bus)
    ensures var u, sys := CoreUnits(Enabling(MRET), bus, x), System(start, RESET_CSR);
            var p := Run(u, sys, QUIET);
            var r := Step(u, p, true);
            && u.interrupt(p.sys, true) && Returning(u, p)
            && r.pcF == u.vector(p.sys) && r.sys.csr.clint.mie && r.sys.csr.clint.mepc == p.sys.csr.clint.mepc == 0
  {
    SixCycles(bus, x, MRET, start);
    ReturnFields(x);
    hide Run, ValidAfter;
    var u := CoreUnits(Enabling(MRET), bus, x);
    var p := Run(u, System(start, RESET_CSR), QUIET);
    Pending(x, MRET, p);
    hide Decode, IsReturn, Enabling;
    NoWriteAt(x, bus, p.sys, true, p.m);
    hide ClockCsr;
    TrapUpdate(Enabling(MRET), bus, x, p, true);
  }

  lemma NoWriteAt<Bus>(x: Unknown, bus: BusModel<Bus>, s: System<Bus>, irq: bool, m: BankM)
    requires m.ctl.csrWriteControl == 0
    ensures Commit(x, bus, s, irq, m).csr.clint == s.csr.clint
  {
    UnmodifiedWrite(x, s.csr, irq, m.imm >> 20);
    hide WriteClint, ReadCsr, CycleCounter, RetireCounter;
  }

  /** With an ordinary instruction in its place every interrupt is precise, and this one is taken. */
  lemma InterruptIsTakenPrecisely<Bus(!new)>(bus: BusModel<Bus>, x: Unknown, start: Bus, irqs: seq<bool>)
    ensures var u, sys := CoreUnits(Enabling(NOP), bus, x), System(start, RESET_CSR);
            PreciseThroughout(u, sys, irqs) && Trap(u, Run(u, sys, QUIET), true)
  {
    var program, sys := Enabling(NOP), System(start, RESET_CSR);
    SixCycles(bus, x, NOP, start);
    var p := Run(CoreUnits(program, bus, x), sys, QUIET);
    Pending(x, NOP, p);
    forall pc ensures Tame(x, program(pc)) && Steady(x, program(pc)) {
      AllTame(x, pc);
    }
    hide Enabling, Tame, Steady, CleanCycles, PreciseThroughout, Run, ValidAfter;
    SteadyProgramsAreUndisturbed(program, bus, x, sys, irqs);
    TameProgramsArePrecise(program, bus, x, sys, irqs);
  }

  lemma AllTame(x: Unknown, pc: Word)
    ensures Tame(x, Enabling(NOP)(pc)) && Steady(x, Enabling(NOP)(pc))
  {
    Addi(x);
    Sets(x);
    Nop(x);
    Addresses();
  }

  // ---------- An interrupt that is disabled in the cycle in which it is taken ----------

  lemma DisableFields(x: Unknown)
    ensures var d := Decode(x, DISABLE);
            && Straight(d.ctl) && d.imm == 0x3004_7500 && d.rd == 10
            && d.ctl.csrWriteControl == 3 && d.ctl.csrWriteDataSrc && !IsReturn(d.ctl, d.imm)
  {
  }

  /** In M the instruction finds mstatus.MIE set, and writes it clear. */
  lemma ClearsEnable(x: Unknown, csr: Csr, m: BankM)
    requires m.ctl.csrWriteControl == 3 && m.ctl.csrWriteDataSrc && m.imm == 0x3004_7500
    ensures Disables(x, csr, true, m)
  {
    DisableOperands();
    var old_ := ReadCsr(x, csr, true, MSTATUS);
    ClearsBit3(old_);
    hide ReadCsr;
  }

  lemma DisableOperands()
    ensures CsrAddress(0x3004_7500) == MSTATUS && (0x3004_7500 as Word >> 15) & 0x1F == 8
  {
  }

  lemma ClearsBit3(w: Word)
    ensures (w & (0x8 ^ 0xFFFF_FFFF)) & 0x8 == 0
  {
  }

  const QUIET7: seq<bool> := QUIET + [false]

  lemma Seventh<Bus(!new)>(bus: BusModel<Bus>, x: Unknown, start: Bus)
    ensures var u, sys := CoreUnits(Enabling(DISABLE), bus, x), System(start, RESET_CSR);
            var p, d := Run(u, sys, QUIET7), Decode(x, DISABLE);
            p.m.ctl == d.ctl && p.m.imm == d.imm && p.sys.csr.clint == OFF.(mtie := true, mie := true)
  {
    var u, sys := CoreUnits(Enabling(DISABLE), bus, x), System(start, RESET_CSR);
    SixCycles(bus, x, DISABLE, start);
    hide CoreUnits, Step, After6, Decode;
    OneMore(u, sys, QUIET);
    SeventhStep(bus, x, Run(u, sys, QUIET));
  }

  lemma SeventhStep<Bus(!new)>(bus: BusModel<Bus>, x: Unknown, p: Pipe<System<Bus>>)
    requires After6(x, DISABLE, p)
    ensures var r, d := Step(CoreUnits(Enabling(DISABLE), bus, x), p, false), Decode(x, DISABLE);
            r.m.ctl == d.ctl && r.m.imm == d.imm && r.sys.csr.clint == OFF.(mtie := true, mie := true)
  {
    DisableFields(x);
    Nop(x);
    hide Decode;
    Back(Enabling(DISABLE), bus, x, p);
    NoWrite(x, bus, p.sys, p.m);
    hide Step, CoreUnits, Commit, Enabling;
  }

  /** A run from reset in which an interrupt is taken in the very cycle in which the instruction that disables
      interrupts commits: it is not enabled any more when everything older than the saved address is done,
      so the trap is not precise, and the return from it will turn interrupts on again. */
  lemma InterruptAfterDisabling<Bus(!new)>(bus: BusModel<Bus>, x: Unknown, start: Bus)
    ensures var u, sys := CoreUnits(Enabling(DISABLE), bus, x), System(start, RESET_CSR);
            var p := Run(u, sys, QUIET7);
            && p.m.ctl == Decode(x, DISABLE).ctl && p.m.imm == Decode(x, DISABLE).imm
            && u.interrupt(p.sys, true) && !u.interrupt(u.commit(p.sys, true, p.m), true)
            && !PreciseThroughout(u, sys, QUIET7 + [true])
            && u.leave(NextSys(u, p, true)).csr.clint.mie
  {
    var program, sys := Enabling(DISABLE), System(start, RESET_CSR);
    Seventh(bus, x, start);
    DisableFields(x);
    var p := Run(CoreUnits(program, bus, x), sys, QUIET7);
    hide Run, ValidAfter, Decode, ArchRun, Body;
    ClearsEnable(x, p.sys.csr, p.m);
    StaysEnabled(x, p.sys.csr, true, p.m);
    CoreTrapsArePrecise(program, bus, x, sys, QUIET7 + [true]);
    assert (QUIET7 + [true])[..|QUIET7|] == QUIET7;
    hide Disables, ChangesVector, ChangesReturn, PreciseThroughout, ClockCsr, ClockBus;
  }
}
