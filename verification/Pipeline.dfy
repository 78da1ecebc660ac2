/** The five-stage pipeline of hw/core/datapath.sv and hw/core/hazardUnit.sv, together with the
    one-instruction-at-a-time machine it is meant to implement.

    Both machines are built from the same combinational units (`Units`), which the proofs never
    unfold: what is proved here is about overlap, forwarding, stalls, flushes and traps, for every
    decoder, execution unit and system state.  Module Core supplies the real units. */
module Pipeline {

  type Word = bv32

  type RegIndex = i: nat | i < 32

  type RegFile = s: seq<Word> | |s| == 32 witness seq(32, i => 0)

  /** The outputs of hw/core/controlUnit.sv that travel down the pipeline. */
  datatype Controls = Controls(
    resultSrc: bool,
    memExt: bv3,
    aluResultSrc: bv2,
    regWrite: bool,
    loadPC: bv2,
    memWC: bv2,
    memWrite: bool,
    jump: bool,
    branch: bool,
    branchSrc: bv3,
    unsignedCompare: bool,
    aluControl: bv3,
    aluSrcB: bool,
    targetAddressSrc: bool,
    csrWriteDataSrc: bool,
    csrWriteControl: bv2,
    readDataSrc: bool,
    retire: bool,
    privileged: bool)

  const NO_CONTROLS := Controls(false, 0, 0, false, 0, 0, false, false, false, 0, false, 0, false,
                                false, false, 0, false, false, false)

  datatype Decoded = Decoded(ctl: Controls, rs1: RegIndex, rs2: RegIndex, rd: RegIndex, imm: Word)

  datatype Executed = Executed(pcSrc: bool, pcTarget: Word, aluResult: Word)

  // ---------- Pipeline register banks ----------

  datatype BankD = BankD(instr: Word, pc: Word, pcPlus4: Word)

  datatype BankE = BankE(ctl: Controls, rs1: RegIndex, rs2: RegIndex, rd: RegIndex,
                         rd1: Word, rd2: Word, imm: Word, pc: Word, pcPlus4: Word)

  datatype BankM = BankM(ctl: Controls, imm: Word, aluResult: Word, writeData: Word,
                         pcTarget: Word, rd: RegIndex, pcPlus4: Word)

  datatype BankW = BankW(regWrite: bool, resultSrc: bool, loadPCResult: Word, readData: Word, rd: RegIndex)

  const EMPTY_D := BankD(0, 0, 0)
  const EMPTY_E := BankE(NO_CONTROLS, 0, 0, 0, 0, 0, 0, 0, 0)
  const EMPTY_M := BankM(NO_CONTROLS, 0, 0, 0, 0, 0, 0)
  const EMPTY_W := BankW(false, false, 0, 0, 0)

  /** The combinational units around the pipeline registers.  `Sys` is everything that is read and
      written in the memory stage: the data bus and the CSRs. */
  datatype Units<!Sys> = Units(
    fetch: Word -> Word,
    plus4: Word -> Word,
    decode: Word -> Decoded,
    execute: (Controls, Word, Word, Word, Word) -> Executed,  // controls, imm, pc, operand A, operand B
    isReturn: (Controls, Word) -> bool,                       // mret and its siblings, seen in E
    read: (Sys, bool, BankM) -> Word,                         // readDataM; the flag is the timer line
    commit: (Sys, bool, BankM) -> Sys,                        // the clock edge with this bank in M
    tick: Sys -> Sys,                                         // the clock edge with a bubble in M
    interrupt: (Sys, bool) -> bool,                           // CLINT: take an interrupt now?
    vector: Sys -> Word,
    savedPC: Sys -> Word,
    enter: (Sys, Word) -> Sys,                                // CLINT update on an interrupt
    leave: Sys -> Sys)                                        // CLINT update on a return

  datatype Pipe<Sys> = Pipe(pcF: Word, d: BankD, e: BankE, m: BankM, w: BankW, regs: RegFile, sys: Sys)

  // ---------- Register file (hw/core/regFile.sv) ----------

  function ReadReg(regs: RegFile, i: RegIndex): Word {
    if i == 0 then 0 else regs[i]
  }

  function ResultW(w: BankW): Word {
    if w.resultSrc then w.readData else w.loadPCResult
  }

  function WriteBack(regs: RegFile, w: BankW): RegFile {
    if w.regWrite then regs[w.rd := ResultW(w)] else regs
  }

  function LoadPCResult(m: BankM): Word {
    if m.ctl.loadPC == 0 then m.aluResult
    else if m.ctl.loadPC == 1 then m.pcTarget
    else m.pcPlus4
  }

  // ---------- Hazard unit (hw/core/hazardUnit.sv) ----------

  function Forward(rs: RegIndex, operand: Word, m: BankM, w: BankW): Word {
    if rs == m.rd && m.ctl.regWrite && rs != 0 then LoadPCResult(m)
    else if rs == w.rd && w.regWrite && rs != 0 then ResultW(w)
    else operand
  }

  function ExecuteE<Sys>(u: Units<Sys>, p: Pipe<Sys>): Executed {
    u.execute(p.e.ctl, p.e.imm, p.e.pc, Forward(p.e.rs1, p.e.rd1, p.m, p.w), Forward(p.e.rs2, p.e.rd2, p.m, p.w))
  }

  predicate Stall<Sys>(u: Units<Sys>, p: Pipe<Sys>) {
    var dec := u.decode(p.d.instr);
    p.e.ctl.resultSrc && (dec.rs1 == p.e.rd || dec.rs2 == p.e.rd)
  }

  predicate Redirect<Sys>(u: Units<Sys>, p: Pipe<Sys>) {
    ExecuteE(u, p).pcSrc
  }

  predicate Returning<Sys>(u: Units<Sys>, p: Pipe<Sys>) {
    u.isReturn(p.e.ctl, p.e.imm)
  }

  predicate Trap<Sys>(u: Units<Sys>, p: Pipe<Sys>, irq: bool) {
    u.interrupt(p.sys, irq) || Returning(u, p)
  }

  /** The program counter the CLINT saves. */
  function SavePC<Sys>(u: Units<Sys>, p: Pipe<Sys>): Word {
    if p.e.ctl.retire then p.e.pc
    else if u.decode(p.d.instr).ctl.retire then p.d.pc
    else p.pcF
  }

  function TrapTarget<Sys>(u: Units<Sys>, p: Pipe<Sys>, irq: bool): Word {
    if u.interrupt(p.sys, irq) then u.vector(p.sys) else u.savedPC(p.sys)
  }

  // ---------- One clock edge ----------

  function NextD<Sys>(u: Units<Sys>, p: Pipe<Sys>, irq: bool): BankD {
    if Redirect(u, p) || Trap(u, p, irq) then EMPTY_D
    else if Stall(u, p) then p.d
    else BankD(u.fetch(p.pcF), p.pcF, u.plus4(p.pcF))
  }

  function NextE<Sys>(u: Units<Sys>, p: Pipe<Sys>, irq: bool): BankE {
    if Stall(u, p) || Redirect(u, p) || Trap(u, p, irq) then EMPTY_E
    else
      var dec := u.decode(p.d.instr);
      var regs := WriteBack(p.regs, p.w);  // written half a cycle before it is read
      BankE(dec.ctl, dec.rs1, dec.rs2, dec.rd, ReadReg(regs, dec.rs1), ReadReg(regs, dec.rs2),
            dec.imm, p.d.pc, p.d.pcPlus4)
  }

  function NextM<Sys>(u: Units<Sys>, p: Pipe<Sys>, irq: bool): BankM {
    if Trap(u, p, irq) then EMPTY_M
    else
      var x := ExecuteE(u, p);
      BankM(p.e.ctl, p.e.imm, x.aluResult, Forward(p.e.rs2, p.e.rd2, p.m, p.w), x.pcTarget, p.e.rd, p.e.pcPlus4)
  }

  function NextW<Sys>(u: Units<Sys>, sys: Sys, m: BankM, irq: bool): BankW {
    BankW(m.ctl.regWrite, m.ctl.resultSrc, LoadPCResult(m), u.read(sys, irq, m), m.rd)
  }

  function NextPC<Sys>(u: Units<Sys>, p: Pipe<Sys>, irq: bool): Word {
    if Trap(u, p, irq) then TrapTarget(u, p, irq)
    else if Stall(u, p) then p.pcF
    else if Redirect(u, p) then ExecuteE(u, p).pcTarget
    else u.plus4(p.pcF)
  }

  function NextSys<Sys>(u: Units<Sys>, p: Pipe<Sys>, irq: bool): Sys {
    var sys := u.commit(p.sys, irq, p.m);
    if !Trap(u, p, irq) then sys
    else if Returning(u, p) then u.leave(sys)
    else u.enter(sys, SavePC(u, p))
  }

  function Step<Sys>(u: Units<Sys>, p: Pipe<Sys>, irq: bool): Pipe<Sys> {
    Pipe(NextPC(u, p, irq), NextD(u, p, irq), NextE(u, p, irq), NextM(u, p, irq), NextW(u, p.sys, p.m, irq),
         WriteBack(p.regs, p.w), NextSys(u, p, irq))
  }

  const RESET_PC: Word := 0x0001_0000

  function Reset<Sys>(sys: Sys): Pipe<Sys> {
    Pipe(RESET_PC, EMPTY_D, EMPTY_E, EMPTY_M, EMPTY_W, seq(32, i => 0), sys)
  }

  /** The state after one clock edge for each sample of the timer line. */
  function Run<Sys>(u: Units<Sys>, sys: Sys, irqs: seq<bool>): Pipe<Sys> {
    if irqs == [] then Reset(sys)
    else Step(u, Run(u, sys, irqs[..|irqs| - 1]), irqs[|irqs| - 1])
  }

  // ---------- The sequential machine ----------

  /** Architectural state: `pc` is the address of the oldest instruction that has not committed. */
  datatype Arch<Sys> = Arch(pc: Word, regs: RegFile, sys: Sys)

  /** Decode and execute the instruction at `pc` on the registers as they are. */
  function ExecuteAt<Sys>(u: Units<Sys>, pc: Word, regs: RegFile): Executed {
    var dec := u.decode(u.fetch(pc));
    u.execute(dec.ctl, dec.imm, pc, ReadReg(regs, dec.rs1), ReadReg(regs, dec.rs2))
  }

  function IssueAt<Sys>(u: Units<Sys>, pc: Word, regs: RegFile): BankM {
    var dec := u.decode(u.fetch(pc));
    var x := ExecuteAt(u, pc, regs);
    BankM(dec.ctl, dec.imm, x.aluResult, ReadReg(regs, dec.rs2), x.pcTarget, dec.rd, u.plus4(pc))
  }

  function Successor<Sys>(u: Units<Sys>, pc: Word, regs: RegFile): Word {
    var x := ExecuteAt(u, pc, regs);
    if x.pcSrc then x.pcTarget else u.plus4(pc)
  }

  /** One whole instruction, executed atomically. */
  function Instruction<Sys>(u: Units<Sys>, a: Arch<Sys>, irq: bool): Arch<Sys> {
    var m := IssueAt(u, a.pc, a.regs);
    Arch(Successor(u, a.pc, a.regs), WriteBack(a.regs, NextW(u, a.sys, m, irq)), u.commit(a.sys, irq, m))
  }

  datatype TrapKind = NoTrap | Interrupt(vector: Word, saved: Word) | Return(target: Word)

  /** What one clock cycle amounts to architecturally. */
  datatype Act = Act(commits: bool, trap: TrapKind, leaves: bool)

  function Body<Sys>(u: Units<Sys>, a: Arch<Sys>, commits: bool, irq: bool): Arch<Sys> {
    if commits then Instruction(u, a, irq) else a.(sys := u.tick(a.sys))
  }

  function Cycle<Sys>(u: Units<Sys>, a: Arch<Sys>, act: Act, irq: bool): Arch<Sys> {
    var b := Body(u, a, act.commits, irq);
    match act.trap
    case NoTrap => b
    case Interrupt(vector, saved) =>
      Arch(vector, b.regs, if act.leaves then u.leave(b.sys) else u.enter(b.sys, saved))
    case Return(target) => Arch(target, b.regs, u.leave(b.sys))
  }

  // ---------- Which banks hold an instruction ----------

  /** Whether D, E and M hold an instruction rather than a bubble.  The hardware has no such bits. */
  datatype Valid = Valid(d: bool, e: bool, m: bool)

  const NONE_VALID := Valid(false, false, false)

  function NextValid<Sys>(u: Units<Sys>, p: Pipe<Sys>, v: Valid, irq: bool): Valid {
    if Trap(u, p, irq) then NONE_VALID
    else if Redirect(u, p) then Valid(false, false, v.e)
    else if Stall(u, p) then Valid(v.d, false, v.e)
    else Valid(true, v.d, v.e)
  }

  function ActOf<Sys>(u: Units<Sys>, p: Pipe<Sys>, v: Valid, irq: bool): Act {
    Act(v.m,
        if !Trap(u, p, irq) then NoTrap
        else if u.interrupt(p.sys, irq) then Interrupt(u.vector(p.sys), SavePC(u, p))
        else Return(u.savedPC(p.sys)),
        Returning(u, p))
  }

  function ValidAfter<Sys>(u: Units<Sys>, sys: Sys, irqs: seq<bool>): Valid {
    if irqs == [] then NONE_VALID
    else
      var before := irqs[..|irqs| - 1];
      NextValid(u, Run(u, sys, before), ValidAfter(u, sys, before), irqs[|irqs| - 1])
  }

  /** The sequential machine, driven by the commits and traps of the pipelined run. */
  function ArchRun<Sys>(u: Units<Sys>, sys: Sys, irqs: seq<bool>): Arch<Sys> {
    if irqs == [] then Arch(RESET_PC, seq(32, i => 0), sys)
    else
      var before, irq := irqs[..|irqs| - 1], irqs[|irqs| - 1];
      Cycle(u, ArchRun(u, sys, before), ActOf(u, Run(u, sys, before), ValidAfter(u, sys, before), irq), irq)
  }

  // ---------- What the proofs need of the units ----------

  /** A bubble is a cleared bank, or what the all-zero instruction word decodes to. */
  ghost predicate BubbleControls<Sys>(u: Units<Sys>, ctl: Controls, imm: Word, rd: RegIndex) {
    || (ctl == NO_CONTROLS && imm == 0 && rd == 0)
    || (ctl == u.decode(0).ctl && imm == u.decode(0).imm && rd == 0)
  }

  ghost predicate HarmlessBubble<Sys(!new)>(u: Units<Sys>, ctl: Controls, imm: Word) {
    && !ctl.resultSrc && !ctl.retire && !u.isReturn(ctl, imm)
    && (forall pc, a, b :: !u.execute(ctl, imm, pc, a, b).pcSrc)
    && (forall s, irq, m: BankM :: m.ctl == ctl && m.imm == imm ==> u.commit(s, irq, m) == u.tick(s))
  }

  ghost predicate WellFormed<Sys(!new)>(u: Units<Sys>) {
    && u.decode(0).rd == 0
    && HarmlessBubble(u, NO_CONTROLS, 0)
    && HarmlessBubble(u, u.decode(0).ctl, u.decode(0).imm)
    && (forall i, pc, a, b :: u.decode(i).ctl.resultSrc ==> !u.execute(u.decode(i).ctl, u.decode(i).imm, pc, a, b).pcSrc)
  }

  // ---------- The simulation relation ----------

  ghost predicate SameRegs(r: RegFile, s: RegFile) {
    forall i: RegIndex :: ReadReg(r, i) == ReadReg(s, i)
  }

  /** Address of the oldest instruction behind M, behind E, and in F. */
  function BehindM<Sys>(u: Units<Sys>, v: Valid, a: Arch<Sys>): Word {
    if v.m then Successor(u, a.pc, a.regs) else a.pc
  }

  ghost predicate MatchesE<Sys>(u: Units<Sys>, p: Pipe<Sys>, pc: Word) {
    var dec := u.decode(u.fetch(pc));
    && p.e.ctl == dec.ctl && p.e.rs1 == dec.rs1 && p.e.rs2 == dec.rs2 && p.e.rd == dec.rd && p.e.imm == dec.imm
    && p.e.pc == pc && p.e.pcPlus4 == u.plus4(pc)
    && p.e.rd1 == ReadReg(p.regs, p.e.rs1) && p.e.rd2 == ReadReg(p.regs, p.e.rs2)
    && (p.m.ctl.resultSrc ==> p.e.rs1 != p.m.rd && p.e.rs2 != p.m.rd)
  }

  ghost predicate InOrder<Sys>(u: Units<Sys>, p: Pipe<Sys>, v: Valid, a: Arch<Sys>) {
    var pcE := BehindM(u, v, a);
    var pcD := if v.e then u.plus4(pcE) else pcE;
    && (if v.m then p.m == IssueAt(u, a.pc, a.regs) else BubbleControls(u, p.m.ctl, p.m.imm, p.m.rd))
    && (if v.e then MatchesE(u, p, pcE) else BubbleControls(u, p.e.ctl, p.e.imm, p.e.rd))
    && (if v.d then p.d == BankD(u.fetch(pcD), pcD, u.plus4(pcD)) else p.d == EMPTY_D)
    && p.pcF == (if v.d then u.plus4(pcD) else pcD)
    && (v.e ==> v.d)
  }

  ghost predicate Sim<Sys>(u: Units<Sys>, p: Pipe<Sys>, v: Valid, a: Arch<Sys>) {
    && SameRegs(WriteBack(p.regs, p.w), a.regs)
    && p.sys == a.sys
    && InOrder(u, p, v, a)
  }
}
