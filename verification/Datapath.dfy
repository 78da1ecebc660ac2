/** hw/core/datapath.sv as an object: the registers its always_ff blocks update, and one method for
    a clock cycle, proved to be the pipeline's step function. */
module DatapathObject {
  import opened Pipeline
  import opened PipelineProofs

  // The instantiated units, called by name.

  function DecodeUnit<Sys>(u: Units<Sys>, i: Word): Decoded { u.decode(i) }

  function ExecuteUnit<Sys>(u: Units<Sys>, ctl: Controls, imm: Word, pc: Word, a: Word, b: Word): Executed {
    u.execute(ctl, imm, pc, a, b)
  }

  function FetchUnit<Sys>(u: Units<Sys>, pc: Word): BankD { BankD(u.fetch(pc), pc, u.plus4(pc)) }

  predicate InterruptUnit<Sys>(u: Units<Sys>, sys: Sys, irq: bool) { u.interrupt(sys, irq) }

  predicate ReturnUnit<Sys>(u: Units<Sys>, ctl: Controls, imm: Word) { u.isReturn(ctl, imm) }

  function ReadUnit<Sys>(u: Units<Sys>, sys: Sys, irq: bool, m: BankM): Word { u.read(sys, irq, m) }

  function CommitUnit<Sys>(u: Units<Sys>, sys: Sys, irq: bool, m: BankM): Sys { u.commit(sys, irq, m) }

  function TrapUnit<Sys>(u: Units<Sys>, sys: Sys, iret: bool, savePC: Word): Sys {
    if iret then u.leave(sys) else u.enter(sys, savePC)
  }

  function TargetUnit<Sys>(u: Units<Sys>, sys: Sys, interrupt: bool): Word {
    if interrupt then u.vector(sys) else u.savedPC(sys)
  }

  class Datapath<Sys(!new)> {
    const units: Units<Sys>

    var pcF: Word
    var d: BankD
    var e: BankE
    var m: BankM
    var w: BankW
    var registers: array<Word>
    var sys: Sys

    ghost predicate Valid()
      reads this, registers
    {
      registers.Length == 32
    }

    ghost function State(): Pipe<Sys>
      requires Valid()
      reads this, registers
    {
      Pipe(pcF, d, e, m, w, registers[..], sys)
    }

    /** The reset line is high. */
    constructor (units: Units<Sys>, sys: Sys)
      ensures Valid() && fresh(registers)
      ensures this.units == units && State() == Reset(sys)
    {
      this.units, this.sys := units, sys;
      pcF, d, e, m, w := RESET_PC, EMPTY_D, EMPTY_E, EMPTY_M, EMPTY_W;
      registers := new Word[32](i => 0);
    }

    /** The negative edge: the W bank reaches the register file. */
    method WriteRegisters()
      requires Valid()
      modifies registers
      ensures registers[..] == WriteBack(old(registers[..]), w)
    {
      if w.regWrite {
        registers[w.rd] := ResultW(w);
      }
    }

    method ReadRegister(i: RegIndex) returns (value: Word)
      requires Valid()
      ensures value == ReadReg(registers[..], i)
    {
      value := if i == 0 then 0 else registers[i];
    }

    /** The forwarding multiplexers and hw/core/stages/executeCL.sv */
    method ExecuteStage() returns (x: Executed, rd2E: Word)
      requires Valid()
      ensures x == ExecuteE(units, State()) && rd2E == Forward(e.rs2, e.rd2, m, w)
    {
      var rd1E := Forward(e.rs1, e.rd1, m, w);
      rd2E := Forward(e.rs2, e.rd2, m, w);
      x := ExecuteUnit(units, e.ctl, e.imm, e.pc, rd1E, rd2E);
    }

    /** The load-use stall, and the CLINT's view of this cycle. */
    method HazardsAndTraps(dec: Decoded, irq: bool) returns (stall: bool, interrupt: bool, iret: bool, savePC: Word)
      requires Valid() && dec == units.decode(d.instr)
      ensures stall == Stall(units, State()) && savePC == SavePC(units, State())
      ensures interrupt == units.interrupt(sys, irq) && iret == Returning(units, State())
    {
      stall := e.ctl.resultSrc && (dec.rs1 == e.rd || dec.rs2 == e.rd);
      interrupt, iret := InterruptUnit(units, sys, irq), ReturnUnit(units, e.ctl, e.imm);
      savePC := if e.ctl.retire then e.pc else if dec.ctl.retire then d.pc else pcF;
    }

    /** The positive edge in the memory stage: bus, CSRs and the bank W. */
    method ClockMemory(irq: bool, trap: bool, iret: bool, savePC: Word)
      modifies `w, `sys
      ensures w == NextW(units, old(sys), m, irq)
      ensures sys == if trap then TrapUnit(units, CommitUnit(units, old(sys), irq, m), iret, savePC)
                     else CommitUnit(units, old(sys), irq, m)
    {
      w := BankW(m.ctl.regWrite, m.ctl.resultSrc, LoadPCResult(m), ReadUnit(units, sys, irq, m), m.rd);
      sys := CommitUnit(units, sys, irq, m);
      if trap {
        sys := TrapUnit(units, sys, iret, savePC);
      }
    }

    /** The positive edge of M, E, D and the program counter, when a trap is taken. */
    method ClockTrap(target: Word)
      modifies `pcF, `d, `e, `m
      ensures pcF == target && d == EMPTY_D && e == EMPTY_E && m == EMPTY_M
    {
      pcF, d, e, m := target, EMPTY_D, EMPTY_E, EMPTY_M;
    }

    /** The positive edge of M, E, D and the program counter, without a trap. */
    method ClockStages(dec: Decoded, rd1D: Word, rd2D: Word, x: Executed, rd2E: Word, stall: bool)
      modifies `pcF, `d, `e, `m
      ensures m == BankM(old(e).ctl, old(e).imm, x.aluResult, rd2E, x.pcTarget, old(e).rd, old(e).pcPlus4)
      ensures e == if stall || x.pcSrc then EMPTY_E
                   else BankE(dec.ctl, dec.rs1, dec.rs2, dec.rd, rd1D, rd2D, dec.imm, old(d).pc, old(d).pcPlus4)
      ensures d == if x.pcSrc then EMPTY_D else if stall then old(d) else FetchUnit(units, old(pcF))
      ensures pcF == if stall then old(pcF) else if x.pcSrc then x.pcTarget else FetchUnit(units, old(pcF)).pcPlus4
    {
      m := BankM(e.ctl, e.imm, x.aluResult, rd2E, x.pcTarget, e.rd, e.pcPlus4);
      e := if stall || x.pcSrc then EMPTY_E
           else BankE(dec.ctl, dec.rs1, dec.rs2, dec.rd, rd1D, rd2D, dec.imm, d.pc, d.pcPlus4);
      var fetched := FetchUnit(units, pcF);
      if x.pcSrc {
        d := EMPTY_D;
      } else if !stall {
        d := fetched;
      }
      if !stall {
        pcF := if x.pcSrc then x.pcTarget else fetched.pcPlus4;
      }
    }

    /** One full clock cycle with the given level on the timer interrupt line. */
    method Clock(irq: bool)
      requires Valid()
      modifies this, registers
      ensures Valid() && registers == old(registers)
      ensures State() == Step(units, old(State()), irq)
    {
      hide Forward, ResultW, LoadPCResult, ReadReg, WriteBack, ExecuteE, Stall, Returning, SavePC;
      var dec := DecodeUnit(units, d.instr);
      var x, rd2E := ExecuteStage();
      var stall, interrupt, iret, savePC := HazardsAndTraps(dec, irq);
      WriteRegisters();
      var rd1D := ReadRegister(dec.rs1);
      var rd2D := ReadRegister(dec.rs2);
      var target := TargetUnit(units, sys, interrupt);
      ClockMemory(irq, interrupt || iret, iret, savePC);
      if interrupt || iret {
        ClockTrap(target);
      } else {
        ClockStages(dec, rd1D, rd2D, x, rd2E, stall);
      }
    }

    /** Clock through a whole trace of the timer line: the object is where `Run` says it is, and
        stays in simulation with the sequential machine. */
    method Simulate(irqs: seq<bool>)
      requires Valid() && WellFormed(units) && State() == Reset(sys)
      modifies this, registers
      ensures Valid() && State() == Run(units, old(sys), irqs)
      ensures Sim(units, State(), ValidAfter(units, old(sys), irqs), ArchRun(units, old(sys), irqs))
    {
      assert irqs[..0] == [];
      for n := 0 to |irqs|
        invariant Valid() && registers == old(registers)
        invariant State() == Run(units, old(sys), irqs[..n])
      {
        Clock(irqs[n]);
        assert irqs[..n + 1][..n] == irqs[..n];
      }
      assert irqs[..|irqs|] == irqs;
      Refines(units, old(sys), irqs);
    }
  }
}
