/** The combinational units of hw/core: control unit, extender, ALU, flag decoder, load extension,
    CSR file and CLINT, written on bit vectors, and assembled into the pipeline's `Units`. */
module Core {
  import opened Pipeline

  /** What the SystemVerilog leaves unknown ('x): every theorem holds for every choice. */
  datatype Unknown = Unknown(memExt: bv3, memWC: bv2, branchSrc: bv3, aluControl: bv3, immSrc: bv3,
                             csrWriteDataSrc: bool, word: Word, flag: bool)

  // ---------- Field extraction (hw/core/stages/decodeCL.sv) ----------

  function Opcode(i: Word): Word { i & 0x7F }

  function Funct3(i: Word): Word { (i >> 12) & 7 }

  function RegField(i: Word, shift: nat): RegIndex
    requires shift <= 27
  {
    (((i >> shift) & 0x1F) as bv5) as int
  }

  const LOAD: Word := 0x03
  const OP_IMM: Word := 0x13
  const AUIPC: Word := 0x17
  const STORE: Word := 0x23
  const OP: Word := 0x33
  const LUI: Word := 0x37
  const BRANCH: Word := 0x63
  const JALR: Word := 0x67
  const JAL: Word := 0x6F
  const SYSTEM: Word := 0x73

  // ---------- Control unit (hw/core/controlUnit.sv) ----------

  function MemExt(x: Unknown, f3: Word): bv3 {
    if f3 == 0 then 0 else if f3 == 1 then 1 else if f3 == 2 then 2
    else if f3 == 4 then 3 else if f3 == 5 then 4 else x.memExt
  }

  function MemWC(x: Unknown, f3: Word): bv2 {
    if f3 == 0 || f3 == 4 then 0 else if f3 == 1 || f3 == 5 then 1
    else if f3 == 2 then 2 else x.memWC
  }

  function BranchSrc(f3: Word): bv3 {
    if f3 == 0 then 0 else if f3 == 1 then 1
    else if f3 == 5 || f3 == 7 then 5
    else 2
  }

  function ArithmeticControl(f3: Word, alternative: bool, subtracts: bool): bv3 {
    if f3 == 0 then (if subtracts then 1 else 0)
    else if f3 == 1 then 5
    else if f3 == 2 || f3 == 3 then 1
    else if f3 == 4 then 4
    else if f3 == 5 then (if alternative then 7 else 6)
    else if f3 == 6 then 3
    else 2
  }

  function AluControl(x: Unknown, i: Word): bv3 {
    var op, alternative := Opcode(i), (i >> 30) & 1 == 1;
    if op == OP_IMM then ArithmeticControl(Funct3(i), alternative, false)
    else if op == OP then ArithmeticControl(Funct3(i), alternative, alternative)
    else if op == BRANCH then 1
    else if op == LOAD || op == AUIPC || op == STORE || op == LUI || op == JALR || op == JAL then 0
    else x.aluControl
  }

  function CsrWriteControl(f3: Word): bv2 {
    if f3 == 1 || f3 == 5 then 1 else if f3 == 2 || f3 == 6 then 2
    else if f3 == 3 || f3 == 7 then 3 else 0
  }

  predicate Retires(i: Word) {
    var op := Opcode(i);
    op == LOAD || op == OP_IMM || op == AUIPC || op == STORE || op == OP || op == LUI
    || op == BRANCH || op == JALR || op == JAL || op == SYSTEM
  }

  function ControlUnit(x: Unknown, i: Word): Controls {
    var op, f3 := Opcode(i), Funct3(i);
    Controls(
      resultSrc := op == LOAD || op == SYSTEM,
      memExt := MemExt(x, f3),
      aluResultSrc := if (op == OP_IMM || op == OP) && (f3 == 2 || f3 == 3) then 2
                      else if op == LUI then 1 else if op == SYSTEM then 3 else 0,
      regWrite := !(op == STORE || op == BRANCH),
      loadPC := if op == AUIPC then 1 else if op == JALR || op == JAL then 2 else 0,
      memWC := MemWC(x, f3),
      memWrite := op == STORE,
      jump := op == JALR || op == JAL,
      branch := op == BRANCH,
      branchSrc := BranchSrc(f3),
      unsignedCompare := f3 == 3 || f3 == 6 || f3 == 7,
      aluControl := AluControl(x, i),
      aluSrcB := !(op == OP || op == BRANCH),
      targetAddressSrc := op == JALR,
      csrWriteDataSrc := if 1 <= f3 <= 3 then false else if 5 <= f3 then true else x.csrWriteDataSrc,
      csrWriteControl := CsrWriteControl(f3),
      readDataSrc := op == SYSTEM && f3 != 0,
      retire := Retires(i),
      privileged := op == SYSTEM && f3 == 0)
  }

  // ---------- Immediate extender (hw/core/extender.sv) ----------

  function ImmSrc(x: Unknown, i: Word): bv3 {
    var op, f3 := Opcode(i), Funct3(i);
    if op == LOAD || op == JALR then 0
    else if op == OP_IMM then (if f3 == 1 || f3 == 5 then 5 else 0)
    else if op == AUIPC || op == LUI then 3
    else if op == STORE then 1
    else if op == BRANCH then 2
    else if op == JAL then 4
    else if op == SYSTEM then 6
    else x.immSrc
  }

  function Sign(i: Word, ones: Word): Word {
    if i >> 31 == 1 then ones else 0
  }

  function Extend(x: Unknown, i: Word): Word {
    var immSrc := ImmSrc(x, i);
    if immSrc == 0 then Sign(i, 0xFFFF_F000) | (i >> 20)
    else if immSrc == 1 then Sign(i, 0xFFFF_F000) | ((i >> 25) << 5) | ((i >> 7) & 0x1F)
    else if immSrc == 2 then
      Sign(i, 0xFFFF_F000) | (((i >> 7) & 1) << 11) | (((i >> 25) & 0x3F) << 5) | (((i >> 8) & 0xF) << 1)
    else if immSrc == 3 then i & 0xFFFF_F000
    else if immSrc == 4 then
      Sign(i, 0xFFF0_0000) | (i & 0x000F_F000) | (((i >> 20) & 1) << 11) | (((i >> 21) & 0x3FF) << 1)
    else if immSrc == 5 then (i >> 20) & 0x1F
    else if immSrc == 6 then i & 0xFFFF_FF80
    else x.word
  }

  function Decode(x: Unknown, i: Word): Decoded {
    Decoded(ControlUnit(x, i), RegField(i, 15), RegField(i, 20), RegField(i, 7), Extend(x, i))
  }

  // ---------- ALU and flag decoder (hw/core/ALU.sv, hw/core/arithmeticDec.sv) ----------

  datatype Flags = Flags(zero: bool, carry: bool, negative: bool, overflow: bool)

  function Bit31(w: Word): bool { w >> 31 == 1 }

  function AdderOperand(control: bv3, b: Word): Word {
    if control == 1 then b ^ 0xFFFF_FFFF else b
  }

  /** hw/core/adder32.sv on zero-extended operands: bit 32 of the result is the carry. */
  function Adder32(a: bv33, b: bv33, cin: bv33): bv33 { a + b + cin }

  function Total(control: bv3, a: Word, b: Word): bv33 {
    Adder32(a as bv33, AdderOperand(control, b) as bv33, if control == 1 then 1 else 0)
  }

  function Sum(control: bv3, a: Word, b: Word): Word { (Total(control, a, b) & 0xFFFF_FFFF) as Word }

  predicate CarryOut(control: bv3, a: Word, b: Word) { Total(control, a, b) >> 32 == 1 }

  /** Shifts take all 32 bits of the amount. */
  function ShiftLeft(a: Word, b: Word): Word {
    if b < 32 then a << (b as bv6) else 0
  }

  function ShiftRight(a: Word, b: Word): Word {
    if b < 32 then a >> (b as bv6) else 0
  }

  function ShiftArithmetic(a: Word, b: Word): Word {
    if Bit31(a) then ShiftRight(a ^ 0xFFFF_FFFF, b) ^ 0xFFFF_FFFF else ShiftRight(a, b)
  }

  function AluResult(control: bv3, a: Word, b: Word): Word {
    if control == 0 || control == 1 then Sum(control, a, b)
    else if control == 2 then a & b
    else if control == 3 then a | b
    else if control == 4 then a ^ b
    else if control == 5 then ShiftLeft(a, b)
    else if control == 6 then ShiftRight(a, b)
    else ShiftArithmetic(a, b)
  }

  function AluFlags(control: bv3, a: Word, b: Word): Flags {
    var arithmetic, r := control == 0 || control == 1, AluResult(control, a, b);
    var aXorSum := Bit31(a) != Bit31(Sum(control, a, b));
    var aXorB := !((Bit31(a) != Bit31(b)) != (control & 1 == 1));
    Flags(r == 0, arithmetic && CarryOut(control, a, b), Bit31(r), arithmetic && aXorSum && aXorB)
  }

  predicate Compare(x: Unknown, unsignedCompare: bool, branchSrc: bv3, f: Flags) {
    var le := f.zero || if unsignedCompare then !f.carry else f.negative != f.overflow;
    var lt := if unsignedCompare then !f.carry else f.negative != f.overflow;
    if branchSrc == 0 then f.zero
    else if branchSrc == 1 then !f.zero
    else if branchSrc == 2 then lt
    else if branchSrc == 3 then !le
    else if branchSrc == 4 then le
    else if branchSrc == 5 then !lt
    else x.flag
  }

  // ---------- Execute stage (hw/core/stages/executeCL.sv) ----------

  function Execute(x: Unknown, ctl: Controls, imm: Word, pc: Word, a: Word, rd2: Word): Executed {
    var b := if ctl.aluSrcB then imm else rd2;
    var flag := Compare(x, ctl.unsignedCompare, ctl.branchSrc, AluFlags(ctl.aluControl, a, b));
    Executed(
      ctl.jump || (ctl.branch && flag),
      imm + if ctl.targetAddressSrc then a else pc,
      if ctl.aluResultSrc == 0 then AluResult(ctl.aluControl, a, b)
      else if ctl.aluResultSrc == 1 then b
      else if ctl.aluResultSrc == 2 then (if flag then 1 else 0)
      else a)
  }

  /** hw/core/exceptionUnit.sv */
  predicate IsReturn(ctl: Controls, imm: Word) {
    ctl.privileged && (imm >> 20 == 0x002 || imm >> 20 == 0x102 || imm >> 20 == 0x302)
  }

  // ---------- CSR file and CLINT (hw/core/CSRFile.sv, hw/core/CLINT.sv) ----------

  /** The registers of the CLINT; the external interrupt line is tied low (hw/core/datapath.sv:531). */
  datatype Clint = Clint(mie: bool, meie: bool, mtie: bool, mepc: Word, tvbase: bv30, mscratch: Word,
                         mcause: Word, mtval: Word)

  datatype Csr = Csr(mcycle: bv64, minstret: bv64, clint: Clint)

  const MSTATUS: Word := 0x300
  const MISA: Word := 0x301
  const MIE: Word := 0x304
  const MTVEC: Word := 0x305
  const MSCRATCH: Word := 0x340
  const MEPC: Word := 0x341
  const MCAUSE: Word := 0x342
  const MTVAL: Word := 0x343
  const MIP: Word := 0x344
  const MCYCLE: Word := 0xB00
  const MINSTRET: Word := 0xB02
  const MCYCLEH: Word := 0xB80
  const MINSTRETH: Word := 0xB82

  function Low(w: bv64): Word { (w & 0xFFFF_FFFF) as Word }

  function High(w: bv64): Word { (w >> 32) as Word }

  function Join(high: Word, low: Word): bv64 { ((high as bv64) << 32) | (low as bv64) }

  function Flag(b: bool, bit: Word): Word { if b then bit else 0 }

  predicate ReadsAsZero(addr: Word) {
    addr == 0xF11 || addr == 0xF12 || addr == 0xF14 || addr == 0x310 || addr == 0xF15 || addr == 0x30A || addr == 0x31A
  }

  /** Reads served by the CLINT. */
  predicate InClint(addr: Word) {
    addr == MSTATUS || addr == MTVEC || addr == MIP || addr == MIE
    || addr == MSCRATCH || addr == MEPC || addr == MCAUSE || addr == MTVAL
  }

  function ReadClint(c: Clint, irq: bool, addr: Word): Word {
    if addr == MSTATUS then 0x1880 | Flag(c.mie, 0x8)
    else if addr == MTVEC then VectorWord(c.tvbase)
    else if addr == MIP then Flag(irq, 0x80)
    else if addr == MIE then Flag(c.meie, 0x800) | Flag(c.mtie, 0x80)
    else if addr == MSCRATCH then c.mscratch
    else if addr == MEPC then c.mepc
    else if addr == MCAUSE then c.mcause
    else c.mtval
  }

  function ReadCsr(x: Unknown, csr: Csr, irq: bool, addr: Word): Word {
    if InClint(addr) then ReadClint(csr.clint, irq, addr)
    else if addr == MISA then 0x4000_0100
    else if addr == 0xF13 then 0x11
    else if ReadsAsZero(addr) then 0
    else if addr == MCYCLE then Low(csr.mcycle)
    else if addr == MCYCLEH then High(csr.mcycle)
    else if addr == MINSTRET then Low(csr.minstret)
    else if addr == MINSTRETH then High(csr.minstret)
    else x.word
  }

  function CsrResult(control: bv2, old_: Word, data: Word): Word {
    if control == 0 then old_
    else if control == 1 then data
    else if control == 2 then old_ | data
    else old_ & (data ^ 0xFFFF_FFFF)
  }

  function VectorField(w: Word): bv30 { (w >> 2) as bv30 }

  function VectorWord(t: bv30): Word { (t as Word) << 2 }

  /** The CLINT's write port: enabled by the address alone, whatever the write control says. */
  function WriteClint(c: Clint, addr: Word, r: Word): Clint {
    if addr == MSTATUS then c.(mie := r & 0x8 != 0)
    else if addr == MTVEC then c.(tvbase := VectorField(r))
    else if addr == MIE then c.(mtie := r & 0x80 != 0, meie := r & 0x800 != 0)
    else if addr == MEPC then c.(mepc := r)
    else if addr == MCAUSE then c.(mcause := r)
    else if addr == MTVAL then c.(mtval := r)
    else if addr == MSCRATCH then c.(mscratch := r)
    else c
  }

  function Incremented(n: bv64): bv64 { n + 1 }

  function CycleCounter(n: bv64, addr: Word, control: bv2, r: Word): bv64 {
    if addr == MCYCLE && control != 0 then Join(High(n), r)
    else if addr == MCYCLEH && control != 0 then Join(r, Low(n))
    else Incremented(n)
  }

  function RetireCounter(n: bv64, addr: Word, control: bv2, r: Word, retire: bool): bv64 {
    if addr == MINSTRET && control != 0 then Join(High(n), r)
    else if addr == MINSTRETH && control != 0 then Join(r, Low(n))
    else if retire then Incremented(n) else n
  }

  /** The value the CSR file computes for the instruction in M. */
  function CsrValue(x: Unknown, csr: Csr, irq: bool, m: BankM): Word {
    var data := if m.ctl.csrWriteDataSrc then (m.imm >> 15) & 0x1F else m.aluResult;
    CsrResult(m.ctl.csrWriteControl, ReadCsr(x, csr, irq, m.imm >> 20), data)
  }

  function ClockCsr(x: Unknown, csr: Csr, irq: bool, m: BankM): Csr {
    var addr, control, r := m.imm >> 20, m.ctl.csrWriteControl, CsrValue(x, csr, irq, m);
    Csr(CycleCounter(csr.mcycle, addr, control, r),
        RetireCounter(csr.minstret, addr, control, r, m.ctl.retire),
        WriteClint(csr.clint, addr, r))
  }

  // ---------- Memory stage (hw/core/stages/memoryCL.sv) ----------

  /** The data bus: combinational reads, clocked writes; `idle` is a clock edge without a write. */
  datatype BusModel<!Bus> = BusModel(load: (Bus, Word, bv2) -> Word, store: (Bus, Word, Word, bv2) -> Bus, idle: Bus -> Bus)

  datatype System<Bus> = System(bus: Bus, csr: Csr)

  function LoadExtend(x: Unknown, memExt: bv3, w: Word): Word {
    if memExt == 0 then (w & 0xFF) | if w & 0x80 != 0 then 0xFFFF_FF00 else 0
    else if memExt == 1 then (w & 0xFFFF) | if w & 0x8000 != 0 then 0xFFFF_0000 else 0
    else if memExt == 2 then w
    else if memExt == 3 then w & 0xFF
    else if memExt == 4 then w & 0xFFFF
    else x.word
  }

  function LoadData<Bus>(x: Unknown, bus: BusModel<Bus>, b: Bus, m: BankM): Word {
    LoadExtend(x, m.ctl.memExt, bus.load(b, m.aluResult, m.ctl.memWC))
  }

  function ReadData<Bus>(x: Unknown, bus: BusModel<Bus>, s: System<Bus>, irq: bool, m: BankM): Word {
    if m.ctl.readDataSrc then ReadCsr(x, s.csr, irq, m.imm >> 20)
    else LoadData(x, bus, s.bus, m)
  }

  function ClockBus<Bus>(bus: BusModel<Bus>, b: Bus, m: BankM): Bus {
    if m.ctl.memWrite then bus.store(b, m.aluResult, m.writeData, m.ctl.memWC) else bus.idle(b)
  }

  function Commit<Bus>(x: Unknown, bus: BusModel<Bus>, s: System<Bus>, irq: bool, m: BankM): System<Bus> {
    System(ClockBus(bus, s.bus, m), ClockCsr(x, s.csr, irq, m))
  }

  function Tick<Bus>(bus: BusModel<Bus>, s: System<Bus>): System<Bus> {
    System(bus.idle(s.bus), s.csr.(mcycle := Incremented(s.csr.mcycle)))
  }

  // ---------- Traps (hw/core/CLINT.sv) ----------

  predicate InterruptPending(c: Clint, irq: bool) {
    c.mtie && irq && c.mie
  }

  function Enter<Bus>(s: System<Bus>, savePC: Word): System<Bus> {
    s.(csr := s.csr.(clint := s.csr.clint.(mie := false, mepc := savePC, mcause := 0x8000_0007)))
  }

  function Leave<Bus>(s: System<Bus>): System<Bus> {
    s.(csr := s.csr.(clint := s.csr.clint.(mie := true)))
  }

  function Vector(c: Clint): Word { VectorWord(c.tvbase) }

  function PlusFour(pc: Word): Word { pc + 4 }

  function CoreUnits<Bus>(program: Word -> Word, bus: BusModel<Bus>, x: Unknown): Units<System<Bus>> {
    Units(
      program,
      pc => PlusFour(pc),
      i => Decode(x, i),
      (ctl, imm, pc, a, b) => Execute(x, ctl, imm, pc, a, b),
      (ctl, imm) => IsReturn(ctl, imm),
      (s, irq, m) => ReadData(x, bus, s, irq, m),
      (s, irq, m) => Commit(x, bus, s, irq, m),
      s => Tick(bus, s),
      (s: System<Bus>, irq) => InterruptPending(s.csr.clint, irq),
      (s: System<Bus>) => Vector(s.csr.clint),
      (s: System<Bus>) => s.csr.clint.mepc,
      (s, savePC) => Enter(s, savePC),
      s => Leave(s))
  }

  const RESET_CSR := Csr(0, 0, Clint(false, false, false, 0, 0, 0, 0, 0))
}
