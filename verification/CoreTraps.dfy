/** CSR writes and traps in the real core: which instructions change a CSR, which traps are precise, and
    runs in which they are not. */
module CoreTraps {
  import opened Pipeline
  import opened PipelineProofs
  import opened Core
  import opened CoreProofs

  // ---------- What an instruction does to the CSRs ----------

  /** The clock edge of an instruction that writes no CSR. */
  function Counted(csr: Csr, retire: bool): Csr {
    csr.(mcycle := Incremented(csr.mcycle), minstret := if retire then Incremented(csr.minstret) else csr.minstret)
  }

  /** The bits of a CLINT register that a write reaches. */
  function WritableBits(addr: Word): Word {
    if addr == MSTATUS then 0x8
    else if addr == MIE then 0x880
    else if addr == MTVEC then 0xFFFF_FFFC
    else if addr == MEPC || addr == MCAUSE || addr == MTVAL || addr == MSCRATCH then 0xFFFF_FFFF
    else 0
  }

  predicate SameIn(r: Word, old_: Word, bits: Word) { (r ^ old_) & bits == 0 }

  lemma ClintKeeps(c: Clint, irq: bool, addr: Word, r: Word)
    ensures WriteClint(c, addr, r) == c <==> SameIn(r, ReadClint(c, irq, addr), WritableBits(addr))
  {
    if addr == MSTATUS {
      StatusKeeps(c, irq, r);
    } else if addr == MIE {
      EnablesKeep(c, irq, r);
    } else if addr == MTVEC {
      VectorKeeps(c, irq, r);
    } else {
      OthersKeep(c, irq, addr, r);
    }
    hide WriteClint, ReadClint, WritableBits, SameIn;
  }

  lemma StatusKeeps(c: Clint, irq: bool, r: Word)
    ensures WriteClint(c, MSTATUS, r) == c <==> SameIn(r, ReadClint(c, irq, MSTATUS), WritableBits(MSTATUS))
  {
    StatusFields(c, irq, r);
    EnableBit(r, c.mie);
    hide SameIn, Flag, WriteClint, ReadClint;
  }

  lemma StatusFields(c: Clint, irq: bool, r: Word)
    ensures WriteClint(c, MSTATUS, r) == c.(mie := r & 0x8 != 0)
    ensures ReadClint(c, irq, MSTATUS) == 0x1880 | Flag(c.mie, 0x8) && WritableBits(MSTATUS) == 0x8
  {
  }

  lemma EnablesKeep(c: Clint, irq: bool, r: Word)
    ensures WriteClint(c, MIE, r) == c <==> SameIn(r, ReadClint(c, irq, MIE), WritableBits(MIE))
  {
    hide SameIn, Flag;
    TwoEnableBits(r, c.meie, c.mtie);
  }

  lemma VectorKeeps(c: Clint, irq: bool, r: Word)
    ensures WriteClint(c, MTVEC, r) == c <==> SameIn(r, ReadClint(c, irq, MTVEC), WritableBits(MTVEC))
  {
    hide SameIn, Flag, VectorField, VectorWord;
    VectorBits(r, c.tvbase);
  }

  lemma OthersKeep(c: Clint, irq: bool, addr: Word, r: Word)
    requires addr != MSTATUS && addr != MIE && addr != MTVEC
    ensures WriteClint(c, addr, r) == c <==> SameIn(r, ReadClint(c, irq, addr), WritableBits(addr))
  {
    hide SameIn, Flag, VectorField;
    NoBits(r, ReadClint(c, irq, addr));
    AllBits(r, ReadClint(c, irq, addr));
  }

  lemma EnableBit(r: Word, mie: bool)
    ensures (r & 0x8 != 0) == mie <==> SameIn(r, 0x1880 | Flag(mie, 0x8), 0x8)
  {
  }

  lemma TwoEnableBits(r: Word, meie: bool, mtie: bool)
    ensures (r & 0x80 != 0) == mtie && (r & 0x800 != 0) == meie
       <==> SameIn(r, Flag(meie, 0x800) | Flag(mtie, 0x80), 0x880)
  {
  }

  lemma VectorBits(r: Word, t: bv30)
    ensures VectorField(r) == t <==> SameIn(r, VectorWord(t), 0xFFFF_FFFC)
  {
    hide VectorField, VectorWord, SameIn;
    VectorFields(t);
    SameFields(r, VectorWord(t));
  }

  lemma SameFields(r: Word, w: Word)
    ensures VectorField(r) == VectorField(w) <==> SameIn(r, w, 0xFFFF_FFFC)
  {
    SameShifted(r, w);
    SameNarrowed(r >> 2, w >> 2);
  }

  lemma SameShifted(r: Word, w: Word)
    ensures r >> 2 == w >> 2 <==> (r ^ w) & 0xFFFF_FFFC == 0
  {
  }

  lemma SameNarrowed(r: Word, w: Word)
    requires r < 0x4000_0000 && w < 0x4000_0000
    ensures r as bv30 == w as bv30 <==> r == w
  {
  }

  lemma NoBits(r: Word, old_: Word)
    ensures SameIn(r, old_, 0)
  {
  }

  lemma AllBits(r: Word, old_: Word)
    ensures r == old_ <==> SameIn(r, old_, 0xFFFF_FFFF)
  {
  }

  /** The register that an immediate spells. */
  function CsrAddress(imm: Word): Word { imm >> 20 }

  // ---------- The counters ----------

  lemma Joined(n: bv64, high: Word, low: Word)
    ensures Join(high, low) == n <==> High(n) == high && Low(n) == low
  {
  }

  lemma LowCounts(n: bv64)
    ensures Low(Incremented(n)) != Low(n)
  {
  }

  /** A write of r to the register at the address leaves what the clock edge would have left without it:
      the counters what they count to, and every other register the bits that can be written. */
  predicate WritesNothingNew(x: Unknown, csr: Csr, irq: bool, addr: Word, r: Word, retire: bool) {
    var cycles, instructions := Incremented(csr.mcycle), if retire then Incremented(csr.minstret) else csr.minstret;
    if addr == MCYCLE then High(cycles) == High(csr.mcycle) && Low(cycles) == r
    else if addr == MCYCLEH then false
    else if addr == MINSTRET then High(instructions) == High(csr.minstret) && Low(instructions) == r
    else if addr == MINSTRETH then !retire && High(csr.minstret) == r
    else WritableBits(addr) == 0 || SameIn(r, ReadCsr(x, csr, irq, addr), WritableBits(addr))
  }

  lemma CyclesExact(n: bv64, addr: Word, control: bv2, r: Word)
    ensures CycleCounter(n, addr, control, r) == Incremented(n)
       <==> control == 0 || (addr != MCYCLE && addr != MCYCLEH)
            || (addr == MCYCLE && High(Incremented(n)) == High(n) && Low(Incremented(n)) == r)
  {
    hide Join, High, Low, Incremented;
    Joined(Incremented(n), High(n), r);
    Joined(Incremented(n), r, Low(n));
    LowCounts(n);
  }

  lemma InstructionsExact(n: bv64, addr: Word, control: bv2, r: Word, retire: bool)
    ensures var next := if retire then Incremented(n) else n;
            (RetireCounter(n, addr, control, r, retire) == next)
            == (control == 0 || (addr != MINSTRET && addr != MINSTRETH)
                || (addr == MINSTRET && High(next) == High(n) && Low(next) == r)
                || (addr == MINSTRETH && !retire && High(n) == r))
  {
    hide Join, High, Low, Incremented;
    var next := if retire then Incremented(n) else n;
    Joined(next, High(n), r);
    Joined(next, r, Low(n));
    LowCounts(n);
  }

  lemma ClintExact(x: Unknown, csr: Csr, irq: bool, addr: Word, r: Word)
    ensures WriteClint(csr.clint, addr, r) == csr.clint <==> SameIn(r, ReadCsr(x, csr, irq, addr), WritableBits(addr))
  {
    ClintKeeps(csr.clint, irq, addr, r);
    NotInClint(x, csr, irq, addr);
    NoBits(r, ReadCsr(x, csr, irq, addr));
    NoBits(r, ReadClint(csr.clint, irq, addr));
    hide ReadClint, WriteClint, ReadCsr, WritableBits, InClint, SameIn;
  }

  lemma NotInClint(x: Unknown, csr: Csr, irq: bool, addr: Word)
    ensures InClint(addr) ==> ReadCsr(x, csr, irq, addr) == ReadClint(csr.clint, irq, addr)
    ensures !InClint(addr) ==> WritableBits(addr) == 0
  {
    hide ReadClint;
  }

  /** Exactly when the clock edge leaves the CSRs of an instruction in M as if it wrote none. */
  lemma ClockIsExact(x: Unknown, csr: Csr, irq: bool, m: BankM)
    ensures ClockCsr(x, csr, irq, m) == Counted(csr, m.ctl.retire)
       <==> m.ctl.csrWriteControl == 0
            || WritesNothingNew(x, csr, irq, CsrAddress(m.imm), CsrValue(x, csr, irq, m), m.ctl.retire)
  {
    var addr, control, r := CsrAddress(m.imm), m.ctl.csrWriteControl, CsrValue(x, csr, irq, m);
    ClockFields(x, csr, irq, m);
    hide ClockCsr;
    EdgeIsExact(x, csr, irq, addr, control, r, m.ctl.retire);
  }

  lemma ClockFields(x: Unknown, csr: Csr, irq: bool, m: BankM)
    ensures var addr, control, r := CsrAddress(m.imm), m.ctl.csrWriteControl, CsrValue(x, csr, irq, m);
            ClockCsr(x, csr, irq, m) == AfterEdge(csr, addr, control, r, m.ctl.retire)
    ensures m.ctl.csrWriteControl == 0 ==> CsrValue(x, csr, irq, m) == ReadCsr(x, csr, irq, CsrAddress(m.imm))
  {
    hide CycleCounter, RetireCounter, WriteClint, ReadCsr;
  }

  function AfterEdge(csr: Csr, addr: Word, control: bv2, r: Word, retire: bool): Csr {
    Csr(CycleCounter(csr.mcycle, addr, control, r), RetireCounter(csr.minstret, addr, control, r, retire),
        WriteClint(csr.clint, addr, r))
  }

  lemma EdgeIsExact(x: Unknown, csr: Csr, irq: bool, addr: Word, control: bv2, r: Word, retire: bool)
    requires control == 0 ==> r == ReadCsr(x, csr, irq, addr)
    ensures AfterEdge(csr, addr, control, r, retire) == Counted(csr, retire)
       <==> control == 0 || WritesNothingNew(x, csr, irq, addr, r, retire)
  {
    CyclesExact(csr.mcycle, addr, control, r);
    InstructionsExact(csr.minstret, addr, control, r, retire);
    ClintExact(x, csr, irq, addr, r);
    if control == 0 {
      UnmodifiedWrite(x, csr, irq, addr);
    }
    NoBits(r, ReadCsr(x, csr, irq, addr));
    hide WriteClint, ReadCsr, CycleCounter, RetireCounter, High, Low, Incremented, SameIn;
  }

  lemma ControlsOf(x: Unknown, i: Word)
    ensures ControlUnit(x, i).csrWriteControl == CsrWriteControl(Funct3(i)) && ControlUnit(x, i).retire == Retires(i)
  {
    hide Opcode, Funct3, MemExt, MemWC, BranchSrc, AluControl, CsrWriteControl;
  }

  lemma IssueFields<Bus>(program: Word -> Word, bus: BusModel<Bus>, x: Unknown, pc: Word, regs: RegFile)
    ensures var m := IssueAt(CoreUnits(program, bus, x), pc, regs);
            m.ctl == ControlUnit(x, program(pc)) && m.imm == Extend(x, program(pc))
  {
    hide ControlUnit, Extend, Execute;
  }

  lemma DecodedClock(x: Unknown, i: Word, csr: Csr, irq: bool, m: BankM)
    requires m.ctl.csrWriteControl == CsrWriteControl(Funct3(i)) && m.ctl.retire == Retires(i) && m.imm == Extend(x, i)
    ensures (ClockCsr(x, csr, irq, m) == Counted(csr, Retires(i)))
         == (CsrWriteControl(Funct3(i)) == 0
             || WritesNothingNew(x, csr, irq, CsrAddress(Extend(x, i)), CsrValue(x, csr, irq, m), Retires(i)))
  {
    hide CsrAddress, Extend, WritesNothingNew, ClockCsr, CsrValue, CsrWriteControl, Funct3, Retires;
    ClockIsExact(x, csr, irq, m);
  }

  /** CSR writes are not gated by the opcode: an instruction of any opcode leaves the CSRs alone, apart from
      counting, if and only if its bits 14:12 ask for no write, or it writes nothing new to the register
      that bits 31:20 of its immediate spell. */
  lemma CsrWritesAreUngated<Bus>(program: Word -> Word, bus: BusModel<Bus>, x: Unknown,
                                 pc: Word, regs: RegFile, csr: Csr, irq: bool)
    ensures var i, m := program(pc), IssueAt(CoreUnits(program, bus, x), pc, regs);
            (ClockCsr(x, csr, irq, m) == Counted(csr, Retires(i)))
            == (CsrWriteControl(Funct3(i)) == 0
                || WritesNothingNew(x, csr, irq, CsrAddress(Extend(x, i)), CsrValue(x, csr, irq, m), Retires(i)))
  {
    var m := IssueAt(CoreUnits(program, bus, x), pc, regs);
    ControlsOf(x, program(pc));
    IssueFields(program, bus, x, pc, regs);
    hide CsrAddress, IssueAt, CoreUnits, ControlUnit, Extend, WritesNothingNew, ClockCsr, CsrValue, CsrWriteControl, Funct3, Retires;
    DecodedClock(x, program(pc), csr, irq, m);
  }

  // ---------- Where a trap goes ----------

  /** The instruction in M writes the trap vector, and not what it is. */
  predicate ChangesVector(x: Unknown, csr: Csr, irq: bool, m: BankM) {
    CsrAddress(m.imm) == MTVEC && !SameIn(CsrValue(x, csr, irq, m), Vector(csr.clint), 0xFFFF_FFFC)
  }

  /** The instruction in M writes the return address, and not what it is. */
  predicate ChangesReturn(x: Unknown, csr: Csr, irq: bool, m: BankM) {
    CsrAddress(m.imm) == MEPC && CsrValue(x, csr, irq, m) != csr.clint.mepc
  }

  lemma SameVector(t: bv30, t': bv30)
    ensures VectorWord(t) == VectorWord(t') <==> t == t'
  {
    hide VectorField, VectorWord;
    VectorFields(t);
    VectorFields(t');
  }

  lemma VectorMoves(x: Unknown, csr: Csr, irq: bool, m: BankM)
    ensures Vector(ClockCsr(x, csr, irq, m).clint) != Vector(csr.clint) <==> ChangesVector(x, csr, irq, m)
  {
    VectorAfter(x, csr, irq, m);
    WrittenVector(CsrValue(x, csr, irq, m), csr.clint);
    VectorsOf(ClockCsr(x, csr, irq, m).clint, csr.clint);
    hide ClockCsr, CsrValue, SameIn, VectorField, CsrAddress, Vector;
  }

  lemma VectorsOf(c: Clint, d: Clint)
    ensures Vector(c) == Vector(d) <==> c.tvbase == d.tvbase
  {
    hide VectorWord;
    SameVector(c.tvbase, d.tvbase);
  }

  lemma WrittenVector(r: Word, c: Clint)
    ensures VectorField(r) == c.tvbase <==> SameIn(r, Vector(c), 0xFFFF_FFFC)
  {
    hide VectorField, VectorWord, SameIn;
    VectorBits(r, c.tvbase);
  }

  lemma VectorAfter(x: Unknown, csr: Csr, irq: bool, m: BankM)
    ensures ClockCsr(x, csr, irq, m).clint.tvbase
         == if CsrAddress(m.imm) == MTVEC then VectorField(CsrValue(x, csr, irq, m)) else csr.clint.tvbase
  {
    ClockFields(x, csr, irq, m);
    hide ClockCsr, CycleCounter, RetireCounter, WriteClint, CsrValue, VectorField, CsrAddress;
    TvbaseAfter(csr.clint, CsrAddress(m.imm), CsrValue(x, csr, irq, m));
  }

  lemma ReturnMoves(x: Unknown, csr: Csr, irq: bool, m: BankM)
    ensures ClockCsr(x, csr, irq, m).clint.mepc != csr.clint.mepc <==> ChangesReturn(x, csr, irq, m)
  {
    ClockFields(x, csr, irq, m);
    hide ClockCsr, CycleCounter, RetireCounter, WriteClint, CsrValue, CsrAddress;
    MepcAfter(csr.clint, CsrAddress(m.imm), CsrValue(x, csr, irq, m));
  }

  /** A trap goes where the CSRs say after the instruction in M, unless that instruction changes the
      register in question: the CLINT samples it before the write lands. */
  lemma TrapTargetIsCurrent<Bus(!new)>(program: Word -> Word, bus: BusModel<Bus>, x: Unknown, p: Pipe<System<Bus>>, irq: bool)
    requires Trap(CoreUnits(program, bus, x), p, irq)
    ensures var u := CoreUnits(program, bus, x);
            var after := u.commit(p.sys, irq, p.m);
            (TrapTarget(u, p, irq) == if u.interrupt(p.sys, irq) then u.vector(after) else u.savedPC(after))
            == if u.interrupt(p.sys, irq) then !ChangesVector(x, p.sys.csr, irq, p.m)
               else !ChangesReturn(x, p.sys.csr, irq, p.m)
  {
    VectorMoves(x, p.sys.csr, irq, p.m);
    ReturnMoves(x, p.sys.csr, irq, p.m);
    hide ClockCsr, ChangesVector, ChangesReturn, Vector, ClockBus;
  }

  // ---------- Whether an interrupt is enabled ----------

  /** The instruction in M writes mstatus or mie with the bit clear that enables the timer interrupt. */
  predicate Disables(x: Unknown, csr: Csr, irq: bool, m: BankM) {
    || (CsrAddress(m.imm) == MSTATUS && CsrValue(x, csr, irq, m) & 0x8 == 0)
    || (CsrAddress(m.imm) == MIE && CsrValue(x, csr, irq, m) & 0x80 == 0)
  }

  /** The CLINT decides on an interrupt before the write of the instruction in M lands: an interrupt that is
      taken is still enabled after that instruction if and only if it does not disable it. */
  lemma StaysEnabled(x: Unknown, csr: Csr, irq: bool, m: BankM)
    requires InterruptPending(csr.clint, irq)
    ensures InterruptPending(ClockCsr(x, csr, irq, m).clint, irq) <==> !Disables(x, csr, irq, m)
  {
    ClockFields(x, csr, irq, m);
    hide ClockCsr, CycleCounter, RetireCounter, WriteClint, CsrValue, CsrAddress;
    EnablesAfter(csr.clint, CsrAddress(m.imm), CsrValue(x, csr, irq, m));
  }

  lemma EnablesAfter(c: Clint, addr: Word, r: Word)
    ensures WriteClint(c, addr, r).mie == if addr == MSTATUS then r & 0x8 != 0 else c.mie
    ensures WriteClint(c, addr, r).mtie == if addr == MIE then r & 0x80 != 0 else c.mtie
  {
  }

  lemma EnabledBits(csr: Csr, irq: bool)
    requires InterruptPending(csr.clint, irq)
    ensures ReadClint(csr.clint, irq, MSTATUS) & 0x8 != 0 && ReadClint(csr.clint, irq, MIE) & 0x80 != 0
  {
  }

  lemma KeptSet(old_: Word, data: Word)
    ensures old_ & 0x8 != 0 ==> (old_ | data) & 0x8 != 0
    ensures old_ & 0x80 != 0 ==> (old_ | data) & 0x80 != 0
  {
  }

  /** No write, a write that sets bits, and a write elsewhere leave the interrupt enabled. */
  lemma SetsOnly(x: Unknown, csr: Csr, irq: bool, m: BankM)
    requires InterruptPending(csr.clint, irq)
    requires m.ctl.csrWriteControl == 0 || m.ctl.csrWriteControl == 2
             || (CsrAddress(m.imm) != MSTATUS && CsrAddress(m.imm) != MIE)
    ensures !Disables(x, csr, irq, m)
  {
    var old_ := ReadCsr(x, csr, irq, CsrAddress(m.imm));
    var data := if m.ctl.csrWriteDataSrc then (m.imm >> 15) & 0x1F else m.aluResult;
    EnabledBits(csr, irq);
    KeptSet(old_, data);
    hide ReadClint;
  }

  // ---------- Precise traps in the core ----------

  lemma CoreTells<Bus(!new)>(program: Word -> Word, bus: BusModel<Bus>, x: Unknown)
    ensures TellsTraps(CoreUnits(program, bus, x))
  {
  }

  /** What can be seen in the cycle of a trap: an interrupt finds nothing in M that disables it or changes
      the vector, no return in E, and the oldest instruction still in F or one that retires; a return finds
      no change of the return address in M. */
  ghost predicate SeenClean<Bus(!new)>(program: Word -> Word, bus: BusModel<Bus>, x: Unknown,
                                       p: Pipe<System<Bus>>, irq: bool, oldest: Word) {
    var returning := IsReturn(p.e.ctl, p.e.imm);
    && (InterruptPending(p.sys.csr.clint, irq) ==>
          && !Disables(x, p.sys.csr, irq, p.m) && !ChangesVector(x, p.sys.csr, irq, p.m)
          && !returning && (p.pcF == oldest || Retires(program(oldest))))
    && (returning ==> !ChangesReturn(x, p.sys.csr, irq, p.m))
  }

  /** A cycle of the core takes its trap precisely, if it takes one, exactly when that is so. */
  lemma CoreTrapIsExact<Bus(!new)>(program: Word -> Word, bus: BusModel<Bus>, x: Unknown,
                                   p: Pipe<System<Bus>>, v: Valid, a: Arch<System<Bus>>, irq: bool)
    requires Sim(CoreUnits(program, bus, x), p, v, a)
    ensures var u := CoreUnits(program, bus, x);
            ((Cycle(u, a, ActOf(u, p, v, irq), irq), Taken(u, p, irq))
             == PreciseCycle(u, a, v.m, u.interrupt(p.sys, irq), Returning(u, p), irq))
            == SeenClean(program, bus, x, p, irq, Body(u, a, v.m, irq).pc)
  {
    var u := CoreUnits(program, bus, x);
    CoreIsWellFormed(program, bus, x);
    CoreTells(program, bus, x);
    CycleIsPrecise(u, p, v, a, irq);
    CleanIsSeen(program, bus, x, p, v, a, irq);
    hide CleanTrap, SeenClean, Sim, WellFormed, Advances, TellsTraps, Cycle, PreciseCycle, Taken, Body, CoreUnits;
  }

  lemma CleanIsSeen<Bus(!new)>(program: Word -> Word, bus: BusModel<Bus>, x: Unknown,
                               p: Pipe<System<Bus>>, v: Valid, a: Arch<System<Bus>>, irq: bool)
    requires Sim(CoreUnits(program, bus, x), p, v, a)
    ensures var b := Body(CoreUnits(program, bus, x), a, v.m, irq);
            CleanTrap(CoreUnits(program, bus, x), p, b, irq) <==> SeenClean(program, bus, x, p, irq, b.pc)
  {
    var b := Body(CoreUnits(program, bus, x), a, v.m, irq);
    AfterBody(program, bus, x, p, v, a, irq);
    ControlsOf(x, program(b.pc));
    hide Sim, Body, ControlUnit, Retires, IsReturn, Commit, SeenClean, CleanTrap;
    CleanAfter(program, bus, x, p, b, irq);
  }

  lemma CleanAfter<Bus(!new)>(program: Word -> Word, bus: BusModel<Bus>, x: Unknown,
                              p: Pipe<System<Bus>>, b: Arch<System<Bus>>, irq: bool)
    requires b.sys == Commit(x, bus, p.sys, irq, p.m)
    ensures CleanTrap(CoreUnits(program, bus, x), p, b, irq) <==> SeenClean(program, bus, x, p, irq, b.pc)
  {
    ControlsOf(x, program(b.pc));
    VectorMoves(x, p.sys.csr, irq, p.m);
    ReturnMoves(x, p.sys.csr, irq, p.m);
    if InterruptPending(p.sys.csr.clint, irq) {
      StaysEnabled(x, p.sys.csr, irq, p.m);
    }
    hide ClockCsr, Disables, ChangesVector, ChangesReturn, InterruptPending, Vector, ClockBus, ControlUnit, Retires, Extend,
      Execute, IsReturn;
  }

  lemma AfterBody<Bus(!new)>(program: Word -> Word, bus: BusModel<Bus>, x: Unknown,
                             p: Pipe<System<Bus>>, v: Valid, a: Arch<System<Bus>>, irq: bool)
    requires Sim(CoreUnits(program, bus, x), p, v, a)
    ensures Body(CoreUnits(program, bus, x), a, v.m, irq).sys == Commit(x, bus, p.sys, irq, p.m)
  {
    var u := CoreUnits(program, bus, x);
    CoreIsWellFormed(program, bus, x);
    if !v.m {
      BubbleInM(u, p, v, a, irq);
    }
    hide WellFormed, Commit, Decode, Execute;
  }

  /** Every cycle of the run is seen to be clean. */
  ghost predicate CleanCycles<Bus(!new)>(program: Word -> Word, bus: BusModel<Bus>, x: Unknown, sys: System<Bus>, irqs: seq<bool>) {
    irqs != [] ==>
      var u, before, irq := CoreUnits(program, bus, x), irqs[..|irqs| - 1], irqs[|irqs| - 1];
      && CleanCycles(program, bus, x, sys, before)
      && SeenClean(program, bus, x, Run(u, sys, before), irq,
                   Body(u, ArchRun(u, sys, before), ValidAfter(u, sys, before).m, irq).pc)
  }

  /** Precise interrupts in the core: every trap of a run is precise if and only if every cycle is clean. */
  lemma CoreTrapsArePrecise<Bus(!new)>(program: Word -> Word, bus: BusModel<Bus>, x: Unknown, sys: System<Bus>, irqs: seq<bool>)
    ensures PreciseThroughout(CoreUnits(program, bus, x), sys, irqs) <==> CleanCycles(program, bus, x, sys, irqs)
  {
    var u := CoreUnits(program, bus, x);
    CoreIsWellFormed(program, bus, x);
    CoreTells(program, bus, x);
    hide CoreUnits, WellFormed, Advances, TellsTraps;
    TrapsArePrecise(u, sys, irqs);
    CleanRunIsSeen(program, bus, x, sys, irqs);
  }

  lemma {:induction false} CleanRunIsSeen<Bus(!new)>(program: Word -> Word, bus: BusModel<Bus>, x: Unknown, sys: System<Bus>, irqs: seq<bool>)
    ensures CleanRun(CoreUnits(program, bus, x), sys, irqs) <==> CleanCycles(program, bus, x, sys, irqs)
  {
    if irqs != [] {
      var u, before, irq := CoreUnits(program, bus, x), irqs[..|irqs| - 1], irqs[|irqs| - 1];
      CleanRunIsSeen(program, bus, x, sys, before);
      CoreIsWellFormed(program, bus, x);
      hide CoreUnits, WellFormed, Advances, Sim, CleanTrap, SeenClean;
      Refines(u, sys, before);
      CleanIsSeen(program, bus, x, Run(u, sys, before), ValidAfter(u, sys, before), ArchRun(u, sys, before), irq);
    }
  }

  /** An instruction that retires and does not select the trap vector or the return address for writing. */
  ghost predicate Tame(x: Unknown, i: Word) {
    Retires(i) && (CsrWriteControl(Funct3(i)) != 0 ==> CsrAddress(Extend(x, i)) != MTVEC && CsrAddress(Extend(x, i)) != MEPC)
  }

  lemma TameWritesNoTarget(x: Unknown, csr: Csr, irq: bool, m: BankM)
    requires m.ctl.csrWriteControl != 0 ==> CsrAddress(m.imm) != MTVEC && CsrAddress(m.imm) != MEPC
    ensures !ChangesVector(x, csr, irq, m) && !ChangesReturn(x, csr, irq, m)
  {
    VectorMoves(x, csr, irq, m);
    ReturnMoves(x, csr, irq, m);
    if m.ctl.csrWriteControl == 0 {
      UnmodifiedWrite(x, csr, irq, m.imm >> 20);
      ClockFields(x, csr, irq, m);
    }
    hide CycleCounter, RetireCounter, ReadCsr, WriteClint, SameIn;
  }

  /** While an interrupt is pending no return is in E, and nothing in M disables it. */
  ghost predicate InterruptsUndisturbed<Bus(!new)>(program: Word -> Word, bus: BusModel<Bus>, x: Unknown, sys: System<Bus>, irqs: seq<bool>) {
    irqs != [] ==>
      var u, before, irq := CoreUnits(program, bus, x), irqs[..|irqs| - 1], irqs[|irqs| - 1];
      var p := Run(u, sys, before);
      && InterruptsUndisturbed(program, bus, x, sys, before)
      && (InterruptPending(p.sys.csr.clint, irq) ==> !IsReturn(p.e.ctl, p.e.imm) && !Disables(x, p.sys.csr, irq, p.m))
  }

  lemma TameInM<Bus(!new)>(program: Word -> Word, bus: BusModel<Bus>, x: Unknown,
                           p: Pipe<System<Bus>>, v: Valid, a: Arch<System<Bus>>)
    requires Sim(CoreUnits(program, bus, x), p, v, a) && forall pc :: Tame(x, program(pc))
    ensures p.m.ctl.csrWriteControl != 0 ==> CsrAddress(p.m.imm) != MTVEC && CsrAddress(p.m.imm) != MEPC
  {
    ZeroWord(x);
    IssueFields(program, bus, x, a.pc, a.regs);
    ControlsOf(x, program(a.pc));
    assert Tame(x, program(a.pc));
    hide IssueAt, CsrAddress, Retires, ControlUnit, Extend, MatchesE, CsrWriteControl, Funct3, SameRegs;
  }

  /** So the interrupts of a run are precise, whenever they come, if all instructions of the program retire,
      none writes the vector or the return address, and no pending interrupt meets a return, or an
      instruction that disables it. */
  lemma {:induction false} TameProgramsArePrecise<Bus(!new)>(
      program: Word -> Word, bus: BusModel<Bus>, x: Unknown, sys: System<Bus>, irqs: seq<bool>)
    requires (forall pc :: Tame(x, program(pc))) && InterruptsUndisturbed(program, bus, x, sys, irqs)
    ensures CleanCycles(program, bus, x, sys, irqs) && PreciseThroughout(CoreUnits(program, bus, x), sys, irqs)
  {
    if irqs != [] {
      var u, before, irq := CoreUnits(program, bus, x), irqs[..|irqs| - 1], irqs[|irqs| - 1];
      TameProgramsArePrecise(program, bus, x, sys, before);
      CoreIsWellFormed(program, bus, x);
      hide CoreUnits, WellFormed, Advances, Sim, Disables, ChangesVector, ChangesReturn, Body, PreciseThroughout, CsrAddress;
      Refines(u, sys, before);
      var p, v, a := Run(u, sys, before), ValidAfter(u, sys, before), ArchRun(u, sys, before);
      TameInM(program, bus, x, p, v, a);
      TameWritesNoTarget(x, p.sys.csr, irq, p.m);
      assert Tame(x, program(Body(u, a, v.m, irq).pc));
    }
    CoreTrapsArePrecise(program, bus, x, sys, irqs);
  }

  /** An instruction that is no return, and that writes mstatus and mie only by setting bits. */
  ghost predicate Steady(x: Unknown, i: Word) {
    && !IsReturn(Decode(x, i).ctl, Decode(x, i).imm)
    && (CsrAddress(Extend(x, i)) == MSTATUS || CsrAddress(Extend(x, i)) == MIE ==>
          CsrWriteControl(Funct3(i)) == 0 || CsrWriteControl(Funct3(i)) == 2)
  }

  lemma SteadyBanks<Bus(!new)>(program: Word -> Word, bus: BusModel<Bus>, x: Unknown,
                               p: Pipe<System<Bus>>, v: Valid, a: Arch<System<Bus>>)
    requires Sim(CoreUnits(program, bus, x), p, v, a) && forall pc :: Steady(x, program(pc))
    ensures !IsReturn(p.e.ctl, p.e.imm)
    ensures p.m.ctl.csrWriteControl == 0 || p.m.ctl.csrWriteControl == 2
            || (CsrAddress(p.m.imm) != MSTATUS && CsrAddress(p.m.imm) != MIE)
  {
    SteadyE(program, bus, x, p, v, a);
    ZeroWord(x);
    IssueFields(program, bus, x, a.pc, a.regs);
    ControlsOf(x, program(a.pc));
    assert Steady(x, program(a.pc));
    hide IssueAt, CsrAddress, Retires, ControlUnit, Extend, MatchesE, CsrWriteControl, Funct3, SameRegs, IsReturn;
  }

  lemma SteadyE<Bus(!new)>(program: Word -> Word, bus: BusModel<Bus>, x: Unknown,
                           p: Pipe<System<Bus>>, v: Valid, a: Arch<System<Bus>>)
    requires Sim(CoreUnits(program, bus, x), p, v, a) && forall pc :: Steady(x, program(pc))
    ensures !IsReturn(p.e.ctl, p.e.imm)
  {
    ZeroWord(x);
    hide Decode;
    var pc := BehindM(CoreUnits(program, bus, x), v, a);
    assert Steady(x, program(pc));
    assert v.e ==> p.e.ctl == Decode(x, program(pc)).ctl && p.e.imm == Decode(x, program(pc)).imm;
  }

  /** A program of such instructions disturbs no interrupt, whenever it comes. */
  lemma {:induction false} SteadyProgramsAreUndisturbed<Bus(!new)>(
      program: Word -> Word, bus: BusModel<Bus>, x: Unknown, sys: System<Bus>, irqs: seq<bool>)
    requires forall pc :: Steady(x, program(pc))
    ensures InterruptsUndisturbed(program, bus, x, sys, irqs)
  {
    if irqs != [] {
      var u, before, irq := CoreUnits(program, bus, x), irqs[..|irqs| - 1], irqs[|irqs| - 1];
      SteadyProgramsAreUndisturbed(program, bus, x, sys, before);
      CoreIsWellFormed(program, bus, x);
      hide CoreUnits, WellFormed, Sim, Steady, Disables, CsrAddress, InterruptPending, IsReturn, Run, ValidAfter, ArchRun;
      Refines(u, sys, before);
      var p := Run(u, sys, before);
      SteadyBanks(program, bus, x, p, ValidAfter(u, sys, before), ArchRun(u, sys, before));
      if InterruptPending(p.sys.csr.clint, irq) {
        SetsOnly(x, p.sys.csr, irq, p.m);
      }
    }
  }
}
