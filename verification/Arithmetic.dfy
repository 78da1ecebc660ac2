/** What the ALU and the flag decoder compute, as numbers: the words of Core are read in binary, and
    sums, branches and set-less-than are shown to be the ones RV32I asks for. */
module Arithmetic {
  import opened Pipeline
  import opened Core

  // ---------- Words as numbers ----------

  type Wide = bv33

  ghost function Half(w: Wide): Wide { w >> 1 }

  ghost function Plus(x: Wide, y: Wide): Wide { x + y }

  ghost predicate Odd(w: Wide) { w & 1 == 1 }

  ghost predicate Narrow(w: Wide) { w >> 32 == 0 }

  ghost function Bit(b: bool): nat { if b then 1 else 0 }

  ghost function Number(w: Wide): nat
    decreases w
  {
    if w == 0 then 0 else HalfIsLess(w); 2 * Number(Half(w)) + Bit(Odd(w))
  }

  ghost function Unsigned(w: Word): nat { Number(w as Wide) }

  ghost function Signed(w: Word): int { Unsigned(w) - if Bit31(w) then 0x1_0000_0000 else 0 }

  lemma HalfIsLess(w: Wide)
    requires w != 0
    ensures Half(w) < w
  {
  }

  lemma HalfOfZero()
    ensures Half(0) == 0 && !Odd(0)
  {
  }

  lemma Halve(w: Wide)
    ensures Number(w) == 2 * Number(Half(w)) + Bit(Odd(w))
  {
    hide Half, Odd;
    HalfOfZero();
  }

  lemma SameHalves(x: Wide, y: Wide)
    requires Half(x) == Half(y) && (Odd(x) <==> Odd(y))
    ensures x == y
  {
  }

  lemma {:induction false} OnlyZero(y: Wide)
    requires Number(y) == 0
    ensures y == 0
    decreases y
  {
    hide Half, Odd;
    if y != 0 {
      Halve(y);
      HalfIsLess(y);
      OnlyZero(Half(y));
      HalfOfZero();
      SameHalves(y, 0);
    }
  }

  lemma {:induction false} SameNumber(x: Wide, y: Wide)
    requires Number(x) == Number(y)
    ensures x == y
    decreases Number(x)
  {
    hide Half, Odd;
    if Number(x) == 0 {
      OnlyZero(x);
      OnlyZero(y);
    } else {
      Halve(x);
      Halve(y);
      SameNumber(Half(x), Half(y));
      SameHalves(x, y);
    }
  }

  // ---------- Bits of a sum ----------

  lemma PlusIs(x: Wide, y: Wide)
    ensures Plus(x, y) == x + y
  {
  }

  lemma HalfIs(w: Wide)
    ensures Half(w) == w >> 1
  {
  }

  lemma NarrowIs(w: Wide)
    requires Narrow(w)
    ensures w >> 32 == 0
  {
  }

  lemma SumWithoutCarry(x: Wide, y: Wide)
    requires Narrow(x) && Narrow(y) && !(Odd(x) && Odd(y))
    ensures Half(Plus(x, y)) == Plus(Half(x), Half(y))
  {
    hide Half, Plus, Narrow, Odd;
    NoCarry(x, y);
    NarrowIs(x);
    NarrowIs(y);
    var u, v, s := Half(x), Half(y), Plus(x, y);
    HalfIs(x);
    HalfIs(y);
    PlusIs(x, y);
    HalfIs(s);
    PlusIs(u, v);
    HalfWithoutCarry(x, y, u, v, s);
  }

  lemma NoCarry(x: Wide, y: Wide)
    requires !(Odd(x) && Odd(y))
    ensures x & y & 1 == 0
  {
  }

  lemma HalfWithoutCarry(x: Wide, y: Wide, u: Wide, v: Wide, s: Wide)
    requires x >> 32 == 0 && y >> 32 == 0 && x & y & 1 == 0
    requires u == x >> 1 && v == y >> 1 && s == x + y
    ensures s >> 1 == u + v
  {
  }

  lemma OddSum(x: Wide, y: Wide)
    ensures Odd(Plus(x, y)) <==> (Odd(x) != Odd(y))
  {
  }

  lemma OddNext(s: Wide)
    requires Odd(s) && s != 0x1_FFFF_FFFF
    ensures Half(Plus(s, 1)) == Plus(Half(s), 1) && !Odd(Plus(s, 1)) && Half(s) != 0x1_FFFF_FFFF
  {
  }

  lemma EvenNext(s: Wide)
    requires !Odd(s)
    ensures Half(Plus(s, 1)) == Half(s) && Odd(Plus(s, 1))
  {
  }

  lemma SumIsNotAllOnes(x: Wide, y: Wide)
    requires Narrow(x) && Narrow(y)
    ensures Plus(x, y) != 0x1_FFFF_FFFF
  {
  }

  ghost function Evened(x: Wide): Wide { x ^ 1 }

  lemma EvenedIsEven(x: Wide)
    requires Odd(x) && Narrow(x)
    ensures Half(Evened(x)) == Half(x) && !Odd(Evened(x)) && Narrow(Evened(x))
  {
  }

  lemma EvenedNext(x: Wide)
    requires Odd(x)
    ensures Plus(Evened(x), 1) == x
  {
  }

  lemma PlusMoves(x: Wide, y: Wide, c: Wide)
    ensures Plus(Plus(x, c), y) == Plus(Plus(x, y), c)
  {
    hide Plus;
    PlusIs(x, c);
    PlusIs(x, y);
    SumsRegrouped(x, y, c);
  }

  lemma SumsRegrouped(x: Wide, y: Wide, c: Wide)
    ensures Plus(x + c, y) == Plus(x + y, c)
  {
    hide Plus;
    BothAre(x, y, c);
  }

  lemma BothAre(x: Wide, y: Wide, c: Wide)
    ensures Plus(x + c, y) == x + c + y && Plus(x + y, c) == x + y + c
  {
  }

  lemma HalfIsNarrow(x: Wide)
    requires Narrow(x)
    ensures Narrow(Half(x))
  {
  }

  lemma ZeroPlus(y: Wide)
    ensures Plus(0, y) == y
  {
  }

  // ---------- Addition ----------

  lemma {:induction false} NextNumber(s: Wide)
    requires s != 0x1_FFFF_FFFF
    ensures Number(Plus(s, 1)) == Number(s) + 1
    decreases Number(s)
  {
    hide Half, Odd, Plus;
    Halve(s);
    Halve(Plus(s, 1));
    if Odd(s) {
      OddNext(s);
      NextNumber(Half(s));
    } else {
      EvenNext(s);
    }
  }

  lemma {:induction false} SumOfNumbers(x: Wide, y: Wide)
    requires Narrow(x) && Narrow(y)
    ensures Number(Plus(x, y)) == Number(x) + Number(y)
    decreases Number(x)
  {
    hide Half, Odd, Plus, Narrow;
    if Number(x) == 0 {
      OnlyZero(x);
      ZeroPlus(y);
    } else {
      Halve(x);
      Halve(y);
      HalfIsNarrow(x);
      HalfIsNarrow(y);
      SumOfNumbers(Half(x), Half(y));
      if Odd(x) && Odd(y) {
        BothOdd(x, y);
      } else {
        SumWithoutCarry(x, y);
        OddSum(x, y);
        Halve(Plus(x, y));
      }
    }
  }

  lemma BothOdd(x: Wide, y: Wide)
    requires Narrow(x) && Narrow(y) && Odd(x) && Odd(y)
    ensures Number(Plus(x, y)) == 2 * Number(Plus(Half(x), Half(y))) + 2
  {
    hide Half, Odd, Plus, Narrow, Evened;
    var e := Evened(x);
    EvenedIsEven(x);
    SumWithoutCarry(e, y);
    OddSum(e, y);
    SumIsNotAllOnes(e, y);
    NextNumber(Plus(e, y));
    Halve(Plus(e, y));
    EvenedNext(x);
    PlusMoves(e, y, 1);
  }

  // ---------- Single bits and complements ----------

  lemma {:induction false} DisjointNumbers(x: Wide, y: Wide)
    requires Disjoint(x, y)
    ensures Number(Either(x, y)) == Number(x) + Number(y)
    decreases Number(x) + Number(y)
  {
    hide Half, Odd, Disjoint, Either;
    if Number(x) + Number(y) == 0 {
      OnlyZero(x);
      OnlyZero(y);
      EitherOfZeros();
    } else {
      Halve(x);
      Halve(y);
      Halve(Either(x, y));
      HalfOfEither(x, y);
      DisjointNumbers(Half(x), Half(y));
    }
  }

  ghost predicate Disjoint(x: Wide, y: Wide) { x & y == 0 }

  ghost function Either(x: Wide, y: Wide): Wide { x | y }

  lemma EitherOfZeros()
    ensures Either(0, 0) == 0
  {
  }

  lemma HalfOfEither(x: Wide, y: Wide)
    requires Disjoint(x, y)
    ensures Half(Either(x, y)) == Either(Half(x), Half(y)) && Disjoint(Half(x), Half(y))
    ensures Odd(Either(x, y)) <==> Odd(x) || Odd(y)
    ensures !(Odd(x) && Odd(y))
  {
  }

  ghost function Above(w: Wide): Wide { w >> 8 }

  /** The number of a word is at least that of its high bytes. */
  lemma DropByte(w: Wide)
    ensures 256 * Number(Above(w)) <= Number(w) < 256 * Number(Above(w)) + 256
  {
    hide Half, Odd, Above;
    DropBits(w);
    EightHalves(w);
  }

  lemma EightHalves(w: Wide)
    ensures Half(Half(Half(Half(Half(Half(Half(Half(w)))))))) == Above(w)
  {
  }

  lemma DropBits(w: Wide)
    ensures var q := Number(Half(Half(Half(Half(Half(Half(Half(Half(w)))))))));
            256 * q <= Number(w) < 256 * q + 256
  {
    hide Half, Odd;
    DropHalfByte(w);
    DropHalfByte(Half(Half(Half(Half(w)))));
  }

  lemma DropHalfByte(w: Wide)
    ensures var q := Number(Half(Half(Half(Half(w)))));
            16 * q <= Number(w) < 16 * q + 16
  {
    hide Half, Odd;
    var a := Half(w);
    var b := Half(a);
    var c := Half(b);
    Halve(w);
    Halve(a);
    Halve(b);
    Halve(c);
  }

  // ---------- The carry and the sign bit ----------

  ghost predicate Top(v: Wide) { v >> 32 == 1 }

  lemma TopBit(v: Wide)
    ensures Top(v) <==> Number(v) >= 0x1_0000_0000
  {
    hide Top, Above;
    var a := Above(v);
    var b := Above(a);
    var c := Above(b);
    var d := Above(c);
    DropByte(v);
    DropByte(a);
    DropByte(b);
    DropByte(c);
    FourBytes(v);
    OneBit(Top(v));
  }

  lemma FourBytes(v: Wide)
    ensures Above(Above(Above(Above(v)))) == if Top(v) then 1 else 0
  {
  }

  lemma OneBit(b: bool)
    ensures Number(if b then 1 else 0) == Bit(b)
  {
    hide Half, Odd;
    Halve(1);
    HalfOfOne();
  }

  lemma HalfOfOne()
    ensures Half(1) == 0 && Odd(1)
  {
  }

  ghost function Widened(w: Word): Wide { w as Wide }

  lemma WidenedIsNarrow(w: Word)
    ensures Narrow(Widened(w)) && !Top(Widened(w))
  {
  }

  lemma UnsignedBound(w: Word)
    ensures Unsigned(w) < 0x1_0000_0000
  {
    hide Top, Narrow;
    WidenedIsNarrow(w);
    TopBit(Widened(w));
  }

  ghost function Doubled(w: Word): Wide { (w as Wide) << 1 }

  lemma DoubledIs(w: Word)
    ensures Half(Doubled(w)) == Widened(w) && !Odd(Doubled(w)) && (Top(Doubled(w)) <==> Bit31(w))
  {
  }

  lemma SignBit(w: Word)
    ensures Bit31(w) <==> Unsigned(w) >= 0x8000_0000
  {
    hide Half, Odd, Top, Bit31, Doubled;
    DoubledIs(w);
    Halve(Doubled(w));
    TopBit(Doubled(w));
  }

  const CARRY: Wide := 0x1_0000_0000

  lemma CarryIs()
    ensures Number(CARRY) == 0x1_0000_0000
  {
    hide Top, Plus;
    AllOnes();
    TopBit(0xFFFF_FFFF);
    TopBit(CARRY);
    NextNumber(0xFFFF_FFFF);
  }

  lemma AllOnes()
    ensures Plus(0xFFFF_FFFF, 1) == CARRY && Top(CARRY) && !Top(0xFFFF_FFFF)
  {
  }

  ghost function Low(v: Wide): Wide { v & 0xFFFF_FFFF }

  ghost function High(v: Wide): Wide { v & CARRY }

  lemma LowAndHigh(v: Wide)
    ensures Disjoint(Low(v), High(v)) && Either(Low(v), High(v)) == v
  {
  }

  lemma HighIs(v: Wide)
    ensures High(v) == if Top(v) then CARRY else 0
  {
    HighBit(v);
  }

  lemma HighBit(v: Wide)
    ensures v & CARRY == if v >> 32 == 1 then CARRY else 0
  {
  }

  /** What is left of a sum when the carry is dropped. */
  lemma WithoutCarry(v: Wide)
    ensures Number(v) == Number(Low(v)) + if Top(v) then 0x1_0000_0000 else 0
  {
    hide Low, High, Top, Disjoint, Either;
    LowAndHigh(v);
    HighIs(v);
    DisjointNumbers(Low(v), High(v));
    CarryIs();
  }

  ghost function Complement(w: Word): Word { w ^ 0xFFFF_FFFF }

  lemma ComplementIs(w: Word)
    ensures Disjoint(Widened(w), Widened(Complement(w)))
    ensures Either(Widened(w), Widened(Complement(w))) == 0xFFFF_FFFF
  {
  }

  lemma ComplementNumber(w: Word)
    ensures Unsigned(Complement(w)) == 0xFFFF_FFFF - Unsigned(w)
  {
    hide Top, Plus, Complement, Disjoint, Either;
    ComplementIs(w);
    DisjointNumbers(Widened(w), Widened(Complement(w)));
    AllOnes();
    CarryIs();
    NextNumber(0xFFFF_FFFF);
  }

  // ---------- The adder of the ALU ----------

  lemma AdderIs(x: Wide, y: Wide)
    ensures Adder32(x, y, 0) == Plus(x, y)
    ensures Adder32(x, y, 1) == Plus(Plus(x, y), 1)
  {
    hide Plus;
    PlusIs(x, y);
    NextOfSum(x, y);
  }

  lemma NextOfSum(x: Wide, y: Wide)
    ensures Plus(x + y, 1) == x + y + 1
  {
  }

  lemma TotalIs(control: bv3, a: Word, b: Word)
    ensures Low(Total(control, a, b)) == Widened(Sum(control, a, b))
    ensures Top(Total(control, a, b)) <==> CarryOut(control, a, b)
  {
    hide Total;
  }

  lemma OperandIs(b: Word)
    ensures AdderOperand(0, b) == b && AdderOperand(1, b) == Complement(b)
  {
  }

  lemma TotalAdds(control: bv3, a: Word, b: Word)
    ensures Total(control, a, b)
      == Adder32(Widened(a), Widened(AdderOperand(control, b)), if control == 1 then 1 else 0)
  {
    hide Adder32, AdderOperand;
  }

  /** The sum and the carry together are the exact sum or difference of the operands. */
  lemma AdderIsExact(a: Word, b: Word)
    ensures Unsigned(Sum(0, a, b)) + (if CarryOut(0, a, b) then 0x1_0000_0000 else 0)
      == Unsigned(a) + Unsigned(b)
    ensures Unsigned(Sum(1, a, b)) + (if CarryOut(1, a, b) then 0x1_0000_0000 else 0)
      == Unsigned(a) + 0x1_0000_0000 - Unsigned(b)
  {
    hide Plus, Adder32, Total, AdderOperand, Sum, CarryOut, Top, Low, Narrow, Complement;
    var c := Complement(b);
    WidenedIsNarrow(a);
    WidenedIsNarrow(b);
    WidenedIsNarrow(c);
    OperandIs(b);
    TotalAdds(0, a, b);
    TotalAdds(1, a, b);
    AdderIs(Widened(a), Widened(b));
    AdderIs(Widened(a), Widened(c));
    SumOfNumbers(Widened(a), Widened(b));
    SumOfNumbers(Widened(a), Widened(c));
    SumIsNotAllOnes(Widened(a), Widened(c));
    NextNumber(Plus(Widened(a), Widened(c)));
    ComplementNumber(b);
    WithoutCarry(Total(0, a, b));
    WithoutCarry(Total(1, a, b));
    TotalIs(0, a, b);
    TotalIs(1, a, b);
  }

  // ---------- The flag decoder ----------

  lemma FlagsOfDifference(a: Word, b: Word)
    ensures var r := Sum(1, a, b);
            AluFlags(1, a, b) == Flags(r == 0, CarryOut(1, a, b), Bit31(r),
                                       Bit31(a) != Bit31(r) && Bit31(a) != Bit31(b))
  {
    hide Sum, CarryOut, Bit31;
  }

  lemma ZeroIsZero(w: Word)
    ensures w == 0 <==> Unsigned(w) == 0
  {
    if Unsigned(w) == 0 {
      OnlyZero(Widened(w));
    }
  }

  lemma SameWord(a: Word, b: Word)
    ensures a == b <==> Unsigned(a) == Unsigned(b)
  {
    if Unsigned(a) == Unsigned(b) {
      SameNumber(Widened(a), Widened(b));
      SameWidened(a, b);
    }
  }

  lemma SameWidened(a: Word, b: Word)
    requires Widened(a) == Widened(b)
    ensures a == b
  {
  }

  /** The relation a comparison selector stands for, on whole numbers. */
  ghost predicate Related(branchSrc: bv3, a: int, b: int)
    requires branchSrc < 6
  {
    if branchSrc == 0 then a == b
    else if branchSrc == 1 then a != b
    else if branchSrc == 2 then a < b
    else if branchSrc == 3 then a > b
    else if branchSrc == 4 then a <= b
    else a >= b
  }

  lemma FlagsOrder(a: Word, b: Word)
    ensures var f, A, B := AluFlags(1, a, b), Unsigned(a), Unsigned(b);
            && (f.zero <==> A == B)
            && (!f.carry <==> A < B)
            && (f.negative != f.overflow <==> Signed(a) < Signed(b))
  {
    hide Sum, CarryOut, Bit31, Unsigned, AluFlags;
    var r := Sum(1, a, b);
    FlagsOfDifference(a, b);
    AdderIsExact(a, b);
    UnsignedBound(a);
    UnsignedBound(b);
    UnsignedBound(r);
    ZeroIsZero(r);
    SignBit(a);
    SignBit(b);
    SignBit(r);
  }

  /** The flags of a subtraction decide every comparison, of the words as unsigned or as two's
      complement numbers. */
  lemma FlagsDecideComparisons(x: Unknown, unsignedCompare: bool, branchSrc: bv3, a: Word, b: Word)
    requires branchSrc < 6
    ensures Compare(x, unsignedCompare, branchSrc, AluFlags(1, a, b))
      <==> if unsignedCompare then Related(branchSrc, Unsigned(a), Unsigned(b))
           else Related(branchSrc, Signed(a), Signed(b))
  {
    hide Unsigned, AluFlags, Bit31;
    FlagsOrder(a, b);
    SignBit(a);
    SignBit(b);
    UnsignedBound(a);
    UnsignedBound(b);
  }

  /** RV32I branches, section 2.5 of the RISC-V Unprivileged Architecture. */
  ghost predicate IsaBranch(f3: Word, a: Word, b: Word) {
    if f3 == 0 then a == b
    else if f3 == 1 then a != b
    else if f3 == 4 then Signed(a) < Signed(b)
    else if f3 == 5 then Signed(a) >= Signed(b)
    else if f3 == 6 then Unsigned(a) < Unsigned(b)
    else Unsigned(a) >= Unsigned(b)
  }

  lemma BranchControls(x: Unknown, i: Word)
    requires Opcode(i) == BRANCH
    ensures var c, f3 := ControlUnit(x, i), Funct3(i);
            && !c.jump && c.branch && !c.aluSrcB && c.aluControl == 1
            && c.branchSrc == BranchSrc(f3) && (c.unsignedCompare <==> f3 == 3 || f3 == 6 || f3 == 7)
  {
    hide Opcode, Funct3, MemExt, MemWC, CsrWriteControl, BranchSrc;
  }

  lemma SmallSelector(f3: Word)
    ensures BranchSrc(f3) < 6
  {
  }

  /** A branch instruction redirects exactly when its condition holds. */
  lemma BranchesMeetTheIsa(x: Unknown, i: Word, imm: Word, pc: Word, a: Word, b: Word)
    requires Opcode(i) == BRANCH && Funct3(i) in {0, 1, 4, 5, 6, 7}
    ensures Execute(x, ControlUnit(x, i), imm, pc, a, b).pcSrc <==> IsaBranch(Funct3(i), a, b)
  {
    hide Unsigned, Signed, AluFlags, AluResult, Compare, ControlUnit, Opcode, Funct3;
    BranchControls(x, i);
    var c := ControlUnit(x, i);
    SmallSelector(Funct3(i));
    FlagsDecideComparisons(x, c.unsignedCompare, c.branchSrc, a, b);
    SameWord(a, b);
    SameSigned(a, b);
  }

  lemma SameSigned(a: Word, b: Word)
    ensures Signed(a) == Signed(b) <==> Unsigned(a) == Unsigned(b)
  {
    hide Unsigned, Bit31;
    UnsignedBound(a);
    UnsignedBound(b);
    SignBit(a);
    SignBit(b);
  }

  lemma ComputeControls(x: Unknown, i: Word)
    requires Opcode(i) == OP || Opcode(i) == OP_IMM
    ensures var c, f3 := ControlUnit(x, i), Funct3(i);
            && !c.jump && !c.branch && c.aluSrcB == (Opcode(i) == OP_IMM)
            && (f3 == 2 || f3 == 3 ==> c.aluResultSrc == 2 && c.aluControl == 1 && c.branchSrc == 2
                                       && c.unsignedCompare == (f3 == 3))
            && (f3 == 0 ==> c.aluResultSrc == 0
                            && c.aluControl == if Opcode(i) == OP && (i >> 30) & 1 == 1 then 1 else 0)
  {
    hide Opcode, Funct3, MemExt, MemWC, CsrWriteControl;
  }

  /** Set-less-than writes one or zero, by the order of the operands. */
  lemma SetLessThanMeetsTheIsa(x: Unknown, i: Word, imm: Word, pc: Word, a: Word, rd2: Word)
    requires (Opcode(i) == OP || Opcode(i) == OP_IMM) && Funct3(i) in {2, 3}
    ensures var b := if Opcode(i) == OP_IMM then imm else rd2;
            var less := if Funct3(i) == 3 then Unsigned(a) < Unsigned(b) else Signed(a) < Signed(b);
            Execute(x, ControlUnit(x, i), imm, pc, a, rd2).aluResult == if less then 1 else 0
  {
    hide Unsigned, Signed, AluFlags, AluResult, Compare, ControlUnit, Opcode, Funct3;
    ComputeControls(x, i);
    var c := ControlUnit(x, i);
    FlagsDecideComparisons(x, c.unsignedCompare, 2, a, if Opcode(i) == OP_IMM then imm else rd2);
  }

  /** ADD, ADDI and SUB compute the sum or the difference modulo the word size. */
  lemma SumsMeetTheIsa(x: Unknown, i: Word, imm: Word, pc: Word, a: Word, rd2: Word)
    requires (Opcode(i) == OP || Opcode(i) == OP_IMM) && Funct3(i) == 0
    ensures var b := Unsigned(if Opcode(i) == OP_IMM then imm else rd2);
            Unsigned(Execute(x, ControlUnit(x, i), imm, pc, a, rd2).aluResult)
              == (if Opcode(i) == OP && (i >> 30) & 1 == 1 then Unsigned(a) - b else Unsigned(a) + b)
                 % 0x1_0000_0000
  {
    hide Unsigned, AluFlags, Compare, ControlUnit, Opcode, Funct3, Sum, CarryOut;
    ComputeControls(x, i);
    var b := if Opcode(i) == OP_IMM then imm else rd2;
    AdderIsExact(a, b);
    UnsignedBound(a);
    UnsignedBound(b);
    UnsignedBound(Sum(0, a, b));
    UnsignedBound(Sum(1, a, b));
  }

  // ---------- Shifts ----------

  predicate ShiftsLeft(i: Word) { Funct3(i) == 1 }

  predicate KeepsSign(i: Word) { (i >> 30) & 1 == 1 }

  /** The shift an instruction asks for, by an amount below 32. */
  function IsaShift(i: Word, a: Word, n: Word): Word {
    if ShiftsLeft(i) then ShiftLeft(a, n) else if KeepsSign(i) then ShiftArithmetic(a, n) else ShiftRight(a, n)
  }

  /** All that such a shift keeps of the operand are copies of the bit that it shifts in. */
  predicate ShiftsOut(i: Word, a: Word, n: Word) {
    if ShiftsLeft(i) then NoneLow(a, n)
    else if KeepsSign(i) && Bit31(a) then NoneHigh(Inverted(a), n)
    else NoneHigh(a, n)
  }

  function Inverted(a: Word): Word { a ^ 0xFFFF_FFFF }

  predicate NoneLow(a: Word, n: Word) { n < 32 ==> a & (0xFFFF_FFFF >> (n as bv6)) == 0 }

  predicate NoneHigh(a: Word, n: Word) { n < 32 ==> a & (0xFFFF_FFFF << (n as bv6)) == 0 }

  lemma LeftIsZero(a: Word, n: Word)
    requires n < 32
    ensures ShiftLeft(a, n) == 0 <==> NoneLow(a, n)
  {
    LeftIs(a, n);
    hide ShiftLeft, NoneLow;
    LowBits(a, n);
  }

  lemma LeftIs(a: Word, n: Word)
    requires n < 32
    ensures ShiftLeft(a, n) == a << (n as bv6) && (NoneLow(a, n) <==> a & (0xFFFF_FFFF >> (n as bv6)) == 0)
  {
  }

  lemma LowBits(a: Word, n: Word)
    requires n < 32
    ensures a << (n as bv6) == 0 <==> a & (0xFFFF_FFFF >> (n as bv6)) == 0
  {
  }

  lemma RightIsZero(a: Word, n: Word)
    requires n < 32
    ensures ShiftRight(a, n) == 0 <==> NoneHigh(a, n)
  {
    RightIs(a, n);
    hide ShiftRight, NoneHigh;
    HighBits(a, n);
  }

  lemma RightIs(a: Word, n: Word)
    requires n < 32
    ensures ShiftRight(a, n) == a >> (n as bv6) && (NoneHigh(a, n) <==> a & (0xFFFF_FFFF << (n as bv6)) == 0)
  {
  }

  lemma HighBits(a: Word, n: Word)
    requires n < 32
    ensures a >> (n as bv6) == 0 <==> a & (0xFFFF_FFFF << (n as bv6)) == 0
  {
  }

  lemma LowFiveIs(b: Word)
    ensures LowFive(b) < 32 && (b < 32 ==> LowFive(b) == b)
  {
  }

  lemma AllShifted(a: Word, b: Word)
    requires b >= 32
    ensures ShiftLeft(a, b) == 0 && ShiftRight(a, b) == 0
    ensures ShiftArithmetic(a, b) == if Bit31(a) then 0xFFFF_FFFF else 0
  {
  }

  lemma ArithmeticIsFilled(a: Word, n: Word)
    ensures Bit31(a) ==> (ShiftArithmetic(a, n) == 0xFFFF_FFFF <==> ShiftRight(Inverted(a), n) == 0)
    ensures !Bit31(a) ==> ShiftArithmetic(a, n) == ShiftRight(a, n)
  {
    hide ShiftRight, Bit31;
  }

  lemma LeftFull(a: Word, b: Word, n: Word)
    requires b >= 32 && n < 32
    ensures ShiftLeft(a, b) == ShiftLeft(a, n) <==> NoneLow(a, n)
  {
    hide ShiftLeft, ShiftRight, ShiftArithmetic, NoneLow, Bit31;
    AllShifted(a, b);
    LeftIsZero(a, n);
  }

  lemma RightFull(a: Word, b: Word, n: Word)
    requires b >= 32 && n < 32
    ensures ShiftRight(a, b) == ShiftRight(a, n) <==> NoneHigh(a, n)
  {
    hide ShiftLeft, ShiftRight, ShiftArithmetic, NoneHigh, Bit31;
    AllShifted(a, b);
    RightIsZero(a, n);
  }

  lemma ArithmeticFull(a: Word, b: Word, n: Word)
    requires b >= 32 && n < 32
    ensures ShiftArithmetic(a, b) == ShiftArithmetic(a, n) <==> NoneHigh(if Bit31(a) then Inverted(a) else a, n)
  {
    hide ShiftLeft, ShiftRight, ShiftArithmetic, NoneHigh, Bit31, Inverted;
    AllShifted(a, b);
    ArithmeticIsFilled(a, n);
    RightIsZero(a, n);
    RightIsZero(Inverted(a), n);
  }

  lemma ShiftIsExact(i: Word, a: Word, b: Word, n: Word)
    requires b >= 32 && n < 32
    ensures IsaShift(i, a, b) == IsaShift(i, a, n) <==> ShiftsOut(i, a, n)
  {
    hide ShiftLeft, ShiftRight, ShiftArithmetic, NoneLow, NoneHigh, Bit31, ShiftsLeft, KeepsSign, Inverted;
    LeftFull(a, b, n);
    RightFull(a, b, n);
    ArithmeticFull(a, b, n);
  }

  lemma ShiftControls(x: Unknown, i: Word)
    requires (Opcode(i) == OP || Opcode(i) == OP_IMM) && (Funct3(i) == 1 || Funct3(i) == 5)
    ensures var c := ControlUnit(x, i);
            && c.aluResultSrc == 0 && c.aluSrcB == (Opcode(i) == OP_IMM)
            && c.aluControl == if ShiftsLeft(i) then 5 else if KeepsSign(i) then 7 else 6
  {
    hide Opcode, Funct3, MemExt, MemWC, CsrWriteControl;
  }

  lemma Shifted(x: Unknown, c: Controls, imm: Word, pc: Word, a: Word, rd2: Word)
    requires c.aluResultSrc == 0 && (c.aluControl == 5 || c.aluControl == 6 || c.aluControl == 7)
    ensures var b := if c.aluSrcB then imm else rd2;
            Execute(x, c, imm, pc, a, rd2).aluResult
            == if c.aluControl == 5 then ShiftLeft(a, b) else if c.aluControl == 6 then ShiftRight(a, b) else ShiftArithmetic(a, b)
  {
    hide ShiftLeft, ShiftRight, ShiftArithmetic, AluFlags, Compare;
  }

  function LowFive(b: Word): Word { b & 0x1F }

  /** SLL, SRL and SRA shift by all 32 bits of the amount, where RV32I uses the low five: the result is the
      same if and only if the amount is below 32, or the shift by the low five bits keeps nothing of the
      operand. */
  lemma ShiftsMeetTheIsa(x: Unknown, i: Word, imm: Word, pc: Word, a: Word, rd2: Word)
    requires (Opcode(i) == OP || Opcode(i) == OP_IMM) && (Funct3(i) == 1 || Funct3(i) == 5)
    ensures var b := if Opcode(i) == OP_IMM then imm else rd2;
            (Execute(x, ControlUnit(x, i), imm, pc, a, rd2).aluResult == IsaShift(i, a, LowFive(b)))
            == (b < 32 || ShiftsOut(i, a, LowFive(b)))
  {
    hide ControlUnit, Execute, IsaShift, ShiftsOut, Opcode, Funct3, LowFive;
    ExecutedShift(x, i, imm, pc, a, rd2);
    ShiftByFive(i, a, if Opcode(i) == OP_IMM then imm else rd2);
  }

  lemma ExecutedShift(x: Unknown, i: Word, imm: Word, pc: Word, a: Word, rd2: Word)
    requires (Opcode(i) == OP || Opcode(i) == OP_IMM) && (Funct3(i) == 1 || Funct3(i) == 5)
    ensures Execute(x, ControlUnit(x, i), imm, pc, a, rd2).aluResult
         == IsaShift(i, a, if Opcode(i) == OP_IMM then imm else rd2)
  {
    ShiftControls(x, i);
    Shifted(x, ControlUnit(x, i), imm, pc, a, rd2);
    hide ControlUnit, Execute, ShiftLeft, ShiftRight, ShiftArithmetic, ShiftsLeft, KeepsSign, Opcode, Funct3;
  }

  lemma ShiftByFive(i: Word, a: Word, b: Word)
    ensures IsaShift(i, a, b) == IsaShift(i, a, LowFive(b)) <==> b < 32 || ShiftsOut(i, a, LowFive(b))
  {
    hide IsaShift, ShiftsOut, LowFive;
    LowFiveIs(b);
    if b >= 32 {
      ShiftIsExact(i, a, b, LowFive(b));
    }
  }

  /** The amount of an immediate shift is always below 32. */
  lemma ImmediateShiftsMeetTheIsa(x: Unknown, i: Word)
    requires Opcode(i) == OP_IMM && (Funct3(i) == 1 || Funct3(i) == 5)
    ensures Extend(x, i) == LowFive(i >> 20) && Extend(x, i) < 32
  {
    hide Opcode, Funct3;
  }

  // ---------- Jumps ----------

  /** RV32I clears bit 0 of the target of JALR; this core keeps it. The two agree exactly when base and
      offset are both even or both odd. */
  lemma JumpTargetMeetsTheIsa(x: Unknown, i: Word, imm: Word, pc: Word, a: Word, rd2: Word)
    requires Opcode(i) == JALR
    ensures var t := Execute(x, ControlUnit(x, i), imm, pc, a, rd2).pcTarget;
            t == WithoutBit0(imm + a) <==> imm & 1 == a & 1
  {
    hide Execute, ControlUnit, Opcode;
    JumpTarget(x, i, imm, pc, a, rd2);
    EvenSum(imm, a);
  }

  function WithoutBit0(t: Word): Word { t & 0xFFFF_FFFE }

  lemma EvenSum(imm: Word, a: Word)
    ensures imm + a == WithoutBit0(imm + a) <==> imm & 1 == a & 1
  {
    EvenTarget(imm, a);
  }

  lemma JumpTarget(x: Unknown, i: Word, imm: Word, pc: Word, a: Word, rd2: Word)
    requires Opcode(i) == JALR
    ensures Execute(x, ControlUnit(x, i), imm, pc, a, rd2).pcTarget == imm + a
  {
    hide ControlUnit, Opcode, AluFlags, AluResult, Compare;
    JumpsByRegister(x, i);
  }

  lemma JumpsByRegister(x: Unknown, i: Word)
    requires Opcode(i) == JALR
    ensures ControlUnit(x, i).targetAddressSrc
  {
    hide Opcode, Funct3, MemExt, MemWC, BranchSrc, AluControl, CsrWriteControl, Retires;
  }

  lemma EvenTarget(imm: Word, a: Word)
    ensures imm + a == (imm + a) & 0xFFFF_FFFE <==> imm & 1 == a & 1
  {
  }
}
