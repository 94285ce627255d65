/** Branches, software interrupts and the MSR instruction. */
module BranchOther {
  import opened Words
  import opened ArmConstants
  import opened RegisterFile
  import opened Core
  import opened Decode
  import opened DataProcessing

  // ----- branches -----

  /** The 24-bit immediate with bits 31..24 forced to 1 when bit 23 is set. */
  function Extended(ins: Word): Word {
    if Bit23(ins) then Immediate24(ins) + 0xFF00_0000 else Immediate24(ins)
  }

  function Displacement(ins: Word): Word {
    ShiftLeft(Extended(ins), 2)
  }

  predicate IsBlx(ins: Word) {
    Cond(ins) == 15
  }

  /** CPSR with bit 5 set. */
  function ThumbState(cpsr: Word): Word {
    if cpsr / 0x20 % 2 == 1 then cpsr else Plus(cpsr, 0x20)
  }

  /** BL and BLX keep the value read from R15 in R14. */
  function Linked(m: Machine, ins: Word): Machine {
    if Bit24(ins) || IsBlx(ins) then m.SetReg(14, m.Reg(PC)) else m
  }

  function Branched(m: Machine, ins: Word): Outcome {
    if ConditionCode(m.Cpsr(), ins) == 1 then Outcome(-1, m)
    else
      var m1 := Linked(m, ins);
      if IsBlx(ins) then
        var m2 := m1.SetReg(CPSR, ThumbState(m1.Reg(CPSR)));
        Outcome(0, m2.SetReg(PC, Plus(m2.Reg(PC), Displacement(ins) + (if Bit24(ins) then 2 else 0) - 4)))
      else Outcome(0, m1.SetReg(PC, Plus(m1.Reg(PC), Displacement(ins) as int - 4)))
  }

  method ArmBranch(p: ArmCore, ins: Word) returns (code: int)
    requires p.Valid()
    modifies p.reg.registre
    ensures p.Valid() && Outcome(code, p.Abs()) == Branched(old(p.Abs()), ins)
  {
    hide ReadReg, WriteReg, ShiftLeft, SeenPc, ConditionCode;
    ConditionCodes(p.Abs().Cpsr(), ins);
    var first := p.CondNotRespect(ins);
    var second := p.CondNotRespect(ins);
    if first == 0 || second == 2 {
      var imm := ExtendImmediate(ins);
      WriteLink(p, ins);
      if Cond(ins) == 15 {
        EnterThumb(p);
        MovePc(p, ShiftLeft(imm, 2) + (if Bit24(ins) then 2 else 0) - 4);
      } else {
        MovePc(p, ShiftLeft(imm, 2) as int - 4);
      }
      return 0;
    }
    return -1;
  }

  method ExtendImmediate(ins: Word) returns (imm: Word)
    ensures imm == Extended(ins)
  {
    imm := ins % 0x100_0000;
    if Bit23(ins) {
      ForceHighByte(imm);
      imm := Or32(imm, 0xFF00_0000);
    }
  }

  lemma ConditionCodes(cpsr: Word, ins: Word)
    ensures ConditionCode(cpsr, ins) in {0, 1, 2}
  {
  }

  method WriteLink(p: ArmCore, ins: Word)
    requires p.Valid()
    modifies p.reg.registre
    ensures p.Valid() && p.Abs() == Linked(old(p.Abs()), ins)
  {
    if Bit24(ins) || Cond(ins) == 15 {
      var pc := p.ReadRegister(15);
      p.WriteRegister(14, pc);
    }
  }

  /** R15 takes the value it reads plus an offset. */
  method MovePc(p: ArmCore, offset: int)
    requires p.Valid()
    modifies p.reg.registre
    ensures p.Valid() && p.Abs() == old(p.Abs()).SetReg(PC, Plus(old(p.Abs()).Reg(PC), offset))
  {
    var pc := p.ReadRegister(15);
    p.WriteRegister(15, Plus(pc, offset));
  }

  method EnterThumb(p: ArmCore)
    requires p.Valid()
    modifies p.reg.registre
    ensures p.Valid() && p.Abs() == old(p.Abs()).SetReg(CPSR, ThumbState(old(p.Abs()).Reg(CPSR)))
  {
    var cpsr := p.ReadRegister(16);
    SetBit5(cpsr);
    p.WriteRegister(16, Or32(cpsr, 0x20));
  }

  lemma ForceHighByte(imm: Word)
    requires imm < 0x100_0000
    ensures Or(imm, 0xFF00_0000) == imm + 0xFF00_0000
  {
    Pow2Values();
    OrDisjoint(0xFF, imm, 24);
  }

  lemma SetBit5(x: Word)
    ensures Or(x, 0x20) == ThumbState(x)
  {
    Pow2Values();
    BitIsDigit(x, 5);
    OrOneBit(x, 5);
    BitwiseBound(Disj, x, 0x20, 32);
  }

  // ----- software interrupts -----

  function OthersSwi(ins: Word): int {
    if Bit24(ins) then SOFTWARE_INTERRUPT else UNDEFINED_INSTRUCTION
  }

  // ----- MSR -----

  /** The encoding test of MSR. */
  predicate IsMsr(ins: Word) {
    ins / 0x400_0000 % 4 == 0 && Bit24(ins) && !Bit23(ins) && Bit21(ins) && !Bit20(ins)
  }

  /** The encoding test of BX, made after that of MSR, never succeeds on its own: the
      branch that would execute BX is dead. */
  lemma BxIsCapturedByMsr(ins: Word)
    requires ins / 0x10_0000 % 0x100 == 18
    ensures IsMsr(ins)
  {
    var h := ins / 0x10_0000;
    assert ins / 0x20_0000 == h / 2;
    assert ins / 0x80_0000 == h / 8;
    assert ins / 0x100_0000 == h / 16;
    assert ins / 0x400_0000 == h / 64;
    BitsOf18(h, h / 0x100);
  }

  lemma BitsOf18(h: nat, k: nat)
    requires h == 0x100 * k + 18
    ensures h % 2 == 0 && h / 2 % 2 == 1 && h / 8 % 2 == 0 && h / 16 % 2 == 1 && h / 64 % 4 == 0
  {
    DivUnique(h, 2, 0x80 * k + 9, 0);
    DivUnique(0x80 * k + 9, 2, 0x40 * k + 4, 1);
    DivUnique(h, 8, 0x20 * k + 2, 2);
    DivUnique(0x20 * k + 2, 2, 0x10 * k + 1, 0);
    DivUnique(h, 16, 0x10 * k + 1, 2);
    DivUnique(0x10 * k + 1, 2, 8 * k, 1);
    DivUnique(h, 64, 4 * k, 18);
    DivUnique(4 * k, 4, k, 0);
  }

  function MsrOperand(m: Machine, ins: Word): Word {
    if Bit25(ins) then RotateRight(Immediate8(ins), Rotation(ins)) else m.Reg(Rm(ins))
  }

  function ByteMask(ins: Word): Word {
    (if ins / 0x1_0000 % 2 == 1 then 0xFF else 0)
    + (if ins / 0x2_0000 % 2 == 1 then 0xFF00 else 0)
    + (if ins / 0x4_0000 % 2 == 1 then 0xFF_0000 else 0)
    + (if ins / 0x8_0000 % 2 == 1 then 0xFF00_0000 else 0)
  }

  function And32(x: Word, y: Word): Word {
    AndBound(x, y);
    And(x, y)
  }

  /** `(old & !mask) | (operand & mask)`: the code negates the mask logically, so that only
      bit 0 of the old value can survive, and only under an empty mask. */
  function MsrValue(previous: Word, operand: Word, mask: Word): Word {
    Or32(And32(previous, if mask == 0 then 1 else 0), And32(operand, mask))
  }

  /** The value that the manual gives for MSR: `(old & ~mask) | (operand & mask)`. */
  function ManualMsrValue(previous: Word, operand: Word, mask: Word): Word {
    Or32(And32(previous, Not(mask)), And32(operand, mask))
  }

  /** The bits of both values. */
  lemma MsrBits(previous: Word, operand: Word, mask: Word, i: nat)
    requires i < 32
    ensures mask != 0 ==> (Bit(MsrValue(previous, operand, mask), i) <==> Bit(operand, i) && Bit(mask, i))
    ensures Bit(ManualMsrValue(previous, operand, mask), i)
       <==> if Bit(mask, i) then Bit(operand, i) else Bit(previous, i)
    ensures Bit(And32(previous, Not(mask)), i) <==> Bit(previous, i) && !Bit(mask, i)
  {
    NotBit(mask, i);
    BitwiseBit(Conj, previous, Not(mask), i);
    BitwiseBit(Conj, operand, mask, i);
    BitwiseBit(Disj, And32(previous, Not(mask)), And32(operand, mask), i);
    if mask != 0 {
      AndZero(previous);
      ZeroBit(i);
      BitwiseBit(Disj, 0, And32(operand, mask), i);
    }
  }

  /** MSR writes what the manual says exactly when the register it overwrites has no bit
      outside the mask; under an empty mask, exactly when it holds 0 or 1. */
  lemma MsrMatchesManual(previous: Word, operand: Word, mask: Word)
    ensures MsrValue(previous, operand, mask) == ManualMsrValue(previous, operand, mask)
       <==> if mask == 0 then previous < 2 else And(previous, Not(mask)) == 0
  {
    if mask == 0 {
      EmptyMask(previous, operand);
    } else {
      NonEmptyMask(previous, operand, mask);
    }
  }

  /** Writing the flag byte of a CPSR in User mode: the manual keeps the mode bits, the code
      clears them. */
  lemma MsrClearsMode()
    ensures MsrValue(0x10, 0, 0xF000_0000) == 0 && ManualMsrValue(0x10, 0, 0xF000_0000) == 0x10
  {
    hide And, Or;
    AndZero(0x10);
    AndZero(0xF000_0000);
    OrZero(0);
    OrZero(0x10);
    assert And(0x10, 0x0FFF_FFFF) == 0x10 by {
      Pow2Values();
      assert Pow2(28) == 0x1000_0000;
      AndLowMask(0x10, 28);
    }
  }

  lemma EmptyMask(previous: Word, operand: Word)
    ensures MsrValue(previous, operand, 0) == previous % 2 && ManualMsrValue(previous, operand, 0) == previous
  {
    hide And, Or;
    AndZero(operand);
    LowBit(previous);
    AllBits(previous);
    OrZero(previous % 2);
    OrZero(previous);
  }

  lemma LowBit(x: Word)
    ensures And(x, 1) == x % 2
  {
    AndLowMask(x, 1);
    assert Pow2(1) == 2;
  }

  lemma AllBits(x: Word)
    ensures And(x, 0xFFFF_FFFF) == x
  {
    Pow2Values();
    AndLowMask(x, 32);
  }

  lemma NonEmptyMask(previous: Word, operand: Word, mask: Word)
    requires mask != 0
    ensures MsrValue(previous, operand, mask) == ManualMsrValue(previous, operand, mask)
       <==> And(previous, Not(mask)) == 0
  {
    var x, y := MsrValue(previous, operand, mask), ManualMsrValue(previous, operand, mask);
    var rest := And32(previous, Not(mask));
    Pow2Values();
    if rest == 0 {
      forall i: nat | i < 32 ensures Bit(x, i) == Bit(y, i) {
        MsrBits(previous, operand, mask, i);
        ZeroBit(i);
      }
      SameBits(x, y, 32);
    }
    if x == y {
      forall i: nat | i < 32 ensures Bit(rest, i) == Bit(0, i) {
        MsrBits(previous, operand, mask, i);
        ZeroBit(i);
      }
      SameBits(rest, 0, 32);
    }
  }

  /** Reserved bits (27..8) of the operand must be 0. */
  predicate MsrReserved(operand: Word) {
    And32(operand, 0x0FFF_FF00) != 0
  }

  function Msr(m: Machine, ins: Word): Outcome {
    var operand := MsrOperand(m, ins);
    if MsrReserved(operand) then Outcome(DATA_ABORT, m)
    else if !Bit22(ins) then
      if m.Mode() != USR && And32(operand, 0x20) != 0 then Outcome(DATA_ABORT, m)
      else
        var mask := And32(ByteMask(ins), if m.Mode() != USR then 0xF000_000F else 0xF000_0000);
        Outcome(0, m.SetCpsr(MsrValue(m.Cpsr(), operand, mask)))
    else if HasSpsr(m.Mode()) then
      Outcome(0, m.SetSpsr(MsrValue(m.Spsr(), operand, And32(ByteMask(ins), 0xF000_002F))))
    else Outcome(DATA_ABORT, m)
  }

  function Miscellaneous(m: Machine, ins: Word): Outcome {
    if ConditionCode(m.Cpsr(), ins) == 0 && IsMsr(ins) then Msr(m, ins)
    else Outcome(UNDEFINED_INSTRUCTION, m)
  }

  method FonctionMsr(p: ArmCore, ins: Word) returns (code: int)
    requires p.Valid()
    modifies p.reg.registre
    ensures p.Valid() && Outcome(code, p.Abs()) == Msr(old(p.Abs()), ins)
  {
    var operand: Word;
    if Bit25(ins) {
      operand := RotateRight(ins % 0x100, ins / 0x100 % 16 * 2);
    } else {
      operand := p.ReadRegister(ins % 16);
    }
    if And32(operand, 0x0FFF_FF00) != 0 {
      return DATA_ABORT;
    }
    var mask: Word;
    if !Bit22(ins) {
      var privileged := p.InAPrivilegedMode();
      if privileged {
        if And32(operand, 0x20) != 0 {
          return DATA_ABORT;
        }
        mask := And32(ByteMask(ins), 0xF000_000F);
      } else {
        mask := And32(ByteMask(ins), 0xF000_0000);
      }
      var cpsr := p.ReadCpsr();
      p.WriteCpsr(MsrValue(cpsr, operand, mask));
      return 0;
    }
    var has := p.CurrentModeHasSpsr();
    if has {
      mask := And32(ByteMask(ins), 0xF000_002F);
      var spsr := p.ReadSpsr();
      p.WriteSpsr(MsrValue(spsr, operand, mask));
      return 0;
    }
    return DATA_ABORT;
  }

  method ArmMiscellaneous(p: ArmCore, ins: Word) returns (code: int)
    requires p.Valid()
    modifies p.reg.registre
    ensures p.Valid() && Outcome(code, p.Abs()) == Miscellaneous(old(p.Abs()), ins)
  {
    var skip := p.CondNotRespect(ins);
    if skip == 0 {
      if IsMsr(ins) {
        code := FonctionMsr(p, ins);
        return;
      }
    }
    return UNDEFINED_INSTRUCTION;
  }
}
