/**
 MSR on every word of the miscellaneous space: when it is refused, and which bits
 of the CPSR or the SPSR it writes, by the bits of the instruction.
 */
module MsrLaws {
  import opened Words
  import opened ArmConstants
  import opened RegisterFile
  import opened Core
  import opened Decode
  import opened BranchOther
  import opened Instruction

  // ----- the masks, bit by bit -----

  /** Bit i of a register is among those that MSR writes: its byte is selected by bits 19..16,
      and it is a flag, a mode bit outside User mode, or bit 5 of an SPSR. */
  predicate WritesBit(ins: Word, privileged: bool, spsr: bool, i: nat) {
    Bit(ins, 16 + i / 8) && (28 <= i < 32 || (i < 4 && (privileged || spsr)) || (i == 5 && spsr))
  }

  /** Bits 27..8 of the operand must be clear. */
  predicate ReservedBit(operand: Word) {
    exists i: nat | 8 <= i < 28 :: Bit(operand, i)
  }

  lemma ByteMaskBit(ins: Word, i: nat)
    requires i < 32
    ensures Bit(ByteMask(ins), i) == Bit(ins, 16 + i / 8)
  {
    SelectorBits(ins);
    hide Bit;
    var b0, b1, b2, b3 := Bit(ins, 16), Bit(ins, 17), Bit(ins, 18), Bit(ins, 19);
    FourBytes(b0, b1, b2, b3, i);
  }

  lemma SelectorBits(ins: Word)
    ensures Bit(ins, 16) == (ins / 0x1_0000 % 2 == 1) && Bit(ins, 17) == (ins / 0x2_0000 % 2 == 1)
    ensures Bit(ins, 18) == (ins / 0x4_0000 % 2 == 1) && Bit(ins, 19) == (ins / 0x8_0000 % 2 == 1)
  {
    Pow2Values();
    assert Pow2(17) == 0x2_0000 && Pow2(18) == 0x4_0000 && Pow2(19) == 0x8_0000;
    hide Bit, Pow2;
    BitIsDigit(ins, 16);
    BitIsDigit(ins, 17);
    BitIsDigit(ins, 18);
    BitIsDigit(ins, 19);
  }

  function FullByte(on: bool): (b: nat)
    ensures b < 0x100
  {
    if on then 0xFF else 0
  }

  lemma FullByteBit(on: bool, i: nat)
    requires i < 8
    ensures Bit(FullByte(on), i) == on
  {
    Pow2Values();
    AllOnes(8, i);
    ZeroBit(i);
  }

  lemma FourBytes(b0: bool, b1: bool, b2: bool, b3: bool, i: nat)
    requires i < 32
    ensures var x := FullByte(b0) + FullByte(b1) * 0x100 + FullByte(b2) * 0x1_0000 + FullByte(b3) * 0x100_0000;
            Bit(x, i) == if i < 8 then b0 else if i < 16 then b1 else if i < 24 then b2 else b3
  {
    hide Bit, Pow2;
    Pow2Values();
    var x3 := FullByte(b3);
    var x2 := x3 * 0x100 + FullByte(b2);
    var x1 := x2 * 0x100 + FullByte(b1);
    SplitBit(x1 * 0x100 + FullByte(b0), x1, FullByte(b0), 8, i);
    if i < 8 {
      FullByteBit(b0, i);
    } else {
      SplitBit(x1, x2, FullByte(b1), 8, i - 8);
      if i < 16 {
        FullByteBit(b1, i - 8);
      } else {
        SplitBit(x2, x3, FullByte(b2), 8, i - 16);
        FullByteBit(if i < 24 then b2 else b3, if i < 24 then i - 16 else i - 24);
      }
    }
  }

  /** The four low bits of a constant. */
  lemma LowNibbleBit(i: nat)
    ensures Bit(0xF, i) <==> i < 4
  {
    Pow2Values();
    if i < 4 {
      AllOnes(4, i);
    } else {
      HighBitClear(0xF, 4, i);
    }
  }

  lemma UserMaskBit(i: nat)
    requires i < 32
    ensures Bit(0xF000_0000, i) <==> 28 <= i
  {
    Pow2Values();
    SplitBit(0xF000_0000, 0xF, 0, 28, i);
    ZeroBit(i);
    LowNibbleBit(if i < 28 then 0 else i - 28);
  }

  lemma PrivilegedMaskBit(i: nat)
    requires i < 32
    ensures Bit(0xF000_000F, i) <==> 28 <= i || i < 4
  {
    Pow2Values();
    SplitBit(0xF000_000F, 0xF, 0xF, 28, i);
    LowNibbleBit(if i < 28 then i else i - 28);
  }

  lemma SavedMaskBit(i: nat)
    requires i < 32
    ensures Bit(0xF000_002F, i) <==> 28 <= i || i < 4 || i == 5
  {
    Pow2Values();
    assert Pow2(1) == 2;
    hide Bit, Pow2;
    SplitBit(0xF000_002F, 0xF, 0x2F, 28, i);
    SplitBit(0x2F, 2, 0xF, 4, i);
    LowNibbleBit(if i < 28 then i else i - 28);
    BitOfPower(1, if i < 4 then 0 else i - 4);
  }

  lemma ReservedMaskBit(i: nat)
    requires i < 32
    ensures Bit(0x0FFF_FF00, i) <==> 8 <= i < 28
  {
    Pow2Values();
    assert Pow2(20) == 0x10_0000;
    hide Bit, Pow2;
    SplitBit(0x0FFF_FF00, 0xF_FFFF, 0, 8, i);
    ZeroBit(i);
    if 8 <= i < 28 {
      AllOnes(20, i - 8);
    } else if 28 <= i {
      HighBitClear(0xF_FFFF, 20, i - 8);
    }
  }

  /** The mask of an MSR has exactly the bits that it writes. */
  lemma MaskBit(ins: Word, privileged: bool, spsr: bool, i: nat)
    requires i < 32
    ensures Bit(And32(ByteMask(ins), MaskOf(privileged, spsr)), i) <==> WritesBit(ins, privileged, spsr, i)
  {
    hide Bit, Bitwise, ByteMask;
    BitwiseBit(Conj, ByteMask(ins), MaskOf(privileged, spsr), i);
    ByteMaskBit(ins, i);
    UserMaskBit(i);
    PrivilegedMaskBit(i);
    SavedMaskBit(i);
  }

  function MaskOf(privileged: bool, spsr: bool): Word {
    if spsr then 0xF000_002F else if privileged then 0xF000_000F else 0xF000_0000
  }

  lemma ReservedIsBits(operand: Word)
    ensures MsrReserved(operand) <==> ReservedBit(operand)
  {
    hide Bit, Bitwise;
    Pow2Values();
    var x := And32(operand, 0x0FFF_FF00);
    if x != 0 {
      var i := SomeBit(x, 32);
      BitwiseBit(Conj, operand, 0x0FFF_FF00, i);
      ReservedMaskBit(i);
    }
    if ReservedBit(operand) {
      var i: nat :| 8 <= i < 28 && Bit(operand, i);
      BitwiseBit(Conj, operand, 0x0FFF_FF00, i);
      ReservedMaskBit(i);
      ZeroBit(i);
    }
  }

  lemma StateIsBit(operand: Word)
    ensures And32(operand, 0x20) != 0 <==> Bit(operand, 5)
  {
    hide Bit, Bitwise;
    Pow2Values();
    var x := And32(operand, 0x20);
    BitwiseBit(Conj, operand, 0x20, 5);
    BitOfPower(5, 5);
    ZeroBit(5);
    if x != 0 {
      var i := SomeBit(x, 32);
      BitwiseBit(Conj, operand, 0x20, i);
      BitOfPower(5, i);
    }
  }

  // ----- what is written -----

  /** v is what MSR makes of `previous`: the operand in the bits that it writes and 0 in all
      others, because the mask is negated logically; if it writes no bit, bit 0 survives. */
  ghost predicate Written(ins: Word, privileged: bool, spsr: bool, previous: Word, operand: Word, v: Word) {
    if exists i: nat | i < 32 :: WritesBit(ins, privileged, spsr, i) then
      forall i: nat | i < 32 :: Bit(v, i) <==> WritesBit(ins, privileged, spsr, i) && Bit(operand, i)
    else v == previous % 2
  }

  lemma ValueWritten(ins: Word, privileged: bool, spsr: bool, previous: Word, operand: Word)
    ensures Written(ins, privileged, spsr, previous, operand,
                    MsrValue(previous, operand, And32(ByteMask(ins), MaskOf(privileged, spsr))))
  {
    hide Bit, WritesBit, MsrValue, ByteMask, And32, MaskOf;
    Pow2Values();
    var mask := And32(ByteMask(ins), MaskOf(privileged, spsr));
    if mask == 0 {
      forall i: nat | i < 32 ensures !WritesBit(ins, privileged, spsr, i) {
        MaskBit(ins, privileged, spsr, i);
        ZeroBit(i);
      }
      EmptyMask(previous, operand);
    } else {
      var some := SomeBit(mask, 32);
      MaskBit(ins, privileged, spsr, some);
      forall i: nat | i < 32
        ensures Bit(MsrValue(previous, operand, mask), i) <==> WritesBit(ins, privileged, spsr, i) && Bit(operand, i)
      {
        MaskBit(ins, privileged, spsr, i);
        MsrBits(previous, operand, mask, i);
      }
    }
  }

  // ----- every instruction of the space -----

  predicate IsMiscellaneous(ins: Word) {
    GetBits(ins, 27, 25) == 0 && Bit(ins, 24) && !Bit(ins, 23) && !Bit(ins, 20)
  }

  /** MSR refuses reserved bits, bit 5 of a CPSR outside User mode, and a missing SPSR. */
  predicate MsrRefused(m: Machine, ins: Word, operand: Word) {
    || ReservedBit(operand)
    || (!Bit(ins, 22) && m.Mode() != USR && Bit(operand, 5))
    || (Bit(ins, 22) && (m.Mode() == USR || m.Mode() == SYS))
  }

  /** Every word of the space: undefined unless it passes and has bit 21; otherwise an MSR of
      the register of bits 3..0, refused or written. */
  lemma MsrOutcome(m: Machine, ins: Word, junk: Indeterminate) returns (v: Word)
    requires IsMiscellaneous(ins) && KnownMode(m.Mode())
    ensures var operand, spsr := m.Reg(Nibble(ins, 0)), Bit(ins, 22);
            var t := Dispatched(m, ins, junk);
            if !Passes(m.Cpsr(), ins) || !Bit(ins, 21) then t == Outcome(UNDEFINED_INSTRUCTION, m)
            else if MsrRefused(m, ins, operand) then t == Outcome(DATA_ABORT, m)
            else
              var c := if spsr then Cell(SPSR, m.Mode()).value else CPSR;
              && t == Outcome(0, m.(regs := m.regs[c := v]))
              && Written(ins, m.Mode() != USR, spsr, m.regs[c], operand, v)
  {
    hide Bit, GetBits, Passes, ConditionCode, ReadReg, SeenPc, MsrValue, ByteMask, And32, MsrReserved;
    hide ReservedBit, WritesBit, Written;
    FieldsAreGetBits(ins);
    BitsAreBits(ins);
    SpacesAreBits(ins);
    MsrSpace(ins);
    ConditionPasses(m.Cpsr(), ins);
    var operand, spsr := m.Reg(Nibble(ins, 0)), Bit(ins, 22);
    assert operand == MsrOperand(m, ins);
    ReservedIsBits(operand);
    StateIsBit(operand);
    SavedCell(m);
    var previous := if spsr && m.Mode() != USR && m.Mode() != SYS then m.Spsr() else m.Cpsr();
    ValueWritten(ins, m.Mode() != USR, spsr, previous, operand);
    v := MsrValue(previous, operand, And32(ByteMask(ins), MaskOf(m.Mode() != USR, spsr)));
    assert Dispatched(m, ins, junk) == Miscellaneous(m, ins);
    hide Dispatched, MiscellaneousSpace;
  }

  lemma MsrSpace(ins: Word)
    requires MiscellaneousSpace(ins)
    ensures !Bit25(ins) && (IsMsr(ins) <==> Bit21(ins)) && Family(ins) == 0
  {
    FamilyDigits(ins / 0x200_0000);
    DivTwice(ins, 0x200_0000, 2);
  }

  lemma FamilyDigits(h: nat)
    requires h % 8 == 0
    ensures h % 2 == 0 && h / 2 % 4 == 0
  {
    DivUnique(h, 2, 4 * (h / 8), 0);
    DivUnique(4 * (h / 8), 4, h / 8, 0);
  }

  lemma SavedCell(m: Machine)
    requires KnownMode(m.Mode())
    ensures m.Mode() != USR && m.Mode() != SYS ==>
              Cell(SPSR, m.Mode()).Some? && m.Spsr() == m.regs[Cell(SPSR, m.Mode()).value]
  {
  }
}
