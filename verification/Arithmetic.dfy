/**
 What the sixteen operations compute, and the exact accounting of the carry.
 */
module Arithmetic {
  import opened Words
  import opened ArmConstants
  import opened Core
  import opened Decode
  import opened DataProcessing
  import opened Shifter

  predicate IsSum(opcode: nat) { opcode == 4 || opcode == 5 || opcode == 11 }

  predicate IsDifference(opcode: nat) { opcode == 2 || opcode == 3 || opcode == 6 || opcode == 7 || opcode == 10 }

  /** The integer that an arithmetic operation stands for. */
  function Exact(opcode: nat, rn: int, op2: int, carry: bool): int
    requires IsSum(opcode) || IsDifference(opcode)
  {
    var c := if carry then 1 else 0;
    if opcode == 4 || opcode == 11 then rn + op2
    else if opcode == 5 then rn + op2 + c
    else if opcode == 2 || opcode == 10 then rn - op2
    else if opcode == 3 then op2 - rn
    else if opcode == 6 then rn - op2 + c - 1
    else op2 - rn + c - 1
  }

  /** The bit that a logical operation or a move computes from the operand bits. */
  predicate LogicalBit(opcode: nat, a: bool, b: bool)
    requires opcode < 16 && !IsSum(opcode) && !IsDifference(opcode)
  {
    if opcode == 0 || opcode == 8 then a && b
    else if opcode == 1 || opcode == 9 then a != b
    else if opcode == 12 then a || b
    else if opcode == 13 then b
    else if opcode == 14 then a && !b
    else !b
  }

  /** r is the 32-bit result of the operation: congruent to the exact integer, or made
      of the right bits. */
  ghost predicate IsResult(opcode: nat, rn: Word, op2: Word, carry: bool, r: Word)
    requires opcode < 16
  {
    if IsSum(opcode) || IsDifference(opcode) then
      (Exact(opcode, rn, op2, carry) - r) % 0x1_0000_0000 == 0
    else
      forall i: nat | i < 32 :: Bit(r, i) <==> LogicalBit(opcode, Bit(rn, i), Bit(op2, i))
  }

  /** There is only one 32-bit result. */
  lemma ResultUnique(opcode: nat, rn: Word, op2: Word, carry: bool, r: Word, r': Word)
    requires opcode < 16
    requires IsResult(opcode, rn, op2, carry, r) && IsResult(opcode, rn, op2, carry, r')
    ensures r == r'
  {
    if IsSum(opcode) || IsDifference(opcode) {
    } else {
      Pow2Values();
      SameBits(r, r', 32);
    }
  }

  lemma ArithmeticTemp(opcode: nat, rn: Word, op2: Word, carry: bool)
    requires IsSum(opcode) || IsDifference(opcode)
    ensures var e, temp := Exact(opcode, rn, op2, carry), Temp(opcode, rn, op2, carry);
            && temp == Wrap64(e)
            && (if IsSum(opcode) then 0 <= e < 0x2_0000_0000 else -0x1_0000_0000 <= e < 0x1_0000_0000)
            && Low32(temp) == e % 0x1_0000_0000
            && (Bit32(temp) <==> e < 0 || e >= 0x1_0000_0000)
  {
    WrapSmall(Exact(opcode, rn, op2, carry));
  }

  lemma WrapSmall(e: int)
    requires -0x1_0000_0000 <= e < 0x2_0000_0000
    ensures Low32(Wrap64(e)) == e % 0x1_0000_0000
    ensures Bit32(Wrap64(e)) <==> e < 0 || e >= 0x1_0000_0000
  {
    if e < 0 {
      assert Wrap64(e) == e + 0x1_0000_0000_0000_0000;
    } else {
      assert Wrap64(e) == e;
    }
  }

  /** Below bit 32, `~x` on 64 bits has the bits of `~x` on 32 bits. */
  lemma WideNotBit(x: Word, i: nat)
    requires i < 32
    ensures Bit(0xFFFF_FFFF_FFFF_FFFF - x, i) == !Bit(x, i)
  {
    Pow2Values();
    Pow2Add(32, 32);
    Pow2Monotone(32, 64);
    Complement(x, i, 64);
  }

  lemma LogicalTempBit(opcode: nat, rn: Word, op2: Word, carry: bool, i: nat)
    requires opcode < 16 && !IsSum(opcode) && !IsDifference(opcode) && i < 32
    ensures Bit(Low32(Temp(opcode, rn, op2, carry)), i) <==> LogicalBit(opcode, Bit(rn, i), Bit(op2, i))
  {
    Pow2Values();
    BitOfRemainder(Temp(opcode, rn, op2, carry), 32, i);
    BitwiseBit(Conj, rn, op2, i);
    BitwiseBit(Xor, rn, op2, i);
    BitwiseBit(Disj, rn, op2, i);
    BitwiseBit(Conj, rn, 0xFFFF_FFFF_FFFF_FFFF - op2, i);
    WideNotBit(op2, i);
  }

  /** The low half of the temporary is the result of the operation. */
  lemma TempIsResult(opcode: nat, rn: Word, op2: Word, carry: bool)
    requires opcode < 16
    ensures IsResult(opcode, rn, op2, carry, Low32(Temp(opcode, rn, op2, carry)))
  {
    if IsSum(opcode) || IsDifference(opcode) {
      ArithmeticTemp(opcode, rn, op2, carry);
    } else {
      forall i: nat | i < 32
        ensures Bit(Low32(Temp(opcode, rn, op2, carry)), i) <==> LogicalBit(opcode, Bit(rn, i), Bit(op2, i))
      {
        LogicalTempBit(opcode, rn, op2, carry, i);
      }
    }
  }

  /** 33-bit accounting: with the flags set and Rd other than R15, the new carry makes up
      exactly for what the 32-bit result loses. Nothing below bit 28 of the CPSR moves. */
  lemma ExactAccounting(opcode: nat, rn: Word, op2: Word, m: Machine, ins: Word)
    requires IsSum(opcode) || IsDifference(opcode)
    requires KnownMode(m.Mode()) && Rd(ins) != PC && (IsCompare(opcode) || SetsFlags(ins))
    ensures var e := Exact(opcode, rn, op2, FlagC(m.Cpsr()));
            var after := Operated(opcode, rn, op2, m, ins).m;
            var result := if IsCompare(opcode) then e % 0x1_0000_0000 else after.Reg(Rd(ins));
            var carry := if FlagC(after.Cpsr()) then 0x1_0000_0000 else 0;
            && e == (if IsSum(opcode) then result + carry else result - carry)
            && after.Cpsr() % 0x1000_0000 == m.Cpsr() % 0x1000_0000
  {
    var temp := Temp(opcode, rn, op2, FlagC(m.Cpsr()));
    ArithmeticTemp(opcode, rn, op2, FlagC(m.Cpsr()));
    FlaggedOperation(opcode, rn, op2, m, ins, temp);
    var after := Operated(opcode, rn, op2, m, ins).m;
    Make33Bits(Exact(opcode, rn, op2, FlagC(m.Cpsr())), IsSum(opcode), FlagC(after.Cpsr()));
  }

  lemma Make33Bits(e: int, sum: bool, c: bool)
    requires if sum then 0 <= e < 0x2_0000_0000 else -0x1_0000_0000 <= e < 0x1_0000_0000
    requires c <==> e < 0 || e >= 0x1_0000_0000
    ensures var carry := if c then 0x1_0000_0000 else 0;
            e == if sum then e % 0x1_0000_0000 + carry else e % 0x1_0000_0000 - carry
  {
  }

  /** An operation that sets the flags: result, flags, and nothing else in the CPSR. */
  lemma FlaggedOperation(opcode: nat, rn: Word, op2: Word, m: Machine, ins: Word, temp: Long)
    requires opcode < 16 && temp == Temp(opcode, rn, op2, FlagC(m.Cpsr()))
    requires KnownMode(m.Mode()) && Rd(ins) != PC && (IsCompare(opcode) || SetsFlags(ins))
    ensures var after := Operated(opcode, rn, op2, m, ins).m;
            && after.Cpsr() == WithFlags(m.Cpsr(), temp)
            && after.Mode() == m.Mode()
            && (!IsCompare(opcode) ==> after.Reg(Rd(ins)) == Low32(temp))
  {
    ModeBelowFlags(WithFlags(m.Cpsr(), temp), m.Cpsr());
  }

  lemma ModeBelowFlags(a: Word, b: Word)
    requires a % 0x1000_0000 == b % 0x1000_0000
    ensures a % 32 == b % 32
  {
    assert a % 32 == a % 0x1000_0000 % 32;
    assert b % 32 == b % 0x1000_0000 % 32;
  }

  // ----- N and Z -----

  /** The result the flags are about: Rd, or the virtual result of a compare. */
  function Result(opcode: nat, rn: Word, op2: Word, carry: bool): Word
    requires opcode < 16
  {
    Low32(Temp(opcode, rn, op2, carry))
  }

  /** The operands for which the 64-bit temporary differs from 0 although its low half is 0:
      a sum of exactly 2^32, a difference of exactly -2^32, the complement of all ones. */
  predicate HiddenZero(opcode: nat, rn: Word, op2: Word, carry: bool)
    requires opcode < 16
  {
    if IsSum(opcode) then Exact(opcode, rn, op2, carry) == 0x1_0000_0000
    else if IsDifference(opcode) then Exact(opcode, rn, op2, carry) == -0x1_0000_0000
    else opcode == 15 && op2 == 0xFFFF_FFFF
  }

  lemma SmallTemp(opcode: nat, rn: Word, op2: Word, carry: bool)
    requires opcode < 15 && !IsSum(opcode) && !IsDifference(opcode)
    ensures Temp(opcode, rn, op2, carry) < 0x1_0000_0000
  {
    Pow2Values();
    AndBound(rn, op2);
    AndBound(rn, 0xFFFF_FFFF_FFFF_FFFF - op2);
    BitwiseBound(Xor, rn, op2, 32);
  }

  lemma HiddenZeroExact(opcode: nat, rn: Word, op2: Word, carry: bool)
    requires opcode < 16
    ensures var temp := Temp(opcode, rn, op2, carry);
            HiddenZero(opcode, rn, op2, carry) <==> Low32(temp) == 0 && temp != 0
  {
    if IsSum(opcode) || IsDifference(opcode) {
      ArithmeticTemp(opcode, rn, op2, carry);
      WrappedZero(Exact(opcode, rn, op2, carry));
    } else if opcode < 15 {
      SmallTemp(opcode, rn, op2, carry);
    }
  }

  lemma WrappedZero(e: int)
    requires -0x1_0000_0000 <= e < 0x2_0000_0000
    ensures e % 0x1_0000_0000 == 0 <==> e == 0 || e == 0x1_0000_0000 || e == -0x1_0000_0000
    ensures Wrap64(e) == 0 <==> e == 0
  {
    if e < 0 {
      assert Wrap64(e) == e + 0x1_0000_0000_0000_0000;
    }
  }

  lemma ResultBit31(temp: Long)
    ensures Bit31(temp) <==> Low32(temp) >= 0x8000_0000
  {
    var q := temp / 0x8000_0000;
    assert temp == 0x8000_0000 * q + temp % 0x8000_0000;
    assert Low32(temp) == 0x8000_0000 * (q % 2) + temp % 0x8000_0000;
  }

  /** N is the sign of the 32-bit result. Z, tested on 64 bits, says that the result is zero
      exactly when the operands are not one of the hidden zeros. */
  lemma NegativeAndZeroFlags(opcode: nat, rn: Word, op2: Word, m: Machine, ins: Word)
    requires opcode < 16 && KnownMode(m.Mode()) && Rd(ins) != PC && (IsCompare(opcode) || SetsFlags(ins))
    ensures var c := FlagC(m.Cpsr());
            var after := Operated(opcode, rn, op2, m, ins).m;
            && (FlagN(after.Cpsr()) <==> Result(opcode, rn, op2, c) >= 0x8000_0000)
            && ((FlagZ(after.Cpsr()) <==> Result(opcode, rn, op2, c) == 0) <==> !HiddenZero(opcode, rn, op2, c))
  {
    var temp := Temp(opcode, rn, op2, FlagC(m.Cpsr()));
    FlaggedOperation(opcode, rn, op2, m, ins, temp);
    HiddenZeroExact(opcode, rn, op2, FlagC(m.Cpsr()));
    ResultBit31(temp);
    FlagsOf(m.Cpsr(), temp);
    hide Operated, Temp, WithFlags, Low32, Bit31, FlagN, FlagZ, FlagC, HiddenZero;
  }

  // ----- C and V -----

  /** The carry of the manual: a carry out of a sum, no borrow in a difference. */
  predicate ManualCarry(opcode: nat, rn: Word, op2: Word, carry: bool)
    requires IsSum(opcode) || IsDifference(opcode)
  {
    var e := Exact(opcode, rn, op2, carry);
    if IsSum(opcode) then e >= 0x1_0000_0000 else e >= 0
  }

  /** The overflow of the manual: the signed result does not fit 32 bits. */
  predicate ManualOverflow(opcode: nat, rn: Word, op2: Word, carry: bool)
    requires IsSum(opcode) || IsDifference(opcode)
  {
    !(-0x8000_0000 <= Exact(opcode, Signed(rn), Signed(op2), carry) < 0x8000_0000)
  }

  /** Neither a carry into nor a borrow from bit 31. */
  predicate Bit31Alone(opcode: nat, rn: Word, op2: Word, carry: bool)
    requires IsSum(opcode) || IsDifference(opcode)
  {
    0 <= Exact(opcode, rn % 0x8000_0000, op2 % 0x8000_0000, carry) < 0x8000_0000
  }

  /** C is the carry of the manual for the sums and its opposite for the differences. V is
      the overflow of the manual exactly when nothing is carried into bit 31 or borrowed
      from it. */
  lemma CarryAndOverflowFlags(opcode: nat, rn: Word, op2: Word, m: Machine, ins: Word)
    requires IsSum(opcode) || IsDifference(opcode)
    requires KnownMode(m.Mode()) && Rd(ins) != PC && (IsCompare(opcode) || SetsFlags(ins))
    ensures var c := FlagC(m.Cpsr());
            var after := Operated(opcode, rn, op2, m, ins).m;
            && ((FlagC(after.Cpsr()) <==> ManualCarry(opcode, rn, op2, c)) <==> IsSum(opcode))
            && ((FlagV(after.Cpsr()) <==> ManualOverflow(opcode, rn, op2, c)) <==> Bit31Alone(opcode, rn, op2, c))
  {
    var c := FlagC(m.Cpsr());
    var temp := Temp(opcode, rn, op2, c);
    FlaggedOperation(opcode, rn, op2, m, ins, temp);
    ArithmeticTemp(opcode, rn, op2, c);
    WrapWide(Exact(opcode, rn, op2, c));
    CarryFlags(m.Cpsr(), temp);
    OverflowOf(opcode, rn, op2, c);
    hide Operated, Temp, WithFlags, Low32, Bit32, FlagC, FlagV, ManualOverflow, Bit31Alone, Wrap64, Exact;
  }

  lemma WrapWide(e: int)
    requires -0x1_0000_0000 <= e < 0x2_0000_0000
    ensures Wrap64(e) >= 0x1_0000_0000 <==> e < 0 || e >= 0x1_0000_0000
  {
    if e < 0 {
      assert Wrap64(e) == e + 0x1_0000_0000_0000_0000;
    }
  }

  lemma CarryFlags(cpsr: Word, temp: Long)
    ensures FlagC(WithFlags(cpsr, temp)) <==> Bit32(temp)
    ensures FlagV(WithFlags(cpsr, temp)) <==> temp >= 0x1_0000_0000
  {
  }

  lemma OverflowOf(opcode: nat, rn: Word, op2: Word, carry: bool)
    requires IsSum(opcode) || IsDifference(opcode)
    ensures var e := Exact(opcode, rn, op2, carry);
            (e < 0 || e >= 0x1_0000_0000 <==> ManualOverflow(opcode, rn, op2, carry))
            <==> Bit31Alone(opcode, rn, op2, carry)
  {
    SignParts(rn);
    SignParts(op2);
  }

  lemma SignParts(x: Word)
    ensures if x < 0x8000_0000 then x % 0x8000_0000 == x && Signed(x) == x
            else x % 0x8000_0000 == x - 0x8000_0000 && Signed(x) == x % 0x8000_0000 - 0x8000_0000
  {
  }

  /** The other operations compute no carry and no overflow: C and V say that it is MVN. */
  lemma LogicalCarryAndOverflow(opcode: nat, rn: Word, op2: Word, m: Machine, ins: Word)
    requires opcode < 16 && !IsSum(opcode) && !IsDifference(opcode)
    requires KnownMode(m.Mode()) && Rd(ins) != PC && (IsCompare(opcode) || SetsFlags(ins))
    ensures var after := Operated(opcode, rn, op2, m, ins).m;
            (FlagC(after.Cpsr()) <==> opcode == 15) && (FlagV(after.Cpsr()) <==> opcode == 15)
  {
    var temp := Temp(opcode, rn, op2, FlagC(m.Cpsr()));
    FlaggedOperation(opcode, rn, op2, m, ins, temp);
    CarryFlags(m.Cpsr(), temp);
    if opcode < 15 {
      SmallTemp(opcode, rn, op2, FlagC(m.Cpsr()));
    } else {
      WideComplement(op2);
    }
    hide Operated, WithFlags, FlagC, FlagV;
  }

  lemma WideComplement(x: Word)
    ensures 0xFFFF_FFFF_FFFF_FFFF - x >= 0x1_0000_0000 && Bit32(0xFFFF_FFFF_FFFF_FFFF - x)
  {
    DivUnique(0xFFFF_FFFF_FFFF_FFFF - x, 0x1_0000_0000, 0xFFFF_FFFF, 0xFFFF_FFFF - x);
  }

  /** 1 - 0 leaves C clear where the manual sets it; 0x7FFFFFFF + 1 leaves V clear where the
      manual sets it. */
  lemma CarryAndOverflowDiffer(m: Machine, ins: Word)
    requires KnownMode(m.Mode()) && Rd(ins) != PC && SetsFlags(ins)
    ensures ManualCarry(10, 1, 0, FlagC(m.Cpsr())) && !FlagC(Operated(10, 1, 0, m, ins).m.Cpsr())
    ensures ManualOverflow(4, 0x7FFF_FFFF, 1, FlagC(m.Cpsr()))
    ensures !FlagV(Operated(4, 0x7FFF_FFFF, 1, m, ins).m.Cpsr())
  {
    hide Operated, FlagC, FlagV, ManualCarry, ManualOverflow, Bit31Alone, SetsFlags, Rd;
    ExtremeOperands(FlagC(m.Cpsr()));
    CarryAndOverflowFlags(10, 1, 0, m, ins);
    CarryAndOverflowFlags(4, 0x7FFF_FFFF, 1, m, ins);
  }

  lemma ExtremeOperands(c: bool)
    ensures ManualCarry(10, 1, 0, c)
    ensures ManualOverflow(4, 0x7FFF_FFFF, 1, c) && !Bit31Alone(4, 0x7FFF_FFFF, 1, c)
  {
  }

  lemma FlagsOf(cpsr: Word, temp: Long)
    ensures FlagN(WithFlags(cpsr, temp)) <==> Bit31(temp)
    ensures FlagZ(WithFlags(cpsr, temp)) <==> temp == 0
    ensures temp == 0 ==> Low32(temp) == 0
  {
  }

  /** 0xFFFFFFFF + 1: the result is 0 and Z is clear. */
  lemma HiddenZeroOfAddition(m: Machine, ins: Word)
    requires KnownMode(m.Mode()) && Rd(ins) != PC && SetsFlags(ins)
    ensures var after := Operated(4, 0xFFFF_FFFF, 1, m, ins).m;
            Result(4, 0xFFFF_FFFF, 1, FlagC(m.Cpsr())) == 0 && !FlagZ(after.Cpsr())
  {
    var c := FlagC(m.Cpsr());
    ArithmeticTemp(4, 0xFFFF_FFFF, 1, c);
    assert Exact(4, 0xFFFF_FFFF, 1, c) == 0x1_0000_0000;
    WrapSmall(0x1_0000_0000);
    WrappedZero(0x1_0000_0000);
    hide Operated, WithFlags, FlagZ, FlagC, Temp, Wrap64;
    FlaggedOperation(4, 0xFFFF_FFFF, 1, m, ins, Temp(4, 0xFFFF_FFFF, 1, c));
    FlagsOf(m.Cpsr(), Temp(4, 0xFFFF_FFFF, 1, c));
  }
}
