/**
 What the barrel shifter computes, for every amount from 0 to 31 (section A5.1
 of the ARM Architecture Reference Manual): bit by bit, as signed division, and
 as a group of rotations.
 */
module Shifter {
  import opened Words
  import opened DataProcessing

  lemma TopBit(x: Word)
    ensures Bit(x, 31) == (x / 0x8000_0000 == 1)
  {
    Pow2Values();
    BitIsDigit(x, 31);
  }

  // ----- the four shifts, bit by bit -----

  lemma ShrBit(r: Word, k: nat, i: nat)
    ensures Bit(Shr(r, k), i) == (k + i < 32 && Bit(r, k + i))
  {
    BitOfShifted(r, k, i);
    if k + i >= 32 {
      Pow2Values();
      HighBitClear(r, 32, k + i);
    }
  }

  /** Bit i of the shifted word is bit `Source` of the operand, or 0. */
  function Source(kind: nat, amount: nat, i: nat): Option<nat> {
    if kind == LSL then (if amount <= i then Some(i - amount) else None)
    else if kind == LSR then (if i + amount < 32 then Some(i + amount) else None)
    else if kind == ASR then Some(if i + amount < 32 then i + amount else 31)
    else Some((i + amount) % 32)
  }

  lemma ShiftedBit(kind: nat, amount: nat, r: Word, i: nat)
    requires kind < 4 && amount < 32 && i < 32
    ensures Bit(Shifted(kind, amount, r), i)
       <==> Source(kind, amount, i).Some? && Bit(r, Source(kind, amount, i).value)
  {
    hide Bit, ShiftLeft, RotateRight, Or32;
    if kind == LSL {
      BitOfShiftedLeft(r, amount, i);
    } else if kind == LSR {
      ShrBit(r, amount, i);
    } else if kind == ASR {
      AsrBit(r, amount, i);
    } else {
      RotatedBit(r, amount, i);
    }
  }

  lemma AsrBit(r: Word, amount: nat, i: nat)
    requires amount < 32 && i < 32
    ensures Bit(Shifted(ASR, amount, r), i) == Bit(r, if i + amount < 32 then i + amount else 31)
  {
    hide Bit, ShiftLeft, ShiftRight, Bitwise;
    TopBit(r);
    ShrBit(r, amount, i);
    var mask := ShiftLeft(0xFFFF_FFFF, 32 - amount);
    BitwiseBit(Disj, Shr(r, amount), mask, i);
    BitOfShiftedLeft(0xFFFF_FFFF, 32 - amount, i);
    if i + amount >= 32 {
      Pow2Values();
      AllOnes(32, i + amount - 32);
    }
  }

  lemma RotatedBit(r: Word, n: nat, i: nat)
    requires n < 32 && i < 32
    ensures Bit(RotateRight(r, n), i) == Bit(r, if i + n < 32 then i + n else i + n - 32)
  {
    BitwiseBit(Disj, Shr(r, n), ShiftLeft(r, 32 - n), i);
    ShrBit(r, n, i);
    BitOfShiftedLeft(r, 32 - n, i);
  }

  // ----- ASR is division of the signed value, rounding down -----

  function Signed(x: Word): int {
    if x < 0x8000_0000 then x else x - 0x1_0000_0000
  }

  lemma AsrIsSignedDivision(r: Word, k: nat)
    requires k < 32
    ensures Signed(Shifted(ASR, k, r)) == Signed(r) / Pow2(k)
  {
    Pow2Values();
    if r < 0x8000_0000 {
      ShiftRightIsDivision(r, k);
    } else {
      NegativeAsr(r, k);
    }
  }

  lemma NegativeAsr(r: Word, k: nat)
    requires k < 32 && r >= 0x8000_0000
    ensures Signed(Shifted(ASR, k, r)) == (r - 0x1_0000_0000) / Pow2(k)
  {
    var d, half := Pow2(k), Pow2(31 - k);
    var q, rest := ShiftRight(r, k), r % d;
    ShiftRightIsDivision(r, k);
    DivisionParts(r, d);
    FactorPowers(k);
    SignedQuotient(r, d, q, rest, half);
    AsrFillsOnes(r, k, q);
  }

  lemma DivisionParts(x: int, d: nat)
    requires d > 0
    ensures x == d * (x / d) + x % d && 0 <= x % d < d
  {
  }

  lemma AsrFillsOnes(r: Word, k: nat, q: nat)
    requires k < 32 && r >= 0x8000_0000
    requires q == ShiftRight(r, k) < Pow2(32 - k)
    ensures Shifted(ASR, k, r) == (Pow2(k) - 1) * Pow2(32 - k) + q
  {
    MaskOfAsr(k);
    OrDisjoint(Pow2(k) - 1, q, 32 - k);
  }

  lemma SignedQuotient(r: Word, d: nat, q: nat, rest: nat, half: nat)
    requires r >= 0x8000_0000 && d * half == 0x8000_0000
    requires r == d * q + rest && rest < d
    ensures half <= q < 2 * half
    ensures (d - 1) * (2 * half) + q == 0x1_0000_0000 - 2 * half + q
    ensures (r - 0x1_0000_0000) / d == q - 2 * half
  {
    QuotientRange(r, d, q, rest, half);
    Distribute(2 * half, d, 1, -1);
    Distribute(d, 2 * half, -1, q);
    DivUnique(r - 0x1_0000_0000, d, q - 2 * half, rest);
  }

  lemma FactorPowers(k: nat)
    requires k < 32
    ensures Pow2(k) * Pow2(32 - k) == 0x1_0000_0000
    ensures Pow2(k) * Pow2(31 - k) == 0x8000_0000
    ensures Pow2(32 - k) == 2 * Pow2(31 - k)
  {
    Pow2Values();
    Pow2Add(k, 32 - k);
    Pow2Add(k, 31 - k);
  }

  lemma QuotientRange(r: nat, d: nat, q: nat, rest: nat, half: nat)
    requires r == d * q + rest && rest < d
    requires d * half <= r < 2 * (d * half)
    ensures half <= q < 2 * half
  {
    if q < half {
      MulMonotone(d, q + 1, half);
    } else if q >= 2 * half {
      MulMonotone(d, 2 * half, q);
    }
  }

  lemma MaskOfAsr(k: nat)
    requires k < 32
    ensures ShiftLeft(0xFFFF_FFFF, 32 - k) == (Pow2(k) - 1) * Pow2(32 - k)
  {
    FactorPowers(k);
    ShiftLeftIsProduct(0xFFFF_FFFF, 32 - k);
    MaskProduct(Pow2(k), Pow2(32 - k));
  }

  lemma MaskProduct(d: nat, e: nat)
    requires d >= 1 && e >= 1 && d * e == 0x1_0000_0000
    ensures 0xFFFF_FFFF * e % 0x1_0000_0000 == (d - 1) * e
  {
    Distribute(e, d, 1, -1);
    MulMonotone(e, 1, d);
    AllOnesTimes(e);
  }

  lemma AllOnesTimes(e: int)
    requires 1 <= e <= 0x1_0000_0000
    ensures 0xFFFF_FFFF * e % 0x1_0000_0000 == 0x1_0000_0000 - e
  {
    assert 0xFFFF_FFFF * e == 0x1_0000_0000 * (e - 1) + (0x1_0000_0000 - e);
  }

  // ----- the four shifts as arithmetic -----

  /** The value of a shift by k: a product modulo 2^32, a quotient, a signed quotient rounded
      down, or the two parts of the word exchanged. */
  function ShiftMeaning(kind: nat, k: nat, r: Word): Word
    requires k < 32
  {
    if kind == LSL then r as int * Pow2(k) % 0x1_0000_0000
    else if kind == LSR then r / Pow2(k)
    else if kind == ASR then Signed(r) / Pow2(k) % 0x1_0000_0000
    else (r as int % Pow2(k) * Pow2(32 - k) + r / Pow2(k)) % 0x1_0000_0000
  }

  lemma ShiftedMeans(kind: nat, k: nat, r: Word)
    requires kind < 4 && k < 32
    ensures Shifted(kind, k, r) == ShiftMeaning(kind, k, r)
  {
    hide Bit, Or, ShiftLeft, ShiftRight;
    if kind == LSL {
      ShiftLeftIsProduct(r, k);
    } else if kind == LSR {
      ShiftRightIsDivision(r, k);
    } else if kind == ASR {
      AsrIsSignedDivision(r, k);
      Unsigned(Shifted(ASR, k, r));
    } else {
      RotationExchanges(r, k);
    }
  }

  lemma Unsigned(x: Word)
    ensures Signed(x) % 0x1_0000_0000 == x
  {
  }

  lemma RotationExchanges(r: Word, k: nat)
    requires k < 32
    ensures RotateRight(r, k) == (r as int % Pow2(k) * Pow2(32 - k) + r / Pow2(k)) % 0x1_0000_0000
  {
    hide Bit, Or, Pow2, ShiftLeft, ShiftRight;
    var d, e := Pow2(k), Pow2(32 - k);
    var low, high := r % d, r / d;
    var shifted := low * e;
    FactorPowers(k);
    ShiftRightIsDivision(r, k);
    ShiftLeftIsProduct(r, 32 - k);
    DivisionParts(r, d);
    LowPart(r, d, e, high, low);
    OrDisjoint(low, high, 32 - k);
    assert RotateRight(r, k) == shifted + high;
    SmallRemainder(shifted + high);
  }

  lemma SmallRemainder(x: nat)
    requires x < 0x1_0000_0000
    ensures x % 0x1_0000_0000 == x
  {
  }

  /** With d * e = 2^32 and r = d * high + low, the product r * e keeps low * e. */
  lemma LowPart(r: Word, d: nat, e: nat, high: nat, low: nat)
    requires d * e == 0x1_0000_0000 && r == d * high + low && low < d
    ensures r as int * e % 0x1_0000_0000 == low * e && high < e && low * e + high < 0x1_0000_0000
  {
    assert (d * high + low) * e == (d * e) * high + low * e;
    MulMonotone(e, low + 1, d);
    if high >= e {
      MulMonotone(d, e, high);
    }
    DivUnique(r as int * e, 0x1_0000_0000, high, low * e);
  }

  // ----- rotations -----

  lemma RotationsAdd(r: Word, a: nat, b: nat)
    requires a < 32 && b < 32
    ensures Shifted(ROR, b, Shifted(ROR, a, r)) == Shifted(ROR, (a + b) % 32, r)
  {
    var sum := if a + b < 32 then a + b else a + b - 32;
    assert sum == (a + b) % 32;
    RotationsSum(r, a, b, sum);
  }

  lemma RotationsSum(r: Word, a: nat, b: nat, sum: nat)
    requires a < 32 && b < 32 && sum < 32 && (sum == a + b || sum == a + b - 32)
    ensures RotateRight(RotateRight(r, a), b) == RotateRight(r, sum)
  {
    var x, y := RotateRight(RotateRight(r, a), b), RotateRight(r, sum);
    forall i: nat | i < 32 ensures Bit(x, i) == Bit(y, i) {
      RotatedBit(RotateRight(r, a), b, i);
      RotatedBit(r, a, if i + b < 32 then i + b else i + b - 32);
      RotatedBit(r, sum, i);
    }
    EqualWords(x, y);
  }

  lemma EqualWords(x: Word, y: Word)
    requires forall i: nat | i < 32 :: Bit(x, i) == Bit(y, i)
    ensures x == y
  {
    Pow2Values();
    SameBits(x, y, 32);
  }

  lemma RotationByZero(r: Word)
    ensures RotateRight(r, 0) == r
  {
    var x := RotateRight(r, 0);
    forall i: nat | i < 32 ensures Bit(x, i) == Bit(r, i) {
      RotatedBit(r, 0, i);
    }
    EqualWords(x, r);
  }

  /** Every rotation is undone by another one. */
  lemma RotationInverse(r: Word, a: nat)
    requires a < 32
    ensures Shifted(ROR, if a == 0 then 0 else 32 - a, Shifted(ROR, a, r)) == r
  {
    RotationsSum(r, a, if a == 0 then 0 else 32 - a, 0);
    RotationByZero(r);
  }
}
