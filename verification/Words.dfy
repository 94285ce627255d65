/**
 The C integers of the simulator: bytes, half-words, words and the 64-bit
 temporaries of the arithmetic unit, as ranges of the mathematical integers.
 Wrap-around is written out with `%`; the bitwise operators are defined bit by
 bit and then given their arithmetic meaning.
 */
module Words {

  type Byte = x: int | 0 <= x < 0x100
  type Half = x: int | 0 <= x < 0x1_0000
  type Word = x: int | 0 <= x < 0x1_0000_0000
  type Long = x: int | 0 <= x < 0x1_0000_0000_0000_0000

  datatype Option<+T> = None | Some(value: T)

  // ----- powers of two -----

  function Pow2(n: nat): (p: nat)
    ensures p >= 1
  {
    if n == 0 then 1 else 2 * Pow2(n - 1)
  }

  lemma {:induction false} Pow2Add(a: nat, b: nat)
    ensures Pow2(a + b) == Pow2(a) * Pow2(b)
    decreases a
  {
    if a == 0 {
    } else {
      Pow2Add(a - 1, b);
      assert Pow2(a + b) == 2 * Pow2(a + b - 1);
    }
  }

  lemma {:induction false} Pow2Monotone(a: nat, b: nat)
    requires a <= b
    ensures Pow2(a) <= Pow2(b)
    decreases b - a
  {
    if a < b {
      Pow2Monotone(a + 1, b);
    }
  }

  lemma Pow2Values()
    ensures Pow2(4) == 0x10 && Pow2(5) == 0x20 && Pow2(8) == 0x100 && Pow2(16) == 0x1_0000 && Pow2(24) == 0x100_0000
    ensures Pow2(28) == 0x1000_0000 && Pow2(29) == 0x2000_0000
    ensures Pow2(30) == 0x4000_0000 && Pow2(31) == 0x8000_0000
    ensures Pow2(32) == 0x1_0000_0000
  {
    assert Pow2(8) == 0x100;
    Pow2Add(8, 8);
    Pow2Add(16, 8);
    assert Pow2(28) == 16 * Pow2(24);
  }

  // ----- single bits and bit fields -----

  predicate Bit(x: nat, i: nat) {
    if i == 0 then x % 2 == 1 else Bit(x / 2, i - 1)
  }

  /** `x >> n` on an unsigned value. */
  function ShiftRight(x: nat, n: nat): (r: nat)
    ensures r <= x
  {
    if n == 0 then x else ShiftRight(x / 2, n - 1)
  }

  /** `x << n` on 32 bits; a shift by 32 gives 0. */
  function ShiftLeft(x: Word, n: nat): Word
    decreases n
  {
    if n == 0 then x else ShiftLeft(2 * x as int % 0x1_0000_0000, n - 1)
  }

  /** `get_bits(x, h, l)` of util.h, on the unsigned value of `x`. */
  function GetBits(x: nat, h: nat, l: nat): (r: nat)
    requires l <= h
  {
    x / Pow2(l) % Pow2(h - l + 1)
  }

  lemma {:induction false} ShiftRightIsDivision(x: nat, n: nat)
    ensures ShiftRight(x, n) == x / Pow2(n)
  {
    if n == 0 {
    } else {
      ShiftRightIsDivision(x / 2, n - 1);
      DivTwice(x, 2, Pow2(n - 1));
    }
  }

  lemma {:induction false} BitOfShifted(x: nat, n: nat, i: nat)
    ensures Bit(ShiftRight(x, n), i) == Bit(x, n + i)
    decreases n
  {
    if n == 0 {
    } else {
      BitOfShifted(x / 2, n - 1, i);
    }
  }

  lemma {:induction false} ShiftLeftIsProduct(x: Word, n: nat)
    ensures ShiftLeft(x, n) == x as int * Pow2(n) % 0x1_0000_0000
    decreases n
  {
    if n == 0 {
    } else {
      var y := 2 * x as int % 0x1_0000_0000;
      var q := 2 * x as int / 0x1_0000_0000;
      ShiftLeftIsProduct(y, n - 1);
      DoubleProduct(x, q, y, Pow2(n - 1));
    }
  }

  lemma DoubleProduct(x: int, q: int, y: int, p: int)
    requires 2 * x == 0x1_0000_0000 * q + y
    ensures x * (2 * p) % 0x1_0000_0000 == y * p % 0x1_0000_0000
  {
    var k := q * p;
    assert x * (2 * p) == (2 * x) * p;
    assert (0x1_0000_0000 * q + y) * p == 0x1_0000_0000 * k + y * p;
    ModAddMultiple(y * p, k);
  }

  lemma ModAddMultiple(a: int, k: int)
    ensures (0x1_0000_0000 * k + a) % 0x1_0000_0000 == a % 0x1_0000_0000
  {
  }

  lemma {:induction false} BitOfShiftedLeft(x: Word, n: nat, i: nat)
    requires i < 32
    ensures Bit(ShiftLeft(x, n), i) == (i >= n && Bit(x, i - n))
    decreases n
  {
    if n == 0 {
    } else {
      BitOfShiftedLeft(2 * x as int % 0x1_0000_0000, n - 1, i);
      if i >= n - 1 {
        BitOfDouble(x, i - (n - 1));
      }
    }
  }

  lemma BitOfDouble(x: Word, i: nat)
    requires i < 32
    ensures Bit(2 * x as int % 0x1_0000_0000, i) == (i > 0 && Bit(x, i - 1))
  {
    var y := 2 * x as int % 0x1_0000_0000;
    assert y % 2 == 0;
    if i > 0 {
      assert y / 2 == x % 0x8000_0000;
      BitBelow31(x, i - 1);
    }
  }

  lemma BitBelow31(x: Word, i: nat)
    requires i < 31
    ensures Bit(x % 0x8000_0000, i) == Bit(x, i)
  {
    Pow2Values();
    BitOfRemainder(x, 31, i);
  }

  lemma {:induction false} BitOfRemainder(x: nat, n: nat, i: nat)
    requires i < n
    ensures Bit(x % Pow2(n), i) == Bit(x, i)
    decreases n
  {
    RemainderHalf(x, Pow2(n - 1));
    if i > 0 {
      BitOfRemainder(x / 2, n - 1, i - 1);
    }
  }

  lemma RemainderHalf(x: nat, d: nat)
    requires d > 0
    ensures x % (2 * d) / 2 == x / 2 % d
    ensures x % (2 * d) % 2 == x % 2
  {
    ModTwice(x, d);
    var r := x / 2 % d;
    assert (2 * r + x % 2) / 2 == r;
  }

  lemma BitIsDigit(x: nat, i: nat)
    ensures Bit(x, i) <==> x / Pow2(i) % 2 == 1
  {
    BitOfShifted(x, i, 0);
    ShiftRightIsDivision(x, i);
  }

  lemma DivTwice(x: nat, a: nat, b: nat)
    requires a > 0 && b > 0
    ensures a * b > 0
    ensures x / (a * b) == (x / a) / b
  {
    var q, r := x / a, x % a;
    var s, t := q / b, q % b;
    Distribute(a, b, s, t);
    MulMonotone(a, t, b - 1);
    Distribute(a, b, 1, -1);
    DivUnique(x, a * b, s, a * t + r);
  }

  lemma Distribute(a: int, b: int, s: int, t: int)
    ensures a * (b * s + t) == (a * b) * s + a * t
  {
  }

  lemma MulMonotone(a: nat, x: int, y: int)
    requires x <= y
    ensures a * x <= a * y
  {
  }

  lemma DivUnique(x: int, d: nat, q: int, r: int)
    requires d > 0 && x == d * q + r && 0 <= r < d
    ensures x / d == q && x % d == r
  {
    QuotientUnique(d, q, r, x / d, x % d);
  }

  lemma QuotientUnique(d: nat, q: int, r: int, q': int, r': int)
    requires 0 <= r < d && 0 <= r' < d
    requires d * q + r == d * q' + r'
    ensures q == q' && r == r'
  {
    assert d * (q - q') == d * q - d * q';
    if q > q' {
      MulAtLeast(d, q - q');
    } else if q < q' {
      MulAtLeast(d, q' - q);
    }
  }

  lemma MulAtLeast(d: nat, k: int)
    requires k >= 1
    ensures d * k >= d
  {
    assert d * (k - 1) >= 0;
  }

  // ----- the bitwise operators of C -----

  datatype BoolOp = Conj | Disj | Xor {
    predicate Holds(a: bool, b: bool) {
      match this
      case Conj => a && b
      case Disj => a || b
      case Xor => a != b
    }
  }

  function Bitwise(op: BoolOp, x: nat, y: nat): nat
    decreases x + y
  {
    if x == 0 && y == 0 then
      0
    else
      2 * Bitwise(op, x / 2, y / 2) + (if op.Holds(x % 2 == 1, y % 2 == 1) then 1 else 0)
  }

  function And(x: nat, y: nat): nat { Bitwise(Conj, x, y) }

  function Or(x: nat, y: nat): nat { Bitwise(Disj, x, y) }

  function Eor(x: nat, y: nat): nat { Bitwise(Xor, x, y) }

  /** `~x` on 32 bits. */
  function Not(x: Word): Word { 0xFFFF_FFFF - x }

  lemma {:induction false} BitwiseBit(op: BoolOp, x: nat, y: nat, i: nat)
    ensures Bit(Bitwise(op, x, y), i) == op.Holds(Bit(x, i), Bit(y, i))
    decreases i
  {
    BitwiseStep(op, x, y);
    if i == 0 {
    } else {
      BitwiseBit(op, x / 2, y / 2, i - 1);
    }
  }

  lemma BitwiseStep(op: BoolOp, x: nat, y: nat)
    ensures Bitwise(op, x, y) / 2 == Bitwise(op, x / 2, y / 2)
    ensures Bitwise(op, x, y) % 2 == 1 <==> op.Holds(x % 2 == 1, y % 2 == 1)
  {
  }

  lemma {:induction false} BitwiseBound(op: BoolOp, x: nat, y: nat, n: nat)
    requires x < Pow2(n) && y < Pow2(n)
    ensures Bitwise(op, x, y) < Pow2(n)
    decreases n
  {
    if n == 0 {
    } else {
      BitwiseBound(op, x / 2, y / 2, n - 1);
    }
  }

  lemma {:induction false} HighBitClear(x: nat, n: nat, i: nat)
    requires x < Pow2(n) && n <= i
    ensures !Bit(x, i)
    decreases n
  {
    if n == 0 {
      ZeroBit(i);
    } else {
      HighBitClear(x / 2, n - 1, i - 1);
    }
  }

  lemma {:induction false} ZeroBit(i: nat)
    ensures !Bit(0, i)
  {
    if i > 0 {
      ZeroBit(i - 1);
    }
  }

  lemma {:induction false} BitOfPower(k: nat, i: nat)
    ensures Bit(Pow2(k), i) <==> i == k
    decreases k
  {
    if k == 0 {
      if i > 0 {
        ZeroBit(i - 1);
      }
    } else if i > 0 {
      assert Pow2(k) / 2 == Pow2(k - 1);
      BitOfPower(k - 1, i - 1);
    }
  }

  lemma {:induction false} AllOnes(n: nat, i: nat)
    requires i < n
    ensures Bit(Pow2(n) - 1, i)
    decreases n
  {
    assert (Pow2(n) - 1) / 2 == Pow2(n - 1) - 1;
    if i > 0 {
      AllOnes(n - 1, i - 1);
    }
  }

  /** Bits of a number in two parts. */
  lemma SplitBit(x: nat, hi: nat, lo: nat, n: nat, i: nat)
    requires lo < Pow2(n) && x == hi * Pow2(n) + lo
    ensures Bit(x, i) == if i < n then Bit(lo, i) else Bit(hi, i - n)
  {
    hide Bit, ShiftRight;
    DivUnique(x, Pow2(n), hi, lo);
    if i < n {
      BitOfRemainder(x, n, i);
    } else {
      BitOfShifted(x, n, i - n);
      ShiftRightIsDivision(x, n);
    }
  }

  /** A number other than 0 has a bit. */
  lemma {:induction false} SomeBit(x: nat, n: nat) returns (i: nat)
    requires 0 < x < Pow2(n)
    ensures i < n && Bit(x, i)
    decreases n
  {
    if x % 2 == 1 {
      i := 0;
    } else {
      i := SomeBit(x / 2, n - 1);
      i := i + 1;
    }
  }

  /** Numbers below 2^n with the same n low bits are equal. */
  lemma {:induction false} SameBits(x: nat, y: nat, n: nat)
    requires x < Pow2(n) && y < Pow2(n)
    requires forall i: nat | i < n :: Bit(x, i) == Bit(y, i)
    ensures x == y
    decreases n
  {
    if n == 0 {
    } else {
      assert Bit(x, 0) == Bit(y, 0);
      forall i: nat | i < n - 1 ensures Bit(x / 2, i) == Bit(y / 2, i) {
        assert Bit(x, i + 1) == Bit(y, i + 1);
      }
      SameBits(x / 2, y / 2, n - 1);
    }
  }

  /** Or of numbers with no common bit position is their sum. */
  lemma {:induction false} OrDisjoint(hi: nat, lo: nat, n: nat)
    requires lo < Pow2(n)
    ensures Or(hi * Pow2(n), lo) == hi * Pow2(n) + lo
    ensures Or(lo, hi * Pow2(n)) == hi * Pow2(n) + lo
    decreases n
  {
    if n == 0 {
      OrZero(hi);
    } else {
      var x := hi * Pow2(n);
      assert x == 2 * (hi * Pow2(n - 1));
      assert x / 2 == hi * Pow2(n - 1) && x % 2 == 0;
      OrDisjoint(hi, lo / 2, n - 1);
    }
  }

  lemma {:induction false} OrZero(x: nat)
    ensures Or(x, 0) == x && Or(0, x) == x
  {
    if x == 0 {
    } else {
      OrZero(x / 2);
    }
  }

  lemma {:induction false} AndZero(x: nat)
    ensures And(x, 0) == 0 && And(0, x) == 0
  {
    if x == 0 {
    } else {
      AndZero(x / 2);
    }
  }

  lemma AndOdd(x: nat, half: nat)
    ensures And(x, 2 * half + 1) == 2 * And(x / 2, half) + x % 2
  {
    var mask := 2 * half + 1;
    assert mask / 2 == half && mask % 2 == 1;
  }

  /** `x & (2^n - 1)` keeps the n low bits. */
  lemma {:induction false} AndLowMask(x: nat, n: nat)
    ensures And(x, Pow2(n) - 1) == x % Pow2(n)
    decreases n
  {
    if n == 0 {
      AndZero(x);
    } else {
      var half := Pow2(n - 1) - 1;
      assert Pow2(n) - 1 == 2 * half + 1;
      calc {
        And(x, 2 * half + 1);
        { AndOdd(x, half); }
        2 * And(x / 2, half) + x % 2;
        { AndLowMask(x / 2, n - 1); }
        2 * (x / 2 % (half + 1)) + x % 2;
        { ModTwice(x, half + 1); }
        x % (2 * (half + 1));
      }
    }
  }

  lemma ModTwice(x: nat, d: nat)
    requires d > 0
    ensures x % (2 * d) == 2 * (x / 2 % d) + x % 2
  {
    var q := x / 2 / d;
    assert x / 2 == d * q + x / 2 % d;
    assert x == (2 * d) * q + (2 * (x / 2 % d) + x % 2) by {
      assert 2 * (d * q) == (2 * d) * q;
    }
    DivUnique(x, 2 * d, q, 2 * (x / 2 % d) + x % 2);
  }

  // ----- setting and clearing one bit -----

  /** `x | (1 << k)`. */
  lemma {:induction false} OrOneBit(x: nat, k: nat)
    ensures Or(x, Pow2(k)) == if Bit(x, k) then x else x + Pow2(k)
    decreases k
  {
    if k == 0 {
      OrZero(x / 2);
    } else {
      assert Pow2(k) / 2 == Pow2(k - 1) && Pow2(k) % 2 == 0;
      OrOneBit(x / 2, k - 1);
    }
  }

  /** `x & ~(1 << k)` on n bits. */
  lemma {:induction false} AndAllButOneBit(x: nat, k: nat, n: nat, mask: nat)
    requires k < n && x < Pow2(n)
    requires mask == Pow2(n) - 1 - Pow2(k)
    ensures And(x, mask) == if Bit(x, k) then x - Pow2(k) else x
    decreases k
  {
    assert Pow2(n) == 2 * Pow2(n - 1);
    if k == 0 {
      AndAllButLowBit(x, n, mask);
    } else {
      var half := Pow2(n - 1) - 1 - Pow2(k - 1);
      MaskHalf(k, n, mask, half);
      AndAllButOneBit(x / 2, k - 1, n - 1, half);
      AndOdd(x, half);
    }
  }

  lemma MaskHalf(k: nat, n: nat, mask: int, half: int)
    requires 0 < k < n
    requires mask == Pow2(n) - 1 - Pow2(k) && half == Pow2(n - 1) - 1 - Pow2(k - 1)
    ensures half >= 0 && mask == 2 * half + 1
  {
    Pow2Monotone(k - 1, n - 2);
    assert Pow2(n - 1) == 2 * Pow2(n - 2);
  }

  lemma AndAllButLowBit(x: nat, n: nat, mask: nat)
    requires n > 0 && x < Pow2(n)
    requires mask == Pow2(n) - 2
    ensures And(x, mask) == if Bit(x, 0) then x - 1 else x
  {
    assert mask == 2 * (Pow2(n - 1) - 1);
    AndLowMask(x / 2, n - 1);
    DivUnique(x / 2, Pow2(n - 1), 0, x / 2);
    assert And(x, mask) == 2 * And(x / 2, mask / 2);
  }

  lemma NotBit(x: Word, i: nat)
    requires i < 32
    ensures Bit(Not(x), i) == !Bit(x, i)
  {
    Pow2Values();
    Complement(x, i, 32);
  }

  lemma {:induction false} Complement(x: nat, i: nat, n: nat)
    requires i < n && x < Pow2(n)
    ensures Bit(Pow2(n) - 1 - x, i) == !Bit(x, i)
    decreases n
  {
    var y := Pow2(n) - 1 - x;
    assert Pow2(n) == 2 * Pow2(n - 1);
    assert y / 2 == Pow2(n - 1) - 1 - x / 2 && y % 2 == 1 - x % 2;
    if i == 0 {
    } else {
      Complement(x / 2, i - 1, n - 1);
    }
  }

  // ----- the bit-field macro -----

  /** `get_bits` as util.h spells it, `(x >> l) & ~((~0 >> w) << w)` with w = h - l + 1,
      is the field of w bits from bit l up. */
  lemma GetBitsMacro(x: Word, h: nat, l: nat)
    requires l <= h && l < 32 && h - l < 31
    ensures var w := h - l + 1;
            And(ShiftRight(x, l), Not(ShiftLeft(ShiftRight(0xFFFF_FFFF, w), w))) == GetBits(x, h, l)
  {
    var w := h - l + 1;
    Pow2Values();
    OnesShifted(32, w);
    ShiftLeftIsProduct(ShiftRight(0xFFFF_FFFF, w), w);
    Pow2Add(32 - w, w);
    UpperOnes(Pow2(32 - w), Pow2(w));
    AndLowMask(ShiftRight(x, l), w);
    ShiftRightIsDivision(x, l);
  }

  lemma {:induction false} OnesShifted(n: nat, w: nat)
    requires w <= n
    ensures ShiftRight(Pow2(n) - 1, w) == Pow2(n - w) - 1
    decreases w
  {
    if w > 0 {
      assert (Pow2(n) - 1) / 2 == Pow2(n - 1) - 1;
      OnesShifted(n - 1, w - 1);
    }
  }

  lemma UpperOnes(a: nat, b: nat)
    requires a >= 1 && b >= 1 && a * b == 0x1_0000_0000
    ensures (a - 1) * b % 0x1_0000_0000 == 0x1_0000_0000 - b
  {
    Distribute(b, a, 1, -1);
    MulMonotone(b, 1, a);
    assert (a - 1) * b == 0x1_0000_0000 - b;
  }
}
