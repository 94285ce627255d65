/**
 The instruction builders, and their inverse: decoding a built word returns the
 fields, and rebuilding the decoded fields of a word returns the word.
 */
module CommandCreator {
  import opened Words
  import opened Decode

  /** `construire_instruction`. Masking an int with 2^n - 1 is its remainder. */
  function BuildInstruction(cond: int, i: int, opcode: int, s: int, rn: int, rd: int, shifter: int): Word {
    (cond * 0x1000_0000 + i % 2 * 0x200_0000 + opcode * 0x20_0000 + s % 2 * 0x10_0000
     + rn % 16 * 0x1_0000 + rd % 16 * 0x1000 + shifter % 0x1000) % 0x1_0000_0000
  }

  function BuildShifterImmediate(rotate: int, immediate: int): Half {
    (rotate % 16 * 0x100 + immediate % 0x100) % 0x1_0000
  }

  function BuildShifterAmount(amount: int, kind: int, rm: int): Half {
    (amount % 32 * 0x80 + kind * 0x20 + rm % 16) % 0x1_0000
  }

  function BuildShifterRegister(rs: int, kind: int, rm: int): Half {
    (rs % 16 * 0x100 + kind * 0x20 + 0x10 + rm % 16) % 0x1_0000
  }

  /** The middle digit of a number written in mixed base. */
  lemma MiddleDigit(x: int, d: nat, width: nat, hi: int, mid: int, lo: int)
    requires d > 0 && 0 <= lo < d && 0 <= mid < width
    requires x == d * (width * hi + mid) + lo
    ensures x / d % width == mid
  {
    DivUnique(x, d, width * hi + mid, lo);
    DivUnique(width * hi + mid, width, hi, mid);
  }

  predicate ValidFields(cond: int, i: int, opcode: int, s: int, rn: int, rd: int, shifter: int) {
    0 <= cond < 16 && 0 <= i < 2 && 0 <= opcode < 16 && 0 <= s < 2
    && 0 <= rn < 16 && 0 <= rd < 16 && 0 <= shifter < 0x1000
  }

  lemma BuiltValue(cond: int, i: int, opcode: int, s: int, rn: int, rd: int, shifter: int)
    requires ValidFields(cond, i, opcode, s, rn, rd, shifter)
    ensures BuildInstruction(cond, i, opcode, s, rn, rd, shifter)
         == cond * 0x1000_0000 + i * 0x200_0000 + opcode * 0x20_0000 + s * 0x10_0000
            + rn * 0x1_0000 + rd * 0x1000 + shifter
  {
    assert i % 2 == i && s % 2 == s;
    assert rn % 16 == rn && rd % 16 == rd;
    assert shifter % 0x1000 == shifter;
    BelowWord(cond, i * 0x200_0000 + opcode * 0x20_0000 + s * 0x10_0000 + rn * 0x1_0000 + rd * 0x1000 + shifter);
  }

  lemma BelowWord(cond: int, below28: int)
    requires 0 <= cond < 16 && 0 <= below28 < 0x1000_0000
    ensures (cond * 0x1000_0000 + below28) % 0x1_0000_0000 == cond * 0x1000_0000 + below28
  {
  }

  /** Decoding a built instruction returns the fields given. */
  lemma DecodeBuilt(cond: int, i: int, opcode: int, s: int, rn: int, rd: int, shifter: int)
    requires ValidFields(cond, i, opcode, s, rn, rd, shifter)
    ensures var w := BuildInstruction(cond, i, opcode, s, rn, rd, shifter);
            && w / 0x1000_0000 == cond
            && w / 0x400_0000 % 4 == 0
            && w / 0x200_0000 % 8 == i
            && Bit25(w) == (i == 1)
            && Opcode(w) == opcode
            && SetsFlags(w) == (s == 1)
            && Rn(w) == rn
            && Rd(w) == rd
            && Offset12(w) == shifter
  {
    var w := BuildInstruction(cond, i, opcode, s, rn, rd, shifter);
    BuiltValue(cond, i, opcode, s, rn, rd, shifter);
    var head := HeadOf(cond, i, opcode, s);
    HeadDigits(cond, i, opcode, s);
    HeadFields(w, head, rn, rd * 0x1000 + shifter);
    DivTwice(w, 0x10_0000, 64);
    LowDigits(w, head, rn, rd, shifter);
    hide BuildInstruction;
  }

  /** Bits 31..20 of the instruction. */
  function HeadOf(cond: int, i: int, opcode: int, s: int): int {
    cond * 256 + i * 32 + opcode * 2 + s
  }

  lemma HeadDigits(cond: int, i: int, opcode: int, s: int)
    requires 0 <= cond < 16 && 0 <= i < 2 && 0 <= opcode < 16 && 0 <= s < 2
    ensures var h := HeadOf(cond, i, opcode, s);
            && 0 <= h < 0x1000 && h / 256 == cond && h / 64 % 4 == 0 && h / 32 % 8 == i && h / 32 % 2 == i
            && h / 2 % 16 == opcode && h % 2 == s
  {
    var h := HeadOf(cond, i, opcode, s);
    assert h / 64 == cond * 4 && h / 32 == cond * 8 + i && h / 2 == cond * 128 + i * 16 + opcode;
  }

  lemma LowDigits(w: Word, head: int, rn: int, rd: int, shifter: int)
    requires 0 <= head && 0 <= rn < 16 && 0 <= rd < 16 && 0 <= shifter < 0x1000
    requires w == head * 0x10_0000 + rn * 0x1_0000 + (rd * 0x1000 + shifter)
    ensures w / 0x1000 % 16 == rd && w % 0x1000 == shifter
  {
    DivUnique(w, 0x1000, head * 256 + rn * 16 + rd, shifter);
    DivUnique(head * 256 + rn * 16 + rd, 16, head * 16 + rn, rd);
  }

  /** The bits of the opcode field. */
  lemma OpcodeBits(w: Word)
    ensures Bit24(w) <==> Opcode(w) / 8 == 1
    ensures Bit23(w) <==> Opcode(w) / 4 % 2 == 1
    ensures Bit21(w) <==> Opcode(w) % 2 == 1
  {
    var h := w / 0x20_0000;
    DivTwice(w, 0x20_0000, 4);
    DivTwice(w, 0x20_0000, 8);
    assert w / 0x100_0000 == h / 8 && w / 0x80_0000 == h / 4;
    NibbleBits(h);
  }

  lemma NibbleBits(h: nat)
    ensures h / 8 % 2 == h % 16 / 8
    ensures h / 4 % 2 == h % 16 / 4 % 2
    ensures h % 2 == h % 16 % 2
  {
    var k, r := h / 16, h % 16;
    NibbleOf(h, k, r, r / 4, r % 4);
  }

  lemma NibbleOf(h: nat, k: nat, r: nat, high: nat, low: nat)
    requires h == 16 * k + r && r == 4 * high + low && high < 4 && low < 4
    ensures h / 8 % 2 == r / 8 && h / 4 % 2 == r / 4 % 2 && h % 2 == r % 2
  {
    DivUnique(r, 4, high, low);
    DivUnique(r, 8, high / 2, 4 * (high % 2) + low);
    DivUnique(r, 2, 2 * high + low / 2, low % 2);
    DivUnique(h, 8, 2 * k + high / 2, 4 * (high % 2) + low);
    DivUnique(2 * k + high / 2, 2, k, high / 2);
    DivUnique(h, 4, 4 * k + high, low);
    DivUnique(4 * k + high, 2, 2 * k + high / 2, high % 2);
    DivUnique(h, 2, 8 * k + 2 * high + low / 2, low % 2);
  }

  /** Rebuilding the decoded fields of a data-processing word returns the word. */
  lemma RebuildDecoded(w: Word)
    requires w / 0x400_0000 % 4 == 0
    ensures BuildInstruction(w / 0x1000_0000, if Bit25(w) then 1 else 0, Opcode(w), if SetsFlags(w) then 1 else 0,
                             Rn(w), Rd(w), Offset12(w)) == w
  {
    var a := w / 0x1000;
    DivTwice(w, 0x1000, 16);
    DivTwice(w, 0x1_0000, 16);
    DivTwice(w, 0x10_0000, 2);
    DivTwice(w, 0x20_0000, 16);
    DivTwice(w, 0x200_0000, 2);
    DivTwice(w, 0x400_0000, 4);
    assert w == w / 0x1000 * 0x1000 + Offset12(w);
    assert w / 0x1000 == w / 0x1_0000 * 16 + Rd(w);
    assert w / 0x1_0000 == w / 0x10_0000 * 16 + Rn(w);
    assert w / 0x10_0000 == w / 0x20_0000 * 2 + (if SetsFlags(w) then 1 else 0);
    assert w / 0x20_0000 == w / 0x200_0000 * 16 + Opcode(w);
    assert w / 0x200_0000 == w / 0x400_0000 * 2 + (if Bit25(w) then 1 else 0);
    assert w / 0x400_0000 == w / 0x1000_0000 * 4;
    var i, s := if Bit25(w) then 1 else 0, if SetsFlags(w) then 1 else 0;
    BuiltValue(w / 0x1000_0000, i, Opcode(w), s, Rn(w), Rd(w), Offset12(w));
  }

  // ----- shifter operands -----

  lemma DecodeImmediate(rotate: int, immediate: int, w: Word)
    requires 0 <= rotate < 16 && 0 <= immediate < 0x100
    requires Offset12(w) == BuildShifterImmediate(rotate, immediate)
    ensures Rotation(w) == 2 * rotate && Immediate8(w) == immediate
  {
    BuiltImmediate(rotate, immediate);
    hide BuildShifterImmediate;
    var h := w / 0x1000;
    assert w == h * 0x1000 + rotate * 0x100 + immediate;
    MiddleDigit(w, 0x100, 16, h, rotate, immediate);
    MiddleDigit(w, 1, 0x100, h * 16 + rotate, immediate, 0);
  }

  lemma DecodeAmount(amount: int, kind: int, rm: int, w: Word)
    requires 0 <= amount < 32 && 0 <= kind < 4 && 0 <= rm < 16
    requires Offset12(w) == BuildShifterAmount(amount, kind, rm)
    ensures ShiftAmount(w) == amount && ShiftType(w) == kind && !Bit4(w) && Rm(w) == rm
  {
    var h := w / 0x1000;
    assert w == h * 0x1000 + amount * 0x80 + kind * 0x20 + rm;
    MiddleDigit(w, 0x80, 32, h, amount, kind * 0x20 + rm);
    MiddleDigit(w, 0x20, 4, h * 32 + amount, kind, rm);
    MiddleDigit(w, 0x10, 2, h * 128 + amount * 4 + kind, 0, rm);
    MiddleDigit(w, 1, 16, h * 256 + amount * 8 + kind * 2, rm, 0);
  }

  lemma DecodeRegister(rs: int, kind: int, rm: int, w: Word)
    requires 0 <= rs < 16 && 0 <= kind < 4 && 0 <= rm < 16
    requires Offset12(w) == BuildShifterRegister(rs, kind, rm)
    ensures Rs(w) == rs && ShiftType(w) == kind && Bit4(w) && !Bit7(w) && Rm(w) == rm
  {
    var h := w / 0x1000;
    assert w == h * 0x1000 + rs * 0x100 + kind * 0x20 + 0x10 + rm;
    MiddleDigit(w, 0x100, 16, h, rs, kind * 0x20 + 0x10 + rm);
    MiddleDigit(w, 0x80, 2, h * 16 + rs, 0, kind * 0x20 + 0x10 + rm);
    MiddleDigit(w, 0x20, 4, h * 32 + rs * 2, kind, 0x10 + rm);
    MiddleDigit(w, 0x10, 2, h * 128 + rs * 8 + kind, 1, rm);
    MiddleDigit(w, 1, 16, h * 256 + rs * 16 + kind * 2 + 1, rm, 0);
  }

  /** The operand fields of a word are those of its 12 low bits. */
  lemma OperandFields(w: Word, h: nat, o: nat)
    requires w == 0x1000 * h + o && o < 0x1000
    ensures w / 0x100 % 16 == o / 0x100 && w % 0x100 == o % 0x100
    ensures w / 0x80 % 32 == o / 0x80 && w / 0x80 % 2 == o / 0x80 % 2
    ensures w / 0x20 % 4 == o / 0x20 % 4 && w / 0x10 % 2 == o / 0x10 % 2 && w % 16 == o % 16
  {
    MiddleDigit(w, 0x100, 16, h, o / 0x100, o % 0x100);
    MiddleDigit(w, 1, 0x100, h * 16 + o / 0x100, o % 0x100, 0);
    MiddleDigit(w, 0x80, 32, h, o / 0x80, o % 0x80);
    SplitDigit(o, 0x80, 2);
    MiddleDigit(w, 0x80, 2, h * 16 + o / 0x80 / 2, o / 0x80 % 2, o % 0x80);
    SplitDigit(o, 0x20, 4);
    MiddleDigit(w, 0x20, 4, h * 32 + o / 0x20 / 4, o / 0x20 % 4, o % 0x20);
    SplitDigit(o, 0x10, 2);
    MiddleDigit(w, 0x10, 2, h * 128 + o / 0x10 / 2, o / 0x10 % 2, o % 0x10);
    MiddleDigit(w, 1, 16, h * 256 + o / 0x10, o % 16, 0);
  }

  lemma SplitDigit(x: nat, d: nat, width: nat)
    requires d > 0 && width > 0
    ensures x == d * (width * (x / d / width) + x / d % width) + x % d
  {
    assert x / d == width * (x / d / width) + x / d % width;
  }

  /** Every 12-bit operand is rebuilt from its decoded fields by the builder of its form. */
  lemma RebuildImmediate(w: Word)
    ensures BuildShifterImmediate(Rotation(w) / 2, Immediate8(w)) == Offset12(w)
  {
    var o := Offset12(w);
    OperandFields(w, w / 0x1000, o);
    var rotate, immediate := o / 0x100, o % 0x100;
    assert Rotation(w) == rotate * 2 && Immediate8(w) == immediate;
    hide Rotation, Immediate8, Offset12;
    BuiltImmediate(rotate, immediate);
  }

  lemma BuiltImmediate(rotate: int, immediate: int)
    requires 0 <= rotate < 16 && 0 <= immediate < 0x100
    ensures BuildShifterImmediate(rotate, immediate) == rotate * 0x100 + immediate
  {
  }

  lemma RebuildAmount(w: Word)
    requires !Bit4(w)
    ensures BuildShifterAmount(ShiftAmount(w), ShiftType(w), Rm(w)) == Offset12(w)
  {
    var o := Offset12(w);
    OperandFields(w, w / 0x1000, o);
    OperandDigits(o);
    BuiltShifter(o / 0x80, o / 0x20 % 4, 0, o % 16);
  }

  lemma RebuildRegister(w: Word)
    requires Bit4(w) && !Bit7(w)
    ensures BuildShifterRegister(Rs(w), ShiftType(w), Rm(w)) == Offset12(w)
  {
    var o := Offset12(w);
    OperandFields(w, w / 0x1000, o);
    OperandDigits(o);
    BuiltShifter(o / 0x80, o / 0x20 % 4, 1, o % 16);
  }

  lemma OperandDigits(o: nat)
    ensures o == o / 0x80 * 0x80 + o / 0x20 % 4 * 0x20 + o / 0x10 % 2 * 0x10 + o % 16
    ensures o / 0x80 == o / 0x100 * 2 + o / 0x80 % 2
  {
    DivTwice(o, 0x80, 2);
    DivTwice(o, 0x20, 4);
    DivTwice(o, 0x10, 2);
    assert o / 0x10 == o / 0x20 * 2 + o / 0x10 % 2;
    assert o / 0x20 == o / 0x80 * 4 + o / 0x20 % 4;
  }

  lemma BuiltShifter(high: int, kind: int, bit4: int, rm: int)
    requires 0 <= high < 32 && 0 <= kind < 4 && 0 <= bit4 < 2 && 0 <= rm < 16
    ensures bit4 == 0 ==> BuildShifterAmount(high, kind, rm) == high * 0x80 + kind * 0x20 + rm
    ensures bit4 == 1 && high % 2 == 0 ==>
      BuildShifterRegister(high / 2, kind, rm) == high * 0x80 + kind * 0x20 + 0x10 + rm
  {
    var half := high / 2;
    assert high % 2 == 0 ==> high == 2 * half;
    assert half % 16 == half && high % 32 == high && rm % 16 == rm;
  }
}
