/** The fields of an instruction word, as the handlers extract them. */
module Decode {
  import opened Words

  // register numbers
  function Rn(ins: Word): (r: nat) ensures r < 16 { ins / 0x1_0000 % 16 }

  function Rd(ins: Word): (r: nat) ensures r < 16 { ins / 0x1000 % 16 }

  function Rs(ins: Word): (r: nat) ensures r < 16 { ins / 0x100 % 16 }

  function Rm(ins: Word): (r: nat) ensures r < 16 { ins % 16 }

  // single bits
  predicate Bit4(ins: Word) { ins / 0x10 % 2 == 1 }

  predicate Bit7(ins: Word) { ins / 0x80 % 2 == 1 }

  predicate Bit20(ins: Word) { ins / 0x10_0000 % 2 == 1 }

  predicate Bit21(ins: Word) { ins / 0x20_0000 % 2 == 1 }

  predicate Bit22(ins: Word) { ins / 0x40_0000 % 2 == 1 }

  predicate Bit23(ins: Word) { ins / 0x80_0000 % 2 == 1 }

  predicate Bit24(ins: Word) { ins / 0x100_0000 % 2 == 1 }

  predicate Bit25(ins: Word) { ins / 0x200_0000 % 2 == 1 }

  // data processing
  function Opcode(ins: Word): (op: nat) ensures op < 16 { ins / 0x20_0000 % 16 }

  predicate SetsFlags(ins: Word) { Bit20(ins) }

  function ShiftAmount(ins: Word): (n: nat) ensures n < 32 { ins / 0x80 % 32 }

  function ShiftType(ins: Word): (k: nat) ensures k < 4 { ins / 0x20 % 4 }

  function Immediate8(ins: Word): (v: nat) ensures v < 0x100 { ins % 0x100 }

  function Rotation(ins: Word): (n: nat) ensures n < 32 { ins / 0x100 % 16 * 2 }

  // load and store
  predicate PreIndexed(ins: Word) { Bit24(ins) }

  predicate Upwards(ins: Word) { Bit23(ins) }

  predicate ByteOrS(ins: Word) { Bit22(ins) }

  predicate WriteBack(ins: Word) { Bit21(ins) }

  predicate IsLoad(ins: Word) { Bit20(ins) }

  function Offset12(ins: Word): (v: nat) ensures v < 0x1000 { ins % 0x1000 }

  function RegisterList(ins: Word): (l: nat) ensures l < 0x1_0000 { ins % 0x1_0000 }

  // branch
  function Immediate24(ins: Word): (v: nat) ensures v < 0x100_0000 { ins % 0x100_0000 }

  // dispatch
  function Family(ins: Word): (f: nat) ensures f < 8 { ins / 0x200_0000 % 8 }

  /** The four bits from bit l up. */
  function Nibble(ins: Word, l: nat): (r: nat)
    ensures r < 16
  {
    Pow2Values();
    GetBits(ins, l + 3, l)
  }

  /** The fields are the bit fields that the handlers name. */
  lemma FieldsAreGetBits(ins: Word)
    ensures Rn(ins) == GetBits(ins, 19, 16) && Rd(ins) == GetBits(ins, 15, 12)
    ensures Rs(ins) == GetBits(ins, 11, 8) && Rm(ins) == GetBits(ins, 3, 0)
    ensures Opcode(ins) == GetBits(ins, 24, 21) && ShiftAmount(ins) == GetBits(ins, 11, 7)
    ensures ShiftType(ins) == GetBits(ins, 6, 5) && Immediate8(ins) == GetBits(ins, 7, 0)
    ensures Offset12(ins) == GetBits(ins, 11, 0) && RegisterList(ins) == GetBits(ins, 15, 0)
    ensures Immediate24(ins) == GetBits(ins, 23, 0) && Family(ins) == GetBits(ins, 27, 25)
    ensures Rotation(ins) == 2 * GetBits(ins, 11, 8)
  {
    Pow2Values();
    assert Pow2(0) == 1 && Pow2(2) == 4 && Pow2(3) == 8 && Pow2(7) == 0x80 && Pow2(12) == 0x1000;
    assert Pow2(21) == 0x20_0000 && Pow2(25) == 0x200_0000;
  }

  /** The named bits are the bits of those numbers. */
  lemma BitsAreBits(ins: Word)
    ensures Bit4(ins) == Bit(ins, 4) && Bit7(ins) == Bit(ins, 7) && Bit20(ins) == Bit(ins, 20)
    ensures Bit21(ins) == Bit(ins, 21) && Bit22(ins) == Bit(ins, 22) && Bit23(ins) == Bit(ins, 23)
    ensures Bit24(ins) == Bit(ins, 24) && Bit25(ins) == Bit(ins, 25)
    ensures SetsFlags(ins) == Bit(ins, 20) && IsLoad(ins) == Bit(ins, 20) && WriteBack(ins) == Bit(ins, 21)
    ensures ByteOrS(ins) == Bit(ins, 22) && Upwards(ins) == Bit(ins, 23) && PreIndexed(ins) == Bit(ins, 24)
  {
    Pow2Values();
    assert Pow2(7) == 0x80 && Pow2(20) == 0x10_0000 && Pow2(21) == 0x20_0000 && Pow2(22) == 0x40_0000;
    assert Pow2(23) == 0x80_0000 && Pow2(25) == 0x200_0000;
    hide Pow2, Bit;
    BitIsDigit(ins, 4);
    BitIsDigit(ins, 7);
    BitIsDigit(ins, 20);
    BitIsDigit(ins, 21);
    BitIsDigit(ins, 22);
    BitIsDigit(ins, 23);
    BitIsDigit(ins, 24);
    BitIsDigit(ins, 25);
  }

  /** Bits 31..20 of the word are `head`, bits 19..16 are `rn`, seen at every position. */
  predicate HasHead(w: Word, head: nat, rn: nat) {
    && w / 0x10_0000 == head && w / 0x20_0000 == head / 2 && w / 0x40_0000 == head / 4
    && w / 0x80_0000 == head / 8 && w / 0x100_0000 == head / 16 && w / 0x200_0000 == head / 32
    && w / 0x1000_0000 == head / 256
    && w / 0x1_0000 % 16 == rn
  }

  lemma HeadFields(w: Word, head: nat, rn: nat, low: nat)
    requires rn < 16 && low < 0x1_0000 && w == head * 0x10_0000 + rn * 0x1_0000 + low
    ensures HasHead(w, head, rn) && w % 0x1_0000 == low
  {
    assert w / 0x1_0000 == head * 16 + rn;
    assert w / 0x10_0000 == head;
    DivTwice(w, 0x10_0000, 2);
    DivTwice(w, 0x10_0000, 4);
    DivTwice(w, 0x10_0000, 8);
    DivTwice(w, 0x10_0000, 16);
    DivTwice(w, 0x10_0000, 32);
    DivTwice(w, 0x10_0000, 256);
  }
}
