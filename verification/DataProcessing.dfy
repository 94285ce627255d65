/**
 The data-processing unit: shifter, the sixteen operations on 64-bit
 temporaries, flag update, and the two handlers.
 */
module DataProcessing {
  import opened Words
  import opened ArmConstants
  import opened RegisterFile
  import opened Core
  import opened Decode

  // ----- shifter -----

  const LSL := 0
  const LSR := 1
  const ASR := 2
  const ROR := 3

  function Shr(x: Word, n: nat): Word {
    ShiftRight(x, n)
  }

  function Or32(x: Word, y: Word): Word {
    Pow2Values();
    BitwiseBound(Disj, x, y, 32);
    Or(x, y)
  }

  /** Shift selector of bits 6 and 5. */
  function ShiftKind(bit6: nat, bit5: nat): (kind: nat)
    requires bit6 < 2 && bit5 < 2
    ensures kind == 2 * bit6 + bit5
  {
    if bit6 == 0 && bit5 == 0 then LSL
    else if bit6 == 0 && bit5 == 1 then LSR
    else if bit6 == 1 && bit5 == 0 then ASR
    else ROR
  }

  /** `Effectuer_Decalage`. */
  function Shifted(kind: nat, amount: nat, r: Word): Word
    requires amount < 32
  {
    if kind == LSL then ShiftLeft(r, amount)
    else if kind == LSR then Shr(r, amount)
    else if kind == ASR then
      if r / 0x8000_0000 == 1 then Or32(Shr(r, amount), ShiftLeft(0xFFFF_FFFF, 32 - amount)) else Shr(r, amount)
    else RotateRight(r, amount)
  }

  function RotateRight(r: Word, n: nat): Word
    requires n <= 32
  {
    Or32(Shr(r, n), ShiftLeft(r, 32 - n))
  }

  // ----- operations -----

  function Wrap64(x: int): Long {
    x % 0x1_0000_0000_0000_0000
  }

  lemma {:induction false} AndBound(x: nat, y: nat)
    ensures And(x, y) <= x
  {
    if x == 0 {
      AndZero(y);
    } else {
      AndBound(x / 2, y / 2);
    }
  }

  /** The 64-bit temporary of each operation. */
  function Temp(opcode: nat, rn: Word, op2: Word, carry: bool): Long
    requires opcode < 16
  {
    var c := if carry then 1 else 0;
    Pow2Values();
    AndBound(rn, op2);
    AndBound(rn, 0xFFFF_FFFF_FFFF_FFFF - op2);
    BitwiseBound(Xor, rn, op2, 32);
    match opcode
    case 0 => And(rn, op2)
    case 1 => Eor(rn, op2)
    case 2 => Wrap64(rn - op2)
    case 3 => Wrap64(op2 - rn)
    case 4 => Wrap64(rn + op2)
    case 5 => Wrap64(rn + op2 + c)
    case 6 => Wrap64(rn - op2 + c - 1)
    case 7 => Wrap64(op2 - rn + c - 1)
    case 8 => And(rn, op2)
    case 9 => Eor(rn, op2)
    case 10 => Wrap64(rn - op2)
    case 11 => Wrap64(rn + op2)
    case 12 => Or32(rn, op2)
    case 13 => op2
    case 14 => And(rn, 0xFFFF_FFFF_FFFF_FFFF - op2)
    case _ => 0xFFFF_FFFF_FFFF_FFFF - op2
  }

  predicate IsCompare(opcode: nat) {
    8 <= opcode <= 11
  }

  function Low32(temp: Long): Word {
    temp % 0x1_0000_0000
  }

  predicate Bit31(temp: Long) { temp / 0x8000_0000 % 2 == 1 }

  predicate Bit32(temp: Long) { temp / 0x1_0000_0000 % 2 == 1 }

  function Digit(on: bool): (d: int)
    ensures 0 <= d < 2
  {
    if on then 1 else 0
  }

  /** CPSR with N, Z, C, V computed from the temporary and bits 27..0 kept. */
  function WithFlags(cpsr: Word, temp: Long): (r: Word)
    ensures r % 0x1000_0000 == cpsr % 0x1000_0000
    ensures FlagN(r) <==> Bit31(temp)
    ensures FlagZ(r) <==> temp == 0
    ensures FlagC(r) <==> Bit32(temp)
    ensures FlagV(r) <==> temp >= 0x1_0000_0000
  {
    var n, z, c, v := Digit(Bit31(temp)), Digit(temp == 0), Digit(Bit32(temp)), Digit(temp >= 0x1_0000_0000);
    FourBits(n, z, c, v, cpsr % 0x1000_0000);
    Assemble(n, z, c, v, cpsr % 0x1000_0000)
  }

  function Assemble(n: int, z: int, c: int, v: int, low: int): int {
    n * 0x8000_0000 + z * 0x4000_0000 + c * 0x2000_0000 + v * 0x1000_0000 + low
  }

  lemma FourBits(n: int, z: int, c: int, v: int, low: int)
    requires 0 <= n < 2 && 0 <= z < 2 && 0 <= c < 2 && 0 <= v < 2 && 0 <= low < 0x1000_0000
    ensures var x := Assemble(n, z, c, v, low);
            && 0 <= x < 0x1_0000_0000 && x % 0x1000_0000 == low
            && x / 0x8000_0000 == n && x / 0x8000_0000 % 2 == n && x / 0x4000_0000 % 2 == z
            && x / 0x2000_0000 % 2 == c && x / 0x1000_0000 % 2 == v
  {
    var x := Assemble(n, z, c, v, low);
    assert x / 0x1000_0000 == n * 8 + z * 4 + c * 2 + v;
    assert x / 0x2000_0000 == n * 4 + z * 2 + c;
    assert x / 0x4000_0000 == n * 2 + z;
  }

  function FlagsUpdated(m: Machine, temp: Long, s: bool, rd: nat): Outcome {
    if s && rd == PC then
      if HasSpsr(m.Mode()) then Outcome(0, m.SetCpsr(m.Spsr())) else Outcome(UNDEFINED_INSTRUCTION, m)
    else if s then Outcome(0, m.SetCpsr(WithFlags(m.Cpsr(), temp)))
    else Outcome(0, m)
  }

  function Operated(opcode: nat, rn: Word, op2: Word, m: Machine, ins: Word): Outcome
    requires opcode < 16
  {
    var temp := Temp(opcode, rn, op2, FlagC(m.Cpsr()));
    if IsCompare(opcode) then FlagsUpdated(m, temp, true, Rd(ins))
    else FlagsUpdated(m.SetReg(Rd(ins), Low32(temp)), temp, SetsFlags(ins), Rd(ins))
  }

  // ----- the two handlers -----

  function DataShift(m: Machine, ins: Word): Outcome {
    if ConditionCode(m.Cpsr(), ins) != 0 then Outcome(1, m)
    else if Bit4(ins) && Bit7(ins) then Outcome(UNDEFINED_INSTRUCTION, m)
    else
      var amount := if Bit4(ins) then m.Reg(Rs(ins)) % 32 else ShiftAmount(ins);
      Operated(Opcode(ins), m.Reg(Rn(ins)), Shifted(ShiftType(ins), amount, m.Reg(Rm(ins))), m, ins)
  }

  function DataImmediate(m: Machine, ins: Word): Outcome {
    if ConditionCode(m.Cpsr(), ins) != 0 then Outcome(1, m)
    else Operated(Opcode(ins), m.Reg(Rn(ins)), Shifted(ROR, Rotation(ins), Immediate8(ins)), m, ins)
  }

  // ----- the CPSR masks -----

  /** One read-modify-write of a flag with the mask of the code. */
  function Masked(x: Word, k: nat, on: bool): Word
    requires k < 32
  {
    Pow2Values();
    Pow2Monotone(k, 31);
    AndBound(x, Not(Pow2(k)));
    if on then Or32(x, Not(Not(Pow2(k)))) else And(x, Not(Pow2(k)))
  }

  lemma MaskedIsAssigned(x: Word, k: nat, power: nat, on: bool)
    requires k < 32 && power == Pow2(k) && power <= 0x8000_0000
    ensures Masked(x, k, on) == x - (if x / power % 2 == 1 then power else 0) + (if on then power else 0)
  {
    Pow2Values();
    BitIsDigit(x, k);
    if on {
      OrOneBit(x, k);
    } else {
      AndAllButOneBit(x, k, 32, Not(power));
    }
  }

  lemma MaskN(n: int, z: int, c: int, v: int, low: int, on: bool, b: int)
    requires 0 <= n < 2 && 0 <= z < 2 && 0 <= c < 2 && 0 <= v < 2 && 0 <= low < 0x1000_0000
    requires b == if on then 1 else 0
    ensures 0 <= Assemble(n, z, c, v, low) < 0x1_0000_0000
    ensures Masked(Assemble(n, z, c, v, low), 31, on) == Assemble(b, z, c, v, low)
  {
    FourBits(n, z, c, v, low);
    Pow2Values();
    MaskedIsAssigned(Assemble(n, z, c, v, low), 31, 0x8000_0000, on);
  }

  lemma MaskZ(n: int, z: int, c: int, v: int, low: int, on: bool, b: int)
    requires 0 <= n < 2 && 0 <= z < 2 && 0 <= c < 2 && 0 <= v < 2 && 0 <= low < 0x1000_0000
    requires b == if on then 1 else 0
    ensures 0 <= Assemble(n, z, c, v, low) < 0x1_0000_0000
    ensures Masked(Assemble(n, z, c, v, low), 30, on) == Assemble(n, b, c, v, low)
  {
    FourBits(n, z, c, v, low);
    Pow2Values();
    MaskedIsAssigned(Assemble(n, z, c, v, low), 30, 0x4000_0000, on);
  }

  lemma MaskC(n: int, z: int, c: int, v: int, low: int, on: bool, b: int)
    requires 0 <= n < 2 && 0 <= z < 2 && 0 <= c < 2 && 0 <= v < 2 && 0 <= low < 0x1000_0000
    requires b == if on then 1 else 0
    ensures 0 <= Assemble(n, z, c, v, low) < 0x1_0000_0000
    ensures Masked(Assemble(n, z, c, v, low), 29, on) == Assemble(n, z, b, v, low)
  {
    FourBits(n, z, c, v, low);
    Pow2Values();
    MaskedIsAssigned(Assemble(n, z, c, v, low), 29, 0x2000_0000, on);
  }

  lemma MaskV(n: int, z: int, c: int, v: int, low: int, on: bool, b: int)
    requires 0 <= n < 2 && 0 <= z < 2 && 0 <= c < 2 && 0 <= v < 2 && 0 <= low < 0x1000_0000
    requires b == if on then 1 else 0
    ensures 0 <= Assemble(n, z, c, v, low) < 0x1_0000_0000
    ensures Masked(Assemble(n, z, c, v, low), 28, on) == Assemble(n, z, c, b, low)
  {
    FourBits(n, z, c, v, low);
    Pow2Values();
    MaskedIsAssigned(Assemble(n, z, c, v, low), 28, 0x1000_0000, on);
  }

  /** What the four read-modify-writes of the code make of the CPSR. */
  function FourMasks(x: Word, z: bool, n: bool, c: bool, v: bool): Word {
    Masked(Masked(Masked(Masked(x, 30, z), 31, n), 29, c), 28, v)
  }

  lemma FourMasksAssemble(a: int, b: int, c: int, d: int, low: int, z': bool, n': bool, c': bool, v': bool)
    requires 0 <= a < 2 && 0 <= b < 2 && 0 <= c < 2 && 0 <= d < 2 && 0 <= low < 0x1000_0000
    ensures 0 <= Assemble(a, b, c, d, low) < 0x1_0000_0000
    ensures FourMasks(Assemble(a, b, c, d, low), z', n', c', v')
         == Assemble(Digit(n'), Digit(z'), Digit(c'), Digit(v'), low)
  {
    MaskZ(a, b, c, d, low, z', Digit(z'));
    MaskN(a, Digit(z'), c, d, low, n', Digit(n'));
    MaskC(Digit(n'), Digit(z'), c, d, low, c', Digit(c'));
    MaskV(Digit(n'), Digit(z'), Digit(c'), d, low, v', Digit(v'));
  }

  /** The four successive masks compute the four flags and keep bits 27..0. */
  lemma MasksSetFlags(x: Word, temp: Long)
    ensures FourMasks(x, temp == 0, Bit31(temp), Bit32(temp), temp != Low32(temp)) == WithFlags(x, temp)
  {
    FourBitsOf(x);
    WideTemp(temp);
    FourMasksAssemble(x / 0x8000_0000, x / 0x4000_0000 % 2, x / 0x2000_0000 % 2, x / 0x1000_0000 % 2, x % 0x1000_0000,
                      temp == 0, Bit31(temp), Bit32(temp), temp >= 0x1_0000_0000);
  }

  lemma WideTemp(temp: Long)
    ensures temp != Low32(temp) <==> temp >= 0x1_0000_0000
  {
  }

  lemma FourBitsOf(x: Word)
    ensures x == Assemble(x / 0x8000_0000, x / 0x4000_0000 % 2, x / 0x2000_0000 % 2, x / 0x1000_0000 % 2,
                          x % 0x1000_0000)
    ensures x / 0x8000_0000 < 2
  {
    var h := x / 0x1000_0000;
    assert x / 0x2000_0000 == h / 2;
    assert x / 0x4000_0000 == h / 4;
    assert x / 0x8000_0000 == h / 8;
  }

  // ----- the methods -----

  method UpdateFlags(temp: Long, p: ArmCore, s: bool, rd: nat) returns (code: int)
    requires p.Valid()
    modifies p.reg.registre
    ensures p.Valid() && Outcome(code, p.Abs()) == FlagsUpdated(old(p.Abs()), temp, s, rd)
  {
    if s && rd == 15 {
      var has := p.CurrentModeHasSpsr();
      if has {
        var spsr := p.ReadSpsr();
        p.WriteCpsr(spsr);
      } else {
        return UNDEFINED_INSTRUCTION;
      }
    } else if s {
      var res := Low32(temp);
      ghost var x := p.Abs().Cpsr();
      var cpsr := p.ReadCpsr();
      p.WriteCpsr(Masked(cpsr, 30, temp == 0));
      cpsr := p.ReadCpsr();
      p.WriteCpsr(Masked(cpsr, 31, Bit31(temp)));
      cpsr := p.ReadCpsr();
      p.WriteCpsr(Masked(cpsr, 29, Bit32(temp)));
      cpsr := p.ReadCpsr();
      p.WriteCpsr(Masked(cpsr, 28, temp != res));
      MasksSetFlags(x, temp);
    }
    return 0;
  }

  method EffectuerOperation(opcode: nat, rn: Word, op2: Word, p: ArmCore, ins: Word) returns (code: int)
    requires p.Valid() && opcode < 16
    modifies p.reg.registre
    ensures p.Valid() && Outcome(code, p.Abs()) == Operated(opcode, rn, op2, old(p.Abs()), ins)
  {
    var rd := ins / 0x1000 % 16;
    var cpsr := p.ReadCpsr();
    var flagC := cpsr / 0x2000_0000 % 2;
    var temp := Temp(opcode, rn, op2, flagC == 1);
    if opcode == 8 || opcode == 9 || opcode == 10 || opcode == 11 {
      code := UpdateFlags(temp, p, true, rd);
    } else {
      p.WriteRegister(rd, Low32(temp));
      code := UpdateFlags(temp, p, ins / 0x10_0000 % 2 == 1, rd);
    }
  }

  lemma ShiftFields(ins: Word)
    ensures ShiftKind(ins / 0x40 % 2, ins / 0x20 % 2) == ShiftType(ins)
  {
    assert ins / 0x40 == ins / 0x20 / 2;
    TwoBits(ins / 0x20);
  }

  lemma TwoBits(h: nat)
    ensures 2 * (h / 2 % 2) + h % 2 == h % 4
  {
  }

  method ArmDataProcessingShift(p: ArmCore, ins: Word) returns (code: int)
    requires p.Valid()
    modifies p.reg.registre
    ensures p.Valid() && Outcome(code, p.Abs()) == DataShift(old(p.Abs()), ins)
  {
    var skip := p.CondNotRespect(ins);
    if skip != 0 {
      return 1;
    }
    var rm := p.ReadRegister(ins % 16);
    var kind := ShiftKind(ins / 0x40 % 2, ins / 0x20 % 2);
    var amount: nat;
    if ins / 0x10 % 2 == 0 {
      amount := ins / 0x80 % 32;
    } else {
      if ins / 0x80 % 2 != 0 {
        return UNDEFINED_INSTRUCTION;
      }
      var rs := p.ReadRegister(ins / 0x100 % 16);
      amount := rs % 32;
    }
    ShiftFields(ins);
    rm := Shifted(kind, amount, rm);
    var rn := p.ReadRegister(ins / 0x1_0000 % 16);
    code := EffectuerOperation(ins / 0x20_0000 % 16, rn, rm, p, ins);
  }

  method ArmDataProcessingImmediateMsr(p: ArmCore, ins: Word) returns (code: int)
    requires p.Valid()
    modifies p.reg.registre
    ensures p.Valid() && Outcome(code, p.Abs()) == DataImmediate(old(p.Abs()), ins)
  {
    var skip := p.CondNotRespect(ins);
    if skip != 0 {
      return 1;
    }
    var operand := Shifted(ROR, ins / 0x100 % 16 * 2, ins % 0x100);
    var rn := p.ReadRegister(ins / 0x1_0000 % 16);
    code := EffectuerOperation(ins / 0x20_0000 % 16, rn, operand, p, ins);
  }
}
