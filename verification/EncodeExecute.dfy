/**
 Encode, dispatch, execute: an instruction built from valid fields with
 condition AL reaches the data-processing handler and leaves the result of its
 operation on the shifted operand in Rd.
 */
module EncodeExecute {
  import opened Words
  import opened ArmConstants
  import opened RegisterFile
  import opened Core
  import opened Decode
  import opened DataProcessing
  import opened Shifter
  import opened Arithmetic
  import opened Instruction
  import opened CommandCreator

  /** The three shifter-operand forms. */
  datatype Operand =
    | Rotated(rotate: nat, immediate: nat)
    | ByAmount(amount: nat, kind: nat, rm: nat)
    | ByRegister(rs: nat, kind: nat, rm: nat)
  {
    predicate Valid() {
      match this
      case Rotated(rotate, immediate) => rotate < 16 && immediate < 0x100
      case ByAmount(amount, kind, rm) => amount < 32 && kind < 4 && rm < 16
      case ByRegister(rs, kind, rm) => rs < 16 && kind < 4 && rm < 16
    }

    function Encoded(): Half {
      match this
      case Rotated(rotate, immediate) => BuildShifterImmediate(rotate, immediate)
      case ByAmount(amount, kind, rm) => BuildShifterAmount(amount, kind, rm)
      case ByRegister(rs, kind, rm) => BuildShifterRegister(rs, kind, rm)
    }

    function KindOfShift(): nat {
      match this
      case Rotated(_, _) => ROR
      case ByAmount(_, kind, _) => kind
      case ByRegister(_, kind, _) => kind
    }

    function AmountIn(m: Machine): (n: nat)
      requires Valid()
      ensures n < 32
    {
      match this
      case Rotated(rotate, _) => 2 * rotate
      case ByAmount(amount, _, _) => amount
      case ByRegister(rs, _, _) => m.Reg(rs) % 32
    }

    function Unshifted(m: Machine): Word
      requires Valid()
    {
      match this
      case Rotated(_, immediate) => immediate
      case ByAmount(_, _, rm) => m.Reg(rm)
      case ByRegister(_, _, rm) => m.Reg(rm)
    }
  }

  /** v is the operand: each of its bits is the bit of the unshifted value that the shift
      brings there, or 0 (for LSL and LSR). */
  ghost predicate IsOperand(o: Operand, m: Machine, v: Word)
    requires o.Valid()
  {
    forall i: nat | i < 32 ::
      var from := Source(o.KindOfShift(), o.AmountIn(m), i);
      Bit(v, i) <==> from.Some? && Bit(o.Unshifted(m), from.value)
  }

  function Built(opcode: nat, s: nat, rn: nat, rd: nat, o: Operand): Word {
    BuildInstruction(14, if o.Rotated? then 1 else 0, opcode, s, rn, rd, o.Encoded())
  }

  predicate ValidInstruction(opcode: nat, s: nat, rn: nat, rd: nat, o: Operand) {
    opcode < 16 && s < 2 && rn < 16 && rd < 16 && o.Valid() && (Compares(opcode) ==> s == 1)
  }

  lemma EncodedFits(o: Operand)
    requires o.Valid()
    ensures o.Encoded() < 0x1000
  {
  }

  lemma BuiltFields(opcode: nat, s: nat, rn: nat, rd: nat, o: Operand)
    requires ValidInstruction(opcode, s, rn, rd, o)
    ensures var w := Built(opcode, s, rn, rd, o);
            && Cond(w) == 14 && Family(w) == (if o.Rotated? then 1 else 0)
            && Opcode(w) == opcode && SetsFlags(w) == (s == 1) && Rn(w) == rn && Rd(w) == rd
            && Offset12(w) == o.Encoded()
  {
    EncodedFits(o);
    DecodeBuilt(14, if o.Rotated? then 1 else 0, opcode, s, rn, rd, o.Encoded());
  }

  lemma OperandDecoded(o: Operand, w: Word)
    requires o.Valid() && Offset12(w) == o.Encoded()
    ensures match o
            case Rotated(rotate, immediate) => Rotation(w) == 2 * rotate && Immediate8(w) == immediate
            case ByAmount(amount, kind, rm) =>
              ShiftAmount(w) == amount && ShiftType(w) == kind && !Bit4(w) && Rm(w) == rm
            case ByRegister(rs, kind, rm) =>
              Rs(w) == rs && ShiftType(w) == kind && Bit4(w) && !Bit7(w) && Rm(w) == rm
  {
    match o
    case Rotated(rotate, immediate) => DecodeImmediate(rotate, immediate, w);
    case ByAmount(amount, kind, rm) => DecodeAmount(amount, kind, rm, w);
    case ByRegister(rs, kind, rm) => DecodeRegister(rs, kind, rm, w);
  }

  /** The built word reaches its handler, which computes with the shifted operand. */
  lemma ReachesHandler(opcode: nat, s: nat, rn: nat, rd: nat, o: Operand, m: Machine, junk: Indeterminate)
    requires ValidInstruction(opcode, s, rn, rd, o)
    ensures var w := Built(opcode, s, rn, rd, o);
            var v := Shifted(o.KindOfShift(), o.AmountIn(m), o.Unshifted(m));
            Dispatched(m, w, junk) == Operated(opcode, m.Reg(rn), v, m, w)
  {
    hide Operated, Shifted, ReadReg, SeenPc, Built;
    var w := Built(opcode, s, rn, rd, o);
    BuiltFields(opcode, s, rn, rd, o);
    OperandDecoded(o, w);
    OpcodeBits(w);
    AlwaysExecuted(m.Cpsr(), w);
    hide ConditionCode;
    if o.Rotated? {
      ToImmediate(m, w, junk);
    } else {
      ToShift(m, w, junk);
    }
  }

  lemma AlwaysExecuted(cpsr: Word, w: Word)
    requires Cond(w) == 14
    ensures ConditionCode(cpsr, w) == 0
  {
  }

  lemma ToImmediate(m: Machine, w: Word, junk: Indeterminate)
    requires Family(w) == 1 && (IsCompare(Opcode(w)) ==> SetsFlags(w))
    ensures Dispatched(m, w, junk) == DataImmediate(m, w)
  {
    hide DataImmediate;
    OpcodeBits(w);
  }

  lemma ToShift(m: Machine, w: Word, junk: Indeterminate)
    requires Family(w) == 0 && (IsCompare(Opcode(w)) ==> SetsFlags(w)) && !(Bit4(w) && Bit7(w))
    ensures Dispatched(m, w, junk) == DataShift(m, w)
  {
    hide DataShift;
    OpcodeBits(w);
  }

  lemma ShiftedIsOperand(o: Operand, m: Machine)
    requires o.Valid()
    ensures IsOperand(o, m, Shifted(o.KindOfShift(), o.AmountIn(m), o.Unshifted(m)))
  {
    var kind, amount, r := o.KindOfShift(), o.AmountIn(m), o.Unshifted(m);
    forall i: nat | i < 32
      ensures var from := Source(kind, amount, i);
              Bit(Shifted(kind, amount, r), i) <==> from.Some? && Bit(r, from.value)
    {
      ShiftedBit(kind, amount, r, i);
    }
  }

  /** Cells other than `c` and the CPSR are those of m, and so is the memory. */
  ghost predicate OnlyCell(m: Machine, m': Machine, c: nat) {
    && m'.mem == m.mem && m'.cycles == m.cycles && m'.bigEndian == m.bigEndian
    && forall k | 0 <= k < 37 && k != c && k != CPSR :: m'.regs[k] == m.regs[k]
  }

  // ----- what an operation leaves -----

  /** TST, TEQ, CMP and CMN. */
  predicate Compares(opcode: nat) {
    opcode / 4 == 2
  }

  /** The cell that the operation writes: none for a compare, which only reaches the CPSR. */
  function Destination(opcode: nat, rd: nat, m: Machine): nat
    requires rd < 16 && KnownMode(m.Mode())
  {
    if Compares(opcode) then CPSR else Cell(rd, m.Mode()).value
  }

  /** The exact result does not fit an unsigned word, or the operation is MVN. */
  predicate Overflows(opcode: nat, a: Word, v: Word, carry: bool) {
    if IsSum(opcode) then Exact(opcode, a, v, carry) >= 0x1_0000_0000
    else if IsDifference(opcode) then Exact(opcode, a, v, carry) < 0
    else opcode == 15
  }

  /** The flags of the result r: N is its sign; C and V both say that it overflows; Z says that
      it is 0 without an overflow. The other bits are kept. */
  ghost predicate FlagsAre(cpsr: Word, cpsr': Word, r: Word, overflows: bool) {
    && (Bit(cpsr', 31) <==> r >= 0x8000_0000)
    && (Bit(cpsr', 30) <==> r == 0 && !overflows)
    && (Bit(cpsr', 29) <==> overflows)
    && (Bit(cpsr', 28) <==> overflows)
    && cpsr' % 0x1000_0000 == cpsr % 0x1000_0000
  }

  /** The CPSR after an operation whose result is r: unchanged without S; with S the new
      flags, or, when Rd is R15, the SPSR of a mode that has one. */
  ghost predicate CpsrAfter(opcode: nat, s: nat, rd: nat, a: Word, v: Word, m: Machine, r: Word, cpsr': Word) {
    if s == 0 then cpsr' == m.Cpsr()
    else if rd != PC then FlagsAre(m.Cpsr(), cpsr', r, Overflows(opcode, a, v, Bit(m.Cpsr(), 29)))
    else if m.Mode() != USR && m.Mode() != SYS then cpsr' == m.Spsr()
    else cpsr' == m.Cpsr()
  }

  /** t is what the operation on a and v, with result r, should leave of m. It fails only when
      it asks for an SPSR that the mode does not have, and then it has still written r. */
  ghost predicate Executes(opcode: nat, s: nat, rd: nat, a: Word, v: Word, r: Word, m: Machine, t: Outcome)
    requires opcode < 16 && rd < 16 && KnownMode(m.Mode())
  {
    var lacking := s == 1 && rd == PC && (m.Mode() == USR || m.Mode() == SYS);
    && IsResult(opcode, a, v, Bit(m.Cpsr(), 29), r)
    && t.code == (if lacking then UNDEFINED_INSTRUCTION else 0)
    && OnlyCell(m, t.m, Destination(opcode, rd, m))
    && (Compares(opcode) || t.m.regs[Destination(opcode, rd, m)] == r)
    && CpsrAfter(opcode, s, rd, a, v, m, r, t.m.Cpsr())
  }

  /** For all valid fields with condition AL: there is an operand with the right bits; Rd
      holds the result of the operation on it, and a compare writes no register; nothing
      else moves but the CPSR. */
  lemma BuiltInstructionExecutes(opcode: nat, s: nat, rn: nat, rd: nat, o: Operand, m: Machine, junk: Indeterminate)
    returns (v: Word, r: Word)
    requires ValidInstruction(opcode, s, rn, rd, o) && KnownMode(m.Mode())
    ensures IsOperand(o, m, v)
    ensures Executes(opcode, s, rd, m.Reg(rn), v, r, m, Dispatched(m, Built(opcode, s, rn, rd, o), junk))
  {
    v := Shifted(o.KindOfShift(), o.AmountIn(m), o.Unshifted(m));
    ShiftedIsOperand(o, m);
    ReachesHandler(opcode, s, rn, rd, o, m, junk);
    BuiltFields(opcode, s, rn, rd, o);
    hide Operated, Dispatched, Built, Executes, Shifted, IsOperand;
    r := OperationEffect(opcode, s, m.Reg(rn), v, m, Built(opcode, s, rn, rd, o));
  }

  lemma FlagsKeepLow(cpsr: Word, temp: Long)
    ensures WithFlags(cpsr, temp) % 0x1000_0000 == cpsr % 0x1000_0000
  {
  }

  /** The temporary, seen through its result and its overflow. */
  lemma TempFlags(opcode: nat, a: Word, v: Word, carry: bool)
    requires opcode < 16
    ensures var temp, o := Temp(opcode, a, v, carry), Overflows(opcode, a, v, carry);
            && (Bit31(temp) <==> Low32(temp) >= 0x8000_0000)
            && (temp == 0 <==> Low32(temp) == 0 && !o)
            && (Bit32(temp) <==> o) && (temp >= 0x1_0000_0000 <==> o)
  {
    var temp := Temp(opcode, a, v, carry);
    ResultBit31(temp);
    if IsSum(opcode) || IsDifference(opcode) {
      ArithmeticTemp(opcode, a, v, carry);
      WrapWide(Exact(opcode, a, v, carry));
      hide Temp;
      WideZero(temp);
    } else if opcode < 15 {
      SmallTemp(opcode, a, v, carry);
      hide Temp;
      WideZero(temp);
    } else {
      WideComplement(v);
      WideZero(temp);
    }
  }

  lemma WideZero(temp: Long)
    ensures temp < 0x1_0000_0000 ==> Low32(temp) == temp && !Bit32(temp)
  {
  }

  lemma OperationFlags(opcode: nat, a: Word, v: Word, cpsr: Word)
    requires opcode < 16
    ensures var temp := Temp(opcode, a, v, FlagC(cpsr));
            FlagsAre(cpsr, WithFlags(cpsr, temp), Low32(temp), Overflows(opcode, a, v, Bit(cpsr, 29)))
  {
    var temp := Temp(opcode, a, v, FlagC(cpsr));
    TempFlags(opcode, a, v, FlagC(cpsr));
    FlagsAreBits(cpsr);
    FlagsAreBits(WithFlags(cpsr, temp));
    AllFlags(cpsr, temp);
    hide Temp, WithFlags, Low32, Bit31, Bit32, Bit, FlagN, FlagZ, FlagC, FlagV, Overflows;
  }

  lemma AllFlags(cpsr: Word, temp: Long)
    ensures var r := WithFlags(cpsr, temp);
            && (FlagN(r) <==> Bit31(temp)) && (FlagZ(r) <==> temp == 0)
            && (FlagC(r) <==> Bit32(temp)) && (FlagV(r) <==> temp >= 0x1_0000_0000)
            && r % 0x1000_0000 == cpsr % 0x1000_0000
  {
  }

  lemma OperationEffect(opcode: nat, s: nat, a: Word, v: Word, m: Machine, w: Word) returns (r: Word)
    requires opcode < 16 && KnownMode(m.Mode())
    requires s == if SetsFlags(w) || Compares(opcode) then 1 else 0
    ensures Executes(opcode, s, Rd(w), a, v, r, m, Operated(opcode, a, v, m, w))
  {
    var temp := Temp(opcode, a, v, FlagC(m.Cpsr()));
    r := Low32(temp);
    TempIsResult(opcode, a, v, FlagC(m.Cpsr()));
    FlagsAreBits(m.Cpsr());
    OperationFlags(opcode, a, v, m.Cpsr());
    hide Temp, WithFlags, IsResult, SetsFlags, Low32, FlagC, Bit, FlagsAre, Overflows;
    OperationWrites(opcode, m, w, temp);
    var m1 := if Compares(opcode) then m else m.SetReg(Rd(w), Low32(temp));
    FlagsWritten(m1, temp, s == 1, Rd(w));
    assert Operated(opcode, a, v, m, w) == FlagsUpdated(m1, temp, s == 1, Rd(w));
    hide Operated, FlagsUpdated, WriteReg, Rd, ReadReg;
  }

  /** The write of the CPSR. */
  lemma FlagsWritten(m: Machine, temp: Long, s: bool, rd: nat)
    ensures var t, saved := FlagsUpdated(m, temp, s, rd), m.Mode() != USR && m.Mode() != SYS;
            && t.code == (if s && rd == PC && !saved then UNDEFINED_INSTRUCTION else 0)
            && t.m.Cpsr() == (if !s then m.Cpsr()
                              else if rd != PC then WithFlags(m.Cpsr(), temp)
                              else if saved then m.Spsr()
                              else m.Cpsr())
            && OnlyCell(m, t.m, CPSR)
  {
    hide WithFlags, ReadReg;
  }

  /** The writes of an operation with that temporary. */
  lemma OperationWrites(opcode: nat, m: Machine, w: Word, temp: Long)
    requires opcode < 16 && KnownMode(m.Mode())
    ensures var m1 := if Compares(opcode) then m else m.SetReg(Rd(w), Low32(temp));
            && m1.Cpsr() == m.Cpsr() && m1.Spsr() == m.Spsr() && m1.Mode() == m.Mode()
            && OnlyCell(m, m1, Destination(opcode, Rd(w), m))
            && (Compares(opcode) || m1.regs[Destination(opcode, Rd(w), m)] == Low32(temp))
  {
    hide Low32, Rd;
  }
}
