/**
 Every word of the data-processing space: refused on its condition, or executed on
 the operand that its bits describe.
 */
module DataLaws {
  import opened Words
  import opened ArmConstants
  import opened RegisterFile
  import opened Core
  import opened Decode
  import opened DataProcessing
  import opened Instruction
  import opened CommandCreator
  import opened EncodeExecute

  /** Register forms that are neither miscellaneous nor extra transfers, and immediate forms
      other than the undefined ones. */
  predicate IsData(ins: Word) {
    || (GetBits(ins, 27, 25) == 0 && !(Bit(ins, 24) && !Bit(ins, 23) && !Bit(ins, 20)) && !(Bit(ins, 7) && Bit(ins, 4)))
    || (GetBits(ins, 27, 25) == 1 && !(Bit(ins, 24) && !Bit(ins, 23) && !Bit(ins, 21) && !Bit(ins, 20)))
  }

  lemma DataIsData(ins: Word)
    ensures IsData(ins) <==> IsDataProcessing(ins)
  {
    hide GetBits, Bit;
    FieldsAreGetBits(ins);
    SpacesAreBits(ins);
  }

  /** The operand that the instruction names. */
  function OperandOf(ins: Word): (o: Operand)
    ensures o.Valid()
  {
    Pow2Values();
    assert Pow2(2) == 4;
    if GetBits(ins, 27, 25) == 1 then Rotated(Nibble(ins, 8), GetBits(ins, 7, 0))
    else if Bit(ins, 4) then ByRegister(Nibble(ins, 8), GetBits(ins, 6, 5), Nibble(ins, 0))
    else ByAmount(GetBits(ins, 11, 7), GetBits(ins, 6, 5), Nibble(ins, 0))
  }

  function OpcodeOf(ins: Word): (opcode: nat)
    ensures opcode < 16
  {
    Nibble(ins, 21)
  }

  /** The flags are set on request, and by every compare. */
  function FlagBit(ins: Word): nat {
    if Bit(ins, 20) || Compares(OpcodeOf(ins)) then 1 else 0
  }

  function Computed(m: Machine, ins: Word): Outcome {
    var o := OperandOf(ins);
    Operated(Opcode(ins), m.Reg(Rn(ins)), Shifted(o.KindOfShift(), o.AmountIn(m), o.Unshifted(m)), m, ins)
  }

  /** What the handlers compute. */
  lemma DataHandled(m: Machine, ins: Word, junk: Indeterminate)
    requires IsData(ins)
    ensures Dispatched(m, ins, junk) == if Passes(m.Cpsr(), ins) then Computed(m, ins) else Outcome(1, m)
  {
    hide GetBits, Bit, Passes, ConditionCode, Operated, Shifted, ReadReg, SeenPc;
    FieldsAreGetBits(ins);
    BitsAreBits(ins);
    DataIsData(ins);
    ConditionPasses(m.Cpsr(), ins);
  }

  /** Every data-processing word: a refused condition gives the code 1, which is that of RESET,
      and changes nothing; otherwise there are an operand v with the right bits and a result
      r of the operation on it, and the outcome is exactly theirs. */
  lemma DataOutcome(m: Machine, ins: Word, junk: Indeterminate) returns (v: Word, r: Word)
    requires IsData(ins) && KnownMode(m.Mode())
    ensures IsOperand(OperandOf(ins), m, v)
    ensures var t := Dispatched(m, ins, junk);
            if Passes(m.Cpsr(), ins) then
              Executes(OpcodeOf(ins), FlagBit(ins), Nibble(ins, 12), m.Reg(Nibble(ins, 16)), v, r, m, t)
            else t == Outcome(1, m)
  {
    var o := OperandOf(ins);
    v := Shifted(o.KindOfShift(), o.AmountIn(m), o.Unshifted(m));
    hide GetBits, Bit, Passes, Operated, Shifted, ReadReg, SeenPc, Dispatched, Executes, IsOperand, OperandOf;
    FieldsAreGetBits(ins);
    BitsAreBits(ins);
    ShiftedIsOperand(o, m);
    DataHandled(m, ins, junk);
    r := OperationEffect(Opcode(ins), FlagBit(ins), m.Reg(Rn(ins)), v, m, ins);
  }

  /** The immediate form of MSR is in this space: it is executed as TEQ or CMN. */
  lemma MsrImmediateCompares(ins: Word)
    requires GetBits(ins, 27, 25) == 1 && Bit(ins, 24) && !Bit(ins, 23) && Bit(ins, 21) && !Bit(ins, 20)
    ensures IsData(ins) && (OpcodeOf(ins) == 9 || OpcodeOf(ins) == 11) && FlagBit(ins) == 1
  {
    hide GetBits, Bit;
    FieldsAreGetBits(ins);
    BitsAreBits(ins);
    OpcodeBits(ins);
  }
}
