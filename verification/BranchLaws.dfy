/**
 B, BL and BLX on every word of the branch family: when they are taken, where
 they go, what they leave in R14 and the CPSR, and that nothing else moves.
 */
module BranchLaws {
  import opened Words
  import opened ArmConstants
  import opened RegisterFile
  import opened Core
  import opened Decode
  import opened BranchOther
  import opened Instruction
  import opened ProgramCounter

  predicate IsBranch(ins: Word) {
    GetBits(ins, 27, 25) == 5
  }

  /** The condition 15 makes a BLX, which is always taken. */
  predicate SwitchesState(ins: Word) {
    Nibble(ins, 28) == 15
  }

  /** BL and BLX set the link register. */
  predicate Links(ins: Word) {
    Bit(ins, 24) || SwitchesState(ins)
  }

  /** Distance from the value read in R15: four times the signed immediate, one half-word
      more for a BLX with bit 24, and the 4 bytes that the code takes back. */
  function Distance(ins: Word): int {
    4 * SignedImmediate(ins) + (if SwitchesState(ins) && Bit(ins, 24) then 2 else 0) - 4
  }

  /** t is what a taken branch leaves of m. */
  ghost predicate Taken(m: Machine, ins: Word, t: Outcome)
    requires KnownMode(m.Mode())
  {
    var link := Cell(14, m.Mode()).value;
    && t.code == 0 && t.m.mem == m.mem && t.m.bigEndian == m.bigEndian && t.m.cycles == m.cycles
    && t.m.regs[PC] == Plus(m.Reg(PC), Distance(ins))
    && t.m.regs[link] == (if Links(ins) then m.Reg(PC) else m.regs[link])
    && (forall i: nat | i < 32 :: Bit(t.m.Cpsr(), i) <==> Bit(m.Cpsr(), i) || (SwitchesState(ins) && i == 5))
    && (forall c: nat | c < 37 && c != PC && c != CPSR && c != link :: t.m.regs[c] == m.regs[c])
  }

  /** Every branch: refused with -1 and nothing changed, or taken. */
  lemma BranchOutcome(m: Machine, ins: Word, junk: Indeterminate)
    requires IsBranch(ins) && KnownMode(m.Mode())
    ensures if Passes(m.Cpsr(), ins) || SwitchesState(ins) then Taken(m, ins, Dispatched(m, ins, junk))
            else Dispatched(m, ins, junk) == Outcome(-1, m)
  {
    hide GetBits, Bit, Passes, ConditionCode, Displacement, SignedImmediate, SeenPc, ThumbState;
    FieldsAreGetBits(ins);
    BitsAreBits(ins);
    CondIsNibble(ins);
    ConditionPasses(m.Cpsr(), ins);
    assert Dispatched(m, ins, junk) == Branched(m, ins);
    hide Dispatched;
    if Passes(m.Cpsr(), ins) || SwitchesState(ins) {
      if SwitchesState(ins) {
        SwitchOutcome(m, ins);
      } else {
        PlainOutcome(m, ins);
      }
    }
  }

  lemma PlainOutcome(m: Machine, ins: Word)
    requires KnownMode(m.Mode()) && ConditionCode(m.Cpsr(), ins) == 0
    ensures Taken(m, ins, Branched(m, ins))
  {
    hide GetBits, Bit, ConditionCode, Displacement, SignedImmediate, SeenPc, Plus;
    BitsAreBits(ins);
    CondIsNibble(ins);
    NotSwitched(m.Cpsr(), ins);
    DistinctCells(14, PC, m.Mode());
    DistinctCells(14, CPSR, m.Mode());
    AddDisplacement(m.Reg(PC), ins, -4);
  }

  lemma NotSwitched(cpsr: Word, ins: Word)
    requires ConditionCode(cpsr, ins) == 0
    ensures Cond(ins) != 15
  {
  }

  lemma SwitchOutcome(m: Machine, ins: Word)
    requires KnownMode(m.Mode()) && SwitchesState(ins)
    ensures Taken(m, ins, Branched(m, ins))
  {
    hide GetBits, Bit, Displacement, SignedImmediate, SeenPc, Plus, ThumbState;
    BitsAreBits(ins);
    CondIsNibble(ins);
    AlwaysSwitches(m.Cpsr(), ins);
    hide ConditionCode;
    DistinctCells(14, PC, m.Mode());
    DistinctCells(14, CPSR, m.Mode());
    AddDisplacement(m.Reg(PC), ins, (if Bit24(ins) then 2 else 0) - 4);
    forall i: nat | i < 32 ensures Bit(ThumbState(m.Cpsr()), i) <==> Bit(m.Cpsr(), i) || i == 5 {
      ThumbBits(m.Cpsr(), i);
    }
  }

  lemma AlwaysSwitches(cpsr: Word, ins: Word)
    requires Cond(ins) == 15
    ensures ConditionCode(cpsr, ins) == 2
  {
  }

  /** Only bit 5 is set. */
  lemma ThumbBits(cpsr: Word, i: nat)
    requires i < 32
    ensures Bit(ThumbState(cpsr), i) <==> Bit(cpsr, i) || i == 5
  {
    hide Bitwise, ThumbState;
    SetBit5(cpsr);
    BitwiseBit(Disj, cpsr, 0x20, i);
    Pow2Values();
    BitOfPower(5, i);
  }

  /** From an aligned counter: the stored counter moves by four times the signed immediate,
      plus 2 for a BLX with bit 24; R14 receives the stored counter plus 4. */
  lemma AlignedBranch(m: Machine, ins: Word, junk: Indeterminate)
    requires IsBranch(ins) && KnownMode(m.Mode()) && m.regs[PC] % 4 == 0
    requires Passes(m.Cpsr(), ins) || SwitchesState(ins)
    ensures var t := Dispatched(m, ins, junk).m;
            && t.regs[PC] == Plus(m.regs[PC], Distance(ins) + 4)
            && (Links(ins) ==> t.regs[Cell(14, m.Mode()).value] == Plus(m.regs[PC], 4))
  {
    hide Dispatched, Passes, Distance, SeenPc, Bit;
    BranchOutcome(m, ins, junk);
    AlignedSeenPc(m.regs[PC]);
    PlusPlus(m.regs[PC], 4, Distance(ins));
  }

  /** BLX with bit 24 and immediate 0, from the stored counter 0x1004. */
  lemma HalfWordTarget(m: Machine, junk: Indeterminate)
    requires KnownMode(m.Mode()) && m.regs[PC] == 0x1004
    ensures Dispatched(m, 0xFB00_0000, junk).m.regs[PC] == 0x1006
  {
    hide GetBits, Bit, Dispatched, Links, SeenPc;
    HalfWordFields(0xFB00_0000);
    AlignedBranch(m, 0xFB00_0000, junk);
  }

  lemma HalfWordFields(ins: Word)
    requires ins == 0xFB00_0000
    ensures IsBranch(ins) && SwitchesState(ins) && Distance(ins) == -2
  {
    hide GetBits, Bit, Family, Cond, Bit24, Immediate24, Nibble;
    HalfWordDigits(ins);
    FieldsAreGetBits(ins);
    BitsAreBits(ins);
    CondIsNibble(ins);
  }

  lemma HalfWordDigits(ins: Word)
    requires ins == 0xFB00_0000
    ensures Family(ins) == 5 && Cond(ins) == 15 && Bit24(ins) && Immediate24(ins) == 0
  {
    DivUnique(ins, 0x100_0000, 0xFB, 0);
    DivUnique(ins, 0x200_0000, 0x7D, 0x100_0000);
    DivUnique(ins, 0x1000_0000, 0xF, 0xB00_0000);
  }
}
