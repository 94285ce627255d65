/**
 What a step returns and leaves, from the outcome of the instruction that it
 dispatches; and that every word belongs to a space whose outcome is known.
 */
module Steps {
  import opened Words
  import opened ArmConstants
  import opened MainMemory
  import opened Core
  import opened Decode
  import opened Instruction
  import opened Runs
  import opened SingleLaws
  import opened BlockLaws
  import opened BranchLaws
  import opened MsrLaws
  import opened DataLaws

  // ----- the words without a handler of their own -----

  predicate IsOther(ins: Word) {
    || (GetBits(ins, 27, 25) == 1 && Bit(ins, 24) && !Bit(ins, 23) && !Bit(ins, 21) && !Bit(ins, 20))
    || (GetBits(ins, 27, 25) == 3 && GetBits(ins, 24, 20) == 0x1F && GetBits(ins, 7, 4) == 0xF)
    || GetBits(ins, 27, 25) >= 6
  }

  /** Undefined, except software interrupts, which are not conditional. */
  lemma OtherOutcome(m: Machine, ins: Word, junk: Indeterminate)
    requires IsOther(ins)
    ensures Dispatched(m, ins, junk)
         == Outcome(if GetBits(ins, 27, 25) == 7 && Bit(ins, 24) then SOFTWARE_INTERRUPT else UNDEFINED_INSTRUCTION, m)
  {
    hide GetBits, Bit;
    FieldsAreGetBits(ins);
    BitsAreBits(ins);
    SpacesAreBits(ins);
  }

  /** Every word is in exactly one of the six spaces with an outcome law. */
  lemma EveryWord(ins: Word)
    ensures IsData(ins) || IsMiscellaneous(ins) || IsSingle(ins) || IsBlock(ins) || IsBranch(ins) || IsOther(ins)
    ensures IsData(ins) ==> !IsMiscellaneous(ins) && !IsSingle(ins) && !IsOther(ins)
    ensures IsMiscellaneous(ins) ==> !IsSingle(ins) && !IsOther(ins)
    ensures IsSingle(ins) ==> !IsOther(ins)
    ensures IsBlock(ins) || IsBranch(ins) ==> !IsData(ins) && !IsMiscellaneous(ins) && !IsSingle(ins) && !IsOther(ins)
    ensures !(IsBlock(ins) && IsBranch(ins))
  {
    hide GetBits, Bit;
    FieldsAreGetBits(ins);
    SpacesAreBits(ins);
  }

  // ----- codes -----

  /** The 24 low bits of the word that the exception handler reads: two words below R15, or
      an indeterminate one when the memory refuses it. */
  function CallNumber(m: Machine, junk: Indeterminate): nat {
    var address := Plus(m.Reg(PC), -8);
    (if m.Reaches(address) then m.Load(address) else junk.swi) % 0x100_0000
  }

  /** The code that a step returns for a dispatched code: -1 as a byte, and the two known
      software interrupts. */
  function Returned(code: int, call: nat): int {
    if code == -1 then 0xFF
    else if code != SOFTWARE_INTERRUPT then code
    else if call == 0x12_3456 then END_SIMULATION
    else if call == 1 then 0
    else SOFTWARE_INTERRUPT
  }

  /** A step returns that code, and leaves the machine of the handler, except that RESET sets
      the CPSR to Supervisor mode with interrupts disabled and R15 to 0. */
  lemma StepOutcome(m: Machine, junk: Indeterminate)
    ensures var (m1, ins) := Fetched(m, junk);
            var t, s := Dispatched(m1, ins, junk), Stepped(m, junk);
            && t.code in {-1, 0, RESET, DATA_ABORT, UNDEFINED_INSTRUCTION, SOFTWARE_INTERRUPT}
            && s.code == Returned(t.code, CallNumber(t.m, junk))
            && s.m == (if t.code == RESET then t.m.(regs := t.m.regs[CPSR := 0x1D3][PC := 0]) else t.m)
  {
    hide Dispatched, WordAt, SeenPc;
    var (m1, ins) := Fetched(m, junk);
    CodeRange(m1, ins, junk);
  }

  /** A step returns 0 exactly when its instruction completes or is software interrupt 1. */
  lemma ReturnsZero(m: Machine, junk: Indeterminate)
    ensures var (m1, ins) := Fetched(m, junk);
            var t := Dispatched(m1, ins, junk);
            Stepped(m, junk).code == 0
            <==> t.code == 0 || (t.code == SOFTWARE_INTERRUPT && CallNumber(t.m, junk) == 1)
  {
    hide Dispatched, Stepped, CallNumber;
    StepOutcome(m, junk);
  }

  // ----- runs -----

  /** The instruction of the step completes, or is software interrupt 1. */
  predicate Completes(m: Machine, junk: Indeterminate) {
    var (m1, ins) := Fetched(m, junk);
    var t := Dispatched(m1, ins, junk);
    t.code == 0 || (t.code == SOFTWARE_INTERRUPT && CallNumber(t.m, junk) == 1)
  }

  predicate AllReturnZero(m: Machine, junks: seq<Indeterminate>) {
    junks == []
    || (AllReturnZero(m, junks[..|junks| - 1]) && Stepped(Run(m, junks[..|junks| - 1]), junks[|junks| - 1]).code == 0)
  }

  predicate AllComplete(m: Machine, junks: seq<Indeterminate>) {
    junks == []
    || (AllComplete(m, junks[..|junks| - 1]) && Completes(Run(m, junks[..|junks| - 1]), junks[|junks| - 1]))
  }

  /** Over every run: all steps return 0 exactly when all instructions complete. */
  lemma {:induction false} RunReturnsZero(m: Machine, junks: seq<Indeterminate>)
    ensures AllReturnZero(m, junks) <==> AllComplete(m, junks)
    decreases |junks|
  {
    hide Run, Stepped, Completes;
    if junks != [] {
      RunReturnsZero(m, junks[..|junks| - 1]);
      StepCompletes(Run(m, junks[..|junks| - 1]), junks[|junks| - 1]);
    }
  }

  lemma StepCompletes(m: Machine, junk: Indeterminate)
    ensures Stepped(m, junk).code == 0 <==> Completes(m, junk)
  {
    hide Dispatched, Stepped, CallNumber;
    ReturnsZero(m, junk);
  }
}
