/** Fetch, dispatch, exceptions: one step of the machine. */
module Instruction {
  import opened Words
  import opened ArmConstants
  import opened Core
  import opened Decode
  import opened DataProcessing
  import opened LoadStore
  import opened BranchOther

  predicate MiscellaneousSpace(ins: Word) {
    Family(ins) == 0 && Bit24(ins) && !Bit23(ins) && !Bit20(ins)
  }

  predicate ExtraTransferSpace(ins: Word) {
    Family(ins) == 0 && !MiscellaneousSpace(ins) && Bit4(ins) && Bit7(ins)
  }

  predicate UndefinedImmediate(ins: Word) {
    Family(ins) == 1 && Bit24(ins) && !Bit23(ins) && !Bit21(ins) && !Bit20(ins)
  }

  predicate UndefinedTransfer(ins: Word) {
    Family(ins) == 3 && ins / 0x10_0000 % 32 == 0x1F && ins / 0x10 % 16 == 0xF
  }

  /** The instruction words that reach the data-processing handlers. */
  predicate IsDataProcessing(ins: Word) {
    (Family(ins) == 0 && !MiscellaneousSpace(ins) && !ExtraTransferSpace(ins))
    || (Family(ins) == 1 && !UndefinedImmediate(ins))
  }

  /** The spaces of the dispatch, by the bits that it tests. */
  lemma SpacesAreBits(ins: Word)
    ensures MiscellaneousSpace(ins)
       <==> GetBits(ins, 27, 25) == 0 && Bit(ins, 24) && !Bit(ins, 23) && !Bit(ins, 20)
    ensures ExtraTransferSpace(ins)
       <==> GetBits(ins, 27, 25) == 0 && !(Bit(ins, 24) && !Bit(ins, 23) && !Bit(ins, 20)) && Bit(ins, 7) && Bit(ins, 4)
    ensures UndefinedImmediate(ins)
       <==> GetBits(ins, 27, 25) == 1 && Bit(ins, 24) && !Bit(ins, 23) && !Bit(ins, 21) && !Bit(ins, 20)
    ensures UndefinedTransfer(ins)
       <==> GetBits(ins, 27, 25) == 3 && GetBits(ins, 24, 20) == 0x1F && GetBits(ins, 7, 4) == 0xF
  {
    FieldsAreGetBits(ins);
    BitsAreBits(ins);
    TransferBits(ins);
    hide GetBits, Bit;
  }

  lemma TransferBits(ins: Word)
    ensures GetBits(ins, 24, 20) == ins / 0x10_0000 % 32 && GetBits(ins, 7, 4) == ins / 0x10 % 16
  {
    Pow2Values();
    assert Pow2(20) == 0x10_0000;
  }

  /** The instruction is a data-processing one whose condition fails. */
  predicate SkipsDataProcessing(m: Machine, ins: Word) {
    IsDataProcessing(ins) && ConditionCode(m.Cpsr(), ins) != 0
  }

  /** The handler chosen for a fetched word, and what it does. */
  function Dispatched(m: Machine, ins: Word, junk: Indeterminate): Outcome {
    match Family(ins)
    case 0 =>
      if MiscellaneousSpace(ins) then Miscellaneous(m, ins)
      else if ExtraTransferSpace(ins) then SingleTransfer(m, ins, junk)
      else DataShift(m, ins)
    case 1 => if UndefinedImmediate(ins) then Outcome(UNDEFINED_INSTRUCTION, m) else DataImmediate(m, ins)
    case 2 => SingleTransfer(m, ins, junk)
    case 3 => if UndefinedTransfer(ins) then Outcome(UNDEFINED_INSTRUCTION, m) else SingleTransfer(m, ins, junk)
    case 4 => BlockTransfer(m, ins, junk)
    case 5 => Branched(m, ins)
    case 6 => Outcome(COPROCESSOR_LOAD_STORE, m)
    case _ => Outcome(OthersSwi(ins), m)
  }

  function Executed(m: Machine, junk: Indeterminate): Outcome {
    var (m1, ins) := Fetched(m, junk);
    Dispatched(m1, ins, junk)
  }

  /** `arm_exception`: only RESET changes the machine; two software interrupts are known. */
  function Raised(m: Machine, exception: nat, junk: Indeterminate): Outcome {
    if exception == SOFTWARE_INTERRUPT then
      var address := Plus(m.Reg(PC), -8);
      var call := (if m.Reaches(address) then m.Load(address) else junk.swi) % 0x100_0000;
      if call == 0x12_3456 then Outcome(END_SIMULATION, m)
      else if call == 1 then Outcome(0, m)
      else Outcome(exception, m)
    else if exception == RESET then Outcome(exception, m.SetCpsr(0x1d3).SetReg(PC, 0))
    else Outcome(exception, m)
  }

  /** `arm_step`: a non-zero return code is raised, as a byte, as an exception. */
  function Stepped(m: Machine, junk: Indeterminate): Outcome {
    var t := Executed(m, junk);
    if t.code != 0 then Raised(t.m, t.code % 0x100, junk) else t
  }

  method ArmExecuteInstruction(p: ArmCore, junk: Indeterminate) returns (code: int)
    requires p.Valid()
    modifies p, p.reg.registre, p.mem.data
    ensures p.Valid() && Outcome(code, p.Abs()) == Executed(old(p.Abs()), junk)
  {
    var _, ins := p.Fetch(junk);
    match ins / 0x200_0000 % 8
    case 0 =>
      if Bit24(ins) && !Bit23(ins) && !Bit20(ins) {
        code := ArmMiscellaneous(p, ins);
        return;
      }
      if Bit4(ins) && Bit7(ins) {
        code := ArmLoadStore(p, ins, junk);
        return;
      }
      code := ArmDataProcessingShift(p, ins);
    case 1 =>
      if Bit24(ins) && !Bit23(ins) && !Bit21(ins) && !Bit20(ins) {
        return UNDEFINED_INSTRUCTION;
      }
      code := ArmDataProcessingImmediateMsr(p, ins);
    case 2 =>
      code := ArmLoadStore(p, ins, junk);
    case 3 =>
      if ins / 0x10_0000 % 32 == 0x1F && ins / 0x10 % 16 == 0xF {
        return UNDEFINED_INSTRUCTION;
      }
      code := ArmLoadStore(p, ins, junk);
    case 4 =>
      code := ArmLoadStoreMultiple(p, ins, junk);
    case 5 =>
      code := ArmBranch(p, ins);
    case 6 =>
      code := COPROCESSOR_LOAD_STORE;
    case _ =>
      code := OthersSwi(ins);
  }

  method ArmException(p: ArmCore, exception: nat, junk: Indeterminate) returns (code: int)
    requires p.Valid()
    modifies p.reg.registre
    ensures p.Valid() && Outcome(code, p.Abs()) == Raised(old(p.Abs()), exception, junk)
  {
    if exception == SOFTWARE_INTERRUPT {
      var address := p.ReadRegister(15);
      address := Plus(address, -8);
      var _, instruction := p.ReadWord(address, junk.swi);
      if instruction % 0x100_0000 == 0x12_3456 {
        return END_SIMULATION;
      } else if instruction % 0x100_0000 == 1 {
        return 0;
      }
    }
    if exception == RESET {
      p.WriteCpsr(0x1d3);
      p.WriteRegister(15, 0);
    }
    return exception;
  }

  method ArmStep(p: ArmCore, junk: Indeterminate) returns (code: int)
    requires p.Valid()
    modifies p, p.reg.registre, p.mem.data
    ensures p.Valid() && Outcome(code, p.Abs()) == Stepped(old(p.Abs()), junk)
  {
    code := ArmExecuteInstruction(p, junk);
    if code != 0 {
      code := ArmException(p, code % 0x100, junk);
    }
  }
}
