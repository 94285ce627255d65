/**
 Mode isolation. In every mode a step changes only cells that the mode itself can
 name, and over every run a cell changes only while a mode that names it is
 current. A step from one of the seven modes leaves the mode exactly when it
 executes an MSR that writes the CPSR, restores a CPSR of another mode from the
 SPSR, or skips a data-processing instruction on its condition outside
 Supervisor mode (the code then returns 1, which the step raises as RESET).
 */
module Modes {
  import opened Words
  import opened ArmConstants
  import opened RegisterFile
  import opened MainMemory
  import opened Core
  import opened Decode
  import opened DataProcessing
  import opened Arithmetic
  import opened LoadStore
  import opened BranchOther
  import opened Instruction
  import opened Runs

  /** The mode has a register, a CPSR or an SPSR in cell c. */
  ghost predicate OwnCell(mode: nat, c: nat) {
    exists r: nat | r <= SPSR :: Cell(r, mode) == Some(c)
  }

  /** b differs from a in no cell that the mode of a cannot name. */
  ghost predicate Isolated(a: Machine, b: Machine) {
    forall c: nat | c < 37 && !OwnCell(a.Mode(), c) :: b.regs[c] == a.regs[c]
  }

  ghost predicate Keeps(a: Machine, b: Machine) {
    b.Mode() == a.Mode() && Isolated(a, b)
  }

  // ----- register and flag writes -----

  lemma SetRegKeeps(m: Machine, r: nat, v: Word)
    requires r <= 15
    ensures Keeps(m, m.SetReg(r, v)) && m.SetReg(r, v).Cpsr() == m.Cpsr()
  {
    assert Cell(r, m.Mode()) != Some(CPSR);
    forall c: nat | c < 37 && !OwnCell(m.Mode(), c) ensures m.SetReg(r, v).regs[c] == m.regs[c] {
      assert Cell(r, m.Mode()) != Some(c);
    }
  }

  lemma SetCpsrIsolated(m: Machine, v: Word)
    ensures Isolated(m, m.SetCpsr(v))
  {
    assert Cell(CPSR, m.Mode()) == Some(CPSR);
  }

  lemma SetSpsrKeeps(m: Machine, v: Word)
    ensures Keeps(m, m.SetSpsr(v))
  {
    forall c: nat | c < 37 && !OwnCell(m.Mode(), c) ensures m.SetSpsr(v).regs[c] == m.regs[c] {
      assert Cell(SPSR, m.Mode()) != Some(c);
    }
  }

  lemma KeepsThen(a: Machine, b: Machine, c: Machine)
    requires Keeps(a, b) && Isolated(b, c)
    ensures Isolated(a, c)
  {
    hide OwnCell;
  }

  /** The operation takes its CPSR from the SPSR. */
  predicate TakesSpsr(opcode: nat, m: Machine, ins: Word) {
    (IsCompare(opcode) || SetsFlags(ins)) && Rd(ins) == PC && HasSpsr(m.Mode())
  }

  lemma FlagsKeep(m: Machine, temp: Long, s: bool, rd: nat)
    ensures Isolated(m, FlagsUpdated(m, temp, s, rd).m)
    ensures FlagsUpdated(m, temp, s, rd).m.Mode()
         == if s && rd == PC && HasSpsr(m.Mode()) then m.Spsr() % 32 else m.Mode()
  {
    hide OwnCell, WithFlags;
    SetCpsrIsolated(m, m.Spsr());
    SetCpsrIsolated(m, WithFlags(m.Cpsr(), temp));
    FlagsBelow(m.Cpsr(), temp);
  }

  lemma FlagsBelow(cpsr: Word, temp: Long)
    ensures WithFlags(cpsr, temp) % 32 == cpsr % 32
  {
    ModeBelowFlags(WithFlags(cpsr, temp), cpsr);
  }

  lemma OperationKeeps(opcode: nat, rn: Word, op2: Word, m: Machine, ins: Word)
    requires opcode < 16
    ensures Isolated(m, Operated(opcode, rn, op2, m, ins).m)
    ensures Operated(opcode, rn, op2, m, ins).m.Mode()
         == if TakesSpsr(opcode, m, ins) then m.Spsr() % 32 else m.Mode()
  {
    hide OwnCell, Temp, FlagsUpdated, Low32, SetsFlags, WriteReg;
    var temp := Temp(opcode, rn, op2, FlagC(m.Cpsr()));
    if IsCompare(opcode) {
      FlagsKeep(m, temp, true, Rd(ins));
    } else {
      var m1 := m.SetReg(Rd(ins), Low32(temp));
      SetRegKeeps(m, Rd(ins), Low32(temp));
      SameSpsr(m, Rd(ins), Low32(temp));
      FlagsKeep(m1, temp, SetsFlags(ins), Rd(ins));
      KeepsThen(m, m1, FlagsUpdated(m1, temp, SetsFlags(ins), Rd(ins)).m);
    }
  }

  lemma SameSpsr(m: Machine, r: nat, v: Word)
    requires r <= 15
    ensures m.SetReg(r, v).Spsr() == m.Spsr()
  {
  }

  /** The instruction restores from the SPSR a CPSR whose mode is another one. */
  predicate RestoresMode(m: Machine, ins: Word) {
    && IsDataProcessing(ins) && ConditionCode(m.Cpsr(), ins) == 0
    && TakesSpsr(Opcode(ins), m, ins) && m.Spsr() % 32 != m.Mode()
  }

  lemma DataShiftKeeps(m: Machine, ins: Word)
    requires Family(ins) == 0 && IsDataProcessing(ins)
    ensures Isolated(m, DataShift(m, ins).m)
    ensures DataShift(m, ins).m.Mode() == m.Mode() <==> !RestoresMode(m, ins)
  {
    hide OwnCell, Operated, Shifted, TakesSpsr, ReadReg, SeenPc;
    if ConditionCode(m.Cpsr(), ins) == 0 {
      var amount := if Bit4(ins) then m.Reg(Rs(ins)) % 32 else ShiftAmount(ins);
      OperationKeeps(Opcode(ins), m.Reg(Rn(ins)), Shifted(ShiftType(ins), amount, m.Reg(Rm(ins))), m, ins);
    }
  }

  lemma DataImmediateKeeps(m: Machine, ins: Word)
    requires IsDataProcessing(ins)
    ensures Isolated(m, DataImmediate(m, ins).m)
    ensures DataImmediate(m, ins).m.Mode() == m.Mode() <==> !RestoresMode(m, ins)
  {
    hide OwnCell, Operated, Shifted, TakesSpsr, ReadReg, SeenPc;
    if ConditionCode(m.Cpsr(), ins) == 0 {
      OperationKeeps(Opcode(ins), m.Reg(Rn(ins)), Shifted(ROR, Rotation(ins), Immediate8(ins)), m, ins);
    }
  }

  // ----- transfers and branches -----

  lemma PostIndexedKeeps(m: Machine, t: Outcome, ins: Word, moved: Word)
    requires Keeps(m, t.m)
    ensures Keeps(m, PostIndexed(t, ins, moved).m)
  {
    hide OwnCell, WriteReg, ReadReg, SeenPc;
    SetRegKeeps(t.m, Rn(ins), moved);
  }

  lemma SingleTransferKeeps(m: Machine, ins: Word, junk: Indeterminate)
    ensures Keeps(m, SingleTransfer(m, ins, junk).m)
  {
    hide OwnCell, WordByteTransfer, HalfTransfer;
    if ConditionCode(m.Cpsr(), ins) == 0 {
      if ins / 0x400_0000 % 4 == 1 {
        WordByteKeeps(m, ins, junk);
      } else {
        HalfKeeps(m, ins, junk);
      }
    }
  }

  lemma WordByteKeeps(m: Machine, ins: Word, junk: Indeterminate)
    ensures Keeps(m, WordByteTransfer(m, ins, junk).m)
  {
    hide OwnCell, WriteReg, ReadReg, SeenPc;
    if !(Bit25(ins) && Bit4(ins)) {
      var base := m.Reg(Rn(ins));
      var moved := Moved(base, WordByteOffset(m, ins), Upwards(ins));
      var address := if PreIndexed(ins) then moved else base;
      var early := if Rn(ins) == 15 then Plus(base, 8) else junk.value;
      var m1 := PreIndexedBase(m, ins, moved);
      SetRegKeeps(m, Rn(ins), moved);
      LoadKeeps(m1, ins, address, early, junk);
      StoreKeeps(m1, ins, address, early, junk);
      var t := if IsLoad(ins) then LoadWordByte(m1, ins, address, early, junk)
               else StoreWordByte(m1, ins, address, early, junk);
      PostIndexedKeeps(m, t, ins, moved);
    }
  }

  lemma LoadKeeps(m: Machine, ins: Word, address: Word, early: Word, junk: Indeterminate)
    ensures Keeps(m, LoadWordByte(m, ins, address, early, junk).m)
  {
    hide OwnCell, WriteReg, WordAt;
    var skipped := Rn(ins) == 15;
    var ok := !skipped && m.Reaches(address);
    var v := if ByteOrS(ins) then if ok then ByteAt(m.mem, address) else junk.byte
             else if ok then m.Load(address) else early;
    SetRegKeeps(m, Rd(ins), v);
  }

  lemma StoreKeeps(m: Machine, ins: Word, address: Word, early: Word, junk: Indeterminate)
    ensures StoreWordByte(m, ins, address, early, junk).m.regs == m.regs
  {
  }

  lemma HalfKeeps(m: Machine, ins: Word, junk: Indeterminate)
    ensures Keeps(m, HalfTransfer(m, ins, junk).m)
  {
    hide OwnCell, WriteReg, ReadReg, SeenPc;
    var base := m.Reg(Rn(ins));
    var moved := Moved(base, HalfOffset(m, ins), Upwards(ins));
    var address := if PreIndexed(ins) then moved else base;
    var m1 := PreIndexedBase(m, ins, moved);
    SetRegKeeps(m, Rn(ins), moved);
    HalfAccessKeeps(m1, ins, address, junk);
    PostIndexedKeeps(m, HalfAccess(m1, ins, address, junk), ins, moved);
  }

  lemma HalfAccessKeeps(m: Machine, ins: Word, address: Word, junk: Indeterminate)
    ensures Keeps(m, HalfAccess(m, ins, address, junk).m)
  {
    hide OwnCell, WriteReg, HalfAt, PutHalf, ReadReg, SeenPc;
    SetRegKeeps(m, Rd(ins), if m.Reaches(address) then HalfAt(m.mem, address, m.bigEndian) else junk.half);
  }

  lemma {:induction false} LoopKeeps(m: Machine, ins: Word, i: nat, address: Word, value: Word)
    requires i <= 15
    ensures Keeps(m, RegisterLoop(m, ins, i, address, value).0.m)
    decreases 15 - i
  {
    hide WordAt, PutWord, ReadReg, WriteReg, SeenPc, Listed, NextAddress, OwnCell;
    if i == 15 {
    } else if !Listed(ins, i) {
      LoopKeeps(m, ins, i + 1, address, value);
    } else if IsLoad(ins) {
      var v := if m.Reaches(address) then m.Load(address) else value;
      SetRegKeeps(m, i, v);
      if m.Reaches(address) {
        LoopKeeps(m.SetReg(i, v), ins, i + 1, NextAddress(address, Upwards(ins)), v);
      }
    } else if m.Reaches(address) {
      LoopKeeps(m.Store(address, m.Reg(i)), ins, i + 1, NextAddress(address, Upwards(ins)), m.Reg(i));
    }
  }

  lemma BlockKeeps(m: Machine, ins: Word, junk: Indeterminate)
    ensures Keeps(m, BlockTransfer(m, ins, junk).m)
  {
    hide OwnCell, WriteReg, ReadReg, SeenPc;
    LoopKeeps(m, ins, 0, StartAddress(m, ins), junk.value);
    var (t, address) := RegisterLoop(m, ins, 0, StartAddress(m, ins), junk.value);
    SetRegKeeps(t.m, Rn(ins), address);
  }

  lemma BranchKeeps(m: Machine, ins: Word)
    ensures Keeps(m, Branched(m, ins).m)
  {
    hide OwnCell, ReadReg, WriteReg, SeenPc, Displacement, ThumbState, ConditionCode;
    var m1 := Linked(m, ins);
    SetRegKeeps(m, 14, m.Reg(PC));
    if IsBlx(ins) {
      var m2 := m1.SetReg(CPSR, ThumbState(m1.Reg(CPSR)));
      ThumbKeeps(m1);
      SetRegKeeps(m2, PC, Plus(m2.Reg(PC), Displacement(ins) + (if Bit24(ins) then 2 else 0) - 4));
    } else {
      SetRegKeeps(m1, PC, Plus(m1.Reg(PC), Displacement(ins) as int - 4));
    }
  }

  lemma ThumbKeeps(m: Machine)
    ensures Keeps(m, m.SetReg(CPSR, ThumbState(m.Reg(CPSR))))
  {
    hide OwnCell, ThumbState;
    ThumbKeepsMode(m.Cpsr());
    SetCpsrIsolated(m, ThumbState(m.Cpsr()));
  }

  lemma ThumbKeepsMode(cpsr: Word)
    ensures ThumbState(cpsr) % 32 == cpsr % 32
  {
    var q := cpsr / 0x20;
    assert q % 2 == 0 ==> q + 1 < 0x800_0000;
    assert q % 2 == 0 ==> ThumbState(cpsr) == cpsr + 0x20;
  }

  // ----- MSR -----

  /** The instruction is an MSR that reaches its write of the CPSR. */
  predicate WritesCpsr(m: Machine, ins: Word) {
    && MiscellaneousSpace(ins) && IsMsr(ins) && ConditionCode(m.Cpsr(), ins) == 0
    && !Bit22(ins)
    && !MsrReserved(MsrOperand(m, ins))
    && (m.Mode() != USR ==> And32(MsrOperand(m, ins), 0x20) == 0)
  }

  /** No mask of MSR has bit 4, so the mode it writes is below 16. */
  lemma MsrValueHasNoBit4(previous: Word, operand: Word, mask: Word)
    requires mask == 0 || !Bit(mask, 4)
    ensures MsrValue(previous, operand, mask) % 32 < 16
  {
    var keep := if mask == 0 then 1 else 0;
    var a, b := And32(previous, keep), And32(operand, mask);
    BitwiseBit(Conj, previous, keep, 4);
    BitwiseBit(Conj, operand, mask, 4);
    BitwiseBit(Disj, a, b, 4);
    ZeroBit(4);
    ZeroBit(3);
    assert !Bit(1, 4) by { assert Bit(1, 4) == Bit(0, 3); }
    LowBits(MsrValue(previous, operand, mask));
  }

  lemma LowBits(x: Word)
    requires !Bit(x, 4)
    ensures x % 32 < 16
  {
    Pow2Values();
    BitIsDigit(x, 4);
    hide Bit, Pow2;
    DivUnique(x, 32, x / 16 / 2, x % 16);
  }

  lemma MsrMaskHasNoBit4(x: Word, mask: Word)
    requires mask == 0xF000_000F || mask == 0xF000_0000
    ensures !Bit(And32(x, mask), 4)
  {
    BitwiseBit(Conj, x, mask, 4);
    Pow2Values();
    BitIsDigit(mask, 4);
  }

  lemma MsrLeavesMode(m: Machine, ins: Word)
    ensures Isolated(m, Msr(m, ins).m)
    ensures WritesCpsr(m, ins) ==> Msr(m, ins).m.Mode() < 16
    ensures MiscellaneousSpace(ins) && IsMsr(ins) && ConditionCode(m.Cpsr(), ins) == 0 && !WritesCpsr(m, ins)
        ==> Msr(m, ins).m.Mode() == m.Mode()
  {
    hide OwnCell, MsrValue, And32, ReadReg, WriteReg, SeenPc, ByteMask, RotateRight;
    var mask := if m.Mode() != USR then 0xF000_000F else 0xF000_0000;
    MsrMaskHasNoBit4(ByteMask(ins), mask);
    MsrValueHasNoBit4(m.Cpsr(), MsrOperand(m, ins), And32(ByteMask(ins), mask));
    SetCpsrIsolated(m, MsrValue(m.Cpsr(), MsrOperand(m, ins), And32(ByteMask(ins), mask)));
    SetSpsrKeeps(m, MsrValue(m.Spsr(), MsrOperand(m, ins), And32(ByteMask(ins), 0xF000_002F)));
  }

  // ----- every instruction word -----

  /** The instruction leaves the mode: by MSR, or with the SPSR. */
  predicate Exits(m: Machine, ins: Word) {
    WritesCpsr(m, ins) || RestoresMode(m, ins)
  }

  /** What a dispatched instruction does to cells and mode. */
  ghost predicate Behaves(m: Machine, ins: Word, t: Outcome) {
    && Isolated(m, t.m)
    && (KnownMode(m.Mode()) ==> (t.m.Mode() == m.Mode() <==> !Exits(m, ins)))
  }

  lemma MiscellaneousBehaves(m: Machine, ins: Word)
    requires MiscellaneousSpace(ins)
    ensures Behaves(m, ins, Miscellaneous(m, ins))
  {
    hide OwnCell, Msr, WritesCpsr, TakesSpsr;
    MsrLeavesMode(m, ins);
    assert !RestoresMode(m, ins);
    if WritesCpsr(m, ins) {
      WritesInSpace(m, ins);
    }
  }

  lemma WritesInSpace(m: Machine, ins: Word)
    requires WritesCpsr(m, ins)
    ensures MiscellaneousSpace(ins) && IsMsr(ins) && ConditionCode(m.Cpsr(), ins) == 0
  {
  }

  lemma RegisterSpaceBehaves(m: Machine, ins: Word, junk: Indeterminate)
    requires Family(ins) == 0
    ensures Behaves(m, ins, Dispatched(m, ins, junk))
  {
    hide OwnCell, Miscellaneous, SingleTransfer, DataShift;
    if MiscellaneousSpace(ins) {
      MiscellaneousBehaves(m, ins);
    } else if ExtraTransferSpace(ins) {
      SingleTransferKeeps(m, ins, junk);
    } else {
      DataShiftKeeps(m, ins);
    }
  }

  lemma OtherSpacesBehave(m: Machine, ins: Word, junk: Indeterminate)
    requires Family(ins) >= 1
    ensures Behaves(m, ins, Dispatched(m, ins, junk))
  {
    hide OwnCell, SingleTransfer, BlockTransfer, Branched, DataImmediate;
    if Family(ins) == 1 {
      if IsDataProcessing(ins) {
        DataImmediateKeeps(m, ins);
      }
    } else if Family(ins) == 4 {
      BlockKeeps(m, ins, junk);
    } else if Family(ins) == 5 {
      BranchKeeps(m, ins);
    } else if Family(ins) < 4 {
      SingleTransferKeeps(m, ins, junk);
    }
  }

  lemma DispatchBehaves(m: Machine, ins: Word, junk: Indeterminate)
    ensures Behaves(m, ins, Dispatched(m, ins, junk))
  {
    hide Behaves, Dispatched;
    if Family(ins) == 0 {
      RegisterSpaceBehaves(m, ins, junk);
    } else {
      OtherSpacesBehave(m, ins, junk);
    }
  }

  // ----- steps and runs -----

  /** The step executes no exit, and resets in Supervisor mode only. */
  predicate Stays(m: Machine, junk: Indeterminate) {
    var (m1, ins) := Fetched(m, junk);
    !Exits(m1, ins) && (SkipsDataProcessing(m1, ins) ==> m.Mode() == SVC)
  }

  lemma RaisedKeeps(m: Machine, code: int, junk: Indeterminate)
    requires code in {-1, 0, RESET, DATA_ABORT, UNDEFINED_INSTRUCTION, SOFTWARE_INTERRUPT}
    ensures code != RESET ==> Raised(m, code % 0x100, junk).m == m
    ensures code == RESET ==> Raised(m, code % 0x100, junk).m == m.SetCpsr(0x1d3).SetReg(PC, 0)
  {
  }

  lemma ResetIsolated(m: Machine)
    ensures Isolated(m, m.SetCpsr(0x1d3).SetReg(PC, 0)) && m.SetCpsr(0x1d3).SetReg(PC, 0).Mode() == SVC
  {
    assert Cell(CPSR, m.Mode()) == Some(CPSR) && Cell(PC, m.Mode()) == Some(PC);
  }

  lemma AdvancedIsolated(m: Machine)
    ensures Keeps(m, Advanced(m))
  {
    assert Cell(PC, m.Mode()) == Some(PC);
  }

  /** In every mode a step changes only cells that the mode can name; from the seven modes,
      exactly these steps keep the mode. */
  lemma StepKeepsMode(m: Machine, junk: Indeterminate)
    ensures Isolated(m, Stepped(m, junk).m)
    ensures KnownMode(m.Mode()) ==> (Stepped(m, junk).m.Mode() == m.Mode() <==> Stays(m, junk))
  {
    hide OwnCell, Isolated, Dispatched, Exits, Raised, SkipsDataProcessing, Advanced, WriteReg;
    var (m1, ins) := Fetched(m, junk);
    AdvancedIsolated(m);
    DispatchBehaves(m1, ins, junk);
    CodeRange(m1, ins, junk);
    ResetIffSkips(m1, ins, junk);
    var t := Dispatched(m1, ins, junk);
    KeepsThen(m, m1, t.m);
    RaisedKeeps(t.m, t.code, junk);
    if t.code == RESET {
      SkipIsolated(m, m1, ins, junk);
      ResetIsolated(t.m);
    }
  }

  /** A skipped instruction has left the machine alone, so that the reset is in its mode. */
  lemma SkipIsolated(m: Machine, m1: Machine, ins: Word, junk: Indeterminate)
    requires SkipsDataProcessing(m1, ins) && Keeps(m, m1)
    ensures Dispatched(m1, ins, junk).m == m1 && !Exits(m1, ins)
    ensures Isolated(m, m1.SetCpsr(0x1d3).SetReg(PC, 0))
  {
    hide OwnCell, WritesCpsr;
    ResetIsolated(m1);
    KeepsThen(m, m1, m1.SetCpsr(0x1d3).SetReg(PC, 0));
    if WritesCpsr(m1, ins) {
      WritesInSpace(m1, ins);
      assert false;
    }
  }

  /** MSR CPSR_f, R0 in User mode with R0 = 0: the CPSR becomes 0, which is no mode at all. */
  lemma MsrLeavesUserMode(m: Machine, junk: Indeterminate)
    requires m.Mode() == USR && m.Reaches(m.regs[PC]) && m.Load(m.regs[PC]) == 0xE128_F000 && m.Reg(0) == 0
    ensures WritesCpsr(Fetched(m, junk).0, Fetched(m, junk).1) && !Stays(m, junk)
    ensures Stepped(m, junk).m.Cpsr() == 0
  {
    var m1, ins := Fetched(m, junk).0, Fetched(m, junk).1;
    assert m1.Mode() == USR && m1.Reg(0) == 0 && ins == 0xE128_F000;
    FlagsMsrReached(m1, ins, junk);
    hide Fetched, Dispatched, WritesCpsr;
  }

  lemma FlagsMsrReached(m: Machine, ins: Word, junk: Indeterminate)
    requires m.Mode() == USR && ins == 0xE128_F000 && m.Reg(0) == 0
    ensures WritesCpsr(m, ins) && Dispatched(m, ins, junk) == Outcome(0, m.SetCpsr(0))
  {
    FlagsMsrFields(m.Cpsr(), ins);
    assert m.Cpsr() % 32 == 16;
    hide And32, MsrValue, ByteMask, Family, MiscellaneousSpace, IsMsr, Bit22, Bit25, Rm, ConditionCode, ModeOf;
    ZeroMsrValue(m.Cpsr(), And32(ByteMask(ins), 0xF000_0000));
    ZeroMask(0x0FFF_FF00);
    assert MsrOperand(m, ins) == 0;
  }

  lemma FlagsMsrFields(cpsr: Word, ins: Word)
    requires ins == 0xE128_F000
    ensures Family(ins) == 0 && MiscellaneousSpace(ins) && IsMsr(ins) && !Bit22(ins) && !Bit25(ins) && Rm(ins) == 0
    ensures ConditionCode(cpsr, ins) == 0
  {
  }

  lemma ZeroMask(mask: Word)
    ensures And32(0, mask) == 0
  {
    AndZero(mask);
  }

  /** A User-mode CPSR is even: with a zero operand it gives 0 under every mask. */
  lemma ZeroMsrValue(previous: Word, mask: Word)
    requires previous % 32 == 16
    ensures MsrValue(previous, 0, mask) == 0
  {
    hide And, Or;
    AndZero(mask);
    AndZero(previous);
    LowBit(previous);
    OrZero(0);
  }

  /** MOVEQ R0, R0 in User mode with Z clear: the step ends in Supervisor mode. */
  lemma SkippedMoveLeavesUserMode(m: Machine, junk: Indeterminate)
    requires m.Mode() == USR && m.Reaches(m.regs[PC]) && m.Load(m.regs[PC]) == 0x01A0_0000 && !FlagZ(m.Cpsr())
    ensures SkipsDataProcessing(Fetched(m, junk).0, Fetched(m, junk).1) && !Stays(m, junk)
    ensures Stepped(m, junk).code == RESET && Stepped(m, junk).m.Mode() == SVC
  {
    hide WordAt;
  }

  /** The mode of m holds after every step of the run. */
  predicate ModeThroughout(m: Machine, junks: seq<Indeterminate>) {
    Run(m, junks).Mode() == m.Mode() && (junks == [] || ModeThroughout(m, junks[..|junks| - 1]))
  }

  /** Every step of the run stays. */
  predicate StaysThroughout(m: Machine, junks: seq<Indeterminate>) {
    junks == []
    || (StaysThroughout(m, junks[..|junks| - 1]) && Stays(Run(m, junks[..|junks| - 1]), junks[|junks| - 1]))
  }

  /** Over every run from one of the seven modes: the mode bits never change exactly when
      every step stays, and then no cell changes that the mode cannot name. */
  lemma {:induction false} RunKeepsMode(m: Machine, junks: seq<Indeterminate>)
    requires KnownMode(m.Mode())
    ensures ModeThroughout(m, junks) <==> StaysThroughout(m, junks)
    ensures StaysThroughout(m, junks) ==> Isolated(m, Run(m, junks))
    decreases |junks|
  {
    if junks == [] {
    } else {
      hide Stepped, Stays, OwnCell;
      var before := junks[..|junks| - 1];
      RunKeepsMode(m, before);
      if StaysThroughout(m, before) {
        StepKeepsMode(Run(m, before), junks[|junks| - 1]);
        KeepsThen(m, Run(m, before), Run(m, junks));
      }
    }
  }

  /** No mode that is current before a step of the run can name cell c. */
  ghost predicate NeverOwned(m: Machine, junks: seq<Indeterminate>, c: nat) {
    junks == []
    || (NeverOwned(m, junks[..|junks| - 1], c) && !OwnCell(Run(m, junks[..|junks| - 1]).Mode(), c))
  }

  /** Over every run, through whatever modes: a cell changes only while a mode that can name
      it is current. */
  lemma {:induction false} RunIsolates(m: Machine, junks: seq<Indeterminate>, c: nat)
    requires c < 37 && NeverOwned(m, junks, c)
    ensures Run(m, junks).regs[c] == m.regs[c]
    decreases |junks|
  {
    if junks == [] {
    } else {
      hide Stepped, OwnCell;
      var before := junks[..|junks| - 1];
      RunIsolates(m, before, c);
      StepKeepsMode(Run(m, before), junks[|junks| - 1]);
    }
  }

  // ----- User and System mode -----

  predicate InUserBank(m: Machine) {
    m.Mode() == USR || m.Mode() == SYS
  }

  /** They name no banked cell and have no SPSR to restore. */
  lemma UserCells(m: Machine, c: nat)
    requires InUserBank(m) && CPSR < c < 37
    ensures !OwnCell(m.Mode(), c)
  {
  }

  /** A step from User or System mode stays there exactly when it neither writes the CPSR by
      MSR nor skips a data-processing instruction, and changes no cell 17..36 in any case. */
  lemma UserStep(m: Machine, junk: Indeterminate)
    requires InUserBank(m)
    ensures var (m1, ins) := Fetched(m, junk);
            Stepped(m, junk).m.Mode() == m.Mode() <==> !WritesCpsr(m1, ins) && !SkipsDataProcessing(m1, ins)
    ensures forall c | CPSR < c < 37 :: Stepped(m, junk).m.regs[c] == m.regs[c]
  {
    hide Stepped, OwnCell, WritesCpsr, SkipsDataProcessing;
    StepKeepsMode(m, junk);
    AdvancedIsolated(m);
    forall c | CPSR < c < 37 ensures Stepped(m, junk).m.regs[c] == m.regs[c] {
      UserCells(m, c);
    }
  }

  /** Over every run that stays in User or System mode, no cell 17..36 changes. */
  lemma UserRun(m: Machine, junks: seq<Indeterminate>)
    requires InUserBank(m) && ModeThroughout(m, junks)
    ensures forall c | CPSR < c < 37 :: Run(m, junks).regs[c] == m.regs[c]
  {
    hide Run, OwnCell, ModeThroughout, StaysThroughout;
    RunKeepsMode(m, junks);
    forall c | CPSR < c < 37 ensures Run(m, junks).regs[c] == m.regs[c] {
      UserCells(m, c);
    }
  }
}
