/**
 The program counter over runs: instructions read their own address + 8, and
 the stored counter moves by 4 per step plus the displacements of the taken
 branches, whatever else the instructions do.
 */
module ProgramCounter {
  import opened Words
  import opened ArmConstants
  import opened RegisterFile
  import opened MainMemory
  import opened Core
  import opened Decode
  import opened DataProcessing
  import opened LoadStore
  import opened BranchOther
  import opened Instruction
  import opened Runs

  // ----- branch displacements -----

  /** The 24-bit immediate as a two's complement number. */
  function SignedImmediate(ins: Word): int {
    if Immediate24(ins) < 0x80_0000 then Immediate24(ins) else Immediate24(ins) - 0x100_0000
  }

  lemma Bit23IsSign(ins: Word)
    ensures Bit23(ins) <==> Immediate24(ins) >= 0x80_0000
  {
    var q := ins / 0x80_0000;
    assert ins == 0x80_0000 * q + ins % 0x80_0000;
    assert Immediate24(ins) == 0x80_0000 * (q % 2) + ins % 0x80_0000;
  }

  /** The forced high byte and the shift give four times the signed immediate. */
  lemma DisplacementIsSigned(ins: Word)
    ensures (Displacement(ins) - 4 * SignedImmediate(ins)) % 0x1_0000_0000 == 0
  {
    Bit23IsSign(ins);
    ShiftLeftIsProduct(Extended(ins), 2);
    assert Pow2(2) == 4;
    hide ShiftLeft, Bit23, Immediate24;
    var e, s := Extended(ins), SignedImmediate(ins);
    assert e == s || e == s + 0x1_0000_0000;
    FourTimes(e, s, e as int * 4 % 0x1_0000_0000);
  }

  lemma FourTimes(e: int, s: int, d: int)
    requires e == s || e == s + 0x1_0000_0000
    requires d == e * 4 % 0x1_0000_0000
    ensures (d - 4 * s) % 0x1_0000_0000 == 0
  {
    var q := e * 4 / 0x1_0000_0000;
    assert d - 4 * s == 0x1_0000_0000 * ((if e == s then 0 else 4) - q);
  }

  lemma AddDisplacement(a: Word, ins: Word, extra: int)
    ensures Plus(a, Displacement(ins) + extra) == Plus(a, 4 * SignedImmediate(ins) + extra)
  {
    DisplacementIsSigned(ins);
    Congruent(a, Displacement(ins) + extra, 4 * SignedImmediate(ins) + extra);
  }

  lemma Congruent(a: Word, x: int, y: int)
    requires (x - y) % 0x1_0000_0000 == 0
    ensures Plus(a, x) == Plus(a, y)
  {
    var k := (x - y) / 0x1_0000_0000;
    ModAddMultiple(a + y, k);
  }

  // ----- what an instruction does to R15 -----

  /** A transfer of one register that writes neither its base nor its destination in R15. */
  predicate TransferSparesPc(ins: Word) {
    ((PreIndexed(ins) && !WriteBack(ins)) || Rn(ins) != PC) && (IsLoad(ins) ==> Rd(ins) != PC)
  }

  /** No register write of the instruction names R15 (branches apart). */
  predicate SparesPc(ins: Word) {
    if IsDataProcessing(ins) then IsCompare(Opcode(ins)) || Rd(ins) != PC
    else if ExtraTransferSpace(ins) || Family(ins) == 2 || Family(ins) == 3 then TransferSparesPc(ins)
    else if Family(ins) == 4 then WriteBack(ins) ==> Rn(ins) != PC
    else true
  }

  predicate TakesBranch(m: Machine, ins: Word) {
    Family(ins) == 5 && ConditionCode(m.Cpsr(), ins) != 1
  }

  /** B, BL, and BLX to an even word. */
  predicate WordBranch(ins: Word) {
    Family(ins) == 5 && IsBlx(ins) ==> !Bit24(ins)
  }

  /** Movement of the stored counter after the fetch. */
  function Jump(m: Machine, ins: Word): int {
    if TakesBranch(m, ins) then 4 * SignedImmediate(ins) else 0
  }

  lemma OtherRegister(m: Machine, r: nat, v: Word)
    requires r <= CPSR
    ensures m.SetReg(r, v).regs[PC] == if r == PC then v else m.regs[PC]
  {
  }

  lemma OperationSparesPc(m: Machine, opcode: nat, rn: Word, op2: Word, ins: Word)
    requires opcode < 16 && (IsCompare(opcode) || Rd(ins) != PC)
    ensures Operated(opcode, rn, op2, m, ins).m.regs[PC] == m.regs[PC]
  {
    OtherRegister(m, Rd(ins), Low32(Temp(opcode, rn, op2, FlagC(m.Cpsr()))));
  }

  lemma SingleSparesPc(m: Machine, ins: Word, junk: Indeterminate)
    requires TransferSparesPc(ins)
    ensures SingleTransfer(m, ins, junk).m.regs[PC] == m.regs[PC]
  {
    if ins / 0x400_0000 % 4 == 1 {
      WordByteSparesPc(m, ins, junk);
    } else {
      HalfSparesPc(m, ins, junk);
    }
  }

  lemma WordByteSparesPc(m: Machine, ins: Word, junk: Indeterminate)
    requires TransferSparesPc(ins)
    ensures WordByteTransfer(m, ins, junk).m.regs[PC] == m.regs[PC]
  {
    var base := m.Reg(Rn(ins));
    var moved := Moved(base, WordByteOffset(m, ins), Upwards(ins));
    var address := if PreIndexed(ins) then moved else base;
    var m1 := PreIndexedBase(m, ins, moved);
    BaseSparesPc(m, ins, moved);
    var early := if Rn(ins) == 15 then Plus(base, 8) else junk.value;
    LoadSparesPc(m1, ins, address, early, junk);
    var t := if IsLoad(ins) then LoadWordByte(m1, ins, address, early, junk)
             else StoreWordByte(m1, ins, address, early, junk);
    PostIndexedSparesPc(t, ins, moved);
  }

  lemma LoadSparesPc(m: Machine, ins: Word, address: Word, early: Word, junk: Indeterminate)
    requires IsLoad(ins) ==> Rd(ins) != PC
    ensures IsLoad(ins) ==> LoadWordByte(m, ins, address, early, junk).m.regs[PC] == m.regs[PC]
    ensures StoreWordByte(m, ins, address, early, junk).m.regs == m.regs
  {
  }

  lemma HalfSparesPc(m: Machine, ins: Word, junk: Indeterminate)
    requires TransferSparesPc(ins)
    ensures HalfTransfer(m, ins, junk).m.regs[PC] == m.regs[PC]
  {
    var base := m.Reg(Rn(ins));
    var moved := Moved(base, HalfOffset(m, ins), Upwards(ins));
    var address := if PreIndexed(ins) then moved else base;
    var m1 := PreIndexedBase(m, ins, moved);
    BaseSparesPc(m, ins, moved);
    HalfAccessSparesPc(m1, ins, address, junk);
    PostIndexedSparesPc(HalfAccess(m1, ins, address, junk), ins, moved);
  }

  lemma BaseSparesPc(m: Machine, ins: Word, moved: Word)
    requires TransferSparesPc(ins)
    ensures PreIndexedBase(m, ins, moved).regs[PC] == m.regs[PC]
  {
  }

  lemma PostIndexedSparesPc(t: Outcome, ins: Word, moved: Word)
    requires TransferSparesPc(ins)
    ensures PostIndexed(t, ins, moved).m.regs[PC] == t.m.regs[PC]
  {
  }

  lemma HalfAccessSparesPc(m: Machine, ins: Word, address: Word, junk: Indeterminate)
    requires IsLoad(ins) ==> Rd(ins) != PC
    ensures HalfAccess(m, ins, address, junk).m.regs[PC] == m.regs[PC]
  {
  }

  lemma {:induction false} LoopSparesPc(m: Machine, ins: Word, i: nat, address: Word, value: Word)
    requires i <= 15
    ensures RegisterLoop(m, ins, i, address, value).0.m.regs[PC] == m.regs[PC]
    decreases 15 - i
  {
    hide WordAt, PutWord, ReadReg, WriteReg, SeenPc, Listed, NextAddress;
    if i < 15 {
      if !Listed(ins, i) {
        LoopSparesPc(m, ins, i + 1, address, value);
      } else if IsLoad(ins) {
        var v := if m.Reaches(address) then m.Load(address) else value;
        OtherRegister(m, i, v);
        LoopSparesPc(m.SetReg(i, v), ins, i + 1, NextAddress(address, Upwards(ins)), v);
      } else if m.Reaches(address) {
        LoopSparesPc(m.Store(address, m.Reg(i)), ins, i + 1, NextAddress(address, Upwards(ins)), m.Reg(i));
      }
    }
  }

  lemma BlockSparesPc(m: Machine, ins: Word, junk: Indeterminate)
    requires WriteBack(ins) ==> Rn(ins) != PC
    ensures BlockTransfer(m, ins, junk).m.regs[PC] == m.regs[PC]
  {
    LoopSparesPc(m, ins, 0, StartAddress(m, ins), junk.value);
  }

  /** Aligned counters: reading R15 gives the stored value + 4. */
  lemma AlignedSeenPc(pc: Word)
    requires pc % 4 == 0
    ensures SeenPc(pc) == Plus(pc, 4)
  {
    var x := Plus(pc, 4);
    PlusAligned(pc, 1);
    assert x / 2 == 2 * (x / 4);
  }

  lemma BranchMovesPc(m: Machine, ins: Word)
    requires Family(ins) == 5 && WordBranch(ins) && m.regs[PC] % 4 == 0
    ensures Branched(m, ins).m.regs[PC] == Plus(m.regs[PC], Jump(m, ins))
  {
    hide Displacement, SignedImmediate, SeenPc, ReadReg, Plus, ConditionCode;
    if ConditionCode(m.Cpsr(), ins) != 1 {
      LinkedPc(m, ins);
      hide Linked, WriteReg;
      AlignedSeenPc(m.regs[PC]);
      AddDisplacement(SeenPc(m.regs[PC]), ins, -4);
      PlusPlus(m.regs[PC], 4, 4 * SignedImmediate(ins) - 4);
      var m1 := Linked(m, ins);
      var m2 := m1.SetReg(CPSR, ThumbState(m1.Reg(CPSR)));
      SetPcs(m1, Plus(m1.Reg(PC), Displacement(ins) as int - 4), ThumbState(m1.Reg(CPSR)));
      SetPcs(m2, Plus(m2.Reg(PC), Displacement(ins) as int - 4), 0);
    } else {
      PlusZero(m.regs[PC]);
    }
  }

  lemma LinkedPc(m: Machine, ins: Word)
    ensures Linked(m, ins).regs[PC] == m.regs[PC]
  {
    hide SeenPc;
  }

  /** Writes to R15 and to the CPSR. */
  lemma SetPcs(m: Machine, v: Word, cpsr: Word)
    ensures m.SetReg(PC, v).regs[PC] == v && m.SetReg(CPSR, cpsr).regs[PC] == m.regs[PC]
  {
  }

  /** After the fetch, R15 reads as the address of the instruction plus 8. */
  lemma ReadsAddressPlus8(m: Machine, junk: Indeterminate)
    requires m.regs[PC] % 4 == 0
    ensures Fetched(m, junk).0.Reg(PC) == Plus(m.regs[PC], 8)
  {
    AlignedSeenPc(Plus(m.regs[PC], 4));
    PlusPlus(m.regs[PC], 4, 4);
  }

  lemma DispatchMovesPc(m: Machine, ins: Word, junk: Indeterminate)
    requires m.regs[PC] % 4 == 0 && SparesPc(ins) && WordBranch(ins)
    ensures Dispatched(m, ins, junk).m.regs[PC] == Plus(m.regs[PC], Jump(m, ins))
  {
    if IsDataProcessing(ins) {
      DataSparesPc(m, ins);
    } else if Family(ins) == 5 {
      BranchMovesPc(m, ins);
    } else if Family(ins) == 4 {
      BlockSparesPc(m, ins, junk);
    } else if ExtraTransferSpace(ins) || Family(ins) == 2 || Family(ins) == 3 {
      SingleSparesPc(m, ins, junk);
    } else if MiscellaneousSpace(ins) {
      MsrSparesPc(m, ins);
    }
  }

  lemma DataSparesPc(m: Machine, ins: Word)
    requires IsCompare(Opcode(ins)) || Rd(ins) != PC
    ensures DataShift(m, ins).m.regs[PC] == m.regs[PC]
    ensures DataImmediate(m, ins).m.regs[PC] == m.regs[PC]
  {
    var amount := if Bit4(ins) then m.Reg(Rs(ins)) % 32 else ShiftAmount(ins);
    OperationSparesPc(m, Opcode(ins), m.Reg(Rn(ins)), Shifted(ShiftType(ins), amount, m.Reg(Rm(ins))), ins);
    OperationSparesPc(m, Opcode(ins), m.Reg(Rn(ins)), Shifted(ROR, Rotation(ins), Immediate8(ins)), ins);
  }

  lemma MsrSparesPc(m: Machine, ins: Word)
    ensures Miscellaneous(m, ins).m.regs[PC] == m.regs[PC]
  {
  }

  lemma {:induction false} CyclesKept(m: Machine, ins: Word, i: nat, address: Word, value: Word)
    requires i <= 15
    ensures RegisterLoop(m, ins, i, address, value).0.m.cycles == m.cycles
    decreases 15 - i
  {
    hide WordAt, PutWord, ReadReg, WriteReg, SeenPc, Listed, NextAddress;
    if i < 15 {
      var v := if m.Reaches(address) then m.Load(address) else value;
      CyclesKept(m, ins, i + 1, address, value);
      CyclesKept(m.SetReg(i, v), ins, i + 1, NextAddress(address, Upwards(ins)), v);
      if m.Reaches(address) {
        CyclesKept(m.Store(address, m.Reg(i)), ins, i + 1, NextAddress(address, Upwards(ins)), m.Reg(i));
      }
    }
  }

  lemma TransfersKeepCycles(m: Machine, ins: Word, junk: Indeterminate)
    ensures SingleTransfer(m, ins, junk).m.cycles == m.cycles
  {
    WordByteKeepsCycles(m, ins, junk);
    HalfKeepsCycles(m, ins, junk);
  }

  lemma WordByteKeepsCycles(m: Machine, ins: Word, junk: Indeterminate)
    ensures WordByteTransfer(m, ins, junk).m.cycles == m.cycles
  {
  }

  lemma HalfKeepsCycles(m: Machine, ins: Word, junk: Indeterminate)
    ensures HalfTransfer(m, ins, junk).m.cycles == m.cycles
  {
  }

  lemma BlockKeepsCycles(m: Machine, ins: Word, junk: Indeterminate)
    ensures BlockTransfer(m, ins, junk).m.cycles == m.cycles
  {
    CyclesKept(m, ins, 0, StartAddress(m, ins), junk.value);
  }

  lemma OthersKeepCycles(m: Machine, ins: Word)
    ensures DataShift(m, ins).m.cycles == m.cycles
    ensures DataImmediate(m, ins).m.cycles == m.cycles
    ensures Branched(m, ins).m.cycles == m.cycles
    ensures Miscellaneous(m, ins).m.cycles == m.cycles
  {
  }

  /** Only the fetch counts cycles. */
  lemma DispatchKeepsCycles(m: Machine, ins: Word, junk: Indeterminate)
    ensures Dispatched(m, ins, junk).m.cycles == m.cycles
  {
    TransfersKeepCycles(m, ins, junk);
    BlockKeepsCycles(m, ins, junk);
    OthersKeepCycles(m, ins);
  }

  lemma StepCounts(m: Machine, junk: Indeterminate)
    ensures Stepped(m, junk).m.cycles == Plus(m.cycles, 1)
  {
    var (m1, ins) := Fetched(m, junk);
    DispatchKeepsCycles(m1, ins, junk);
  }

  // ----- steps -----

  /** The fetched instruction writes R15 only by branching to a word. */
  predicate Plain(m: Machine, junk: Indeterminate) {
    var (_, ins) := Fetched(m, junk);
    SparesPc(ins) && WordBranch(ins)
  }

  /** The step skips a data-processing instruction, so that the machine is reset. */
  predicate Resets(m: Machine, junk: Indeterminate) {
    var (m1, ins) := Fetched(m, junk);
    SkipsDataProcessing(m1, ins)
  }

  /** Movement that the fetched instruction asks of the stored counter. */
  function Move(m: Machine, junk: Indeterminate): int {
    var (m1, ins) := Fetched(m, junk);
    4 + Jump(m1, ins)
  }

  lemma MoveIsAligned(m: Machine, junk: Indeterminate)
    requires m.regs[PC] % 4 == 0
    ensures Plus(m.regs[PC], Move(m, junk)) % 4 == 0
  {
    var (m1, ins) := Fetched(m, junk);
    PlusAligned(m.regs[PC], 1 + if TakesBranch(m1, ins) then SignedImmediate(ins) else 0);
  }

  /** A plain step from an aligned counter: 0 after a reset, moved by 4 plus the
      displacement of a taken branch otherwise, and aligned in both cases. It moves as the
      instruction asks exactly when it does not reset, or resets from the last word of the
      address space. */
  lemma StepMovesPc(m: Machine, junk: Indeterminate)
    requires m.regs[PC] % 4 == 0 && Plain(m, junk)
    ensures Stepped(m, junk).m.regs[PC] == if Resets(m, junk) then 0 else Plus(m.regs[PC], Move(m, junk))
    ensures Stepped(m, junk).m.regs[PC] % 4 == 0
    ensures Stepped(m, junk).m.regs[PC] == Plus(m.regs[PC], Move(m, junk))
       <==> !Resets(m, junk) || m.regs[PC] == 0xFFFF_FFFC
  {
    hide Stepped, Plain, Move, Resets, Plus;
    StepSetsPc(m, junk);
    MoveIsAligned(m, junk);
    if Resets(m, junk) {
      ResetMove(m, junk);
      PlusFour(m.regs[PC]);
    }
  }

  lemma StepSetsPc(m: Machine, junk: Indeterminate)
    requires m.regs[PC] % 4 == 0 && Plain(m, junk)
    ensures Stepped(m, junk).m.regs[PC] == if Resets(m, junk) then 0 else Plus(m.regs[PC], Move(m, junk))
  {
    hide Dispatched, SkipsDataProcessing, SparesPc, WordBranch, Raised, Jump;
    var (m1, ins) := Fetched(m, junk);
    assert m1.regs[PC] == Plus(m.regs[PC], 4);
    PlusAligned(m.regs[PC], 1);
    PlusPlus(m.regs[PC], 4, Jump(m1, ins));
    hide Plus;
    DispatchMovesPc(m1, ins, junk);
    CodeRange(m1, ins, junk);
    ResetIffSkips(m1, ins, junk);
    RaisedPc(Dispatched(m1, ins, junk), junk);
  }

  lemma RaisedPc(t: Outcome, junk: Indeterminate)
    requires -1 <= t.code <= SOFTWARE_INTERRUPT
    ensures t.code != 0 ==> Raised(t.m, t.code % 0x100, junk).m.regs[PC] == if t.code == RESET then 0 else t.m.regs[PC]
  {
  }

  lemma ResetMove(m: Machine, junk: Indeterminate)
    requires Resets(m, junk)
    ensures Move(m, junk) == 4
  {
  }

  lemma PlusFour(a: Word)
    requires a % 4 == 0
    ensures Plus(a, 4) == 0 <==> a == 0xFFFF_FFFC
  {
  }

  /** MOVEQ R0, R0 with Z clear: the counter goes to 0, in Supervisor mode, instead of to
      the next instruction. */
  lemma SkippedMoveResets(m: Machine, junk: Indeterminate)
    requires m.Reaches(m.regs[PC]) && m.Load(m.regs[PC]) == 0x01A0_0000 && !FlagZ(m.Cpsr())
    ensures Plain(m, junk) && Resets(m, junk) && Move(m, junk) == 4
    ensures Stepped(m, junk).m.regs[PC] == 0 && Stepped(m, junk).m.Mode() == SVC
  {
    hide WordAt;
  }

  // ----- runs -----

  predicate PlainThroughout(m: Machine, junks: seq<Indeterminate>) {
    junks == []
    || (PlainThroughout(m, junks[..|junks| - 1]) && Plain(Run(m, junks[..|junks| - 1]), junks[|junks| - 1]))
  }

  predicate NoReset(m: Machine, junks: seq<Indeterminate>) {
    junks == []
    || (NoReset(m, junks[..|junks| - 1]) && !Resets(Run(m, junks[..|junks| - 1]), junks[|junks| - 1]))
  }

  /** Where the counter of a run was last set: at the start, or to 0 by the last reset. */
  function Origin(m: Machine, junks: seq<Indeterminate>): Word {
    if junks == [] then m.regs[PC]
    else if Resets(Run(m, junks[..|junks| - 1]), junks[|junks| - 1]) then 0
    else Origin(m, junks[..|junks| - 1])
  }

  /** Sum of the movements of a run since then. */
  function TotalMove(m: Machine, junks: seq<Indeterminate>): int {
    if junks == [] || Resets(Run(m, junks[..|junks| - 1]), junks[|junks| - 1]) then 0
    else TotalMove(m, junks[..|junks| - 1]) + Move(Run(m, junks[..|junks| - 1]), junks[|junks| - 1])
  }

  /** A run of k steps counts k cycles. */
  lemma {:induction false} RunCounts(m: Machine, junks: seq<Indeterminate>)
    ensures Run(m, junks).cycles == Plus(m.cycles, |junks|)
    decreases |junks|
  {
    if junks == [] {
    } else {
      RunCounts(m, junks[..|junks| - 1]);
      StepCounts(Run(m, junks[..|junks| - 1]), junks[|junks| - 1]);
      PlusPlus(m.cycles, |junks| - 1, 1);
    }
  }

  /** From an aligned counter, every plain run keeps it aligned, at the sum of the movements
      since the start or the last reset. */
  lemma {:induction false} RunMovesPc(m: Machine, junks: seq<Indeterminate>)
    requires m.regs[PC] % 4 == 0 && PlainThroughout(m, junks)
    ensures Run(m, junks).regs[PC] % 4 == 0
    ensures Run(m, junks).regs[PC] == Plus(Origin(m, junks), TotalMove(m, junks))
    decreases |junks|
  {
    hide Stepped, Move, Plain, Resets, Plus;
    if junks == [] {
      PlusZero(m.regs[PC]);
    } else {
      var before, last := junks[..|junks| - 1], junks[|junks| - 1];
      RunMovesPc(m, before);
      ExtendedRun(m, before, last);
      assert junks == before + [last];
    }
  }

  /** One more step at the end of a run. */
  lemma ExtendedRun(m: Machine, before: seq<Indeterminate>, last: Indeterminate)
    requires Plain(Run(m, before), last) && Run(m, before).regs[PC] % 4 == 0
    requires Run(m, before).regs[PC] == Plus(Origin(m, before), TotalMove(m, before))
    ensures var junks := before + [last];
            && Run(m, junks).regs[PC] % 4 == 0
            && Run(m, junks).regs[PC] == Plus(Origin(m, junks), TotalMove(m, junks))
  {
    hide Stepped, Move, Plain, Resets, Plus;
    var junks, s := before + [last], Run(m, before);
    assert junks[..|before|] == before;
    assert Run(m, junks) == Stepped(s, last).m;
    assert Origin(m, junks) == if Resets(s, last) then 0 else Origin(m, before);
    assert TotalMove(m, junks) == if Resets(s, last) then 0 else TotalMove(m, before) + Move(s, last);
    hide Run, Origin, TotalMove;
    StepMovesPc(s, last);
    OneMoreMove(Origin(m, before), TotalMove(m, before), Resets(s, last), Move(s, last));
  }

  lemma OneMoreMove(origin: Word, total: int, reset: bool, move: int)
    ensures if reset then Plus(0, 0) == 0 else Plus(Plus(origin, total), move) == Plus(origin, total + move)
  {
    PlusZero(0);
    PlusPlus(origin, total, move);
  }

  /** Without a reset everything counts from the start. */
  lemma {:induction false} NoResetOrigin(m: Machine, junks: seq<Indeterminate>)
    requires NoReset(m, junks)
    ensures Origin(m, junks) == m.regs[PC]
    decreases |junks|
  {
    if junks != [] {
      NoResetOrigin(m, junks[..|junks| - 1]);
    }
  }

  /** After every step of the run the counter has moved as the instruction asks. */
  predicate MovesThroughout(m: Machine, junks: seq<Indeterminate>) {
    junks == []
    || (MovesThroughout(m, junks[..|junks| - 1])
        && Run(m, junks).regs[PC]
           == Plus(Run(m, junks[..|junks| - 1]).regs[PC], Move(Run(m, junks[..|junks| - 1]), junks[|junks| - 1])))
  }

  /** No step of the run resets, except from the last word of the address space. */
  predicate NoHarmfulReset(m: Machine, junks: seq<Indeterminate>) {
    junks == []
    || (var s := Run(m, junks[..|junks| - 1]);
        NoHarmfulReset(m, junks[..|junks| - 1])
        && (!Resets(s, junks[|junks| - 1]) || s.regs[PC] == 0xFFFF_FFFC))
  }

  /** Over every plain run: the counter moves as the instructions ask throughout exactly
      when no step resets it from elsewhere than the last word. */
  lemma {:induction false} RunMovesThroughout(m: Machine, junks: seq<Indeterminate>)
    requires m.regs[PC] % 4 == 0 && PlainThroughout(m, junks)
    ensures MovesThroughout(m, junks) <==> NoHarmfulReset(m, junks)
    decreases |junks|
  {
    if junks == [] {
    } else {
      hide Stepped, Move, Plain, Resets, Plus;
      var before, last := junks[..|junks| - 1], junks[|junks| - 1];
      RunMovesThroughout(m, before);
      hide Origin, TotalMove;
      RunMovesPc(m, before);
      StepMovesPc(Run(m, before), last);
      assert Run(m, junks) == Stepped(Run(m, before), last).m;
    }
  }

  /** The counter is back where it started exactly when the movements since it was last set
      make up for the difference modulo 2^32: for a run without reset, when they sum to 0. */
  lemma RunReturns(m: Machine, junks: seq<Indeterminate>)
    requires m.regs[PC] % 4 == 0 && PlainThroughout(m, junks)
    ensures Run(m, junks).regs[PC] == m.regs[PC]
       <==> (Origin(m, junks) - m.regs[PC] + TotalMove(m, junks)) % 0x1_0000_0000 == 0
    ensures NoReset(m, junks)
        ==> (Run(m, junks).regs[PC] == m.regs[PC] <==> TotalMove(m, junks) % 0x1_0000_0000 == 0)
  {
    hide Run, Plus, PlainThroughout, Origin, TotalMove, NoReset;
    RunMovesPc(m, junks);
    PlusReaches(Origin(m, junks), TotalMove(m, junks), m.regs[PC]);
    if NoReset(m, junks) {
      NoResetOrigin(m, junks);
    }
  }

  lemma PlusReaches(a: Word, t: int, b: Word)
    ensures Plus(a, t) == b <==> (a - b + t) % 0x1_0000_0000 == 0
  {
    var q := (a + t) / 0x1_0000_0000;
    assert a + t == 0x1_0000_0000 * q + Plus(a, t);
    ModAddMultiple(Plus(a, t) - b, q);
  }

  /** No branch is taken in the run. */
  predicate NoBranch(m: Machine, junks: seq<Indeterminate>) {
    junks == []
    || (var (m1, ins) := Fetched(Run(m, junks[..|junks| - 1]), junks[|junks| - 1]);
        NoBranch(m, junks[..|junks| - 1]) && !TakesBranch(m1, ins))
  }

  /** Number of steps since the counter was last set. */
  function StepsSince(m: Machine, junks: seq<Indeterminate>): (k: nat)
    ensures k <= |junks|
  {
    if junks == [] || Resets(Run(m, junks[..|junks| - 1]), junks[|junks| - 1]) then 0
    else StepsSince(m, junks[..|junks| - 1]) + 1
  }

  /** A run without taken branches: one word per step since the start or the last reset. */
  lemma StraightRun(m: Machine, junks: seq<Indeterminate>)
    requires m.regs[PC] % 4 == 0 && PlainThroughout(m, junks) && NoBranch(m, junks)
    ensures Run(m, junks).regs[PC] == Plus(Origin(m, junks), 4 * StepsSince(m, junks))
    ensures NoReset(m, junks) ==> Run(m, junks).regs[PC] == Plus(m.regs[PC], 4 * |junks|)
  {
    StraightTotal(m, junks);
    RunMovesPc(m, junks);
    if NoReset(m, junks) {
      NoResetOrigin(m, junks);
    }
  }

  lemma {:induction false} StraightTotal(m: Machine, junks: seq<Indeterminate>)
    requires NoBranch(m, junks)
    ensures TotalMove(m, junks) == 4 * StepsSince(m, junks)
    ensures NoReset(m, junks) ==> StepsSince(m, junks) == |junks|
    decreases |junks|
  {
    hide Resets;
    if junks != [] {
      StraightTotal(m, junks[..|junks| - 1]);
    }
  }

  // ----- calls and returns -----

  /** A BL that is taken. */
  predicate Calls(m: Machine, ins: Word) {
    Family(ins) == 5 && ConditionCode(m.Cpsr(), ins) == 0 && Bit24(ins)
  }

  /** The link register receives the stored counter + 4. */
  lemma LinkRegister(m: Machine, ins: Word, junk: Indeterminate)
    requires Calls(m, ins) && m.regs[PC] % 4 == 0 && KnownMode(m.Mode())
    ensures Dispatched(m, ins, junk).code == 0
    ensures ReadReg(Dispatched(m, ins, junk).m.regs, 14, m.Mode()) == Plus(m.regs[PC], 4)
    ensures Dispatched(m, ins, junk).m.Mode() == m.Mode()
  {
    hide Displacement, SeenPc;
    AlignedSeenPc(m.regs[PC]);
    var m1 := Linked(m, ins);
    ReadAfterSet(m, 14, m.Reg(PC), 14);
    ReadAfterSet(m1, PC, Plus(m1.Reg(PC), Displacement(ins) as int - 4), 14);
  }

  /** MOV PC, R14 */
  lemma ReturnEffect(m: Machine, ins: Word, junk: Indeterminate)
    requires ins == 0xE1A0_F00E
    ensures Dispatched(m, ins, junk) == Outcome(0, m.SetReg(PC, m.Reg(14)))
  {
    ReturnFields(m.Cpsr(), ins);
    hide ReadReg, SeenPc, ConditionCode, Opcode, Rd, Rm, ShiftType, ShiftAmount, Bit4, SetsFlags, Family, FlagC;
    hide MiscellaneousSpace, ExtraTransferSpace;
    assert Shifted(LSL, 0, m.Reg(14)) == m.Reg(14);
  }

  lemma ReturnFields(cpsr: Word, ins: Word)
    requires ins == 0xE1A0_F00E
    ensures Family(ins) == 0 && !MiscellaneousSpace(ins) && !ExtraTransferSpace(ins) && ConditionCode(cpsr, ins) == 0
    ensures Opcode(ins) == 13 && !SetsFlags(ins) && Rd(ins) == 15 && Rm(ins) == 14
    ensures !Bit4(ins) && ShiftType(ins) == LSL && ShiftAmount(ins) == 0
  {
    HeadFields(ins, 0xE1A, 0, 0xF00E);
    DivUnique(ins, 0x1000, 0xE_1A0F, 0xE);
    DivUnique(ins, 0x80, 0x1C3_41E0, 0xE);
    DivUnique(ins, 0x20, 0x70D_0780, 0xE);
    DivUnique(ins, 0x10, 0xE1A_0F00, 0xE);
    hide FlagN, FlagZ, FlagC, FlagV;
  }

  /** A step that takes a BL at an aligned address leaves that address + 8 in R14. */
  lemma CallLinks(m: Machine, junk: Indeterminate)
    requires m.regs[PC] % 4 == 0 && KnownMode(m.Mode())
    requires Calls(Fetched(m, junk).0, Fetched(m, junk).1)
    ensures Stepped(m, junk).m.Reg(14) == Plus(m.regs[PC], 8)
  {
    hide Dispatched, Calls;
    PlusAligned(m.regs[PC], 1);
    PlusPlus(m.regs[PC], 4, 4);
    LinkRegister(Fetched(m, junk).0, Fetched(m, junk).1, junk);
  }

  /** A call, a body that ends with the link register unchanged and at MOV PC, R14, and that
      return: the run lands on the second word after the BL, so that the word right after
      it is not executed. */
  lemma CallReturns(m: Machine, junk: Indeterminate, body: seq<Indeterminate>, junk2: Indeterminate)
    requires m.regs[PC] % 4 == 0 && KnownMode(m.Mode())
    requires Calls(Fetched(m, junk).0, Fetched(m, junk).1)
    requires var m2 := Run(m, [junk] + body);
             && m2.Reg(14) == Stepped(m, junk).m.Reg(14)
             && m2.Reaches(m2.regs[PC]) && m2.Load(m2.regs[PC]) == 0xE1A0_F00E
    ensures Run(m, [junk] + body + [junk2]).regs[PC] == Plus(m.regs[PC], 8)
  {
    var m2 := Run(m, [junk] + body);
    CallLinks(m, junk);
    RunConcat(m, [junk] + body, [junk2]);
    OneStep(m2, junk2);
    hide Run;
    ReturnLands(m2, junk2);
  }

  lemma ReturnLands(m: Machine, junk: Indeterminate)
    requires m.Reaches(m.regs[PC]) && m.Load(m.regs[PC]) == 0xE1A0_F00E
    ensures Stepped(m, junk).m.regs[PC] == m.Reg(14)
  {
    hide Dispatched, WordAt;
    ReturnEffect(Fetched(m, junk).0, Fetched(m, junk).1, junk);
  }

  // ----- software interrupts -----

  /** A software interrupt fetched from an aligned address of the memory is recognised by
      its own 24 low bits: the handler of arm_exception reads back the very instruction. */
  lemma SwiReadsItself(m: Machine, junk: Indeterminate)
    requires m.regs[PC] % 4 == 0 && m.Reaches(m.regs[PC])
    requires Family(m.Load(m.regs[PC])) == 7 && Bit24(m.Load(m.regs[PC]))
    ensures var number := m.Load(m.regs[PC]) % 0x100_0000;
            Stepped(m, junk) == Outcome(if number == 0x12_3456 then END_SIMULATION
                                        else if number == 1 then 0
                                        else SOFTWARE_INTERRUPT, Fetched(m, junk).0)
  {
    var m1, ins := Fetched(m, junk).0, Fetched(m, junk).1;
    ReadsAddressPlus8(m, junk);
    PlusPlus(m.regs[PC], 8, -8);
    PlusZero(m.regs[PC]);
    assert Plus(m1.Reg(PC), -8) == m.regs[PC];
    SwiDispatched(m1, ins, junk);
    hide WordAt, SeenPc, ReadReg, Dispatched, Plus, Family;
    assert m1.mem == m.mem && m1.bigEndian == m.bigEndian;
  }

  lemma SwiDispatched(m: Machine, ins: Word, junk: Indeterminate)
    requires Family(ins) == 7 && Bit24(ins)
    ensures Dispatched(m, ins, junk) == Outcome(SOFTWARE_INTERRUPT, m)
  {
  }

  lemma PlusZero(a: Word)
    ensures Plus(a, 0) == a
  {
  }
}
