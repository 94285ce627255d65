/**
 Single and block transfers. Each handler is a method that writes registers and
 memory step by step, proved equal to a function on machine states.
 */
module LoadStore {
  import opened Words
  import opened ArmConstants
  import opened RegisterFile
  import opened MainMemory
  import opened Core
  import opened Decode
  import opened DataProcessing

  // ----- single transfers -----

  /** Address with the offset added or subtracted. */
  function Moved(address: Word, offset: Word, up: bool): Word {
    if up then Plus(address, offset) else Plus(address, -(offset as int))
  }

  /** The load of LDR and LDRB. With Rn = R15 the code skips the access and writes what
      its variables held: `early` for a word. */
  function LoadWordByte(m: Machine, ins: Word, address: Word, early: Word, junk: Indeterminate): Outcome {
    var skipped := Rn(ins) == 15;
    var ok := !skipped && m.Reaches(address);
    var v := if ByteOrS(ins) then (if ok then ByteAt(m.mem, address) else junk.byte)
             else if ok then m.Load(address) else early;
    Outcome(if (if skipped then junk.failed else !ok) then DATA_ABORT else 0, m.SetReg(Rd(ins), v))
  }

  function StoreWordByte(m: Machine, ins: Word, address: Word, early: Word, junk: Indeterminate): Outcome {
    var skipped := Rn(ins) == 15;
    var v := if skipped then early else m.Reg(Rd(ins));
    var b := if skipped then junk.byte else m.Reg(Rd(ins)) % 0x100;
    if !m.Reaches(address) then Outcome(DATA_ABORT, m)
    else if ByteOrS(ins) then Outcome(0, m.(mem := PutByte(m.mem, address, b)))
    else Outcome(0, m.Store(address, v))
  }

  /** Base update after the access of a post-indexed transfer. */
  function PostIndexed(t: Outcome, ins: Word, moved: Word): Outcome {
    if t.code != 0 || PreIndexed(ins) then t
    else if WriteBack(ins) then Outcome(UNDEFINED_INSTRUCTION, t.m)
    else Outcome(0, t.m.SetReg(Rn(ins), moved))
  }

  /** State in which the access is made: pre-indexed write-back comes first. */
  function PreIndexedBase(m: Machine, ins: Word, moved: Word): Machine {
    if PreIndexed(ins) && WriteBack(ins) then m.SetReg(Rn(ins), moved) else m
  }

  function WordByteOffset(m: Machine, ins: Word): Word {
    if Bit25(ins) then Shifted(ShiftType(ins), ShiftAmount(ins), m.Reg(Rm(ins))) else Offset12(ins)
  }

  function WordByteTransfer(m: Machine, ins: Word, junk: Indeterminate): Outcome {
    if Bit25(ins) && Bit4(ins) then Outcome(UNDEFINED_INSTRUCTION, m)
    else
      var base := m.Reg(Rn(ins));
      var moved := Moved(base, WordByteOffset(m, ins), Upwards(ins));
      var address := if PreIndexed(ins) then moved else base;
      var early := if Rn(ins) == 15 then Plus(base, 8) else junk.value;
      var m1 := PreIndexedBase(m, ins, moved);
      var t := if IsLoad(ins) then LoadWordByte(m1, ins, address, early, junk)
               else StoreWordByte(m1, ins, address, early, junk);
      PostIndexed(t, ins, moved)
  }

  function HalfOffset(m: Machine, ins: Word): Word {
    if ByteOrS(ins) then Rs(ins) * 16 + Rm(ins) else m.Reg(Rm(ins))
  }

  function HalfAccess(m: Machine, ins: Word, address: Word, junk: Indeterminate): Outcome {
    if !IsLoad(ins) && ShiftType(ins) == 1 then
      if m.Reaches(address) then
        Outcome(0, m.(mem := PutHalf(m.mem, address, m.Reg(Rd(ins)) % 0x1_0000, m.bigEndian)))
      else Outcome(DATA_ABORT, m)
    else if IsLoad(ins) && ShiftType(ins) == 1 then
      if m.Reaches(address) then Outcome(0, m.SetReg(Rd(ins), HalfAt(m.mem, address, m.bigEndian)))
      else Outcome(DATA_ABORT, m.SetReg(Rd(ins), junk.half))
    else Outcome(UNDEFINED_INSTRUCTION, m)
  }

  function HalfTransfer(m: Machine, ins: Word, junk: Indeterminate): Outcome {
    if Rn(ins) == 15 || !(Family(ins) == 0 && Bit7(ins) && Bit4(ins)) then Outcome(UNDEFINED_INSTRUCTION, m)
    else
      var base := m.Reg(Rn(ins));
      var moved := Moved(base, HalfOffset(m, ins), Upwards(ins));
      var address := if PreIndexed(ins) then moved else base;
      PostIndexed(HalfAccess(PreIndexedBase(m, ins, moved), ins, address, junk), ins, moved)
  }

  function SingleTransfer(m: Machine, ins: Word, junk: Indeterminate): Outcome {
    if ConditionCode(m.Cpsr(), ins) != 0 then Outcome(-1, m)
    else if ins / 0x400_0000 % 4 == 1 then WordByteTransfer(m, ins, junk)
    else HalfTransfer(m, ins, junk)
  }

  // ----- block transfers -----

  predicate Listed(ins: Word, reg: nat) {
    Bit(RegisterList(ins), reg)
  }

  function NextAddress(address: Word, up: bool): Word {
    Plus(address, if up then 4 else -4)
  }

  /** The register loop from register i on: code, state, and the address reached.
      `value` is the C variable that a failed load leaves unchanged. */
  function RegisterLoop(m: Machine, ins: Word, i: nat, address: Word, value: Word): (Outcome, Word)
    requires i <= 15
    decreases 15 - i
  {
    if i == 15 then (Outcome(0, m), address)
    else if !Listed(ins, i) then RegisterLoop(m, ins, i + 1, address, value)
    else if IsLoad(ins) then
      var v := if m.Reaches(address) then m.Load(address) else value;
      if m.Reaches(address) then RegisterLoop(m.SetReg(i, v), ins, i + 1, NextAddress(address, Upwards(ins)), v)
      else (Outcome(DATA_ABORT, m.SetReg(i, v)), address)
    else if m.Reaches(address) then
      RegisterLoop(m.Store(address, m.Reg(i)), ins, i + 1, NextAddress(address, Upwards(ins)), m.Reg(i))
    else (Outcome(DATA_ABORT, m), address)
  }

  /** First address of the transfer, from the base register. */
  function StartAddress(m: Machine, ins: Word): Word {
    if PreIndexed(ins) then NextAddress(m.Reg(Rn(ins)), Upwards(ins)) else m.Reg(Rn(ins))
  }

  function BlockTransfer(m: Machine, ins: Word, junk: Indeterminate): Outcome {
    if ConditionCode(m.Cpsr(), ins) != 0 then Outcome(-1, m)
    else if RegisterList(ins) == 0 || (Listed(ins, Rn(ins)) && WriteBack(ins)) || ByteOrS(ins) then
      Outcome(UNDEFINED_INSTRUCTION, m)
    else
      var (t, address) := RegisterLoop(m, ins, 0, StartAddress(m, ins), junk.value);
      BlockEnd(t, ins, address)
  }

  /** What follows the loop: R15 is refused late, the base is written back on request. */
  function BlockEnd(t: Outcome, ins: Word, address: Word): Outcome {
    if t.code != 0 then t
    else if Listed(ins, 15) then Outcome(UNDEFINED_INSTRUCTION, t.m)
    else if WriteBack(ins) then Outcome(0, t.m.SetReg(Rn(ins), address))
    else t
  }

  // ----- the register loop, one round at a time -----

  /** A round whose access is accepted. */
  lemma LoopRound(m: Machine, ins: Word, i: nat, address: Word, value: Word)
    requires i < 15 && Listed(ins, i) && m.Reaches(address)
    ensures var v := if IsLoad(ins) then m.Load(address) else m.Reg(i);
            var m1 := if IsLoad(ins) then m.SetReg(i, v) else m.Store(address, v);
            RegisterLoop(m, ins, i, address, value)
            == RegisterLoop(m1, ins, i + 1, NextAddress(address, Upwards(ins)), v)
  {
    hide WordAt, PutWord, ReadReg, WriteReg, SeenPc, NextAddress, Listed;
  }

  /** A round whose access is refused ends the loop; a load has then written the stale word. */
  lemma LoopAborts(m: Machine, ins: Word, i: nat, address: Word, value: Word)
    requires i < 15 && Listed(ins, i) && !m.Reaches(address)
    ensures RegisterLoop(m, ins, i, address, value)
         == (Outcome(DATA_ABORT, if IsLoad(ins) then m.SetReg(i, value) else m), address)
  {
    hide WordAt, PutWord, ReadReg, WriteReg, SeenPc, NextAddress, Listed;
  }

  lemma LoopSkips(m: Machine, ins: Word, i: nat, address: Word, value: Word)
    requires i < 15 && !Listed(ins, i)
    ensures RegisterLoop(m, ins, i, address, value) == RegisterLoop(m, ins, i + 1, address, value)
  {
    hide WordAt, PutWord, ReadReg, WriteReg, SeenPc, NextAddress, Listed;
  }

  lemma LoopEnds(m: Machine, ins: Word, address: Word, value: Word)
    ensures RegisterLoop(m, ins, 15, address, value) == (Outcome(0, m), address)
  {
  }

  // ----- the methods -----

  method ArmLoadStore(p: ArmCore, ins: Word, junk: Indeterminate) returns (code: int)
    requires p.Valid()
    modifies p.reg.registre, p.mem.data
    ensures p.Valid() && Outcome(code, p.Abs()) == SingleTransfer(old(p.Abs()), ins, junk)
  {
    var skip := p.CondNotRespect(ins);
    if skip != 0 {
      return -1;
    }
    if ins / 0x400_0000 % 4 == 1 {
      code := TransferWordByte(p, ins, junk);
    } else {
      code := TransferHalf(p, ins, junk);
    }
  }

  method TransferWordByte(p: ArmCore, ins: Word, junk: Indeterminate) returns (code: int)
    requires p.Valid()
    modifies p.reg.registre, p.mem.data
    ensures p.Valid() && Outcome(code, p.Abs()) == WordByteTransfer(old(p.Abs()), ins, junk)
  {
    var rn := ins / 0x1_0000 % 16;
    var address := p.ReadRegister(rn);
    var value := if rn == 15 then Plus(address, 8) else junk.value;
    var offset: Word;
    if Bit25(ins) {
      var rm := p.ReadRegister(ins % 16);
      if Bit4(ins) {
        return UNDEFINED_INSTRUCTION;
      }
      offset := Shifted(ShiftType(ins), ShiftAmount(ins), rm);
    } else {
      offset := ins % 0x1000;
    }
    var moved := Moved(address, offset, Upwards(ins));
    if PreIndexed(ins) {
      address := moved;
    }
    UpdateBaseBefore(p, ins, moved);
    if IsLoad(ins) {
      code := LoadToRegister(p, ins, address, value, junk);
    } else {
      code := StoreFromRegister(p, ins, address, value, junk);
    }
    code := UpdateBaseAfter(p, ins, code, moved);
  }

  /** Write-back of a pre-indexed transfer. */
  method UpdateBaseBefore(p: ArmCore, ins: Word, moved: Word)
    requires p.Valid()
    modifies p.reg.registre
    ensures p.Valid() && p.Abs() == PreIndexedBase(old(p.Abs()), ins, moved)
  {
    if PreIndexed(ins) {
      if WriteBack(ins) {
        p.WriteRegister(Rn(ins), moved);
      }
    }
  }

  /** Base update of a post-indexed transfer whose access returned `result`. */
  method UpdateBaseAfter(p: ArmCore, ins: Word, result: int, moved: Word) returns (code: int)
    requires p.Valid()
    modifies p.reg.registre
    ensures p.Valid() && Outcome(code, p.Abs()) == PostIndexed(Outcome(result, old(p.Abs())), ins, moved)
  {
    if result != 0 {
      return result;
    }
    if !PreIndexed(ins) {
      if WriteBack(ins) {
        return UNDEFINED_INSTRUCTION;
      }
      p.WriteRegister(Rn(ins), moved);
    }
    return 0;
  }

  method LoadToRegister(p: ArmCore, ins: Word, address: Word, early: Word, junk: Indeterminate) returns (code: int)
    requires p.Valid()
    modifies p.reg.registre
    ensures p.Valid() && Outcome(code, p.Abs()) == LoadWordByte(old(p.Abs()), ins, address, early, junk)
  {
    var value, value8, result := early, junk.byte, if junk.failed then -1 else 0;
    if ByteOrS(ins) {
      if Rn(ins) != 15 {
        result, value8 := p.ReadByte(address, value8);
      }
      p.WriteRegister(Rd(ins), value8);
    } else {
      if Rn(ins) != 15 {
        result, value := p.ReadWord(address, value);
      }
      p.WriteRegister(Rd(ins), value);
    }
    return if result == -1 then DATA_ABORT else 0;
  }

  method StoreFromRegister(p: ArmCore, ins: Word, address: Word, early: Word, junk: Indeterminate) returns (code: int)
    requires p.Valid()
    modifies p.mem.data
    ensures p.Valid() && Outcome(code, p.Abs()) == StoreWordByte(old(p.Abs()), ins, address, early, junk)
  {
    var value, value8, result := early, junk.byte, 0;
    if Rn(ins) != 15 {
      value := p.ReadRegister(Rd(ins));
      value8 := value % 0x100;
    }
    if ByteOrS(ins) {
      result := p.WriteByte(address, value8);
    } else {
      result := p.WriteWord(address, value);
    }
    return if result == -1 then DATA_ABORT else 0;
  }

  method TransferHalf(p: ArmCore, ins: Word, junk: Indeterminate) returns (code: int)
    requires p.Valid()
    modifies p.reg.registre, p.mem.data
    ensures p.Valid() && Outcome(code, p.Abs()) == HalfTransfer(old(p.Abs()), ins, junk)
  {
    hide ReadReg, WriteReg, SeenPc, HalfAccess;
    var rn := ins / 0x1_0000 % 16;
    var address := p.ReadRegister(rn);
    if rn == 15 {
      return UNDEFINED_INSTRUCTION;
    }
    if !(ins / 0x200_0000 % 8 == 0 && Bit7(ins) && Bit4(ins)) {
      return UNDEFINED_INSTRUCTION;
    }
    var offset: Word;
    if ByteOrS(ins) {
      offset := ins / 0x100 % 16 * 16 + ins % 16;
    } else {
      offset := p.ReadRegister(ins % 16);
    }
    var moved := Moved(address, offset, Upwards(ins));
    if PreIndexed(ins) {
      address := moved;
    }
    UpdateBaseBefore(p, ins, moved);
    code := AccessHalf(p, ins, address, junk);
    code := UpdateBaseAfter(p, ins, code, moved);
  }

  method AccessHalf(p: ArmCore, ins: Word, address: Word, junk: Indeterminate) returns (code: int)
    requires p.Valid()
    modifies p.reg.registre, p.mem.data
    ensures p.Valid() && Outcome(code, p.Abs()) == HalfAccess(old(p.Abs()), ins, address, junk)
  {
    var access := (if IsLoad(ins) then 4 else 0) + ins / 0x20 % 4;
    var result: int;
    if access == 1 {
      var value := p.ReadRegister(Rd(ins));
      result := p.WriteHalf(address, value % 0x1_0000);
    } else if access == 5 {
      var value: Half;
      result, value := p.ReadHalf(address, junk.half);
      p.WriteRegister(Rd(ins), value);
    } else {
      return UNDEFINED_INSTRUCTION;
    }
    return if result == -1 then DATA_ABORT else 0;
  }

  /** One round of the register loop: the access and the register. */
  method TransferRegister(p: ArmCore, l: bool, i: nat, address: Word, before: Word) returns (result: int, value: Word)
    requires p.Valid() && i < 15
    modifies p.reg.registre, p.mem.data
    ensures p.Valid() && result == (if old(p.Abs()).Reaches(address) then 0 else -1)
    ensures value == var m := old(p.Abs());
                     if !l then m.Reg(i) else if m.Reaches(address) then m.Load(address) else before
    ensures p.Abs() == var m := old(p.Abs());
                       if l then m.SetReg(i, value) else if m.Reaches(address) then m.Store(address, value) else m
  {
    if l {
      result, value := p.ReadWord(address, before);
      p.WriteRegister(i, value);
    } else {
      value := p.ReadRegister(i);
      result := p.WriteWord(address, value);
    }
  }

  method ArmLoadStoreMultiple(p: ArmCore, ins: Word, junk: Indeterminate) returns (code: int)
    requires p.Valid()
    modifies p.reg.registre, p.mem.data
    ensures p.Valid() && Outcome(code, p.Abs()) == BlockTransfer(old(p.Abs()), ins, junk)
  {
    hide ReadReg, WriteReg, SeenPc, ConditionCode, WordAt, PutWord, Bit, RegisterLoop;
    var skip := p.CondNotRespect(ins);
    if skip != 0 {
      return -1;
    }
    var u, w, l := Upwards(ins), WriteBack(ins), IsLoad(ins);
    var rn, list := ins / 0x1_0000 % 16, ins % 0x1_0000;
    var value := junk.value;
    var address := p.ReadRegister(rn);
    if PreIndexed(ins) {
      address := Plus(address, if u then 4 else -4);
    }
    if list == 0 || (Bit(list, rn) && w) {
      return UNDEFINED_INSTRUCTION;
    }
    if ByteOrS(ins) {
      return UNDEFINED_INSTRUCTION;
    }
    ghost var goal := RegisterLoop(p.Abs(), ins, 0, address, value);
    for i := 0 to 15
      invariant p.Valid()
      invariant RegisterLoop(p.Abs(), ins, i, address, value) == goal
    {
      ghost var m := p.Abs();
      if Bit(list, i) {
        var result: int;
        if m.Reaches(address) {
          LoopRound(m, ins, i, address, value);
        } else {
          LoopAborts(m, ins, i, address, value);
        }
        result, value := TransferRegister(p, l, i, address, value);
        if result == -1 {
          return DATA_ABORT;
        }
        address := Plus(address, if u then 4 else -4);
      } else {
        LoopSkips(m, ins, i, address, value);
      }
    }
    LoopEnds(p.Abs(), ins, address, value);
    if Bit(list, 15) {
      return UNDEFINED_INSTRUCTION;
    }
    if w {
      p.WriteRegister(rn, address);
    }
    return 0;
  }

  /** `arm_coprocessor_load_store`. */
  const COPROCESSOR_LOAD_STORE := UNDEFINED_INSTRUCTION
}
