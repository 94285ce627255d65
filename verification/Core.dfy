/**
 The processor state and its accessors: registers seen from the current mode,
 the program counter offset, memory at the configured byte order, the fetch and
 the condition test.
 */
module Core {
  import opened Words
  import opened ArmConstants
  import opened RegisterFile
  import opened MainMemory
  import opened Decode

  /** The state of the machine as a value. */
  datatype Machine = Machine(regs: RegFile, mem: Ram, bigEndian: bool, cycles: Word)
  {
    function Mode(): nat {
      ModeOf(regs)
    }

    function Cpsr(): Word {
      regs[CPSR]
    }

    function SetCpsr(v: Word): Machine {
      this.(regs := regs[CPSR := v])
    }

    function Spsr(): Word {
      ReadReg(regs, SPSR, Mode())
    }

    /** Register `reg` as instructions read it: R15 reads 4 more than stored. */
    function Reg(reg: nat): Word
      requires reg <= CPSR
    {
      if reg == PC then SeenPc(regs[PC]) else ReadReg(regs, reg, Mode())
    }

    function SetReg(reg: nat, v: Word): Machine
      requires reg <= CPSR
    {
      this.(regs := WriteReg(regs, reg, Mode(), v))
    }

    function SetSpsr(v: Word): Machine {
      this.(regs := WriteReg(regs, SPSR, Mode(), v))
    }

    predicate Reaches(address: Word) {
      InMemory(mem, address)
    }

    function Load(address: Word): Word
      requires Reaches(address)
    {
      WordAt(mem, address, bigEndian)
    }

    function Store(address: Word, v: Word): Machine
      requires Reaches(address)
    {
      this.(mem := PutWord(mem, address, v, bigEndian))
    }
  }

  /** (pc + 4) with bit 1 cleared. */
  function SeenPc(pc: Word): Word {
    var x := (pc + 4) % 0x1_0000_0000;
    if x / 2 % 2 == 1 then x - 2 else x
  }

  function Plus(a: Word, b: int): Word {
    (a + b) % 0x1_0000_0000
  }

  lemma PlusPlus(a: Word, x: int, y: int)
    ensures Plus(Plus(a, x), y) == Plus(a, x + y)
  {
  }

  lemma PlusAligned(a: Word, k: int)
    requires a % 4 == 0
    ensures Plus(a, 4 * k) % 4 == 0
  {
  }

  /** Reading a register after writing one, in the same mode. */
  lemma ReadAfterSet(m: Machine, rd: nat, v: Word, r: nat)
    requires KnownMode(m.Mode()) && rd < 16 && r < 16
    ensures m.SetReg(rd, v).Mode() == m.Mode()
    ensures ReadReg(m.SetReg(rd, v).regs, r, m.Mode()) == if r == rd then v else ReadReg(m.regs, r, m.Mode())
  {
  }

  /** Values the C code takes from variables it never assigned: the instruction of a
      failed fetch, the data of a failed load, the result of a skipped access. */
  datatype Indeterminate = Indeterminate(ins: Word, value: Word, half: Half, byte: Byte, failed: bool, swi: Word)

  /** Return code and final state of a handler. */
  datatype Outcome = Outcome(code: int, m: Machine)

  // ----- flags and conditions -----

  predicate FlagN(cpsr: Word) { cpsr / 0x8000_0000 == 1 }

  predicate FlagZ(cpsr: Word) { cpsr / 0x4000_0000 % 2 == 1 }

  predicate FlagC(cpsr: Word) { cpsr / 0x2000_0000 % 2 == 1 }

  predicate FlagV(cpsr: Word) { cpsr / 0x1000_0000 % 2 == 1 }

  function Cond(ins: Word): (c: nat)
    ensures c < 16
  {
    ins / 0x1000_0000
  }

  /** `cond_not_respect`: 0 when the instruction is to be executed. The PL and LE arms
      are those of the code, which tests N = 1 for PL and lets LE always pass. */
  function ConditionCode(cpsr: Word, ins: Word): (r: int) {
    var n, z, c, v := FlagN(cpsr), FlagZ(cpsr), FlagC(cpsr), FlagV(cpsr);
    var cond := Cond(ins);
    if cond == 15 then 2
    else if match cond
            case 0 => z
            case 1 => !z
            case 2 => c
            case 3 => !c
            case 4 => n
            case 5 => n
            case 6 => v
            case 7 => !v
            case 8 => c && !z
            case 9 => !c || z
            case 10 => n == v
            case 11 => n != v
            case 12 => !z && n == v
            case _ => true
    then 0 else 1
  }

  /** The condition table of section A3.2 of the ARM Architecture Reference Manual. */
  predicate ConditionHolds(cond: nat, n: bool, z: bool, c: bool, v: bool)
    requires cond <= 14
  {
    var base :=
      if cond / 2 == 0 then z
      else if cond / 2 == 1 then c
      else if cond / 2 == 2 then n
      else if cond / 2 == 3 then v
      else if cond / 2 == 4 then c && !z
      else if cond / 2 == 5 then n == v
      else if cond / 2 == 6 then n == v && !z
      else true;
    if cond % 2 == 0 then base else !base
  }

  /** The code agrees with the table exactly outside PL, and for LE exactly when LE holds. */
  lemma ConditionsAgree(cpsr: Word, ins: Word)
    requires Cond(ins) <= 14
    ensures var holds := ConditionHolds(Cond(ins), FlagN(cpsr), FlagZ(cpsr), FlagC(cpsr), FlagV(cpsr));
            (ConditionCode(cpsr, ins) == 0 <==> holds) <==> (Cond(ins) != 5 && (Cond(ins) == 13 ==> holds))
  {
  }

  /** What the code lets pass, by the bits of CPSR and instruction: the condition of the table,
      with PL read as MI and LE as AL; the condition 15 never passes. */
  predicate Passes(cpsr: Word, ins: Word) {
    var cond := Nibble(ins, 28);
    var read := if cond == 5 then 4 else cond;
    cond != 15
    && (cond == 13 || ConditionHolds(read, Bit(cpsr, 31), Bit(cpsr, 30), Bit(cpsr, 29), Bit(cpsr, 28)))
  }

  lemma FlagsAreBits(cpsr: Word)
    ensures FlagN(cpsr) == Bit(cpsr, 31) && FlagZ(cpsr) == Bit(cpsr, 30)
    ensures FlagC(cpsr) == Bit(cpsr, 29) && FlagV(cpsr) == Bit(cpsr, 28)
  {
    Pow2Values();
    BitIsDigit(cpsr, 31);
    BitIsDigit(cpsr, 30);
    BitIsDigit(cpsr, 29);
    BitIsDigit(cpsr, 28);
  }

  lemma CondIsNibble(ins: Word)
    ensures Cond(ins) == Nibble(ins, 28)
  {
    Pow2Values();
  }

  /** The condition test succeeds exactly for the instructions that pass. */
  lemma ConditionPasses(cpsr: Word, ins: Word)
    ensures ConditionCode(cpsr, ins) == 0 <==> Passes(cpsr, ins)
    ensures ConditionCode(cpsr, ins) == 2 <==> Nibble(ins, 28) == 15
    ensures ConditionCode(cpsr, ins) in {0, 1, 2}
  {
    hide Bit, Nibble, FlagN, FlagZ, FlagC, FlagV;
    FlagsAreBits(cpsr);
    CondIsNibble(ins);
    if Cond(ins) <= 14 {
      ConditionsAgree(cpsr, ins);
    }
  }

  /** With all flags clear, PL should hold but is refused, and LE should not hold but passes. */
  lemma ConditionsDisagree(pl: Word, le: Word)
    requires Cond(pl) == 5 && Cond(le) == 13
    ensures ConditionHolds(5, FlagN(0), FlagZ(0), FlagC(0), FlagV(0)) && ConditionCode(0, pl) == 1
    ensures !ConditionHolds(13, FlagN(0), FlagZ(0), FlagC(0), FlagV(0)) && ConditionCode(0, le) == 0
  {
  }

  // ----- fetch -----

  /** State after the fetch, whatever is read. */
  function Advanced(m: Machine): Machine {
    m.(regs := m.regs[PC := Plus(m.regs[PC], 4)], cycles := Plus(m.cycles, 1))
  }

  /** State after the fetch, and the word fetched. */
  function Fetched(m: Machine, junk: Indeterminate): (Machine, Word) {
    (Advanced(m), if m.Reaches(m.regs[PC]) then m.Load(m.regs[PC]) else junk.ins)
  }

  lemma PcMask(x: Word)
    ensures And(x, 0xFFFF_FFFD) == if x / 2 % 2 == 1 then x - 2 else x
  {
    Pow2Values();
    assert Pow2(1) == 2 && Bit(x, 1) == Bit(x / 2, 0);
    AndAllButOneBit(x, 1, 32, 0xFFFF_FFFD);
  }

  /** A fetch that the memory refuses may give any word, since the code ignores its result. */
  lemma RefusedFetch(m: Machine, w: Word) returns (junk: Indeterminate)
    requires !m.Reaches(m.regs[PC])
    ensures Fetched(m, junk) == (Advanced(m), w)
  {
    junk := Indeterminate(w, 0, 0, 0, false, 0);
  }

  /** R15 reads as the stored value plus 4 under the mask of the code. */
  lemma SeenPcIsMasked(pc: Word)
    ensures SeenPc(pc) == And(Plus(pc, 4), 0xFFFF_FFFD)
  {
    PcMask(Plus(pc, 4));
  }

  class ArmCore {
    const reg: Registers
    const mem: Memory
    const bigEndian: bool
    var cycleCount: Word

    ghost predicate Valid() {
      reg.Valid() && mem.Valid() && reg.registre as object != mem.data as object
    }

    ghost function Abs(): (m: Machine)
      reads this, reg.registre, mem.data
      requires Valid()
    {
      Machine(reg.Contents(), mem.Contents(), bigEndian, cycleCount)
    }

    constructor (r: Registers, memory: Memory, be: bool)
      requires r.Valid() && memory.Valid() && r.registre as object != memory.data as object
      ensures Valid() && reg == r && mem == memory && bigEndian == be && cycleCount == 0
    {
      reg, mem, bigEndian, cycleCount := r, memory, be, 0;
    }

    method CurrentModeHasSpsr() returns (has: bool)
      requires Valid()
      ensures has == HasSpsr(Abs().Mode())
    {
      var mode := reg.GetMode();
      has := HasSpsr(mode);
    }

    method InAPrivilegedMode() returns (privileged: bool)
      requires Valid()
      ensures privileged == (Abs().Mode() != USR)
    {
      var mode := reg.GetMode();
      privileged := mode != USR;
    }

    method ReadRegister(n: nat) returns (value: Word)
      requires Valid() && n <= CPSR
      ensures value == Abs().Reg(n)
    {
      var mode := reg.GetMode();
      value := reg.Read(n, mode);
      if n == 15 {
        value := (value + 4) % 0x1_0000_0000;
        PcMask(value);
        value := And(value, 0xFFFF_FFFD);
      }
    }

    method WriteRegister(n: nat, value: Word)
      requires Valid() && n <= CPSR
      modifies reg.registre
      ensures Valid() && Abs() == old(Abs()).SetReg(n, value)
    {
      var mode := reg.GetMode();
      reg.Write(n, mode, value);
    }

    method ReadCpsr() returns (value: Word)
      requires Valid()
      ensures value == Abs().Cpsr()
    {
      value := reg.registre[CPSR];
    }

    method WriteCpsr(value: Word)
      requires Valid()
      modifies reg.registre
      ensures Valid() && Abs() == old(Abs()).SetCpsr(value)
    {
      reg.WriteCpsr(value);
    }

    method ReadSpsr() returns (value: Word)
      requires Valid()
      ensures value == Abs().Spsr()
    {
      var mode := reg.GetMode();
      value := reg.ReadSpsr(mode);
    }

    method WriteSpsr(value: Word)
      requires Valid()
      modifies reg.registre
      ensures Valid() && Abs() == old(Abs()).SetSpsr(value)
    {
      var mode := reg.GetMode();
      reg.WriteSpsr(mode, value);
    }

    method ReadByte(address: Word, before: Byte) returns (result: int, value: Byte)
      requires Valid()
      ensures (result, value) == if Abs().Reaches(address) then (0, ByteAt(Abs().mem, address)) else (-1, before)
    {
      result, value := mem.ReadByte(address, before);
    }

    method ReadHalf(address: Word, before: Half) returns (result: int, value: Half)
      requires Valid()
      ensures (result, value)
           == if Abs().Reaches(address) then (0, HalfAt(Abs().mem, address, bigEndian)) else (-1, before)
    {
      result, value := mem.ReadHalf(address, before, bigEndian);
    }

    method ReadWord(address: Word, before: Word) returns (result: int, value: Word)
      requires Valid()
      ensures (result, value) == if Abs().Reaches(address) then (0, Abs().Load(address)) else (-1, before)
    {
      result, value := mem.ReadWord(address, before, bigEndian);
    }

    method WriteByte(address: Word, value: Byte) returns (result: int)
      requires Valid()
      modifies mem.data
      ensures Valid()
      ensures (result, Abs()) == var m := old(Abs());
                                 if m.Reaches(address) then (0, m.(mem := PutByte(m.mem, address, value))) else (-1, m)
    {
      result := mem.WriteByte(address, value);
    }

    method WriteHalf(address: Word, value: Half) returns (result: int)
      requires Valid()
      modifies mem.data
      ensures Valid()
      ensures (result, Abs()) == var m := old(Abs());
                                 if m.Reaches(address)
                                 then (0, m.(mem := PutHalf(m.mem, address, value, m.bigEndian)))
                                 else (-1, m)
    {
      result := mem.WriteHalf(address, value, bigEndian);
    }

    method WriteWord(address: Word, value: Word) returns (result: int)
      requires Valid()
      modifies mem.data
      ensures Valid()
      ensures (result, Abs()) == var m := old(Abs());
                                 if m.Reaches(address) then (0, m.Store(address, value)) else (-1, m)
    {
      result := mem.WriteWord(address, value, bigEndian);
    }

    method Fetch(junk: Indeterminate) returns (result: int, ins: Word)
      requires Valid()
      modifies this, reg.registre
      ensures Valid() && (Abs(), ins) == Fetched(old(Abs()), junk)
      ensures result == if old(Abs()).Reaches(old(Abs()).regs[PC]) then 0 else -1
    {
      var mode := reg.GetMode();
      var address := reg.Read(15, mode);
      reg.Write(15, mode, Plus(address, 4));
      result, ins := mem.ReadWord(address, junk.ins, bigEndian);
      cycleCount := Plus(cycleCount, 1);
    }

    /** The condition test on the current flags. */
    method CondNotRespect(ins: Word) returns (r: int)
      requires Valid()
      ensures r == ConditionCode(Abs().Cpsr(), ins)
    {
      var cond := ins / 0x1000_0000 % 16;
      var cpsr := ReadCpsr();
      var flagZ := cpsr / 0x4000_0000 % 2;
      var flagN := cpsr / 0x8000_0000 % 2;
      var flagC := cpsr / 0x2000_0000 % 2;
      var flagV := cpsr / 0x1000_0000 % 2;
      if cond == 0 {
        if flagZ == 0 { return 1; }
      } else if cond == 1 {
        if flagZ == 1 { return 1; }
      } else if cond == 2 {
        if flagC == 0 { return 1; }
      } else if cond == 3 {
        if flagC == 1 { return 1; }
      } else if cond == 4 {
        if flagN == 0 { return 1; }
      } else if cond == 5 {
        if flagN == 0 { return 1; }
      } else if cond == 6 {
        if flagV == 0 { return 1; }
      } else if cond == 7 {
        if flagV == 1 { return 1; }
      } else if cond == 8 {
        if flagC != 1 || flagZ != 0 { return 1; }
      } else if cond == 9 {
        if flagC != 0 && flagZ != 1 { return 1; }
      } else if cond == 10 {
        if flagN != flagV { return 1; }
      } else if cond == 11 {
        if flagN == flagV { return 1; }
      } else if cond == 12 {
        if flagZ != 0 || flagN != flagV { return 1; }
      } else if cond == 13 {
        // the code assigns 0 to flagZ here, so that the test never succeeds
        flagZ := 0;
        if flagZ != 0 && flagN == flagV { return 1; }
      } else if cond == 15 {
        return 2;
      }
      return 0;
    }
  }
}
