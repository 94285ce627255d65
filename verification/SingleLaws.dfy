/**
 Single transfers in every addressing mode: what a completed load or store of a
 byte, half-word or word does, and the round trip between them.
 */
module SingleLaws {
  import opened Words
  import opened ArmConstants
  import opened RegisterFile
  import opened MainMemory
  import opened MemoryMap
  import opened Core
  import opened Decode
  import opened DataProcessing
  import opened Shifter
  import opened LoadStore
  import opened Instruction

  /** A word or byte transfer, or one of the extra half-word ones. */
  predicate IsSingle(ins: Word) {
    ExtraTransferSpace(ins) || Family(ins) == 2 || (Family(ins) == 3 && !UndefinedTransfer(ins))
  }

  predicate IsHalf(ins: Word) {
    Family(ins) == 0
  }

  /** Bytes moved by the instruction. */
  function Width(ins: Word): nat {
    if IsHalf(ins) then 2 else if Bit(ins, 22) then 1 else 4
  }

  /** The offset of section A5.2 or A5.3, by the bits of the instruction: an immediate of 12
      bits or of two nibbles, a register, or a register shifted by an immediate. */
  function OffsetOf(m: Machine, ins: Word): Word {
    Pow2Values();
    assert Pow2(12) == 0x1000 && Pow2(2) == 4;
    var rm := m.Reg(Nibble(ins, 0));
    if IsHalf(ins) then if Bit(ins, 22) then 16 * Nibble(ins, 8) + Nibble(ins, 0) else rm
    else if Bit(ins, 25) then ShiftMeaning(GetBits(ins, 6, 5), GetBits(ins, 11, 7), rm)
    else GetBits(ins, 11, 0)
  }

  /** Base register plus or minus the offset. */
  function MovedBase(m: Machine, ins: Word): Word {
    var base, offset: int := m.Reg(Nibble(ins, 16)), OffsetOf(m, ins);
    Plus(base, if Bit(ins, 23) then offset else -offset)
  }

  /** The address of the access. */
  function EffectiveAddress(m: Machine, ins: Word): Word {
    if Bit(ins, 24) then MovedBase(m, ins) else m.Reg(Nibble(ins, 16))
  }

  /** The base register is written: always when post-indexed, on request when pre-indexed. */
  predicate MovesBase(ins: Word) {
    !Bit(ins, 24) || Bit(ins, 21)
  }

  /** The value of `width` bytes at an address. */
  function ValueAt(m: Machine, address: Word, width: nat): nat
    requires m.Reaches(address)
  {
    if width == 1 then ByteAt(m.mem, address)
    else if width == 2 then HalfAt(m.mem, address, m.bigEndian)
    else m.Load(address)
  }

  function Truncated(v: Word, width: nat): Word {
    if width == 1 then v % 0x100 else if width == 2 then v % 0x1_0000 else v
  }

  /** The memory with the low `width` bytes of v at an address. */
  function MemoryWith(m: Machine, address: Word, v: Word, width: nat): Ram
    requires m.Reaches(address)
  {
    if width == 1 then PutByte(m.mem, address, v % 0x100)
    else if width == 2 then PutHalf(m.mem, address, v % 0x1_0000, m.bigEndian)
    else PutWord(m.mem, address, v, m.bigEndian)
  }

  lemma ReadBack(m: Machine, m2: Machine, address: Word, v: Word, width: nat)
    requires width == 1 || width == 2 || width == 4
    requires m.Reaches(address) && m2.mem == MemoryWith(m, address, v, width) && m2.bigEndian == m.bigEndian
    ensures m2.Reaches(address) && ValueAt(m2, address, width) == Truncated(v, width)
  {
    if width == 2 {
      ReadBackHalf(m.mem, address, v % 0x1_0000, m.bigEndian);
    } else if width == 4 {
      ReadBackWord(m.mem, address, v, m.bigEndian);
    }
  }

  /** State in which the access is made. */
  function AtAccess(m: Machine, ins: Word): Machine {
    if Bit(ins, 24) && Bit(ins, 21) then m.SetReg(Nibble(ins, 16), MovedBase(m, ins)) else m
  }

  /** State after the base update of a completed transfer. */
  function BaseDone(t: Machine, m: Machine, ins: Word): Machine {
    if Bit(ins, 24) then t else t.SetReg(Nibble(ins, 16), MovedBase(m, ins))
  }

  lemma Families(ins: Word)
    ensures Family(ins) == 2 || Family(ins) == 3 ==> ins / 0x400_0000 % 4 == 1
    ensures Family(ins) == 0 ==> ins / 0x400_0000 % 4 == 0
  {
    DivTwice(ins, 0x200_0000, 2);
    var h := ins / 0x200_0000;
    assert h == 8 * (h / 8) + Family(ins);
  }

  lemma DispatchSingle(m: Machine, ins: Word, junk: Indeterminate)
    requires IsSingle(ins)
    ensures Dispatched(m, ins, junk)
         == if ConditionCode(m.Cpsr(), ins) != 0 then Outcome(-1, m)
            else if IsHalf(ins) then HalfTransfer(m, ins, junk) else WordByteTransfer(m, ins, junk)
  {
    hide HalfTransfer, WordByteTransfer, ConditionCode;
    Families(ins);
  }

  /** State after the access of a store. */
  function StoreDone(m: Machine, ins: Word): Machine
    requires m.Reaches(EffectiveAddress(m, ins))
  {
    var m1 := AtAccess(m, ins);
    m1.(mem := MemoryWith(m1, EffectiveAddress(m, ins), m1.Reg(Nibble(ins, 12)), Width(ins)))
  }

  /** State after the access of a load of v. */
  function Fetches(m: Machine, ins: Word, v: Word): Machine {
    AtAccess(m, ins).SetReg(Nibble(ins, 12), v)
  }

  /** State of a completed load of v: v goes to Rd, then a post-indexed base moves. */
  function LoadDone(m: Machine, ins: Word, v: Word): Machine {
    BaseDone(Fetches(m, ins, v), m, ins)
  }

  // ----- the code computes these addresses -----

  lemma SameOffset(m: Machine, ins: Word)
    ensures OffsetOf(m, ins) == if IsHalf(ins) then HalfOffset(m, ins) else WordByteOffset(m, ins)
  {
    hide ReadReg, SeenPc, Shifted, ShiftMeaning, GetBits, Bit;
    FieldsAreGetBits(ins);
    BitsAreBits(ins);
    ShiftedMeans(ShiftType(ins), ShiftAmount(ins), m.Reg(Rm(ins)));
  }

  lemma SameAddress(m: Machine, ins: Word)
    ensures MovedBase(m, ins) == Moved(m.Reg(Rn(ins)), OffsetOf(m, ins), Upwards(ins))
    ensures EffectiveAddress(m, ins) == if PreIndexed(ins) then MovedBase(m, ins) else m.Reg(Rn(ins))
    ensures AtAccess(m, ins) == PreIndexedBase(m, ins, MovedBase(m, ins))
  {
    hide ReadReg, SeenPc, OffsetOf, GetBits, Bit, WriteReg;
    FieldsAreGetBits(ins);
    BitsAreBits(ins);
  }

  // ----- every outcome -----

  /** An encoding that the handler refuses when it gets to it. */
  predicate Malformed(ins: Word) {
    if IsHalf(ins) then GetBits(ins, 6, 5) != 1 else Bit(ins, 25) && Bit(ins, 4)
  }

  /** What Rd receives when the memory refuses a load. */
  function Garbage(ins: Word, junk: Indeterminate): Word {
    if IsHalf(ins) then junk.half else if Bit(ins, 22) then junk.byte else junk.value
  }

  /** The outcome of a transfer that is neither refused nor malformed: an abort leaves a
      post-indexed base alone, the post-indexed forms with W are refused after the access. */
  function Transferred(m: Machine, ins: Word, junk: Indeterminate): Outcome {
    var a := EffectiveAddress(m, ins);
    if !m.Reaches(a) then
      Outcome(DATA_ABORT, if Bit(ins, 20) then Fetches(m, ins, Garbage(ins, junk)) else AtAccess(m, ins))
    else
      var done := if Bit(ins, 20) then Fetches(m, ins, ValueAt(m, a, Width(ins))) else StoreDone(m, ins);
      if !Bit(ins, 24) && Bit(ins, 21) then Outcome(UNDEFINED_INSTRUCTION, done) else Outcome(0, BaseDone(done, m, ins))
  }

  lemma WordByteOutcome(m: Machine, ins: Word, junk: Indeterminate)
    requires !IsHalf(ins) && Rn(ins) != PC
    ensures WordByteTransfer(m, ins, junk)
         == if Malformed(ins) then Outcome(UNDEFINED_INSTRUCTION, m) else Transferred(m, ins, junk)
  {
    hide ReadReg, WriteReg, SeenPc, PutWord, WordAt, Plus, WordByteOffset, OffsetOf, Moved, GetBits, Bit;
    FieldsAreGetBits(ins);
    BitsAreBits(ins);
    SameOffset(m, ins);
    SameAddress(m, ins);
    hide EffectiveAddress, MovedBase, AtAccess, PreIndexedBase;
    AtAccessMemory(m, ins);
  }

  lemma HalfOutcome(m: Machine, ins: Word, junk: Indeterminate)
    requires IsHalf(ins) && Rn(ins) != PC && Bit7(ins) && Bit4(ins)
    ensures HalfTransfer(m, ins, junk)
         == if Malformed(ins) then Outcome(UNDEFINED_INSTRUCTION, AtAccess(m, ins)) else Transferred(m, ins, junk)
  {
    hide ReadReg, WriteReg, SeenPc, PutHalf, HalfAt, Plus, HalfOffset, OffsetOf, Moved, GetBits, Bit;
    FieldsAreGetBits(ins);
    BitsAreBits(ins);
    SameOffset(m, ins);
    SameAddress(m, ins);
    hide EffectiveAddress, MovedBase, AtAccess, PreIndexedBase;
    AtAccessMemory(m, ins);
  }

  /** Every single transfer whose base is not R15. */
  lemma SingleOutcome(m: Machine, ins: Word, junk: Indeterminate)
    requires IsSingle(ins) && Nibble(ins, 16) != PC
    ensures Dispatched(m, ins, junk)
         == if !Passes(m.Cpsr(), ins) then Outcome(-1, m)
            else if Malformed(ins) then Outcome(UNDEFINED_INSTRUCTION, if IsHalf(ins) then AtAccess(m, ins) else m)
            else Transferred(m, ins, junk)
  {
    hide WordByteTransfer, HalfTransfer, Transferred, Malformed, AtAccess, ConditionCode, Passes, GetBits, Bit;
    FieldsAreGetBits(ins);
    ConditionPasses(m.Cpsr(), ins);
    DispatchSingle(m, ins, junk);
    hide Dispatched;
    if IsHalf(ins) {
      HalfOutcome(m, ins, junk);
    } else {
      WordByteOutcome(m, ins, junk);
    }
  }

  lemma PcWordOutcome(m: Machine, ins: Word, junk: Indeterminate)
    requires !IsHalf(ins) && Rn(ins) == PC
    ensures WordByteTransfer(m, ins, junk)
         == if Malformed(ins) then Outcome(UNDEFINED_INSTRUCTION, m) else FromPc(m, ins, junk)
  {
    hide ReadReg, WriteReg, SeenPc, PutWord, WordAt, Plus, WordByteOffset, OffsetOf, Moved, GetBits, Bit;
    FieldsAreGetBits(ins);
    BitsAreBits(ins);
    SameOffset(m, ins);
    SameAddress(m, ins);
    hide EffectiveAddress, MovedBase, AtAccess, PreIndexedBase;
    AtAccessMemory(m, ins);
  }

  /** With base R15 a half-word transfer is refused; a word or byte load makes no access and
      takes the base plus 8 (or, for a byte, an indeterminate value), which is also what a
      store stores. */
  lemma PcBaseOutcome(m: Machine, ins: Word, junk: Indeterminate)
    requires IsSingle(ins) && Nibble(ins, 16) == PC
    ensures Dispatched(m, ins, junk)
         == if !Passes(m.Cpsr(), ins) then Outcome(-1, m)
            else if IsHalf(ins) || Malformed(ins) then Outcome(UNDEFINED_INSTRUCTION, m)
            else FromPc(m, ins, junk)
  {
    hide WordByteTransfer, HalfAccess, FromPc, Malformed, ConditionCode, Passes, GetBits, Bit;
    FieldsAreGetBits(ins);
    ConditionPasses(m.Cpsr(), ins);
    DispatchSingle(m, ins, junk);
    hide Dispatched;
    if !IsHalf(ins) {
      PcWordOutcome(m, ins, junk);
    }
  }

  function FromPc(m: Machine, ins: Word, junk: Indeterminate): Outcome {
    var a, v := EffectiveAddress(m, ins), if Bit(ins, 22) then junk.byte else Plus(m.Reg(PC), 8);
    var m1 := AtAccess(m, ins);
    var aborts := if Bit(ins, 20) then junk.failed else !m.Reaches(a);
    var done := if Bit(ins, 20) then Fetches(m, ins, v)
                else if aborts then m1
                else m1.(mem := MemoryWith(m1, a, v, Width(ins)));
    if aborts then Outcome(DATA_ABORT, done)
    else if !Bit(ins, 24) && Bit(ins, 21) then Outcome(UNDEFINED_INSTRUCTION, done)
    else Outcome(0, BaseDone(done, m, ins))
  }

  /** When a transfer completes. */
  lemma CompletesWhen(m: Machine, ins: Word, junk: Indeterminate)
    requires IsSingle(ins) && Nibble(ins, 16) != PC
    ensures Dispatched(m, ins, junk).code == 0
       <==> && Passes(m.Cpsr(), ins) && !Malformed(ins) && m.Reaches(EffectiveAddress(m, ins))
            && (Bit(ins, 24) || !Bit(ins, 21))
  {
    hide Dispatched, Passes, Malformed, AtAccess, EffectiveAddress, Bit;
    SingleOutcome(m, ins, junk);
  }

  // ----- completed stores and loads -----

  /** A single transfer with the state in which it is executed. */
  datatype Access = Access(m: Machine, ins: Word, junk: Indeterminate)

  function Result(x: Access): Machine {
    Dispatched(x.m, x.ins, x.junk).m
  }

  function Address(x: Access): Word {
    EffectiveAddress(x.m, x.ins)
  }

  /** The access is a store that completes. */
  predicate Stores(x: Access) {
    IsSingle(x.ins) && !IsLoad(x.ins) && Rn(x.ins) != PC && Dispatched(x.m, x.ins, x.junk).code == 0
  }

  /** The access is a load that completes. */
  predicate Loads(x: Access) {
    IsSingle(x.ins) && IsLoad(x.ins) && Rn(x.ins) != PC && Dispatched(x.m, x.ins, x.junk).code == 0
  }

  /** A completed store: the register is stored, truncated, at the effective address; then
      a post-indexed base moves. */
  lemma StoreLaw(st: Access)
    requires Stores(st)
    ensures st.m.Reaches(Address(st))
    ensures Result(st) == BaseDone(StoreDone(st.m, st.ins), st.m, st.ins)
  {
    hide Dispatched, Passes, Malformed, AtAccess, EffectiveAddress, GetBits, Bit, StoreDone, BaseDone;
    FieldsAreGetBits(st.ins);
    BitsAreBits(st.ins);
    SingleOutcome(st.m, st.ins, st.junk);
  }

  lemma AtAccessMemory(m: Machine, ins: Word)
    ensures AtAccess(m, ins).mem == m.mem && AtAccess(m, ins).bigEndian == m.bigEndian
  {
  }

  /** A completed load puts the value at the effective address, zero-extended, in Rd. */
  lemma LoadLaw(ld: Access)
    requires Loads(ld)
    ensures ld.m.Reaches(Address(ld))
    ensures Result(ld) == LoadDone(ld.m, ld.ins, ValueAt(ld.m, Address(ld), Width(ld.ins)))
  {
    hide Dispatched, Passes, Malformed, AtAccess, EffectiveAddress, GetBits, Bit, Fetches, BaseDone, ValueAt;
    FieldsAreGetBits(ld.ins);
    BitsAreBits(ld.ins);
    SingleOutcome(ld.m, ld.ins, ld.junk);
  }

  /** The registers after such a load: Rd holds v, unless it is also a post-indexed base,
      which moves last; the base moves when the instruction says so; no other register
      changes. */
  lemma LoadDoneRegisters(m: Machine, ld: Word, v: Word, r: nat)
    requires KnownMode(m.Mode()) && r < 16
    ensures var rn, rd := Nibble(ld, 16), Nibble(ld, 12);
            ReadReg(LoadDone(m, ld, v).regs, r, m.Mode())
            == if r == rn && MovesBase(ld) && (r != rd || !Bit(ld, 24)) then MovedBase(m, ld)
               else if r == rd then v
               else ReadReg(m.regs, r, m.Mode())
    ensures LoadDone(m, ld, v).mem == m.mem
  {
    var rd, rn, w := Nibble(ld, 12), Nibble(ld, 16), MovedBase(m, ld);
    ReadAfterSet(m, rd, v, r);
    ReadAfterSet(m.SetReg(rd, v), rn, w, r);
    ReadAfterSet(m, rn, w, r);
    ReadAfterSet(m.SetReg(rn, w), rd, v, r);
    hide ReadReg, WriteReg, MovedBase, Bit, Nibble;
  }

  /** The registers after a store: only the base moves, when the instruction says so. */
  lemma StoreDoneRegisters(m: Machine, st: Word, r: nat)
    requires KnownMode(m.Mode()) && r < 16 && m.Reaches(EffectiveAddress(m, st))
    ensures ReadReg(BaseDone(StoreDone(m, st), m, st).regs, r, m.Mode())
         == if r == Nibble(st, 16) && MovesBase(st) then MovedBase(m, st) else ReadReg(m.regs, r, m.Mode())
  {
    var rn, w, t := Nibble(st, 16), MovedBase(m, st), StoreDone(m, st);
    ReadAfterSet(m, rn, w, r);
    ReadAfterSet(t, rn, w, r);
    hide ReadReg, WriteReg, MovedBase, Bit, Nibble, MemoryWith, EffectiveAddress;
  }

  // ----- a store, then a load -----

  /** m has the memory that the access leaves; its registers may be anything. */
  predicate LeadsTo(x: Access, m: Machine) {
    m.mem == Result(x).mem && m.bigEndian == x.m.bigEndian
  }

  /** The value that a store stores. */
  function StoredValue(x: Access): Word {
    Truncated(AtAccess(x.m, x.ins).Reg(Nibble(x.ins, 12)), Width(x.ins))
  }

  /** A completed store writes its value, as many bytes as it is wide. */
  lemma StoreMemory(st: Access)
    requires Stores(st)
    ensures st.m.Reaches(Address(st))
    ensures Result(st).mem == MemoryWith(st.m, Address(st), StoredValue(st), Width(st.ins))
  {
    StoreLaw(st);
    AtAccessMemory(st.m, st.ins);
    hide Dispatched, EffectiveAddress, ReadReg, SeenPc, PutWord, PutHalf, AtAccess, MovedBase, Width;
    MemoryTruncates(st.m, Address(st), AtAccess(st.m, st.ins).Reg(Nibble(st.ins, 12)), Width(st.ins));
  }

  lemma MemoryTruncates(m: Machine, a: Word, v: Word, width: nat)
    requires m.Reaches(a)
    ensures MemoryWith(m, a, Truncated(v, width), width) == MemoryWith(m, a, v, width)
  {
    hide PutByte, PutHalf, PutWord;
  }

  /** Any store and any load of the same width at the same effective address, whatever
      their addressing modes and whatever happens to the registers in between: the load
      loads the stored register, truncated to the width. */
  lemma StoreThenLoad(st: Access, ld: Access)
    requires Stores(st) && LeadsTo(st, ld.m) && Loads(ld)
    requires Width(st.ins) == Width(ld.ins) && Address(st) == Address(ld)
    ensures Result(ld) == LoadDone(ld.m, ld.ins, StoredValue(st))
  {
    StoreMemory(st);
    LoadLaw(ld);
    var a, n, v := Address(st), Width(st.ins), AtAccess(st.m, st.ins).Reg(Nibble(st.ins, 12));
    assert n == 1 || n == 2 || n == 4;
    MemoryTruncates(st.m, a, v, n);
    hide Stores, Loads, Result, Address, ValueAt, MemoryWith, LoadDone, AtAccess, Width, Nibble;
    ReadBack(st.m, ld.m, a, v, n);
  }
}
