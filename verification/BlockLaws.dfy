/**
 LDM and STM as dispatched instructions: the address law with write-back, the
 prefix kept by an aborted store, and the round trip through memory.
 */
module BlockLaws {
  import opened Words
  import opened ArmConstants
  import opened RegisterFile
  import opened MainMemory
  import opened Core
  import opened Decode
  import opened LoadStore
  import opened Instruction
  import opened BlockTransfers

  predicate IsBlock(ins: Word) {
    GetBits(ins, 27, 25) == 4
  }

  /** A form that the handler refuses: an empty list, S = 1, or a listed base with W. */
  predicate Refused(ins: Word) {
    GetBits(ins, 15, 0) == 0 || Bit(ins, 22) || (Bit(ins, 21) && Bit(ins, Nibble(ins, 16)))
  }

  /** A block transfer that the handler runs, R15 listed or not. */
  predicate Transfers(m: Machine, ins: Word) {
    IsBlock(ins) && Passes(m.Cpsr(), ins) && !Refused(ins)
  }

  lemma ListedIsBit(ins: Word, r: nat)
    requires r < 16
    ensures Listed(ins, r) == Bit(ins, r)
  {
    Pow2Values();
    BitOfRemainder(ins, 16, r);
  }

  lemma BlockFields(m: Machine, ins: Word)
    ensures IsBlock(ins) <==> Family(ins) == 4
    ensures Passes(m.Cpsr(), ins) <==> ConditionCode(m.Cpsr(), ins) == 0
    ensures Refused(ins) <==> RegisterList(ins) == 0 || ByteOrS(ins) || (Listed(ins, Rn(ins)) && WriteBack(ins))
  {
    hide GetBits, Bit, Listed, Passes, ConditionCode;
    FieldsAreGetBits(ins);
    BitsAreBits(ins);
    ConditionPasses(m.Cpsr(), ins);
    ListedIsBit(ins, Rn(ins));
  }

  /** A block transfer whose condition is refused, or of a refused form, changes nothing. */
  lemma BlockRefused(m: Machine, ins: Word, junk: Indeterminate)
    requires IsBlock(ins)
    ensures !Passes(m.Cpsr(), ins) ==> Dispatched(m, ins, junk) == Outcome(-1, m)
    ensures Passes(m.Cpsr(), ins) && Refused(ins) ==> Dispatched(m, ins, junk) == Outcome(UNDEFINED_INSTRUCTION, m)
  {
    BlockFields(m, ins);
    hide RegisterLoop, StartAddress, ConditionCode, Passes, Refused, Listed, GetBits, Bit, BlockEnd, IsBlock;
  }

  function TransferCount(ins: Word): (n: nat)
    ensures n <= 15
  {
    |RegistersFrom(ins, 0)|
  }

  /** Registers after the write-back of a completed transfer. */
  function BaseUpdated(m: Machine, ins: Word): Machine {
    var last := AddressOf(StartAddress(m, ins), Upwards(ins), TransferCount(ins));
    if Bit(ins, 21) then m.SetReg(Nibble(ins, 16), last) else m
  }

  /** Return code when f of the n words were accepted: an abort comes first, then R15 in the
      list is refused. */
  function BlockCode(ins: Word, f: nat, n: nat): int {
    if f < n then DATA_ABORT else if Bit(ins, 15) then UNDEFINED_INSTRUCTION else 0
  }

  /** Where the transfer starts and where the base ends, on 32 bits: one word further when
      pre-indexed, and then one word per listed register. */
  lemma AddressLaw(m: Machine, ins: Word, k: nat)
    ensures var step := if Upwards(ins) then 4 else -4;
            AddressOf(StartAddress(m, ins), Upwards(ins), k)
            == Plus(m.Reg(Rn(ins)), if PreIndexed(ins) then step * (k + 1) else step * k)
  {
    hide Plus, ReadReg, SeenPc;
    var step := if Upwards(ins) then 4 else -4;
    PlusPlus(m.Reg(Rn(ins)), step, step * k);
  }

  // ----- conformance to section A5.4 -----

  /** The address of section A5.4 for the register of rank k: the lowest register always
      at the lowest address. */
  function ManualAddress(m: Machine, ins: Word, k: nat): Word {
    Plus(m.Reg(Rn(ins)), FirstOffset(ins) + 4 * k)
  }

  function FirstOffset(ins: Word): int {
    if Upwards(ins) then if PreIndexed(ins) then 4 else 0
    else (if PreIndexed(ins) then 0 else 4) - 4 * TransferCount(ins)
  }

  /** The base of section A5.4 after a write-back. */
  function ManualBase(m: Machine, ins: Word): Word {
    Plus(m.Reg(Rn(ins)), if Upwards(ins) then 4 * TransferCount(ins) else -4 * TransferCount(ins))
  }

  /** Downwards, the code uses the words of the manual in the opposite order. */
  lemma OppositeOrder(m: Machine, ins: Word, k: nat)
    requires k < TransferCount(ins)
    ensures AddressOf(StartAddress(m, ins), Upwards(ins), k)
         == ManualAddress(m, ins, if Upwards(ins) then k else TransferCount(ins) - 1 - k)
  {
    hide Plus, ReadReg, SeenPc, StartAddress, AddressOf, TransferCount;
    AddressLaw(m, ins, k);
  }

  /** Every register meets its word of the manual exactly when the transfer goes upwards or
      lists at most one register. */
  lemma OrderMatchesManual(m: Machine, ins: Word)
    ensures (forall k: nat | k < TransferCount(ins) ::
               AddressOf(StartAddress(m, ins), Upwards(ins), k) == ManualAddress(m, ins, k))
       <==> Upwards(ins) || TransferCount(ins) <= 1
  {
    hide ReadReg, SeenPc, StartAddress, AddressOf, TransferCount, ManualAddress;
    var n := TransferCount(ins);
    forall k: nat | k < n
      ensures AddressOf(StartAddress(m, ins), Upwards(ins), k)
           == ManualAddress(m, ins, if Upwards(ins) then k else n - 1 - k)
    {
      OppositeOrder(m, ins, k);
    }
    if !Upwards(ins) && n > 1 {
      DifferentAddresses(m, ins, n - 1);
      assert AddressOf(StartAddress(m, ins), Upwards(ins), 0) == ManualAddress(m, ins, n - 1);
    }
  }

  lemma DifferentAddresses(m: Machine, ins: Word, k: nat)
    requires 0 < k < 15
    ensures ManualAddress(m, ins, 0) != ManualAddress(m, ins, k)
  {
    hide ReadReg, SeenPc, TransferCount;
    PlusPlus(m.Reg(Rn(ins)), FirstOffset(ins), 4 * k);
  }

  /** The written-back base is that of the manual exactly when the transfer is not
      pre-indexed. */
  lemma BaseMatchesManual(m: Machine, ins: Word)
    ensures AddressOf(StartAddress(m, ins), Upwards(ins), TransferCount(ins)) == ManualBase(m, ins)
       <==> !PreIndexed(ins)
  {
    hide ReadReg, SeenPc, StartAddress, AddressOf, TransferCount;
    var n := TransferCount(ins);
    AddressLaw(m, ins, n);
    if Upwards(ins) {
      PlusPlus(m.Reg(Rn(ins)), 4 * n, 4);
    } else {
      PlusPlus(m.Reg(Rn(ins)), -4 * n as int, -4);
    }
  }

  // ----- dispatched transfers -----

  lemma BlockUnfolds(m: Machine, ins: Word, junk: Indeterminate)
    requires Transfers(m, ins)
    ensures var (t, last) := RegisterLoop(m, ins, 0, StartAddress(m, ins), junk.value);
            Dispatched(m, ins, junk)
            == if t.code != 0 then t
               else if Bit(ins, 15) then Outcome(UNDEFINED_INSTRUCTION, t.m)
               else if Bit(ins, 21) then Outcome(0, t.m.SetReg(Nibble(ins, 16), last))
               else t
  {
    hide RegisterLoop, StartAddress, ConditionCode, WriteReg, Listed, Passes, Refused, GetBits, Bit, IsBlock;
    BlockFields(m, ins);
    ListedIsBit(ins, 15);
    FieldsAreGetBits(ins);
    BitsAreBits(ins);
    assert Dispatched(m, ins, junk) == BlockTransfer(m, ins, junk);
    hide Dispatched, Family, Rn, WriteBack, ByteOrS, RegisterList, SeenPc, ReadReg;
  }

  /** STM stores the listed registers below R15 in increasing order at successive words until
      the memory refuses one; then it aborts. The base is updated only when all were stored
      and R15 was not listed; every other byte is left alone. */
  lemma StoreMultiple(m: Machine, ins: Word, junk: Indeterminate)
    requires Transfers(m, ins) && !IsLoad(ins)
    ensures var regs, start, up := RegistersFrom(ins, 0), StartAddress(m, ins), Upwards(ins);
            var f := Accepted(Size(m.mem), start, up, |regs|);
            var t := Dispatched(m, ins, junk);
            && t.code == BlockCode(ins, f, |regs|)
            && Stored(m, t.m.(regs := m.regs), regs, start, up, f)
            && t.m.regs == (if t.code == 0 then BaseUpdated(m, ins).regs else m.regs)
  {
    hide RegisterLoop, StartAddress, WriteReg, Listed, AddressOf, Dispatched, RegistersFrom, Accepted, Transfers, Bit;
    BlockUnfolds(m, ins, junk);
    StoreLoop(m, ins, 0, StartAddress(m, ins), junk.value);
  }

  /** An aborting STM: exactly the listed registers below the failing one are stored, the
      failing address is the first outside the memory, and neither the registers nor any
      other byte moved. With an aligned base in a memory of whole words, the stored words
      lie in the memory. */
  lemma AbortKeepsPrefix(m: Machine, ins: Word, junk: Indeterminate) returns (f: nat)
    requires Transfers(m, ins) && !IsLoad(ins)
    requires Dispatched(m, ins, junk).code == DATA_ABORT
    ensures f < TransferCount(ins)
    ensures var start, up := StartAddress(m, ins), Upwards(ins);
            var t := Dispatched(m, ins, junk);
            && t.m.regs == m.regs
            && !m.Reaches(AddressOf(start, up, f))
            && (forall k: nat | k < f :: m.Reaches(AddressOf(start, up, k)))
            && Stored(m, t.m, RegistersFrom(ins, 0), start, up, f)
    ensures m.Reg(Rn(ins)) % 4 == 0 && Size(m.mem) % 4 == 0
        ==> forall k: nat | k < f :: Whole(m.mem, AddressOf(StartAddress(m, ins), Upwards(ins), k), 4)
  {
    var regs, start, up := RegistersFrom(ins, 0), StartAddress(m, ins), Upwards(ins);
    StoreMultiple(m, ins, junk);
    f := Accepted(Size(m.mem), start, up, |regs|);
    AcceptedExact(Size(m.mem), start, up, |regs|);
    hide Dispatched, Stored, Accepted, AddressOf, StartAddress, RegistersFrom;
    var t := Dispatched(m, ins, junk);
    assert t.m.(regs := m.regs) == t.m;
    if m.Reg(Rn(ins)) % 4 == 0 && Size(m.mem) % 4 == 0 {
      AlignedStart(m, ins);
      forall k: nat | k < f ensures Whole(m.mem, AddressOf(start, up, k), 4) {
        AlignedRank(m.mem, start, up, k);
      }
    }
  }

  lemma AlignedStart(m: Machine, ins: Word)
    requires m.Reg(Rn(ins)) % 4 == 0
    ensures StartAddress(m, ins) % 4 == 0
  {
    hide ReadReg, SeenPc;
    PlusAligned(m.Reg(Rn(ins)), 1);
    PlusAligned(m.Reg(Rn(ins)), -1);
  }

  /** LDM loads the listed registers below R15 in increasing order from successive words until
      the memory refuses one; the register of the refused word receives the word before it
      (for the first, an indeterminate value). The base is updated only when all were loaded
      and R15 was not listed. */
  lemma LoadMultiple(m: Machine, ins: Word, junk: Indeterminate) returns (loaded: Machine)
    requires Transfers(m, ins) && IsLoad(ins) && KnownMode(m.Mode())
    ensures var regs, start, up := RegistersFrom(ins, 0), StartAddress(m, ins), Upwards(ins);
            var f := Accepted(Size(m.mem), start, up, |regs|);
            && (forall k: nat | k < f :: m.Reaches(AddressOf(start, up, k)))
            && Loaded(m, loaded, regs[..f], start, up)
            && Dispatched(m, ins, junk)
               == Outcome(BlockCode(ins, f, |regs|),
                          if f < |regs| then loaded.SetReg(regs[f], Stale(m, start, up, f, junk.value))
                          else if Bit(ins, 21) && !Bit(ins, 15) then
                            loaded.SetReg(Nibble(ins, 16), AddressOf(start, up, f))
                          else loaded)
  {
    hide RegisterLoop, StartAddress, WriteReg, ReadReg, Listed, AddressOf, Dispatched, RegistersFrom;
    hide Accepted, Stale, Loaded, Transfers, Bit;
    BlockUnfolds(m, ins, junk);
    loaded := LoadLoop(m, ins, 0, StartAddress(m, ins), junk.value);
  }

  /** LDM without R15 from words that the memory accepts. */
  lemma LoadComplete(m: Machine, ins: Word, junk: Indeterminate) returns (loaded: Machine)
    requires Transfers(m, ins) && IsLoad(ins) && KnownMode(m.Mode()) && !Bit(ins, 15)
    requires Accepted(Size(m.mem), StartAddress(m, ins), Upwards(ins), TransferCount(ins)) == TransferCount(ins)
    ensures forall k: nat | k < TransferCount(ins) :: m.Reaches(AddressOf(StartAddress(m, ins), Upwards(ins), k))
    ensures var regs, start, up := RegistersFrom(ins, 0), StartAddress(m, ins), Upwards(ins);
            var last := AddressOf(start, up, TransferCount(ins));
            && Loaded(m, loaded, regs, start, up)
            && Dispatched(m, ins, junk)
               == Outcome(0, if Bit(ins, 21) then loaded.SetReg(Nibble(ins, 16), last) else loaded)
  {
    hide StartAddress, WriteReg, AddressOf, Dispatched, RegistersFrom, Accepted, Loaded, Stale, Transfers, Bit;
    var regs := RegistersFrom(ins, 0);
    loaded := LoadMultiple(m, ins, junk);
    assert regs[..|regs|] == regs;
  }

  // ----- round trip -----

  /** The load that matches a store: same list, base and addressing mode. */
  predicate Matches(st: Word, ld: Word) {
    && !IsLoad(st) && IsLoad(ld) && RegisterList(st) == RegisterList(ld) && Rn(st) == Rn(ld)
    && PreIndexed(st) == PreIndexed(ld) && Upwards(st) == Upwards(ld) && !WriteBack(st) && !WriteBack(ld)
  }

  lemma {:induction false} SameLists(a: Word, b: Word, i: nat)
    requires i <= 15 && RegisterList(a) == RegisterList(b)
    ensures RegistersFrom(a, i) == RegistersFrom(b, i)
    decreases 15 - i
  {
    if i < 15 {
      SameLists(a, b, i + 1);
    }
  }

  /** For every list without R15 and every addressing mode: whatever happens to the
      registers between a completed STM and its LDM, as long as the base, the mode and the
      memory are kept, the LDM restores every listed register and touches nothing else. */
  lemma StoreThenLoad(m: Machine, st: Word, junk: Indeterminate, m2: Machine, ld: Word, junk2: Indeterminate, r: nat)
    requires Transfers(m, st) && Transfers(m2, ld) && Matches(st, ld) && KnownMode(m.Mode())
    requires Dispatched(m, st, junk).code == 0
    requires m2.mem == Dispatched(m, st, junk).m.mem && m2.bigEndian == m.bigEndian
    requires m2.Mode() == m.Mode() && m2.Reg(Rn(st)) == m.Reg(Rn(st))
    requires r < 15
    ensures var t := Dispatched(m2, ld, junk2);
            && t.code == 0 && t.m.mem == m2.mem
            && ReadReg(t.m.regs, r, m.Mode()) == if Listed(st, r) then m.Reg(r) else m2.Reg(r)
  {
    var regs, start, up := RegistersFrom(st, 0), StartAddress(m, st), Upwards(st);
    SameLists(st, ld, 0);
    StoreMultiple(m, st, junk);
    assert StartAddress(m2, ld) == start by { hide ReadReg, SeenPc, Plus; }
    RegistersFromExact(st, 0);
    SizeKept(m, m2, st, junk);
    NotListed15(m, st, ld, junk);
    BitsAreBits(ld);
    hide Transfers, Bit;
    var t := LoadComplete(m2, ld, junk2);
    hide Dispatched, StartAddress, AddressOf, RegistersFrom, Accepted, WordAt;
    assert Listed(st, r) <==> r in regs;
    if r in regs {
      var k :| 0 <= k < |regs| && regs[k] == r;
      assert ReadReg(t.regs, regs[k], m2.Mode()) == m2.Load(AddressOf(start, up, k));
      assert HoldsAt(m2, AddressOf(start, up, k), m.Reg(regs[k]));
    } else {
      UnlistedKept(m2, t, regs, start, up, r);
    }
  }

  lemma NotListed15(m: Machine, st: Word, ld: Word, junk: Indeterminate)
    requires Transfers(m, st) && !IsLoad(st) && Dispatched(m, st, junk).code == 0
    requires RegisterList(st) == RegisterList(ld)
    ensures !Bit(st, 15) && !Bit(ld, 15)
  {
    hide Dispatched, Stored, Accepted, AddressOf, StartAddress, RegistersFrom, Transfers;
    StoreMultiple(m, st, junk);
    ListedIsBit(st, 15);
    ListedIsBit(ld, 15);
    hide Bit;
  }

  lemma SizeKept(m: Machine, m2: Machine, st: Word, junk: Indeterminate)
    requires Transfers(m, st) && !IsLoad(st)
    requires m2.mem == Dispatched(m, st, junk).m.mem
    ensures Size(m2.mem) == Size(m.mem)
  {
    StoreMultiple(m, st, junk);
    hide Dispatched, RegistersFrom, Accepted, AddressOf, StartAddress;
  }

  lemma UnlistedKept(m: Machine, m': Machine, regs: seq<nat>, start: Word, up: bool, r: nat)
    requires KnownMode(m.Mode()) && r < 15 && r !in regs
    requires forall k | 0 <= k < |regs| :: regs[k] < 15
    requires forall k: nat | k < |regs| :: m.Reaches(AddressOf(start, up, k))
    requires Loaded(m, m', regs, start, up)
    ensures ReadReg(m'.regs, r, m.Mode()) == ReadReg(m.regs, r, m.Mode())
  {
    hide AddressOf, WordAt;
    var mode := m.Mode();
    DistinctCells(r, CPSR, mode);
    var c := Cell(r, mode).value;
    forall k | 0 <= k < |regs| ensures Cell(regs[k], mode) != Some(c) {
      DistinctCells(r, regs[k], mode);
    }
  }
}
