/**
 Block copy: a loop in memory of LDMIA Rs!, list; STMIA Rd!, list; and a branch
 back copies one block of memory each time round and advances both bases.
 */
module BlockCopy {
  import opened Words
  import opened ArmConstants
  import opened RegisterFile
  import opened MainMemory
  import opened MemoryMap
  import opened Core
  import opened Decode
  import opened LoadStore
  import opened Instruction
  import opened Runs
  import opened ProgramCounter
  import opened Programs
  import opened BlockTransfers
  import opened BlockLaws

  /** An unconditional increment-after transfer with write-back, its base not listed. */
  predicate IncrementAfter(ins: Word) {
    && Family(ins) == 4 && Cond(ins) == 14 && !PreIndexed(ins) && Upwards(ins) && !ByteOrS(ins) && WriteBack(ins)
    && RegisterList(ins) != 0 && !Listed(ins, 15) && !Listed(ins, Rn(ins)) && Rn(ins) < 15
  }

  /** The load and the store of the copy loop: same list, different bases, none listed. */
  predicate CopyPair(ld: Word, st: Word) {
    && IncrementAfter(ld) && IncrementAfter(st) && IsLoad(ld) && !IsLoad(st)
    && RegisterList(ld) == RegisterList(st) && Rn(ld) != Rn(st) && !Listed(st, Rn(ld)) && !Listed(ld, Rn(st))
  }

  /** LDMIA Rn!, list and STMIA Rn!, list */
  function LdmiaWord(rn: nat, list: nat): Word
    requires rn < 16 && list < 0x1_0000
  {
    0xE8B0_0000 + rn * 0x1_0000 + list
  }

  function StmiaWord(rn: nat, list: nat): Word
    requires rn < 16 && list < 0x1_0000
  {
    0xE8A0_0000 + rn * 0x1_0000 + list
  }

  /** The two mnemonics make a copy pair for any list without the bases and R15. */
  lemma MnemonicsArePair(rs: nat, rd: nat, list: nat)
    requires rs < 15 && rd < 15 && rs != rd && 0 < list < 0x1_0000
    requires !Bit(list, rs) && !Bit(list, rd) && !Bit(list, 15)
    ensures CopyPair(LdmiaWord(rs, list), StmiaWord(rd, list))
  {
    HeadFields(LdmiaWord(rs, list), 0xE8B, rs, list);
    HeadFields(StmiaWord(rd, list), 0xE8A, rd, list);
    hide LdmiaWord, StmiaWord, Bit;
    IncrementAfterWord(LdmiaWord(rs, list), rs, list, true);
    IncrementAfterWord(StmiaWord(rd, list), rd, list, false);
  }

  lemma IncrementAfterWord(w: Word, rn: nat, list: nat, load: bool)
    requires rn < 15 && 0 < list < 0x1_0000 && !Bit(list, rn) && !Bit(list, 15)
    requires HasHead(w, if load then 0xE8B else 0xE8A, rn) && w % 0x1_0000 == list
    ensures IncrementAfter(w) && IsLoad(w) == load && Rn(w) == rn && RegisterList(w) == list
  {
    hide Bit;
  }

  // ----- the memory of a copy -----

  /** Byte p of the memory after n bytes were copied from s to d. */
  function CopyByte(ram: Ram, s: Word, d: Word, n: nat, p: nat): Byte
    requires p < |ram| && s + n <= |ram|
  {
    if d <= p < d + n then ram[s + (p - d)] else ram[p]
  }

  /** m' is m with n bytes copied from s to d and the two bases moved past them. */
  ghost predicate Copied(m: Machine, m': Machine, rs: nat, rd: nat, s: Word, d: Word, n: nat)
    requires rs < 15 && rd < 15 && s + n <= |m.mem|
  {
    && |m'.mem| == |m.mem| && m'.bigEndian == m.bigEndian && m'.Mode() == m.Mode()
    && m'.Reg(rs) == Plus(s, n) && m'.Reg(rd) == Plus(d, n)
    && (forall p: nat | p < |m.mem| :: m'.mem[p] == CopyByte(m.mem, s, d, n, p))
  }

  lemma PlainAddress(start: Word, k: nat)
    requires start + 4 * k < 0x1_0000_0000
    ensures AddressOf(start, true, k) == start + 4 * k
  {
  }

  lemma {:induction false} AllInside(ram: Ram, start: Word, n: nat)
    requires start + 4 * n <= Size(ram) && start + 4 * n <= 0x1_0000_0000
    ensures Accepted(Size(ram), start, true, n) == n
    decreases n
  {
    if n > 1 {
      AllInside(ram, start + 4, n - 1);
    }
  }

  /** In m1 the registers hold the words of m from s on; the memory and the mode are those
      of m. */
  ghost predicate Carries(m: Machine, m1: Machine, regs: seq<nat>, s: Word)
    requires forall k | 0 <= k < |regs| :: regs[k] < 15
  {
    && m1.mem == m.mem && m1.bigEndian == m.bigEndian && m1.Mode() == m.Mode()
    && forall k: nat | k < |regs| :: HoldsAt(m, AddressOf(s, true, k), m1.Reg(regs[k]))
  }

  /** The words of a block read at s and stored at d are equal. */
  lemma BlockWord(m: Machine, m1: Machine, m2: Machine, regs: seq<nat>, s: Word, d: Word, k: nat)
    requires k < |regs| && forall k | 0 <= k < |regs| :: regs[k] < 15
    requires Carries(m, m1, regs, s) && Stored(m1, m2, regs, d, true, |regs|)
    ensures m.Reaches(AddressOf(s, true, k))
    ensures HoldsAt(m2, AddressOf(d, true, k), m.Load(AddressOf(s, true, k)))
  {
    hide WordAt, Cell, Plus, AddressOf, ReadReg, Outside;
    assert HoldsAt(m, AddressOf(s, true, k), m1.Reg(regs[k]));
    assert HoldsAt(m2, AddressOf(d, true, k), m1.Reg(regs[k]));
  }

  /** Byte 4k + i of such a block. */
  lemma BlockByte(m: Machine, m1: Machine, m2: Machine, regs: seq<nat>, s: Word, d: Word, k: nat, i: nat)
    requires k < |regs| && i < 4 && forall k | 0 <= k < |regs| :: regs[k] < 15
    requires Whole(m.mem, s, 4 * |regs|) && Whole(m.mem, d, 4 * |regs|)
    requires Carries(m, m1, regs, s) && Stored(m1, m2, regs, d, true, |regs|)
    ensures |m2.mem| == |m.mem| && m2.mem[d + 4 * k + i] == m.mem[s + 4 * k + i]
  {
    hide WordAt, Cell, Plus, AddressOf, ReadReg, Outside;
    BlockWord(m, m1, m2, regs, s, d, k);
    PlainAddress(s, k);
    PlainAddress(d, k);
    EqualBytes(m2, d + 4 * k, m, s + 4 * k, i);
  }

  lemma EqualBytes(m2: Machine, d: Word, m: Machine, s: Word, i: nat)
    requires Whole(m2.mem, d, 4) && Whole(m.mem, s, 4) && i < 4 && m2.bigEndian == m.bigEndian
    requires m2.Load(d) == m.Load(s)
    ensures m2.mem[d + i] == m.mem[s + i]
  {
    hide WordAt;
    WordBytes(m2.mem, d, m.mem, s, m.bigEndian);
    ByteOfWord(m2.mem, d, i);
    ByteOfWord(m.mem, s, i);
  }

  lemma ByteOfWord(ram: Ram, a: Word, i: nat)
    requires Whole(ram, a, 4) && i < 4
    ensures ram[a + i] == GetBytes(ram, a, 4)[i]
  {
    assert At(a, i) == a + i;
  }

  lemma BytesElsewhere(m1: Machine, m2: Machine, regs: seq<nat>, d: Word, p: nat)
    requires forall k | 0 <= k < |regs| :: regs[k] < 15
    requires d + 4 * |regs| <= Size(m1.mem) && d + 4 * |regs| <= 0x1_0000_0000
    requires Stored(m1, m2, regs, d, true, |regs|)
    requires p < |m1.mem| && !(d <= p < d + 4 * |regs|)
    ensures m2.mem[p] == m1.mem[p]
  {
    hide WordAt, ReadReg;
    forall k: nat, i: nat | k < |regs| && i < 4 ensures At(AddressOf(d, true, k), i) != p {
      PlainAddress(d, k);
    }
    assert Outside(d, true, |regs|, p);
  }

  /** The memory after one block. */
  lemma BlockMemory(m: Machine, m1: Machine, m2: Machine, regs: seq<nat>, s: Word, d: Word)
    requires forall k | 0 <= k < |regs| :: regs[k] < 15
    requires Whole(m.mem, s, 4 * |regs|) && Whole(m.mem, d, 4 * |regs|)
    requires Carries(m, m1, regs, s) && Stored(m1, m2, regs, d, true, |regs|)
    ensures |m2.mem| == |m.mem|
    ensures forall p: nat | p < |m.mem| :: m2.mem[p] == CopyByte(m.mem, s, d, 4 * |regs|, p)
  {
    hide AddressOf, WordAt, Cell, ReadReg, HoldsAt, Outside;
    forall p: nat | p < |m.mem| ensures m2.mem[p] == CopyByte(m.mem, s, d, 4 * |regs|, p) {
      if d <= p < d + 4 * |regs| {
        BlockByte(m, m1, m2, regs, s, d, (p - d) / 4, (p - d) % 4);
      } else {
        BytesElsewhere(m1, m2, regs, d, p);
      }
    }
  }

  // ----- the load and the store -----

  /** Bytes moved by one transfer. */
  function BlockSize(ld: Word): (n: nat)
    ensures n == 4 * TransferCount(ld)
  {
    4 * TransferCount(ld)
  }

  lemma UnconditionalRuns(m: Machine, ins: Word)
    requires IncrementAfter(ins)
    ensures Transfers(m, ins) && !Bit(ins, 15) && StartAddress(m, ins) == m.Reg(Rn(ins))
    ensures BlockCode(ins, TransferCount(ins), TransferCount(ins)) == 0
    ensures Bit(ins, 21) && Nibble(ins, 16) == Rn(ins)
  {
    hide ReadReg, Listed, Bit, Passes, Refused, GetBits, IsBlock;
    BlockFields(m, ins);
    ListedIsBit(ins, 15);
    FieldsAreGetBits(ins);
    BitsAreBits(ins);
  }

  /** The load: the registers carry the block, the base of the load moves. */
  lemma LoadHalf(m: Machine, ld: Word, st: Word, junk: Indeterminate)
    requires CopyPair(ld, st) && KnownMode(m.Mode()) && Whole(m.mem, m.Reg(Rn(ld)), BlockSize(ld))
    ensures var s, t := m.Reg(Rn(ld)), Dispatched(m, ld, junk);
            && t.code == 0
            && Carries(m, t.m, RegistersFrom(ld, 0), s)
            && t.m.Reg(Rn(ld)) == Plus(s, BlockSize(ld))
            && t.m.Reg(Rn(st)) == m.Reg(Rn(st))
  {
    var s, regs := m.Reg(Rn(ld)), RegistersFrom(ld, 0);
    UnconditionalRuns(m, ld);
    AllInside(m.mem, s, |regs|);
    var loaded := LoadComplete(m, ld, junk);
    hide Dispatched, AddressOf, RegistersFrom, Accepted, WordAt, Plus;
    RegistersFromExact(ld, 0);
    SameLists(ld, st, 0);
    UnlistedKept(m, loaded, regs, s, true, Rn(st));
    AddressOfSpan(s, |regs|);
    LoadedCarries(m, loaded, regs, s, Rn(ld), Plus(s, BlockSize(ld)));
    OtherBase(loaded, Rn(ld), Rn(st), Plus(s, BlockSize(ld)));
  }

  lemma AddressOfSpan(s: Word, n: nat)
    ensures AddressOf(s, true, n) == Plus(s, 4 * n)
  {
  }

  lemma CpsrKept(m: Machine, m': Machine, regs: seq<nat>, start: Word)
    requires KnownMode(m.Mode()) && forall k | 0 <= k < |regs| :: regs[k] < 15
    requires forall k: nat | k < |regs| :: m.Reaches(AddressOf(start, true, k))
    requires Loaded(m, m', regs, start, true)
    ensures m'.Mode() == m.Mode()
  {
    hide AddressOf, WordAt;
    forall k | 0 <= k < |regs| ensures Cell(regs[k], m.Mode()) != Some(CPSR) {
      DistinctCells(regs[k], CPSR, m.Mode());
    }
  }

  lemma LoadedCarries(m: Machine, loaded: Machine, regs: seq<nat>, s: Word, rs: nat, v: Word)
    requires KnownMode(m.Mode()) && rs < 15 && rs !in regs && forall k | 0 <= k < |regs| :: regs[k] < 15
    requires forall k: nat | k < |regs| :: m.Reaches(AddressOf(s, true, k))
    requires Loaded(m, loaded, regs, s, true)
    ensures loaded.Mode() == m.Mode() && Carries(m, loaded.SetReg(rs, v), regs, s)
  {
    hide AddressOf, WordAt;
    CpsrKept(m, loaded, regs, s);
    forall k: nat | k < |regs| ensures HoldsAt(m, AddressOf(s, true, k), loaded.SetReg(rs, v).Reg(regs[k])) {
      ReadAfterSet(loaded, rs, v, regs[k]);
      assert ReadReg(loaded.regs, regs[k], m.Mode()) == m.Load(AddressOf(s, true, k));
    }
    ReadAfterSet(loaded, rs, v, rs);
  }

  lemma OtherBase(m: Machine, r: nat, r': nat, v: Word)
    requires KnownMode(m.Mode()) && r < 15 && r' < 15 && r != r'
    ensures m.SetReg(r, v).Reg(r) == v && m.SetReg(r, v).Reg(r') == m.Reg(r') && m.SetReg(r, v).Mode() == m.Mode()
  {
    ReadAfterSet(m, r, v, r);
    ReadAfterSet(m, r, v, r');
  }

  /** The store of a block that the registers carry. */
  lemma StoreHalf(m: Machine, m1: Machine, ld: Word, st: Word, s: Word, junk: Indeterminate)
    requires CopyPair(ld, st) && KnownMode(m.Mode())
    requires Carries(m, m1, RegistersFrom(ld, 0), s)
    requires Whole(m.mem, s, BlockSize(ld)) && Whole(m.mem, m1.Reg(Rn(st)), BlockSize(ld))
    ensures var d, t := m1.Reg(Rn(st)), Dispatched(m1, st, junk);
            && t.code == 0 && |t.m.mem| == |m.mem| && t.m.bigEndian == m.bigEndian && t.m.Mode() == m.Mode()
            && (forall p: nat | p < |m.mem| :: t.m.mem[p] == CopyByte(m.mem, s, d, BlockSize(ld), p))
            && t.m.Reg(Rn(st)) == Plus(d, BlockSize(ld))
            && t.m.Reg(Rn(ld)) == m1.Reg(Rn(ld))
  {
    var d, regs := m1.Reg(Rn(st)), RegistersFrom(ld, 0);
    SameLists(ld, st, 0);
    UnconditionalRuns(m1, st);
    AllInside(m1.mem, d, |regs|);
    StoreMultiple(m1, st, junk);
    hide Dispatched, RegisterLoop, AddressOf, RegistersFrom, WordAt, Plus, Accepted, Stored, ReadReg, WriteReg, Cell;
    var t := Dispatched(m1, st, junk);
    BlockMemory(m, m1, t.m.(regs := m1.regs), regs, s, d);
    AddressOfSpan(d, |regs|);
    StoredKeeps(m1, t.m.(regs := m1.regs), regs, d);
    OtherBase(m1, Rn(st), Rn(ld), Plus(d, BlockSize(ld)));
  }

  lemma StoredKeeps(m: Machine, m': Machine, regs: seq<nat>, d: Word)
    requires (forall k | 0 <= k < |regs| :: regs[k] <= CPSR) && Stored(m, m', regs, d, true, |regs|)
    ensures m'.bigEndian == m.bigEndian && |m'.mem| == |m.mem|
  {
  }

  // ----- the program -----

  /** LDMIA, STMIA, and a branch back to the load. */
  function CopyProgram(ld: Word, st: Word): seq<Word> {
    [ld, st, BackWord(3)]
  }

  /** The machine is at word i of the program. */
  ghost predicate InCopy(m: Machine, ld: Word, st: Word, pc: Word, i: nat) {
    AtWord(m, pc, CopyProgram(ld, st), i) && KnownMode(m.Mode())
  }

  lemma PairFields(ld: Word, st: Word)
    requires CopyPair(ld, st)
    ensures Rn(ld) < 15 && Rn(st) < 15 && Rn(ld) != Rn(st)
    ensures SparesPc(ld) && Family(ld) == 4 && SparesPc(st) && Family(st) == 4
  {
  }

  lemma SameBlock(m0: Machine, m: Machine, m1: Machine, regs: seq<nat>, s: Word)
    requires (forall k | 0 <= k < |regs| :: regs[k] < 15) && Carries(m0, m1, regs, s)
    requires m0.mem == m.mem && m0.bigEndian == m.bigEndian && m0.Mode() == m.Mode()
    ensures Carries(m, m1, regs, s)
  {
    hide ReadReg, AddressOf, WordAt;
    forall k: nat | k < |regs| ensures HoldsAt(m, AddressOf(s, true, k), m1.Reg(regs[k])) {
      assert HoldsAt(m0, AddressOf(s, true, k), m1.Reg(regs[k]));
    }
  }

  lemma LoadStep(m: Machine, ld: Word, st: Word, pc: Word, junk: Indeterminate)
    requires CopyPair(ld, st) && InCopy(m, ld, st, pc, 0) && Whole(m.mem, m.Reg(Rn(ld)), BlockSize(ld))
    ensures var s, x := m.Reg(Rn(ld)), Run(m, [junk]);
            && InCopy(x, ld, st, pc, 1) && Carries(m, x, RegistersFrom(ld, 0), s)
            && x.Reg(Rn(ld)) == Plus(s, BlockSize(ld)) && x.Reg(Rn(st)) == m.Reg(Rn(st))
  {
    hide Run, Dispatched, RegistersFrom, SeenPc, ReadReg, WordAt, BlockSize, Advanced;
    hide CopyPair, SparesPc, HoldsAt, Holds;
    AdvancedKeeps(m);
    PairFields(ld, st);
    LoadHalf(Advanced(m), ld, st, junk);
    SameBlock(Advanced(m), m, Executing(m, ld, junk).m, RegistersFrom(ld, 0), m.Reg(Rn(ld)));
    StepThrough(m, pc, CopyProgram(ld, st), 0, junk);
  }

  lemma StoreStep(m: Machine, x: Machine, ld: Word, st: Word, pc: Word, s: Word, junk: Indeterminate)
    requires CopyPair(ld, st) && InCopy(x, ld, st, pc, 1) && Carries(m, x, RegistersFrom(ld, 0), s)
    requires Whole(m.mem, s, BlockSize(ld)) && Whole(m.mem, x.Reg(Rn(st)), BlockSize(ld))
    requires Apart(pc, 12, x.Reg(Rn(st)), BlockSize(ld))
    ensures var d, y := x.Reg(Rn(st)), Run(x, [junk]);
            && InCopy(y, ld, st, pc, 2)
            && |y.mem| == |m.mem| && y.bigEndian == m.bigEndian && y.Mode() == m.Mode()
            && (forall p: nat | p < |m.mem| :: y.mem[p] == CopyByte(m.mem, s, d, BlockSize(ld), p))
            && y.Reg(Rn(st)) == Plus(d, BlockSize(ld)) && y.Reg(Rn(ld)) == x.Reg(Rn(ld))
  {
    hide Run, Dispatched, RegistersFrom, SeenPc, ReadReg, WordAt, BlockSize, Advanced;
    hide CopyPair, SparesPc, HoldsAt, Holds;
    AdvancedKeeps(x);
    PairFields(ld, st);
    StoreHalf(m, Advanced(x), ld, st, s, junk);
    StepThrough(x, pc, CopyProgram(ld, st), 1, junk);
  }

  lemma BackStep(y: Machine, ld: Word, st: Word, pc: Word, junk: Indeterminate)
    requires InCopy(y, ld, st, pc, 2)
    ensures var z := Run(y, [junk]);
            && InCopy(z, ld, st, pc, 0)
            && z.mem == y.mem && z.bigEndian == y.bigEndian && z.Mode() == y.Mode()
            && forall r: nat | r < 15 :: z.Reg(r) == y.Reg(r)
  {
    hide Run, WordAt, BackWord, Holds;
    StepBack(y, pc, CopyProgram(ld, st), 2, 3, junk);
    AdvancedKeeps(y);
  }

  /** Three steps of the program copy one block and come back to the load. */
  lemma CopyOnce(m: Machine, ld: Word, st: Word, pc: Word, junks: seq<Indeterminate>)
    requires CopyPair(ld, st) && InCopy(m, ld, st, pc, 0) && |junks| == 3
    requires Whole(m.mem, m.Reg(Rn(ld)), BlockSize(ld)) && Whole(m.mem, m.Reg(Rn(st)), BlockSize(ld))
    requires Apart(pc, 12, m.Reg(Rn(st)), BlockSize(ld))
    ensures Copied(m, Run(m, junks), Rn(ld), Rn(st), m.Reg(Rn(ld)), m.Reg(Rn(st)), BlockSize(ld))
    ensures InCopy(Run(m, junks), ld, st, pc, 0)
  {
    hide Run, InCopy, RegistersFrom, ReadReg, SeenPc, ModeOf, BlockSize, CopyPair, Plus, HoldsAt;
    PairFields(ld, st);
    var s := m.Reg(Rn(ld));
    assert junks == [junks[0]] + ([junks[1]] + [junks[2]]);
    RunConcat(m, [junks[0]], [junks[1]] + [junks[2]]);
    var x := Run(m, [junks[0]]);
    RunConcat(x, [junks[1]], [junks[2]]);
    LoadStep(m, ld, st, pc, junks[0]);
    StoreStep(m, x, ld, st, pc, s, junks[1]);
    BackStep(Run(x, [junks[1]]), ld, st, pc, junks[2]);
  }

  /** Blocks copied one after the other. */
  lemma CopiedTwice(m: Machine, m1: Machine, m2: Machine, rs: nat, rd: nat, s: Word, d: Word, n: nat, n': nat)
    requires rs < 15 && rd < 15
    requires s + n + n' <= Size(m.mem) && d + n + n' <= Size(m.mem) && Apart(s, n + n', d, n + n')
    requires s + n < 0x1_0000_0000 && d + n < 0x1_0000_0000
    requires Copied(m, m1, rs, rd, s, d, n) && Copied(m1, m2, rs, rd, s + n, d + n, n')
    ensures Copied(m, m2, rs, rd, s, d, n + n')
  {
    hide ReadReg, SeenPc, ModeOf, CopyByte, Plus, Apart;
    TwoSteps(s, n, n');
    TwoSteps(d, n, n');
    forall p: nat | p < |m.mem| ensures m2.mem[p] == CopyByte(m.mem, s, d, n + n', p) {
      ByteCopiedTwice(m.mem, m1.mem, s, d, n, n', p);
    }
  }

  lemma TwoSteps(a: Word, n: nat, n': nat)
    requires a + n < 0x1_0000_0000
    ensures Plus(a + n, n') == Plus(a, n + n')
  {
  }

  lemma ByteCopiedTwice(ram: Ram, ram1: Ram, s: Word, d: Word, n: nat, n': nat, p: nat)
    requires p < |ram| == |ram1| && s + n + n' <= Size(ram) && Apart(s, n + n', d, n + n')
    requires s + n < 0x1_0000_0000 && d + n < 0x1_0000_0000
    requires forall q: nat | q < |ram| :: ram1[q] == CopyByte(ram, s, d, n, q)
    ensures CopyByte(ram1, s + n, d + n, n', p) == CopyByte(ram, s, d, n + n', p)
  {
    if d + n <= p < d + n + n' {
      assert ram1[s + (p - d)] == CopyByte(ram, s, d, n, s + (p - d));
    }
  }

  /** Both areas of the copy lie in the memory, they do not overlap, and the program is not
      overwritten. */
  predicate Areas(m: Machine, pc: Word, s: Word, d: Word, n: nat) {
    Whole(m.mem, s, n) && Whole(m.mem, d, n) && Apart(s, n, d, n) && Apart(pc, 12, d, n)
  }

  /** 3k steps of the program copy k blocks in order, advance both bases by their size,
      change no other byte, and come back to the load. */
  lemma {:induction false} CopyLoop(m: Machine, ld: Word, st: Word, pc: Word, k: nat, total: nat,
                                    junks: seq<Indeterminate>)
    requires CopyPair(ld, st) && InCopy(m, ld, st, pc, 0) && |junks| == 3 * k
    requires total == BlockSize(ld) * k && Areas(m, pc, m.Reg(Rn(ld)), m.Reg(Rn(st)), total)
    ensures Rn(ld) < 15 && Rn(st) < 15 && m.Reg(Rn(ld)) + total <= |m.mem|
    ensures Copied(m, Run(m, junks), Rn(ld), Rn(st), m.Reg(Rn(ld)), m.Reg(Rn(st)), total)
    ensures InCopy(Run(m, junks), ld, st, pc, 0)
    decreases k
  {
    hide Run, ReadReg, SeenPc, ModeOf, Copied, BlockSize, InCopy, CopyPair, Areas, Rn;
    PairFields(ld, st);
    var s, d, n := m.Reg(Rn(ld)), m.Reg(Rn(st)), BlockSize(ld);
    AreasFit(m, pc, s, d, total);
    if k == 0 {
      NothingCopied(m, Rn(ld), Rn(st));
      NoStep(m);
      assert junks == [];
    } else {
      var before := n * (k - 1);
      OneMore(n, k);
      PositiveSize(ld, st);
      FirstAreas(m, pc, s, d, before, n);
      SplitRun(m, junks, 3 * (k - 1));
      CopyLoop(m, ld, st, pc, k - 1, before, junks[..3 * (k - 1)]);
      CopyMore(m, Run(m, junks[..3 * (k - 1)]), ld, st, pc, before, n, junks[3 * (k - 1)..]);
    }
  }

  /** The hypotheses can be met, for every pair and every number of blocks that fits: the
      program at 0, then the source, then the destination. */
  lemma CopyPossible(ld: Word, st: Word, total: nat, be: bool) returns (m: Machine)
    requires CopyPair(ld, st) && 12 + 2 * total < 0x1_0000_0000
    ensures InCopy(m, ld, st, 0, 0) && m.Reg(Rn(ld)) == 12 && m.Reg(Rn(st)) == 12 + total
    ensures Areas(m, 0, 12, 12 + total, total) && m.bigEndian == be
  {
    hide Booted, ReadReg, WriteReg, SeenPc, AtWord, Placed, CopyPair, BackWord, Rn;
    PairFields(ld, st);
    var words := CopyProgram(ld, st);
    BootedReady(12 + 2 * total, be, words);
    var m0 := Booted(12 + 2 * total, be, words);
    SetUp(m0, 0, words, Rn(ld), 12);
    var m1 := m0.SetReg(Rn(ld), 12);
    SetUp(m1, 0, words, Rn(st), 12 + total);
    m := m1.SetReg(Rn(st), 12 + total);
  }

  lemma AreasFit(m: Machine, pc: Word, s: Word, d: Word, n: nat)
    requires Areas(m, pc, s, d, n)
    ensures s + n <= |m.mem| && d + n <= |m.mem|
  {
  }

  lemma FirstAreas(m: Machine, pc: Word, s: Word, d: Word, n: nat, more: nat)
    requires Areas(m, pc, s, d, n + more)
    ensures Areas(m, pc, s, d, n)
  {
  }

  lemma CopiedBases(m: Machine, m1: Machine, rs: nat, rd: nat, s: Word, d: Word, n: nat)
    requires rs < 15 && rd < 15 && s + n <= |m.mem| && s + n < 0x1_0000_0000 && d + n < 0x1_0000_0000
    requires Copied(m, m1, rs, rd, s, d, n)
    ensures m1.Reg(rs) == s + n && m1.Reg(rd) == d + n && |m1.mem| == |m.mem| && m1.Mode() == m.Mode()
  {
  }

  lemma NothingCopied(m: Machine, rs: nat, rd: nat)
    requires rs < 15 && rd < 15 && m.Reg(rs) <= |m.mem|
    ensures Copied(m, m, rs, rd, m.Reg(rs), m.Reg(rd), 0)
  {
    hide ReadReg;
  }

  /** One more block after the first `before` bytes. */
  lemma CopyMore(m: Machine, m1: Machine, ld: Word, st: Word, pc: Word, before: nat, n: nat,
                 junks: seq<Indeterminate>)
    requires CopyPair(ld, st) && InCopy(m1, ld, st, pc, 0) && |junks| == 3
    requires n == BlockSize(ld) > 0 && Areas(m, pc, m.Reg(Rn(ld)), m.Reg(Rn(st)), before + n)
    requires Copied(m, m1, Rn(ld), Rn(st), m.Reg(Rn(ld)), m.Reg(Rn(st)), before)
    ensures Copied(m, Run(m1, junks), Rn(ld), Rn(st), m.Reg(Rn(ld)), m.Reg(Rn(st)), before + n)
    ensures InCopy(Run(m1, junks), ld, st, pc, 0)
  {
    hide Run, ReadReg, SeenPc, TransferCount, Copied, InCopy, BlockSize, CopyPair;
    var s, d := m.Reg(Rn(ld)), m.Reg(Rn(st));
    PairFields(ld, st);
    CopiedBases(m, m1, Rn(ld), Rn(st), s, d, before);
    CopyOnce(m1, ld, st, pc, junks);
    CopiedTwice(m, m1, Run(m1, junks), Rn(ld), Rn(st), s, d, before, n);
  }

  lemma OneMore(n: nat, k: nat)
    requires k > 0
    ensures n * (k - 1) >= 0 && n * k == n * (k - 1) + n
  {
  }

  lemma PositiveSize(ld: Word, st: Word)
    requires CopyPair(ld, st)
    ensures BlockSize(ld) > 0
  {
    PositiveCount(ld);
  }

  /** A list without R15 that is not 0 has a register. */
  lemma PositiveCount(ins: Word)
    requires RegisterList(ins) != 0 && !Listed(ins, 15)
    ensures TransferCount(ins) > 0
  {
    RegistersFromExact(ins, 0);
    if TransferCount(ins) == 0 {
      forall i: nat | i < 16 ensures Bit(RegisterList(ins), i) == Bit(0, i) {
        ZeroBit(i);
        assert i < 15 ==> i !in RegistersFrom(ins, 0);
        assert i < 15 ==> !Listed(ins, i);
      }
      Pow2Values();
      SameBits(RegisterList(ins), 0, 16);
    }
  }
}
