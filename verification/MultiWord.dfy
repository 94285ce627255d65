/**
 Multi-word addition by a program in memory. For each limb, least significant
 first: LDR ra, [pa], #4; LDR rb, [pb], #4; ADDS (first limb) or ADCS rc, ra, rb;
 STR rc, [pd], #4; then a branch back to the ADCS limb. Over any number of limbs
 the memory receives the exact sum and the C flag its last carry.
 */
module MultiWord {
  import opened Words
  import opened ArmConstants
  import opened RegisterFile
  import opened MainMemory
  import opened MemoryMap
  import opened Core
  import opened Decode
  import opened DataProcessing
  import opened Instruction
  import opened Runs
  import opened ProgramCounter
  import opened Programs
  import opened Arithmetic
  import opened EncodeExecute
  import opened Stack

  /** The registers of the program: three pointers, two operands, a result. */
  datatype Plan = Plan(pa: nat, pb: nat, pd: nat, ra: nat, rb: nat, rc: nat)
  {
    predicate Valid() {
      && pa < 15 && pb < 15 && pd < 15 && ra < 15 && rb < 15 && rc < 15
      && pa != pb && pa != pd && pb != pd && ra != rb
      && pa !in {ra, rb, rc} && pb !in {ra, rb, rc} && pd !in {ra, rb, rc}
    }
  }

  // ----- the store and the addition -----

  /** STR Rd, [Rn], #4 */
  function StoreWordOf(rn: nat, rd: nat): Word
    requires rn < 16 && rd < 16
  {
    0xE480_0004 + rn * 0x1_0000 + rd * 0x1000
  }

  predicate IsStore(ins: Word, rn: nat, rd: nat) {
    WordTransfer4(ins, rn, rd) && !PreIndexed(ins) && Upwards(ins) && !WriteBack(ins) && !IsLoad(ins)
  }

  lemma StoreWordIsStore(rn: nat, rd: nat)
    requires rn < 16 && rd < 16
    ensures IsStore(StoreWordOf(rn, rd), rn, rd)
  {
    TransferFields(StoreWordOf(rn, rd), 0xE48, rn, rd);
    StoreFields(StoreWordOf(rn, rd), rn, rd);
  }

  lemma StoreFields(w: Word, rn: nat, rd: nat)
    requires HasHead(w, 0xE48, rn) && w / 0x1000 % 16 == rd && w % 0x1000 == 4
    ensures IsStore(w, rn, rd)
  {
  }

  lemma StoreEffect(m: Machine, ins: Word, rn: nat, rd: nat, junk: Indeterminate)
    requires rn < 15 && rd < 15 && IsStore(ins, rn, rd) && m.Reg(rn) + 4 <= Size(m.mem)
    ensures Dispatched(m, ins, junk)
         == Outcome(0, m.Store(m.Reg(rn), m.Reg(rd)).SetReg(rn, Plus(m.Reg(rn), 4)))
  {
    hide WordAt, PutWord, ReadReg, WriteReg, SeenPc;
    Family2(ins);
  }

  /** ADDS or ADCS rc, ra, rb */
  function AddWord(p: Plan, first: bool): Word
    requires p.Valid()
  {
    Built(if first then 4 else 5, 1, p.ra, p.rc, ByAmount(0, LSL, p.rb))
  }

  function CarryIn(m: Machine, first: bool): (c: nat)
    ensures c < 2
  {
    if !first && FlagC(m.Cpsr()) then 1 else 0
  }

  lemma AddUnfolds(m: Machine, p: Plan, first: bool, junk: Indeterminate)
    requires p.Valid()
    ensures var w := AddWord(p, first);
            && SetsFlags(w) && Rd(w) == p.rc
            && Dispatched(m, w, junk) == Operated(if first then 4 else 5, m.Reg(p.ra), m.Reg(p.rb), m, w)
  {
    var opcode, o := if first then 4 else 5, ByAmount(0, LSL, p.rb);
    hide Dispatched, Operated, ReadReg, SeenPc, Built;
    ReachesHandler(opcode, 1, p.ra, p.rc, o, m, junk);
    BuiltFields(opcode, 1, p.ra, p.rc, o);
    assert Shifted(LSL, 0, m.Reg(p.rb)) == m.Reg(p.rb);
  }

  lemma AddEffect(m: Machine, p: Plan, first: bool, junk: Indeterminate)
    requires p.Valid() && KnownMode(m.Mode())
    ensures var t := Dispatched(m, AddWord(p, first), junk);
            var sum := LimbSum(m.Reg(p.ra), m.Reg(p.rb), CarryIn(m, first));
            && t.code == 0 && t.m.mem == m.mem && t.m.bigEndian == m.bigEndian && t.m.Mode() == m.Mode()
            && t.m.Reg(p.rc) == sum % 0x1_0000_0000
            && (FlagC(t.m.Cpsr()) <==> sum >= 0x1_0000_0000)
            && (forall r: nat | r < 15 && r != p.rc :: t.m.Reg(r) == m.Reg(r))
  {
    hide Dispatched, Operated, Temp, WithFlags, ReadReg, WriteReg, AddWord, FlagC, SeenPc, Wrap64, Low32, Bit32;
    var opcode, w := if first then 4 else 5, AddWord(p, first);
    var a, b, carry := m.Reg(p.ra), m.Reg(p.rb), FlagC(m.Cpsr());
    AddUnfolds(m, p, first, junk);
    ArithmeticTemp(opcode, a, b, carry);
    FlaggedOperation(opcode, a, b, m, w, Temp(opcode, a, b, carry));
    FlagsCarry(m.Cpsr(), Temp(opcode, a, b, carry));
    OperatedRegisters(opcode, a, b, m, w);
  }

  lemma FlagsCarry(cpsr: Word, temp: Long)
    ensures FlagC(WithFlags(cpsr, temp)) <==> Bit32(temp)
  {
  }

  lemma OperatedRegisters(opcode: nat, a: Word, b: Word, m: Machine, w: Word)
    requires opcode < 16 && KnownMode(m.Mode()) && SetsFlags(w) && Rd(w) < 15
    ensures Operated(opcode, a, b, m, w).code == 0
    ensures var after := Operated(opcode, a, b, m, w).m;
            && after.mem == m.mem && after.bigEndian == m.bigEndian
            && (forall r: nat | r < 15 && r != Rd(w) :: after.Reg(r) == m.Reg(r))
  {
    var temp := Temp(opcode, a, b, FlagC(m.Cpsr()));
    var m1 := if IsCompare(opcode) then m else m.SetReg(Rd(w), Low32(temp));
    assert Operated(opcode, a, b, m, w) == Outcome(0, m1.SetCpsr(WithFlags(m1.Cpsr(), temp)));
    FlagsKeepLow(m1.Cpsr(), temp);
    hide Temp, WithFlags, FlagC, Low32, SetsFlags, Rd, Operated;
    RegistersBesides(m, Rd(w), Low32(temp), WithFlags(m1.Cpsr(), temp));
    RegistersBesides(m, Rd(w), m.Reg(Rd(w)), WithFlags(m1.Cpsr(), temp));
    SameRegister(m, Rd(w));
  }

  /** A register write and a flag write leave the other registers. */
  lemma RegistersBesides(m: Machine, rd: nat, v: Word, cpsr: Word)
    requires KnownMode(m.Mode()) && rd < 15 && cpsr % 0x1000_0000 == m.Cpsr() % 0x1000_0000
    ensures m.SetReg(rd, v).Cpsr() == m.Cpsr()
    ensures forall r: nat | r < 15 && r != rd :: m.SetReg(rd, v).SetCpsr(cpsr).Reg(r) == m.Reg(r)
  {
    ModeBelowFlags(cpsr, m.Cpsr());
    forall r: nat | r < 15 && r != rd ensures m.SetReg(rd, v).SetCpsr(cpsr).Reg(r) == m.Reg(r) {
      DistinctCells(r, rd, m.Mode());
    }
  }

  // ----- one limb -----

  /** Two register writes as a load makes them. */
  lemma LoadedRegisters(m: Machine, rd: nat, v: Word, rn: nat, next: Word)
    requires KnownMode(m.Mode()) && rd < 15 && rn < 15 && rd != rn
    ensures var m1 := m.SetReg(rd, v).SetReg(rn, next);
            && m1.Mode() == m.Mode() && m1.Cpsr() == m.Cpsr() && m1.mem == m.mem
            && m1.Reg(rd) == v && m1.Reg(rn) == next
            && forall r: nat | r < 15 && r != rd && r != rn :: m1.Reg(r) == m.Reg(r)
  {
    var m0 := m.SetReg(rd, v);
    var m1 := m0.SetReg(rn, next);
    forall r: nat | r < 15
      ensures m1.Reg(r) == if r == rn then next else if r == rd then v else m.Reg(r)
    {
      ReadAfterSet(m, rd, v, r);
      ReadAfterSet(m0, rn, next, r);
    }
    ReadAfterSet(m, rd, v, rd);
    ReadAfterSet(m0, rn, next, rn);
    CpsrStays(m, rd, v);
    CpsrStays(m0, rn, next);
    hide ReadReg, WriteReg;
  }

  lemma CpsrStays(m: Machine, r: nat, v: Word)
    requires r < 15
    ensures m.SetReg(r, v).Cpsr() == m.Cpsr()
  {
  }

  /** m1 is m after LDR Rd, [Rn], #4. */
  ghost predicate LoadedLimb(m: Machine, m1: Machine, rn: nat, rd: nat)
    requires rd < 15 && rn < 15 && m.Reg(rn) + 4 <= Size(m.mem)
  {
    && m1.Mode() == m.Mode() && m1.Cpsr() == m.Cpsr() && m1.mem == m.mem && m1.bigEndian == m.bigEndian
    && m1.Reg(rd) == m.Load(m.Reg(rn)) && m1.Reg(rn) == Plus(m.Reg(rn), 4)
    && forall r: nat | r < 15 && r != rd && r != rn :: m1.Reg(r) == m.Reg(r)
  }

  lemma LimbLoad(m: Machine, rn: nat, rd: nat, junk: Indeterminate)
    requires KnownMode(m.Mode()) && rd < 15 && rn < 15 && rd != rn && m.Reg(rn) + 4 <= Size(m.mem)
    ensures var t := Executing(m, PopWord(rn, rd), junk); t.code == 0 && LoadedLimb(m, t.m, rn, rd)
  {
    hide Dispatched, ReadReg, WriteReg, PopWord, WordAt, Plus, Advanced, SeenPc;
    var m0 := Advanced(m);
    AdvancedKeeps(m);
    PopWordIsPop(rn, rd);
    PopEffect(m0, PopWord(rn, rd), rn, rd, junk);
    LoadedRegisters(m0, rd, m.Load(m.Reg(rn)), rn, Plus(m.Reg(rn), 4));
  }

  /** m1 is m after ADDS or ADCS. */
  ghost predicate AddedLimb(m: Machine, m1: Machine, p: Plan, first: bool)
    requires p.Valid()
  {
    var sum := LimbSum(m.Reg(p.ra), m.Reg(p.rb), CarryIn(m, first));
    && m1.mem == m.mem && m1.bigEndian == m.bigEndian && m1.Mode() == m.Mode()
    && m1.Reg(p.rc) == sum % 0x1_0000_0000
    && (FlagC(m1.Cpsr()) <==> sum >= 0x1_0000_0000)
    && forall r: nat | r < 15 && r != p.rc :: m1.Reg(r) == m.Reg(r)
  }

  lemma LimbAdd(m: Machine, p: Plan, first: bool, junk: Indeterminate)
    requires p.Valid() && KnownMode(m.Mode())
    ensures var t := Executing(m, AddWord(p, first), junk); t.code == 0 && AddedLimb(m, t.m, p, first)
  {
    hide Dispatched, ReadReg, AddWord, FlagC, Advanced, SeenPc, LimbSum;
    AdvancedKeeps(m);
    AddEffect(Advanced(m), p, first, junk);
  }

  /** m1 is m after STR Rd, [Rn], #4. */
  ghost predicate StoredLimb(m: Machine, m1: Machine, rn: nat, rd: nat)
    requires rd < 15 && rn < 15 && m.Reg(rn) + 4 <= Size(m.mem)
  {
    && m1.Mode() == m.Mode() && m1.Cpsr() == m.Cpsr() && m1.bigEndian == m.bigEndian
    && m1.mem == PutWord(m.mem, m.Reg(rn), m.Reg(rd), m.bigEndian)
    && m1.Reg(rn) == Plus(m.Reg(rn), 4)
    && forall r: nat | r < 15 && r != rn :: m1.Reg(r) == m.Reg(r)
  }

  lemma LimbStore(m: Machine, rn: nat, rd: nat, junk: Indeterminate)
    requires KnownMode(m.Mode()) && rd < 15 && rn < 15 && rd != rn && m.Reg(rn) + 4 <= Size(m.mem)
    ensures var t := Executing(m, StoreWordOf(rn, rd), junk); t.code == 0 && StoredLimb(m, t.m, rn, rd)
  {
    hide Dispatched, ReadReg, WriteReg, StoreWordOf, PutWord, Plus, Advanced, SeenPc;
    var m0 := Advanced(m);
    AdvancedKeeps(m);
    StoreWordIsStore(rn, rd);
    StoreEffect(m0, StoreWordOf(rn, rd), rn, rd, junk);
    var m1 := m0.Store(m.Reg(rn), m.Reg(rd));
    SameRegister(m1, rd);
    LoadedRegisters(m1, rd, m1.Reg(rd), rn, Plus(m.Reg(rn), 4));
  }

  lemma SameRegister(m: Machine, rd: nat)
    requires KnownMode(m.Mode()) && rd < 15
    ensures m.SetReg(rd, m.Reg(rd)) == m
  {
    var c := Cell(rd, m.Mode()).value;
    assert m.regs[c := m.regs[c]] == m.regs;
  }

  // ----- the program -----

  /** The first limb in four words, and a loop of five for the others. */
  function AddProgram(p: Plan): seq<Word>
    requires p.Valid()
  {
    [PopWord(p.pa, p.ra), PopWord(p.pb, p.rb), AddWord(p, true), StoreWordOf(p.pd, p.rc),
     PopWord(p.pa, p.ra), PopWord(p.pb, p.rb), AddWord(p, false), StoreWordOf(p.pd, p.rc), BackWord(5)]
  }

  function LimbStart(first: bool): nat {
    if first then 0 else 4
  }

  /** The machine is at the first or at the repeated limb of the program. */
  ghost predicate AtLimb(m: Machine, p: Plan, pc: Word, first: bool)
    requires p.Valid()
  {
    AtWord(m, pc, AddProgram(p), LimbStart(first)) && KnownMode(m.Mode())
  }

  lemma TransferSpares(rn: nat, rd: nat)
    requires rn < 15 && rd < 15
    ensures SparesPc(PopWord(rn, rd)) && Family(PopWord(rn, rd)) == 2
    ensures SparesPc(StoreWordOf(rn, rd)) && Family(StoreWordOf(rn, rd)) == 2
  {
    PopWordIsPop(rn, rd);
    StoreWordIsStore(rn, rd);
    hide PopWord, StoreWordOf;
  }

  lemma AddSpares(p: Plan, first: bool)
    requires p.Valid()
    ensures SparesPc(AddWord(p, first)) && Family(AddWord(p, first)) == 0
  {
    var o := ByAmount(0, LSL, p.rb);
    BuiltFields(if first then 4 else 5, 1, p.ra, p.rc, o);
    OperandDecoded(o, AddWord(p, first));
    hide Built;
  }

  lemma NineWords(p: Plan)
    requires p.Valid()
    ensures |AddProgram(p)| == 9
  {
  }

  predicate Pointers(m: Machine, p: Plan, a: Word, b: Word, d: Word)
    requires p.Valid()
  {
    m.Reg(p.pa) == a && m.Reg(p.pb) == b && m.Reg(p.pd) == d
  }

  /** The exact sum of two words and the carry in. */
  function LimbSum(x: Word, y: Word, c: nat): (sum: int)
    requires c < 2
    ensures 0 <= sum < 0x2_0000_0000
  {
    x as int + y as int + c
  }

  /** The sum that the limb at a and b makes with the carry in. */
  predicate SumAt(m: Machine, a: Word, b: Word, c: nat, sum: int) {
    m.Reaches(a) && m.Reaches(b) && c < 2 && sum == LimbSum(m.Load(a), m.Load(b), c)
  }

  /** m' is m after one limb: sum stored at d, carry out. */
  ghost predicate LimbDone(m: Machine, m': Machine, sum: int, d: Word) {
    && m.Reaches(d) && m'.Mode() == m.Mode() && m'.bigEndian == m.bigEndian
    && m'.mem == PutWord(m.mem, d, sum % 0x1_0000_0000, m.bigEndian)
    && (FlagC(m'.Cpsr()) <==> sum >= 0x1_0000_0000)
  }

  lemma LoadStep(m: Machine, p: Plan, pc: Word, i: nat, rn: nat, rd: nat, junk: Indeterminate)
    requires p.Valid() && KnownMode(m.Mode()) && rd < 15 && rn < 15 && rd != rn && m.Reg(rn) + 4 <= Size(m.mem)
    requires AtWord(m, pc, AddProgram(p), i) && i < 8 && AddProgram(p)[i] == PopWord(rn, rd)
    ensures LoadedLimb(m, Run(m, [junk]), rn, rd) && AtWord(Run(m, [junk]), pc, AddProgram(p), i + 1)
  {
    hide Run, Executing, ReadReg, SeenPc, WordAt, AddProgram, PopWord, StoreWordOf, SparesPc, Family, Holds;
    LimbLoad(m, rn, rd, junk);
    TransferSpares(rn, rd);
    NineWords(p);
    StepThrough(m, pc, AddProgram(p), i, junk);
  }

  lemma AddStep(m: Machine, p: Plan, pc: Word, i: nat, first: bool, junk: Indeterminate)
    requires p.Valid() && KnownMode(m.Mode())
    requires AtWord(m, pc, AddProgram(p), i) && i < 8 && AddProgram(p)[i] == AddWord(p, first)
    ensures AddedLimb(m, Run(m, [junk]), p, first) && AtWord(Run(m, [junk]), pc, AddProgram(p), i + 1)
  {
    hide Run, Executing, ReadReg, AddProgram, AddWord, SparesPc, Family;
    LimbAdd(m, p, first, junk);
    AddSpares(p, first);
    NineWords(p);
    StepThrough(m, pc, AddProgram(p), i, junk);
  }

  lemma StoreStep(m: Machine, p: Plan, pc: Word, i: nat, rn: nat, rd: nat, junk: Indeterminate)
    requires p.Valid() && KnownMode(m.Mode()) && rd < 15 && rn < 15 && rd != rn
    requires Whole(m.mem, m.Reg(rn), 4) && Apart(pc, 36, m.Reg(rn), 4)
    requires AtWord(m, pc, AddProgram(p), i) && i < 8 && AddProgram(p)[i] == StoreWordOf(rn, rd)
    ensures StoredLimb(m, Run(m, [junk]), rn, rd) && AtWord(Run(m, [junk]), pc, AddProgram(p), i + 1)
  {
    hide Run, Executing, ReadReg, SeenPc, AddProgram, PopWord, StoreWordOf, SparesPc, Family, PutWord;
    LimbStore(m, rn, rd, junk);
    TransferSpares(rn, rd);
    PutWordFrame(m.mem, m.Reg(rn), m.Reg(rd), m.bigEndian);
    NineWords(p);
    StepThrough(m, pc, AddProgram(p), i, junk);
  }

  /** The four words of a limb: the sum, the memory, and the pointers. */
  lemma LimbEffect(m: Machine, p: Plan, pc: Word, first: bool, a: Word, b: Word, d: Word, junks: seq<Indeterminate>)
    returns (sum: int)
    requires p.Valid() && AtLimb(m, p, pc, first) && Pointers(m, p, a, b, d) && |junks| == 4
    requires Whole(m.mem, a, 4) && Whole(m.mem, b, 4) && Whole(m.mem, d, 4) && Apart(pc, 36, d, 4)
    ensures SumAt(m, a, b, CarryIn(m, first), sum)
    ensures LimbDone(m, Run(m, junks), sum, d)
    ensures Pointers(Run(m, junks), p, Plus(a, 4), Plus(b, 4), Plus(d, 4))
    ensures AtWord(Run(m, junks), pc, AddProgram(p), LimbStart(first) + 4)
  {
    hide Run, ReadReg, WordAt, PutWord, Plus, FlagC, SeenPc, LimbSum, Holds, ModeOf;
    hide PopWord, StoreWordOf, AddWord, BackWord;
    sum := LimbSum(m.Load(a), m.Load(b), CarryIn(m, first));
    var i := LimbStart(first);
    var m1 := Run(m, [junks[0]]);
    var m2 := Run(m1, [junks[1]]);
    var m3 := Run(m2, [junks[2]]);
    RunFour(m, junks);
    LoadStep(m, p, pc, i, p.pa, p.ra, junks[0]);
    LoadStep(m1, p, pc, i + 1, p.pb, p.rb, junks[1]);
    AddStep(m2, p, pc, i + 2, first, junks[2]);
    StoreStep(m3, p, pc, i + 3, p.pd, p.rc, junks[3]);
  }

  lemma RunFour(m: Machine, junks: seq<Indeterminate>)
    requires |junks| == 4
    ensures Run(m, junks) == Run(Run(Run(Run(m, [junks[0]]), [junks[1]]), [junks[2]]), [junks[3]])
  {
    hide Run;
    assert junks == [junks[0]] + ([junks[1]] + ([junks[2]] + [junks[3]]));
    RunConcat(m, [junks[0]], [junks[1]] + ([junks[2]] + [junks[3]]));
    var m1 := Run(m, [junks[0]]);
    RunConcat(m1, [junks[1]], [junks[2]] + [junks[3]]);
    RunConcat(Run(m1, [junks[1]]), [junks[2]], [junks[3]]);
  }

  /** Steps of a limb: a repeated one ends with the branch. */
  function LimbSteps(first: bool): nat {
    if first then 4 else 5
  }

  /** A limb and, for a repeated one, the branch: the machine is at the repeated limb. */
  lemma OneLimb(m: Machine, p: Plan, pc: Word, first: bool, a: Word, b: Word, d: Word, junks: seq<Indeterminate>)
    returns (sum: int)
    requires p.Valid() && AtLimb(m, p, pc, first) && Pointers(m, p, a, b, d) && |junks| == LimbSteps(first)
    requires Whole(m.mem, a, 4) && Whole(m.mem, b, 4) && Whole(m.mem, d, 4) && Apart(pc, 36, d, 4)
    ensures SumAt(m, a, b, CarryIn(m, first), sum)
    ensures LimbDone(m, Run(m, junks), sum, d)
    ensures Pointers(Run(m, junks), p, Plus(a, 4), Plus(b, 4), Plus(d, 4))
    ensures AtLimb(Run(m, junks), p, pc, false)
  {
    hide Run, ReadReg, WordAt, PutWord, Plus, FlagC, SeenPc, SumAt, Holds, ModeOf;
    hide PopWord, StoreWordOf, AddWord, BackWord;
    sum := LimbEffect(m, p, pc, first, a, b, d, junks[..4]);
    if first {
      assert junks[..4] == junks;
    } else {
      var m4 := Run(m, junks[..4]);
      SplitRun(m, junks, 4);
      assert junks[4..] == [junks[4]];
      StepBack(m4, pc, AddProgram(p), 8, 5, junks[4]);
      AdvancedKeeps(m4);
      PcOnly(Advanced(m4), pc + 16);
    }
  }

  lemma PcOnly(m: Machine, pc: Word)
    ensures var m1 := WithPc(m, pc);
            && m1.mem == m.mem && m1.bigEndian == m.bigEndian && m1.Mode() == m.Mode() && m1.Cpsr() == m.Cpsr()
            && forall r: nat | r < 15 :: m1.Reg(r) == m.Reg(r)
  {
  }

  // ----- any number of limbs -----

  /** The number stored as n words from address a, least significant word first. */
  function Limbs(ram: Ram, be: bool, a: int, n: nat): nat
    requires Whole(ram, a, 4 * n)
    decreases n
  {
    if n == 0 then 0 else WordAt(ram, a, be) + 0x1_0000_0000 * Limbs(ram, be, a + 4, n - 1)
  }

  /** 2^(32n). */
  function Radix(n: nat): nat {
    if n == 0 then 1 else 0x1_0000_0000 * Radix(n - 1)
  }

  /** Steps of the program for n limbs. */
  function StepCount(n: nat, first: bool): nat {
    if n == 0 then 0 else LimbSteps(first) + 5 * (n - 1)
  }

  /** Storing limbs upwards from d never reaches a limb of a source that is still to be
      read: the areas are disjoint, or the destination does not start above the source. */
  predicate Behind(d: int, a: int, n: nat) {
    d <= a || a + 4 * n <= d
  }

  lemma {:induction false} LimbsKept(ram: Ram, ram': Ram, be: bool, a: int, n: nat)
    requires Whole(ram, a, 4 * n) && |ram'| == |ram|
    requires forall p | a <= p < a + 4 * n :: ram'[p] == ram[p]
    ensures Limbs(ram', be, a, n) == Limbs(ram, be, a, n)
    decreases n
  {
    hide WordAt;
    if n > 0 {
      WordFrame(ram, ram', a, be);
      LimbsKept(ram, ram', be, a + 4, n - 1);
    }
  }

  lemma LimbsAfterStore(ram: Ram, be: bool, d: Word, v: Word, a: int, n: nat)
    requires n > 0 && Whole(ram, a, 4 * n) && Whole(ram, d, 4) && Behind(d, a, n)
    ensures Limbs(PutWord(ram, d, v, be), be, a + 4, n - 1) == Limbs(ram, be, a + 4, n - 1)
  {
    hide PutWord, Limbs;
    PutWordFrame(ram, d, v, be);
    LimbsKept(ram, PutWord(ram, d, v, be), be, a + 4, n - 1);
  }

  ghost predicate OnlyArea(ram: Ram, ram': Ram, d: int, n: nat) {
    |ram'| == |ram| && forall q: nat | q < |ram| && !(d <= q < d + 4 * n) :: ram'[q] == ram[q]
  }

  predicate Areas(ram: Ram, a: int, b: int, d: int, n: nat) {
    Whole(ram, a, 4 * n) && Whole(ram, b, 4 * n) && Whole(ram, d, 4 * n) && Behind(d, a, n) && Behind(d, b, n)
  }

  /** What a run of n limbs leaves: nothing moved outside the destination, and the number
      stored there plus the final carry times 2^(32n) is the sum of the two numbers and the
      carry in. */
  ghost predicate AddedExactly(m: Machine, m': Machine, n: nat, a: int, b: int, d: int, carry: nat) {
    && Areas(m.mem, a, b, d, n) && OnlyArea(m.mem, m'.mem, d, n)
    && Limbs(m'.mem, m.bigEndian, d, n) + (if FlagC(m'.Cpsr()) then Radix(n) else 0)
       == Limbs(m.mem, m.bigEndian, a, n) + Limbs(m.mem, m.bigEndian, b, n) + carry
  }

  /** The exact sum, for every number of limbs: running the program in memory from its first
      word (or, with a carry in, from its loop). */
  lemma {:induction false} AdditionIsExact(m: Machine, p: Plan, pc: Word, n: nat, first: bool,
                                            a: Word, b: Word, d: Word, junks: seq<Indeterminate>)
    requires p.Valid() && AtLimb(m, p, pc, first) && (first ==> n > 0) && |junks| == StepCount(n, first)
    requires n > 0 ==> Pointers(m, p, a, b, d)
    requires Areas(m.mem, a, b, d, n) && Apart(pc, 36, d, 4 * n)
    ensures AddedExactly(m, Run(m, junks), n, a, b, d, CarryIn(m, first))
    ensures AtLimb(Run(m, junks), p, pc, false)
    decreases n
  {
    hide Run, ReadReg, SeenPc, AddedExactly, LimbDone, Plus, Pointers, SumAt, CarryIn, WordAt, AtLimb;
    if n == 0 {
      NothingAdded(m, a, b, d);
      assert junks == [];
      NoStep(m);
    } else {
      var k := LimbSteps(first);
      var m1, rest := Run(m, junks[..k]), junks[k..];
      SplitRun(m, junks, k);
      var sum := OneLimb(m, p, pc, first, a, b, d, junks[..k]);
      LimbKeepsShape(m, m1, sum, d);
      if n == 1 {
        NothingAdded(m1, a + 4, b + 4, d + 4);
        assert rest == [];
        NoStep(m1);
      } else {
        NextPointers(a, b, d);
        AdditionIsExact(m1, p, pc, n - 1, false, a + 4, b + 4, d + 4, rest);
      }
      AddInFront(m, m1, Run(m, junks), n, a, b, d, CarryIn(m, first), sum);
    }
  }

  /** The hypotheses can be met, for every plan and every number of limbs that fits: the
      program at 0, then the two numbers and the room for their sum. */
  lemma AdditionPossible(p: Plan, n: nat, be: bool) returns (m: Machine)
    requires p.Valid() && n > 0 && 36 + 12 * n < 0x1_0000_0000
    ensures AtLimb(m, p, 0, true) && m.bigEndian == be
    ensures Pointers(m, p, 36, 36 + 4 * n, 36 + 8 * n)
    ensures Areas(m.mem, 36, 36 + 4 * n, 36 + 8 * n, n) && Apart(0, 36, 36 + 8 * n, 4 * n)
  {
    hide AddProgram, Booted, ReadReg, WriteReg, SeenPc, AtWord, Placed;
    NineWords(p);
    var words := AddProgram(p);
    BootedReady(36 + 12 * n, be, words);
    var m0 := Booted(36 + 12 * n, be, words);
    SetUp(m0, 0, words, p.pa, 36);
    var m1 := m0.SetReg(p.pa, 36);
    SetUp(m1, 0, words, p.pb, 36 + 4 * n);
    var m2 := m1.SetReg(p.pb, 36 + 4 * n);
    SetUp(m2, 0, words, p.pd, 36 + 8 * n);
    m := m2.SetReg(p.pd, 36 + 8 * n);
  }

  lemma LimbKeepsShape(m: Machine, m1: Machine, sum: int, d: Word)
    requires LimbDone(m, m1, sum, d)
    ensures |m1.mem| == |m.mem| && m1.Mode() == m.Mode()
  {
  }

  lemma NothingAdded(m: Machine, a: int, b: int, d: int)
    requires Areas(m.mem, a, b, d, 0)
    ensures AddedExactly(m, m, 0, a, b, d, CarryIn(m, false))
  {
  }

  /** One limb, then an exact addition of the others, is an exact addition. */
  lemma AddInFront(m: Machine, m1: Machine, m': Machine, n: nat, a: Word, b: Word, d: Word, c: nat, sum: int)
    requires n > 0 && Areas(m.mem, a, b, d, n) && SumAt(m, a, b, c, sum) && LimbDone(m, m1, sum, d)
    requires AddedExactly(m1, m', n - 1, a + 4, b + 4, d + 4, CarryIn(m1, false))
    ensures AddedExactly(m, m', n, a, b, d, c)
  {
    hide WordAt, PutWord, FlagC, LimbSum, OnlyArea;
    var be, low := m.bigEndian, sum % 0x1_0000_0000;
    var a1, b1 := Limbs(m.mem, be, a + 4, n - 1), Limbs(m.mem, be, b + 4, n - 1);
    assert Limbs(m.mem, be, a, n) == m.Load(a) + 0x1_0000_0000 * a1;
    assert Limbs(m.mem, be, b, n) == m.Load(b) + 0x1_0000_0000 * b1;
    FirstLimb(m.mem, m1.mem, m'.mem, be, d, n, low);
    SameLength(m.mem, m'.mem, d, n);
    var d1 := Limbs(m'.mem, be, d + 4, n - 1);
    assert Limbs(m'.mem, be, d, n) == low + 0x1_0000_0000 * d1;
    hide Limbs;
    LimbsAfterStore(m.mem, be, d, low, a, n);
    LimbsAfterStore(m.mem, be, d, low, b, n);
    var carry := if FlagC(m'.Cpsr()) then Radix(n - 1) else 0;
    assert d1 + carry == a1 + b1 + CarryIn(m1, false);
    CarryAcross(sum, m.Load(a), m.Load(b), c, a1, b1, d1, carry);
  }

  lemma SameLength(ram: Ram, ram': Ram, d: int, n: nat)
    requires OnlyArea(ram, ram', d, n)
    ensures |ram'| == |ram|
  {
  }

  /** One limb in front of an exact addition. */
  lemma CarryAcross(sum: int, x: Word, y: Word, c: nat, a1: int, b1: int, d1: int, carry: int)
    requires c < 2 && sum == LimbSum(x, y, c)
    requires d1 + carry == a1 + b1 + if sum >= 0x1_0000_0000 then 1 else 0
    ensures sum % 0x1_0000_0000 + 0x1_0000_0000 * d1 + 0x1_0000_0000 * carry
         == x + 0x1_0000_0000 * a1 + (y + 0x1_0000_0000 * b1) + c
  {
  }

  lemma NextPointers(a: Word, b: Word, d: Word)
    ensures a + 4 < 0x1_0000_0000 ==> Plus(a, 4) == a + 4
    ensures b + 4 < 0x1_0000_0000 ==> Plus(b, 4) == b + 4
    ensures d + 4 < 0x1_0000_0000 ==> Plus(d, 4) == d + 4
  {
  }

  /** The first limb stays what the first step stored. */
  lemma FirstLimb(ram: Ram, ram1: Ram, ram': Ram, be: bool, d: Word, n: nat, v: Word)
    requires n > 0 && Whole(ram, d, 4 * n) && ram1 == PutWord(ram, d, v, be)
    requires OnlyArea(ram1, ram', d + 4, n - 1)
    ensures WordAt(ram', d, be) == v && OnlyArea(ram, ram', d, n)
  {
    hide PutWord, WordAt;
    ReadBackWord(ram, d, v, be);
    PutWordFrame(ram, d, v, be);
    WordFrame(ram1, ram', d, be);
  }
}
