/**
 Programs in memory: a step executes the word at the stored counter, and the
 counter goes to the next word, or back by a branch.
 */
module Programs {
  import opened Words
  import opened ArmConstants
  import opened MainMemory
  import opened MemoryMap
  import opened Core
  import opened Decode
  import opened BranchOther
  import opened Instruction
  import opened Runs
  import opened ProgramCounter

  lemma AdvancedKeeps(m: Machine)
    ensures var m1 := Advanced(m);
            && m1.mem == m.mem && m1.bigEndian == m.bigEndian && m1.Mode() == m.Mode() && m1.Cpsr() == m.Cpsr()
            && m1.regs[PC] == Plus(m.regs[PC], 4)
            && forall r: nat | r < 15 :: m1.Reg(r) == m.Reg(r)
  {
  }

  /** The step that executes w. */
  function Executing(m: Machine, w: Word, junk: Indeterminate): Outcome {
    Dispatched(Advanced(m), w, junk)
  }

  /** The words of the program stand in the memory from address pc on. */
  ghost predicate Holds(m: Machine, pc: Word, words: seq<Word>) {
    && pc % 4 == 0 && Whole(m.mem, pc, 4 * |words|)
    && forall k: nat | k < |words| :: m.Load(pc + 4 * k) == words[k]
  }

  /** The stored counter is at word i of the program. */
  ghost predicate AtWord(m: Machine, pc: Word, words: seq<Word>, i: nat) {
    Holds(m, pc, words) && i < |words| && m.regs[PC] == pc + 4 * i
  }

  /** A step at word i that succeeds is the execution of that word. */
  lemma StepExecutes(m: Machine, pc: Word, words: seq<Word>, i: nat, junk: Indeterminate)
    requires AtWord(m, pc, words, i) && Executing(m, words[i], junk).code == 0
    ensures Run(m, [junk]) == Executing(m, words[i], junk).m
  {
    hide Dispatched, WordAt, Raised;
    OneStep(m, junk);
    assert Fetched(m, junk) == (Advanced(m), words[i]);
  }

  /** A word that writes R15 in no way leaves the counter at the next word. */
  lemma NextWord(m: Machine, w: Word, junk: Indeterminate)
    requires m.regs[PC] % 4 == 0 && SparesPc(w) && Family(w) != 5
    ensures Executing(m, w, junk).m.regs[PC] == Plus(m.regs[PC], 4)
  {
    hide Dispatched, SparesPc;
    PlusAligned(m.regs[PC], 1);
    AdvancedKeeps(m);
    DispatchMovesPc(Advanced(m), w, junk);
    PlusZero(Plus(m.regs[PC], 4));
  }

  /** Writes outside the program leave it in place. */
  lemma HoldsStill(m: Machine, m': Machine, pc: Word, words: seq<Word>)
    requires Holds(m, pc, words) && |m'.mem| == |m.mem| && m'.bigEndian == m.bigEndian
    requires forall p: nat | pc <= p < pc + 4 * |words| :: m'.mem[p] == m.mem[p]
    ensures Holds(m', pc, words)
  {
    hide WordAt;
    forall k: nat | k < |words| ensures m'.Load(pc + 4 * k) == words[k] {
      assert m.Load(pc + 4 * k) == words[k];
      WordFrame(m.mem, m'.mem, pc + 4 * k, m.bigEndian);
    }
  }

  /** The memory with the words of a program stored from pc on. */
  function Placed(ram: Ram, be: bool, pc: Word, words: seq<Word>): (ram': Ram)
    requires Whole(ram, pc, 4 * |words|)
    ensures |ram'| == |ram|
  {
    if words == [] then ram
    else
      var last := |words| - 1;
      PutWord(Placed(ram, be, pc, words[..last]), pc + 4 * last, words[last], be)
  }

  /** Every program can be placed. */
  lemma {:induction false} PlacedReads(ram: Ram, be: bool, pc: Word, words: seq<Word>, k: nat)
    requires Whole(ram, pc, 4 * |words|) && k < |words|
    ensures WordAt(Placed(ram, be, pc, words), pc + 4 * k, be) == words[k]
    decreases |words|
  {
    hide PutWord, WordAt;
    var last := |words| - 1;
    var before := Placed(ram, be, pc, words[..last]);
    if k == last {
      ReadBackWord(before, pc + 4 * last, words[last], be);
    } else {
      PlacedReads(ram, be, pc, words[..last], k);
      PutWordElsewhere(before, pc + 4 * last, words[last], pc + 4 * k, be);
    }
  }

  lemma PlacedHolds(m: Machine, pc: Word, words: seq<Word>)
    requires pc % 4 == 0 && Whole(m.mem, pc, 4 * |words|)
    ensures Holds(m.(mem := Placed(m.mem, m.bigEndian, pc, words)), pc, words)
  {
    hide WordAt, Placed;
    var ram := Placed(m.mem, m.bigEndian, pc, words);
    forall k: nat | k < |words| ensures WordAt(ram, pc + 4 * k, m.bigEndian) == words[k] {
      PlacedReads(m.mem, m.bigEndian, pc, words, k);
    }
  }

  /** A User mode machine with a memory of `size` bytes and a program placed at 0. */
  function Booted(size: nat, be: bool, words: seq<Word>): Machine
    requires 4 * |words| <= size <= 0x1_0000_0000
  {
    Machine(seq(37, _ => 0)[CPSR := USR], Placed(seq(size + 3, _ => 0), be, 0, words), be, 0)
  }

  /** It is at word 0 of the program, and its registers can be set without moving it. */
  lemma BootedReady(size: nat, be: bool, words: seq<Word>)
    requires 0 < |words| && 4 * |words| <= size <= 0x1_0000_0000
    ensures AtWord(Booted(size, be, words), 0, words, 0)
    ensures Booted(size, be, words).Mode() == USR && Booted(size, be, words).bigEndian == be
    ensures Size(Booted(size, be, words).mem) == size
  {
    hide Placed, WordAt;
    var ram: Ram := seq(size + 3, _ => 0);
    var m := Machine(seq(37, _ => 0)[CPSR := USR], ram, be, 0);
    PlacedHolds(m, 0, words);
    assert m.(mem := Placed(m.mem, m.bigEndian, 0, words)) == Booted(size, be, words);
  }

  /** Setting a register of a User mode machine. */
  lemma SetUp(m: Machine, pc: Word, words: seq<Word>, r: nat, v: Word)
    requires m.Mode() == USR && r < 15 && AtWord(m, pc, words, 0)
    ensures var m1 := m.SetReg(r, v);
            && AtWord(m1, pc, words, 0) && m1.Mode() == USR && m1.mem == m.mem && m1.bigEndian == m.bigEndian
            && m1.Reg(r) == v
            && forall q: nat | q < 15 && q != r :: m1.Reg(q) == m.Reg(q)
  {
    hide WordAt;
  }

  /** The step that executes w succeeded and wrote neither the program nor R15. */
  ghost predicate PassesThrough(m: Machine, w: Word, t: Outcome, pc: Word, n: nat) {
    && SparesPc(w) && Family(w) != 5 && t.code == 0
    && |t.m.mem| == |m.mem| && t.m.bigEndian == m.bigEndian
    && forall p: nat | pc <= p < pc + 4 * n && p < |m.mem| :: t.m.mem[p] == m.mem[p]
  }

  /** From word i to word i + 1. */
  lemma StepThrough(m: Machine, pc: Word, words: seq<Word>, i: nat, junk: Indeterminate)
    requires AtWord(m, pc, words, i) && i + 1 < |words|
    requires PassesThrough(m, words[i], Executing(m, words[i], junk), pc, |words|)
    ensures Run(m, [junk]) == Executing(m, words[i], junk).m
    ensures AtWord(Run(m, [junk]), pc, words, i + 1)
  {
    hide Run, Executing, SparesPc, WordAt, Family;
    StepExecutes(m, pc, words, i, junk);
    NextWord(m, words[i], junk);
    HoldsStill(m, Run(m, [junk]), pc, words);
  }

  /** From word i, which branches n words back. */
  lemma StepBack(m: Machine, pc: Word, words: seq<Word>, i: nat, n: nat, junk: Indeterminate)
    requires 1 <= n <= i + 1 && n < 0x80_0000 && AtWord(m, pc, words, i) && words[i] == BackWord(n)
    ensures Run(m, [junk]) == WithPc(Advanced(m), pc + 4 * (i + 1 - n))
    ensures AtWord(Run(m, [junk]), pc, words, i + 1 - n)
  {
    hide Run, Executing, WordAt, BackWord;
    BackEffect(m, n, junk);
    StepExecutes(m, pc, words, i, junk);
    AdvancedKeeps(m);
    hide Advanced;
    HoldsStill(m, Run(m, [junk]), pc, words);
  }

  /** The areas of n bytes from a and of k bytes from b do not overlap. */
  predicate Apart(a: int, n: nat, b: int, k: nat) {
    a + n <= b || b + k <= a
  }

  // ----- branching back -----

  /** B to n words before the next one. */
  function BackWord(n: nat): Word
    requires 1 <= n < 0x80_0000
  {
    0xEB00_0000 - n
  }

  lemma BackWordFields(n: nat)
    requires 1 <= n < 0x80_0000
    ensures var w := BackWord(n);
            Family(w) == 5 && Cond(w) == 14 && !Bit24(w) && SignedImmediate(w) + n == 0
  {
    var w := BackWord(n);
    var low := 0x100_0000 - n;
    assert w == 0xEA * 0x100_0000 + low;
    DivUnique(w, 0x100_0000, 0xEA, low);
    DivUnique(w, 0x200_0000, 0x75, low);
    DivUnique(w, 0x1000_0000, 0xE, 0xA00_0000 + low);
  }

  /** The branch sets the counter and nothing else. */
  lemma BackEffect(m: Machine, n: nat, junk: Indeterminate)
    requires 1 <= n < 0x80_0000 && m.regs[PC] % 4 == 0
    ensures Executing(m, BackWord(n), junk) == Outcome(0, WithPc(Advanced(m), Plus(m.regs[PC], 4 - 4 * n)))
  {
    hide BackWord, Displacement, Dispatched, Branched, Plus, SignedImmediate;
    var w, m1 := BackWord(n), Advanced(m);
    BackWordFields(n);
    AdvancedKeeps(m);
    PlusAligned(m.regs[PC], 1);
    PlusPlus(m.regs[PC], 4, -4 * n);
    AlwaysTaken(m1, w, junk);
    BranchMovesPc(m1, w);
    hide Advanced, Family, Cond;
    assert Jump(m1, w) == -4 * n;
  }

  function WithPc(m: Machine, pc: Word): Machine {
    m.(regs := m.regs[PC := pc])
  }

  lemma AlwaysTaken(m: Machine, w: Word, junk: Indeterminate)
    requires Family(w) == 5 && Cond(w) == 14 && !Bit24(w)
    ensures TakesBranch(m, w) && Dispatched(m, w, junk) == Branched(m, w) && Branched(m, w).code == 0
    ensures Branched(m, w).m == WithPc(m, Branched(m, w).m.regs[PC])
  {
    hide Displacement;
  }
}
