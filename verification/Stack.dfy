/**
 The stack discipline: STR Rd, [Rn, #-4]! and LDR Rd, [Rn], #4, in any order
 that stays inside a reserved area, refine a machine that has registers and an
 abstract LIFO sequence.
 */
module Stack {
  import opened Words
  import opened ArmConstants
  import opened RegisterFile
  import opened MainMemory
  import opened MemoryMap
  import opened Core
  import opened Decode
  import opened Instruction
  import opened Runs
  import opened ProgramCounter
  import opened Programs

  // ----- the two instructions -----

  /** An unconditional word transfer with immediate offset 4. */
  predicate WordTransfer4(ins: Word, rn: nat, rd: nat) {
    Family(ins) == 2 && Cond(ins) == 14 && !ByteOrS(ins) && Rn(ins) == rn && Rd(ins) == rd && Offset12(ins) == 4
  }

  /** STR Rd, [Rn, #-4]! */
  predicate IsPush(ins: Word, rn: nat, rd: nat) {
    WordTransfer4(ins, rn, rd) && PreIndexed(ins) && !Upwards(ins) && WriteBack(ins) && !IsLoad(ins)
  }

  /** LDR Rd, [Rn], #4 */
  predicate IsPop(ins: Word, rn: nat, rd: nat) {
    WordTransfer4(ins, rn, rd) && !PreIndexed(ins) && Upwards(ins) && !WriteBack(ins) && IsLoad(ins)
  }

  function PushWord(rn: nat, rd: nat): Word
    requires rn < 16 && rd < 16
  {
    0xE520_0004 + rn * 0x1_0000 + rd * 0x1000
  }

  function PopWord(rn: nat, rd: nat): Word
    requires rn < 16 && rd < 16
  {
    0xE490_0004 + rn * 0x1_0000 + rd * 0x1000
  }

  lemma PushWordIsPush(rn: nat, rd: nat)
    requires rn < 16 && rd < 16
    ensures IsPush(PushWord(rn, rd), rn, rd)
  {
    TransferFields(PushWord(rn, rd), 0xE52, rn, rd);
    PushFields(PushWord(rn, rd), rn, rd);
  }

  lemma PushFields(w: Word, rn: nat, rd: nat)
    requires HasHead(w, 0xE52, rn) && w / 0x1000 % 16 == rd && w % 0x1000 == 4
    ensures IsPush(w, rn, rd)
  {
  }

  lemma PopWordIsPop(rn: nat, rd: nat)
    requires rn < 16 && rd < 16
    ensures IsPop(PopWord(rn, rd), rn, rd)
  {
    TransferFields(PopWord(rn, rd), 0xE49, rn, rd);
    PopFields(PopWord(rn, rd), rn, rd);
  }

  lemma PopFields(w: Word, rn: nat, rd: nat)
    requires HasHead(w, 0xE49, rn) && w / 0x1000 % 16 == rd && w % 0x1000 == 4
    ensures IsPop(w, rn, rd)
  {
  }

  lemma TransferFields(w: Word, head: nat, rn: nat, rd: nat)
    requires rn < 16 && rd < 16 && w == head * 0x10_0000 + rn * 0x1_0000 + rd * 0x1000 + 4
    ensures HasHead(w, head, rn) && w / 0x1000 % 16 == rd && w % 0x1000 == 4
  {
    HeadFields(w, head, rn, rd * 0x1000 + 4);
    DivUnique(w, 0x1000, head * 256 + rn * 16 + rd, 4);
    DivUnique(head * 256 + rn * 16 + rd, 16, head * 16 + rn, rd);
  }

  lemma Family2(ins: Word)
    requires Family(ins) == 2
    ensures ins / 0x400_0000 % 4 == 1 && !Bit25(ins)
  {
    DivTwice(ins, 0x200_0000, 2);
    var h := ins / 0x200_0000;
    assert h == 8 * (h / 8) + 2;
    assert h / 2 == 4 * (h / 8) + 1;
  }

  lemma PushEffect(m: Machine, ins: Word, rn: nat, rd: nat, junk: Indeterminate)
    requires rn < 15 && rd < 16 && IsPush(ins, rn, rd) && m.Reg(rn) >= 4 && m.Reg(rn) <= Size(m.mem)
    ensures var m1 := m.SetReg(rn, m.Reg(rn) - 4);
            && m1.Reaches(m.Reg(rn) - 4)
            && Dispatched(m, ins, junk) == Outcome(0, m1.Store(m.Reg(rn) - 4, m1.Reg(rd)))
  {
    hide WordAt, PutWord, ReadReg, WriteReg, SeenPc;
    Family2(ins);
  }

  lemma PopEffect(m: Machine, ins: Word, rn: nat, rd: nat, junk: Indeterminate)
    requires rn < 15 && rd < 16 && IsPop(ins, rn, rd) && m.Reg(rn) + 4 <= Size(m.mem)
    ensures Dispatched(m, ins, junk)
         == Outcome(0, m.SetReg(rd, m.Load(m.Reg(rn))).SetReg(rn, Plus(m.Reg(rn), 4)))
  {
    hide WordAt, PutWord, ReadReg, WriteReg, SeenPc;
    Family2(ins);
  }

  // ----- the abstract machine -----

  /** A step of the program: push, pop, or any other write to a register. */
  datatype StackOp = Push(rd: nat) | Pop(rd: nat) | Assign(rd: nat, v: Word)

  /** Registers R0-R15 and a sequence whose last element is the top. */
  datatype Lifo = Lifo(regs: seq<Word>, stack: seq<Word>)
  {
    predicate Legal(op: StackOp, rn: nat, cap: nat) {
      && op.rd < 16 && op.rd != rn && |regs| == 16
      && (op.Push? ==> |stack| < cap) && (op.Pop? ==> stack != [])
    }

    /** The value that a store of the register sees. */
    function Seen(rd: nat): Word
      requires rd < |regs|
    {
      if rd == PC then SeenPc(regs[rd]) else regs[rd]
    }

    function Step(op: StackOp): (a: Lifo)
      requires op.rd < |regs|
      ensures |a.regs| == |regs|
    {
      match op
      case Push(rd) => Lifo(regs, stack + [Seen(rd)])
      case Pop(rd) =>
        if stack == [] then this else Lifo(regs[rd := stack[|stack| - 1]], stack[..|stack| - 1])
      case Assign(rd, v) => Lifo(regs[rd := v], stack)
    }
  }

  /** The concrete step: the instruction word of a push or a pop, or the register write. */
  function OpStep(m: Machine, op: StackOp, rn: nat, junk: Indeterminate): Outcome
    requires rn < 16 && op.rd < 16
  {
    match op
    case Push(rd) => Dispatched(m, PushWord(rn, rd), junk)
    case Pop(rd) => Dispatched(m, PopWord(rn, rd), junk)
    case Assign(rd, v) => Outcome(0, m.SetReg(rd, v))
  }

  // ----- the refinement relation -----

  /** The area [base - 4 * cap, base) is reserved in the memory. */
  predicate Reserved(m: Machine, base: Word, cap: nat) {
    4 * cap <= base <= Size(m.mem)
  }

  ghost predicate SameRegisters(m: Machine, a: Lifo, rn: nat) {
    |a.regs| == 16 && forall r: nat | r < 16 && r != rn :: ReadReg(m.regs, r, m.Mode()) == a.regs[r]
  }

  ghost predicate Contents(ram: Ram, be: bool, stack: seq<Word>, base: Word)
    requires 4 * |stack| <= base <= Size(ram)
  {
    forall i: nat | i < |stack| :: WordAt(ram, base - 4 * (i + 1), be) == stack[i]
  }

  ghost predicate OutsideKept(ram0: Ram, ram: Ram, low: int, base: Word) {
    |ram| == |ram0| && forall p: nat | p < |ram0| && !(low <= p < base) :: ram[p] == ram0[p]
  }

  /** m, reached from m0, represents a: Rn is the base minus four bytes per element, the
      words below the base are the elements, and no byte outside the area moved. */
  ghost predicate Represents(m0: Machine, m: Machine, a: Lifo, rn: nat, base: Word, cap: nat)
    requires rn < 15 && Reserved(m0, base, cap)
  {
    && m.Mode() == m0.Mode() && m.bigEndian == m0.bigEndian
    && |m.mem| == |m0.mem| && |a.stack| <= cap
    && OutsideKept(m0.mem, m.mem, base - 4 * cap, base)
    && m.Reg(rn) == base - 4 * |a.stack|
    && SameRegisters(m, a, rn)
    && Contents(m.mem, m.bigEndian, a.stack, base)
  }

  // ----- register steps -----

  lemma AssignKeeps(m: Machine, a: Lifo, rn: nat, rd: nat, v: Word)
    requires KnownMode(m.Mode()) && rn < 15 && rd < 16 && rd != rn && SameRegisters(m, a, rn)
    ensures SameRegisters(m.SetReg(rd, v), a.(regs := a.regs[rd := v]), rn)
    ensures m.SetReg(rd, v).Reg(rn) == m.Reg(rn) && m.SetReg(rd, v).Mode() == m.Mode()
  {
    forall r: nat | r < 16
      ensures ReadReg(m.SetReg(rd, v).regs, r, m.Mode()) == if r == rd then v else ReadReg(m.regs, r, m.Mode())
    {
      ReadAfterSet(m, rd, v, r);
    }
    ReadAfterSet(m, rd, v, rn);
    hide ReadReg, WriteReg;
  }

  lemma BaseKeeps(m: Machine, a: Lifo, rn: nat, v: Word)
    requires KnownMode(m.Mode()) && rn < 15 && SameRegisters(m, a, rn)
    ensures SameRegisters(m.SetReg(rn, v), a, rn)
    ensures m.SetReg(rn, v).Reg(rn) == v && m.SetReg(rn, v).Mode() == m.Mode()
  {
    forall r: nat | r < 16
      ensures ReadReg(m.SetReg(rn, v).regs, r, m.Mode()) == if r == rn then v else ReadReg(m.regs, r, m.Mode())
    {
      ReadAfterSet(m, rn, v, r);
    }
    hide ReadReg, WriteReg;
  }

  // ----- memory steps -----

  lemma PushContents(ram: Ram, be: bool, stack: seq<Word>, base: Word, v: Word)
    requires 4 * (|stack| + 1) <= base <= Size(ram) && Contents(ram, be, stack, base)
    ensures Contents(PutWord(ram, base - 4 * (|stack| + 1), v, be), be, stack + [v], base)
  {
    hide WordAt, PutWord;
    var a := base - 4 * (|stack| + 1);
    forall i: nat | i < |stack| + 1
      ensures WordAt(PutWord(ram, a, v, be), base - 4 * (i + 1), be) == (stack + [v])[i]
    {
      if i < |stack| {
        PutWordElsewhere(ram, a, v, base - 4 * (i + 1), be);
      } else {
        ReadBackWord(ram, a, v, be);
      }
    }
  }

  lemma PushOutside(ram0: Ram, ram: Ram, low: int, base: Word, a: Word, v: Word, be: bool)
    requires OutsideKept(ram0, ram, low, base) && low <= a && a + 4 <= base <= Size(ram)
    ensures OutsideKept(ram0, PutWord(ram, a, v, be), low, base)
  {
    hide PutWord;
    PutWordFrame(ram, a, v, be);
  }

  // ----- the refinement -----

  lemma PushRefines(m0: Machine, m: Machine, a: Lifo, rn: nat, base: Word, cap: nat, rd: nat, junk: Indeterminate)
    requires rn < 15 && Reserved(m0, base, cap) && KnownMode(m0.Mode())
    requires Represents(m0, m, a, rn, base, cap) && a.Legal(Push(rd), rn, cap)
    ensures OpStep(m, Push(rd), rn, junk).code == 0
    ensures Represents(m0, OpStep(m, Push(rd), rn, junk).m, a.Step(Push(rd)), rn, base, cap)
  {
    hide Dispatched, ReadReg, WriteReg, PutWord, WordAt, PushWord, Contents, OutsideKept, SameRegisters;
    var b := m.Reg(rn);
    var m1 := m.SetReg(rn, b - 4);
    PushWordIsPush(rn, rd);
    PushEffect(m, PushWord(rn, rd), rn, rd, junk);
    BaseKeeps(m, a, rn, b - 4);
    PushedValue(m1, a, rn, rd);
    PushContents(m.mem, m.bigEndian, a.stack, base, a.Seen(rd));
    PushOutside(m0.mem, m.mem, base - 4 * cap, base, b - 4, a.Seen(rd), m.bigEndian);
    RegistersOnly(m1, m1.Store(b - 4, a.Seen(rd)), a, a.Step(Push(rd)), rn);
  }

  lemma PushedValue(m: Machine, a: Lifo, rn: nat, rd: nat)
    requires SameRegisters(m, a, rn) && rd < 16 && rd != rn && KnownMode(m.Mode())
    ensures m.Reg(rd) == a.Seen(rd)
  {
    assert ReadReg(m.regs, rd, m.Mode()) == a.regs[rd];
  }

  /** What a pop does when the top of the stack is v. */
  lemma PopState(m: Machine, rn: nat, rd: nat, v: Word, junk: Indeterminate)
    requires rn < 15 && rd < 16 && m.Reg(rn) + 4 <= Size(m.mem) && m.Reg(rn) + 4 < 0x1_0000_0000
    requires m.Load(m.Reg(rn)) == v
    ensures OpStep(m, Pop(rd), rn, junk) == Outcome(0, m.SetReg(rd, v).SetReg(rn, m.Reg(rn) + 4))
  {
    hide Dispatched, ReadReg, WriteReg, PutWord, WordAt, PopWord, SeenPc;
    PopWordIsPop(rn, rd);
    PopEffect(m, PopWord(rn, rd), rn, rd, junk);
  }

  lemma PopRefines(m0: Machine, m: Machine, a: Lifo, rn: nat, base: Word, cap: nat, rd: nat, junk: Indeterminate)
    requires rn < 15 && Reserved(m0, base, cap) && KnownMode(m0.Mode())
    requires Represents(m0, m, a, rn, base, cap) && a.Legal(Pop(rd), rn, cap)
    ensures OpStep(m, Pop(rd), rn, junk).code == 0
    ensures Represents(m0, OpStep(m, Pop(rd), rn, junk).m, a.Step(Pop(rd)), rn, base, cap)
  {
    hide OpStep, ReadReg, WriteReg, WordAt, SameRegisters, OutsideKept, Contents, SeenPc;
    var b, v := m.Reg(rn), a.stack[|a.stack| - 1];
    TopWord(m.mem, m.bigEndian, a.stack, base);
    PopState(m, rn, rd, v, junk);
    AssignKeeps(m, a, rn, rd, v);
    var m1 := m.SetReg(rd, v);
    var a1 := a.(regs := a.regs[rd := v]);
    BaseKeeps(m1, a1, rn, b + 4);
    var m2 := m1.SetReg(rn, b + 4);
    RegistersOnly(m2, m2, a1, a.Step(Pop(rd)), rn);
  }

  lemma TopWord(ram: Ram, be: bool, stack: seq<Word>, base: Word)
    requires stack != [] && 4 * |stack| <= base <= Size(ram) && Contents(ram, be, stack, base)
    ensures WordAt(ram, base - 4 * |stack|, be) == stack[|stack| - 1]
    ensures Contents(ram, be, stack[..|stack| - 1], base)
  {
    hide WordAt;
    assert WordAt(ram, base - 4 * (|stack| - 1 + 1), be) == stack[|stack| - 1];
  }

  lemma RegistersOnly(m: Machine, m': Machine, a: Lifo, b: Lifo, rn: nat)
    requires SameRegisters(m, a, rn) && a.regs == b.regs && m'.regs == m.regs
    ensures SameRegisters(m', b, rn)
  {
  }

  lemma OpRefines(m0: Machine, m: Machine, a: Lifo, rn: nat, base: Word, cap: nat, op: StackOp, junk: Indeterminate)
    requires rn < 15 && Reserved(m0, base, cap) && KnownMode(m0.Mode())
    requires Represents(m0, m, a, rn, base, cap) && a.Legal(op, rn, cap)
    ensures OpStep(m, op, rn, junk).code == 0
    ensures Represents(m0, OpStep(m, op, rn, junk).m, a.Step(op), rn, base, cap)
  {
    hide Dispatched, Contents, SameRegisters, OutsideKept, ReadReg, WriteReg;
    match op
    case Push(rd) => PushRefines(m0, m, a, rn, base, cap, rd, junk);
    case Pop(rd) => PopRefines(m0, m, a, rn, base, cap, rd, junk);
    case Assign(rd, v) => AssignKeeps(m, a, rn, rd, v);
  }

  // ----- whole programs -----

  predicate Numbered(ops: seq<StackOp>) {
    forall i | 0 <= i < |ops| :: ops[i].rd < 16
  }

  function OpRun(m: Machine, ops: seq<StackOp>, rn: nat, junk: Indeterminate): Machine
    requires rn < 16 && Numbered(ops)
  {
    if ops == [] then m
    else OpStep(OpRun(m, ops[..|ops| - 1], rn, junk), ops[|ops| - 1], rn, junk).m
  }

  function LifoRun(a: Lifo, ops: seq<StackOp>): (a': Lifo)
    requires |a.regs| == 16 && Numbered(ops)
    ensures |a'.regs| == 16
  {
    if ops == [] then a else LifoRun(a, ops[..|ops| - 1]).Step(ops[|ops| - 1])
  }

  /** Every operation of the program is legal where it happens. */
  predicate LegalRun(a: Lifo, ops: seq<StackOp>, rn: nat, cap: nat)
    requires |a.regs| == 16 && Numbered(ops)
  {
    ops == [] || (LegalRun(a, ops[..|ops| - 1], rn, cap)
                  && LifoRun(a, ops[..|ops| - 1]).Legal(ops[|ops| - 1], rn, cap))
  }

  /** Whatever pushes, pops and register writes are made: the machine keeps representing
      the abstract one. */
  lemma {:induction false} StackRefinement(m0: Machine, a0: Lifo, ops: seq<StackOp>,
                                            rn: nat, base: Word, cap: nat, junk: Indeterminate)
    requires rn < 15 && Reserved(m0, base, cap) && KnownMode(m0.Mode())
    requires Represents(m0, m0, a0, rn, base, cap) && |a0.regs| == 16 && Numbered(ops) && LegalRun(a0, ops, rn, cap)
    ensures Represents(m0, OpRun(m0, ops, rn, junk), LifoRun(a0, ops), rn, base, cap)
    decreases |ops|
  {
    hide OpStep, Represents;
    if ops != [] {
      var before := ops[..|ops| - 1];
      StackRefinement(m0, a0, before, rn, base, cap, junk);
      OpRefines(m0, OpRun(m0, before, rn, junk), LifoRun(a0, before), rn, base, cap, ops[|ops| - 1], junk);
    }
  }

  // ----- programs in memory -----

  /** A push, or a pop into a register other than R15. */
  predicate Encodable(op: StackOp) {
    op.rd < 16 && !op.Assign? && (op.Pop? ==> op.rd != PC)
  }

  function OpWord(op: StackOp, rn: nat): Word
    requires rn < 16 && Encodable(op)
  {
    if op.Push? then PushWord(rn, op.rd) else PopWord(rn, op.rd)
  }

  function StackProgram(ops: seq<StackOp>, rn: nat): (words: seq<Word>)
    requires rn < 16 && forall i | 0 <= i < |ops| :: Encodable(ops[i])
    ensures |words| == |ops| && forall i | 0 <= i < |ops| :: words[i] == OpWord(ops[i], rn)
  {
    seq(|ops|, i requires 0 <= i < |ops| => OpWord(ops[i], rn))
  }

  /** The operations of a program at pc, each after the move of R15 that its fetch makes. */
  function Fetching(pc: Word, ops: seq<StackOp>): seq<StackOp> {
    if ops == [] then []
    else Fetching(pc, ops[..|ops| - 1]) + [Assign(PC, Plus(pc, 4 * |ops|)), ops[|ops| - 1]]
  }

  lemma {:induction false} FetchingNumbered(pc: Word, ops: seq<StackOp>)
    requires forall i | 0 <= i < |ops| :: ops[i].rd < 16
    ensures Numbered(Fetching(pc, ops))
    decreases |ops|
  {
    if ops != [] {
      FetchingNumbered(pc, ops[..|ops| - 1]);
    }
  }

  lemma LastOp(a: Lifo, ops: seq<StackOp>, op: StackOp, rn: nat, cap: nat)
    requires |a.regs| == 16 && Numbered(ops) && op.rd < 16
    ensures Numbered(ops + [op]) && LifoRun(a, ops + [op]) == LifoRun(a, ops).Step(op)
    ensures LegalRun(a, ops + [op], rn, cap) <==> LegalRun(a, ops, rn, cap) && LifoRun(a, ops).Legal(op, rn, cap)
  {
    assert (ops + [op])[..|ops|] == ops;
  }

  /** The two abstract steps of the last instruction. */
  lemma LastFetch(a: Lifo, pc: Word, ops: seq<StackOp>, rn: nat, cap: nat)
    requires ops != [] && |a.regs| == 16 && Numbered(ops) && Numbered(Fetching(pc, ops))
    ensures Numbered(Fetching(pc, ops[..|ops| - 1]))
    ensures var before, fetch, op := Fetching(pc, ops[..|ops| - 1]), Assign(PC, Plus(pc, 4 * |ops|)), ops[|ops| - 1];
            && LifoRun(a, Fetching(pc, ops)) == LifoRun(a, before).Step(fetch).Step(op)
            && (LegalRun(a, Fetching(pc, ops), rn, cap) ==> LegalRun(a, before, rn, cap)
                                                            && LifoRun(a, before).Step(fetch).Legal(op, rn, cap))
  {
    var last := |ops| - 1;
    FetchingNumbered(pc, ops[..last]);
    var before, x, y := Fetching(pc, ops[..last]), [Assign(PC, Plus(pc, 4 * |ops|))], [ops[last]];
    var all := Fetching(pc, ops);
    assert all == before + x + y;
    hide Fetching, Numbered, LifoRun, LegalRun;
    LastOp(a, before, x[0], rn, cap);
    LastOp(a, before + x, y[0], rn, cap);
  }

  lemma FetchRefines(m0: Machine, m: Machine, a: Lifo, rn: nat, base: Word, cap: nat)
    requires rn < 15 && Reserved(m0, base, cap) && KnownMode(m0.Mode()) && |a.regs| == 16
    requires Represents(m0, m, a, rn, base, cap)
    ensures Represents(m0, Advanced(m), a.Step(Assign(PC, Plus(m.regs[PC], 4))), rn, base, cap)
  {
    hide Contents, OutsideKept, ReadReg, SameRegisters;
    var v := Plus(m.regs[PC], 4);
    AssignKeeps(m, a, rn, PC, v);
    AdvancedKeeps(m);
    SetPc(m, v);
    RegistersOnly(m.SetReg(PC, v), Advanced(m), a.(regs := a.regs[PC := v]), a.Step(Assign(PC, v)), rn);
  }

  lemma SetPc(m: Machine, v: Word)
    ensures m.SetReg(PC, v).regs == m.regs[PC := v]
  {
  }

  lemma OpSpares(op: StackOp, rn: nat)
    requires rn < 15 && Encodable(op)
    ensures SparesPc(OpWord(op, rn)) && Family(OpWord(op, rn)) == 2
  {
    if op.Push? {
      PushWordIsPush(rn, op.rd);
    } else {
      PopWordIsPop(rn, op.rd);
    }
    hide PushWord, PopWord;
  }

  /** One step of the program: the fetch, then the operation. */
  lemma StackStep(m0: Machine, m: Machine, a: Lifo, op: StackOp, rn: nat, base: Word, cap: nat,
                  pc: Word, words: seq<Word>, i: nat, junk: Indeterminate)
    requires rn < 15 && Reserved(m0, base, cap) && KnownMode(m0.Mode()) && |a.regs| == 16
    requires Represents(m0, m, a, rn, base, cap) && AtWord(m, pc, words, i)
    requires Encodable(op) && words[i] == OpWord(op, rn)
    requires a.Step(Assign(PC, Plus(pc, 4 * (i + 1)))).Legal(op, rn, cap)
    ensures var a1 := a.Step(Assign(PC, Plus(pc, 4 * (i + 1))));
            Represents(m0, Run(m, [junk]), a1.Step(op), rn, base, cap)
    ensures Run(m, [junk]).regs[PC] == Plus(pc, 4 * (i + 1))
  {
    hide Run, Represents, PushWord, PopWord, SparesPc, Family, WordAt, Dispatched, Advanced, Plus;
    WordAddress(pc, i);
    FetchRefines(m0, m, a, rn, base, cap);
    OpRefines(m0, Advanced(m), a.Step(Assign(PC, Plus(pc, 4 * (i + 1)))), rn, base, cap, op, junk);
    StepExecutes(m, pc, words, i, junk);
    OpSpares(op, rn);
    NextWord(m, words[i], junk);
  }

  lemma WordAddress(pc: Word, i: nat)
    requires pc % 4 == 0 && pc + 4 * i < 0x1_0000_0000
    ensures (pc + 4 * i) % 4 == 0 && Plus(pc + 4 * i, 4) == Plus(pc, 4 * (i + 1))
  {
    DivUnique(pc + 4 * i, 4, pc / 4 + i, 0);
    assert pc + 4 * i + 4 == pc + 4 * (i + 1);
  }

  lemma ProgramKept(m0: Machine, m: Machine, a: Lifo, rn: nat, base: Word, cap: nat, pc: Word, words: seq<Word>)
    requires rn < 15 && Reserved(m0, base, cap) && Represents(m0, m, a, rn, base, cap)
    requires Holds(m0, pc, words) && Apart(pc, 4 * |words|, base - 4 * cap, 4 * cap)
    ensures Holds(m, pc, words)
  {
    hide Contents, SameRegisters;
    HoldsStill(m0, m, pc, words);
  }

  lemma NoFetch(a: Lifo, pc: Word)
    requires |a.regs| == 16
    ensures Fetching(pc, []) == [] && LifoRun(a, []) == a && Plus(pc, 0) == pc
  {
  }

  /** A program of pushes and pops in memory, outside the stack area, run for k steps: the
      machine represents the abstract one after its first k operations. */
  lemma {:induction false} ProgramRefinement(m0: Machine, a0: Lifo, ops: seq<StackOp>, k: nat, rn: nat,
                                              base: Word, cap: nat, pc: Word, junks: seq<Indeterminate>)
    requires rn < 15 && Reserved(m0, base, cap) && KnownMode(m0.Mode()) && |a0.regs| == 16
    requires Represents(m0, m0, a0, rn, base, cap)
    requires k <= |ops| && |junks| == k && forall i | 0 <= i < |ops| :: Encodable(ops[i])
    requires Holds(m0, pc, StackProgram(ops, rn)) && Apart(pc, 4 * |ops|, base - 4 * cap, 4 * cap) && m0.regs[PC] == pc
    requires Numbered(Fetching(pc, ops[..k])) && LegalRun(a0, Fetching(pc, ops[..k]), rn, cap)
    ensures Represents(m0, Run(m0, junks), LifoRun(a0, Fetching(pc, ops[..k])), rn, base, cap)
    ensures Run(m0, junks).regs[PC] == Plus(pc, 4 * k)
    decreases k
  {
    hide Run, Represents, Holds, OpWord, Fetching, LifoRun, LegalRun, Plus;
    var words := StackProgram(ops, rn);
    if k == 0 {
      NoStep(m0);
      assert junks == [] && ops[..0] == [];
      NoFetch(a0, pc);
    } else {
      var before, now := ops[..k - 1], ops[..k];
      assert now[..|now| - 1] == before;
      LastFetch(a0, pc, now, rn, cap);
      ProgramRefinement(m0, a0, ops, k - 1, rn, base, cap, pc, junks[..k - 1]);
      var m, a := Run(m0, junks[..k - 1]), LifoRun(a0, Fetching(pc, before));
      ProgramKept(m0, m, a, rn, base, cap, pc, words);
      SplitRun(m0, junks, k - 1);
      assert junks[k - 1..] == [junks[k - 1]];
      InProgram(pc, words, k - 1, m);
      StackStep(m0, m, a, ops[k - 1], rn, base, cap, pc, words, k - 1, junks[k - 1]);
    }
  }

  lemma InProgram(pc: Word, words: seq<Word>, i: nat, m: Machine)
    requires Holds(m, pc, words) && i < |words| && m.regs[PC] == Plus(pc, 4 * i)
    ensures AtWord(m, pc, words, i)
  {
    hide WordAt;
  }

  /** A machine whose base register holds the base represents the empty stack. */
  lemma EmptyStack(m: Machine, a: Lifo, rn: nat, cap: nat)
    requires rn < 15 && Reserved(m, m.Reg(rn), cap) && a.stack == [] && SameRegisters(m, a, rn)
    ensures Represents(m, m, a, rn, m.Reg(rn), cap)
  {
    hide ReadReg, SameRegisters;
  }

  // ----- save and restore -----

  /** Push the registers, run a body that only writes registers, pop them in the opposite
      order. */
  function Subroutine(saved: seq<nat>, body: seq<StackOp>): seq<StackOp> {
    if saved == [] then body else [Push(saved[0])] + (Subroutine(saved[1..], body) + [Pop(saved[0])])
  }

  lemma {:induction false} LifoConcat(a: Lifo, x: seq<StackOp>, y: seq<StackOp>)
    requires |a.regs| == 16 && Numbered(x) && Numbered(y)
    ensures Numbered(x + y) && LifoRun(a, x + y) == LifoRun(LifoRun(a, x), y)
    decreases |y|
  {
    if y == [] {
      assert x + y == x;
    } else {
      var front := y[..|y| - 1];
      assert (x + y)[..|x + y| - 1] == x + front;
      LifoConcat(a, x, front);
    }
  }

  lemma {:induction false} LegalConcat(a: Lifo, x: seq<StackOp>, y: seq<StackOp>, rn: nat, cap: nat)
    requires |a.regs| == 16 && Numbered(x) && Numbered(y)
    requires LegalRun(a, x, rn, cap) && LegalRun(LifoRun(a, x), y, rn, cap)
    ensures Numbered(x + y) && LegalRun(a, x + y, rn, cap)
    decreases |y|
  {
    if y == [] {
      assert x + y == x;
    } else {
      var front := y[..|y| - 1];
      assert (x + y)[..|x + y| - 1] == x + front;
      LegalConcat(a, x, front, rn, cap);
      LifoConcat(a, x, front);
    }
  }

  lemma OneOp(a: Lifo, op: StackOp, rn: nat, cap: nat)
    requires |a.regs| == 16 && op.rd < 16
    ensures Numbered([op])
    ensures LifoRun(a, [op]) == a.Step(op)
    ensures LegalRun(a, [op], rn, cap) <==> a.Legal(op, rn, cap)
  {
    assert [op][..0] == [];
  }

  /** The body writes registers other than the base. */
  predicate IsBody(body: seq<StackOp>, rn: nat) {
    forall i | 0 <= i < |body| :: body[i].Assign? && body[i].rd < 16 && body[i].rd != rn
  }

  lemma {:induction false} BodyKeepsStack(a: Lifo, body: seq<StackOp>, rn: nat, cap: nat)
    requires |a.regs| == 16 && IsBody(body, rn)
    ensures LifoRun(a, body).stack == a.stack && LegalRun(a, body, rn, cap)
    decreases |body|
  {
    if body != [] {
      BodyKeepsStack(a, body[..|body| - 1], rn, cap);
    }
  }

  /** On the abstract machine: every saved register and the stack are restored. */
  lemma {:induction false} SubroutineBalanced(a: Lifo, saved: seq<nat>, body: seq<StackOp>, rn: nat, cap: nat)
    requires |a.regs| == 16 && IsBody(body, rn) && |a.stack| + |saved| <= cap
    requires forall i | 0 <= i < |saved| :: saved[i] < 15 && saved[i] != rn
    ensures Numbered(Subroutine(saved, body)) && LegalRun(a, Subroutine(saved, body), rn, cap)
    ensures var a' := LifoRun(a, Subroutine(saved, body));
            a'.stack == a.stack && forall r | r in saved :: a'.regs[r] == a.regs[r]
    decreases |saved|
  {
    if saved == [] {
      BodyKeepsStack(a, body, rn, cap);
    } else {
      var r, rest := saved[0], saved[1..];
      var push, pop, inner := Push(r), Pop(r), Subroutine(rest, body);
      assert Subroutine(saved, body) == [push] + (inner + [pop]);
      hide Subroutine, LifoRun, LegalRun, IsBody, Numbered;
      var a1 := a.Step(push);
      OneOp(a, push, rn, cap);
      SubroutineBalanced(a1, rest, body, rn, cap);
      var a2 := LifoRun(a1, inner);
      OneOp(a2, pop, rn, cap);
      LifoConcat(a1, inner, [pop]);
      LegalConcat(a1, inner, [pop], rn, cap);
      LifoConcat(a, [push], inner + [pop]);
      LegalConcat(a, [push], inner + [pop], rn, cap);
      assert a2.Step(pop).stack == a.stack;
      assert forall q | q in saved :: q == r || q in rest;
    }
  }

  /** On the machine: after the subroutine the base register and every saved register hold
      what they held before, whatever the body wrote, and only the stack area changed. */
  lemma SubroutineRestores(m: Machine, saved: seq<nat>, body: seq<StackOp>, rn: nat, junk: Indeterminate)
    requires rn < 15 && KnownMode(m.Mode()) && IsBody(body, rn)
    requires forall i | 0 <= i < |saved| :: saved[i] < 15 && saved[i] != rn
    requires Reserved(m, m.Reg(rn), |saved|)
    ensures Numbered(Subroutine(saved, body))
    ensures var m' := OpRun(m, Subroutine(saved, body), rn, junk);
            && m'.Reg(rn) == m.Reg(rn)
            && (forall r | r in saved :: m'.Reg(r) == m.Reg(r))
            && OutsideKept(m.mem, m'.mem, m.Reg(rn) - 4 * |saved|, m.Reg(rn))
  {
    hide ReadReg, OpStep, OpRun, LifoRun, LegalRun, Represents, Subroutine, SeenPc, Reserved, SameRegisters;
    hide IsBody, Numbered, OutsideKept;
    var a := RegistersOf(m);
    RegistersOfSame(m, rn);
    EmptyStack(m, a, rn, |saved|);
    SubroutineBalanced(a, saved, body, rn, |saved|);
    var ops := Subroutine(saved, body);
    StackRefinement(m, a, ops, rn, m.Reg(rn), |saved|, junk);
    Restored(m, OpRun(m, ops, rn, junk), LifoRun(a, ops), rn, |saved|, saved);
  }

  /** The abstract machine with the registers of m and an empty stack. */
  function RegistersOf(m: Machine): (a: Lifo)
    ensures |a.regs| == 16 && a.stack == []
  {
    Lifo(seq(16, (r: nat) requires r < 16 => ReadReg(m.regs, r, m.Mode())), [])
  }

  lemma RegistersOfSame(m: Machine, rn: nat)
    ensures SameRegisters(m, RegistersOf(m), rn)
    ensures forall r: nat | r < 16 :: RegistersOf(m).regs[r] == ReadReg(m.regs, r, m.Mode())
  {
    hide ReadReg;
  }

  /** A representing machine whose abstract registers and stack are those of m. */
  lemma Restored(m: Machine, m': Machine, a': Lifo, rn: nat, cap: nat, saved: seq<nat>)
    requires rn < 15 && Reserved(m, m.Reg(rn), cap) && Represents(m, m', a', rn, m.Reg(rn), cap)
    requires |a'.regs| == 16 && a'.stack == []
    requires forall r | r in saved :: r < 15 && r != rn && a'.regs[r] == ReadReg(m.regs, r, m.Mode())
    ensures m'.Reg(rn) == m.Reg(rn) && forall r | r in saved :: m'.Reg(r) == m.Reg(r)
    ensures OutsideKept(m.mem, m'.mem, m.Reg(rn) - 4 * cap, m.Reg(rn))
  {
    hide ReadReg, Contents, OutsideKept;
    forall r | r in saved ensures m'.Reg(r) == m.Reg(r) {
      assert ReadReg(m'.regs, r, m'.Mode()) == a'.regs[r];
    }
  }
}
