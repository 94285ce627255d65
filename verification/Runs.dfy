/** Whole runs of the machine: a step for every fetched instruction. */
module Runs {
  import opened Words
  import opened ArmConstants
  import opened RegisterFile
  import opened MainMemory
  import opened Core
  import opened Decode
  import opened DataProcessing
  import opened LoadStore
  import opened BranchOther
  import opened Instruction

  /** State after the steps of a run. The indeterminate values may differ at each step. */
  function Run(m: Machine, junks: seq<Indeterminate>): Machine {
    if junks == [] then m
    else Stepped(Run(m, junks[..|junks| - 1]), junks[|junks| - 1]).m
  }

  /** A run in two parts. */
  lemma {:induction false} RunConcat(m: Machine, x: seq<Indeterminate>, y: seq<Indeterminate>)
    ensures Run(m, x + y) == Run(Run(m, x), y)
    decreases |y|
  {
    hide Stepped;
    if y == [] {
      assert x + y == x;
    } else {
      var front := y[..|y| - 1];
      assert (x + y)[..|x + y| - 1] == x + front;
      RunConcat(m, x, front);
    }
  }

  lemma SplitRun(m: Machine, junks: seq<Indeterminate>, i: nat)
    requires i <= |junks|
    ensures Run(m, junks) == Run(Run(m, junks[..i]), junks[i..])
  {
    assert junks == junks[..i] + junks[i..];
    RunConcat(m, junks[..i], junks[i..]);
  }

  lemma NoStep(m: Machine)
    ensures Run(m, []) == m
  {
  }

  lemma OneStep(m: Machine, junk: Indeterminate)
    ensures Run(m, [junk]) == Stepped(m, junk).m
  {
    hide Stepped;
    assert [junk][..0] == [];
  }

  // ----- return codes -----

  lemma CodeRange(m: Machine, ins: Word, junk: Indeterminate)
    ensures Dispatched(m, ins, junk).code in {-1, 0, RESET, DATA_ABORT, UNDEFINED_INSTRUCTION, SOFTWARE_INTERRUPT}
  {
    hide ReadReg, WriteReg, SeenPc, RegisterLoop, StartAddress, Temp, WithFlags, Shifted, WordAt, PutWord;
    hide MsrValue, And32;
    if Family(ins) == 4 {
      LoopCode(m, ins, 0, StartAddress(m, ins), junk.value);
    }
  }

  /** In every mode: RESET is the code of exactly the skipped data-processing instructions. */
  lemma ResetIffSkips(m: Machine, ins: Word, junk: Indeterminate)
    ensures Dispatched(m, ins, junk).code == RESET <==> SkipsDataProcessing(m, ins)
  {
    hide ReadReg, WriteReg, SeenPc, RegisterLoop, StartAddress, Temp, WithFlags, Shifted, WordAt, PutWord;
    hide MsrValue, And32;
    if Family(ins) == 4 {
      LoopCode(m, ins, 0, StartAddress(m, ins), junk.value);
    }
  }

  lemma {:induction false} LoopCode(m: Machine, ins: Word, i: nat, address: Word, value: Word)
    requires i <= 15
    ensures RegisterLoop(m, ins, i, address, value).0.code in {0, DATA_ABORT}
    decreases 15 - i
  {
    if i < 15 {
      var v := if m.Reaches(address) then m.Load(address) else value;
      LoopCode(m, ins, i + 1, address, value);
      LoopCode(m.SetReg(i, v), ins, i + 1, NextAddress(address, Upwards(ins)), v);
      if m.Reaches(address) {
        LoopCode(m.Store(address, m.Reg(i)), ins, i + 1, NextAddress(address, Upwards(ins)), m.Reg(i));
      }
    }
  }
}
