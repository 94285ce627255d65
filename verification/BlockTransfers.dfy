/**
 Block transfers in closed form: which register meets which address, for all
 four addressing modes, completed or aborted; and what a store followed by a
 load gives back.
 */
module BlockTransfers {
  import opened Words
  import opened ArmConstants
  import opened RegisterFile
  import opened MainMemory
  import opened MemoryMap
  import opened Core
  import opened Decode
  import opened LoadStore

  // ----- the registers and the addresses of a transfer -----

  /** The listed registers from i to 14, in increasing order. */
  function RegistersFrom(ins: Word, i: nat): (l: seq<nat>)
    requires i <= 15
    ensures |l| <= 15 - i
    ensures forall k | 0 <= k < |l| :: i <= l[k] < 15
    decreases 15 - i
  {
    if i == 15 then []
    else if Listed(ins, i) then [i] + RegistersFrom(ins, i + 1)
    else RegistersFrom(ins, i + 1)
  }

  /** They are exactly the listed ones, each once. */
  lemma RegistersFromExact(ins: Word, i: nat)
    requires i <= 15
    ensures forall r: nat :: r in RegistersFrom(ins, i) <==> i <= r < 15 && Listed(ins, r)
    ensures forall j, k | 0 <= j < k < |RegistersFrom(ins, i)| :: RegistersFrom(ins, i)[j] < RegistersFrom(ins, i)[k]
  {
    forall r: nat ensures r in RegistersFrom(ins, i) <==> i <= r < 15 && Listed(ins, r) {
      RegistersFromMember(ins, i, r);
    }
    RegistersFromAscend(ins, i);
  }

  lemma {:induction false} RegistersFromMember(ins: Word, i: nat, r: nat)
    requires i <= 15
    ensures r in RegistersFrom(ins, i) <==> i <= r < 15 && Listed(ins, r)
    decreases 15 - i
  {
    hide Listed;
    if i < 15 {
      RegistersFromMember(ins, i + 1, r);
    }
  }

  lemma {:induction false} RegistersFromAscend(ins: Word, i: nat)
    requires i <= 15
    ensures forall j, k | 0 <= j < k < |RegistersFrom(ins, i)| :: RegistersFrom(ins, i)[j] < RegistersFrom(ins, i)[k]
    decreases 15 - i
  {
    hide Listed;
    if i < 15 {
      RegistersFromAscend(ins, i + 1);
    }
  }

  /** Address of the transfer of rank k. */
  function AddressOf(start: Word, up: bool, k: nat): Word {
    Plus(start, if up then 4 * k else -4 * k)
  }

  lemma NextRank(start: Word, up: bool, k: nat)
    ensures AddressOf(NextAddress(start, up), up, k) == AddressOf(start, up, k + 1)
  {
    PlusPlus(start, if up then 4 else -4, if up then 4 * k else -4 * k);
  }

  /** How many of n transfers from `start` are accepted by a memory of that size. */
  function Accepted(size: nat, start: Word, up: bool, n: nat): (f: nat)
    ensures f <= n
    decreases n
  {
    if n == 0 || start >= size then 0 else 1 + Accepted(size, NextAddress(start, up), up, n - 1)
  }

  lemma AcceptedExact(size: nat, start: Word, up: bool, n: nat)
    ensures var f := Accepted(size, start, up, n);
            && (forall k: nat | k < f :: AddressOf(start, up, k) < size)
            && (f < n ==> AddressOf(start, up, f) >= size)
  {
    var f := Accepted(size, start, up, n);
    forall k: nat | k < f ensures AddressOf(start, up, k) < size {
      AcceptedRank(size, start, up, n, k);
    }
    if f < n {
      RefusedRank(size, start, up, n);
    }
  }

  lemma {:induction false} AcceptedRank(size: nat, start: Word, up: bool, n: nat, k: nat)
    requires k < Accepted(size, start, up, n)
    ensures AddressOf(start, up, k) < size
    decreases k
  {
    hide AddressOf, NextAddress;
    RankZero(start, up);
    if k > 0 {
      AcceptedRank(size, NextAddress(start, up), up, n - 1, k - 1);
      NextRank(start, up, k - 1);
    }
  }

  lemma {:induction false} RefusedRank(size: nat, start: Word, up: bool, n: nat)
    requires Accepted(size, start, up, n) < n
    ensures AddressOf(start, up, Accepted(size, start, up, n)) >= size
    decreases n
  {
    hide AddressOf, NextAddress;
    RankZero(start, up);
    if start < size {
      var next := NextAddress(start, up);
      RefusedRank(size, next, up, n - 1);
      NextRank(start, up, Accepted(size, next, up, n - 1));
    }
  }

  /** Aligned transfers in a memory of whole words lie in it entirely. */
  lemma AlignedRank(ram: Ram, start: Word, up: bool, k: nat)
    requires start % 4 == 0 && Size(ram) % 4 == 0 && AddressOf(start, up, k) < Size(ram)
    ensures Whole(ram, AddressOf(start, up, k), 4)
  {
    var n: int := k;
    PlusAligned(start, if up then n else -n);
  }

  /** Different ranks have no cell in common, even where addresses wrap around. */
  lemma RanksApart(start: Word, up: bool, j: nat, k: nat, i: nat, l: nat)
    requires j < k <= 15 && i < 4 && l < 4
    ensures At(AddressOf(start, up, j), i) != At(AddressOf(start, up, k), l)
  {
    if up {
      CellsApart(start, 4 * j, i, 4 * k, l);
    } else {
      CellsApart(start, -4 * j, i, -4 * k, l);
    }
  }

  lemma CellsApart(start: Word, x: int, i: nat, y: int, l: nat)
    requires i < 4 && l < 4 && (4 <= y - x <= 60 || 4 <= x - y <= 60)
    ensures At(Plus(start, x), i) != At(Plus(start, y), l)
  {
    var a := Plus(start, x);
    PlusPlus(start, x, y - x);
    assert Plus(a, y - x) == if a + (y - x) < 0 then a + (y - x) + 0x1_0000_0000
                             else if a + (y - x) < 0x1_0000_0000 then a + (y - x)
                             else a + (y - x) - 0x1_0000_0000;
  }

  // ----- the store loop -----

  /** p is a cell of none of the first f words of the transfer. */
  ghost predicate Outside(start: Word, up: bool, f: nat, p: nat) {
    forall k: nat, i: nat | k < f && i < 4 :: At(AddressOf(start, up, k), i) != p
  }

  /** The first f words hold the values of the registers; nothing else moved. */
  ghost predicate Stored(m: Machine, m': Machine, regs: seq<nat>, start: Word, up: bool, f: nat)
    requires f <= |regs| && forall k | 0 <= k < |regs| :: regs[k] <= CPSR
  {
    && m'.regs == m.regs && m'.cycles == m.cycles && m'.bigEndian == m.bigEndian && |m'.mem| == |m.mem|
    && (forall k: nat | k < f :: HoldsAt(m', AddressOf(start, up, k), m.Reg(regs[k])))
    && (forall p: nat | p < |m.mem| && Outside(start, up, f, p) :: m'.mem[p] == m.mem[p])
  }

  /** The memory accepts the address, and v is the word there. */
  predicate HoldsAt(m: Machine, address: Word, v: Word) {
    m.Reaches(address) && m.Load(address) == v
  }

  /** The store loop from register i on stores the accepted words and reports an abort. */
  ghost predicate LoopStores(m: Machine, ins: Word, i: nat, address: Word, value: Word)
    requires i <= 15
  {
    var regs, up := RegistersFrom(ins, i), Upwards(ins);
    var f := Accepted(Size(m.mem), address, up, |regs|);
    var (t, last) := RegisterLoop(m, ins, i, address, value);
    && t.code == (if f == |regs| then 0 else DATA_ABORT)
    && last == AddressOf(address, up, f)
    && Stored(m, t.m, regs, address, up, f)
  }

  lemma {:induction false} StoreLoop(m: Machine, ins: Word, i: nat, address: Word, value: Word)
    requires i <= 15 && !IsLoad(ins)
    ensures LoopStores(m, ins, i, address, value)
    decreases 15 - i
  {
    hide Stored, PutWord, WordAt, Plus, ReadReg, AddressOf, NextAddress, Listed, SeenPc, ModeOf;
    var regs, up := RegistersFrom(ins, i), Upwards(ins);
    NothingStored(m, regs, address, up);
    if i == 15 {
    } else if !Listed(ins, i) {
      StoreLoop(m, ins, i + 1, address, value);
    } else if m.Reaches(address) {
      var m1, next := m.Store(address, m.Reg(i)), NextAddress(address, up);
      assert regs[1..] == RegistersFrom(ins, i + 1);
      StoreLoop(m1, ins, i + 1, next, m.Reg(i));
      StoreRound(m, ins, i, address, value);
    }
  }

  /** A listed register that the memory accepts: one more word stored. */
  lemma StoreRound(m: Machine, ins: Word, i: nat, address: Word, value: Word)
    requires i < 15 && !IsLoad(ins) && Listed(ins, i) && m.Reaches(address)
    requires var m1 := m.Store(address, m.Reg(i));
             LoopStores(m1, ins, i + 1, NextAddress(address, Upwards(ins)), m.Reg(i))
    ensures LoopStores(m, ins, i, address, value)
  {
    hide RegisterLoop, Accepted, RegistersFrom, Stored;
    hide PutWord, WordAt, Plus, ReadReg, AddressOf, NextAddress, Listed, SeenPc, ModeOf;
    var regs, up := RegistersFrom(ins, i), Upwards(ins);
    var m1, next := m.Store(address, m.Reg(i)), NextAddress(address, up);
    var (t, last) := RegisterLoop(m1, ins, i + 1, next, m.Reg(i));
    RegistersFromListed(ins, i);
    var f := Accepted(Size(m.mem), next, up, |regs| - 1);
    LoopRound(m, ins, i, address, value);
    AcceptedUnfolds(Size(m.mem), address, up, |regs|);
    NextRank(address, up, f);
    FirstStored(m, m1, t.m, regs, address, up, f, i);
  }

  lemma RegistersFromListed(ins: Word, i: nat)
    requires i < 15 && Listed(ins, i)
    ensures RegistersFrom(ins, i) == [i] + RegistersFrom(ins, i + 1)
    ensures RegistersFrom(ins, i)[1..] == RegistersFrom(ins, i + 1)
  {
  }

  lemma AcceptedUnfolds(size: nat, start: Word, up: bool, n: nat)
    requires n > 0 && start < size
    ensures Accepted(size, start, up, n) == 1 + Accepted(size, NextAddress(start, up), up, n - 1)
  {
  }

  lemma NothingStored(m: Machine, regs: seq<nat>, start: Word, up: bool)
    requires forall k | 0 <= k < |regs| :: regs[k] <= CPSR
    ensures Stored(m, m, regs, start, up, 0)
    ensures AddressOf(start, up, 0) == start
  {
  }

  /** Storing the first word and then the others stores them all. */
  lemma FirstStored(m: Machine, m1: Machine, m': Machine, regs: seq<nat>, start: Word, up: bool, f: nat, i: nat)
    requires i < 15 && m.Reaches(start) && m1 == m.Store(start, m.Reg(i))
    requires 1 <= |regs| <= 15 && regs[0] == i && f + 1 <= |regs|
    requires forall k | 0 <= k < |regs| :: regs[k] <= CPSR
    requires Stored(m1, m', regs[1..], NextAddress(start, up), up, f)
    ensures Stored(m, m', regs, start, up, f + 1)
  {
    hide PutWord, WordAt, Plus, ReadReg, AddressOf, NextAddress, Outside, At;
    var next := NextAddress(start, up);
    RankZero(start, up);
    forall p: nat | p < |m.mem| && Outside(start, up, f + 1, p) ensures m'.mem[p] == m.mem[p] {
      OutsideNext(start, up, f, p);
      StoreFrame(m.mem, start, m.Reg(i), m.bigEndian, p);
    }
    ReadBackWord(m.mem, start, m.Reg(i), m.bigEndian);
    FirstWordKept(m1, m', regs[1..], start, up, f);
    forall k: nat | k < f + 1 ensures HoldsAt(m', AddressOf(start, up, k), m.Reg(regs[k])) {
      if k > 0 {
        NextRank(start, up, k - 1);
        assert HoldsAt(m', AddressOf(next, up, k - 1), m1.Reg(regs[1..][k - 1]));
      }
    }
  }

  lemma RankZero(start: Word, up: bool)
    ensures AddressOf(start, up, 0) == start
  {
  }

  lemma StoreFrame(ram: Ram, a: Word, v: Word, be: bool, p: nat)
    requires InMemory(ram, a) && p < |ram| && forall i: nat | i < 4 :: At(a, i) != p
    ensures PutWord(ram, a, v, be)[p] == ram[p]
  {
  }

  lemma OutsideNext(start: Word, up: bool, f: nat, p: nat)
    requires Outside(start, up, f + 1, p)
    ensures Outside(NextAddress(start, up), up, f, p)
    ensures forall i: nat | i < 4 :: At(start, i) != p
  {
    hide AddressOf, NextAddress, At;
    RankZero(start, up);
    assert forall i: nat | i < 4 :: At(AddressOf(start, up, 0), i) != p;
    forall k: nat, i: nat | k < f && i < 4 ensures At(AddressOf(NextAddress(start, up), up, k), i) != p {
      NextRank(start, up, k);
      assert At(AddressOf(start, up, k + 1), i) != p;
    }
  }

  lemma FirstWordKept(m1: Machine, m': Machine, rest: seq<nat>, start: Word, up: bool, f: nat)
    requires f <= |rest| <= 14 && forall k | 0 <= k < |rest| :: rest[k] <= CPSR
    requires m1.Reaches(start) && Stored(m1, m', rest, NextAddress(start, up), up, f)
    ensures m'.Reaches(start) && m'.Load(start) == m1.Load(start)
  {
    hide PutWord, WordAt, Plus, ReadReg, AddressOf, NextAddress, Outside, HoldsAt;
    forall i: nat | i < 4 ensures At(start, i) < |m1.mem| && m'.mem[At(start, i)] == m1.mem[At(start, i)] {
      FirstWordOutside(start, up, f, i);
    }
    CellFrame(m1.mem, m'.mem, start, m1.bigEndian);
  }

  lemma FirstWordOutside(start: Word, up: bool, f: nat, i: nat)
    requires i < 4 && f <= 14
    ensures Outside(NextAddress(start, up), up, f, At(start, i))
  {
    hide Plus, AddressOf, NextAddress, At;
    RankZero(start, up);
    forall k: nat, l: nat | k < f && l < 4
      ensures At(AddressOf(NextAddress(start, up), up, k), l) != At(start, i)
    {
      NextRank(start, up, k);
      RanksApart(start, up, 0, k + 1, i, l);
    }
  }

  // ----- the load loop -----

  /** Cell c is that of none of the registers. */
  ghost predicate Unnamed(regs: seq<nat>, mode: nat, c: nat)
    requires forall k | 0 <= k < |regs| :: regs[k] <= CPSR
  {
    forall k | 0 <= k < |regs| :: Cell(regs[k], mode) != Some(c)
  }

  /** The registers hold the words; no other cell moved. */
  ghost predicate Loaded(m: Machine, m': Machine, regs: seq<nat>, start: Word, up: bool)
    requires forall k | 0 <= k < |regs| :: regs[k] <= CPSR
    requires forall k: nat | k < |regs| :: m.Reaches(AddressOf(start, up, k))
  {
    && m'.mem == m.mem && m'.cycles == m.cycles && m'.bigEndian == m.bigEndian
    && (forall k: nat | k < |regs| :: ReadReg(m'.regs, regs[k], m.Mode()) == m.Load(AddressOf(start, up, k)))
    && (forall c: nat | c < 37 && Unnamed(regs, m.Mode(), c) :: m'.regs[c] == m.regs[c])
  }

  /** What the C variable of the transferred word holds when the word of rank f is refused:
      the word before it. */
  function Stale(m: Machine, start: Word, up: bool, f: nat, value: Word): Word
    requires f > 0 ==> m.Reaches(AddressOf(start, up, f - 1))
  {
    if f == 0 then value else m.Load(AddressOf(start, up, f - 1))
  }

  /** The load loop from register i on loads the accepted words; when one is refused, its
      register receives the stale word and the loop reports an abort. */
  ghost predicate LoopLoads(m: Machine, ins: Word, i: nat, address: Word, value: Word, loaded: Machine)
    requires i <= 15
  {
    var regs, up := RegistersFrom(ins, i), Upwards(ins);
    var f := Accepted(Size(m.mem), address, up, |regs|);
    && (forall k: nat | k < f :: m.Reaches(AddressOf(address, up, k)))
    && Loaded(m, loaded, regs[..f], address, up)
    && RegisterLoop(m, ins, i, address, value)
       == (LoadOutcome(m, loaded, regs, address, up, f, value), AddressOf(address, up, f))
  }

  /** The end of the loop after f loads. */
  function LoadOutcome(m: Machine, loaded: Machine, regs: seq<nat>, start: Word, up: bool, f: nat, value: Word): Outcome
    requires f <= |regs| && forall k | 0 <= k < |regs| :: regs[k] <= CPSR
    requires forall k: nat | k < f :: m.Reaches(AddressOf(start, up, k))
  {
    if f == |regs| then Outcome(0, loaded)
    else Outcome(DATA_ABORT, loaded.SetReg(regs[f], Stale(m, start, up, f, value)))
  }

  lemma {:induction false} LoadLoop(m: Machine, ins: Word, i: nat, address: Word, value: Word) returns (loaded: Machine)
    requires i <= 15 && IsLoad(ins) && KnownMode(m.Mode())
    ensures LoopLoads(m, ins, i, address, value, loaded)
    decreases 15 - i
  {
    hide WordAt, Plus, ReadReg, WriteReg, AddressOf, Loaded, NextAddress, Listed;
    var regs, up := RegistersFrom(ins, i), Upwards(ins);
    loaded := m;
    NothingLoaded(m, address, up);
    if i == 15 {
    } else if !Listed(ins, i) {
      loaded := LoadLoop(m, ins, i + 1, address, value);
    } else if m.Reaches(address) {
      var v := m.Load(address);
      ReadAfterSet(m, i, v, i);
      loaded := LoadLoop(m.SetReg(i, v), ins, i + 1, NextAddress(address, up), v);
      LoadRound(m, ins, i, address, value, loaded);
    }
  }

  /** A listed register whose word is readable: one more register loaded. */
  lemma LoadRound(m: Machine, ins: Word, i: nat, address: Word, value: Word, loaded: Machine)
    requires i < 15 && IsLoad(ins) && Listed(ins, i) && m.Reaches(address) && KnownMode(m.Mode())
    requires var v := m.Load(address);
             LoopLoads(m.SetReg(i, v), ins, i + 1, NextAddress(address, Upwards(ins)), v, loaded)
    ensures LoopLoads(m, ins, i, address, value, loaded)
  {
    hide RegisterLoop, Accepted, RegistersFrom, WordAt, Plus, ReadReg, WriteReg, AddressOf, Loaded, NextAddress, Listed;
    var regs, up := RegistersFrom(ins, i), Upwards(ins);
    var v, next := m.Load(address), NextAddress(address, up);
    var m1 := m.SetReg(i, v);
    RegistersFromListed(ins, i);
    var f := Accepted(Size(m.mem), next, up, |regs| - 1);
    AcceptedUnfolds(Size(m.mem), address, up, |regs|);
    AcceptedExact(Size(m.mem), address, up, |regs|);
    LoopRound(m, ins, i, address, value);
    ReadAfterSet(m, i, v, i);
    NextRank(address, up, f);
    assert regs[..f + 1][1..] == regs[1..][..f];
    FirstLoaded(m, m1, loaded, regs[..f + 1], address, up, i);
    SameEnd(m, m1, loaded, regs, address, up, f, value);
  }

  /** The others end as the whole ends. */
  lemma SameEnd(m: Machine, m1: Machine, loaded: Machine, regs: seq<nat>, start: Word, up: bool, f: nat, value: Word)
    requires f < |regs| && forall k | 0 <= k < |regs| :: regs[k] <= CPSR
    requires m1.mem == m.mem && m1.bigEndian == m.bigEndian
    requires forall k: nat | k < f + 1 :: m.Reaches(AddressOf(start, up, k))
    requires forall k: nat | k < f :: m1.Reaches(AddressOf(NextAddress(start, up), up, k))
    requires m.Reaches(start)
    ensures LoadOutcome(m, loaded, regs, start, up, f + 1, value)
         == LoadOutcome(m1, loaded, regs[1..], NextAddress(start, up), up, f, m.Load(start))
  {
    hide WordAt, WriteReg, AddressOf, NextAddress;
    RankZero(start, up);
    if f > 0 {
      NextRank(start, up, f - 1);
    }
  }

  lemma NothingLoaded(m: Machine, start: Word, up: bool)
    ensures Loaded(m, m, [], start, up)
    ensures AddressOf(start, up, 0) == start
  {
  }

  lemma FirstLoaded(m: Machine, m1: Machine, m': Machine, regs: seq<nat>, start: Word, up: bool, i: nat)
    requires i < 15 && KnownMode(m.Mode())
    requires 1 <= |regs| <= 15 && regs[0] == i && forall k | 0 <= k < |regs| :: regs[k] < 15
    requires forall k | 0 < k < |regs| :: regs[k] != i
    requires forall k: nat | k < |regs| :: m.Reaches(AddressOf(start, up, k))
    requires m.Reaches(start) && m1 == m.SetReg(i, m.Load(start)) && m1.Mode() == m.Mode()
    requires forall k: nat | k < |regs| - 1 :: m1.Reaches(AddressOf(NextAddress(start, up), up, k))
    requires Loaded(m1, m', regs[1..], NextAddress(start, up), up)
    ensures Loaded(m, m', regs, start, up)
  {
    hide WordAt, Plus, AddressOf, NextAddress;
    var mode := m.Mode();
    ReadAfterSet(m, i, m.Load(start), i);
    RankZero(start, up);
    FirstCellKept(m1, m', regs, start, up, i);
    forall k: nat | k < |regs| ensures ReadReg(m'.regs, regs[k], mode) == m.Load(AddressOf(start, up, k)) {
      if k > 0 {
        NextRank(start, up, k - 1);
        assert ReadReg(m'.regs, regs[1..][k - 1], mode) == m1.Load(AddressOf(NextAddress(start, up), up, k - 1));
      }
    }
    forall d: nat | d < 37 && Unnamed(regs, mode, d) ensures m'.regs[d] == m.regs[d] {
      assert Cell(regs[0], mode) != Some(d);
      forall k | 0 <= k < |regs| - 1 ensures Cell(regs[1..][k], mode) != Some(d) {
        assert regs[1..][k] == regs[k + 1];
      }
    }
  }

  lemma FirstCellKept(m1: Machine, m': Machine, regs: seq<nat>, start: Word, up: bool, i: nat)
    requires i < 15 && KnownMode(m1.Mode())
    requires 1 <= |regs| <= 15 && regs[0] == i && forall k | 0 <= k < |regs| :: regs[k] < 15
    requires forall k | 0 < k < |regs| :: regs[k] != i
    requires forall k: nat | k < |regs| - 1 :: m1.Reaches(AddressOf(NextAddress(start, up), up, k))
    requires Loaded(m1, m', regs[1..], NextAddress(start, up), up)
    ensures ReadReg(m'.regs, i, m1.Mode()) == ReadReg(m1.regs, i, m1.Mode())
  {
    hide WordAt, Plus, AddressOf, NextAddress;
    var mode := m1.Mode();
    DistinctCells(i, CPSR, mode);
    var c := Cell(i, mode).value;
    forall k | 0 <= k < |regs| - 1 ensures Cell(regs[1..][k], mode) != Some(c) {
      DistinctCells(i, regs[1..][k], mode);
    }
    assert m'.regs[c] == m1.regs[c];
  }
}
