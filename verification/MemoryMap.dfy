/**
 The memory refines a map from addresses to bytes: whatever bytes, half-words
 and words were written before, in whatever byte order, a read of any width
 combines the last byte written at each position it covers.
 */
module MemoryMap {
  import opened Words
  import opened MainMemory

  // ----- a value and its bytes -----

  lemma {:induction false} ComposeSplit(v: nat, n: nat)
    ensures FromBig(ToBig(v, n)) == v % Pow2(8 * n)
    decreases n
  {
    if n == 0 {
    } else {
      var bs := ToBig(v, n);
      assert bs[..|bs| - 1] == ToBig(v / 0x100, n - 1);
      ComposeSplit(v / 0x100, n - 1);
      Pow2Add(8, 8 * (n - 1));
      Pow2Values();
      ModByBytes(v, Pow2(8 * (n - 1)));
    }
  }

  lemma ModByBytes(v: nat, d: nat)
    requires d > 0
    ensures 0x100 * d > 0 && v % (0x100 * d) == v / 0x100 % d * 0x100 + v % 0x100
  {
    var q := v / 0x100 / d;
    var r := v / 0x100 % d;
    assert v == (0x100 * d) * q + (r * 0x100 + v % 0x100) by {
      assert v / 0x100 == d * q + r;
      assert 0x100 * (d * q) == (0x100 * d) * q;
    }
    DivUnique(v, 0x100 * d, q, r * 0x100 + v % 0x100);
  }

  lemma {:induction false} SplitCompose(bs: seq<Byte>)
    ensures ToBig(FromBig(bs), |bs|) == bs
    decreases |bs|
  {
    if bs == [] {
    } else {
      SplitCompose(bs[..|bs| - 1]);
      assert FromBig(bs) / 0x100 == FromBig(bs[..|bs| - 1]);
      assert bs == bs[..|bs| - 1] + [bs[|bs| - 1]];
    }
  }

  lemma ReversedTwice(bs: seq<Byte>)
    ensures Reversed(Reversed(bs)) == bs
  {
  }

  lemma OrderedTwice(bs: seq<Byte>, be: bool)
    ensures Ordered(Ordered(bs, be), be) == bs
  {
    ReversedTwice(bs);
  }

  lemma DigitsComposeWord(v: Word)
    ensures FromBig(ToBig(v, 4)) == v
  {
    ComposeSplit(v, 4);
    Pow2Values();
    assert Pow2(8 * 4) == Pow2(32);
  }

  lemma DigitsComposeHalf(v: Half)
    ensures FromBig(ToBig(v, 2)) == v
  {
    ComposeSplit(v, 2);
    Pow2Values();
    assert Pow2(8 * 2) == Pow2(16);
  }

  // ----- one write, one read -----

  lemma GetPut(ram: Ram, address: Word, bs: seq<Byte>)
    requires InMemory(ram, address) && |bs| <= 4
    ensures GetBytes(PutBytes(ram, address, bs), address, |bs|) == bs
  {
  }

  lemma ReadBackWord(ram: Ram, address: Word, v: Word, be: bool)
    requires InMemory(ram, address)
    ensures WordAt(PutWord(ram, address, v, be), address, be) == v
  {
    GetPut(ram, address, Split(v, 4, be));
    OrderedTwice(ToBig(v, 4), be);
    DigitsComposeWord(v);
  }

  lemma ReadBackHalf(ram: Ram, address: Word, v: Half, be: bool)
    requires InMemory(ram, address)
    ensures HalfAt(PutHalf(ram, address, v, be), address, be) == v
  {
    GetPut(ram, address, Split(v, 2, be));
    OrderedTwice(ToBig(v, 2), be);
    DigitsComposeHalf(v);
  }

  /** Writing back the word read changes nothing. */
  lemma WriteBackWord(ram: Ram, address: Word, be: bool)
    requires InMemory(ram, address)
    ensures PutWord(ram, address, WordAt(ram, address, be), be) == ram
  {
    var bs := GetBytes(ram, address, 4);
    SplitCompose(Ordered(bs, be));
    OrderedTwice(bs, be);
  }

  lemma OppositeByteOrder(ram: Ram, address: Word, be: bool)
    requires InMemory(ram, address)
    ensures WordAt(ram, address, !be) == Reverse4(WordAt(ram, address, be))
    ensures HalfAt(ram, address, !be) == Reverse2(HalfAt(ram, address, be))
  {
    var bs := GetBytes(ram, address, 4);
    Reverse4Reverses(Ordered(bs, be));
    ReversedTwice(bs);
    var hs := GetBytes(ram, address, 2);
    Reverse2Reverses(Ordered(hs, be));
    ReversedTwice(hs);
  }

  // ----- words that lie in the memory and do not overlap -----

  lemma CellFrame(ram: Ram, ram': Ram, address: Word, be: bool)
    requires |ram'| == |ram| && InMemory(ram, address)
    requires forall i: nat | i < 4 :: At(address, i) < |ram| && ram'[At(address, i)] == ram[At(address, i)]
    ensures WordAt(ram', address, be) == WordAt(ram, address, be)
  {
    assert GetBytes(ram', address, 4) == GetBytes(ram, address, 4);
  }

  lemma WordFrame(ram: Ram, ram': Ram, address: Word, be: bool)
    requires |ram'| == |ram| && Whole(ram, address, 4)
    requires forall p | address <= p < address + 4 :: ram'[p] == ram[p]
    ensures WordAt(ram', address, be) == WordAt(ram, address, be)
  {
    forall i: nat | i < 4 ensures At(address, i) < |ram| && ram'[At(address, i)] == ram[At(address, i)] {
      assert At(address, i) == address + i;
    }
    CellFrame(ram, ram', address, be);
  }

  lemma PutWordFrame(ram: Ram, address: Word, v: Word, be: bool)
    requires Whole(ram, address, 4)
    ensures forall p | 0 <= p < |ram| && !(address <= p < address + 4) :: PutWord(ram, address, v, be)[p] == ram[p]
  {
    forall p | 0 <= p < |ram| && !(address <= p < address + 4)
      ensures PutWord(ram, address, v, be)[p] == ram[p]
    {
      forall i | 0 <= i < 4 ensures p != At(address, i) {
        assert At(address, i) == address + i;
      }
    }
  }

  lemma PutWordElsewhere(ram: Ram, address: Word, v: Word, other: Word, be: bool)
    requires Whole(ram, address, 4) && Whole(ram, other, 4)
    requires other + 4 <= address || address + 4 <= other
    ensures WordAt(PutWord(ram, address, v, be), other, be) == WordAt(ram, other, be)
  {
    PutWordFrame(ram, address, v, be);
    WordFrame(ram, PutWord(ram, address, v, be), other, be);
  }

  /** Equal words have equal bytes. */
  lemma WordBytes(ram: Ram, a: Word, ram': Ram, a': Word, be: bool)
    requires InMemory(ram, a) && InMemory(ram', a')
    requires WordAt(ram, a, be) == WordAt(ram', a', be)
    ensures GetBytes(ram, a, 4) == GetBytes(ram', a', 4)
  {
    var bs := GetBytes(ram, a, 4);
    var bs' := GetBytes(ram', a', 4);
    SplitCompose(Ordered(bs, be));
    SplitCompose(Ordered(bs', be));
    OrderedTwice(bs, be);
    OrderedTwice(bs', be);
  }

  // ----- what the bounds test of an access guarantees -----

  /** An accepted access of n bytes stays in the memory exactly when its last byte is
      below the size, or the memory spans the whole address space. */
  lemma AcceptedAccessInside(ram: Ram, address: Word, n: nat)
    requires InMemory(ram, address) && 1 <= n <= 4
    ensures (forall i | 0 <= i < n :: At(address, i) < Size(ram))
       <==> (address + n <= Size(ram) || Size(ram) >= 0x1_0000_0000)
  {
    if Size(ram) < address + n && Size(ram) < 0x1_0000_0000 {
      assert At(address, Size(ram) - address) == Size(ram);
    }
  }

  /** A word written at the last byte of a memory is accepted, yet reaches outside. */
  lemma AcceptedAccessOutside(ram: Ram)
    requires 1 <= Size(ram) < 0x1_0000_0000
    ensures InMemory(ram, Size(ram) - 1) && At(Size(ram) - 1, 1) == Size(ram)
  {
  }

  // ----- histories of writes -----

  datatype Store =
    | StoreByte(address: Word, byte: Byte)
    | StoreHalf(address: Word, half: Half, be: bool)
    | StoreWord(address: Word, word: Word, be: bool)
  {
    function ApplyTo(ram: Ram): (ram': Ram)
      ensures |ram'| == |ram|
    {
      if !InMemory(ram, address) then ram
      else match this
           case StoreByte(_, v) => PutByte(ram, address, v)
           case StoreHalf(_, v, be) => PutHalf(ram, address, v, be)
           case StoreWord(_, v, be) => PutWord(ram, address, v, be)
    }

    function Width(): nat {
      match this
      case StoreByte(_, _) => 1
      case StoreHalf(_, _, _) => 2
      case StoreWord(_, _, _) => 4
    }

    /** Byte i of the value in increasing address order. */
    function Digit(i: nat): Byte
      requires i < Width()
    {
      match this
      case StoreByte(_, v) => v
      case StoreHalf(_, v, be) => if be == (i == 0) then v / 0x100 else v % 0x100
      case StoreWord(_, v, be) =>
        var k := if be then 3 - i else i;
        if k == 0 then v % 0x100
        else if k == 1 then v / 0x100 % 0x100
        else if k == 2 then v / 0x1_0000 % 0x100
        else v / 0x100_0000
    }

    /** Distance of cell p from the address, on 32 bits. */
    function Offset(p: nat): nat
      requires p < 0x1_0000_0000
    {
      if address <= p then p - address else p - address + 0x1_0000_0000
    }

    predicate Covers(p: nat) {
      p < 0x1_0000_0000 && Offset(p) < Width()
    }
  }

  function Replay(ram: Ram, history: seq<Store>): (ram': Ram)
    ensures |ram'| == |ram|
  {
    if history == [] then ram
    else
      var last := |history| - 1;
      history[last].ApplyTo(Replay(ram, history[..last]))
  }

  /** The byte map: the byte of the last accepted store that covers p. */
  function LastByte(ram: Ram, history: seq<Store>, p: nat): Byte
    requires p < |ram|
  {
    if history == [] then ram[p]
    else
      var last := |history| - 1;
      var s := history[last];
      if InMemory(ram, s.address) && s.Covers(p) then s.Digit(s.Offset(p))
      else LastByte(ram, history[..last], p)
  }

  lemma DigitsAreSplit(s: Store, i: nat)
    requires i < s.Width()
    ensures !s.StoreByte? ==> s.Digit(i) == (match s
                                             case StoreHalf(_, v, be) => Split(v, 2, be)[i]
                                             case StoreWord(_, v, be) => Split(v, 4, be)[i])
  {
    match s
    case StoreByte(_, _) =>
    case StoreHalf(_, v, be) =>
      ToBigOf2(v);
      if i == 0 {} else { assert i == 1; }
    case StoreWord(_, v, be) =>
      ToBigOf4(v);
      if i == 0 {} else if i == 1 {} else if i == 2 {} else { assert i == 3; }
  }

  lemma CoveredCell(s: Store, p: nat)
    ensures s.Covers(p) ==> At(s.address, s.Offset(p)) == p
    ensures !s.Covers(p) ==> forall i | 0 <= i < s.Width() :: p != At(s.address, i)
  {
  }

  lemma OneStore(ram: Ram, s: Store, p: nat)
    requires p < |ram|
    ensures s.ApplyTo(ram)[p] == if InMemory(ram, s.address) && s.Covers(p) then s.Digit(s.Offset(p)) else ram[p]
  {
    CoveredCell(s, p);
    if InMemory(ram, s.address) {
      match s
      case StoreByte(_, _) =>
        assert At(s.address, 0) == s.address;
      case StoreHalf(_, v, be) =>
        if s.Covers(p) {
          DigitsAreSplit(s, s.Offset(p));
          assert PutHalf(ram, s.address, v, be)[At(s.address, s.Offset(p))] == Split(v, 2, be)[s.Offset(p)];
        }
      case StoreWord(_, v, be) =>
        if s.Covers(p) {
          DigitsAreSplit(s, s.Offset(p));
          assert PutWord(ram, s.address, v, be)[At(s.address, s.Offset(p))] == Split(v, 4, be)[s.Offset(p)];
        }
    }
  }

  lemma {:induction false} EveryByteIsTheLastWritten(ram: Ram, history: seq<Store>, p: nat)
    requires p < |ram|
    ensures Replay(ram, history)[p] == LastByte(ram, history, p)
    decreases |history|
  {
    if history == [] {
    } else {
      var last := |history| - 1;
      EveryByteIsTheLastWritten(ram, history[..last], p);
      OneStore(Replay(ram, history[..last]), history[last], p);
    }
  }

  /** Every read, of any width, in any byte order, at any address of the memory. */
  lemma ReadsCombineLastBytes(ram: Ram, history: seq<Store>, a: Word, be: bool)
    requires InMemory(ram, a)
    ensures At(a, 1) < |ram| && At(a, 2) < |ram| && At(a, 3) < |ram|
    ensures var r := Replay(ram, history);
            var b0 := LastByte(ram, history, a) as int;
            var b1 := LastByte(ram, history, At(a, 1)) as int;
            var b2 := LastByte(ram, history, At(a, 2)) as int;
            var b3 := LastByte(ram, history, At(a, 3)) as int;
            && ByteAt(r, a) == b0
            && HalfAt(r, a, be) == (if be then b0 * 0x100 + b1 else b1 * 0x100 + b0)
            && WordAt(r, a, be) == (if be then b0 * 0x100_0000 + b1 * 0x1_0000 + b2 * 0x100 + b3
                                    else b3 * 0x100_0000 + b2 * 0x1_0000 + b1 * 0x100 + b0)
  {
    var r := Replay(ram, history);
    WordFromCells(r, a, be);
    HalfFromCells(r, a, be);
    EveryByteIsTheLastWritten(ram, history, a);
    EveryByteIsTheLastWritten(ram, history, At(a, 1));
    EveryByteIsTheLastWritten(ram, history, At(a, 2));
    EveryByteIsTheLastWritten(ram, history, At(a, 3));
  }

  lemma WordFromCells(r: Ram, a: Word, be: bool)
    requires InMemory(r, a)
    ensures At(a, 1) < |r| && At(a, 2) < |r| && At(a, 3) < |r|
    ensures var b0, b1, b2, b3 := r[a] as int, r[At(a, 1)] as int, r[At(a, 2)] as int, r[At(a, 3)] as int;
            WordAt(r, a, be) == if be then b0 * 0x100_0000 + b1 * 0x1_0000 + b2 * 0x100 + b3
                                else b3 * 0x100_0000 + b2 * 0x1_0000 + b1 * 0x100 + b0
  {
    var bs := GetBytes(r, a, 4);
    assert bs[0] == r[At(a, 0)] && bs[1] == r[At(a, 1)] && bs[2] == r[At(a, 2)] && bs[3] == r[At(a, 3)];
    FromBigOf4(Ordered(bs, be));
  }

  lemma HalfFromCells(r: Ram, a: Word, be: bool)
    requires InMemory(r, a)
    ensures At(a, 1) < |r|
    ensures HalfAt(r, a, be) == if be then r[a] as int * 0x100 + r[At(a, 1)] else r[At(a, 1)] as int * 0x100 + r[a]
  {
    var bs := GetBytes(r, a, 2);
    assert bs[0] == r[At(a, 0)] && bs[1] == r[At(a, 1)];
    FromBigOf2(Ordered(bs, be));
  }

  // ----- accesses of different widths agree -----

  /** After a word store, byte and half-word loads inside it return its parts. */
  lemma BytesOfStoredWord(ram: Ram, a: Word, v: Word, be: bool, i: nat)
    requires InMemory(ram, a) && i < 4 && InMemory(ram, At(a, i))
    ensures ByteAt(PutWord(ram, a, v, be), At(a, i)) == v / Pow2(8 * (if be then 3 - i else i)) % 0x100
  {
    StoredDigit(ram, a, v, be, i);
    DigitIsSlice(v, if be then 3 - i else i);
  }

  /** Byte i of a stored word. */
  lemma StoredDigit(ram: Ram, a: Word, v: Word, be: bool, i: nat)
    requires InMemory(ram, a) && i < 4
    ensures At(a, i) < |ram| && PutWord(ram, a, v, be)[At(a, i)] == StoreWord(a, v, be).Digit(i)
  {
    OneStore(ram, StoreWord(a, v, be), At(a, i));
  }

  lemma DigitIsSlice(v: Word, k: nat)
    requires k < 4
    ensures v / Pow2(8 * k) % 0x100 == if k == 0 then v % 0x100
                                       else if k == 1 then v / 0x100 % 0x100
                                       else if k == 2 then v / 0x1_0000 % 0x100
                                       else v / 0x100_0000
  {
    Pow2Values();
    assert Pow2(8 * k) == if k == 0 then 1 else if k == 1 then 0x100 else if k == 2 then 0x1_0000 else 0x100_0000;
  }

  lemma HalvesOfStoredWord(ram: Ram, a: Word, v: Word, be: bool)
    requires InMemory(ram, a)
    ensures HalfAt(PutWord(ram, a, v, be), a, be) == if be then v / 0x1_0000 else v % 0x1_0000
    ensures InMemory(ram, At(a, 2))
        ==> HalfAt(PutWord(ram, a, v, be), At(a, 2), be) == if be then v % 0x1_0000 else v / 0x1_0000
  {
    var r := PutWord(ram, a, v, be);
    StoredDigit(ram, a, v, be, 0);
    StoredDigit(ram, a, v, be, 1);
    StoredDigit(ram, a, v, be, 2);
    StoredDigit(ram, a, v, be, 3);
    HalvesOfWord(v);
    hide PutWord, HalfAt;
    HalfFromCells(r, a, be);
    if InMemory(ram, At(a, 2)) {
      HalfFromCells(r, At(a, 2), be);
      assert At(At(a, 2), 1) == At(a, 3);
    }
  }

  lemma HalvesOfWord(v: Word)
    ensures v / 0x100_0000 * 0x100 + v / 0x1_0000 % 0x100 == v / 0x1_0000
    ensures v / 0x100 % 0x100 * 0x100 + v % 0x100 == v % 0x1_0000
    ensures v % 0x1_0000 / 0x100 == v / 0x100 % 0x100
    ensures v / 0x1_0000 / 0x100 == v / 0x100_0000
  {
    assert v / 0x100 / 0x100 == v / 0x1_0000;
    assert v / 0x1_0000 / 0x100 == v / 0x100_0000;
    var low := v % 0x1_0000;
    assert v == v / 0x1_0000 * 0x1_0000 + low;
    LowHalf(v / 0x1_0000, low, v);
  }

  lemma LowHalf(hi: nat, lo: Half, v: nat)
    requires v == hi * 0x1_0000 + lo
    ensures v % 0x100 == lo % 0x100
    ensures v / 0x100 % 0x100 == lo / 0x100
  {
    assert v / 0x100 == hi * 0x100 + lo / 0x100;
  }

  /** The two half-word stores, and the four byte stores, that spell the word v. */
  function AsHalves(a: Word, v: Word, be: bool): seq<Store> {
    var hi, lo: Half := v / 0x1_0000, v % 0x1_0000;
    [StoreHalf(a, if be then hi else lo, be), StoreHalf(At(a, 2), if be then lo else hi, be)]
  }

  function AsBytes(a: Word, v: Word, be: bool): seq<Store> {
    var s := StoreWord(a, v, be);
    [StoreByte(a, s.Digit(0)), StoreByte(At(a, 1), s.Digit(1)),
     StoreByte(At(a, 2), s.Digit(2)), StoreByte(At(a, 3), s.Digit(3))]
  }

  /** Two accepted half-word stores are one word store. */
  lemma HalvesMakeWord(ram: Ram, a: Word, v: Word, be: bool)
    requires InMemory(ram, a) && InMemory(ram, At(a, 2))
    ensures Replay(ram, AsHalves(a, v, be)) == PutWord(ram, a, v, be)
  {
    var r, w := Replay(ram, AsHalves(a, v, be)), PutWord(ram, a, v, be);
    forall p | 0 <= p < |ram| ensures r[p] == w[p] {
      EveryByteIsTheLastWritten(ram, AsHalves(a, v, be), p);
      LastOfHalves(ram, a, v, be, p);
      OneStore(ram, StoreWord(a, v, be), p);
    }
  }

  /** Four accepted byte stores are one word store. */
  lemma BytesMakeWord(ram: Ram, a: Word, v: Word, be: bool)
    requires InMemory(ram, a) && InMemory(ram, At(a, 1)) && InMemory(ram, At(a, 2)) && InMemory(ram, At(a, 3))
    ensures Replay(ram, AsBytes(a, v, be)) == PutWord(ram, a, v, be)
  {
    var r, w := Replay(ram, AsBytes(a, v, be)), PutWord(ram, a, v, be);
    forall p | 0 <= p < |ram| ensures r[p] == w[p] {
      EveryByteIsTheLastWritten(ram, AsBytes(a, v, be), p);
      LastOfBytes(ram, a, v, be, p);
      OneStore(ram, StoreWord(a, v, be), p);
    }
  }

  lemma LastOfHalves(ram: Ram, a: Word, v: Word, be: bool, p: nat)
    requires InMemory(ram, a) && InMemory(ram, At(a, 2)) && p < |ram|
    ensures var s := StoreWord(a, v, be);
            LastByte(ram, AsHalves(a, v, be), p) == if s.Covers(p) then s.Digit(s.Offset(p)) else ram[p]
  {
    var h := AsHalves(a, v, be);
    assert h[..1][..0] == [];
    HalvesOfWord(v);
    assert LastByte(ram, h[..1], p) == if h[0].Covers(p) then h[0].Digit(h[0].Offset(p)) else ram[p];
  }

  lemma LastOfBytes(ram: Ram, a: Word, v: Word, be: bool, p: nat)
    requires InMemory(ram, a) && InMemory(ram, At(a, 1)) && InMemory(ram, At(a, 2)) && InMemory(ram, At(a, 3))
    requires p < |ram|
    ensures var s := StoreWord(a, v, be);
            LastByte(ram, AsBytes(a, v, be), p) == if s.Covers(p) then s.Digit(s.Offset(p)) else ram[p]
  {
    var h := AsBytes(a, v, be);
    var h3, h2, h1 := h[..3], h[..2], h[..1];
    assert h3[..2] == h2 && h2[..1] == h1 && h1[..0] == [];
    assert LastByte(ram, h1, p) == if p == a then h[0].byte else ram[p];
    assert LastByte(ram, h2, p) == if p == At(a, 1) then h[1].byte else LastByte(ram, h1, p);
    assert LastByte(ram, h3, p) == if p == At(a, 2) then h[2].byte else LastByte(ram, h2, p);
  }
}
