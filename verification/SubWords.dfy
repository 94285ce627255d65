/**
 Single transfers of different widths: loads inside a stored word, words loaded
 from stored halves and bytes, and the general law behind them: a load combines
 the last bytes that the completed stores wrote.
 */
module SubWords {
  import opened Words
  import opened MainMemory
  import opened MemoryMap
  import opened Core
  import opened SingleLaws

  // ----- accesses of one width -----

  lemma WordStored(st: Access, m: Machine)
    requires Stores(st) && Width(st.ins) == 4 && LeadsTo(st, m)
    ensures st.m.Reaches(Address(st)) && m.bigEndian == st.m.bigEndian
    ensures m.mem == PutWord(st.m.mem, Address(st), StoredValue(st), m.bigEndian)
  {
    hide Stores, Result, Address, PutWord, StoredValue;
    StoreMemory(st);
  }

  lemma HalfStored(st: Access, m: Machine)
    requires Stores(st) && Width(st.ins) == 2 && LeadsTo(st, m)
    ensures st.m.Reaches(Address(st)) && StoredValue(st) < 0x1_0000 && m.bigEndian == st.m.bigEndian
    ensures m.mem == PutHalf(st.m.mem, Address(st), StoredValue(st), m.bigEndian)
  {
    hide Stores, Result, Address, PutHalf, AtAccess;
    StoreMemory(st);
  }

  lemma ByteStored(st: Access, m: Machine)
    requires Stores(st) && Width(st.ins) == 1 && LeadsTo(st, m)
    ensures st.m.Reaches(Address(st)) && StoredValue(st) < 0x100 && m.bigEndian == st.m.bigEndian
    ensures m.mem == PutByte(st.m.mem, Address(st), StoredValue(st))
  {
    hide Stores, Result, Address, PutByte, AtAccess;
    StoreMemory(st);
  }

  // ----- inside a stored word -----

  /** A byte load inside a stored word loads that byte of it. */
  lemma WordThenByte(st: Access, ld: Access, i: nat)
    requires Stores(st) && LeadsTo(st, ld.m) && Loads(ld)
    requires Width(st.ins) == 4 && Width(ld.ins) == 1 && i < 4 && Address(ld) == At(Address(st), i)
    ensures var k := if st.m.bigEndian then 3 - i else i;
            Result(ld) == LoadDone(ld.m, ld.ins, StoredValue(st) / Pow2(8 * k) % 0x100)
  {
    hide Stores, Loads, LeadsTo, Result, Address, PutWord, Pow2, LoadDone, StoredValue, Width;
    WordStored(st, ld.m);
    LoadLaw(ld);
    BytesOfStoredWord(st.m.mem, Address(st), StoredValue(st), st.m.bigEndian, i);
  }

  /** A half-word load of either half of a stored word loads that half of it. */
  lemma WordThenHalf(st: Access, ld: Access, j: nat)
    requires Stores(st) && LeadsTo(st, ld.m) && Loads(ld)
    requires Width(st.ins) == 4 && Width(ld.ins) == 2 && j < 2 && Address(ld) == At(Address(st), 2 * j)
    ensures var v := StoredValue(st);
            Result(ld) == LoadDone(ld.m, ld.ins, if st.m.bigEndian == (j == 0) then v / 0x1_0000 else v % 0x1_0000)
  {
    hide Stores, Loads, LeadsTo, Result, Address, PutWord, HalfAt, LoadDone, StoredValue, Width;
    WordStored(st, ld.m);
    LoadLaw(ld);
    HalvesOfStoredWord(st.m.mem, Address(st), StoredValue(st), st.m.bigEndian);
  }

  // ----- a word in parts -----

  /** Two half-word stores, then a word load: the word that the halves spell. */
  lemma HalvesThenWord(first: Access, second: Access, ld: Access)
    requires Stores(first) && LeadsTo(first, second.m) && Stores(second) && LeadsTo(second, ld.m) && Loads(ld)
    requires Width(first.ins) == 2 && Width(second.ins) == 2 && Width(ld.ins) == 4
    requires Address(ld) == Address(first) && Address(second) == At(Address(first), 2)
    ensures var h0, h1 := StoredValue(first), StoredValue(second);
            && h0 < 0x1_0000 && h1 < 0x1_0000
            && Result(ld) == LoadDone(ld.m, ld.ins, SpelledByHalves(h0, h1, ld.m.bigEndian))
  {
    hide Stores, Loads, LeadsTo, Result, Address, PutHalf, PutWord, LoadDone, StoredValue, SpelledByHalves, Width;
    HalfStored(first, second.m);
    HalfStored(second, ld.m);
    var h0, h1 := StoredValue(first), StoredValue(second);
    HalvesSpell(first.m.mem, Address(ld), h0, h1, ld.m.bigEndian);
    WordLoaded(ld, first.m.mem, SpelledByHalves(h0, h1, ld.m.bigEndian));
  }

  lemma WordLoaded(ld: Access, ram: Ram, v: Word)
    requires Loads(ld) && Width(ld.ins) == 4
    requires InMemory(ram, Address(ld)) && ld.m.mem == PutWord(ram, Address(ld), v, ld.m.bigEndian)
    ensures Result(ld) == LoadDone(ld.m, ld.ins, v)
  {
    hide Loads, Result, Address, PutWord, WordAt, LoadDone;
    LoadLaw(ld);
    ReadBackWord(ram, Address(ld), v, ld.m.bigEndian);
  }

  /** The word whose half-words are h0 and, at the next half-word address, h1. */
  function SpelledByHalves(h0: Half, h1: Half, be: bool): Word {
    if be then h0 as int * 0x1_0000 + h1 else h1 as int * 0x1_0000 + h0
  }

  lemma HalvesSpell(ram: Ram, a: Word, h0: Half, h1: Half, be: bool)
    requires InMemory(ram, a) && InMemory(ram, At(a, 2))
    ensures PutHalf(PutHalf(ram, a, h0, be), At(a, 2), h1, be) == PutWord(ram, a, SpelledByHalves(h0, h1, be), be)
  {
    var v := SpelledByHalves(h0, h1, be);
    var h := AsHalves(a, v, be);
    hide PutHalf, PutWord;
    assert h == [StoreHalf(a, h0, be), StoreHalf(At(a, 2), h1, be)];
    assert h[..1][..0] == [];
    assert Replay(ram, h[..1]) == PutHalf(ram, a, h0, be);
    HalvesMakeWord(ram, a, v, be);
  }

  /** The store of byte i of a word at a completes and leads to m. */
  predicate StoresByte(st: Access, a: Word, i: nat, m: Machine)
    requires i < 4
  {
    Stores(st) && Width(st.ins) == 1 && Address(st) == At(a, i) && LeadsTo(st, m)
  }

  /** Four byte stores, then a word load: the word that the bytes spell. */
  lemma BytesThenWord(x0: Access, x1: Access, x2: Access, x3: Access, ld: Access)
    requires StoresByte(x0, Address(ld), 0, x1.m) && StoresByte(x1, Address(ld), 1, x2.m)
    requires StoresByte(x2, Address(ld), 2, x3.m) && StoresByte(x3, Address(ld), 3, ld.m)
    requires Loads(ld) && Width(ld.ins) == 4
    ensures var b0, b1, b2, b3 := StoredValue(x0), StoredValue(x1), StoredValue(x2), StoredValue(x3);
            && b0 < 0x100 && b1 < 0x100 && b2 < 0x100 && b3 < 0x100
            && Result(ld) == LoadDone(ld.m, ld.ins, SpelledByBytes(b0, b1, b2, b3, ld.m.bigEndian))
  {
    hide Stores, Loads, LeadsTo, Result, Address, PutByte, PutWord, LoadDone, StoredValue, SpelledByBytes, Width;
    var a := Address(ld);
    ByteStored(x0, x1.m);
    ByteStored(x1, x2.m);
    ByteStored(x2, x3.m);
    ByteStored(x3, ld.m);
    var b0, b1, b2, b3 := StoredValue(x0), StoredValue(x1), StoredValue(x2), StoredValue(x3);
    BytesSpell(x0.m.mem, a, b0, b1, b2, b3, ld.m.bigEndian);
    WordLoaded(ld, x0.m.mem, SpelledByBytes(b0, b1, b2, b3, ld.m.bigEndian));
  }

  /** The word whose bytes in increasing address order are b0 to b3. */
  function SpelledByBytes(b0: Byte, b1: Byte, b2: Byte, b3: Byte, be: bool): Word {
    FourDigits(if be then b0 else b3, if be then b1 else b2, if be then b2 else b1, if be then b3 else b0)
  }

  function FourDigits(d3: Byte, d2: Byte, d1: Byte, d0: Byte): Word {
    d3 as int * 0x100_0000 + d2 as int * 0x1_0000 + d1 as int * 0x100 + d0
  }

  lemma DigitsOfFour(d3: Byte, d2: Byte, d1: Byte, d0: Byte)
    ensures var v := FourDigits(d3, d2, d1, d0);
            v / 0x100_0000 == d3 && v / 0x1_0000 % 0x100 == d2 && v / 0x100 % 0x100 == d1 && v % 0x100 == d0
  {
    var v := FourDigits(d3, d2, d1, d0);
    assert v / 0x100 == d3 as int * 0x1_0000 + d2 as int * 0x100 + d1;
    assert v / 0x1_0000 == d3 as int * 0x100 + d2;
  }

  lemma BytesSpell(ram: Ram, a: Word, b0: Byte, b1: Byte, b2: Byte, b3: Byte, be: bool)
    requires InMemory(ram, a) && InMemory(ram, At(a, 1)) && InMemory(ram, At(a, 2)) && InMemory(ram, At(a, 3))
    ensures PutByte(PutByte(PutByte(PutByte(ram, a, b0), At(a, 1), b1), At(a, 2), b2), At(a, 3), b3)
         == PutWord(ram, a, SpelledByBytes(b0, b1, b2, b3, be), be)
  {
    var v := SpelledByBytes(b0, b1, b2, b3, be);
    if be { DigitsOfFour(b0, b1, b2, b3); } else { DigitsOfFour(b3, b2, b1, b0); }
    var h := AsBytes(a, v, be);
    assert h == [StoreByte(a, b0), StoreByte(At(a, 1), b1), StoreByte(At(a, 2), b2), StoreByte(At(a, 3), b3)];
    hide PutWord, SpelledByBytes;
    BytesMakeWord(ram, a, v, be);
    assert h[..3][..2] == h[..2] && h[..2][..1] == h[..1] && h[..1][..0] == [];
    assert Replay(ram, h[..1]) == PutByte(ram, a, b0);
    assert Replay(ram, h[..2]) == PutByte(PutByte(ram, a, b0), At(a, 1), b1);
    assert Replay(ram, h[..3]) == PutByte(PutByte(PutByte(ram, a, b0), At(a, 1), b1), At(a, 2), b2);
  }

  // ----- any stores, then a load -----

  /** A store as an event of the history of the memory. */
  function EventOf(st: Access): Store {
    if Width(st.ins) == 1 then StoreByte(Address(st), StoredValue(st) % 0x100)
    else if Width(st.ins) == 2 then StoreHalf(Address(st), StoredValue(st) % 0x1_0000, st.m.bigEndian)
    else StoreWord(Address(st), StoredValue(st), st.m.bigEndian)
  }

  lemma StoreIsEvent(st: Access)
    requires Stores(st)
    ensures st.m.Reaches(Address(st)) && Result(st).mem == EventOf(st).ApplyTo(st.m.mem)
  {
    StoreMemory(st);
    hide Stores, Result, Address, PutWord, PutHalf, PutByte, StoredValue;
  }

  /** From the memory of m, the stores complete one after the other and leave the memory of
      m'. Between them, registers may change in any way. */
  predicate InOrder(m: Machine, stores: seq<Access>, m': Machine) {
    if stores == [] then m'.mem == m.mem && m'.bigEndian == m.bigEndian
    else
      var last := |stores| - 1;
      Stores(stores[last]) && LeadsTo(stores[last], m') && InOrder(m, stores[..last], stores[last].m)
  }

  function History(stores: seq<Access>): (h: seq<Store>)
    ensures |h| == |stores|
  {
    if stores == [] then [] else History(stores[..|stores| - 1]) + [EventOf(stores[|stores| - 1])]
  }

  lemma {:induction false} StoresReplay(m: Machine, stores: seq<Access>, m': Machine)
    requires InOrder(m, stores, m')
    ensures m'.mem == Replay(m.mem, History(stores)) && m'.bigEndian == m.bigEndian
    decreases |stores|
  {
    hide Stores, EventOf, Result;
    if stores == [] {
    } else {
      var last := |stores| - 1;
      StoresReplay(m, stores[..last], stores[last].m);
      StoreIsEvent(stores[last]);
      assert History(stores)[..last] == History(stores[..last]);
    }
  }

  /** The last bytes written at an address and after it, combined in the byte order. */
  function LastValue(ram: Ram, history: seq<Store>, a: Word, width: nat, be: bool): Word
    requires InMemory(ram, a)
  {
    var (b0, b1, b2, b3) := LastBytes(ram, history, a);
    if width == 1 then b0
    else if width == 2 then if be then b0 * 0x100 + b1 else b1 * 0x100 + b0
    else if be then b0 * 0x100_0000 + b1 * 0x1_0000 + b2 * 0x100 + b3
    else b3 * 0x100_0000 + b2 * 0x1_0000 + b1 * 0x100 + b0
  }

  function LastBytes(ram: Ram, history: seq<Store>, a: Word): (b: (int, int, int, int))
    requires InMemory(ram, a)
    ensures 0 <= b.0 < 0x100 && 0 <= b.1 < 0x100 && 0 <= b.2 < 0x100 && 0 <= b.3 < 0x100
  {
    assert At(a, 1) < |ram| && At(a, 2) < |ram| && At(a, 3) < |ram|;
    (LastByte(ram, history, a), LastByte(ram, history, At(a, 1)),
     LastByte(ram, history, At(a, 2)), LastByte(ram, history, At(a, 3)))
  }

  /** After any completed stores of any widths and addressing modes, overlaps included, any
      completed load loads the combination of the last bytes written. */
  lemma LoadCombinesLastBytes(m: Machine, stores: seq<Access>, ld: Access)
    requires InOrder(m, stores, ld.m) && Loads(ld)
    ensures m.Reaches(Address(ld))
    ensures var v := LastValue(m.mem, History(stores), Address(ld), Width(ld.ins), m.bigEndian);
            Result(ld) == LoadDone(ld.m, ld.ins, v)
  {
    LoadLaw(ld);
    StoresReplay(m, stores, ld.m);
    hide Loads, Result, Address, InOrder, History, Replay, LoadDone;
    ValueCombines(ld.m, m.mem, History(stores), Address(ld), Width(ld.ins));
  }

  lemma ValueCombines(m: Machine, ram: Ram, history: seq<Store>, a: Word, width: nat)
    requires m.mem == Replay(ram, history) && InMemory(ram, a)
    ensures ValueAt(m, a, width) == LastValue(ram, history, a, width, m.bigEndian)
  {
    hide WordAt, HalfAt, LastByte, Replay;
    ReadsCombineLastBytes(ram, history, a, m.bigEndian);
  }
}
