/**
 The simulated memory: a byte array accessed by bytes, half-words and words in
 either byte order. The bounds test of the code looks at the first byte of an
 access only, so the array carries three more cells of unspecified content
 behind the `size` bytes of the memory: they stand for whatever an access that
 starts on the last bytes reaches.
 */
module MainMemory {
  import opened Words

  type Ram = s: seq<Byte> | |s| >= 3 witness [0, 0, 0]

  function Size(ram: Ram): nat {
    |ram| - 3
  }

  predicate InMemory(ram: Ram, address: Word) {
    address < Size(ram)
  }

  /** All n bytes of the access are bytes of the memory. */
  predicate Whole(ram: Ram, address: int, n: nat) {
    0 <= address && address + n <= Size(ram) && address + n <= 0x1_0000_0000
  }

  /** Cell of byte i of an access; addresses are 32-bit. */
  function At(address: Word, i: nat): (p: nat)
    requires i <= 4
    ensures p == (address + i) % 0x1_0000_0000
  {
    if address + i < 0x1_0000_0000 then address + i else address + i - 0x1_0000_0000
  }

  function GetBytes(ram: Ram, address: Word, n: nat): (bs: seq<Byte>)
    requires InMemory(ram, address) && n <= 4
    ensures |bs| == n
    ensures forall i | 0 <= i < n :: At(address, i) < |ram| && bs[i] == ram[At(address, i)]
  {
    if n == 0 then [] else GetBytes(ram, address, n - 1) + [ram[At(address, n - 1)]]
  }

  function PutBytes(ram: Ram, address: Word, bs: seq<Byte>): (ram': Ram)
    requires InMemory(ram, address) && |bs| <= 4
    ensures |ram'| == |ram|
    ensures forall i | 0 <= i < |bs| :: At(address, i) < |ram| && ram'[At(address, i)] == bs[i]
    ensures forall p | 0 <= p < |ram| && (forall i | 0 <= i < |bs| :: p != At(address, i)) :: ram'[p] == ram[p]
  {
    if bs == [] then ram
    else
      var last := |bs| - 1;
      PutBytes(ram, address, bs[..last])[At(address, last) := bs[last]]
  }

  // ----- byte order -----

  /** The number whose base-256 digits are bs, most significant first. */
  function FromBig(bs: seq<Byte>): nat {
    if bs == [] then 0 else FromBig(bs[..|bs| - 1]) * 0x100 + bs[|bs| - 1]
  }

  /** The n low base-256 digits of v, most significant first. */
  function ToBig(v: nat, n: nat): (bs: seq<Byte>)
    ensures |bs| == n
  {
    if n == 0 then [] else ToBig(v / 0x100, n - 1) + [v % 0x100]
  }

  function Reversed(bs: seq<Byte>): (r: seq<Byte>)
    ensures |r| == |bs|
    ensures forall i | 0 <= i < |bs| :: r[i] == bs[|bs| - 1 - i]
  {
    if bs == [] then [] else Reversed(bs[1..]) + [bs[0]]
  }

  function Ordered(bs: seq<Byte>, be: bool): (r: seq<Byte>)
    ensures |r| == |bs|
  {
    if be then bs else Reversed(bs)
  }

  function Split(v: nat, n: nat, be: bool): (bs: seq<Byte>)
    ensures |bs| == n
  {
    Ordered(ToBig(v, n), be)
  }

  // ----- the accesses -----

  function ByteAt(ram: Ram, address: Word): Byte
    requires InMemory(ram, address)
  {
    ram[address]
  }

  function HalfAt(ram: Ram, address: Word, be: bool): (v: Half)
    requires InMemory(ram, address)
  {
    var bs := Ordered(GetBytes(ram, address, 2), be);
    FromBigOf2(bs);
    FromBig(bs)
  }

  function WordAt(ram: Ram, address: Word, be: bool): (v: Word)
    requires InMemory(ram, address)
  {
    var bs := Ordered(GetBytes(ram, address, 4), be);
    FromBigOf4(bs);
    FromBig(bs)
  }

  function PutByte(ram: Ram, address: Word, v: Byte): (ram': Ram)
    requires InMemory(ram, address)
    ensures |ram'| == |ram|
  {
    ram[address := v]
  }

  function PutHalf(ram: Ram, address: Word, v: Half, be: bool): (ram': Ram)
    requires InMemory(ram, address)
    ensures |ram'| == |ram|
  {
    PutBytes(ram, address, Split(v, 2, be))
  }

  function PutWord(ram: Ram, address: Word, v: Word, be: bool): (ram': Ram)
    requires InMemory(ram, address)
    ensures |ram'| == |ram|
  {
    PutBytes(ram, address, Split(v, 4, be))
  }

  lemma FromBigOf2(bs: seq<Byte>)
    requires |bs| == 2
    ensures FromBig(bs) == bs[0] as int * 0x100 + bs[1]
  {
    assert bs[..1][..0] == [];
    assert FromBig(bs[..1]) == bs[0];
  }

  lemma FromBigOf4(bs: seq<Byte>)
    requires |bs| == 4
    ensures FromBig(bs) == bs[0] as int * 0x100_0000 + bs[1] as int * 0x1_0000 + bs[2] as int * 0x100 + bs[3]
  {
    FromBigOf2(bs[..2]);
    assert bs[..3][..2] == bs[..2];
    assert FromBig(bs[..3]) == FromBig(bs[..2]) * 0x100 + bs[2];
  }

  lemma ToBigOf2(v: nat)
    ensures ToBig(v, 2) == [v / 0x100 % 0x100, v % 0x100]
  {
    assert ToBig(v / 0x100, 1) == ToBig(v / 0x100 / 0x100, 0) + [v / 0x100 % 0x100];
  }

  lemma ToBigOf4(v: nat)
    ensures ToBig(v, 4) == [v / 0x100_0000 % 0x100, v / 0x1_0000 % 0x100, v / 0x100 % 0x100, v % 0x100]
  {
    ToBigOf2(v / 0x1_0000);
    assert v / 0x1_0000 / 0x100 == v / 0x100_0000;
    assert ToBig(v, 4) == ToBig(v / 0x100, 3) + [v % 0x100];
    assert ToBig(v / 0x100, 3) == ToBig(v / 0x1_0000, 2) + [v / 0x100 % 0x100];
  }

  /** `reverse_2` and `reverse_4` of util.h. */
  function Reverse2(x: Half): Half {
    x % 0x100 * 0x100 + x / 0x100 % 0x100
  }

  function Reverse4(x: Word): Word {
    x % 0x100 * 0x100_0000 + x / 0x100 % 0x100 * 0x1_0000 + x / 0x1_0000 % 0x100 * 0x100 + x / 0x100_0000 % 0x100
  }

  /** The 9-bit slices of the code, cut to a byte, are the base-256 digits. */
  lemma NineBitSlice(v: nat, k: nat)
    ensures GetBits(v, 8 * (k + 1), 8 * k) % 0x100 == v / Pow2(8 * k) % 0x100
  {
    assert 8 * (k + 1) - 8 * k + 1 == 9 && Pow2(9) == 0x200;
    var q := v / Pow2(8 * k);
    assert GetBits(v, 8 * (k + 1), 8 * k) == q % 0x200;
    hide GetBits, Pow2;
    CutToByte(q);
  }

  lemma CutToByte(q: int)
    ensures q % 0x200 % 0x100 == q % 0x100
  {
  }

  lemma {:induction false} ToBigDigit(v: nat, n: nat, k: nat)
    requires k < n
    ensures ToBig(v, n)[n - 1 - k] == v / Pow2(8 * k) % 0x100
    decreases k
  {
    if k > 0 {
      ToBigDigit(v / 0x100, n - 1, k - 1);
      Pow2Values();
      Pow2Add(8, 8 * (k - 1));
      DivTwice(v, 0x100, Pow2(8 * (k - 1)));
    }
  }

  /** Byte i of a value of n bytes is the slice that the write loops extract. */
  lemma SplitSlice(v: nat, n: nat, i: nat, be: bool)
    requires i < n
    ensures var slice := if be then GetBits(v, 8 * (n - i), 8 * (n - 1 - i)) else GetBits(v, 8 * (i + 1), 8 * i);
            Split(v, n, be)[i] == slice % 0x100
  {
    hide ToBig, GetBits;
    if be {
      assert 8 * (n - i) == 8 * ((n - 1 - i) + 1);
      NineBitSlice(v, n - 1 - i);
      ToBigDigit(v, n, n - 1 - i);
    } else {
      NineBitSlice(v, i);
      ToBigDigit(v, n, i);
    }
  }

  lemma Reverse2OfDigits(b0: Byte, b1: Byte, x: Half)
    requires x == b0 as int * 0x100 + b1
    ensures Reverse2(x) == b1 as int * 0x100 + b0
  {
    assert x % 0x100 == b1 && x / 0x100 == b0;
  }

  lemma Reverse2Reverses(bs: seq<Byte>)
    requires |bs| == 2
    ensures FromBig(bs) < 0x1_0000 && Reverse2(FromBig(bs)) == FromBig(Reversed(bs))
  {
    FromBigOf2(bs);
    var r := Reversed(bs);
    assert r[0] == bs[1] && r[1] == bs[0];
    FromBigOf2(r);
    Reverse2OfDigits(bs[0], bs[1], FromBig(bs));
  }

  lemma Digits4(b0: Byte, b1: Byte, b2: Byte, b3: Byte, x: int)
    requires x == b0 as int * 0x100_0000 + b1 as int * 0x1_0000 + b2 as int * 0x100 + b3
    ensures 0 <= x < 0x1_0000_0000
    ensures x % 0x100 == b3 && x / 0x100 % 0x100 == b2
    ensures x / 0x1_0000 % 0x100 == b1 && x / 0x100_0000 == b0
  {
    assert x / 0x100 == b0 as int * 0x1_0000 + b1 as int * 0x100 + b2;
    assert x / 0x1_0000 == b0 as int * 0x100 + b1;
  }

  lemma Reverse4OfDigits(b0: Byte, b1: Byte, b2: Byte, b3: Byte, x: Word)
    requires x == b0 as int * 0x100_0000 + b1 as int * 0x1_0000 + b2 as int * 0x100 + b3
    ensures Reverse4(x) == b3 as int * 0x100_0000 + b2 as int * 0x1_0000 + b1 as int * 0x100 + b0
  {
    Digits4(b0, b1, b2, b3, x);
  }

  lemma Reverse4Reverses(bs: seq<Byte>)
    requires |bs| == 4
    ensures FromBig(bs) < 0x1_0000_0000
    ensures Reverse4(FromBig(bs)) == FromBig(Reversed(bs))
  {
    FromBigOf4(bs);
    var r := Reversed(bs);
    assert r[0] == bs[3] && r[1] == bs[2] && r[2] == bs[1] && r[3] == bs[0];
    FromBigOf4(r);
    Reverse4OfDigits(bs[0], bs[1], bs[2], bs[3], FromBig(bs));
  }

  /** What the read loop has summed up after i bytes. */
  function Accumulated(bs: seq<Byte>, i: nat): nat
    requires i <= |bs| == 4
  {
    if i == 0 then 0 else Accumulated(bs, i - 1) + bs[i - 1] * Pow2((4 - i) * 8)
  }

  lemma AccumulatedIsFromBig(bs: seq<Byte>)
    requires |bs| == 4
    ensures Accumulated(bs, 4) == FromBig(bs)
  {
    Pow2Values();
    FromBigOf4(bs);
    assert Accumulated(bs, 1) == bs[0] as int * 0x100_0000;
    assert Accumulated(bs, 2) == Accumulated(bs, 1) + bs[1] as int * 0x1_0000;
    assert Accumulated(bs, 3) == Accumulated(bs, 2) + bs[2] as int * 0x100;
    assert Accumulated(bs, 4) == Accumulated(bs, 3) + bs[3];
  }

  lemma PutOneMore(ram: Ram, address: Word, bs: seq<Byte>, i: nat)
    requires InMemory(ram, address) && i < |bs| <= 4
    ensures At(address, i) < |ram|
    ensures PutBytes(ram, address, bs[..i + 1]) == PutBytes(ram, address, bs[..i])[At(address, i) := bs[i]]
  {
    assert bs[..i + 1][..i] == bs[..i];
  }

  class Memory {
    const size: nat
    const data: array<Byte>

    ghost predicate Valid() {
      data.Length == size + 3
    }

    ghost function Contents(): (ram: Ram)
      reads data
      requires Valid()
      ensures Size(ram) == size
    {
      data[..]
    }

    constructor (n: nat)
      ensures Valid() && fresh(data) && size == n
    {
      size := n;
      data := new Byte[n + 3];
    }

    method ReadByte(address: Word, before: Byte) returns (result: int, value: Byte)
      requires Valid()
      ensures (result, value)
           == if InMemory(Contents(), address) then (0, ByteAt(Contents(), address)) else (-1, before)
    {
      if address >= size {
        return -1, before;
      }
      return 0, data[address];
    }

    method ReadHalf(address: Word, before: Half, be: bool) returns (result: int, value: Half)
      requires Valid()
      ensures (result, value)
           == if InMemory(Contents(), address) then (0, HalfAt(Contents(), address, be)) else (-1, before)
    {
      if address >= size {
        return -1, before;
      }
      ghost var bs := GetBytes(Contents(), address, 2);
      Reverse2Reverses(bs);
      FromBigOf2(bs);
      assert At(address, 0) == address && bs[0] == data[address] && bs[1] == data[At(address, 1)];
      var tmp := data[(address + 1) % 0x1_0000_0000] + data[address] as int * 0x100;
      return 0, if be then tmp else Reverse2(tmp);
    }

    method ReadWord(address: Word, before: Word, be: bool) returns (result: int, value: Word)
      requires Valid()
      ensures (result, value)
           == if InMemory(Contents(), address) then (0, WordAt(Contents(), address, be)) else (-1, before)
    {
      if address >= size {
        return -1, before;
      }
      ghost var bs := GetBytes(Contents(), address, 4);
      var tmp := 0;
      for i := 0 to 4
        invariant tmp == Accumulated(bs, i)
      {
        assert bs[i] == data[At(address, i)];
        tmp := tmp + data[(address + i) % 0x1_0000_0000] as int * Pow2((3 - i) * 8);
      }
      AccumulatedIsFromBig(bs);
      Reverse4Reverses(bs);
      return 0, if be then tmp else Reverse4(tmp);
    }

    method WriteByte(address: Word, value: Byte) returns (result: int)
      requires Valid()
      modifies data
      ensures (result, Contents())
           == if InMemory(old(Contents()), address) then (0, PutByte(old(Contents()), address, value))
              else (-1, old(Contents()))
    {
      if address >= size {
        return -1;
      }
      data[address] := value;
      return 0;
    }

    method WriteHalf(address: Word, value: Half, be: bool) returns (result: int)
      requires Valid()
      modifies data
      ensures (result, Contents())
           == if InMemory(old(Contents()), address) then (0, PutHalf(old(Contents()), address, value, be))
              else (-1, old(Contents()))
    {
      if address >= size {
        return -1;
      }
      ghost var before := Contents();
      ghost var bs := Split(value, 2, be);
      for i := 0 to 2
        invariant Contents() == PutBytes(before, address, bs[..i])
      {
        PutOneMore(before, address, bs, i);
        SplitSlice(value, 2, i, be);
        if be {
          data[(address + i) % 0x1_0000_0000] := GetBits(value, 8 * (2 - i), 8 * (1 - i)) % 0x100;
        } else {
          data[(address + i) % 0x1_0000_0000] := GetBits(value, 8 * (i + 1), 8 * i) % 0x100;
        }
      }
      assert bs[..2] == bs;
      return 0;
    }

    method WriteWord(address: Word, value: Word, be: bool) returns (result: int)
      requires Valid()
      modifies data
      ensures (result, Contents())
           == if InMemory(old(Contents()), address) then (0, PutWord(old(Contents()), address, value, be))
              else (-1, old(Contents()))
    {
      if address >= size {
        return -1;
      }
      ghost var before := Contents();
      ghost var bs := Split(value, 4, be);
      for i := 0 to 4
        invariant Contents() == PutBytes(before, address, bs[..i])
      {
        PutOneMore(before, address, bs, i);
        SplitSlice(value, 4, i, be);
        if be {
          data[(address + i) % 0x1_0000_0000] := GetBits(value, 8 * (4 - i), 8 * (3 - i)) % 0x100;
        } else {
          data[(address + i) % 0x1_0000_0000] := GetBits(value, 8 * (i + 1), 8 * i) % 0x100;
        }
      }
      assert bs[..4] == bs;
      return 0;
    }
  }
}
