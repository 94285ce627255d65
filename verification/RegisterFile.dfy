/**
 The 37-cell register table: which cell a register number denotes in a mode,
 and the class whose methods select and update the cells in place.
 */
module RegisterFile {
  import opened Words
  import opened ArmConstants

  type RegFile = s: seq<Word> | |s| == 37 witness seq(37, _ => 0)

  function ModeOf(s: RegFile): (mode: nat) {
    s[CPSR] % 32
  }

  predicate HasSpsr(mode: nat) {
    mode != USR && mode != SYS
  }

  function SpsrCell(mode: nat): (c: Option<nat>)
    ensures c.Some? ==> 17 <= c.value < 37
  {
    if mode == SVC then Some(19)
    else if mode == ABT then Some(22)
    else if mode == UND then Some(25)
    else if mode == IRQ then Some(28)
    else if mode == FIQ then Some(36)
    else None
  }

  /** The cell of R13 (for the stack) or R14, if the mode is known. */
  function StackOrLinkCell(mode: nat, stack: bool): (c: Option<nat>)
    ensures c.Some? ==> 13 <= c.value < 36
  {
    var i := if stack then 0 else 1;
    if mode == SVC then Some(17 + i)
    else if mode == ABT then Some(20 + i)
    else if mode == UND then Some(23 + i)
    else if mode == IRQ then Some(26 + i)
    else if mode == FIQ then Some(34 + i)
    else if mode == USR || mode == SYS then Some(13 + i)
    else None
  }

  /** The cell that register number `reg` denotes in a mode; None when no cell answers. */
  function Cell(reg: nat, mode: nat): (c: Option<nat>)
    requires reg < 37
    ensures c.Some? ==> c.value < 37
  {
    if 8 <= reg <= 12 then Some(if mode == FIQ then reg + 21 else reg)
    else if reg == 13 || reg == 14 then StackOrLinkCell(mode, reg == 13)
    else if reg == SPSR then SpsrCell(mode)
    else Some(reg)
  }

  function ReadReg(s: RegFile, reg: nat, mode: nat): (value: Word)
    requires reg < 37
  {
    var c := Cell(reg, mode);
    if c.Some? then s[c.value] else 0
  }

  function WriteReg(s: RegFile, reg: nat, mode: nat, value: Word): (s': RegFile)
    requires reg < 37
  {
    var c := Cell(reg, mode);
    if c.Some? then s[c.value := value] else s
  }

  /** In a known mode different registers have different cells, and none is the CPSR. */
  lemma DistinctCells(r: nat, r': nat, mode: nat)
    requires r < 15 && r' <= CPSR && r != r' && KnownMode(mode)
    ensures Cell(r, mode).Some? && Cell(r, mode) != Cell(r', mode) && Cell(r, mode).value != CPSR
  {
  }

  lemma LowByteMode(x: Word)
    ensures x % 0x100 % 32 == x % 32
  {
    DivUnique(x, 32, x / 0x100 * 8 + x % 0x100 / 32, x % 0x100 % 32);
  }

  class Registers {
    const registre: array<Word>

    ghost predicate Valid() {
      registre.Length == 37
    }

    ghost function Contents(): (s: RegFile)
      reads registre
      requires Valid()
    {
      registre[..]
    }

    constructor ()
      ensures Valid() && fresh(registre)
    {
      registre := new Word[37];
    }

    method GetMode() returns (mode: nat)
      requires Valid()
      ensures mode == ModeOf(Contents())
    {
      LowByteMode(registre[CPSR]);
      mode := registre[CPSR] % 0x100 % 32;
    }

    method ReadSpsr(mode: nat) returns (value: Word)
      requires Valid()
      ensures value == ReadReg(Contents(), SPSR, mode)
    {
      value := 0;
      if HasSpsr(mode) {
        if mode == SVC {
          value := registre[19];
        } else if mode == ABT {
          value := registre[22];
        } else if mode == UND {
          value := registre[25];
        } else if mode == IRQ {
          value := registre[28];
        } else if mode == FIQ {
          value := registre[36];
        }
      }
    }

    method Read(reg: nat, mode: nat) returns (value: Word)
      requires Valid() && reg < 37
      ensures value == ReadReg(Contents(), reg, mode)
    {
      value := 0;
      if reg == 8 {
        value := if mode == FIQ then registre[29] else registre[8];
      } else if reg == 9 {
        value := if mode == FIQ then registre[30] else registre[9];
      } else if reg == 10 {
        value := if mode == FIQ then registre[31] else registre[10];
      } else if reg == 11 {
        value := if mode == FIQ then registre[32] else registre[11];
      } else if reg == 12 {
        value := if mode == FIQ then registre[33] else registre[12];
      } else if reg == 13 {
        if mode == SVC {
          value := registre[17];
        } else if mode == ABT {
          value := registre[20];
        } else if mode == UND {
          value := registre[23];
        } else if mode == IRQ {
          value := registre[26];
        } else if mode == FIQ {
          value := registre[34];
        } else if mode == USR || mode == SYS {
          value := registre[13];
        }
      } else if reg == 14 {
        if mode == SVC {
          value := registre[18];
        } else if mode == ABT {
          value := registre[21];
        } else if mode == UND {
          value := registre[24];
        } else if mode == IRQ {
          value := registre[27];
        } else if mode == FIQ {
          value := registre[35];
        } else if mode == USR || mode == SYS {
          value := registre[14];
        }
      } else if reg == SPSR {
        value := ReadSpsr(mode);
      } else {
        value := registre[reg];
      }
    }

    method WriteSpsr(mode: nat, value: Word)
      requires Valid()
      modifies registre
      ensures Contents() == WriteReg(old(Contents()), SPSR, mode, value)
    {
      if HasSpsr(mode) {
        if mode == SVC {
          registre[19] := value;
        } else if mode == ABT {
          registre[22] := value;
        } else if mode == UND {
          registre[25] := value;
        } else if mode == IRQ {
          registre[28] := value;
        } else if mode == FIQ {
          registre[36] := value;
        }
      }
    }

    method Write(reg: nat, mode: nat, value: Word)
      requires Valid() && reg < 37
      modifies registre
      ensures Contents() == WriteReg(old(Contents()), reg, mode, value)
    {
      if reg == 8 {
        registre[if mode == FIQ then 29 else 8] := value;
      } else if reg == 9 {
        registre[if mode == FIQ then 30 else 9] := value;
      } else if reg == 10 {
        registre[if mode == FIQ then 31 else 10] := value;
      } else if reg == 11 {
        registre[if mode == FIQ then 32 else 11] := value;
      } else if reg == 12 {
        registre[if mode == FIQ then 33 else 12] := value;
      } else if reg == 13 {
        if mode == SVC {
          registre[17] := value;
        } else if mode == ABT {
          registre[20] := value;
        } else if mode == UND {
          registre[23] := value;
        } else if mode == IRQ {
          registre[26] := value;
        } else if mode == FIQ {
          registre[34] := value;
        } else if mode == USR || mode == SYS {
          registre[13] := value;
        }
      } else if reg == 14 {
        if mode == SVC {
          registre[18] := value;
        } else if mode == ABT {
          registre[21] := value;
        } else if mode == UND {
          registre[24] := value;
        } else if mode == IRQ {
          registre[27] := value;
        } else if mode == FIQ {
          registre[35] := value;
        } else if mode == USR || mode == SYS {
          registre[14] := value;
        }
      } else if reg == SPSR {
        WriteSpsr(mode, value);
      } else {
        registre[reg] := value;
      }
    }

    method WriteCpsr(value: Word)
      requires Valid()
      modifies registre
      ensures Contents() == old(Contents())[CPSR := value]
    {
      registre[CPSR] := value;
    }
  }
}
