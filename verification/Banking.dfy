/**
 The register table refines the mode table of section A2.3 of the ARM
 Architecture Reference Manual: two accesses share a cell exactly when the
 table says that they name the same physical register, and a read returns the
 last value written through any mode that shares it.
 */
module Banking {
  import opened Words
  import opened ArmConstants
  import opened RegisterFile

  /** A physical register of the mode table. */
  datatype Physical = Shared(reg: nat) | OfFiq(reg: nat) | OfMode(reg: nat, mode: nat)

  /** The mode table: R0-R7, R15 and the CPSR are shared by all modes; FIQ has its
      own R8-R12; every exception mode has its own R13, R14 and SPSR. */
  function Table(reg: nat, mode: nat): Physical {
    if reg == SPSR then OfMode(SPSR, mode)
    else if (reg == 13 || reg == 14) && mode != USR && mode != SYS then OfMode(reg, mode)
    else if 8 <= reg <= 12 && mode == FIQ then OfFiq(reg)
    else Shared(reg)
  }

  /** Accesses for which the table has a register. */
  predicate InTable(reg: nat, mode: nat) {
    reg <= SPSR && KnownMode(mode) && (reg == SPSR ==> mode != USR && mode != SYS)
  }

  lemma CellsFollowTable(reg: nat, mode: nat, reg': nat, mode': nat)
    requires InTable(reg, mode) && InTable(reg', mode')
    ensures Cell(reg, mode).Some?
    ensures Cell(reg, mode) == Cell(reg', mode') <==> Table(reg, mode) == Table(reg', mode')
  {
    hide Cell, Table;
    CellHolds(reg, mode);
    CellHolds(reg', mode');
    DifferentCells(Cell(reg, mode).value, Cell(reg', mode').value);
  }

  /** The physical register that a cell holds. */
  function HeldBy(c: nat): Physical
    requires c < 37
  {
    if c <= CPSR then Shared(c)
    else if c < 29 then OfMode(13 + ExceptionRegister((c - 17) % 3), ExceptionMode((c - 17) / 3))
    else if c < 34 then OfFiq(c - 21)
    else OfMode(13 + ExceptionRegister(c - 34), FIQ)
  }

  /** R13, R14 and SPSR, as distances from R13. */
  function ExceptionRegister(i: nat): nat {
    if i == 2 then SPSR - 13 else i
  }

  function ExceptionMode(i: nat): nat {
    if i == 0 then SVC else if i == 1 then ABT else if i == 2 then UND else IRQ
  }

  lemma CellHolds(reg: nat, mode: nat)
    requires InTable(reg, mode)
    ensures Cell(reg, mode).Some? && HeldBy(Cell(reg, mode).value) == Table(reg, mode)
  {
  }

  lemma DifferentCells(c: nat, c': nat)
    requires c < 37 && c' < 37
    ensures HeldBy(c) == HeldBy(c') ==> c == c'
  {
  }

  /** Accesses without a register: R13 and R14 of a mode outside the seven, the SPSR of a mode
      without one. They read as 0 and their writes are dropped. */
  lemma NoRegister(s: RegFile, reg: nat, mode: nat, value: Word)
    requires reg == 13 || reg == 14 || reg == SPSR
    requires !KnownMode(mode) || (reg == SPSR && (mode == USR || mode == SYS))
    ensures ReadReg(s, reg, mode) == 0 && WriteReg(s, reg, mode, value) == s
  {
  }

  /** All other registers of a mode outside the seven are those of User mode. */
  lemma UnknownMode(reg: nat, mode: nat)
    requires !KnownMode(mode) && reg <= CPSR && reg != 13 && reg != 14
    ensures Cell(reg, mode) == Cell(reg, USR)
  {
  }

  // ----- histories of writes -----

  datatype Write =
    | ToReg(reg: nat, mode: nat, value: Word)
    | ToSpsr(mode: nat, value: Word)
    | ToCpsr(value: Word)
  {
    predicate Possible() {
      match this
      case ToReg(reg, mode, _) => reg <= SPSR && KnownMode(mode)
      case ToSpsr(mode, _) => KnownMode(mode)
      case ToCpsr(_) => true
    }

    function ApplyTo(s: RegFile): RegFile
      requires Possible()
    {
      match this
      case ToReg(reg, mode, value) => WriteReg(s, reg, mode, value)
      case ToSpsr(mode, value) => WriteReg(s, SPSR, mode, value)
      case ToCpsr(value) => s[CPSR := value]
    }

    /** The physical register that the mode table says is written; SPSR writes of
        User and System mode reach none. */
    function Target(): Option<Physical> {
      match this
      case ToReg(reg, mode, _) => if InTable(reg, mode) then Some(Table(reg, mode)) else None
      case ToSpsr(mode, _) => if InTable(SPSR, mode) then Some(Table(SPSR, mode)) else None
      case ToCpsr(_) => Some(Shared(CPSR))
    }
  }

  predicate AllPossible(history: seq<Write>) {
    forall i | 0 <= i < |history| :: history[i].Possible()
  }

  function Replay(s: RegFile, history: seq<Write>): RegFile
    requires AllPossible(history)
  {
    if history == [] then s
    else
      var last := |history| - 1;
      history[last].ApplyTo(Replay(s, history[..last]))
  }

  /** Index of the last write to a physical register, if any. */
  function LastWrite(history: seq<Write>, p: Physical): (i: Option<nat>)
    ensures i.Some? ==> i.value < |history| && history[i.value].Target() == Some(p)
    ensures i.Some? ==> forall j | i.value < j < |history| :: history[j].Target() != Some(p)
    ensures i.None? ==> forall j | 0 <= j < |history| :: history[j].Target() != Some(p)
  {
    if history == [] then None
    else if history[|history| - 1].Target() == Some(p) then Some(|history| - 1)
    else LastWrite(history[..|history| - 1], p)
  }

  /** One write is seen through exactly the accesses that share its register. */
  lemma WriteThenRead(s: RegFile, w: Write, reg: nat, mode: nat)
    requires w.Possible() && InTable(reg, mode)
    ensures ReadReg(w.ApplyTo(s), reg, mode)
         == if w.Target() == Some(Table(reg, mode)) then w.value else ReadReg(s, reg, mode)
  {
    match w
    case ToReg(reg', mode', _) =>
      if InTable(reg', mode') {
        CellsFollowTable(reg', mode', reg, mode);
        CellsFollowTable(reg, mode, reg', mode');
      }
    case ToSpsr(mode', _) =>
      if InTable(SPSR, mode') {
        CellsFollowTable(SPSR, mode', reg, mode);
        CellsFollowTable(reg, mode, SPSR, mode');
      }
    case ToCpsr(_) =>
      CellsFollowTable(CPSR, USR, reg, mode);
      CellsFollowTable(reg, mode, CPSR, USR);
  }

  lemma {:induction false} ReadsLastWrite(s: RegFile, history: seq<Write>, reg: nat, mode: nat)
    requires AllPossible(history) && InTable(reg, mode)
    ensures ReadReg(Replay(s, history), reg, mode)
         == match LastWrite(history, Table(reg, mode))
            case Some(i) => history[i].value
            case None => ReadReg(s, reg, mode)
    decreases |history|
  {
    if history == [] {
    } else {
      var last := |history| - 1;
      ReadsLastWrite(s, history[..last], reg, mode);
      WriteThenRead(Replay(s, history[..last]), history[last], reg, mode);
    }
  }

  /** Leaving a mode and coming back: whatever other modes write, a private register
      of the mode keeps its value. */
  lemma PrivateRegistersSurvive(s: RegFile, history: seq<Write>, reg: nat, mode: nat)
    requires AllPossible(history) && InTable(reg, mode)
    requires !Table(reg, mode).Shared?
    requires forall i | 0 <= i < |history| :: !history[i].ToCpsr? ==> history[i].mode != mode
    ensures ReadReg(Replay(s, history), reg, mode) == ReadReg(s, reg, mode)
  {
    ReadsLastWrite(s, history, reg, mode);
  }
}
