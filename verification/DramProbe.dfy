/** Sizing a DRAM bank by address wrap: an address line that the bank does not have makes a high address hit the same
    cell as address 0. */
module DramProbe {
  import opened Arithmetic
  import opened BootLoader

  const ALL_ONES := 0xFFFF_FFFF

  /** A table line: an address line to test, and the number of rows or columns if that line wraps. Line 0 ends it. */
  datatype Entry = Entry(line: nat, count: nat)

  const COL_TEST := [Entry(8, 0), Entry(9, 8), Entry(10, 9), Entry(11, 10), Entry(12, 11), Entry(0, 12)]
  const ROW_TEST := [Entry(22, 0), Entry(13, 9), Entry(24, 10), Entry(23, 11), Entry(12, 12), Entry(0, 13)]

  /** Tables end with line 0, and their lines are within the reach of the windows. */
  predicate Table(t: seq<Entry>) {
    t != [] && t[|t| - 1].line == 0 && forall i :: 0 <= i < |t| - 1 ==> 0 < t[i].line < 26
  }

  /** The count of the first line that the bank ignores, or of the last entry. */
  function FirstIgnored(t: seq<Entry>, ignored: set<nat>): nat
    requires t != []
  {
    if t[0].line == 0 || t[0].line in ignored || |t| == 1 then t[0].count else FirstIgnored(t[1..], ignored)
  }

  /** The part of an address that reaches the cells of a bank that ignores some lines; k is the line of bit 0. */
  function Decode(addr: nat, ignored: set<nat>, k: nat): nat {
    if addr == 0 then 0
    else (if addr % 2 == 1 && k !in ignored then 1 else 0) + 2 * Decode(addr / 2, ignored, k + 1)
  }

  lemma {:induction false} DecodeLine(n: nat, ignored: set<nat>, k: nat)
    ensures Decode(Power2(n), ignored, k) == if n + k in ignored then 0 else Power2(n)
  {
    if n > 0 {
      DecodeLine(n - 1, ignored, k + 1);
    }
  }

  lemma {:induction false} PowerBound(n: nat, m: nat)
    requires n <= m
    ensures Power2(n) <= Power2(m)
    decreases m
  {
    if n < m { PowerBound(n, m - 1); }
  }

  lemma LineInReach(n: nat)
    requires n < 26
    ensures Power2(n) < 0x4000000
  {
    PowerBound(n, 25);
    assert Power2(5) == 32;
    assert Power2(10) == 32 * Power2(5);
    assert Power2(15) == 32 * Power2(10);
    assert Power2(20) == 32 * Power2(15);
    assert Power2(25) == 32 * Power2(20);
  }

  /** What is in a bank position: memory that ignores some address lines, or nothing, so that every read gives the same
      value whatever was written. */
  datatype Kind = Ram(ignored: set<nat>) | Absent(floating: nat)

  class Bank {
    const kind: Kind
    var cells: map<nat, nat>
    const junk: nat           // what a cell holds before it is written

    constructor (kind: Kind, junk: nat)
      ensures this.kind == kind && cells == map[]
    {
      this.kind, this.junk, cells := kind, junk, map[];
    }

    /** The cell that the processor reaches at an address, through the window that MapData sets up. */
    function Cell(addr: nat): nat
      requires kind.Ram?
    {
      var (w, off) := Split(addr, 0xC8);
      Decode(Base(w) + off, kind.ignored, 0)
    }

    lemma CellOfLine(n: nat)
      requires kind.Ram? && n < 26
      ensures Cell(Power2(n)) == if n in kind.ignored then Cell(0) else Power2(n)
      ensures Cell(0) == 0
    {
      LineInReach(n);
      CellDecoded(Power2(n));
      CellDecoded(0);
      DecodeLine(n, kind.ignored, 0);
    }

    lemma CellDecoded(addr: nat)
      requires kind.Ram? && addr < 0x4000000
      ensures Cell(addr) == Decode(addr, kind.ignored, 0)
    {
      SplitRecombines(addr, 0xC8);
    }

    method Write(addr: nat, value: nat)
      modifies this
      ensures kind.Ram? ==> cells == old(cells)[Cell(addr) := value]
    {
      if kind.Ram? { cells := cells[Cell(addr) := value]; }
    }

    method Read(addr: nat) returns (value: nat)
      ensures value == match kind
                       case Absent(floating) => floating
                       case Ram(_) => if Cell(addr) in cells then cells[Cell(addr)] else junk
    {
      match kind
      case Absent(floating) => value := floating;
      case Ram(_) => value := if Cell(addr) in cells then cells[Cell(addr)] else junk;
    }

    /** NumBits: walk through the table until a line wraps. */
    method NumBits(t: seq<Entry>) returns (ch: nat)
      requires Table(t)
      modifies this
      ensures kind.Ram? ==> ch == FirstIgnored(t, kind.ignored)
      ensures kind.Absent? && t[0].count == 0 ==> ch == 0
    {
      var i := 0;
      ch := 0;
      while i < |t|
        invariant 0 <= i <= |t|
        invariant kind.Ram? && i < |t| ==> FirstIgnored(t, kind.ignored) == FirstIgnored(t[i..], kind.ignored)
        invariant kind.Ram? ==> i < |t|
        invariant kind.Absent? ==> i == 0
      {
        var cl := t[i].line;
        ch := t[i].count;
        assert t[i..][0] == t[i] && t[i..][1..] == t[i + 1..];
        i := i + 1;
        if cl == 0 { return; }
        if kind.Ram? { CellOfLine(cl); }
        Write(0, ALL_ONES);
        Write(Power2(cl), 0);
        var v := Read(0);
        if v != ALL_ONES { return; }
        ch := 0;
        v := Read(Power2(cl));
        if v % 0x10000 != 0 { return; }
        Write(Power2(cl), ALL_ONES);
        v := Read(Power2(cl));
        if v != ALL_ONES { return; }
      }
    }
  }

  /** FirstIgnored is what its name says: the count of the entry that is ignored while none before it is. */
  lemma {:induction false} FirstIgnoredAt(t: seq<Entry>, ignored: set<nat>, i: nat)
    requires i < |t| && forall j :: 0 <= j < i ==> t[j].line != 0 && t[j].line !in ignored
    requires t[i].line == 0 || t[i].line in ignored || i == |t| - 1
    ensures FirstIgnored(t, ignored) == t[i].count
    decreases i
  {
    if i > 0 {
      forall j | 0 <= j < i - 1 ensures t[1..][j].line != 0 && t[1..][j].line !in ignored {
        assert t[1..][j] == t[j + 1];
      }
      FirstIgnoredAt(t[1..], ignored, i - 1);
    }
  }

  /** Both tables of the loader are usable, and report an empty bank as an error. */
  lemma LoaderTables()
    ensures Table(COL_TEST) && Table(ROW_TEST) && COL_TEST[0].count == 0 && ROW_TEST[0].count == 0
  {
  }

  /** The number of columns: a bank with that many of them, from 8 to 12, ignores of the lines 8 to 12 just those
      above it, and one that ignores line 8 is an error. */
  lemma Columns(ignored: set<nat>, columns: nat)
    requires 7 <= columns <= 12 && forall line :: 8 <= line <= 12 ==> (line in ignored <==> line > columns)
    ensures FirstIgnored(COL_TEST, ignored) == if columns == 7 then 0 else columns
  {
    var i := columns - 7;
    assert forall j :: 0 <= j < 5 ==> COL_TEST[j].line == 8 + j;
    FirstIgnoredAt(COL_TEST, ignored, i);
  }

  /** The number of rows goes by lines 22, 13, 24, 23 and 12, in this order, each of which is a row more; 9 rows is
      the least, and one that ignores line 22 is an error. */
  lemma Rows(ignored: set<nat>)
    ensures FirstIgnored(ROW_TEST, ignored)
         == if 22 in ignored then 0 else if 13 in ignored then 9 else if 24 in ignored then 10
            else if 23 in ignored then 11 else if 12 in ignored then 12 else 13
  {
    var i := if 22 in ignored then 0 else if 13 in ignored then 1 else if 24 in ignored then 2
             else if 23 in ignored then 3 else if 12 in ignored then 4 else 5;
    assert ROW_TEST[0].line == 22 && ROW_TEST[1].line == 13 && ROW_TEST[2].line == 24 && ROW_TEST[3].line == 23;
    FirstIgnoredAt(ROW_TEST, ignored, i);
  }
}
