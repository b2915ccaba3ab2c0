/**
Byte positions and screen columns (w3m/etc.c, `nextColumn`, `calcPosition`, `columnPos`,
`columnLen`). A cell is one byte of a line with what its property word says of it; the width
of a character is data.
*/
module Columns {

  /** A byte: control character, undisplayable, trailing byte of a character, part of a wide one. */
  datatype Cell = Cell(c: char, ctrl: bool, unknown: bool, cont: bool, wide: bool, width: nat)

  /** `Tabstop` (the option accepts positive values only). */
  type Tab = t: int | t > 0 witness 8

  /** `nextColumn`. */
  function Next(tab: Tab, n: nat, x: Cell): (r: nat)
    ensures r >= n
    ensures x.ctrl && x.c == '\t' ==> n < r <= n + tab && r % tab == 0
  {
    if x.ctrl then
      if x.c == '\t' then NextTab(tab, n); (n + tab) / tab * tab
      else if x.c == '\n' then n + 1
      else if x.c != '\r' then n + 2
      else n
    else if x.unknown then n + 4
    else n + x.width
  }

  lemma NextTab(tab: Tab, n: nat)
    ensures n < (n + tab) / tab * tab <= n + tab && ((n + tab) / tab * tab) % tab == 0
  {
    var q, r := (n + tab) / tab, (n + tab) % tab;
    assert n + tab == q * tab + r;
    WholeTabs(q * tab, q, tab);
  }

  lemma WholeTabs(n: int, q: int, tab: Tab)
    requires n == q * tab
    ensures n % tab == 0
  {
    var d, r := n / tab, n % tab;
    assert n == d * tab + r;
    SmallMultiple(q - d, r, tab);
  }

  lemma SmallMultiple(a: int, r: int, tab: Tab)
    requires r == a * tab && 0 <= r < tab
    ensures r == 0
  {
    assert a * tab == (a - 1) * tab + tab;
    assert a >= 1 ==> (a - 1) * tab >= 0;
  }

  // ----- the column of a position

  /** The first byte of the character that holds byte `i`; 0 when the line starts inside one. */
  function CharStart(cells: seq<Cell>, i: nat): (k: nat)
    requires i < |cells|
    ensures k <= i && (k == 0 || !cells[k].cont)
    ensures forall m :: k < m <= i ==> cells[m].cont
  {
    if i == 0 || !cells[i].cont then i else CharStart(cells, i - 1)
  }

  /** Is `i` between two characters, or the end? */
  predicate Boundary(cells: seq<Cell>, i: nat)
    requires i <= |cells|
  {
    i == |cells| || !cells[i].cont
  }

  /** The column of position `i`: every character that has ended by then has advanced it once. */
  function Column(tab: Tab, cells: seq<Cell>, bpos: nat, i: nat): nat
    requires i <= |cells|
  {
    if i == 0 then bpos
    else if !Boundary(cells, i) then Column(tab, cells, bpos, i - 1)
    else
      var k := CharStart(cells, i - 1);
      if cells[k].cont then bpos + if cells[i - 1].wide then 1 else 0
      else Next(tab, Column(tab, cells, bpos, k), cells[k])
  }

  /** Inside a character the column is that of its first byte. */
  lemma {:induction false} ColumnInside(tab: Tab, cells: seq<Cell>, bpos: nat, k: nat, i: nat)
    requires k <= i < |cells| && forall m :: k < m <= i ==> cells[m].cont
    ensures Column(tab, cells, bpos, i) == Column(tab, cells, bpos, k)
  {
    if k < i {
      ColumnInside(tab, cells, bpos, k, i - 1);
    }
  }

  lemma StartOf(cells: seq<Cell>, k: nat, i: nat)
    requires k <= i < |cells| && (k == 0 || !cells[k].cont) && forall m :: k < m <= i ==> cells[m].cont
    ensures CharStart(cells, i) == k
  {
  }

  /** Behind a whole character the column has advanced by it. */
  lemma ColumnBehind(tab: Tab, cells: seq<Cell>, bpos: nat, k: nat, i: nat)
    requires k < i <= |cells| && !cells[k].cont && Boundary(cells, i) && forall m :: k < m < i ==> cells[m].cont
    ensures Column(tab, cells, bpos, i) == Next(tab, Column(tab, cells, bpos, k), cells[k])
  {
    StartOf(cells, k, i - 1);
  }

  lemma ColumnAtFirst(tab: Tab, cells: seq<Cell>, bpos: nat)
    ensures Column(tab, cells, bpos, 0) == bpos
  {
  }

  /** A line may start with the trailing bytes of a character cut off before it. */
  lemma ColumnBehindTail(tab: Tab, cells: seq<Cell>, bpos: nat, i: nat)
    requires 0 < i <= |cells| && Boundary(cells, i) && forall m :: 0 <= m < i ==> cells[m].cont
    ensures Column(tab, cells, bpos, i) == bpos + if cells[i - 1].wide then 1 else 0
  {
    StartOf(cells, 0, i - 1);
  }

  lemma {:induction false} ColumnStep(tab: Tab, cells: seq<Cell>, bpos: nat, i: nat)
    requires i < |cells|
    ensures Column(tab, cells, bpos, i) <= Column(tab, cells, bpos, i + 1)
  {
    var k := CharStart(cells, i);
    ColumnInside(tab, cells, bpos, k, i);
    ColumnInside(tab, cells, bpos, 0, if cells[k].cont then k else 0);
  }

  /** The column table never decreases. */
  lemma {:induction false} ColumnsAscend(tab: Tab, cells: seq<Cell>, bpos: nat, i: nat, j: nat)
    requires i <= j <= |cells|
    ensures Column(tab, cells, bpos, i) <= Column(tab, cells, bpos, j)
    decreases j - i
  {
    if i < j {
      ColumnsAscend(tab, cells, bpos, i, j - 1);
      ColumnStep(tab, cells, bpos, j - 1);
    }
  }

  // ----- what a line takes up

  /** The widths of the characters that start before `i`. */
  function WidthsTo(cells: seq<Cell>, i: nat): nat
    requires i <= |cells|
  {
    if i == 0 then 0 else WidthsTo(cells, i - 1) + if cells[i - 1].cont then 0 else cells[i - 1].width
  }

  lemma {:induction false} WidthsInside(cells: seq<Cell>, k: nat, i: nat)
    requires k < i <= |cells| && !cells[k].cont && forall m :: k < m < i ==> cells[m].cont
    ensures WidthsTo(cells, i) == WidthsTo(cells, k) + cells[k].width
  {
    if k + 1 < i {
      WidthsInside(cells, k, i - 1);
    }
  }

  /** Displayable characters take up their widths. */
  lemma {:induction false} PlainColumns(tab: Tab, cells: seq<Cell>, bpos: nat, i: nat)
    requires i <= |cells| && Boundary(cells, i) && (cells != [] ==> !cells[0].cont)
    requires forall k :: 0 <= k < |cells| ==> !cells[k].ctrl && !cells[k].unknown
    ensures Column(tab, cells, bpos, i) == bpos + WidthsTo(cells, i)
  {
    if i > 0 {
      var k := CharStart(cells, i - 1);
      PlainColumns(tab, cells, bpos, k);
      WidthsInside(cells, k, i);
    }
  }

  /** How often `c` occurs before `i`. */
  function Count(cells: seq<Cell>, c: char, i: nat): nat
    requires i <= |cells|
  {
    if i == 0 then 0 else Count(cells, c, i - 1) + if cells[i - 1].c == c then 1 else 0
  }

  /** Control characters take up two columns each, but line feeds one and carriage returns none. */
  lemma {:induction false} ControlColumns(tab: Tab, cells: seq<Cell>, bpos: nat, i: nat)
    requires i <= |cells| && forall k :: 0 <= k < |cells| ==> cells[k].ctrl && !cells[k].cont && cells[k].c != '\t'
    ensures Column(tab, cells, bpos, i) == bpos + 2 * i - Count(cells, '\n', i) - 2 * Count(cells, '\r', i)
  {
    if i > 0 {
      hide Column, Next;
      ControlColumns(tab, cells, bpos, i - 1);
      ColumnBehind(tab, cells, bpos, i - 1, i);
      NextControl(tab, Column(tab, cells, bpos, i - 1), cells[i - 1]);
    }
  }

  lemma NextControl(tab: Tab, n: nat, x: Cell)
    requires x.ctrl && x.c != '\t'
    ensures Next(tab, n, x) == n + 2 - (if x.c == '\n' then 1 else 0) - (if x.c == '\r' then 2 else 0)
  {
  }

  /** Undisplayable bytes take up four columns each. */
  lemma {:induction false} UnknownColumns(tab: Tab, cells: seq<Cell>, bpos: nat, i: nat)
    requires i <= |cells| && forall k :: 0 <= k < |cells| ==> !cells[k].cont && !cells[k].ctrl && cells[k].unknown
    ensures Column(tab, cells, bpos, i) == bpos + 4 * i
  {
    if i > 0 {
      UnknownColumns(tab, cells, bpos, i - 1);
      ColumnBehind(tab, cells, bpos, i - 1, i);
      hide Column;
    }
  }

  /** Tabs lead from stop to stop. */
  lemma {:induction false} TabColumns(tab: Tab, cells: seq<Cell>, i: nat)
    requires i <= |cells| && forall k :: 0 <= k < |cells| ==> !cells[k].cont && cells[k].ctrl && cells[k].c == '\t'
    ensures Column(tab, cells, 0, i) == i * tab
  {
    if i > 0 {
      hide Column, Next;
      TabColumns(tab, cells, i - 1);
      ColumnBehind(tab, cells, 0, i - 1, i);
      TabFromStop(tab, cells[i - 1], i - 1);
    }
  }

  lemma TabFromStop(tab: Tab, x: Cell, i: nat)
    requires x.ctrl && x.c == '\t'
    ensures i * tab >= 0 && Next(tab, i * tab, x) == (i + 1) * tab
  {
    StopToStop(tab, i);
  }

  lemma StopToStop(tab: Tab, i: nat)
    ensures (i * tab + tab) / tab * tab == (i + 1) * tab && i * tab >= 0
  {
    NextTab(tab, i * tab);
    var q := (i * tab + tab) / tab;
    assert i * tab + tab == (i + 1) * tab;
    WholeTabs((i + 1) * tab, i + 1, tab);
    assert (i + 1) * tab == q * tab + ((i + 1) * tab) % tab;
  }

  // ----- a table made for a longer line

  lemma {:induction false} StartOfPrefix(cells: seq<Cell>, len: nat, i: nat)
    requires i < len <= |cells|
    ensures CharStart(cells[..len], i) == CharStart(cells, i)
  {
    if i > 0 {
      StartOfPrefix(cells, len, i - 1);
    }
  }

  lemma {:induction false} ColumnOfPrefix(tab: Tab, cells: seq<Cell>, len: nat, bpos: nat, i: nat)
    requires i <= len <= |cells| && (i < len || Boundary(cells, len))
    ensures Column(tab, cells[..len], bpos, i) == Column(tab, cells, bpos, i)
  {
    if i > 0 {
      StartOfPrefix(cells, len, i - 1);
      assert Boundary(cells[..len], i) == Boundary(cells, i);
      if !Boundary(cells, i) {
        ColumnOfPrefix(tab, cells, len, bpos, i - 1);
      } else {
        ColumnOfPrefix(tab, cells, len, bpos, CharStart(cells, i - 1));
      }
    }
  }

  /** Does the cut at `len` fall inside a character that takes up room? */
  predicate CutsVisibleCharacter(tab: Tab, cells: seq<Cell>, len: nat, bpos: nat)
    requires 0 < len <= |cells|
  {
    && !Boundary(cells, len)
    && var k := CharStart(cells, len - 1);
       if cells[k].cont then cells[len - 1].wide
       else Next(tab, Column(tab, cells, bpos, k), cells[k]) != Column(tab, cells, bpos, k)
  }

  /**
  A column remembered for `cells` is right for the line shortened to `len` cells, unless it is
  asked at the very end of a line that was cut inside a visible character.
  */
  lemma MemoIsFreshIff(tab: Tab, cells: seq<Cell>, len: nat, bpos: nat, pos: nat)
    requires 0 < len <= |cells| && pos <= len
    ensures Column(tab, cells, bpos, pos) == Column(tab, cells[..len], bpos, pos)
      <==> !(pos == len && CutsVisibleCharacter(tab, cells, len, bpos))
  {
    hide Next;
    if pos < len || Boundary(cells, len) {
      ColumnOfPrefix(tab, cells, len, bpos, pos);
    } else {
      var k := CharStart(cells, len - 1);
      StartOfPrefix(cells, len, len - 1);
      ColumnInside(tab, cells, bpos, k, len);
      ColumnOfPrefix(tab, cells, len, bpos, k);
      assert Boundary(cells[..len], len) && cells[..len][k] == cells[k] && cells[..len][len - 1] == cells[len - 1];
    }
  }

  /** Such a line exists: a character of two bytes, cut after its first one. */
  lemma StaleColumn(tab: Tab) returns (cells: seq<Cell>)
    ensures |cells| == 2 && Column(tab, cells, 0, 1) == 0 && Column(tab, cells[..1], 0, 1) == 2
  {
    cells := [Cell('a', false, false, false, true, 2), Cell('b', false, false, true, true, 2)];
    assert !Boundary(cells, 1) && Boundary(cells[..1], 1);
    assert Column(tab, cells, 0, 0) == 0 && Column(tab, cells[..1], 0, 0) == 0;
    assert CharStart(cells[..1], 0) == 0;
  }

  // ----- the memo

  /** The storage behind a line; `Ptr` is a pointer into it. */
  class Text {
    var cells: seq<Cell>

    constructor (content: seq<Cell>)
      ensures cells == content
    {
      cells := content;
    }
  }

  datatype Ptr = Null | At(text: Text, off: nat)

  /** `CP_AUTO` and `CP_FORCE`. */
  datatype Mode = Auto | Force

  const LINELEN := 256

  /** `cells` from index `from` to index `from + len`. */
  function Part(cells: seq<Cell>, from: nat, len: nat): (r: seq<Cell>)
    ensures from + len <= |cells| ==> |r| == len && forall i :: 0 <= i < len ==> r[i] == cells[from + i]
  {
    if from + len <= |cells| then cells[from..from + len] else []
  }

  /** Fills the table for a line and returns its width. */
  method Fill(tab: Tab, table: array<int>, cells: seq<Cell>, bpos: nat) returns (j: nat)
    requires cells != [] && table.Length > |cells|
    modifies table
    ensures forall k :: 0 <= k <= |cells| ==> table[k] == Column(tab, cells, bpos, k)
    ensures j == Column(tab, cells, bpos, |cells|)
  {
    hide Next, Column, CharStart;
    ColumnAtFirst(tab, cells, bpos);
    var len := |cells|;
    var i: nat := 0;
    j := bpos;
    if cells[0].cont {
      while i < len && cells[i].cont
        invariant i <= len && forall m :: 0 <= m < i ==> cells[m].cont
        invariant forall k :: 0 <= k < i ==> table[k] == Column(tab, cells, bpos, k)
      {
        ColumnInside(tab, cells, bpos, 0, i);
        table[i] := j;
        i := i + 1;
      }
      ColumnBehindTail(tab, cells, bpos, i);
      if cells[i - 1].wide {
        j := j + 1;
      }
    }
    while true
      invariant i <= len && Boundary(cells, i) && j == Column(tab, cells, bpos, i)
      invariant forall k :: 0 <= k < i ==> table[k] == Column(tab, cells, bpos, k)
      decreases len - i
    {
      table[i] := j;
      if i == len {
        break;
      }
      ghost var k := i;
      j := Next(tab, j, cells[i]);
      i := i + 1;
      while i < len && cells[i].cont
        invariant k < i <= len && forall m :: k < m < i ==> cells[m].cont
        invariant forall m :: 0 <= m < i ==> table[m] == Column(tab, cells, bpos, m)
      {
        ColumnInside(tab, cells, bpos, i - 1, i);
        table[i] := table[i - 1];
        i := i + 1;
      }
      ColumnBehind(tab, cells, bpos, k, i);
    }
  }

  /** The static variables of `calcPosition`; `kept` and `base` are the line and the first column the table is for. */
  class Memo {
    const tab: Tab
    var table: array<int>
    var prevl: Ptr
    ghost var kept: seq<Cell>
    ghost var base: nat

    ghost predicate Valid()
      reads this, table
    {
      prevl != Null ==>
        |kept| > 0 && table.Length > |kept| && forall i :: 0 <= i <= |kept| ==> table[i] == Column(tab, kept, base, i)
    }

    constructor (tab: Tab)
      ensures Valid() && prevl == Null && this.tab == tab && fresh(table)
    {
      this.tab := tab;
      table := new int[0];
      prevl, kept, base := Null, [], 0;
    }

    /** Will the remembered table answer? */
    predicate Hit(l: Ptr, len: nat, pos: nat, mode: Mode)
      reads this
    {
      l != Null && len > 0 && l == prevl && mode == Auto && pos <= len
    }

    /** `calcPosition`; a hit beyond the line the table was made for finds what the table held before. */
    method CalcPosition(l: Ptr, len: nat, pos: nat, bpos: nat, mode: Mode) returns (r: int)
      requires Valid() && (l != Null ==> l.off + len <= |l.text.cells|)
      requires Hit(l, len, pos, mode) ==> pos < table.Length
      modifies this, table
      ensures Valid() && (table == old(table) || fresh(table))
      ensures l == Null || len == 0 ==> r == bpos
      ensures old(Hit(l, len, pos, mode)) ==> r == old(table[pos])
      ensures old(Hit(l, len, pos, mode)) && pos <= |old(kept)| ==> r == Column(tab, old(kept), old(base), pos)
      ensures l == Null || len == 0 || old(Hit(l, len, pos, mode)) ==>
        table == old(table) && prevl == old(prevl) && kept == old(kept) && base == old(base)
      ensures !(l == Null || len == 0 || old(Hit(l, len, pos, mode))) ==>
        && prevl == l && kept == Part(l.text.cells, l.off, len) && base == bpos
        && r == Column(tab, kept, bpos, if pos < len then pos else len)
    {
      hide Column, Part;
      if l == Null || len == 0 {
        return bpos;
      }
      if l == prevl && mode == Auto {
        if pos <= len {
          return table[pos];
        }
      }
      if table.Length < len + 1 {
        table := new int[if len + 1 > LINELEN then len + 1 else LINELEN];
      }
      prevl, kept, base := l, Part(l.text.cells, l.off, len), bpos;
      var j := Fill(tab, table, Part(l.text.cells, l.off, len), bpos);
      if pos >= len {
        return j;
      }
      return table[pos];
    }

    /** If `l` is the remembered line, the storage still holds what the table was made for, and the line did not grow. */
    ghost predicate Unmodified(l: Ptr, len: nat)
      reads this, if l != Null then {l.text} else {}
    {
      l != Null && l == prevl ==>
        base == 0 && len <= |kept| && l.off + |kept| <= |l.text.cells| && kept == Part(l.text.cells, l.off, |kept|)
    }

    lemma NothingToModify(l: Ptr, len: nat)
      requires l != prevl
      ensures Unmodified(l, len)
    {
    }

    /** `COLPOS`: inside the line, remembered or not, the column is that of a fresh computation. */
    method ColPos(l: Ptr, len: nat, pos: nat) returns (r: int)
      requires Valid() && l != Null && l.off + len <= |l.text.cells| && Unmodified(l, len)
      modifies this, table
      ensures Valid() && Unmodified(l, len) && (table == old(table) || fresh(table))
      ensures var cells := Part(l.text.cells, l.off, len);
        pos < len || (pos == len && old(prevl) != l) ==> r == Column(tab, cells, 0, pos)
      ensures pos == len > 0 && old(prevl) == l ==>
        (r == Column(tab, Part(l.text.cells, l.off, len), 0, pos) <==> !CutsVisibleCharacter(tab, old(kept), len, 0))
      ensures len > 0 && old(prevl) != l ==> prevl == l && kept == Part(l.text.cells, l.off, len)
    {
      r := CalcPosition(l, len, pos, 0, Auto);
      if len > 0 && pos <= len {
        assert Part(l.text.cells, l.off, len) == kept[..len];
        MemoIsFreshIff(tab, kept, len, 0, pos);
      }
    }

    /** `columnPos`: the last character that starts at or before `column`; 0 when there is none. */
    method ColumnPos(l: Ptr, len: nat, column: int) returns (i: nat)
      requires Valid() && l != Null && l.off + len <= |l.text.cells| && Unmodified(l, len)
      modifies this, table
      ensures Valid() && Unmodified(l, len) && (table == old(table) || fresh(table))
      ensures var cells := Part(l.text.cells, l.off, len);
        && (i > 0 ==> i < len && !cells[i].cont && Column(tab, cells, 0, i) <= column)
        && forall k :: i < k < len && !cells[k].cont ==> Column(tab, cells, 0, k) > column
    {
      hide Column, CharStart, Valid, Part;
      ghost var cells := Part(l.text.cells, l.off, len);
      i := 1;
      while i < len
        invariant 1 <= i && (i <= len || i == 1)
        invariant Valid() && Unmodified(l, len) && (table == old(table) || fresh(table))
        invariant forall k :: 1 <= k < i && k < len ==> Column(tab, cells, 0, k) <= column
      {
        var c := ColPos(l, len, i);
        if c > column {
          break;
        }
        i := i + 1;
      }
      forall k | i <= k < len
        ensures Column(tab, cells, 0, k) > column
      {
        ColumnsAscend(tab, cells, 0, i, k);
      }
      i := i - 1;
      ghost var top := i;
      while i > 0 && l.text.cells[l.off + i].cont
        invariant 0 <= i <= top && forall k :: i < k <= top ==> cells[k].cont
      {
        i := i - 1;
      }
    }
  }

  // ----- how much fits

  /** The line with its first byte taken for the start of a character, as `columnLen` does. */
  function AsLead(cells: seq<Cell>): (r: seq<Cell>)
    ensures |r| == |cells| && (cells != [] ==> !r[0].cont) && forall i :: 0 < i < |cells| ==> r[i] == cells[i]
    ensures cells != [] && !cells[0].cont ==> r == cells
  {
    if cells == [] then [] else cells[0 := cells[0].(cont := false)]
  }

  /** The column of a position as `columnLen` counts it; the true one unless the line starts inside a character. */
  function Measured(tab: Tab, cells: seq<Cell>, i: nat): (n: nat)
    requires i <= |cells|
    ensures cells != [] && !cells[0].cont ==> n == Column(tab, cells, 0, i)
  {
    Column(tab, AsLead(cells), 0, i)
  }

  /** `columnLen`: the most characters that end at or before `column`. */
  method ColumnLen(tab: Tab, cells: seq<Cell>, column: int) returns (i: nat)
    ensures i <= |cells| && (i > 0 ==> Boundary(cells, i))
    ensures forall e :: 0 < e <= |cells| && Boundary(cells, e) ==> (Measured(tab, cells, e) <= column <==> e <= i)
  {
    hide Column;
    ghost var lead := AsLead(cells);
    ColumnAtFirst(tab, lead, 0);
    i := 0;
    var j: nat := 0;
    while i < |cells|
      invariant i <= |cells| && Boundary(lead, i) && (i > 0 ==> Boundary(cells, i))
      invariant j == Column(tab, lead, 0, i) && (i > 0 ==> j <= column)
    {
      ghost var k := i;
      j := Next(tab, j, cells[i]);
      if j > column {
        FitsUpTo(tab, lead, i, column);
        return;
      }
      i := i + 1;
      while i < |cells| && cells[i].cont
        invariant k < i <= |cells| && forall m :: k < m < i ==> cells[m].cont
      {
        i := i + 1;
      }
      ColumnBehind(tab, lead, 0, k, i);
    }
    forall e | 0 < e <= |cells|
      ensures Measured(tab, cells, e) <= column
    {
      ColumnsAscend(tab, lead, 0, e, |cells|);
    }
  }

  /** The end of the first character, or of the part of one that the line starts with. */
  function HeadEnd(cells: seq<Cell>, i: nat): (e: nat)
    requires 0 < i <= |cells|
    ensures i <= e <= |cells| && Boundary(cells, e) && forall m :: i <= m < e ==> cells[m].cont
    decreases |cells| - i
  {
    if i < |cells| && cells[i].cont then HeadEnd(cells, i + 1) else i
  }

  /** Does a part of a character in front take no more room than `columnLen` counts for it? */
  predicate TailFits(tab: Tab, cells: seq<Cell>)
    requires cells != []
  {
    cells[0].cont && cells[HeadEnd(cells, 1) - 1].wide ==> Next(tab, 0, cells[0]) >= 1
  }

  lemma NextAscends(tab: Tab, m: nat, n: nat, x: Cell)
    requires m <= n
    ensures Next(tab, m, x) <= Next(tab, n, x)
  {
    if x.ctrl && x.c == '\t' {
      TabsAscend(tab, m, n);
    }
  }

  lemma TabsAscend(tab: Tab, m: nat, n: nat)
    requires m <= n
    ensures (m + tab) / tab * tab <= (n + tab) / tab * tab
  {
    var a, b := (m + tab) / tab, (n + tab) / tab;
    assert m + tab == a * tab + (m + tab) % tab && n + tab == b * tab + (n + tab) % tab;
    assert (b - a) * tab == b * tab - a * tab;
    assert b - a <= -1 ==> (b - a) * tab + tab <= 0;
    assert b - a >= 0 ==> (b - a) * tab >= 0;
  }

  /** Then the true column is never beyond the counted one. */
  lemma {:induction false} WidthWithin(tab: Tab, cells: seq<Cell>, e: nat)
    requires cells != [] && TailFits(tab, cells) && 0 < e <= |cells| && Boundary(cells, e)
    ensures Column(tab, cells, 0, e) <= Measured(tab, cells, e)
  {
    hide Next;
    var k := CharStart(cells, e - 1);
    StartOf(AsLead(cells), k, e - 1);
    if k > 0 {
      WidthWithin(tab, cells, k);
      NextAscends(tab, Column(tab, cells, 0, k), Measured(tab, cells, k), cells[k]);
    } else {
      NextIgnoresCont(tab, 0, cells[0]);
      HeadIs(cells, 1, e);
    }
  }

  lemma NextIgnoresCont(tab: Tab, n: nat, x: Cell)
    ensures Next(tab, n, x.(cont := false)) == Next(tab, n, x)
  {
  }

  lemma {:induction false} HeadIs(cells: seq<Cell>, i: nat, e: nat)
    requires 0 < i <= e <= |cells| && Boundary(cells, e) && forall m :: i <= m < e ==> cells[m].cont
    ensures HeadEnd(cells, i) == e
    decreases e - i
  {
    if i < e {
      HeadIs(cells, i + 1, e);
    }
  }

  /** Otherwise some line that starts like this is wider than counted: its next character may fill the limit. */
  lemma TailOverflows(tab: Tab, tail: seq<Cell>, limit: nat) returns (cells: seq<Cell>)
    requires tail != [] && (forall i :: 0 <= i < |tail| ==> tail[i].cont) && !TailFits(tab, tail) && limit > 0
    ensures |cells| == |tail| + 1 && cells[..|tail|] == tail && !cells[|tail|].cont
    ensures Measured(tab, cells, |cells|) == limit && Column(tab, cells, 0, |cells|) == limit + 1
  {
    var n := |tail|;
    cells := tail + [Cell('x', false, false, false, false, limit)];
    var lead := AsLead(cells);
    HeadIs(tail, 1, n);
    NextIgnoresCont(tab, 0, cells[0]);
    ColumnBehindTail(tab, cells, 0, n);
    ColumnBehind(tab, cells, 0, n, n + 1);
    ColumnAtFirst(tab, lead, 0);
    ColumnBehind(tab, lead, 0, 0, n);
    ColumnBehind(tab, lead, 0, n, n + 1);
    hide Column;
  }

  /** For all lines that start with this part of a character, the count bounds the width exactly if the part fits. */
  lemma TailFitsIff(tab: Tab, tail: seq<Cell>)
    requires tail != [] && forall i :: 0 <= i < |tail| ==> tail[i].cont
    ensures TailFits(tab, tail) <==>
      forall more: seq<Cell>, e: nat :: e <= |tail + more| && 0 < e && (more == [] || !more[0].cont) && Boundary(tail + more, e)
        ==> Column(tab, tail + more, 0, e) <= Measured(tab, tail + more, e)
  {
    if TailFits(tab, tail) {
      forall more: seq<Cell>, e: nat | e <= |tail + more| && 0 < e && (more == [] || !more[0].cont) && Boundary(tail + more, e)
        ensures Column(tab, tail + more, 0, e) <= Measured(tab, tail + more, e)
      {
        HeadIs(tail, 1, |tail|);
        HeadIs(tail + more, 1, |tail|);
        WidthWithin(tab, tail + more, e);
      }
    } else {
      var cells := TailOverflows(tab, tail, 1);
      var more := cells[|tail|..];
      assert cells == tail + more && Boundary(tail + more, |cells|);
    }
  }

  lemma {:induction false} PastCharacter(tab: Tab, cells: seq<Cell>, k: nat, e: nat)
    requires k < e <= |cells| && !cells[k].cont && Boundary(cells, e)
    ensures Column(tab, cells, 0, e) >= Next(tab, Column(tab, cells, 0, k), cells[k])
    decreases e
  {
    var m := CharStart(cells, e - 1);
    if m <= k {
      ColumnBehind(tab, cells, 0, k, e);
    } else {
      PastCharacter(tab, cells, k, m);
      ColumnsAscend(tab, cells, 0, m, e);
    }
  }

  lemma FitsUpTo(tab: Tab, cells: seq<Cell>, k: nat, column: int)
    requires k < |cells| && !cells[k].cont && Next(tab, Column(tab, cells, 0, k), cells[k]) > column
    requires k > 0 ==> Column(tab, cells, 0, k) <= column
    ensures forall e :: 0 < e <= |cells| && Boundary(cells, e) ==> (Column(tab, cells, 0, e) <= column <==> e <= k)
  {
    forall e | 0 < e <= |cells| && Boundary(cells, e)
      ensures Column(tab, cells, 0, e) <= column <==> e <= k
    {
      if e <= k {
        ColumnsAscend(tab, cells, 0, e, k);
      } else {
        PastCharacter(tab, cells, k, e);
      }
    }
  }
}
