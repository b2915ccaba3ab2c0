/**
Adding a line to a buffer and folding it at a column limit (w3m/file.c, `addnewline2` and
`addnewline`). The lines of the buffer are a sequence, the current line an index into it.
*/
module Folding {
  import opened Columns

  datatype Line = Line(ptr: Ptr, len: nat, width: int, size: nat, bpos: nat, bwidth: nat, linenumber: int, realLinenumber: int)

  /** The cells that a line shows of the storage it points into. */
  function Shown(cells: seq<Cell>, l: Line): seq<Cell> {
    Part(cells, l.bpos, l.len)
  }

  /** The line `addnewline2` makes. */
  function NewLine(ptr: Ptr, len: nat, number: int, nlines: int): Line {
    Line(ptr, len, -1, len, 0, 0, number, if nlines < 0 then 0 else nlines)
  }

  // ----- what folding promises of one fragment, and of all of them

  /** One or more whole characters of `cells`, with their true width. */
  ghost predicate Whole(tab: Tab, text: Text, cells: seq<Cell>, l: Line) {
    && l.ptr == At(text, l.bpos) && l.len > 0 && l.bpos + l.len <= |cells| && l.size == |cells| - l.bpos
    && Boundary(cells, l.bpos + l.len)
    && l.width == Column(tab, Shown(cells, l), 0, l.len)
  }

  /**
  By the count of `columnLen`, no wider than the limit unless it is a single character, and not
  one more character would fit; and no wider in truth, unless it starts with too wide a part of a
  character.
  */
  ghost predicate Fits(tab: Tab, cells: seq<Cell>, limit: int, l: Line)
    requires l.bpos + l.len <= |cells|
  {
    var rest := cells[l.bpos..];
    && (Measured(tab, rest, l.len) <= limit || forall m :: 0 < m < l.len ==> rest[m].cont)
    && (rest != [] && TailFits(tab, rest) ==> l.width <= limit || forall m :: 0 < m < l.len ==> rest[m].cont)
    && forall e :: l.len < e <= |rest| && Boundary(rest, e) ==> Measured(tab, rest, e) > limit
  }

  /** The fragments follow one another and are numbered from `number` on. */
  ghost predicate Chained(frags: seq<Line>, number: int, nlines: int) {
    && (frags != [] ==> frags[0].bpos == 0 && frags[0].bwidth == 0)
    && (forall i :: 0 <= i < |frags| - 1 ==> frags[i + 1].bpos == frags[i].bpos + frags[i].len)
    && (forall i :: 0 <= i < |frags| - 1 ==> frags[i + 1].bwidth == frags[i].bwidth + frags[i].width)
    && forall i :: 0 <= i < |frags| ==>
         frags[i].linenumber == number + i && frags[i].realLinenumber == if nlines < 0 then 0 else nlines
  }

  ghost predicate Folded(tab: Tab, text: Text, cells: seq<Cell>, limit: int, frags: seq<Line>) {
    forall i :: 0 <= i < |frags| ==> Whole(tab, text, cells, frags[i]) && Fits(tab, cells, limit, frags[i])
  }

  // ----- consequences

  function SumLen(frags: seq<Line>): nat {
    if frags == [] then 0 else SumLen(frags[..|frags| - 1]) + frags[|frags| - 1].len
  }

  function SumWidth(frags: seq<Line>): int {
    if frags == [] then 0 else SumWidth(frags[..|frags| - 1]) + frags[|frags| - 1].width
  }

  function Joined(cells: seq<Cell>, frags: seq<Line>): seq<Cell> {
    if frags == [] then [] else Joined(cells, frags[..|frags| - 1]) + Shown(cells, frags[|frags| - 1])
  }

  /** `bpos` and `bwidth` are the sums of the earlier lengths and widths. */
  lemma {:induction false} PrefixSums(frags: seq<Line>, number: int, nlines: int, i: nat)
    requires Chained(frags, number, nlines) && i < |frags|
    ensures frags[i].bpos == SumLen(frags[..i]) && frags[i].bwidth == SumWidth(frags[..i])
  {
    if i > 0 {
      PrefixSums(frags, number, nlines, i - 1);
      assert frags[..i][..i - 1] == frags[..i - 1];
      assert frags[i - 1 + 1].bpos == frags[i - 1].bpos + frags[i - 1].len;
    }
  }

  /** The fragments so far, put together, are the text so far. */
  lemma {:induction false} FragmentsJoin(tab: Tab, text: Text, cells: seq<Cell>, frags: seq<Line>, number: int, nlines: int)
    requires Chained(frags, number, nlines) && forall i :: 0 <= i < |frags| ==> Whole(tab, text, cells, frags[i])
    ensures SumLen(frags) <= |cells| && Joined(cells, frags) == cells[..SumLen(frags)]
    ensures frags != [] ==> SumLen(frags) == frags[|frags| - 1].bpos + frags[|frags| - 1].len
  {
    hide Whole, Boundary, Column, Chained, Shown;
    if frags != [] {
      var n := |frags| - 1;
      ChainedPrefix(frags, number, nlines, n);
      FragmentsJoin(tab, text, cells, frags[..n], number, nlines);
      PrefixSums(frags, number, nlines, n);
      WholeEnds(tab, text, cells, frags[n]);
      ShownNext(cells, frags[n]);
    }
  }

  lemma ShownNext(cells: seq<Cell>, l: Line)
    requires l.bpos + l.len <= |cells|
    ensures cells[..l.bpos] + Shown(cells, l) == cells[..l.bpos + l.len]
  {
  }

  lemma ChainedPrefix(frags: seq<Line>, number: int, nlines: int, n: nat)
    requires Chained(frags, number, nlines) && n <= |frags|
    ensures Chained(frags[..n], number, nlines)
  {
  }

  // ----- building

  /** The fragments `done` reach up to position `bpos` and column `bwidth`. */
  ghost predicate Progress(tab: Tab, text: Text, cells: seq<Cell>, limit: int, done: seq<Line>, number: int, nlines: int, bpos: nat, bwidth: nat) {
    && Folded(tab, text, cells, limit, done) && Chained(done, number, nlines)
    && bpos < |cells| && (bpos > 0 ==> Boundary(cells, bpos))
    && if done == [] then bpos == 0 && bwidth == 0
       else var l := done[|done| - 1]; bpos == l.bpos + l.len && bwidth == l.bwidth + l.width
  }

  lemma OneMore(tab: Tab, text: Text, cells: seq<Cell>, limit: int, done: seq<Line>, number: int, nlines: int, l: Line)
    requires Progress(tab, text, cells, limit, done, number, nlines, l.bpos, l.bwidth)
    requires Whole(tab, text, cells, l) && Fits(tab, cells, limit, l)
    requires l.linenumber == number + |done| && l.realLinenumber == if nlines < 0 then 0 else nlines
    ensures Folded(tab, text, cells, limit, done + [l]) && Chained(done + [l], number, nlines)
    ensures l.width >= 0 && (l.bpos + l.len < |cells| ==>
      Progress(tab, text, cells, limit, done + [l], number, nlines, l.bpos + l.len, l.bwidth + l.width))
    ensures l.bpos + l.len == |cells| ==> SumLen(done + [l]) == |cells| && Joined(cells, done + [l]) == cells
  {
    hide *;
    ProgressMeans(tab, text, cells, limit, done, number, nlines, l.bpos, l.bwidth);
    WholeEnds(tab, text, cells, l);
    ChainedOne(done, number, nlines, l);
    FoldedOne(tab, text, cells, limit, done, l);
    FoldedMeans(tab, text, cells, limit, done + [l]);
    FragmentsJoin(tab, text, cells, done + [l], number, nlines);
    assert cells[..|cells|] == cells;
    if l.bpos + l.len < |cells| {
      MakeProgress(tab, text, cells, limit, done, number, nlines, l);
    }
  }

  lemma ProgressMeans(tab: Tab, text: Text, cells: seq<Cell>, limit: int, done: seq<Line>, number: int, nlines: int, bpos: nat, bwidth: nat)
    requires Progress(tab, text, cells, limit, done, number, nlines, bpos, bwidth)
    ensures Folded(tab, text, cells, limit, done) && Chained(done, number, nlines)
    ensures bpos < |cells|
    ensures if done == [] then bpos == 0 && bwidth == 0
            else bpos == done[|done| - 1].bpos + done[|done| - 1].len && bwidth == done[|done| - 1].bwidth + done[|done| - 1].width
  {
    hide Folded, Chained;
  }

  lemma MakeProgress(tab: Tab, text: Text, cells: seq<Cell>, limit: int, done: seq<Line>, number: int, nlines: int, l: Line)
    requires Folded(tab, text, cells, limit, done + [l]) && Chained(done + [l], number, nlines)
    requires l.bpos + l.len < |cells| && Boundary(cells, l.bpos + l.len) && l.bwidth + l.width >= 0
    ensures Progress(tab, text, cells, limit, done + [l], number, nlines, l.bpos + l.len, l.bwidth + l.width)
  {
    hide Folded, Chained;
  }

  lemma ChainedOne(done: seq<Line>, number: int, nlines: int, l: Line)
    requires Chained(done, number, nlines)
    requires if done == [] then l.bpos == 0 && l.bwidth == 0
             else l.bpos == done[|done| - 1].bpos + done[|done| - 1].len && l.bwidth == done[|done| - 1].bwidth + done[|done| - 1].width
    requires l.linenumber == number + |done| && l.realLinenumber == if nlines < 0 then 0 else nlines
    ensures Chained(done + [l], number, nlines)
  {
    var all := done + [l];
    forall i | 0 <= i < |all| - 1
      ensures all[i + 1].bpos == all[i].bpos + all[i].len && all[i + 1].bwidth == all[i].bwidth + all[i].width
    {
      assert all[i] == done[i] && all[i + 1] == if i + 1 < |done| then done[i + 1] else l;
    }
  }

  lemma FoldedOne(tab: Tab, text: Text, cells: seq<Cell>, limit: int, done: seq<Line>, l: Line)
    requires Folded(tab, text, cells, limit, done)
    requires l.bpos < |cells| && l.bpos + l.len <= |cells| && Whole(tab, text, cells, l)
    requires Fits(tab, cells, limit, l)
    ensures Folded(tab, text, cells, limit, done + [l])
  {
    FoldedMeans(tab, text, cells, limit, done);
    hide Fits, Column;
  }

  lemma FoldedMeans(tab: Tab, text: Text, cells: seq<Cell>, limit: int, frags: seq<Line>)
    requires Folded(tab, text, cells, limit, frags)
    ensures forall i :: 0 <= i < |frags| ==> Whole(tab, text, cells, frags[i])
  {
  }

  lemma WholeEnds(tab: Tab, text: Text, cells: seq<Cell>, l: Line)
    requires Whole(tab, text, cells, l)
    ensures l.len > 0 && l.bpos + l.len <= |cells| && Boundary(cells, l.bpos + l.len) && l.width >= 0
  {
  }

  /** How many cells the fragment starting at `rest` takes: what fits, or one character. */
  method Take(tab: Tab, rest: seq<Cell>, limit: int) returns (i: nat)
    requires rest != []
    ensures 0 < i <= |rest| && Boundary(rest, i)
    ensures Measured(tab, rest, i) <= limit || forall m :: 0 < m < i ==> rest[m].cont
    ensures forall e :: i < e <= |rest| && Boundary(rest, e) ==> Measured(tab, rest, e) > limit
  {
    hide Measured;
    i := ColumnLen(tab, rest, limit);
    if i == 0 {
      i := i + 1;
      while i < |rest| && rest[i].cont
        invariant 0 < i <= |rest| && forall m :: 0 < m < i ==> rest[m].cont
      {
        i := i + 1;
      }
    }
  }

  lemma FragmentIsGood(tab: Tab, text: Text, cells: seq<Cell>, limit: int, l: Line)
    requires l.bpos < |cells| && 0 < l.len <= |cells| - l.bpos && l.ptr == At(text, l.bpos) && l.size == |cells| - l.bpos
    requires l.width == Column(tab, Shown(cells, l), 0, l.len)
    requires var rest := cells[l.bpos..];
      && Boundary(rest, l.len)
      && (Measured(tab, rest, l.len) <= limit || forall m :: 0 < m < l.len ==> rest[m].cont)
      && forall e :: l.len < e <= |rest| && Boundary(rest, e) ==> Measured(tab, rest, e) > limit
    ensures Whole(tab, text, cells, l) && Fits(tab, cells, limit, l)
  {
    hide Column, Measured, TailFits;
    var rest := cells[l.bpos..];
    ColumnOfPrefix(tab, rest, l.len, 0, l.len);
    assert rest[..l.len] == Shown(cells, l);
    if TailFits(tab, rest) {
      WidthWithin(tab, rest, l.len);
    }
  }

  lemma NoProgress(tab: Tab, text: Text, cells: seq<Cell>, limit: int, number: int, nlines: int)
    requires cells != []
    ensures Progress(tab, text, cells, limit, [], number, nlines, 0, 0)
  {
  }

  /** One round of the loop in `addnewline`: the line `l` cut after what fits, with its place and its width. */
  method NextFragment(memo: Memo, text: Text, cells: seq<Cell>, limit: int, bpos: nat, bwidth: nat, l: Line) returns (r: Line)
    requires memo.Valid() && text.cells == cells && bpos < |cells|
    requires l.ptr == At(text, bpos) && l.len == l.size == |cells| - bpos
    requires memo.prevl != At(text, bpos)
    modifies memo, memo.table
    ensures memo.Valid() && (memo.table == old(memo.table) || fresh(memo.table))
    ensures memo.prevl == At(text, bpos)
    ensures r == l.(bpos := bpos, bwidth := bwidth, len := r.len, width := r.width)
    ensures Whole(memo.tab, text, cells, r) && Fits(memo.tab, cells, limit, r)
  {
    hide Column, Measured, Part, Whole, Fits;
    var i := Take(memo.tab, cells[bpos..], limit);
    memo.NothingToModify(At(text, bpos), i);
    var w := memo.ColPos(At(text, bpos), i, i);
    r := l.(bpos := bpos, bwidth := bwidth, len := i, width := w);
    FragmentIsGood(memo.tab, text, cells, limit, r);
  }

  /** `x` put into a list at index `i`. */
  function Inserted(s: seq<Line>, i: nat, x: Line): seq<Line>
    requires i <= |s|
  {
    s[..i] + [x] + s[i..]
  }

  lemma InsertedIs(s: seq<Line>, i: nat, x: Line)
    requires i <= |s|
    ensures Inserted(s, i, x) == s[..i] + [x] + s[i..]
  {
  }

  /** The buffer in the middle of folding: lines before, fragments, the line being cut, lines behind. */
  ghost predicate Laid(lines: seq<Line>, current: int, front: seq<Line>, done: seq<Line>, l: Line, back: seq<Line>) {
    lines == front + done + [l] + back && current == |front| + |done|
  }

  lemma LaidAtFirst(lines: seq<Line>, current: int, front: seq<Line>, l: Line, back: seq<Line>)
    requires lines == front + [l] + back && current == |front|
    ensures Laid(lines, current, front, [], l, back)
  {
    assert front + [] == front;
  }

  lemma LaidMeans(lines: seq<Line>, current: int, front: seq<Line>, done: seq<Line>, l: Line, back: seq<Line>)
    requires Laid(lines, current, front, done, l, back)
    ensures lines == front + (done + [l]) + back && current == |front| + |done|
  {
  }

  lemma LaidUpdate(lines: seq<Line>, current: int, front: seq<Line>, done: seq<Line>, x: Line, back: seq<Line>, l: Line)
    requires Laid(lines, current, front, done, x, back)
    ensures 0 <= current < |lines| && lines[current] == x
    ensures Laid(lines[current := l], current, front, done, l, back)
  {
    assert lines[current := l] == front + done + [l] + back;
  }

  lemma LaidInsert(lines: seq<Line>, current: int, front: seq<Line>, done: seq<Line>, l: Line, x: Line, back: seq<Line>)
    requires Laid(lines, current, front, done, l, back)
    ensures 0 <= current < |lines|
    ensures Laid(Inserted(lines, current + 1, x), current + 1, front, done + [l], x, back)
  {
    assert lines[..current + 1] == front + (done + [l]);
    assert lines[current + 1..] == back;
  }

  class Buffer {
    var lines: seq<Line>
    var current: int
    var allLine: int

    ghost predicate Valid()
      reads this
    {
      -1 <= current < |lines| && (lines != [] ==> current >= 0)
    }

    constructor ()
      ensures Valid() && lines == []
    {
      lines, current, allLine := [], -1, 0;
    }

    /** `addnewline2`: a new line behind the current one, which it becomes. */
    method AddNewLine2(ptr: Ptr, pos: nat, nlines: int)
      requires Valid()
      modifies this
      ensures Valid() && current == old(current) + 1 && allLine == old(allLine) + 1
      ensures lines == Inserted(old(lines), old(current) + 1, NewLine(ptr, pos, allLine, nlines))
    {
      allLine := allLine + 1;
      lines := lines[..current + 1] + [NewLine(ptr, pos, allLine, nlines)] + lines[current + 1..];
      current := current + 1;
    }

    /** The memo cannot take the line being cut for the one it remembers. */
    ghost predicate Ready(memo: Memo, text: Text, line: seq<Cell>, bpos: nat)
      reads memo, memo.table, text
    {
      && memo.Valid() && text.cells == line && bpos < |line|
      && (memo.prevl == Null || memo.prevl.text != text || memo.prevl.off < bpos)
    }

    /** One round on the current line. */
    method Cut(memo: Memo, text: Text, line: seq<Cell>, width: int, bpos: nat, bwidth: nat,
               ghost front: seq<Line>, ghost done: seq<Line>, ghost back: seq<Line>, ghost number: int, ghost nlines: int)
      returns (l: Line)
      requires Ready(memo, text, line, bpos) && bpos < |line|
      requires Progress(memo.tab, text, line, width, done, number, nlines, bpos, bwidth)
      requires Laid(lines, current, front, done, NewLine(At(text, bpos), |line| - bpos, number + |done|, nlines), back)
      modifies this, memo, memo.table
      ensures (memo.table == old(memo.table) || fresh(memo.table)) && current == old(current) && allLine == old(allLine)
      ensures l.len > 0 && l.width >= 0 && bpos + l.len <= |line|
      ensures memo.Valid() && (bpos + l.len < |line| ==> Ready(memo, text, line, bpos + l.len))
      ensures Laid(lines, current, front, done, l, back)
      ensures Folded(memo.tab, text, line, width, done + [l]) && Chained(done + [l], number, nlines)
      ensures bpos + l.len < |line| ==>
        Progress(memo.tab, text, line, width, done + [l], number, nlines, bpos + l.len, bwidth + l.width)
      ensures bpos + l.len == |line| ==> SumLen(done + [l]) == |line| && Joined(line, done + [l]) == line
    {
      hide Laid, Progress, Folded, Chained, Whole, Fits, SumLen, Joined, Column, Part, Columns.Memo.Valid;
      ghost var x := NewLine(At(text, bpos), |line| - bpos, number + |done|, nlines);
      LaidUpdate(lines, current, front, done, x, back, x);
      l := NextFragment(memo, text, line, width, bpos, bwidth, lines[current]);
      WholeEnds(memo.tab, text, line, l);
      LaidUpdate(lines, current, front, done, x, back, l);
      lines := lines[current := l];
      OneMore(memo.tab, text, line, width, done, number, nlines, l);
    }

    /** The loop of `addnewline`. */
    method Fold(memo: Memo, text: Text, line: seq<Cell>, width: int, nlines: int, ghost front: seq<Line>, ghost back: seq<Line>)
      returns (ghost frags: seq<Line>)
      requires line != [] && Ready(memo, text, line, 0)
      requires Laid(lines, current, front, [], NewLine(At(text, 0), |line|, allLine, nlines), back)
      modifies this, memo, memo.table
      ensures memo.Valid() && frags != []
      ensures lines == front + frags + back && current == |front| + |frags| - 1 && allLine == old(allLine) + |frags| - 1
      ensures Folded(memo.tab, text, line, width, frags) && Chained(frags, old(allLine), nlines)
      ensures SumLen(frags) == |line| && Joined(line, frags) == line
    {
      hide *;
      ghost var number := allLine;
      frags := [];
      var bpos, bwidth: nat := 0, 0;
      NoProgress(memo.tab, text, line, width, number, nlines);
      while true
        invariant bpos < |line| && Ready(memo, text, line, bpos) && (memo.table == old(memo.table) || fresh(memo.table))
        invariant Progress(memo.tab, text, line, width, frags, number, nlines, bpos, bwidth)
        invariant Laid(lines, current, front, frags, NewLine(At(text, bpos), |line| - bpos, allLine, nlines), back)
        invariant allLine == number + |frags|
        decreases |line| - bpos
      {
        var l := Cut(memo, text, line, width, bpos, bwidth, front, frags, back, number, nlines);
        LaidMeans(lines, current, front, frags, l, back);
        if |line| - bpos <= l.len {
          frags := frags + [l];
          return;
        }
        bpos := bpos + l.len;
        bwidth := bwidth + l.width;
        LaidInsert(lines, current, front, frags, l, NewLine(At(text, bpos), |line| - bpos, allLine + 1, nlines), back);
        ValidWithin();
        AddNewLine2(At(text, bpos), |line| - bpos, nlines);
        frags := frags + [l];
      }
    }

    lemma Bounds()
      requires Valid()
      ensures 0 <= current + 1 <= |lines|
    {
    }

    lemma ReadyAtFirst(memo: Memo, text: Text, line: seq<Cell>)
      requires memo.Valid() && text.cells == line && line != [] && (memo.prevl == Null || memo.prevl.text != text)
      ensures Ready(memo, text, line, 0)
    {
    }

    lemma ValidWithin()
      requires 0 <= current < |lines|
      ensures Valid()
    {
    }

    /**
    `addnewline`: the line is copied, put behind the current one and, if a limit is given, cut
    into fragments that each get a line of their own; the last of them becomes current.
    */
    method AddNewLine(memo: Memo, line: seq<Cell>, width: int, nlines: int) returns (text: Text, ghost frags: seq<Line>)
      requires Valid() && memo.Valid()
      modifies this, memo, memo.table
      ensures Valid() && memo.Valid() && fresh(text) && text.cells == line
      ensures lines == old(lines[..current + 1]) + frags + old(lines[current + 1..])
      ensures current == old(current) + |frags| && allLine == old(allLine) + |frags|
      ensures line == [] || width <= 0 ==> frags == [NewLine(At(text, 0), |line|, allLine, nlines)]
      ensures line != [] && width > 0 ==>
        && Folded(memo.tab, text, line, width, frags) && Chained(frags, old(allLine) + 1, nlines)
        && SumLen(frags) == |line| && Joined(line, frags) == line
    {
      hide *;
      Bounds();
      text := new Text(line);
      ghost var front, back := lines[..current + 1], lines[current + 1..];
      InsertedIs(lines, current + 1, NewLine(At(text, 0), |line|, allLine + 1, nlines));
      AddNewLine2(At(text, 0), |line|, nlines);
      frags := [NewLine(At(text, 0), |line|, allLine, nlines)];
      assert lines == front + frags + back;
      if |line| <= 0 || width <= 0 {
        return;
      }
      LaidAtFirst(lines, current, front, NewLine(At(text, 0), |line|, allLine, nlines), back);
      ReadyAtFirst(memo, text, line);
      frags := Fold(memo, text, line, width, nlines, front, back);
      ValidWithin();
    }
  }
}
