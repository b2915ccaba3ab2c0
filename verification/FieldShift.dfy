/**
Moving anchors and markers when a field changes its length (w3m/anchor.c,
`shiftAnchorPosition`), and the field update that calls it (w3m/form.c).
*/
module FieldShift {
  import opened Anchors
  import opened Markers
  import opened Forms

  /** Every span lies on one line. */
  ghost predicate OneLine(s: seq<Anchor>) {
    forall i :: 0 <= i < |s| ==> s[i].start.line == s[i].end.line
  }

  /** The loop of `shiftAnchorPosition` gets to the anchors that contain the position or start behind it on its line. */
  predicate Reached(a: Anchor, p: Point) {
    OnAnchor(a, p) <= 0 && a.start.line <= p.line
  }

  /** Does the start of this anchor move? */
  predicate Behind(a: Anchor, p: Point) {
    Reached(a, p) && a.start.pos > p.pos
  }

  function Moved(a: Anchor, p: Point, shift: int): Anchor {
    if !Reached(a, p) then a
    else a.(start := if a.start.pos > p.pos then Point(a.start.line, a.start.pos + shift) else a.start,
            end := if a.end.pos >= p.pos then Point(a.end.line, a.end.pos + shift) else a.end)
  }

  /** The ends of a span within one line move exactly when they lie behind the position on its line. */
  lemma MovedOnOneLine(a: Anchor, p: Point, shift: int)
    requires a.start.line == a.end.line && AtMost(a.start, a.end)
    ensures Moved(a, p, shift) ==
      if a.start.line != p.line then a
      else a.(start := if a.start.pos > p.pos then Point(p.line, a.start.pos + shift) else a.start,
              end := if a.end.pos > p.pos then Point(p.line, a.end.pos + shift) else a.end)
  {
  }

  /** What should move: an end that lies behind the position on its line. */
  function Shifted(q: Point, p: Point, shift: int): Point {
    if q.line == p.line && q.pos > p.pos then Point(q.line, q.pos + shift) else q
  }

  /** A start on an earlier line, or an end on a later one, that the loop moves for its column alone. */
  predicate Damaged(a: Anchor, p: Point) {
    Reached(a, p) && ((a.start.line < p.line && a.start.pos > p.pos) || (p.line < a.end.line && a.end.pos >= p.pos))
  }

  /** The loop does not ask on which line an end lies: it moves what it should exactly on spans that this does not matter for. */
  lemma MovedRightIff(a: Anchor, p: Point, shift: int)
    requires AtMost(a.start, a.end)
    ensures Moved(a, p, shift) == a.(start := Shifted(a.start, p, shift), end := Shifted(a.end, p, shift))
      <==> shift == 0 || !Damaged(a, p)
  {
  }

  /** Two such spans: one starts behind the position and ends on the next line, one starts on the line before. */
  lemma SpansAreDamaged(link: Link)
    ensures Moved(Anchor(link, Point(0, 5), Point(1, 10), 0, false), Point(0, 2), 3) == Anchor(link, Point(0, 8), Point(1, 13), 0, false)
    ensures Moved(Anchor(link, Point(0, 5), Point(1, 10), 0, false), Point(1, 2), 3) == Anchor(link, Point(0, 8), Point(1, 13), 0, false)
    ensures Damaged(Anchor(link, Point(0, 5), Point(1, 10), 0, false), Point(0, 2))
    ensures Damaged(Anchor(link, Point(0, 5), Point(1, 10), 0, false), Point(1, 2))
  {
  }

  ghost function MovedAll(s: seq<Anchor>, p: Point, shift: int): (r: seq<Anchor>)
    ensures |r| == |s| && forall i :: 0 <= i < |s| ==> r[i] == Moved(s[i], p, shift)
  {
    seq(|s|, i requires 0 <= i < |s| => Moved(s[i], p, shift))
  }

  /** The marker of one moved anchor follows it, unless it is on another line. */
  ghost function MarkMoved(marks: seq<Point>, a: Anchor, p: Point, shift: int): (r: seq<Point>)
    ensures |r| == |marks|
  {
    if Behind(a, p) && 0 <= a.hseq < |marks| && marks[a.hseq].line == p.line
    then marks[a.hseq := Point(p.line, a.start.pos + shift)]
    else marks
  }

  ghost function MarksMoved(marks: seq<Point>, s: seq<Anchor>, p: Point, shift: int): (r: seq<Point>)
    ensures |r| == |marks|
  {
    if s == [] then marks
    else MarkMoved(MarksMoved(marks, s[..|s| - 1], p, shift), s[|s| - 1], p, shift)
  }

  /** Anchors that will move carry one of `n` marker numbers. */
  ghost predicate Marked(s: seq<Anchor>, n: nat, p: Point) {
    forall i :: 0 <= i < |s| && Behind(s[i], p) ==> 0 <= s[i].hseq < n
  }

  // ----- the search for the first anchor to move

  /** Anchors before `i` end by `p`; anchors from `i` on contain it or start after it. */
  ghost predicate Parts(s: seq<Anchor>, p: Point, i: nat) {
    && i <= |s|
    && (forall k :: 0 <= k < i ==> OnAnchor(s[k], p) > 0)
    && forall k :: i <= k < |s| ==> OnAnchor(s[k], p) <= 0
  }

  method FindShiftStart(al: AnchorList, p: Point) returns (s: nat)
    requires al.Valid() && Ordered(al.Contents()) && al.nanchor > 0
    ensures Parts(al.Contents(), p, s)
  {
    ghost var c := al.Contents();
    s := al.nanchor / 2;
    var b, e := 0, al.nanchor - 1;
    while b <= e
      invariant 0 <= b <= e + 1 <= al.nanchor && s == (b + e + 1) / 2
      invariant forall k :: 0 <= k < b ==> OnAnchor(c[k], p) > 0
      invariant forall k :: e < k < al.nanchor ==> OnAnchor(c[k], p) < 0
      decreases e - b + 1
    {
      assert al.anchors[s] == c[s];
      var cmp := OnAnchor(al.anchors[s], p);
      if cmp == 0 {
        break;
      } else if cmp > 0 {
        b := s + 1;
      } else if s == 0 {
        break;
      } else {
        e := s - 1;
      }
      s := (b + e + 1) / 2;
    }
  }

  lemma PartsMove(s: seq<Anchor>, p: Point, shift: int, i: nat, k: nat)
    requires Parts(s, p, i) && k < |s|
    ensures k < i || s[k].start.line > p.line ==> Moved(s[k], p, shift) == s[k] && !Behind(s[k], p)
    ensures k >= i && s[k].start.line <= p.line ==> Reached(s[k], p)
  {
  }

  lemma PartsBound(s: seq<Anchor>, p: Point, i: nat)
    requires Parts(s, p, i)
    ensures i <= |s|
  {
  }

  lemma {:induction false} NoneBehind(marks: seq<Point>, s: seq<Anchor>, p: Point, shift: int, i: nat)
    requires i <= |s| && forall k :: i <= k < |s| ==> !Behind(s[k], p)
    ensures MarksMoved(marks, s, p, shift) == MarksMoved(marks, s[..i], p, shift)
    decreases |s|
  {
    if i == |s| {
      assert s[..i] == s;
    } else {
      var r := s[..|s| - 1];
      NoneBehind(marks, r, p, shift, i);
      assert r[..i] == s[..i];
    }
  }

  /** The state of the moving loop at index `i`. */
  ghost predicate MovedSoFar(now: seq<Anchor>, marks': seq<Point>, s: seq<Anchor>, marks: seq<Point>, p: Point, shift: int, i: nat) {
    && |now| == |s| && i <= |s|
    && (forall k :: 0 <= k < i ==> now[k] == Moved(s[k], p, shift))
    && (forall k :: i <= k < |s| ==> now[k] == s[k])
    && marks' == MarksMoved(marks, s[..i], p, shift)
  }

  lemma MovesStart(s: seq<Anchor>, marks: seq<Point>, p: Point, shift: int, i: nat)
    requires Parts(s, p, i)
    ensures MovedSoFar(s, marks, s, marks, p, shift, i)
  {
    forall k | 0 <= k < i
      ensures s[k] == Moved(s[k], p, shift) && !Behind(s[k], p)
    {
      PartsMove(s, p, shift, i, k);
    }
    assert forall k :: 0 <= k < i ==> s[..i][k] == s[k];
    NoneBehind(marks, s[..i], p, shift, 0);
    assert s[..i][..0] == [];
  }

  lemma MovesOn(now: seq<Anchor>, marks': seq<Point>, s: seq<Anchor>, marks: seq<Point>, p: Point, shift: int, i: nat)
    requires MovedSoFar(now, marks', s, marks, p, shift, i) && i < |s|
    ensures |now| == |s| && now[i] == s[i]
    ensures MovedSoFar(now[i := Moved(s[i], p, shift)], MarkMoved(marks', s[i], p, shift), s, marks, p, shift, i + 1)
  {
    assert s[..i + 1][..i] == s[..i];
  }

  lemma MovesEnd(now: seq<Anchor>, marks': seq<Point>, s: seq<Anchor>, marks: seq<Point>, p: Point, shift: int, i: nat)
    requires MovedSoFar(now, marks', s, marks, p, shift, i)
    requires forall k :: i <= k < |s| ==> s[k].start.line > p.line
    ensures now == MovedAll(s, p, shift) && marks' == MarksMoved(marks, s, p, shift)
  {
    NoneBehind(marks, s, p, shift, i);
  }

  /** The body of the moving loop for one anchor on the line. */
  method MoveOne(al: AnchorList, hl: HmarkerList?, i: nat, p: Point, shift: int)
    requires al.Valid() && i < al.nanchor
    requires Reached(al.anchors[i], p)
    requires Behind(al.anchors[i], p) ==> hl != null && 0 <= al.anchors[i].hseq < |hl.marks|
    modifies al.anchors, hl
    ensures al.Contents() == old(al.Contents())[i := Moved(old(al.anchors[i]), p, shift)]
    ensures MarksOf(hl) == MarkMoved(old(MarksOf(hl)), old(al.anchors[i]), p, shift)
  {
    var a := al.anchors[i];
    if a.start.pos > p.pos {
      a := a.(start := Point(a.start.line, a.start.pos + shift));
      if hl.marks[a.hseq].line == p.line {
        hl.marks := hl.marks[a.hseq := Point(p.line, a.start.pos)];
      }
    }
    if a.end.pos >= p.pos {
      a := a.(end := Point(a.end.line, a.end.pos + shift));
    }
    al.anchors[i] := a;
  }

  lemma OrderedLines(s: seq<Anchor>, i: nat, k: nat)
    requires Ordered(s) && i <= k < |s|
    ensures s[k].start.line >= s[i].start.line
  {
  }

  /** The moving loop, from the first anchor to move on. */
  method ShiftFrom(al: AnchorList, hl: HmarkerList?, p: Point, shift: int, first: nat)
    requires al.Valid() && Ordered(al.Contents()) && Parts(al.Contents(), p, first)
    requires Marked(al.Contents(), |MarksOf(hl)|, p)
    modifies al.anchors, hl
    ensures al.Contents() == MovedAll(old(al.Contents()), p, shift)
    ensures MarksOf(hl) == MarksMoved(old(MarksOf(hl)), old(al.Contents()), p, shift)
  {
    hide Ordered, Parts, MovedSoFar, MarksMoved, MovedAll, OnAnchor;
    ghost var c, m := al.Contents(), MarksOf(hl);
    PartsBound(c, p, first);
    MovesStart(c, m, p, shift, first);
    var i := first;
    while i < al.nanchor
      invariant first <= i <= al.nanchor && |MarksOf(hl)| == |m|
      invariant MovedSoFar(al.Contents(), MarksOf(hl), c, m, p, shift, i)
    {
      PartsMove(c, p, shift, first, i);
      MovesOn(al.Contents(), MarksOf(hl), c, m, p, shift, i);
      assert al.anchors[i] == al.Contents()[i];
      if al.anchors[i].start.line > p.line {
        break;
      }
      MoveOne(al, hl, i, p, shift);
      i := i + 1;
    }
    forall k | i <= k < |c|
      ensures c[k].start.line > p.line
    {
      OrderedLines(c, i, k);
    }
    MovesEnd(al.Contents(), MarksOf(hl), c, m, p, shift, i);
  }

  /** `shiftAnchorPosition`. */
  method ShiftAnchorPosition(al: AnchorList?, hl: HmarkerList?, p: Point, shift: int)
    requires al != null ==> al.Valid()
    requires Ordered(ListOf(al)) && Marked(ListOf(al), |MarksOf(hl)|, p)
    modifies if al == null then {} else {al.anchors}
    modifies hl
    ensures al != null ==> al.Valid()
    ensures ListOf(al) == MovedAll(old(ListOf(al)), p, shift)
    ensures MarksOf(hl) == MarksMoved(old(MarksOf(hl)), old(ListOf(al)), p, shift)
  {
    if al != null && al.nanchor != 0 {
      hide *;
      var first := FindShiftStart(al, p);
      ShiftFrom(al, hl, p, shift, first);
    }
  }

  // ----- where the markers end up

  /** The last anchor with this number whose start moves; -1 for none. */
  ghost function LastMoved(s: seq<Anchor>, number: int, p: Point): (k: int)
    ensures -1 <= k < |s|
    ensures k >= 0 ==> Behind(s[k], p) && s[k].hseq == number
    ensures forall i :: k < i < |s| ==> !(Behind(s[i], p) && s[i].hseq == number)
  {
    var n := |s| - 1;
    if s == [] then -1
    else if Behind(s[n], p) && s[n].hseq == number then n
    else LastMoved(s[..n], number, p)
  }

  /** A marker on the line goes to the start of the last moved anchor that bears its number. */
  ghost function MarkAfter(marks: seq<Point>, s: seq<Anchor>, p: Point, shift: int, number: nat): Point
    requires number < |marks|
  {
    var k := LastMoved(s, number, p);
    if k == -1 || marks[number].line != p.line then marks[number] else Point(p.line, s[k].start.pos + shift)
  }

  lemma {:induction false} MarksExactly(marks: seq<Point>, s: seq<Anchor>, p: Point, shift: int, number: nat)
    requires number < |marks|
    ensures MarksMoved(marks, s, p, shift)[number] == MarkAfter(marks, s, p, shift, number)
  {
    hide Behind;
    if s != [] {
      MarksExactly(marks, s[..|s| - 1], p, shift, number);
    }
  }

  /** Moving for one list and then for another is moving for both. */
  lemma {:induction false} MarksCompose(marks: seq<Point>, s: seq<Anchor>, t: seq<Anchor>, p: Point, shift: int)
    ensures MarksMoved(MarksMoved(marks, s, p, shift), t, p, shift) == MarksMoved(marks, s + t, p, shift)
  {
    hide MarkMoved;
    if t == [] {
      assert s + t == s;
    } else {
      var n := |t| - 1;
      MarksCompose(marks, s, t[..n], p, shift);
      assert (s + t)[..|s + t| - 1] == s + t[..n];
    }
  }

  /**
  A marker at the start of a moved anchor is at its start afterwards exactly if the last moved
  anchor that bears the same number starts at the same place.
  */
  lemma MarkFollowsIff(marks: seq<Point>, s: seq<Anchor>, p: Point, shift: int, i: nat)
    requires i < |s| && Behind(s[i], p) && s[i].start.line == p.line
    requires 0 <= s[i].hseq < |marks| && marks[s[i].hseq] == s[i].start
    ensures MarksMoved(marks, s, p, shift)[s[i].hseq] == Moved(s[i], p, shift).start
      <==> s[LastMoved(s, s[i].hseq, p)].start.pos == s[i].start.pos
  {
    MarksExactly(marks, s, p, shift, s[i].hseq);
  }

  /** A link and an image with the same number: whatever the shift, the link's marker ends up at the image. */
  lemma SharedNumberMisleads(link: Link, shift: int)
    ensures var p, marks := Point(0, 0), [Point(0, 4)];
            var href := [Anchor(link, Point(0, 4), Point(0, 6), 0, false)];
            var img := [Anchor(link, Point(0, 8), Point(0, 9), 0, false)];
            && Ordered(href) && Marked(href, 1, p) && Clear(href, 0, 0, 2)
            && Ordered(img) && Marked(img, 1, p) && Clear(img, 0, 0, 2)
            && Behind(href[0], p) && marks[href[0].hseq] == href[0].start
            && MarksMoved(marks, href + img, p, shift)[0] == Moved(img[0], p, shift).start
            && MarksMoved(marks, href + img, p, shift)[0] != Moved(href[0], p, shift).start
  {
    var p, marks := Point(0, 0), [Point(0, 4)];
    var href := [Anchor(link, Point(0, 4), Point(0, 6), 0, false)];
    var img := [Anchor(link, Point(0, 8), Point(0, 9), 0, false)];
    assert LastMoved(href + img, 0, p) == 1;
    MarksExactly(marks, href + img, p, shift, 0);
  }

  /** Two moved anchors never share a marker number. */
  ghost predicate DistinctMarks(s: seq<Anchor>, p: Point) {
    forall i, j :: 0 <= i < j < |s| && Behind(s[i], p) && Behind(s[j], p) ==> s[i].hseq != s[j].hseq
  }

  /** Markers that designate the starts of moved anchors still do so if no number is shared. */
  lemma MarksFollow(marks: seq<Point>, s: seq<Anchor>, p: Point, shift: int, i: nat)
    requires DistinctMarks(s, p) && i < |s| && Behind(s[i], p) && s[i].start.line == p.line
    requires 0 <= s[i].hseq < |marks| && marks[s[i].hseq] == s[i].start
    ensures MarksMoved(marks, s, p, shift)[s[i].hseq] == Moved(s[i], p, shift).start
  {
    var k := LastMoved(s, s[i].hseq, p);
    assert k == i;
    MarkFollowsIff(marks, s, p, shift, i);
  }

  /** A marker that no moved anchor uses keeps its place. */
  lemma OthersKept(marks: seq<Point>, s: seq<Anchor>, p: Point, shift: int, number: nat)
    requires number < |marks| && forall i :: 0 <= i < |s| && Behind(s[i], p) ==> s[i].hseq != number
    ensures MarksMoved(marks, s, p, shift)[number] == marks[number]
  {
    MarksExactly(marks, s, p, shift, number);
  }

  // ----- what a moved anchor covers

  /** An anchor on the line is clear of the field, or encloses it. */
  predicate ClearOf(a: Anchor, line: int, spos: int, epos: int) {
    a.start.line == line ==> a.end.pos <= spos || epos <= a.start.pos || (a.start.pos <= spos && epos <= a.end.pos)
  }

  /** All spans lie on one line and are clear of the field or enclose it. */
  ghost predicate Clear(s: seq<Anchor>, line: int, spos: int, epos: int) {
    OneLine(s) && forall i :: 0 <= i < |s| ==> ClearOf(s[i], line, spos, epos)
  }

  /** The order of the list survives a field of a new length. */
  lemma MovedKeepsOrder(s: seq<Anchor>, line: int, spos: int, epos: int, pos: int)
    requires Ordered(s) && Clear(s, line, spos, epos) && spos < epos && spos <= pos
    ensures Ordered(MovedAll(s, Point(line, spos), pos - epos)) && OneLine(MovedAll(s, Point(line, spos), pos - epos))
  {
    hide Moved, ClearOf, AtMost;
    var p, shift := Point(line, spos), pos - epos;
    var r := MovedAll(s, p, shift);
    forall i | 0 <= i < |s|
      ensures r[i].start.line == r[i].end.line && AtMost(r[i].start, r[i].end)
    {
      SpanStaysSpan(s[i], line, spos, epos, pos);
    }
    forall i, j | 0 <= i < j < |s|
      ensures AtMost(r[i].end, r[j].start)
    {
      PairStaysOrdered(s[i], s[j], line, spos, epos, pos);
    }
  }

  lemma SpanStaysSpan(a: Anchor, line: int, spos: int, epos: int, pos: int)
    requires a.start.line == a.end.line && AtMost(a.start, a.end) && ClearOf(a, line, spos, epos) && spos < epos && spos <= pos
    ensures var r := Moved(a, Point(line, spos), pos - epos); r.start.line == r.end.line && AtMost(r.start, r.end)
  {
    MovedOnOneLine(a, Point(line, spos), pos - epos);
    hide Moved;
  }

  lemma PairStaysOrdered(a: Anchor, b: Anchor, line: int, spos: int, epos: int, pos: int)
    requires a.start.line == a.end.line && AtMost(a.start, a.end) && ClearOf(a, line, spos, epos)
    requires b.start.line == b.end.line && AtMost(b.start, b.end) && ClearOf(b, line, spos, epos)
    requires AtMost(a.end, b.start) && spos < epos && spos <= pos
    ensures AtMost(Moved(a, Point(line, spos), pos - epos).end, Moved(b, Point(line, spos), pos - epos).start)
  {
    MovedOnOneLine(a, Point(line, spos), pos - epos);
    MovedOnOneLine(b, Point(line, spos), pos - epos);
    hide Moved;
  }

  /** Does the span lie within this text, on this line? */
  predicate Within(a: Anchor, line: int, text: seq<char>) {
    a.start.line == a.end.line == line && 0 <= a.start.pos <= a.end.pos <= |text|
  }

  /** The characters an anchor covers on its line. */
  ghost function Covered(text: seq<char>, a: Anchor): seq<char>
    requires 0 <= a.start.pos <= a.end.pos <= |text|
  {
    text[a.start.pos..a.end.pos]
  }

  /** What an anchor has to cover once the text from `spos` to `epos` has become `field`. */
  ghost function ToCover(text: seq<char>, field: seq<char>, a: Anchor, spos: nat, epos: nat): seq<char>
    requires 0 <= a.start.pos <= a.end.pos <= |text| && spos < epos <= |text|
  {
    if a.start.pos <= spos && epos <= a.end.pos then text[a.start.pos..spos] + field + text[epos..a.end.pos]
    else Covered(text, a)
  }

  /** Anchors clear of the field cover the same characters, enclosing ones the new field in place of the old. */
  lemma CoversAfter(text: seq<char>, field: seq<char>, a: Anchor, line: int, spos: nat, epos: nat)
    requires spos < epos <= |text| && Within(a, line, text) && ClearOf(a, line, spos, epos)
    ensures var a' := Moved(a, Point(line, spos), spos + |field| - epos);
            var text' := text[..spos] + field + text[epos..];
            Within(a', line, text') && Covered(text', a') == ToCover(text, field, a, spos, epos)
  {
    var shift := spos + |field| - epos;
    var a', text' := Moved(a, Point(line, spos), shift), text[..spos] + field + text[epos..];
    MovedOnOneLine(a, Point(line, spos), shift);
    hide Moved;
    if a.end.pos <= spos {
      assert text'[a.start.pos..a.end.pos] == text[a.start.pos..a.end.pos];
    } else if epos <= a.start.pos {
      assert text'[a.start.pos + shift..a.end.pos + shift] == text[a.start.pos..a.end.pos];
    } else {
      Enclosing(text, field, a.start.pos, a.end.pos, spos, epos);
    }
  }

  lemma Enclosing(text: seq<char>, field: seq<char>, b: nat, e: nat, spos: nat, epos: nat)
    requires b <= spos < epos <= e <= |text|
    ensures (text[..spos] + field + text[epos..])[b..e + spos + |field| - epos] == text[b..spos] + field + text[epos..e]
  {
    var all, n := text[..spos] + field + text[epos..], |field|;
    assert all[b..spos] == text[b..spos];
    assert all[spos..spos + n] == field;
    assert all[spos + n..e + spos + n - epos] == text[epos..e];
    assert all[b..e + spos + n - epos] == all[b..spos] + all[spos..spos + n] + all[spos + n..e + spos + n - epos];
  }

  /** The anchor of the field itself covers exactly the new field. */
  lemma CoversField(text: seq<char>, field: seq<char>, a: Anchor, line: int, spos: nat, epos: nat)
    requires spos < epos <= |text| && a.start == Point(line, spos) && a.end == Point(line, epos)
    ensures ToCover(text, field, a, spos, epos) == field && ClearOf(a, line, spos, epos)
  {
  }

  // ----- the update of a one-line field

  /** The list `s` has become `s'`, and if its spans lay clear of the field it is in order and covers what it has to. */
  ghost predicate Follows(s: seq<Anchor>, s': seq<Anchor>, text: seq<char>, text': seq<char>, field: seq<char>, line: int, spos: nat, epos: nat)
    requires spos < epos <= |text|
  {
    && s' == MovedAll(s, Point(line, spos), spos + |field| - epos)
    && (Clear(s, line, spos, epos) ==>
         && Ordered(s') && OneLine(s')
         && forall i :: 0 <= i < |s| && Within(s[i], line, text) ==>
              Within(s'[i], line, text') && Covered(text', s'[i]) == ToCover(text, field, s[i], spos, epos))
  }

  lemma MovedFollows(s: seq<Anchor>, text: seq<char>, field: seq<char>, line: int, spos: nat, epos: nat)
    requires Ordered(s) && spos < epos <= |text|
    ensures Follows(s, MovedAll(s, Point(line, spos), spos + |field| - epos), text, text[..spos] + field + text[epos..], field, line, spos, epos)
  {
    hide Ordered, Moved, Covered, ToCover, ClearOf, OneLine;
    if Clear(s, line, spos, epos) {
      MovedKeepsOrder(s, line, spos, epos, spos + |field|);
      forall i | 0 <= i < |s| && Within(s[i], line, text)
        ensures var a' := Moved(s[i], Point(line, spos), spos + |field| - epos);
                var text' := text[..spos] + field + text[epos..];
                Within(a', line, text') && Covered(text', a') == ToCover(text, field, s[i], spos, epos)
      {
        CoversAfter(text, field, s[i], line, spos, epos);
      }
    }
  }

  ghost predicate ListReady(al: AnchorList?, hl: HmarkerList, p: Point)
    reads al, hl, if al == null then {} else {al.anchors}
  {
    && (al != null ==> al.Valid())
    && Ordered(ListOf(al)) && Marked(ListOf(al), |hl.marks|, p)
  }

  ghost predicate Separate(a: AnchorList?, b: AnchorList?)
    reads a, b
  {
    a != null && b != null ==> a.anchors != b.anchors
  }

  /** The four lists of a buffer keep their anchors in four arrays. */
  ghost predicate AllApart(a: AnchorList?, b: AnchorList?, c: AnchorList?, d: AnchorList?)
    reads a, b, c, d
  {
    Separate(a, b) && Separate(a, c) && Separate(a, d) && Separate(b, c) && Separate(b, d) && Separate(c, d)
  }

  /** The anchors in the order in which the four calls of `shiftAnchorPosition` get to them. */
  ghost function AllOf(href: seq<Anchor>, name: seq<Anchor>, img: seq<Anchor>, formitem: seq<Anchor>): seq<Anchor> {
    href + name + img + formitem
  }

  ghost predicate MarkersFollow(marks: seq<Point>, marks': seq<Point>, all: seq<Anchor>, p: Point, shift: int) {
    && |marks'| == |marks|
    && forall n :: 0 <= n < |marks| ==> marks'[n] == if shift == 0 then marks[n] else MarkAfter(marks, all, p, shift, n)
  }

  /**
  The text-field branch of `formUpdateBuffer`: the line is rewritten, all four lists follow, and
  every marker on the line goes to the last moved anchor of the four lists that bears its number.
  */
  method UpdateField(l: Line, str: Text, line: int, spos: nat, epos: nat, width: nat, password: bool,
                     href: AnchorList?, name: AnchorList?, img: AnchorList?, formitem: AnchorList?, hl: HmarkerList)
    requires |l.text| == |l.props| && spos < epos <= |l.text|
    requires ListReady(href, hl, Point(line, spos)) && ListReady(name, hl, Point(line, spos))
    requires ListReady(img, hl, Point(line, spos)) && ListReady(formitem, hl, Point(line, spos))
    requires AllApart(href, name, img, formitem)
    modifies l, hl
    modifies if href == null then {} else {href.anchors}
    modifies if name == null then {} else {name.anchors}
    modifies if img == null then {} else {img.anchors}
    modifies if formitem == null then {} else {formitem.anchors}
    ensures (href != null ==> href.Valid()) && (name != null ==> name.Valid())
    ensures (img != null ==> img.Valid()) && (formitem != null ==> formitem.Valid())
    ensures var cells := Field(str, 0, Style(width, false, password, old(l.props)[spos].effect));
            && l.text == old(l.text)[..spos] + Chars(cells) + old(l.text)[epos..]
            && l.props == old(l.props)[..spos] + Props(cells) + old(l.props)[epos..]
            && Follows(old(ListOf(href)), ListOf(href), old(l.text), l.text, Chars(cells), line, spos, epos)
            && Follows(old(ListOf(name)), ListOf(name), old(l.text), l.text, Chars(cells), line, spos, epos)
            && Follows(old(ListOf(img)), ListOf(img), old(l.text), l.text, Chars(cells), line, spos, epos)
            && Follows(old(ListOf(formitem)), ListOf(formitem), old(l.text), l.text, Chars(cells), line, spos, epos)
            && MarkersFollow(old(hl.marks), hl.marks,
                 AllOf(old(ListOf(href)), old(ListOf(name)), old(ListOf(img)), old(ListOf(formitem))),
                 Point(line, spos), spos + |cells| - epos)
  {
    hide *;
    ghost var p := Point(line, spos);
    ghost var field := Chars(Field(str, 0, Style(width, false, password, l.props[spos].effect)));
    ReadyMeans(href, hl, l.text, field, line, spos, epos);
    ReadyMeans(name, hl, l.text, field, line, spos, epos);
    ReadyMeans(img, hl, l.text, field, line, spos, epos);
    ReadyMeans(formitem, hl, l.text, field, line, spos, epos);
    DisjointMeans(href, name, img, formitem);
    ghost var all, marks := AllOf(ListOf(href), ListOf(name), ListOf(img), ListOf(formitem)), hl.marks;
    var pos, _ := FormUpdateLine(l, str, 0, spos, epos, width, false, password, false);
    if pos != epos {
      ShiftAll(href, name, img, formitem, hl, Point(line, spos), pos - epos);
    }
    MarkersDo(marks, all, p, pos - epos);
  }

  /** After the update, a marker that was at the start of a moved anchor is there again exactly if nothing moved, or the number is not shared with a later anchor elsewhere. */
  lemma MarkerAtStartIff(marks: seq<Point>, marks': seq<Point>, all: seq<Anchor>, p: Point, shift: int, i: nat)
    requires MarkersFollow(marks, marks', all, p, shift)
    requires i < |all| && Behind(all[i], p) && all[i].start.line == p.line
    requires 0 <= all[i].hseq < |marks| && marks[all[i].hseq] == all[i].start
    ensures marks'[all[i].hseq] == Moved(all[i], p, shift).start
      <==> shift == 0 || all[LastMoved(all, all[i].hseq, p)].start.pos == all[i].start.pos
  {
    MarksExactly(marks, all, p, shift, all[i].hseq);
    MarkFollowsIff(marks, all, p, shift, i);
  }

  lemma ReadyMeans(al: AnchorList?, hl: HmarkerList, text: seq<char>, field: seq<char>, line: int, spos: nat, epos: nat)
    requires ListReady(al, hl, Point(line, spos)) && spos < epos <= |text|
    ensures al != null ==> al.Valid()
    ensures Ordered(ListOf(al)) && Marked(ListOf(al), |hl.marks|, Point(line, spos))
    ensures MovedAll(ListOf(al), Point(line, spos), 0) == ListOf(al)
    ensures Follows(ListOf(al), MovedAll(ListOf(al), Point(line, spos), spos + |field| - epos), text, text[..spos] + field + text[epos..], field, line, spos, epos)
  {
    hide Ordered, Marked, Follows;
    MovedByNothing(ListOf(al), Point(line, spos));
    MovedFollows(ListOf(al), text, field, line, spos, epos);
  }

  lemma MarkersDo(marks: seq<Point>, all: seq<Anchor>, p: Point, shift: int)
    ensures MarkersFollow(marks, if shift == 0 then marks else MarksMoved(marks, all, p, shift), all, p, shift)
  {
    hide MarksMoved, MarkAfter;
    forall n | 0 <= n < |marks|
      ensures MarksMoved(marks, all, p, shift)[n] == MarkAfter(marks, all, p, shift, n)
    {
      MarksExactly(marks, all, p, shift, n);
    }
  }

  method ShiftPair(a: AnchorList?, b: AnchorList?, hl: HmarkerList, p: Point, shift: int)
    requires (a != null ==> a.Valid()) && (b != null ==> b.Valid())
    requires Ordered(ListOf(a)) && Marked(ListOf(a), |hl.marks|, p)
    requires Ordered(ListOf(b)) && Marked(ListOf(b), |hl.marks|, p)
    requires a != null && b != null ==> a.anchors != b.anchors
    modifies hl
    modifies if a == null then {} else {a.anchors}
    modifies if b == null then {} else {b.anchors}
    ensures ListOf(a) == MovedAll(old(ListOf(a)), p, shift)
    ensures ListOf(b) == MovedAll(old(ListOf(b)), p, shift)
    ensures hl.marks == MarksMoved(old(hl.marks), old(ListOf(a)) + old(ListOf(b)), p, shift)
  {
    hide *;
    MarksCompose(hl.marks, ListOf(a), ListOf(b), p, shift);
    ShiftAnchorPosition(a, hl, p, shift);
    ShiftAnchorPosition(b, hl, p, shift);
  }

  /** The four calls of `shiftAnchorPosition`. */
  method ShiftAll(href: AnchorList?, name: AnchorList?, img: AnchorList?, formitem: AnchorList?, hl: HmarkerList, p: Point, shift: int)
    requires (href != null ==> href.Valid()) && (name != null ==> name.Valid())
    requires (img != null ==> img.Valid()) && (formitem != null ==> formitem.Valid())
    requires Ordered(ListOf(href)) && Marked(ListOf(href), |hl.marks|, p)
    requires Ordered(ListOf(name)) && Marked(ListOf(name), |hl.marks|, p)
    requires Ordered(ListOf(img)) && Marked(ListOf(img), |hl.marks|, p)
    requires Ordered(ListOf(formitem)) && Marked(ListOf(formitem), |hl.marks|, p)
    requires AllApart(href, name, img, formitem)
    modifies hl
    modifies if href == null then {} else {href.anchors}
    modifies if name == null then {} else {name.anchors}
    modifies if img == null then {} else {img.anchors}
    modifies if formitem == null then {} else {formitem.anchors}
    ensures (href != null ==> href.Valid()) && (name != null ==> name.Valid())
    ensures (img != null ==> img.Valid()) && (formitem != null ==> formitem.Valid())
    ensures ListOf(href) == MovedAll(old(ListOf(href)), p, shift)
    ensures ListOf(name) == MovedAll(old(ListOf(name)), p, shift)
    ensures ListOf(img) == MovedAll(old(ListOf(img)), p, shift)
    ensures ListOf(formitem) == MovedAll(old(ListOf(formitem)), p, shift)
    ensures hl.marks == MarksMoved(old(hl.marks),
      AllOf(old(ListOf(href)), old(ListOf(name)), old(ListOf(img)), old(ListOf(formitem))), p, shift)
  {
    hide *;
    DisjointMeans(href, name, img, formitem);
    AllAre(ListOf(href), ListOf(name), ListOf(img), ListOf(formitem));
    MarksCompose(hl.marks, ListOf(href) + ListOf(name), ListOf(img) + ListOf(formitem), p, shift);
    ShiftPair(href, name, hl, p, shift);
    ShiftPair(img, formitem, hl, p, shift);
  }

  lemma AllAre(a: seq<Anchor>, b: seq<Anchor>, c: seq<Anchor>, d: seq<Anchor>)
    ensures AllOf(a, b, c, d) == (a + b) + (c + d)
  {
  }

  lemma DisjointMeans(a: AnchorList?, b: AnchorList?, c: AnchorList?, d: AnchorList?)
    requires AllApart(a, b, c, d)
    ensures (a != null && b != null ==> a.anchors != b.anchors) && (a != null && c != null ==> a.anchors != c.anchors)
    ensures (a != null && d != null ==> a.anchors != d.anchors) && (b != null && c != null ==> b.anchors != c.anchors)
    ensures (b != null && d != null ==> b.anchors != d.anchors) && (c != null && d != null ==> c.anchors != d.anchors)
  {
  }

  lemma MovedByNothing(s: seq<Anchor>, p: Point)
    ensures MovedAll(s, p, 0) == s
  {
  }
}
