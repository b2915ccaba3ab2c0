/**
The in-place renumbering pass of w3m/anchor.c (`closest_next_anchor`, `reseq_anchor0`,
`reseq_anchor`), proved against the map defined in module Markers.
*/
module Reseq {
  import opened Basics
  import opened Anchors
  import opened Markers

  // ----- looking for the next anchor

  ghost function PickAt(s: seq<Anchor>, p: Point, k: nat): Option<Anchor>
    requires k <= |s|
  {
    var c := Closest(s, p, k);
    if c == -1 then None else Some(s[c])
  }

  lemma {:induction false} ClosestSame(s: seq<Anchor>, s': seq<Anchor>, p: Point, k: nat)
    requires k <= |s| && k <= |s'|
    requires forall i :: 0 <= i < k ==> s[i] == s'[i] || (!Before(p, s[i].start) && !Before(p, s'[i].start))
    ensures Closest(s, p, k) == Closest(s', p, k)
  {
    if k > 0 {
      ClosestSame(s, s', p, k - 1);
    }
  }

  /** `closest_next_anchor`: continues a search that has already seen the anchors `seen`. */
  method ClosestNextAnchor(al: AnchorList?, an: Option<Anchor>, p: Point, ghost seen: seq<Anchor>)
    returns (r: Option<Anchor>)
    requires al != null ==> al.Valid()
    requires an == PickAt(seen, p, |seen|)
    ensures r == var s := seen + ListOf(al); PickAt(s, p, |s|)
  {
    r := an;
    ghost var s := seen + ListOf(al);
    ClosestSame(s, seen, p, |seen|);
    if al == null || al.nanchor == 0 {
      return;
    }
    for i := 0 to al.nanchor
      invariant r == PickAt(s, p, |seen| + i)
    {
      var a := al.anchors[i];
      assert s[|seen| + i] == a;
      if a.hseq >= 0 {
        if Before(p, a.start) {
          if r == None || Before(a.start, r.value.start) {
            r := Some(a);
          }
        }
      }
    }
  }

  // ----- the map, one insertion at a time

  /** The numbers assigned so far, in a table that still holds the identity beyond them. */
  ghost predicate TableHolds(table: seq<int>, hs: seq<int>, nmark: nat) {
    && nmark + |hs| <= |table|
    && (forall j :: 0 <= j < nmark ==> table[j] == OldNumber(hs, j))
    && (forall t :: 0 <= t < |hs| ==> table[nmark + t] == FreshNumber(hs, t))
    && forall x :: nmark + |hs| <= x < |table| ==> table[x] == x
  }

  lemma TableExtends(table: seq<int>, table': seq<int>, hs: seq<int>, h: int, nmark: nat)
    requires TableHolds(table, hs, nmark) && |table'| == |table| && nmark + |hs| < |table|
    requires InRange(hs, nmark) && 0 <= h <= nmark
    requires forall x :: 0 <= x < |table| && x != nmark + |hs| ==>
      table'[x] == table[x] + if h <= x < nmark then 1 else 0
    requires table'[nmark + |hs|] == if h < nmark then table[h] else nmark + |hs|
    ensures TableHolds(table', hs + [h], nmark)
  {
    var hs' := hs + [h];
    assert hs'[..|hs|] == hs;
    forall t | 0 <= t < |hs'|
      ensures table'[nmark + t] == FreshNumber(hs', t)
    {
      assert hs'[..t] == hs[..t];
      if t < |hs| {
        assert table[nmark + t] == FreshNumber(hs, t);
      } else {
        assert hs[..t] == hs;
        if h == nmark {
          CountAll(hs, nmark);
        }
      }
    }
  }

  /** One pass of the insertion loop over `seqmap`. */
  method InsertNumber(seqmap: array<int>, nmark: nat, n: nat, h: nat)
    requires nmark <= n < seqmap.Length && h <= nmark && seqmap[n] == n
    modifies seqmap
    ensures seqmap[n] == if h < nmark then old(seqmap[h]) else n
    ensures forall x :: 0 <= x < seqmap.Length && x != n ==>
      seqmap[x] == old(seqmap[x]) + if h <= x < nmark then 1 else 0
  {
    if h < nmark {
      seqmap[n] := seqmap[h];
      for j := h to nmark
        invariant forall x :: 0 <= x < seqmap.Length && x != n ==>
          seqmap[x] == old(seqmap[x]) + if h <= x < j then 1 else 0
        invariant seqmap[n] == old(seqmap[h])
      {
        seqmap[j] := seqmap[j] + 1;
      }
    }
  }

  // ----- the whole pass

  /** Provisional numbers: pending anchors count on from `nmark`. */
  ghost function Provisional(href: seq<Anchor>, nmark: nat, k: nat): (s: seq<Anchor>)
    requires k <= |href|
    ensures |s| == |href|
  {
    seq(|href|, i requires 0 <= i < |href| =>
      if i < k && href[i].hseq == PENDING then href[i].(hseq := nmark + CountPending(href, i)) else href[i])
  }

  ghost function Through(map_: seq<int>, a: Anchor): Anchor {
    if 0 <= a.hseq < |map_| then a.(hseq := map_[a.hseq]) else a
  }

  method CountPendingAnchors(href: AnchorList) returns (c: nat)
    requires href.Valid()
    ensures c == CountPending(href.Contents(), href.nanchor)
  {
    c := 0;
    for i := 0 to href.nanchor
      invariant c == CountPending(href.Contents(), i)
    {
      if href.anchors[i].hseq == PENDING {
        c := c + 1;
      }
    }
  }

  /** `reseq_anchor0`. */
  method RenumberAll(al: AnchorList?, seqmap: array<int>)
    requires al != null ==> al.Valid()
    requires AllBelow(ListOf(al), seqmap.Length)
    modifies if al == null then {} else {al.anchors}
    ensures al != null ==> al.Valid()
    ensures |ListOf(al)| == |old(ListOf(al))|
    ensures forall i :: 0 <= i < |ListOf(al)| ==> ListOf(al)[i] == Through(old(seqmap[..]), old(ListOf(al))[i])
    ensures seqmap[..] == old(seqmap[..])
  {
    if al == null {
      return;
    }
    assert forall i :: 0 <= i < al.nanchor ==> al.anchors[i] == ListOf(al)[i];
    for i := 0 to al.nanchor
      invariant seqmap[..] == old(seqmap[..])
      invariant forall k :: 0 <= k < i ==> al.anchors[k] == Through(old(seqmap[..]), old(al.anchors[k]))
      invariant forall k :: i <= k < al.nanchor ==> al.anchors[k] == old(al.anchors[k])
    {
      if al.anchors[i].hseq >= 0 {
        al.anchors[i] := al.anchors[i].(hseq := seqmap[al.anchors[i].hseq]);
      }
    }
  }

  /** The starts of the pending anchors among the first `k`, in order. */
  ghost function PendingStarts(href: seq<Anchor>, k: nat): (s: seq<Point>)
    requires k <= |href|
    ensures |s| == CountPending(href, k)
  {
    if k == 0 then []
    else PendingStarts(href, k - 1) + if href[k - 1].hseq == PENDING then [href[k - 1].start] else []
  }

  /** The list gives each location the number that the map assigns to it. */
  ghost predicate Placed(marks: seq<Point>, numbers: seq<int>, locations: seq<Point>) {
    && |numbers| == |locations|
    && forall x :: 0 <= x < |numbers| ==> 0 <= numbers[x] < |marks| && marks[numbers[x]] == locations[x]
  }

  ghost function TopOf(numbers: seq<int>): (n: nat) {
    if numbers == [] then 0
    else
      var n, v := TopOf(numbers[..|numbers| - 1]), numbers[|numbers| - 1];
      if v < n then n else v + 1
  }

  /** The list after entering the locations under the numbers, in this order. */
  ghost predicate MarksHold(marks: seq<Point>, numbers: seq<int>, locations: seq<Point>) {
    |marks| == TopOf(numbers) && (Injective(numbers) ==> Placed(marks, numbers, locations))
  }

  ghost function FreshNumbers(hs: seq<int>): (s: seq<int>)
    ensures |s| == |hs| && forall t :: 0 <= t < |hs| ==> s[t] == FreshNumber(hs, t)
  {
    seq(|hs|, t requires 0 <= t < |hs| => FreshNumber(hs, t))
  }

  method PutNext(ml: HmarkerList, p: Point, number: nat, ghost numbers: seq<int>, ghost locations: seq<Point>)
    requires MarksHold(ml.marks, numbers, locations)
    modifies ml
    ensures MarksHold(ml.marks, numbers + [number], locations + [p])
  {
    ghost var numbers' := numbers + [number];
    assert numbers'[..|numbers|] == numbers;
    ml.PutHmarker(p, number);
    if Injective(numbers') {
      assert forall x :: 0 <= x < |numbers| ==> numbers[x] == numbers'[x];
      forall x | 0 <= x < |numbers|
        ensures numbers[x] != number
      {
        assert numbers'[x] != numbers'[|numbers|];
      }
    }
  }

  lemma FreshNumbersExtend(hs: seq<int>, h: int)
    ensures FreshNumbers(hs + [h]) == FreshNumbers(hs) + [h + CountUpTo(hs, h)]
  {
    var hs' := hs + [h];
    forall t | 0 <= t < |hs'|
      ensures FreshNumbers(hs')[t] == (FreshNumbers(hs) + [h + CountUpTo(hs, h)])[t]
    {
      assert hs'[..t] == hs[..t];
      assert t == |hs| ==> hs[..t] == hs;
    }
  }

  /** The number a search for the next anchor stands for. */
  lemma PickIsNext(s: seq<Anchor>, p: Point, nmark: nat)
    requires AllBelow(s, nmark)
    ensures var r := PickAt(s, p, |s|);
            NextNumber(s, p, nmark) == if r == None then nmark else r.value.hseq
    ensures PickAt(s, p, |s|).Some? ==> PickAt(s, p, |s|).value.hseq >= 0
  {
  }

  /** Provisional numbers do not change what the search finds: they sit at or before `p`. */
  lemma ProvisionalIsBehind(href: seq<Anchor>, forms: seq<Anchor>, nmark: nat, k: nat)
    requires Sorted(href) && k < |href| && href[k].hseq == PENDING
    ensures var s, s' := href + forms, Provisional(href, nmark, k + 1) + forms;
            PickAt(s', href[k].start, |s'|) == PickAt(s, href[k].start, |s|)
  {
    var p, s, s' := href[k].start, href + forms, Provisional(href, nmark, k + 1) + forms;
    forall i | 0 <= i < |s|
      ensures s[i] == s'[i] || (!Before(p, s[i].start) && !Before(p, s'[i].start))
    {
    }
    ClosestSame(s, s', p, |s|);
  }

  method FindNext(href: AnchorList, formitem: AnchorList?, nmark: nat, i: nat, ghost h0: seq<Anchor>) returns (h: int)
    requires href.Valid() && (formitem != null ==> formitem.Valid())
    requires i < href.nanchor && |h0| == href.nanchor && h0[i].hseq == PENDING && Sorted(h0)
    requires AllBelow(h0 + ListOf(formitem), nmark)
    requires href.Contents() == Provisional(h0, nmark, i + 1)
    ensures h == NextNumber(h0 + ListOf(formitem), h0[i].start, nmark)
  {
    var p := href.anchors[i].start;
    ghost var now, all := Provisional(h0, nmark, i + 1), h0 + ListOf(formitem);
    assert now[i].start == h0[i].start;
    assert [] + ListOf(href) == now;
    assert PickAt([], p, 0) == None;
    ProvisionalIsBehind(h0, ListOf(formitem), nmark, i);
    PickIsNext(all, p, nmark);
    hide *;
    var a1 := ClosestNextAnchor(href, None, p, []);
    a1 := ClosestNextAnchor(formitem, a1, p, now);
    h := if a1.Some? then a1.value.hseq else nmark;
  }

  /** Number the pending anchor at `i` provisionally, and look for its insertion number. */
  method NumberPending(href: AnchorList, formitem: AnchorList?, nmark: nat, n: nat, i: nat, ghost h0: seq<Anchor>)
    returns (h: int, p: Point)
    requires href.Valid() && (formitem != null ==> formitem.Valid() && formitem.anchors != href.anchors)
    requires i < href.nanchor && |h0| == href.nanchor && h0[i].hseq == PENDING && Sorted(h0)
    requires AllBelow(h0 + ListOf(formitem), nmark)
    requires href.Contents() == Provisional(h0, nmark, i) && n == nmark + CountPending(h0, i)
    modifies href.anchors
    ensures href.Contents() == Provisional(h0, nmark, i + 1)
    ensures ListOf(formitem) == old(ListOf(formitem))
    ensures h == NextNumber(h0 + ListOf(formitem), h0[i].start, nmark) && p == h0[i].start
  {
    p := href.anchors[i].start;
    assert Provisional(h0, nmark, i)[i] == h0[i];
    href.anchors[i] := href.anchors[i].(hseq := n);
    assert href.Contents() == Provisional(h0, nmark, i)[i := h0[i].(hseq := n)];
    assert href.Contents() == Provisional(h0, nmark, i + 1);
    hide Provisional, Sorted, NextNumber, AllBelow;
    h := FindNext(href, formitem, nmark, i, h0);
  }

  /** Enter one insertion number into the table, and the new location into the marker list. */
  method PlacePending(seqmap: array<int>, ml: HmarkerList, nmark: nat, n: nat, h: int, p: Point,
                      ghost hs: seq<int>, ghost starts: seq<Point>)
    requires InRange(hs, nmark) && 0 <= h <= nmark && n == nmark + |hs| < seqmap.Length
    requires TableHolds(seqmap[..], hs, nmark) && MarksHold(ml.marks, FreshNumbers(hs), starts)
    modifies seqmap, ml
    ensures TableHolds(seqmap[..], hs + [h], nmark) && MarksHold(ml.marks, FreshNumbers(hs + [h]), starts + [p])
  {
    ghost var table := seqmap[..];
    assert seqmap[n] == n;
    hide *;
    InsertNumber(seqmap, nmark, n, h);
    TableExtends(table, seqmap[..], hs, h, nmark);
    NewestNumber(seqmap[..], hs, h, nmark);
    FreshNumbersExtend(hs, h);
    PutNext(ml, p, seqmap[n], FreshNumbers(hs), starts);
  }

  lemma NewestNumber(table: seq<int>, hs: seq<int>, h: int, nmark: nat)
    requires TableHolds(table, hs + [h], nmark) && nmark + |hs| < |table|
    ensures table[nmark + |hs|] == h + CountUpTo(hs, h)
  {
    assert (hs + [h])[..|hs|] == hs;
    assert table[nmark + |hs|] == FreshNumber(hs + [h], |hs|);
  }

  method IdentityTable(n: nat) returns (seqmap: array<int>)
    ensures fresh(seqmap) && seqmap.Length == n && forall x :: 0 <= x < n ==> seqmap[x] == x
  {
    seqmap := new int[n];
    for i := 0 to n
      invariant forall x :: 0 <= x < i ==> seqmap[x] == x
    {
      seqmap[i] := i;
    }
  }

  /** The state of the insertion loop after the first `i` anchors. */
  ghost predicate Progress(now: seq<Anchor>, table: seq<int>, marks: seq<Point>, h0: seq<Anchor>, all: seq<Anchor>, nmark: nat, i: nat)
    requires i <= |h0| && AllBelow(all, nmark)
  {
    var hs := Nexts(h0, all, nmark, i);
    && now == Provisional(h0, nmark, i)
    && TableHolds(table, hs, nmark)
    && MarksHold(marks, FreshNumbers(hs), PendingStarts(h0, i))
  }

  lemma ProgressStarts(table: seq<int>, h0: seq<Anchor>, all: seq<Anchor>, nmark: nat)
    requires AllBelow(all, nmark) && nmark <= |table|
    requires forall x :: 0 <= x < |table| ==> table[x] == x
    ensures Progress(h0, table, [], h0, all, nmark, 0) && CountPending(h0, 0) == 0
  {
    assert Provisional(h0, nmark, 0) == h0;
  }

  lemma ProgressMeans(now: seq<Anchor>, table: seq<int>, marks: seq<Point>, h0: seq<Anchor>, all: seq<Anchor>, nmark: nat, i: nat)
    requires i < |h0| && AllBelow(all, nmark) && Progress(now, table, marks, h0, all, nmark, i)
    ensures |now| == |h0| && now[i] == h0[i] && InRange(Nexts(h0, all, nmark, i), nmark)
    ensures CountPending(h0, i + 1) == CountPending(h0, i) + (if h0[i].hseq == PENDING then 1 else 0) <= CountPending(h0, |h0|)
  {
    PendingGrows(h0, i + 1, |h0|);
  }

  lemma ProgressSkips(now: seq<Anchor>, table: seq<int>, marks: seq<Point>, h0: seq<Anchor>, all: seq<Anchor>, nmark: nat, i: nat)
    requires i < |h0| && AllBelow(all, nmark) && h0[i].hseq != PENDING
    requires Progress(now, table, marks, h0, all, nmark, i)
    ensures Progress(now, table, marks, h0, all, nmark, i + 1)
  {
    assert Provisional(h0, nmark, i + 1) == Provisional(h0, nmark, i);
    assert PendingStarts(h0, i + 1) == PendingStarts(h0, i);
  }

  lemma ProgressInserts(h0: seq<Anchor>, all: seq<Anchor>, nmark: nat, i: nat)
    requires i < |h0| && AllBelow(all, nmark) && h0[i].hseq == PENDING
    ensures Nexts(h0, all, nmark, i + 1) == Nexts(h0, all, nmark, i) + [NextNumber(all, h0[i].start, nmark)]
    ensures PendingStarts(h0, i + 1) == PendingStarts(h0, i) + [h0[i].start]
  {
  }

  /** The body of the loop, for a pending anchor. */
  method InsertPending(href: AnchorList, formitem: AnchorList?, seqmap: array<int>, ml: HmarkerList, nmark: nat, n: nat, i: nat,
                       ghost h0: seq<Anchor>, ghost all: seq<Anchor>)
    requires href.Valid() && (formitem != null ==> formitem.Valid() && formitem.anchors != href.anchors)
    requires i < href.nanchor == |h0| && Sorted(h0) && all == h0 + ListOf(formitem) && AllBelow(all, nmark)
    requires h0[i].hseq == PENDING && n == nmark + CountPending(h0, i) < seqmap.Length
    requires href.Contents() == Provisional(h0, nmark, i)
    requires TableHolds(seqmap[..], Nexts(h0, all, nmark, i), nmark)
    requires MarksHold(ml.marks, FreshNumbers(Nexts(h0, all, nmark, i)), PendingStarts(h0, i))
    modifies href.anchors, seqmap, ml
    ensures ListOf(formitem) == old(ListOf(formitem))
    ensures href.Contents() == Provisional(h0, nmark, i + 1)
    ensures TableHolds(seqmap[..], Nexts(h0, all, nmark, i + 1), nmark)
    ensures MarksHold(ml.marks, FreshNumbers(Nexts(h0, all, nmark, i + 1)), PendingStarts(h0, i + 1))
  {
    hide *;
    ghost var hs, starts := Nexts(h0, all, nmark, i), PendingStarts(h0, i);
    var h, p := NumberPending(href, formitem, nmark, n, i, h0);
    NextsInRange(h0, all, nmark, i);
    PlacePending(seqmap, ml, nmark, n, h, p, hs, starts);
    ProgressInserts(h0, all, nmark, i);
  }

  lemma NextsInRange(h0: seq<Anchor>, all: seq<Anchor>, nmark: nat, i: nat)
    requires i <= |h0| && AllBelow(all, nmark)
    ensures InRange(Nexts(h0, all, nmark, i), nmark)
  {
  }

  /** The body of the loop. */
  method InsertOne(href: AnchorList, formitem: AnchorList?, seqmap: array<int>, ml: HmarkerList, nmark: nat, n: nat, i: nat,
                   ghost h0: seq<Anchor>, ghost all: seq<Anchor>)
    returns (n': nat)
    requires href.Valid() && (formitem != null ==> formitem.Valid() && formitem.anchors != href.anchors)
    requires i < href.nanchor == |h0| && Sorted(h0) && all == h0 + ListOf(formitem) && AllBelow(all, nmark)
    requires n == nmark + CountPending(h0, i) && seqmap.Length == nmark + CountPending(h0, |h0|)
    requires Progress(href.Contents(), seqmap[..], ml.marks, h0, all, nmark, i)
    modifies href.anchors, seqmap, ml
    ensures ListOf(formitem) == old(ListOf(formitem))
    ensures n' == nmark + CountPending(h0, i + 1)
    ensures Progress(href.Contents(), seqmap[..], ml.marks, h0, all, nmark, i + 1)
  {
    ProgressMeans(href.Contents(), seqmap[..], ml.marks, h0, all, nmark, i);
    assert href.anchors[i] == href.Contents()[i];
    hide CountPending, Sorted, AllBelow, Provisional, TableHolds, Nexts, MarksHold, InRange, FreshNumbers, PendingStarts;
    if href.anchors[i].hseq == PENDING {
      InsertPending(href, formitem, seqmap, ml, nmark, n, i, h0, all);
      n' := n + 1;
    } else {
      ProgressSkips(href.Contents(), seqmap[..], ml.marks, h0, all, nmark, i);
      n' := n;
    }
  }

  /** The loop over the pending anchors. */
  method InsertAll(href: AnchorList, formitem: AnchorList?, seqmap: array<int>, nmark: nat) returns (ml: HmarkerList)
    requires href.Valid() && (formitem != null ==> formitem.Valid() && formitem.anchors != href.anchors)
    requires Sorted(href.Contents()) && AllBelow(href.Contents() + ListOf(formitem), nmark)
    requires seqmap.Length == nmark + CountPending(href.Contents(), href.nanchor)
    requires forall x :: 0 <= x < seqmap.Length ==> seqmap[x] == x
    modifies href.anchors, seqmap
    ensures ListOf(formitem) == old(ListOf(formitem)) && fresh(ml)
    ensures var h0 := old(href.Contents());
            Progress(href.Contents(), seqmap[..], ml.marks, h0, h0 + ListOf(formitem), nmark, |h0|)
  {
    hide *;
    ghost var h0, f0 := href.Contents(), ListOf(formitem);
    ghost var all := h0 + f0;
    ml := new HmarkerList();
    var n := nmark;
    ProgressStarts(seqmap[..], h0, all, nmark);
    for i := 0 to href.nanchor
      invariant ListOf(formitem) == f0
      invariant n == nmark + CountPending(h0, i)
      invariant Progress(href.Contents(), seqmap[..], ml.marks, h0, all, nmark, i)
    {
      n := InsertOne(href, formitem, seqmap, ml, nmark, n, i, h0, all);
    }
  }

  // ----- carrying the existing markers over

  ghost function OldNumbers(hs: seq<int>, j: nat): (s: seq<int>)
    ensures |s| == j && forall x :: 0 <= x < j ==> s[x] == OldNumber(hs, x)
  {
    seq(j, x => OldNumber(hs, x))
  }

  /** Numbers in the order in which their locations are entered. */
  ghost function Entered(hs: seq<int>, j: nat): (s: seq<int>)
    ensures |s| == |hs| + j
  {
    FreshNumbers(hs) + OldNumbers(hs, j)
  }

  lemma EnteredGrows(hs: seq<int>, j: nat)
    ensures Entered(hs, j + 1) == Entered(hs, j) + [OldNumber(hs, j)]
    ensures Entered(hs, 0) == FreshNumbers(hs)
  {
    assert OldNumbers(hs, j + 1) == OldNumbers(hs, j) + [OldNumber(hs, j)];
  }

  lemma TableOld(table: seq<int>, hs: seq<int>, nmark: nat, j: nat)
    requires TableHolds(table, hs, nmark) && j < nmark
    ensures table[j] == OldNumber(hs, j) >= 0
  {
  }

  /** The loop that enters the existing markers under their new numbers. */
  method PlaceExisting(ml: HmarkerList, m0: seq<Point>, seqmap: array<int>, ghost hs: seq<int>, ghost starts: seq<Point>)
    requires TableHolds(seqmap[..], hs, |m0|) && |m0| <= seqmap.Length
    requires MarksHold(ml.marks, FreshNumbers(hs), starts)
    modifies ml
    ensures MarksHold(ml.marks, Entered(hs, |m0|), starts + m0)
  {
    hide *;
    EnteredGrows(hs, 0);
    assert starts + m0[..0] == starts;
    for i := 0 to |m0|
      invariant MarksHold(ml.marks, Entered(hs, i), starts + m0[..i])
    {
      EnteredGrows(hs, i);
      assert starts + m0[..i] + [m0[i]] == starts + m0[..i + 1];
      TableOld(seqmap[..], hs, |m0|, i);
      PutNext(ml, m0[i], seqmap[i], Entered(hs, i), starts + m0[..i]);
    }
    assert m0[..|m0|] == m0;
  }

  lemma {:induction false} TopIs(numbers: seq<int>, n: nat)
    requires forall x :: 0 <= x < |numbers| ==> 0 <= numbers[x] < n
    ensures TopOf(numbers) <= n
    ensures forall x :: 0 <= x < |numbers| ==> numbers[x] < TopOf(numbers)
  {
    if numbers != [] {
      TopIs(numbers[..|numbers| - 1], n);
    }
  }

  /** The order of entry lists the values of the map, the pending anchors first. */
  lemma EnteredIsMap(hs: seq<int>, nmark: nat, x: nat)
    requires x < nmark + |hs|
    ensures Entered(hs, nmark)[x] == SeqMap(hs, nmark)[if x < |hs| then nmark + x else x - |hs|]
  {
    assert x < |hs| ==> SeqMap(hs, nmark)[nmark + x] == FreshNumber(hs, x);
  }

  lemma EnteredInjective(hs: seq<int>, nmark: nat)
    requires Injective(SeqMap(hs, nmark))
    ensures Injective(Entered(hs, nmark))
  {
    hide Entered, SeqMap;
    var e := Entered(hs, nmark);
    forall x, y | 0 <= x < y < |e|
      ensures e[x] != e[y]
    {
      EnteredIsMap(hs, nmark, x);
      EnteredIsMap(hs, nmark, y);
    }
  }

  /** The number an anchor ends up with, given the map `m` on provisional numbers. */
  ghost function Renumbered(href: seq<Anchor>, i: nat, m: seq<int>, nmark: nat): int
    requires i < |href| && href[i].hseq < nmark && |m| == nmark + CountPending(href, |href|)
  {
    if href[i].hseq == PENDING then
      PendingGrows(href, i, |href|);
      m[nmark + CountPending(href, i)]
    else if href[i].hseq >= 0 then m[href[i].hseq]
    else href[i].hseq
  }

  ghost predicate Designates(marks: seq<Point>, number: int, location: Point) {
    0 <= number < |marks| && marks[number] == location
  }

  /** Marker list `marks'` still designates, under the numbers of `m`, what it has to. */
  ghost predicate Faithful(marks': seq<Point>, m: seq<int>, marks: seq<Point>, starts: seq<Point>) {
    && |marks'| == |m| == |marks| + |starts|
    && (forall j :: 0 <= j < |marks| ==> Designates(marks', m[j], marks[j]))
    && forall t :: 0 <= t < |starts| ==> Designates(marks', m[|marks| + t], starts[t])
  }

  lemma TableIsMap(table: seq<int>, hs: seq<int>, nmark: nat)
    requires TableHolds(table, hs, nmark) && |table| == nmark + |hs|
    ensures table == SeqMap(hs, nmark)
  {
    var m := SeqMap(hs, nmark);
    forall x | 0 <= x < |m|
      ensures table[x] == m[x]
    {
      if x >= nmark {
        assert table[nmark + (x - nmark)] == FreshNumber(hs, x - nmark) == m[nmark + (x - nmark)];
      }
    }
  }

  /** Bijectivity means that the list has no gap. */
  lemma EnteredFills(hs: seq<int>, nmark: nat)
    requires Bijection(SeqMap(hs, nmark))
    ensures TopOf(Entered(hs, nmark)) == nmark + |hs|
  {
    hide SeqMap, Entered, TopOf, Injective;
    var m, e, n := SeqMap(hs, nmark), Entered(hs, nmark), nmark + |hs|;
    forall y | 0 <= y < n
      ensures 0 <= e[y] < n
    {
      EnteredIsMap(hs, nmark, y);
    }
    TopIs(e, n);
    if n > 0 {
      assert n - 1 in m;
      var x :| 0 <= x < n && m[x] == n - 1;
      var y := if x < nmark then |hs| + x else x - nmark;
      EnteredIsMap(hs, nmark, y);
      assert e[y] < TopOf(e);
    }
  }

  lemma PlacedDesignates(marks': seq<Point>, hs: seq<int>, marks: seq<Point>, starts: seq<Point>, x: nat)
    requires |starts| == |hs| && x < |marks| + |hs|
    requires Placed(marks', Entered(hs, |marks|), starts + marks)
    ensures Designates(marks', SeqMap(hs, |marks|)[x], if x < |marks| then marks[x] else starts[x - |marks|])
  {
    hide SeqMap, Entered;
    var y := if x < |marks| then |hs| + x else x - |marks|;
    EnteredIsMap(hs, |marks|, y);
    assert marks'[Entered(hs, |marks|)[y]] == (starts + marks)[y];
  }

  lemma HeldIsFaithful(marks': seq<Point>, hs: seq<int>, marks: seq<Point>, starts: seq<Point>)
    requires |starts| == |hs| && InRange(hs, |marks|) && Nondecreasing(hs)
    requires MarksHold(marks', Entered(hs, |marks|), starts + marks)
    ensures Faithful(marks', SeqMap(hs, |marks|), marks, starts)
  {
    hide *;
    BijectionIff(hs, |marks|);
    PlacedInFull(marks', hs, marks, starts);
    forall x | 0 <= x < |marks| + |starts|
      ensures Designates(marks', SeqMap(hs, |marks|)[x], if x < |marks| then marks[x] else starts[x - |marks|])
    {
      PlacedDesignates(marks', hs, marks, starts, x);
    }
    IsFaithful(marks', SeqMap(hs, |marks|), marks, starts);
  }

  lemma PlacedInFull(marks': seq<Point>, hs: seq<int>, marks: seq<Point>, starts: seq<Point>)
    requires Bijection(SeqMap(hs, |marks|)) && |starts| == |hs|
    requires MarksHold(marks', Entered(hs, |marks|), starts + marks)
    ensures |marks'| == |marks| + |hs| && Placed(marks', Entered(hs, |marks|), starts + marks)
  {
    hide SeqMap, Entered, TopOf, Placed, Injective, Covers;
    EnteredInjective(hs, |marks|);
    EnteredFills(hs, |marks|);
  }

  lemma IsFaithful(marks': seq<Point>, m: seq<int>, marks: seq<Point>, starts: seq<Point>)
    requires |marks'| == |m| == |marks| + |starts|
    requires forall x :: 0 <= x < |m| ==> Designates(marks', m[x], if x < |marks| then marks[x] else starts[x - |marks|])
    ensures Faithful(marks', m, marks, starts)
  {
    hide Designates;
  }

  lemma {:induction false} PendingStartsAt(href: seq<Anchor>, k: nat, i: nat)
    requires i < k <= |href| && href[i].hseq == PENDING
    ensures CountPending(href, i) < CountPending(href, k) && PendingStarts(href, k)[CountPending(href, i)] == href[i].start
    decreases k
  {
    if i < k - 1 {
      PendingStartsAt(href, k - 1, i);
    }
  }

  lemma EmptyMap(nmark: nat)
    ensures forall x :: 0 <= x < nmark ==> SeqMap([], nmark)[x] == x
  {
  }

  lemma {:induction false} NonePending(href: seq<Anchor>, k: nat, i: nat)
    requires i < k <= |href| && CountPending(href, k) == 0
    ensures href[i].hseq != PENDING
    decreases k
  {
    if i < k - 1 {
      NonePending(href, k - 1, i);
    }
  }

  /** The insertion numbers of a buffer's pending anchors. */
  ghost function Insertions(href: seq<Anchor>, forms: seq<Anchor>, nmark: nat): (hs: seq<int>)
    requires AllBelow(href + forms, nmark)
    ensures |hs| == CountPending(href, |href|)
  {
    Nexts(href, href + forms, nmark, |href|)
  }

  lemma BelowEach(href: seq<Anchor>, forms: seq<Anchor>, nmark: nat)
    requires AllBelow(href + forms, nmark)
    ensures AllBelow(href, nmark) && AllBelow(forms, nmark)
  {
    forall i | 0 <= i < |forms|
      ensures forms[i].hseq < nmark
    {
      assert (href + forms)[|href| + i] == forms[i];
    }
    forall i | 0 <= i < |href|
      ensures href[i].hseq < nmark
    {
      assert (href + forms)[i] == href[i];
    }
  }

  /** Renumbering through the table turns provisional numbers into final ones. */
  lemma ThroughProvisional(h0: seq<Anchor>, m: seq<int>, nmark: nat, i: nat)
    requires i < |h0| && AllBelow(h0, nmark) && |m| == nmark + CountPending(h0, |h0|)
    ensures Through(m, Provisional(h0, nmark, |h0|)[i]) == h0[i].(hseq := Renumbered(h0, i, m, nmark))
    ensures Provisional(h0, nmark, |h0|)[i].hseq < |m|
  {
    PendingGrows(h0, i, |h0|);
  }

  // ----- what is lost when the insertion numbers decrease

  ghost predicate Distinct(locations: seq<Point>) {
    forall x, y :: 0 <= x < y < |locations| ==> locations[x] != locations[y]
  }

  /** With distinct locations, no list whatever is faithful to numbers that clash. */
  lemma FaithfulIsNondecreasing(marks': seq<Point>, hs: seq<int>, marks: seq<Point>, starts: seq<Point>)
    requires |starts| == |hs| && InRange(hs, |marks|) && Distinct(marks + starts)
    requires Faithful(marks', SeqMap(hs, |marks|), marks, starts)
    ensures Nondecreasing(hs)
  {
    hide SeqMap, Nondecreasing;
    var m, all := SeqMap(hs, |marks|), marks + starts;
    forall x | 0 <= x < |m|
      ensures Designates(marks', m[x], all[x])
    {
      if x >= |marks| {
        var t := x - |marks|;
        assert Designates(marks', m[|marks| + t], starts[t]);
      }
    }
    forall x, y | 0 <= x < y < |m|
      ensures m[x] != m[y]
    {
      assert Designates(marks', m[x], all[x]) && Designates(marks', m[y], all[y]);
    }
    forall x | 0 <= x < |m|
      ensures 0 <= m[x] < |m|
    {
      assert Designates(marks', m[x], all[x]);
    }
    InjectiveCovers(m);
    BijectionIff(hs, |marks|);
  }

  lemma NeverFaithful(h0: seq<Anchor>, f0: seq<Anchor>, m0: seq<Point>)
    requires AllBelow(h0 + f0, |m0|)
    ensures var hs := Insertions(h0, f0, |m0|);
            Distinct(m0 + PendingStarts(h0, |h0|)) && !Nondecreasing(hs) ==>
              forall marks' :: !Faithful(marks', SeqMap(hs, |m0|), m0, PendingStarts(h0, |h0|))
  {
    var hs, starts := Insertions(h0, f0, |m0|), PendingStarts(h0, |h0|);
    InsertionsAre(h0, f0, |m0|);
    hide Faithful, Distinct, Nondecreasing, SeqMap, Insertions, PendingStarts;
    forall marks' | Distinct(m0 + starts) && Faithful(marks', SeqMap(hs, |m0|), m0, starts)
      ensures Nondecreasing(hs)
    {
      FaithfulIsNondecreasing(marks', hs, m0, starts);
    }
  }

  /**
  A buffer that `reseq_anchor` gets wrong: two links whose numbers run against their order, and
  a pending anchor in front of each.
  */
  lemma ClashHappens() returns (href: seq<Anchor>, marks: seq<Point>)
    ensures Sorted(href) && AllBelow(href + [], |marks|)
    ensures forall i :: 0 <= i < |href| && href[i].hseq >= 0 ==> href[i].hseq < |marks| && marks[href[i].hseq] == href[i].start
    ensures Insertions(href, [], |marks|) == [1, 0] && SeqMap([1, 0], |marks|) == [1, 3, 1, 0]
    ensures forall marks' :: !Faithful(marks', SeqMap([1, 0], |marks|), marks, PendingStarts(href, |href|))
  {
    var link := Link("", "", "", "", '\0');
    href := [
      Anchor(link, Point(0, 0), Point(0, 1), PENDING, false), Anchor(link, Point(0, 2), Point(0, 3), 1, false),
      Anchor(link, Point(0, 4), Point(0, 5), PENDING, false), Anchor(link, Point(0, 6), Point(0, 7), 0, false)];
    marks := [Point(0, 6), Point(0, 2)];
    assert href + [] == href;
    ClashNumbers(href);
    ClashMap();
    assert [1, 0][0] > [1, 0][1];
    hide Insertions, SeqMap, PendingStarts, Faithful;
    assert marks + PendingStarts(href, 4) == [Point(0, 6), Point(0, 2), Point(0, 0), Point(0, 4)];
    NeverFaithful(href, [], marks);
  }

  lemma ClashNumbers(s: seq<Anchor>)
    requires |s| == 4 && s[0].start == Point(0, 0) && s[1].start == Point(0, 2) && s[2].start == Point(0, 4) && s[3].start == Point(0, 6)
    requires s[0].hseq == s[2].hseq == PENDING && s[1].hseq == 1 && s[3].hseq == 0
    ensures AllBelow(s + [], 2) && Insertions(s, [], 2) == [1, 0]
    ensures PendingStarts(s, 4) == [Point(0, 0), Point(0, 4)]
  {
    ClosestOf(s);
    hide NextNumber, Closest;
    assert s + [] == s;
    assert Nexts(s, s, 2, 0) == [];
    assert Nexts(s, s, 2, 1) == [1] && Nexts(s, s, 2, 2) == [1];
    assert Nexts(s, s, 2, 3) == [1, 0] && Nexts(s, s, 2, 4) == [1, 0];
    assert PendingStarts(s, 1) == [Point(0, 0)] && PendingStarts(s, 2) == [Point(0, 0)];
    assert PendingStarts(s, 3) == [Point(0, 0), Point(0, 4)];
  }

  lemma ClashMap()
    ensures SeqMap([1, 0], 2) == [1, 3, 1, 0]
  {
    var hs := [1, 0];
    assert CountUpTo([], 0) == 0 && CountUpTo([], 1) == 0;
    assert hs[..1] == [1] && hs[..0] == [] && [1][..0] == [];
    assert CountUpTo([1], 0) == 0 && CountUpTo([1], 1) == 1;
    assert CountUpTo(hs, 0) == 1 && CountUpTo(hs, 1) == 2;
    assert SeqMap(hs, 2)[2 + 0] == 1 && SeqMap(hs, 2)[2 + 1] == 0;
  }

  lemma ClosestOf(s: seq<Anchor>)
    requires |s| == 4 && s[0].start == Point(0, 0) && s[1].start == Point(0, 2) && s[2].start == Point(0, 4) && s[3].start == Point(0, 6)
    requires s[0].hseq == s[2].hseq == PENDING && s[1].hseq == 1 && s[3].hseq == 0
    ensures AllBelow(s, 2) && NextNumber(s, Point(0, 0), 2) == 1 && NextNumber(s, Point(0, 4), 2) == 0
  {
    var p, q := Point(0, 0), Point(0, 4);
    assert Closest(s, p, 1) == -1 && Closest(s, p, 2) == 1 && Closest(s, p, 3) == 1 && Closest(s, p, 4) == 1;
    assert Closest(s, q, 1) == -1 && Closest(s, q, 2) == -1 && Closest(s, q, 3) == -1 && Closest(s, q, 4) == 3;
  }

  /**
  What the pass makes of the lists `h0`, `f0` and the markers `m0`: every anchor is renumbered
  through the map; when the insertion numbers do not decrease, each number still designates its
  old location, and each new one its start; and for distinct locations only then.
  */
  ghost predicate Resequenced(h0: seq<Anchor>, f0: seq<Anchor>, m0: seq<Point>, h: seq<Anchor>, f: seq<Anchor>, marks: seq<Point>)
    requires AllBelow(h0 + f0, |m0|)
  {
    var hs, starts := Insertions(h0, f0, |m0|), PendingStarts(h0, |h0|);
    var m := SeqMap(hs, |m0|);
    && |h| == |h0| && |f| == |f0| && AllBelow(h0, |m0|)
    && (forall i :: 0 <= i < |h0| ==> h[i] == h0[i].(hseq := Renumbered(h0, i, m, |m0|)))
    && (forall i :: 0 <= i < |f0| ==> f[i] == Through(m, f0[i]))
    && (Nondecreasing(hs) ==> Faithful(marks, m, m0, starts))
    && (Distinct(m0 + starts) ==> (Faithful(marks, m, m0, starts) <==> Nondecreasing(hs)))
  }

  /** `reseq_anchor`. */
  method ReseqAnchor(href: AnchorList?, formitem: AnchorList?, hm: HmarkerList?) returns (hm': HmarkerList?)
    requires (href != null ==> href.Valid()) && (formitem != null ==> formitem.Valid())
    requires href != null && formitem != null ==> href.anchors != formitem.anchors
    requires Sorted(ListOf(href)) && AllBelow(ListOf(href) + ListOf(formitem), |MarksOf(hm)|)
    modifies if href == null then {} else {href.anchors}
    modifies if formitem == null then {} else {formitem.anchors}
    ensures (href != null ==> href.Valid()) && (formitem != null ==> formitem.Valid())
    ensures Resequenced(old(ListOf(href)), old(ListOf(formitem)), old(MarksOf(hm)), ListOf(href), ListOf(formitem), MarksOf(hm'))
  {
    hide AllBelow, Sorted, Resequenced, CountPending;
    ghost var h0, f0, m0 := ListOf(href), ListOf(formitem), MarksOf(hm);
    BelowEach(h0, f0, |m0|);
    if href == null {
      NothingPending();
      Unchanged(h0, f0, m0);
      return hm;
    }
    var nmark := if hm == null then 0 else |hm.marks|;
    var pending := CountPendingAnchors(href);
    if pending == 0 {
      Unchanged(h0, f0, m0);
      return hm;
    }
    hm' := Renumber(href, formitem, if hm == null then [] else hm.marks, nmark + pending);
  }

  lemma NothingPending()
    ensures CountPending([], 0) == 0
  {
  }

  lemma Unchanged(h0: seq<Anchor>, f0: seq<Anchor>, m0: seq<Point>)
    requires AllBelow(h0 + f0, |m0|) && AllBelow(h0, |m0|) && AllBelow(f0, |m0|) && CountPending(h0, |h0|) == 0
    ensures Resequenced(h0, f0, m0, h0, f0, m0)
  {
    var hs := Insertions(h0, f0, |m0|);
    assert hs == [];
    EmptyMap(|m0|);
    forall i | 0 <= i < |h0|
      ensures h0[i].hseq != PENDING
    {
      NonePending(h0, |h0|, i);
    }
  }

  lemma InsertionsAre(h0: seq<Anchor>, f0: seq<Anchor>, nmark: nat)
    requires AllBelow(h0 + f0, nmark)
    ensures Insertions(h0, f0, nmark) == Nexts(h0, h0 + f0, nmark, |h0|) && InRange(Insertions(h0, f0, nmark), nmark)
  {
  }

  /** The map and the new marker list; anchors hold provisional numbers afterwards. */
  method BuildMap(href: AnchorList, formitem: AnchorList?, m0: seq<Point>, n: nat) returns (seqmap: array<int>, ml: HmarkerList)
    requires href.Valid() && (formitem != null ==> formitem.Valid() && formitem.anchors != href.anchors)
    requires Sorted(href.Contents()) && AllBelow(href.Contents() + ListOf(formitem), |m0|)
    requires n == |m0| + CountPending(href.Contents(), href.nanchor)
    modifies href.anchors
    ensures fresh(seqmap) && fresh(ml) && ListOf(formitem) == old(ListOf(formitem))
    ensures var h0 := old(href.Contents());
            var hs := Insertions(h0, ListOf(formitem), |m0|);
            && href.Contents() == Provisional(h0, |m0|, |h0|)
            && seqmap[..] == SeqMap(hs, |m0|)
            && (Nondecreasing(hs) ==> Faithful(ml.marks, SeqMap(hs, |m0|), m0, PendingStarts(h0, |h0|)))
  {
    hide *;
    ghost var h0, f0 := href.Contents(), ListOf(formitem);
    ghost var hs, starts := Insertions(h0, f0, |m0|), PendingStarts(h0, |h0|);
    InsertionsAre(h0, f0, |m0|);
    seqmap := IdentityTable(n);
    ml := InsertAll(href, formitem, seqmap, |m0|);
    ProgressEnds(href.Contents(), seqmap[..], ml.marks, h0, h0 + f0, |m0|);
    PlaceExisting(ml, m0, seqmap, hs, starts);
    TableIsMap(seqmap[..], hs, |m0|);
    if Nondecreasing(hs) {
      HeldIsFaithful(ml.marks, hs, m0, starts);
    }
  }

  lemma ProgressEnds(now: seq<Anchor>, table: seq<int>, marks: seq<Point>, h0: seq<Anchor>, all: seq<Anchor>, nmark: nat)
    requires AllBelow(all, nmark) && Progress(now, table, marks, h0, all, nmark, |h0|)
    ensures var hs := Nexts(h0, all, nmark, |h0|);
            && now == Provisional(h0, nmark, |h0|) && TableHolds(table, hs, nmark)
            && MarksHold(marks, FreshNumbers(hs), PendingStarts(h0, |h0|))
  {
  }

  lemma AllThrough(h0: seq<Anchor>, m: seq<int>, nmark: nat, now: seq<Anchor>)
    requires AllBelow(h0, nmark) && |m| == nmark + CountPending(h0, |h0|) && now == Provisional(h0, nmark, |h0|)
    ensures AllBelow(now, |m|)
    ensures forall i :: 0 <= i < |h0| ==> h0[i].hseq < nmark && Through(m, now[i]) == h0[i].(hseq := Renumbered(h0, i, m, nmark))
  {
    forall i | 0 <= i < |h0|
      ensures now[i].hseq < |m| && Through(m, now[i]) == h0[i].(hseq := Renumbered(h0, i, m, nmark))
    {
      ThroughProvisional(h0, m, nmark, i);
    }
  }

  lemma BelowMap(s: seq<Anchor>, nmark: nat, n: nat)
    requires AllBelow(s, nmark) && nmark <= n
    ensures AllBelow(s, n)
  {
  }

  /** Renumber both lists. */
  method ApplyMap(href: AnchorList, formitem: AnchorList?, seqmap: array<int>, nmark: nat, ghost h0: seq<Anchor>)
    requires href.Valid() && (formitem != null ==> formitem.Valid() && formitem.anchors != href.anchors)
    requires AllBelow(h0, nmark) && AllBelow(ListOf(formitem), nmark) && |h0| == href.nanchor
    requires seqmap.Length == nmark + CountPending(h0, |h0|)
    requires href.Contents() == Provisional(h0, nmark, |h0|)
    modifies href.anchors
    modifies if formitem == null then {} else {formitem.anchors}
    ensures |ListOf(formitem)| == |old(ListOf(formitem))|
    ensures forall i :: 0 <= i < |h0| ==> href.Contents()[i] == h0[i].(hseq := Renumbered(h0, i, old(seqmap[..]), nmark))
    ensures forall i :: 0 <= i < |ListOf(formitem)| ==> ListOf(formitem)[i] == Through(old(seqmap[..]), old(ListOf(formitem))[i])
  {
    hide *;
    AllThrough(h0, seqmap[..], nmark, href.Contents());
    BelowMap(ListOf(formitem), nmark, seqmap.Length);
    RenumberAll(href, seqmap);
    RenumberAll(formitem, seqmap);
  }

  method Renumber(href: AnchorList, formitem: AnchorList?, m0: seq<Point>, n: nat) returns (ml: HmarkerList)
    requires href.Valid() && (formitem != null ==> formitem.Valid() && formitem.anchors != href.anchors)
    requires Sorted(href.Contents()) && AllBelow(href.Contents() + ListOf(formitem), |m0|)
    requires AllBelow(href.Contents(), |m0|) && AllBelow(ListOf(formitem), |m0|)
    requires n == |m0| + CountPending(href.Contents(), href.nanchor)
    modifies href.anchors
    modifies if formitem == null then {} else {formitem.anchors}
    ensures Resequenced(old(href.Contents()), old(ListOf(formitem)), m0, href.Contents(), ListOf(formitem), ml.marks)
  {
    hide *;
    ghost var h0, f0 := href.Contents(), ListOf(formitem);
    var seqmap, ml' := BuildMap(href, formitem, m0, n);
    ml := ml';
    ApplyMap(href, formitem, seqmap, |m0|, h0);
    IsResequenced(h0, f0, m0, href.Contents(), ListOf(formitem), ml.marks);
  }

  lemma IsResequenced(h0: seq<Anchor>, f0: seq<Anchor>, m0: seq<Point>, h: seq<Anchor>, f: seq<Anchor>, marks: seq<Point>)
    requires AllBelow(h0 + f0, |m0|) && AllBelow(h0, |m0|) && |h| == |h0| && |f| == |f0|
    requires forall i :: 0 <= i < |h0| ==> h[i] == h0[i].(hseq := Renumbered(h0, i, SeqMap(Insertions(h0, f0, |m0|), |m0|), |m0|))
    requires forall i :: 0 <= i < |f0| ==> f[i] == Through(SeqMap(Insertions(h0, f0, |m0|), |m0|), f0[i])
    requires Nondecreasing(Insertions(h0, f0, |m0|)) ==>
      Faithful(marks, SeqMap(Insertions(h0, f0, |m0|), |m0|), m0, PendingStarts(h0, |h0|))
    ensures Resequenced(h0, f0, m0, h, f, marks)
  {
    NeverFaithful(h0, f0, m0);
    hide Faithful, Distinct, Nondecreasing, SeqMap, Insertions, PendingStarts, Through, Renumbered;
  }

  /** What the pass promises about one href anchor, old or new. */
  lemma AnchorDesignates(marks': seq<Point>, h0: seq<Anchor>, i: nat, m: seq<int>, marks: seq<Point>)
    requires i < |h0| && h0[i].hseq < |marks| && |m| == |marks| + CountPending(h0, |h0|)
    requires Faithful(marks', m, marks, PendingStarts(h0, |h0|))
    ensures h0[i].hseq == PENDING ==> Designates(marks', Renumbered(h0, i, m, |marks|), h0[i].start)
    ensures h0[i].hseq >= 0 ==> Designates(marks', Renumbered(h0, i, m, |marks|), marks[h0[i].hseq])
  {
    if h0[i].hseq == PENDING {
      PendingStartsAt(h0, |h0|, i);
      var t := CountPending(h0, i);
      assert Designates(marks', m[|marks| + t], PendingStarts(h0, |h0|)[t]);
    }
  }
}
