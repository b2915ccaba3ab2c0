/**
The anchor index of a buffer (w3m/anchor.c): an array of spans kept sorted by start,
with insertion, and a binary search whose first probe is the index remembered from
the last search.
*/
module Anchors {

  datatype Point = Point(line: int, pos: int)

  /** `bpcmp`. */
  function Compare(a: Point, b: Point): int {
    if a.line - b.line != 0 then a.line - b.line else a.pos - b.pos
  }

  predicate Before(a: Point, b: Point) {
    Compare(a, b) < 0
  }

  predicate AtMost(a: Point, b: Point) {
    Compare(a, b) <= 0
  }

  /** Points are compared in reading order. */
  lemma ReadingOrder(a: Point, b: Point)
    ensures Before(a, b) <==> a.line < b.line || (a.line == b.line && a.pos < b.pos)
    ensures AtMost(a, b) <==> a == b || Before(a, b)
  {
  }

  datatype Link = Link(url: string, target: string, referer: string, title: string, accesskey: char)

  datatype Anchor = Anchor(link: Link, start: Point, end: Point, hseq: int, slave: bool)

  predicate Contains(a: Anchor, p: Point) {
    AtMost(a.start, p) && Before(p, a.end)
  }

  /** `onAnchor`: negative before the span, positive after it, zero inside. */
  function OnAnchor(a: Anchor, p: Point): (c: int)
    ensures c == 0 <==> Contains(a, p)
    ensures c < 0 <==> Before(p, a.start)
    ensures -1 <= c <= 1
  {
    if Compare(p, a.start) < 0 then -1
    else if Compare(a.end, p) <= 0 then 1
    else 0
  }

  // ----- sequences of anchors

  ghost predicate Sorted(s: seq<Anchor>) {
    forall i, j :: 0 <= i < j < |s| ==> AtMost(s[i].start, s[j].start)
  }

  /** Spans in order, none reaching past the start of the next; empty spans are allowed. */
  ghost predicate Ordered(s: seq<Anchor>) {
    && (forall i :: 0 <= i < |s| ==> AtMost(s[i].start, s[i].end))
    && forall i, j :: 0 <= i < j < |s| ==> AtMost(s[i].end, s[j].start)
  }

  /** The first index whose start is not before `p`, or the length. */
  ghost function Slot(s: seq<Anchor>, p: Point): (i: nat)
    ensures i <= |s|
    ensures forall k :: 0 <= k < i ==> Before(s[k].start, p)
    ensures i < |s| ==> AtMost(p, s[i].start)
  {
    if s == [] || AtMost(p, s[0].start) then 0 else 1 + Slot(s[1..], p)
  }

  ghost function Inserted(s: seq<Anchor>, a: Anchor): (r: seq<Anchor>)
    ensures |r| == |s| + 1
  {
    var i := Slot(s, a.start);
    s[..i] + [a] + s[i..]
  }

  lemma InsertedAt(s: seq<Anchor>, a: Anchor, k: nat)
    requires k <= |s|
    ensures var i := Slot(s, a.start);
            Inserted(s, a)[k] == if k < i then s[k] else if k == i then a else s[k - 1]
  {
  }

  lemma InsertedIs(s: seq<Anchor>, a: Anchor, i: nat, r: seq<Anchor>)
    requires i == Slot(s, a.start) && |r| == |s| + 1 && r[i] == a
    requires forall k :: 0 <= k < i ==> r[k] == s[k]
    requires forall k :: i < k <= |s| ==> r[k] == s[k - 1]
    ensures r == Inserted(s, a)
  {
    hide Slot;
    assert r == s[..i] + [a] + s[i..];
  }

  lemma InsertAddsOne(s: seq<Anchor>, a: Anchor)
    ensures multiset(Inserted(s, a)) == multiset(s) + multiset{a}
  {
    var i := Slot(s, a.start);
    assert s == s[..i] + s[i..];
  }

  lemma InsertKeepsSorted(s: seq<Anchor>, a: Anchor)
    requires Sorted(s)
    ensures Sorted(Inserted(s, a))
  {
    hide Inserted, Slot;
    var i := Slot(s, a.start);
    forall k | i <= k < |s|
      ensures AtMost(a.start, s[k].start)
    {
      assert k > i ==> AtMost(s[i].start, s[k].start);
    }
    forall x, y | 0 <= x < y < |s| + 1
      ensures AtMost(Inserted(s, a)[x].start, Inserted(s, a)[y].start)
    {
      InsertedAt(s, a, x);
      InsertedAt(s, a, y);
    }
  }

  predicate Apart(a: Anchor, b: Anchor) {
    AtMost(a.end, b.start) || AtMost(b.end, a.start)
  }

  lemma InsertKeepsOrdered(s: seq<Anchor>, a: Anchor)
    requires Ordered(s) && Before(a.start, a.end)
    requires forall i :: 0 <= i < |s| ==> Before(s[i].start, s[i].end) && Apart(s[i], a)
    ensures Ordered(Inserted(s, a))
    ensures forall i :: 0 <= i <= |s| ==> Before(Inserted(s, a)[i].start, Inserted(s, a)[i].end)
  {
    hide Inserted, Slot;
    var i, r := Slot(s, a.start), Inserted(s, a);
    forall k | 0 <= k < |s|
      ensures if k < i then AtMost(s[k].end, a.start) else AtMost(a.end, s[k].start)
    {
      assert k > i ==> AtMost(s[i].end, s[k].start);
    }
    forall x | 0 <= x <= |s|
      ensures Before(r[x].start, r[x].end)
    {
      InsertedAt(s, a, x);
    }
    forall x, y | 0 <= x < y <= |s|
      ensures AtMost(r[x].end, r[y].start)
    {
      InsertedAt(s, a, x);
      InsertedAt(s, a, y);
    }
  }

  /** Registering spans one after another. */
  ghost function Registered(spans: seq<Anchor>): seq<Anchor> {
    if spans == [] then [] else Inserted(Registered(spans[..|spans| - 1]), spans[|spans| - 1])
  }

  ghost predicate Disjoint(spans: seq<Anchor>) {
    && (forall i :: 0 <= i < |spans| ==> Before(spans[i].start, spans[i].end))
    && forall i, j :: 0 <= i < j < |spans| ==> Apart(spans[i], spans[j])
  }

  lemma MembersApart(prior: seq<Anchor>, spans: seq<Anchor>)
    requires spans != [] && Disjoint(spans)
    requires multiset(prior) == multiset(spans[..|spans| - 1])
    ensures forall i :: 0 <= i < |prior| ==>
      Before(prior[i].start, prior[i].end) && Apart(prior[i], spans[|spans| - 1])
  {
    var n := |spans| - 1;
    forall i | 0 <= i < |prior|
      ensures Before(prior[i].start, prior[i].end) && Apart(prior[i], spans[n])
    {
      assert prior[i] in multiset(prior);
      assert prior[i] in spans[..n];
    }
  }

  /** Any order of registration gives the sorted array of what was registered. */
  lemma {:induction false} RegisteredIsSorted(spans: seq<Anchor>)
    ensures Sorted(Registered(spans)) && multiset(Registered(spans)) == multiset(spans)
    ensures Disjoint(spans) ==> Ordered(Registered(spans))
  {
    hide Inserted;
    if spans != [] {
      var n := |spans| - 1;
      var prior := Registered(spans[..n]);
      RegisteredIsSorted(spans[..n]);
      assert spans == spans[..n] + [spans[n]];
      InsertKeepsSorted(prior, spans[n]);
      InsertAddsOne(prior, spans[n]);
      if Disjoint(spans) {
        MembersApart(prior, spans);
        InsertKeepsOrdered(prior, spans[n]);
      }
    }
  }

  // ----- searching

  /** An anchor at `p` has an index from `b` to `e`. */
  ghost predicate OnlyWithin(s: seq<Anchor>, p: Point, b: int, e: int) {
    forall k :: 0 <= k < |s| && Contains(s[k], p) ==> b <= k <= e
  }

  lemma AnywhereAtFirst(s: seq<Anchor>, p: Point)
    ensures OnlyWithin(s, p, 0, |s| - 1)
  {
  }

  /** One comparison rules out everything on one side. */
  lemma Narrows(s: seq<Anchor>, p: Point, b: int, e: int, i: nat)
    requires Ordered(s) && OnlyWithin(s, p, b, e) && i < |s|
    ensures OnAnchor(s[i], p) > 0 ==> OnlyWithin(s, p, i + 1, e)
    ensures OnAnchor(s[i], p) < 0 ==> OnlyWithin(s, p, b, i - 1) && (i == 0 ==> OnlyWithin(s, p, 0, -1))
  {
    forall k | 0 <= k < |s| && Contains(s[k], p)
      ensures (OnAnchor(s[i], p) > 0 ==> k > i) && (OnAnchor(s[i], p) < 0 ==> k < i)
    {
      assert k < i ==> AtMost(s[k].end, s[i].start);
      assert i < k ==> AtMost(s[i].end, s[k].start);
      assert AtMost(s[i].start, s[i].end);
    }
  }

  lemma Nowhere(s: seq<Anchor>, p: Point, b: int, e: int)
    requires OnlyWithin(s, p, b, e) && e < b
    ensures forall k :: 0 <= k < |s| ==> !Contains(s[k], p)
  {
  }

  // ----- the list object

  const FIRST_ANCHOR_SIZE := 30

  class AnchorList {
    var anchors: array<Anchor>
    var nanchor: nat
    var acache: int

    ghost predicate Valid()
      reads this
    {
      nanchor <= anchors.Length
    }

    ghost function Contents(): (s: seq<Anchor>)
      requires Valid()
      reads this, anchors
      ensures |s| == nanchor
    {
      anchors[..nanchor]
    }

    constructor ()
      ensures Valid() && fresh(anchors) && Contents() == [] && acache == -1
    {
      anchors := new Anchor[0];
      nanchor := 0;
      acache := -1;
    }

    method Grow(filler: Anchor)
      requires Valid()
      modifies this`anchors
      ensures Valid() && nanchor < anchors.Length
      ensures anchors == old(anchors) || fresh(anchors)
      ensures Contents() == old(Contents())
    {
      if anchors.Length == 0 {
        anchors := new Anchor[FIRST_ANCHOR_SIZE](_ => filler);
      }
      if nanchor == anchors.Length {
        var bigger := new Anchor[2 * anchors.Length](_ => filler);
        forall i | 0 <= i < nanchor {
          bigger[i] := anchors[i];
        }
        anchors := bigger;
      }
    }

    method FindSlot(p: Point) returns (i: nat)
      requires Valid() && Sorted(Contents())
      ensures i == Slot(Contents(), p)
    {
      var n := nanchor;
      if n == 0 || Compare(anchors[n - 1].start, p) < 0 {
        i := n;
      } else {
        i := 0;
        while Compare(anchors[i].start, p) < 0
          invariant i < n
          invariant i > 0 ==> Before(anchors[i - 1].start, p)
          decreases n - i
        {
          assert i < n - 1;
          i := i + 1;
        }
      }
      SlotIs(Contents(), p, i);
    }

    method ShiftUp(i: nat)
      requires Valid() && i <= nanchor < anchors.Length
      modifies anchors
      ensures forall k :: 0 <= k < i ==> anchors[k] == old(anchors[k])
      ensures forall k :: i < k <= nanchor ==> anchors[k] == old(anchors[k - 1])
    {
      var j := nanchor;
      while j > i
        invariant i <= j <= nanchor
        invariant forall k :: 0 <= k <= j ==> anchors[k] == old(anchors[k])
        invariant forall k :: j < k <= nanchor ==> anchors[k] == old(anchors[k - 1])
      {
        anchors[j] := anchors[j - 1];
        j := j - 1;
      }
    }

    /** `putAnchor`: the new anchor is empty, and keeps whatever number its slot held. */
    method PutAnchor(link: Link, p: Point, filler: Anchor) returns (i: nat)
      requires Valid() && Sorted(Contents())
      modifies this`anchors, this`nanchor, anchors
      ensures Valid() && (anchors == old(anchors) || fresh(anchors))
      ensures i == Slot(old(Contents()), p) && i < nanchor
      ensures anchors[i] == Anchor(link, p, p, anchors[i].hseq, false)
      ensures Contents() == Inserted(old(Contents()), anchors[i])
    {
      hide Inserted, Slot;
      ghost var s := Contents();
      Grow(filler);
      i := FindSlot(p);
      ShiftUp(i);
      var a := Anchor(link, p, p, anchors[i].hseq, false);
      anchors[i] := a;
      nanchor := nanchor + 1;
      InsertedIs(s, a, i, Contents());
    }

    /** A caller of `putAnchor` completing the anchor: number and end are known by then. */
    method Register(a: Anchor) returns (i: nat)
      requires Valid() && Sorted(Contents()) && !a.slave
      modifies this`anchors, this`nanchor, anchors
      ensures Valid() && (anchors == old(anchors) || fresh(anchors))
      ensures Contents() == Inserted(old(Contents()), a)
    {
      i := PutAnchor(a.link, a.start, a);
      ghost var s := Contents();
      anchors[i] := anchors[i].(end := a.end, hseq := a.hseq);
      assert Contents() == s[i := a];
    }

    /** `retrieveAnchor`: the index of the anchor at `p`, or -1 for NULL. */
    method RetrieveAnchor(p: Point) returns (r: int)
      requires Valid()
      modifies this`acache
      ensures nanchor > 0 ==> 0 <= acache < nanchor
      ensures nanchor == 0 ==> acache == old(acache)
      ensures r == -1 || (0 <= r < nanchor && r == acache && Contains(anchors[r], p))
      ensures Ordered(Contents()) ==> (r == -1 <==> forall k :: 0 <= k < nanchor ==> !Contains(anchors[k], p))
    {
      if nanchor == 0 {
        return -1;
      }
      if acache < 0 || acache >= nanchor {
        acache := 0;
      }
      ghost var s := Contents();
      var b, e := 0, nanchor - 1;
      hide Ordered, Contains, OnlyWithin, OnAnchor;
      AnywhereAtFirst(s, p);
      while b <= e
        invariant 0 <= b <= nanchor && 0 <= e < nanchor && b <= e + 1
        invariant 0 <= acache < nanchor
        invariant b <= e ==> b <= acache <= e
        invariant Ordered(s) ==> OnlyWithin(s, p, b, e)
        decreases e - b + 1
      {
        assert anchors[acache] == s[acache];
        if Ordered(s) {
          Narrows(s, p, b, e, acache);
        }
        var c := OnAnchor(anchors[acache], p);
        if c == 0 {
          return acache;
        } else if c > 0 {
          b := acache + 1;
        } else if acache == 0 {
          if Ordered(s) {
            Nowhere(s, p, 0, -1);
          }
          return -1;
        } else {
          e := acache - 1;
        }
        acache := (b + e) / 2;
      }
      if Ordered(s) {
        Nowhere(s, p, b, e);
      }
      r := -1;
    }
  }

  ghost function ListOf(al: AnchorList?): (s: seq<Anchor>)
    requires al != null ==> al.Valid()
    reads al, if al == null then {} else {al.anchors}
    ensures al != null ==> s == al.Contents()
  {
    if al == null then [] else al.Contents()
  }

  lemma {:induction false} SlotIs(s: seq<Anchor>, p: Point, i: nat)
    requires i <= |s|
    requires Sorted(s)
    requires i > 0 ==> Before(s[i - 1].start, p)
    requires i < |s| ==> AtMost(p, s[i].start)
    ensures Slot(s, p) == i
  {
    if i > 0 {
      assert AtMost(s[0].start, s[i - 1].start);
      SlotIs(s[1..], p, i - 1);
    }
  }
}
