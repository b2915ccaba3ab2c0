/**
Renumbering of anchors (w3m/anchor.c, `reseq_anchor`): every pending anchor takes the
number of the numbered anchor that follows it, and the numbers from there on move up.
*/
module Markers {
  import opened Anchors

  // ----- the number an anchor is inserted at

  /** Among the first `k` anchors, the earliest numbered one strictly after `p`; -1 for none. */
  ghost function Closest(s: seq<Anchor>, p: Point, k: nat): (c: int)
    requires k <= |s|
    ensures -1 <= c < k
    ensures c >= 0 ==> s[c].hseq >= 0 && Before(p, s[c].start)
    ensures c == -1 ==> forall i :: 0 <= i < k ==> s[i].hseq < 0 || !Before(p, s[i].start)
  {
    if k == 0 then -1
    else
      var c := Closest(s, p, k - 1);
      var a := s[k - 1];
      if a.hseq >= 0 && Before(p, a.start) && (c == -1 || Before(a.start, s[c].start)) then k - 1 else c
  }

  /** Every number in use is below `nmark`. */
  ghost predicate AllBelow(s: seq<Anchor>, nmark: nat) {
    forall i :: 0 <= i < |s| ==> s[i].hseq < nmark
  }

  /** The number a pending anchor at `p` is inserted at; `nmark` means after all others. */
  ghost function NextNumber(s: seq<Anchor>, p: Point, nmark: nat): (h: int)
    requires AllBelow(s, nmark)
    ensures 0 <= h <= nmark
  {
    var c := Closest(s, p, |s|);
    if c == -1 then nmark else s[c].hseq
  }

  const PENDING := -2

  ghost function CountPending(s: seq<Anchor>, k: nat): (c: nat)
    requires k <= |s|
    ensures c <= k
  {
    if k == 0 then 0 else CountPending(s, k - 1) + if s[k - 1].hseq == PENDING then 1 else 0
  }

  /** The insertion numbers of the pending anchors among the first `k`, in order. */
  ghost function Nexts(href: seq<Anchor>, all: seq<Anchor>, nmark: nat, k: nat): (hs: seq<int>)
    requires k <= |href| && AllBelow(all, nmark)
    ensures |hs| == CountPending(href, k)
    ensures forall t :: 0 <= t < |hs| ==> 0 <= hs[t] <= nmark
  {
    if k == 0 then []
    else
      var hs := Nexts(href, all, nmark, k - 1);
      if href[k - 1].hseq == PENDING then hs + [NextNumber(all, href[k - 1].start, nmark)] else hs
  }

  // ----- the map from provisional to final numbers

  ghost function CountUpTo(hs: seq<int>, j: int): (c: nat)
    ensures c <= |hs|
  {
    if hs == [] then 0
    else CountUpTo(hs[..|hs| - 1], j) + if hs[|hs| - 1] <= j then 1 else 0
  }

  /** Final number of the existing number `j`. */
  ghost function OldNumber(hs: seq<int>, j: int): int {
    j + CountUpTo(hs, j)
  }

  /** Final number of the `t`-th pending anchor. */
  ghost function FreshNumber(hs: seq<int>, t: nat): int
    requires t < |hs|
  {
    hs[t] + CountUpTo(hs[..t], hs[t])
  }

  /** The whole of `seqmap` once every pending anchor has been inserted. */
  ghost function SeqMap(hs: seq<int>, nmark: nat): (m: seq<int>)
    ensures |m| == nmark + |hs|
    ensures forall j :: 0 <= j < nmark ==> m[j] == OldNumber(hs, j)
    ensures forall t :: 0 <= t < |hs| ==> m[nmark + t] == FreshNumber(hs, t)
  {
    seq(nmark + |hs|, x requires 0 <= x < nmark + |hs| =>
      if x < nmark then OldNumber(hs, x) else FreshNumber(hs, x - nmark))
  }

  ghost predicate Injective(m: seq<int>) {
    forall x, y :: 0 <= x < y < |m| ==> m[x] != m[y]
  }

  ghost predicate Covers(m: seq<int>, n: nat) {
    forall v :: 0 <= v < n ==> v in m
  }

  ghost predicate Bijection(m: seq<int>) {
    && (forall x :: 0 <= x < |m| ==> 0 <= m[x] < |m|)
    && Injective(m)
    && Covers(m, |m|)
  }

  ghost predicate Nondecreasing(hs: seq<int>) {
    forall t, u :: 0 <= t < u < |hs| ==> hs[t] <= hs[u]
  }

  ghost predicate InRange(hs: seq<int>, nmark: nat) {
    forall t :: 0 <= t < |hs| ==> 0 <= hs[t] <= nmark
  }

  lemma {:induction false} CountGrows(hs: seq<int>, j: int, k: int)
    requires j <= k
    ensures CountUpTo(hs, j) <= CountUpTo(hs, k)
  {
    if hs != [] {
      CountGrows(hs[..|hs| - 1], j, k);
    }
  }

  lemma {:induction false} CountAll(hs: seq<int>, j: int)
    requires forall t :: 0 <= t < |hs| ==> hs[t] <= j
    ensures CountUpTo(hs, j) == |hs|
  {
    if hs != [] {
      CountAll(hs[..|hs| - 1], j);
    }
  }

  lemma {:induction false} CountSplit(hs: seq<int>, j: int, t: nat)
    requires t <= |hs|
    ensures CountUpTo(hs[..t], j) <= CountUpTo(hs, j) <= CountUpTo(hs[..t], j) + |hs| - t
    ensures t < |hs| && hs[t] <= j ==> CountUpTo(hs[..t], j) + 1 <= CountUpTo(hs, j)
    ensures (forall u :: t <= u < |hs| ==> hs[u] > j) ==> CountUpTo(hs[..t], j) == CountUpTo(hs, j)
    decreases |hs|
  {
    if t == |hs| {
      assert hs[..t] == hs;
    } else {
      var r := hs[..|hs| - 1];
      assert r[..t] == hs[..t];
      CountSplit(r, j, t);
    }
  }

  lemma MapStaysInRange(hs: seq<int>, nmark: nat)
    requires InRange(hs, nmark)
    ensures forall x :: 0 <= x < nmark + |hs| ==> 0 <= SeqMap(hs, nmark)[x] < nmark + |hs|
  {
    forall x | 0 <= x < nmark + |hs|
      ensures 0 <= SeqMap(hs, nmark)[x] < nmark + |hs|
    {
      if x >= nmark {
        assert SeqMap(hs, nmark)[nmark + (x - nmark)] == FreshNumber(hs, x - nmark);
      }
    }
  }

  lemma FreshInOrder(hs: seq<int>, t: nat)
    requires Nondecreasing(hs) && t < |hs|
    ensures FreshNumber(hs, t) == hs[t] + t
  {
    CountAll(hs[..t], hs[t]);
  }

  lemma OldAvoidsFresh(hs: seq<int>, j: int, t: nat)
    requires Nondecreasing(hs) && t < |hs|
    ensures OldNumber(hs, j) != hs[t] + t
  {
    CountSplit(hs, j, t);
    if hs[t] <= j {
      CountAll(hs[..t], j);
    }
  }

  lemma NondecreasingIsInjective(hs: seq<int>, nmark: nat)
    requires Nondecreasing(hs)
    ensures Injective(SeqMap(hs, nmark))
  {
    var m := SeqMap(hs, nmark);
    forall x, y | 0 <= x < y < |m|
      ensures m[x] != m[y]
    {
      hide FreshNumber;
      if y < nmark {
        CountGrows(hs, x, y);
      } else {
        var u := y - nmark;
        FreshInOrder(hs, u);
        assert m[nmark + u] == hs[u] + u;
        if x < nmark {
          OldAvoidsFresh(hs, x, u);
        } else {
          var t := x - nmark;
          FreshInOrder(hs, t);
          assert m[nmark + t] == hs[t] + t;
        }
      }
    }
  }

  ghost function Values(m: seq<int>): set<int> {
    set v | v in m
  }

  lemma {:induction false} InjectiveValues(m: seq<int>)
    requires Injective(m)
    ensures |Values(m)| == |m|
  {
    if m != [] {
      var r, v := m[..|m| - 1], m[|m| - 1];
      InjectiveValues(r);
      assert m == r + [v];
      assert Values(m) == Values(r) + {v};
      assert v !in r;
    }
  }

  ghost function Below(n: nat): (s: set<int>)
    ensures forall v :: v in s <==> 0 <= v < n
  {
    if n == 0 then {} else Below(n - 1) + {n - 1}
  }

  lemma {:induction false} BoundedSize(s: set<int>, n: nat)
    requires s <= Below(n)
    ensures |s| <= n
  {
    if n == 0 {
      assert s == {};
    } else {
      BoundedSize(s - {n - 1}, n - 1);
    }
  }

  lemma {:induction false} MissingSize(s: set<int>, n: nat, v: int)
    requires 0 <= v < n && v !in s && s <= Below(n)
    ensures |s| < n
  {
    if v == n - 1 {
      BoundedSize(s, n - 1);
    } else {
      MissingSize(s - {n - 1}, n - 1, v);
    }
  }

  /** Pigeonhole: an injective map of 0 .. n-1 into itself misses nothing. */
  lemma InjectiveCovers(m: seq<int>)
    requires Injective(m) && forall x :: 0 <= x < |m| ==> 0 <= m[x] < |m|
    ensures Covers(m, |m|)
  {
    InjectiveValues(m);
    forall v | 0 <= v < |m|
      ensures v in m
    {
      if v !in m {
        MissingSize(Values(m), |m|, v);
      }
    }
  }

  // ----- a descent leaves a number unused

  /** Where the `t`-th pending anchor would go if all insertions were taken into account. */
  ghost function Rank(hs: seq<int>, t: nat): int
    requires t < |hs|
  {
    FreshNumber(hs, t) + CountUpTo(hs[t..], hs[t] - 1)
  }

  ghost predicate Overtaken(hs: seq<int>, t: nat) {
    t < |hs| && exists u :: t < u < |hs| && hs[u] < hs[t]
  }

  /** The overtaken anchor with the greatest insertion number, the last one among equals. */
  lemma {:induction false} LastOvertaken(hs: seq<int>, k: nat) returns (t: nat)
    requires k <= |hs| && exists u :: 0 <= u < k && Overtaken(hs, u)
    ensures t < k && Overtaken(hs, t)
    ensures forall u :: 0 <= u < k && Overtaken(hs, u) ==> hs[u] < hs[t] || (hs[u] == hs[t] && u <= t)
  {
    if exists u :: 0 <= u < k - 1 && Overtaken(hs, u) {
      t := LastOvertaken(hs, k - 1);
      if Overtaken(hs, k - 1) && hs[k - 1] >= hs[t] {
        t := k - 1;
      }
    } else {
      t := k - 1;
    }
  }

  lemma {:induction false} CountConcat(a: seq<int>, b: seq<int>, j: int)
    ensures CountUpTo(a + b, j) == CountUpTo(a, j) + CountUpTo(b, j)
  {
    if b == [] {
      assert a + b == a;
    } else {
      assert (a + b)[..|a + b| - 1] == a + b[..|b| - 1];
      CountConcat(a, b[..|b| - 1], j);
    }
  }

  lemma CountNone(hs: seq<int>, j: int)
    requires forall t :: 0 <= t < |hs| ==> hs[t] > j
    ensures CountUpTo(hs, j) == 0
  {
    CountSplit(hs, j, 0);
  }

  lemma OldAvoidsRank(hs: seq<int>, t: nat, j: int)
    requires t < |hs|
    ensures OldNumber(hs, j) != Rank(hs, t)
  {
    var h := hs[t];
    assert hs == hs[..t] + hs[t..];
    CountConcat(hs[..t], hs[t..], j);
    if j < h {
      CountGrows(hs[..t], j, h);
      CountGrows(hs[t..], j, h - 1);
    } else {
      CountGrows(hs[..t], h, j);
      CountSplit(hs[t..], j, 0);
      CountHead(hs, t, j);
    }
  }

  /** At `t` itself one more insertion counts than strictly below it. */
  lemma CountHead(hs: seq<int>, t: nat, j: int)
    requires t < |hs| && hs[t] <= j
    ensures CountUpTo(hs[t..], j) >= CountUpTo(hs[t..], hs[t] - 1) + 1
  {
    var h, rest := hs[t], hs[t + 1..];
    assert hs[t..] == [h] + rest;
    CountConcat([h], rest, j);
    CountConcat([h], rest, h - 1);
    assert [h][..0] == [];
    CountGrows(rest, h - 1, j);
  }

  lemma FreshAvoidsRank(hs: seq<int>, t: nat, u: nat)
    requires t < |hs| && u < |hs|
    requires Overtaken(hs, t)
    requires forall v :: 0 <= v < |hs| && Overtaken(hs, v) ==> hs[v] < hs[t] || (hs[v] == hs[t] && v <= t)
    ensures FreshNumber(hs, u) != Rank(hs, t)
  {
    var h, g := hs[t], hs[u];
    var d := CountUpTo(hs[t..], h - 1);
    assert d >= 1 by {
      var w :| t < w < |hs| && hs[w] < h;
      CountSplit(hs[t..], h - 1, w - t);
      assert hs[t..][w - t] == hs[w];
    }
    if u > t && g >= h {
      // nothing after u is smaller, so u stands where the full count puts it
      FreshAboveRank(hs, t, u);
    } else if u != t {
      assert u < t && g > h ==> Overtaken(hs, u);
      FreshBelowRank(hs, t, u);
    }
  }

  lemma FreshAboveRank(hs: seq<int>, t: nat, u: nat)
    requires t < u < |hs| && hs[u] >= hs[t] && !Overtaken(hs, u)
    ensures FreshNumber(hs, u) > Rank(hs, t)
  {
    var h, g, mid := hs[t], hs[u], hs[t..u];
    assert hs[..u] == hs[..t] + mid;
    CountConcat(hs[..t], mid, g);
    CountGrows(hs[..t], h, g);
    assert hs[t..] == mid + hs[u..];
    CountConcat(mid, hs[u..], h - 1);
    CountNone(hs[u..], h - 1);
    CountHead(hs[..u], t, g);
    assert hs[..u][t..] == mid && hs[..u][t] == h;
  }

  lemma FreshBelowRank(hs: seq<int>, t: nat, u: nat)
    requires t < |hs| && u < |hs| && u != t
    requires hs[u] < hs[t] || (hs[u] == hs[t] && u < t)
    ensures FreshNumber(hs, u) < Rank(hs, t)
  {
    var h, g := hs[t], hs[u];
    if u < t {
      var mid := hs[u..t];
      assert hs[..t] == hs[..u] + mid;
      CountConcat(hs[..u], mid, h);
      CountGrows(hs[..u], g, h);
      CountHead(hs[..t], u, h);
      assert hs[..t][u..] == mid;
      assert hs[..t][u] == g;
    } else {
      var mid := hs[t..u];
      assert hs[..u] == hs[..t] + mid;
      CountConcat(hs[..t], mid, g);
      CountGrows(hs[..t], g, h);
      assert hs[t..] == mid + hs[u..];
      CountConcat(mid, hs[u..], h - 1);
      CountGrows(mid, g, h - 1);
    }
  }

  lemma RankInRange(hs: seq<int>, t: nat, nmark: nat)
    requires InRange(hs, nmark) && t < |hs|
    ensures 0 <= Rank(hs, t) < nmark + |hs|
  {
    assert hs == hs[..t] + hs[t..];
    CountConcat(hs[..t], hs[t..], hs[t]);
    CountHead(hs, t, hs[t]);
  }

  lemma DescentMisses(hs: seq<int>, nmark: nat) returns (v: int)
    requires InRange(hs, nmark) && !Nondecreasing(hs)
    ensures 0 <= v < nmark + |hs| && v !in SeqMap(hs, nmark)
  {
    var a, b :| 0 <= a < b < |hs| && hs[a] > hs[b];
    assert Overtaken(hs, a);
    var t := LastOvertaken(hs, |hs|);
    v := Rank(hs, t);
    RankInRange(hs, t, nmark);
    hide Rank, OldNumber, FreshNumber, SeqMap;
    var m := SeqMap(hs, nmark);
    forall x | 0 <= x < |m|
      ensures m[x] != v
    {
      if x < nmark {
        OldAvoidsRank(hs, t, x);
      } else {
        FreshAvoidsRank(hs, t, x - nmark);
        assert m[nmark + (x - nmark)] == FreshNumber(hs, x - nmark);
      }
    }
  }

  /** `seqmap` is a bijection exactly when the insertion numbers never decrease. */
  lemma BijectionIff(hs: seq<int>, nmark: nat)
    requires InRange(hs, nmark)
    ensures Bijection(SeqMap(hs, nmark)) <==> Nondecreasing(hs)
  {
    MapStaysInRange(hs, nmark);
    if Nondecreasing(hs) {
      NondecreasingIsInjective(hs, nmark);
      InjectiveCovers(SeqMap(hs, nmark));
    } else {
      var v := DescentMisses(hs, nmark);
    }
  }

  // ----- when the insertion numbers do not decrease

  /** Numbers of existing anchors do not decrease with position. */
  ghost predicate FollowsPosition(s: seq<Anchor>) {
    forall i, j :: 0 <= i < |s| && 0 <= j < |s| && s[i].hseq >= 0 && s[j].hseq >= 0 && Before(s[i].start, s[j].start)
      ==> s[i].hseq <= s[j].hseq
  }

  lemma {:induction false} ClosestIsLeast(s: seq<Anchor>, p: Point, k: nat, i: nat)
    requires i < k <= |s| && s[i].hseq >= 0 && Before(p, s[i].start)
    ensures var c := Closest(s, p, k);
            c >= 0 && (Before(s[c].start, s[i].start) || (s[c].start == s[i].start && c <= i))
    decreases k
  {
    if i < k - 1 {
      ClosestIsLeast(s, p, k - 1, i);
    }
  }

  lemma NextIsMonotone(s: seq<Anchor>, p: Point, q: Point, nmark: nat)
    requires AllBelow(s, nmark) && FollowsPosition(s) && AtMost(p, q)
    ensures NextNumber(s, p, nmark) <= NextNumber(s, q, nmark)
  {
    var c, d := Closest(s, p, |s|), Closest(s, q, |s|);
    if d >= 0 {
      ClosestIsLeast(s, p, |s|, d);
      if Before(q, s[c].start) {
        ClosestIsLeast(s, q, |s|, c);
      }
    }
  }

  lemma {:induction false} NextsAppear(href: seq<Anchor>, all: seq<Anchor>, nmark: nat, k: nat, t: nat) returns (i: nat)
    requires k <= |href| && AllBelow(all, nmark)
    requires t < CountPending(href, k)
    ensures i < k && href[i].hseq == PENDING && CountPending(href, i) == t
    ensures Nexts(href, all, nmark, k)[t] == NextNumber(all, href[i].start, nmark)
  {
    if t < CountPending(href, k - 1) {
      i := NextsAppear(href, all, nmark, k - 1, t);
    } else {
      i := k - 1;
    }
  }

  lemma {:induction false} PendingGrows(s: seq<Anchor>, i: nat, j: nat)
    requires i <= j <= |s|
    ensures CountPending(s, i) <= CountPending(s, j)
    ensures i < j && s[i].hseq == PENDING ==> CountPending(s, i) < CountPending(s, j)
    decreases j
  {
    if i < j {
      PendingGrows(s, i, j - 1);
    }
  }

  /** Existing numbers that follow position make `seqmap` a bijection; so does a single pending anchor. */
  lemma FollowingIsBijection(href: seq<Anchor>, all: seq<Anchor>, nmark: nat)
    requires AllBelow(all, nmark) && Sorted(href)
    requires FollowsPosition(all) || CountPending(href, |href|) <= 1
    ensures Bijection(SeqMap(Nexts(href, all, nmark, |href|), nmark))
  {
    var hs := Nexts(href, all, nmark, |href|);
    forall t, u | 0 <= t < u < |hs|
      ensures hs[t] <= hs[u]
    {
      var i := NextsAppear(href, all, nmark, |href|, t);
      var j := NextsAppear(href, all, nmark, |href|, u);
      if j < i {
        PendingGrows(href, j, i);
      }
      NextIsMonotone(all, href[i].start, href[j].start, nmark);
    }
    BijectionIff(hs, nmark);
  }

  // ----- the marker list

  /** `HmarkerList`: position in `marks` is the number; the list grows as numbers are entered. */
  class HmarkerList {
    var marks: seq<Point>

    constructor ()
      ensures marks == []
    {
      marks := [];
    }

    /** `putHmarker`: `number` designates `p`; other numbers keep what they designate. */
    method PutHmarker(p: Point, number: nat)
      modifies this
      ensures |marks| == if number < old(|marks|) then old(|marks|) else number + 1
      ensures marks[number] == p
      ensures forall k :: 0 <= k < old(|marks|) && k != number ==> marks[k] == old(marks)[k]
    {
      if number + 1 > |marks| {
        marks := marks + seq(number + 1 - |marks|, _ => Point(0, 0));
      }
      marks := marks[number := p];
    }
  }

  ghost function MarksOf(hl: HmarkerList?): (s: seq<Point>)
    reads hl
    ensures hl != null ==> s == hl.marks
  {
    if hl == null then [] else hl.marks
  }
}
