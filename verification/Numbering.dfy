/**
The numbers that w3m/anchor.c (`reseq_anchor`) gives out follow the text: if they did so before,
then every pending anchor is numbered between its neighbours.
*/
module Numbering {
  import opened Basics
  import opened Anchors
  import opened Markers
  import opened Reseq

  /** Numbers increase with position. */
  ghost predicate Increasing(s: seq<Anchor>) {
    forall i, j :: 0 <= i < |s| && 0 <= j < |s| && s[i].hseq >= 0 && s[j].hseq >= 0 && Before(s[i].start, s[j].start)
      ==> s[i].hseq < s[j].hseq
  }

  /** Anchors at one place share a number. */
  ghost predicate SharedPlaces(s: seq<Anchor>) {
    forall i, j :: 0 <= i < |s| && 0 <= j < |s| && s[i].hseq >= 0 && s[j].hseq >= 0 && s[i].start == s[j].start
      ==> s[i].hseq == s[j].hseq
  }

  // ----- counting insertions

  lemma {:induction false} CountGrows(hs: seq<int>, j: int, k: int)
    requires j <= k
    ensures CountUpTo(hs, j) <= CountUpTo(hs, k)
  {
    if hs != [] {
      CountGrows(hs[..|hs| - 1], j, k);
    }
  }

  /** All insertions up to the `t`-th are at numbers not above `j`. */
  lemma {:induction false} CountAtLeast(hs: seq<int>, t: nat, j: int)
    requires t <= |hs| && forall u :: 0 <= u < t ==> hs[u] <= j
    ensures CountUpTo(hs, j) >= t
  {
    if hs != [] {
      CountAtLeast(hs[..|hs| - 1], if t < |hs| then t else |hs| - 1, j);
    }
  }

  /** None from the `t`-th on is. */
  lemma {:induction false} CountAtMost(hs: seq<int>, t: nat, j: int)
    requires t <= |hs| && forall u :: t <= u < |hs| ==> hs[u] > j
    ensures CountUpTo(hs, j) <= t
  {
    if |hs| > t {
      CountAtMost(hs[..|hs| - 1], t, j);
    }
  }

  lemma FreshIs(hs: seq<int>, t: nat)
    requires Nondecreasing(hs) && t < |hs|
    ensures FreshNumber(hs, t) == hs[t] + t
  {
    CountAtLeast(hs[..t], t, hs[t]);
  }

  lemma OldBelowOld(hs: seq<int>, i: int, j: int)
    requires i < j
    ensures OldNumber(hs, i) < OldNumber(hs, j)
  {
    CountGrows(hs, i, j);
  }

  lemma FreshBelowFresh(hs: seq<int>, t: nat, u: nat)
    requires Nondecreasing(hs) && t < u < |hs|
    ensures FreshNumber(hs, t) < FreshNumber(hs, u)
  {
    FreshIs(hs, t);
    FreshIs(hs, u);
  }

  lemma FreshBelowOld(hs: seq<int>, t: nat, j: int)
    requires Nondecreasing(hs) && t < |hs| && hs[t] <= j
    ensures FreshNumber(hs, t) < OldNumber(hs, j)
  {
    FreshIs(hs, t);
    CountAtLeast(hs, t + 1, j);
  }

  lemma OldBelowFresh(hs: seq<int>, t: nat, j: int)
    requires Nondecreasing(hs) && t < |hs| && hs[t] > j
    ensures OldNumber(hs, j) < FreshNumber(hs, t)
  {
    FreshIs(hs, t);
    CountAtMost(hs, t, j);
  }

  // ----- where a pending anchor is inserted

  lemma {:induction false} NextOfPending(href: seq<Anchor>, all: seq<Anchor>, nmark: nat, k: nat, i: nat)
    requires i < k <= |href| && AllBelow(all, nmark) && href[i].hseq == PENDING
    ensures var hs, t := Nexts(href, all, nmark, k), CountPending(href, i);
            t < |hs| && hs[t] == NextNumber(all, href[i].start, nmark)
    decreases k
  {
    if i < k - 1 {
      NextOfPending(href, all, nmark, k - 1, i);
    }
  }

  /** An anchor behind the place has a number not below the one inserted at. */
  lemma NextAtMost(all: seq<Anchor>, p: Point, nmark: nat, j: nat)
    requires AllBelow(all, nmark) && Increasing(all) && SharedPlaces(all)
    requires j < |all| && all[j].hseq >= 0 && Before(p, all[j].start)
    ensures NextNumber(all, p, nmark) <= all[j].hseq
  {
    ClosestIsLeast(all, p, |all|, j);
    var c := Closest(all, p, |all|);
    assert all[c].start == all[j].start || Before(all[c].start, all[j].start);
  }

  /** One in front of it has a smaller number. */
  lemma NextAbove(all: seq<Anchor>, p: Point, nmark: nat, j: nat)
    requires AllBelow(all, nmark) && Increasing(all)
    requires j < |all| && all[j].hseq >= 0 && Before(all[j].start, p)
    ensures NextNumber(all, p, nmark) > all[j].hseq
  {
    var c := Closest(all, p, |all|);
    if c >= 0 {
      assert Before(all[j].start, all[c].start);
    }
  }

  lemma IncreasingFollows(all: seq<Anchor>)
    requires Increasing(all)
    ensures FollowsPosition(all)
  {
  }

  // ----- the whole pass

  /** The new number of anchor `x` of both lists. */
  ghost function NewNumber(h0: seq<Anchor>, f0: seq<Anchor>, nmark: nat, x: nat): int
    requires AllBelow(h0 + f0, nmark) && x < |h0 + f0|
  {
    var hs := Insertions(h0, f0, nmark);
    var a := (h0 + f0)[x];
    if x < |h0| && a.hseq == PENDING then
      NextOfPending(h0, h0 + f0, nmark, |h0|, x);
      FreshNumber(hs, CountPending(h0, x))
    else if a.hseq >= 0 then OldNumber(hs, a.hseq)
    else a.hseq
  }

  lemma PendingInOrder(h0: seq<Anchor>, i: nat, j: nat)
    requires Sorted(h0) && i < |h0| && j < |h0| && h0[i].hseq == PENDING && Before(h0[i].start, h0[j].start)
    ensures i < j && CountPending(h0, i) < CountPending(h0, j)
  {
    if i < j {
      PendingGrows(h0, i + 1, j);
    }
  }

  /** Before and after, for two anchors in text order. */
  lemma PairInOrder(h0: seq<Anchor>, f0: seq<Anchor>, nmark: nat, i: nat, j: nat)
    requires AllBelow(h0 + f0, nmark) && Sorted(h0) && Increasing(h0 + f0) && SharedPlaces(h0 + f0)
    requires i < |h0 + f0| && j < |h0 + f0| && Before((h0 + f0)[i].start, (h0 + f0)[j].start)
    requires (h0 + f0)[i].hseq >= 0 || (i < |h0| && h0[i].hseq == PENDING)
    requires (h0 + f0)[j].hseq >= 0 || (j < |h0| && h0[j].hseq == PENDING)
    ensures NewNumber(h0, f0, nmark, i) < NewNumber(h0, f0, nmark, j)
  {
    var all, hs := h0 + f0, Insertions(h0, f0, nmark);
    InsertionsNondecreasing(h0, f0, nmark);
    var pi, pj := all[i].hseq < 0, all[j].hseq < 0;
    if pi {
      NextOfPending(h0, all, nmark, |h0|, i);
    }
    if pj {
      NextOfPending(h0, all, nmark, |h0|, j);
    }
    hide Nexts, FreshNumber, OldNumber, Increasing, SharedPlaces, Sorted, CountPending, Nondecreasing, NextNumber, Before;
    if pi && pj {
      PendingInOrder(h0, i, j);
      FreshBelowFresh(hs, CountPending(h0, i), CountPending(h0, j));
    } else if pi {
      NextAtMost(all, all[i].start, nmark, j);
      FreshBelowOld(hs, CountPending(h0, i), all[j].hseq);
    } else if pj {
      NextAbove(all, all[j].start, nmark, i);
      OldBelowFresh(hs, CountPending(h0, j), all[i].hseq);
    } else {
      NumbersInOrder(all, i, j);
      OldBelowOld(hs, all[i].hseq, all[j].hseq);
    }
  }

  lemma NumbersInOrder(all: seq<Anchor>, i: nat, j: nat)
    requires Increasing(all) && i < |all| && j < |all| && all[i].hseq >= 0 && all[j].hseq >= 0 && Before(all[i].start, all[j].start)
    ensures all[i].hseq < all[j].hseq
  {
  }

  lemma InsertionsNondecreasing(h0: seq<Anchor>, f0: seq<Anchor>, nmark: nat)
    requires AllBelow(h0 + f0, nmark) && Sorted(h0) && Increasing(h0 + f0)
    ensures Nondecreasing(Insertions(h0, f0, nmark))
  {
    IncreasingFollows(h0 + f0);
    FollowingIsBijection(h0, h0 + f0, nmark);
    InsertionsAre(h0, f0, nmark);
    BijectionIff(Insertions(h0, f0, nmark), nmark);
  }

  lemma NewNumbersAre(h0: seq<Anchor>, f0: seq<Anchor>, m0: seq<Point>, h: seq<Anchor>, f: seq<Anchor>, marks: seq<Point>, x: nat)
    requires AllBelow(h0 + f0, |m0|) && Resequenced(h0, f0, m0, h, f, marks) && x < |h0 + f0|
    ensures |h + f| == |h0 + f0| && (h + f)[x].hseq == NewNumber(h0, f0, |m0|, x) && (h + f)[x].start == (h0 + f0)[x].start
  {
    var all, hs := h0 + f0, Insertions(h0, f0, |m0|);
    var m := SeqMap(hs, |m0|);
    assert all[x].hseq < |m0|;
    if x < |h0| {
      assert h[x] == h0[x].(hseq := Renumbered(h0, x, m, |m0|));
      if h0[x].hseq == PENDING {
        NextOfPending(h0, all, |m0|, |h0|, x);
        assert m[|m0| + CountPending(h0, x)] == FreshNumber(hs, CountPending(h0, x));
      }
    } else {
      assert f[x - |h0|] == Through(m, f0[x - |h0|]);
    }
  }

  /** If the numbers increased with position before, they do so afterwards, pending anchors included. */
  lemma NumbersStayInOrder(h0: seq<Anchor>, f0: seq<Anchor>, m0: seq<Point>, h: seq<Anchor>, f: seq<Anchor>, marks: seq<Point>)
    requires AllBelow(h0 + f0, |m0|) && Sorted(h0) && Increasing(h0 + f0) && SharedPlaces(h0 + f0)
    requires Resequenced(h0, f0, m0, h, f, marks)
    ensures Increasing(h + f)
  {
    hide Resequenced, NewNumber, Before;
    var all, now := h0 + f0, h + f;
    forall i, j | 0 <= i < |now| && 0 <= j < |now| && now[i].hseq >= 0 && now[j].hseq >= 0 && Before(now[i].start, now[j].start)
      ensures now[i].hseq < now[j].hseq
    {
      SameSize(h0, f0, m0, h, f, marks);
      NewNumbersAre(h0, f0, m0, h, f, marks, i);
      NewNumbersAre(h0, f0, m0, h, f, marks, j);
      NumberedBefore(h0, f0, |m0|, i);
      NumberedBefore(h0, f0, |m0|, j);
      PairInOrder(h0, f0, |m0|, i, j);
    }
  }

  lemma SameSize(h0: seq<Anchor>, f0: seq<Anchor>, m0: seq<Point>, h: seq<Anchor>, f: seq<Anchor>, marks: seq<Point>)
    requires AllBelow(h0 + f0, |m0|) && Resequenced(h0, f0, m0, h, f, marks)
    ensures |h| == |h0| && |f| == |f0|
  {
  }

  lemma NumberedBefore(h0: seq<Anchor>, f0: seq<Anchor>, nmark: nat, x: nat)
    requires AllBelow(h0 + f0, nmark) && x < |h0 + f0| && NewNumber(h0, f0, nmark, x) >= 0
    ensures (h0 + f0)[x].hseq >= 0 || (x < |h0| && h0[x].hseq == PENDING)
  {
  }
}
