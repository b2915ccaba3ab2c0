/**
The transmit schedule of a ping run (ping/ping.c, `pinger` and `doit`; ping/ping.h,
`timespecadd`), in whole nanoseconds.
*/
module PingSchedule {

  const SECOND := 1_000_000_000
  const MAX_BEHIND := 100_000_000 // "at most 100 ms behind"
  const EARLY := 100_000          // "within 100 usec"

  /** The next transmission time on or after the grid point `next`, as the loop in `pinger` finds it. */
  function Advance(next: int, now: int, interval: int): (r: int)
    requires interval > 0
    ensures r >= next + interval && r >= now - MAX_BEHIND
    ensures r == next + interval || r < now - MAX_BEHIND + interval
    decreases now - next
  {
    var n := next + interval;
    if n - now < -MAX_BEHIND then Advance(n, now, interval) else n
  }

  /** A time that has zero in its seconds counts as never set. */
  predicate Unset(t: int) {
    0 <= t < SECOND
  }

  /** `next_tx` after a transmission at `now`. */
  function NextTx(next: int, now: int, interval: int): (r: int)
    requires interval > 0
  {
    var n := if Unset(next) then now else next;
    if n - now <= interval then Advance(n, now, interval) else n
  }

  /** A transmission moves the next one by at least an interval, unless that is more than one ahead already; then it stays. */
  lemma TransmissionMoves(next: int, now: int, interval: int)
    requires interval > 0 && !Unset(next)
    ensures next - now > interval ==> NextTx(next, now, interval) == next
    ensures next - now <= interval ==> NextTx(next, now, interval) >= next + interval
    ensures 0 <= next + interval - now <= interval ==> NextTx(next, now, interval) == next + interval
  {
  }

  ghost predicate OnGrid(next: int, first: int, interval: int, k: nat) {
    next == first + k * interval
  }

  lemma {:induction false} AdvanceStaysOnGrid(next: int, now: int, interval: int, first: int, k: nat) returns (k': nat)
    requires interval > 0 && OnGrid(next, first, interval, k)
    ensures k' >= k + 1 && OnGrid(Advance(next, now, interval), first, interval, k')
    decreases now - next
  {
    var n := next + interval;
    assert n == first + (k + 1) * interval;
    if n - now < -MAX_BEHIND {
      k' := AdvanceStaysOnGrid(n, now, interval, first, k + 1);
    } else {
      k' := k + 1;
    }
  }

  /** Nothing sent in this schedule so far, or everything promised about `next_tx`. */
  datatype Pace = Pace(
    sends: nat,  // transmissions since `first_tx` was set
    k: nat,      // intervals from `first_tx` to `next_tx`
    last: int,   // time of the latest transmission
    due: bool)   // all of them but the first were due, on an interval of at least 100 usec

  ghost predicate InPhase(first: int, next: int, interval: int, g: Pace) {
    && g.sends > 0 && OnGrid(next, first, interval, g.k)
    && g.last - MAX_BEHIND <= next <= g.last + 2 * interval
    && (g.due ==> g.k >= g.sends && (g.sends - 1) * interval <= g.last - first + EARLY)
  }

  predicate Due(next: int, now: int) {
    next - now <= EARLY
  }

  /** The record after a transmission at `now`. */
  ghost function Sent(g: Pace, next: int, now: int, interval: int, k: nat): Pace {
    if Unset(next) then Pace(1, k, now, interval >= EARLY)
    else Pace(g.sends + 1, k, now, g.due && Due(next, now))
  }

  lemma FirstSend(next: int, now: int, interval: int, g: Pace) returns (k: nat)
    requires interval > 0 && now >= 0 && Unset(next)
    ensures InPhase(now, NextTx(next, now, interval), interval, Sent(g, next, now, interval, k))
  {
    assert OnGrid(now, now, interval, 0);
    k := AdvanceStaysOnGrid(now, now, interval, now, 0);
  }

  lemma LaterSend(first: int, next: int, now: int, interval: int, g: Pace) returns (k: nat)
    requires interval > 0 && !Unset(next) && InPhase(first, next, interval, g) && g.last <= now
    requires g.due ==> interval >= EARLY
    ensures InPhase(first, NextTx(next, now, interval), interval, Sent(g, next, now, interval, k))
  {
    if next - now <= interval {
      k := AdvanceStaysOnGrid(next, now, interval, first, g.k);
    } else {
      k := g.k;
    }
    if g.due && Due(next, now) {
      SpacedOut(g.sends, g.k, interval);
    }
  }

  lemma SpacedOut(a: nat, b: nat, interval: int)
    requires a <= b && interval > 0
    ensures a * interval <= b * interval
  {
  }

  /** At most one transmission per interval, and one more, with 100 usec to spare. */
  lemma RateBound(first: int, next: int, interval: int, g: Pace, t: int)
    requires interval > 0 && InPhase(first, next, interval, g) && g.due && t >= g.last
    ensures g.sends <= (t - first + EARLY) / interval + 1
  {
    var q := (t - first + EARLY) / interval;
    assert t - first + EARLY < (q + 1) * interval;
    if g.sends - 1 > q {
      SpacedOut(q + 1, g.sends - 1, interval);
    }
  }

  lemma SentRecords(g: Pace, next: int, now: int, interval: int, k: nat)
    ensures var g' := Sent(g, next, now, interval, k);
            && g'.sends > 0 && g'.last == now && g'.k == k
            && (g'.due ==> interval >= EARLY || g.due)
            && (Unset(next) && g'.due ==> interval >= EARLY)
  {
  }

  /** The loop of `pinger`: at least one interval, and on until no more than 100 ms behind. */
  method CatchUp(next: int, now: int, interval: int) returns (r: int)
    requires interval > 0
    ensures r == Advance(next, now, interval)
    ensures r >= next + interval && r - now >= -100_000_000 && (r == next + interval || r - interval - now < -100_000_000)
  {
    r := next + interval;
    while r - now < -MAX_BEHIND
      invariant Advance(next, now, interval) == if r - now < -MAX_BEHIND then Advance(r, now, interval) else r
      decreases now - r
    {
      r := r + interval;
    }
  }

  class Pacer {
    const interval: int
    var firstTx: int
    var nextTx: int
    ghost var g: Pace

    ghost predicate Valid()
      reads this
    {
      && interval > 0
      && (g.sends == 0 ==> Unset(nextTx))
      && (g.sends > 0 ==> InPhase(firstTx, nextTx, interval, g) && (g.due ==> interval >= EARLY))
    }

    constructor (interval: int)
      requires interval > 0
      ensures Valid() && g == Pace(0, 0, 0, true) && this.interval == interval
    {
      this.interval := interval;
      firstTx, nextTx := 0, 0;
      g := Pace(0, 0, 0, true);
    }

    /** The timing part of `pinger` at time `now`. */
    method Pinger(now: int)
      requires Valid() && now >= 0 && now >= g.last
      modifies this
      ensures Valid() && g.sends > 0 && g.last == now
      ensures nextTx == NextTx(old(nextTx), now, interval)
      ensures firstTx == if 0 <= old(nextTx) < 1_000_000_000 then now else old(firstTx)
      ensures now - 100_000_000 <= nextTx <= now + 2 * interval
      ensures g == Sent(old(g), old(nextTx), now, interval, g.k)
    {
      hide InPhase, Advance, Sent;
      ghost var k;
      if Unset(nextTx) {
        k := FirstSend(nextTx, now, interval, g);
      } else {
        k := LaterSend(firstTx, nextTx, now, interval, g);
      }
      SentRecords(g, nextTx, now, interval, k);
      g := Sent(g, nextTx, now, interval, k);
      if Unset(nextTx) {
        firstTx := now;
        nextTx := now;
      }
      if nextTx - now <= interval {
        nextTx := CatchUp(nextTx, now, interval);
      }
    }

    /**
    The decision of `doit` at time `now`, with `dLast` left until the deadline: while there are
    packets and time left, send when due, or at once in flood mode after a reply.
    */
    method Poll(now: int, flood: bool, lastrcvd: bool, ntransmitted: int, npackets: int, dLast: int) returns (sent: bool)
      requires Valid() && now >= 0 && now >= g.last
      modifies this
      ensures Valid() && (sent <==> ntransmitted < npackets && dLast > 0 && (old(nextTx) - now <= 100_000 || (lastrcvd && flood)))
      ensures !sent ==> g == old(g) && nextTx == old(nextTx) && firstTx == old(firstTx)
      ensures sent ==> nextTx == NextTx(old(nextTx), now, interval) && g == Sent(old(g), old(nextTx), now, interval, g.k)
      ensures !flood && old(g).due && interval >= EARLY ==> g.due
    {
      sent := false;
      if ntransmitted < npackets && dLast > 0 {
        if nextTx - now <= EARLY || (lastrcvd && flood) {
          Pinger(now);
          sent := true;
        }
      }
    }
  }

  /** Once the clock shows a full second, `first_tx` is never set again. */
  lemma PhaseIsKept(next: int, now: int, interval: int)
    requires interval > 0 && now >= SECOND && (Unset(next) || next >= SECOND)
    ensures NextTx(next, now, interval) >= SECOND
  {
  }
}
