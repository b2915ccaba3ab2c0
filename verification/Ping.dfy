/**
A ping run (ping/ping.c): the bitmap that recognises duplicate replies, and the reply counters.
*/
module Ping {

  // ----- the bitmap

  const TABLE_BYTES := 2048
  const MAX_DUP_CHK := 8 * TABLE_BYTES

  /** `B(seq)`: one bit, by the low three bits of the sequence number. */
  function Mask(i: nat): (m: bv8)
    requires i < 8
    ensures m != 0
  {
    match i
    case 0 => 1
    case 1 => 2
    case 2 => 4
    case 3 => 8
    case 4 => 16
    case 5 => 32
    case 6 => 64
    case 7 => 128
  }

  predicate BitIn(b: bv8, i: nat)
    requires i < 8
  {
    b & Mask(i) != 0
  }

  lemma SetBit(b: bv8, i: nat, j: nat)
    requires i < 8 && j < 8
    ensures BitIn(b | Mask(i), j) <==> i == j || BitIn(b, j)
  {
  }

  lemma ClearBit(b: bv8, i: nat, j: nat)
    requires i < 8 && j < 8
    ensures BitIn(b & !Mask(i), j) <==> i != j && BitIn(b, j)
  {
  }

  /** The slot of a sequence number: `A(seq)` and `B(seq)` together. */
  function Slot(number: nat): (s: nat)
    ensures s < MAX_DUP_CHK
  {
    8 * (number / 8 % TABLE_BYTES) + number % 8
  }

  lemma SlotIsModulo(number: nat)
    ensures Slot(number) == number % MAX_DUP_CHK
  {
    var q := number / 8;
    assert number == 8 * q + number % 8;
    assert q == TABLE_BYTES * (q / TABLE_BYTES) + q % TABLE_BYTES;
    assert number == MAX_DUP_CHK * (q / TABLE_BYTES) + Slot(number);
    ModuloIs(number, MAX_DUP_CHK, q / TABLE_BYTES, Slot(number));
  }

  lemma ModuloIs(x: int, n: int, q: int, r: int)
    requires n > 0 && 0 <= r < n && x == n * q + r
    ensures x % n == r && x / n == q
  {
    var d := x / n - q;
    assert n * d == n * (x / n) - n * q;
    assert d > 0 ==> n * d >= n;
    assert d < 0 ==> n * d <= -n;
  }

  /** Cutting a probe number to sixteen bits keeps its slot. */
  lemma WrapKeepsSlot(probe: nat)
    ensures Slot(probe % 65536) == Slot(probe)
  {
    var w, q := probe % 65536, probe / 65536;
    SlotIsModulo(w);
    SlotIsModulo(probe);
    assert w == MAX_DUP_CHK * (w / MAX_DUP_CHK) + w % MAX_DUP_CHK;
    assert probe == MAX_DUP_CHK * (4 * q + w / MAX_DUP_CHK) + w % MAX_DUP_CHK;
    ModuloIs(probe, MAX_DUP_CHK, 4 * q + w / MAX_DUP_CHK, w % MAX_DUP_CHK);
  }

  lemma NearProbesDiffer(i: nat, j: nat)
    requires i < j < i + MAX_DUP_CHK
    ensures Slot(i) != Slot(j)
  {
    SlotIsModulo(i);
    SlotIsModulo(j);
    var d := j / MAX_DUP_CHK - i / MAX_DUP_CHK;
    assert j - i == MAX_DUP_CHK * d + (Slot(j) - Slot(i));
  }

  class Table {
    const rcvd: array<bv8>
    ghost var bits: set<nat> // the slots whose bits are set

    ghost predicate Valid()
      reads this, rcvd
    {
      && rcvd.Length == TABLE_BYTES
      && forall s: nat :: s in bits <==> s < MAX_DUP_CHK && BitIn(rcvd[s / 8], s % 8)
    }

    constructor ()
      ensures Valid() && fresh(rcvd) && bits == {}
    {
      rcvd := new bv8[TABLE_BYTES](_ => 0);
      bits := {};
    }

    /** `SET(seq)`. */
    method Set(number: nat)
      requires Valid()
      modifies rcvd, this
      ensures Valid() && bits == old(bits) + {Slot(number)}
    {
      hide Mask, BitIn;
      var a, b := number / 8 % TABLE_BYTES, number % 8;
      rcvd[a] := rcvd[a] | Mask(b);
      forall s: nat | s < MAX_DUP_CHK
        ensures BitIn(rcvd[s / 8], s % 8) <==> s == Slot(number) || BitIn(old(rcvd[s / 8]), s % 8)
      {
        SetBit(old(rcvd[a]), b, s % 8);
      }
      bits := bits + {Slot(number)};
    }

    /** `CLR(seq)`. */
    method Clr(number: nat)
      requires Valid()
      modifies rcvd, this
      ensures Valid() && bits == old(bits) - {Slot(number)}
    {
      hide Mask, BitIn;
      var a, b := number / 8 % TABLE_BYTES, number % 8;
      rcvd[a] := rcvd[a] & !Mask(b);
      forall s: nat | s < MAX_DUP_CHK
        ensures BitIn(rcvd[s / 8], s % 8) <==> s != Slot(number) && BitIn(old(rcvd[s / 8]), s % 8)
      {
        ClearBit(old(rcvd[a]), b, s % 8);
      }
      bits := bits - {Slot(number)};
    }

    /** `TST(seq)`. */
    method Tst(number: nat) returns (r: bool)
      requires Valid()
      ensures r <==> Slot(number) in bits
    {
      r := rcvd[number / 8 % TABLE_BYTES] & Mask(number % 8) != 0;
    }
  }

  // ----- the counters

  /** No more replies counted than probes sent; `open` holds the slots that can still count one. */
  ghost predicate Bounded(bits: set<nat>, n: nat, received: int, open: set<nat>) {
    && received + |open| <= n
    && forall i :: 0 <= i < n && Slot(i) !in bits ==> Slot(i) in open
  }

  /** The bits of the last 16384 probes say which of them were answered. */
  ghost predicate Exact(bits: set<nat>, n: nat, received: int, answered: set<nat>) {
    && received == |answered|
    && (forall i :: i in answered ==> i < n)
    && forall i :: 0 <= i < n <= i + MAX_DUP_CHK ==> (Slot(i) in bits <==> i in answered)
  }

  lemma BoundedSend(bits: set<nat>, n: nat, received: int, open: set<nat>)
    requires Bounded(bits, n, received, open)
    ensures Bounded(bits - {Slot(n)}, n + 1, received, open + {Slot(n)})
  {
    hide Slot;
  }

  lemma BoundedReply(bits: set<nat>, n: nat, received: int, open: set<nat>, probe: nat)
    requires Bounded(bits, n, received, open) && probe < n && Slot(probe) !in bits
    ensures Bounded(bits + {Slot(probe)}, n, received + 1, open - {Slot(probe)})
  {
    hide Slot;
  }

  lemma ExactSend(bits: set<nat>, n: nat, received: int, answered: set<nat>)
    requires Exact(bits, n, received, answered)
    ensures Exact(bits - {Slot(n)}, n + 1, received, answered)
  {
    forall i | 0 <= i < n && n + 1 <= i + MAX_DUP_CHK
      ensures Slot(i) != Slot(n)
    {
      NearProbesDiffer(i, n);
    }
    hide Slot;
  }

  lemma ExactReply(bits: set<nat>, n: nat, received: int, answered: set<nat>, probe: nat)
    requires Exact(bits, n, received, answered) && probe < n <= probe + MAX_DUP_CHK
    ensures Slot(probe) in bits <==> probe in answered
    ensures Slot(probe) in bits ==> answered + {probe} == answered
    ensures Slot(probe) !in bits ==> Exact(bits + {Slot(probe)}, n, received + 1, answered + {probe})
  {
    forall i | 0 <= i < n <= i + MAX_DUP_CHK && i != probe
      ensures Slot(i) != Slot(probe)
    {
      NearProbesDiffer(if i < probe then i else probe, if i < probe then probe else i);
    }
    hide Slot;
  }

  /** What a run has seen, for the statement of its properties. */
  datatype Log = Log(
    accepted: nat,      // echo replies counted so far
    answered: set<nat>, // probes with at least one reply
    honest: bool,       // every reply so far carried the number of a transmitted probe
    timely: bool,       // and came before the probe 16384 later was sent
    open: set<nat>)     // slots that can still count a reply

  ghost predicate Agrees(g: Log, bits: set<nat>, n: nat, received: int) {
    && (g.honest ==> Bounded(bits, n, received, g.open))
    && (g.timely ==> g.honest && Exact(bits, n, received, g.answered))
  }

  /** The log after one more reply. */
  ghost function Replied(g: Log, bits: set<nat>, n: nat, probe: nat): Log {
    Log(g.accepted + 1, g.answered + {probe}, g.honest && probe < n, g.timely && probe < n <= probe + MAX_DUP_CHK,
        if Slot(probe) in bits then g.open else g.open - {Slot(probe)})
  }

  lemma RepliedAgrees(g: Log, bits: set<nat>, n: nat, received: int, probe: nat)
    requires Agrees(g, bits, n, received)
    ensures var g' := Replied(g, bits, n, probe);
            && (g'.timely ==> (Slot(probe) in bits <==> probe in g.answered))
            && (Slot(probe) in bits ==> Agrees(g', bits, n, received))
            && (Slot(probe) !in bits ==> Agrees(g', bits + {Slot(probe)}, n, received + 1))
  {
    hide Bounded, Exact, Slot;
    if g.timely && probe < n <= probe + MAX_DUP_CHK {
      ExactReply(bits, n, received, g.answered, probe);
    }
    if g.honest && probe < n && Slot(probe) !in bits {
      BoundedReply(bits, n, received, g.open, probe);
    }
  }

  lemma SentAgrees(g: Log, bits: set<nat>, n: nat, received: int)
    requires Agrees(g, bits, n, received)
    ensures Agrees(g.(open := g.open + {Slot(n)}), bits - {Slot(n)}, n + 1, received)
  {
    hide Bounded, Exact, Slot;
    if g.honest {
      BoundedSend(bits, n, received, g.open);
    }
    if g.timely {
      ExactSend(bits, n, received, g.answered);
    }
  }

  class Run {
    const table: Table
    var ntransmitted: nat
    var nreceived: int
    var nrepeats: nat
    var lastrcvd: bool
    ghost var g: Log

    ghost predicate Valid()
      reads this, table, table.rcvd
    {
      && table.Valid() && nreceived >= 0 && nreceived + nrepeats == g.accepted
      && Agrees(g, table.bits, ntransmitted, nreceived)
    }

    constructor ()
      ensures Valid() && g == Log(0, {}, true, true, {}) && ntransmitted == 0
      ensures fresh(table) && fresh(table.rcvd) && lastrcvd
    {
      table := new Table();
      ntransmitted, nreceived, nrepeats, lastrcvd := 0, 0, 0, true;
      g := Log(0, {}, true, true, {});
    }

    /** The bookkeeping of `pinger`. */
    method Transmit()
      requires Valid()
      modifies this, table, table.rcvd
      ensures Valid() && !lastrcvd && g == old(g).(open := g.open)
      ensures ntransmitted == old(ntransmitted) + 1 && nreceived == old(nreceived) && nrepeats == old(nrepeats)
    {
      hide Agrees, Slot, Table.Valid;
      lastrcvd := false;
      SentAgrees(g, table.bits, ntransmitted, nreceived);
      table.Clr(ntransmitted);
      g := g.(open := g.open + {Slot(ntransmitted)});
      ntransmitted := ntransmitted + 1;
    }

    /**
    The counting of `pr_pack` for an echo reply with a sixteen-bit number; `probe` is the
    transmission it answers.
    */
    method Reply(number: nat, ghost probe: nat) returns (dup: bool)
      requires Valid() && number == probe % 65536
      modifies this, table, table.rcvd
      ensures Valid() && ntransmitted == old(ntransmitted)
      ensures g == Replied(old(g), old(table.bits), ntransmitted, probe)
      ensures if dup then nrepeats == old(nrepeats) + 1 && nreceived == old(nreceived)
              else nreceived == old(nreceived) + 1 && nrepeats == old(nrepeats)
      ensures g.timely ==> (dup <==> probe in old(g).answered)
      ensures lastrcvd <==> old(lastrcvd) || number == (ntransmitted - 1) % 65536
    {
      hide Agrees, Slot, Table.Valid, Replied;
      WrapKeepsSlot(probe);
      RepliedAgrees(g, table.bits, ntransmitted, nreceived, probe);
      LogCounts(g, table.bits, ntransmitted, probe);
      if number == (ntransmitted - 1) % 65536 {
        lastrcvd := true;
      }
      g := Replied(g, table.bits, ntransmitted, probe);
      nreceived := nreceived + 1;
      dup := table.Tst(number);
      if dup {
        nrepeats := nrepeats + 1;
        nreceived := nreceived - 1;
      } else {
        table.Set(number);
      }
    }

    /** What the counters say at any point of a run. */
    lemma Totals()
      requires Valid()
      ensures nreceived + nrepeats == g.accepted
      ensures g.honest ==> nreceived <= ntransmitted
      ensures g.timely ==> nreceived == |g.answered|
    {
    }
  }

  lemma LogCounts(g: Log, bits: set<nat>, n: nat, probe: nat)
    ensures Replied(g, bits, n, probe).accepted == g.accepted + 1
  {
  }
}
