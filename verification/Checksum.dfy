/**
The Internet checksum (ping/ping.c, `in_cksum`; traceroute/traceroute.c, `in_cksum`,
`in_cksum2` and the ICMP branch of `send_probe`; section 1 of RFC 1071). `little` tells the
byte order of the host.
*/
module Checksum {
  import opened Basics

  /** Two bytes of memory as a 16-bit word. */
  function Word(little: bool, a: byte, b: byte): (w: nat)
    ensures w <= 0xffff
  {
    if little then a + 256 * b else 256 * a + b
  }

  function Low(w: nat): byte {
    w % 256
  }

  function High(w: nat): byte {
    w / 256 % 256
  }

  /** How a 16-bit word lies in memory. */
  function Bytes(little: bool, w: nat): (r: seq<byte>)
    requires w <= 0xffff
    ensures |r| == 2 && Word(little, r[0], r[1]) == w
  {
    if little then [Low(w), High(w)] else [High(w), Low(w)]
  }

  /** The exact sum of the words of `data`, an odd last byte padded with zero. */
  function Sum(little: bool, data: seq<byte>): nat
    decreases |data|
  {
    if data == [] then 0
    else if |data| == 1 then Word(little, data[0], 0)
    else Word(little, data[0], data[1]) + Sum(little, data[2..])
  }

  /** The one's complement value of a sum: 1 to 65535 by its residue, 0 only for 0. */
  function Residue(n: nat): (r: nat)
    ensures r <= 0xffff && (r == 0 <==> n == 0) && (r - n) % 0xffff == 0
  {
    if n == 0 then 0 else (n - 1) % 0xffff + 1
  }

  lemma ResidueIs(n: nat, r: nat)
    requires r <= 0xffff && (r == 0 <==> n == 0) && (r - n) % 0xffff == 0
    ensures Residue(n) == r
  {
  }

  // ----- folding

  /** Add the carries back, then the carry of that. */
  function Folded(sum: nat): nat {
    var t := sum / 0x10000 + sum % 0x10000;
    (t + t / 0x10000) % 0x10000
  }

  /** Two folds are enough for a 32-bit accumulator. */
  lemma TwoFoldsSuffice(sum: nat)
    requires sum < 0x1_0000_0000
    ensures Folded(sum) == Residue(sum)
  {
    var t := sum / 0x10000 + sum % 0x10000;
    assert sum == 0x10000 * (sum / 0x10000) + sum % 0x10000;
    assert t <= 0x1fffe;
    ResidueIs(sum, Folded(sum));
  }

  // ----- the sum cannot overflow

  lemma {:induction false} SumBound(little: bool, data: seq<byte>)
    ensures Sum(little, data) <= 0xffff * ((|data| + 1) / 2)
    decreases |data|
  {
    if |data| > 1 {
      SumBound(little, data[2..]);
    }
  }

  /** Bytes that are all ones reach the bound. */
  lemma {:induction false} SumOfOnes(little: bool, data: seq<byte>)
    requires |data| % 2 == 0 && forall i :: 0 <= i < |data| ==> data[i] == 255
    ensures Sum(little, data) == 0xffff * (|data| / 2)
    decreases |data|
  {
    if data != [] {
      SumOfOnes(little, data[2..]);
    }
  }

  lemma SumStep(little: bool, data: seq<byte>, p: nat)
    requires p + 2 <= |data|
    ensures Sum(little, data[p..]) == Word(little, data[p], data[p + 1]) + Sum(little, data[p + 2..])
  {
    assert data[p..][2..] == data[p + 2..];
  }

  /** What is left when fewer than two bytes remain. */
  lemma SumEnd(little: bool, data: seq<byte>, p: nat)
    requires p <= |data| < p + 2
    ensures Sum(little, data[p..]) == if p < |data| then Word(little, data[p], 0) else 0
  {
  }

  // ----- the routines

  /** A value kept in an unsigned 32-bit variable. */
  function Wrap(n: nat): (r: nat)
    ensures r < 0x1_0000_0000 && (n < 0x1_0000_0000 ==> r == n)
  {
    n % 0x1_0000_0000
  }

  lemma WrapAdd(n: nat, w: nat)
    ensures Wrap(Wrap(n) + w) == Wrap(n + w)
  {
  }

  /** `in_cksum` of ping: its unsigned accumulator would wrap around, but not on up to 128 KB. */
  method PingCksum(little: bool, data: seq<byte>) returns (r: nat)
    ensures r <= 0xffff && r == 0xffff - Folded(Wrap(Sum(little, data)))
    ensures |data| <= 0x2_0002 ==> r == 0xffff - Residue(Sum(little, data))
  {
    hide Sum, Word, Wrap, Folded, Residue;
    SumBound(little, data);
    var sum: nat := Wrap(0);
    var p, nwords: nat := 0, |data| / 2;
    ghost var exact: nat := 0;
    assert data[0..] == data;
    while nwords != 0
      invariant p + 2 * nwords == |data| / 2 * 2
      invariant exact + Sum(little, data[p..]) == Sum(little, data) && sum == Wrap(exact)
    {
      SumStep(little, data, p);
      var w := Word(little, data[p], data[p + 1]);
      WrapAdd(exact, w);
      sum := Wrap(sum + w);
      exact := exact + w;
      p, nwords := p + 2, nwords - 1;
    }
    SumEnd(little, data, p);
    if |data| % 2 == 1 {
      var w := Word(little, data[p], 0);
      WrapAdd(exact, w);
      sum := Wrap(sum + w);
      exact := exact + w;
    }
    TwoFoldsSuffice(sum);
    var folded := FoldTwice(sum);
    r := 0xffff - folded;
  }

  /** The two statements that fold the carries back in. */
  method FoldTwice(sum0: nat) returns (r: nat)
    ensures r == Folded(sum0) && r <= 0xffff
  {
    var sum := sum0;
    sum := sum / 0x10000 + sum % 0x10000;
    sum := sum + sum / 0x10000;
    r := sum % 0x10000;
  }

  /** One word more than that, and a packet of ones makes the accumulator wrap. */
  lemma PingBoundIsTight(little: bool, data: seq<byte>)
    requires |data| == 0x2_0004 && forall i :: 0 <= i < |data| ==> data[i] == 255
    ensures Wrap(Sum(little, data)) != Sum(little, data)
  {
    SumOfOnes(little, data);
  }

  /** `in_cksum2` of traceroute: a signed accumulator, which must stay below 2^31. */
  method InCksum2(little: bool, seed: nat, data: seq<byte>) returns (r: nat)
    requires seed <= 0xffff && |data| <= 0xfffe
    ensures r == Residue(seed + Sum(little, data))
  {
    hide Sum, Word, Folded, Residue;
    SumBound(little, data);
    var nleft, w := |data|, 0;
    var sum: nat := seed;
    assert data[0..] == data;
    while nleft > 1
      invariant 0 <= nleft && w + nleft == |data|
      invariant sum + Sum(little, data[w..]) == seed + Sum(little, data)
    {
      SumStep(little, data, w);
      sum := sum + Word(little, data[w], data[w + 1]);
      w, nleft := w + 2, nleft - 2;
    }
    SumEnd(little, data, w);
    if nleft == 1 {
      sum := sum + Word(little, data[w], 0);
    }
    assert sum < 0x8000_0000;
    TwoFoldsSuffice(sum);
    r := FoldTwice(sum);
  }

  /** `in_cksum` of traceroute. */
  method InCksum(little: bool, data: seq<byte>) returns (r: nat)
    requires |data| <= 0xfffe
    ensures r == Cksum(little, data)
  {
    var s := InCksum2(little, 0, data);
    r := 0xffff - s;
  }

  /** The checksum of a packet: the complement of the one's complement sum. */
  function Cksum(little: bool, data: seq<byte>): (r: nat)
    ensures r <= 0xffff
  {
    0xffff - Residue(Sum(little, data))
  }

  // ----- sums of parts

  lemma {:induction false} SumConcat(little: bool, a: seq<byte>, b: seq<byte>)
    requires |a| % 2 == 0
    ensures Sum(little, a + b) == Sum(little, a) + Sum(little, b)
    decreases |a|
  {
    if a == [] {
      assert a + b == b;
    } else {
      SumConcat(little, a[2..], b);
      assert (a + b)[2..] == a[2..] + b;
    }
  }

  /** Seeding with the result for a prefix of even length is the same as summing the whole. */
  lemma SeedingIsSumming(little: bool, a: seq<byte>, b: seq<byte>)
    requires |a| % 2 == 0
    ensures Residue(Residue(Sum(little, a)) + Sum(little, b)) == Residue(Sum(little, a + b))
  {
    SumConcat(little, a, b);
    ResidueOfSum(Sum(little, a), Sum(little, b));
  }

  lemma ResidueOfSum(m: nat, n: nat)
    ensures Residue(Residue(m) + n) == Residue(m + n)
  {
    var r := Residue(Residue(m) + n);
    assert (Residue(m) - m) % 0xffff == 0 && (r - (Residue(m) + n)) % 0xffff == 0;
    SameResidue(r, Residue(m) + n, m + n);
    ResidueIs(m + n, r);
  }

  lemma SameResidue(a: int, b: int, c: int)
    requires (a - b) % 0xffff == 0 && (b - c) % 0xffff == 0
    ensures (a - c) % 0xffff == 0
  {
  }

  // ----- storing the checksum

  /** `data` with the word `w` stored at `off`. */
  function Stored(little: bool, data: seq<byte>, off: nat, w: nat): (r: seq<byte>)
    requires off + 2 <= |data| && w <= 0xffff
    ensures |r| == |data|
  {
    data[..off] + Bytes(little, w) + data[off + 2..]
  }

  lemma SumOfStored(little: bool, data: seq<byte>, off: nat, w: nat)
    requires off % 2 == 0 && off + 2 <= |data| && w <= 0xffff
    ensures Sum(little, Stored(little, data, off, w)) == Sum(little, Stored(little, data, off, 0)) + w
  {
    SumOfParts(little, data[..off], Bytes(little, w), data[off + 2..], w);
    SumOfParts(little, data[..off], Bytes(little, 0), data[off + 2..], 0);
  }

  lemma SumOfParts(little: bool, a: seq<byte>, f: seq<byte>, b: seq<byte>, w: nat)
    requires |a| % 2 == 0 && |f| == 2 && Word(little, f[0], f[1]) == w
    ensures Sum(little, a + f + b) == Sum(little, a) + w + Sum(little, b)
  {
    assert a + f + b == a + (f + b);
    SumConcat(little, a, f + b);
    assert (f + b)[2..] == b;
  }

  /**
  A packet checks out exactly when its checksum field holds the checksum computed with the
  field zeroed, or all ones where that is zero.
  */
  lemma ChecksOutIff(little: bool, data: seq<byte>, off: nat, w: nat)
    requires off % 2 == 0 && off + 2 <= |data| && w <= 0xffff
    ensures var c := Cksum(little, Stored(little, data, off, 0));
      Cksum(little, Stored(little, data, off, w)) == 0 <==> w == c || (c == 0 && w == 0xffff)
  {
    SumOfStored(little, data, off, w);
    ComplementIff(Sum(little, Stored(little, data, off, 0)), w);
  }

  lemma ComplementIff(n: nat, w: nat)
    requires w <= 0xffff
    ensures Residue(n + w) == 0xffff <==> w == 0xffff - Residue(n) || (Residue(n) == 0xffff && w == 0xffff)
  {
    var r := Residue(n);
    ResidueOfSum(n, w);
    assert r + w <= 0x1fffe;
  }

  /** The ICMP branch of `send_probe`, on the packet from the ICMP header on: zero the field, store the checksum, never zero. */
  method StoreChecksum(little: bool, packet: array<byte>, off: nat)
    requires off % 2 == 0 && off + 2 <= packet.Length <= 0xfffe
    modifies packet
    ensures var c := Cksum(little, Stored(little, old(packet[..]), off, 0));
      packet[..] == Stored(little, old(packet[..]), off, if c == 0 then 0xffff else c)
    ensures Cksum(little, packet[..]) == 0
  {
    ghost var data := packet[..];
    PutWord(little, packet, off, 0);
    StoredTwice(little, data, off, 0, 0);
    var w := InCksum(little, packet[..]);
    StoredTwice(little, data, off, 0, w);
    StoredTwice(little, data, off, 0, 0xffff);
    ChecksOutIff(little, data, off, w);
    ChecksOutIff(little, data, off, 0xffff);
    hide Cksum, Stored;
    if w == 0 {
      PutWord(little, packet, off, 0xffff);
    } else {
      PutWord(little, packet, off, w);
    }
  }

  method PutWord(little: bool, packet: array<byte>, off: nat, w: nat)
    requires off + 2 <= packet.Length && w <= 0xffff
    modifies packet
    ensures packet[..] == Stored(little, old(packet[..]), off, w)
  {
    ghost var r := Bytes(little, w);
    packet[off] := if little then Low(w) else High(w);
    packet[off + 1] := if little then High(w) else Low(w);
    assert packet[off] == r[0] && packet[off + 1] == r[1];
    assert packet[..] == old(packet[..])[..off] + [packet[off], packet[off + 1]] + old(packet[..])[off + 2..];
  }

  lemma StoredTwice(little: bool, data: seq<byte>, off: nat, v: nat, w: nat)
    requires off + 2 <= |data| && v <= 0xffff && w <= 0xffff
    ensures Stored(little, Stored(little, data, off, v), off, w) == Stored(little, data, off, w)
  {
  }

  // ----- byte order

  lemma {:induction false} SumSwapped(data: seq<byte>)
    ensures (256 * Sum(true, data) - Sum(false, data)) % 0xffff == 0
    ensures Sum(true, data) == 0 <==> Sum(false, data) == 0
    decreases |data|
  {
    if |data| > 1 {
      SumSwapped(data[2..]);
      var a: int, b: int := data[0], data[1];
      assert 256 * Word(true, a, b) - Word(false, a, b) == 0xffff * b;
    } else if |data| == 1 {
      assert 256 * Word(true, data[0], 0) == Word(false, data[0], 0);
    }
  }

  /** Hosts of either byte order store the same two bytes. */
  lemma ByteOrderDoesNotMatter(data: seq<byte>)
    ensures Bytes(true, Cksum(true, data)) == Bytes(false, Cksum(false, data))
  {
    SumSwapped(data);
    var l, b := Residue(Sum(true, data)), Residue(Sum(false, data));
    SwappedResidue(Sum(true, data), Sum(false, data));
    SwappedComplement(l, b);
  }

  function Swapped(w: nat): nat
    requires w <= 0xffff
  {
    256 * (w % 256) + w / 256
  }

  lemma SwappedResidue(m: nat, n: nat)
    requires (256 * m - n) % 0xffff == 0 && (m == 0 <==> n == 0)
    ensures Residue(n) == Swapped(Residue(m))
  {
    var r := Residue(m);
    var s := Swapped(r);
    assert r == 256 * (r / 256) + r % 256;
    assert 256 * r - s == 0xffff * (r / 256);
    assert (r - m) % 0xffff == 0;
    ResidueIs(n, s);
  }

  lemma SwappedComplement(l: nat, b: nat)
    requires l <= 0xffff && b == Swapped(l)
    ensures Bytes(true, 0xffff - l) == Bytes(false, 0xffff - b)
  {
    var h, e := l / 256, l % 256;
    assert l == 256 * h + e && b == 256 * e + h;
    Halves(255 - h, 255 - e);
    Halves(255 - e, 255 - h);
  }

  lemma Halves(h: byte, e: byte)
    ensures Low(256 * h as int + e) == e && High(256 * h as int + e) == h
  {
  }
}
