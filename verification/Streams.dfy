/**
Buffered input (w3m/istream.c): the reader underneath may deliver the input in chunks of
any size; lines, characters and blocks come out as if the whole input were at hand.
*/
module Streams {
  import opened Basics

  const LF: byte := 10
  const CR: byte := 13

  // ----- lines of a byte sequence

  predicate IsEnd(c: byte) {
    c == LF || c == CR
  }

  /** Everything up to and including the first LF, CR or CRLF. */
  function FirstLine(s: seq<byte>): (r: seq<byte>)
    ensures r <= s && (s != [] ==> r != [])
  {
    if s == [] then []
    else if s[0] == LF then s[..1]
    else if s[0] == CR then if |s| > 1 && s[1] == LF then s[..2] else s[..1]
    else [s[0]] + FirstLine(s[1..])
  }

  ghost predicate Plain(s: seq<byte>) {
    forall i :: 0 <= i < |s| ==> !IsEnd(s[i])
  }

  lemma {:induction false} PlainThenLine(body: seq<byte>, rest: seq<byte>)
    requires Plain(body)
    ensures FirstLine(body + rest) == body + FirstLine(rest)
  {
    if body == [] {
      assert body + rest == rest;
    } else {
      assert (body + rest)[1..] == body[1..] + rest;
      PlainThenLine(body[1..], rest);
    }
  }

  /** A line ends at the first line end, and only the last one can lack it. */
  lemma {:induction false} FirstLineEnds(s: seq<byte>)
    ensures var n := |FirstLine(s)|;
            && (forall i :: 0 <= i < n - 1 && IsEnd(s[i]) ==> i == n - 2 && s[i] == CR && s[i + 1] == LF)
            && (n < |s| ==> n > 0 && (s[n - 1] == LF || (s[n - 1] == CR && s[n] != LF)))
  {
    if s != [] && !IsEnd(s[0]) {
      var t, n := s[1..], |FirstLine(s)|;
      FirstLineEnds(t);
      forall i | 0 <= i < n - 1 && IsEnd(s[i])
        ensures i == n - 2 && s[i] == CR && s[i + 1] == LF
      {
        assert s[i] == t[i - 1];
      }
      assert n < |s| ==> s[n - 1] == t[n - 2] && s[n] == t[n - 1];
    }
  }

  function Lines(s: seq<byte>): (r: seq<seq<byte>>)
    decreases |s|
  {
    if s == [] then [] else [FirstLine(s)] + Lines(s[|FirstLine(s)|..])
  }

  function Concat(ls: seq<seq<byte>>): seq<byte> {
    if ls == [] then [] else ls[0] + Concat(ls[1..])
  }

  /** Nothing is lost or reordered by splitting into lines. */
  lemma {:induction false} LinesConcat(s: seq<byte>)
    ensures Concat(Lines(s)) == s
    decreases |s|
  {
    if s != [] {
      var line, rest := FirstLine(s), s[|FirstLine(s)|..];
      LinesConcat(rest);
      assert Lines(s) == [line] + Lines(rest);
      hide FirstLine, Lines;
      assert ([line] + Lines(rest))[1..] == Lines(rest);
    }
  }

  // ----- the reader

  /** A source of bytes that hands out as many as it likes, but at least one while it has any. */
  class Reader {
    var data: seq<byte>

    constructor (data: seq<byte>)
      ensures this.data == data
    {
      this.data := data;
    }

    method Read(buf: array<byte>, at: nat, len: nat) returns (n: nat)
      requires at + len <= buf.Length
      modifies this, buf
      ensures n <= len && n <= |old(data)| && (n == 0 <==> len == 0 || old(data) == [])
      ensures data == old(data)[n..]
      ensures buf[at..at + n] == old(data)[..n] && buf[..at] == old(buf[..at])
    {
      n := 0;
      if len == 0 || data == [] {
        return;
      }
      n :| 0 < n <= len && n <= |data|;
      for i := 0 to n
        invariant data == old(data)
        invariant forall k :: at <= k < at + i ==> buf[k] == data[k - at]
        invariant buf[..at] == old(buf[..at])
      {
        buf[at + i] := data[i];
      }
      data := data[n..];
    }
  }

  // ----- the stream

  /** A prefix of the input has been delivered, and unless the end was declared, the rest is pending. */
  ghost predicate Sound(delivered: seq<byte>, pending: seq<byte>, total: seq<byte>, eos: bool) {
    delivered <= total && (!eos ==> delivered + pending == total)
  }

  ghost predicate EndsWith(s: seq<byte>, suffix: seq<byte>) {
    |suffix| <= |s| && s[|s| - |suffix|..] == suffix
  }

  lemma Delivers(d: seq<byte>, part: seq<byte>, rest: seq<byte>, total: seq<byte>)
    requires Sound(d, part + rest, total, false)
    ensures Sound(d + part, rest, total, false)
  {
    assert (d + part) + rest == d + (part + rest);
  }

  lemma TakesBack(d: seq<byte>, c: byte, rest: seq<byte>, total: seq<byte>, eos: bool)
    requires Sound(d + [c], rest, total, eos)
    ensures Sound(d, [c] + rest, total, eos)
  {
    assert (d + [c]) + rest == d + ([c] + rest);
  }

  lemma StaysSound(d: seq<byte>, pending: seq<byte>, pending': seq<byte>, total: seq<byte>)
    requires Sound(d, pending, total, true)
    ensures Sound(d, pending', total, true)
  {
  }

  lemma SuffixGrows(d: seq<byte>, b: seq<byte>, part: seq<byte>)
    requires EndsWith(d, b)
    ensures EndsWith(d + part, b + part)
  {
    assert d == d[..|d| - |b|] + b;
    assert d + part == d[..|d| - |b|] + (b + part);
  }

  lemma SuffixShrinks(d: seq<byte>, b: seq<byte>, c: byte)
    requires EndsWith(d, b + [c])
    ensures d != [] && d[|d| - 1] == c && d == d[..|d| - 1] + [c] && EndsWith(d[..|d| - 1], b)
  {
    var k := |d| - |b| - 1;
    assert d == d[..k] + (b + [c]);
    assert d[..|d| - 1] == d[..k] + b;
  }

  lemma NoSuffix(d: seq<byte>)
    ensures EndsWith(d, [])
  {
  }

  class Stream {
    const handle: Reader
    const buf: array<byte>
    var cur: nat
    var next: nat
    var iseos: bool
    ghost var total: seq<byte>
    ghost var delivered: seq<byte>

    /** The bytes still to come. */
    ghost function Pending(): seq<byte>
      requires cur <= next <= buf.Length
      reads this, buf, handle
    {
      if iseos then [] else buf[cur..next] + handle.data
    }

    ghost predicate Valid()
      reads this, buf, handle
    {
      && cur <= next <= buf.Length && buf.Length > 0
      && Sound(delivered, Pending(), total, iseos)
    }

    /** The bytes before `cur` are the ones delivered last. */
    ghost predicate Rewindable()
      requires cur <= buf.Length
      reads this, buf
    {
      EndsWith(delivered, buf[..cur])
    }

    constructor (handle: Reader, size: nat)
      requires size > 0
      ensures Valid() && Rewindable() && !iseos && delivered == [] && total == handle.data && this.handle == handle && fresh(buf)
      ensures buf.Length == size
    {
      this.handle := handle;
      buf := new byte[size];
      cur, next, iseos := 0, 0, false;
      total, delivered := handle.data, [];
      new;
      assert buf[..0] == [] && [] + handle.data == handle.data;
    }

    /** `do_update`. */
    method DoUpdate()
      requires Valid() && !iseos && cur == next
      modifies this`cur, this`next, this`iseos, handle, buf
      ensures Valid() && Rewindable() && Pending() == old(Pending())
      ensures if iseos then old(Pending()) == [] && cur == 0 else cur < next
    {
      hide Sound, EndsWith;
      ghost var d := handle.data;
      NothingBuffered();
      NoSuffix(delivered);
      cur, next := 0, 0;
      var len := handle.Read(buf, 0, buf.Length);
      assert buf[..0] == [];
      if len <= 0 {
        iseos := true;
        EndDeclared(delivered, d, total);
      } else {
        next := next + len;
        assert buf[cur..next] + handle.data == d[..len] + d[len..] == d;
      }
    }

    /** `ISgetc`: the next byte, or 0 once the input is exhausted. */
    method Getc() returns (c: byte)
      requires Valid()
      modifies this`cur, this`next, this`iseos, this`delivered, handle, buf
      ensures Valid() && (old(Rewindable()) ==> Rewindable())
      ensures old(Pending()) == [] ==> c == 0 && iseos && delivered == old(delivered)
      ensures old(Pending()) != [] ==> c == old(Pending())[0] && !iseos && delivered == old(delivered) + [c] && Pending() == old(Pending())[1..]
    {
      if !iseos && cur == next {
        DoUpdate();
      }
      if iseos {
        return 0;
      }
      c := buf[cur];
      Consume(1);
    }

    /** The next `n` buffered bytes are handed to the caller. */
    method Consume(n: nat)
      requires Valid() && !iseos && cur + n <= next
      modifies this`cur, this`delivered
      ensures Valid() && cur == old(cur) + n && (old(Rewindable()) ==> Rewindable())
      ensures delivered == old(delivered) + buf[old(cur)..old(cur) + n]
      ensures old(Pending()) == buf[old(cur)..old(cur) + n] + Pending()
    {
      hide Sound, EndsWith;
      PendingSplits(n);
      ConsumeIsSound(n);
      if Rewindable() {
        ConsumeRewinds(n);
      }
      delivered := delivered + buf[cur..cur + n];
      cur := cur + n;
    }

    lemma PendingSplits(n: nat)
      requires cur + n <= next <= buf.Length && !iseos
      ensures Pending() == buf[cur..cur + n] + (buf[cur + n..next] + handle.data)
    {
      hide Sound, EndsWith;
      Split(buf, cur, cur + n, next);
      assert Pending() == buf[cur..next] + handle.data;
      Regroup(buf[cur..cur + n], buf[cur + n..next], handle.data);
    }

    lemma ConsumeIsSound(n: nat)
      requires Valid() && !iseos && cur + n <= next
      ensures Sound(delivered + buf[cur..cur + n], buf[cur + n..next] + handle.data, total, false)
    {
      ValidMeans();
      PendingSplits(n);
      hide *;
      Delivers(delivered, buf[cur..cur + n], buf[cur + n..next] + handle.data, total);
    }

    lemma ConsumeRewinds(n: nat)
      requires cur + n <= buf.Length && Rewindable()
      ensures EndsWith(delivered + buf[cur..cur + n], buf[..cur + n])
    {
      hide EndsWith;
      Split(buf, 0, cur, cur + n);
      SuffixGrows(delivered, buf[..cur], buf[cur..cur + n]);
    }

    lemma UndoFacts()
      requires Valid() && Rewindable() && cur > 0
      ensures delivered != [] && var n := |delivered| - 1;
              var ahead := buf[cur - 1..next] + handle.data;
              && EndsWith(delivered[..n], buf[..cur - 1])
              && ahead == [delivered[n]] + (buf[cur..next] + handle.data)
              && Sound(delivered[..n], if iseos then [] else ahead, total, iseos)
    {
      hide Sound, EndsWith;
      var c, rest := buf[cur - 1], buf[cur..next] + handle.data;
      assert buf[..cur] == buf[..cur - 1] + [c];
      assert buf[cur - 1..next] == [c] + buf[cur..next];
      SuffixShrinks(delivered, buf[..cur - 1], c);
      Regroup([c], buf[cur..next], handle.data);
      TakesBack(delivered[..|delivered| - 1], c, Pending(), total, iseos);
      if iseos {
        StaysSound(delivered[..|delivered| - 1], [c] + Pending(), [], total);
      }
    }

    /** `ISundogetc`: takes back the last byte while one is buffered. */
    method Undogetc() returns (r: int)
      requires Valid() && Rewindable()
      modifies this`cur, this`delivered
      ensures Valid() && Rewindable() && (r == 0 <==> old(cur) > 0) && (r == 0 || r == -1)
      ensures r == -1 ==> delivered == old(delivered) && Pending() == old(Pending())
      ensures r == 0 ==> delivered == old(delivered)[..|old(delivered)| - 1]
      ensures r == 0 ==> Pending() == if iseos then [] else [old(delivered)[|old(delivered)| - 1]] + old(Pending())
    {
      if cur > 0 {
        hide Sound, EndsWith;
        UndoFacts();
        delivered := delivered[..|delivered| - 1];
        cur := cur - 1;
        return 0;
      }
      r := -1;
    }

    /** The first line end among the buffered bytes, or their end. */
    method ScanLine() returns (i: nat)
      requires cur <= next <= buf.Length
      ensures cur <= i <= next && Plain(buf[cur..i]) && (i < next ==> IsEnd(buf[i]))
    {
      i := cur;
      while i < next && buf[i] != LF && buf[i] != CR
        invariant cur <= i <= next && forall k :: cur <= k < i ==> !IsEnd(buf[k])
      {
        i := i + 1;
      }
    }

    /** After a CR at the end of a buffer: an LF in front of the next one belongs to the line. */
    method TakeFeed(ghost acc: seq<byte>) returns (piece: seq<byte>)
      requires Valid() && !iseos && cur < next && acc != [] && acc[|acc| - 1] == CR
      modifies this`cur, this`delivered
      ensures Valid() && (old(Rewindable()) ==> Rewindable())
      ensures old(Pending()) == piece + Pending() && delivered == old(delivered) + piece
      ensures Closing(acc, old(Pending())) == acc + piece
    {
      ghost var all := Pending();
      assert all[0] == buf[cur];
      ClosingAfterCR(acc, all);
      piece := if buf[cur] == LF then [LF] else [];
      assert piece == buf[cur..cur + |piece|];
      hide *;
      Consume(|piece|);
      assert acc + [] == acc;
    }

    /** Up to and including the first line end in the buffer, or all of it; `done` at an LF. */
    method TakeScan(ghost acc: seq<byte>) returns (piece: seq<byte>, done: bool)
      requires Valid() && !iseos && cur < next && (acc == [] || acc[|acc| - 1] != CR)
      modifies this`cur, this`delivered
      ensures Valid() && (old(Rewindable()) ==> Rewindable())
      ensures old(Pending()) == piece + Pending() && delivered == old(delivered) + piece && piece != []
      ensures Closing(acc, old(Pending())) == if done then acc + piece else Closing(acc + piece, Pending())
    {
      hide *;
      ValidMeans();
      var i := ScanLine();
      var end := if i < next then i + 1 else i;
      piece := buf[cur..end];
      done := i < next && buf[i] == LF;
      ghost var body := buf[cur..i];
      assert piece == if i < next then body + [buf[i]] else body;
      Consume(end - cur);
      if i < next {
        ClosingTakesEnd(acc, body, buf[i], Pending());
      } else {
        ClosingTakesBody(acc, body, Pending());
      }
    }

    /** `StrmyISgets`: the next line of the input, whatever the chunks. */
    method MyGets() returns (r: seq<byte>)
      requires Valid()
      modifies this`cur, this`next, this`iseos, this`delivered, handle, buf
      ensures Valid() && (old(Rewindable()) ==> Rewindable())
      ensures r == FirstLine(old(Pending())) && delivered == old(delivered) + r
      ensures old(Pending()) == r + Pending()
    {
      ghost var all := Pending();
      ValidMeans();
      r := [];
      ClosingStarts(all);
      assert [] + all == all && delivered + [] == delivered;
      var done := false;
      while !iseos && !done
        invariant Valid() && (old(Rewindable()) ==> Rewindable()) && cur <= next <= buf.Length
        invariant r + Pending() == all && delivered == old(delivered) + r
        invariant FirstLine(all) == if done then r else Closing(r, Pending())
        invariant iseos ==> Pending() == []
        decreases !done, |Pending()|, if cur == next then 1 else 0, !iseos
      {
        hide *;
        ghost var d, rest := delivered, Pending();
        if cur == next {
          DoUpdate();
        } else {
          var piece: seq<byte>;
          if r != [] && r[|r| - 1] == CR {
            piece := TakeFeed(r);
            done := true;
          } else {
            piece, done := TakeScan(r);
          }
          Regroup(r, piece, Pending());
          Regroup(old(delivered), r, piece);
          r := r + piece;
        }
        ValidMeans();
      }
      if !done {
        ClosingEnds(r);
      }
    }

    lemma ValidMeans()
      requires Valid()
      ensures cur <= next <= buf.Length && (iseos ==> Pending() == []) && Sound(delivered, Pending(), total, iseos)
    {
    }

    /** The direct read of `ISread`, once the buffer is used up. */
    method ReadDirect(rest: nat) returns (r: seq<byte>)
      requires Valid() && !iseos && cur == next
      modifies this`iseos, this`delivered, handle
      ensures Valid() && |r| <= rest && delivered == old(delivered) + r && cur <= next <= buf.Length
      ensures iseos ==> r == [] && (old(Pending()) != [] ==> rest == 0)
      ensures iseos <== rest == 0
      ensures !iseos ==> old(Pending()) == r + Pending()
    {
      ghost var d := handle.data;
      assert Pending() == d by {
        assert buf[cur..next] == [];
      }
      var obuf := new byte[rest];
      hide Sound, EndsWith;
      var len := handle.Read(obuf, 0, rest);
      r := obuf[0..len];
      if len <= 0 {
        iseos := true;
        EndDeclared(delivered, d, total);
        assert delivered + [] == delivered;
      } else {
        assert d == r + handle.data;
        assert buf[cur..next] + handle.data == handle.data by {
          assert buf[cur..next] == [];
        }
        Delivers(delivered, r, handle.data, total);
        delivered := delivered + r;
      }
    }

    /**
    `ISread` of at most `count` bytes. It delivers what comes next; but when exactly `count`
    bytes were buffered it asks the reader for none, and takes the answer for the end.
    */
    method Read(count: nat) returns (r: seq<byte>)
      requires Valid()
      modifies this`cur, this`iseos, this`delivered, handle
      ensures Valid() && |r| <= count && r <= old(Pending()) && delivered == old(delivered) + r
      ensures old(iseos) || |r| == count || |r| >= old(next - cur)
      ensures !iseos ==> old(Pending()) == r + Pending()
      ensures iseos && old(Pending()) != r <==> !old(iseos) && old(next - cur) == count && old(handle.data) != []
    {
      r := [];
      if iseos {
        return;
      }
      hide *;
      ValidMeans();
      ghost var d := handle.data;
      var len := if next - cur > count then count else next - cur;
      r := buf[cur..cur + len];
      Consume(len);
      ValidMeans();
      NothingBuffered();
      if cur == next {
        var more := ReadDirect(count - len);
        Regroup(r, more, Pending());
        Regroup(old(delivered), r, more);
        Longer(r, d);
        Longer(r, more);
        r := r + more;
      }
    }

    lemma NothingBuffered()
      requires Valid() && !iseos
      ensures cur == next ==> Pending() == handle.data
    {
      assert cur == next ==> buf[cur..next] == [];
    }
  }

  lemma OneOfTwo(st: Stream)
    requires st.cur < st.next <= st.buf.Length == 1 && !st.iseos && st.Pending() == [65, 66]
    ensures st.handle.data != []
  {
    assert st.buf[st.cur..st.next] + st.handle.data == [65, 66];
  }

  /** One byte buffered, one more to come, and a request for one: the second byte is never delivered. */
  method EarlyEnd() returns (st: Stream, r: seq<byte>)
    ensures st.Valid() && st.total == [65, 66] && r == st.delivered == [65] && st.iseos
  {
    var reader := new Reader([65, 66]);
    st := new Stream(reader, 1);
    st.NothingBuffered();
    hide *;
    st.ValidMeans();
    st.DoUpdate();
    st.ValidMeans();
    OneOfTwo(st);
    r := st.Read(1);
    assert r == [65, 66][..1];
    assert [] + r == r;
  }

  lemma Split(buf: array<byte>, i: nat, j: nat, k: nat)
    requires i <= j <= k <= buf.Length
    ensures buf[i..k] == buf[i..j] + buf[j..k]
    ensures i == 0 ==> buf[..k] == buf[..j] + buf[j..k]
  {
  }

  lemma Longer(a: seq<byte>, b: seq<byte>)
    ensures (a + b == a <==> b == []) && a <= a + b
  {
    assert |a + b| == |a| + |b|;
    assert b == [] ==> a + b == a;
  }

  lemma Regroup(a: seq<byte>, b: seq<byte>, c: seq<byte>)
    ensures a + (b + c) == (a + b) + c
  {
  }

  lemma EndDeclared(d: seq<byte>, pending: seq<byte>, total: seq<byte>)
    requires Sound(d, pending, total, false)
    ensures Sound(d, [], total, true)
  {
  }

  // ----- how a line closes

  /** The line that has `acc` behind it and `rest` before it; after a CR only an LF can still belong to it. */
  ghost function Closing(acc: seq<byte>, rest: seq<byte>): seq<byte> {
    if acc != [] && acc[|acc| - 1] == CR then acc + (if rest != [] && rest[0] == LF then [LF] else [])
    else acc + FirstLine(rest)
  }

  lemma ClosingStarts(rest: seq<byte>)
    ensures Closing([], rest) == FirstLine(rest)
  {
  }

  lemma ClosingEnds(acc: seq<byte>)
    ensures Closing(acc, []) == acc
  {
  }

  lemma ClosingAfterCR(acc: seq<byte>, rest: seq<byte>)
    requires acc != [] && acc[|acc| - 1] == CR && rest != []
    ensures Closing(acc, rest) == if rest[0] == LF then acc + [LF] else acc
  {
  }

  lemma ClosingTakesBody(acc: seq<byte>, body: seq<byte>, rest: seq<byte>)
    requires (acc == [] || acc[|acc| - 1] != CR) && Plain(body)
    ensures Closing(acc, body + rest) == Closing(acc + body, rest)
  {
    PlainThenLine(body, rest);
    hide FirstLine;
    if body == [] {
      assert acc + body == acc && body + rest == rest;
    } else {
      assert (acc + body)[|acc + body| - 1] == body[|body| - 1];
      Regroup(acc, body, FirstLine(rest));
    }
  }

  lemma ClosingTakesEnd(acc: seq<byte>, body: seq<byte>, c: byte, rest: seq<byte>)
    requires (acc == [] || acc[|acc| - 1] != CR) && Plain(body) && IsEnd(c)
    ensures Closing(acc, body + [c] + rest) == if c == LF then acc + (body + [c]) else Closing(acc + (body + [c]), rest)
  {
    var tail := [c] + rest;
    EndIsLine(c, rest);
    PlainThenLine(body, tail);
    hide FirstLine, Plain;
    Regroup(body, [c], rest);
    Regroup(acc, body + [c], if c == CR && rest != [] && rest[0] == LF then [LF] else []);
    Regroup(body, [c], if c == CR && rest != [] && rest[0] == LF then [LF] else []);
    assert (acc + (body + [c]))[|acc + (body + [c])| - 1] == c;
    Longer(acc + (body + [c]), []);
  }

  lemma EndIsLine(c: byte, rest: seq<byte>)
    requires IsEnd(c)
    ensures FirstLine([c] + rest) == [c] + if c == CR && rest != [] && rest[0] == LF then [LF] else []
  {
  }

  lemma RegroupLines(a: seq<seq<byte>>, line: seq<byte>, b: seq<seq<byte>>)
    ensures a + ([line] + b) == (a + [line]) + b
  {
  }

  lemma LinesUnfold(s: seq<byte>, line: seq<byte>, rest: seq<byte>)
    requires line == FirstLine(s) && s == line + rest
    ensures line == [] ==> Lines(s) == [] && rest == [] && s == []
    ensures line != [] ==> Lines(s) == [line] + Lines(rest)
  {
    assert s[|line|..] == rest;
  }

  /** Reading lines until an empty one comes back gives the lines of the whole input. */
  method ReadAllLines(st: Stream) returns (ls: seq<seq<byte>>)
    requires st.Valid()
    modifies st`cur, st`next, st`iseos, st`delivered, st.handle, st.buf
    ensures st.Valid() && ls == Lines(old(st.Pending())) && st.Pending() == []
  {
    hide *;
    ls := [];
    st.ValidMeans();
    assert [] + Lines(st.Pending()) == Lines(st.Pending());
    while true
      invariant st.Valid() && st.cur <= st.next <= st.buf.Length && ls + Lines(st.Pending()) == Lines(old(st.Pending()))
      decreases |st.Pending()|
    {
      ghost var rest := st.Pending();
      var line := st.MyGets();
      st.ValidMeans();
      LinesUnfold(rest, line, st.Pending());
      Longer(line, st.Pending());
      if line == [] {
        assert ls + [] == ls;
        return;
      }
      RegroupLines(ls, line, Lines(st.Pending()));
      ls := ls + [line];
    }
  }
}
