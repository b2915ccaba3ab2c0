/**
Percent quoting (w3m/indep.c, `url_quote`, `file_quote`, `file_unquote`, `Str_form_quote`,
`Str_url_unquote`; character classes from the quote map in w3m/indep.c, the masks in
w3m/indep.h and the tables in w3m/myctype.c).
*/
module Quoting {
  import opened Basics

  /** A character of one byte. */
  type octet = c: char | c as int < 256 witness 'a'

  /** What a C string can hold. */
  type CString = s: seq<octet> | '\0' !in s

  /** `QUOTE_MAP`. */
  function QuoteType(c: octet): int {
    if c <= ' ' || c as int == 0x7f then 24
    else if c as int >= 0x80 then 16
    else if '0' <= c <= '9' || 'A' <= c <= 'Z' || 'a' <= c <= 'z' || c == '_' || c == '.' then 0
    else if c == '#' || c == '%' || c == '+' || c == '?' then 40
    else if c == '$' || c == '-' then 8
    else if c == '&' then 41
    else if c == '/' then 64
    else if c == ':' then 32
    else if c == '"' then 76
    else if c == '<' then 74
    else if c == '>' then 75
    else 72
  }

  function Bit(v: int, mask: int): bool
    requires mask > 0
  {
    v / mask % 2 == 1
  }

  predicate IsUrlQuote(c: octet) {
    Bit(QuoteType(c), 0x10)
  }

  predicate IsFileQuote(c: octet) {
    Bit(QuoteType(c), 0x10) || Bit(QuoteType(c), 0x20)
  }

  predicate IsUrlUnsafe(c: octet) {
    Bit(QuoteType(c), 0x10) || Bit(QuoteType(c), 0x20) || Bit(QuoteType(c), 0x40)
  }

  predicate IsXdigit(c: char) {
    '0' <= c <= '9' || 'A' <= c <= 'F' || 'a' <= c <= 'f'
  }

  predicate IsAscii(c: octet) {
    c as int < 0x80
  }

  /** `GET_MYCDIGIT` of a digit in base 16. */
  function Digit(c: octet): (d: nat)
    requires IsXdigit(c)
    ensures d < 16
  {
    if c <= '9' then c as int - '0' as int
    else if c <= 'F' then c as int - 'A' as int + 10
    else c as int - 'a' as int + 10
  }

  /** `xdigit`. */
  function Xdigit(d: nat): (c: octet)
    requires d < 16
    ensures IsXdigit(c) && Digit(c) == d && !IsUrlUnsafe(c) && c <= 'F'
  {
    if d < 10 then ('0' as int + d) as char else ('A' as int + d - 10) as char
  }

  // ----- which bytes are quoted

  /** Letters, digits and a few signs. */
  predicate FormSafe(c: octet) {
    IsAlnum(c) || c == '_' || c == '$' || c == '-' || c == '.'
  }

  /** Neither control bytes nor blanks nor bytes beyond ASCII. */
  predicate Printable(c: octet) {
    0x21 <= c as int <= 0x7e
  }

  /** The bytes that the comments of the masks name. */
  lemma QuotedBytes(c: octet)
    ensures IsUrlQuote(c) <==> !Printable(c)
    ensures IsFileQuote(c) <==> !Printable(c) || c == '#' || c == '%' || c == '&' || c == '+' || c == ':' || c == '?'
    ensures IsUrlUnsafe(c) <==> !FormSafe(c)
  {
  }

  // ----- quoting

  function Percent(c: octet): seq<octet> {
    ['%', Xdigit(c as int / 16), Xdigit(c as int % 16)]
  }

  function UrlCode(c: octet): seq<octet> {
    if IsUrlQuote(c) then Percent(c) else [c]
  }

  function FileCode(c: octet): seq<octet> {
    if IsFileQuote(c) then Percent(c) else [c]
  }

  function FormCode(c: octet): seq<octet> {
    if c == ' ' then ['+'] else if IsUrlUnsafe(c) then Percent(c) else [c]
  }

  /** Every byte replaced by its code. */
  function Encode(code: octet -> seq<octet>, s: seq<octet>): seq<octet> {
    if s == [] then [] else code(s[0]) + Encode(code, s[1..])
  }

  /** What a lazily made copy stands for: the first `p` bytes of `s` as long as there is none. */
  function Given(tmp: Option<seq<octet>>, s: seq<octet>, p: nat): seq<octet>
    requires p <= |s|
  {
    if tmp.None? then s[..p] else tmp.value
  }

  lemma EncodeStep(code: octet -> seq<octet>, s: seq<octet>, p: nat, out: seq<octet>)
    requires p < |s|
    ensures out + Encode(code, s[p..]) == (out + code(s[p])) + Encode(code, s[p + 1..])
  {
    assert s[p..][1..] == s[p + 1..] && s[p..][0] == s[p];
  }

  /** The loop that all quoting functions share: copy on the first byte that changes. */
  method Quote(s: seq<octet>, code: octet -> seq<octet>) returns (r: seq<octet>)
    ensures r == Encode(code, s)
  {
    var tmp: Option<seq<octet>> := None;
    var p := 0;
    assert s[0..] == s;
    while p < |s|
      invariant p <= |s| && Given(tmp, s, p) + Encode(code, s[p..]) == Encode(code, s)
    {
      EncodeStep(code, s, p, Given(tmp, s, p));
      var q := code(s[p]);
      if q != [s[p]] {
        if tmp.None? {
          tmp := Some(s[..p]);
        }
        tmp := Some(tmp.value + q);
      } else if tmp.Some? {
        tmp := Some(tmp.value + [s[p]]);
      }
      p := p + 1;
    }
    assert s[..|s|] == s && Encode(code, s[|s|..]) == [];
    r := if tmp.Some? then tmp.value else s;
  }

  // ----- unquoting

  /** Does `s` begin with a percent sign and two digits? The end of a string reads as NUL. */
  predicate IsEscape(s: seq<octet>) {
    |s| >= 3 && s[0] == '%' && IsXdigit(s[1]) && IsXdigit(s[2])
  }

  /** `url_unquote_char`. */
  function Escaped(s: seq<octet>): octet
    requires IsEscape(s)
  {
    (Digit(s[1]) * 16 + Digit(s[2])) as char
  }

  predicate MayUnquote(c: octet, safe: bool) {
    !safe || !IsAscii(c) || !IsFileQuote(c)
  }

  /** `Str_url_unquote`. */
  function UrlUnquoted(s: seq<octet>, form: bool, safe: bool): seq<octet> {
    if s == [] then []
    else if form && s[0] == '+' then [' '] + UrlUnquoted(s[1..], form, safe)
    else if IsEscape(s) && MayUnquote(Escaped(s), safe) then [Escaped(s)] + UrlUnquoted(s[3..], form, safe)
    else [s[0]] + UrlUnquoted(s[1..], form, safe)
  }

  predicate LineBreak(c: octet) {
    c == '\n' || c == '\r'
  }

  /** `file_unquote`: NUL and line breaks are dropped. */
  function FileUnquoted(s: seq<octet>): seq<octet> {
    if s == [] then []
    else if IsEscape(s) then
      (if Escaped(s) == '\0' || LineBreak(Escaped(s)) then [] else [Escaped(s)]) + FileUnquoted(s[3..])
    else [s[0]] + FileUnquoted(s[1..])
  }

  lemma UrlStep(x: seq<octet>, p: nat, form: bool, safe: bool, out: seq<octet>)
    requires p < |x|
    ensures
      if form && x[p] == '+' then
        out + UrlUnquoted(x[p..], form, safe) == (out + [' ']) + UrlUnquoted(x[p + 1..], form, safe)
      else if IsEscape(x[p..]) && MayUnquote(Escaped(x[p..]), safe) then
        p + 3 <= |x| && out + UrlUnquoted(x[p..], form, safe) == (out + [Escaped(x[p..])]) + UrlUnquoted(x[p + 3..], form, safe)
      else
        out + UrlUnquoted(x[p..], form, safe) == (out + [x[p]]) + UrlUnquoted(x[p + 1..], form, safe)
  {
    Tails(x, p);
  }

  lemma FileStep(x: seq<octet>, p: nat, out: seq<octet>)
    requires p < |x|
    ensures
      if IsEscape(x[p..]) then
        var c := Escaped(x[p..]);
        p + 3 <= |x| &&
        out + FileUnquoted(x[p..]) == (if c != '\0' && !LineBreak(c) then out + [c] else out) + FileUnquoted(x[p + 3..])
      else
        out + FileUnquoted(x[p..]) == (out + [x[p]]) + FileUnquoted(x[p + 1..])
  {
    Tails(x, p);
  }

  lemma Tails(x: seq<octet>, p: nat)
    requires p < |x|
    ensures x[p..][0] == x[p] && x[p..][1..] == x[p + 1..] && (p + 3 <= |x| ==> x[p..][3..] == x[p + 3..])
  {
  }

  lemma UnquotedNothing(form: bool, safe: bool)
    ensures UrlUnquoted([], form, safe) == [] && FileUnquoted([]) == []
  {
  }

  method StrUrlUnquote(x: seq<octet>, form: bool, safe: bool) returns (r: seq<octet>)
    ensures r == UrlUnquoted(x, form, safe)
  {
    hide *;
    var tmp: Option<seq<octet>> := None;
    var p := 0;
    ghost var out: seq<octet> := [];
    assert x[0..] == x && [] + UrlUnquoted(x, form, safe) == UrlUnquoted(x, form, safe);
    while p < |x|
      invariant p <= |x| && out == (if tmp.None? then x[..p] else tmp.value)
      invariant out + UrlUnquoted(x[p..], form, safe) == UrlUnquoted(x, form, safe)
    {
      UrlStep(x, p, form, safe, out);
      if form && x[p] == '+' {
        if tmp.None? {
          tmp := Some(x[..p]);
        }
        tmp := Some(tmp.value + [' ']);
        out, p := tmp.value, p + 1;
        continue;
      } else if IsEscape(x[p..]) && MayUnquote(Escaped(x[p..]), safe) {
        if tmp.None? {
          tmp := Some(x[..p]);
        }
        tmp := Some(tmp.value + [Escaped(x[p..])]);
        out, p := tmp.value, p + 3;
        continue;
      }
      if tmp.Some? {
        tmp := Some(tmp.value + [x[p]]);
      }
      out, p := out + [x[p]], p + 1;
    }
    UnquotedNothing(form, safe);
    assert x[..|x|] == x && x[|x|..] == [] && out + [] == out;
    r := if tmp.Some? then tmp.value else x;
  }

  method FileUnquote(s: CString) returns (r: seq<octet>)
    ensures r == FileUnquoted(s)
  {
    hide *;
    var tmp: Option<seq<octet>> := None;
    var p := 0;
    ghost var out: seq<octet> := [];
    assert s[0..] == s && [] + FileUnquoted(s) == FileUnquoted(s);
    while p < |s|
      invariant p <= |s| && out == (if tmp.None? then s[..p] else tmp.value)
      invariant out + FileUnquoted(s[p..]) == FileUnquoted(s)
    {
      FileStep(s, p, out);
      if IsEscape(s[p..]) {
        var c := Escaped(s[p..]);
        if tmp.None? {
          tmp := Some(s[..p]);
        }
        if c != '\0' && !LineBreak(c) {
          tmp := Some(tmp.value + [c]);
        }
        out, p := tmp.value, p + 3;
        continue;
      }
      if tmp.Some? {
        tmp := Some(tmp.value + [s[p]]);
      }
      out, p := out + [s[p]], p + 1;
    }
    UnquotedNothing(false, false);
    assert s[..|s|] == s && s[|s|..] == [] && out + [] == out;
    r := if tmp.Some? then tmp.value else s;
  }

  // ----- what quoting leaves

  lemma {:induction false} EncodedFrom(code: octet -> seq<octet>, s: seq<octet>, c: octet)
    requires c in Encode(code, s)
    ensures exists i :: 0 <= i < |s| && c in code(s[i])
  {
    if c in code(s[0]) {
    } else {
      EncodedFrom(code, s[1..], c);
      var i :| 0 <= i < |s[1..]| && c in code(s[1..][i]);
      assert s[1..][i] == s[i + 1];
    }
  }

  /** A quoted form holds only safe bytes, percent signs and pluses: nothing that separates fields. */
  lemma FormIsSafe(x: seq<octet>, c: octet)
    requires c in Encode(FormCode, x)
    ensures FormSafe(c) || c == '%' || c == '+'
  {
    EncodedFrom(FormCode, x, c);
    var i :| 0 <= i < |x| && c in FormCode(x[i]);
    QuotedBytes(x[i]);
    QuotedBytes(c);
  }

  /** A quoted URL is printable. */
  lemma UrlIsPrintable(s: seq<octet>, c: octet)
    requires c in Encode(UrlCode, s)
    ensures Printable(c)
  {
    EncodedFrom(UrlCode, s, c);
    var i :| 0 <= i < |s| && c in UrlCode(s[i]);
    QuotedBytes(s[i]);
    QuotedBytes(c);
  }

  /** A quoted file name is printable and free of what a URL would take for something else. */
  lemma FileIsSafe(s: seq<octet>, c: octet)
    requires c in Encode(FileCode, s)
    ensures Printable(c) && c != '#' && c != '&' && c != '+' && c != ':' && c != '?'
  {
    EncodedFrom(FileCode, s, c);
    var i :| 0 <= i < |s| && c in FileCode(s[i]);
    QuotedBytes(s[i]);
    QuotedBytes(c);
  }

  /** Bytes that need no quoting are left alone, and no others. */
  lemma SafeIsKept(c: octet)
    ensures FormCode(c) == [c] <==> FormSafe(c)
    ensures UrlCode(c) == [c] <==> Printable(c)
    ensures FileCode(c) == [c] <==> Printable(c) && c != '#' && c != '%' && c != '&' && c != '+' && c != ':' && c != '?'
  {
    QuotedBytes(c);
  }

  /** Safe unquoting leaves escapes of ASCII bytes that a file name would have quoted. */
  lemma SafeUnquoting(c: octet, rest: seq<octet>, form: bool)
    ensures var kept := c as int < 0x80 && (!Printable(c) || c == '#' || c == '%' || c == '&' || c == '+' || c == ':' || c == '?');
            UrlUnquoted(Percent(c) + rest, form, true) ==
              if kept then ['%'] + UrlUnquoted(Percent(c)[1..] + rest, form, true) else [c] + UrlUnquoted(rest, form, true)
  {
    PercentEscapes(c, rest);
    QuotedBytes(c);
    hide IsFileQuote, Printable, Escaped;
    assert (Percent(c) + rest)[1..] == Percent(c)[1..] + rest;
  }

  /** An escaped NUL is dropped from a file name. */
  lemma NulIsDropped(rest: seq<octet>)
    ensures FileUnquoted(Percent('\0') + rest) == FileUnquoted(rest)
  {
    PercentEscapes('\0', rest);
    hide Percent;
  }

  /** Outside forms a plus stays, and so does a percent sign without two digits. */
  lemma NotAnEscape(c: octet, rest: seq<octet>, form: bool, safe: bool)
    requires (c == '+' && !form) || (c != '+' && !IsEscape([c] + rest))
    ensures UrlUnquoted([c] + rest, form, safe) == [c] + UrlUnquoted(rest, form, safe)
    ensures c != '+' ==> FileUnquoted([c] + rest) == [c] + FileUnquoted(rest)
  {
    assert ([c] + rest)[1..] == rest;
  }

  /** Escapes in small letters mean the same. */
  lemma SmallDigits(c: octet)
    requires 'A' <= c <= 'F'
    ensures IsXdigit(Lower(c)) && Lower(c) as int < 256 && Digit(Lower(c)) == Digit(c)
  {
  }

  // ----- each undoes the other

  lemma PercentEscapes(c: octet, rest: seq<octet>)
    ensures IsEscape(Percent(c) + rest) && Escaped(Percent(c) + rest) == c && (Percent(c) + rest)[3..] == rest
  {
  }

  lemma CodesAreApart(c: octet)
    ensures c == '%' || c == '+' ==> IsFileQuote(c) && IsUrlUnsafe(c) && !IsUrlQuote(c)
    ensures IsXdigit(c) ==> !IsUrlQuote(c)
    ensures LineBreak(c) ==> IsFileQuote(c)
  {
  }

  /** What a form sends is what it held, for all bytes. */
  lemma {:induction false} FormRoundTrip(s: seq<octet>)
    ensures UrlUnquoted(Encode(FormCode, s), true, false) == s
  {
    hide UrlUnquoted, FormCode;
    if s == [] {
      UnquotedNothing(true, false);
    } else {
      FormRoundTrip(s[1..]);
      FormByteBack(s[0], Encode(FormCode, s[1..]));
    }
  }

  lemma FormByteBack(c: octet, rest: seq<octet>)
    ensures UrlUnquoted(FormCode(c) + rest, true, false) == [c] + UrlUnquoted(rest, true, false)
  {
    CodesAreApart(c);
    PercentEscapes(c, rest);
    hide Percent, Escaped, IsUrlUnsafe;
    if c == ' ' {
      assert (['+'] + rest)[1..] == rest;
    } else if !IsUrlUnsafe(c) {
      assert ([c] + rest)[1..] == rest;
    }
  }

  /** Without its line breaks. */
  function Unbroken(s: seq<octet>): (r: seq<octet>)
    ensures |r| <= |s| && (r == s <==> forall c :: c in s ==> !LineBreak(c))
  {
    if s == [] then []
    else if LineBreak(s[0]) then Unbroken(s[1..])
    else
      var r := [s[0]] + Unbroken(s[1..]);
      assert s == [s[0]] + s[1..];
      assert r == s ==> r[1..] == s[1..];
      r
  }

  /** A file name comes back without its line breaks, hence unchanged exactly if it has none. */
  lemma {:induction false} FileRoundTrip(s: seq<octet>)
    requires '\0' !in s
    ensures FileUnquoted(Encode(FileCode, s)) == Unbroken(s)
  {
    if s != [] {
      var c, rest := s[0], Encode(FileCode, s[1..]);
      FileRoundTrip(s[1..]);
      CodesAreApart(c);
      PercentEscapes(c, rest);
      assert (FileCode(c) + rest)[|FileCode(c)|..] == rest;
    }
  }

  lemma {:induction false} EncodeConcat(code: octet -> seq<octet>, a: seq<octet>, b: seq<octet>)
    ensures Encode(code, a + b) == Encode(code, a) + Encode(code, b)
  {
    if a == [] {
      assert a + b == b;
    } else {
      EncodeConcat(code, a[1..], b);
      assert (a + b)[1..] == a[1..] + b;
      ThreeParts(code(a[0]), Encode(code, a[1..]), Encode(code, b));
    }
  }

  lemma ThreeParts(a: seq<octet>, b: seq<octet>, c: seq<octet>)
    ensures a + (b + c) == (a + b) + c
  {
  }

  /** Quoting a URL twice is quoting it once. */
  lemma {:induction false} UrlQuoteIsIdempotent(s: seq<octet>)
    ensures Encode(UrlCode, Encode(UrlCode, s)) == Encode(UrlCode, s)
  {
    if s != [] {
      UrlQuoteIsIdempotent(s[1..]);
      EncodeConcat(UrlCode, UrlCode(s[0]), Encode(UrlCode, s[1..]));
      CodeIsPlain(s[0]);
    }
  }

  lemma CodeIsPlain(c: octet)
    ensures Encode(UrlCode, UrlCode(c)) == UrlCode(c)
  {
    if IsUrlQuote(c) {
      var p := Percent(c);
      CodesAreApart('%');
      CodesAreApart(p[1]);
      CodesAreApart(p[2]);
      PlainByte(p[0], p[1..]);
      PlainByte(p[1], p[2..]);
      PlainByte(p[2], []);
      assert p == [p[0]] + p[1..] && p[1..] == [p[1]] + p[2..] && p[2..] == [p[2]] + [];
    } else {
      PlainByte(c, []);
      assert [c] + [] == [c];
    }
  }

  lemma PlainByte(c: octet, rest: seq<octet>)
    requires !IsUrlQuote(c)
    ensures Encode(UrlCode, [c] + rest) == [c] + Encode(UrlCode, rest)
  {
    assert ([c] + rest)[1..] == rest;
  }

  /** Does an escape begin anywhere in `s`? */
  predicate HasEscape(s: seq<octet>) {
    s != [] && (IsEscape(s) || HasEscape(s[1..]))
  }

  lemma QuotedHead(s: seq<octet>)
    requires s != []
    ensures Encode(UrlCode, s) != []
    ensures Encode(UrlCode, s)[0] == if IsUrlQuote(s[0]) then '%' else s[0]
    ensures !IsUrlQuote(s[0]) ==> Encode(UrlCode, s)[1..] == Encode(UrlCode, s[1..])
  {
  }

  /** Quoting a URL keeps the escapes it has and makes no new one out of a lone percent sign. */
  lemma EscapesSurvive(s: seq<octet>)
    requires s != [] && s[0] == '%'
    ensures IsEscape(Encode(UrlCode, s)) <==> IsEscape(s)
    ensures IsEscape(s) ==> Encode(UrlCode, s)[3..] == Encode(UrlCode, s[3..]) && Escaped(Encode(UrlCode, s)) == Escaped(s)
  {
    hide Encode, IsUrlQuote, IsFileQuote, IsUrlUnsafe;
    var e := Encode(UrlCode, s);
    CodesAreApart('%');
    QuotedHead(s);
    EncodeNothing(UrlCode);
    if |s| > 1 {
      CodesAreApart(s[1]);
      QuotedHead(s[1..]);
      if |s| > 2 && IsXdigit(s[1]) {
        CodesAreApart(s[2]);
        QuotedHead(s[2..]);
        assert e[2..] == e[1..][1..] && s[2..] != [];
        assert s[1..][1..] == s[2..] && s[2..][1..] == s[3..];
        assert e[1..][1..] == e[2..] && e[2..][1..] == e[3..];
      }
    }
  }

  lemma EncodeNothing(code: octet -> seq<octet>)
    ensures Encode(code, []) == []
  {
  }

  /** Unquoting a quoted URL never makes it longer than it was, and shortens it if it held an escape. */
  lemma {:induction false} UrlUnquoteShortens(s: seq<octet>)
    ensures var r := UrlUnquoted(Encode(UrlCode, s), false, false);
      |r| <= |s| && if HasEscape(s) then |r| < |s| else r == s
  {
    hide IsEscape, Escaped, IsUrlQuote, Percent, UrlUnquoted, Encode;
    if s == [] {
      UnquotedNothing(false, false);
      EncodeNothing(UrlCode);
    } else {
      var c, rest := s[0], Encode(UrlCode, s[1..]);
      CodesAreApart(c);
      EscapeShape(s);
      EncodeStep(UrlCode, s, 0, []);
      assert s[0..] == s && [] + Encode(UrlCode, s) == Encode(UrlCode, s) && [] + UrlCode(c) == UrlCode(c);
      if IsEscape(s) {
        EscapesSurvive(s);
        UrlUnquoteShortens(s[3..]);
        UnquoteOne(Encode(UrlCode, s));
      } else {
        UrlUnquoteShortens(s[1..]);
        if IsUrlQuote(c) {
          PercentEscapes(c, rest);
          UnquoteOne(Percent(c) + rest);
        } else {
          UnquoteOne([c] + rest);
          EscapeShape([c] + rest);
          assert ([c] + rest)[1..] == rest;
          if c == '%' {
            EscapesSurvive(s);
          }
        }
      }
    }
  }

  lemma UnquoteOne(e: seq<octet>)
    requires e != []
    ensures UrlUnquoted(e, false, false) ==
      if IsEscape(e) then [Escaped(e)] + UrlUnquoted(e[3..], false, false) else [e[0]] + UrlUnquoted(e[1..], false, false)
  {
  }

  lemma EscapeShape(s: seq<octet>)
    ensures IsEscape(s) ==> |s| >= 3 && s[0] == '%'
  {
  }

  /** URL quoting, unlike the other two, leaves percent signs alone: it is undone exactly on texts without an escape. */
  lemma UrlRoundTripIff(s: seq<octet>)
    ensures UrlUnquoted(Encode(UrlCode, s), false, false) == s <==> !HasEscape(s)
  {
    UrlUnquoteShortens(s);
  }

  /** "%41" is left alone by URL quoting, and comes back as "A". */
  lemma EscapeIsLost()
    ensures UrlUnquoted(Encode(UrlCode, ['%', '4', '1']), false, false) == ['A'] != ['%', '4', '1']
  {
    var s: seq<octet> := ['%', '4', '1'];
    assert IsEscape(s) && Escaped(s) == 'A';
    EscapesSurvive(s);
    UnquoteOne(Encode(UrlCode, s));
    EncodeNothing(UrlCode);
    UnquotedNothing(false, false);
    assert s[3..] == [];
  }

  /** A line break inside a file name is gone after quoting and unquoting. */
  lemma LineBreakIsLost()
    ensures FileUnquoted(Encode(FileCode, ['a', '\n', 'b'])) == ['a', 'b'] != ['a', '\n', 'b']
  {
    var s: seq<octet> := ['a', '\n', 'b'];
    FileRoundTrip(s);
    assert s[1..] == ['\n', 'b'] && s[1..][1..] == ['b'] && s[1..][1..][1..] == [];
    assert Unbroken(['b']) == ['b'];
    assert Unbroken(['\n', 'b']) == ['b'];
  }

  // ----- the functions themselves

  /** `url_quote`. */
  method UrlQuote(s: CString) returns (r: seq<octet>)
    ensures r == Encode(UrlCode, s) && Encode(UrlCode, r) == r
    ensures UrlUnquoted(r, false, false) == s <==> !HasEscape(s)
    ensures forall c :: c in r ==> Printable(c)
  {
    r := Quote(s, UrlCode);
    forall c | c in r
      ensures Printable(c)
    {
      UrlIsPrintable(s, c);
    }
    UrlQuoteIsIdempotent(s);
    UrlRoundTripIff(s);
  }

  /** `file_quote`. */
  method FileQuote(s: CString) returns (r: seq<octet>)
    ensures r == Encode(FileCode, s)
    ensures FileUnquoted(r) == s <==> forall c :: c in s ==> !LineBreak(c)
    ensures forall c :: c in r ==> Printable(c) && c != '#' && c != '&' && c != '+' && c != ':' && c != '?'
  {
    r := Quote(s, FileCode);
    forall c | c in r
      ensures Printable(c) && c != '#' && c != '&' && c != '+' && c != ':' && c != '?'
    {
      FileIsSafe(s, c);
    }
    FileRoundTrip(s);
  }

  /** `Str_form_quote`. */
  method StrFormQuote(x: seq<octet>) returns (r: seq<octet>)
    ensures r == Encode(FormCode, x) && UrlUnquoted(r, true, false) == x
    ensures forall c :: c in r ==> FormSafe(c) || c == '%' || c == '+'
  {
    r := Quote(x, FormCode);
    FormRoundTrip(x);
    forall c | c in r
      ensures FormSafe(c) || c == '%' || c == '+'
    {
      FormIsSafe(x, c);
    }
  }
}
