/**
Character references in HTML text (w3m/indep.c, `getescapechar`, `getescapecmd`, `html_quote`,
`html_unquote`; w3m/entity.c, `conv_entity`). The table of entity names and the conversion of
codes beyond ASCII are data.
*/
module Entities {
  import opened Basics
  import opened Quoting

  datatype Tables = Tables(entity: map<seq<octet>, nat>, beyond: nat -> seq<octet>)

  /** The entries of the table that `html_quote` relies on. */
  predicate Standard(t: Tables) {
    && AMP in t.entity && t.entity[AMP] == 0x26 && LT in t.entity && t.entity[LT] == 0x3c
    && GT in t.entity && t.entity[GT] == 0x3e && QUOT in t.entity && t.entity[QUOT] == 0x22
  }

  const AMP: seq<octet> := ['a', 'm', 'p']
  const LT: seq<octet> := ['l', 't']
  const GT: seq<octet> := ['g', 't']
  const QUOT: seq<octet> := ['q', 'u', 'o', 't']

  /** `strcasestr("lt gt amp quot nbsp", …)` looks here. */
  const LOOSE: string := "lt gt amp quot nbsp"

  /** The byte at `i`, NUL behind the end. */
  function At(s: seq<octet>, i: nat): octet {
    if i < |s| then s[i] else '\0'
  }

  // ----- quoting

  function Reference(name: seq<octet>): seq<octet> {
    ['&'] + name + [';']
  }

  /** `html_quote_char`. */
  function HtmlCode(c: octet): seq<octet> {
    var k := QuoteType(c) % 8;
    if k == 1 then Reference(AMP) else if k == 2 then Reference(LT) else if k == 3 then Reference(GT)
    else if k == 4 then Reference(QUOT) else [c]
  }

  // ----- reading one reference

  /** The first position from `p` on whose byte is not in the class. */
  function Run(s: seq<octet>, p: nat, class_: char -> bool): (e: nat)
    requires p <= |s|
    ensures p <= e <= |s| && (e < |s| ==> !class_(s[e])) && forall i :: p <= i < e ==> class_(s[i])
    decreases |s| - p
  {
    if p < |s| && class_(s[p]) then Run(s, p + 1, class_) else p
  }

  /** The number that digits spell. */
  function Number(base: nat, digits: seq<octet>): nat
    requires forall i :: 0 <= i < |digits| ==> IsXdigit(digits[i])
  {
    if digits == [] then 0
    else Number(base, digits[..|digits| - 1]) * base + Digit(digits[|digits| - 1])
  }

  /** `strcasestr`: does `name` occur in `s`, up to case? */
  predicate Occurs(s: string, name: seq<octet>) {
    exists i :: 0 <= i <= |s| - |name| && SameAt(s, i, name)
  }

  predicate SameAt(s: string, i: nat, name: seq<octet>)
    requires i + |name| <= |s|
  {
    forall j :: 0 <= j < |name| ==> Lower(s[i + j]) == Lower(name[j])
  }

  /** A code, or -1, and how many bytes were read. */
  datatype Escape = Escape(ch: int, used: nat)

  function Past(s: seq<octet>, e: nat): nat {
    if At(s, e) == ';' then e + 1 else e
  }

  function NamedEscape(t: Tables, s: seq<octet>, p: nat): Escape
    requires p < |s|
  {
    var e := Run(s, p, IsAlnum);
    var code: int := if s[p..e] in t.entity then t.entity[s[p..e]] else -1;
    if At(s, e) == ';' || (Occurs(LOOSE, s[p..e]) && At(s, e) != '=') then Escape(code, Past(s, e)) else Escape(-1, e)
  }

  function NumericEscape(s: seq<octet>, p: nat, base: nat, class_: char -> bool): Escape
    requires p <= |s| && forall c :: class_(c) ==> IsXdigit(c)
  {
    var e := Run(s, p, class_);
    if e == p then Escape(-1, p) else Escape(Number(base, s[p..e]), Past(s, e))
  }

  /** `getescapechar`. */
  function EscapeChar(t: Tables, s: seq<octet>): (r: Escape)
    ensures r.used <= |s| && (At(s, 0) == '&' ==> r.used > 0)
  {
    var p := if At(s, 0) == '&' then 1 else 0;
    if At(s, p) == '#' then
      if At(s, p + 1) == 'x' || At(s, p + 1) == 'X' then NumericEscape(s, p + 2, 16, IsXdigit)
      else NumericEscape(s, p + 1, 10, IsDigit)
    else if IsAlpha(At(s, p)) then NamedEscape(t, s, p)
    else Escape(-1, p)
  }

  /** Reads digits as the two loops of `getescapechar` do. */
  method ReadNumber(s: seq<octet>, p0: nat, base: nat, class_: char -> bool) returns (ch: int, p: nat)
    requires p0 <= |s| && forall c :: class_(c) ==> IsXdigit(c)
    ensures Escape(ch, p) == NumericEscape(s, p0, base, class_)
  {
    p := p0;
    if p == |s| || !class_(s[p]) {
      return -1, p;
    }
    ghost var e := Run(s, p0, class_);
    ch, p := Digit(s[p]), p + 1;
    NumberStep(base, s, p0, p0);
    while p < |s| && class_(s[p])
      invariant p0 < p <= e && ch == Number(base, s[p0..p])
    {
      NumberStep(base, s, p0, p);
      ch, p := ch * base + Digit(s[p]), p + 1;
    }
    assert p == e;
    if p < |s| && s[p] == ';' {
      p := p + 1;
    }
  }

  lemma NumberStep(base: nat, s: seq<octet>, a: nat, b: nat)
    requires a <= b < |s| && forall i :: a <= i <= b ==> IsXdigit(s[i])
    ensures Number(base, s[a..b + 1]) == Number(base, s[a..b]) * base + Digit(s[b])
  {
    assert s[a..b + 1][..b - a] == s[a..b];
  }

  method GetEscapeChar(t: Tables, s: seq<octet>) returns (ch: int, p: nat)
    ensures Escape(ch, p) == EscapeChar(t, s)
  {
    p := 0;
    if At(s, p) == '&' {
      p := p + 1;
    }
    if At(s, p) == '#' {
      p := p + 1;
      if At(s, p) == 'x' || At(s, p) == 'X' {
        ch, p := ReadNumber(s, p + 1, 16, IsXdigit);
      } else {
        ch, p := ReadNumber(s, p, 10, IsDigit);
      }
      return;
    }
    if !IsAlpha(At(s, p)) {
      return -1, p;
    }
    var q := p;
    p := p + 1;
    while p < |s| && IsAlnum(s[p])
      invariant q < p <= Run(s, q, IsAlnum)
    {
      p := p + 1;
    }
    assert p == Run(s, q, IsAlnum);
    var name := s[q..p];
    var strict := true;
    if Occurs(LOOSE, name) && At(s, p) != '=' {
      strict := false;
    }
    if At(s, p) == ';' {
      p := p + 1;
    } else if strict {
      return -1, p;
    }
    ch := if name in t.entity then t.entity[name] else -1;
  }

  // ----- whole texts

  /** `conv_entity`. */
  function ConvEntity(t: Tables, c: nat): seq<octet> {
    if c < 0x20 then [' '] else if c < 0x7f then [c as char] else if c < 0xa0 then [' '] else t.beyond(c)
  }

  /** `getescapecmd`: the text a reference stands for, or the bytes themselves. */
  function EscapeText(t: Tables, s: seq<octet>): seq<octet> {
    var r := EscapeChar(t, s);
    if r.ch >= 0 then ConvEntity(t, r.ch) else (if At(s, 0) != '&' then ['&'] else []) + s[..r.used]
  }

  /** `html_unquote`. */
  function HtmlUnquoted(t: Tables, s: seq<octet>): seq<octet>
    decreases |s|
  {
    if s == [] then []
    else if s[0] == '&' then EscapeText(t, s) + HtmlUnquoted(t, s[EscapeChar(t, s).used..])
    else [s[0]] + HtmlUnquoted(t, s[1..])
  }

  lemma UnquoteStep(t: Tables, s: seq<octet>, p: nat, out: seq<octet>)
    requires p < |s|
    ensures
      if s[p] == '&' then
        var n := EscapeChar(t, s[p..]).used;
        p + n <= |s| && out + HtmlUnquoted(t, s[p..]) == (out + EscapeText(t, s[p..])) + HtmlUnquoted(t, s[p + n..])
      else
        out + HtmlUnquoted(t, s[p..]) == (out + [s[p]]) + HtmlUnquoted(t, s[p + 1..])
  {
    hide EscapeText;
    var n := EscapeChar(t, s[p..]).used;
    assert s[p..][1..] == s[p + 1..] && s[p..][n..] == s[p + n..];
  }

  lemma UnquotedEmpty(t: Tables)
    ensures HtmlUnquoted(t, []) == []
  {
  }

  method GetEscapeCmd(t: Tables, s: seq<octet>) returns (text: seq<octet>, p: nat)
    ensures text == EscapeText(t, s) && p == EscapeChar(t, s).used
  {
    hide EscapeChar;
    var ch;
    ch, p := GetEscapeChar(t, s);
    if ch >= 0 {
      return ConvEntity(t, ch), p;
    }
    var tmp := if At(s, 0) != '&' then ['&'] else [];
    return tmp + s[..p], p;
  }

  method HtmlUnquote(t: Tables, s: CString) returns (r: seq<octet>)
    ensures r == HtmlUnquoted(t, s)
  {
    hide HtmlUnquoted, EscapeText, EscapeChar;
    var tmp: Option<seq<octet>> := None;
    var p := 0;
    ghost var out: seq<octet> := [];
    assert s[0..] == s && [] + HtmlUnquoted(t, s) == HtmlUnquoted(t, s);
    while p < |s|
      invariant p <= |s| && out == (if tmp.None? then s[..p] else tmp.value)
      invariant out + HtmlUnquoted(t, s[p..]) == HtmlUnquoted(t, s)
      decreases |s| - p
    {
      UnquoteStep(t, s, p, out);
      if s[p] == '&' {
        if tmp.None? {
          tmp := Some(s[..p]);
        }
        var q, n := GetEscapeCmd(t, s[p..]);
        tmp := Some(tmp.value + q);
        out, p := tmp.value, p + n;
      } else {
        if tmp.Some? {
          tmp := Some(tmp.value + [s[p]]);
        }
        out, p := out + [s[p]], p + 1;
      }
    }
    UnquotedEmpty(t);
    assert s[..|s|] == s && s[|s|..] == [] && out + [] == out;
    r := if tmp.Some? then tmp.value else s;
  }

  // ----- round trips

  lemma {:induction false} RunIs(s: seq<octet>, p: nat, e: nat, class_: char -> bool)
    requires p <= e <= |s| && (e < |s| ==> !class_(s[e])) && forall i :: p <= i < e ==> class_(s[i])
    ensures Run(s, p, class_) == e
    decreases e - p
  {
    if p < e {
      RunIs(s, p + 1, e, class_);
    }
  }

  /** A known name between '&' and ';' stands for its code, whatever follows. */
  lemma NamedReference(t: Tables, name: seq<octet>, rest: seq<octet>)
    requires name in t.entity && name != [] && IsAlpha(name[0]) && forall i :: 0 <= i < |name| ==> IsAlnum(name[i])
    ensures EscapeChar(t, Reference(name) + rest) == Escape(t.entity[name], |name| + 2)
  {
    hide Occurs;
    var s := Reference(name) + rest;
    RunIs(s, 1, |name| + 1, IsAlnum);
    assert s[1..|name| + 1] == name;
    assert At(s, |name| + 1) == ';' && At(s, 1) == name[0];
  }

  lemma StandardReference(t: Tables, c: octet, name: seq<octet>, rest: seq<octet>)
    requires name in t.entity && name != [] && IsAlpha(name[0]) && forall i :: 0 <= i < |name| ==> IsAlnum(name[i])
    requires t.entity[name] == c as int && 0x20 <= c as int < 0x7f
    ensures HtmlUnquoted(t, Reference(name) + rest) == [c] + HtmlUnquoted(t, rest)
  {
    NamedReference(t, name, rest);
    var s := Reference(name) + rest;
    hide EscapeChar;
    assert s[|name| + 2..] == rest;
  }

  /** Quoted text comes back unchanged, for every text. */
  lemma {:induction false} HtmlRoundTrip(t: Tables, s: seq<octet>)
    requires Standard(t)
    ensures HtmlUnquoted(t, Encode(HtmlCode, s)) == s
  {
    hide HtmlUnquoted, HtmlCode, Standard;
    if s == [] {
      UnquotedEmpty(t);
    } else {
      HtmlRoundTrip(t, s[1..]);
      OneByteBack(t, s[0], Encode(HtmlCode, s[1..]));
    }
  }

  lemma OneByteBack(t: Tables, c: octet, rest: seq<octet>)
    requires Standard(t)
    ensures HtmlUnquoted(t, HtmlCode(c) + rest) == [c] + HtmlUnquoted(t, rest)
  {
    hide EscapeText, EscapeChar, Reference;
    if c == '&' {
      StandardReference(t, c, AMP, rest);
    } else if c == '<' {
      StandardReference(t, c, LT, rest);
    } else if c == '>' {
      StandardReference(t, c, GT, rest);
    } else if c == '"' {
      StandardReference(t, c, QUOT, rest);
    } else {
      assert HtmlCode(c) == [c];
      assert ([c] + rest)[1..] == rest;
    }
  }

  /** Quoted text holds no tag and no string delimiter. */
  lemma {:induction false} QuotedIsHarmless(s: seq<octet>)
    ensures forall c :: c in Encode(HtmlCode, s) ==> c != '<' && c != '>' && c != '"'
  {
    if s != [] {
      QuotedIsHarmless(s[1..]);
      forall c | c in HtmlCode(s[0])
        ensures c != '<' && c != '>' && c != '"'
      {
        CodeIsHarmless(s[0], c);
      }
    }
  }

  lemma CodeIsHarmless(c: octet, d: octet)
    requires d in HtmlCode(c)
    ensures d != '<' && d != '>' && d != '"'
  {
  }

  /** `html_quote`. */
  method HtmlQuote(t: Tables, s: CString) returns (r: seq<octet>)
    ensures r == Encode(HtmlCode, s) && (Standard(t) ==> HtmlUnquoted(t, r) == s)
    ensures forall c :: c in r ==> c != '<' && c != '>' && c != '"'
  {
    hide *;
    r := Quote(s, HtmlCode);
    QuotedIsHarmless(s);
    if Standard(t) {
      HtmlRoundTrip(t, s);
    }
  }

  // ----- numeric references

  function Decimal(n: nat): (r: seq<octet>)
    ensures r != [] && forall i :: 0 <= i < |r| ==> IsDigit(r[i])
  {
    if n < 10 then [Xdigit(n)] else Decimal(n / 10) + [Xdigit(n % 10)]
  }

  lemma {:induction false} NumberOfDecimal(n: nat)
    ensures Number(10, Decimal(n)) == n
  {
    var d := Decimal(n);
    if n < 10 {
      assert d[..0] == [] && Number(10, d[..0]) == 0;
    } else {
      NumberOfDecimal(n / 10);
      assert d[..|d| - 1] == Decimal(n / 10);
    }
  }

  /** A decimal reference stands for the number it spells. */
  lemma DecimalReference(t: Tables, n: nat, rest: seq<octet>)
    ensures EscapeChar(t, ['&', '#'] + Decimal(n) + [';'] + rest) == Escape(n, |Decimal(n)| + 3)
  {
    hide Number, Decimal, NamedEscape;
    var d := Decimal(n);
    var s := ['&', '#'] + d + [';'] + rest;
    assert s[2] == d[0] && s[|d| + 2] == ';';
    RunIs(s, 2, |d| + 2, IsDigit);
    assert s[2..|d| + 2] == d;
    NumberOfDecimal(n);
  }

  function Hexadecimal(n: nat): (r: seq<octet>)
    ensures r != [] && forall i :: 0 <= i < |r| ==> IsXdigit(r[i])
  {
    if n < 16 then [Xdigit(n)] else Hexadecimal(n / 16) + [Xdigit(n % 16)]
  }

  lemma {:induction false} NumberOfHexadecimal(n: nat)
    ensures Number(16, Hexadecimal(n)) == n
  {
    var d := Hexadecimal(n);
    if n < 16 {
      assert d[..0] == [] && Number(16, d[..0]) == 0;
    } else {
      NumberOfHexadecimal(n / 16);
      assert d[..|d| - 1] == Hexadecimal(n / 16);
    }
  }

  /** So does a hexadecimal one. */
  lemma HexadecimalReference(t: Tables, x: octet, n: nat, rest: seq<octet>)
    requires x == 'x' || x == 'X'
    ensures EscapeChar(t, ['&', '#', x] + Hexadecimal(n) + [';'] + rest) == Escape(n, |Hexadecimal(n)| + 4)
  {
    hide Number, Hexadecimal, NamedEscape;
    var d := Hexadecimal(n);
    var s := ['&', '#', x] + d + [';'] + rest;
    assert s[2] == x && s[3] == d[0] && s[|d| + 3] == ';';
    RunIs(s, 3, |d| + 3, IsXdigit);
    assert s[3..|d| + 3] == d;
    NumberOfHexadecimal(n);
  }

  // ----- references without a semicolon

  /** The names that need no semicolon. */
  const NBSP: seq<octet> := ['n', 'b', 's', 'p']

  predicate Loose(name: seq<octet>) {
    name == LT || name == GT || name == AMP || name == QUOT || name == NBSP
  }

  lemma LooseNamesOccur(name: seq<octet>)
    requires Loose(name)
    ensures Occurs(LOOSE, name)
  {
    var i := if name == LT then 0 else if name == GT then 3 else if name == AMP then 6 else if name == QUOT then 10 else 15;
    assert SameAt(LOOSE, i, name);
  }

  lemma LooseNamesAreWords(name: seq<octet>)
    requires Loose(name)
    ensures |name| > 0 && IsAlpha(name[0]) && forall i :: 0 <= i < |name| ==> IsAlnum(name[i])
  {
  }

  /** A popular name stands for its code even without one, but not in front of '='. */
  lemma LooseReference(t: Tables, name: seq<octet>, rest: seq<octet>)
    requires Loose(name) && name in t.entity && (rest != [] ==> !IsAlnum(rest[0]) && rest[0] != ';')
    ensures EscapeChar(t, ['&'] + name + rest) ==
      Escape(if rest != [] && rest[0] == '=' then -1 else t.entity[name], |name| + 1)
  {
    LooseNamesOccur(name);
    LooseNamesAreWords(name);
    hide Occurs, Loose, IsAlnum;
    var s := ['&'] + name + rest;
    RunIs(s, 1, |name| + 1, IsAlnum);
    assert s[1..|name| + 1] == name;
    assert At(s, |name| + 1) == if rest == [] then '\0' else rest[0];
    assert At(s, 1) == name[0];
  }

  /** A name of more than four letters needs it. */
  lemma LongNamesAreStrict(t: Tables, name: seq<octet>, rest: seq<octet>)
    requires |name| > 4 && IsAlpha(name[0]) && forall i :: 0 <= i < |name| ==> IsAlnum(name[i])
    requires rest != [] ==> !IsAlnum(rest[0]) && rest[0] != ';'
    ensures EscapeChar(t, ['&'] + name + rest) == Escape(-1, |name| + 1)
  {
    LongNamesDoNotOccur(name);
    hide Occurs;
    var s := ['&'] + name + rest;
    RunIs(s, 1, |name| + 1, IsAlnum);
    assert s[1..|name| + 1] == name;
    assert At(s, |name| + 1) == if rest == [] then '\0' else rest[0];
    assert At(s, 1) == name[0];
  }

  lemma LongNamesDoNotOccur(name: seq<octet>)
    requires |name| > 4 && forall i :: 0 <= i < |name| ==> IsAlnum(name[i])
    ensures !Occurs(LOOSE, name)
  {
    forall i | 0 <= i <= |LOOSE| - |name|
      ensures !SameAt(LOOSE, i, name)
    {
      var j := if i <= 2 then 2 - i else if i <= 5 then 5 - i else if i <= 9 then 9 - i else 14 - i;
      assert LOOSE[i + j] == ' ' && Lower(name[j]) != ' ';
    }
  }

  // ----- with or without the ampersand

  lemma {:induction false} RunShifts(s: seq<octet>, p: nat, class_: char -> bool)
    requires p <= |s|
    ensures Run(['&'] + s, p + 1, class_) == Run(s, p, class_) + 1
    decreases |s| - p
  {
    if p < |s| && class_(s[p]) {
      RunShifts(s, p + 1, class_);
    }
  }

  /** A reference is read the same whether or not its '&' was skipped before. */
  lemma AmpersandIsOptional(t: Tables, s: seq<octet>)
    requires At(s, 0) != '&'
    ensures EscapeChar(t, ['&'] + s) == Escape(EscapeChar(t, s).ch, EscapeChar(t, s).used + 1)
    ensures EscapeText(t, ['&'] + s) == EscapeText(t, s)
  {
    var w := ['&'] + s;
    forall i: nat
      ensures At(w, i + 1) == At(s, i)
    {
    }
    assert At(w, 0) == '&' && At(w, 1) == At(s, 0) && At(w, 2) == At(s, 1);
    EscapeShifts(t, s);
    hide NumericEscape, NamedEscape;
    var n := EscapeChar(t, s).used;
    assert EscapeChar(t, w).used == n + 1;
    assert w[..n + 1] == ['&'] + s[..n] && [] + w[..n + 1] == w[..n + 1];
  }

  lemma EscapeShifts(t: Tables, s: seq<octet>)
    ensures IsAlpha(At(s, 0)) ==> s != [] && Shifted(NamedEscape(t, ['&'] + s, 1), NamedEscape(t, s, 0))
    ensures |s| >= 1 ==> Shifted(NumericEscape(['&'] + s, 2, 10, IsDigit), NumericEscape(s, 1, 10, IsDigit))
    ensures |s| >= 2 ==> Shifted(NumericEscape(['&'] + s, 3, 16, IsXdigit), NumericEscape(s, 2, 16, IsXdigit))
  {
    hide NamedEscape, NumericEscape, Shifted;
    if |s| >= 1 {
      NamedShifts(t, s);
      NumericShifts(s, 1, 10, IsDigit);
    }
    if |s| >= 2 {
      NumericShifts(s, 2, 16, IsXdigit);
    }
  }

  lemma NumericShifts(s: seq<octet>, p: nat, base: nat, class_: char -> bool)
    requires p <= |s| && forall c :: class_(c) ==> IsXdigit(c)
    ensures Shifted(NumericEscape(['&'] + s, p + 1, base, class_), NumericEscape(s, p, base, class_))
  {
    hide Run, Number;
    RunShifts(s, p, class_);
    SameSlice(s, p, Run(s, p, class_));
    assert At(['&'] + s, Run(s, p, class_) + 1) == At(s, Run(s, p, class_));
  }

  lemma NamedShifts(t: Tables, s: seq<octet>)
    requires s != []
    ensures Shifted(NamedEscape(t, ['&'] + s, 1), NamedEscape(t, s, 0))
  {
    hide Run, Occurs, IsAlnum;
    RunShifts(s, 0, IsAlnum);
    SameSlice(s, 0, Run(s, 0, IsAlnum));
    assert At(['&'] + s, Run(s, 0, IsAlnum) + 1) == At(s, Run(s, 0, IsAlnum));
  }

  predicate Shifted(a: Escape, b: Escape) {
    a.ch == b.ch && a.used == b.used + 1
  }

  lemma SameSlice(s: seq<octet>, a: nat, b: nat)
    requires a <= b <= |s|
    ensures (['&'] + s)[a + 1..b + 1] == s[a..b]
  {
  }

  // ----- what is not a character

  /** References to control codes show as blanks. */
  lemma ControlCodesAreBlank(t: Tables, n: nat)
    requires n < 0x20 || 0x7f <= n < 0xa0
    ensures ConvEntity(t, n) == [' ']
  {
  }

  /** ASCII codes are characters; those from the no-break space on are converted. */
  lemma OtherCodes(t: Tables, n: nat)
    ensures 0x20 <= n < 0x7f ==> ConvEntity(t, n) == [n as char]
    ensures n >= 0xa0 ==> ConvEntity(t, n) == t.beyond(n)
  {
  }

  /** An ampersand in front of neither a letter nor '#' stands for itself. */
  lemma LoneAmpersand(t: Tables, rest: seq<octet>)
    requires rest != [] ==> !IsAlpha(rest[0]) && rest[0] != '#'
    ensures HtmlUnquoted(t, ['&'] + rest) == ['&'] + HtmlUnquoted(t, rest)
  {
    var s := ['&'] + rest;
    assert At(s, 1) == if rest == [] then '\0' else rest[0];
    assert EscapeChar(t, s) == Escape(-1, 1);
    assert s[..1] == ['&'] && s[1..] == rest;
  }

  /** So does "&#" in front of neither a digit nor an 'x'. */
  lemma LoneNumberSign(t: Tables, rest: seq<octet>)
    requires rest != [] ==> !IsDigit(rest[0]) && rest[0] != 'x' && rest[0] != 'X'
    ensures HtmlUnquoted(t, ['&', '#'] + rest) == ['&', '#'] + HtmlUnquoted(t, rest)
  {
    var s := ['&', '#'] + rest;
    assert At(s, 1) == '#' && At(s, 2) == if rest == [] then '\0' else rest[0];
    RunIs(s, 2, 2, IsDigit);
    assert EscapeChar(t, s) == Escape(-1, 2);
    assert s[..2] == ['&', '#'] && s[2..] == rest;
  }

  /** And a reference by an unknown name. */
  lemma UnknownNameStays(t: Tables, name: seq<octet>, rest: seq<octet>)
    requires name !in t.entity && name != [] && IsAlpha(name[0]) && forall i :: 0 <= i < |name| ==> IsAlnum(name[i])
    ensures HtmlUnquoted(t, Reference(name) + rest) == Reference(name) + HtmlUnquoted(t, rest)
  {
    UnknownName(t, name, rest);
    hide EscapeChar, Reference;
    var s := Reference(name) + rest;
    ReferenceShape(name);
    assert s[..|name| + 2] == Reference(name) && s[|name| + 2..] == rest && s[0] == '&';
    assert [] + s[..|name| + 2] == s[..|name| + 2];
  }

  lemma ReferenceShape(name: seq<octet>)
    ensures |Reference(name)| == |name| + 2 && Reference(name)[0] == '&'
  {
  }

  lemma UnknownName(t: Tables, name: seq<octet>, rest: seq<octet>)
    requires name !in t.entity && name != [] && IsAlpha(name[0]) && forall i :: 0 <= i < |name| ==> IsAlnum(name[i])
    ensures EscapeChar(t, Reference(name) + rest) == Escape(-1, |name| + 2)
  {
    hide Occurs;
    var s := Reference(name) + rest;
    RunIs(s, 1, |name| + 1, IsAlnum);
    assert s[1..|name| + 1] == name;
    assert At(s, |name| + 1) == ';' && At(s, 1) == name[0];
  }
}
