/**
What the scanner of w3m/etc.c makes of tags, comments and plain text: a tag with values that may
hold '>', a comment that only "-->" ends, and the text in front of a '<' are one token each.
*/
module TokenForms {
  import opened Basics
  import opened Tokens

  // ----- inside markup

  /** Inside a tag, behind its first character. */
  predicate Tagish(s: Status) {
    s in {Tag, Eql, Quote, DQuote, Value}
  }

  /** In `pre` mode comments are kept like tags. */
  predicate Inside(m: Mode, s: Status) {
    Tagish(s) || (m.pre && Hidden(s))
  }

  /** Reading `t` never leaves the markup. */
  predicate Stays(m: Mode, s: Status, t: string)
    decreases |t|
  {
    t == "" || (Inside(m, Next(s, t[0])) && Stays(m, Next(s, t[0]), t[1..]))
  }

  lemma {:induction false} StaysConcat(m: Mode, s: Status, a: string, b: string)
    requires Stays(m, s, a) && Stays(m, Fold(s, a), b)
    ensures Stays(m, s, a + b) && Fold(s, a + b) == Fold(Fold(s, a), b)
    decreases |a|
  {
    if a == "" {
      assert a + b == b;
    } else {
      assert (a + b)[1..] == a[1..] + b;
      StaysConcat(m, Next(s, a[0]), a[1..], b);
    }
  }

  lemma InsideStep(m: Mode, before: string, s: Status, text: string, k: nat)
    requires k < |text|
    requires var sc := Pass(m, before, s, text, k); (Inside(m, sc.status) || sc.status == Tag0) && Inside(m, Next(sc.status, text[k]))
    ensures var sc := Pass(m, before, s, text, k);
            Pass(m, before, s, text, k + 1) == Scan(sc.out + [text[k]], Next(sc.status, text[k]))
    ensures !EndsAt(m, before, s, text, k + 1)
  {
    var sc := Pass(m, before, s, text, k);
    OneStep(m, sc.out, sc.status, text, k);
    hide Emit, After, Next, Closes;
    assert Pass(m, before, s, text, k + 1) == Scan(Emit(m, sc.out, sc.status, text[k]), After(sc.status, text, k));
  }

  lemma OneStep(m: Mode, out: string, s: Status, text: string, k: nat)
    requires k < |text| && (Inside(m, s) || s == Tag0) && Inside(m, Next(s, text[k]))
    ensures Emit(m, out, s, text[k]) == out + [text[k]] && After(s, text, k) == Next(s, text[k])
    ensures !Closes(out, s, text[k])
  {
  }

  lemma {:induction false} InsideRun(m: Mode, before: string, s: Status, text: string, k: nat, n: nat)
    requires k + n <= |text|
    requires var sc := Pass(m, before, s, text, k); (Inside(m, sc.status) || sc.status == Tag0) && Stays(m, sc.status, text[k..k + n])
    ensures var sc, t := Pass(m, before, s, text, k), text[k..k + n];
            Pass(m, before, s, text, k + n) == Scan(sc.out + t, Fold(sc.status, t))
    ensures forall j :: k < j <= k + n ==> !EndsAt(m, before, s, text, j)
    decreases n
  {
    hide Pass, Next, EndsAt, Inside, Stays, Fold;
    var sc, t := Pass(m, before, s, text, k), text[k..k + n];
    if n == 0 {
      assert t == "" && sc.out + "" == sc.out;
      FoldNothing(sc.status);
    } else {
      assert t[0] == text[k] && t[1..] == text[k + 1..k + n];
      StaysHead(m, sc.status, t);
      InsideStep(m, before, s, text, k);
      InsideRun(m, before, s, text, k + 1, n - 1);
      assert sc.out + [text[k]] + t[1..] == sc.out + t;
    }
  }

  lemma FoldNothing(s: Status)
    ensures Fold(s, "") == s
  {
  }

  lemma StaysHead(m: Mode, s: Status, t: string)
    requires t != "" && Stays(m, s, t)
    ensures Inside(m, Next(s, t[0])) && Stays(m, Next(s, t[0]), t[1..]) && Fold(s, t) == Fold(Next(s, t[0]), t[1..])
  {
  }

  // ----- tags

  /** What may follow a '<' that begins a tag, other than '!'. */
  predicate Opens(c: char) {
    IsAlpha(c) || c == '/' || c == '?' || c == '_'
  }

  /** A character outside values, or a value: quoted, and then any text without the quote, or bare, up to a space. */
  datatype Part = Letter(c: char) | Quoted(gap: string, q: char, v: string) | Bare(gap: string, v: string, end: char)

  predicate Spaces(gap: string) {
    forall i :: 0 <= i < |gap| ==> IsSpace(gap[i])
  }

  predicate BareValue(v: string) {
    && (forall i :: 0 <= i < |v| ==> !IsSpace(v[i]) && v[i] != '>')
    && (v != "" ==> v[0] != '"' && v[0] != '\'')
  }

  predicate PartOk(p: Part) {
    match p
    case Letter(c) => c != '>' && c != '='
    case Quoted(gap, q, v) => Spaces(gap) && (q == '"' || q == '\'') && q !in v
    case Bare(gap, v, end) => Spaces(gap) && v != "" && BareValue(v) && IsSpace(end)
  }

  function PartText(p: Part): string {
    match p
    case Letter(c) => [c]
    case Quoted(gap, q, v) => "=" + gap + [q] + v + [q]
    case Bare(gap, v, end) => "=" + gap + v + [end]
  }

  function BodyText(parts: seq<Part>): string {
    if parts == [] then "" else PartText(parts[0]) + BodyText(parts[1..])
  }

  lemma {:induction false} SpacesStay(m: Mode, gap: string)
    requires Spaces(gap)
    ensures Stays(m, Eql, gap) && Fold(Eql, gap) == Eql
  {
    if gap != "" {
      assert IsSpace(gap[0]);
      SpacesStay(m, gap[1..]);
    }
  }

  /** Inside quotes everything but the quote is text. */
  lemma {:induction false} QuotedStays(m: Mode, q: char, v: string)
    requires (q == '"' || q == '\'') && q !in v
    ensures var s := if q == '"' then DQuote else Quote; Stays(m, s, v) && Fold(s, v) == s
  {
    if v != "" {
      assert v[0] in v;
      QuotedStays(m, q, v[1..]);
    }
  }

  lemma {:induction false} ValueStays(m: Mode, v: string)
    requires forall i :: 0 <= i < |v| ==> !IsSpace(v[i]) && v[i] != '>'
    ensures Stays(m, Value, v) && Fold(Value, v) == Value
  {
    if v != "" {
      ValueStays(m, v[1..]);
    }
  }

  lemma OneCharacter(m: Mode, s: Status, c: char)
    requires Inside(m, Next(s, c))
    ensures Stays(m, s, [c]) && Fold(s, [c]) == Next(s, c)
  {
    assert [c][1..] == "";
  }

  /** A quoted value leads back to the tag, whatever it holds. */
  lemma QuotedValue(m: Mode, gap: string, q: char, v: string)
    requires Spaces(gap) && (q == '"' || q == '\'') && q !in v
    ensures var t := "=" + gap + [q] + v + [q]; Stays(m, Tag, t) && Fold(Tag, t) == Tag
  {
    var s := if q == '"' then DQuote else Quote;
    OneCharacter(m, Tag, '=');
    SpacesStay(m, gap);
    OneCharacter(m, Eql, q);
    QuotedStays(m, q, v);
    OneCharacter(m, s, q);
    hide Stays, Fold;
    StaysConcat(m, Tag, "=", gap);
    StaysConcat(m, Tag, "=" + gap, [q]);
    StaysConcat(m, Tag, "=" + gap + [q], v);
    StaysConcat(m, Tag, "=" + gap + [q] + v, [q]);
  }

  /** So does a bare one, at the space behind it; without a space it stays a value. */
  lemma BareValueRuns(m: Mode, gap: string, v: string)
    requires Spaces(gap) && v != "" && BareValue(v)
    ensures Stays(m, Tag, "=" + gap + v) && Fold(Tag, "=" + gap + v) == Value
  {
    OneCharacter(m, Tag, '=');
    SpacesStay(m, gap);
    FirstOfBare(v[0]);
    OneCharacter(m, Eql, v[0]);
    ValueStays(m, v[1..]);
    hide Stays, Fold, Next;
    StaysConcat(m, Tag, "=", gap);
    StaysConcat(m, Tag, "=" + gap, [v[0]]);
    StaysConcat(m, Tag, "=" + gap + [v[0]], v[1..]);
    assert "=" + gap + [v[0]] + v[1..] == "=" + gap + v;
  }

  lemma FirstOfBare(c: char)
    requires !IsSpace(c) && c != '>' && c != '"' && c != '\''
    ensures Next(Eql, c) == Value
  {
  }

  lemma PartRuns(m: Mode, p: Part)
    requires PartOk(p)
    ensures Stays(m, Tag, PartText(p)) && Fold(Tag, PartText(p)) == Tag
  {
    match p
    case Letter(c) => OneCharacter(m, Tag, c);
    case Quoted(gap, q, v) => QuotedValue(m, gap, q, v);
    case Bare(gap, v, end) =>
      BareValueRuns(m, gap, v);
      OneCharacter(m, Value, end);
      StaysConcat(m, Tag, "=" + gap + v, [end]);
  }

  lemma {:induction false} BodyRuns(m: Mode, parts: seq<Part>)
    requires forall i :: 0 <= i < |parts| ==> PartOk(parts[i])
    ensures Stays(m, Tag, BodyText(parts)) && Fold(Tag, BodyText(parts)) == Tag
  {
    hide PartText, PartOk;
    if parts != [] {
      PartRuns(m, parts[0]);
      BodyRuns(m, parts[1..]);
      StaysConcat(m, Tag, PartText(parts[0]), BodyText(parts[1..]));
    }
  }

  /** The end of a tag: nothing, or a bare value that the '>' ends. */
  datatype Last = Nothing | Dangling(gap: string, v: string)

  predicate LastOk(l: Last) {
    l.Dangling? ==> Spaces(l.gap) && BareValue(l.v)
  }

  function LastText(l: Last): string {
    if l.Nothing? then "" else "=" + l.gap + l.v
  }

  lemma LastRuns(m: Mode, l: Last)
    requires LastOk(l)
    ensures Stays(m, Tag, LastText(l)) && RealTag(Fold(Tag, LastText(l)))
  {
    if l.Dangling? {
      if l.v == "" {
        OneCharacter(m, Tag, '=');
        SpacesStay(m, l.gap);
        StaysConcat(m, Tag, "=", l.gap);
        assert "=" + l.gap + "" == "=" + l.gap;
      } else {
        BareValueRuns(m, l.gap, l.v);
      }
    }
  }

  /** A tag, from behind its '<' to its '>'. */
  function InTag(first: char, parts: seq<Part>, last: Last): (t: string)
    ensures t != "" && t[0] == first
  {
    [first] + BodyText(parts) + LastText(last)
  }

  predicate TagOk(first: char, parts: seq<Part>, last: Last) {
    && Opens(first) && LastOk(last) && (forall i :: 0 <= i < |parts| ==> PartOk(parts[i]))
    && var t := InTag(first, parts, last); t[|t| - 1] != '<'
  }

  lemma TagRuns(m: Mode, first: char, parts: seq<Part>, last: Last)
    requires TagOk(first, parts, last)
    ensures var t := InTag(first, parts, last); Stays(m, Tag0, t) && RealTag(Fold(Tag0, t))
  {
    FirstOfTag(first);
    OneCharacter(m, Tag0, first);
    BodyRuns(m, parts);
    LastRuns(m, last);
    hide Stays, Fold, Next, BodyText, LastText, PartOk, LastOk;
    StaysConcat(m, Tag0, [first], BodyText(parts));
    StaysConcat(m, Tag0, [first] + BodyText(parts), LastText(last));
  }

  lemma FirstOfTag(c: char)
    requires Opens(c)
    ensures Next(Tag0, c) == Tag
  {
  }

  /** The '<' of a tag, a comment or a declaration at the beginning of a token. */
  lemma LeftBracket(m: Mode, before: string, text: string)
    requires |text| > 1 && text[0] == '<' && (Opens(text[1]) || text[1] == '!')
    ensures Pass(m, before, Normal, text, 1) == Scan(before + "<", Tag0) && !EndsAt(m, before, Normal, text, 1)
  {
    assert Pass(m, before, Normal, text, 0) == Scan(before, Normal);
    assert Pass(m, before, Normal, text, 1) == Scan(Emit(m, before, Normal, '<'), After(Normal, text, 0));
  }

  /** Markup `t` behind a '<' that stays open up to the '>' that closes it: the token ends there, and not before. */
  lemma MarkupIsToken(m: Mode, before: string, t: string, rest: string)
    requires t != "" && (Opens(t[0]) || t[0] == '!') && Stays(m, Tag0, t) && Closes("<" + t, Fold(Tag0, t), '>')
    requires m.pre || !Hidden(Fold(Tag0, t))
    ensures var text, n := "<" + t + ">" + rest, |t| + 2;
            && Pass(m, before, Normal, text, n) == Scan(before + "<" + t + ">", Normal)
            && EndsAt(m, before, Normal, text, n) && forall j :: 0 < j < n ==> !EndsAt(m, before, Normal, text, j)
  {
    hide Pass, Emit, After, Stays, Fold, Closes, EndsAt, Opens, Hidden, Next;
    var text, k := "<" + t + ">" + rest, |t| + 1;
    assert text[0] == '<' && text[1] == t[0] && text[1..1 + |t|] == t && text[k] == '>';
    LeftBracket(m, before, text);
    InsideRun(m, before, Normal, text, 1, |t|);
    assert Pass(m, before, Normal, text, k) == Scan(before + "<" + t, Fold(Tag0, t));
    ClosingStep(m, before, t, Fold(Tag0, t), text, k);
    ClosesThere(m, before, Normal, text, k);
  }

  lemma ClosesThere(m: Mode, before: string, s: Status, text: string, k: nat)
    requires k < |text|
    ensures var sc := Pass(m, before, s, text, k);
            && Pass(m, before, s, text, k + 1) == Scan(Emit(m, sc.out, sc.status, text[k]), After(sc.status, text, k))
            && (Closes(sc.out, sc.status, text[k]) ==> EndsAt(m, before, s, text, k + 1))
  {
    hide Emit, After, Closes;
  }

  lemma ClosingStep(m: Mode, before: string, t: string, s: Status, text: string, k: nat)
    requires k < |text| && text[k] == '>' && t != "" && Closes("<" + t, s, '>') && (m.pre || !Hidden(s))
    ensures var out := before + "<" + t;
            Closes(out, s, '>') && Emit(m, out, s, '>') == out + ">" && After(s, text, k) == Normal
  {
    var out := before + "<" + t;
    assert out[|out| - 1] == t[|t| - 1] == ("<" + t)[|t|];
  }

  /** The first end is where `read_token` stops. */
  lemma FirstEnd(m: Mode, before: string, text: string, n: nat, moved: nat)
    requires 0 < n <= |text| && 0 < moved <= |text|
    requires EndsAt(m, before, Normal, text, n) && forall j :: 0 < j < n ==> !EndsAt(m, before, Normal, text, j)
    requires forall j :: 0 < j < moved ==> !EndsAt(m, before, Normal, text, j)
    requires moved < |text| ==> EndsAt(m, before, Normal, text, moved)
    ensures moved == n
  {
    hide EndsAt;
  }

  lemma NormalIsInStep(status: Status, sc: Scan, text: string, p: nat)
    requires InStep(status, sc, text, p) && sc.status == Normal
    ensures status == Normal
  {
  }

  /** A tag is one token, in every mode, whatever its quoted values hold. */
  method ReadTag(buf0: string, first: char, parts: seq<Part>, last: Last, rest: string, pre: bool, append: bool)
    returns (buf: string, moved: nat, status: Status)
    requires TagOk(first, parts, last)
    ensures var tag := "<" + InTag(first, parts, last) + ">";
            buf == (if append then buf0 else "") + tag && moved == |tag| && status == Normal
  {
    hide *;
    var t := InTag(first, parts, last);
    var text := "<" + t + ">" + rest;
    ghost var m, before := Mode(pre, append), if append then buf0 else "";
    TagCloses(m, first, parts, last);
    MarkupIsToken(m, before, t, rest);
    var r;
    buf, moved, status, r := ReadToken(buf0, text, Normal, pre, append);
    FirstEnd(m, before, text, |t| + 2, moved);
    NormalIsInStep(status, Pass(m, before, Normal, text, moved), text, moved);
    assert before + "<" + t + ">" == before + ("<" + t + ">");
  }

  lemma TagCloses(m: Mode, first: char, parts: seq<Part>, last: Last)
    requires TagOk(first, parts, last)
    ensures var t := InTag(first, parts, last);
            && Opens(t[0]) && Stays(m, Tag0, t) && Closes("<" + t, Fold(Tag0, t), '>') && !Hidden(Fold(Tag0, t))
  {
    hide Stays, Fold, BodyText, LastText, PartOk, LastOk, InTag, Hidden, Closes, Opens;
    TagRuns(m, first, parts, last);
    RealTagCloses(InTag(first, parts, last), Fold(Tag0, InTag(first, parts, last)));
  }

  lemma RealTagCloses(t: string, s: Status)
    requires t != "" && t[|t| - 1] != '<' && RealTag(s)
    ensures Closes("<" + t, s, '>') && !Hidden(s)
  {
    assert ("<" + t)[|t|] == t[|t| - 1];
  }

  // ----- comments

  predicate EndsIn(t: string, c: char) {
    t != "" && t[|t| - 1] == c
  }

  /** Two hyphens, or more, and then only white space. */
  predicate DashEnd(t: string) {
    t != "" && if IsSpace(t[|t| - 1]) then DashEnd(t[..|t| - 1]) else EndsIn(t, '-') && EndsIn(t[..|t| - 1], '-')
  }

  /** No '>' in `t` ends the comment. */
  ghost predicate Open(t: string) {
    forall k :: 0 <= k < |t| && t[k] == '>' ==> !DashEnd(t[..k])
  }

  function CommentStatus(t: string): Status {
    if EndsIn(t, '-') then if EndsIn(t[..|t| - 1], '-') then NCmnt2 else NCmnt1
    else if DashEnd(t) then NCmnt3
    else Cmnt
  }

  /** A comment goes on up to a '>' behind two hyphens. */
  lemma {:induction false} CommentGoesOn(m: Mode, t: string)
    requires m.pre && Open(t)
    ensures Stays(m, Cmnt, t) && Fold(Cmnt, t) == CommentStatus(t)
  {
    if t != "" {
      var n := |t| - 1;
      var u, c := t[..n], t[n];
      assert forall k :: 0 <= k < n ==> u[..k] == t[..k];
      CommentGoesOn(m, u);
      assert c == '>' ==> !DashEnd(u);
      CommentStep(u, c);
      assert u + [c] == t;
      OneCharacter(m, CommentStatus(u), c);
      StaysConcat(m, Cmnt, u, [c]);
      hide Stays, Fold, CommentStatus;
    }
  }

  lemma CommentStep(u: string, c: char)
    requires c == '>' ==> !DashEnd(u)
    ensures Next(CommentStatus(u), c) == CommentStatus(u + [c]) && Hidden(CommentStatus(u + [c]))
  {
    var t := u + [c];
    assert t[..|t| - 1] == u && t[|t| - 1] == c;
    assert DashEnd(t) == if IsSpace(c) then DashEnd(u) else c == '-' && EndsIn(u, '-');
    assert EndsIn(u, '-') ==> (DashEnd(u) <==> EndsIn(u[..|u| - 1], '-'));
    hide DashEnd;
  }

  /** A comment is one token, up to the first "-->" or what comes close to it. */
  method ReadComment(buf0: string, v: string, rest: string, append: bool) returns (buf: string, moved: nat, status: Status)
    requires Open(v + "--")
    ensures var comment := "<!--" + v + "-->";
            buf == (if append then buf0 else "") + comment && moved == |comment| && status == Normal
  {
    hide *;
    var t := "!--" + (v + "--");
    var text := "<" + t + ">" + rest;
    ghost var m, before := Mode(true, append), if append then buf0 else "";
    CommentCloses(m, v + "--", v);
    MarkupIsToken(m, before, t, rest);
    var r;
    buf, moved, status, r := ReadToken(buf0, text, Normal, true, append);
    FirstEnd(m, before, text, |t| + 2, moved);
    NormalIsInStep(status, Pass(m, before, Normal, text, moved), text, moved);
    assert before + "<" + t + ">" == before + ("<!--" + v + "-->");
  }

  lemma CommentCloses(m: Mode, w: string, v: string)
    requires m.pre && w == v + "--" && Open(w)
    ensures var t := "!--" + w;
            t[0] == '!' && Stays(m, Tag0, t) && Closes("<" + t, Fold(Tag0, t), '>')
  {
    CommentGoesOn(m, w);
    assert w[|w| - 1] == '-' && w[..|w| - 1] == v + "-";
    OneCharacter(m, Tag0, '!');
    OneCharacter(m, Cmnt1, '-');
    OneCharacter(m, Cmnt2, '-');
    hide Stays, Fold, Open;
    StaysConcat(m, Tag0, "!", "-");
    StaysConcat(m, Tag0, "!" + "-", "-");
    assert "!" + "-" + "-" == "!--";
    StaysConcat(m, Tag0, "!--", w);
  }

  // ----- declarations and entities

  /** A declaration goes on up to its '>'. */
  lemma {:induction false} DeclarationStays(m: Mode, t: string)
    requires m.pre && '>' !in t
    ensures Stays(m, IrrTag, t) && Fold(IrrTag, t) == IrrTag
  {
    if t != "" {
      assert t[0] in t;
      DeclarationStays(m, t[1..]);
    }
  }

  /** It is one token, too. */
  method ReadDeclaration(buf0: string, c: char, t: string, rest: string, append: bool) returns (buf: string, moved: nat, status: Status)
    requires c != '-' && c != '>' && '>' !in t
    ensures var declaration := "<!" + [c] + t + ">";
            buf == (if append then buf0 else "") + declaration && moved == |declaration| && status == Normal
  {
    hide *;
    var w := "!" + [c] + t;
    var text := "<" + w + ">" + rest;
    ghost var m, before := Mode(true, append), if append then buf0 else "";
    DeclarationCloses(m, c, t);
    MarkupIsToken(m, before, w, rest);
    var r;
    buf, moved, status, r := ReadToken(buf0, text, Normal, true, append);
    FirstEnd(m, before, text, |w| + 2, moved);
    NormalIsInStep(status, Pass(m, before, Normal, text, moved), text, moved);
    assert before + "<" + w + ">" == before + ("<!" + [c] + t + ">");
  }

  lemma DeclarationCloses(m: Mode, c: char, t: string)
    requires m.pre && c != '-' && c != '>' && '>' !in t
    ensures var w := "!" + [c] + t; w[0] == '!' && Stays(m, Tag0, w) && Closes("<" + w, Fold(Tag0, w), '>')
  {
    DeclarationStays(m, t);
    OneCharacter(m, Tag0, '!');
    OneCharacter(m, Cmnt1, c);
    hide Stays, Fold;
    StaysConcat(m, Tag0, "!", [c]);
    StaysConcat(m, Tag0, "!" + [c], t);
  }

  /** A '<' in front of anything else is text. */
  lemma LiteralBracket(m: Mode, before: string, text: string)
    requires |text| > 1 && text[0] == '<' && !Opens(text[1]) && text[1] != '!'
    ensures Pass(m, before, Normal, text, 1) == Scan(before + "<", Normal)
  {
    assert Pass(m, before, Normal, text, 0) == Scan(before, Normal);
    assert Pass(m, before, Normal, text, 1) == Scan(Emit(m, before, Normal, '<'), After(Normal, text, 0));
  }

  /** An entity goes on through letters, digits, '#' and '_', and ends at ';'. */
  lemma {:induction false} EntityRuns(name: string)
    requires forall i :: 0 <= i < |name| ==> IsAlnum(name[i]) || name[i] == '#' || name[i] == '_'
    ensures Fold(Amp, name) == Amp && Fold(Normal, "&" + name) == Amp && Fold(Normal, "&" + name + ";") == Normal
  {
    if name != "" {
      EntityRuns(name[1..]);
    }
    assert ("&" + name)[1..] == name;
    FoldAppend(Normal, "&" + name, ';');
  }

  // ----- plain text

  /** Outside `pre` mode white space becomes blanks. */
  function Face(m: Mode, t: string): (r: string)
    ensures |r| == |t| && forall i :: 0 <= i < |t| ==> r[i] == if !m.pre && IsSpace(t[i]) then ' ' else t[i]
  {
    if m.pre then t else seq(|t|, i requires 0 <= i < |t| => if IsSpace(t[i]) then ' ' else t[i])
  }

  lemma {:induction false} TextPasses(m: Mode, before: string, text: string, k: nat)
    requires k <= |text| && forall i :: 0 <= i < k ==> text[i] != '<'
    ensures var sc := Pass(m, before, Normal, text, k); sc.status in {Normal, Amp} && sc.out == before + Face(m, text[..k])
    ensures forall j :: 0 < j < k ==> !EndsAt(m, before, Normal, text, j)
    ensures 0 < k < |text| ==> (EndsAt(m, before, Normal, text, k) <==> text[k] == '<')
  {
    hide Pass, EndsAt, Face;
    if k == 0 {
      NothingPassed(m, before, text);
    } else {
      TextPasses(m, before, text, k - 1);
      TextStep(m, before, text, k);
      OneFurther(m, before, text, k);
    }
  }

  lemma NothingPassed(m: Mode, before: string, text: string)
    ensures Pass(m, before, Normal, text, 0) == Scan(before + Face(m, text[..0]), Normal)
  {
    assert text[..0] == "" && Face(m, "") == "" && before + "" == before;
  }

  lemma OneFurther(m: Mode, before: string, text: string, k: nat)
    requires 0 < k <= |text|
    ensures before + Face(m, text[..k - 1]) + Face(m, [text[k - 1]]) == before + Face(m, text[..k])
  {
    assert text[..k] == text[..k - 1] + [text[k - 1]];
    hide Face;
    assert Face(m, text[..k]) == Face(m, text[..k - 1]) + Face(m, [text[k - 1]]);
  }

  lemma TextStep(m: Mode, before: string, text: string, k: nat)
    requires 0 < k <= |text| && text[k - 1] != '<'
    requires Pass(m, before, Normal, text, k - 1).status in {Normal, Amp}
    ensures var sc, sc' := Pass(m, before, Normal, text, k - 1), Pass(m, before, Normal, text, k);
            sc'.status in {Normal, Amp} && sc'.out == sc.out + Face(m, [text[k - 1]])
    ensures k < |text| ==> (EndsAt(m, before, Normal, text, k) <==> text[k] == '<')
  {
    hide Pass, Emit, After, Face, Closes;
    var sc := Pass(m, before, Normal, text, k - 1);
    TextCharacter(m, sc.out, sc.status, text, k - 1);
    ClosesThere(m, before, Normal, text, k - 1);
  }

  lemma TextCharacter(m: Mode, out: string, s: Status, text: string, p: nat)
    requires p < |text| && text[p] != '<' && s in {Normal, Amp}
    ensures After(s, text, p) in {Normal, Amp} && !Closes(out, s, text[p])
    ensures Emit(m, out, s, text[p]) == out + Face(m, [text[p]])
  {
    assert Face(m, [text[p]]) == [if !m.pre && IsSpace(text[p]) then ' ' else text[p]];
  }

  /** Plain text up to a '<' is one token, in every mode. */
  method ReadText(buf0: string, t: string, rest: string, pre: bool, append: bool) returns (buf: string, moved: nat, status: Status)
    requires t != "" && '<' !in t
    ensures |buf| == (if append then |buf0| else 0) + |t| && moved == |t| && status == Normal
    ensures buf[..|buf| - |t|] == if append then buf0 else ""
    ensures forall i :: 0 <= i < |t| ==> buf[|buf| - |t| + i] == if !pre && IsSpace(t[i]) then ' ' else t[i]
  {
    hide *;
    var text := t + "<" + rest;
    ghost var m, before, n := Mode(pre, append), if append then buf0 else "", |t|;
    assert text[..n] == t && text[n] == '<';
    TextPasses(m, before, text, n);
    var r;
    buf, moved, status, r := ReadToken(buf0, text, Normal, pre, append);
    FirstEnd(m, before, text, n, moved);
  }
}
