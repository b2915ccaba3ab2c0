/**
Re-rendering one line of a form field (w3m/form.c, `form_update_line`).
*/
module Forms {

  // ----- the text of a field

  /** How the terminal classifies a character of the form value. */
  datatype Kind = Control | Unknown | Plain(ctype: nat)

  /** One character of the value: its bytes, its class, and the columns it takes. */
  datatype Ch = Ch(bytes: seq<char>, kind: Kind, width: nat)

  type Text = s: seq<Ch> | forall i :: 0 <= i < |s| ==> |s[i].bytes| >= 1 witness []

  /** `Lineprop`: the effect bits, the character class, and whether the byte continues a character. */
  datatype Prop = Prop(effect: nat, ctype: nat, continues: bool)

  const PC_ASCII: nat := 0

  datatype Cell = Cell(c: char, prop: Prop)

  /** The arguments that stay fixed while one line of a field is rendered. */
  datatype Style = Style(width: nat, newline: bool, password: bool, effect: nat)

  function Blank(c: char, st: Style): Cell {
    Cell(c, Prop(st.effect, PC_ASCII, false))
  }

  function Repeat(c: Cell, n: nat): (r: seq<Cell>)
    ensures |r| == n && forall i :: 0 <= i < n ==> r[i] == c
  {
    seq(n, _ => c)
  }

  function Bytes(ch: Ch, st: Style): (r: seq<Cell>)
    requires ch.kind.Plain?
    ensures |r| == |ch.bytes|
  {
    seq(|ch.bytes|, i requires 0 <= i < |ch.bytes| => Cell(ch.bytes[i], Prop(st.effect, ch.kind.ctype, i > 0)))
  }

  /** The rendering stops in front of this character. */
  predicate Stops(ch: Ch, w: nat, st: Style)
    requires |ch.bytes| >= 1
  {
    match ch.kind
    case Control => st.newline && ch.bytes[0] == '\n'
    case Unknown => st.password && w + ch.width > st.width
    case Plain(_) => w + ch.width > st.width
  }

  /** What one character puts on the line. */
  function Cells(ch: Ch, st: Style): seq<Cell>
    requires |ch.bytes| >= 1
  {
    match ch.kind
    case Control => if ch.bytes[0] == '\r' then [] else [Blank(if st.password then '*' else ' ', st)]
    case Unknown => if st.password then Repeat(Blank('*', st), ch.width) else [Blank(' ', st)]
    case Plain(_) => if st.password then Repeat(Blank('*', st), ch.width) else Bytes(ch, st)
  }

  /** The columns one character takes. */
  function Columns(ch: Ch, st: Style): nat
    requires |ch.bytes| >= 1
  {
    match ch.kind
    case Control => if ch.bytes[0] == '\r' then 0 else 1
    case Unknown => if st.password then ch.width else 1
    case Plain(_) => ch.width
  }

  /** The cells of the characters from `p` on, `w` columns being taken already. */
  function Rendered(str: Text, p: nat, w: nat, st: Style): seq<Cell>
    requires p <= |str|
    decreases |str| - p
  {
    if p == |str| || w >= st.width || Stops(str[p], w, st) then []
    else Cells(str[p], st) + Rendered(str, p + 1, w + Columns(str[p], st), st)
  }

  /** Where the rendering from `p` stops, and how many columns it has then taken. */
  function StopsAt(str: Text, p: nat, w: nat, st: Style): (r: (nat, nat))
    requires p <= |str|
    ensures p <= r.0 <= |str| && (w <= st.width ==> r.1 <= st.width)
    decreases |str| - p
  {
    if p == |str| || w >= st.width || Stops(str[p], w, st) then (p, w)
    else StopsAt(str, p + 1, w + Columns(str[p], st), st)
  }

  /** The whole field: the rendered value, padded to the width. */
  function Field(str: Text, p: nat, st: Style): seq<Cell>
    requires p <= |str|
  {
    Rendered(str, p, 0, st) + Repeat(Blank(' ', st), st.width - StopsAt(str, p, 0, st).1)
  }

  // ----- what a field shows

  /** A password leaves stars only, one for every column that it takes. */
  lemma {:induction false} PasswordIsStars(str: Text, p: nat, w: nat, st: Style)
    requires p <= |str| && st.password
    ensures forall i :: 0 <= i < |Rendered(str, p, w, st)| ==> Rendered(str, p, w, st)[i] == Cell('*', Prop(st.effect, PC_ASCII, false))
    ensures w + |Rendered(str, p, w, st)| == StopsAt(str, p, w, st).1
    decreases |str| - p
  {
    if p < |str| && w < st.width && !Stops(str[p], w, st) {
      PasswordIsStars(str, p + 1, w + Columns(str[p], st), st);
    }
  }

  /** The field of a password is as long as it is wide: stars, then blanks. */
  lemma PasswordIsHidden(str: Text, p: nat, st: Style)
    requires p <= |str| && st.password
    ensures var field, n := Field(str, p, st), StopsAt(str, p, 0, st).1;
            n <= st.width == |field| && forall i :: 0 <= i < |field| ==>
              field[i] == Cell(if i < n then '*' else ' ', Prop(st.effect, PC_ASCII, false))
  {
    PasswordIsStars(str, p, 0, st);
  }

  /** Characters that take up their own width. */
  predicate AllSized(str: Text, st: Style) {
    forall i :: 0 <= i < |str| ==> str[i].kind.Plain? || (st.password && str[i].kind == Unknown)
  }

  predicate AllPlain(str: Text) {
    forall i :: 0 <= i < |str| ==> str[i].kind.Plain?
  }

  /** The columns of the characters from `p` up to `q`. */
  function Widths(str: Text, p: nat, q: nat): nat
    requires p <= q <= |str|
    decreases q - p
  {
    if p == q then 0 else str[p].width + Widths(str, p + 1, q)
  }

  /** Their bytes. */
  function TextOf(str: Text, p: nat, q: nat): seq<char>
    requires p <= q <= |str|
    decreases q - p
  {
    if p == q then [] else str[p].bytes + TextOf(str, p + 1, q)
  }

  /** How many cells start a character. */
  function Starts(cells: seq<Cell>): nat {
    if cells == [] then 0 else (if cells[0].prop.continues then 0 else 1) + Starts(cells[1..])
  }

  lemma {:induction false} StartsConcat(a: seq<Cell>, b: seq<Cell>)
    ensures Starts(a + b) == Starts(a) + Starts(b)
  {
    if a == [] {
      assert a + b == b;
    } else {
      assert (a + b)[1..] == a[1..] + b;
      StartsConcat(a[1..], b);
    }
  }

  lemma {:induction false} NoStarts(cells: seq<Cell>)
    requires forall i :: 0 <= i < |cells| ==> cells[i].prop.continues
    ensures Starts(cells) == 0
  {
    if cells != [] {
      NoStarts(cells[1..]);
    }
  }

  /** Of such characters, those are shown that fit: as many as there are, or as fill the width, or all but one too wide. */
  lemma {:induction false} SizedThatFit(str: Text, p: nat, w: nat, st: Style)
    requires p <= |str| && AllSized(str, st) && w <= st.width
    ensures var (q, taken) := StopsAt(str, p, w, st);
            && taken == w + Widths(str, p, q) <= st.width
            && (q == |str| || taken == st.width || taken + str[q].width > st.width)
    decreases |str| - p
  {
    if p < |str| && w < st.width && !Stops(str[p], w, st) {
      SizedThatFit(str, p + 1, w + Columns(str[p], st), st);
    }
  }

  /** They are shown byte for byte, every one as one character. */
  lemma {:induction false} PlainIsShown(str: Text, p: nat, w: nat, st: Style)
    requires p <= |str| && AllPlain(str) && !st.password
    ensures Chars(Rendered(str, p, w, st)) == TextOf(str, p, StopsAt(str, p, w, st).0)
    ensures Starts(Rendered(str, p, w, st)) == StopsAt(str, p, w, st).0 - p
    decreases |str| - p
  {
    if p < |str| && w < st.width && !Stops(str[p], w, st) {
      var rest := Rendered(str, p + 1, w + Columns(str[p], st), st);
      RenderedUnfolds(str, p, w, st);
      PlainIsShown(str, p + 1, w + Columns(str[p], st), st);
      OnePlain(str[p], st, rest);
      hide Rendered, StopsAt, Cells, Columns, Chars, Starts;
    } else {
      RenderedEnds(str, p, w, st);
    }
  }

  lemma OnePlain(ch: Ch, st: Style, rest: seq<Cell>)
    requires ch.kind.Plain? && !st.password && |ch.bytes| >= 1
    ensures Chars(Cells(ch, st) + rest) == ch.bytes + Chars(rest) && Starts(Cells(ch, st) + rest) == 1 + Starts(rest)
  {
    var bytes := Bytes(ch, st);
    assert Chars(bytes + rest) == Chars(bytes) + Chars(rest) && Chars(bytes) == ch.bytes;
    StartsConcat(bytes, rest);
    NoStarts(bytes[1..]);
  }

  /** Their cells have their class. */
  lemma {:induction false} ClassIsKept(str: Text, p: nat, w: nat, st: Style, ctype: nat)
    requires p <= |str| && !st.password && forall i :: 0 <= i < |str| ==> str[i].kind == Plain(ctype)
    ensures forall i :: 0 <= i < |Rendered(str, p, w, st)| ==> Rendered(str, p, w, st)[i].prop.ctype == ctype
    decreases |str| - p
  {
    if p < |str| && w < st.width && !Stops(str[p], w, st) {
      ClassIsKept(str, p + 1, w + Columns(str[p], st), st, ctype);
    }
  }

  /** The text of a field of plain characters: those that fit, then blanks. */
  lemma PlainFieldShows(str: Text, p: nat, st: Style)
    requires p <= |str| && AllPlain(str) && !st.password
    ensures var (q, taken) := StopsAt(str, p, 0, st);
            Widths(str, p, q) <= st.width && Chars(Field(str, p, st)) == TextOf(str, p, q) + Spaces(st.width - Widths(str, p, q))
  {
    SizedThatFit(str, p, 0, st);
    PlainIsShown(str, p, 0, st);
    var a, b := Rendered(str, p, 0, st), Repeat(Blank(' ', st), st.width - StopsAt(str, p, 0, st).1);
    assert Chars(a + b) == Chars(a) + Chars(b) && Chars(b) == Spaces(|b|);
  }

  function Spaces(n: nat): (r: seq<char>)
    ensures |r| == n && forall i :: 0 <= i < n ==> r[i] == ' '
  {
    seq(n, _ => ' ')
  }

  /** Carriage returns among the characters from `p` up to `q`. */
  function Returns(str: Text, p: nat, q: nat): nat
    requires p <= q <= |str|
    decreases q - p
  {
    if p == q then 0 else (if str[p].kind == Control && str[p].bytes[0] == '\r' then 1 else 0) + Returns(str, p + 1, q)
  }

  /** What cannot be displayed shows as one blank each, a carriage return as nothing; a line feed ends the line of a text area. */
  lemma {:induction false} OthersAreBlank(str: Text, p: nat, w: nat, st: Style)
    requires p <= |str| && !st.password && w <= st.width && forall i :: 0 <= i < |str| ==> !str[i].kind.Plain?
    ensures forall i :: 0 <= i < |Rendered(str, p, w, st)| ==> Rendered(str, p, w, st)[i] == Cell(' ', Prop(st.effect, PC_ASCII, false))
    ensures var (q, taken) := StopsAt(str, p, w, st);
            && |Rendered(str, p, w, st)| == taken - w == q - p - Returns(str, p, q)
            && (q == |str| || taken == st.width || (st.newline && str[q].kind == Control && str[q].bytes[0] == '\n'))
    decreases |str| - p
  {
    if p < |str| && w < st.width && !Stops(str[p], w, st) {
      OthersAreBlank(str, p + 1, w + Columns(str[p], st), st);
    }
  }

  /** The whole field has the effect of the style. */
  lemma {:induction false} EffectIsKept(str: Text, p: nat, w: nat, st: Style)
    requires p <= |str|
    ensures forall i :: 0 <= i < |Rendered(str, p, w, st)| ==> Rendered(str, p, w, st)[i].prop.effect == st.effect
    decreases |str| - p
  {
    if p < |str| && w < st.width && !Stops(str[p], w, st) {
      EffectIsKept(str, p + 1, w + Columns(str[p], st), st);
    }
  }

  // ----- the two passes

  lemma RenderedUnfolds(str: Text, p: nat, w: nat, st: Style)
    requires p < |str| && w < st.width && !Stops(str[p], w, st)
    ensures Rendered(str, p, w, st) == Cells(str[p], st) + Rendered(str, p + 1, w + Columns(str[p], st), st)
    ensures StopsAt(str, p, w, st) == StopsAt(str, p + 1, w + Columns(str[p], st), st)
  {
  }

  lemma RenderedEnds(str: Text, p: nat, w: nat, st: Style)
    requires p <= |str| && (p == |str| || w >= st.width || Stops(str[p], w, st))
    ensures Rendered(str, p, w, st) == [] && StopsAt(str, p, w, st) == (p, w)
  {
  }

  /** The sizing pass. */
  method SizeField(str: Text, p0: nat, st: Style) returns (pos: nat)
    requires p0 <= |str|
    ensures pos == |Field(str, p0, st)|
  {
    hide Rendered, StopsAt;
    var p, w: nat := p0, 0;
    pos := 0;
    while p < |str| && w < st.width
      invariant p0 <= p <= |str| && w <= st.width
      invariant pos + |Rendered(str, p, w, st)| == |Rendered(str, p0, 0, st)|
      invariant StopsAt(str, p, w, st) == StopsAt(str, p0, 0, st)
    {
      var ch := str[p];
      ghost var w0, pos0 := w, pos;
      if ch.kind == Control {
        if st.newline && ch.bytes[0] == '\n' {
          break;
        }
        if ch.bytes[0] != '\r' {
          w, pos := w + 1, pos + 1;
        }
      } else if st.password {
        if w + ch.width > st.width {
          break;
        }
        w, pos := w + ch.width, pos + ch.width;
      } else if ch.kind == Unknown {
        w, pos := w + 1, pos + 1;
      } else {
        if w + ch.width > st.width {
          break;
        }
        w, pos := w + ch.width, pos + |ch.bytes|;
      }
      assert !Stops(ch, w0, st) && w == w0 + Columns(ch, st) && pos == pos0 + |Cells(ch, st)|;
      RenderedUnfolds(str, p, w0, st);
      p := p + 1;
    }
    RenderedEnds(str, p, w, st);
    pos := pos + st.width - w;
  }

  /** `buf` and `prop` hold `cells` from index `at` on. */
  ghost predicate Holds(buf: seq<char>, prop: seq<Prop>, at: nat, cells: seq<Cell>) {
    && at + |cells| <= |buf| == |prop|
    && forall i :: at <= i < at + |cells| ==> Cell(buf[i], prop[i]) == cells[i - at]
  }

  /** `n` cells of the same blank, as the password, control, unknown and padding branches write them. */
  method WriteBlanks(buf: array<char>, prop: array<Prop>, at: nat, n: nat, c: char, st: Style)
    requires at + n <= buf.Length == prop.Length
    modifies buf, prop
    ensures Holds(buf[..], prop[..], at, Repeat(Blank(c, st), n))
    ensures buf[..at] == old(buf[..at]) && prop[..at] == old(prop[..at])
  {
    for k := 0 to n
      invariant forall i :: at <= i < at + k ==> Cell(buf[i], prop[i]) == Blank(c, st)
      invariant buf[..at] == old(buf[..at]) && prop[..at] == old(prop[..at])
    {
      buf[at + k], prop[at + k] := c, Prop(st.effect, PC_ASCII, false);
    }
  }

  /** A plain character: its first byte, then the bytes that continue it. */
  method WriteBytes(buf: array<char>, prop: array<Prop>, at: nat, ch: Ch, st: Style)
    requires ch.kind.Plain? && |ch.bytes| >= 1 && at + |ch.bytes| <= buf.Length == prop.Length
    modifies buf, prop
    ensures Holds(buf[..], prop[..], at, Bytes(ch, st))
    ensures buf[..at] == old(buf[..at]) && prop[..at] == old(prop[..at])
  {
    buf[at], prop[at] := ch.bytes[0], Prop(st.effect, ch.kind.ctype, false);
    for k := 1 to |ch.bytes|
      invariant forall i :: at <= i < at + k ==> Cell(buf[i], prop[i]) == Bytes(ch, st)[i - at]
      invariant buf[..at] == old(buf[..at]) && prop[..at] == old(prop[..at])
    {
      buf[at + k], prop[at + k] := ch.bytes[k], Prop(st.effect, ch.kind.ctype, true);
    }
  }

  /** The branches of the writing pass for one character that fits. */
  method WriteChar(buf: array<char>, prop: array<Prop>, at: nat, ch: Ch, w: nat, st: Style) returns (pos: nat, w': nat)
    requires |ch.bytes| >= 1 && !Stops(ch, w, st) && at + |Cells(ch, st)| <= buf.Length == prop.Length
    modifies buf, prop
    ensures pos == at + |Cells(ch, st)| && w' == w + Columns(ch, st)
    ensures Holds(buf[..], prop[..], at, Cells(ch, st))
    ensures buf[..at] == old(buf[..at]) && prop[..at] == old(prop[..at])
  {
    pos, w' := at, w;
    if ch.kind == Control {
      if ch.bytes[0] != '\r' {
        WriteBlanks(buf, prop, at, 1, if st.password then '*' else ' ', st);
        pos, w' := at + 1, w + 1;
      }
    } else if st.password {
      WriteBlanks(buf, prop, at, ch.width, '*', st);
      pos, w' := at + ch.width, w + ch.width;
    } else if ch.kind == Unknown {
      WriteBlanks(buf, prop, at, 1, ' ', st);
      pos, w' := at + 1, w + 1;
    } else {
      WriteBytes(buf, prop, at, ch, st);
      pos, w' := at + |ch.bytes|, w + ch.width;
    }
  }

  lemma HoldsMore(buf: seq<char>, prop: seq<Prop>, buf': seq<char>, prop': seq<Prop>, at: nat, done: seq<Cell>, cells: seq<Cell>)
    requires Holds(buf, prop, at, done) && Holds(buf', prop', at + |done|, cells)
    requires |buf| == |prop| && buf'[..at + |done|] == buf[..at + |done|] && prop'[..at + |done|] == prop[..at + |done|]
    ensures Holds(buf', prop', at, done + cells)
  {
    var n := at + |done|;
    forall i | at <= i < at + |done + cells|
      ensures Cell(buf'[i], prop'[i]) == (done + cells)[i - at]
    {
      if i < n {
        assert buf'[i] == buf'[..n][i] == buf[i] && prop'[i] == prop'[..n][i] == prop[i];
      }
    }
  }

  /** The writing pass: the value and the padding, from `spos` on. */
  method WriteField(buf: array<char>, prop: array<Prop>, str: Text, p0: nat, spos: nat, st: Style) returns (pos: nat, p: nat)
    requires p0 <= |str| && spos + |Field(str, p0, st)| <= buf.Length == prop.Length
    modifies buf, prop
    ensures pos == spos + |Field(str, p0, st)| && p == StopsAt(str, p0, 0, st).0
    ensures Holds(buf[..], prop[..], spos, Field(str, p0, st))
    ensures buf[..spos] == old(buf[..spos]) && prop[..spos] == old(prop[..spos])
  {
    ghost var all, len := Rendered(str, p0, 0, st), |Field(str, p0, st)|;
    var w: nat;
    ghost var done;
    p, pos, w, done := WriteValue(buf, prop, str, p0, spos, st);
    ghost var b, pr := buf[..], prop[..];
    WriteBlanks(buf, prop, pos, st.width - w, ' ', st);
    HoldsMore(b, pr, buf[..], prop[..], spos, all, Repeat(Blank(' ', st), st.width - w));
    assert buf[..spos] == buf[..pos][..spos] && prop[..spos] == prop[..pos][..spos];
    pos := pos + (st.width - w);
  }

  /** One character more, behind the cells already written. */
  method WriteNext(buf: array<char>, prop: array<Prop>, at: nat, ch: Ch, w: nat, st: Style, ghost spos: nat, ghost done: seq<Cell>)
    returns (pos: nat, w': nat)
    requires |ch.bytes| >= 1 && !Stops(ch, w, st) && at + |Cells(ch, st)| <= buf.Length == prop.Length
    requires at == spos + |done| && Holds(buf[..], prop[..], spos, done)
    modifies buf, prop
    ensures pos == at + |Cells(ch, st)| && w' == w + Columns(ch, st)
    ensures Holds(buf[..], prop[..], spos, done + Cells(ch, st))
    ensures buf[..spos] == old(buf[..spos]) && prop[..spos] == old(prop[..spos])
  {
    hide *;
    ghost var b, pr := buf[..], prop[..];
    assert b[..at] == buf[..at] && pr[..at] == prop[..at];
    pos, w' := WriteChar(buf, prop, at, ch, w, st);
    assert buf[..][..at] == buf[..at] && prop[..][..at] == prop[..at];
    HoldsMore(b, pr, buf[..], prop[..], spos, done, Cells(ch, st));
    assert buf[..spos] == buf[..at][..spos] && prop[..spos] == prop[..at][..spos];
    assert b[..spos] == b[..at][..spos] && pr[..spos] == pr[..at][..spos];
  }

  method WriteValue(buf: array<char>, prop: array<Prop>, str: Text, p0: nat, spos: nat, st: Style)
    returns (p: nat, pos: nat, w: nat, ghost done: seq<Cell>)
    requires p0 <= |str| && spos + |Rendered(str, p0, 0, st)| <= buf.Length == prop.Length
    modifies buf, prop
    ensures done == Rendered(str, p0, 0, st) && (p, w) == StopsAt(str, p0, 0, st) && pos == spos + |done|
    ensures Holds(buf[..], prop[..], spos, done)
    ensures buf[..spos] == old(buf[..spos]) && prop[..spos] == old(prop[..spos])
  {
    hide Cells, Columns, Holds;
    p, pos, w, done := p0, spos, 0, [];
    ghost var all := Rendered(str, p0, 0, st);
    HoldsNothing(buf[..], prop[..], spos);
    while p < |str| && w < st.width && !Stops(str[p], w, st)
      invariant p0 <= p <= |str| && pos == spos + |done|
      invariant done + Rendered(str, p, w, st) == all
      invariant StopsAt(str, p, w, st) == StopsAt(str, p0, 0, st)
      invariant Holds(buf[..], prop[..], spos, done)
      invariant buf[..spos] == old(buf[..spos]) && prop[..spos] == old(prop[..spos])
      decreases |str| - p
    {
      RenderedUnfolds(str, p, w, st);
      ghost var cells, rest := Cells(str[p], st), Rendered(str, p + 1, w + Columns(str[p], st), st);
      assert done + (cells + rest) == (done + cells) + rest;
      pos, w := WriteNext(buf, prop, pos, str[p], w, st, spos, done);
      done := done + cells;
      p := p + 1;
    }
  }

  lemma HoldsNothing(buf: seq<char>, prop: seq<Prop>, at: nat)
    requires at <= |buf| == |prop|
    ensures Holds(buf, prop, at, [])
  {
  }

  // ----- a line and its replacement

  class Line {
    var text: seq<char>
    var props: seq<Prop>

    constructor (text: seq<char>, props: seq<Prop>)
      ensures this.text == text && this.props == props
    {
      this.text, this.props := text, props;
    }
  }

  ghost function Chars(cells: seq<Cell>): (s: seq<char>)
    ensures |s| == |cells| && forall i :: 0 <= i < |s| ==> s[i] == cells[i].c
  {
    seq(|cells|, i requires 0 <= i < |cells| => cells[i].c)
  }

  ghost function Props(cells: seq<Cell>): (s: seq<Prop>)
    ensures |s| == |cells| && forall i :: 0 <= i < |s| ==> s[i] == cells[i].prop
  {
    seq(|cells|, i requires 0 <= i < |cells| => cells[i].prop)
  }

  predicate IsByte(str: Text, p: nat, c: char) {
    p < |str| && str[p].bytes[0] == c
  }

  /** The first line end from `p` on, or the end of the value. */
  function LineEnd(str: Text, p: nat): (q: nat)
    requires p <= |str|
    ensures p <= q <= |str| && (q < |str| ==> IsByte(str, q, '\r') || IsByte(str, q, '\n'))
    ensures forall k :: p <= k < q ==> !IsByte(str, k, '\r') && !IsByte(str, k, '\n')
    decreases |str| - p
  {
    if p == |str| || IsByte(str, p, '\r') || IsByte(str, p, '\n') then p else LineEnd(str, p + 1)
  }

  /** Where the next line of a text area continues in the value. */
  function NextStart(str: Text, p: nat, newline: bool, fold: bool): (q: nat)
    requires p <= |str|
    ensures p <= q <= |str|
  {
    if !newline then p
    else
      var q := if fold then p else LineEnd(str, p);
      var q' := if IsByte(str, q, '\r') then q + 1 else q;
      if IsByte(str, q', '\n') then q' + 1 else q'
  }

  /** It is right behind the line end: one LF, CR or CRLF, the first from `p` on unless lines are folded. */
  lemma NextStartIsBehindLineEnd(str: Text, p: nat, fold: bool)
    requires p <= |str|
    ensures var e, q := if fold then p else LineEnd(str, p), NextStart(str, p, true, fold);
            q == e + if IsByte(str, e, '\n') then 1 else if !IsByte(str, e, '\r') then 0 else if IsByte(str, e + 1, '\n') then 2 else 1
    ensures !fold && NextStart(str, p, true, fold) < |str| ==>
      var q := NextStart(str, p, true, fold); q > p && (IsByte(str, q - 1, '\n') || IsByte(str, q - 1, '\r'))
  {
  }

  method SkipLineEnd(str: Text, p0: nat, newline: bool, fold: bool) returns (p: nat)
    requires p0 <= |str|
    ensures p == NextStart(str, p0, newline, fold)
  {
    p := p0;
    if newline {
      if !fold {
        while p < |str| && !IsByte(str, p, '\r') && !IsByte(str, p, '\n')
          invariant p <= |str| && LineEnd(str, p) == LineEnd(str, p0)
        {
          p := p + 1;
        }
      }
      if IsByte(str, p, '\r') {
        p := p + 1;
      }
      if IsByte(str, p, '\n') {
        p := p + 1;
      }
    }
  }

  method CopyInto<T>(from: seq<T>, buf: array<T>, at: nat)
    requires at + |from| <= buf.Length
    modifies buf
    ensures buf[at..at + |from|] == from && buf[..at] == old(buf[..at])
  {
    for i := 0 to |from|
      invariant forall k :: at <= k < at + i ==> buf[k] == from[k - at]
      invariant buf[..at] == old(buf[..at])
    {
      buf[at + i] := from[i];
    }
  }

  lemma HeldAs(buf: seq<char>, prop: seq<Prop>, at: nat, cells: seq<Cell>)
    requires Holds(buf, prop, at, cells)
    ensures buf[at..at + |cells|] == Chars(cells) && prop[at..at + |cells|] == Props(cells)
  {
  }

  method AppendTail<T>(buf: array<T>, ghost head: seq<T>, ghost field: seq<T>, tail: seq<T>)
    requires buf.Length == |head| + |field| + |tail|
    requires buf[..|head|] == head && buf[|head|..|head| + |field|] == field
    modifies buf
    ensures buf[..] == head + field + tail
  {
    var pos := buf.Length - |tail|;
    assert buf[..pos] == head + field;
    CopyInto(tail, buf, pos);
    assert buf[..] == buf[..pos] + buf[pos..pos + |tail|];
  }

  /** Both buffers, filled: what precedes the field, the field, and what follows it. */
  method Compose(text: seq<char>, props: seq<Prop>, str: Text, p0: nat, spos: nat, epos: nat, st: Style, size: nat)
    returns (buf: array<char>, prop: array<Prop>, pos: nat, p: nat)
    requires |text| == |props| && spos <= epos <= |text| && p0 <= |str| && size == |Field(str, p0, st)|
    ensures pos == spos + |Field(str, p0, st)| && p == StopsAt(str, p0, 0, st).0
    ensures fresh(buf) && buf[..] == text[..spos] + Chars(Field(str, p0, st)) + text[epos..]
    ensures fresh(prop) && prop[..] == props[..spos] + Props(Field(str, p0, st)) + props[epos..]
  {
    hide *;
    ghost var cells := Field(str, p0, st);
    var len := |text| + size + spos - epos;
    buf := new char[len](_ => ' ');
    prop := new Prop[len](_ => Prop(0, 0, false));
    CopyInto(text[..spos], buf, 0);
    CopyInto(props[..spos], prop, 0);
    pos, p := WriteField(buf, prop, str, p0, spos, st);
    HeldAs(buf[..], prop[..], spos, cells);
    assert buf[..][spos..pos] == buf[spos..pos] && prop[..][spos..pos] == prop[spos..pos];
    AppendTail(buf, text[..spos], Chars(cells), text[epos..]);
    AppendTail(prop, props[..spos], Props(cells), props[epos..]);
  }

  /**
  `form_update_line`. The two passes agree, since every write of the second falls inside the
  buffers sized by the first and fills them; only the field itself changes.
  */
  method FormUpdateLine(line: Line, str: Text, p0: nat, spos: nat, epos: nat, width: nat, newline: bool, password: bool, fold: bool)
    returns (pos: nat, p: nat)
    requires p0 <= |str| && |line.text| == |line.props| && spos <= epos <= |line.text| && spos < |line.text|
    modifies line
    ensures var cells := Field(str, p0, Style(width, newline, password, old(line.props)[spos].effect));
            && pos == spos + |cells|
            && line.text == old(line.text)[..spos] + Chars(cells) + old(line.text)[epos..]
            && line.props == old(line.props)[..spos] + Props(cells) + old(line.props)[epos..]
    ensures p == NextStart(str, StopsAt(str, p0, 0, Style(width, newline, password, old(line.props)[spos].effect)).0, newline, fold)
    ensures password ==> pos == spos + width && forall i :: spos <= i < pos ==> line.text[i] == '*' || line.text[i] == ' '
  {
    hide *;
    var st := Style(width, newline, password, line.props[spos].effect);
    var size := SizeField(str, p0, st);
    var buf, prop;
    buf, prop, pos, p := Compose(line.text, line.props, str, p0, spos, epos, st, size);
    p := SkipLineEnd(str, p, newline, fold);
    line.text, line.props := buf[..], prop[..];
    if password {
      PasswordIsHidden(str, p0, st);
      ShownInLine(line.text, Field(str, p0, st), spos);
    }
  }

  lemma ShownInLine(text: seq<char>, cells: seq<Cell>, at: nat)
    requires at + |cells| <= |text| && text[at..at + |cells|] == Chars(cells)
    ensures forall i :: at <= i < at + |cells| ==> text[i] == cells[i - at].c
  {
    assert forall i :: at <= i < at + |cells| ==> text[i] == text[at..at + |cells|][i - at];
  }
}
