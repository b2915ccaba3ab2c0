/**
The HTML token scanner (w3m/etc.c, `next_status`, `read_token`, `correct_irrtag`; states
and tag tests from w3m/fm.h, character classes from w3m/myctype.c).
*/
module Tokens {
  import opened Basics

  datatype Status =
    | Normal | Tag0 | Tag | Quote | DQuote | Eql | Amp | Eol
    | Cmnt1 | Cmnt2 | Cmnt | NCmnt1 | NCmnt2 | NCmnt3 | IrrTag | Value

  predicate IsSpace(c: char) {
    c == ' ' || '\t' <= c <= '\r'
  }

  /** Blank, tab, line feed, vertical tab, form feed and carriage return. */
  lemma WhiteSpace(c: char)
    ensures IsSpace(c) <==> c as int in {0x20, 0x09, 0x0a, 0x0b, 0x0c, 0x0d}
  {
  }

  /** `ST_IS_REAL_TAG`. */
  predicate RealTag(s: Status) {
    s == Tag || s == Tag0 || s == Eql || s == Value
  }

  /** `REALLY_THE_BEGINNING_OF_A_TAG` for the '<' at index `p`; the end of the text counts as NUL. */
  predicate ReallyTag(text: string, p: nat)
    requires p < |text|
  {
    p + 1 == |text| || IsAlpha(text[p + 1]) || text[p + 1] in {'/', '!', '?', '_'}
  }

  /** `next_status`. */
  function Next(s: Status, c: char): Status {
    match s
    case Normal => if c == '<' then Tag0 else if c == '&' then Amp else Normal
    case Tag0 => if c == '!' then Cmnt1 else if c == '>' then Normal else if c == '=' then Eql else Tag
    case Tag => if c == '>' then Normal else if c == '=' then Eql else Tag
    case Eql =>
      if c == '"' then DQuote else if c == '\'' then Quote else if IsSpace(c) then Eql
      else if c == '>' then Normal else Value
    case Quote => if c == '\'' then Tag else Quote
    case DQuote => if c == '"' then Tag else DQuote
    case Value => if c == '>' then Normal else if IsSpace(c) then Tag else Value
    case Amp => if c == ';' then Normal else if c != '#' && !IsAlnum(c) && c != '_' then Normal else Amp
    case Cmnt1 => if c == '-' then Cmnt2 else if c == '>' then Normal else IrrTag
    case Cmnt2 => if c == '-' then Cmnt else if c == '>' then Normal else IrrTag
    case Cmnt => if c == '-' then NCmnt1 else Cmnt
    case NCmnt1 => if c == '-' then NCmnt2 else Cmnt
    case NCmnt2 => if c == '>' then Normal else if c == '-' then NCmnt2 else if IsSpace(c) then NCmnt3 else Cmnt
    case NCmnt3 => if c == '>' then Normal else if c == '-' then NCmnt1 else if IsSpace(c) then NCmnt3 else Cmnt
    case IrrTag => if c == '>' then Normal else IrrTag
    case Eol => Eol
  }

  // ----- closing an open construct

  function Fold(s: Status, t: string): Status
    decreases |t|
  {
    if t == "" then s else Fold(Next(s, t[0]), t[1..])
  }

  lemma {:induction false} FoldAppend(s: Status, t: string, c: char)
    ensures Fold(s, t + [c]) == Next(Fold(s, t), c)
    decreases |t|
  {
    if t == "" {
      assert t + [c] == [c] && [c][1..] == "";
    } else {
      assert (t + [c])[1..] == t[1..] + [c];
      FoldAppend(Next(s, t[0]), t[1..], c);
    }
  }

  /** The least number of characters that leads back to normal text. */
  function Distance(s: Status): nat {
    match s
    case Normal => 0
    case Eol => 0
    case Cmnt => 3
    case NCmnt1 => 2
    case Quote => 2
    case DQuote => 2
    case _ => 1
  }

  lemma {:induction false} NothingShorter(s: Status, t: string)
    requires s != Eol && Fold(s, t) == Normal
    ensures |t| >= Distance(s)
    decreases |t|
  {
    if t != "" {
      NothingShorter(Next(s, t[0]), t[1..]);
    }
  }

  /** `correct_irrtag`: a shortest text that closes whatever is open; nothing at end of file. */
  method CorrectIrrtag(status: Status) returns (tmp: string)
    ensures status == Eol ==> tmp == ""
    ensures status != Eol ==> Fold(status, tmp) == Normal && forall t :: Fold(status, t) == Normal ==> |tmp| <= |t|
  {
    tmp := "";
    var s := status;
    while s != Normal
      invariant s == Fold(status, tmp)
      invariant status == Eol ==> s == Eol && tmp == ""
      invariant status != Eol ==> s != Eol && |tmp| + Distance(s) == Distance(status)
      decreases Distance(s)
    {
      var c;
      match s {
        case Cmnt => c := '-';
        case NCmnt1 => c := '-';
        case Quote => c := '\'';
        case DQuote => c := '"';
        case Amp => c := ';';
        case Eol => return;
        case _ => c := '>';
      }
      FoldAppend(status, tmp, c);
      s := Next(s, c);
      tmp := tmp + [c];
    }
    forall t | status != Eol && Fold(status, t) == Normal
      ensures |tmp| <= |t|
    {
      NothingShorter(status, t);
    }
  }

  // ----- what a token keeps of the text

  /** `out` is `before` followed by `text`, except that a '>' may have removed a '<' right before it. */
  ghost predicate Keeps(before: string, text: string, out: string)
    decreases |text|
  {
    if text == "" then out == before
    else
      var rest, c := text[..|text| - 1], text[|text| - 1];
      || (out != "" && out[|out| - 1] == c && Keeps(before, rest, out[..|out| - 1]))
      || (c == '>' && Keeps(before, rest, out + "<"))
  }

  lemma KeepsNothing(before: string)
    ensures Keeps(before, "", before)
  {
  }

  lemma KeepsChar(before: string, text: string, out: string, c: char)
    requires Keeps(before, text, out)
    ensures Keeps(before, text + [c], out + [c])
  {
    assert (text + [c])[..|text|] == text && (out + [c])[..|out|] == out;
  }

  lemma KeepsPair(before: string, text: string, out: string)
    requires Keeps(before, text, out) && out != "" && out[|out| - 1] == '<'
    ensures Keeps(before, text + ['>'], out[..|out| - 1])
  {
    assert (text + ['>'])[..|text|] == text;
    assert out == out[..|out| - 1] + "<";
  }

  // ----- the reference: one pass over the text, without stepping back

  /** Does an unterminated entity end in front of this character? */
  predicate EntityBreaks(c: char) {
    Next(Amp, c) == Normal && c != ';'
  }

  /** The status after one more character of the token. */
  function After(s: Status, text: string, p: nat): Status
    requires p < |text|
  {
    var c := text[p];
    var n := Next(if s == Amp && EntityBreaks(c) then Normal else s, c);
    if n == Tag0 && !ReallyTag(text, p) then Normal else n
  }

  /** Inside a comment or a declaration. */
  predicate Hidden(s: Status) {
    s in {Cmnt1, Cmnt2, Cmnt, NCmnt1, NCmnt2, NCmnt3, IrrTag}
  }

  datatype Mode = Mode(pre: bool, append: bool)

  /**
  The buffer after one more character: a tag that closes at once disappears; outside `pre`
  mode white space between tags becomes blanks and comments are left out.
  */
  function Emit(m: Mode, out: string, s: Status, c: char): string {
    if RealTag(s) && c == '>' && out != "" && out[|out| - 1] == '<' then out[..|out| - 1]
    else if m.pre then out + [c]
    else if Next(s, c) == Cmnt || Next(s, c) == IrrTag then if m.append then out else ""
    else if Hidden(Next(s, c)) || (Hidden(s) && s != Cmnt1 && s != Cmnt2) then out
    else if s == Cmnt1 then if m.append then out else ""
    else out + [if Next(s, c) == Normal && IsSpace(c) then ' ' else c]
  }

  datatype Scan = Scan(out: string, status: Status)

  function Pass(m: Mode, before: string, s: Status, text: string, k: nat): Scan
    requires k <= |text|
  {
    if k == 0 then Scan(before, s)
    else
      var sc := Pass(m, before, s, text, k - 1);
      Scan(Emit(m, sc.out, sc.status, text[k - 1]), After(sc.status, text, k - 1))
  }

  /** In `pre` mode the token is the text it passes, but for adjacent "<>" pairs. */
  lemma {:induction false} TokenKeepsText(append: bool, before: string, s: Status, text: string, k: nat)
    requires k <= |text|
    ensures Keeps(before, text[..k], Pass(Mode(true, append), before, s, text, k).out)
  {
    hide After, Keeps, Next, Hidden;
    if k == 0 {
      KeepsNothing(before);
      assert text[..0] == "";
    } else {
      var sc, c := Pass(Mode(true, append), before, s, text, k - 1), text[k - 1];
      TokenKeepsText(append, before, s, text, k - 1);
      assert text[..k] == text[..k - 1] + [c];
      KeepsChar(before, text[..k - 1], sc.out, c);
      if Emit(Mode(true, append), sc.out, sc.status, c) != sc.out + [c] {
        KeepsPair(before, text[..k - 1], sc.out);
      }
    }
  }

  /** The status does not depend on the mode. */
  lemma {:induction false} StatusIsModeFree(m: Mode, m': Mode, before: string, s: Status, text: string, k: nat)
    requires k <= |text|
    ensures Pass(m, before, s, text, k).status == Pass(m', before, s, text, k).status
  {
    hide After, Emit;
    if k > 0 {
      StatusIsModeFree(m, m', before, s, text, k - 1);
    }
  }

  /** Equal but for white space, which may have become a blank. */
  ghost predicate SameButSpaces(a: string, b: string) {
    |a| == |b| && forall i :: 0 <= i < |a| ==> a[i] == b[i] || (a[i] == ' ' && IsSpace(b[i]))
  }

  /** As long as no comment is met, leaving `pre` mode changes white space only. */
  lemma {:induction false} PlainTokenDiffersInSpaces(append: bool, before: string, s: Status, text: string, k: nat)
    requires k <= |text|
    requires forall j :: 0 <= j <= k ==> !Hidden(Pass(Mode(false, append), before, s, text, j).status)
    ensures SameButSpaces(Pass(Mode(false, append), before, s, text, k).out, Pass(Mode(true, append), before, s, text, k).out)
  {
    hide After, Emit, Next, Hidden, SameButSpaces;
    if k == 0 {
      SameIsSame(before);
    } else {
      PlainTokenDiffersInSpaces(append, before, s, text, k - 1);
      StatusIsModeFree(Mode(false, append), Mode(true, append), before, s, text, k - 1);
      var sc := Pass(Mode(false, append), before, s, text, k - 1);
      assert !Hidden(sc.status) && !Hidden(Pass(Mode(false, append), before, s, text, k).status);
      VisibleStep(sc.status, text, k - 1);
      EmitSameButSpaces(append, sc.out, Pass(Mode(true, append), before, s, text, k - 1).out, sc.status, text[k - 1]);
    }
  }

  lemma SameIsSame(a: string)
    ensures SameButSpaces(a, a)
  {
  }

  lemma VisibleStep(s: Status, text: string, p: nat)
    requires p < |text| && !Hidden(s) && !Hidden(After(s, text, p))
    ensures !Hidden(Next(s, text[p]))
  {
  }

  lemma EmitSameButSpaces(append: bool, a: string, b: string, s: Status, c: char)
    requires SameButSpaces(a, b) && !Hidden(s) && !Hidden(Next(s, c))
    ensures SameButSpaces(Emit(Mode(false, append), a, s, c), Emit(Mode(true, append), b, s, c))
  {
    hide Next;
  }

  /** Outside `pre` mode and when not appending, a comment or declaration leaves an empty token. */
  lemma {:induction false} CommentLeavesNothing(before: string, s: Status, text: string, k: nat)
    requires k <= |text| && (Hidden(s) ==> before == "")
    ensures
      var sc := Pass(Mode(false, false), before, s, text, k);
      sc.status in {Cmnt, NCmnt1, NCmnt2, NCmnt3, IrrTag} ==>
        sc.out == "" && (k < |text| ==> Emit(Mode(false, false), sc.out, sc.status, text[k]) == "")
  {
    hide After, Emit, Next;
    var m := Mode(false, false);
    if k > 0 {
      CommentLeavesNothing(before, s, text, k - 1);
      EnterComment(Pass(m, before, s, text, k - 1).out, Pass(m, before, s, text, k - 1).status, text, k - 1);
    }
    if k < |text| {
      EmitInComment(Pass(m, before, s, text, k).status, text[k]);
    }
  }

  lemma EnterComment(out: string, s: Status, text: string, p: nat)
    requires p < |text| && (s in {Cmnt, NCmnt1, NCmnt2, NCmnt3, IrrTag} ==> out == "")
    ensures After(s, text, p) in {Cmnt, NCmnt1, NCmnt2, NCmnt3, IrrTag} ==> Emit(Mode(false, false), out, s, text[p]) == ""
  {
  }

  /** When appending, it leaves the buffer as it was. */
  lemma AppendedCommentLeavesBuffer(out: string, s: Status, c: char)
    requires Hidden(s) && !(s == Cmnt2 && c == '>')
    ensures Emit(Mode(false, true), out, s, c) == out
  {
  }

  /** "<!>" leaves nothing. */
  lemma EmptyDeclarationLeavesNothing(out: string)
    ensures Emit(Mode(false, false), out, Cmnt1, '>') == ""
  {
  }

  lemma EmitInComment(s: Status, c: char)
    ensures s in {Cmnt, NCmnt1, NCmnt2, NCmnt3, IrrTag} ==> Emit(Mode(false, false), "", s, c) == ""
  {
  }

  /** What one pass of the loop in `read_token` decides: look at the character again, go on, or return before or behind it. */
  datatype Action = Again | GoOn | StopBefore | StopAfter

  /** Does this character close the token: the end of a tag that is not "<>", of a comment or of a declaration? */
  predicate Closes(out: string, s: Status, c: char) {
    c == '>' && (s in {NCmnt2, NCmnt3, IrrTag, Cmnt1} || (RealTag(s) && (out == "" || out[|out| - 1] != '<')))
  }

  /** The branch of the switch that is back in normal text. */
  method OnNormal(buf: string, status: Status, c: char, pre: bool, append: bool)
    returns (buf': string, act: Action, atTag: bool)
    requires Next(status, c) == Normal
    ensures act == Again <==> status == Amp && EntityBreaks(c)
    ensures act == Again ==> buf' == buf
    ensures act != StopBefore && (act == StopAfter <==> Closes(buf, status, c))
    ensures (atTag <==> RealTag(status) && c == '>') && (atTag ==> act == GoOn || act == StopAfter)
    ensures act == GoOn || act == StopAfter ==> buf' == Emit(Mode(pre, append), buf, status, c)
  {
    buf', act, atTag := buf, GoOn, false;
    if status == Amp && c != ';' {
      act := Again;
    } else if status == NCmnt2 || status == NCmnt3 || status == IrrTag || status == Cmnt1 {
      if status == Cmnt1 && !append && !pre {
        buf' := "";
      }
      if pre {
        buf' := buf' + [c];
      }
      act := StopAfter;
    } else {
      buf' := buf + [if !pre && IsSpace(c) then ' ' else c];
      if RealTag(status) {
        atTag := true;
        var n := |buf'|;
        if n < 2 || buf'[n - 2] != '<' || buf'[n - 1] != '>' {
          act := StopAfter;
        } else {
          buf' := buf'[..n - 2];
          assert buf' == buf[..n - 2];
        }
      }
    }
  }

  /** The switch of `read_token`, on the character at `p`; `first` says that nothing precedes it in this token. */
  method OnChar(buf: string, status: Status, text: string, p: nat, first: bool, pre: bool, append: bool)
    returns (buf': string, status': Status, act: Action, atTag: bool)
    requires p < |text|
    ensures act == Again <==> status == Amp && EntityBreaks(text[p])
    ensures act == Again ==> status' == Normal && buf' == buf
    ensures act == StopBefore <==> !first && status == Normal && text[p] == '<'
    ensures act == StopBefore ==> status' == Normal && buf' == buf
    ensures act == StopAfter <==> Closes(buf, status, text[p])
    ensures act == StopAfter ==> text[p] == '>' && status' == Normal
    ensures (atTag <==> RealTag(status) && text[p] == '>') && (atTag ==> act == GoOn || act == StopAfter)
    ensures act == GoOn || act == StopAfter ==> status' == After(status, text, p)
    ensures status != Eol && (act == GoOn || act == StopAfter) ==> buf' == Emit(Mode(pre, append), buf, status, text[p])
  {
    var c := text[p];
    buf', status', act, atTag := buf, Next(status, c), GoOn, false;
    match status' {
      case Normal =>
        buf', act, atTag := OnNormal(buf, status, c, pre, append);
      case Tag0 =>
        if status == Normal && !first {
          status', act := status, StopBefore;
        } else {
          if !ReallyTag(text, p) {
            status' := Normal;
          }
          buf' := buf + [c];
        }
      case Tag =>
        buf' := buf + [c];
      case Eql => buf' := buf + [c];
      case Quote => buf' := buf + [c];
      case DQuote => buf' := buf + [c];
      case Value => buf' := buf + [c];
      case Amp => buf' := buf + [c];
      case Cmnt =>
        if pre {
          buf' := buf + [c];
        } else if !append {
          buf' := "";
        }
      case IrrTag =>
        if pre {
          buf' := buf + [c];
        } else if !append {
          buf' := "";
        }
      case Eol =>
      case _ =>
        if pre {
          buf' := buf + [c];
        }
    }
  }

  /** The loop agrees with the reference, except that it may already have given up an entity. */
  ghost predicate InStep(status: Status, sc: Scan, text: string, p: nat) {
    status == sc.status || (sc.status == Amp && status == Normal && p < |text| && EntityBreaks(text[p]))
  }

  /** What holds between the loop and the reference when `p` characters are behind. */
  ghost predicate Agrees(m: Mode, before: string, status0: Status, text: string, p: nat, buf: string, status: Status)
    requires p <= |text|
  {
    var sc := Pass(m, before, status0, text, p);
    && InStep(status, sc, text, p)
    && (status0 != Eol ==> sc.status != Eol)
    && (status0 != Eol ==> buf == sc.out)
  }

  lemma AgreesMeans(m: Mode, before: string, status0: Status, text: string, p: nat, buf: string, status: Status)
    requires p <= |text| && Agrees(m, before, status0, text, p, buf, status)
    ensures InStep(status, Pass(m, before, status0, text, p), text, p)
    ensures status0 != Eol ==> buf == Pass(m, before, status0, text, p).out
    ensures status0 != Eol ==> status != Eol
  {
    hide After, Emit, EntityBreaks;
  }

  lemma AgreesAtFirst(m: Mode, before: string, status0: Status, text: string)
    ensures Agrees(m, before, status0, text, 0, before, status0)
  {
  }

  lemma AgreesAfterGivingUp(m: Mode, before: string, status0: Status, text: string, p: nat, buf: string)
    requires p < |text| && EntityBreaks(text[p]) && Agrees(m, before, status0, text, p, buf, Amp)
    ensures Agrees(m, before, status0, text, p, buf, Normal)
  {
    hide After, Emit, EntityBreaks;
  }

  lemma AgreesAfterOne(m: Mode, before: string, status0: Status, text: string, p: nat, buf: string, status: Status, buf': string)
    requires p < |text| && Agrees(m, before, status0, text, p, buf, status)
    requires status != Eol ==> buf' == Emit(m, buf, status, text[p])
    ensures Agrees(m, before, status0, text, p + 1, buf', After(status, text, p))
  {
    var sc := Pass(m, before, status0, text, p);
    AfterIsNotEol(sc.status, text, p);
    EntityGivenUp(m, sc.out, text, p);
    hide After, Emit, EntityBreaks;
    assert Pass(m, before, status0, text, p + 1) == Scan(Emit(m, sc.out, sc.status, text[p]), After(sc.status, text, p));
  }

  lemma AfterIsNotEol(s: Status, text: string, p: nat)
    requires p < |text|
    ensures s != Eol ==> After(s, text, p) != Eol
  {
  }

  lemma EntityGivenUp(m: Mode, buf: string, text: string, p: nat)
    requires p < |text|
    ensures EntityBreaks(text[p]) ==>
      After(Amp, text, p) == After(Normal, text, p) && Emit(m, buf, Amp, text[p]) == Emit(m, buf, Normal, text[p])
  {
  }

  // ----- where a token ends

  /** A token ends behind the character that closes it, or in front of a '<' in normal text, unless a pair was just removed there. */
  ghost predicate EndsAt(m: Mode, before: string, s: Status, text: string, k: nat)
    requires 0 < k <= |text|
  {
    var prev := Pass(m, before, s, text, k - 1);
    || Closes(prev.out, prev.status, text[k - 1])
    || (k < |text| && text[k] == '<' && Pass(m, before, s, text, k).status in {Normal, Amp}
        && !(RealTag(prev.status) && text[k - 1] == '>'))
  }

  /** The loop at `p`: no end so far, and `*instr` is right here exactly if a pair was just removed, or at the beginning. */
  ghost predicate NoEndYet(m: Mode, before: string, s: Status, text: string, p: nat, instr: nat)
    requires p <= |text|
  {
    && (forall j :: 0 < j < p ==> !EndsAt(m, before, s, text, j))
    && if p == 0 then instr == 0
       else
         var prev := Pass(m, before, s, text, p - 1);
         && !Closes(prev.out, prev.status, text[p - 1])
         && (instr == p <==> RealTag(prev.status) && text[p - 1] == '>')
  }

  lemma NothingAtFirst(m: Mode, before: string, s: Status, text: string)
    ensures NoEndYet(m, before, s, text, 0, 0)
  {
  }

  lemma EndsBefore(m: Mode, before: string, s: Status, text: string, p: nat, instr: nat, buf: string, status: Status)
    requires s != Eol && p < |text| && NoEndYet(m, before, s, text, p, instr) && Agrees(m, before, s, text, p, buf, status)
    requires p != instr && status == Normal && text[p] == '<'
    ensures p > 0 && EndsAt(m, before, s, text, p) && forall j :: 0 < j < p ==> !EndsAt(m, before, s, text, j)
  {
    hide Pass, EntityBreaks;
  }

  /** A character that does not end the token in front of it. */
  lemma PassesOver(m: Mode, before: string, s: Status, text: string, p: nat, instr: nat, buf: string, status: Status)
    requires s != Eol && p < |text| && NoEndYet(m, before, s, text, p, instr) && Agrees(m, before, s, text, p, buf, status)
    requires !(p != instr && status == Normal && text[p] == '<') && !(status == Amp && EntityBreaks(text[p]))
    ensures forall j :: 0 < j < p + 1 ==> !EndsAt(m, before, s, text, j)
    ensures var prev := Pass(m, before, s, text, p);
            (Closes(buf, status, text[p]) <==> Closes(prev.out, prev.status, text[p])) && (RealTag(status) <==> RealTag(prev.status))
  {
    LeftBracketBreaks();
    hide Pass, EntityBreaks;
  }

  lemma LeftBracketBreaks()
    ensures EntityBreaks('<')
  {
  }

  lemma NoEndAfter(m: Mode, before: string, s: Status, text: string, p: nat, instr: nat, instr': nat, buf: string, status: Status)
    requires s != Eol && p < |text| && NoEndYet(m, before, s, text, p, instr) && Agrees(m, before, s, text, p, buf, status)
    requires !(p != instr && status == Normal && text[p] == '<') && !(status == Amp && EntityBreaks(text[p]))
    requires instr <= p && instr' == if RealTag(status) && text[p] == '>' then p + 1 else instr
    ensures !Closes(buf, status, text[p]) ==> NoEndYet(m, before, s, text, p + 1, instr')
    ensures Closes(buf, status, text[p]) ==>
      EndsAt(m, before, s, text, p + 1) && forall j :: 0 < j < p + 1 ==> !EndsAt(m, before, s, text, j)
  {
    PassesOver(m, before, s, text, p, instr, buf, status);
    hide Pass, EntityBreaks, Agrees;
  }

  /**
  `read_token` on the text from `*instr` on: the new buffer and status, and how far `*instr`
  moves. It always moves on, stops only around a tag or at the end of the text, and leaves the
  buffer of the reference.
  */
  method ReadToken(buf0: string, text: string, status0: Status, pre: bool, append: bool)
    returns (buf: string, moved: nat, status: Status, r: bool)
    ensures moved <= |text| && (r <==> text != "") && (text != "" ==> moved > 0)
    ensures text == "" ==> status == status0 && buf == if append then buf0 else ""
    ensures moved < |text| ==> status == Normal && (text[moved] == '<' || text[moved - 1] == '>')
    ensures InStep(status, Pass(Mode(pre, append), if append then buf0 else "", status0, text, moved), text, moved)
    ensures status0 != Eol ==> status != Eol && buf == Pass(Mode(pre, append), if append then buf0 else "", status0, text, moved).out
    ensures status0 != Eol ==>
      var m, before := Mode(pre, append), if append then buf0 else "";
      && (forall j :: 0 < j < moved ==> !EndsAt(m, before, status0, text, j))
      && (0 < moved < |text| ==> EndsAt(m, before, status0, text, moved))
  {
    hide *;
    ghost var m, before := Mode(pre, append), if append then buf0 else "";
    buf, moved, status, r := if append then buf0 else "", 0, status0, text != "";
    AgreesAtFirst(m, before, status0, text);
    AgreesMeans(m, before, status0, text, 0, buf, status);
    if text == "" {
      return;
    }
    var p, instr: nat := 0, 0;
    NothingAtFirst(m, before, status0, text);
    while p < |text|
      invariant instr <= p <= |text|
      invariant Agrees(m, before, status0, text, p, buf, status)
      invariant status0 != Eol ==> NoEndYet(m, before, status0, text, p, instr)
      decreases |text| - p, if status == Amp then 1 else 0
    {
      ghost var was, out, at := status, buf, instr;
      AgreesMeans(m, before, status0, text, p, buf, status);
      var act, atTag;
      buf, status, act, atTag := OnChar(buf, status, text, p, p == instr, pre, append);
      if atTag {
        instr := p + 1;
      }
      if act == StopBefore {
        if status0 != Eol {
          EndsBefore(m, before, status0, text, p, at, out, was);
        }
        moved := p;
        return;
      }
      if act == Again {
        AgreesAfterGivingUp(m, before, status0, text, p, buf);
      } else {
        AgreesAfterOne(m, before, status0, text, p, out, was, buf);
        if status0 != Eol {
          NoEndAfter(m, before, status0, text, p, at, instr, out, was);
        }
        p := p + 1;
      }
      if act == StopAfter {
        AgreesMeans(m, before, status0, text, p, buf, status);
        moved := p;
        return;
      }
    }
    AgreesMeans(m, before, status0, text, p, buf, status);
    if status0 != Eol {
      NoEndMeans(m, before, status0, text, p, instr);
    }
    moved := p;
  }

  lemma NoEndMeans(m: Mode, before: string, s: Status, text: string, p: nat, instr: nat)
    requires p <= |text| && NoEndYet(m, before, s, text, p, instr)
    ensures forall j :: 0 < j < p ==> !EndsAt(m, before, s, text, j)
  {
    hide Pass;
  }

  // ----- reading a whole text

  /** The status that one pass over the text has at `k`. */
  function StatusAt(s: Status, text: string, k: nat): Status
    requires k <= |text|
  {
    if k == 0 then s else After(StatusAt(s, text, k - 1), text, k - 1)
  }

  lemma {:induction false} PassStatus(m: Mode, before: string, s: Status, text: string, k: nat)
    requires k <= |text|
    ensures Pass(m, before, s, text, k).status == StatusAt(s, text, k)
  {
    hide After, Emit;
    if k > 0 {
      PassStatus(m, before, s, text, k - 1);
    }
  }

  lemma AfterInRest(s: Status, text: string, i: nat, p: nat)
    requires i + p < |text|
    ensures After(s, text[i..], p) == After(s, text, i + p)
  {
  }

  lemma {:induction false} StatusSplits(s: Status, text: string, i: nat, j: nat)
    requires i + j <= |text|
    ensures StatusAt(s, text, i + j) == StatusAt(StatusAt(s, text, i), text[i..], j)
    decreases j
  {
    hide After;
    if j > 0 {
      StatusSplits(s, text, i, j - 1);
      AfterInRest(StatusAt(s, text, i + (j - 1)), text, i, j - 1);
    }
  }

  /** Having given up an entity already makes no difference from the next character on. */
  lemma {:induction false} GivenUpStatus(text: string, j: nat)
    requires 0 < j <= |text| && EntityBreaks(text[0])
    ensures StatusAt(Amp, text, j) == StatusAt(Normal, text, j)
  {
    EntityGivenUp(Mode(true, true), "", text, 0);
    hide After, EntityBreaks, Emit;
    if j > 1 {
      GivenUpStatus(text, j - 1);
    } else {
      assert StatusAt(Amp, text, 1) == After(StatusAt(Amp, text, 0), text, 0);
      assert StatusAt(Normal, text, 1) == After(StatusAt(Normal, text, 0), text, 0);
    }
  }

  /** After each token, the status is the one of the whole pass, but for an entity just given up. */
  ghost predicate OnPass(status: Status, s: Status, text: string, p: nat)
    requires p <= |text|
  {
    InStep(status, Scan("", StatusAt(s, text, p)), text, p)
  }

  lemma OnPassGoesOn(s: Status, text: string, i: nat, status: Status, j: nat, status': Status, sc: Scan)
    requires i + j <= |text| && 0 < j && OnPass(status, s, text, i)
    requires InStep(status', sc, text[i..], j) && sc.status == StatusAt(status, text[i..], j)
    ensures OnPass(status', s, text, i + j)
  {
    StatusSplits(s, text, i, j);
    if status != StatusAt(s, text, i) {
      GivenUpStatus(text[i..], j);
    }
    hide StatusAt, EntityBreaks;
    assert i + j < |text| ==> text[i..][j] == text[i + j];
  }

  lemma {:induction false} KeepsChain(before: string, t: string, o: string, t': string, o': string)
    requires Keeps(before, t, o) && Keeps(o, t', o')
    ensures Keeps(before, t + t', o')
    decreases |t'|
  {
    if t' == "" {
      assert t + t' == t;
    } else {
      var n := |t'| - 1;
      var rest, c := t'[..n], t'[n];
      assert t + t' == (t + rest) + [c];
      if o' != "" && o'[|o'| - 1] == c && Keeps(o, rest, o'[..|o'| - 1]) {
        KeepsChain(before, t, o, rest, o'[..|o'| - 1]);
        KeepsChar(before, t + rest, o'[..|o'| - 1], c);
        assert o'[..|o'| - 1] + [c] == o';
      } else {
        KeepsChain(before, t, o, rest, o' + "<");
        KeepsPair(before, t + rest, o' + "<");
        assert (o' + "<")[..|o'|] == o';
      }
    }
  }

  lemma {:induction false} KeepsBehind(o: string, t: string, o': string)
    requires Keeps("", t, o')
    ensures Keeps(o, t, o + o')
    decreases |t|
  {
    if t == "" {
      assert o + o' == o;
    } else {
      var n := |t| - 1;
      var rest, c := t[..n], t[n];
      assert t == rest + [c];
      if o' != "" && o'[|o'| - 1] == c && Keeps("", rest, o'[..|o'| - 1]) {
        KeepsBehind(o, rest, o'[..|o'| - 1]);
        KeepsChar(o, rest, o + o'[..|o'| - 1], c);
        assert o + o'[..|o'| - 1] + [c] == o + o';
      } else {
        KeepsBehind(o, rest, o' + "<");
        KeepsPair(o, rest, o + (o' + "<"));
        assert (o + (o' + "<"))[..|o + o'|] == o + o';
      }
    }
  }

  function Joined(tokens: seq<string>): string {
    if tokens == [] then "" else Joined(tokens[..|tokens| - 1]) + tokens[|tokens| - 1]
  }

  /**
  Tokens read one after another, in `pre` mode, cover the text: whether each is taken by itself
  or all are appended to one buffer, together they are the text but for adjacent "<>" pairs, and
  the status at the end is that of a single pass.
  */
  method ReadAllTokens(text: string, status0: Status, append: bool) returns (tokens: seq<string>, buf: string, status: Status)
    requires status0 != Eol
    ensures Keeps("", text, if append then buf else Joined(tokens))
    ensures status == StatusAt(status0, text, |text|)
  {
    hide *;
    tokens, buf, status := [], "", status0;
    var instr: nat := 0;
    ghost var out := "";
    StartsOnPass(status0, text);
    while instr < |text|
      invariant instr <= |text| && status != Eol && OnPass(status, status0, text, instr)
      invariant Keeps("", text[..instr], out) && out == if append then buf else Joined(tokens)
    {
      ghost var was, at, before := status, instr, if append then buf else "";
      var moved, r;
      buf, moved, status, r := ReadToken(buf, text[instr..], status, true, append);
      TokenKeepsText(append, before, was, text[at..], moved);
      PassStatus(Mode(true, append), before, was, text[at..], moved);
      OnPassGoesOn(status0, text, at, was, moved, status, Pass(Mode(true, append), before, was, text[at..], moved));
      JoinOne(tokens, buf);
      tokens := tokens + [buf];
      instr := instr + moved;
      if !append {
        KeepsBehind(out, text[at..][..moved], buf);
      }
      KeepsChain("", text[..at], out, text[at..][..moved], if append then buf else out + buf);
      out := if append then buf else out + buf;
      assert text[..at] + text[at..][..moved] == text[..instr];
    }
    assert text[..|text|] == text;
    EndsOnPass(status, status0, text);
  }

  lemma StartsOnPass(s: Status, text: string)
    ensures OnPass(s, s, text, 0) && Keeps("", text[..0], "") && Joined([]) == ""
  {
  }

  lemma EndsOnPass(status: Status, s: Status, text: string)
    requires OnPass(status, s, text, |text|)
    ensures status == StatusAt(s, text, |text|)
  {
    hide StatusAt;
  }

  lemma JoinOne(tokens: seq<string>, buf: string)
    ensures Joined(tokens + [buf]) == Joined(tokens) + buf
  {
    assert (tokens + [buf])[..|tokens|] == tokens;
  }
}
