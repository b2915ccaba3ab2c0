/**
Path clean-up (w3m/indep.c, `cleanupName`). The method rewrites its buffer in place and is
proved to compute an evaluation by components, which on absolute paths is the usual stack.
*/
module Paths {

  // ----- the reference: evaluation by components

  /** The characters up to the next slash. */
  function Component(s: string): (c: string)
    ensures |c| <= |s| && s[..|c|] == c && '/' !in c
    ensures |c| == |s| || s[|c|] == '/'
  {
    if s == "" || s[0] == '/' then "" else [s[0]] + Component(s[1..])
  }

  /** What a path comes to: a first component, which an absolute path lacks, the components behind slashes, and a slash at the end. */
  datatype Path = Path(base: string, stack: seq<string>, trailing: bool)

  function Pop(stack: seq<string>): seq<string> {
    if stack == [] then [] else stack[..|stack| - 1]
  }

  function Top(base: string, stack: seq<string>): string {
    if stack == [] then base else stack[|stack| - 1]
  }

  /** ".." behind another ".." stays; else it pops; with nothing to pop but the first component, the path becomes absolute. */
  function Up(base: string, stack: seq<string>): (string, seq<string>) {
    if Top(base, stack) == ".." then (base, stack + [".."])
    else if stack != [] then (base, Pop(stack))
    else ("", [])
  }

  /** ".." at the very end leaves a slash, but of a sole first component its first character. */
  function UpAtEnd(base: string, stack: seq<string>): Path {
    if Top(base, stack) == ".." then Path(base, stack + [".."], false)
    else if stack != [] then Path(base, Pop(stack), true)
    else if base == "" then Path("", [], true)
    else Path(base[..1], [], false)
  }

  /** Empty and "." components are dropped, ".." goes up; dropped ones leave a slash at the end. */
  function Resolve(base: string, stack: seq<string>, rest: string): Path
    requires rest == "" || rest[0] == '/'
    decreases |rest|
  {
    if rest == "" then Path(base, stack, false)
    else
      var c := Component(rest[1..]);
      var rest' := rest[1 + |c|..];
      if c == "" || c == "." then
        if rest' == "" then Path(base, stack, true) else Resolve(base, stack, rest')
      else if c == ".." then
        if rest' == "" then UpAtEnd(base, stack) else Resolve(Up(base, stack).0, Up(base, stack).1, rest')
      else Resolve(base, stack + [c], rest')
  }

  function Join(stack: seq<string>): string {
    if stack == [] then "" else Join(stack[..|stack| - 1]) + "/" + stack[|stack| - 1]
  }

  function Tail(stack: seq<string>, trailing: bool): string {
    Join(stack) + if trailing then "/" else ""
  }

  function Build(p: Path): string {
    p.base + Tail(p.stack, p.trailing)
  }

  /** The clean form of a path. */
  function Clean(name: string): string {
    var c := Component(name);
    Build(Resolve(c, [], name[|c|..]))
  }

  /** A component that names something. */
  predicate Ordinary(c: string) {
    c != "" && c != "." && c != ".." && '/' !in c
  }

  /** Components behind slashes are ordinary, but for ".." behind another "..". */
  ghost predicate Good(base: string, stack: seq<string>) {
    && '/' !in base
    && forall i :: 0 <= i < |stack| ==> Ordinary(stack[i]) || (stack[i] == ".." && Top(base, stack[..i]) == "..")
  }

  lemma GoodPush(base: string, stack: seq<string>, c: string)
    requires Good(base, stack) && (Ordinary(c) || (c == ".." && Top(base, stack) == ".."))
    ensures Good(base, stack + [c])
  {
    var all := stack + [c];
    forall i | 0 <= i < |all|
      ensures Ordinary(all[i]) || (all[i] == ".." && Top(base, all[..i]) == "..")
    {
      assert all[..i] == stack[..i];
      assert i == |stack| ==> stack[..i] == stack;
    }
  }

  lemma GoodPrefix(base: string, stack: seq<string>, n: nat)
    requires Good(base, stack) && n <= |stack|
    ensures Good(base, stack[..n])
  {
    assert forall i :: 0 <= i < n ==> stack[..n][..i] == stack[..i];
  }

  lemma GoodUp(base: string, stack: seq<string>)
    requires Good(base, stack)
    ensures Good(Up(base, stack).0, Up(base, stack).1) && Good(UpAtEnd(base, stack).base, UpAtEnd(base, stack).stack)
  {
    if Top(base, stack) == ".." {
      GoodPush(base, stack, "..");
    } else if stack != [] {
      GoodPrefix(base, stack, |stack| - 1);
    }
  }

  // ----- the clean form is clean

  lemma {:induction false} ResolveIsGood(base: string, stack: seq<string>, rest: string)
    requires Good(base, stack) && (rest == "" || rest[0] == '/')
    ensures Good(Resolve(base, stack, rest).base, Resolve(base, stack, rest).stack)
    decreases |rest|
  {
    hide Good, Up, UpAtEnd;
    if rest != "" {
      var c := Component(rest[1..]);
      var rest' := rest[1 + |c|..];
      GoodUp(base, stack);
      if c == ".." {
        if rest' != "" {
          ResolveIsGood(Up(base, stack).0, Up(base, stack).1, rest');
        }
      } else if c == "" || c == "." {
        if rest' != "" {
          ResolveIsGood(base, stack, rest');
        }
      } else {
        GoodPush(base, stack, c);
        ResolveIsGood(base, stack + [c], rest');
      }
    }
  }

  lemma {:induction false} ComponentOf(c: string, rest: string)
    requires '/' !in c && (rest == "" || rest[0] == '/')
    ensures Component(c + rest) == c
  {
    if c == "" {
      assert c + rest == rest;
    } else {
      assert (c + rest)[1..] == c[1..] + rest;
      ComponentOf(c[1..], rest);
      assert c == [c[0]] + c[1..];
    }
  }

  lemma ResolveStep(base: string, stack: seq<string>, c: string, rest: string)
    requires '/' !in c && (rest == "" || rest[0] == '/')
    ensures var s := "/" + c + rest;
            Resolve(base, stack, s) ==
              if c == "" || c == "." then if rest == "" then Path(base, stack, true) else Resolve(base, stack, rest)
              else if c == ".." then
                if rest == "" then UpAtEnd(base, stack) else Resolve(Up(base, stack).0, Up(base, stack).1, rest)
              else Resolve(base, stack + [c], rest)
  {
    hide Up, UpAtEnd;
    var s := "/" + c + rest;
    assert s[1..] == c + rest;
    ComponentOf(c, rest);
    assert s[1 + |c|..] == rest;
  }

  lemma {:induction false} JoinAppend(a: seq<string>, b: seq<string>)
    ensures Join(a + b) == Join(a) + Join(b)
  {
    if b == [] {
      assert a + b == a;
    } else {
      var n := |b| - 1;
      assert (a + b)[..|a + b| - 1] == a + b[..n];
      JoinAppend(a, b[..n]);
    }
  }

  lemma {:induction false} JoinShape(stack: seq<string>)
    ensures stack == [] <==> Join(stack) == ""
    ensures stack != [] ==> Join(stack)[0] == '/'
  {
    if stack != [] {
      JoinShape(stack[..|stack| - 1]);
    }
  }

  lemma TailHead(c: string, more: seq<string>, trailing: bool)
    ensures Tail([c] + more, trailing) == "/" + c + Tail(more, trailing)
  {
    JoinAppend([c], more);
    assert [c][..0] == [];
    assert Join([c]) == "/" + c;
  }

  lemma TailShape(stack: seq<string>, trailing: bool)
    ensures var s := Tail(stack, trailing); s == "" || s[0] == '/'
    ensures Tail(stack, trailing) == "" <==> stack == [] && !trailing
  {
    JoinShape(stack);
  }

  lemma ResolveSlash(base: string, stack: seq<string>)
    ensures Resolve(base, stack, "") == Path(base, stack, false) && Resolve(base, stack, "/") == Path(base, stack, true)
  {
    ResolveStep(base, stack, "", "");
  }

  /** A path that is already clean resolves to its own components. */
  lemma {:induction false} ResolveJoin(base: string, stack: seq<string>, more: seq<string>, trailing: bool)
    requires Good(base, stack + more)
    ensures var rest := Tail(more, trailing);
            (rest == "" || rest[0] == '/') && Resolve(base, stack, rest) == Path(base, stack + more, trailing)
    decreases |more|
  {
    hide Resolve;
    TailShape(more, trailing);
    if more == [] {
      ResolveSlash(base, stack);
      assert Tail(more, trailing) == if trailing then "/" else "";
      assert stack + more == stack;
    } else {
      hide Tail, Join;
      var c, more' := more[0], more[1..];
      assert [c] + more' == more && stack + [c] + more' == stack + more;
      assert (stack + more)[|stack|] == c && (stack + more)[..|stack|] == stack;
      TailHead(c, more', trailing);
      TailShape(more', trailing);
      ResolveJoin(base, stack + [c], more', trailing);
      ResolveStep(base, stack, c, Tail(more', trailing));
    }
  }

  lemma ComponentOfBuilt(p: Path)
    requires '/' !in p.base
    ensures Component(Build(p)) == p.base && Build(p)[|p.base|..] == Tail(p.stack, p.trailing)
  {
    TailShape(p.stack, p.trailing);
    ComponentOf(p.base, Tail(p.stack, p.trailing));
  }

  /** Cleaning twice is cleaning once. */
  lemma CleanIsIdempotent(name: string)
    ensures Clean(Clean(name)) == Clean(name)
  {
    var c := Component(name);
    var p := Resolve(c, [], name[|c|..]);
    ResolveIsGood(c, [], name[|c|..]);
    assert [] + p.stack == p.stack;
    hide Resolve, Build;
    ResolveJoin(p.base, [], p.stack, p.trailing);
    ComponentOfBuilt(p);
  }

  // ----- absolute paths

  predicate Absolute(name: string) {
    name != "" && name[0] == '/'
  }

  /** The usual evaluation on a stack: ".." pops, and does nothing at the root. */
  function Evaluate(stack: seq<string>, rest: string): (seq<string>, bool)
    requires rest == "" || rest[0] == '/'
    decreases |rest|
  {
    if rest == "" then (stack, false)
    else
      var c := Component(rest[1..]);
      var rest' := rest[1 + |c|..];
      var stack' := if c == "" || c == "." then stack else if c == ".." then Pop(stack) else stack + [c];
      if rest' == "" then (stack', !Ordinary(c)) else Evaluate(stack', rest')
  }

  ghost predicate AllOrdinary(stack: seq<string>) {
    forall i :: 0 <= i < |stack| ==> Ordinary(stack[i])
  }

  lemma {:induction false} AbsoluteEvaluates(stack: seq<string>, rest: string)
    requires AllOrdinary(stack) && (rest == "" || rest[0] == '/')
    ensures var (s, t) := Evaluate(stack, rest); Resolve("", stack, rest) == Path("", s, t)
    decreases |rest|
  {
    if rest != "" {
      var c := Component(rest[1..]);
      var rest' := rest[1 + |c|..];
      assert rest == "/" + c + rest';
      ResolveStep("", stack, c, rest');
      UpIsPop(stack);
      hide Resolve, Up, UpAtEnd, Component;
      var stack' := if c == "" || c == "." then stack else if c == ".." then Pop(stack) else stack + [c];
      if rest' == "" {
        ResolveSlash("", stack');
      } else {
        AbsoluteEvaluates(stack', rest');
      }
    }
  }

  lemma UpIsPop(stack: seq<string>)
    requires AllOrdinary(stack)
    ensures Up("", stack) == ("", Pop(stack)) && UpAtEnd("", stack) == Path("", Pop(stack), true) && AllOrdinary(Pop(stack))
  {
  }

  lemma {:induction false} EvaluateIsNotNothing(stack: seq<string>, rest: string)
    requires rest != "" && rest[0] == '/'
    ensures Evaluate(stack, rest).1 || Evaluate(stack, rest).0 != []
    decreases |rest|
  {
    hide Component;
    var c := Component(rest[1..]);
    var rest' := rest[1 + |c|..];
    if rest' != "" {
      EvaluateIsNotNothing(if c == "" || c == "." then stack else if c == ".." then Pop(stack) else stack + [c], rest');
    }
  }

  /** The clean form of an absolute path is absolute, and what the stack gives. */
  lemma CleanAbsolute(name: string)
    requires Absolute(name)
    ensures var (stack, trailing) := Evaluate([], name); Clean(name) == Tail(stack, trailing)
    ensures Absolute(Clean(name))
  {
    var (stack, trailing) := Evaluate([], name);
    assert Component(name) == "" && name[0..] == name;
    AbsoluteEvaluates([], name);
    EvaluateIsNotNothing([], name);
    TailShape(stack, trailing);
    assert "" + Tail(stack, trailing) == Tail(stack, trailing);
  }

  // ----- relative paths

  /** One component on the stack: "." and empty ones are dropped; ".." pops, but stays with nothing or ".." on top. */
  function Taken(stack: seq<string>, c: string): seq<string> {
    if c == "" || c == "." then stack
    else if c == ".." && stack != [] && stack[|stack| - 1] != ".." then Pop(stack)
    else stack + [c]
  }

  /** The usual evaluation of a relative path; a component that is not kept leaves a slash at the end. */
  function EvaluateFrom(stack: seq<string>, rest: string): (seq<string>, bool)
    requires rest == "" || rest[0] == '/'
    decreases |rest|
  {
    if rest == "" then (stack, false)
    else
      var c := Component(rest[1..]);
      var rest' := rest[1 + |c|..];
      if rest' == "" then (Taken(stack, c), |Taken(stack, c)| <= |stack|) else EvaluateFrom(Taken(stack, c), rest')
  }

  /** The text of a relative path; nothing when no component is left. */
  function Relative(stack: seq<string>, trailing: bool): string {
    if stack == [] then "" else stack[0] + Tail(stack[1..], trailing)
  }

  function CleanRelative(name: string): string {
    var c := Component(name);
    var (stack, trailing) := EvaluateFrom(Taken([], c), name[|c|..]);
    Relative(stack, trailing)
  }

  /** With `n` components above the first one, does `rest` ever go up from the first one? */
  predicate Sinks(n: nat, rest: string)
    requires rest == "" || rest[0] == '/'
    decreases |rest|
  {
    if rest == "" then false
    else
      var c := Component(rest[1..]);
      var rest' := rest[1 + |c|..];
      if c == "" || c == "." then Sinks(n, rest')
      else if c == ".." then n == 0 || Sinks(n - 1, rest')
      else Sinks(n + 1, rest')
  }

  /** The part of the evaluation above the first component, as long as that one stays. */
  ghost predicate Above(base: string, stack: seq<string>, rest: string)
    requires rest == "" || rest[0] == '/'
  {
    base == ".." || (Ordinary(base) && AllOrdinary(stack) && !Sinks(|stack|, rest))
  }

  lemma UpAbove(base: string, stack: seq<string>)
    requires base == ".." || (Ordinary(base) && AllOrdinary(stack) && stack != [])
    ensures Up(base, stack).0 == base && [base] + Up(base, stack).1 == Taken([base] + stack, "..")
    ensures UpAtEnd(base, stack) == Path(base, Up(base, stack).1, |Taken([base] + stack, "..")| <= |[base] + stack|)
    ensures AllOrdinary(stack) && base != ".." ==> AllOrdinary(Up(base, stack).1) && |Up(base, stack).1| == |stack| - 1
  {
    var all := [base] + stack;
    assert all[|all| - 1] == Top(base, stack);
    if Top(base, stack) == ".." {
      assert all + [".."] == [base] + (stack + [".."]);
    } else {
      assert Pop(all) == [base] + Pop(stack);
    }
  }

  /** The components above the first one after one more. */
  function TakenAbove(base: string, stack: seq<string>, c: string): seq<string> {
    if c == "" || c == "." then stack else if c == ".." then Up(base, stack).1 else stack + [c]
  }

  lemma TakenIsAbove(base: string, stack: seq<string>, c: string)
    requires base == ".." || (Ordinary(base) && AllOrdinary(stack) && (c == ".." ==> stack != []))
    ensures Taken([base] + stack, c) == [base] + TakenAbove(base, stack, c)
  {
    if c == ".." {
      UpAbove(base, stack);
    } else if c != "" && c != "." {
      assert [base] + stack + [c] == [base] + (stack + [c]);
    }
  }

  lemma AboveSizes(base: string, stack: seq<string>, c: string)
    requires Ordinary(base) && AllOrdinary(stack) && (c == ".." ==> stack != []) && '/' !in c
    ensures AllOrdinary(TakenAbove(base, stack, c))
    ensures |TakenAbove(base, stack, c)| == if c == "" || c == "." then |stack| else if c == ".." then |stack| - 1 else |stack| + 1
  {
  }

  lemma ResolveAbove(base: string, stack: seq<string>, c: string, rest: string)
    requires base == ".." || (Ordinary(base) && AllOrdinary(stack) && (c == ".." ==> stack != []))
    requires '/' !in c && (rest == "" || rest[0] == '/')
    ensures var s, stack' := "/" + c + rest, TakenAbove(base, stack, c);
            && Resolve(base, stack, s) == (if rest == "" then Path(base, stack', |stack'| <= |stack|) else Resolve(base, stack', rest))
            && EvaluateFrom([base] + stack, s) == (if rest == "" then ([base] + stack', |stack'| <= |stack|) else EvaluateFrom([base] + stack', rest))
  {
    ResolveStep(base, stack, c, rest);
    ResolveSlash(base, stack + [c]);
    EvaluateStep([base] + stack, c, rest);
    TakenIsAbove(base, stack, c);
    if c == ".." {
      UpAbove(base, stack);
    }
    hide Resolve, EvaluateFrom, Up, UpAtEnd, Taken;
  }

  /** While the first component stays, both evaluations agree. */
  lemma {:induction false} AboveAgrees(base: string, stack: seq<string>, rest: string)
    requires (rest == "" || rest[0] == '/') && Above(base, stack, rest)
    ensures var p := Resolve(base, stack, rest);
            p.base == base && EvaluateFrom([base] + stack, rest) == ([base] + p.stack, p.trailing)
    decreases |rest|
  {
    if rest != "" {
      var c := Component(rest[1..]);
      var rest' := rest[1 + |c|..];
      assert rest == "/" + c + rest';
      ResolveAbove(base, stack, c, rest');
      if base != ".." {
        AboveSizes(base, stack, c);
      }
      hide Resolve, EvaluateFrom, Component, TakenAbove;
      if rest' != "" {
        AboveAgrees(base, TakenAbove(base, stack, c), rest');
      }
    }
  }

  lemma EvaluateStep(stack: seq<string>, c: string, rest: string)
    requires '/' !in c && (rest == "" || rest[0] == '/')
    ensures var s := "/" + c + rest;
            EvaluateFrom(stack, s) ==
              if rest == "" then (Taken(stack, c), |Taken(stack, c)| <= |stack|) else EvaluateFrom(Taken(stack, c), rest)
  {
    hide Taken;
    var s := "/" + c + rest;
    assert s[1..] == c + rest;
    ComponentOf(c, rest);
    assert s[1 + |c|..] == rest;
  }

  /** What becomes of a path that goes up from its first component: absolute, or one character of what should be nothing. */
  ghost predicate Sunk(p: Path, base: string, stack: seq<string>) {
    (p.base == "" && Build(p) != "") || (base != "" && p == Path(base[..1], [], false) && stack == [])
  }

  lemma SinkNow(base: string, rest: string)
    requires (rest == "" || rest[0] == '/') && Ordinary(base)
    ensures Sunk(Resolve(base, [], "/" + ".." + rest), base, EvaluateFrom([base], "/" + ".." + rest).0)
  {
    ResolveStep(base, [], "..", rest);
    EvaluateStep([base], "..", rest);
    if rest != "" {
      AbsoluteIsNotNothing(rest);
    }
    hide Resolve, EvaluateFrom, Build;
  }

  lemma {:induction false} SinkingResolves(base: string, stack: seq<string>, rest: string)
    requires (rest == "" || rest[0] == '/') && Ordinary(base) && AllOrdinary(stack) && Sinks(|stack|, rest)
    ensures Sunk(Resolve(base, stack, rest), base, EvaluateFrom([base] + stack, rest).0)
    decreases |rest|
  {
    var c := Component(rest[1..]);
    var rest' := rest[1 + |c|..];
    assert rest == "/" + c + rest';
    hide Component, Resolve, EvaluateFrom, Up, UpAtEnd, Sunk;
    if c == ".." && stack == [] {
      SinkNow(base, rest');
      assert [base] + stack == [base];
    } else {
      AboveSizes(base, stack, c);
      ResolveAbove(base, stack, c, rest');
      hide TakenAbove;
      SinkingResolves(base, TakenAbove(base, stack, c), rest');
    }
  }

  lemma AbsoluteIsNotNothing(rest: string)
    requires rest != "" && rest[0] == '/'
    ensures Resolve("", [], rest).base == "" && Build(Resolve("", [], rest)) != ""
  {
    AbsoluteEvaluates([], rest);
    EvaluateIsNotNothing([], rest);
    var (stack, trailing) := Evaluate([], rest);
    TailShape(stack, trailing);
  }

  /** A first component "." is never dropped, except with all of the path before a "..". */
  lemma {:induction false} DotResolves(stack: seq<string>, rest: string)
    requires (rest == "" || rest[0] == '/') && AllOrdinary(stack)
    ensures var p := Resolve(".", stack, rest); p.base == "." || (p.base == "" && Build(p) != "")
    decreases |rest|
  {
    if rest != "" {
      var c := Component(rest[1..]);
      var rest' := rest[1 + |c|..];
      assert rest == "/" + c + rest';
      ResolveStep(".", stack, c, rest');
      assert "."[..1] == ".";
      if c == ".." && stack == [] {
        if rest' != "" {
          AbsoluteIsNotNothing(rest');
        }
      } else if rest' != "" {
        hide Resolve, Component, Build;
        DotResolves(if c == "" || c == "." then stack else if c == ".." then Pop(stack) else stack + [c], rest');
      } else if Ordinary(c) {
        ResolveSlash(".", stack + [c]);
      }
    }
  }

  /** A component that stays on the stack. */
  predicate Named(c: string) {
    c != "" && c != "." && '/' !in c
  }

  lemma {:induction false} EvaluateNames(stack: seq<string>, rest: string)
    requires (rest == "" || rest[0] == '/') && forall i :: 0 <= i < |stack| ==> Named(stack[i])
    ensures forall i :: 0 <= i < |EvaluateFrom(stack, rest).0| ==> Named(EvaluateFrom(stack, rest).0[i])
    decreases |rest|
  {
    if rest != "" {
      var c := Component(rest[1..]);
      EvaluateNames(Taken(stack, c), rest[1 + |c|..]);
    }
  }

  /** A relative path with such components starts with the first of them. */
  lemma RelativeShape(stack: seq<string>, trailing: bool)
    requires forall i :: 0 <= i < |stack| ==> Named(stack[i])
    ensures var r := Relative(stack, trailing);
            (r == "" <==> stack == []) && (r != "" ==> r[0] != '/') && Component(r) == if stack == [] then "" else stack[0]
  {
    if stack != [] {
      TailShape(stack[1..], trailing);
      ComponentOf(stack[0], Tail(stack[1..], trailing));
      assert Relative(stack, trailing)[0] == stack[0][0];
    }
  }

  lemma StackFollows(name: string)
    requires !Absolute(name) && name != "" && Above(Component(name), [], name[|Component(name)|..])
    ensures Clean(name) == CleanRelative(name)
  {
    var c := Component(name);
    var rest := name[|c|..];
    AboveAgrees(c, [], rest);
    var p := Resolve(c, [], rest);
    assert [c] + [] == [c] && [] + [c] == [c] && ([c] + p.stack)[1..] == p.stack;
    hide Resolve, EvaluateFrom, Component, Sinks;
  }

  lemma StackDeparts(name: string)
    requires !Absolute(name) && name != "" && !Above(Component(name), [], name[|Component(name)|..])
    ensures Clean(name) != CleanRelative(name)
  {
    var c := Component(name);
    var rest := name[|c|..];
    var p := Resolve(c, [], rest);
    var (stack, trailing) := EvaluateFrom(Taken([], c), rest);
    assert [c] + [] == [c] && [] + [c] == [c];
    hide Component, Sinks, Resolve, EvaluateFrom, Build, Relative, Named;
    TakenNames(c);
    EvaluateNames(Taken([], c), rest);
    if c == "." {
      DotResolves([], rest);
      ResolveIsGood(c, [], rest);
      DotDiffers(p, stack, trailing);
    } else {
      SinkingResolves(c, [], rest);
      SunkDiffers(p, c, stack, trailing);
    }
  }

  lemma TakenNames(c: string)
    requires '/' !in c
    ensures forall i :: 0 <= i < |Taken([], c)| ==> Named(Taken([], c)[i])
  {
  }

  lemma SunkDiffers(p: Path, base: string, stack: seq<string>, trailing: bool)
    requires Sunk(p, base, stack) && forall i :: 0 <= i < |stack| ==> Named(stack[i])
    ensures Build(p) != Relative(stack, trailing)
  {
    hide Component, Named;
    RelativeShape(stack, trailing);
    TailShape(p.stack, p.trailing);
    hide Tail;
    assert p.base == "" ==> Build(p) == Tail(p.stack, p.trailing);
  }

  lemma DotDiffers(p: Path, stack: seq<string>, trailing: bool)
    requires p.base == "." || (p.base == "" && Build(p) != "")
    requires forall i :: 0 <= i < |stack| ==> Named(stack[i])
    ensures Build(p) != Relative(stack, trailing)
  {
    hide Component;
    RelativeShape(stack, trailing);
    TailShape(p.stack, p.trailing);
    ComponentOfBuilt(p);
    hide Tail;
    assert p.base == "" ==> Build(p) == Tail(p.stack, p.trailing);
  }

  /**
  Cleaning a relative path is its evaluation on the stack exactly if its first component is not
  "." and, unless that is "..", the path never goes up from it.
  */
  lemma RelativeFollowsIff(name: string)
    requires !Absolute(name)
    ensures var c := Component(name);
            Clean(name) == CleanRelative(name) <==> name == "" || c == ".." || (c != "." && !Sinks(0, name[|c|..]))
  {
    if name != "" {
      if Above(Component(name), [], name[|Component(name)|..]) {
        StackFollows(name);
      } else {
        StackDeparts(name);
      }
      hide Clean, CleanRelative, Sinks;
    } else {
      assert name[0..] == "";
    }
  }

  /** "./a" is left as it is. */
  lemma DotIsKept(c: string)
    requires Ordinary(c)
    ensures Clean("./" + c) == "./" + c
  {
    TailHead(c, [], false);
    assert Tail([], false) == "" && "/" + c + "" == "/" + c && [c] + [] == [c] && [] + [c] == [c];
    var p := Path(".", [c], false);
    GoodPush(".", [], c);
    ResolveJoin(".", [], [c], false);
    ComponentOfBuilt(p);
    assert "." + ("/" + c) == "./" + c;
    hide Resolve;
  }

  /**
  Two ways to depart: going up from the only component makes the path absolute
  ("a/../b" comes to "/b"), or leaves one character ("ab/.." comes to "a").
  */
  lemma RelativeDeparts(c: string, rest: string)
    requires Ordinary(c) && (rest == "" || rest[0] == '/')
    ensures Clean(c + "/.." + rest) == if rest == "" then c[..1] else Clean(rest)
  {
    var name := c + "/.." + rest;
    assert name == c + ("/" + ".." + rest);
    ComponentOf(c, "/" + ".." + rest);
    assert name[|c|..] == "/" + ".." + rest;
    ResolveStep(c, [], "..", rest);
    assert rest[0..] == rest && (rest != "" ==> Component(rest) == "");
    assert Tail([], false) == "" && c[..1] + "" == c[..1];
    hide Resolve, Tail;
  }

  // ----- the in-place algorithm

  /** The C string in `buf` is `s`. */
  ghost predicate Holds(buf: array<char>, s: string)
    reads buf
  {
    |s| < buf.Length && buf[..|s|] == s && buf[|s|] == '\0'
  }

  /** Overwrite from `p` on: `*p = '\0'; strcat(buf, q)`. */
  method Replace(buf: array<char>, p: nat, q: string, ghost s: string)
    requires Holds(buf, s) && p <= |s| && p + |q| <= |s|
    modifies buf
    ensures Holds(buf, s[..p] + q)
  {
    for k := 0 to |q|
      invariant buf[..p] == s[..p]
      invariant forall j :: p <= j < p + k ==> buf[j] == q[j - p]
    {
      buf[p + k] := q[k];
    }
    buf[p + |q|] := '\0';
    assert buf[..p + |q|] == buf[..p] + buf[p..p + |q|];
  }

  /** `strncmp(p, lit, n) == 0` on the string in the buffer. */
  method StartsWith(buf: array<char>, p: nat, lit: string, ghost s: string) returns (r: bool)
    requires Holds(buf, s) && p <= |s| && '\0' !in lit && '\0' !in s
    ensures r <==> lit <= s[p..]
  {
    for k := 0 to |lit|
      invariant p + k <= |s| && lit[..k] == s[p..p + k]
    {
      assert p + k < |s| ==> buf[p + k] == s[p + k];
      if buf[p + k] != lit[k] {
        return false;
      }
      assert lit[k] == s[p + k];
      assert lit[..k + 1] == lit[..k] + [lit[k]];
    }
    assert lit[..|lit|] == lit;
    r := true;
  }

  /** `strcmp(p, lit) == 0` on the string in the buffer. */
  method EqualsFrom(buf: array<char>, p: nat, lit: string, ghost s: string) returns (r: bool)
    requires Holds(buf, s) && p <= |s| && '\0' !in lit && '\0' !in s
    ensures r <==> lit == s[p..]
  {
    r := StartsWith(buf, p, lit, s);
    if r {
      assert p + |lit| < |s| ==> buf[p + |lit|] == s[p + |lit|];
      r := buf[p + |lit|] == '\0';
    }
  }

  /** `while (p != buf && *--p != '/')`. */
  method BackUp(buf: array<char>, p0: nat, ghost s: string) returns (p: nat)
    requires Holds(buf, s) && p0 <= |s|
    ensures p <= p0 && (p > 0 ==> p < p0 && s[p] == '/') && (p0 > 0 ==> p < p0)
    ensures forall k :: p < k < p0 ==> s[k] != '/'
  {
    p := p0;
    while p != 0
      invariant p <= p0 && forall k :: p <= k < p0 ==> s[k] != '/'
    {
      p := p - 1;
      assert buf[p] == s[p];
      if buf[p] == '/' {
        return;
      }
    }
  }

  /** The text of what is settled. */
  function Settled(base: string, stack: seq<string>): string {
    base + Join(stack)
  }

  lemma SettledShape(base: string, stack: seq<string>)
    ensures stack == [] ==> Settled(base, stack) == base
    ensures stack != [] ==> Settled(base, stack) == Settled(base, Pop(stack)) + "/" + stack[|stack| - 1]
    ensures '/' !in base ==> Settled(base, stack) == "" || Settled(base, stack)[0] != '/' || stack != []
  {
    assert base + "" == base;
    if stack != [] {
      Rejoin(base, Join(Pop(stack)), stack[|stack| - 1]);
    }
  }

  lemma Rejoin(a: string, b: string, c: string)
    ensures a + (b + "/" + c) == (a + b) + "/" + c
  {
  }

  lemma SettledPush(base: string, stack: seq<string>, c: string)
    ensures Settled(base, stack + [c]) == Settled(base, stack) + ("/" + c)
  {
    assert Pop(stack + [c]) == stack;
    SettledShape(base, stack + [c]);
    hide Settled, Join;
    assert Settled(base, stack) + "/" + c == Settled(base, stack) + ("/" + c);
  }

  lemma BuildIs(p: Path)
    ensures Build(p) == Settled(p.base, p.stack) + if p.trailing then "/" else ""
  {
    var end := if p.trailing then "/" else "";
    assert p.base + (Join(p.stack) + end) == (p.base + Join(p.stack)) + end;
  }

  /** Backing up to the last slash takes the top component off, or all of a sole first component. */
  lemma BackUpPops(base: string, stack: seq<string>, s: string, p0: nat, p: nat)
    requires Good(base, stack) && p <= p0 <= |s| && s[..p0] == Settled(base, stack)
    requires (p > 0 ==> p < p0 && s[p] == '/') && (p0 > 0 ==> p < p0) && forall k :: p < k < p0 ==> s[k] != '/'
    ensures stack == [] ==> p == 0
    ensures stack != [] ==> p < p0 && s[..p] == Settled(base, Pop(stack)) && s[p] == '/'
  {
    SettledShape(base, stack);
    hide Settled, Join, Top;
    if stack == [] {
      assert forall k :: 0 <= k < p0 ==> s[k] == s[..p0][k];
    } else {
      var c, under := stack[|stack| - 1], Settled(base, Pop(stack));
      var n := |under|;
      assert '/' !in c;
      assert s[n] == s[..p0][n] == '/';
      assert forall k :: n < k < p0 ==> s[k] == s[..p0][k] == c[k - n - 1];
      assert s[..n] == s[..p0][..n];
    }
  }

  /** The tests of the source recognise ".." on top. */
  lemma TopIsUp(base: string, stack: seq<string>, s: string, p: nat)
    requires Good(base, stack) && p <= |s| && s[..p] == Settled(base, stack)
    ensures (p == 2 && ".." <= s) || (p >= 3 && "/.." <= s[p - 3..]) <==> Top(base, stack) == ".."
  {
    SettledShape(base, stack);
    hide Settled, Join;
    if stack == [] {
      NoSlashNoUp(s, p);
    } else {
      EndsInUp(s, p, Settled(base, Pop(stack)), stack[|stack| - 1]);
    }
  }

  lemma NoSlashNoUp(s: string, p: nat)
    requires p <= |s| && '/' !in s[..p]
    ensures (p == 2 && ".." <= s) || (p >= 3 && "/.." <= s[p - 3..]) <==> s[..p] == ".."
  {
    assert p >= 3 ==> s[p - 3..][0] == s[..p][p - 3];
    assert p == 2 ==> (".." <= s <==> s[..2] == "..");
  }

  lemma EndsInUp(s: string, p: nat, under: string, c: string)
    requires p <= |s| && s[..p] == under + "/" + c && '/' !in c && c != ""
    ensures (p == 2 && ".." <= s) || (p >= 3 && "/.." <= s[p - 3..]) <==> c == ".."
  {
    var t := s[..p];
    assert t[p - |c| - 1] == '/' && t[p - |c|..] == c;
    if p >= 3 {
      LastThree(s, p);
      var z := t[p - 3..];
      assert z[0] == t[p - 3] && z[1] == t[p - 2] && z[2] == t[p - 1];
      assert |c| == 2 ==> c == [t[p - 2], t[p - 1]];
      assert |c| >= 3 ==> t[p - 3] in c;
      assert |c| == 1 ==> t[p - 2] == '/';
    } else {
      assert under == "" && t[0] == '/' && t[0] == s[0];
    }
  }

  lemma LastThree(s: string, p: nat)
    requires 3 <= p <= |s|
    ensures "/.." <= s[p - 3..] <==> s[..p][p - 3..] == "/.."
  {
    assert s[p - 3..][..3] == s[..p][p - 3..];
  }

  /** The scan inside the first component. */
  ghost predicate Beginning(s: string, p: nat, rest: string, goal: Path) {
    && p <= |s| && s[p..] == rest && '/' !in s[..p]
    && goal == Resolve(s[..p] + Component(rest), [], rest[|Component(rest)|..])
  }

  /** The scan behind it: `p` splits the buffer into what is settled and what is left of the input. */
  ghost predicate Scanning(s: string, p: nat, rest: string, base: string, stack: seq<string>, inside: bool, w: string, goal: Path) {
    var open := if inside then "/" + w else "";
    && p <= |s| && s[p..] == rest && s[..p] == Settled(base, stack) + open
    && Good(base, stack) && '/' !in w
    && (inside || rest == "" || rest[0] == '/')
    && (inside ==> var c := w + Component(rest); (c == "" && rest == "") || Ordinary(c))
    && goal == Resolve(base, stack, open + rest)
  }

  lemma BeginContinues(s: string, p: nat, rest: string, goal: Path)
    requires Beginning(s, p, rest, goal) && rest != "" && rest[0] != '/'
    ensures Beginning(s, p + 1, rest[1..], goal)
  {
    hide Resolve;
    var d := Component(rest[1..]);
    assert Component(rest) == [rest[0]] + d;
    hide Component;
    assert s[p] == s[p..][0] == rest[0];
    assert s[..p + 1] == s[..p] + [rest[0]];
    assert s[..p] + ([rest[0]] + d) == s[..p + 1] + d;
    assert rest[1 + |d|..] == rest[1..][|d|..];
    assert s[p + 1..] == s[p..][1..];
  }

  lemma BeginSettles(s: string, p: nat, rest: string, goal: Path)
    requires Beginning(s, p, rest, goal) && (rest == "" || rest[0] == '/')
    ensures Scanning(s, p, rest, s[..p], [], false, "", goal)
  {
    hide Resolve;
    assert Component(rest) == "" && s[..p] + "" == s[..p] && rest[0..] == rest && "" + rest == rest;
    SettledShape(s[..p], []);
    hide Settled, Join;
    assert s[..p] + "" == s[..p];
  }

  lemma ScanPushes(s: string, p: nat, rest: string, base: string, stack: seq<string>, w: string, goal: Path)
    requires Scanning(s, p, rest, base, stack, true, w, goal) && rest != "" && rest[0] == '/'
    ensures Scanning(s, p, rest, base, stack + [w], false, "", goal)
  {
    hide Resolve, Good, Settled, Join;
    assert Component(rest) == "" && w + "" == w;
    GoodPush(base, stack, w);
    ResolveStep(base, stack, w, rest);
    SettledPush(base, stack, w);
    assert Settled(base, stack + [w]) + "" == Settled(base, stack + [w]);
    assert "" + rest == rest && "/" + w + rest == ("/" + w) + rest;
  }

  lemma ScanContinues(s: string, p: nat, rest: string, base: string, stack: seq<string>, w: string, goal: Path)
    requires Scanning(s, p, rest, base, stack, true, w, goal) && rest != "" && rest[0] != '/'
    ensures Scanning(s, p + 1, rest[1..], base, stack, true, w + [rest[0]], goal)
  {
    hide Resolve, Settled, Join, Good, Ordinary;
    var c, d := rest[0], Component(rest[1..]);
    assert Component(rest) == [c] + d;
    hide Component;
    assert s[p] == s[p..][0] == c;
    OneCharacter(s, p, c, Settled(base, stack), w);
    assert "/" + w + rest == "/" + (w + [c]) + rest[1..];
    assert w + ([c] + d) == w + [c] + d;
    assert s[p + 1..] == s[p..][1..];
  }

  lemma OneCharacter(s: string, p: nat, c: char, under: string, w: string)
    requires p < |s| && s[p] == c && s[..p] == under + ("/" + w)
    ensures s[..p + 1] == under + ("/" + (w + [c]))
  {
    assert s[..p + 1] == s[..p] + [c];
  }

  predicate Special(rest: string) {
    "/../" <= rest || rest == "/.." || "/./" <= rest || rest == "/." || "//" <= rest
  }

  lemma NotSpecial(rest: string)
    requires rest != "" && rest[0] == '/' && !Special(rest)
    ensures var c := Component(rest[1..]); (c == "" && rest[1..] == "") || Ordinary(c)
  {
    var tail, c := rest[1..], Component(rest[1..]);
    assert tail == c + tail[|c|..];
    assert rest == "/" + c + tail[|c|..];
  }

  lemma ScanEnters(s: string, p: nat, rest: string, base: string, stack: seq<string>, goal: Path)
    requires Scanning(s, p, rest, base, stack, false, "", goal) && rest != "" && !Special(rest)
    ensures Scanning(s, p + 1, rest[1..], base, stack, true, "", goal)
  {
    NotSpecial(rest);
    hide Resolve, Settled, Join, Component, Good, Ordinary, Special;
    var tail := rest[1..];
    assert "" + Component(tail) == Component(tail);
    assert s[p] == rest[0] && s[..p + 1] == s[..p] + [s[p]];
    assert Settled(base, stack) + ("/" + "") == Settled(base, stack) + "" + "/";
    assert "" + rest == "/" + "" + tail;
    assert s[p + 1..] == s[p..][1..];
  }

  /** A scan that stands at a slash, or at the end. */
  lemma ScanAt(base: string, stack: seq<string>, rest: string, goal: Path)
    requires Good(base, stack) && (rest == "" || rest[0] == '/') && goal == Resolve(base, stack, rest)
    ensures Scanning(Settled(base, stack) + rest, |Settled(base, stack)|, rest, base, stack, false, "", goal)
  {
    hide Resolve, Settled, Join, Good;
    var s, n := Settled(base, stack) + rest, |Settled(base, stack)|;
    assert s[..n] == Settled(base, stack) + "" && s[n..] == rest && "" + rest == rest;
  }

  /** What is left after a component that is dropped or goes up, with more of the path behind it. */
  lemma StepsTo(s: string, p: nat, rest: string, base: string, stack: seq<string>, goal: Path, c: string)
    requires Scanning(s, p, rest, base, stack, false, "", goal) && (c == "" || c == "." || c == "..")
    requires "/" + c + "/" <= rest
    ensures var tail := rest[1 + |c|..];
            && tail != "" && tail[0] == '/'
            && goal == if c == ".." then Resolve(Up(base, stack).0, Up(base, stack).1, tail) else Resolve(base, stack, tail)
  {
    var tail := rest[1 + |c|..];
    assert rest == "/" + c + tail && "" + rest == rest;
    assert tail[0] == ("/" + c + "/")[1 + |c|];
    ResolveStep(base, stack, c, tail);
    hide Resolve, Settled, Join, Good, Up;
  }

  /** The same at the end of the path. */
  lemma EndsAs(s: string, p: nat, rest: string, base: string, stack: seq<string>, goal: Path, c: string)
    requires Scanning(s, p, rest, base, stack, false, "", goal) && (c == "." || c == "..") && rest == "/" + c
    ensures goal == if c == ".." then UpAtEnd(base, stack) else Path(base, stack, true)
  {
    ResolveStep(base, stack, c, "");
    assert "/" + c + "" == rest && "" + rest == rest;
  }

  lemma ScanEnds(s: string, p: nat, base: string, stack: seq<string>, inside: bool, w: string, goal: Path)
    requires Scanning(s, p, "", base, stack, inside, w, goal)
    ensures s == Build(goal)
  {
    assert s == s[..p] + s[p..] && s[..p] + "" == s[..p];
    ResolveSlash(base, stack);
    BuildIs(goal);
    if inside {
      assert w + Component("") == w;
      ResolveStep(base, stack, w, "");
      ResolveSlash(base, stack + [w]);
      SettledPush(base, stack, w);
      assert "/" + w + "" == "/" + w;
    }
    hide Resolve, Settled, Join, Good, Build;
    assert "" + "" == "" && Settled(base, stack) + "" == Settled(base, stack);
    assert Settled(base, stack + [w]) + "" == Settled(base, stack + [w]);
  }

  /** Remove the component behind the slash at `p`: three characters of the input are skipped. */
  method GoUp(buf: array<char>, p0: nat, name: string, q: nat, ghost s: string) returns (p: nat, ghost s': string)
    requires Holds(buf, s) && p0 <= |s| && q + 3 <= |name| && s[p0..] == name[q..]
    modifies buf
    ensures p <= p0 && (p > 0 ==> p < p0 && s[p] == '/') && (p0 > 0 ==> p < p0)
    ensures forall k :: p < k < p0 ==> s[k] != '/'
    ensures s' == s[..p] + name[q + 3..] && Holds(buf, s')
  {
    p := BackUp(buf, p0, s);
    Replace(buf, p, name[q + 3..], s);
    s' := s[..p] + name[q + 3..];
  }

  /** `*++p = '\0'`. */
  method CutAfter(buf: array<char>, p: nat, ghost s: string)
    requires Holds(buf, s) && p < |s|
    modifies buf
    ensures Holds(buf, s[..p + 1])
  {
    buf[p + 1] := '\0';
  }

  lemma ThreeMore(s: string, p: nat, rest: string)
    requires p <= |s| && s[p..] == rest && "/../" <= rest
    ensures p + 3 <= |s| && s[..p + 3] == s[..p] + "/.."
  {
    assert s[p..p + 3] == rest[..3] == "/../"[..3] == "/..";
  }

  /** The branch that keeps "/..". */
  lemma UpStays(s: string, p: nat, rest: string, base: string, stack: seq<string>, goal: Path)
    requires Scanning(s, p, rest, base, stack, false, "", goal) && "/../" <= rest && Top(base, stack) == ".."
    ensures Scanning(s, p + 3, rest[3..], base, stack + [".."], false, "", goal)
  {
    hide Resolve, Good, Settled, Join;
    assert "/" + ".." + "/" == "/../" && "/" + ".." == "/..";
    StepsTo(s, p, rest, base, stack, goal, "..");
    GoodPush(base, stack, "..");
    SettledPush(base, stack, "..");
    assert Settled(base, stack) + "" == Settled(base, stack);
    assert Settled(base, stack + [".."]) + "" == Settled(base, stack + [".."]);
    ThreeMore(s, p, rest);
    assert "" + rest[3..] == rest[3..] && s[p + 3..] == s[p..][3..];
  }

  /** The branch that goes up. */
  lemma UpDrops(s: string, p: nat, rest: string, base: string, stack: seq<string>, goal: Path, p': nat)
    requires Scanning(s, p, rest, base, stack, false, "", goal) && "/../" <= rest && Top(base, stack) != ".."
    requires p' <= p && (p' > 0 ==> p' < p && s[p'] == '/') && (p > 0 ==> p' < p)
    requires forall k :: p' < k < p ==> s[k] != '/'
    ensures Scanning(s[..p'] + rest[3..], p', rest[3..], Up(base, stack).0, Up(base, stack).1, false, "", goal)
  {
    assert Settled(base, stack) + "" == Settled(base, stack);
    BackUpPops(base, stack, s, p, p');
    assert "/" + ".." + "/" == "/../";
    StepsTo(s, p, rest, base, stack, goal, "..");
    GoodUp(base, stack);
    SettledShape("", []);
    hide Resolve, Good, Settled, Join;
    assert s[..0] == "";
    ScanAt(Up(base, stack).0, Up(base, stack).1, rest[3..], goal);
  }

  lemma UpStaysAtEnd(s: string, p: nat, base: string, stack: seq<string>, goal: Path)
    requires Scanning(s, p, "/..", base, stack, false, "", goal) && Top(base, stack) == ".."
    ensures s == Build(goal)
  {
    assert "/" + ".." == "/..";
    EndsAs(s, p, "/..", base, stack, goal, "..");
    SettledPush(base, stack, "..");
    BuildIs(goal);
    hide Resolve, Good, Settled, Join, Build;
    assert s == s[..p] + s[p..];
    assert Settled(base, stack) + "" == Settled(base, stack);
    assert Settled(base, stack + [".."]) + "" == Settled(base, stack + [".."]);
  }

  lemma UpEnds(s: string, p: nat, base: string, stack: seq<string>, goal: Path, p': nat)
    requires Scanning(s, p, "/..", base, stack, false, "", goal) && Top(base, stack) != ".."
    requires p' <= p && (p' > 0 ==> p' < p && s[p'] == '/') && (p > 0 ==> p' < p)
    requires forall k :: p' < k < p ==> s[k] != '/'
    ensures s[..p' + 1] == Build(goal)
  {
    hide Resolve, Good, Settled, Join, Build;
    assert Settled(base, stack) + "" == Settled(base, stack);
    BackUpPops(base, stack, s, p, p');
    assert "/" + ".." == "/..";
    EndsAs(s, p, "/..", base, stack, goal, "..");
    BuildIs(goal);
    assert s[..p' + 1] == s[..p'] + [s[p']];
    if stack == [] {
      SettledShape(base, []);
      SettledShape(goal.base, []);
      SoleUpEnds(s, p, base);
    }
  }

  lemma SoleUpEnds(s: string, p: nat, base: string)
    requires p <= |s| && s[..p] == base && s[p..] == "/.."
    ensures s[..1] == if base == "" then "" + "/" else base[..1] + ""
  {
    if base == "" {
      assert s[0] == s[p..][0];
    } else {
      assert s[0] == s[..p][0] && s[..1] == [s[0]] && base[..1] == [base[0]];
    }
  }

  lemma DotEnds(s: string, p: nat, base: string, stack: seq<string>, goal: Path)
    requires Scanning(s, p, "/.", base, stack, false, "", goal)
    ensures s[..p + 1] == Build(goal)
  {
    assert "/" + "." == "/.";
    EndsAs(s, p, "/.", base, stack, goal, ".");
    BuildIs(goal);
    hide Resolve, Good, Settled, Join, Build;
    assert s[p] == s[p..][0] && s[..p + 1] == s[..p] + [s[p]];
    assert Settled(base, stack) + "" == Settled(base, stack);
  }

  lemma DotDrops(s: string, p: nat, rest: string, base: string, stack: seq<string>, goal: Path, c: string)
    requires Scanning(s, p, rest, base, stack, false, "", goal) && (c == "" || c == ".") && "/" + c + "/" <= rest
    ensures Scanning(s[..p] + rest[1 + |c|..], p, rest[1 + |c|..], base, stack, false, "", goal)
  {
    StepsTo(s, p, rest, base, stack, goal, c);
    ScanAt(base, stack, rest[1 + |c|..], goal);
    hide Resolve, Good, Settled, Join;
    assert Settled(base, stack) + "" == Settled(base, stack);
  }

  /** What the scan has settled so far, for the proof only; `first` while it is inside the first component. */
  datatype Scan = Scan(s: string, first: bool, base: string, stack: seq<string>, inside: bool, w: string)

  ghost predicate Invariant(buf: array<char>, name: string, p: nat, q: nat, sc: Scan, goal: Path)
    reads buf
  {
    && q <= |name| && p <= |sc.s| <= |name| && '\0' !in sc.s && '\0' !in name
    && Holds(buf, sc.s) && sc.s[p..] == name[q..] && (!sc.inside ==> sc.w == "")
    && if sc.first then !sc.inside && Beginning(sc.s, p, name[q..], goal)
       else Scanning(sc.s, p, name[q..], sc.base, sc.stack, sc.inside, sc.w, goal)
  }

  /** A complete component is settled as soon as the slash behind it is reached. */
  lemma Settle(buf: array<char>, name: string, p: nat, q: nat, sc0: Scan, goal: Path) returns (sc: Scan)
    requires Invariant(buf, name, p, q, sc0, goal)
    ensures Invariant(buf, name, p, q, sc, goal) && sc.s == sc0.s
    ensures q < |name| ==> name[q..][0] == name[q] && (if name[q] == '/' then !sc.inside && !sc.first else sc.first || sc.inside)
    ensures q == |name| ==> !sc.first
    ensures Holds(buf, sc.s) && p <= |sc.s| <= |name| && '\0' !in sc.s && sc.s[p..] == name[q..]
  {
    hide Resolve, Good, Settled, Join;
    sc := sc0;
    if q == |name| || name[q] == '/' {
      if sc.first {
        BeginSettles(sc0.s, p, name[q..], goal);
        sc := Scan(sc.s, false, sc.s[..p], [], false, "");
      } else if sc.inside && q < |name| {
        ScanPushes(sc0.s, p, name[q..], sc0.base, sc0.stack, sc0.w, goal);
        sc := sc.(stack := sc.stack + [sc.w], inside := false, w := "");
      }
    }
  }

  /** The tests of the two ".." branches for a path that starts with "..". */
  method RelativeUp(buf: array<char>, p: nat, ghost s: string) returns (r: bool)
    requires Holds(buf, s) && p <= |s| && '\0' !in s
    ensures r <==> (p == 2 && ".." <= s) || (p >= 3 && "/.." <= s[p - 3..])
  {
    r := false;
    if p == 2 {
      r := StartsWith(buf, 0, "..", s);
      assert s[0..] == s;
    } else if p >= 3 {
      r := StartsWith(buf, p - 3, "/..", s);
    }
  }

  lemma SettledIs(buf: array<char>, name: string, p: nat, q: nat, sc: Scan, goal: Path)
    requires Invariant(buf, name, p, q, sc, goal) && !sc.inside && !sc.first
    ensures Good(sc.base, sc.stack) && p <= |sc.s| && sc.s[..p] == Settled(sc.base, sc.stack)
    ensures Scanning(sc.s, p, name[q..], sc.base, sc.stack, false, "", goal)
    ensures q <= |name| && |sc.s| <= |name| && '\0' !in sc.s && '\0' !in name && Holds(buf, sc.s) && sc.s[p..] == name[q..] && sc.w == ""
  {
    hide Resolve, Good, Settled, Join;
    assert Settled(sc.base, sc.stack) + "" == Settled(sc.base, sc.stack);
  }

  /** The branch for "/../". */
  method StepUp(buf: array<char>, name: string, p: nat, q: nat, ghost sc: Scan, ghost goal: Path)
    returns (p': nat, q': nat, ghost sc': Scan)
    requires Invariant(buf, name, p, q, sc, goal) && "/../" <= name[q..] && !sc.inside && !sc.first
    modifies buf
    ensures q' > q && Invariant(buf, name, p', q', sc', goal)
  {
    hide *;
    SettledIs(buf, name, p, q, sc, goal);
    TopIsUp(sc.base, sc.stack, sc.s, p);
    var relative := RelativeUp(buf, p, sc.s);
    q' := q + 3;
    assert name[q..][3..] == name[q'..];
    if relative {
      p', sc' := p + 3, sc.(stack := sc.stack + [".."]);
      assert sc.s[p'..] == sc.s[p..][3..];
      UpStays(sc.s, p, name[q..], sc.base, sc.stack, goal);
    } else {
      ghost var s';
      p', s' := GoUp(buf, p, name, q, sc.s);
      sc' := Scan(s', false, Up(sc.base, sc.stack).0, Up(sc.base, sc.stack).1, false, "");
      AfterGoUp(sc.s, p, p', name, q);
      UpDrops(sc.s, p, name[q..], sc.base, sc.stack, goal, p');
    }
    IsInvariant(buf, name, p', q', sc', goal);
  }

  lemma AfterGoUp(s: string, p: nat, p': nat, name: string, q: nat)
    requires p' <= p <= |s| <= |name| && q + 3 <= |name| && s[p..] == name[q..] && '\0' !in s && '\0' !in name
    ensures var s' := s[..p'] + name[q + 3..]; |s'| <= |name| && '\0' !in s' && s'[p'..] == name[q + 3..]
  {
  }

  lemma IsInvariant(buf: array<char>, name: string, p: nat, q: nat, sc: Scan, goal: Path)
    requires q <= |name| && p <= |sc.s| <= |name| && '\0' !in sc.s && '\0' !in name
    requires Holds(buf, sc.s) && sc.s[p..] == name[q..] && !sc.inside && sc.w == "" && !sc.first
    requires Scanning(sc.s, p, name[q..], sc.base, sc.stack, sc.inside, sc.w, goal)
    ensures Invariant(buf, name, p, q, sc, goal)
  {
    hide Scanning;
  }

  /** The branch for "/.." at the end. */
  method EndUp(buf: array<char>, name: string, p: nat, q: nat, ghost sc: Scan, ghost goal: Path) returns (ghost s': string)
    requires Invariant(buf, name, p, q, sc, goal) && "/.." == name[q..] && !sc.inside && !sc.first
    modifies buf
    ensures |s'| <= |name| && '\0' !in s' && Holds(buf, s') && s' == Build(goal)
  {
    SettledIs(buf, name, p, q, sc, goal);
    TopIsUp(sc.base, sc.stack, sc.s, p);
    hide Scanning, Good, Join, Top, Build, Beginning;
    var relative := RelativeUp(buf, p, sc.s);
    s' := sc.s;
    if relative {
      UpStaysAtEnd(sc.s, p, sc.base, sc.stack, goal);
    } else {
      var p' := BackUp(buf, p, sc.s);
      CutAfter(buf, p', sc.s);
      s' := sc.s[..p' + 1];
      UpEnds(sc.s, p, sc.base, sc.stack, goal, p');
    }
  }

  /** The branches for "/./" and "//". */
  method StepOver(buf: array<char>, name: string, p: nat, q: nat, ghost c: string, skip: nat, ghost sc: Scan, ghost goal: Path)
    returns (ghost sc': Scan)
    requires Invariant(buf, name, p, q, sc, goal) && (c == "" || c == ".") && skip == 1 + |c|
    requires "/" + c + "/" <= name[q..] && !sc.inside && !sc.first
    modifies buf
    ensures q + skip <= |name| && Invariant(buf, name, p, q + skip, sc', goal)
  {
    hide Scanning, Beginning;
    assert name[q..][skip..] == name[q + skip..];
    DotDrops(sc.s, p, name[q..], sc.base, sc.stack, goal, c);
    Replace(buf, p, name[q + skip..], sc.s);
    sc' := sc.(s := sc.s[..p] + name[q + skip..]);
  }

  /** The branch for "/." at the end. */
  method EndDot(buf: array<char>, name: string, p: nat, q: nat, ghost sc: Scan, ghost goal: Path) returns (ghost s': string)
    requires Invariant(buf, name, p, q, sc, goal) && "/." == name[q..] && !sc.inside && !sc.first
    modifies buf
    ensures |s'| <= |name| && '\0' !in s' && Holds(buf, s') && s' == Build(goal)
  {
    hide Scanning, Beginning, Build;
    CutAfter(buf, p, sc.s);
    s' := sc.s[..p + 1];
    DotEnds(sc.s, p, sc.base, sc.stack, goal);
  }

  /** `p++; q++`. */
  ghost function Stepped(name: string, q: nat, sc: Scan): Scan
    requires q < |name|
  {
    if sc.first then sc else if sc.inside then sc.(w := sc.w + [name[q]]) else sc.(inside := true)
  }

  lemma StepOn(buf: array<char>, name: string, p: nat, q: nat, sc: Scan, goal: Path)
    requires Invariant(buf, name, p, q, sc, goal) && q < |name|
    requires if name[q] == '/' then !sc.inside && !sc.first && !Special(name[q..]) else sc.first || sc.inside
    ensures Invariant(buf, name, p + 1, q + 1, Stepped(name, q, sc), goal)
  {
    hide Scanning, Beginning;
    assert name[q..][1..] == name[q + 1..] && sc.s[p + 1..] == sc.s[p..][1..] && |sc.s[p..]| > 0;
    if sc.first {
      BeginContinues(sc.s, p, name[q..], goal);
    } else if sc.inside {
      ScanContinues(sc.s, p, name[q..], sc.base, sc.stack, sc.w, goal);
    } else {
      ScanEnters(sc.s, p, name[q..], sc.base, sc.stack, goal);
    }
  }

  lemma NoneSpecial(rest: string)
    requires !("/../" <= rest) && rest != "/.." && !("/./" <= rest) && rest != "/." && !("//" <= rest)
    ensures !Special(rest)
  {
  }

  /** One turn of the loop; `stop` is the `break`. */
  method Turn(buf: array<char>, name: string, p: nat, q: nat, ghost sc0: Scan, ghost goal: Path)
    returns (p': nat, q': nat, stop: bool, ghost sc': Scan)
    requires Invariant(buf, name, p, q, sc0, goal) && q < |name|
    modifies buf
    ensures !stop ==> q' > q && Invariant(buf, name, p', q', sc', goal)
    ensures stop ==> |sc'.s| <= |name| && '\0' !in sc'.s && Holds(buf, sc'.s) && sc'.s == Build(goal)
  {
    hide *;
    ghost var sc := Settle(buf, name, p, q, sc0, goal);
    p', q', stop, sc' := p, q, false, sc;
    var up := StartsWith(buf, p, "/../", sc.s);
    if up {
      p', q', sc' := StepUp(buf, name, p, q, sc, goal);
      return;
    }
    var upEnd := EqualsFrom(buf, p, "/..", sc.s);
    if upEnd {
      ghost var s' := EndUp(buf, name, p, q, sc, goal);
      stop, sc' := true, sc.(s := s');
      return;
    }
    var dot := StartsWith(buf, p, "/./", sc.s);
    if dot {
      sc' := StepOver(buf, name, p, q, ".", 2, sc, goal);
      q' := q + 2;
      return;
    }
    var dotEnd := EqualsFrom(buf, p, "/.", sc.s);
    if dotEnd {
      ghost var s' := EndDot(buf, name, p, q, sc, goal);
      stop, sc' := true, sc.(s := s');
      return;
    }
    var double := StartsWith(buf, p, "//", sc.s);
    if double {
      sc' := StepOver(buf, name, p, q, "", 1, sc, goal);
      q' := q + 1;
      return;
    }
    NoneSpecial(name[q..]);
    StepOn(buf, name, p, q, sc, goal);
    p', q', sc' := p + 1, q + 1, Stepped(name, q, sc);
  }

  /** The path that cleaning aims at. */
  ghost function Goal(name: string): (goal: Path)
    ensures Build(goal) == Clean(name)
  {
    Resolve(Component(name), [], name[|Component(name)|..])
  }

  lemma Started(buf: array<char>, name: string)
    requires '\0' !in name && Holds(buf, name)
    ensures Invariant(buf, name, 0, 0, Scan(name, true, "", [], false, ""), Goal(name))
  {
    hide Resolve, Build, Clean;
    assert name[0..] == name && name[..0] == "" && "" + Component(name) == Component(name);
  }

  lemma Finished(buf: array<char>, name: string, p: nat, q: nat, sc0: Scan, goal: Path)
    requires Invariant(buf, name, p, q, sc0, goal) && q == |name|
    ensures |sc0.s| <= |name| && '\0' !in sc0.s && Holds(buf, sc0.s) && sc0.s == Build(goal)
  {
    var sc := Settle(buf, name, p, q, sc0, goal);
    hide Scanning, Build;
    ScanEnds(sc.s, p, sc.base, sc.stack, sc.inside, sc.w, goal);
  }

  /** The string a C buffer holds. */
  method CString(buf: array<char>, ghost s: string) returns (r: string)
    requires Holds(buf, s) && '\0' !in s
    ensures r == s
  {
    var n := 0;
    while buf[n] != '\0'
      invariant n <= |s|
      decreases |s| - n
    {
      n := n + 1;
    }
    r := buf[..n];
  }

  /** `cleanupName`: for every path its clean form, which for an absolute one is what the stack gives. */
  method CleanupName(name: string) returns (r: string)
    requires '\0' !in name
    ensures r == Clean(name) && |r| <= |name|
    ensures Absolute(name) ==> var (stack, trailing) := Evaluate([], name); r == Tail(stack, trailing)
  {
    var buf := new char[|name| + 1](_ => '\0');
    for i := 0 to |name|
      invariant buf[|name|] == '\0' && buf[..i] == name[..i]
    {
      buf[i] := name[i];
    }
    assert Holds(buf, name);
    var p, q, stop := 0, 0, false;
    ghost var goal, sc := Goal(name), Scan(name, true, "", [], false, "");
    hide *;
    Started(buf, name);
    while q < |name| && !stop
      invariant !stop ==> Invariant(buf, name, p, q, sc, goal)
      invariant stop ==> |sc.s| <= |name| && '\0' !in sc.s && Holds(buf, sc.s) && sc.s == Build(goal)
      decreases !stop, |name| - q
    {
      p, q, stop, sc := Turn(buf, name, p, q, sc, goal);
    }
    if !stop {
      Finished(buf, name, p, q, sc, goal);
    }
    r := CString(buf, sc.s);
    if Absolute(name) {
      CleanAbsolute(name);
    }
  }
}
