/**
Triangular solves, `LUsolve` and `LUinverse` of w3m/matrix.c, over exact reals.

Both triangular solves may read and write the same vector, and both skip a run of
zeros at the end where they start.
*/
module LuSolve {
  import opened LuFactor

  // ----- sums and systems of equations

  /** Sum of row[j] * x[j] for lo <= j < hi. */
  ghost function RowSum(row: seq<real>, x: seq<real>, lo: nat, hi: nat): real
    requires hi <= |row| && hi <= |x|
    decreases hi
  {
    if hi <= lo then 0.0 else RowSum(row, x, lo, hi - 1) + Times(row[hi - 1], x[hi - 1])
  }

  /** The diagonal entry in force: `diag` overrides the matrix unless it is zero. */
  function Diagonal(m: Mat, i: nat, diag: real): real
    requires Square(m, |m|) && i < |m|
  {
    if diag == 0.0 then m[i][i] else diag
  }

  ghost predicate LowerRow(m: Mat, b: seq<real>, x: seq<real>, diag: real, i: nat)
    requires Square(m, |m|) && |b| == |x| == |m| && i < |m|
  {
    b[i] == RowSum(m[i], x, 0, i) + Times(Diagonal(m, i, diag), x[i])
  }

  ghost predicate UpperRow(m: Mat, b: seq<real>, x: seq<real>, diag: real, i: nat)
    requires Square(m, |m|) && |b| == |x| == |m| && i < |m|
  {
    b[i] == Times(Diagonal(m, i, diag), x[i]) + RowSum(m[i], x, i + 1, |m|)
  }

  ghost predicate LowerSolved(m: Mat, b: seq<real>, x: seq<real>, diag: real) {
    Square(m, |m|) && |b| == |x| == |m| && forall i :: 0 <= i < |m| ==> LowerRow(m, b, x, diag, i)
  }

  ghost predicate UpperSolved(m: Mat, b: seq<real>, x: seq<real>, diag: real) {
    Square(m, |m|) && |b| == |x| == |m| && forall i :: 0 <= i < |m| ==> UpperRow(m, b, x, diag, i)
  }

  /** The test that makes a triangular solve give up at row `i`. */
  predicate TooSmall(entry: real, sum: real, tiny: real) {
    Abs(entry) <= tiny * Abs(sum)
  }

  /** Row `i` is the first, going down, at which forward elimination gives up. */
  ghost predicate LowerStuck(m: Mat, b: seq<real>, x: seq<real>, tiny: real, i: nat) {
    && Square(m, |m|) && |b| == |x| == |m| && i < |m|
    && (forall t :: 0 <= t < i ==> LowerRow(m, b, x, 0.0, t))
    && TooSmall(m[i][i], b[i] - RowSum(m[i], x, 0, i), tiny)
    && exists t :: 0 <= t <= i && b[t] != 0.0
  }

  /** At threshold zero only a zero on the diagonal is too small. */
  lemma NeverStuck(m: Mat)
    ensures forall b, x, i: nat :: UpperStuck(m, b, x, 0.0, i) ==> m[i][i] == 0.0
  {
  }

  /** Row `i` is the first, going up, at which back substitution gives up. */
  ghost predicate UpperStuck(m: Mat, b: seq<real>, x: seq<real>, tiny: real, i: nat) {
    && Square(m, |m|) && |b| == |x| == |m| && i < |m|
    && (forall t :: i < t < |m| ==> UpperRow(m, b, x, 0.0, t))
    && TooSmall(m[i][i], b[i] - RowSum(m[i], x, i + 1, |m|), tiny)
    && exists t :: i <= t < |m| && b[t] != 0.0
  }

  lemma {:induction false} RowSumSame(row: seq<real>, x: seq<real>, x': seq<real>, lo: nat, hi: nat)
    requires hi <= |row| && hi <= |x| && hi <= |x'|
    requires forall j :: lo <= j < hi ==> x[j] == x'[j]
    ensures RowSum(row, x, lo, hi) == RowSum(row, x', lo, hi)
    decreases hi
  {
    hide Times;
    if lo < hi {
      RowSumSame(row, x, x', lo, hi - 1);
    }
  }

  lemma {:induction false} RowSumDropsHead(row: seq<real>, x: seq<real>, lo: nat, mid: nat, hi: nat)
    requires lo <= mid <= hi <= |row| && hi <= |x|
    requires forall j :: lo <= j < mid ==> x[j] == 0.0
    ensures RowSum(row, x, lo, hi) == RowSum(row, x, mid, hi)
    decreases hi
  {
    hide Times;
    if lo < hi {
      TimesLaws(row[hi - 1], x[hi - 1]);
      RowSumDropsHead(row, x, lo, if mid < hi then mid else hi - 1, hi - 1);
    }
  }

  lemma {:induction false} RowSumDropsTail(row: seq<real>, x: seq<real>, lo: nat, mid: nat, hi: nat)
    requires mid <= hi <= |row| && hi <= |x|
    requires forall j :: mid <= j < hi ==> x[j] == 0.0
    ensures RowSum(row, x, lo, hi) == RowSum(row, x, lo, mid)
    decreases hi
  {
    hide Times;
    if lo < hi && mid < hi {
      TimesLaws(row[hi - 1], x[hi - 1]);
      RowSumDropsTail(row, x, lo, mid, hi - 1);
    }
  }

  // ----- the triangular solves

  /** Rows above `i` are solved, rows above `lim` being the skipped zeros. */
  ghost predicate LowerSoFar(m: Mat, b: seq<real>, x: seq<real>, diag: real, tiny: real, lim: nat, i: nat) {
    && Square(m, |m|) && |b| == |x| == |m| && lim <= i <= |m|
    && (forall j :: 0 <= j < lim ==> b[j] == 0.0 && x[j] == 0.0)
    && (forall t :: 0 <= t < i ==> LowerRow(m, b, x, diag, t))
    && (diag == 0.0 ==> forall t :: lim <= t < i ==> !TooSmall(m[t][t], b[t] - RowSum(m[t], x, 0, t), tiny))
  }

  lemma LowerStart(m: Mat, b: seq<real>, x: seq<real>, diag: real, tiny: real, lim: nat)
    requires Square(m, |m|) && |b| == |x| == |m| && lim <= |m|
    requires forall j :: 0 <= j < lim ==> b[j] == 0.0 && x[j] == 0.0
    ensures LowerSoFar(m, b, x, diag, tiny, lim, lim)
  {
    hide Times;
    forall t | 0 <= t < lim
      ensures LowerRow(m, b, x, diag, t)
    {
      TimesLaws(Diagonal(m, t, diag), x[t]);
      RowSumDropsHead(m[t], x, 0, t, t);
    }
  }

  lemma LowerExtends(m: Mat, b: seq<real>, x: seq<real>, diag: real, tiny: real, lim: nat, i: nat, v: real)
    requires LowerSoFar(m, b, x, diag, tiny, lim, i) && i < |m|
    requires b[i] == RowSum(m[i], x, 0, i) + Times(Diagonal(m, i, diag), v)
    requires diag == 0.0 ==> !TooSmall(m[i][i], b[i] - RowSum(m[i], x, 0, i), tiny)
    ensures LowerSoFar(m, b, x[i := v], diag, tiny, lim, i + 1)
  {
    hide Times;
    var x' := x[i := v];
    forall t | 0 <= t <= i
      ensures RowSum(m[t], x, 0, t) == RowSum(m[t], x', 0, t) && LowerRow(m, b, x', diag, t)
    {
      RowSumSame(m[t], x, x', 0, t);
      assert t < i ==> LowerRow(m, b, x, diag, t);
    }
  }

  lemma LowerStops(m: Mat, b: seq<real>, x: seq<real>, tiny: real, lim: nat, i: nat)
    requires LowerSoFar(m, b, x, 0.0, tiny, lim, i) && i < |m| && b[lim] != 0.0
    requires TooSmall(m[i][i], b[i] - RowSum(m[i], x, 0, i), tiny)
    ensures exists r :: LowerStuck(m, b, x, tiny, r)
  {
    hide Times;
    assert LowerStuck(m, b, x, tiny, i);
  }

  lemma LowerDone(m: Mat, b: seq<real>, x: seq<real>, diag: real, tiny: real, lim: nat)
    requires LowerSoFar(m, b, x, diag, tiny, lim, |m|)
    ensures LowerSolved(m, b, x, diag)
    ensures diag == 0.0 ==> forall i :: !LowerStuck(m, b, x, tiny, i)
  {
    hide Times;
  }

  ghost predicate UpperSoFar(m: Mat, b: seq<real>, x: seq<real>, diag: real, tiny: real, lim: int, i: int) {
    && Square(m, |m|) && |b| == |x| == |m| && -1 <= i <= lim < |m|
    && (forall j :: lim < j < |m| ==> b[j] == 0.0 && x[j] == 0.0)
    && (forall t :: i < t < |m| ==> UpperRow(m, b, x, diag, t))
    && (diag == 0.0 ==> forall t :: i < t <= lim ==> !TooSmall(m[t][t], b[t] - RowSum(m[t], x, t + 1, |m|), tiny))
  }

  lemma UpperStart(m: Mat, b: seq<real>, x: seq<real>, diag: real, tiny: real, lim: int)
    requires Square(m, |m|) && |b| == |x| == |m| && -1 <= lim < |m|
    requires forall j :: lim < j < |m| ==> b[j] == 0.0 && x[j] == 0.0
    ensures UpperSoFar(m, b, x, diag, tiny, lim, lim)
  {
    hide Times;
    forall t | lim < t < |m|
      ensures UpperRow(m, b, x, diag, t)
    {
      TimesLaws(Diagonal(m, t, diag), x[t]);
      RowSumDropsTail(m[t], x, t + 1, t + 1, |m|);
    }
  }

  lemma UpperExtends(m: Mat, b: seq<real>, x: seq<real>, diag: real, tiny: real, lim: int, i: nat, v: real)
    requires UpperSoFar(m, b, x, diag, tiny, lim, i)
    requires b[i] == Times(Diagonal(m, i, diag), v) + RowSum(m[i], x, i + 1, |m|)
    requires diag == 0.0 ==> !TooSmall(m[i][i], b[i] - RowSum(m[i], x, i + 1, |m|), tiny)
    ensures UpperSoFar(m, b, x[i := v], diag, tiny, lim, i - 1)
  {
    hide Times;
    var x' := x[i := v];
    forall t | i <= t < |m|
      ensures RowSum(m[t], x, t + 1, |m|) == RowSum(m[t], x', t + 1, |m|) && UpperRow(m, b, x', diag, t)
    {
      RowSumSame(m[t], x, x', t + 1, |m|);
      assert i < t ==> UpperRow(m, b, x, diag, t);
    }
  }

  lemma UpperStops(m: Mat, b: seq<real>, x: seq<real>, tiny: real, lim: int, i: nat)
    requires UpperSoFar(m, b, x, 0.0, tiny, lim, i) && b[lim] != 0.0
    requires TooSmall(m[i][i], b[i] - RowSum(m[i], x, i + 1, |m|), tiny)
    ensures exists r :: UpperStuck(m, b, x, tiny, r)
  {
    hide Times;
    assert UpperStuck(m, b, x, tiny, i);
  }

  lemma UpperDone(m: Mat, b: seq<real>, x: seq<real>, diag: real, tiny: real, lim: int)
    requires UpperSoFar(m, b, x, diag, tiny, lim, -1)
    ensures UpperSolved(m, b, x, diag)
    ensures diag == 0.0 ==> forall i :: !UpperStuck(m, b, x, tiny, i)
  {
    hide Times;
  }

  /** The inner loop of both solves; entries outside lo .. hi contribute nothing. */
  method Residual(mat: array2<real>, x: array<real>, i: nat, lo: nat, hi: nat, start: real, ghost first: nat, ghost last: nat)
    returns (sum: real)
    requires mat.Length0 == mat.Length1 == x.Length && i < x.Length
    requires first <= lo <= hi <= last <= x.Length
    requires forall j :: first <= j < lo || hi <= j < last ==> x[j] == 0.0
    ensures sum == start - RowSum(Rows(mat)[i], x[..], first, last)
  {
    sum := start;
    for j := lo to hi
      invariant sum == start - RowSum(Rows(mat)[i], x[..], lo, j)
    {
      sum := sum - Times(mat[i, j], x[j]);
    }
    RowSumDropsHead(Rows(mat)[i], x[..], first, lo, hi);
    RowSumDropsTail(Rows(mat)[i], x[..], first, hi, last);
  }

  /** The division at the end of a row, refused when the diagonal entry is too small. */
  method Quotient(entry: real, diag: real, tiny: real, sum: real) returns (stuck: bool, v: real)
    requires tiny >= 0.0
    ensures stuck <==> diag == 0.0 && TooSmall(entry, sum, tiny)
    ensures !stuck ==> Times(if diag == 0.0 then entry else diag, v) == sum
  {
    if diag == 0.0 {
      stuck, v := TooSmall(entry, sum, tiny), 0.0;
      if !stuck {
        assert tiny * Abs(sum) >= 0.0;
        v := sum / entry;
      }
    } else {
      stuck, v := false, sum / diag;
    }
  }

  method SkipLeadingZeros(b: array<real>, out: array<real>) returns (i: nat)
    requires b.Length == out.Length
    modifies out
    ensures i <= b.Length && (i < b.Length ==> old(b[i]) != 0.0)
    ensures forall j :: 0 <= j < i ==> old(b[j]) == 0.0 && out[j] == 0.0
    ensures forall j :: i <= j < b.Length ==> b[j] == old(b[j])
  {
    i := 0;
    while i < b.Length && b[i] == 0.0
      invariant i <= b.Length
      invariant forall j :: i <= j < b.Length ==> b[j] == old(b[j])
      invariant forall j :: 0 <= j < i ==> old(b[j]) == 0.0 && out[j] == 0.0
    {
      out[i] := 0.0;
      i := i + 1;
    }
  }

  method SkipTrailingZeros(b: array<real>, out: array<real>) returns (i: int)
    requires b.Length == out.Length
    modifies out
    ensures -1 <= i < b.Length && (i >= 0 ==> old(b[i]) != 0.0)
    ensures forall j :: i < j < b.Length ==> old(b[j]) == 0.0 && out[j] == 0.0
    ensures forall j :: 0 <= j <= i ==> b[j] == old(b[j])
  {
    i := b.Length - 1;
    while i >= 0 && b[i] == 0.0
      invariant -1 <= i < b.Length
      invariant forall j :: 0 <= j <= i ==> b[j] == old(b[j])
      invariant forall j :: i < j < b.Length ==> old(b[j]) == 0.0 && out[j] == 0.0
    {
      out[i] := 0.0;
      i := i - 1;
    }
  }

  /** `Lsolve`: forward elimination, in place when `b` and `out` are the same vector. */
  method Lsolve(mat: array2<real>, b: array<real>, out: array<real>, diag: real, tiny: real) returns (r: int)
    requires mat.Length0 == mat.Length1 == b.Length == out.Length && tiny >= 0.0
    modifies out
    ensures r == 0 || r == -1
    ensures r == 0 ==> LowerSolved(Rows(mat), old(b[..]), out[..], diag)
    ensures r == 0 && diag == 0.0 ==> forall i :: !LowerStuck(Rows(mat), old(b[..]), out[..], tiny, i)
    ensures r == -1 ==> diag == 0.0 && exists i :: LowerStuck(Rows(mat), old(b[..]), out[..], tiny, i)
  {
    hide Times;
    ghost var m, b0 := Rows(mat), b[..];
    var i := SkipLeadingZeros(b, out);
    var iLim := i;
    LowerStart(m, b0, out[..], diag, tiny, iLim);
    while i < mat.Length0
      invariant LowerSoFar(m, b0, out[..], diag, tiny, iLim, i)
      invariant i < mat.Length0 ==> b0[iLim] != 0.0
      invariant forall j :: i <= j < mat.Length0 ==> b[j] == b0[j]
    {
      ghost var x := out[..];
      var sum := Residual(mat, out, i, iLim, i, b[i], 0, i);
      var stuck, v := Quotient(mat[i, i], diag, tiny, sum);
      if stuck {
        LowerStops(m, b0, out[..], tiny, iLim, i);
        assert Rows(mat) == m && b0 == old(b[..]);
        return -1;
      }
      out[i] := v;
      LowerExtends(m, b0, x, diag, tiny, iLim, i, v);
      assert out[..] == x[i := v];
      i := i + 1;
    }
    LowerDone(m, b0, out[..], diag, tiny, iLim);
    r := 0;
  }

  /** `Usolve`: back substitution, in place when `b` and `out` are the same vector. */
  method Usolve(mat: array2<real>, b: array<real>, out: array<real>, diag: real, tiny: real) returns (r: int)
    requires mat.Length0 == mat.Length1 == b.Length == out.Length && tiny >= 0.0
    modifies out
    ensures r == 0 || r == -1
    ensures r == 0 ==> UpperSolved(Rows(mat), old(b[..]), out[..], diag)
    ensures r == 0 && diag == 0.0 ==> forall i :: !UpperStuck(Rows(mat), old(b[..]), out[..], tiny, i)
    ensures r == -1 ==> diag == 0.0 && exists i :: UpperStuck(Rows(mat), old(b[..]), out[..], tiny, i)
  {
    hide Times;
    ghost var m, b0 := Rows(mat), b[..];
    var i := SkipTrailingZeros(b, out);
    var iLim := i;
    UpperStart(m, b0, out[..], diag, tiny, iLim);
    while i >= 0
      invariant UpperSoFar(m, b0, out[..], diag, tiny, iLim, i)
      invariant i >= 0 ==> b0[iLim] != 0.0
      invariant forall j :: 0 <= j <= i ==> b[j] == b0[j]
    {
      ghost var x := out[..];
      var sum := Residual(mat, out, i, i + 1, iLim + 1, b[i], i + 1, out.Length);
      var stuck, v := Quotient(mat[i, i], diag, tiny, sum);
      if stuck {
        UpperStops(m, b0, out[..], tiny, iLim, i);
        assert Rows(mat) == m && b0 == old(b[..]);
        return -1;
      }
      out[i] := v;
      UpperExtends(m, b0, x, diag, tiny, iLim, i, v);
      assert out[..] == x[i := v];
      i := i - 1;
    }
    UpperDone(m, b0, out[..], diag, tiny, iLim);
    r := 0;
  }

  // ----- L (U x) is (L U) x

  /** Sum over j < c of entry (i, j) of the product times x[j]. */
  ghost function Applied(m: Mat, i: nat, x: seq<real>, c: nat): real
    requires Square(m, |m|) && i < |m| && |x| == |m| && c <= |m|
  {
    if c == 0 then 0.0 else Applied(m, i, x, c - 1) + Times(Product(m, i, c - 1, |m|), x[c - 1])
  }

  ghost function UpperDot(m: Mat, t: nat, x: seq<real>, c: nat): real
    requires Square(m, |m|) && t < |m| && |x| == |m| && c <= |m|
  {
    if c == 0 then 0.0 else UpperDot(m, t, x, c - 1) + Times(Upper(m, t, c - 1), x[c - 1])
  }

  /** Sum over t < d of L[i][t] * (U x)[t], with U x cut off after c columns. */
  ghost function Nested(m: Mat, i: nat, x: seq<real>, c: nat, d: nat): real
    requires Square(m, |m|) && i < |m| && |x| == |m| && c <= |m| && d <= |m|
  {
    if d == 0 then 0.0 else Nested(m, i, x, c, d - 1) + Times(Lower(m, i, d - 1), UpperDot(m, d - 1, x, c))
  }

  lemma Distribute(l: real, u: real, v: real, x: real)
    ensures Times(l, u + Times(v, x)) == Times(l, u) + Times(Times(l, v), x)
  {
  }

  lemma DistributeSum(p: real, q: real, x: real)
    ensures Times(p + q, x) == Times(p, x) + Times(q, x)
  {
  }

  lemma {:induction false} NestedGrows(m: Mat, i: nat, x: seq<real>, c: nat, d: nat)
    requires Square(m, |m|) && i < |m| && |x| == |m| && 0 < c <= |m| && d <= |m|
    ensures Nested(m, i, x, c, d) == Nested(m, i, x, c - 1, d) + Times(Product(m, i, c - 1, d), x[c - 1])
  {
    hide Times;
    TimesLaws(x[c - 1], x[c - 1]);
    if d > 0 {
      NestedGrows(m, i, x, c, d - 1);
      var l, u, v := Lower(m, i, d - 1), UpperDot(m, d - 1, x, c - 1), Upper(m, d - 1, c - 1);
      Distribute(l, u, v, x[c - 1]);
      DistributeSum(Product(m, i, c - 1, d - 1), Times(l, v), x[c - 1]);
    }
  }

  lemma {:induction false} NestedZero(m: Mat, i: nat, x: seq<real>, d: nat)
    requires Square(m, |m|) && i < |m| && |x| == |m| && d <= |m|
    ensures Nested(m, i, x, 0, d) == 0.0
  {
    hide Times;
    if d > 0 {
      NestedZero(m, i, x, d - 1);
      TimesLaws(Lower(m, i, d - 1), 0.0);
    }
  }

  lemma {:induction false} Associates(m: Mat, i: nat, x: seq<real>, c: nat)
    requires Square(m, |m|) && i < |m| && |x| == |m| && c <= |m|
    ensures Applied(m, i, x, c) == Nested(m, i, x, c, |m|)
  {
    hide Times;
    if c == 0 {
      NestedZero(m, i, x, |m|);
    } else {
      Associates(m, i, x, c - 1);
      NestedGrows(m, i, x, c, |m|);
    }
  }

  lemma {:induction false} UpperDotIsRow(m: Mat, t: nat, x: seq<real>, c: nat)
    requires Square(m, |m|) && t < |m| && |x| == |m| && c <= |m|
    ensures UpperDot(m, t, x, c) == if c <= t then 0.0 else Times(m[t][t], x[t]) + RowSum(m[t], x, t + 1, c)
  {
    hide Times;
    if c > 0 {
      UpperDotIsRow(m, t, x, c - 1);
      TimesLaws(Upper(m, t, c - 1), x[c - 1]);
    }
  }

  lemma {:induction false} NestedIsRow(m: Mat, i: nat, x: seq<real>, y: seq<real>, d: nat)
    requires UpperSolved(m, y, x, 0.0) && i < |m| && d <= |m|
    ensures Nested(m, i, x, |m|, d) == if d <= i then RowSum(m[i], y, 0, d) else RowSum(m[i], y, 0, i) + y[i]
  {
    hide Times;
    if d > 0 {
      NestedIsRow(m, i, x, y, d - 1);
      UpperDotIsRow(m, d - 1, x, |m|);
      TimesLaws(Lower(m, i, d - 1), y[d - 1]);
      assert UpperRow(m, y, x, 0.0, d - 1);
    }
  }

  /** `x` solves the system with matrix `a` and right-hand side `b`. */
  ghost predicate Solves(a: Mat, x: seq<real>, b: seq<real>) {
    && Square(a, |a|) && |x| == |b| == |a|
    && forall r :: 0 <= r < |a| ==> RowSum(a[r], x, 0, |a|) == b[r]
  }

  lemma {:induction false} AppliedIsRow(a: Mat, s: State, i: nat, x: seq<real>, c: nat)
    requires Factorises(a, s) && i < |a| && |x| == |a| && c <= |a|
    ensures Applied(s.m, i, x, c) == RowSum(a[s.p[i]], x, 0, c)
  {
    hide Times;
    if c > 0 {
      AppliedIsRow(a, s, i, x, c - 1);
    }
  }

  /** Solving with L and then with U solves the system that was factorised. */
  lemma TriangularSolvesSuffice(a: Mat, s: State, b: seq<real>, pb: seq<real>, y: seq<real>, x: seq<real>)
    requires Factorises(a, s) && |b| == |pb| == |a|
    requires forall i :: 0 <= i < |a| ==> pb[i] == b[s.p[i]]
    requires LowerSolved(s.m, pb, y, 1.0) && UpperSolved(s.m, y, x, 0.0)
    ensures Solves(a, x, b)
  {
    hide Times;
    var n := |a|;
    PermutationCovers(s.p, n);
    forall r | 0 <= r < n
      ensures RowSum(a[r], x, 0, n) == b[r]
    {
      assert r in s.p;
      var i :| 0 <= i < n && s.p[i] == r;
      AppliedIsRow(a, s, i, x, n);
      Associates(s.m, i, x, n);
      NestedIsRow(s.m, i, x, y, n);
      assert LowerRow(s.m, pb, y, 1.0, i);
      TimesLaws(1.0, y[i]);
    }
  }

  // ----- LUsolve and LUinverse

  /** The right-hand side in the row order of the factorisation. */
  ghost function Permuted(b: seq<real>, p: seq<nat>): (pb: seq<real>)
    requires forall i :: 0 <= i < |p| ==> p[i] < |b|
    ensures |pb| == |p|
  {
    seq(|p|, i requires 0 <= i < |p| => b[p[i]])
  }

  /** Back substitution on the forward solution for `b` runs into a diagonal entry that is too small. */
  ghost predicate Unsolvable(s: State, b: seq<real>, tiny: real)
  {
    && (forall i :: 0 <= i < |s.p| ==> s.p[i] < |b|)
    && exists y, x, i :: LowerSolved(s.m, Permuted(b, s.p), y, 1.0) && UpperStuck(s.m, y, x, tiny, i)
  }

  /** `LUsolve`: a zero result means that every system with this factorisation is solved. */
  method LUsolve(a: array2<real>, indexarray: array<nat>, b: array<real>, x: array<real>, tiny: real) returns (r: int)
    requires a.Length0 == a.Length1 == b.Length == x.Length == indexarray.Length && tiny >= 0.0
    requires forall i :: 0 <= i < indexarray.Length ==> indexarray[i] < b.Length
    requires b != x
    modifies x
    ensures r == 0 || r == -1
    ensures r == 0 ==> forall a0 :: Factorises(a0, State(Rows(a), indexarray[..])) ==> Solves(a0, x[..], b[..])
    ensures r == -1 ==> Unsolvable(State(Rows(a), indexarray[..]), b[..], tiny)
    ensures tiny == 0.0 && (forall i :: 0 <= i < a.Length0 ==> a[i, i] != 0.0) ==> r == 0
  {
    hide Times;
    var dim := a.Length0;
    ghost var s := State(Rows(a), indexarray[..]);
    for i := 0 to dim
      invariant forall j :: 0 <= j < i ==> x[j] == b[indexarray[j]]
    {
      x[i] := b[indexarray[i]];
    }
    ghost var pb := Permuted(b[..], s.p);
    assert x[..] == pb;
    r := Lsolve(a, x, x, 1.0, tiny);
    ghost var y := x[..];
    r := Usolve(a, x, x, 0.0, tiny);
    if tiny == 0.0 {
      NeverStuck(s.m);
    }
    if r == 0 {
      forall a0 | Factorises(a0, s)
        ensures Solves(a0, x[..], b[..])
      {
        TriangularSolvesSuffice(a0, s, b[..], pb, y, x[..]);
      }
    }
  }

  ghost function Column(a: array2<real>, c: nat): (x: seq<real>)
    requires c < a.Length1
    reads a
    ensures |x| == a.Length0 && forall j :: 0 <= j < a.Length0 ==> x[j] == a[j, c]
  {
    seq(a.Length0, j requires 0 <= j < a.Length0 reads a => a[j, c])
  }

  /** Column `c` of the identity matrix. */
  function Unit(n: nat, c: nat): (e: seq<real>)
    ensures |e| == n && forall j :: 0 <= j < n ==> e[j] == if j == c then 1.0 else 0.0
  {
    seq(n, j => if j == c then 1.0 else 0.0)
  }

  /** `LUinverse`: a non-null result is a right inverse of every matrix with this factorisation. */
  method LUinverse(a: array2<real>, indexarray: array<nat>, out0: array2?<real>, tiny: real) returns (out: array2?<real>)
    requires a.Length0 == a.Length1 == indexarray.Length && tiny >= 0.0
    requires forall i :: 0 <= i < indexarray.Length ==> indexarray[i] < a.Length0
    requires out0 != null ==> out0 != a && out0.Length0 == out0.Length1 == a.Length0
    modifies out0
    ensures Rows(a) == old(Rows(a)) && indexarray[..] == old(indexarray[..])
    ensures out != null ==> out.Length0 == out.Length1 == a.Length0 && (out0 != null ==> out == out0)
    ensures out != null ==> forall a0, c :: Factorises(a0, State(Rows(a), indexarray[..])) && 0 <= c < a.Length0 ==>
      Solves(a0, Column(out, c), Unit(a.Length0, c))
    ensures out == null ==> exists c ::
      0 <= c < a.Length0 && Unsolvable(State(Rows(a), indexarray[..]), Unit(a.Length0, c), tiny)
  {
    hide Times;
    var dim := a.Length0;
    ghost var s := State(Rows(a), indexarray[..]);
    var res := out0;
    if res == null {
      res := new real[dim, dim];
    }
    var tmp := new real[dim];
    var tmp2 := new real[dim];
    for i := 0 to dim
      invariant State(Rows(a), indexarray[..]) == s
      invariant forall a0, c :: Factorises(a0, s) && 0 <= c < i ==> Solves(a0, Column(res, c), Unit(dim, c))
    {
      for j := 0 to dim
        invariant forall t :: 0 <= t < j ==> tmp[t] == 0.0
        invariant State(Rows(a), indexarray[..]) == s
        invariant forall a0, c :: Factorises(a0, s) && 0 <= c < i ==> Solves(a0, Column(res, c), Unit(dim, c))
      {
        tmp[j] := 0.0;
      }
      tmp[i] := 1.0;
      assert tmp[..] == Unit(dim, i);
      var r := LUsolve(a, indexarray, tmp, tmp2, tiny);
      if r == -1 {
        return null;
      }
      StoreColumn(res, i, tmp2);
    }
    out := res;
  }

  method StoreColumn(out: array2<real>, i: nat, x: array<real>)
    requires out.Length0 == out.Length1 == x.Length && i < x.Length
    modifies out
    ensures Column(out, i) == x[..]
    ensures forall c :: 0 <= c < x.Length && c != i ==> Column(out, c) == old(Column(out, c))
  {
    for j := 0 to x.Length
      invariant forall t, c :: 0 <= t < x.Length && 0 <= c < x.Length ==>
        out[t, c] == if c == i && t < j then x[t] else old(out[t, c])
    {
      out[j, i] := x[j];
    }
  }
}
