/**
Gaussian elimination with scaled row pivoting (w3m/matrix.c, `LUfactor`), over exact reals.

The first part defines the elimination as a function on row sequences, one column
per step, and proves exactly when the packed result is a factorisation of the input.
The in-place method at the end is proved to compute that function.
*/
module LuFactor {

  type Mat = seq<seq<real>>

  predicate Square(m: Mat, n: nat) {
    |m| == n && forall i :: 0 <= i < n ==> |m[i]| == n
  }

  function Abs(x: real): real {
    if x < 0.0 then -x else x
  }

  /** Multiplication by name, so that most proofs can treat products as plain terms. */
  function Times(x: real, y: real): real {
    x * y
  }

  lemma TimesLaws(x: real, y: real)
    ensures Times(0.0, y) == 0.0 && Times(x, 0.0) == 0.0 && Times(1.0, y) == y
    ensures y != 0.0 ==> Times(x / y, y) == x
  {
  }

  function Swap<T>(s: seq<T>, i: nat, j: nat): seq<T>
    requires i < |s| && j < |s|
  {
    s[i := s[j]][j := s[i]]
  }

  function Identity(n: nat): (p: seq<nat>)
    ensures |p| == n && forall i :: 0 <= i < n ==> p[i] == i
  {
    seq(n, i => i)
  }

  /** `p` lists each of 0 .. n-1 exactly once. */
  ghost predicate Permutation(p: seq<nat>, n: nat) {
    |p| == n && multiset(p) == multiset(Identity(n))
  }

  // ----- one column of the elimination

  /** Largest magnitude among the first `j` entries of a row. */
  function MaxAbs(row: seq<real>, j: nat): (mx: real)
    requires j <= |row|
    ensures mx >= 0.0
    ensures forall k :: 0 <= k < j ==> Abs(row[k]) <= mx
  {
    if j == 0 then 0.0
    else
      var mx := MaxAbs(row, j - 1);
      if mx < Abs(row[j - 1]) then Abs(row[j - 1]) else mx
  }

  /** The magnitude is that of an entry. */
  lemma {:induction false} MaxAbsIsReached(row: seq<real>, j: nat)
    requires 0 < j <= |row|
    ensures exists k :: 0 <= k < j && MaxAbs(row, j) == Abs(row[k])
  {
    if j == 1 {
      assert MaxAbs(row, 0) == 0.0 && MaxAbs(row, 1) == Abs(row[0]);
    } else {
      MaxAbsIsReached(row, j - 1);
    }
  }

  function Scales(m: Mat): (s: seq<real>)
    ensures |s| == |m|
    ensures forall i :: 0 <= i < |m| ==> s[i] == MaxAbs(m[i], |m[i]|)
  {
    seq(|m|, i requires 0 <= i < |m| => MaxAbs(m[i], |m[i]|))
  }

  /** The guard of the pivot search, with the 0/0 quotient counted as no candidate. */
  predicate Candidate(a: real, scale: real, tiny: real) {
    Abs(scale) >= tiny * Abs(a) && scale != 0.0
  }

  /** The pivot search over rows k .. hi-1: the chosen row (-1 for none) and its ratio. */
  function Pivot(m: Mat, scale: seq<real>, tiny: real, k: nat, hi: nat): (r: (int, real))
    requires Square(m, |scale|) && k <= hi <= |m| && k < |m|
    ensures r.1 >= 0.0
    ensures r.0 == -1 || (k <= r.0 < hi && m[r.0][k] != 0.0)
    decreases hi
  {
    if hi == k then (-1, 0.0)
    else
      var best := Pivot(m, scale, tiny, k, hi - 1);
      var a := m[hi - 1][k];
      if Candidate(a, scale[hi - 1], tiny) && best.1 < Abs(a) / scale[hi - 1]
      then (hi - 1, Abs(a) / scale[hi - 1])
      else best
  }

  /** A row that can be the pivot: its entry is not zero, nor too large for its scale. */
  predicate Eligible(a: real, scale: real, tiny: real) {
    a != 0.0 && scale > 0.0 && scale >= tiny * Abs(a)
  }

  function Ratio(a: real, scale: real): real {
    if scale == 0.0 then 0.0 else Abs(a) / scale
  }

  lemma RatioBeats(a: real, scale: real, tiny: real, best: real)
    requires scale >= 0.0 && best >= 0.0
    ensures Candidate(a, scale, tiny) && best < Abs(a) / scale <==> Eligible(a, scale, tiny) && best < Ratio(a, scale)
    ensures Candidate(a, scale, tiny) ==> Abs(a) / scale == Ratio(a, scale)
    ensures Eligible(a, scale, tiny) ==> Ratio(a, scale) > 0.0
  {
    assert scale > 0.0 ==> Abs(a) / scale >= 0.0;
    assert scale > 0.0 && a == 0.0 ==> Abs(a) / scale == 0.0;
  }

  /**
  With scales that are not negative, the search finds a row exactly if one is eligible, and then
  the first of the eligible rows with the greatest ratio of entry to scale.
  */
  lemma {:induction false} PivotIsBest(m: Mat, scale: seq<real>, tiny: real, k: nat, hi: nat)
    requires Square(m, |scale|) && k <= hi <= |m| && k < |m| && forall i :: 0 <= i < |scale| ==> scale[i] >= 0.0
    ensures var (p, ratio) := Pivot(m, scale, tiny, k, hi);
            && (p == -1 ==> ratio == 0.0)
            && (p != -1 ==> k <= p < hi && Eligible(m[p][k], scale[p], tiny) && ratio == Ratio(m[p][k], scale[p]))
            && forall i :: k <= i < hi && Eligible(m[i][k], scale[i], tiny) ==>
                 p != -1 && Ratio(m[i][k], scale[i]) <= ratio && (i < p ==> Ratio(m[i][k], scale[i]) < ratio)
    decreases hi
  {
    if hi > k {
      PivotIsBest(m, scale, tiny, k, hi - 1);
      RatioBeats(m[hi - 1][k], scale[hi - 1], tiny, Pivot(m, scale, tiny, k, hi - 1).1);
      PivotStep(m, scale, tiny, k, hi);
      hide Pivot, Eligible, Ratio, Candidate;
    }
  }

  lemma PivotStep(m: Mat, scale: seq<real>, tiny: real, k: nat, hi: nat)
    requires Square(m, |scale|) && k < hi <= |m| && forall i :: 0 <= i < |scale| ==> scale[i] >= 0.0
    ensures var best, a := Pivot(m, scale, tiny, k, hi - 1), m[hi - 1][k];
            Pivot(m, scale, tiny, k, hi) ==
              if Eligible(a, scale[hi - 1], tiny) && best.1 < Ratio(a, scale[hi - 1]) then (hi - 1, Ratio(a, scale[hi - 1])) else best
  {
    RatioBeats(m[hi - 1][k], scale[hi - 1], tiny, Pivot(m, scale, tiny, k, hi - 1).1);
    hide Eligible, Ratio, Candidate;
  }

  /** One row below the pivot: the multiplier is stored where the entry is cleared. */
  function Reduce(row: seq<real>, pivot: seq<real>, k: nat): (r: seq<real>)
    requires |row| == |pivot| && k < |row| && pivot[k] != 0.0
    ensures |r| == |row|
  {
    seq(|row|, j requires 0 <= j < |row| =>
      if j < k then row[j]
      else if j == k then row[k] / pivot[k]
      else row[j] - Times(row[k] / pivot[k], pivot[j]))
  }

  function Clear(m: Mat, k: nat): (r: Mat)
    requires Square(m, |m|) && k < |m| && m[k][k] != 0.0
    ensures Square(r, |m|)
  {
    seq(|m|, i requires 0 <= i < |m| => if i <= k then m[i] else Reduce(m[i], m[k], k))
  }

  /** The packed matrix together with `indexarray`. */
  datatype State = State(m: Mat, p: seq<nat>)

  function Step(s: State, scale: seq<real>, tiny: real, k: nat): (r: State)
    requires Square(s.m, |scale|) && |s.p| == |scale| && k < |scale|
    ensures Square(r.m, |scale|) && |r.p| == |scale|
  {
    var i := Pivot(s.m, scale, tiny, k, |s.m|).0;
    if i == -1 then s.(m := s.m[k := s.m[k][k := 0.0]])
    else State(Clear(Swap(s.m, i, k), k), Swap(s.p, i, k))
  }

  /** The state after the first `k` columns. */
  function Run(a: Mat, tiny: real, k: nat): (r: State)
    requires Square(a, |a|) && k <= |a|
    ensures Square(r.m, |a|) && |r.p| == |a|
  {
    if k == 0 then State(a, Identity(|a|))
    else Step(Run(a, tiny, k - 1), Scales(a), tiny, k - 1)
  }

  function Columns(n: nat): (k: nat)
    ensures k <= n
  {
    if n == 0 then 0 else n - 1
  }

  /** What `LUfactor` leaves in its two arguments. */
  function Factor(a: Mat, tiny: real): (r: State)
    requires Square(a, |a|)
    ensures Square(r.m, |a|) && |r.p| == |a|
  {
    Run(a, tiny, Columns(|a|))
  }

  // ----- what the packed result means

  function Lower(m: Mat, i: nat, j: nat): real
    requires Square(m, |m|) && i < |m| && j < |m|
  {
    if j < i then m[i][j] else if j == i then 1.0 else 0.0
  }

  function Upper(m: Mat, i: nat, j: nat): real
    requires Square(m, |m|) && i < |m| && j < |m|
  {
    if i <= j then m[i][j] else 0.0
  }

  /** The first `c` terms of entry (i, j) of the product of both triangles. */
  ghost function Product(m: Mat, i: nat, j: nat, c: nat): real
    requires Square(m, |m|) && i < |m| && j < |m| && c <= |m|
  {
    if c == 0 then 0.0
    else Product(m, i, j, c - 1) + Times(Lower(m, i, c - 1), Upper(m, c - 1, j))
  }

  /** Row p[i] of `a` is row i of L times U, for every i. */
  ghost predicate Factorises(a: Mat, s: State) {
    && Square(a, |a|) && Square(s.m, |a|)
    && Permutation(s.p, |a|)
    && (forall i :: 0 <= i < |a| ==> s.p[i] < |a|)
    && forall i, j :: 0 <= i < |a| && 0 <= j < |a| ==> a[s.p[i]][j] == Product(s.m, i, j, |a|)
  }

  /** Column `k` has a pivot, or nothing to eliminate. */
  predicate ColumnFits(m: Mat, scale: seq<real>, tiny: real, k: nat)
    requires Square(m, |scale|) && k < |scale|
  {
    Pivot(m, scale, tiny, k, |m|).0 != -1 || forall i :: k <= i < |m| ==> m[i][k] == 0.0
  }

  /** No column below `k` takes the branch that zeroes the diagonal of a non-zero column. */
  predicate Lossless(a: Mat, tiny: real, k: nat)
    requires Square(a, |a|) && k <= |a|
  {
    k == 0 || (Lossless(a, tiny, k - 1) && ColumnFits(Run(a, tiny, k - 1).m, Scales(a), tiny, k - 1))
  }

  // ----- the invariant of the elimination

  /** Sum of m[i][t] * m[t][j] over t < c. */
  ghost function Partial(m: Mat, i: nat, j: nat, c: nat): real
    requires Square(m, |m|) && i < |m| && j < |m| && c <= |m|
  {
    if c == 0 then 0.0 else Partial(m, i, j, c - 1) + Times(m[i][c - 1], m[c - 1][j])
  }

  ghost function Depth(i: nat, j: nat, k: nat): nat {
    var c := if i < j then i else j;
    if c < k then c else k
  }

  /** The entry that the packed matrix stands for once `k` columns are done. */
  ghost function Restored(m: Mat, i: nat, j: nat, k: nat): real
    requires Square(m, |m|) && i < |m| && j < |m| && k <= |m|
  {
    Partial(m, i, j, Depth(i, j, k)) + if j < k && j < i then Times(m[i][j], m[j][j]) else m[i][j]
  }

  ghost predicate Restores(a: Mat, s: State, k: nat) {
    && Square(a, |a|) && Square(s.m, |a|) && k <= |a|
    && |s.p| == |a| && (forall i :: 0 <= i < |a| ==> s.p[i] < |a|)
    && forall i, j :: 0 <= i < |a| && 0 <= j < |a| ==> a[s.p[i]][j] == Restored(s.m, i, j, k)
  }

  lemma {:induction false} PartialSame(m: Mat, m': Mat, i: nat, i': nat, j: nat, c: nat)
    requires Square(m, |m|) && Square(m', |m|) && i < |m| && i' < |m| && j < |m| && c <= |m|
    requires forall t :: 0 <= t < c ==> m[i][t] == m'[i'][t] && m[t][j] == m'[t][j]
    ensures Partial(m, i, j, c) == Partial(m', i', j, c)
  {
    hide Times;
    if c > 0 {
      PartialSame(m, m', i, i', j, c - 1);
    }
  }

  lemma SwapRestores(a: Mat, s: State, k: nat, r: nat)
    requires Restores(a, s, k) && k <= r < |a|
    ensures Restores(a, State(Swap(s.m, r, k), Swap(s.p, r, k)), k)
  {
    hide Times;
    var m' := Swap(s.m, r, k);
    forall i, j | 0 <= i < |a| && 0 <= j < |a|
      ensures a[Swap(s.p, r, k)[i]][j] == Restored(m', i, j, k)
    {
      var i0 := if i == r then k else if i == k then r else i;
      assert a[s.p[i0]][j] == Restored(s.m, i0, j, k);
      PartialSame(s.m, m', i0, i, j, Depth(i, j, k));
    }
  }

  lemma ClearEntry(m: Mat, k: nat, i: nat, j: nat)
    requires Square(m, |m|) && k < |m| && m[k][k] != 0.0 && i < |m| && j < |m|
    ensures Restored(Clear(m, k), i, j, k + 1) == Restored(m, i, j, k)
  {
    hide Times;
    var m' := Clear(m, k);
    PartialSame(m, m', i, i, j, Depth(i, j, k));
    if i > k && j >= k {
      assert m'[i] == Reduce(m[i], m[k], k) && m'[k] == m[k];
      TimesLaws(m[i][k], m[k][k]);
    }
  }

  lemma ClearRestores(a: Mat, s: State, k: nat)
    requires Restores(a, s, k) && k < |a| && s.m[k][k] != 0.0
    ensures Restores(a, State(Clear(s.m, k), s.p), k + 1)
  {
    hide Times;
    var m' := Clear(s.m, k);
    forall i, j | 0 <= i < |a| && 0 <= j < |a|
      ensures a[s.p[i]][j] == Restored(m', i, j, k + 1)
    {
      ClearEntry(s.m, k, i, j);
    }
  }

  lemma ZeroColumnRestores(a: Mat, s: State, k: nat)
    requires Restores(a, s, k) && k < |a|
    requires forall i :: k <= i < |a| ==> s.m[i][k] == 0.0
    ensures Restores(a, s, k + 1)
  {
    hide Times;
    forall i, j | 0 <= i < |a| && 0 <= j < |a|
      ensures Restored(s.m, i, j, k + 1) == Restored(s.m, i, j, k)
    {
      TimesLaws(s.m[i][k], s.m[k][j]);
      TimesLaws(s.m[i][k], s.m[k][k]);
    }
  }

  lemma StepRestores(a: Mat, s: State, tiny: real, k: nat)
    requires Restores(a, s, k) && k < |a|
    requires ColumnFits(s.m, Scales(a), tiny, k)
    ensures Restores(a, Step(s, Scales(a), tiny, k), k + 1)
  {
    hide Times;
    var r := Pivot(s.m, Scales(a), tiny, k, |s.m|).0;
    if r == -1 {
      assert s.m[k][k := 0.0] == s.m[k];
      assert Step(s, Scales(a), tiny, k).m == s.m;
      ZeroColumnRestores(a, s, k);
    } else {
      SwapRestores(a, s, k, r);
      ClearRestores(a, State(Swap(s.m, r, k), Swap(s.p, r, k)), k);
    }
  }

  lemma StartRestores(a: Mat)
    requires Square(a, |a|)
    ensures Restores(a, State(a, Identity(|a|)), 0)
  {
  }

  lemma {:induction false} RunRestores(a: Mat, tiny: real, k: nat)
    requires Square(a, |a|) && k <= |a| && Lossless(a, tiny, k)
    ensures Restores(a, Run(a, tiny, k), k)
  {
    hide Restores, Step, ColumnFits;
    if k == 0 {
      StartRestores(a);
    } else {
      RunRestores(a, tiny, k - 1);
      StepRestores(a, Run(a, tiny, k - 1), tiny, k - 1);
    }
  }

  lemma {:induction false} RunPermutes(a: Mat, tiny: real, k: nat)
    requires Square(a, |a|) && k <= |a|
    ensures Permutation(Run(a, tiny, k).p, |a|)
  {
    hide Times;
    if k > 0 {
      RunPermutes(a, tiny, k - 1);
    }
  }

  lemma PermutationCovers(p: seq<nat>, n: nat)
    requires Permutation(p, n)
    ensures forall r :: r in p <==> 0 <= r < n
    ensures forall i :: 0 <= i < n ==> p[i] < n
  {
    forall r
      ensures r in p <==> 0 <= r < n
    {
      assert r in p <==> r in multiset(p);
      assert r in multiset(Identity(n)) <==> r in Identity(n);
      if 0 <= r < n {
        assert Identity(n)[r] == r;
      }
    }
    assert forall i :: 0 <= i < n ==> p[i] in p;
  }

  lemma {:induction false} ProductIsPartial(m: Mat, i: nat, j: nat, c: nat)
    requires Square(m, |m|) && i < |m| && j < |m| && c <= |m|
    ensures Product(m, i, j, c) ==
            if c <= i && c <= j then Partial(m, i, j, c)
            else if j < i then Partial(m, i, j, j) + Times(m[i][j], m[j][j])
            else Partial(m, i, j, i) + m[i][j]
  {
    hide Times;
    if c > 0 {
      ProductIsPartial(m, i, j, c - 1);
      TimesLaws(Lower(m, i, c - 1), Upper(m, c - 1, j));
    }
  }

  // ----- a pivotless non-zero column is never repaired

  /** Some row from `c` down disagrees with what columns before `c` account for. */
  ghost predicate Defect(a: Mat, s: State, c: nat) {
    && Square(a, |a|) && Square(s.m, |a|) && c < |a|
    && |s.p| == |a| && (forall i :: 0 <= i < |a| ==> s.p[i] < |a|)
    && s.m[c][c] == 0.0
    && exists i :: c <= i < |a| && a[s.p[i]][c] != Partial(s.m, i, c, c)
  }

  lemma DefectStays(a: Mat, s: State, tiny: real, k: nat, c: nat)
    requires Defect(a, s, c) && c < k < |a|
    ensures Defect(a, Step(s, Scales(a), tiny, k), c)
  {
    hide Times;
    var s' := Step(s, Scales(a), tiny, k);
    var i :| c <= i < |a| && a[s.p[i]][c] != Partial(s.m, i, c, c);
    var r := Pivot(s.m, Scales(a), tiny, k, |s.m|).0;
    var i' := if r == -1 then i else if i == r then k else if i == k then r else i;
    PartialSame(s.m, s'.m, i, i', c, c);
    assert a[s'.p[i']][c] != Partial(s'.m, i', c, c);
  }

  lemma LossMakesDefect(a: Mat, s: State, tiny: real, k: nat)
    requires Restores(a, s, k) && k < |a|
    requires !ColumnFits(s.m, Scales(a), tiny, k)
    ensures Defect(a, Step(s, Scales(a), tiny, k), k)
  {
    hide Times;
    var s' := Step(s, Scales(a), tiny, k);
    var i :| k <= i < |a| && s.m[i][k] != 0.0;
    assert a[s.p[i]][k] == Restored(s.m, i, k, k);
    PartialSame(s.m, s'.m, i, i, k, k);
    assert a[s'.p[i]][k] != Partial(s'.m, i, k, k);
  }

  lemma {:induction false} LossIsFinal(a: Mat, tiny: real, k: nat) returns (c: nat)
    requires Square(a, |a|) && k <= |a| && !Lossless(a, tiny, k)
    ensures c < k && Defect(a, Run(a, tiny, k), c)
  {
    hide Restores, Step, ColumnFits, Defect;
    var s := Run(a, tiny, k - 1);
    if !Lossless(a, tiny, k - 1) {
      c := LossIsFinal(a, tiny, k - 1);
      DefectStays(a, s, tiny, k - 1, c);
    } else {
      RunRestores(a, tiny, k - 1);
      LossMakesDefect(a, s, tiny, k - 1);
      c := k - 1;
    }
  }

  lemma RestoredIsProduct(m: Mat, i: nat, j: nat)
    requires Square(m, |m|) && i < |m| && j < |m|
    ensures Restored(m, i, j, |m| - 1) == Product(m, i, j, |m|)
  {
    hide Times;
    ProductIsPartial(m, i, j, |m|);
  }

  lemma DefectRefutes(a: Mat, s: State, c: nat)
    requires Defect(a, s, c)
    ensures !Factorises(a, s)
  {
    hide Times;
    var i :| c <= i < |a| && a[s.p[i]][c] != Partial(s.m, i, c, c);
    ProductIsPartial(s.m, i, c, |a|);
    TimesLaws(s.m[i][c], s.m[c][c]);
    assert a[s.p[i]][c] != Product(s.m, i, c, |a|);
  }

  /**
  The packed result of `LUfactor` is a factorisation of the input, up to the recorded
  row permutation, exactly when no column takes the pivotless branch with work left.
  */
  lemma FactorisesIff(a: Mat, tiny: real)
    requires Square(a, |a|)
    ensures Factorises(a, Factor(a, tiny)) <==> Lossless(a, tiny, Columns(|a|))
  {
    hide Times, Restores, Factorises, Permutation, Lossless, Defect, Run;
    var k, s := Columns(|a|), Factor(a, tiny);
    if Lossless(a, tiny, k) {
      RunPermutes(a, tiny, k);
      RunRestores(a, tiny, k);
      RestoredFactorises(a, s);
    } else {
      var c := LossIsFinal(a, tiny, k);
      DefectRefutes(a, s, c);
    }
  }

  lemma RestoredFactorises(a: Mat, s: State)
    requires Restores(a, s, Columns(|a|)) && Permutation(s.p, |a|)
    ensures Factorises(a, s)
  {
    hide Times, Restored, Product, Permutation;
    forall i, j | 0 <= i < |a| && 0 <= j < |a|
      ensures a[s.p[i]][j] == Product(s.m, i, j, |a|)
    {
      RestoredIsProduct(s.m, i, j);
    }
  }

  // ----- an input that is its own factorisation

  ghost predicate UpperTriangular(a: Mat) {
    && Square(a, |a|)
    && (forall i, j :: 0 <= j < i < |a| ==> a[i][j] == 0.0)
    && forall i :: 0 <= i < |a| ==> a[i][i] != 0.0
  }

  /** An upper triangular matrix without a zero on its diagonal is its own factor, and no row moves. */
  lemma UpperIsItsOwnFactor(a: Mat, tiny: real)
    requires UpperTriangular(a) && tiny <= 1.0
    ensures Factor(a, tiny) == State(a, Identity(|a|)) && Factorises(a, Factor(a, tiny))
  {
    UpperStays(a, tiny, Columns(|a|));
    UpperIsLossless(a, tiny, Columns(|a|));
    FactorisesIff(a, tiny);
  }

  lemma UpperPivot(a: Mat, tiny: real, k: nat)
    requires UpperTriangular(a) && tiny <= 1.0 && k < |a|
    ensures Pivot(a, Scales(a), tiny, k, |a|).0 == k
  {
    ScalesArePositive(a);
    PivotIsBest(a, Scales(a), tiny, k, |a|);
    DiagonalIsEligible(a[k][k], Scales(a)[k], tiny);
    forall i | k < i < |a|
      ensures !Eligible(a[i][k], Scales(a)[i], tiny)
    {
      assert a[i][k] == 0.0;
    }
    hide Pivot, Ratio, Eligible, Scales;
  }

  lemma ScalesArePositive(a: Mat)
    requires UpperTriangular(a)
    ensures forall i :: 0 <= i < |a| ==> Scales(a)[i] >= 0.0 && Scales(a)[i] >= Abs(a[i][i])
  {
  }

  lemma DiagonalIsEligible(a: real, scale: real, tiny: real)
    requires a != 0.0 && scale >= Abs(a) && tiny <= 1.0
    ensures Eligible(a, scale, tiny)
  {
    ShrinksBy(tiny, Abs(a));
  }

  lemma ShrinksBy(t: real, x: real)
    requires t <= 1.0 && x >= 0.0
    ensures t * x <= x
  {
    assert (1.0 - t) * x >= 0.0;
    assert (1.0 - t) * x == x - t * x;
  }

  lemma UpperStep(a: Mat, tiny: real, k: nat)
    requires UpperTriangular(a) && tiny <= 1.0 && k < |a|
    ensures Step(State(a, Identity(|a|)), Scales(a), tiny, k) == State(a, Identity(|a|))
  {
    UpperPivot(a, tiny, k);
    hide Pivot;
    assert Swap(a, k, k) == a && Swap(Identity(|a|), k, k) == Identity(|a|);
    forall i | 0 <= i < |a|
      ensures Clear(a, k)[i] == a[i]
    {
      if i > k {
        ReduceByNothing(a[i], a[k], k);
      }
    }
    assert Clear(a, k) == a;
  }

  lemma ReduceByNothing(row: seq<real>, pivot: seq<real>, k: nat)
    requires |row| == |pivot| && k < |row| && pivot[k] != 0.0 && row[k] == 0.0
    ensures Reduce(row, pivot, k) == row
  {
    assert row[k] / pivot[k] == 0.0;
    forall j | k < j < |row|
      ensures row[j] - Times(row[k] / pivot[k], pivot[j]) == row[j]
    {
      TimesLaws(0.0, pivot[j]);
    }
  }

  lemma {:induction false} UpperStays(a: Mat, tiny: real, k: nat)
    requires UpperTriangular(a) && tiny <= 1.0 && k <= |a|
    ensures Run(a, tiny, k) == State(a, Identity(|a|))
  {
    hide Step, UpperTriangular;
    if k > 0 {
      UpperStays(a, tiny, k - 1);
      UpperStep(a, tiny, k - 1);
    }
  }

  lemma {:induction false} UpperIsLossless(a: Mat, tiny: real, k: nat)
    requires UpperTriangular(a) && tiny <= 1.0 && k <= |a|
    ensures Lossless(a, tiny, k)
  {
    hide Pivot;
    if k > 0 {
      UpperIsLossless(a, tiny, k - 1);
      UpperStays(a, tiny, k - 1);
      UpperPivot(a, tiny, k - 1);
    }
  }

  /** The last row is never a candidate for elimination: a single entry stays, whatever it is. */
  lemma SingleStays(x: real, tiny: real)
    ensures Factor([[x]], tiny) == State([[x]], [0]) && Factorises([[x]], Factor([[x]], tiny))
  {
    assert Identity(1) == [0];
    FactorisesIff([[x]], tiny);
  }

  // ----- an input on which the branch loses information

  /** The first row has the greatest scale; once it is swapped down, its large entries meet the scale of the second. */
  function Unlucky(tiny: real): (a: Mat)
    requires tiny > 0.0
    ensures Square(a, 3) && |a| == 3
  {
    var b := 2.0 / tiny;
    [[0.0, b, b], [1.0, 0.0, 0.0], [0.0, 0.0, 1.0]]
  }

  lemma UnluckyScales(tiny: real)
    requires tiny > 0.0
    ensures Scales(Unlucky(tiny)) == [2.0 / tiny, 1.0, 1.0]
  {
    var a, b := Unlucky(tiny), 2.0 / tiny;
    assert b > 0.0;
    assert MaxAbs(a[0], 1) == 0.0 && MaxAbs(a[0], 2) == b && MaxAbs(a[0], 3) == b;
    assert MaxAbs(a[1], 1) == 1.0 && MaxAbs(a[1], 2) == 1.0 && MaxAbs(a[1], 3) == 1.0;
    assert MaxAbs(a[2], 1) == 0.0 && MaxAbs(a[2], 2) == 0.0 && MaxAbs(a[2], 3) == 1.0;
  }

  lemma UnluckyFirstColumn(tiny: real)
    requires 0.0 < tiny < 1.0
    ensures Run(Unlucky(tiny), tiny, 1).m == [[1.0, 0.0, 0.0], [0.0, 2.0 / tiny, 2.0 / tiny], [0.0, 0.0, 1.0]]
  {
    var a, s, b := Unlucky(tiny), Scales(Unlucky(tiny)), 2.0 / tiny;
    UnluckyScales(tiny);
    assert Pivot(a, s, tiny, 0, 0) == (-1, 0.0);
    assert Pivot(a, s, tiny, 0, 1) == (-1, 0.0);
    assert Pivot(a, s, tiny, 0, 2) == (1, 1.0);
    assert Pivot(a, s, tiny, 0, 3) == (1, 1.0);
    var w := Swap(a, 1, 0);
    assert w == [[1.0, 0.0, 0.0], [0.0, b, b], [0.0, 0.0, 1.0]];
    assert Reduce(w[1], w[0], 0) == w[1];
    assert Reduce(w[2], w[0], 0) == w[2];
    assert Clear(w, 0) == w;
    assert Run(a, tiny, 0) == State(a, Identity(3));
    assert Run(a, tiny, 1) == Step(State(a, Identity(3)), s, tiny, 0);
  }

  /** Entry (i, j) of the product of two matrices, over the first `c` terms. */
  function Multiplied(a: Mat, b: Mat, i: nat, j: nat, c: nat): real
    requires Square(a, |a|) && Square(b, |a|) && i < |a| && j < |a| && c <= |a|
  {
    if c == 0 then 0.0 else Multiplied(a, b, i, j, c - 1) + Times(a[i][c - 1], b[c - 1][j])
  }

  /** A product of the two is the identity. */
  ghost predicate Inverts(b: Mat, a: Mat) {
    && Square(a, |a|) && Square(b, |a|)
    && forall i, j :: 0 <= i < |a| && 0 <= j < |a| ==> Multiplied(a, b, i, j, |a|) == if i == j then 1.0 else 0.0
  }

  lemma UnluckyInverse(tiny: real) returns (x: Mat)
    requires tiny > 0.0
    ensures Inverts(x, Unlucky(tiny))
  {
    var b := 2.0 / tiny;
    var a := Unlucky(tiny);
    x := [[0.0, 1.0, 0.0], [1.0 / b, 0.0, -1.0], [0.0, 0.0, 1.0]];
    assert b * (1.0 / b) == 1.0;
    forall i, j | 0 <= i < 3 && 0 <= j < 3
      ensures Multiplied(a, x, i, j, 3) == if i == j then 1.0 else 0.0
    {
      ThreeTerms(a, x, i, j);
      assert i == 0 || i == 1 || i == 2;
      assert j == 0 || j == 1 || j == 2;
    }
  }

  lemma ThreeTerms(a: Mat, b: Mat, i: nat, j: nat)
    requires Square(a, 3) && Square(b, 3) && i < 3 && j < 3
    ensures Multiplied(a, b, i, j, 3) == Times(a[i][0], b[0][j]) + Times(a[i][1], b[1][j]) + Times(a[i][2], b[2][j])
  {
    hide Times;
    assert Multiplied(a, b, i, j, 1) == Times(a[i][0], b[0][j]);
    assert Multiplied(a, b, i, j, 2) == Multiplied(a, b, i, j, 1) + Times(a[i][1], b[1][j]);
  }

  /** For every threshold below 1 there is an invertible matrix that `LUfactor` gets wrong. */
  lemma LossHappens(tiny: real) returns (x: Mat)
    requires 0.0 < tiny < 1.0
    ensures Inverts(x, Unlucky(tiny))
    ensures !Factorises(Unlucky(tiny), Factor(Unlucky(tiny), tiny))
  {
    x := UnluckyInverse(tiny);
    var a, s := Unlucky(tiny), Scales(Unlucky(tiny));
    UnluckyScales(tiny);
    UnluckyFirstColumn(tiny);
    var m := Run(a, tiny, 1).m;
    assert tiny * Abs(m[1][1]) == 2.0;
    assert Pivot(m, s, tiny, 1, 1) == (-1, 0.0);
    assert Pivot(m, s, tiny, 1, 2) == (-1, 0.0);
    assert Pivot(m, s, tiny, 1, 3) == (-1, 0.0);
    assert !ColumnFits(m, s, tiny, 1);
    FactorisesIff(a, tiny);
  }

  // ----- the in-place method

  /** The rows of a matrix in memory. */
  ghost function Rows(a: array2<real>): (m: Mat)
    reads a
    ensures |m| == a.Length0
    ensures forall i :: 0 <= i < a.Length0 ==> |m[i]| == a.Length1
    ensures forall i, j :: 0 <= i < a.Length0 && 0 <= j < a.Length1 ==> m[i][j] == a[i, j]
  {
    seq(a.Length0, i requires 0 <= i < a.Length0 reads a =>
      seq(a.Length1, j requires 0 <= j < a.Length1 reads a => a[i, j]))
  }

  lemma RowsAre(a: array2<real>, m: Mat)
    requires a.Length0 == a.Length1 && Square(m, a.Length0)
    requires forall i, j :: 0 <= i < a.Length0 && 0 <= j < a.Length0 ==> a[i, j] == m[i][j]
    ensures Rows(a) == m
  {
    forall i | 0 <= i < |m|
      ensures Rows(a)[i] == m[i]
    {
    }
  }

  method RowScales(a: array2<real>) returns (scale: array<real>)
    requires a.Length0 == a.Length1
    ensures fresh(scale) && scale[..] == Scales(Rows(a))
  {
    var dim := a.Length0;
    scale := new real[dim];
    for i := 0 to dim
      invariant forall r :: 0 <= r < i ==> scale[r] == MaxAbs(Rows(a)[r], dim)
    {
      var mx := 0.0;
      for j := 0 to dim
        invariant mx == MaxAbs(Rows(a)[i], j)
      {
        var tmp := Abs(a[i, j]);
        if mx < tmp {
          mx := tmp;
        }
      }
      scale[i] := mx;
    }
  }

  method FindPivot(a: array2<real>, scale: array<real>, tiny: real, k: nat) returns (iMax: int)
    requires a.Length0 == a.Length1 == scale.Length && k < a.Length0
    ensures iMax == Pivot(Rows(a), scale[..], tiny, k, a.Length0).0
    ensures (forall i :: 0 <= i < scale.Length ==> scale[i] >= 0.0) ==>
      && (iMax != -1 ==> k <= iMax < a.Length0 && Eligible(a[iMax, k], scale[iMax], tiny))
      && forall i :: k <= i < a.Length0 && Eligible(a[i, k], scale[i], tiny) ==>
           iMax != -1 && Ratio(a[i, k], scale[i]) <= Ratio(a[iMax, k], scale[iMax])
  {
    var mx := 0.0;
    iMax := -1;
    for i := k to a.Length0
      invariant (iMax, mx) == Pivot(Rows(a), scale[..], tiny, k, i)
    {
      if Abs(scale[i]) >= tiny * Abs(a[i, k]) {
        if scale[i] != 0.0 {
          var tmp := Abs(a[i, k]) / scale[i];
          if mx < tmp {
            mx := tmp;
            iMax := i;
          }
        }
      }
    }
    hide *;
    if forall i :: 0 <= i < scale.Length ==> scale[i] >= 0.0 {
      RowsSquare(a);
      PivotIsBest(Rows(a), scale[..], tiny, k, a.Length0);
    }
  }

  lemma RowsSquare(a: array2<real>)
    requires a.Length0 == a.Length1
    ensures Square(Rows(a), a.Length0)
  {
  }

  method SwapRows(a: array2<real>, r: nat, k: nat)
    requires a.Length0 == a.Length1 && r < a.Length0 && k < a.Length0
    modifies a
    ensures Rows(a) == Swap(old(Rows(a)), r, k)
  {
    ghost var m := Rows(a);
    for j := 0 to a.Length1
      invariant forall i, c :: 0 <= i < a.Length0 && 0 <= c < a.Length1 ==>
        a[i, c] == if c < j then Swap(m, r, k)[i][c] else m[i][c]
    {
      a[r, j], a[k, j] := a[k, j], a[r, j];
    }
    RowsAre(a, Swap(m, r, k));
  }

  method ReduceRow(a: array2<real>, i: nat, k: nat)
    requires a.Length0 == a.Length1 && k < i < a.Length0 && a[k, k] != 0.0
    modifies a
    ensures Rows(a) == old(Rows(a))[i := Reduce(old(Rows(a))[i], old(Rows(a))[k], k)]
  {
    ghost var m := Rows(a);
    ghost var m' := m[i := Reduce(m[i], m[k], k)];
    var tmp := a[i, k] / a[k, k];
    a[i, k] := tmp;
    for j := k + 1 to a.Length1
      invariant forall r, c :: 0 <= r < a.Length0 && 0 <= c < a.Length1 ==>
        a[r, c] == if c < j then m'[r][c] else m[r][c]
    {
      a[i, j] := a[i, j] - Times(tmp, a[k, j]);
    }
    RowsAre(a, m');
  }

  method ClearBelow(a: array2<real>, k: nat)
    requires a.Length0 == a.Length1 && k < a.Length0 && a[k, k] != 0.0
    modifies a
    ensures Rows(a) == Clear(old(Rows(a)), k)
  {
    ghost var m := Rows(a);
    for i := k + 1 to a.Length0
      invariant Square(Rows(a), a.Length0)
      invariant forall r :: 0 <= r < a.Length0 ==> Rows(a)[r] == if r < i then Clear(m, k)[r] else m[r]
    {
      assert Rows(a)[k] == m[k] && Rows(a)[k][k] == a[k, k];
      ReduceRow(a, i, k);
    }
    assert Rows(a) == Clear(m, k);
  }

  method EliminateColumn(a: array2<real>, indexarray: array<nat>, scale: array<real>, tiny: real, k: nat)
    requires a.Length0 == a.Length1 == indexarray.Length == scale.Length && k < a.Length0
    modifies a, indexarray
    ensures State(Rows(a), indexarray[..]) == Step(State(old(Rows(a)), old(indexarray[..])), old(scale[..]), tiny, k)
    ensures scale[..] == old(scale[..])
  {
    ghost var m := Rows(a);
    var iMax := FindPivot(a, scale, tiny, k);
    if iMax == -1 {
      a[k, k] := 0.0;
      RowsAre(a, m[k := m[k][k := 0.0]]);
    } else {
      assert m[iMax][k] != 0.0;
      if iMax != k {
        indexarray[iMax], indexarray[k] := indexarray[k], indexarray[iMax];
        SwapRows(a, iMax, k);
      }
      assert Rows(a) == Swap(m, iMax, k);
      assert Rows(a)[k][k] == a[k, k];
      ClearBelow(a, k);
    }
  }

  method ResetIndex(indexarray: array<nat>)
    modifies indexarray
    ensures indexarray[..] == Identity(indexarray.Length)
  {
    for i := 0 to indexarray.Length
      invariant forall r :: 0 <= r < i ==> indexarray[r] == r
    {
      indexarray[i] := i;
    }
  }

  /** `LUfactor`: the matrix and `indexarray` end up holding `Factor` of the input. */
  method LUfactor(a: array2<real>, indexarray: array<nat>, tiny: real)
    requires a.Length0 == a.Length1 == indexarray.Length
    modifies a, indexarray
    ensures State(Rows(a), indexarray[..]) == Factor(old(Rows(a)), tiny)
  {
    ghost var m0 := Rows(a);
    ResetIndex(indexarray);
    var scale := RowScales(a);
    var kMax := if a.Length0 == 0 then 0 else a.Length0 - 1;
    assert State(Rows(a), indexarray[..]) == Run(m0, tiny, 0);
    for k := 0 to kMax
      invariant State(Rows(a), indexarray[..]) == Run(m0, tiny, k)
      invariant scale[..] == Scales(m0)
    {
      EliminateColumn(a, indexarray, scale, tiny, k);
    }
  }
}
