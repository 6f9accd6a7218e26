/**
 The Sinkhorn part of the big fused kernel over exact reals: a softmax over rows, then alternating
 column and row normalisations of a square matrix, in place.
 */
module Sinkhorn {
  import opened Sums
  import opened PrenormGemm

  function Div(a: real, b: real): real {
    if b == 0.0 then 0.0 else a / b
  }

  function RowTotal(m: Matrix, n: nat, j: int): real {
    Sum(k => Cell(m, j, k), n)
  }

  function ColTotal(m: Matrix, n: nat, k: int): real {
    Sum(j => Cell(m, j, k), n)
  }

  ghost predicate Positive(m: Matrix, n: nat) {
    Shape(m, n, n) && forall j, k | 0 <= j < n && 0 <= k < n :: Cell(m, j, k) > 0.0
  }

  function RowStep(m: Matrix, n: nat, eps: real): Matrix {
    seq(n, j => seq(n, k => Div(Cell(m, j, k), RowTotal(m, n, j) + eps)))
  }

  function ColStep(m: Matrix, n: nat, eps: real): Matrix {
    seq(n, j => seq(n, k => Div(Cell(m, j, k), ColTotal(m, n, k) + eps)))
  }

  /** `rounds` times a row step followed by a column step. */
  function Rounds(m: Matrix, n: nat, eps: real, rounds: nat): Matrix {
    if rounds == 0 then m else ColStep(RowStep(Rounds(m, n, eps, rounds - 1), n, eps), n, eps)
  }

  function RowMax(m: Matrix, j: int, n: nat): real
    requires n > 0
  {
    if n == 1 then Cell(m, j, 0)
    else
      var rest := RowMax(m, j, n - 1);
      if rest < Cell(m, j, n - 1) then Cell(m, j, n - 1) else rest
  }

  /** Exponentials of the scores, shifted by each row's maximum. */
  function Exponentials(m: Matrix, n: nat, exp: real -> real): Matrix
    requires n > 0
  {
    seq(n, j => seq(n, k => exp(Cell(m, j, k) - RowMax(m, j, n))))
  }

  /** `softmax(-1) + eps` of the scores. */
  function SoftmaxPlus(m: Matrix, n: nat, exp: real -> real, eps: real): Matrix
    requires n > 0
  {
    var e := Exponentials(m, n, exp);
    seq(n, j => seq(n, k => Div(Cell(e, j, k), RowTotal(e, n, j)) + eps))
  }

  function Normalised(m: Matrix, n: nat, exp: real -> real, eps: real, repeat: int): Matrix
    requires n > 0
  {
    Rounds(ColStep(SoftmaxPlus(m, n, exp, eps), n, eps), n, eps, if repeat > 1 then repeat - 1 else 0)
  }

  // ---------------------------------------------------------------------------------------------
  // In place

  ghost function Snap(a: array2<real>): Matrix
    reads a
  {
    seq(a.Length0, j requires 0 <= j < a.Length0 reads a =>
      seq(a.Length1, k requires 0 <= k < a.Length1 reads a => a[j, k]))
  }

  lemma MatrixExt(a: Matrix, b: Matrix, n: nat)
    requires Shape(a, n, n) && Shape(b, n, n)
    requires forall j, k | 0 <= j < n && 0 <= k < n :: Cell(a, j, k) == Cell(b, j, k)
    ensures a == b
  {
    forall j | 0 <= j < n
      ensures a[j] == b[j]
    {
      forall k | 0 <= k < n
        ensures a[j][k] == b[j][k]
      {
        assert Cell(a, j, k) == Cell(b, j, k);
      }
    }
  }

  lemma SnapCells(a: array2<real>, n: nat)
    requires a.Length0 == a.Length1 == n
    ensures Shape(Snap(a), n, n)
    ensures forall j, k | 0 <= j < n && 0 <= k < n :: Cell(Snap(a), j, k) == a[j, k]
  {
  }

  /** An array whose cells are those of `m` holds `m`. */
  lemma SnapIs(a: array2<real>, n: nat, m: Matrix)
    requires a.Length0 == a.Length1 == n && Shape(m, n, n)
    requires forall j, k | 0 <= j < n && 0 <= k < n :: a[j, k] == Cell(m, j, k)
    ensures Snap(a) == m
  {
    SnapCells(a, n);
    MatrixExt(Snap(a), m, n);
  }

  /** Reduce the rows (or, transposed, the columns) to their sums. */
  method ReduceSum(cm: array2<real>, n: nat, byRow: bool) returns (sums: Row)
    requires cm.Length0 == cm.Length1 == n
    ensures |sums| == n
    ensures forall i | 0 <= i < n :: sums[i] == if byRow then RowTotal(Snap(cm), n, i) else ColTotal(Snap(cm), n, i)
  {
    sums := [];
    ghost var m := Snap(cm);
    for i := 0 to n
      invariant |sums| == i
      invariant forall p | 0 <= p < i :: sums[p] == if byRow then RowTotal(m, n, p) else ColTotal(m, n, p)
    {
      var sum := 0.0;
      ghost var term := if byRow then (q: int) => Cell(m, i, q) else (q: int) => Cell(m, q, i);
      for q := 0 to n
        invariant sum == Sum(term, q)
      {
        assert term(q) == if byRow then cm[i, q] else cm[q, i];
        sum := sum + if byRow then cm[i, q] else cm[q, i];
      }
      SumExt(term, if byRow then q => Cell(m, i, q) else q => Cell(m, q, i), n);
      sums := sums + [sum];
    }
  }

  /** Divide every cell by its row's (or column's) entry of `sums`, plus `eps`. */
  method DivideCells(cm: array2<real>, n: nat, sums: Row, eps: real, byRow: bool)
    requires cm.Length0 == cm.Length1 == n == |sums| && forall i | 0 <= i < n :: sums[i] + eps != 0.0
    modifies cm
    ensures forall j, k | 0 <= j < n && 0 <= k < n ::
              cm[j, k] == Div(old(cm[j, k]), (if byRow then sums[j] else sums[k]) + eps)
  {
    for j := 0 to n
      invariant forall j', k | 0 <= j' < n && 0 <= k < n ::
        cm[j', k] == if j' < j then Div(old(cm[j', k]), (if byRow then sums[j'] else sums[k]) + eps) else old(cm[j', k])
    {
      for k := 0 to n
        invariant forall j', k' | 0 <= j' < n && 0 <= k' < n ::
          cm[j', k'] == if j' < j || (j' == j && k' < k)
                        then Div(old(cm[j', k']), (if byRow then sums[j'] else sums[k']) + eps) else old(cm[j', k'])
      {
        cm[j, k] := cm[j, k] / ((if byRow then sums[j] else sums[k]) + eps);
      }
    }
  }

  lemma TotalsArePositive(m: Matrix, n: nat, i: int)
    requires Positive(m, n) && 0 <= i < n
    ensures RowTotal(m, n, i) > 0.0 && ColTotal(m, n, i) > 0.0
  {
    SumPositive(k => Cell(m, i, k), n);
    SumPositive(j => Cell(m, j, i), n);
  }

  method NormaliseRows(cm: array2<real>, n: nat, eps: real)
    requires cm.Length0 == cm.Length1 == n && eps >= 0.0 && Positive(Snap(cm), n)
    modifies cm
    ensures Snap(cm) == RowStep(old(Snap(cm)), n, eps)
  {
    hide RowTotal, ColTotal, Snap;
    ghost var m := Snap(cm);
    SnapCells(cm, n);
    var sums := ReduceSum(cm, n, true);
    forall i | 0 <= i < n { TotalsArePositive(m, n, i); }
    DivideCells(cm, n, sums, eps, true);
    StepCells(m, n, eps);
    SnapIs(cm, n, RowStep(m, n, eps));
  }

  method NormaliseColumns(cm: array2<real>, n: nat, eps: real)
    requires cm.Length0 == cm.Length1 == n && eps >= 0.0 && Positive(Snap(cm), n)
    modifies cm
    ensures Snap(cm) == ColStep(old(Snap(cm)), n, eps)
  {
    hide RowTotal, ColTotal, Snap;
    ghost var m := Snap(cm);
    SnapCells(cm, n);
    var sums := ReduceSum(cm, n, false);
    forall i | 0 <= i < n { TotalsArePositive(m, n, i); }
    DivideCells(cm, n, sums, eps, false);
    StepCells(m, n, eps);
    SnapIs(cm, n, ColStep(m, n, eps));
  }

  lemma StepCells(m: Matrix, n: nat, eps: real)
    ensures Shape(RowStep(m, n, eps), n, n) && Shape(ColStep(m, n, eps), n, n)
    ensures forall j, k | 0 <= j < n && 0 <= k < n ::
              && Cell(RowStep(m, n, eps), j, k) == Div(Cell(m, j, k), RowTotal(m, n, j) + eps)
              && Cell(ColStep(m, n, eps), j, k) == Div(Cell(m, j, k), ColTotal(m, n, k) + eps)
  {
    hide RowTotal, ColTotal, Div;
  }

  lemma ExponentialCells(m: Matrix, n: nat, exp: real -> real)
    requires n > 0
    ensures Shape(Exponentials(m, n, exp), n, n)
    ensures forall j, k | 0 <= j < n && 0 <= k < n ::
              Cell(Exponentials(m, n, exp), j, k) == exp(Cell(m, j, k) - RowMax(m, j, n))
  {
  }

  /** The largest cell of one row. */
  method RowMaximum(cm: array2<real>, n: nat, ghost m: Matrix, j: nat) returns (rowMax: real)
    requires cm.Length0 == cm.Length1 == n && j < n
    requires forall k | 0 <= k < n :: cm[j, k] == Cell(m, j, k)
    ensures rowMax == RowMax(m, j, n)
  {
    rowMax := cm[j, 0];
    for k := 1 to n
      invariant rowMax == RowMax(m, j, k)
    {
      if rowMax < cm[j, k] { rowMax := cm[j, k]; }
    }
  }

  /** The row maxima, then the exponentials of the shifted scores. */
  method Exponentiate(cm: array2<real>, n: nat, exp: real -> real)
    requires cm.Length0 == cm.Length1 == n > 0
    modifies cm
    ensures Snap(cm) == Exponentials(old(Snap(cm)), n, exp)
  {
    ghost var m := Snap(cm);
    SnapCells(cm, n);
    hide Snap, RowMax, Cell, Exponentials;
    for j := 0 to n
      invariant forall j', k | 0 <= j' < n && 0 <= k < n ::
        cm[j', k] == if j' < j then exp(Cell(m, j', k) - RowMax(m, j', n)) else Cell(m, j', k)
    {
      var rowMax := RowMaximum(cm, n, m, j);
      for k := 0 to n
        invariant forall j', k' | 0 <= j' < n && 0 <= k' < n ::
          cm[j', k'] == if j' < j || (j' == j && k' < k) then exp(Cell(m, j', k') - RowMax(m, j', n)) else Cell(m, j', k')
      {
        cm[j, k] := exp(cm[j, k] - rowMax);
      }
    }
    ExponentialCells(m, n, exp);
    SnapIs(cm, n, Exponentials(m, n, exp));
  }

  /** Add `eps` to every cell. */
  method AddToCells(cm: array2<real>, n: nat, eps: real)
    requires cm.Length0 == cm.Length1 == n
    modifies cm
    ensures forall j, k | 0 <= j < n && 0 <= k < n :: cm[j, k] == old(cm[j, k]) + eps
  {
    for j := 0 to n
      invariant forall j', k | 0 <= j' < n && 0 <= k < n :: cm[j', k] == if j' < j then old(cm[j', k]) + eps else old(cm[j', k])
    {
      for k := 0 to n
        invariant forall j', k' | 0 <= j' < n && 0 <= k' < n ::
          cm[j', k'] == if j' < j || (j' == j && k' < k) then old(cm[j', k']) + eps else old(cm[j', k'])
      {
        cm[j, k] := cm[j, k] + eps;
      }
    }
  }

  lemma ExponentialsArePositive(m: Matrix, n: nat, exp: real -> real)
    requires n > 0 && forall v :: exp(v) > 0.0
    ensures Positive(Exponentials(m, n, exp), n)
  {
  }

  /** `softmax(-1) + eps`, on exponentials already computed. */
  lemma SoftmaxCells(m: Matrix, n: nat, exp: real -> real, eps: real)
    requires n > 0
    ensures var e := Exponentials(m, n, exp);
            && Shape(SoftmaxPlus(m, n, exp, eps), n, n)
            && forall j, k | 0 <= j < n && 0 <= k < n ::
                 Cell(SoftmaxPlus(m, n, exp, eps), j, k) == Cell(RowStep(e, n, 0.0), j, k) + eps
  {
    StepCells(Exponentials(m, n, exp), n, 0.0);
  }

  method Softmax(cm: array2<real>, n: nat, exp: real -> real, eps: real)
    requires cm.Length0 == cm.Length1 == n > 0 && eps >= 0.0 && forall v :: exp(v) > 0.0
    modifies cm
    ensures Snap(cm) == SoftmaxPlus(old(Snap(cm)), n, exp, eps)
  {
    hide Snap, Exponentials, RowStep, SoftmaxPlus;
    ghost var m := Snap(cm);
    Exponentiate(cm, n, exp);
    ExponentialsArePositive(m, n, exp);
    NormaliseRows(cm, n, 0.0);
    SnapCells(cm, n);
    AddToCells(cm, n, eps);
    SoftmaxCells(m, n, exp, eps);
    SnapIs(cm, n, SoftmaxPlus(m, n, exp, eps));
  }

  lemma StepsKeepPositive(m: Matrix, n: nat, eps: real)
    requires Positive(m, n) && eps >= 0.0
    ensures Positive(RowStep(m, n, eps), n) && Positive(ColStep(m, n, eps), n)
  {
    hide RowTotal, ColTotal, RowStep, ColStep, Cell, Div;
    StepCells(m, n, eps);
    forall j, k | 0 <= j < n && 0 <= k < n
      ensures Cell(RowStep(m, n, eps), j, k) > 0.0 && Cell(ColStep(m, n, eps), j, k) > 0.0
    {
      TotalsArePositive(m, n, j);
      TotalsArePositive(m, n, k);
      DivIsPositive(Cell(m, j, k), RowTotal(m, n, j) + eps);
      DivIsPositive(Cell(m, j, k), ColTotal(m, n, k) + eps);
    }
  }

  lemma DivIsPositive(a: real, b: real)
    requires a > 0.0 && b > 0.0
    ensures Div(a, b) > 0.0
  {
  }

  lemma SoftmaxIsPositive(m: Matrix, n: nat, exp: real -> real, eps: real)
    requires n > 0 && eps >= 0.0 && forall v :: exp(v) > 0.0
    ensures Positive(SoftmaxPlus(m, n, exp, eps), n)
  {
    hide RowStep, Exponentials, SoftmaxPlus;
    ExponentialsArePositive(m, n, exp);
    StepsKeepPositive(Exponentials(m, n, exp), n, 0.0);
    SoftmaxCells(m, n, exp, eps);
  }

  /** The whole in-place computation. */
  method SinkhornForward(cm: array2<real>, n: nat, exp: real -> real, eps: real, repeat: int)
    requires cm.Length0 == cm.Length1 == n > 0 && eps >= 0.0 && forall v :: exp(v) > 0.0
    modifies cm
    ensures Snap(cm) == Normalised(old(Snap(cm)), n, exp, eps, repeat)
  {
    hide Snap, SoftmaxPlus, RowStep, ColStep;
    ghost var scores := Snap(cm);
    Softmax(cm, n, exp, eps);
    SoftmaxIsPositive(scores, n, exp, eps);
    StepsKeepPositive(Snap(cm), n, eps);
    NormaliseColumns(cm, n, eps);
    ghost var start := Snap(cm);
    var rounds := if repeat > 1 then repeat - 1 else 0;
    for r := 0 to rounds
      invariant Snap(cm) == Rounds(start, n, eps, r) && Positive(Snap(cm), n)
    {
      StepsKeepPositive(Snap(cm), n, eps);
      NormaliseRows(cm, n, eps);
      StepsKeepPositive(Snap(cm), n, eps);
      NormaliseColumns(cm, n, eps);
    }
  }

  // ---------------------------------------------------------------------------------------------
  // What the result satisfies

  lemma {:induction false} SumDiv(f: int -> real, c: real, n: nat)
    requires c != 0.0
    ensures Sum(i => Div(f(i), c), n) == Div(Sum(f, n), c)
  {
    if n > 0 { SumDiv(f, c, n - 1); }
  }

  /** A column step brings every column sum to `c / (c + eps)`. */
  lemma ColumnSumAfterStep(m: Matrix, n: nat, eps: real, k: int)
    requires Positive(m, n) && eps >= 0.0 && 0 <= k < n
    ensures ColTotal(m, n, k) > 0.0
    ensures ColTotal(ColStep(m, n, eps), n, k) == Div(ColTotal(m, n, k), ColTotal(m, n, k) + eps)
  {
    TotalsArePositive(m, n, k);
    StepCells(m, n, eps);
    var c := ColTotal(m, n, k) + eps;
    var before := (j: int) => Cell(m, j, k);
    SumDiv(before, c, n);
    SumExt(j => Cell(ColStep(m, n, eps), j, k), j => Div(before(j), c), n);
    SumExt(j => Cell(m, j, k), before, n);
  }

  lemma {:induction false} RoundsKeepPositive(m: Matrix, n: nat, eps: real, rounds: nat)
    requires Positive(m, n) && eps >= 0.0
    ensures Positive(Rounds(m, n, eps, rounds), n)
  {
    hide RowStep, ColStep, Positive;
    if rounds > 0 {
      RoundsKeepPositive(m, n, eps, rounds - 1);
      var before := Rounds(m, n, eps, rounds - 1);
      StepsKeepPositive(before, n, eps);
      StepsKeepPositive(RowStep(before, n, eps), n, eps);
    }
  }

  /** For any scores and any number of repeats the result is positive, and every column sums to exactly 1
      when `eps` is 0 and to less than 1 when it is positive. */
  lemma ResultIsPositiveAndNormalised(m: Matrix, n: nat, exp: real -> real, eps: real, repeat: int, k: int)
    requires n > 0 && eps >= 0.0 && (forall v :: exp(v) > 0.0) && 0 <= k < n
    ensures Positive(Normalised(m, n, exp, eps, repeat), n)
    ensures var c := ColTotal(Normalised(m, n, exp, eps, repeat), n, k);
            0.0 < c <= 1.0 && (c == 1.0 <==> eps == 0.0)
  {
    hide RowStep, ColStep, SoftmaxPlus, RowTotal, ColTotal, Div;
    var start := SoftmaxPlus(m, n, exp, eps);
    SoftmaxIsPositive(m, n, exp, eps);
    StepsKeepPositive(start, n, eps);
    var rounds := if repeat > 1 then repeat - 1 else 0;
    var first := ColStep(start, n, eps);
    RoundsKeepPositive(first, n, eps, rounds);
    if rounds == 0 {
      ColumnSumAfterStep(start, n, eps, k);
      Share(ColTotal(start, n, k), eps);
    } else {
      var before := Rounds(first, n, eps, rounds - 1);
      RoundsKeepPositive(first, n, eps, rounds - 1);
      StepsKeepPositive(before, n, eps);
      var rows := RowStep(before, n, eps);
      ColumnSumAfterStep(rows, n, eps, k);
      Share(ColTotal(rows, n, k), eps);
    }
  }

  /** `c` as a share of `c + eps`. */
  lemma Share(c: real, eps: real)
    requires c > 0.0 && eps >= 0.0
    ensures 0.0 < Div(c, c + eps) <= 1.0 && (Div(c, c + eps) == 1.0 <==> eps == 0.0)
  {
    var q := c / (c + eps);
    assert q * (c + eps) == c;
  }

  ghost predicate DoublyStochastic(m: Matrix, n: nat) {
    forall i | 0 <= i < n :: RowTotal(m, n, i) == 1.0 && ColTotal(m, n, i) == 1.0
  }

  lemma {:induction false} SumConst(f: int -> real, c: real, n: nat)
    requires forall i | 0 <= i < n :: f(i) == c
    ensures Sum(f, n) == n as real * c
  {
    if n > 0 {
      SumConst(f, c, n - 1);
      OneMoreTerm(n - 1, c);
    }
  }

  lemma OneMoreTerm(n: nat, c: real)
    ensures (n + 1) as real * c == n as real * c + c
  {
    calc {
      (n + 1) as real * c;
      (n as real + 1.0) * c;
      n as real * c + 1.0 * c;
      n as real * c + c;
    }
  }

  lemma RowsAndColumnsHaveTheSameTotal(m: Matrix, n: nat)
    ensures Sum(j => RowTotal(m, n, j), n) == Sum(k => ColTotal(m, n, k), n)
  {
    var cell := (j: int, k: int) => Cell(m, j, k);
    SumSwap(cell, n, n);
    forall j
      ensures RowTotal(m, n, j) == Sum(k => cell(j, k), n)
    {
      SumExt(k => Cell(m, j, k), k => cell(j, k), n);
    }
    forall k
      ensures ColTotal(m, n, k) == Sum(j => cell(j, k), n)
    {
      SumExt(j => Cell(m, j, k), j => cell(j, k), n);
    }
    SumExt(j => RowTotal(m, n, j), j => Sum(k => cell(j, k), n), n);
    SumExt(k => ColTotal(m, n, k), k => Sum(j => cell(j, k), n), n);
  }

  lemma QuotientUnchanged(x: real, r: real, c: real)
    requires x > 0.0 && r > 0.0 && c > 0.0 && x == Div(Div(x, r), c)
    ensures r * c == 1.0
  {
    var y := x / r;
    assert y * r == x && x * c == y;
    ProductIsOne(x, y, r, c);
  }

  lemma ProductIsOne(x: real, y: real, r: real, c: real)
    requires x > 0.0 && y * r == x && x * c == y
    ensures r * c == 1.0
  {
    var z := r * c;
    calc {
      x * z;
      (x * c) * r;
      { assert x * c == y; }
      y * r;
      x;
    }
    Cancel(x, z);
  }

  lemma Cancel(x: real, z: real)
    requires x > 0.0 && x * z == x
    ensures z == 1.0
  {
    assert x * (z - 1.0) == 0.0;
  }

  lemma FixedPointHasEqualRows(m: Matrix, n: nat, j: int, k: int)
    requires Positive(m, n) && ColStep(RowStep(m, n, 0.0), n, 0.0) == m && 0 <= j < n && 0 <= k < n
    ensures RowTotal(m, n, j) * ColTotal(RowStep(m, n, 0.0), n, k) == 1.0
  {
    hide RowTotal, ColTotal, RowStep, ColStep, Cell, Div;
    var r := RowStep(m, n, 0.0);
    StepsKeepPositive(m, n, 0.0);
    StepCells(m, n, 0.0);
    StepCells(r, n, 0.0);
    TotalsArePositive(m, n, j);
    TotalsArePositive(r, n, k);
    QuotientUnchanged(Cell(m, j, k), RowTotal(m, n, j), ColTotal(r, n, k));
  }

  lemma FixedPointIsDoublyStochastic(m: Matrix, n: nat)
    requires n > 0 && Positive(m, n) && ColStep(RowStep(m, n, 0.0), n, 0.0) == m
    ensures DoublyStochastic(m, n)
  {
    hide RowTotal, ColTotal, RowStep, ColStep;
    var r := RowStep(m, n, 0.0);
    StepsKeepPositive(m, n, 0.0);
    forall k | 0 <= k < n
      ensures ColTotal(m, n, k) == 1.0
    {
      ColumnSumAfterStep(r, n, 0.0, k);
    }
    var row := RowTotal(m, n, 0);
    forall j | 0 <= j < n
      ensures RowTotal(m, n, j) == row
    {
      FixedPointHasEqualRows(m, n, 0, 0);
      FixedPointHasEqualRows(m, n, j, 0);
      SameInverse(row, RowTotal(m, n, j), ColTotal(r, n, 0));
    }
    RowsAndColumnsHaveTheSameTotal(m, n);
    SumConst(j => RowTotal(m, n, j), row, n);
    SumConst(k => ColTotal(m, n, k), 1.0, n);
    Cancel(n as real, row);
  }

  lemma SameInverse(a: real, b: real, c: real)
    requires a * c == 1.0 && b * c == 1.0
    ensures a == b
  {
    assert (a - b) * c == 0.0;
  }

  lemma DoublyStochasticIsFixed(m: Matrix, n: nat)
    requires Positive(m, n) && DoublyStochastic(m, n)
    ensures RowStep(m, n, 0.0) == m && ColStep(m, n, 0.0) == m
  {
    hide RowTotal, ColTotal, RowStep, ColStep;
    StepCells(m, n, 0.0);
    MatrixExt(RowStep(m, n, 0.0), m, n);
    MatrixExt(ColStep(m, n, 0.0), m, n);
  }

  /** Without `eps`, a further round changes nothing exactly when the matrix is doubly stochastic. */
  lemma FixedPointIff(m: Matrix, n: nat)
    requires n > 0 && Positive(m, n)
    ensures ColStep(RowStep(m, n, 0.0), n, 0.0) == m <==> DoublyStochastic(m, n)
  {
    hide RowStep, ColStep, Positive, DoublyStochastic;
    if ColStep(RowStep(m, n, 0.0), n, 0.0) == m {
      FixedPointIsDoublyStochastic(m, n);
    }
    if DoublyStochastic(m, n) {
      DoublyStochasticIsFixed(m, n);
    }
  }
}
