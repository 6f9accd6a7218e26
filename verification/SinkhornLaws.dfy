/**
 The Sinkhorn computation said step by step without its own formulas: which matrix each step turns another into, by
 equations between their cells and sums.
 */
module SinkhornLaws {
  import opened Sums
  import opened PrenormGemm
  import opened Sinkhorn

  /** Every cell of `b`, times its row's sum in `a` plus `eps`, is the cell of `a`. */
  ghost predicate RowsDivided(a: Matrix, b: Matrix, n: nat, eps: real) {
    Shape(b, n, n) && forall j, k | 0 <= j < n && 0 <= k < n :: Cell(b, j, k) * (Sum(q => Cell(a, j, q), n) + eps) == Cell(a, j, k)
  }

  ghost predicate ColumnsDivided(a: Matrix, b: Matrix, n: nat, eps: real) {
    Shape(b, n, n) && forall j, k | 0 <= j < n && 0 <= k < n :: Cell(b, j, k) * (Sum(q => Cell(a, q, k), n) + eps) == Cell(a, j, k)
  }

  predicate IsRowMaximum(m: Matrix, n: nat, j: int, v: real) {
    (forall k | 0 <= k < n :: Cell(m, j, k) <= v) && exists k | 0 <= k < n :: Cell(m, j, k) == v
  }

  /** Every cell of `b` is `eps` more than its share of the exponentials of its row's scores, which are shifted by
      the row's maximum. */
  ghost predicate SoftmaxOf(m: Matrix, b: Matrix, n: nat, exp: real -> real, eps: real) {
    Shape(b, n, n) && forall j, k, v | 0 <= j < n && 0 <= k < n && IsRowMaximum(m, n, j, v) ::
      (Cell(b, j, k) - eps) * Sum(q => exp(Cell(m, j, q) - v), n) == exp(Cell(m, j, k) - v)
  }

  lemma {:induction false} RowMaxIsMaximum(m: Matrix, j: int, n: nat)
    requires n > 0
    ensures IsRowMaximum(m, n, j, RowMax(m, j, n))
  {
    if n > 1 {
      RowMaxIsMaximum(m, j, n - 1);
      var k :| 0 <= k < n - 1 && Cell(m, j, k) == RowMax(m, j, n - 1);
      assert Cell(m, j, n - 1) == RowMax(m, j, n) || Cell(m, j, k) == RowMax(m, j, n);
    } else {
      assert Cell(m, j, 0) == RowMax(m, j, 1);
    }
  }

  lemma DivTimes(a: real, b: real)
    requires b != 0.0
    ensures Div(a, b) * b == a
  {
  }

  lemma StepsDivide(m: Matrix, n: nat, eps: real)
    requires Positive(m, n) && eps >= 0.0
    ensures RowsDivided(m, RowStep(m, n, eps), n, eps) && ColumnsDivided(m, ColStep(m, n, eps), n, eps)
  {
    hide RowStep, ColStep, Cell, Div, Sum;
    StepCells(m, n, eps);
    forall j, k | 0 <= j < n && 0 <= k < n
      ensures Cell(RowStep(m, n, eps), j, k) * (Sum(q => Cell(m, j, q), n) + eps) == Cell(m, j, k)
      ensures Cell(ColStep(m, n, eps), j, k) * (Sum(q => Cell(m, q, k), n) + eps) == Cell(m, j, k)
    {
      TotalsArePositive(m, n, j);
      TotalsArePositive(m, n, k);
      SumExt(q => Cell(m, j, q), q => Cell(m, j, q), n);
      SumExt(q => Cell(m, q, k), q => Cell(m, q, k), n);
      DivTimes(Cell(m, j, k), RowTotal(m, n, j) + eps);
      DivTimes(Cell(m, j, k), ColTotal(m, n, k) + eps);
    }
  }

  lemma SoftmaxIsSoftmax(m: Matrix, n: nat, exp: real -> real, eps: real)
    requires n > 0 && forall v :: exp(v) > 0.0
    ensures SoftmaxOf(m, SoftmaxPlus(m, n, exp, eps), n, exp, eps)
  {
    hide RowStep, Exponentials, SoftmaxPlus, Cell, Div, Sum, RowMax;
    var e, b := Exponentials(m, n, exp), SoftmaxPlus(m, n, exp, eps);
    ExponentialsArePositive(m, n, exp);
    ExponentialCells(m, n, exp);
    SoftmaxCells(m, n, exp, eps);
    StepsDivide(e, n, 0.0);
    forall j, k, v | 0 <= j < n && 0 <= k < n && IsRowMaximum(m, n, j, v)
      ensures (Cell(b, j, k) - eps) * Sum(q => exp(Cell(m, j, q) - v), n) == exp(Cell(m, j, k) - v)
    {
      RowMaxIsMaximum(m, j, n);
      assert v == RowMax(m, j, n);
      SumExt(q => Cell(e, j, q), q => exp(Cell(m, j, q) - v), n);
    }
  }

  /** Up to one repeat: the softmax, then its columns divided. */
  lemma FirstRepeat(m: Matrix, n: nat, exp: real -> real, eps: real, repeat: int)
    requires n > 0 && eps >= 0.0 && (forall v :: exp(v) > 0.0) && repeat <= 1
    ensures exists s :: SoftmaxOf(m, s, n, exp, eps) && ColumnsDivided(s, Normalised(m, n, exp, eps, repeat), n, eps)
  {
    hide RowStep, ColStep, SoftmaxPlus, SoftmaxOf, ColumnsDivided, RowsDivided, Positive;
    SoftmaxIsSoftmax(m, n, exp, eps);
    SoftmaxIsPositive(m, n, exp, eps);
    StepsDivide(SoftmaxPlus(m, n, exp, eps), n, eps);
  }

  /** Every further repeat: the rows of the result so far divided, and then the columns. */
  lemma NextRepeat(m: Matrix, n: nat, exp: real -> real, eps: real, repeat: int)
    requires n > 0 && eps >= 0.0 && (forall v :: exp(v) > 0.0) && repeat >= 1
    ensures exists rows ::
              && RowsDivided(Normalised(m, n, exp, eps, repeat), rows, n, eps)
              && ColumnsDivided(rows, Normalised(m, n, exp, eps, repeat + 1), n, eps)
  {
    hide RowStep, ColStep, SoftmaxPlus, ColumnsDivided, RowsDivided, Positive;
    var before := Normalised(m, n, exp, eps, repeat);
    SoftmaxIsPositive(m, n, exp, eps);
    var first := ColStep(SoftmaxPlus(m, n, exp, eps), n, eps);
    StepsKeepPositive(SoftmaxPlus(m, n, exp, eps), n, eps);
    RoundsKeepPositive(first, n, eps, repeat - 1);
    StepsDivide(before, n, eps);
    StepsKeepPositive(before, n, eps);
    StepsDivide(RowStep(before, n, eps), n, eps);
  }

  lemma DividedTwice(b: real, c: real, t: real)
    requires t != 0.0 && b * t == c * t
    ensures b == c
  {
    assert (b - c) * t == 0.0;
  }

  /** The equations leave no choice: on a positive matrix each step has one result. */
  lemma RowDivisionIsUnique(a: Matrix, b: Matrix, c: Matrix, n: nat, eps: real)
    requires Positive(a, n) && eps >= 0.0 && RowsDivided(a, b, n, eps) && RowsDivided(a, c, n, eps)
    ensures b == c
  {
    forall j, k | 0 <= j < n && 0 <= k < n
      ensures Cell(b, j, k) == Cell(c, j, k)
    {
      hide Cell, Sum;
      SumPositive(q => Cell(a, j, q), n);
      DividedTwice(Cell(b, j, k), Cell(c, j, k), Sum(q => Cell(a, j, q), n) + eps);
    }
    MatrixExt(b, c, n);
  }

  lemma ColumnDivisionIsUnique(a: Matrix, b: Matrix, c: Matrix, n: nat, eps: real)
    requires Positive(a, n) && eps >= 0.0 && ColumnsDivided(a, b, n, eps) && ColumnsDivided(a, c, n, eps)
    ensures b == c
  {
    forall j, k | 0 <= j < n && 0 <= k < n
      ensures Cell(b, j, k) == Cell(c, j, k)
    {
      hide Cell, Sum;
      SumPositive(q => Cell(a, q, k), n);
      DividedTwice(Cell(b, j, k), Cell(c, j, k), Sum(q => Cell(a, q, k), n) + eps);
    }
    MatrixExt(b, c, n);
  }
}
