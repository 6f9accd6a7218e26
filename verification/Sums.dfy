/** Finite sums of reals, and the ways a sum may be cut into tiles and reordered. */
module Sums {
  function Sum(f: int -> real, n: nat): real {
    if n == 0 then 0.0 else Sum(f, n - 1) + f(n - 1)
  }

  lemma {:induction false} SumExt(f: int -> real, g: int -> real, n: nat)
    requires forall i | 0 <= i < n :: f(i) == g(i)
    ensures Sum(f, n) == Sum(g, n)
  {
    if n > 0 { SumExt(f, g, n - 1); }
  }

  lemma {:induction false} SumAdd(f: int -> real, g: int -> real, n: nat)
    ensures Sum(i => f(i) + g(i), n) == Sum(f, n) + Sum(g, n)
  {
    if n > 0 { SumAdd(f, g, n - 1); }
  }

  lemma {:induction false} SumZero(f: int -> real, n: nat)
    requires forall i | 0 <= i < n :: f(i) == 0.0
    ensures Sum(f, n) == 0.0
  {
    if n > 0 { SumZero(f, n - 1); }
  }

  lemma {:induction false} SumOnly(f: int -> real, n: nat, k: nat)
    requires k < n && forall i | 0 <= i < n && i != k :: f(i) == 0.0
    ensures Sum(f, n) == f(k)
  {
    if k < n - 1 { SumOnly(f, n - 1, k); } else { SumZero(f, n - 1); }
  }

  lemma {:induction false} SumPositive(f: int -> real, n: nat)
    requires n > 0 && forall i | 0 <= i < n :: f(i) > 0.0
    ensures Sum(f, n) > 0.0
  {
    if n > 1 { SumPositive(f, n - 1); }
  }

  lemma {:induction false} SumScale(f: int -> real, c: real, n: nat)
    ensures Sum(i => f(i) * c, n) == Sum(f, n) * c
  {
    if n > 0 { SumScale(f, c, n - 1); }
  }

  lemma {:induction false} SumSplit(f: int -> real, a: nat, b: nat)
    ensures Sum(f, a + b) == Sum(f, a) + Sum(i => f(a + i), b)
  {
    if b > 0 { SumSplit(f, a, b - 1); }
  }

  /** Summing `m` tiles of `k` elements each. */
  lemma {:induction false} SumTiles(f: int -> real, m: nat, k: nat)
    ensures Sum(f, m * k) == Sum(i => Sum(j => f(i * k + j), k), m)
  {
    hide Sum;
    var tile := (i: int) => Sum(j => f(i * k + j), k);
    SumEnds(f, tile, m);
    if m > 0 {
      var base := (m - 1) * k;
      SumTiles(f, m - 1, k);
      assert m * k == base + k;
      SumSplit(f, base, k);
      SumExt(i => f(base + i), j => f((m - 1) * k + j), k);
      SumExt(i => Sum(j => f(i * k + j), k), tile, m - 1);
    }
    SumExt(i => Sum(j => f(i * k + j), k), tile, m);
  }

  lemma SumEnds(f: int -> real, g: int -> real, n: nat)
    ensures Sum(f, 0) == 0.0 == Sum(g, 0) && (n > 0 ==> Sum(g, n) == Sum(g, n - 1) + g(n - 1))
  {
  }

  lemma {:induction false} SumSwap(f: (int, int) -> real, m: nat, n: nat)
    ensures Sum(i => Sum(j => f(i, j), n), m) == Sum(j => Sum(i => f(i, j), m), n)
  {
    if m == 0 {
      SumZero(j => Sum(i => f(i, j), m), n);
    } else {
      SumSwap(f, m - 1, n);
      var last := (j: int) => f(m - 1, j);
      var rest := (j: int) => Sum(i => f(i, j), m - 1);
      SumAdd(rest, last, n);
      SumExt(j => Sum(i => f(i, j), m), j => rest(j) + last(j), n);
      SumExt(j => f(m - 1, j), last, n);
      SumExt(j => Sum(i => f(i, j), m - 1), rest, n);
    }
  }

  /** A sum laid out row by row, added up column by column instead. */
  lemma SumGrid(term: int -> real, cell: (int, int) -> real, rows: nat, cols: nat)
    requires forall r, c | 0 <= r < rows && 0 <= c < cols :: cell(r, c) == term(r * cols + c)
    ensures Sum(term, rows * cols) == Sum(c => Sum(r => cell(r, c), rows), cols)
  {
    SumTiles(term, rows, cols);
    var byRow := (r: int) => Sum(c => term(r * cols + c), cols);
    forall r | 0 <= r < rows
      ensures byRow(r) == Sum(c => cell(r, c), cols)
    {
      SumExt(c => term(r * cols + c), c => cell(r, c), cols);
    }
    SumExt(r => Sum(c => term(r * cols + c), cols), byRow, rows);
    SumExt(byRow, r => Sum(c => cell(r, c), cols), rows);
    SumSwap(cell, rows, cols);
  }
}
