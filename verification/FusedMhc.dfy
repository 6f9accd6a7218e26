/**
 The fused post-mapping and pre-norm GEMM over exact reals, the separate post-mapping kernel, and
 the proof that the fused kernel is the composition of the two.
 */
module FusedMhc {
  import opened Arithmetic
  import opened Sums
  import opened PrenormGemm

  /** The tensors of one token: mixing matrix (hc x hc), past residual (hc x h), post weights (hc) and
      layer output (h). */
  datatype Token = Token(comb: Matrix, residual: Matrix, post: Row, x: Row)

  predicate TokenShape(t: Token, hc: nat, h: nat) {
    Shape(t.comb, hc, hc) && Shape(t.residual, hc, h) && |t.post| == hc && |t.x| == h
  }

  /** Past residual mixed into channel `j` at position `i`, over the first `n` channels. */
  function Mixed(t: Token, j: int, i: int, n: nat): real {
    Sum(k => Cell(t.comb, k, j) * Cell(t.residual, k, i), n)
  }

  /** The post-mapping: the new residual of channel `j` at position `i`. */
  function Post(t: Token, hc: nat, j: int, i: int): real {
    At(t.post, j) * At(t.x, i) + Mixed(t, j, i, hc)
  }

  lemma MixedStep(t: Token, j: int, i: int, n: nat)
    ensures Mixed(t, j, i, n + 1) == Mixed(t, j, i, n) + Cell(t.comb, n, j) * Cell(t.residual, n, i)
  {
  }

  /** The inner loop that both kernels share. */
  method PostCell(t: Token, hc: nat, h: nat, j: nat, i: nat) returns (v: real)
    requires TokenShape(t, hc, h) && j < hc && i < h
    ensures v == Post(t, hc, j, i)
  {
    v := t.post[j] * t.x[i];
    assert Mixed(t, j, i, 0) == 0.0;
    hide Mixed;
    for k := 0 to hc
      invariant v == t.post[j] * t.x[i] + Mixed(t, j, i, k)
    {
      MixedStep(t, j, i, k);
      v := v + t.comb[k][j] * t.residual[k][i];
    }
  }

  // ---------------------------------------------------------------------------------------------
  // The separate post-mapping kernel

  // What the post-mapping is: three laws that determine it.  A token's new residual depends linearly on its post
  // weights and its mixing matrix, so it is settled by the cases in which only one of them is not zero.

  predicate NothingMixed(t: Token, hc: nat, i: int) {
    forall k | 0 <= k < hc :: Cell(t.residual, k, i) == 0.0
  }

  /** The post weights are zero, and the mixing matrix is zero but for one cell. */
  predicate OnlyMixes(t: Token, hc: nat, k0: int, j0: int) {
    && 0 <= k0 < hc && 0 <= j0 < hc
    && (forall j | 0 <= j < hc :: At(t.post, j) == 0.0)
    && (forall k, j | 0 <= k < hc && 0 <= j < hc && (k, j) != (k0, j0) :: Cell(t.comb, k, j) == 0.0)
  }

  /** `t` has the post weights and mixing matrices of `a` and `b` added up, and the rest as both. */
  predicate AddedUp(t: Token, a: Token, b: Token, hc: nat) {
    && t.x == a.x == b.x && t.residual == a.residual == b.residual
    && (forall j | 0 <= j < hc :: At(t.post, j) == At(a.post, j) + At(b.post, j))
    && (forall k, j | 0 <= k < hc && 0 <= j < hc :: Cell(t.comb, k, j) == Cell(a.comb, k, j) + Cell(b.comb, k, j))
  }

  /** Without past residual, only the weighted layer output is left. */
  lemma PostWithoutResidual(t: Token, hc: nat, j: int, i: int)
    requires NothingMixed(t, hc, i)
    ensures Post(t, hc, j, i) == At(t.post, j) * At(t.x, i)
  {
    hide At;
    SumZero(k => Cell(t.comb, k, j) * Cell(t.residual, k, i), hc);
  }

  /** Without post weights, a single mixing cell carries one channel of the past residual into another. */
  lemma PostOfOneCell(t: Token, hc: nat, k0: int, j0: int, j: int, i: int)
    requires OnlyMixes(t, hc, k0, j0) && 0 <= j < hc
    ensures Post(t, hc, j, i) == if j == j0 then Cell(t.comb, k0, j0) * Cell(t.residual, k0, i) else 0.0
  {
    hide At, Cell;
    var term := (k: int) => Cell(t.comb, k, j) * Cell(t.residual, k, i);
    if j == j0 { SumOnly(term, hc, k0); } else { SumZero(term, hc); }
    SumExt(k => Cell(t.comb, k, j) * Cell(t.residual, k, i), term, hc);
  }

  lemma PostAddsUp(t: Token, a: Token, b: Token, hc: nat, j: int, i: int)
    requires AddedUp(t, a, b, hc) && 0 <= j < hc
    ensures Post(t, hc, j, i) == Post(a, hc, j, i) + Post(b, hc, j, i)
  {
    hide At, Cell;
    var ofA, ofB := (k: int) => Cell(a.comb, k, j) * Cell(a.residual, k, i), (k: int) => Cell(b.comb, k, j) * Cell(b.residual, k, i);
    var ofT := (k: int) => Cell(t.comb, k, j) * Cell(t.residual, k, i);
    forall k | 0 <= k < hc
      ensures ofT(k) == ofA(k) + ofB(k)
    {
      ProductOfSum(Cell(a.comb, k, j), Cell(b.comb, k, j), Cell(t.residual, k, i));
    }
    SumAdd(ofA, ofB, hc);
    SumExt(ofT, k => ofA(k) + ofB(k), hc);
    SumExt(k => Cell(t.comb, k, j) * Cell(t.residual, k, i), ofT, hc);
    SumExt(k => Cell(a.comb, k, j) * Cell(a.residual, k, i), ofA, hc);
    SumExt(k => Cell(b.comb, k, j) * Cell(b.residual, k, i), ofB, hc);
    ProductOfSum(At(a.post, j), At(b.post, j), At(t.x, i));
  }

  /** The tensor obeys the three laws at every position that is `stored`. */
  ghost predicate ObeysLaws(tokens: seq<Token>, hc: nat, h: nat, stored: int -> bool, out: array3<real>)
    requires out.Length0 == |tokens| && out.Length1 == hc && out.Length2 == h
    reads out
  {
    && (forall n, j, i | 0 <= n < |tokens| && 0 <= j < hc && 0 <= i < h && stored(i) && NothingMixed(tokens[n], hc, i) ::
          out[n, j, i] == At(tokens[n].post, j) * At(tokens[n].x, i))
    && (forall n, k0, j0, j, i | 0 <= n < |tokens| && 0 <= j < hc && 0 <= i < h && stored(i) && OnlyMixes(tokens[n], hc, k0, j0) ::
          out[n, j, i] == if j == j0 then Cell(tokens[n].comb, k0, j0) * Cell(tokens[n].residual, k0, i) else 0.0)
    && (forall n, a, b, j, i |
          0 <= n < |tokens| && 0 <= a < |tokens| && 0 <= b < |tokens| && 0 <= j < hc && 0 <= i < h && stored(i)
          && AddedUp(tokens[n], tokens[a], tokens[b], hc) ::
          out[n, j, i] == out[a, j, i] + out[b, j, i])
  }

  lemma PostObeysLaws(tokens: seq<Token>, hc: nat, h: nat, stored: int -> bool, out: array3<real>)
    requires out.Length0 == |tokens| && out.Length1 == hc && out.Length2 == h
    requires forall n, j, i | 0 <= n < |tokens| && 0 <= j < hc && 0 <= i < h && stored(i) :: out[n, j, i] == Post(tokens[n], hc, j, i)
    ensures ObeysLaws(tokens, hc, h, stored, out)
  {
    hide Post, At, Cell, NothingMixed, OnlyMixes, AddedUp;
    forall n, j, i | 0 <= n < |tokens| && 0 <= j < hc && 0 <= i < h && stored(i) && NothingMixed(tokens[n], hc, i)
      ensures out[n, j, i] == At(tokens[n].post, j) * At(tokens[n].x, i)
    {
      PostWithoutResidual(tokens[n], hc, j, i);
    }
    forall n, k0, j0, j, i | 0 <= n < |tokens| && 0 <= j < hc && 0 <= i < h && stored(i) && OnlyMixes(tokens[n], hc, k0, j0)
      ensures out[n, j, i] == if j == j0 then Cell(tokens[n].comb, k0, j0) * Cell(tokens[n].residual, k0, i) else 0.0
    {
      PostOfOneCell(tokens[n], hc, k0, j0, j, i);
    }
    forall n, a, b, j, i |
      0 <= n < |tokens| && 0 <= a < |tokens| && 0 <= b < |tokens| && 0 <= j < hc && 0 <= i < h && stored(i)
      && AddedUp(tokens[n], tokens[a], tokens[b], hc)
      ensures out[n, j, i] == out[a, j, i] + out[b, j, i]
    {
      PostAddsUp(tokens[n], tokens[a], tokens[b], hc, j, i);
    }
  }

  /** The block size is a common divisor of the hidden size, so the blocks tile it. */
  method MhcPost(tokens: seq<Token>, hc: nat, h: nat, hBlk: nat, out: array3<real>)
    requires (forall n | 0 <= n < |tokens| :: TokenShape(tokens[n], hc, h)) && hBlk > 0 && h % hBlk == 0
    requires out.Length0 == |tokens| && out.Length1 == hc && out.Length2 == h
    modifies out
    ensures forall n, j, i | 0 <= n < |tokens| && 0 <= j < hc && 0 <= i < h :: out[n, j, i] == Post(tokens[n], hc, j, i)
    ensures ObeysLaws(tokens, hc, h, _ => true, out)
  {
    hide Post, ObeysLaws;
    var blocks := h / hBlk;
    assert blocks * hBlk == h;
    for n := 0 to |tokens|
      invariant forall m, j, i | 0 <= m < n && 0 <= j < hc && 0 <= i < h :: out[m, j, i] == Post(tokens[m], hc, j, i)
    {
      for b := 0 to blocks
        invariant forall m, j, i | 0 <= m < n && 0 <= j < hc && 0 <= i < h :: out[m, j, i] == Post(tokens[m], hc, j, i)
        invariant b * hBlk <= h
        invariant forall j, i | 0 <= j < hc && 0 <= i < b * hBlk :: out[n, j, i] == Post(tokens[n], hc, j, i)
      {
        MulMono(b + 1, blocks, hBlk);
        PostBlock(tokens[n], n, hc, h, b * hBlk, hBlk, out);
      }
    }
    PostObeysLaws(tokens, hc, h, _ => true, out);
  }

  /** One block of one token: all channels, `len` positions from `from` on. */
  method PostBlock(t: Token, n: nat, hc: nat, h: nat, from: nat, len: nat, out: array3<real>)
    requires TokenShape(t, hc, h) && from + len <= h
    requires n < out.Length0 && out.Length1 == hc && out.Length2 == h
    modifies out
    ensures forall m, j, i | 0 <= m < out.Length0 && 0 <= j < hc && 0 <= i < h ::
              out[m, j, i] == if m == n && from <= i < from + len then Post(t, hc, j, i) else old(out[m, j, i])
  {
    hide Post;
    for j := 0 to hc
      invariant forall m, j', i | 0 <= m < out.Length0 && 0 <= j' < hc && 0 <= i < h ::
        out[m, j', i] == if m == n && j' < j && from <= i < from + len then Post(t, hc, j', i) else old(out[m, j', i])
    {
      for d := 0 to len
        invariant forall m, j', i | 0 <= m < out.Length0 && 0 <= j' < hc && 0 <= i < h ::
          out[m, j', i] == if m == n && ((j' < j && from <= i < from + len) || (j' == j && from <= i < from + d))
                           then Post(t, hc, j', i) else old(out[m, j', i])
      {
        var v := PostCell(t, hc, h, j, from + d);
        out[n, j, from + d] := v;
      }
    }
  }

  // ---------------------------------------------------------------------------------------------
  // The fused kernel

  datatype Fusion = Fusion(hc: nat, h: nat, nOut: nat, nThr: nat, tileN: nat, splitK: nat) {
    predicate Legal() {
      nThr > 0 && nThr % LANES == 0 && tileN > 0 && splitK > 0
    }
    function HPerSplit(): nat requires splitK > 0 { h / splitK }
    function HIters(): nat requires Legal() { HPerSplit() / nThr }
    function NTiles(): nat requires tileN > 0 { nOut / tileN }
  }

  /** What position `i` contributes to output row `w` and to the square sum. */
  function GemmTerm(f: Fusion, t: Token, w: Matrix, i: int): real {
    Sum(j => Cell(w, j, i) * Post(t, f.hc, j, i), f.hc)
  }

  function SquareTerm(f: Fusion, t: Token, i: int): real {
    Sum(j => Post(t, f.hc, j, i) * Post(t, f.hc, j, i), f.hc)
  }

  function PartialGemm(f: Fusion, t: Token, w: Matrix, s: int): real
    requires f.Legal()
  {
    Sum(k => GemmTerm(f, t, w, s * f.HPerSplit() + k), f.HIters() * f.nThr)
  }

  function PartialSquares(f: Fusion, t: Token, s: int): real
    requires f.Legal()
  {
    Sum(k => SquareTerm(f, t, s * f.HPerSplit() + k), f.HIters() * f.nThr)
  }

  predicate Weights(f: Fusion, ws: seq<Matrix>) {
    |ws| == f.nOut && forall o | 0 <= o < f.nOut :: Shape(ws[o], f.hc, f.h)
  }

  predicate OutDims(f: Fusion, out: array3<real>, n: nat) {
    n < out.Length0 && out.Length1 == f.hc && out.Length2 == f.h
  }

  method NewResidual(f: Fusion, t: Token, i: nat) returns (r: Row)
    requires TokenShape(t, f.hc, f.h) && i < f.h
    ensures |r| == f.hc && forall j | 0 <= j < f.hc :: r[j] == Post(t, f.hc, j, i)
  {
    hide Post;
    r := [];
    for j := 0 to f.hc
      invariant |r| == j && forall k | 0 <= k < j :: r[k] == Post(t, f.hc, k, i)
    {
      var v := PostCell(t, f.hc, f.h, j, i);
      r := r + [v];
    }
  }

  /** Store the new residual of one position and add its squares. */
  method StoreResidual(f: Fusion, t: Token, r: Row, n: nat, i: nat, sqr: real, out: array3<real>) returns (sqr': real)
    requires OutDims(f, out, n) && i < f.h
    requires |r| == f.hc && forall j | 0 <= j < f.hc :: r[j] == Post(t, f.hc, j, i)
    modifies out
    ensures sqr' == sqr + SquareTerm(f, t, i)
    ensures forall m, j, p | 0 <= m < out.Length0 && 0 <= j < f.hc && 0 <= p < f.h ::
              out[m, j, p] == if m == n && p == i then Post(t, f.hc, j, p) else old(out[m, j, p])
  {
    hide Post;
    sqr' := sqr;
    ghost var term := (j: int) => Post(t, f.hc, j, i) * Post(t, f.hc, j, i);
    for j := 0 to f.hc
      invariant sqr' == sqr + Sum(term, j)
      invariant forall m, j', p | 0 <= m < out.Length0 && 0 <= j' < f.hc && 0 <= p < f.h ::
        out[m, j', p] == if m == n && p == i && j' < j then Post(t, f.hc, j', p) else old(out[m, j', p])
    {
      out[n, j, i] := r[j];
      assert term(j) == r[j] * r[j];
      sqr' := sqr' + r[j] * r[j];
    }
    SumExt(term, j => Post(t, f.hc, j, i) * Post(t, f.hc, j, i), f.hc);
  }

  /** Add one position's contribution to one output. */
  method AddWeighted(f: Fusion, t: Token, w: Matrix, r: Row, i: nat, acc: real) returns (acc': real)
    requires Shape(w, f.hc, f.h) && i < f.h
    requires |r| == f.hc && forall j | 0 <= j < f.hc :: r[j] == Post(t, f.hc, j, i)
    ensures acc' == acc + GemmTerm(f, t, w, i)
  {
    hide Post;
    acc' := acc;
    ghost var term := (j: int) => Cell(w, j, i) * Post(t, f.hc, j, i);
    for j := 0 to f.hc
      invariant acc' == acc + Sum(term, j)
    {
      assert term(j) == w[j][i] * r[j];
      acc' := acc' + w[j][i] * r[j];
    }
    SumExt(term, j => Cell(w, j, i) * Post(t, f.hc, j, i), f.hc);
  }

  /** The weight rows of one tile of outputs. */
  predicate TileWeights(f: Fusion, ws: seq<Matrix>) {
    |ws| == f.tileN && forall o | 0 <= o < f.tileN :: Shape(ws[o], f.hc, f.h)
  }

  method AddTile(f: Fusion, t: Token, ws: seq<Matrix>, r: Row, i: nat, acc: Row) returns (acc': Row)
    requires TileWeights(f, ws) && i < f.h && |acc| == f.tileN
    requires |r| == f.hc && forall j | 0 <= j < f.hc :: r[j] == Post(t, f.hc, j, i)
    ensures |acc'| == f.tileN
    ensures forall o | 0 <= o < f.tileN :: acc'[o] == acc[o] + GemmTerm(f, t, ws[o], i)
  {
    hide Post, GemmTerm;
    acc' := [];
    for o := 0 to f.tileN
      invariant |acc'| == o
      invariant forall q | 0 <= q < o :: acc'[q] == acc[q] + GemmTerm(f, t, ws[q], i)
    {
      var v := AddWeighted(f, t, ws[o], r, i, acc[o]);
      acc' := acc' + [v];
    }
  }

  function ThreadGemm(f: Fusion, t: Token, w: Matrix, from: int, it: nat, tid: int): real {
    ThreadSum(k => GemmTerm(f, t, w, from + k), it, f.nThr, tid)
  }

  function ThreadSquares(f: Fusion, t: Token, from: int, it: nat, tid: int): real {
    ThreadSum(k => SquareTerm(f, t, from + k), it, f.nThr, tid)
  }

  lemma ThreadStarts(f: Fusion, t: Token, from: int, tid: int)
    ensures forall w :: ThreadGemm(f, t, w, from, 0, tid) == 0.0
    ensures ThreadSquares(f, t, from, 0, tid) == 0.0
  {
  }

  lemma ThreadSteps(f: Fusion, t: Token, from: int, it: nat, tid: int)
    ensures forall w :: ThreadGemm(f, t, w, from, it + 1, tid) ==
                        ThreadGemm(f, t, w, from, it, tid) + GemmTerm(f, t, w, from + it * f.nThr + tid)
    ensures ThreadSquares(f, t, from, it + 1, tid) ==
            ThreadSquares(f, t, from, it, tid) + SquareTerm(f, t, from + it * f.nThr + tid)
  {
    hide GemmTerm, SquareTerm;
    assert from + (it * f.nThr + tid) == from + it * f.nThr + tid;
  }

  /** Thread `tid` visits position `i` in one of its first `it` iterations. */
  ghost predicate Visits(nThr: nat, from: int, it: nat, tid: int, i: int) {
    exists k :: 0 <= k < it && VisitedAt(nThr, from, k, tid) == i
  }

  function VisitedAt(nThr: nat, from: int, k: int, tid: int): int {
    from + k * nThr + tid
  }

  lemma VisitsStep(nThr: nat, from: int, it: nat, tid: int, i: int)
    ensures Visits(nThr, from, it + 1, tid, i) <==> Visits(nThr, from, it, tid, i) || i == VisitedAt(nThr, from, it, tid)
  {
    hide VisitedAt;
    if Visits(nThr, from, it + 1, tid, i) {
      var k :| 0 <= k < it + 1 && VisitedAt(nThr, from, k, tid) == i;
      assert k < it ==> Visits(nThr, from, it, tid, i);
    }
  }

  lemma NoVisitsYet(nThr: nat, from: int, tid: int)
    ensures forall i :: !Visits(nThr, from, 0, tid, i)
  {
  }

  /** `out` is `before` with the positions that the thread has visited filled in for token `n`. */
  twostate predicate Filled(f: Fusion, t: Token, n: nat, from: int, it: nat, tid: int, out: array3<real>)
    requires OutDims(f, out, n)
    reads out
  {
    forall m, j, i | 0 <= m < out.Length0 && 0 <= j < f.hc && 0 <= i < f.h ::
      out[m, j, i] == if m == n && Visits(f.nThr, from, it, tid, i) then Post(t, f.hc, j, i) else old(out[m, j, i])
  }

  /** One thread of the fused kernel: it owns every `nThr`-th position of its split.  Only the threads of
      the first tile store the new residual and add up squares. */
  method FusedThread(
      f: Fusion, t: Token, ws: seq<Matrix>, n: nat, first: bool, from: nat, tid: nat, out: array3<real>)
      returns (acc: Row, sqr: real)
    requires f.Legal() && TokenShape(t, f.hc, f.h) && TileWeights(f, ws) && OutDims(f, out, n)
    requires tid < f.nThr && from + f.HIters() * f.nThr <= f.h
    modifies out
    ensures |acc| == f.tileN && forall o | 0 <= o < f.tileN :: acc[o] == ThreadGemm(f, t, ws[o], from, f.HIters(), tid)
    ensures first ==> sqr == ThreadSquares(f, t, from, f.HIters(), tid)
    ensures Filled(f, t, n, from, if first then f.HIters() else 0, tid, out)
  {
    ThreadStarts(f, t, from, tid);
    NoVisitsYet(f.nThr, from, tid);
    hide Post, GemmTerm, SquareTerm, ThreadGemm, ThreadSquares, Visits;
    acc, sqr := seq(f.tileN, _ => 0.0), 0.0;
    for it := 0 to f.HIters()
      invariant |acc| == f.tileN && forall o | 0 <= o < f.tileN :: acc[o] == ThreadGemm(f, t, ws[o], from, it, tid)
      invariant first ==> sqr == ThreadSquares(f, t, from, it, tid)
      invariant Filled(f, t, n, from, if first then it else 0, tid, out)
    {
      MulMono(it + 1, f.HIters(), f.nThr);
      ThreadSteps(f, t, from, it, tid);
      forall i { VisitsStep(f.nThr, from, it, tid, i); }
      var i := from + it * f.nThr + tid;
      var r := NewResidual(f, t, i);
      if first { sqr := StoreResidual(f, t, r, n, i, sqr, out); }
      acc := AddTile(f, t, ws, r, i, acc);
    }
  }

  ghost predicate VisitedByBlock(nThr: nat, from: int, it: nat, tids: nat, i: int) {
    exists tid :: 0 <= tid < tids && Visits(nThr, from, it, tid, i)
  }

  /** Together the threads visit exactly the slice. */
  lemma BlockVisitsSlice(nThr: nat, from: int, it: nat, i: int)
    ensures VisitedByBlock(nThr, from, it, nThr, i) <==> from <= i < from + it * nThr
  {
    if VisitedByBlock(nThr, from, it, nThr, i) {
      var tid :| 0 <= tid < nThr && Visits(nThr, from, it, tid, i);
      var k :| 0 <= k < it && VisitedAt(nThr, from, k, tid) == i;
      WithinSlice(k, tid, it, nThr);
    }
    if from <= i < from + it * nThr {
      var k, tid := SplitIndex(i - from, it, nThr);
      assert VisitedAt(nThr, from, k, tid) == i;
      assert Visits(nThr, from, it, tid, i);
    }
  }

  lemma SplitIndex(d: nat, it: nat, nThr: nat) returns (k: nat, tid: nat)
    requires d < it * nThr
    ensures k < it && tid < nThr && d == k * nThr + tid
  {
    k, tid := d / nThr, d % nThr;
    if it <= k { MulMono(it, k, nThr); }
  }

  /** Every position is visited at one place only: by one thread of one split in one iteration. */
  lemma VisitIsUnique(nThr: nat, hps: nat, it: nat, s: nat, k: nat, tid: nat, s': nat, k': nat, tid': nat)
    requires it * nThr <= hps && k < it && k' < it && tid < nThr && tid' < nThr
    requires VisitedAt(nThr, s * hps, k, tid) == VisitedAt(nThr, s' * hps, k', tid')
    ensures s == s' && k == k' && tid == tid'
  {
    var d, d' := k * nThr + tid, k' * nThr + tid';
    WithinSlice(k, tid, it, nThr);
    WithinSlice(k', tid', it, nThr);
    assert s * hps + d == s' * hps + d';
    QuotientIsUnique(hps, s, d, s', d');
    QuotientIsUnique(nThr, k, tid, k', tid');
  }

  lemma WithinSlice(k: nat, tid: nat, it: nat, nThr: nat)
    requires k < it && tid < nThr
    ensures k * nThr + tid < it * nThr
  {
    MulMono(k + 1, it, nThr);
  }

  method RunFusedThreads(
      f: Fusion, t: Token, ws: seq<Matrix>, n: nat, first: bool, from: nat, out: array3<real>)
      returns (accs: seq<Row>, sqrs: Row)
    requires f.Legal() && TokenShape(t, f.hc, f.h) && TileWeights(f, ws) && OutDims(f, out, n)
    requires from + f.HIters() * f.nThr <= f.h
    modifies out
    ensures |accs| == |sqrs| == f.nThr && forall tid | 0 <= tid < f.nThr :: |accs[tid]| == f.tileN
    ensures forall tid, o | 0 <= tid < f.nThr && 0 <= o < f.tileN ::
              accs[tid][o] == ThreadGemm(f, t, ws[o], from, f.HIters(), tid)
    ensures first ==> forall tid | 0 <= tid < f.nThr :: sqrs[tid] == ThreadSquares(f, t, from, f.HIters(), tid)
    ensures forall m, j, i | 0 <= m < out.Length0 && 0 <= j < f.hc && 0 <= i < f.h ::
              out[m, j, i] == if first && m == n && from <= i < from + f.HIters() * f.nThr
                              then Post(t, f.hc, j, i) else old(out[m, j, i])
  {
    hide Post, GemmTerm, SquareTerm, ThreadGemm, ThreadSquares, Visits;
    NoVisitsYet(f.nThr, from, 0);
    accs, sqrs := [], [];
    for tid := 0 to f.nThr
      invariant |accs| == |sqrs| == tid && forall d | 0 <= d < tid :: |accs[d]| == f.tileN
      invariant forall d, o | 0 <= d < tid && 0 <= o < f.tileN ::
        accs[d][o] == ThreadGemm(f, t, ws[o], from, f.HIters(), d)
      invariant first ==> forall d | 0 <= d < tid :: sqrs[d] == ThreadSquares(f, t, from, f.HIters(), d)
      invariant forall m, j, i | 0 <= m < out.Length0 && 0 <= j < f.hc && 0 <= i < f.h ::
        out[m, j, i] == if first && m == n && VisitedByBlock(f.nThr, from, f.HIters(), tid, i)
                        then Post(t, f.hc, j, i) else old(out[m, j, i])
    {
      NoVisitsYet(f.nThr, from, tid);
      var acc, sqr := FusedThread(f, t, ws, n, first, from, tid, out);
      accs, sqrs := accs + [acc], sqrs + [sqr];
    }
    forall i { BlockVisitsSlice(f.nThr, from, f.HIters(), i); }
  }

  method ReduceGemm(f: Fusion, t: Token, w: Matrix, vals: Row, s: nat) returns (v: real)
    requires f.Legal() && |vals| == f.nThr
    requires forall tid | 0 <= tid < f.nThr :: vals[tid] == ThreadGemm(f, t, w, s * f.HPerSplit(), f.HIters(), tid)
    ensures v == PartialGemm(f, t, w, s)
  {
    hide GemmTerm;
    v := ReduceAcrossWarps(vals, LANES);
    ReducedThreadSums(vals, k => GemmTerm(f, t, w, s * f.HPerSplit() + k), f.HIters(), f.nThr);
  }

  method ReduceSquares(f: Fusion, t: Token, vals: Row, s: nat) returns (v: real)
    requires f.Legal() && |vals| == f.nThr
    requires forall tid | 0 <= tid < f.nThr :: vals[tid] == ThreadSquares(f, t, s * f.HPerSplit(), f.HIters(), tid)
    ensures v == PartialSquares(f, t, s)
  {
    hide SquareTerm;
    v := ReduceAcrossWarps(vals, LANES);
    ReducedThreadSums(vals, k => SquareTerm(f, t, s * f.HPerSplit() + k), f.HIters(), f.nThr);
  }

  predicate Arguments(
      f: Fusion, tokens: seq<Token>, ws: seq<Matrix>, yp: array3<real>, rp: array2<real>, out: array3<real>)
  {
    && (forall n | 0 <= n < |tokens| :: TokenShape(tokens[n], f.hc, f.h)) && Weights(f, ws) && yp != out
    && yp.Length0 == f.splitK && yp.Length1 == |tokens| && yp.Length2 == f.nOut
    && rp.Length0 == f.splitK && rp.Length1 == |tokens|
    && out.Length0 == |tokens| && out.Length1 == f.hc && out.Length2 == f.h
  }

  predicate InFusedGrid(f: Fusion, tokens: nat, b: Block)
    requires f.Legal()
  {
    b.token < tokens && b.tile < f.NTiles() && b.split < f.splitK
  }

  /** Positions of split `s` that its threads visit. */
  predicate InSplit(f: Fusion, s: int, i: int)
    requires f.Legal()
  {
    s * f.HPerSplit() <= i < s * f.HPerSplit() + f.HIters() * f.nThr
  }

  lemma SplitInRange(f: Fusion, s: nat)
    requires f.Legal() && s < f.splitK
    ensures s * f.HPerSplit() + f.HIters() * f.nThr <= f.h
  {
    var hps := f.HPerSplit();
    assert f.HIters() * f.nThr <= hps;
    MulMono(s + 1, f.splitK, hps);
    assert f.splitK * hps <= f.h;
  }

  lemma TileInRange(f: Fusion, tile: nat)
    requires f.Legal() && tile < f.NTiles()
    ensures tile * f.tileN + f.tileN <= f.nOut
  {
    MulMono(tile + 1, f.NTiles(), f.tileN);
  }

  /** One block: its tile of partial GEMM outputs, as far as one warp has lanes for it, and, in the first tile,
      its partial square sum and the new residual of its split; nothing else. */
  method FusedBlock(
      f: Fusion, tokens: seq<Token>, ws: seq<Matrix>, b: Block, yp: array3<real>, rp: array2<real>, out: array3<real>)
    requires f.Legal() && Arguments(f, tokens, ws, yp, rp, out) && InFusedGrid(f, |tokens|, b)
    modifies yp, rp, out
    ensures forall s, n, o | 0 <= s < f.splitK && 0 <= n < |tokens| && 0 <= o < f.nOut ::
              yp[s, n, o] == if s == b.split && n == b.token && InTile(b.tile, f.tileN, Width(f.tileN), o)
                             then PartialGemm(f, tokens[n], ws[o], s) else old(yp[s, n, o])
    ensures forall s, n | 0 <= s < f.splitK && 0 <= n < |tokens| ::
              rp[s, n] == if s == b.split && n == b.token && b.tile == 0
                          then PartialSquares(f, tokens[n], s) else old(rp[s, n])
    ensures forall n, j, i | 0 <= n < |tokens| && 0 <= j < f.hc && 0 <= i < f.h ::
              out[n, j, i] == if b.tile == 0 && n == b.token && InSplit(f, b.split, i)
                              then Post(tokens[n], f.hc, j, i) else old(out[n, j, i])
  {
    hide Post, ThreadGemm, ThreadSquares, PartialGemm, PartialSquares, InTile;
    forall o: int { InTileSteps(b.tile, f.tileN, 0, o); }
    SplitInRange(f, b.split);
    TileInRange(f, b.tile);
    var base, t := b.tile * f.tileN, tokens[b.token];
    var tile := ws[base..base + f.tileN];
    var accs, sqrs := RunFusedThreads(f, t, tile, b.token, b.tile == 0, b.split * f.HPerSplit(), out);
    for lane := 0 to LANES
      invariant forall s, n, o | 0 <= s < f.splitK && 0 <= n < |tokens| && 0 <= o < f.nOut ::
        yp[s, n, o] == if s == b.split && n == b.token && InTile(b.tile, f.tileN, if lane < f.tileN then lane else f.tileN, o)
                       then PartialGemm(f, tokens[n], ws[o], s) else old(yp[s, n, o])
      invariant forall s, n | 0 <= s < f.splitK && 0 <= n < |tokens| :: rp[s, n] == old(rp[s, n])
      invariant forall n, j, i | 0 <= n < |tokens| && 0 <= j < f.hc && 0 <= i < f.h ::
        out[n, j, i] == if b.tile == 0 && n == b.token && InSplit(f, b.split, i)
                        then Post(tokens[n], f.hc, j, i) else old(out[n, j, i])
    {
      forall o: int { InTileSteps(b.tile, f.tileN, lane, o); }
      if lane < f.tileN {
        var vals := seq(f.nThr, tid requires 0 <= tid < f.nThr => accs[tid][lane]);
        var v := ReduceGemm(f, t, tile[lane], vals, b.split);
        yp[b.split, b.token, base + lane] := v;
      }
    }
    if b.tile == 0 {
      var v := ReduceSquares(f, t, sqrs, b.split);
      rp[b.split, b.token] := v;
    }
  }

  ghost predicate CoversFusedGrid(f: Fusion, tokens: nat, order: seq<Block>)
    requires f.Legal()
  {
    (forall b | b in order :: InFusedGrid(f, tokens, b)) && (forall b | InFusedGrid(f, tokens, b) :: b in order)
  }

  /** Threads, iterations and splits cover the hidden size. */
  predicate CoversHidden(f: Fusion)
    requires f.Legal()
  {
    f.HIters() * f.nThr == f.HPerSplit() && f.splitK * f.HPerSplit() == f.h
  }

  lemma SplitOfPosition(f: Fusion, i: nat) returns (s: nat)
    requires f.Legal() && CoversHidden(f) && i < f.h
    ensures s < f.splitK && InSplit(f, s, i)
  {
    var k;
    s, k := SplitIndex(i, f.splitK, f.HPerSplit());
  }

  /** Some split's threads visit the position. */
  ghost predicate IsVisited(f: Fusion, i: int)
    requires f.Legal()
  {
    exists s | 0 <= s < f.splitK :: InSplit(f, s, i)
  }

  /** The condition is exact: without it the last position of the first split, or of all, belongs to no
      thread, and the new residual is never stored there. */
  lemma EveryPositionIsVisitedIff(f: Fusion)
    requires f.Legal()
    ensures CoversHidden(f) <==> forall i | 0 <= i < f.h :: IsVisited(f, i)
  {
    var hps, visited := f.HPerSplit(), f.HIters() * f.nThr;
    SplitInRange(f, 0);
    SliceSizes(f);
    if CoversHidden(f) {
      forall i | 0 <= i < f.h
        ensures IsVisited(f, i)
      {
        var s := SplitOfPosition(f, i);
      }
    } else if visited < hps {
      MissedByAll(f, hps - 1, hps, visited);
      MulMono(1, f.splitK, hps);
      assert !IsVisited(f, hps - 1);
    } else {
      MissedByAll(f, f.h - 1, hps, visited);
      assert !IsVisited(f, f.h - 1);
    }
  }

  lemma SliceSizes(f: Fusion)
    requires f.Legal()
    ensures f.HIters() * f.nThr <= f.HPerSplit() && f.splitK * f.HPerSplit() <= f.h
  {
  }

  lemma MissedByAll(f: Fusion, i: int, hps: nat, visited: nat)
    requires f.Legal() && hps == f.HPerSplit() && visited == f.HIters() * f.nThr <= hps
    requires f.splitK * hps <= i || visited <= i == hps - 1
    ensures !IsVisited(f, i)
  {
    forall s | 0 <= s < f.splitK
      ensures !InSplit(f, s, i)
    {
      OutsideSlice(s, f.splitK, hps, visited, i);
    }
  }

  lemma OutsideSlice(s: nat, splits: nat, hps: nat, visited: nat, i: int)
    requires s < splits && visited <= hps && (splits * hps <= i || visited <= i == hps - 1)
    ensures !(s * hps <= i < s * hps + visited)
  {
    MulMono(s + 1, splits, hps);
    if s > 0 { MulMono(1, s, hps); }
  }

  /** Output `o` lies in a tile of the grid, and one of the lanes of its block writes it. */
  predicate FusedWritten(f: Fusion, o: nat)
    requires f.Legal()
  {
    HasTile(f.nOut, f.tileN, o) && Written(f.tileN, o)
  }

  /** The tile of `o` is one of the `n / d` whole tiles. */
  predicate HasTile(n: nat, d: nat, o: nat)
    requires d > 0
  {
    o / d < n / d
  }

  lemma FusedWrittenInTile(f: Fusion, tile: nat, o: nat)
    requires f.Legal() && tile < f.NTiles()
    ensures InTile(tile, f.tileN, Width(f.tileN), o) <==> tile == o / f.tileN && FusedWritten(f, o)
  {
    hide InTile, Written, Width;
    WrittenInTile(tile, f.tileN, o);
    InOwnTile(f.tileN, o);
    if InTile(tile, f.tileN, f.tileN, o) { TileIsUnique(tile, o / f.tileN, f.tileN, o); }
  }

  /** Every output is written exactly when a tile fits the lanes of one warp and the tiles leave no rest: the
      number of tiles is rounded down. */
  lemma EveryFusedOutputIsWrittenIff(f: Fusion)
    requires f.Legal() && f.nOut > 0
    ensures (forall o | 0 <= o < f.nOut :: FusedWritten(f, o)) <==> f.tileN <= LANES && f.nOut % f.tileN == 0
  {
    hide HasTile, Written;
    EveryOutputHasTileIff(f.nOut, f.tileN);
    EveryOutputIsWrittenIff(f.tileN, f.nOut);
    if f.nOut % f.tileN == 0 { TilesNeedRoom(f.nOut, f.tileN); }
    if forall o | 0 <= o < f.nOut :: FusedWritten(f, o) {
      assert forall o | 0 <= o < f.nOut :: HasTile(f.nOut, f.tileN, o) by {
        forall o | 0 <= o < f.nOut ensures HasTile(f.nOut, f.tileN, o) { assert FusedWritten(f, o); }
      }
      assert forall o | 0 <= o < f.nOut :: Written(f.tileN, o) by {
        forall o | 0 <= o < f.nOut ensures Written(f.tileN, o) { assert FusedWritten(f, o); }
      }
    }
  }

  lemma EveryOutputHasTileIff(n: nat, d: nat)
    requires d > 0
    ensures (forall o | 0 <= o < n :: HasTile(n, d, o)) <==> n % d == 0
  {
    if n % d != 0 {
      LastTileIsMissing(n, d);
      assert !HasTile(n, d, n - 1);
    } else {
      assert n == n / d * d;
      forall o | 0 <= o < n
        ensures HasTile(n, d, o)
      {
        QuotientBelow(o, n / d, d);
      }
    }
  }

  lemma LastTileIsMissing(n: nat, d: nat)
    requires d > 0 && n % d != 0
    ensures n > 0 && (n - 1) / d == n / d
  {
    var q, m := n / d, n % d;
    assert n - 1 == q * d + (m - 1);
    QuotientIsUnique(d, q, m - 1, (n - 1) / d, (n - 1) % d);
  }

  lemma QuotientBelow(o: nat, tiles: nat, d: nat)
    requires d > 0 && o < tiles * d
    ensures o / d < tiles
  {
    ProductOrder(tiles, o / d, d);
    assert o / d * d <= o;
  }

  lemma TilesNeedRoom(n: nat, d: nat)
    requires d > 0 && n > 0 && n % d == 0
    ensures n >= d
  {
  }

  /** Five outputs to a tile leave the last four of 24 unwritten; a tile of 64 leaves the upper half of each tile. */
  lemma FusedTilingsLoseOutputs(o: nat)
    ensures 20 <= o < 24 ==> !FusedWritten(Fusion(4, 256, 24, 256, 5, 1), o)
    ensures 32 <= o < 64 ==> !FusedWritten(Fusion(4, 256, 64, 256, 64, 1), o)
  {
  }

  /** All blocks, in any order: partial GEMM outputs of every split where they are written, and, if there is a
      tile at all, square sums of every split and the new residual at every visited position, which equals
      what the separate post-mapping kernel writes there.  Everything else keeps its value. */
  method MhcFused(
      f: Fusion, tokens: seq<Token>, ws: seq<Matrix>, order: seq<Block>, yp: array3<real>, rp: array2<real>, out: array3<real>)
    requires f.Legal() && Arguments(f, tokens, ws, yp, rp, out)
    requires CoversFusedGrid(f, |tokens|, order)
    modifies yp, rp, out
    ensures forall s, n, o | 0 <= s < f.splitK && 0 <= n < |tokens| && 0 <= o < f.nOut ::
              yp[s, n, o] == if FusedWritten(f, o) then PartialGemm(f, tokens[n], ws[o], s) else old(yp[s, n, o])
    ensures forall s, n | 0 <= s < f.splitK && 0 <= n < |tokens| ::
              rp[s, n] == if f.NTiles() > 0 then PartialSquares(f, tokens[n], s) else old(rp[s, n])
    ensures forall n, j, i | 0 <= n < |tokens| && 0 <= j < f.hc && 0 <= i < f.h ::
              out[n, j, i] == if f.NTiles() > 0 && IsVisited(f, i) then Post(tokens[n], f.hc, j, i) else old(out[n, j, i])
    ensures f.NTiles() > 0 ==> ObeysLaws(tokens, f.hc, f.h, i => IsVisited(f, i), out)
  {
    hide ObeysLaws, Post, PartialGemm, PartialSquares, InTile, InSplit, FusedWritten, Width;
    assert forall q | 0 <= q < |order| :: InFusedGrid(f, |tokens|, order[q]);
    forall tile: nat, o: nat | tile < f.NTiles() { FusedWrittenInTile(f, tile, o); }
    for k := 0 to |order|
      invariant forall q, o | 0 <= q < k && 0 <= o < f.nOut && InTile(order[q].tile, f.tileN, Width(f.tileN), o) ::
        yp[order[q].split, order[q].token, o] == PartialGemm(f, tokens[order[q].token], ws[o], order[q].split)
      invariant forall s, n, o | 0 <= s < f.splitK && 0 <= n < |tokens| && 0 <= o < f.nOut && !FusedWritten(f, o) ::
        yp[s, n, o] == old(yp[s, n, o])
      invariant forall q | 0 <= q < k && order[q].tile == 0 ::
        rp[order[q].split, order[q].token] == PartialSquares(f, tokens[order[q].token], order[q].split)
      invariant f.NTiles() == 0 ==> k == 0
      invariant k == 0 ==> forall s, n | 0 <= s < f.splitK && 0 <= n < |tokens| :: rp[s, n] == old(rp[s, n])
      invariant forall q, j, i | 0 <= q < k && order[q].tile == 0 && 0 <= j < f.hc && 0 <= i < f.h && InSplit(f, order[q].split, i) ::
        out[order[q].token, j, i] == Post(tokens[order[q].token], f.hc, j, i)
      invariant forall n, j, i | 0 <= n < |tokens| && 0 <= j < f.hc && 0 <= i < f.h && !(k > 0 && IsVisited(f, i)) ::
        out[n, j, i] == old(out[n, j, i])
    {
      FusedBlock(f, tokens, ws, order[k], yp, rp, out);
    }
    forall s, n, o | 0 <= s < f.splitK && 0 <= n < |tokens| && 0 <= o < f.nOut && FusedWritten(f, o)
      ensures yp[s, n, o] == PartialGemm(f, tokens[n], ws[o], s)
    {
      var tile := FusedTileOf(f, o);
      var q := BlockInOrder(f, |tokens|, order, Block(n, tile, s));
    }
    forall s, n | 0 <= s < f.splitK && 0 <= n < |tokens| && f.NTiles() > 0
      ensures rp[s, n] == PartialSquares(f, tokens[n], s)
    {
      var q := BlockInOrder(f, |tokens|, order, Block(n, 0, s));
    }
    forall n, j, i | 0 <= n < |tokens| && 0 <= j < f.hc && 0 <= i < f.h && f.NTiles() > 0 && IsVisited(f, i)
      ensures out[n, j, i] == Post(tokens[n], f.hc, j, i)
    {
      var s :| 0 <= s < f.splitK && InSplit(f, s, i);
      var q := BlockInOrder(f, |tokens|, order, Block(n, 0, s));
    }
    if f.NTiles() > 0 { PostObeysLaws(tokens, f.hc, f.h, i => IsVisited(f, i), out); }
  }

  lemma FusedTileOf(f: Fusion, o: nat) returns (tile: nat)
    requires f.Legal() && FusedWritten(f, o)
    ensures tile < f.NTiles() && InTile(tile, f.tileN, Width(f.tileN), o)
  {
    tile := o / f.tileN;
    FusedWrittenInTile(f, tile, o);
  }

  lemma BlockInOrder(f: Fusion, tokens: nat, order: seq<Block>, b: Block) returns (q: nat)
    requires f.Legal() && CoversFusedGrid(f, tokens, order) && InFusedGrid(f, tokens, b)
    ensures q < |order| && order[q] == b
  {
    q :| 0 <= q < |order| && order[q] == b;
  }

  // ---------------------------------------------------------------------------------------------
  // The fused kernel is the post-mapping followed by the GEMM

  /** The residual of one token as the post-mapping kernel leaves it. */
  function PostMatrix(t: Token, hc: nat, h: nat): Matrix {
    seq(hc, j => seq(h, i => Post(t, hc, j, i)))
  }

  /** The first `n` channels of a matrix laid end to end. */
  function Flatten(m: Matrix, n: nat): Row
    requires n <= |m|
  {
    if n == 0 then [] else Flatten(m, n - 1) + m[n - 1]
  }

  lemma {:induction false} FlattenAt(m: Matrix, n: nat, h: nat, j: nat, i: nat)
    requires n <= |m| && (forall c | 0 <= c < |m| :: |m[c]| == h) && i < h && j < n
    ensures At(Flatten(m, n), j * h + i) == Cell(m, j, i)
  {
    FlattenLength(m, n - 1, h);
    var front, last, at := Flatten(m, n - 1), m[n - 1], j * h + i;
    if j < n - 1 {
      FlattenAt(m, n - 1, h, j, i);
      WithinSlice(j, i, n - 1, h);
      assert (front + last)[at] == front[at];
    } else {
      assert (front + last)[at] == last[i];
    }
  }

  lemma {:induction false} FlattenLength(m: Matrix, n: nat, h: nat)
    requires n <= |m| && forall c | 0 <= c < |m| :: |m[c]| == h
    ensures |Flatten(m, n)| == n * h
  {
    if n > 0 {
      FlattenLength(m, n - 1, h);
      assert n * h == (n - 1) * h + h;
    }
  }

  lemma DotAsSum(x: Row, y: Row, n: nat)
    ensures Dot(x, y, n) == Sum(k => At(x, k) * At(y, k), n)
  {
    SumExt(k => At(x, 0 + k) * At(y, 0 + k), k => At(x, k) * At(y, k), n);
  }

  /** A dot product of flattened matrices is the sum over positions of the sums over channels. */
  lemma DotOfFlattened(a: Matrix, b: Matrix, hc: nat, h: nat)
    requires Shape(a, hc, h) && Shape(b, hc, h)
    ensures Dot(Flatten(a, hc), Flatten(b, hc), hc * h) == Sum(i => Sum(j => Cell(a, j, i) * Cell(b, j, i), hc), h)
  {
    hide Flatten, At, Cell, Dot;
    var x, y := Flatten(a, hc), Flatten(b, hc);
    DotAsSum(x, y, hc * h);
    var term := (k: int) => At(x, k) * At(y, k);
    var cell := (j: int, i: int) => Cell(a, j, i) * Cell(b, j, i);
    forall j, i | 0 <= j < hc && 0 <= i < h
      ensures cell(j, i) == term(j * h + i)
    {
      FlattenAt(a, hc, h, j, i);
      FlattenAt(b, hc, h, j, i);
    }
    SumExt(k => At(x, k) * At(y, k), term, hc * h);
    SumGrid(term, cell, hc, h);
    ColumnsAgree(a, b, cell, hc, h);
  }

  lemma ColumnsAgree(a: Matrix, b: Matrix, cell: (int, int) -> real, hc: nat, h: nat)
    requires forall j, i :: cell(j, i) == Cell(a, j, i) * Cell(b, j, i)
    ensures Sum(i => Sum(j => cell(j, i), hc), h) == Sum(i => Sum(j => Cell(a, j, i) * Cell(b, j, i), hc), h)
  {
    hide Cell;
    var byColumn := (i: int) => Sum(j => Cell(a, j, i) * Cell(b, j, i), hc);
    forall i
      ensures Sum(j => cell(j, i), hc) == byColumn(i)
    {
      SumExt(j => cell(j, i), j => Cell(a, j, i) * Cell(b, j, i), hc);
    }
    SumExt(i => Sum(j => cell(j, i), hc), byColumn, h);
  }

  lemma PostMatrixAt(t: Token, hc: nat, h: nat, j: int, i: int)
    requires 0 <= j < hc && 0 <= i < h
    ensures Shape(PostMatrix(t, hc, h), hc, h) && Cell(PostMatrix(t, hc, h), j, i) == Post(t, hc, j, i)
  {
    hide Post;
  }

  /** Splits of a sum whose pieces cover it. */
  lemma PiecesAddUp(f: Fusion, term: int -> real, piece: int -> real)
    requires f.Legal() && CoversHidden(f)
    requires forall s :: piece(s) == Sum(k => term(s * f.HPerSplit() + k), f.HIters() * f.nThr)
    ensures Sum(piece, f.splitK) == Sum(term, f.h)
  {
    SumTiles(term, f.splitK, f.HPerSplit());
    SumExt(piece, s => Sum(k => term(s * f.HPerSplit() + k), f.HPerSplit()), f.splitK);
  }

  lemma GemmTermsAddUp(f: Fusion, t: Token, w: Matrix)
    requires f.Legal() && CoversHidden(f)
    ensures Sum(s => PartialGemm(f, t, w, s), f.splitK) == Sum(i => GemmTerm(f, t, w, i), f.h)
  {
    hide GemmTerm;
    var term, piece := (i: int) => GemmTerm(f, t, w, i), (s: int) => PartialGemm(f, t, w, s);
    forall s
      ensures piece(s) == Sum(k => term(s * f.HPerSplit() + k), f.HIters() * f.nThr)
    {
      SumExt(k => GemmTerm(f, t, w, s * f.HPerSplit() + k), k => term(s * f.HPerSplit() + k), f.HIters() * f.nThr);
    }
    PiecesAddUp(f, term, piece);
    SumExt(s => PartialGemm(f, t, w, s), piece, f.splitK);
  }

  lemma SquareTermsAddUp(f: Fusion, t: Token)
    requires f.Legal() && CoversHidden(f)
    ensures Sum(s => PartialSquares(f, t, s), f.splitK) == Sum(i => SquareTerm(f, t, i), f.h)
  {
    hide SquareTerm;
    var term, piece := (i: int) => SquareTerm(f, t, i), (s: int) => PartialSquares(f, t, s);
    forall s
      ensures piece(s) == Sum(k => term(s * f.HPerSplit() + k), f.HIters() * f.nThr)
    {
      SumExt(k => SquareTerm(f, t, s * f.HPerSplit() + k), k => term(s * f.HPerSplit() + k), f.HIters() * f.nThr);
    }
    PiecesAddUp(f, term, piece);
    SumExt(s => PartialSquares(f, t, s), piece, f.splitK);
  }

  /** The fused kernel's GEMM output, summed over its splits, is the dot product of the weights with the
      flattened residual that the separate post-mapping kernel writes. */
  lemma FusedGemmIsGemmOfPost(f: Fusion, t: Token, w: Matrix)
    requires f.Legal() && CoversHidden(f) && Shape(w, f.hc, f.h)
    ensures Sum(s => PartialGemm(f, t, w, s), f.splitK) ==
            Dot(Flatten(PostMatrix(t, f.hc, f.h), f.hc), Flatten(w, f.hc), f.hc * f.h)
  {
    hide Post, Flatten, Dot, PartialGemm;
    var r := PostMatrix(t, f.hc, f.h);
    GemmTermsAddUp(f, t, w);
    DotOfFlattened(r, w, f.hc, f.h);
    forall i | 0 <= i < f.h
      ensures GemmTerm(f, t, w, i) == Sum(j => Cell(r, j, i) * Cell(w, j, i), f.hc)
    {
      forall j | 0 <= j < f.hc
        ensures Cell(r, j, i) == Post(t, f.hc, j, i)
      {
        PostMatrixAt(t, f.hc, f.h, j, i);
      }
      SumExt(j => Cell(w, j, i) * Post(t, f.hc, j, i), j => Cell(r, j, i) * Cell(w, j, i), f.hc);
    }
    SumExt(i => GemmTerm(f, t, w, i), i => Sum(j => Cell(r, j, i) * Cell(w, j, i), f.hc), f.h);
  }

  lemma FusedSquaresAreSquaresOfPost(f: Fusion, t: Token)
    requires f.Legal() && CoversHidden(f)
    ensures var flat := Flatten(PostMatrix(t, f.hc, f.h), f.hc);
            Sum(s => PartialSquares(f, t, s), f.splitK) == Dot(flat, flat, f.hc * f.h)
  {
    hide Post, Flatten, Dot, PartialSquares;
    var r := PostMatrix(t, f.hc, f.h);
    SquareTermsAddUp(f, t);
    DotOfFlattened(r, r, f.hc, f.h);
    forall i | 0 <= i < f.h
      ensures SquareTerm(f, t, i) == Sum(j => Cell(r, j, i) * Cell(r, j, i), f.hc)
    {
      forall j | 0 <= j < f.hc
        ensures Cell(r, j, i) == Post(t, f.hc, j, i)
      {
        PostMatrixAt(t, f.hc, f.h, j, i);
      }
      SumExt(j => Post(t, f.hc, j, i) * Post(t, f.hc, j, i), j => Cell(r, j, i) * Cell(r, j, i), f.hc);
    }
    SumExt(i => SquareTerm(f, t, i), i => Sum(j => Cell(r, j, i) * Cell(r, j, i), f.hc), f.h);
  }

  /** Fused kernel == post-mapping kernel, then split-k GEMM kernel, whatever tiling each of them uses. */
  lemma FusedIsPostThenGemm(f: Fusion, c: Config, t: Token, w: Matrix)
    requires f.Legal() && CoversHidden(f) && Shape(w, f.hc, f.h)
    requires c.Legal() && Covers(c) && c.k == f.hc * f.h
    ensures var flat := Flatten(PostMatrix(t, f.hc, f.h), f.hc);
            && Sum(s => PartialGemm(f, t, w, s), f.splitK) == Sum(s => PartialDot(c, flat, Flatten(w, f.hc), s), c.nSplits)
            && Sum(s => PartialSquares(f, t, s), f.splitK) == Sum(s => PartialDot(c, flat, flat, s), c.nSplits)
  {
    hide Post, Flatten, Dot, PartialSquares, PartialGemm, PartialDot;
    var flat := Flatten(PostMatrix(t, f.hc, f.h), f.hc);
    FusedGemmIsGemmOfPost(f, t, w);
    FusedSquaresAreSquaresOfPost(f, t);
    SplitsAddUp(c, flat, Flatten(w, f.hc));
    SplitsAddUp(c, flat, flat);
  }
}
