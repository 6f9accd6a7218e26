/**
 The variant of the pre-norm GEMM in which one block handles several tokens and there is no split
 along the reduction.  It computes the same dot products and square sums.
 */
module PrenormGemmBlockM {
  import opened Arithmetic
  import opened Sums
  import opened PrenormGemm

  datatype Tiling = Tiling(tokens: nat, k: nat, nOut: nat, nThr: nat, tileN: nat, blockM: nat) {
    predicate Legal() {
      nThr > 0 && nThr % LANES == 0 && tileN > 0 && blockM > 0
    }
    function KIters(): nat requires nThr > 0 { k / nThr }
    function NTiles(): nat requires tileN > 0 { (nOut + tileN - 1) / tileN }
    function MTiles(): nat requires blockM > 0 { (tokens + blockM - 1) / blockM }
  }

  datatype TileBlock = TileBlock(mTile: nat, tile: nat)

  predicate InTiles(c: Tiling, b: TileBlock)
    requires c.Legal()
  {
    b.mTile < c.MTiles() && b.tile < c.NTiles()
  }

  predicate InputDims(c: Tiling, x: Matrix, fn: Matrix) {
    Shape(x, c.tokens, c.k) && Shape(fn, c.nOut, c.k)
  }

  /** A thread's partial sum for one token and one output; rows outside the tensors contribute nothing. */
  function ThreadCell(c: Tiling, x: Matrix, fn: Matrix, token: nat, o: nat, it: nat, tid: nat): real {
    if token < |x| && o < |fn| then ThreadDot(x[token], fn[o], 0, it, c.nThr, tid) else 0.0
  }

  /** `acc[m][o] += value(m) * fnVal[o]` for one token. */
  method AddProducts(acc: Row, value: real, fnVal: Row) returns (r: Row)
    requires |acc| == |fnVal|
    ensures |r| == |acc| && forall o | 0 <= o < |acc| :: r[o] == acc[o] + value * fnVal[o]
  {
    r := acc;
    for o := 0 to |acc|
      invariant |r| == |acc|
      invariant forall j | 0 <= j < |acc| :: r[j] == if j < o then acc[j] + value * fnVal[j] else acc[j]
    {
      r := r[o := r[o] + value * fnVal[o]];
    }
  }

  /** The weights at position `k` for the outputs from `base` on, zero beyond the last output. */
  predicate AreWeights(fn: Matrix, base: nat, k: nat, fnVal: Row) {
    forall o | 0 <= o < |fnVal| :: fnVal[o] == if base + o < |fn| then At(fn[base + o], k) else 0.0
  }

  method LoadWeights(c: Tiling, fn: Matrix, base: nat, k: nat) returns (fnVal: Row)
    requires k < c.k && Shape(fn, c.nOut, c.k)
    ensures |fnVal| == c.tileN && AreWeights(fn, base, k, fnVal)
  {
    fnVal := [];
    for o := 0 to c.tileN
      invariant |fnVal| == o && AreWeights(fn, base, k, fnVal)
    {
      var outIdx := base + o;
      fnVal := fnVal + [if outIdx < c.nOut then fn[outIdx][k] else 0.0];
    }
  }

  /** One step of one thread for one token of the block: element `k` times the tile's weights. */
  method TokenStep(
      c: Tiling, x: Matrix, fn: Matrix, token: nat, first: bool, k: nat, fnVal: Row, acc: Row, sqr: real)
      returns (acc': Row, sqr': real)
    requires k < c.k && InputDims(c, x, fn) && |acc| == |fnVal| == c.tileN
    ensures |acc'| == c.tileN
    ensures forall o | 0 <= o < c.tileN ::
              acc'[o] == if token < c.tokens then acc[o] + At(x[token], k) * fnVal[o] else acc[o]
    ensures sqr' == if token < c.tokens && first then sqr + At(x[token], k) * At(x[token], k) else sqr
  {
    acc', sqr' := acc, sqr;
    if token < c.tokens {
      var value := x[token][k];
      acc' := AddProducts(acc, value, fnVal);
      if first {
        sqr' := sqr + value * value;
      }
    }
  }

  /** One accumulator after one more iteration, in which the thread sees element `k`. */
  lemma CellGrows(
      c: Tiling, x: Matrix, fn: Matrix, token: nat, o: nat, it: nat, tid: nat, k: nat, weight: real, acc: real, acc': real)
    requires k == it * c.nThr + tid && acc == ThreadCell(c, x, fn, token, o, it, tid)
    requires weight == if o < |fn| then At(fn[o], k) else 0.0
    requires acc' == if token < |x| then acc + At(x[token], k) * weight else acc
    ensures acc' == ThreadCell(c, x, fn, token, o, it + 1, tid)
  {
    hide ThreadDot, At;
    if token < |x| && o < |fn| { ThreadDotStep(x[token], fn[o], 0, it, c.nThr, tid); }
  }

  /** A thread's accumulators for one token and the outputs from `base` on after `it` steps. */
  predicate AccumulatedAt(
      c: Tiling, x: Matrix, fn: Matrix, token: nat, base: nat, first: bool, tid: nat, acc: Row, sqr: real, it: nat)
  {
    && |acc| == c.tileN
    && (forall o | 0 <= o < c.tileN :: acc[o] == ThreadCell(c, x, fn, token, base + o, it, tid))
    && (first ==> sqr == ThreadCell(c, x, x, token, token, it, tid))
  }

  /** The same for the `m`-th token of a block. */
  predicate AccumulatedFor(c: Tiling, x: Matrix, fn: Matrix, b: TileBlock, tid: nat, acc: Row, sqr: real, m: nat, it: nat) {
    AccumulatedAt(c, x, fn, b.mTile * c.blockM + m, b.tile * c.tileN, b.tile == 0, tid, acc, sqr, it)
  }

  lemma AccumulatedAtStep(
      c: Tiling, x: Matrix, fn: Matrix, token: nat, base: nat, first: bool, tid: nat, k: nat, fnVal: Row, it: nat,
      acc: Row, sqr: real, acc': Row, sqr': real)
    requires k == it * c.nThr + tid && AccumulatedAt(c, x, fn, token, base, first, tid, acc, sqr, it)
    requires |acc'| == |fnVal| == c.tileN && AreWeights(fn, base, k, fnVal)
    requires forall o | 0 <= o < c.tileN :: acc'[o] == if token < |x| then acc[o] + At(x[token], k) * fnVal[o] else acc[o]
    requires sqr' == if token < |x| && first then sqr + At(x[token], k) * At(x[token], k) else sqr
    ensures AccumulatedAt(c, x, fn, token, base, first, tid, acc', sqr', it + 1)
  {
    hide ThreadCell, At;
    forall o | 0 <= o < c.tileN
      ensures acc'[o] == ThreadCell(c, x, fn, token, base + o, it + 1, tid)
    {
      CellGrows(c, x, fn, token, base + o, it, tid, k, fnVal[o], acc[o], acc'[o]);
    }
    if first { CellGrows(c, x, x, token, token, it, tid, k, if token < |x| then At(x[token], k) else 0.0, sqr, sqr'); }
  }

  lemma NothingAccumulated(c: Tiling, x: Matrix, fn: Matrix, b: TileBlock, tid: nat, zeros: Row, m: nat)
    requires |zeros| == c.tileN && forall o | 0 <= o < c.tileN :: zeros[o] == 0.0
    ensures AccumulatedFor(c, x, fn, b, tid, zeros, 0.0, m, 0)
  {
  }

  method ThreadLoopM(c: Tiling, x: Matrix, fn: Matrix, b: TileBlock, tid: nat) returns (acc: seq<Row>, sqr: Row)
    requires c.Legal() && tid < c.nThr && InputDims(c, x, fn)
    ensures |acc| == |sqr| == c.blockM
    ensures forall m | 0 <= m < c.blockM :: AccumulatedFor(c, x, fn, b, tid, acc[m], sqr[m], m, c.KIters())
  {
    hide AccumulatedFor;
    var zeros := seq(c.tileN, _ => 0.0);
    acc, sqr := seq(c.blockM, _ => zeros), seq(c.blockM, _ => 0.0);
    forall m | 0 <= m < c.blockM
      ensures AccumulatedFor(c, x, fn, b, tid, acc[m], sqr[m], m, 0)
    {
      NothingAccumulated(c, x, fn, b, tid, zeros, m);
    }
    for it := 0 to c.KIters()
      invariant |acc| == |sqr| == c.blockM
      invariant forall m | 0 <= m < c.blockM :: AccumulatedFor(c, x, fn, b, tid, acc[m], sqr[m], m, it)
    {
      ElementInRange(c, it, tid);
      var k := it * c.nThr + tid;
      var fnVal := LoadWeights(c, fn, b.tile * c.tileN, k);
      for m := 0 to c.blockM
        invariant |acc| == |sqr| == c.blockM
        invariant forall j | 0 <= j < c.blockM ::
          AccumulatedFor(c, x, fn, b, tid, acc[j], sqr[j], j, if j < m then it + 1 else it)
      {
        var a, q := AccumulateToken(c, x, fn, b, tid, acc[m], sqr[m], m, it, k, fnVal);
        acc, sqr := acc[m := a], sqr[m := q];
      }
    }
  }

  lemma ElementInRange(c: Tiling, it: nat, tid: nat)
    requires c.nThr > 0 && it < c.KIters() && tid < c.nThr
    ensures it * c.nThr + tid < c.k
  {
    MulMono(it + 1, c.KIters(), c.nThr);
    assert c.KIters() * c.nThr <= c.k;
  }

  method AccumulateToken(
      c: Tiling, x: Matrix, fn: Matrix, b: TileBlock, tid: nat, acc: Row, sqr: real, m: nat, it: nat, k: nat, fnVal: Row)
      returns (acc': Row, sqr': real)
    requires k == it * c.nThr + tid && k < c.k && InputDims(c, x, fn) && |fnVal| == c.tileN
    requires AreWeights(fn, b.tile * c.tileN, k, fnVal)
    requires AccumulatedFor(c, x, fn, b, tid, acc, sqr, m, it)
    ensures AccumulatedFor(c, x, fn, b, tid, acc', sqr', m, it + 1)
  {
    var token, base := b.mTile * c.blockM + m, b.tile * c.tileN;
    acc', sqr' := TokenStep(c, x, fn, token, b.tile == 0, k, fnVal, acc, sqr);
    hide AccumulatedAt, AreWeights;
    AccumulatedAtStep(c, x, fn, token, base, b.tile == 0, tid, k, fnVal, it, acc, sqr, acc', sqr');
  }

  method RunThreadsM(c: Tiling, x: Matrix, fn: Matrix, b: TileBlock) returns (accs: seq<seq<Row>>, sqrs: seq<Row>)
    requires c.Legal() && InputDims(c, x, fn)
    ensures |accs| == |sqrs| == c.nThr
    ensures forall t | 0 <= t < c.nThr :: |accs[t]| == |sqrs[t]| == c.blockM
    ensures forall t, m | 0 <= t < c.nThr && 0 <= m < c.blockM ::
              AccumulatedFor(c, x, fn, b, t, accs[t][m], sqrs[t][m], m, c.KIters())
  {
    hide AccumulatedFor;
    accs, sqrs := [], [];
    for tid := 0 to c.nThr
      invariant |accs| == |sqrs| == tid
      invariant forall t | 0 <= t < tid :: |accs[t]| == |sqrs[t]| == c.blockM
      invariant forall t, m | 0 <= t < tid && 0 <= m < c.blockM ::
        AccumulatedFor(c, x, fn, b, t, accs[t][m], sqrs[t][m], m, c.KIters())
    {
      var acc, sqr := ThreadLoopM(c, x, fn, b, tid);
      accs, sqrs := accs + [acc], sqrs + [sqr];
    }
  }

  /** The dot product the kernel delivers: over all elements the threads visit. */
  function VisitedDot(c: Tiling, a: Row, b: Row): real
    requires c.nThr > 0
  {
    Dot(a, b, c.KIters() * c.nThr)
  }

  method ReduceVisited(c: Tiling, vals: Row, a: Row, b: Row) returns (v: real)
    requires c.Legal() && |vals| == c.nThr
    requires forall t | 0 <= t < c.nThr :: vals[t] == ThreadDot(a, b, 0, c.KIters(), c.nThr, t)
    ensures v == VisitedDot(c, a, b)
  {
    v := ReduceAcrossWarps(vals, LANES);
    ReducedThreads(vals, a, b, 0, c.KIters(), c.nThr);
  }

  /** One token of one block: its tile of outputs, and its square sum in the first tile. */
  method WriteToken(
      c: Tiling, x: Matrix, fn: Matrix, b: TileBlock, m: nat, accs: seq<Row>, sqrs: Row,
      out: array2<real>, sqrsum: array<real>)
    requires c.Legal() && InputDims(c, x, fn) && m < c.blockM && b.mTile * c.blockM + m < c.tokens
    requires out.Length0 == c.tokens && out.Length1 == c.nOut && sqrsum.Length == c.tokens
    requires |accs| == |sqrs| == c.nThr
    requires forall t | 0 <= t < c.nThr :: AccumulatedFor(c, x, fn, b, t, accs[t], sqrs[t], m, c.KIters())
    modifies out, sqrsum
    ensures forall n, o | 0 <= n < c.tokens && 0 <= o < c.nOut ::
              out[n, o] == if n == b.mTile * c.blockM + m && InTile(b.tile, c.tileN, Width(c.tileN), o)
                           then VisitedDot(c, x[n], fn[o]) else old(out[n, o])
    ensures forall n | 0 <= n < c.tokens ::
              sqrsum[n] == if n == b.mTile * c.blockM + m && b.tile == 0
                           then VisitedDot(c, x[n], x[n]) else old(sqrsum[n])
  {
    hide ThreadDot, VisitedDot, InTile;
    forall o: int { InTileSteps(b.tile, c.tileN, 0, o); }
    var token := b.mTile * c.blockM + m;
    for lane := 0 to LANES
      invariant forall n, o | 0 <= n < c.tokens && 0 <= o < c.nOut ::
        out[n, o] == if n == token && InTile(b.tile, c.tileN, if lane < c.tileN then lane else c.tileN, o)
                     then VisitedDot(c, x[n], fn[o]) else old(out[n, o])
      invariant forall n | 0 <= n < c.tokens :: sqrsum[n] == old(sqrsum[n])
    {
      forall o: int { InTileSteps(b.tile, c.tileN, lane, o); }
      var outIdx := b.tile * c.tileN + lane;
      if lane < c.tileN && outIdx < c.nOut {
        var vals := seq(c.nThr, t requires 0 <= t < c.nThr => accs[t][lane]);
        var v := ReduceVisited(c, vals, x[token], fn[outIdx]);
        out[token, outIdx] := v;
      }
    }
    if b.tile == 0 {
      var v := ReduceVisited(c, sqrs, x[token], x[token]);
      sqrsum[token] := v;
    }
  }

  /** One block writes the outputs of its tokens and tile, ragged edges cut off; nothing else. */
  method BlockMBlock(c: Tiling, x: Matrix, fn: Matrix, b: TileBlock, out: array2<real>, sqrsum: array<real>)
    requires c.Legal() && InputDims(c, x, fn)
    requires out.Length0 == c.tokens && out.Length1 == c.nOut && sqrsum.Length == c.tokens
    modifies out, sqrsum
    ensures forall n, o | 0 <= n < c.tokens && 0 <= o < c.nOut ::
              out[n, o] == if InTile(b.mTile, c.blockM, c.blockM, n) && InTile(b.tile, c.tileN, Width(c.tileN), o)
                           then VisitedDot(c, x[n], fn[o]) else old(out[n, o])
    ensures forall n | 0 <= n < c.tokens ::
              sqrsum[n] == if InTile(b.mTile, c.blockM, c.blockM, n) && b.tile == 0
                           then VisitedDot(c, x[n], x[n]) else old(sqrsum[n])
  {
    hide AccumulatedFor, VisitedDot;
    var accs, sqrs := RunThreadsM(c, x, fn, b);
    for m := 0 to c.blockM
      invariant forall n, o | 0 <= n < c.tokens && 0 <= o < c.nOut ::
        out[n, o] == if InTile(b.mTile, c.blockM, m, n) && InTile(b.tile, c.tileN, Width(c.tileN), o)
                     then VisitedDot(c, x[n], fn[o]) else old(out[n, o])
      invariant forall n | 0 <= n < c.tokens ::
        sqrsum[n] == if InTile(b.mTile, c.blockM, m, n) && b.tile == 0
                     then VisitedDot(c, x[n], x[n]) else old(sqrsum[n])
    {
      if b.mTile * c.blockM + m < c.tokens {
        var ofM := seq(c.nThr, t requires 0 <= t < c.nThr => accs[t][m]);
        var sqrOfM := seq(c.nThr, t requires 0 <= t < c.nThr => sqrs[t][m]);
        WriteToken(c, x, fn, b, m, ofM, sqrOfM, out, sqrsum);
      }
    }
  }

  ghost predicate CoversTiles(c: Tiling, order: seq<TileBlock>)
    requires c.Legal()
  {
    (forall b | b in order :: InTiles(c, b)) && (forall b | InTiles(c, b) :: b in order)
  }

  /** Every index below `n` lies in one of the `(n + d - 1) / d` tiles of width `d`. */
  lemma TileOfIndex(n: nat, d: nat, i: nat) returns (tile: nat)
    requires d > 0 && i < n
    ensures tile < (n + d - 1) / d && InTile(tile, d, d, i) && (i == 0 ==> tile == 0)
  {
    tile := i / d;
    DivUpCovers(n, d);
    if (n + d - 1) / d <= tile { MulMono((n + d - 1) / d, tile, d); }
  }

  /** All blocks, in any order: the written outputs of every token hold its dot products, the others keep what
      they had, and, if there are outputs at all, every token gets its square sum. */
  method HcPrenormGemmBlockM(
      c: Tiling, x: Matrix, fn: Matrix, order: seq<TileBlock>, out: array2<real>, sqrsum: array<real>)
    requires c.Legal() && CoversTiles(c, order) && InputDims(c, x, fn)
    requires out.Length0 == c.tokens && out.Length1 == c.nOut && sqrsum.Length == c.tokens
    modifies out, sqrsum
    ensures forall n, o | 0 <= n < c.tokens && 0 <= o < c.nOut ::
              out[n, o] == if Written(c.tileN, o) then VisitedDot(c, x[n], fn[o]) else old(out[n, o])
    ensures forall n | 0 <= n < c.tokens ::
              sqrsum[n] == if c.nOut > 0 then VisitedDot(c, x[n], x[n]) else old(sqrsum[n])
  {
    hide VisitedDot, InTile, Written, Width;
    TilesExistIff(c.nOut, c.tileN);
    forall tile: nat, o: nat { WrittenInTile(tile, c.tileN, o); }
    for i := 0 to |order|
      invariant forall n, o, j | 0 <= n < c.tokens && 0 <= o < c.nOut && 0 <= j < i ::
        InTile(order[j].mTile, c.blockM, c.blockM, n) && InTile(order[j].tile, c.tileN, Width(c.tileN), o)
        ==> out[n, o] == VisitedDot(c, x[n], fn[o])
      invariant forall n, o | 0 <= n < c.tokens && 0 <= o < c.nOut && !Written(c.tileN, o) :: out[n, o] == old(out[n, o])
      invariant forall n, j | 0 <= n < c.tokens && 0 <= j < i ::
        InTile(order[j].mTile, c.blockM, c.blockM, n) && order[j].tile == 0 ==> sqrsum[n] == VisitedDot(c, x[n], x[n])
      invariant c.nOut == 0 ==> forall n | 0 <= n < c.tokens :: sqrsum[n] == old(sqrsum[n])
    {
      assert InTiles(c, order[i]);
      BlockMBlock(c, x, fn, order[i], out, sqrsum);
    }
    forall n, o | 0 <= n < c.tokens && 0 <= o < c.nOut && Written(c.tileN, o)
      ensures out[n, o] == VisitedDot(c, x[n], fn[o])
    {
      var j := BlockOfCell(c, order, n, o);
    }
    forall n | 0 <= n < c.tokens && c.nOut > 0
      ensures sqrsum[n] == VisitedDot(c, x[n], x[n])
    {
      var j := BlockOfCell(c, order, n, 0);
    }
  }

  /** Some block of the grid is responsible for every cell. */
  lemma BlockOfCell(c: Tiling, order: seq<TileBlock>, n: nat, o: nat) returns (j: nat)
    requires c.Legal() && CoversTiles(c, order) && n < c.tokens && o < c.nOut
    ensures j < |order|
    ensures InTile(order[j].mTile, c.blockM, c.blockM, n) && InTile(order[j].tile, c.tileN, c.tileN, o)
    ensures o == 0 ==> order[j].tile == 0
  {
    hide InTile;
    var mTile := TileOfIndex(c.tokens, c.blockM, n);
    var tile := TileOfIndex(c.nOut, c.tileN, o);
    var b := TileBlock(mTile, tile);
    assert InTiles(c, b);
    j :| 0 <= j < |order| && order[j] == b;
  }

  lemma FullIterations(k: nat, nThr: nat)
    requires nThr > 0 && k % nThr == 0
    ensures k / nThr * nThr == k
  {
  }

  /** The sums cover the whole reduction, for all inputs, exactly when the thread count divides its length. */
  lemma VisitedIsAllIff(c: Tiling)
    requires c.Legal()
    ensures c.k % c.nThr == 0 <==> forall a: Row, b: Row | |a| == |b| == c.k :: VisitedDot(c, a, b) == Dot(a, b, c.k)
  {
    if c.k % c.nThr == 0 {
      FullIterations(c.k, c.nThr);
    } else {
      var u := Unit(c.k, c.k - 1);
      assert c.KIters() * c.nThr <= c.k - 1 by { assert c.k == c.k / c.nThr * c.nThr + c.k % c.nThr; }
      SliceMissesUnit(c.k, c.k - 1, 0, c.KIters() * c.nThr);
      DotOfUnit(c.k, c.k - 1);
      assert VisitedDot(c, u, u) != Dot(u, u, c.k);
    }
  }

  /** Where it does, both kernels deliver the same full sums. */
  lemma BothKernelsAgree(c: Tiling, d: Config, a: Row, b: Row)
    requires c.Legal() && d.Legal() && c.k == d.k && c.k % c.nThr == 0 && Covers(d)
    ensures VisitedDot(c, a, b) == Dot(a, b, c.k) == Sum(s => PartialDot(d, a, b, s), d.nSplits)
  {
    FullIterations(c.k, c.nThr);
    hide Dot, PartialDot, Covers;
    SplitsAddUp(d, a, b);
  }
}
