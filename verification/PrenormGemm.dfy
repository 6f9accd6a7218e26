/**
 The pre-norm GEMM kernels over exact reals.  A grid of blocks, each of many threads, computes for
 every token the dot products with the rows of `fn` and the square sum of the token's own row.

 A kernel runs its blocks in any order; `order` lists them as they happen to be executed.
 */
module PrenormGemm {
  import opened Arithmetic
  import opened Sums

  type Row = seq<real>
  type Matrix = seq<Row>

  const LANES: nat := 32  // threads in a warp

  predicate Shape(m: Matrix, rows: nat, cols: nat) {
    |m| == rows && forall i | 0 <= i < rows :: |m[i]| == cols
  }

  function At(a: Row, k: int): real {
    if 0 <= k < |a| then a[k] else 0.0
  }

  function Cell(m: Matrix, i: int, k: int): real {
    if 0 <= i < |m| then At(m[i], k) else 0.0
  }

  /** The sum of products over the slice of `len` elements from `from` on. */
  function SliceDot(a: Row, b: Row, from: int, len: nat): real {
    Sum(k => At(a, from + k) * At(b, from + k), len)
  }

  function Dot(a: Row, b: Row, n: nat): real {
    SliceDot(a, b, 0, n)
  }

  // ---------------------------------------------------------------------------------------------
  // One block: threads, warps, and the final sum across warps

  /** What one thread accumulates of `term`: every `nThr`-th element. */
  function ThreadSum(term: int -> real, iters: nat, nThr: nat, tid: int): real {
    Sum(it => term(it * nThr + tid), iters)
  }

  /** The threads of a block together cover its slice. */
  lemma ThreadsCoverSlice(term: int -> real, iters: nat, nThr: nat)
    ensures Sum(tid => ThreadSum(term, iters, nThr, tid), nThr) == Sum(term, iters * nThr)
  {
    var cell := (it: int, tid: int) => term(it * nThr + tid);
    SumTiles(term, iters, nThr);
    SumSwap(cell, iters, nThr);
    SumExt(it => Sum(tid => term(it * nThr + tid), nThr), it => Sum(tid => cell(it, tid), nThr), iters)
      by { forall it | 0 <= it < iters
             ensures Sum(tid => term(it * nThr + tid), nThr) == Sum(tid => cell(it, tid), nThr)
           { SumExt(tid => term(it * nThr + tid), tid => cell(it, tid), nThr); } }
    forall tid | 0 <= tid < nThr
      ensures ThreadSum(term, iters, nThr, tid) == Sum(it => cell(it, tid), iters)
    {
      SumExt(it => term(it * nThr + tid), it => cell(it, tid), iters);
    }
    SumExt(tid => ThreadSum(term, iters, nThr, tid), tid => Sum(it => cell(it, tid), iters), nThr);
  }

  function ThreadDot(a: Row, b: Row, from: int, iters: nat, nThr: nat, tid: int): real {
    ThreadSum(k => At(a, from + k) * At(b, from + k), iters, nThr, tid)
  }

  lemma ThreadDotStart(a: Row, from: int, nThr: nat, tid: int)
    ensures forall b :: ThreadDot(a, b, from, 0, nThr, tid) == 0.0
  {
  }

  lemma ThreadDotStep(a: Row, b: Row, from: int, it: nat, nThr: nat, tid: int)
    ensures ThreadDot(a, b, from, it + 1, nThr, tid) ==
            ThreadDot(a, b, from, it, nThr, tid) + At(a, from + it * nThr + tid) * At(b, from + it * nThr + tid)
  {
    var term := (k: int) => At(a, from + k) * At(b, from + k);
    assert from + (it * nThr + tid) == from + it * nThr + tid;
  }

  function WarpSum(vals: Row, lanes: nat, w: int): real {
    Sum(lane => At(vals, w * lanes + lane), lanes)
  }

  lemma WarpsCoverThreads(vals: Row, lanes: nat, warps: nat)
    requires |vals| == warps * lanes
    ensures Sum(w => WarpSum(vals, lanes, w), warps) == Sum(tid => At(vals, tid), |vals|)
  {
    var f := (tid: int) => At(vals, tid);
    SumTiles(f, warps, lanes);
    forall w | 0 <= w < warps
      ensures WarpSum(vals, lanes, w) == Sum(lane => f(w * lanes + lane), lanes)
    {
      SumExt(lane => At(vals, w * lanes + lane), lane => f(w * lanes + lane), lanes);
    }
    SumExt(w => WarpSum(vals, lanes, w), w => Sum(lane => f(w * lanes + lane), lanes), warps);
  }

  /** The warp-level sum of the threads' values. */
  method WarpReduceSum(vals: Row, lanes: nat, w: nat) returns (sum: real)
    requires (w + 1) * lanes <= |vals|
    ensures sum == WarpSum(vals, lanes, w)
  {
    sum := 0.0;
    ghost var ofLane := (lane: int) => At(vals, w * lanes + lane);
    var start := w * lanes;
    assert start + lanes <= |vals|;
    for lane := 0 to lanes
      invariant sum == Sum(ofLane, lane)
    {
      assert ofLane(lane) == vals[start + lane];
      sum := sum + vals[start + lane];
    }
    SumExt(ofLane, lane => At(vals, w * lanes + lane), lanes);
  }

  /** The sum over each warp, written to shared memory by its lane 0, then added up by one thread. */
  method ReduceAcrossWarps(vals: Row, lanes: nat) returns (total: real)
    requires lanes > 0 && |vals| % lanes == 0
    ensures total == Sum(tid => At(vals, tid), |vals|)
  {
    var numWarps := |vals| / lanes;
    assert numWarps * lanes == |vals|;
    ghost var ofWarp := (w: int) => WarpSum(vals, lanes, w);
    var shared: Row := [];
    for w := 0 to numWarps
      invariant |shared| == w && forall j | 0 <= j < w :: shared[j] == ofWarp(j)
    {
      MulMono(w + 1, numWarps, lanes);
      var sum := WarpReduceSum(vals, lanes, w);
      shared := shared + [sum];
    }
    total := 0.0;
    for w := 0 to numWarps
      invariant total == Sum(ofWarp, w)
    {
      total := total + shared[w];
    }
    SumExt(ofWarp, w => WarpSum(vals, lanes, w), numWarps);
    WarpsCoverThreads(vals, lanes, numWarps);
  }

  /** A block's threads reduce to the sum over its slice. */
  lemma ReducedThreadSums(vals: Row, term: int -> real, iters: nat, nThr: nat)
    requires |vals| == nThr && forall tid | 0 <= tid < nThr :: vals[tid] == ThreadSum(term, iters, nThr, tid)
    ensures Sum(tid => At(vals, tid), nThr) == Sum(term, iters * nThr)
  {
    SumExt(tid => At(vals, tid), tid => ThreadSum(term, iters, nThr, tid), nThr);
    ThreadsCoverSlice(term, iters, nThr);
  }

  lemma ReducedThreads(vals: Row, a: Row, b: Row, from: int, iters: nat, nThr: nat)
    requires |vals| == nThr && forall tid | 0 <= tid < nThr :: vals[tid] == ThreadDot(a, b, from, iters, nThr, tid)
    ensures Sum(tid => At(vals, tid), nThr) == SliceDot(a, b, from, iters * nThr)
  {
    ReducedThreadSums(vals, k => At(a, from + k) * At(b, from + k), iters, nThr);
  }

  // ---------------------------------------------------------------------------------------------
  // The split-k kernel

  datatype Config = Config(tokens: nat, k: nat, nOut: nat, nThr: nat, tileN: nat, nSplits: nat) {
    predicate Legal() {
      nThr > 0 && nThr % LANES == 0 && tileN > 0 && nSplits > 0
    }
    function KPerSplit(): nat requires nSplits > 0 { k / nSplits }
    function KIters(): nat requires Legal() { KPerSplit() / nThr }
    function NTiles(): nat requires tileN > 0 { (nOut + tileN - 1) / tileN }
  }

  datatype Block = Block(token: nat, tile: nat, split: nat)

  predicate InGrid(c: Config, b: Block)
    requires c.Legal()
  {
    b.token < c.tokens && b.tile < c.NTiles() && b.split < c.nSplits
  }

  lemma SliceInRange(c: Config, split: nat)
    requires c.Legal() && split < c.nSplits
    ensures split * c.KPerSplit() + c.KIters() * c.nThr <= c.k
  {
    var kps := c.KPerSplit();
    assert c.KIters() * c.nThr <= kps;
    assert (split + 1) * kps <= c.nSplits * kps by { MulMono(split + 1, c.nSplits, kps); }
    assert c.nSplits * kps <= c.k;
  }

  /** One thread of one block: partial dot products with the rows of its tile, and a partial square sum. */
  method ThreadLoop(row: Row, fn: Matrix, nOut: nat, tileN: nat, tile: nat, from: nat, iters: nat, nThr: nat, tid: nat)
      returns (acc: Row, sqr: real)
    requires tid < nThr && from + iters * nThr <= |row| && Shape(fn, nOut, |row|)
    ensures |acc| == tileN
    ensures forall o | 0 <= o < tileN ::
              acc[o] == if tile * tileN + o < nOut then ThreadDot(row, fn[tile * tileN + o], from, iters, nThr, tid) else 0.0
    ensures sqr == if tile == 0 then ThreadDot(row, row, from, iters, nThr, tid) else 0.0
  {
    acc, sqr := seq(tileN, _ => 0.0), 0.0;
    var base := tile * tileN;
    AccumulatedStart(row, fn, base, tile, from, nThr, tid, acc);
    for it := 0 to iters
      invariant |acc| == tileN && Accumulated(row, fn, base, tile, from, it, nThr, tid, acc, sqr)
    {
      hide Accumulated, ThreadDot;
      MulMono(it + 1, iters, nThr);
      var k := from + it * nThr + tid;
      ghost var acc0, sqr0 := acc, sqr;
      acc := Accumulate(row, fn, nOut, base, k, acc);
      if tile == 0 {
        sqr := sqr + row[k] * row[k];
      }
      AccumulatedStep(row, fn, base, tile, from, it, nThr, tid, k, acc0, sqr0, acc, sqr);
    }
  }

  /** A thread's accumulators after `it` iterations: for the outputs from `base` on, and for the squares. */
  predicate Accumulated(
      row: Row, fn: Matrix, base: nat, tile: nat, from: int, it: nat, nThr: nat, tid: int, acc: Row, sqr: real)
  {
    && (forall o | 0 <= o < |acc| ::
          acc[o] == if base + o < |fn| then ThreadDot(row, fn[base + o], from, it, nThr, tid) else 0.0)
    && sqr == if tile == 0 then ThreadDot(row, row, from, it, nThr, tid) else 0.0
  }

  lemma AccumulatedStart(row: Row, fn: Matrix, base: nat, tile: nat, from: int, nThr: nat, tid: int, acc: Row)
    requires forall o | 0 <= o < |acc| :: acc[o] == 0.0
    ensures Accumulated(row, fn, base, tile, from, 0, nThr, tid, acc, 0.0)
  {
    ThreadDotStart(row, from, nThr, tid);
    hide ThreadDot;
  }

  lemma AccumulatedStep(
      row: Row, fn: Matrix, base: nat, tile: nat, from: int, it: nat, nThr: nat, tid: int, k: int,
      acc: Row, sqr: real, acc': Row, sqr': real)
    requires Accumulated(row, fn, base, tile, from, it, nThr, tid, acc, sqr) && k == from + it * nThr + tid
    requires |acc'| == |acc| && forall o | 0 <= o < |acc| ::
               acc'[o] == if base + o < |fn| then acc[o] + At(row, k) * At(fn[base + o], k) else acc[o]
    requires sqr' == if tile == 0 then sqr + At(row, k) * At(row, k) else sqr
    ensures Accumulated(row, fn, base, tile, from, it + 1, nThr, tid, acc', sqr')
  {
    hide ThreadDot, At;
    forall o | 0 <= o < |acc|
      ensures acc'[o] == if base + o < |fn| then ThreadDot(row, fn[base + o], from, it + 1, nThr, tid) else 0.0
    {
      if base + o < |fn| { ThreadDotStep(row, fn[base + o], from, it, nThr, tid); }
    }
    ThreadDotStep(row, row, from, it, nThr, tid);
  }

  /** Element `k` of the row times the matching elements of the rows of `fn` from `base` on. */
  method Accumulate(row: Row, fn: Matrix, nOut: nat, base: nat, k: nat, acc: Row) returns (r: Row)
    requires k < |row| && Shape(fn, nOut, |row|)
    ensures |r| == |acc|
    ensures forall o | 0 <= o < |acc| ::
              r[o] == if base + o < nOut then acc[o] + At(row, k) * At(fn[base + o], k) else acc[o]
  {
    var value := row[k];
    r := acc;
    for o := 0 to |acc|
      invariant |r| == |acc|
      invariant forall j | 0 <= j < |acc| ::
        r[j] == if j < o && base + j < nOut then acc[j] + At(row, k) * At(fn[base + j], k) else acc[j]
    {
      if base + o < nOut {
        r := r[o := r[o] + value * fn[base + o][k]];
      }
    }
  }

  /** The cell of `out` that split `s` contributes for token `n` and output `o`. */
  function PartialDot(c: Config, a: Row, b: Row, s: int): real
    requires c.Legal()
  {
    SliceDot(a, b, s * c.KPerSplit(), c.KIters() * c.nThr)
  }

  predicate Dims(c: Config, x: Matrix, fn: Matrix, out: array3<real>, sqrsum: array2<real>) {
    && Shape(x, c.tokens, c.k) && Shape(fn, c.nOut, c.k)
    && out.Length0 == c.nSplits && out.Length1 == c.tokens && out.Length2 == c.nOut
    && sqrsum.Length0 == c.nSplits && sqrsum.Length1 == c.tokens
  }

  /** Outputs of a tile: the first `width` of them from `tile * tileN` on. */
  predicate InTile(tile: nat, tileN: nat, width: nat, o: int) {
    tile * tileN <= o < tile * tileN + width
  }

  lemma InTileSteps(tile: nat, tileN: nat, width: nat, o: int)
    ensures !InTile(tile, tileN, 0, o)
    ensures InTile(tile, tileN, width + 1, o) <==> InTile(tile, tileN, width, o) || o == tile * tileN + width
  {
  }

  method RunThreads(c: Config, x: Matrix, fn: Matrix, b: Block) returns (accs: seq<Row>, sqrs: Row)
    requires c.Legal() && InGrid(c, b) && Shape(x, c.tokens, c.k) && Shape(fn, c.nOut, c.k)
    ensures |accs| == |sqrs| == c.nThr && forall t | 0 <= t < c.nThr :: |accs[t]| == c.tileN
    ensures forall t, o | 0 <= t < c.nThr && 0 <= o < c.tileN && b.tile * c.tileN + o < c.nOut ::
              accs[t][o] == ThreadDot(x[b.token], fn[b.tile * c.tileN + o], b.split * c.KPerSplit(), c.KIters(), c.nThr, t)
    ensures b.tile == 0 ==> forall t | 0 <= t < c.nThr ::
              sqrs[t] == ThreadDot(x[b.token], x[b.token], b.split * c.KPerSplit(), c.KIters(), c.nThr, t)
  {
    hide ThreadDot;
    accs, sqrs := [], [];
    SliceInRange(c, b.split);
    for tid := 0 to c.nThr
      invariant |accs| == |sqrs| == tid && forall t | 0 <= t < tid :: |accs[t]| == c.tileN
      invariant forall t, o | 0 <= t < tid && 0 <= o < c.tileN && b.tile * c.tileN + o < c.nOut ::
        accs[t][o] == ThreadDot(x[b.token], fn[b.tile * c.tileN + o], b.split * c.KPerSplit(), c.KIters(), c.nThr, t)
      invariant b.tile == 0 ==> forall t | 0 <= t < tid ::
        sqrs[t] == ThreadDot(x[b.token], x[b.token], b.split * c.KPerSplit(), c.KIters(), c.nThr, t)
    {
      var acc, sqr := ThreadLoop(
        x[b.token], fn, c.nOut, c.tileN, b.tile, b.split * c.KPerSplit(), c.KIters(), c.nThr, tid);
      accs, sqrs := accs + [acc], sqrs + [sqr];
    }
  }

  /** Sum one column of thread values across the block. */
  method ReduceColumn(c: Config, vals: Row, a: Row, b: Row, s: nat) returns (v: real)
    requires c.Legal() && |vals| == c.nThr
    requires forall t | 0 <= t < c.nThr :: vals[t] == ThreadDot(a, b, s * c.KPerSplit(), c.KIters(), c.nThr, t)
    ensures v == PartialDot(c, a, b, s)
  {
    v := ReduceAcrossWarps(vals, LANES);
    ReducedThreads(vals, a, b, s * c.KPerSplit(), c.KIters(), c.nThr);
  }

  /** Of a tile, the lanes of one warp write this many outputs. */
  function Width(tileN: nat): nat {
    if tileN < LANES then tileN else LANES
  }

  /** One block writes its tile of outputs, as far as one warp has lanes for it, and, in the first tile, the
      square sum; nothing else. */
  method GemmBlock(c: Config, x: Matrix, fn: Matrix, b: Block, out: array3<real>, sqrsum: array2<real>)
    requires c.Legal() && InGrid(c, b) && Dims(c, x, fn, out, sqrsum)
    modifies out, sqrsum
    ensures forall s, n, o | 0 <= s < c.nSplits && 0 <= n < c.tokens && 0 <= o < c.nOut ::
              out[s, n, o] == if s == b.split && n == b.token && InTile(b.tile, c.tileN, Width(c.tileN), o)
                              then PartialDot(c, x[n], fn[o], s) else old(out[s, n, o])
    ensures forall s, n | 0 <= s < c.nSplits && 0 <= n < c.tokens ::
              sqrsum[s, n] == if s == b.split && n == b.token && b.tile == 0
                              then PartialDot(c, x[n], x[n], s) else old(sqrsum[s, n])
  {
    hide ThreadDot, PartialDot, InTile;
    forall o: int { InTileSteps(b.tile, c.tileN, 0, o); }
    var accs, sqrs := RunThreads(c, x, fn, b);
    for lane := 0 to LANES
      invariant forall s, n, o | 0 <= s < c.nSplits && 0 <= n < c.tokens && 0 <= o < c.nOut ::
        out[s, n, o] == if s == b.split && n == b.token && InTile(b.tile, c.tileN, if lane < c.tileN then lane else c.tileN, o)
                        then PartialDot(c, x[n], fn[o], s) else old(out[s, n, o])
      invariant forall s, n | 0 <= s < c.nSplits && 0 <= n < c.tokens :: sqrsum[s, n] == old(sqrsum[s, n])
    {
      forall o: int { InTileSteps(b.tile, c.tileN, lane, o); }
      var outIdx := b.tile * c.tileN + lane;
      if lane < c.tileN && outIdx < c.nOut {
        var vals := seq(c.nThr, t requires 0 <= t < c.nThr => accs[t][lane]);
        var v := ReduceColumn(c, vals, x[b.token], fn[outIdx], b.split);
        out[b.split, b.token, outIdx] := v;
      }
    }
    if b.tile == 0 {
      var v := ReduceColumn(c, sqrs, x[b.token], x[b.token], b.split);
      sqrsum[b.split, b.token] := v;
    }
  }

  ghost predicate CoversGrid(c: Config, order: seq<Block>)
    requires c.Legal()
  {
    (forall b | b in order :: InGrid(c, b)) && (forall b | InGrid(c, b) :: b in order)
  }

  function TileOf(c: Config, o: nat): nat
    requires c.Legal()
  {
    o / c.tileN
  }

  /** Every output lies in exactly one tile of the grid. */
  lemma TileOfOutput(c: Config, o: nat)
    requires c.Legal() && o < c.nOut
    ensures TileOf(c, o) < c.NTiles()
    ensures forall tile: nat :: InTile(tile, c.tileN, c.tileN, o) <==> tile == TileOf(c, o)
  {
    var q := TileOf(c, o);
    assert InTile(q, c.tileN, c.tileN, o);
    forall tile: nat | InTile(tile, c.tileN, c.tileN, o)
      ensures tile == q
    {
      TileIsUnique(tile, q, c.tileN, o);
    }
    DivUpCovers(c.nOut, c.tileN);
    ProductOrder(c.NTiles(), q, c.tileN);
  }

  lemma TileIsUnique(a: nat, b: nat, tileN: nat, o: int)
    requires InTile(a, tileN, tileN, o) && InTile(b, tileN, tileN, o)
    ensures a == b
  {
    ProductOrder(a + 1, b, tileN);
    ProductOrder(b + 1, a, tileN);
  }

  lemma TilesExistIff(n: nat, d: nat)
    requires d > 0
    ensures (n + d - 1) / d > 0 <==> n > 0
  {
    DivUpCovers(n, d);
  }

  lemma DivUpCovers(n: nat, d: nat)
    requires d > 0
    ensures (n + d - 1) / d * d >= n
  {
  }

  /** Output `o` is one of those that the lanes of its tile's block write. */
  predicate Written(tileN: nat, o: nat)
    requires tileN > 0
  {
    o % tileN < LANES
  }

  lemma WrittenInTile(tile: nat, tileN: nat, o: nat)
    requires tileN > 0
    ensures InTile(tile, tileN, Width(tileN), o) <==> InTile(tile, tileN, tileN, o) && Written(tileN, o)
  {
    var q: nat := o / tileN;
    assert o == q * tileN + o % tileN;
    if InTile(tile, tileN, tileN, o) { TileIsUnique(tile, q, tileN, o); }
  }

  lemma InOwnTile(tileN: nat, o: nat)
    requires tileN > 0
    ensures InTile(o / tileN, tileN, tileN, o)
  {
    assert o == o / tileN * tileN + o % tileN;
  }

  /** Every output is written exactly when a tile fits the lanes of one warp, or all outputs do. */
  lemma EveryOutputIsWrittenIff(tileN: nat, nOut: nat)
    requires tileN > 0
    ensures (forall o | 0 <= o < nOut :: Written(tileN, o)) <==> tileN <= LANES || nOut <= LANES
  {
    if tileN > LANES {
      forall o | 0 <= o <= LANES
        ensures o % tileN == o
      {
      }
      if nOut > LANES { assert !Written(tileN, LANES); }
    }
  }

  /** With tiles of 64 outputs, 32 of 64 outputs are never written. */
  lemma WideTileLosesOutputs(o: nat)
    requires 32 <= o < 64
    ensures Config(1, 32, 64, 32, 64, 1).Legal() && !Written(64, o)
  {
  }

  /** Blocks run in any order: every written cell of `out` gets its split's partial dot product, the others
      keep what they had, and, if there are outputs at all, every
      cell of `sqrsum` gets its partial square sum, ragged last tile included. */
  method HcPrenormGemm(c: Config, x: Matrix, fn: Matrix, order: seq<Block>, out: array3<real>, sqrsum: array2<real>)
    requires c.Legal() && CoversGrid(c, order) && Dims(c, x, fn, out, sqrsum)
    modifies out, sqrsum
    ensures forall s, n, o | 0 <= s < c.nSplits && 0 <= n < c.tokens && 0 <= o < c.nOut ::
              out[s, n, o] == if Written(c.tileN, o) then PartialDot(c, x[n], fn[o], s) else old(out[s, n, o])
    ensures forall s, n | 0 <= s < c.nSplits && 0 <= n < c.tokens ::
              sqrsum[s, n] == if c.nOut > 0 then PartialDot(c, x[n], x[n], s) else old(sqrsum[s, n])
  {
    hide PartialDot, TileOf, InTile, Written, Width;
    forall o | 0 <= o < c.nOut
      ensures TileOf(c, o) < c.NTiles()
      ensures forall tile: nat :: InTile(tile, c.tileN, Width(c.tileN), o) <==> tile == TileOf(c, o) && Written(c.tileN, o)
    {
      TileOfOutput(c, o);
      forall tile: nat { WrittenInTile(tile, c.tileN, o); }
    }
    for i := 0 to |order|
      invariant forall s, n, o | 0 <= s < c.nSplits && 0 <= n < c.tokens && 0 <= o < c.nOut ::
        out[s, n, o] == if Written(c.tileN, o) && Block(n, TileOf(c, o), s) in order[..i]
                        then PartialDot(c, x[n], fn[o], s) else old(out[s, n, o])
      invariant forall s, n | 0 <= s < c.nSplits && 0 <= n < c.tokens ::
        sqrsum[s, n] == if Block(n, 0, s) in order[..i] then PartialDot(c, x[n], x[n], s) else old(sqrsum[s, n])
    {
      assert order[..i + 1] == order[..i] + [order[i]];
      GemmBlock(c, x, fn, order[i], out, sqrsum);
    }
    assert order[..|order|] == order;
    assert forall s, n, o | 0 <= s < c.nSplits && 0 <= n < c.tokens && 0 <= o < c.nOut ::
        InGrid(c, Block(n, TileOf(c, o), s));
    TilesExistIff(c.nOut, c.tileN);
    assert forall s, n | 0 <= s < c.nSplits && 0 <= n < c.tokens :: InGrid(c, Block(n, 0, s)) <==> c.nOut > 0;
  }

  // ---------------------------------------------------------------------------------------------
  // Adding up the splits

  /** Threads, iterations and splits cover every element. */
  predicate Covers(c: Config)
    requires c.Legal()
  {
    c.KIters() * c.nThr == c.KPerSplit() && c.nSplits * c.KPerSplit() == c.k
  }

  lemma SliceOfTerms(a: Row, b: Row, term: int -> real, from: int, len: nat)
    requires forall k :: term(k) == At(a, k) * At(b, k)
    ensures SliceDot(a, b, from, len) == Sum(j => term(from + j), len)
  {
    SumExt(k => At(a, from + k) * At(b, from + k), j => term(from + j), len);
  }

  /** Consecutive slices of equal length add up to the whole. */
  lemma SlicesAddUp(a: Row, b: Row, splits: nat, len: nat)
    ensures Sum(s => SliceDot(a, b, s * len, len), splits) == Dot(a, b, splits * len)
  {
    hide At, Sum;
    var term := (k: int) => At(a, k) * At(b, k);
    SumTiles(term, splits, len);
    forall s | 0 <= s < splits
      ensures SliceDot(a, b, s * len, len) == Sum(j => term(s * len + j), len)
    {
      SliceOfTerms(a, b, term, s * len, len);
      SumExt(j => term(s * len + j), j => term((s * len) + j), len);
    }
    SumExt(s => SliceDot(a, b, s * len, len), i => Sum(j => term(i * len + j), len), splits);
    SumExt(k => At(a, 0 + k) * At(b, 0 + k), term, splits * len);
  }

  lemma SplitsAddUp(c: Config, a: Row, b: Row)
    requires c.Legal() && Covers(c)
    ensures Sum(s => PartialDot(c, a, b, s), c.nSplits) == Dot(a, b, c.k)
  {
    var kps := c.KPerSplit();
    SlicesAddUp(a, b, c.nSplits, kps);
    forall s: int
      ensures PartialDot(c, a, b, s) == SliceDot(a, b, s * kps, kps)
    {
    }
    SumExt(s => PartialDot(c, a, b, s), s => SliceDot(a, b, s * kps, kps), c.nSplits);
  }

  // Without coverage some element is never read.

  function Unit(n: nat, i: nat): Row {
    seq(n, k => if k == i then 1.0 else 0.0)
  }

  lemma SliceMissesUnit(n: nat, u: nat, from: int, len: nat)
    requires u < from || from + len <= u
    ensures SliceDot(Unit(n, u), Unit(n, u), from, len) == 0.0
  {
    var e := Unit(n, u);
    var term := (k: int) => At(e, from + k) * At(e, from + k);
    forall k | 0 <= k < len
      ensures term(k) == 0.0
    {
      assert At(e, from + k) == 0.0;
    }
    SumZero(term, len);
  }

  lemma DotOfUnit(n: nat, u: nat)
    requires u < n
    ensures Dot(Unit(n, u), Unit(n, u), n) == 1.0
  {
    var e := Unit(n, u);
    SumOnly(k => At(e, 0 + k) * At(e, 0 + k), n, u);
  }

  /** Slices of `len` elements at multiples of `kps >= len`, all within `k` elements but not covering
      them, miss one element. */
  lemma SomeElementIsMissed(k: nat, splits: nat, kps: nat, len: nat) returns (u: nat)
    requires len <= kps && splits * kps <= k && splits > 0 && (len < kps || splits * kps < k)
    ensures u < k && forall s: nat | s < splits :: u < s * kps || s * kps + len <= u
  {
    u := if len < kps then len else splits * kps;
    MulMono(1, splits, kps);
    forall s: nat | s < splits
      ensures u < s * kps || s * kps + len <= u
    {
      MulMono(s + 1, splits, kps);
      if s > 0 { MulMono(1, s, kps); }
    }
  }

  lemma SplitSizes(c: Config)
    requires c.Legal()
    ensures c.KIters() * c.nThr <= c.KPerSplit() && c.nSplits * c.KPerSplit() <= c.k
  {
  }

  /** The kernel computes the full dot product for all inputs exactly when the divisibility conditions
      hold: otherwise there is an input on which it loses a term. */
  lemma SplitsAddUpIff(c: Config)
    requires c.Legal()
    ensures Covers(c) <==>
            forall a: Row, b: Row | |a| == |b| == c.k :: Sum(s => PartialDot(c, a, b, s), c.nSplits) == Dot(a, b, c.k)
  {
    if Covers(c) {
      forall a: Row, b: Row { SplitsAddUp(c, a, b); }
    } else {
      SplitSizes(c);
      var u := SomeElementIsMissed(c.k, c.nSplits, c.KPerSplit(), c.KIters() * c.nThr);
      var e := Unit(c.k, u);
      forall s | 0 <= s < c.nSplits
        ensures PartialDot(c, e, e, s) == 0.0
      {
        SliceMissesUnit(c.k, u, s * c.KPerSplit(), c.KIters() * c.nThr);
      }
      SumZero(s => PartialDot(c, e, e, s), c.nSplits);
      DotOfUnit(c.k, u);
    }
  }

  // What a dot product is: linear in either argument, symmetric, and a unit row picks an element.

  lemma DotPicks(n: nat, u: nat, b: Row)
    requires u < n
    ensures Dot(Unit(n, u), b, n) == At(b, u)
  {
    var e := Unit(n, u);
    var term := (k: int) => At(e, 0 + k) * At(b, 0 + k);
    SumOnly(term, n, u);
    SumExt(k => At(e, 0 + k) * At(b, 0 + k), term, n);
  }

  lemma DotCommutes(a: Row, b: Row, n: nat)
    ensures Dot(a, b, n) == Dot(b, a, n)
  {
    hide At;
    SumExt(k => At(a, 0 + k) * At(b, 0 + k), k => At(b, 0 + k) * At(a, 0 + k), n);
  }

  lemma DotAddsUp(sum: Row, a: Row, b: Row, c: Row, n: nat)
    requires forall k | 0 <= k < n :: At(sum, k) == At(a, k) + At(b, k)
    ensures Dot(sum, c, n) == Dot(a, c, n) + Dot(b, c, n)
  {
    hide At;
    var ofA, ofB := (k: int) => At(a, 0 + k) * At(c, 0 + k), (k: int) => At(b, 0 + k) * At(c, 0 + k);
    SumAdd(ofA, ofB, n);
    forall k | 0 <= k < n
      ensures At(sum, 0 + k) * At(c, 0 + k) == ofA(k) + ofB(k)
    {
      ProductOfSum(At(a, k), At(b, k), At(c, k));
    }
    SumExt(k => At(sum, 0 + k) * At(c, 0 + k), k => ofA(k) + ofB(k), n);
    SumExt(k => At(a, 0 + k) * At(c, 0 + k), ofA, n);
    SumExt(k => At(b, 0 + k) * At(c, 0 + k), ofB, n);
  }

  lemma ProductOfSum(a: real, b: real, c: real)
    ensures (a + b) * c == a * c + b * c
  {
  }

  lemma DotScales(scaled: Row, factor: real, a: Row, c: Row, n: nat)
    requires forall k | 0 <= k < n :: At(scaled, k) == factor * At(a, k)
    ensures Dot(scaled, c, n) == Dot(a, c, n) * factor
  {
    hide At;
    var ofA := (k: int) => At(a, 0 + k) * At(c, 0 + k);
    SumScale(ofA, factor, n);
    forall k | 0 <= k < n
      ensures At(scaled, 0 + k) * At(c, 0 + k) == ofA(k) * factor
    {
      Rearranged(factor, At(a, k), At(c, k));
    }
    SumExt(k => At(scaled, 0 + k) * At(c, 0 + k), k => ofA(k) * factor, n);
    SumExt(k => At(a, 0 + k) * At(c, 0 + k), ofA, n);
  }

  lemma Rearranged(f: real, a: real, c: real)
    ensures f * a * c == a * c * f
  {
  }
}
