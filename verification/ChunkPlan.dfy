/**
 How an allocation is cut into chunks: sizes are rounded up to the device granularity in 64-bit
 unsigned arithmetic, and a loop fills the chunk sizes.
 */
module ChunkPlan {
  import opened Arithmetic
  import opened Outcomes

  const TWO64: nat := 0x1_0000_0000_0000_0000
  const MB: nat := 0x10_0000
  const DEFAULT_CHUNK: nat := 0x1000_0000  // 256 MB

  type U64 = x: int | 0 <= x < TWO64

  function Wrap(x: int): U64 { x % TWO64 }

  function MyMin(a: nat, b: nat): nat { if a < b then a else b }

  /** `((x + g - 1) / g) * g` in 64-bit arithmetic. */
  function AlignUp(x: U64, g: U64): nat
    requires g > 0
  {
    RoundDown(Wrap(x + g - 1), g)
  }

  function RoundDown(s: nat, g: nat): nat
    requires g > 0
  {
    var q: nat := s / g;
    MulMono(0, q, g);
    q * g
  }

  /** The chunk size taken from the environment: a number of megabytes, if it parses, is not zero and
      does not overflow when converted to bytes. */
  function BaseChunk(env: Option<nat>): (r: nat)
    ensures 0 < r < TWO64
  {
    match env
    case None => DEFAULT_CHUNK
    case Some(mb) => if mb == 0 || mb > (TWO64 - 1) / MB then DEFAULT_CHUNK else mb * MB
  }

  /** A usable setting is taken as it is, in megabytes; anything else gives 256 of them. */
  lemma BaseChunkIsWhole(env: Option<nat>)
    ensures BaseChunk(env) % MB == 0
    ensures env.Some? && 0 < env.value && env.value * MB < TWO64 ==> BaseChunk(env) / MB == env.value
    ensures env.None? || env.value == 0 || env.value * MB >= TWO64 ==> BaseChunk(env) / MB == 256
  {
  }

  datatype Plan = Plan(alignedSize: nat, chunkSizes: seq<nat>)

  datatype PlanError = DivisionByZero

  function Total(sizes: seq<nat>, n: nat): nat
    requires n <= |sizes|
  {
    if n == 0 then 0 else Total(sizes, n - 1) + sizes[n - 1]
  }

  /** Chunk `i` starts inside the allocation and is a whole chunk or the rest. */
  predicate ChunkSize(aligned: nat, chunk: nat, i: int, size: nat) {
    i * chunk < aligned && size == MyMin(aligned - i * chunk, chunk)
  }

  function NumChunks(aligned: nat, chunk: nat): nat
    requires chunk > 0
  {
    Wrap(aligned + chunk - 1) / chunk
  }

  predicate ChunkSizes(aligned: nat, chunk: nat, sizes: seq<nat>)
    requires chunk > 0
  {
    && |sizes| == NumChunks(aligned, chunk)
    && forall i | 0 <= i < |sizes| :: ChunkSize(aligned, chunk, i, sizes[i])
  }

  /** The size of chunk `i`, in 64-bit arithmetic. */
  method NextChunk(aligned: U64, chunk: U64, i: nat) returns (size: nat)
    requires chunk > 0 && i < NumChunks(aligned, chunk)
    ensures ChunkSize(aligned, chunk, i, size)
  {
    ChunkStart(aligned, chunk, i);
    MulMono(0, i, chunk);
    var start := i * chunk;
    assert Wrap(start) == start && Wrap(aligned - start) == aligned - start;
    size := MyMin(Wrap(aligned - Wrap(start)), chunk);
  }

  /** The chunking part of the allocation call. */
  method PlanChunks(size: U64, granularity: U64, baseChunk: U64) returns (r: Result<Plan, PlanError>)
    requires granularity > 0 && baseChunk > 0
    ensures r.Err? <==> baseChunk + granularity > TWO64
    ensures r.Ok? ==> AlignUp(baseChunk, granularity) > 0 && r.value.alignedSize == AlignUp(size, granularity)
    ensures r.Ok? ==> ChunkSizes(r.value.alignedSize, AlignUp(baseChunk, granularity), r.value.chunkSizes)
  {
    var aligned := AlignUp(size, granularity);
    var chunk := AlignUp(baseChunk, granularity);
    AlignUpBounds(size, granularity);
    AlignUpBounds(baseChunk, granularity);
    hide AlignUp, ChunkSize, NumChunks;
    if chunk == 0 { return Err(DivisionByZero); }
    var numChunks := NumChunks(aligned, chunk);
    var sizes: seq<nat> := [];
    for i := 0 to numChunks
      invariant |sizes| == i
      invariant forall j | 0 <= j < i :: ChunkSize(aligned, chunk, j, sizes[j])
    {
      var size := NextChunk(aligned, chunk, i);
      sizes := sizes + [size];
    }
    return Ok(Plan(aligned, sizes));
  }

  /** Rounding up reaches the argument exactly when the sum does not overflow, and is zero when it does. */
  lemma AlignUpBounds(x: U64, g: U64)
    requires g > 0
    ensures 0 <= AlignUp(x, g) < TWO64
    ensures x + g <= TWO64 ==> x <= AlignUp(x, g) < x + g
    ensures x + g > TWO64 ==> AlignUp(x, g) == 0
  {
    var s := Wrap(x + g - 1);
    DivMulBounds(s, g);
    assert s == if x + g <= TWO64 then x + g - 1 else x + g - 1 - TWO64;
  }

  lemma AlignUpIsMultiple(x: U64, g: U64)
    requires g > 0
    ensures AlignUp(x, g) % g == 0
  {
    DivMulBounds(Wrap(x + g - 1), g);
  }

  lemma DivMulBounds(s: nat, g: nat)
    requires g > 0
    ensures s - g < s / g * g <= s && RoundDown(s, g) == s / g * g && RoundDown(s, g) % g == 0
    ensures s < g ==> s / g == 0 && RoundDown(s, g) == 0
  {
    assert s == s / g * g + s % g;
    MultipleMod(s / g, g);
  }

  lemma MultipleMod(q: nat, g: nat)
    requires g > 0
    ensures q * g % g == 0
  {
    MulMono(0, q, g);
    var x: nat := q * g;
    assert x == x / g * g + x % g;
    QuotientIsUnique(g, q, 0, x / g, x % g);
  }

  lemma ChunkStart(aligned: U64, chunk: U64, i: nat)
    requires chunk > 0 && i < NumChunks(aligned, chunk)
    ensures i * chunk < aligned && aligned + chunk <= TWO64
  {
    var s := Wrap(aligned + chunk - 1);
    DivMulBounds(s, chunk);
    assert aligned + chunk > TWO64 ==> s == aligned + chunk - 1 - TWO64;
    MulMono(i + 1, s / chunk, chunk);
  }

  /** The chunks before the `n`-th cover `n` whole chunks, or everything. */
  lemma {:induction false} ChunksBefore(aligned: nat, chunk: nat, sizes: seq<nat>, n: nat)
    requires chunk > 0 && ChunkSizes(aligned, chunk, sizes) && n <= |sizes|
    ensures Total(sizes, n) == MyMin(n * chunk, aligned)
  {
    if n > 0 {
      ChunksBefore(aligned, chunk, sizes, n - 1);
      assert ChunkSize(aligned, chunk, n - 1, sizes[n - 1]);
      assert n * chunk == (n - 1) * chunk + chunk;
    }
  }

  /** The chunks add up to the aligned size exactly when counting them does not overflow; otherwise there
      are none. */
  lemma ChunksAddUpIff(aligned: U64, chunk: U64, sizes: seq<nat>)
    requires chunk > 0 && ChunkSizes(aligned, chunk, sizes)
    ensures Total(sizes, |sizes|) == aligned <==> aligned + chunk <= TWO64
  {
    var s := Wrap(aligned + chunk - 1);
    DivMulBounds(s, chunk);
    ChunksBefore(aligned, chunk, sizes, |sizes|);
    if aligned + chunk <= TWO64 {
      assert s == aligned + chunk - 1;
    } else {
      assert s == aligned + chunk - 1 - TWO64 < chunk;
      assert s / chunk == 0;
    }
  }

  /** Without overflow every chunk is a positive multiple of the granularity, no larger than the aligned
      chunk size, and together they are the size rounded up. */
  lemma ChunksAreAligned(size: U64, g: U64, base: U64, sizes: seq<nat>, i: nat)
    requires g > 0 && base > 0 && size + g <= TWO64 && base + g <= TWO64
    requires AlignUp(base, g) > 0 && ChunkSizes(AlignUp(size, g), AlignUp(base, g), sizes) && i < |sizes|
    ensures 0 < sizes[i] <= AlignUp(base, g) && sizes[i] % g == 0
    ensures Total(sizes, |sizes|) == AlignUp(size, g) && size <= AlignUp(size, g) < size + g
  {
    var aligned, chunk := AlignUp(size, g), AlignUp(base, g);
    AlignUpBounds(size, g);
    AlignUpBounds(base, g);
    AlignUpIsMultiple(size, g);
    AlignUpIsMultiple(base, g);
    ChunkStart(aligned, chunk, i);
    ChunksAddUpIff(aligned, chunk, sizes);
    assert ChunkSize(aligned, chunk, i, sizes[i]);
    DifferenceOfMultiples(aligned, i, chunk, g);
  }

  lemma DifferenceOfMultiples(a: nat, i: nat, c: nat, g: nat)
    requires g > 0 && a % g == 0 && c % g == 0 && i * c <= a
    ensures (a - i * c) % g == 0
  {
    var p, q := a / g, c / g;
    assert a == p * g && c == q * g;
    assert a - i * c == (p - i * q) * g;
    var d := p - i * q;
    assert d >= 0 by { NonNegative(d, g); }
    MultipleMod(d, g);
  }

  lemma NonNegative(d: int, g: nat)
    requires g > 0 && d * g >= 0
    ensures d >= 0
  {
  }

  /** The environment guard does not prevent the overflow: the largest chunk size it admits divides by
      zero on a device with a granularity of 2 MB. */
  lemma LargestEnvironmentChunkOverflows()
    ensures BaseChunk(Some((TWO64 - 1) / MB)) + 2 * MB > TWO64
  {
  }
}
