/**
 * The reference per-token quantiser: every row of a matrix gets its own scale and zero point,
 * and every element becomes an integer code. Arithmetic is over exact reals.
 */
module Int8Quant {
  import opened Outcomes

  datatype QuantError = EmptyRow

  /** What one row becomes. */
  datatype QuantRow = QuantRow(codes: seq<int>, scale: real, zeroPoint: int)

  /** Rounding to the nearest integer, ties to the even one. */
  function Round(x: real): int {
    var low := x.Floor;
    var rest := x - low as real;
    if rest < 0.5 then low
    else if rest > 0.5 then low + 1
    else if low % 2 == 0 then low
    else low + 1
  }

  function Min(a: real, b: real): real { if b < a then b else a }

  function Max(a: real, b: real): real { if a < b then b else a }

  function Abs(a: real): real { if a < 0.0 then -a else a }

  function MinOf(row: seq<real>): real
    requires row != []
  {
    if |row| == 1 then row[0] else Min(MinOf(row[..|row| - 1]), row[|row| - 1])
  }

  function MaxOf(row: seq<real>): real
    requires row != []
  {
    if |row| == 1 then row[0] else Max(MaxOf(row[..|row| - 1]), row[|row| - 1])
  }

  function Clamp(v: int, low: int, high: int): int {
    if v < low then low else if v > high then high else v
  }

  function Pow2(n: nat): (r: nat)
    ensures r >= 1
  {
    if n == 0 then 1 else 2 * Pow2(n - 1)
  }

  /** The widths for which the divisor `qmax` is a positive integer. */
  predicate Legal(sym: bool, bits: nat) {
    bits >= if sym then 2 else 1
  }

  function QMin(sym: bool, bits: nat): int
    requires Legal(sym, bits)
  {
    if sym then -(Pow2(bits - 1) as int) else 0
  }

  function QMax(sym: bool, bits: nat): (r: int)
    requires Legal(sym, bits)
    ensures r >= 1
  {
    if sym then assert Pow2(bits - 1) == 2 * Pow2(bits - 2); Pow2(bits - 1) - 1
    else assert Pow2(bits) == 2 * Pow2(bits - 1); Pow2(bits) - 1
  }

  const SMALLEST_SCALE: real := 0.00001

  /** The distance the codes have to span. */
  function Span(row: seq<real>, sym: bool): real
    requires row != []
  {
    if sym then Max(Abs(MinOf(row)), Abs(MaxOf(row))) else MaxOf(row) - MinOf(row)
  }

  function Scale(row: seq<real>, sym: bool, bits: nat): (r: real)
    requires row != [] && Legal(sym, bits)
    ensures r >= SMALLEST_SCALE
  {
    Max(Span(row, sym) / QMax(sym, bits) as real, SMALLEST_SCALE)
  }

  function ZeroPoint(row: seq<real>, sym: bool, bits: nat): int
    requires row != [] && Legal(sym, bits)
  {
    if sym then 0 else -Round(MinOf(row) / Scale(row, sym, bits))
  }

  /** The code of one element under given parameters. */
  function Encode(x: real, scale: real, zeroPoint: int, sym: bool, bits: nat): int
    requires scale > 0.0 && Legal(sym, bits)
  {
    Clamp(Round(x / scale + zeroPoint as real), QMin(sym, bits), QMax(sym, bits))
  }

  /** The element a code stands for. */
  function Decode(code: int, scale: real, zeroPoint: int): real {
    (code - zeroPoint) as real * scale
  }

  function QuantiseRow(row: seq<real>, sym: bool, bits: nat): QuantRow
    requires row != [] && Legal(sym, bits)
  {
    var scale := Scale(row, sym, bits);
    var zeroPoint := ZeroPoint(row, sym, bits);
    QuantRow(seq(|row|, i requires 0 <= i < |row| => Encode(row[i], scale, zeroPoint, sym, bits)),
             scale, zeroPoint)
  }

  /** All rows; the minimum of a row without elements is an error. */
  function Quantise(rows: seq<seq<real>>, sym: bool, bits: nat): (r: Result<seq<QuantRow>, QuantError>)
    requires Legal(sym, bits)
    ensures r.Err? <==> [] in rows
    ensures r.Ok? ==> |r.value| == |rows|
    ensures r.Ok? ==> forall i | 0 <= i < |rows| :: rows[i] != [] && r.value[i] == QuantiseRow(rows[i], sym, bits)
  {
    if rows == [] then Ok([])
    else
      assert rows == rows[..|rows| - 1] + [rows[|rows| - 1]];
      match Quantise(rows[..|rows| - 1], sym, bits)
      case Err(e) => Err(e)
      case Ok(done) =>
        if rows[|rows| - 1] == [] then Err(EmptyRow)
        else Ok(done + [QuantiseRow(rows[|rows| - 1], sym, bits)])
  }

  // Rounding and extremes

  lemma RoundIsNear(x: real)
    ensures x - 0.5 <= Round(x) as real <= x + 0.5
  {
  }

  /** `Round` never exceeds `n` before the tie above it, and at that tie exactly when `n` is even. */
  lemma RoundAtMostIff(x: real, n: int)
    ensures Round(x) <= n <==> x < n as real + 0.5 || (x == n as real + 0.5 && n % 2 == 0)
  {
    if x.Floor < n {
      assert x < n as real;
    } else if x.Floor > n {
      assert x >= (n + 1) as real;
    }
  }

  lemma RoundAtLeastIff(x: real, n: int)
    ensures Round(x) >= n <==> x > n as real - 0.5 || (x == n as real - 0.5 && n % 2 == 0)
  {
    hide Round;
    RoundAtMostIff(x, n - 1);
  }

  lemma RoundIsMonotone(x: real, y: real)
    requires x <= y
    ensures Round(x) <= Round(y)
  {
    RoundAtMostIff(y, Round(y));
    RoundAtMostIff(x, Round(y));
  }

  lemma RoundOfInteger(n: int)
    ensures Round(n as real) == n
  {
  }

  lemma {:induction false} ExtremesAreElements(row: seq<real>)
    requires row != []
    ensures MinOf(row) in row && MaxOf(row) in row
  {
    if |row| > 1 {
      ExtremesAreElements(row[..|row| - 1]);
    }
  }

  lemma {:induction false} ExtremesBound(row: seq<real>, i: nat)
    requires i < |row|
    ensures MinOf(row) <= row[i] <= MaxOf(row)
  {
    if |row| > 1 {
      ExtremesBound(row[..|row| - 1], if i < |row| - 1 then i else 0);
    }
  }

  // Small facts about division by a positive number

  lemma DivideSub(a: real, b: real, s: real)
    requires s > 0.0
    ensures a / s - b / s == (a - b) / s
  {
  }

  lemma DivideMono(a: real, b: real, s: real)
    requires s > 0.0 && a <= b
    ensures a / s <= b / s
  {
    DivideSub(b, a, s);
  }

  lemma DivideBack(a: real, s: real)
    requires s > 0.0
    ensures (a / s) * s == a
  {
  }

  lemma MultiplyBack(a: real, s: real)
    requires s > 0.0
    ensures (a * s) / s == a
  {
  }

  lemma ScaleMono(a: real, b: real, s: real)
    requires s > 0.0 && a <= b
    ensures a * s <= b * s
  {
  }

  /** A span divided by a scale no smaller than span/q is at most q. */
  lemma QuotientBound(span: real, q: real, s: real)
    requires q > 0.0 && s > 0.0 && s >= span / q
    ensures span / s <= q
  {
    DivideBack(span, q);
    ScaleMono(span / q, s, q);
    DivideMono(span, s * q, s);
    assert (s * q) / s == q;
  }

  // Main results

  lemma QuotientWithin(x: real, span: real, q: real, s: real)
    requires q > 0.0 && s > 0.0 && s >= span / q && -span <= x <= span
    ensures -q <= x / s <= q
  {
    QuotientBound(span, q, s);
    DivideMono(x, span, s);
    DivideMono(-x, span, s);
    assert (-x) / s == -(x / s);
  }

  lemma QuotientBetween(x: real, low: real, high: real, q: real, s: real)
    requires q > 0.0 && s > 0.0 && s >= (high - low) / q && low <= x <= high
    ensures low / s <= x / s <= low / s + q
  {
    QuotientBound(high - low, q, s);
    DivideMono(x, high, s);
    DivideMono(low, x, s);
    DivideSub(high, low, s);
  }

  lemma HalfOf(d: real, s: real)
    requires s > 0.0 && -0.5 <= d <= 0.5
    ensures -(s * 0.5) <= d * s <= s * 0.5
  {
    ScaleMono(d, 0.5, s);
    ScaleMono(-0.5, d, s);
  }

  lemma ErrorWithinHalf(x: real, k: real, s: real)
    requires s > 0.0 && x / s - 0.5 <= k <= x / s + 0.5
    ensures -(s * 0.5) <= k * s - x <= s * 0.5
  {
    var u := x / s;
    var d := k - u;
    calc {
      d * s;
      k * s - u * s;
      { DivideBack(x, s); }
      k * s - x;
    }
    HalfOf(d, s);
  }

  lemma ScaleCoversSpan(row: seq<real>, sym: bool, bits: nat)
    requires row != [] && Legal(sym, bits)
    ensures Scale(row, sym, bits) >= Span(row, sym) / QMax(sym, bits) as real
  {
    hide QMax, Span, MinOf, MaxOf;
  }

  /** Every element lies at most half a step outside the code range, before clamping. */
  lemma PositionInRange(row: seq<real>, sym: bool, bits: nat, i: nat)
    requires i < |row| && Legal(sym, bits)
    ensures QMin(sym, bits) as real - 0.5
            <= row[i] / Scale(row, sym, bits) + ZeroPoint(row, sym, bits) as real
            <= QMax(sym, bits) as real + 0.5
  {
    hide Scale, MinOf, MaxOf, Round, Pow2;
    var s := Scale(row, sym, bits);
    var q := QMax(sym, bits);
    ExtremesBound(row, i);
    ScaleCoversSpan(row, sym, bits);
    if sym {
      QuotientWithin(row[i], Span(row, sym), q as real, s);
    } else {
      RoundIsNear(MinOf(row) / s);
      QuotientBetween(row[i], MinOf(row), MaxOf(row), q as real, s);
    }
  }

  lemma ClampKeepsNear(v: real, low: int, high: int)
    requires low <= high && low as real - 0.5 <= v <= high as real + 0.5
    ensures v - 0.5 <= Clamp(Round(v), low, high) as real <= v + 0.5
  {
    RoundIsNear(v);
  }

  lemma RangeIsNotEmpty(sym: bool, bits: nat)
    requires Legal(sym, bits)
    ensures QMin(sym, bits) <= 0 < QMax(sym, bits)
  {
  }

  /** Codes stay in range, and decoding gives every element back within half a scale. */
  lemma DecodeWithinHalfScale(row: seq<real>, sym: bool, bits: nat, i: nat)
    requires i < |row| && Legal(sym, bits)
    ensures var r := QuantiseRow(row, sym, bits);
            && |r.codes| == |row|
            && QMin(sym, bits) <= r.codes[i] <= QMax(sym, bits)
            && Abs(Decode(r.codes[i], r.scale, r.zeroPoint) - row[i]) <= r.scale * 0.5
  {
    hide Scale, ZeroPoint, Round, QMin, QMax, Abs, Decode;
    var r := QuantiseRow(row, sym, bits);
    RangeIsNotEmpty(sym, bits);
    var v := row[i] / r.scale + r.zeroPoint as real;
    PositionInRange(row, sym, bits, i);
    ClampKeepsNear(v, QMin(sym, bits), QMax(sym, bits));
    DecodedError(row[i], r.codes[i], r.scale, r.zeroPoint);
  }

  /** The bound for a whole matrix. */
  lemma QuantiseWithinHalfScale(rows: seq<seq<real>>, sym: bool, bits: nat, i: nat, j: nat)
    requires Legal(sym, bits) && [] !in rows && i < |rows| && j < |rows[i]|
    ensures var r := Quantise(rows, sym, bits);
            && r.Ok?
            && |r.value| == |rows| && |r.value[i].codes| == |rows[i]|
            && Abs(Decode(r.value[i].codes[j], r.value[i].scale, r.value[i].zeroPoint) - rows[i][j])
               <= r.value[i].scale * 0.5
  {
    DecodeWithinHalfScale(rows[i], sym, bits, j);
  }

  lemma DecodedPosition(code: int, scale: real, zeroPoint: int)
    requires scale > 0.0
    ensures Decode(code, scale, zeroPoint) / scale == (code - zeroPoint) as real
  {
    var k := (code - zeroPoint) as real;
    MultiplyBack(k, scale);
  }

  lemma DecodedError(x: real, code: int, scale: real, zeroPoint: int)
    requires scale > 0.0
    requires x / scale + zeroPoint as real - 0.5 <= code as real <= x / scale + zeroPoint as real + 0.5
    ensures Abs(Decode(code, scale, zeroPoint) - x) <= scale * 0.5
  {
    var k := (code - zeroPoint) as real;
    ErrorWithinHalf(x, k, scale);
    var y := Decode(code, scale, zeroPoint);
    assert y == k * scale;
    assert -(scale * 0.5) <= y - x <= scale * 0.5;
  }

  /** Encoding a decoded code gives the code back: every code in range is its own fixed point. */
  lemma CodeRoundTrip(code: int, scale: real, zeroPoint: int, sym: bool, bits: nat)
    requires scale > 0.0 && Legal(sym, bits) && QMin(sym, bits) <= code <= QMax(sym, bits)
    ensures Encode(Decode(code, scale, zeroPoint), scale, zeroPoint, sym, bits) == code
  {
    hide QMin, QMax, Decode;
    DecodedPosition(code, scale, zeroPoint);
    RoundOfInteger(code);
    assert Decode(code, scale, zeroPoint) / scale + zeroPoint as real == code as real;
  }

  /** Quantising keeps the order of a row's elements. */
  lemma CodesKeepOrder(row: seq<real>, sym: bool, bits: nat, i: nat, j: nat)
    requires i < |row| && j < |row| && row[i] <= row[j] && Legal(sym, bits)
    ensures var codes := QuantiseRow(row, sym, bits).codes; codes[i] <= codes[j]
  {
    hide Round, Scale, ZeroPoint, QMin, QMax;
    var s, z := Scale(row, sym, bits), ZeroPoint(row, sym, bits);
    RangeIsNotEmpty(sym, bits);
    DivideMono(row[i], row[j], s);
    RoundIsMonotone(row[i] / s + z as real, row[j] / s + z as real);
  }

  /** A zero in the row comes back as exactly zero, which is what the rounded zero point is for. */
  lemma ZeroIsExact(row: seq<real>, sym: bool, bits: nat, i: nat)
    requires i < |row| && row[i] == 0.0 && Legal(sym, bits)
    ensures var r := QuantiseRow(row, sym, bits);
            Decode(r.codes[i], r.scale, r.zeroPoint) == 0.0
  {
    var r := QuantiseRow(row, sym, bits);
    PositionInRange(row, sym, bits, i);
    assert row[i] / r.scale == 0.0;
    assert r.codes[i] == Clamp(r.zeroPoint, QMin(sym, bits), QMax(sym, bits));
    assert r.codes[i] == r.zeroPoint;
  }

  // The choice of range and scale

  /** The codes use the full range of `bits` bits, half of it below zero in symmetric mode. */
  lemma CodeRangeIsFull(sym: bool, bits: nat)
    requires Legal(sym, bits)
    ensures QMax(sym, bits) - QMin(sym, bits) + 1 == Pow2(bits)
    ensures if sym then QMin(sym, bits) == -QMax(sym, bits) - 1 else QMin(sym, bits) == 0
  {
  }

  /** At scale `s` the range is wide enough for every element, or for the distance between any two. */
  predicate Covers(row: seq<real>, sym: bool, bits: nat, s: real)
    requires Legal(sym, bits)
  {
    var width := QMax(sym, bits) as real * s;
    if sym then forall i | 0 <= i < |row| :: -width <= row[i] <= width
    else forall i, j | 0 <= i < |row| && 0 <= j < |row| :: row[j] - row[i] <= width
  }

  lemma SpanIsReached(row: seq<real>, sym: bool)
    requires row != []
    ensures sym ==> exists i | 0 <= i < |row| :: row[i] == Span(row, sym) || row[i] == -Span(row, sym)
    ensures sym ==> forall i | 0 <= i < |row| :: -Span(row, sym) <= row[i] <= Span(row, sym)
    ensures !sym ==> exists i, j | 0 <= i < |row| && 0 <= j < |row| :: row[j] - row[i] == Span(row, sym)
    ensures !sym ==> forall i, j | 0 <= i < |row| && 0 <= j < |row| :: row[j] - row[i] <= Span(row, sym)
  {
    ExtremesAreElements(row);
    forall i | 0 <= i < |row| { ExtremesBound(row, i); }
    var low :| 0 <= low < |row| && row[low] == MinOf(row);
    var high :| 0 <= high < |row| && row[high] == MaxOf(row);
    hide MinOf, MaxOf;
    if sym {
      assert row[low] == Span(row, sym) || row[low] == -Span(row, sym) || row[high] == Span(row, sym);
    } else {
      assert row[high] - row[low] == Span(row, sym);
    }
  }

  lemma CoversIff(row: seq<real>, sym: bool, bits: nat, s: real)
    requires row != [] && Legal(sym, bits)
    ensures Covers(row, sym, bits, s) <==> Span(row, sym) <= QMax(sym, bits) as real * s
  {
    SpanIsReached(row, sym);
    hide Span, QMax;
  }

  lemma QuotientAtMostIff(span: real, q: real, s: real)
    requires q > 0.0
    ensures span / q <= s <==> span <= q * s
  {
    DivideBack(span, q);
    if span / q <= s { ScaleMono(span / q, s, q); }
    if span <= q * s {
      DivideMono(span, q * s, q);
      MultiplyBack(s, q);
      assert q * s == s * q;
    }
  }

  /** The scale is the least one, from the smallest allowed on, at which the range covers the row. */
  lemma ScaleIsLeast(row: seq<real>, sym: bool, bits: nat, s: real)
    requires row != [] && Legal(sym, bits)
    ensures Covers(row, sym, bits, Scale(row, sym, bits))
    ensures s >= SMALLEST_SCALE && Covers(row, sym, bits, s) ==> Scale(row, sym, bits) <= s
  {
    hide Span, QMax, Covers;
    var q, least := QMax(sym, bits) as real, Scale(row, sym, bits);
    assert least == Max(Span(row, sym) / q, SMALLEST_SCALE);
    hide Scale;
    CoversIff(row, sym, bits, least);
    CoversIff(row, sym, bits, s);
    QuotientAtMostIff(Span(row, sym), q, least);
    QuotientAtMostIff(Span(row, sym), q, s);
  }

  // The widths of the stored integers

  predicate FitsCodeType(code: int, sym: bool) {
    if sym then -128 <= code <= 127 else 0 <= code <= 255
  }

  lemma {:induction false} Pow2Mono(a: nat, b: nat)
    requires a <= b
    ensures Pow2(a) <= Pow2(b)
  {
    if a < b { Pow2Mono(a, b - 1); }
  }

  lemma Pow2Values()
    ensures Pow2(7) == 128 && Pow2(8) == 256 && Pow2(9) == 512
  {
    assert Pow2(4) == 16;
  }

  /** A row whose largest code is `qmax` exactly. */
  function WidestRow(sym: bool, bits: nat): seq<real>
    requires Legal(sym, bits)
  {
    [0.0, QMax(sym, bits) as real]
  }

  lemma WidestRowReachesTop(sym: bool, bits: nat)
    requires Legal(sym, bits)
    ensures QuantiseRow(WidestRow(sym, bits), sym, bits).codes[1] == QMax(sym, bits)
  {
    var row := WidestRow(sym, bits);
    var q := QMax(sym, bits);
    assert row[..1] == [0.0];
    assert MinOf(row) == 0.0 && MaxOf(row) == q as real;
    hide MinOf, MaxOf, QMin, QMax, Pow2, Round;
    MultiplyBack(1.0, q as real);
    assert Scale(row, sym, bits) == 1.0;
    RoundOfInteger(0);
    RoundOfInteger(q);
    RangeIsNotEmpty(sym, bits);
  }

  /** All codes of all rows fit the 8-bit type they are cast to if and only if `bits` is at most 8. */
  lemma CodesFitIff(sym: bool, bits: nat)
    requires Legal(sym, bits)
    ensures bits <= 8 <==>
            forall row: seq<real>, i: nat | i < |row| :: FitsCodeType(QuantiseRow(row, sym, bits).codes[i], sym)
  {
    Pow2Values();
    if bits <= 8 {
      forall row: seq<real>, i: nat | i < |row|
        ensures FitsCodeType(QuantiseRow(row, sym, bits).codes[i], sym)
      {
        DecodeWithinHalfScale(row, sym, bits, i);
        Pow2Mono(bits, 8);
        Pow2Mono(bits - 1, 7);
      }
    } else {
      WidestRowReachesTop(sym, bits);
      Pow2Mono(9, bits);
      Pow2Mono(8, bits - 1);
      assert !FitsCodeType(QuantiseRow(WidestRow(sym, bits), sym, bits).codes[1], sym);
    }
  }

  const INT32_TOP: int := 0x7FFF_FFFF

  /** Both the rounded quotient and its negation are 32-bit integers. */
  predicate ZeroPointFits(row: seq<real>, bits: nat)
    requires row != [] && Legal(false, bits)
  {
    -INT32_TOP <= ZeroPoint(row, false, bits) <= INT32_TOP
  }

  /** The zero point survives its 32-bit cast exactly when the row is not too far from zero for its scale. */
  lemma ZeroPointFitsIff(row: seq<real>, bits: nat)
    requires row != [] && Legal(false, bits)
    ensures ZeroPointFits(row, bits)
            <==> Abs(MinOf(row)) < (INT32_TOP as real + 0.5) * Scale(row, false, bits)
  {
    hide Round, Scale, MinOf;
    var s := Scale(row, false, bits);
    var low := MinOf(row);
    RoundAtMostIff(low / s, INT32_TOP);
    RoundAtLeastIff(low / s, -INT32_TOP);
    QuotientBelowIff(low, INT32_TOP as real + 0.5, s);
  }

  lemma QuotientBelowIff(a: real, limit: real, s: real)
    requires s > 0.0
    ensures -limit < a / s < limit <==> Abs(a) < limit * s
  {
    var y := a / s;
    DivideBack(a, s);
    StrictScale(y, limit, s);
    StrictScale(-limit, y, s);
    assert (-limit) * s == -(limit * s);
  }

  lemma StrictScale(a: real, b: real, s: real)
    requires s > 0.0
    ensures a < b <==> a * s < b * s
  {
    assert (b - a) * s == b * s - a * s;
  }

  /** A constant row of 30000 already has a zero point too large for 32 bits. */
  lemma ConstantRowOverflowsZeroPoint(bits: nat)
    requires Legal(false, bits)
    ensures !ZeroPointFits([30000.0], bits)
  {
    var row := [30000.0];
    assert Span(row, false) == 0.0;
    assert Scale(row, false, bits) == SMALLEST_SCALE;
    ZeroPointFitsIff(row, bits);
  }
}
