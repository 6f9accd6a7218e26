/**
 The two-pointer search for the busiest stretch of a utilisation trace.
 */
module UtilizationWindow {
  import opened Outcomes

  const SPAN := 1000

  datatype WindowError = IndexError | ZeroDivisionError

  predicate Sorted(times: seq<int>) {
    forall i, j | 0 <= i <= j < |times| :: times[i] <= times[j]
  }

  function SumTo(totals: seq<int>, n: nat): int
    requires n <= |totals|
  {
    if n == 0 then 0 else SumTo(totals, n - 1) + totals[n - 1]
  }

  /** `s .. e` is the longest stretch from `s` on that spans at most `SPAN`. */
  predicate IsWindow(times: seq<int>, s: int, e: int) {
    && 0 <= s < e <= |times|
    && (forall i | s <= i < e :: times[i] - times[s] <= SPAN)
    && (e < |times| ==> times[e] - times[s] > SPAN)
  }

  function Average(totals: seq<int>, s: int, e: int): real
    requires 0 <= s <= |totals| && 0 <= e <= |totals| && s != e
  {
    (SumTo(totals, e) - SumTo(totals, s)) as real / (e - s) as real
  }

  /** The earliest window of maximum average among those starting before `limit`. */
  ghost predicate IsBest(times: seq<int>, totals: seq<int>, limit: int, s: int, e: int)
    requires |times| == |totals|
  {
    && s < limit && IsWindow(times, s, e)
    && forall s', e' | 0 <= s' < limit && IsWindow(times, s', e') ::
         Average(totals, s', e') <= Average(totals, s, e) && (s' < s ==> Average(totals, s', e') < Average(totals, s, e))
  }

  lemma {:induction false} SumIsMonotone(totals: seq<int>, i: nat, j: nat)
    requires i <= j <= |totals| && forall k | 0 <= k < |totals| :: totals[k] >= 0
    ensures SumTo(totals, i) <= SumTo(totals, j)
  {
    if i < j { SumIsMonotone(totals, i, j - 1); }
  }

  lemma AverageIsNonNegative(totals: seq<int>, s: nat, e: nat)
    requires s < e <= |totals| && forall k | 0 <= k < |totals| :: totals[k] >= 0
    ensures Average(totals, s, e) >= 0.0
  {
    SumIsMonotone(totals, s, e);
  }

  /** A start has only one window. */
  lemma WindowIsUnique(times: seq<int>, s: int, e: int, e': int)
    requires IsWindow(times, s, e) && IsWindow(times, s, e')
    ensures e == e'
  {
  }

  method PrefixSums(totals: seq<int>) returns (prefix: seq<int>)
    ensures |prefix| == |totals| + 1 && forall i | 0 <= i <= |totals| :: prefix[i] == SumTo(totals, i)
  {
    prefix := [0];
    for i := 0 to |totals|
      invariant |prefix| == i + 1 && forall j | 0 <= j <= i :: prefix[j] == SumTo(totals, j)
    {
      prefix := prefix + [prefix[i] + totals[i]];
    }
  }

  /** The advance of the right pointer for one start. */
  method Advance(times: seq<int>, start: nat, from: nat) returns (end: nat)
    requires start < |times| && from <= |times|
    ensures from <= end <= |times| && (forall i | from <= i < end :: times[i] - times[start] <= SPAN)
    ensures end < |times| ==> times[end] - times[start] > SPAN
  {
    end := from;
    while end < |times| && times[end] - times[start] <= SPAN
      invariant from <= end <= |times| && forall i | from <= i < end :: times[i] - times[start] <= SPAN
    {
      end := end + 1;
    }
  }

  /** The average between two positions, from the prefix sums. */
  method AverageFrom(totals: seq<int>, prefix: seq<int>, start: nat, end: nat) returns (average: real)
    requires start <= |totals| && end <= |totals| && start != end
    requires |prefix| == |totals| + 1 && forall i | 0 <= i <= |totals| :: prefix[i] == SumTo(totals, i)
    ensures average == Average(totals, start, end)
  {
    average := (prefix[end] - prefix[start]) as real / (end - start) as real;
  }

  predicate OrdinaryTrace(times: seq<int>, totals: seq<int>) {
    Sorted(times) && forall k | 0 <= k < |totals| :: totals[k] >= 0
  }

  /** What the right pointer has passed is near enough to `start`. */
  predicate Within(times: seq<int>, start: int, end: int) {
    0 <= start <= end <= |times| && forall i | start <= i < end :: times[i] - times[start] <= SPAN
  }

  lemma NothingPassed(times: seq<int>)
    ensures Within(times, 0, 0)
  {
  }

  /** The pointer stops at the end of the window, and has not passed anything too far from the next start. */
  lemma WindowFound(times: seq<int>, start: nat, from: nat, end: nat)
    requires Sorted(times) && start < |times| && Within(times, start, from) && from <= end <= |times|
    requires forall i | from <= i < end :: times[i] - times[start] <= SPAN
    requires end < |times| ==> times[end] - times[start] > SPAN
    ensures IsWindow(times, start, end) && Within(times, start + 1, end)
  {
  }

  /** One start keeps the best window so far, or becomes it. */
  lemma BestStep(times: seq<int>, totals: seq<int>, start: nat, end: nat, s: int, e: int)
    requires |times| == |totals| && IsWindow(times, start, end)
    requires start > 0 ==> IsBest(times, totals, start, s, e)
    ensures start == 0 || Average(totals, start, end) > Average(totals, s, e) ==> IsBest(times, totals, start + 1, start, end)
    ensures start > 0 && Average(totals, start, end) <= Average(totals, s, e) ==> IsBest(times, totals, start + 1, s, e)
  {
    forall e' | IsWindow(times, start, e')
      ensures e' == end
    {
      WindowIsUnique(times, start, e', end);
    }
    hide IsWindow, Average;
  }

  /** For sorted times and non-negative totals: the latter half of everything when it all fits, otherwise
      the latter half of the earliest window of maximum average, without ever dividing by zero.  The right
      pointer moves at most once over the trace. */
  method FindWindow(times: seq<int>, totals: seq<int>)
      returns (r: Result<(int, int), WindowError>, ghost advances: nat)
    requires |times| == |totals|
    ensures times == [] ==> r == Err(IndexError)
    ensures times != [] && times[|times| - 1] - times[0] <= SPAN ==> r == Ok((|times| / 2, |times|))
    ensures times != [] && times[|times| - 1] - times[0] > SPAN && OrdinaryTrace(times, totals) ==>
              exists s, e :: IsBest(times, totals, |times|, s, e) && r == Ok(((s + e - 1) / 2, e))
    ensures advances <= |times|
  {
    hide Average, SumTo, Sorted, Within;
    advances := 0;
    if |times| == 0 { return Err(IndexError), 0; }
    if times[|times| - 1] - times[0] <= SPAN { return Ok((|times| / 2, |times|)), 0; }
    var prefix := PrefixSums(totals);
    var bestAverage, bestStart, bestEnd, end := -1.0, 0, |times| - 1, 0;
    NothingPassed(times);
    for start := 0 to |times|
      invariant 0 <= end <= |times| && advances == end
      invariant OrdinaryTrace(times, totals) ==>
        && Within(times, start, end)
        && (start == 0 ==> bestAverage == -1.0)
        && (start > 0 ==> IsBest(times, totals, start, bestStart, bestEnd + 1)
                          && bestAverage == Average(totals, bestStart, bestEnd + 1))
    {
      ghost var from := end;
      end := Advance(times, start, end);
      advances := advances + (end - from);
      if end == start { return Err(ZeroDivisionError), advances; }
      var average := AverageFrom(totals, prefix, start, end);
      if OrdinaryTrace(times, totals) {
        WindowFound(times, start, from, end);
        AverageIsNonNegative(totals, start, end);
        BestStep(times, totals, start, end, bestStart, bestEnd + 1);
      }
      if average > bestAverage {
        bestAverage, bestStart, bestEnd := average, start, end - 1;
      }
    }
    assert OrdinaryTrace(times, totals) ==> IsBest(times, totals, |times|, bestStart, bestEnd + 1);
    return Ok(((bestStart + bestEnd) / 2, bestEnd + 1)), advances;
  }

  lemma {:induction false} SumWithinBounds(totals: seq<int>, s: nat, e: nat, low: int, high: int)
    requires s <= e <= |totals| && forall k | s <= k < e :: low <= totals[k] <= high
    ensures low * (e - s) <= SumTo(totals, e) - SumTo(totals, s) <= high * (e - s)
  {
    if s < e {
      SumWithinBounds(totals, s, e - 1, low, high);
      assert low * (e - s) == low * (e - 1 - s) + low;
      assert high * (e - s) == high * (e - 1 - s) + high;
    }
  }

  /** The average of a stretch lies between any bounds on its totals; the rest of the trace does not matter. */
  lemma AverageWithinBounds(totals: seq<int>, s: nat, e: nat, low: int, high: int)
    requires s < e <= |totals| && forall k | s <= k < e :: low <= totals[k] <= high
    ensures low as real <= Average(totals, s, e) <= high as real
  {
    SumWithinBounds(totals, s, e, low, high);
    QuotientWithin(SumTo(totals, e) - SumTo(totals, s), e - s, low, high);
  }

  lemma QuotientWithin(sum: int, n: int, low: int, high: int)
    requires n > 0 && low * n <= sum <= high * n
    ensures low as real <= sum as real / n as real <= high as real
  {
    var d := n as real;
    QuotientTimes(sum as real, d);
    ProductAsReal(low, n);
    ProductAsReal(high, n);
    FactorsOrdered(low as real, sum as real / d, d);
    FactorsOrdered(sum as real / d, high as real, d);
  }

  lemma ProductAsReal(a: int, b: int)
    ensures (a * b) as real == a as real * b as real
  {
  }

  lemma FactorsOrdered(a: real, b: real, d: real)
    requires d > 0.0 && a * d <= b * d
    ensures a <= b
  {
    PositiveProduct(a - b, d);
    ProductOfDifference(a, b, d);
  }

  lemma PositiveProduct(a: real, b: real)
    requires b > 0.0
    ensures a > 0.0 ==> a * b > 0.0
  {
  }

  lemma ProductOfDifference(a: real, b: real, d: real)
    ensures (a - b) * d == a * d - b * d
  {
  }

  /** One stretch after another: the average of both, weighted by length. */
  lemma AverageOfTwo(totals: seq<int>, s: nat, m: nat, e: nat)
    requires s < m < e <= |totals|
    ensures Average(totals, s, e) * (e - s) as real ==
            Average(totals, s, m) * (m - s) as real + Average(totals, m, e) * (e - m) as real
  {
    hide Average, SumTo;
    AverageTimesLength(totals, s, e);
    AverageTimesLength(totals, s, m);
    AverageTimesLength(totals, m, e);
  }

  lemma AverageTimesLength(totals: seq<int>, s: nat, e: nat)
    requires s < e <= |totals|
    ensures Average(totals, s, e) * (e - s) as real == (SumTo(totals, e) - SumTo(totals, s)) as real
  {
    hide SumTo;
    QuotientTimes((SumTo(totals, e) - SumTo(totals, s)) as real, (e - s) as real);
  }

  lemma QuotientTimes(a: real, b: real)
    requires b > 0.0
    ensures a / b * b == a
  {
  }
}
