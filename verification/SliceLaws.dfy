/**
 What slices of lists select, and what the next position of a container holds: the meaning of the two notions by
 which the container is specified, said with plain indexing.
 */
module SliceLaws {
  import opened Arithmetic
  import opened Outcomes
  import opened FlatLogprobs

  lemma CountUpIff(span: nat, step: nat, k: nat)
    requires step > 0
    ensures k < CountUp(span, step) <==> k * step < span
  {
    if k < CountUp(span, step) {
      CountUpBound(span, step, k);
    } else {
      var s := span + step - 1;
      assert s == s / step * step + s % step;
      MulMono(s / step, k, step);
    }
  }

  /** For bounds inside the list and a positive step: every `step`-th element from `a` on, below `b`. */
  lemma SliceUpwards<T>(xs: seq<T>, a: int, b: int, step: int, k: nat)
    requires 0 <= a <= |xs| && 0 <= b <= |xs| && step > 0
    ensures var r := SliceOf(xs, Slice(Some(a), Some(b), Some(step)));
            && (k < |r| <==> a + k * step < b)
            && (k < |r| ==> r[k] == xs[a + k * step])
  {
    var s := Slice(Some(a), Some(b), Some(step));
    assert s.First(|xs|) == a && s.Last(|xs|) == b;
    if a < b {
      CountUpIff(b - a, step, k);
    } else {
      MulMono(0, k, step);
    }
  }

  /** For bounds inside the list and a negative step: every `step`-th element from `a` downwards, above `b`, or down
      to the first element when there is no second bound. */
  lemma SliceDownwards<T>(xs: seq<T>, a: int, b: Option<int>, step: int, k: nat)
    requires 0 <= a < |xs| && (b.Some? ==> 0 <= b.value < |xs|) && step < 0
    ensures var r := SliceOf(xs, Slice(Some(a), b, Some(step)));
            && (k < |r| <==> a + k * step > if b.Some? then b.value else -1)
            && (k < |r| ==> r[k] == xs[a + k * step])
  {
    var s := Slice(Some(a), b, Some(step));
    var last := if b.Some? then b.value else -1;
    assert s.First(|xs|) == a && s.Last(|xs|) == last;
    assert k * step == -(k * -step);
    if last < a {
      CountUpIff(a - last, -step, k);
    } else {
      MulMono(0, k, -step);
    }
  }

  /** `xs[a:b]` */
  lemma PlainSlice<T>(xs: seq<T>, a: int, b: int)
    requires 0 <= a <= b <= |xs|
    ensures SliceOf(xs, Slice(Some(a), Some(b), None)) == xs[a..b]
  {
    var r := SliceOf(xs, Slice(Some(a), Some(b), None));
    var s := Slice(Some(a), Some(b), None);
    assert s.First(|xs|) == a && s.Last(|xs|) == b && s.Count(|xs|) == b - a;
    forall k | 0 <= k < b - a
      ensures r[k] == xs[a..b][k]
    {
    }
  }

  /** `xs[:]` is the list, and `xs[::-1]` the list backwards. */
  lemma WholeSlice<T>(xs: seq<T>)
    ensures SliceOf(xs, Slice(None, None, None)) == xs
    ensures var r := SliceOf(xs, Slice(None, None, Some(-1)));
            |r| == |xs| && forall k | 0 <= k < |xs| :: r[k] == xs[|xs| - 1 - k]
  {
    assert Slice(None, None, None).Count(|xs|) == |xs|;
    assert Slice(None, None, Some(-1)).Count(|xs|) == |xs|;
  }

  /** Two slices that select the same from every list of this length. */
  predicate SameSlice(s: Slice, t: Slice, n: nat) {
    s.Step() == t.Step() && s.First(n) == t.First(n) && s.Last(n) == t.Last(n)
  }

  lemma SameSliceSelectsTheSame<T>(xs: seq<T>, s: Slice, t: Slice)
    requires SameSlice(s, t, |xs|) && s.Step() != 0
    ensures SliceOf(xs, s) == SliceOf(xs, t)
  {
    var n := |xs|;
    assert s.Count(n) == t.Count(n);
    forall k | 0 <= k < s.Count(n)
      ensures SliceOf(xs, s)[k] == SliceOf(xs, t)[k]
    {
      assert s.Index(n, k) == t.Index(n, k);
    }
  }

  /** A negative bound counts from the end. */
  lemma NegativeBounds<T>(xs: seq<T>, a: int, other: Option<int>, step: Option<int>)
    requires -|xs| <= a < 0 && step != Some(0)
    ensures SliceOf(xs, Slice(Some(a), other, step)) == SliceOf(xs, Slice(Some(a + |xs|), other, step))
    ensures SliceOf(xs, Slice(other, Some(a), step)) == SliceOf(xs, Slice(other, Some(a + |xs|), step))
  {
    SameSliceSelectsTheSame(xs, Slice(Some(a), other, step), Slice(Some(a + |xs|), other, step));
    SameSliceSelectsTheSame(xs, Slice(other, Some(a), step), Slice(other, Some(a + |xs|), step));
  }

  /** A bound beyond either end is as good as none, in the direction of the step. */
  lemma FarBounds<T>(xs: seq<T>, low: int, high: int, other: Option<int>, step: Option<int>)
    requires low < -|xs| && high >= |xs| && step != Some(0)
    ensures var up := step.None? || step.value > 0;
            && (up ==> SliceOf(xs, Slice(Some(low), other, step)) == SliceOf(xs, Slice(None, other, step)))
            && (up ==> SliceOf(xs, Slice(other, Some(high), step)) == SliceOf(xs, Slice(other, None, step)))
            && (!up ==> SliceOf(xs, Slice(Some(high), other, step)) == SliceOf(xs, Slice(None, other, step)))
            && (!up ==> SliceOf(xs, Slice(other, Some(low), step)) == SliceOf(xs, Slice(other, None, step)))
  {
    if step.None? || step.value > 0 {
      SameSliceSelectsTheSame(xs, Slice(Some(low), other, step), Slice(None, other, step));
      SameSliceSelectsTheSame(xs, Slice(other, Some(high), step), Slice(other, None, step));
    } else {
      SameSliceSelectsTheSame(xs, Slice(Some(high), other, step), Slice(None, other, step));
      SameSliceSelectsTheSame(xs, Slice(other, Some(low), step), Slice(other, None, step));
    }
  }

  /** Starting beyond the far end selects nothing. */
  lemma FarStarts<T>(xs: seq<T>, low: int, high: int, other: Option<int>, step: Option<int>)
    requires low < -|xs| && high >= |xs| && step != Some(0)
    ensures var start := if step.None? || step.value > 0 then high else low;
            SliceOf(xs, Slice(Some(start), other, step)) == []
  {
  }

  // What the next position holds

  /** Entry `i` of the zipped lists, if all four lists are that long; there is one rank more than asked for. */
  predicate InNext(tokens: seq<int>, values: seq<real>, decoded: seq<Option<string>>, num: int, i: int) {
    && 0 <= i < |tokens| && i < |values| && i < |decoded|
    && (i == 0 || i <= num || num == -1)
  }

  /** The last entry for a token gives its value: the sampled token's rank is the given one, and the others are ranked
      by their place. */
  lemma NextPositionHolds(
      tokens: seq<int>, values: seq<real>, decoded: seq<Option<string>>, rank: int, num: int, i: nat)
    requires InNext(tokens, values, decoded, num, i)
    requires forall j | i < j && InNext(tokens, values, decoded, num, j) :: tokens[j] != tokens[i]
    ensures Lookup(NextPosition(tokens, values, decoded, rank, num), tokens[i]) ==
            Some(Logprob(values[i], Some(if i == 0 then rank else i), decoded[i]))
  {
    var ranks := NextRanks(rank, if num == -1 then |values| else num);
    var n := Shortest(|tokens|, |values|, |ranks|, |decoded|);
    var pairs := Zip(tokens, values, ranks, decoded, n);
    assert i < n;
    forall j | i < j < |pairs|
      ensures pairs[j].0 != pairs[i].0
    {
      assert InNext(tokens, values, decoded, num, j);
    }
    LastDuplicateWins(pairs, i);
  }

  lemma {:induction false} KeysOfDictOf(pairs: seq<(int, Logprob)>, t: int)
    ensures Lookup(DictOf(pairs), t).Some? <==> exists i | 0 <= i < |pairs| :: pairs[i].0 == t
  {
    if pairs == [] { assert Lookup([], t).None?; }
    if pairs != [] {
      hide Lookup, Insert;
      var n := |pairs| - 1;
      KeysOfDictOf(pairs[..n], t);
      assert forall i | 0 <= i < n :: pairs[..n][i] == pairs[i];
      LookupInsert(DictOf(pairs[..n]), pairs[n].0, pairs[n].1, t);
    }
  }

  /** And it holds no other tokens. */
  lemma NextPositionHoldsOnly(tokens: seq<int>, values: seq<real>, decoded: seq<Option<string>>, rank: int, num: int, t: int)
    ensures Lookup(NextPosition(tokens, values, decoded, rank, num), t).Some?
            <==> exists i :: InNext(tokens, values, decoded, num, i) && tokens[i] == t
  {
    var ranks := NextRanks(rank, if num == -1 then |values| else num);
    var n := Shortest(|tokens|, |values|, |ranks|, |decoded|);
    var pairs := Zip(tokens, values, ranks, decoded, n);
    KeysOfDictOf(pairs, t);
    forall i
      ensures InNext(tokens, values, decoded, num, i) <==> 0 <= i < n
    {
    }
    if i :| InNext(tokens, values, decoded, num, i) && tokens[i] == t { assert pairs[i].0 == t; }
    if i :| 0 <= i < |pairs| && pairs[i].0 == t { assert InNext(tokens, values, decoded, num, i); }
  }

  /** `append_fast` keeps the entries that all four lists have: the last one for a token wins. */
  lemma ZippedHolds(
      tokens: seq<int>, values: seq<real>, ranks: seq<Option<int>>, decoded: seq<Option<string>>, i: nat)
    requires i < |tokens| && i < |values| && i < |ranks| && i < |decoded|
    requires forall j | i < j < |tokens| && j < |values| && j < |ranks| && j < |decoded| :: tokens[j] != tokens[i]
    ensures Lookup(DictOf(Zip(tokens, values, ranks, decoded, Shortest(|tokens|, |values|, |ranks|, |decoded|))), tokens[i]) ==
            Some(Logprob(values[i], ranks[i], decoded[i]))
  {
    LastDuplicateWins(Zip(tokens, values, ranks, decoded, Shortest(|tokens|, |values|, |ranks|, |decoded|)), i);
  }
}
