/**
 The flat log-probability container: parallel lists with start and end indices per position, which
 must behave like a list of dictionaries.
 */
module FlatLogprobs {
  import opened Arithmetic
  import opened Outcomes

  datatype Logprob = Logprob(logprob: real, rank: Option<int>, decoded: Option<string>)

  /** A dictionary as its items in insertion order. */
  type Dict = seq<(int, Logprob)>

  predicate IsDict(d: Dict) {
    forall i, j | 0 <= i < j < |d| :: d[i].0 != d[j].0
  }

  /** `d[k] = v`: an existing key keeps its place. */
  function Insert(d: Dict, k: int, v: Logprob): Dict {
    if d == [] then [(k, v)]
    else if d[0].0 == k then [(k, v)] + d[1..]
    else [d[0]] + Insert(d[1..], k, v)
  }

  /** The dictionary built by inserting the pairs one after the other. */
  function DictOf(pairs: seq<(int, Logprob)>): Dict {
    if pairs == [] then []
    else Insert(DictOf(pairs[..|pairs| - 1]), pairs[|pairs| - 1].0, pairs[|pairs| - 1].1)
  }

  function Lookup(d: Dict, k: int): Option<Logprob> {
    if d == [] then None else if d[0].0 == k then Some(d[0].1) else Lookup(d[1..], k)
  }

  /** The parallel lists. */
  datatype Flat = Flat(
    starts: seq<int>, ends: seq<int>,
    tokenIds: seq<int>, logprobs: seq<real>, ranks: seq<Option<int>>, decodedTokens: seq<Option<string>>)
  {
    predicate Parallel() {
      |starts| == |ends| && |tokenIds| == |logprobs| == |ranks| == |decodedTokens|
    }

    /** The ranges of the positions are ordered, do not overlap and lie inside the lists; gaps between
        them are allowed, as slices with a step leave them. */
    predicate Valid() {
      && Parallel()
      && (forall i | 0 <= i < |starts| :: 0 <= starts[i] <= ends[i] <= |logprobs|)
      && (forall i, j | 0 <= i < j < |starts| :: ends[i] <= starts[j])
    }

    function Entry(p: nat): (int, Logprob)
      requires Parallel() && p < |logprobs|
    {
      (tokenIds[p], Logprob(logprobs[p], ranks[p], decodedTokens[p]))
    }

    function Range(lo: nat, hi: nat): seq<(int, Logprob)>
      requires Parallel() && lo <= hi <= |logprobs|
    {
      seq(hi - lo, k requires 0 <= k < hi - lo => Entry(lo + k))
    }

    function Position(i: nat): Dict
      requires Valid() && i < |starts|
    {
      DictOf(Range(starts[i], ends[i]))
    }

    /** The list of dictionaries the container stands for. */
    function View(): seq<Dict>
      requires Valid()
    {
      seq(|starts|, i requires 0 <= i < |starts| => Position(i))
    }
  }

  const EMPTY := Flat([], [], [], [], [], [])

  /** Append one entry to the open last position. */
  function Push(f: Flat, t: int, l: Logprob): Flat {
    f.(tokenIds := f.tokenIds + [t], logprobs := f.logprobs + [l.logprob],
       ranks := f.ranks + [l.rank], decodedTokens := f.decodedTokens + [l.decoded])
  }

  function PushAll(f: Flat, pairs: seq<(int, Logprob)>, n: nat): Flat
    requires n <= |pairs|
  {
    if n == 0 then f else Push(PushAll(f, pairs, n - 1), pairs[n - 1].0, pairs[n - 1].1)
  }

  /** A new position holding the given pairs. */
  function AppendPairs(f: Flat, pairs: seq<(int, Logprob)>): Flat {
    var g := PushAll(f, pairs, |pairs|);
    g.(starts := g.starts + [|f.logprobs|], ends := g.ends + [|g.logprobs|])
  }

  // ---------------------------------------------------------------------------------------------
  // Dictionaries

  /** Insertion keeps all keys in place and adds a missing one at the end. */
  lemma {:induction false} InsertKeys(d: Dict, k: int, v: Logprob)
    ensures var r := Insert(d, k, v);
            && |d| <= |r| <= |d| + 1 && (forall i | 0 <= i < |d| :: r[i].0 == d[i].0)
            && (|r| == |d| + 1 ==> r[|d|].0 == k && forall i | 0 <= i < |d| :: d[i].0 != k)
  {
    if d != [] && d[0].0 != k {
      InsertKeys(d[1..], k, v);
    }
  }

  lemma {:induction false} DictOfIsDict(pairs: seq<(int, Logprob)>)
    ensures IsDict(DictOf(pairs))
  {
    if pairs != [] {
      var n := |pairs| - 1;
      DictOfIsDict(pairs[..n]);
      InsertKeys(DictOf(pairs[..n]), pairs[n].0, pairs[n].1);
    }
  }

  /** Inserting a new key appends it. */
  lemma {:induction false} InsertNew(d: Dict, k: int, v: Logprob)
    requires forall i | 0 <= i < |d| :: d[i].0 != k
    ensures Insert(d, k, v) == d + [(k, v)]
  {
    if d != [] {
      InsertNew(d[1..], k, v);
      assert d == [d[0]] + d[1..];
    }
  }

  /** Unpacking a dictionary into pairs and building it again changes nothing. */
  lemma {:induction false} DictOfDict(d: Dict)
    requires IsDict(d)
    ensures DictOf(d) == d
  {
    if d != [] {
      var front := d[..|d| - 1];
      DictOfDict(front);
      InsertNew(front, d[|d| - 1].0, d[|d| - 1].1);
    }
  }

  lemma {:induction false} LookupInsert(d: Dict, k: int, v: Logprob, x: int)
    ensures Lookup(Insert(d, k, v), x) == if x == k then Some(v) else Lookup(d, x)
  {
    if d != [] && d[0].0 != k {
      LookupInsert(d[1..], k, v, x);
      assert Insert(d, k, v)[1..] == Insert(d[1..], k, v);
    } else if d != [] {
      assert Insert(d, k, v)[1..] == d[1..];
    }
  }

  /** Of several pairs with one key the last wins. */
  lemma {:induction false} LastDuplicateWins(pairs: seq<(int, Logprob)>, i: nat)
    requires i < |pairs| && forall j | i < j < |pairs| :: pairs[j].0 != pairs[i].0
    ensures Lookup(DictOf(pairs), pairs[i].0) == Some(pairs[i].1)
  {
    var n := |pairs| - 1;
    LookupInsert(DictOf(pairs[..n]), pairs[n].0, pairs[n].1, pairs[i].0);
    if i < n { LastDuplicateWins(pairs[..n], i); }
  }

  // ---------------------------------------------------------------------------------------------
  // Appending

  lemma {:induction false} PushAllEffect(f: Flat, pairs: seq<(int, Logprob)>, n: nat)
    requires f.Valid() && n <= |pairs|
    ensures var g := PushAll(f, pairs, n);
            && g.starts == f.starts && g.ends == f.ends && g.Parallel() && |g.logprobs| == |f.logprobs| + n
            && (forall p | 0 <= p < |f.logprobs| :: g.Entry(p) == f.Entry(p))
            && (forall p | 0 <= p < n :: g.Entry(|f.logprobs| + p) == pairs[p])
  {
    if n > 0 {
      PushAllEffect(f, pairs, n - 1);
      var before := PushAll(f, pairs, n - 1);
      var after := PushAll(f, pairs, n);
      assert forall p | 0 <= p < |before.logprobs| :: after.Entry(p) == before.Entry(p);
    }
  }

  /** Two ranges with the same entries. */
  lemma SameRange(f: Flat, lo: nat, hi: nat, g: Flat, lo': nat, hi': nat)
    requires f.Parallel() && g.Parallel() && lo <= hi <= |f.logprobs| && lo' <= hi' <= |g.logprobs| && hi - lo == hi' - lo'
    requires forall p | lo <= p < hi :: f.Entry(p) == g.Entry(p - lo + lo')
    ensures f.Range(lo, hi) == g.Range(lo', hi')
  {
    forall k | 0 <= k < hi - lo
      ensures f.Range(lo, hi)[k] == g.Range(lo', hi')[k]
    {
      assert f.Entry(lo + k) == g.Entry(lo + k - lo + lo');
    }
  }

  lemma RangeIs(f: Flat, lo: nat, hi: nat, pairs: seq<(int, Logprob)>)
    requires f.Parallel() && lo <= hi <= |f.logprobs| && hi - lo == |pairs|
    requires forall p | 0 <= p < |pairs| :: f.Entry(lo + p) == pairs[p]
    ensures f.Range(lo, hi) == pairs
  {
  }

  lemma AppendEffect(f: Flat, pairs: seq<(int, Logprob)>)
    requires f.Valid()
    ensures var g, n := AppendPairs(f, pairs), |f.logprobs|;
            && g.Valid() && g.starts == f.starts + [n] && g.ends == f.ends + [n + |pairs|] && |g.logprobs| == n + |pairs|
            && (forall p | 0 <= p < n :: f.Entry(p) == g.Entry(p))
            && (forall p | 0 <= p < |pairs| :: g.Entry(n + p) == pairs[p])
  {
    PushAllEffect(f, pairs, |pairs|);
    hide PushAll;
    var h, g := PushAll(f, pairs, |pairs|), AppendPairs(f, pairs);
    assert forall p | 0 <= p < |g.logprobs| :: g.Entry(p) == h.Entry(p);
  }

  /** Appending pairs adds their dictionary to the view and touches nothing else. */
  lemma AppendAddsDict(f: Flat, pairs: seq<(int, Logprob)>)
    requires f.Valid()
    ensures AppendPairs(f, pairs).Valid()
    ensures AppendPairs(f, pairs).View() == f.View() + [DictOf(pairs)]
  {
    hide AppendPairs, DictOf, Flat.Range, Flat.Entry;
    AppendEffect(f, pairs);
    var g, n := AppendPairs(f, pairs), |f.starts|;
    forall i | 0 <= i < n
      ensures g.Position(i) == f.Position(i)
    {
      SameRange(f, f.starts[i], f.ends[i], g, g.starts[i], g.ends[i]);
    }
    RangeIs(g, g.starts[n], g.ends[n], pairs);
    assert g.View() == f.View() + [DictOf(pairs)];
  }

  // ---------------------------------------------------------------------------------------------
  // Slicing

  /** `start:stop:step` with missing parts allowed. */
  datatype Slice = Slice(start: Option<int>, stop: Option<int>, step: Option<int>) {
    function Step(): int { if step.Some? then step.value else 1 }

    /** A bound moved into the sequence: negative bounds count from the end, and the rest is clipped. */
    static function Clip(bound: int, n: nat, step: int): int {
      if bound < 0 then
        if bound + n < 0 then (if step < 0 then -1 else 0) else bound + n
      else if bound >= n then (if step < 0 then n - 1 else n)
      else bound
    }

    function First(n: nat): int {
      if start.Some? then Clip(start.value, n, Step()) else if Step() < 0 then n - 1 else 0
    }

    function Last(n: nat): int {
      if stop.Some? then Clip(stop.value, n, Step()) else if Step() < 0 then -1 else n
    }

    /** How many elements a sequence of length `n` yields. */
    function Count(n: nat): nat
      requires Step() != 0
    {
      if Step() > 0 then
        if First(n) < Last(n) then CountUp(Last(n) - First(n), Step()) else 0
      else
        if Last(n) < First(n) then CountUp(First(n) - Last(n), -Step()) else 0
    }

    function Index(n: nat, k: int): int {
      First(n) + k * Step()
    }
  }

  /** Numbers of the form `k * step` below `span`. */
  function CountUp(span: nat, step: nat): nat
    requires step > 0
  {
    (span + step - 1) / step
  }

  lemma CountUpBound(span: nat, step: nat, k: nat)
    requires step > 0 && k < CountUp(span, step)
    ensures k * step < span
  {
    var s := span + step - 1;
    assert s == s / step * step + s % step;
    assert (k + 1) * step <= s / step * step by { MulMono(k + 1, s / step, step); }
  }

  lemma IndexInRange(s: Slice, n: nat, k: nat)
    requires s.Step() != 0 && k < s.Count(n)
    ensures 0 <= s.Index(n, k) < n
  {
    var step := s.Step();
    if step > 0 {
      CountUpBound(s.Last(n) - s.First(n), step, k);
    } else {
      CountUpBound(s.First(n) - s.Last(n), -step, k);
      assert k * step == -(k * -step);
    }
  }

  lemma IndexIsMonotone(s: Slice, n: nat, j: nat, k: nat)
    requires j < k
    ensures s.Step() > 0 ==> s.Index(n, j) < s.Index(n, k)
    ensures s.Step() < 0 ==> s.Index(n, j) > s.Index(n, k)
  {
    var step := s.Step();
    if step > 0 { MulMono(j + 1, k, step); }
    if step < 0 { MulMono(j + 1, k, -step); assert k * step == -(k * -step) && j * step == -(j * -step); }
  }

  /** The slice of a list. */
  function SliceOf<T>(xs: seq<T>, s: Slice): seq<T>
    requires s.Step() != 0
  {
    seq(s.Count(|xs|), k requires 0 <= k < s.Count(|xs|) => (IndexInRange(s, |xs|, k); xs[s.Index(|xs|, k)]))
  }

  /** `xs[lo:hi]` for non-negative bounds. */
  function Cut<T>(xs: seq<T>, lo: int, hi: int): seq<T>
    requires 0 <= lo && 0 <= hi
  {
    var h := if hi < |xs| then hi else |xs|;
    if lo < h then xs[lo..h] else []
  }

  datatype SliceError = ZeroStep | EmptySlice

  /** The container's own slicing. */
  function SliceFlat(f: Flat, s: Slice): Result<Flat, SliceError>
    requires f.Valid()
  {
    if s.Step() == 0 then Err(ZeroStep)
    else if s.Count(|f.starts|) == 0 then Err(EmptySlice)
    else
      var starts, ends := SliceOf(f.starts, s), SliceOf(f.ends, s);
      IndexInRange(s, |f.starts|, 0);
      IndexInRange(s, |f.starts|, s.Count(|f.starts|) - 1);
      var lo, hi := starts[0], ends[|ends| - 1];
      Ok(Flat(
        seq(|starts|, i requires 0 <= i < |starts| => starts[i] - lo),
        seq(|ends|, i requires 0 <= i < |ends| => ends[i] - lo),
        Cut(f.tokenIds, lo, hi), Cut(f.logprobs, lo, hi), Cut(f.ranks, lo, hi), Cut(f.decodedTokens, lo, hi)))
  }

  /** The selected positions lie between the bounds that the slice keeps. */
  lemma SelectedWithinBounds(f: Flat, s: Slice, k: nat)
    requires f.Valid() && s.Step() != 0 && k < s.Count(|f.starts|) && (s.Step() > 0 || s.Count(|f.starts|) == 1)
    ensures var n, c := |f.starts|, s.Count(|f.starts|);
            && 0 <= s.Index(n, 0) < n && 0 <= s.Index(n, k) < n && 0 <= s.Index(n, c - 1) < n
            && 0 <= f.starts[s.Index(n, 0)] <= f.starts[s.Index(n, k)]
               <= f.ends[s.Index(n, k)] <= f.ends[s.Index(n, c - 1)] <= |f.logprobs|
  {
    hide Slice.Index, Slice.Count;
    var n, c := |f.starts|, s.Count(|f.starts|);
    IndexInRange(s, n, 0);
    IndexInRange(s, n, k);
    IndexInRange(s, n, c - 1);
    if 0 < k { IndexIsMonotone(s, n, 0, k); }
    if k < c - 1 { IndexIsMonotone(s, n, k, c - 1); }
  }

  /** The lists of a slice, one by one. */
  lemma SliceLists(f: Flat, s: Slice)
    requires f.Valid() && s.Step() != 0 && s.Count(|f.starts|) > 0
    ensures var n, c := |f.starts|, s.Count(|f.starts|);
            var g := SliceFlat(f, s).value;
            && SliceFlat(f, s).Ok? && |g.starts| == |g.ends| == c && g.Parallel()
            && 0 <= s.Index(n, 0) < n && 0 <= s.Index(n, c - 1) < n
            && var lo, hi := f.starts[s.Index(n, 0)], f.ends[s.Index(n, c - 1)];
               && |g.logprobs| == (if lo < hi then hi - lo else 0)
               && (forall p | 0 <= p < |g.logprobs| :: g.Entry(p) == f.Entry(lo + p))
               && (forall k | 0 <= k < c :: 0 <= s.Index(n, k) < n &&
                     g.starts[k] == f.starts[s.Index(n, k)] - lo && g.ends[k] == f.ends[s.Index(n, k)] - lo)
  {
    hide Slice.Index, Slice.Count;
    var n, c := |f.starts|, s.Count(|f.starts|);
    forall k | 0 <= k < c
      ensures 0 <= s.Index(n, k) < n
    {
      IndexInRange(s, n, k);
    }
  }

  lemma SliceIsValid(f: Flat, s: Slice)
    requires f.Valid() && s.Step() != 0 && s.Count(|f.starts|) > 0 && (s.Step() > 0 || s.Count(|f.starts|) == 1)
    ensures SliceFlat(f, s).Ok? && SliceFlat(f, s).value.Valid()
  {
    hide Slice.Index, Slice.Count, SliceFlat;
    SliceLists(f, s);
    var n, c, g := |f.starts|, s.Count(|f.starts|), SliceFlat(f, s).value;
    forall i | 0 <= i < c
      ensures 0 <= g.starts[i] <= g.ends[i] <= |g.logprobs|
    {
      SelectedWithinBounds(f, s, i);
    }
    forall i, j | 0 <= i < j < c
      ensures g.ends[i] <= g.starts[j]
    {
      IndexIsMonotone(s, n, i, j);
    }
  }

  /** Slicing the container is slicing the list of dictionaries, for every slice with a positive step that
      selects something. */
  lemma SliceAgrees(f: Flat, s: Slice)
    requires f.Valid() && s.Step() != 0 && s.Count(|f.starts|) > 0 && (s.Step() > 0 || s.Count(|f.starts|) == 1)
    ensures SliceFlat(f, s).Ok? && SliceFlat(f, s).value.Valid()
    ensures SliceFlat(f, s).value.View() == SliceOf(f.View(), s)
  {
    hide Slice.Index, Slice.Count, SliceFlat, DictOf, Flat.Entry, Flat.Range;
    SliceIsValid(f, s);
    SliceLists(f, s);
    var n, c, g := |f.starts|, s.Count(|f.starts|), SliceFlat(f, s).value;
    forall k | 0 <= k < c
      ensures g.Position(k) == f.Position(s.Index(n, k))
    {
      SelectedWithinBounds(f, s, k);
      var i, lo := s.Index(n, k), f.starts[s.Index(n, 0)];
      assert forall p | g.starts[k] <= p < g.ends[k] :: g.Entry(p) == f.Entry(p - g.starts[k] + f.starts[i]);
      SameRange(g, g.starts[k], g.ends[k], f, f.starts[i], f.ends[i]);
    }
    assert |f.View()| == n;
    assert g.View() == SliceOf(f.View(), s);
  }

  /** Reading position `i` indexes the lists only where Python allows it. */
  predicate Readable(f: Flat, i: nat)
    requires i < |f.starts| && |f.starts| == |f.ends|
  {
    forall p | f.starts[i] <= p < f.ends[i] :: Indexable(p, |f.logprobs|)
  }

  predicate Indexable(p: int, n: nat) {
    0 <= p + n && p < n
  }

  /** Reading a position of any container, valid or not: negative list indices count from the end, and an
      index outside raises. */
  function ReadAt(f: Flat, i: nat): Option<Dict>
    requires f.Parallel() && i < |f.starts|
  {
    if Readable(f, i) then Some(DictOf(ReadEntries(f, i))) else None
  }

  function ReadEntries(f: Flat, i: nat): seq<(int, Logprob)>
    requires f.Parallel() && i < |f.starts| && Readable(f, i)
  {
    var lo, n := f.starts[i], |f.logprobs|;
    var size := if lo < f.ends[i] then f.ends[i] - lo else 0;
    seq(size, k requires 0 <= k < size =>
                assert Indexable(lo + k, n);
                f.Entry(if lo + k < 0 then lo + k + n else lo + k))
  }

  /** Every position can be read and gives the corresponding dictionary. */
  predicate ReadsAs(f: Flat, xs: seq<Dict>) {
    f.Parallel() && |f.starts| == |xs| && forall k | 0 <= k < |xs| :: ReadAt(f, k) == Some(xs[k])
  }

  lemma ValidReadsAsView(f: Flat)
    requires f.Valid()
    ensures ReadsAs(f, f.View())
  {
    forall k | 0 <= k < |f.starts|
      ensures ReadAt(f, k) == Some(f.Position(k))
    {
      var lo, hi := f.starts[k], f.ends[k];
      assert forall p | lo <= p < hi :: Indexable(p, |f.logprobs|);
      assert ReadEntries(f, k) == f.Range(lo, hi);
    }
  }

  /** The slice succeeds, can be read, and stands for the slice of the list of dictionaries. */
  predicate SliceIsListSlice(f: Flat, s: Slice)
    requires f.Valid() && s.Step() != 0
  {
    SliceFlat(f, s).Ok? && ReadsAs(SliceFlat(f, s).value, SliceOf(f.View(), s))
  }

  /** All selected positions are empty. */
  predicate SelectsOnlyEmpty(f: Flat, s: Slice)
    requires f.Valid() && s.Step() != 0
  {
    forall k | 0 <= k < s.Count(|f.starts|) :: EmptyAt(f, s.Index(|f.starts|, k))
  }

  predicate EmptyAt(f: Flat, i: int) {
    0 <= i < |f.starts| && i < |f.ends| && f.starts[i] == f.ends[i]
  }

  /** A slice with a negative step that selects at least two positions keeps none of the entries. */
  lemma NegativeStepLists(f: Flat, s: Slice)
    requires f.Valid() && s.Step() < 0 && s.Count(|f.starts|) >= 2
    ensures SliceFlat(f, s).Ok? && SliceFlat(f, s).value.Parallel() && |SliceFlat(f, s).value.logprobs| == 0
    ensures |SliceFlat(f, s).value.starts| == s.Count(|f.starts|)
    ensures forall k | 0 <= k < s.Count(|f.starts|) ::
              var g, i := SliceFlat(f, s).value, s.Index(|f.starts|, k);
              0 <= i < |f.starts| && g.ends[k] - g.starts[k] == f.ends[i] - f.starts[i]
  {
    hide Slice.Index, Slice.Count, SliceFlat;
    SliceLists(f, s);
    IndexIsMonotone(s, |f.starts|, 0, s.Count(|f.starts|) - 1);
  }

  lemma NegativeStepSliceIff(f: Flat, s: Slice)
    requires f.Valid() && s.Step() < 0 && s.Count(|f.starts|) >= 2
    ensures SliceIsListSlice(f, s) <==> SelectsOnlyEmpty(f, s)
  {
    hide Slice.Index, Slice.Count, Slice.Step, SliceFlat;
    NegativeStepLists(f, s);
    var n, c, g, xs := |f.starts|, s.Count(|f.starts|), SliceFlat(f, s).value, SliceOf(f.View(), s);
    assert |f.View()| == n && |xs| == c;
    forall k | 0 <= k < c
      ensures ReadAt(g, k) == Some(xs[k]) <==> EmptyAt(f, s.Index(n, k))
    {
      var i := s.Index(n, k);
      assert xs[k] == f.View()[i] == f.Position(i);
      if f.starts[i] == f.ends[i] {
        assert f.Range(f.starts[i], f.ends[i]) == [];
      } else {
        assert !Indexable(g.starts[k], 0);
      }
    }
  }

  /** Slicing the container, for every non-zero step, is slicing the list of dictionaries exactly when the
      slice selects something and either goes upwards, selects one position, or selects only empty ones. */
  lemma SliceAgreesIff(f: Flat, s: Slice)
    requires f.Valid() && s.Step() != 0
    ensures SliceIsListSlice(f, s) <==>
            s.Count(|f.starts|) > 0 && (s.Step() > 0 || s.Count(|f.starts|) == 1 || SelectsOnlyEmpty(f, s))
  {
    hide Slice.Index, Slice.Count, ReadsAs, SelectsOnlyEmpty;
    if s.Count(|f.starts|) > 0 {
      if s.Step() > 0 || s.Count(|f.starts|) == 1 {
        SliceAgrees(f, s);
        ValidReadsAsView(SliceFlat(f, s).value);
      } else {
        NegativeStepSliceIff(f, s);
      }
    }
  }

  const TWO_POSITIONS := Flat([0, 1], [1, 2], [7, 8], [0.0, 0.0], [None, None], [None, None])

  /** Reversing two one-token positions gives a container that cannot be read; selecting nothing raises. */
  lemma ReversedSliceFails()
    ensures TWO_POSITIONS.Valid()
    ensures var reversed := Slice(None, None, Some(-1)); !SliceIsListSlice(TWO_POSITIONS, reversed)
    ensures var nothing := Slice(Some(2), None, None);
            SliceFlat(TWO_POSITIONS, nothing) == Err(EmptySlice) && SliceOf(TWO_POSITIONS.View(), nothing) == []
  {
    var reversed := Slice(None, None, Some(-1));
    assert reversed.Count(2) == 2 && reversed.Index(2, 0) == 1;
    assert !EmptyAt(TWO_POSITIONS, 1);
    SliceAgreesIff(TWO_POSITIONS, reversed);
  }

  // ---------------------------------------------------------------------------------------------
  // Whole histories of a container

  /** What can happen to a container: `append`, `append_fast`, `extend`, and going on with a slice of it. */
  datatype Operation =
    | AppendDict(position: Option<Dict>)
    | AppendZipped(pairs: seq<(int, Logprob)>)
    | ExtendBy(positions: seq<Option<Dict>>)
    | TakeSlice(s: Slice)

  function Items(position: Option<Dict>): Dict {
    if position.Some? then position.value else []
  }

  /** The arguments are dictionaries, and a slice has a positive step and selects something. */
  predicate Allowed(op: Operation, length: nat) {
    match op
    case AppendDict(position) => IsDict(Items(position))
    case AppendZipped(_) => true
    case ExtendBy(positions) => forall i | 0 <= i < |positions| :: IsDict(Items(positions[i]))
    case TakeSlice(s) => s.Step() > 0 && s.Count(length) > 0
  }

  function ExtendFlat(f: Flat, positions: seq<Option<Dict>>): Flat
    decreases |positions|
  {
    if positions == [] then f else ExtendFlat(AppendPairs(f, Items(positions[0])), positions[1..])
  }

  function AllItems(positions: seq<Option<Dict>>): seq<Dict> {
    if positions == [] then [] else [Items(positions[0])] + AllItems(positions[1..])
  }

  lemma {:induction false} AllItemsStep(positions: seq<Option<Dict>>, n: nat)
    requires n <= |positions|
    ensures AllItems(positions[..n]) == if n == 0 then [] else AllItems(positions[..n - 1]) + [Items(positions[n - 1])]
    decreases |positions|
  {
    if n > 0 {
      AllItemsStep(positions[1..], n - 1);
      assert positions[..n][1..] == positions[1..][..n - 1];
      assert n > 1 ==> positions[..n - 1][1..] == positions[1..][..n - 2];
    }
  }

  function ApplyFlat(f: Flat, op: Operation): Flat
    requires f.Valid() && Allowed(op, |f.starts|)
  {
    match op
    case AppendDict(position) => AppendPairs(f, Items(position))
    case AppendZipped(pairs) => AppendPairs(f, pairs)
    case ExtendBy(positions) => ExtendFlat(f, positions)
    case TakeSlice(s) => SliceIsValid(f, s); SliceFlat(f, s).value
  }

  /** The same on an ordinary list of dictionaries. */
  function ApplyList(xs: seq<Dict>, op: Operation): seq<Dict>
    requires Allowed(op, |xs|)
  {
    match op
    case AppendDict(position) => xs + [Items(position)]
    case AppendZipped(pairs) => xs + [DictOf(pairs)]
    case ExtendBy(positions) => xs + AllItems(positions)
    case TakeSlice(s) => SliceOf(xs, s)
  }

  lemma {:induction false} ExtendAgrees(f: Flat, positions: seq<Option<Dict>>)
    requires f.Valid() && forall i | 0 <= i < |positions| :: IsDict(Items(positions[i]))
    ensures ExtendFlat(f, positions).Valid() && ExtendFlat(f, positions).View() == f.View() + AllItems(positions)
    decreases |positions|
  {
    hide IsDict, AppendPairs, DictOf, Flat.View, Flat.Valid, Items;
    if positions != [] {
      var d := Items(positions[0]);
      AppendAddsDict(f, d);
      DictOfDict(d);
      ExtendAgrees(AppendPairs(f, d), positions[1..]);
      AddedInTurn(f.View(), d, AllItems(positions[1..]));
    }
  }

  lemma AddedInTurn(v: seq<Dict>, d: Dict, rest: seq<Dict>)
    ensures v + [d] + rest == v + ([d] + rest)
  {
  }

  lemma OperationAgrees(f: Flat, op: Operation)
    requires f.Valid() && Allowed(op, |f.starts|)
    ensures ApplyFlat(f, op).Valid() && |f.View()| == |f.starts|
    ensures ApplyFlat(f, op).View() == ApplyList(f.View(), op)
  {
    hide AppendPairs, SliceFlat, SliceOf, ExtendFlat, IsDict;
    match op
    case AppendDict(position) =>
      AppendAddsDict(f, Items(position));
      DictOfDict(Items(position));
    case AppendZipped(pairs) =>
      AppendAddsDict(f, pairs);
    case ExtendBy(positions) =>
      ExtendAgrees(f, positions);
    case TakeSlice(s) =>
      SliceAgrees(f, s);
  }

  /** A history of containers: each comes from the one before by an operation. */
  ghost predicate IsHistory(states: seq<Flat>, ops: seq<Operation>) {
    && |states| == |ops| + 1 && states[0] == EMPTY
    && forall i | 0 <= i < |ops| ::
         states[i].Valid() ==> Allowed(ops[i], |states[i].starts|) && states[i + 1] == ApplyFlat(states[i], ops[i])
  }

  /** The same operations on lists, starting with the empty list. */
  ghost predicate IsListHistory(lists: seq<seq<Dict>>, ops: seq<Operation>) {
    && |lists| == |ops| + 1 && lists[0] == []
    && forall i | 0 <= i < |ops| ::
         Allowed(ops[i], |lists[i]|) ==> lists[i + 1] == ApplyList(lists[i], ops[i])
  }

  /** After any history of appends, extensions and slices, of slices too, the container stands for the list
      of dictionaries that the same history gives. */
  lemma {:induction false} EveryHistoryAgrees(states: seq<Flat>, lists: seq<seq<Dict>>, ops: seq<Operation>, i: nat)
    requires IsHistory(states, ops) && IsListHistory(lists, ops) && i < |states|
    ensures states[i].Valid() && states[i].View() == lists[i]
  {
    if i > 0 {
      EveryHistoryAgrees(states, lists, ops, i - 1);
      OperationAgrees(states[i - 1], ops[i - 1]);
    }
  }

  // ---------------------------------------------------------------------------------------------
  // The container

  datatype IndexError = IndexError

  function Zip(tokenIds: seq<int>, logprobs: seq<real>, ranks: seq<Option<int>>, decoded: seq<Option<string>>, n: nat)
      : seq<(int, Logprob)>
    requires n <= |tokenIds| && n <= |logprobs| && n <= |ranks| && n <= |decoded|
  {
    seq(n, i requires 0 <= i < n => (tokenIds[i], Logprob(logprobs[i], ranks[i], decoded[i])))
  }

  function Shortest(a: nat, b: nat, c: nat, d: nat): nat {
    var x := if a < b then a else b;
    var y := if c < d then c else d;
    if x < y then x else y
  }

  lemma ViewLength(f: Flat)
    requires f.Valid()
    ensures |f.View()| == |f.starts|
  {
  }

  /** Ranks for the sampled token and the `n` most likely ones. */
  function NextRanks(rank: int, n: int): seq<Option<int>> {
    [Some(rank)] + seq(if n < 0 then 0 else n, i => Some(i + 1))
  }

  /** The dictionary that the list-based container would get for the next position. */
  function NextPosition(tokens: seq<int>, values: seq<real>, decoded: seq<Option<string>>, rank: int, num: int): Dict {
    var ranks := NextRanks(rank, if num == -1 then |values| else num);
    DictOf(Zip(tokens, values, ranks, decoded, Shortest(|tokens|, |values|, |ranks|, |decoded|)))
  }

  class Container {
    var startIndices: seq<int>
    var endIndices: seq<int>
    var tokenIds: seq<int>
    var logprobs: seq<real>
    var ranks: seq<Option<int>>
    var decodedTokens: seq<Option<string>>

    function Value(): Flat
      reads this
    {
      Flat(startIndices, endIndices, tokenIds, logprobs, ranks, decodedTokens)
    }

    ghost predicate Valid()
      reads this
    {
      Value().Valid()
    }

    function View(): seq<Dict>
      requires Value().Valid()
      reads this
    {
      Value().View()
    }

    constructor (f: Flat)
      ensures Value() == f
    {
      startIndices, endIndices := f.starts, f.ends;
      tokenIds, logprobs, ranks, decodedTokens := f.tokenIds, f.logprobs, f.ranks, f.decodedTokens;
    }

    method AppendPairsLoop(pairs: seq<(int, Logprob)>)
      requires Valid()
      modifies this
      ensures Value() == AppendPairs(old(Value()), pairs)
    {
      ghost var f := Value();
      startIndices := startIndices + [|logprobs|];
      for i := 0 to |pairs|
        invariant startIndices == f.starts + [|f.logprobs|]
        invariant Value().(starts := f.starts) == PushAll(f, pairs, i)
      {
        tokenIds := tokenIds + [pairs[i].0];
        logprobs := logprobs + [pairs[i].1.logprob];
        ranks := ranks + [pairs[i].1.rank];
        decodedTokens := decodedTokens + [pairs[i].1.decoded];
      }
      endIndices := endIndices + [|logprobs|];
    }

    /** `None` and the empty dictionary both add an empty position. */
    method Append(position: Option<Dict>)
      requires Valid() && (position.Some? ==> IsDict(position.value))
      modifies this
      ensures Valid() && View() == old(View()) + [if position.Some? then position.value else []]
    {
      var items := if position.Some? then position.value else [];
      AppendAddsDict(Value(), items);
      DictOfDict(items);
      AppendPairsLoop(items);
    }

    /** The lists are zipped, so the shortest decides. */
    method AppendFast(tokens: seq<int>, values: seq<real>, rankList: seq<Option<int>>, decoded: seq<Option<string>>)
      requires Valid()
      modifies this
      ensures Valid()
      ensures var n := Shortest(|tokens|, |values|, |rankList|, |decoded|);
              View() == old(View()) + [DictOf(Zip(tokens, values, rankList, decoded, n))]
    {
      var n := Shortest(|tokens|, |values|, |rankList|, |decoded|);
      var pairs := Zip(tokens, values, rankList, decoded, n);
      AppendAddsDict(Value(), pairs);
      AppendPairsLoop(pairs);
    }

    /** `append_logprobs_for_next_position` on this container. */
    method AppendNextPosition(tokens: seq<int>, values: seq<real>, decoded: seq<Option<string>>, rank: int, numLogprobs: int)
      requires Valid()
      modifies this
      ensures Valid() && View() == old(View()) + [NextPosition(tokens, values, decoded, rank, numLogprobs)]
    {
      var num := if numLogprobs == -1 then |values| else numLogprobs;
      AppendFast(tokens, values, NextRanks(rank, num), decoded);
    }

    method Extend(positions: seq<Option<Dict>>)
      requires Valid() && forall i | 0 <= i < |positions| :: IsDict(Items(positions[i]))
      modifies this
      ensures Valid() && View() == old(View()) + AllItems(positions)
    {
      hide Flat.View, Flat.Valid, IsDict, AllItems;
      ghost var before := View();
      AllItemsStep(positions, 0);
      for i := 0 to |positions|
        invariant Valid() && View() == before + AllItems(positions[..i])
      {
        AllItemsStep(positions, i + 1);
        Append(positions[i]);
      }
      assert positions[..|positions|] == positions;
    }

    /** Extending by another container, or by itself: the number of positions to copy is fixed at the start. */
    method ExtendFrom(other: Container)
      requires Valid() && other.Valid()
      modifies this
      ensures Valid() && View() == old(View()) + old(other.View())
    {
      hide Flat.View, Flat.Valid, IsDict;
      ghost var before, added := View(), other.View();
      ViewLength(other.Value());
      var n := |other.startIndices|;
      for i := 0 to n
        invariant Valid() && other.Valid() && n == |added|
        invariant added <= other.View()
        invariant View() == before + added[..i]
      {
        var item := other.GetItem(i);
        assert item == Ok(added[i]);
        Append(Some(item.value));
        assert added[..i + 1] == added[..i] + [added[i]];
      }
      assert added[..n] == added;
    }

    method Len() returns (n: nat)
      requires Valid()
      ensures n == |View()|
    {
      n := |startIndices|;
    }

    /** Indexing, with negative positions counted from the end. */
    method GetItem(index: int) returns (r: Result<Dict, IndexError>)
      requires Valid()
      ensures var n := |View()|;
              if -n <= index < n then r == Ok(View()[if index < 0 then index + n else index]) else r == Err(IndexError)
      ensures r.Ok? ==> IsDict(r.value)
    {
      if index < -|startIndices| || index >= |startIndices| { return Err(IndexError); }
      var i := if index < 0 then index + |startIndices| else index;
      var lo, hi := startIndices[i], endIndices[i];
      var d: Dict := [];
      for p := lo to hi
        invariant d == DictOf(Value().Range(lo, p))
      {
        ghost var longer := Value().Range(lo, p + 1);
        assert longer[..|longer| - 1] == Value().Range(lo, p);
        assert longer[|longer| - 1] == Value().Entry(p);
        d := Insert(d, tokenIds[p], Logprob(logprobs[p], ranks[p], decodedTokens[p]));
      }
      DictOfIsDict(Value().Range(lo, hi));
      return Ok(d);
    }

    /** Iteration yields the positions in order. */
    method Iterate() returns (items: seq<Dict>)
      requires Valid()
      ensures items == View()
    {
      items := [];
      var n := Len();
      for i := 0 to n
        invariant |items| == i && forall k | 0 <= k < i :: items[k] == View()[k]
      {
        var item := GetItem(i);
        items := items + [item.value];
      }
    }

    method GetSlice(s: Slice) returns (r: Result<Container, SliceError>)
      requires Valid()
      ensures r == Err(ZeroStep) <==> s.Step() == 0
      ensures r == Err(EmptySlice) <==> s.Step() != 0 && s.Count(|View()|) == 0
      ensures r.Ok? ==> fresh(r.value) && SliceFlat(Value(), s) == Ok(r.value.Value())
      ensures r.Ok? && (s.Step() > 0 || s.Count(|View()|) == 1) ==> r.value.Valid() && r.value.View() == SliceOf(View(), s)
    {
      hide Slice.Index, Slice.Count, SliceOf;
      assert |View()| == |startIndices|;
      if s.Step() != 0 && s.Count(|startIndices|) > 0 && (s.Step() > 0 || s.Count(|startIndices|) == 1) {
        SliceAgrees(Value(), s);
      }
      var sliced := SliceFlat(Value(), s);
      if sliced.Err? { return Err(sliced.error); }
      var c := new Container(sliced.value);
      return Ok(c);
    }
  }
}
