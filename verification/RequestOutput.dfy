/**
 Merging streamed outputs of a request into one: completions with the same index are concatenated
 (or replaced), new ones are appended.
 */
module RequestOutput {
  import opened Outcomes
  import opened FlatLogprobs

  /** `logprobs` is the list of positions that a list or flat container stands for. */
  datatype Completion = Completion(
    index: int, text: string, tokenIds: seq<int>, logprobs: Option<seq<Dict>>,
    cumulative: Option<real>, finishReason: Option<string>, stopReason: Option<string>)

  datatype Output = Output(outputs: seq<Completion>, finished: bool, kvTransfer: Option<string>)

  /** Positions to add: an absent or empty container counts as nothing. */
  function Positions(c: Completion): seq<Dict> {
    if c.logprobs.Some? then c.logprobs.value else []
  }

  /** `None` stands for the failed assertion that the earlier completion has log-probabilities too. */
  function Merge(c: Completion, d: Completion): Option<Completion> {
    if Positions(d) != [] && c.logprobs.None? then None
    else Some(Completion(
      c.index, c.text + d.text, c.tokenIds + d.tokenIds,
      if Positions(d) != [] then Some(c.logprobs.value + Positions(d)) else c.logprobs,
      d.cumulative, d.finishReason, d.stopReason))
  }

  /** The position of the first completion with this index, or the length. */
  function Find(os: seq<Completion>, index: int): (i: nat)
    ensures i <= |os| && (i < |os| ==> os[i].index == index) && forall j | 0 <= j < i :: os[j].index != index
  {
    if os == [] || os[0].index == index then 0 else 1 + Find(os[1..], index)
  }

  lemma FindIs(os: seq<Completion>, index: int, i: nat)
    requires i <= |os| && (i < |os| ==> os[i].index == index) && forall j | 0 <= j < i :: os[j].index != index
    ensures Find(os, index) == i
  {
  }

  function AddOne(os: seq<Completion>, d: Completion, aggregate: bool): Option<seq<Completion>> {
    var i := Find(os, d.index);
    if i == |os| then Some(os + [d])
    else if !aggregate then Some(os[i := d])
    else
      match Merge(os[i], d)
      case None => None
      case Some(m) => Some(os[i := m])
  }

  function AddAll(os: seq<Completion>, ds: seq<Completion>, aggregate: bool): Option<seq<Completion>>
    decreases |ds|
  {
    if ds == [] then Some(os)
    else
      match AddOne(os, ds[0], aggregate)
      case None => None
      case Some(os') => AddAll(os', ds[1..], aggregate)
  }

  function Combine(a: Output, b: Output, aggregate: bool): Option<Output> {
    match AddAll(a.outputs, b.outputs, aggregate)
    case None => None
    case Some(os) => Some(Output(os, a.finished || b.finished, b.kvTransfer))
  }

  predicate UniqueIndices(os: seq<Completion>) {
    forall i, j | 0 <= i < j < |os| :: os[i].index != os[j].index
  }

  // ---------------------------------------------------------------------------------------------
  // In place, on objects

  class CompletionObject {
    var value: Completion

    constructor (value: Completion)
      ensures this.value == value
    {
      this.value := value;
    }

    /** The aggregating branch; a failed assertion leaves text and tokens already extended. */
    method Absorb(d: Completion) returns (ok: bool)
      modifies this
      ensures match Merge(old(value), d)
              case None =>
                && !ok
                && value == old(value).(text := old(value).text + d.text, tokenIds := old(value).tokenIds + d.tokenIds)
              case Some(m) => ok && value == m
    {
      value := value.(text := value.text + d.text);
      value := value.(tokenIds := value.tokenIds + d.tokenIds);
      if d.logprobs.Some? && |d.logprobs.value| > 0 {
        if value.logprobs.None? { return false; }
        value := value.(logprobs := Some(value.logprobs.value + d.logprobs.value));
      }
      value := value.(cumulative := d.cumulative, finishReason := d.finishReason, stopReason := d.stopReason);
      return true;
    }
  }

  ghost function Values(os: seq<CompletionObject>): seq<Completion>
    reads os
  {
    seq(|os|, i requires 0 <= i < |os| reads os => os[i].value)
  }

  ghost predicate Separate(os: seq<CompletionObject>) {
    forall i, j | 0 <= i < j < |os| :: os[i] != os[j]
  }

  class RequestObject {
    var outputs: seq<CompletionObject>
    var finished: bool
    var kvTransfer: Option<string>

    ghost function Value(): Output
      reads this, outputs
    {
      Output(Values(outputs), finished, kvTransfer)
    }

    constructor (outputs: seq<CompletionObject>, finished: bool, kvTransfer: Option<string>)
      ensures this.outputs == outputs && this.finished == finished && this.kvTransfer == kvTransfer
    {
      this.outputs, this.finished, this.kvTransfer := outputs, finished, kvTransfer;
    }

    /** One completion of the next output: the inner loop over the completions so far. */
    method AddCompletion(next: CompletionObject, aggregate: bool) returns (ok: bool)
      requires Separate(outputs) && next !in outputs
      modifies this`outputs, outputs
      ensures match AddOne(old(Values(outputs)), old(next.value), aggregate)
              case None => !ok
              case Some(os) => ok && Values(outputs) == os
      ensures next.value == old(next.value)
      ensures Separate(outputs) && forall c | c in outputs :: c in old(outputs) || c == next
    {
      ghost var before := Values(outputs);
      var i := 0;
      while i < |outputs| && outputs[i].value.index != next.value.index
        invariant 0 <= i <= |outputs| && forall j | 0 <= j < i :: before[j].index != next.value.index
      {
        i := i + 1;
      }
      FindIs(before, next.value.index, i);
      if i == |outputs| {
        outputs := outputs + [next];
        assert Values(outputs) == before + [next.value];
        return true;
      }
      if !aggregate {
        outputs := outputs[i := next];
        assert Values(outputs) == before[i := next.value];
        return true;
      }
      ok := outputs[i].Absorb(next.value);
      assert ok ==> Values(outputs) == before[i := Merge(before[i], next.value).value];
    }

    /** The outer loop over the completions of the next output. */
    method AddCompletions(more: seq<CompletionObject>, aggregate: bool) returns (ok: bool)
      requires Separate(outputs + more)
      modifies this`outputs, outputs, more
      ensures match AddAll(old(Values(outputs)), old(Values(more)), aggregate)
              case None => !ok
              case Some(os) => ok && Values(outputs) == os
    {
      hide AddOne;
      ghost var start, deltas := Values(outputs), Values(more);
      ghost var mine := outputs;
      SeparateParts(mine, more);
      for k := 0 to |more|
        invariant Separate(outputs) && forall c | c in outputs :: c in mine || c in more[..k]
        invariant forall j | k <= j < |more| :: more[j].value == deltas[j]
        invariant AddAll(Values(outputs), deltas[k..], aggregate) == AddAll(start, deltas, aggregate)
      {
        assert deltas[k..][0] == deltas[k] && deltas[k..][1..] == deltas[k + 1..];
        NotYetAdded(mine, more, outputs, k);
        assert forall i | 0 <= i < |outputs| :: outputs[i] in old(outputs) || outputs[i] in more;
        ok := AddCompletion(more[k], aggregate);
        if !ok { return false; }
      }
      return true;
    }

    /** `add`.  The completions of the two outputs are distinct objects; afterwards those that were appended
        belong to both. */
    method Add(next: RequestObject, aggregate: bool) returns (ok: bool)
      requires this != next && Separate(outputs + next.outputs)
      modifies this, outputs, next.outputs
      ensures match Combine(old(Value()), old(next.Value()), aggregate)
              case None => !ok
              case Some(r) => ok && Value() == r
    {
      finished := finished || next.finished;
      kvTransfer := next.kvTransfer;
      ok := AddCompletions(next.outputs, aggregate);
    }
  }

  lemma SeparateParts(a: seq<CompletionObject>, b: seq<CompletionObject>)
    requires Separate(a + b)
    ensures Separate(a) && Separate(b) && forall c | c in a :: c !in b
  {
    var s := a + b;
    forall i, j | 0 <= i < j < |a|
      ensures a[i] != a[j]
    {
      assert s[i] != s[j];
    }
    forall i, j | 0 <= i < j < |b|
      ensures b[i] != b[j]
    {
      assert s[|a| + i] != s[|a| + j];
    }
    forall i, j | 0 <= i < |a| && 0 <= j < |b|
      ensures a[i] != b[j]
    {
      assert s[i] != s[|a| + j];
    }
  }

  lemma NotYetAdded(mine: seq<CompletionObject>, more: seq<CompletionObject>, outputs: seq<CompletionObject>, k: nat)
    requires Separate(more) && (forall c | c in mine :: c !in more) && k < |more|
    requires forall c | c in outputs :: c in mine || c in more[..k]
    ensures forall j | k <= j < |more| :: more[j] !in outputs
  {
    forall j | k <= j < |more|
      ensures more[j] !in outputs
    {
      assert more[j] in more;
      assert more[j] !in more[..k];
    }
  }

  // ---------------------------------------------------------------------------------------------
  // Merging is associative

  /** Appending one result to another, failures included. */
  function Then(r: Option<seq<Completion>>, d: Completion): Option<seq<Completion>> {
    match r
    case None => None
    case Some(os) => AddOne(os, d, true)
  }

  function ThenAll(r: Option<seq<Completion>>, ds: seq<Completion>): Option<seq<Completion>> {
    match r
    case None => None
    case Some(os) => AddAll(os, ds, true)
  }

  /** Merging one result into another, failures included. */
  function MergeThen(r: Option<Completion>, c: Completion): Option<Completion> {
    match r
    case None => None
    case Some(x) => Merge(x, c)
  }

  function MergeMerged(x: Completion, r: Option<Completion>): Option<Completion> {
    match r
    case None => None
    case Some(bc) => Merge(x, bc)
  }

  /** Merging a merged delta is merging its parts one after the other, failures included, exactly when it is
      not the case that the middle part alone lacks log-probabilities while the last part brings some. */
  lemma MergeIsAssociative(x: Completion, b: Completion, c: Completion)
    ensures MergeMerged(x, Merge(b, c)) == MergeThen(Merge(x, b), c)
            <==> Positions(c) == [] || b.logprobs.Some? || x.logprobs.None?
  {
    if Merge(b, c).Some? { MergeOfMerged(x, b, c); }
  }

  lemma MergeOfMerged(x: Completion, b: Completion, c: Completion)
    requires Merge(b, c).Some?
    ensures Merge(x, Merge(b, c).value) == match Merge(x, b) case None => None case Some(m) => Merge(m, c)
  {
    var bc := Merge(b, c).value;
    assert x.text + bc.text == x.text + b.text + c.text;
    assert x.tokenIds + bc.tokenIds == x.tokenIds + b.tokenIds + c.tokenIds;
    assert Positions(bc) == Positions(b) + Positions(c);
    if x.logprobs.Some? {
      var xs := x.logprobs.value;
      assert xs + (Positions(b) + Positions(c)) == xs + Positions(b) + Positions(c);
      assert Positions(b) == [] ==> xs + Positions(b) == xs;
      assert Positions(c) == [] ==> xs + Positions(b) + Positions(c) == xs + Positions(b);
    }
  }

  lemma MergeKeepsIndex(x: Completion, d: Completion)
    ensures Merge(x, d).Some? ==> Merge(x, d).value.index == x.index
  {
  }

  lemma AddMergedWhole(os: seq<Completion>, b: Completion, c: Completion)
    requires b.index == c.index && Merge(b, c).Some?
    ensures AddOne(os, Merge(b, c).value, true) == Then(AddOne(os, b, true), c)
  {
    var i := Find(os, b.index);
    MergeKeepsIndex(b, c);
    if i < |os| { MergeKeepsIndex(os[i], b); }
    if i < |os| { MergeOfMerged(os[i], b, c); }
    hide Merge;
    if i == |os| {
      FindIs(os + [b], c.index, i);
      assert (os + [b])[i := Merge(b, c).value] == os + [Merge(b, c).value];
    } else {
      match Merge(os[i], b)
      case None =>
      case Some(m) =>
        FindIs(os[i := m], c.index, i);
        match Merge(m, c)
        case None =>
        case Some(q) => assert os[i := m][i := q] == os[i := q];
    }
  }

  function Replace(os: seq<Completion>, i: nat, d: Completion): Option<seq<Completion>>
    requires i < |os|
  {
    match Merge(os[i], d)
    case None => None
    case Some(m) => Some(os[i := m])
  }

  lemma AddOneFound(os: seq<Completion>, d: Completion, i: nat)
    requires i < |os| && os[i].index == d.index && forall j | 0 <= j < i :: os[j].index != d.index
    ensures AddOne(os, d, true) == Replace(os, i, d)
  {
    FindIs(os, d.index, i);
  }

  lemma AddOneMissing(os: seq<Completion>, d: Completion)
    requires forall j | 0 <= j < |os| :: os[j].index != d.index
    ensures AddOne(os, d, true) == Some(os + [d])
  {
    FindIs(os, d.index, |os|);
  }

  /** Completions with different indices can be added in either order once the first index is present. */
  lemma AddOneCommutes(os: seq<Completion>, c: Completion, p: Completion)
    requires c.index != p.index && Find(os, c.index) < |os|
    ensures Then(AddOne(os, c, true), p) == Then(AddOne(os, p, true), c)
  {
    var i, j := Find(os, c.index), Find(os, p.index);
    if j == |os| {
      CommutesWithNew(os, c, p, i);
    } else {
      CommutesWithFound(os, c, p, i, j);
    }
  }

  lemma CommutesWithNew(os: seq<Completion>, c: Completion, p: Completion, i: nat)
    requires c.index != p.index && i < |os| && os[i].index == c.index && (forall k | 0 <= k < i :: os[k].index != c.index)
    requires forall k | 0 <= k < |os| :: os[k].index != p.index
    ensures Then(AddOne(os, c, true), p) == Then(AddOne(os, p, true), c)
  {
    hide AddOne, Merge;
    AddOneFound(os, c, i);
    AddOneMissing(os, p);
    AddOneFound(os + [p], c, i);
    MergeKeepsIndex(os[i], c);
    match Merge(os[i], c)
    case None =>
    case Some(m) =>
      AddOneMissing(os[i := m], p);
      assert os[i := m] + [p] == (os + [p])[i := m];
  }

  lemma CommutesWithFound(os: seq<Completion>, c: Completion, p: Completion, i: nat, j: nat)
    requires c.index != p.index
    requires i < |os| && os[i].index == c.index && (forall k | 0 <= k < i :: os[k].index != c.index)
    requires j < |os| && os[j].index == p.index && (forall k | 0 <= k < j :: os[k].index != p.index)
    ensures Then(AddOne(os, c, true), p) == Then(AddOne(os, p, true), c)
  {
    hide AddOne, Merge;
    AddOneFound(os, c, i);
    AddOneFound(os, p, j);
    MergeKeepsIndex(os[i], c);
    MergeKeepsIndex(os[j], p);
    var mc, mp := Merge(os[i], c), Merge(os[j], p);
    if mc.Some? { AddOneFound(os[i := mc.value], p, j); }
    if mp.Some? { AddOneFound(os[j := mp.value], c, i); }
    if mc.Some? && mp.Some? { assert os[i := mc.value][j := mp.value] == os[j := mp.value][i := mc.value]; }
  }

  lemma AddOneKeepsIndices(os: seq<Completion>, p: Completion, index: int)
    requires AddOne(os, p, true).Some?
    ensures Find(os, index) < |os| ==> Find(AddOne(os, p, true).value, index) < |AddOne(os, p, true).value|
    ensures UniqueIndices(os) ==> UniqueIndices(AddOne(os, p, true).value)
  {
    var r := AddOne(os, p, true).value;
    if Find(os, index) < |os| { assert r[Find(os, index)].index == index; }
  }

  /** A completion can be moved past others with different indices. */
  lemma {:induction false} AddOnePastAll(os: seq<Completion>, c: Completion, ps: seq<Completion>)
    requires Find(os, c.index) < |os| && forall i | 0 <= i < |ps| :: ps[i].index != c.index
    ensures ThenAll(AddOne(os, c, true), ps) == Then(AddAll(os, ps, true), c)
    decreases |ps|
  {
    if ps != [] {
      AddOneCommutes(os, c, ps[0]);
      if AddOne(os, ps[0], true).Some? {
        AddOneKeepsIndices(os, ps[0], c.index);
        AddOnePastAll(AddOne(os, ps[0], true).value, c, ps[1..]);
      }
    }
  }

  lemma {:induction false} AddAllSplit(os: seq<Completion>, a: seq<Completion>, b: seq<Completion>)
    ensures AddAll(os, a + b, true) == ThenAll(AddAll(os, a, true), b)
    decreases |a|
  {
    if a == [] {
      assert a + b == b;
    } else {
      assert (a + b)[1..] == a[1..] + b;
      if AddOne(os, a[0], true).Some? { AddAllSplit(AddOne(os, a[0], true).value, a[1..], b); }
    }
  }

  lemma AddAllOne(os: seq<Completion>, d: Completion)
    ensures AddAll(os, [d], true) == AddOne(os, d, true)
  {
  }

  /** Adding a list to which `c` has been added is adding the list and then `c`. */
  lemma AddAllThenOne(os: seq<Completion>, bs: seq<Completion>, c: Completion)
    requires UniqueIndices(bs) && AddOne(bs, c, true).Some?
    ensures AddAll(os, AddOne(bs, c, true).value, true) == Then(AddAll(os, bs, true), c)
  {
    hide AddOne, AddAll, Merge, UniqueIndices;
    var i := Find(bs, c.index);
    if i == |bs| {
      AddOneMissing(bs, c);
      AddAllSplit(os, bs, [c]);
      if AddAll(os, bs, true).Some? { AddAllOne(AddAll(os, bs, true).value, c); }
    } else {
      AddOneFound(bs, c, i);
      OnlyOnce(bs, i, bs[i + 1..]);
      AddAllMerged(os, bs[..i], bs[i], bs[i + 1..], c);
      SplitAt(bs, i, bs[i]);
      SplitAt(bs, i, Merge(bs[i], c).value);
    }
  }

  lemma SplitAt(bs: seq<Completion>, i: nat, m: Completion)
    requires i < |bs|
    ensures bs[i := m] == bs[..i] + ([m] + bs[i + 1..]) && (m == bs[i] ==> bs[i := m] == bs)
  {
  }

  lemma OnlyOnce(bs: seq<Completion>, i: nat, rest: seq<Completion>)
    requires UniqueIndices(bs) && i < |bs| && rest == bs[i + 1..]
    ensures forall j | 0 <= j < |rest| :: rest[j].index != bs[i].index
  {
  }

  lemma AddAllMerged(os: seq<Completion>, pre: seq<Completion>, b: Completion, post: seq<Completion>, c: Completion)
    requires b.index == c.index && Merge(b, c).Some? && forall i | 0 <= i < |post| :: post[i].index != c.index
    ensures AddAll(os, pre + ([Merge(b, c).value] + post), true) == Then(AddAll(os, pre + ([b] + post), true), c)
  {
    hide AddOne, Merge, AddAll;
    var m := Merge(b, c).value;
    AddAllSplit(os, pre, [m] + post);
    AddAllSplit(os, pre, [b] + post);
    if AddAll(os, pre, true).Some? {
      var s := AddAll(os, pre, true).value;
      AddAllSplit(s, [m], post);
      AddAllSplit(s, [b], post);
      AddAllOne(s, m);
      AddAllOne(s, b);
      AddMergedWhole(s, b, c);
      if AddOne(s, b, true).Some? {
        var t := AddOne(s, b, true).value;
        AddedIndexIsPresent(s, b);
        AddOnePastAll(t, c, post);
      }
    }
  }

  lemma AddedIndexIsPresent(os: seq<Completion>, b: Completion)
    requires AddOne(os, b, true).Some?
    ensures Find(AddOne(os, b, true).value, b.index) < |AddOne(os, b, true).value|
  {
    var i, r := Find(os, b.index), AddOne(os, b, true).value;
    assert r[i].index == b.index;
  }

  lemma {:induction false} AddAllGrouped(a: seq<Completion>, b: seq<Completion>, c: seq<Completion>)
    requires UniqueIndices(b) && AddAll(b, c, true).Some?
    ensures AddAll(a, AddAll(b, c, true).value, true) == ThenAll(AddAll(a, b, true), c)
    decreases |c|
  {
    if c != [] {
      var b' := AddOne(b, c[0], true).value;
      AddOneKeepsIndices(b, c[0], c[0].index);
      AddAllGrouped(a, b', c[1..]);
      AddAllThenOne(a, b, c[0]);
    }
  }

  // ---------------------------------------------------------------------------------------------
  // What a stream of deltas adds up to

  function TextAt(os: seq<Completion>, index: int): string {
    if Find(os, index) < |os| then os[Find(os, index)].text else ""
  }

  function TokensAt(os: seq<Completion>, index: int): seq<int> {
    if Find(os, index) < |os| then os[Find(os, index)].tokenIds else []
  }

  function PositionsAt(os: seq<Completion>, index: int): seq<Dict> {
    if Find(os, index) < |os| then Positions(os[Find(os, index)]) else []
  }

  /** Everything in `ds` for one index, in order of arrival. */
  function TextOf(ds: seq<Completion>, index: int): string {
    if ds == [] then "" else (if ds[0].index == index then ds[0].text else "") + TextOf(ds[1..], index)
  }

  function TokensOf(ds: seq<Completion>, index: int): seq<int> {
    if ds == [] then [] else (if ds[0].index == index then ds[0].tokenIds else []) + TokensOf(ds[1..], index)
  }

  function PositionsOf(ds: seq<Completion>, index: int): seq<Dict> {
    if ds == [] then [] else (if ds[0].index == index then Positions(ds[0]) else []) + PositionsOf(ds[1..], index)
  }

  lemma AddOneContents(os: seq<Completion>, d: Completion, index: int)
    requires AddOne(os, d, true).Some?
    ensures var r := AddOne(os, d, true).value;
            && TextAt(r, index) == TextAt(os, index) + (if d.index == index then d.text else "")
            && TokensAt(r, index) == TokensAt(os, index) + (if d.index == index then d.tokenIds else [])
            && PositionsAt(r, index) == PositionsAt(os, index) + (if d.index == index then Positions(d) else [])
  {
    var r, i, f := AddOne(os, d, true).value, Find(os, d.index), Find(os, index);
    if i == |os| {
      FindIs(r, index, if d.index == index || f < |os| then f else |r|);
    } else {
      MergeKeepsIndex(os[i], d);
      FindIs(r, index, f);
    }
  }

  lemma ConcatAssoc<T>(a: seq<T>, b: seq<T>, c: seq<T>)
    ensures a + b + c == a + (b + c)
  {
  }

  lemma {:induction false} AddedContents(os: seq<Completion>, ds: seq<Completion>, index: int)
    requires AddAll(os, ds, true).Some?
    ensures var r := AddAll(os, ds, true).value;
            && TextAt(r, index) == TextAt(os, index) + TextOf(ds, index)
            && TokensAt(r, index) == TokensAt(os, index) + TokensOf(ds, index)
            && PositionsAt(r, index) == PositionsAt(os, index) + PositionsOf(ds, index)
    decreases |ds|
  {
    if ds != [] {
      hide AddOne, TextAt, TokensAt, PositionsAt;
      var d := ds[0];
      AddOneContents(os, d, index);
      AddedContents(AddOne(os, d, true).value, ds[1..], index);
      ConcatAssoc(TextAt(os, index), if d.index == index then d.text else "", TextOf(ds[1..], index));
      ConcatAssoc(TokensAt(os, index), if d.index == index then d.tokenIds else [], TokensOf(ds[1..], index));
      ConcatAssoc(PositionsAt(os, index), if d.index == index then Positions(d) else [], PositionsOf(ds[1..], index));
    }
  }

  /** A whole stream, merged delta by delta. */
  function Fold(a: Output, ds: seq<Output>): Option<Output>
    decreases |ds|
  {
    if ds == [] then Some(a)
    else
      match Combine(a, ds[0], true)
      case None => None
      case Some(r) => Fold(r, ds[1..])
  }

  function AllCompletions(ds: seq<Output>): seq<Completion> {
    if ds == [] then [] else ds[0].outputs + AllCompletions(ds[1..])
  }

  /** Folding a stream is one merge of all its completions; the request is finished when any part says so,
      and the transfer parameters are the last ones. */
  lemma {:induction false} FoldIsOneMerge(a: Output, ds: seq<Output>)
    ensures match Fold(a, ds)
            case None => AddAll(a.outputs, AllCompletions(ds), true).None?
            case Some(r) =>
              && AddAll(a.outputs, AllCompletions(ds), true) == Some(r.outputs)
              && (r.finished <==> a.finished || exists i | 0 <= i < |ds| :: ds[i].finished)
              && r.kvTransfer == if ds == [] then a.kvTransfer else ds[|ds| - 1].kvTransfer
    decreases |ds|
  {
    if ds != [] {
      AddAllSplit(a.outputs, ds[0].outputs, AllCompletions(ds[1..]));
      match Combine(a, ds[0], true)
      case None =>
      case Some(r) =>
        FoldIsOneMerge(r, ds[1..]);
        assert forall i | 0 <= i < |ds[1..]| :: ds[1..][i] == ds[i + 1];
        if i :| 0 <= i < |ds| && ds[i].finished {
          if i > 0 { assert ds[1..][i - 1].finished; }
        }
    }
  }
}
