/**
 When a merge of streamed outputs succeeds, what it adds up to, and when the grouping of the deltas matters.
 */
module OutputStream {
  import opened Outcomes
  import opened FlatLogprobs
  import opened RequestOutput

  /** Whether the first completion with this index has log-probabilities; `None` when there is none. */
  function HasAt(os: seq<Completion>, index: int): Option<bool> {
    if Find(os, index) < |os| then Some(os[Find(os, index)].logprobs.Some?) else None
  }

  /** Every completion that brings log-probabilities finds its index absent, or present with some. */
  predicate Mergeable(os: seq<Completion>, ds: seq<Completion>) {
    forall k | 0 <= k < |ds| && Positions(ds[k]) != [] :: HasAt(os + ds[..k], ds[k].index) != Some(false)
  }

  // ---------------------------------------------------------------------------------------------
  // When merging succeeds

  lemma HasAtConcat(xs: seq<Completion>, ys: seq<Completion>, index: int)
    ensures HasAt(xs + ys, index) == if HasAt(xs, index).Some? then HasAt(xs, index) else HasAt(ys, index)
  {
    var i := Find(xs, index);
    FindIs(xs + ys, index, if i < |xs| then i else |xs| + Find(ys, index));
  }

  lemma HasAtOne(d: Completion, index: int)
    ensures HasAt([d], index) == if d.index == index then Some(d.logprobs.Some?) else None
  {
  }

  /** One merge succeeds unless log-probabilities meet a completion without any. */
  lemma AddOneSucceedsIff(os: seq<Completion>, d: Completion)
    ensures AddOne(os, d, true).Some? <==> (Positions(d) != [] ==> HasAt(os, d.index) != Some(false))
  {
  }

  /** A merge leaves the same indices with log-probabilities as appending would. */
  lemma AddOneKeepsHasAt(os: seq<Completion>, d: Completion, index: int)
    requires AddOne(os, d, true).Some?
    ensures HasAt(AddOne(os, d, true).value, index) == HasAt(os + [d], index)
  {
    var r, i := AddOne(os, d, true).value, Find(os, d.index);
    HasAtConcat(os, [d], index);
    HasAtOne(d, index);
    if i < |os| {
      MergeKeepsIndex(os[i], d);
      FindIs(r, index, Find(os, index));
    }
  }

  lemma MergeableStep(os: seq<Completion>, os': seq<Completion>, d: Completion, rest: seq<Completion>)
    requires forall index :: HasAt(os', index) == HasAt(os + [d], index)
    ensures Mergeable(os, [d] + rest) <==>
            (Positions(d) != [] ==> HasAt(os, d.index) != Some(false)) && Mergeable(os', rest)
  {
    hide HasAt, Positions;
    var ds := [d] + rest;
    assert os + ds[..0] == os;
    forall k | 0 <= k < |rest|
      ensures ds[k + 1] == rest[k] && HasAt(os' + rest[..k], rest[k].index) == HasAt(os + ds[..k + 1], ds[k + 1].index)
    {
      HasAtConcat(os', rest[..k], rest[k].index);
      HasAtConcat(os + [d], rest[..k], rest[k].index);
      assert os + [d] + rest[..k] == os + ds[..k + 1];
    }
    if Mergeable(os, ds) {
      forall k | 0 <= k < |rest| && Positions(rest[k]) != []
        ensures HasAt(os' + rest[..k], rest[k].index) != Some(false)
      {
        assert Positions(ds[k + 1]) != [];
      }
    }
    if (Positions(d) != [] ==> HasAt(os, d.index) != Some(false)) && Mergeable(os', rest) {
      forall k | 0 <= k < |ds| && Positions(ds[k]) != []
        ensures HasAt(os + ds[..k], ds[k].index) != Some(false)
      {
        if k > 0 { assert ds[k] == rest[k - 1]; }
      }
    }
  }

  /** Merging a list of completions succeeds exactly when it is mergeable. */
  lemma {:induction false} AddAllSucceedsIff(os: seq<Completion>, ds: seq<Completion>)
    ensures AddAll(os, ds, true).Some? <==> Mergeable(os, ds)
    decreases |ds|
  {
    if ds != [] {
      hide AddOne, Mergeable, HasAt, Positions;
      var d, rest := ds[0], ds[1..];
      assert ds == [d] + rest;
      AddOneSucceedsIff(os, d);
      if AddOne(os, d, true).Some? {
        var os' := AddOne(os, d, true).value;
        forall index { AddOneKeepsHasAt(os, d, index); }
        MergeableStep(os, os', d, rest);
        AddAllSucceedsIff(os', rest);
      } else {
        MergeableStep(os, os + [d], d, rest);
      }
    }
  }

  /** Completions with one index have log-probabilities all or none; all or none overall is a special case. */
  predicate Uniform(ds: seq<Completion>) {
    forall i, j | 0 <= i < |ds| && 0 <= j < |ds| && ds[i].index == ds[j].index ::
      ds[i].logprobs.Some? == ds[j].logprobs.Some?
  }

  lemma UniformIsMergeable(os: seq<Completion>, ds: seq<Completion>)
    requires Uniform(os + ds)
    ensures Mergeable(os, ds)
  {
    var all := os + ds;
    forall k | 0 <= k < |ds| && Positions(ds[k]) != []
      ensures HasAt(os + ds[..k], ds[k].index) != Some(false)
    {
      var before := os + ds[..k];
      var i := Find(before, ds[k].index);
      assert all[|os| + k] == ds[k];
      assert i < |before| ==> all[i] == before[i];
    }
  }

  // ---------------------------------------------------------------------------------------------
  // What merging gives

  function CompletionAt(os: seq<Completion>, index: int): Option<Completion> {
    if Find(os, index) < |os| then Some(os[Find(os, index)]) else None
  }

  /** The last completion with this index, if there is one. */
  function LastWith(ds: seq<Completion>, index: int): Option<Completion> {
    if ds == [] then None
    else if LastWith(ds[1..], index).Some? then LastWith(ds[1..], index)
    else if ds[0].index == index then Some(ds[0])
    else None
  }

  function LastOr(ds: seq<Completion>, index: int, default: Option<Completion>): Option<Completion> {
    if LastWith(ds, index).Some? then LastWith(ds, index) else default
  }

  /** Both absent, or both with the same cumulative log-probability, finish reason and stop reason. */
  predicate SameEnding(a: Option<Completion>, b: Option<Completion>) {
    && a.Some? == b.Some?
    && (a.Some? ==>
          && a.value.cumulative == b.value.cumulative
          && a.value.finishReason == b.value.finishReason
          && a.value.stopReason == b.value.stopReason)
  }

  lemma AddOneEnding(os: seq<Completion>, d: Completion, aggregate: bool, index: int)
    requires AddOne(os, d, aggregate).Some?
    ensures var r := CompletionAt(AddOne(os, d, aggregate).value, index);
            && SameEnding(r, if d.index == index then Some(d) else CompletionAt(os, index))
            && (!aggregate ==> r == if d.index == index then Some(d) else CompletionAt(os, index))
  {
    var r, i, f := AddOne(os, d, aggregate).value, Find(os, d.index), Find(os, index);
    if i == |os| {
      FindIs(r, index, if d.index == index || f < |os| then f else |r|);
    } else {
      MergeKeepsIndex(os[i], d);
      FindIs(r, index, f);
    }
  }

  /** After a merge, an index ends as the last completion with that index does. */
  lemma {:induction false} AddAllEnding(os: seq<Completion>, ds: seq<Completion>, index: int)
    requires AddAll(os, ds, true).Some?
    ensures SameEnding(CompletionAt(AddAll(os, ds, true).value, index), LastOr(ds, index, CompletionAt(os, index)))
    decreases |ds|
  {
    if ds != [] {
      hide AddOne, CompletionAt;
      AddOneEnding(os, ds[0], true, index);
      AddAllEnding(AddOne(os, ds[0], true).value, ds[1..], index);
    }
  }

  /** Without aggregation a merge cannot fail, and an index is replaced by the last completion that has it. */
  lemma {:induction false} ReplacingKeepsLast(os: seq<Completion>, ds: seq<Completion>, index: int)
    ensures AddAll(os, ds, false).Some?
    ensures CompletionAt(AddAll(os, ds, false).value, index) == LastOr(ds, index, CompletionAt(os, index))
    decreases |ds|
  {
    if ds != [] {
      assert AddOne(os, ds[0], false).Some?;
      hide AddOne, CompletionAt;
      AddOneEnding(os, ds[0], false, index);
      ReplacingKeepsLast(AddOne(os, ds[0], false).value, ds[1..], index);
    }
  }

  function Indices(os: seq<Completion>): seq<int> {
    seq(|os|, i requires 0 <= i < |os| => os[i].index)
  }

  /** The indices seen so far, with those that appear for the first time added in order. */
  function Seen(seen: seq<int>, ds: seq<Completion>): seq<int>
    decreases |ds|
  {
    if ds == [] then seen
    else Seen(if ds[0].index in seen then seen else seen + [ds[0].index], ds[1..])
  }

  lemma AddOneIndices(os: seq<Completion>, d: Completion, aggregate: bool)
    requires AddOne(os, d, aggregate).Some?
    ensures Indices(AddOne(os, d, aggregate).value) == if d.index in Indices(os) then Indices(os) else Indices(os) + [d.index]
  {
    var i := Find(os, d.index);
    if i < |os| {
      assert Indices(os)[i] == d.index;
      MergeKeepsIndex(os[i], d);
    }
  }

  /** Completions keep their places, and new ones come after them in order of arrival. */
  lemma {:induction false} AddAllIndices(os: seq<Completion>, ds: seq<Completion>, aggregate: bool)
    requires AddAll(os, ds, aggregate).Some?
    ensures Indices(AddAll(os, ds, aggregate).value) == Seen(Indices(os), ds)
    decreases |ds|
  {
    if ds != [] {
      hide AddOne, Indices;
      AddOneIndices(os, ds[0], aggregate);
      AddAllIndices(AddOne(os, ds[0], aggregate).value, ds[1..], aggregate);
    }
  }

  /** The merge succeeds exactly when it is possible, and then, per index, text, tokens and log-probability
      positions are the concatenation in order of arrival, and the rest is that of the last arrival. */
  lemma AddAllContents(os: seq<Completion>, ds: seq<Completion>, index: int)
    ensures AddAll(os, ds, true).Some? <==> Mergeable(os, ds)
    ensures Mergeable(os, ds) ==>
              var r := AddAll(os, ds, true).value;
              && TextAt(r, index) == TextAt(os, index) + TextOf(ds, index)
              && TokensAt(r, index) == TokensAt(os, index) + TokensOf(ds, index)
              && PositionsAt(r, index) == PositionsAt(os, index) + PositionsOf(ds, index)
              && SameEnding(CompletionAt(r, index), LastOr(ds, index, CompletionAt(os, index)))
              && Indices(r) == Seen(Indices(os), ds)
  {
    hide SameEnding, CompletionAt, LastOr, Indices, Seen, AddAll, Mergeable, TextAt, TokensAt, PositionsAt, TextOf, TokensOf, PositionsOf;
    AddAllSucceedsIff(os, ds);
    if AddAll(os, ds, true).Some? {
      AddedContents(os, ds, index);
      AddAllEnding(os, ds, index);
      AddAllIndices(os, ds, true);
    }
  }

  /** Adding a list that was merged beforehand. */
  function AddMergedList(a: seq<Completion>, r: Option<seq<Completion>>): Option<seq<Completion>> {
    match r
    case None => None
    case Some(bc) => AddAll(a, bc, true)
  }

  /** Merging `c` into `b` first, or both into `a` one after the other: the same completions in the same order,
      or failure in both cases, exactly when `b` and `c` merge or everything fails anyway. */
  lemma AddAllIsAssociative(a: seq<Completion>, b: seq<Completion>, c: seq<Completion>)
    requires UniqueIndices(b)
    ensures AddMergedList(a, AddAll(b, c, true)) == ThenAll(AddAll(a, b, true), c)
            <==> Mergeable(b, c) || !Mergeable(a, b + c)
  {
    hide AddAll, Mergeable, UniqueIndices;
    AddAllSucceedsIff(b, c);
    AddAllSucceedsIff(a, b + c);
    AddAllSplit(a, b, c);
    if AddAll(b, c, true).Some? { AddAllGrouped(a, b, c); }
  }

  /** The same for one completion made of two. */
  lemma AddMerged(os: seq<Completion>, b: Completion, c: Completion)
    requires b.index == c.index
    ensures AddMergedList(os, if Merge(b, c).Some? then Some([Merge(b, c).value]) else None) == Then(AddOne(os, b, true), c)
            <==> Positions(c) == [] || b.logprobs.Some? || HasAt(os, b.index) != Some(true)
  {
    if Merge(b, c).Some? {
      AddMergedWhole(os, b, c);
      AddAllOne(os, Merge(b, c).value);
    } else {
      AddOneSucceedsIff(os, b);
      AddOneKeepsHasAt(os, b, b.index);
      AddOneSucceedsIff(AddOne(os, b, true).value, c);
      HasAtConcat(os, [b], b.index);
      HasAtOne(b, b.index);
    }
  }

  lemma {:induction false} AddAllKeepsUnique(os: seq<Completion>, ds: seq<Completion>)
    requires UniqueIndices(os) && AddAll(os, ds, true).Some?
    ensures UniqueIndices(AddAll(os, ds, true).value)
    decreases |ds|
  {
    if ds != [] {
      hide AddOne, UniqueIndices;
      AddOneKeepsIndices(os, ds[0], 0);
      AddAllKeepsUnique(AddOne(os, ds[0], true).value, ds[1..]);
    }
  }

  // ---------------------------------------------------------------------------------------------
  // Whole streams

  function CombineThen(r: Option<Output>, c: Output): Option<Output> {
    match r
    case None => None
    case Some(x) => Combine(x, c, true)
  }

  function FoldThen(r: Option<Output>, ds: seq<Output>): Option<Output> {
    match r
    case None => None
    case Some(x) => Fold(x, ds)
  }

  /** Without aggregation: nothing fails, each index is replaced, and the flags are as with aggregation. */
  lemma CombineReplaces(a: Output, b: Output, index: int)
    ensures var r := Combine(a, b, false);
            && r.Some? && (r.value.finished <==> a.finished || b.finished) && r.value.kvTransfer == b.kvTransfer
            && CompletionAt(r.value.outputs, index) == LastOr(b.outputs, index, CompletionAt(a.outputs, index))
            && Indices(r.value.outputs) == Seen(Indices(a.outputs), b.outputs)
  {
    hide AddAll, CompletionAt, LastOr, Indices, Seen;
    ReplacingKeepsLast(a.outputs, b.outputs, index);
    AddAllIndices(a.outputs, b.outputs, false);
  }

  /** Adding an output that was merged beforehand. */
  function CombineMerged(a: Output, r: Option<Output>): Option<Output> {
    match r
    case None => None
    case Some(bc) => Combine(a, bc, true)
  }

  lemma CombineIsAssociative(a: Output, b: Output, c: Output)
    requires UniqueIndices(b.outputs)
    ensures CombineMerged(a, Combine(b, c, true)) == CombineThen(Combine(a, b, true), c)
            <==> Mergeable(b.outputs, c.outputs) || !Mergeable(a.outputs, b.outputs + c.outputs)
  {
    hide AddAll, UniqueIndices, Mergeable;
    AddAllIsAssociative(a.outputs, b.outputs, c.outputs);
    AddAllSucceedsIff(b.outputs, c.outputs);
    AddAllSucceedsIff(a.outputs, b.outputs + c.outputs);
    AddAllSplit(a.outputs, b.outputs, c.outputs);
  }

  /** The deltas of a group merged into its first one, as a producer would before handing them on. */
  function FoldGroup(g: seq<Output>): Option<Output>
    requires g != []
  {
    Fold(g[0], g[1..])
  }

  predicate Groups(groups: seq<seq<Output>>) {
    forall i | 0 <= i < |groups| :: groups[i] != [] && UniqueIndices(groups[i][0].outputs)
  }

  function Concat(groups: seq<seq<Output>>): seq<Output> {
    if groups == [] then [] else groups[0] + Concat(groups[1..])
  }

  /** All groups merged, then folded one by one. */
  function FoldGroups(a: Output, groups: seq<seq<Output>>): Option<Output>
    requires Groups(groups)
  {
    match MergedGroups(groups)
    case None => None
    case Some(ms) => Fold(a, ms)
  }

  function MergedGroups(groups: seq<seq<Output>>): Option<seq<Output>>
    requires Groups(groups)
  {
    if groups == [] then Some([])
    else
      match (FoldGroup(groups[0]), MergedGroups(groups[1..]))
      case (Some(m), Some(ms)) => Some([m] + ms)
      case _ => None
  }

  predicate GroupMergeable(g: seq<Output>)
    requires g != []
  {
    Mergeable(g[0].outputs, AllCompletions(g[1..]))
  }

  lemma {:induction false} FoldSplit(a: Output, xs: seq<Output>, ys: seq<Output>)
    ensures Fold(a, xs + ys) == FoldThen(Fold(a, xs), ys)
    decreases |xs|
  {
    if xs == [] {
      assert xs + ys == ys;
    } else {
      assert (xs + ys)[1..] == xs[1..] + ys;
      if Combine(a, xs[0], true).Some? { FoldSplit(Combine(a, xs[0], true).value, xs[1..], ys); }
    }
  }

  lemma FoldSucceedsIff(a: Output, ds: seq<Output>)
    ensures Fold(a, ds).Some? <==> Mergeable(a.outputs, AllCompletions(ds))
  {
    hide Mergeable, Fold, AddAll;
    FoldIsOneMerge(a, ds);
    AddAllSucceedsIff(a.outputs, AllCompletions(ds));
  }

  /** Merging a group and adding the result is adding its deltas one by one. */
  lemma {:induction false} GroupIsItsDeltas(a: Output, first: Output, rest: seq<Output>)
    requires UniqueIndices(first.outputs) && Fold(first, rest).Some?
    ensures Combine(a, Fold(first, rest).value, true) == Fold(a, [first] + rest)
    decreases |rest|
  {
    FoldOne(a, first, rest);
    if rest != [] {
      var h := rest[0];
      var gh := Combine(first, h, true).value;
      AddAllKeepsUnique(first.outputs, h.outputs);
      GroupIsItsDeltas(a, gh, rest[1..]);
      FoldOne(a, gh, rest[1..]);
      AddAllSucceedsIff(first.outputs, h.outputs);
      CombineIsAssociative(a, first, h);
      assert CombineMerged(a, Combine(first, h, true)) == CombineThen(Combine(a, first, true), h);
    }
  }

  lemma FoldOne(a: Output, first: Output, rest: seq<Output>)
    ensures Fold(a, [first] + rest) == FoldThen(Combine(a, first, true), rest)
  {
    assert ([first] + rest)[1..] == rest;
  }

  lemma {:induction false} MergedGroupsFold(a: Output, groups: seq<seq<Output>>)
    requires Groups(groups)
    ensures MergedGroups(groups).Some? <==> forall i | 0 <= i < |groups| :: GroupMergeable(groups[i])
    ensures MergedGroups(groups).Some? ==> Fold(a, MergedGroups(groups).value) == Fold(a, Concat(groups))
    decreases |groups|
  {
    hide Mergeable, Fold, UniqueIndices;
    if groups == [] { return; }
    var g, rest := groups[0], groups[1..];
    FoldSucceedsIff(g[0], g[1..]);
    MergedGroupsFold(a, rest);
    assert forall i | 0 <= i < |rest| :: rest[i] == groups[i + 1];
    if MergedGroups(groups).Some? {
      var m, ms := FoldGroup(g).value, MergedGroups(rest).value;
      GroupIsItsDeltas(a, g[0], g[1..]);
      assert g == [g[0]] + g[1..];
      FoldOne(a, m, ms);
      FoldSplit(a, g, Concat(rest));
      if Combine(a, m, true).Some? { MergedGroupsFold(Combine(a, m, true).value, rest); }
    } else {
      assert groups[0] == g;
    }
  }

  /** Any grouping of a stream gives what the single deltas give, failure included, exactly when every group
      can be merged by itself or the stream fails anyway. */
  lemma GroupingIff(a: Output, groups: seq<seq<Output>>)
    requires Groups(groups)
    ensures FoldGroups(a, groups) == Fold(a, Concat(groups))
            <==> || (forall i | 0 <= i < |groups| :: GroupMergeable(groups[i]))
                 || !Mergeable(a.outputs, AllCompletions(Concat(groups)))
  {
    hide Mergeable, Fold, UniqueIndices;
    MergedGroupsFold(a, groups);
    FoldSucceedsIff(a, Concat(groups));
  }

  /** Where the completions of one group lie among all of them. */
  lemma {:induction false} CompletionsOfGroup(groups: seq<seq<Output>>, i: nat) returns (lo: nat)
    requires i < |groups|
    ensures IsPart(AllCompletions(groups[i]), AllCompletions(Concat(groups)), lo)
  {
    hide AllCompletions;
    AllCompletionsSplit(groups[0], Concat(groups[1..]));
    var head, tail := AllCompletions(groups[0]), AllCompletions(Concat(groups[1..]));
    if i == 0 {
      lo := 0;
      PartOfHead(head, tail);
    } else {
      var at := CompletionsOfGroup(groups[1..], i - 1);
      PartOfTail(head, tail, AllCompletions(groups[i]), at);
      lo := |head| + at;
    }
  }

  predicate IsPart(part: seq<Completion>, all: seq<Completion>, lo: nat) {
    lo + |part| <= |all| && all[lo..lo + |part|] == part
  }

  lemma PartOfHead(head: seq<Completion>, tail: seq<Completion>)
    ensures IsPart(head, head + tail, 0)
  {
  }

  lemma PartOfTail(head: seq<Completion>, tail: seq<Completion>, part: seq<Completion>, lo: nat)
    requires IsPart(part, tail, lo)
    ensures IsPart(part, head + tail, |head| + lo)
  {
    assert (head + tail)[|head| + lo..|head| + lo + |part|] == tail[lo..lo + |part|];
  }

  lemma {:induction false} AllCompletionsSplit(xs: seq<Output>, ys: seq<Output>)
    ensures AllCompletions(xs + ys) == AllCompletions(xs) + AllCompletions(ys)
    decreases |xs|
  {
    if xs == [] {
      assert xs + ys == ys;
    } else {
      assert (xs + ys)[1..] == xs[1..] + ys;
      AllCompletionsSplit(xs[1..], ys);
    }
  }

  lemma UniformGroupsMerge(a: Output, groups: seq<seq<Output>>, i: nat)
    requires Groups(groups) && Uniform(a.outputs + AllCompletions(Concat(groups))) && i < |groups|
    ensures GroupMergeable(groups[i])
  {
    hide Uniform, AllCompletions, Concat, IsPart, UniqueIndices;
    var g, all := groups[i], AllCompletions(Concat(groups));
    var lo := CompletionsOfGroup(groups, i);
    PartOfTail(a.outputs, all, AllCompletions(g), lo);
    UniformPart(a.outputs + all, AllCompletions(g), |a.outputs| + lo);
    CompletionsSplitFirst(g);
    UniformIsMergeable(g[0].outputs, AllCompletions(g[1..]));
  }

  lemma UniformPart(all: seq<Completion>, part: seq<Completion>, lo: nat)
    requires Uniform(all) && IsPart(part, all, lo)
    ensures Uniform(part)
  {
    assert forall j | 0 <= j < |part| :: part[j] == all[lo..lo + |part|][j] == all[lo + j];
  }

  lemma CompletionsSplitFirst(g: seq<Output>)
    requires g != []
    ensures AllCompletions(g) == g[0].outputs + AllCompletions(g[1..])
  {
  }

  /** Every way of folding the groups succeeds with one result: per index everything that arrived, concatenated in
      order, with the last ending; the indices in order of arrival; and finished when any delta says so. */
  predicate AddsUp(a: Output, groups: seq<seq<Output>>, index: int)
    requires Groups(groups)
  {
    var ds, r := Concat(groups), FoldGroups(a, groups);
    && r == Fold(a, ds) && r.Some?
    && TextAt(r.value.outputs, index) == TextAt(a.outputs, index) + TextOf(AllCompletions(ds), index)
    && TokensAt(r.value.outputs, index) == TokensAt(a.outputs, index) + TokensOf(AllCompletions(ds), index)
    && PositionsAt(r.value.outputs, index) == PositionsAt(a.outputs, index) + PositionsOf(AllCompletions(ds), index)
    && SameEnding(CompletionAt(r.value.outputs, index), LastOr(AllCompletions(ds), index, CompletionAt(a.outputs, index)))
    && Indices(r.value.outputs) == Seen(Indices(a.outputs), AllCompletions(ds))
    && (r.value.finished <==> a.finished || exists i | 0 <= i < |ds| :: ds[i].finished)
  }

  /** However the deltas of a stream are grouped, it adds up, if the completions of an index have
      log-probabilities all or none. */
  lemma StreamIsConcatenation(a: Output, groups: seq<seq<Output>>, index: int)
    requires Groups(groups) && Uniform(a.outputs + AllCompletions(Concat(groups)))
    ensures AddsUp(a, groups, index)
  {
    hide Mergeable, Fold, UniqueIndices, Uniform, AddAll, TextAt, TokensAt, PositionsAt, TextOf, TokensOf, PositionsOf,
      SameEnding, CompletionAt, LastOr, Indices, Seen;
    var ds := Concat(groups);
    forall i | 0 <= i < |groups|
      ensures GroupMergeable(groups[i])
    {
      UniformGroupsMerge(a, groups, i);
    }
    GroupingIff(a, groups);
    UniformIsMergeable(a.outputs, AllCompletions(ds));
    FoldSucceedsIff(a, ds);
    FoldIsOneMerge(a, ds);
    AddAllContents(a.outputs, AllCompletions(ds), index);
  }

  /** In particular, if all completions have log-probabilities or none has. */
  lemma AllOrNoneStreamIsConcatenation(a: Output, groups: seq<seq<Output>>, index: int)
    requires Groups(groups)
    requires var all := a.outputs + AllCompletions(Concat(groups));
             (forall i | 0 <= i < |all| :: all[i].logprobs.Some?) || (forall i | 0 <= i < |all| :: all[i].logprobs.None?)
    ensures AddsUp(a, groups, index)
  {
    hide AddsUp;
    StreamIsConcatenation(a, groups, index);
  }

  /** A delta with one completion of index 0. */
  function Delta(logprobs: Option<seq<Dict>>): Output {
    Output([Completion(0, "", [], logprobs, None, None, None)], false, None)
  }

  /** A stream on which the grouping decides: the middle delta has no log-probabilities, the last one has. */
  lemma GroupingCanFail()
    ensures var a, b, c := Delta(Some([])), Delta(None), Delta(Some([[]]));
            Fold(a, [b, c]).Some? && FoldGroups(a, [[b, c]]).None?
  {
    var a, b, c := Delta(Some([])), Delta(None), Delta(Some([[]]));
    FoldSucceedsIff(a, [b, c]);
    FoldSucceedsIff(b, [c]);
    var cs := AllCompletions([b, c]);
    assert cs == [b.outputs[0], c.outputs[0]];
    assert AllCompletions([c]) == [c.outputs[0]];
    assert HasAt(a.outputs + cs[..1], 0) == Some(true);
    assert HasAt(b.outputs + [c.outputs[0]][..0], 0) == Some(false);
    assert [b, c][1..] == [c];
  }
}
