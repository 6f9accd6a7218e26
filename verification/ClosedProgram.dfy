/**
 Whole programs: which names are left unmet before the first partition, and when a program runs from nothing.
 Everything here is said of the nodes themselves: what they use, produce and free, and in which order.
 */
module ClosedProgram {
  import opened Outcomes
  import opened GraphPartition

  /** Some node up to node `i` of partition `k` produces `n`. */
  ghost predicate ProducedUpTo(parts: seq<Partition>, k: nat, i: nat, n: Name)
    requires k < |parts| && i < |parts[k]|
  {
    (exists j | 0 <= j < k :: Produces(parts[j], n)) || (exists j | 0 <= j <= i :: n in parts[k][j].outputs)
  }

  ghost predicate HasHome(s: Scheduler, parts: seq<Partition>, given: set<Name>, k: nat, i: nat, n: Name)
    requires k < |parts| && i < |parts[k]|
  {
    n in s.constants || n in given || ProducedUpTo(parts, k, i, n)
  }

  /** Every storage that a node uses or frees, and every graph output, is a constant, given from outside or
      produced by then. */
  ghost predicate Closed(s: Scheduler, parts: seq<Partition>, outs: set<Name>, given: set<Name>)
    requires s.Resolves()
  {
    && (forall k, i, x | 0 <= k < |parts| && 0 <= i < |parts[k]| && Uses(parts[k][i], x) && !s.IsNoneLayout(x) ::
          HasHome(s, parts, given, k, i, s.Real(x)))
    && (forall k, i, n | 0 <= k < |parts| && 0 <= i < |parts[k]| && n in parts[k][i].lastUsage && n in s.nameToNode ::
          HasHome(s, parts, given, k, i, n))
    && (forall n | n in outs :: n in given || exists k | 0 <= k < |parts| :: Produces(parts[k], n))
  }

  /** No name is produced by two partitions, and none that is given is produced at all. */
  ghost predicate ProducedOnce(parts: seq<Partition>, given: set<Name>) {
    && (forall j, k, n | 0 <= j < k < |parts| && Produces(parts[j], n) :: !Produces(parts[k], n))
    && (forall k, n | 0 <= k < |parts| && n in given :: !Produces(parts[k], n))
  }

  /** A partition that uses a storage it produces uses it under a name it produces. */
  ghost predicate NamesItsOwn(s: Scheduler, p: Partition)
    requires s.Resolves()
  {
    forall x, n | UsesAs(s, p, x, n) && n !in s.constants :: !Produces(p, n)
  }

  ghost predicate AllNameTheirOwn(s: Scheduler, parts: seq<Partition>)
    requires s.Resolves()
  {
    forall k | 0 <= k < |parts| :: NamesItsOwn(s, parts[k])
  }

  /** Before partition `k`, `n` is a constant, given or produced. */
  ghost predicate WasThere(s: Scheduler, parts: seq<Partition>, given: set<Name>, k: nat, n: Name)
    requires k <= |parts|
  {
    n in s.constants + given || exists j | 0 <= j < k :: Produces(parts[j], n)
  }

  /** A name stays unmet over partitions that do not produce it. */
  lemma {:induction false} StaysUnmet(s: Scheduler, parts: seq<Partition>, outs: set<Name>, lo: nat, k: nat, n: Name)
    requires ScheduledProgram(s, parts, outs) && lo <= k <= |parts| && n in Unmet(s, parts, outs, k)
    requires forall j | lo <= j < k :: !Produces(parts[j], n)
    ensures n in Unmet(s, parts, outs, lo)
    decreases k - lo
  {
    hide InputNames, Outputs, Freed, Produces;
    if lo < k {
      var p, unmet := parts[k - 1], Unmet(s, parts, outs, k);
      if n in ReturnedNames(s, p, unmet) {
        var m :| m in Outputs(p) * unmet + KeptInputs(s, p) && s.Real(m) == n;
        if m in KeptInputs(s, p) {
          InputsAreCanonical(s, p, m);
        } else {
          UnmetIsCanonical(s, parts, outs, k, m);
          NamesAreCollected(p, m);
        }
      }
      StaysUnmet(s, parts, outs, lo, k - 1, n);
    }
  }

  /** An unmet name is wanted by some later partition or by the caller. */
  lemma {:induction false} UnmetIsWanted(s: Scheduler, parts: seq<Partition>, outs: set<Name>, k: nat, n: Name)
    requires s.Resolves() && k <= |parts| && n in Unmet(s, parts, outs, k)
    ensures n in outs || exists j | k <= j < |parts| :: TakesIn(s, parts[j], n)
    decreases |parts| - k
  {
    if k < |parts| {
      InputNamesIff(s, parts[k], n);
      hide InputNames, TakesIn;
      if n !in InputNames(s, parts[k]) { UnmetIsWanted(s, parts, outs, k + 1, n); }
    }
  }

  /** What a partition takes in was there before it, if the partition names its own storages. */
  lemma TakenInWasThere(s: Scheduler, parts: seq<Partition>, outs: set<Name>, given: set<Name>, k: nat, n: Name)
    requires s.Resolves() && Closed(s, parts, outs, given) && k < |parts|
    requires NamesItsOwn(s, parts[k]) && TakesIn(s, parts[k], n)
    ensures WasThere(s, parts, given, k, n)
  {
    var p := parts[k];
    if x :| UsesAs(s, p, x, n) {
      var i :| 0 <= i < |p| && Uses(p[i], x);
      assert HasHome(s, parts, given, k, i, s.Real(x));
    } else {
      var i :| 0 <= i < |p| && n in p[i].lastUsage;
      assert HasHome(s, parts, given, k, i, n);
    }
  }

  ghost predicate UnmetIsThere(s: Scheduler, parts: seq<Partition>, outs: set<Name>, given: set<Name>, k: nat)
    requires s.Resolves() && k <= |parts|
  {
    forall n | n in Unmet(s, parts, outs, k) :: WasThere(s, parts, given, k, n)
  }

  lemma UnmetIsThereStep(s: Scheduler, parts: seq<Partition>, outs: set<Name>, given: set<Name>, k: nat)
    requires ScheduledProgram(s, parts, outs) && Closed(s, parts, outs, given) && AllNameTheirOwn(s, parts)
    requires k < |parts| && UnmetIsThere(s, parts, outs, given, k + 1)
    ensures UnmetIsThere(s, parts, outs, given, k)
  {
    hide Closed, AllNameTheirOwn, WasThere, Unmet, Scheduled;
    forall n | n in Unmet(s, parts, outs, k)
      ensures WasThere(s, parts, given, k, n)
    {
      UnmetWasThereStep(s, parts, outs, given, k, n);
    }
  }

  lemma UnmetIsThereAtStart(s: Scheduler, parts: seq<Partition>, outs: set<Name>, given: set<Name>)
    requires ScheduledProgram(s, parts, outs) && Closed(s, parts, outs, given) && AllNameTheirOwn(s, parts)
    ensures UnmetIsThere(s, parts, outs, given, 0)
  {
    OutputsWereThere(s, parts, outs, given);
    hide Closed, AllNameTheirOwn, UnmetIsThere, Scheduled;
    var k := |parts|;
    while k > 0
      invariant 0 <= k <= |parts| && UnmetIsThere(s, parts, outs, given, k)
    {
      k := k - 1;
      UnmetIsThereStep(s, parts, outs, given, k);
    }
  }

  lemma UnmetWasThereStep(s: Scheduler, parts: seq<Partition>, outs: set<Name>, given: set<Name>, k: nat, n: Name)
    requires ScheduledProgram(s, parts, outs) && Closed(s, parts, outs, given) && AllNameTheirOwn(s, parts)
    requires k < |parts| && n in Unmet(s, parts, outs, k)
    requires n in Unmet(s, parts, outs, k + 1) ==> WasThere(s, parts, given, k + 1, n)
    ensures WasThere(s, parts, given, k, n)
  {
    assert NamesItsOwn(s, parts[k]);
    hide Closed, AllNameTheirOwn, NamesItsOwn, WasThere, Unmet, InputNames, ReturnedNames, TakesIn, Produces, Scheduled;
    UnmetStep(s, parts, outs, k, n);
    if n in InputNames(s, parts[k]) {
      InputNamesIff(s, parts[k], n);
      TakenInWasThere(s, parts, outs, given, k, n);
    } else {
      WasThereStep(s, parts, given, k, n);
      if Produces(parts[k], n) { ProducedIsReturned(s, parts, outs, k, n); }
    }
  }

  lemma OutputsWereThere(s: Scheduler, parts: seq<Partition>, outs: set<Name>, given: set<Name>)
    requires s.Resolves() && Closed(s, parts, outs, given)
    ensures UnmetIsThere(s, parts, outs, given, |parts|)
  {
    hide HasHome, Uses;
  }

  lemma UnmetStep(s: Scheduler, parts: seq<Partition>, outs: set<Name>, k: nat, n: Name)
    requires s.Resolves() && k < |parts|
    ensures n in Unmet(s, parts, outs, k) <==>
            || n in InputNames(s, parts[k])
            || (n in Unmet(s, parts, outs, k + 1) && n !in ReturnedNames(s, parts[k], Unmet(s, parts, outs, k + 1)))
  {
    hide InputNames, ReturnedNames;
  }

  lemma WasThereStep(s: Scheduler, parts: seq<Partition>, given: set<Name>, k: nat, n: Name)
    requires k < |parts|
    ensures WasThere(s, parts, given, k + 1, n) ==> WasThere(s, parts, given, k, n) || Produces(parts[k], n)
  {
    hide Produces;
  }

  lemma ProducedIsReturned(s: Scheduler, parts: seq<Partition>, outs: set<Name>, k: nat, n: Name)
    requires ScheduledProgram(s, parts, outs) && k < |parts| && n in Unmet(s, parts, outs, k + 1) && Produces(parts[k], n)
    ensures n in ReturnedNames(s, parts[k], Unmet(s, parts, outs, k + 1))
  {
    hide Scheduled, Unmet, InputNames, Outputs, Produces;
    NamesAreCollected(parts[k], n);
    UnmetIsCanonical(s, parts, outs, k + 1, n);
    assert n in Outputs(parts[k]) * Unmet(s, parts, outs, k + 1) + KeptInputs(s, parts[k]);
  }

  /** In a closed program nothing but constants and given names is unmet before the first partition, exactly when
      every partition uses the storages it produces under names it produces. */
  lemma NothingIsUnmetIff(s: Scheduler, parts: seq<Partition>, outs: set<Name>, given: set<Name>)
    requires ScheduledProgram(s, parts, outs) && Closed(s, parts, outs, given) && ProducedOnce(parts, given)
    ensures Unmet(s, parts, outs, 0) <= s.constants + given <==> AllNameTheirOwn(s, parts)
  {
    if AllNameTheirOwn(s, parts) {
      UnmetIsThereAtStart(s, parts, outs, given);
      forall n | n in Unmet(s, parts, outs, 0)
        ensures n in s.constants + given
      {
        assert WasThere(s, parts, given, 0, n);
      }
    } else {
      var k :| 0 <= k < |parts| && !NamesItsOwn(s, parts[k]);
      var x, n :| UsesAs(s, parts[k], x, n) && n !in s.constants && Produces(parts[k], n);
      InputNamesIff(s, parts[k], n);
      assert n in Unmet(s, parts, outs, k);
      StaysUnmet(s, parts, outs, 0, k, n);
      assert n !in s.constants + given;
    }
  }

  /** Nothing that a partition frees is a graph output or taken in by a later partition. */
  ghost predicate FreedForGood(s: Scheduler, parts: seq<Partition>, outs: set<Name>)
    requires s.Resolves()
  {
    forall k, n | 0 <= k < |parts| && Frees(parts[k], n) :: !IsWanted(s, parts, outs, k, n)
  }

  lemma FreedWasThere(s: Scheduler, parts: seq<Partition>, outs: set<Name>, given: set<Name>, k: nat, n: Name, j: nat)
    requires s.Resolves() && Closed(s, parts, outs, given) && ProducedOnce(parts, given)
    requires k < j < |parts| && Frees(parts[k], n) && n in s.nameToNode && n !in s.constants
    ensures !Produces(parts[j], n)
  {
    var i :| 0 <= i < |parts[k]| && n in parts[k][i].lastUsage;
    assert HasHome(s, parts, given, k, i, n);
  }

  lemma WantedIsUnmet(s: Scheduler, parts: seq<Partition>, outs: set<Name>, given: set<Name>, k: nat, n: Name)
    requires ScheduledProgram(s, parts, outs) && Closed(s, parts, outs, given) && ProducedOnce(parts, given)
    requires k < |parts| && Frees(parts[k], n) && (n in outs || exists j | k < j < |parts| :: TakesIn(s, parts[j], n))
    ensures n in Unmet(s, parts, outs, k + 1)
  {
    NamesAreCollected(parts[k], n);
    assert Scheduled(s, parts[k]);
    assert n !in s.constants;
    var at: nat := |parts|;
    if n !in outs {
      var j :| k < j < |parts| && TakesIn(s, parts[j], n);
      InputNamesIff(s, parts[j], n);
      assert Scheduled(s, parts[j]);
      at := j;
    }
    assert n in s.nameToNode && n in Unmet(s, parts, outs, at);
    forall j | k + 1 <= j < at
      ensures !Produces(parts[j], n)
    {
      FreedWasThere(s, parts, outs, given, k, n, j);
    }
    StaysUnmet(s, parts, outs, k + 1, at, n);
  }

  /** What the run theorem asks of freed names, said of the nodes. */
  lemma FreesAreDeadIff(s: Scheduler, parts: seq<Partition>, outs: set<Name>, given: set<Name>)
    requires ScheduledProgram(s, parts, outs) && Closed(s, parts, outs, given) && ProducedOnce(parts, given)
    ensures FreesAreDead(s, parts, outs, 0) <==> FreedForGood(s, parts, outs)
  {
    assert s.Resolves();
    forall k, n | 0 <= k < |parts|
      ensures n in Freed(parts[k]) <==> Frees(parts[k], n)
      ensures Frees(parts[k], n) ==> (n in Unmet(s, parts, outs, k + 1) <==> IsWanted(s, parts, outs, k, n))
    {
      NamesAreCollected(parts[k], n);
      if Frees(parts[k], n) { UnmetIffWanted(s, parts, outs, given, k, n); }
    }
    hide *;
    DeadIffUnwanted(s, parts, outs);
  }

  /** A graph output, or taken in by a later partition. */
  ghost predicate IsWanted(s: Scheduler, parts: seq<Partition>, outs: set<Name>, k: nat, n: Name)
    requires s.Resolves() && k < |parts|
  {
    n in outs || exists j | k < j < |parts| :: TakesIn(s, parts[j], n)
  }

  lemma UnmetIffWanted(s: Scheduler, parts: seq<Partition>, outs: set<Name>, given: set<Name>, k: nat, n: Name)
    requires ScheduledProgram(s, parts, outs) && Closed(s, parts, outs, given) && ProducedOnce(parts, given)
    requires k < |parts| && Frees(parts[k], n)
    ensures n in Unmet(s, parts, outs, k + 1) <==> IsWanted(s, parts, outs, k, n)
  {
    assert s.Resolves();
    hide Unmet, Closed, ProducedOnce, Frees, TakesIn, Scheduled;
    if n in Unmet(s, parts, outs, k + 1) { UnmetIsWanted(s, parts, outs, k + 1, n); }
    if IsWanted(s, parts, outs, k, n) { WantedIsUnmet(s, parts, outs, given, k, n); }
  }

  lemma DeadIffUnwanted(s: Scheduler, parts: seq<Partition>, outs: set<Name>)
    requires s.Resolves()
    requires forall k, n | 0 <= k < |parts| :: n in Freed(parts[k]) <==> Frees(parts[k], n)
    requires forall k, n | 0 <= k < |parts| && Frees(parts[k], n) ::
               n in Unmet(s, parts, outs, k + 1) <==> IsWanted(s, parts, outs, k, n)
    ensures FreesAreDead(s, parts, outs, 0) <==> FreedForGood(s, parts, outs)
  {
    hide Unmet, Frees, Freed, TakesIn;
    if FreesAreDead(s, parts, outs, 0) {
      forall k, n | 0 <= k < |parts| && Frees(parts[k], n)
        ensures !IsWanted(s, parts, outs, k, n)
      {
        assert Freed(parts[k]) !! Unmet(s, parts, outs, k + 1);
      }
    }
    if FreedForGood(s, parts, outs) {
      forall k, n | 0 <= k < |parts| && n in Freed(parts[k])
        ensures n !in Unmet(s, parts, outs, k + 1)
      {
        assert !IsWanted(s, parts, outs, k, n);
      }
    }
  }

  /** A closed program runs to the end from the given buffers exactly when nothing freed is used, freed or returned
      again and every freed buffer of another partition has storage; and then it hands back what the unpartitioned
      program computes. */
  lemma ClosedProgramRunsIff(
      s: Scheduler, sem: Semantics, parts: seq<Partition>, outs: set<Name>, given: set<Name>,
      consts: Store, env: Store, whole: Store)
    requires ScheduledProgram(s, parts, outs) && Closed(s, parts, outs, given) && ProducedOnce(parts, given)
    requires AllNameTheirOwn(s, parts)
    requires OnlyAllocated(s, env) && AgreesOn(env, whole, given) && AgreesOn(consts, whole, s.constants)
    ensures var r := RunPartitions(s, sem, parts, outs, consts, 0, env);
            && (r.Some? <==> FreedForGood(s, parts, outs) && forall j | 0 <= j < |parts| :: FreesStorage(s, parts[j]))
            && (r.Some? ==> AgreesOn(r.value, RunWhole(s, sem, parts, 0, whole), outs))
  {
    NothingIsUnmetIff(s, parts, outs, given);
    FreesAreDeadIff(s, parts, outs, given);
    UnmetNodesAreGiven(s, parts, outs, given);
    hide Unmet, Closed, ProducedOnce, Scheduled, FreedForGood, FreesAreDead, RunPartitions, RunWhole, FreesStorage, NamesItsOwn;
    assert AllocatedUnmet(s, parts, outs) <= given;
    PartitionedRunPreservesMeaning(s, sem, parts, outs, consts, env, whole);
  }

  lemma UnmetNodesAreGiven(s: Scheduler, parts: seq<Partition>, outs: set<Name>, given: set<Name>)
    requires ScheduledProgram(s, parts, outs) && Closed(s, parts, outs, given)
    requires Unmet(s, parts, outs, 0) <= s.constants + given
    ensures UnmetNodes(s, parts, outs, 0) <= given
  {
    if parts != [] {
      assert Scheduled(s, parts[0]);
    }
  }

  /** In particular, a program that needs nothing from outside runs from an empty store. */
  lemma ClosedProgramRunsFromNothing(s: Scheduler, sem: Semantics, parts: seq<Partition>, outs: set<Name>, consts: Store)
    requires ScheduledProgram(s, parts, outs) && Closed(s, parts, outs, {}) && ProducedOnce(parts, {})
    requires AllNameTheirOwn(s, parts)
    requires FreedForGood(s, parts, outs) && forall j | 0 <= j < |parts| :: FreesStorage(s, parts[j])
    requires s.constants <= consts.Keys
    ensures Unmet(s, parts, outs, 0) <= s.constants
    ensures var r := RunPartitions(s, sem, parts, outs, consts, 0, map[]);
            r.Some? && AgreesOn(r.value, RunWhole(s, sem, parts, 0, consts), outs)
  {
    NothingIsUnmetIff(s, parts, outs, {});
    ClosedProgramRunsIff(s, sem, parts, outs, {}, consts, map[], consts);
  }

  // Two small programs: one that runs from nothing, and one that does not because its second node uses the storage
  // of "a" under the name "b", which nobody in the partition produces.

  const PLAIN := Scheduler(map[], map[], {"a", "y"}, {})
  const CHAIN: seq<Partition> := [[SchedNode({"a"}, {}, {}, {})], [SchedNode({"y"}, {"a"}, {}, {"a"})]]

  const ALIASING := Scheduler(map[], map["b" := "a"], {"a", "b", "y"}, {})
  const ALIASED: seq<Partition> := [[SchedNode({"a"}, {}, {}, {}), SchedNode({"y"}, {"b"}, {}, {})]]

  lemma NamesOfTheChain()
    ensures var p, q := CHAIN[0], CHAIN[1];
            && Outputs(p) == {"a"} && Freed(p) == {} && Accesses(p) == {} && p[..1] == p
            && Outputs(q) == {"y"} && Freed(q) == {"a"} && Accesses(q) == {"a"} && q[..1] == q
  {
    var p, q := CHAIN[0], CHAIN[1];
    assert p[0] in p && q[0] in q;
    assert "a" in q[0].inputs + q[0].writes;
  }

  lemma ChainIsScheduled()
    ensures ScheduledProgram(PLAIN, CHAIN, {"y"})
  {
    NamesOfTheChain();
    hide Outputs, Freed, Accesses;
    assert Scheduled(PLAIN, CHAIN[0]);
    assert Scheduled(PLAIN, CHAIN[1]);
  }

  lemma ChainIsClosed()
    ensures PLAIN.Resolves() && Closed(PLAIN, CHAIN, {"y"}, {}) && ProducedOnce(CHAIN, {})
  {
    assert "a" in CHAIN[0][0].outputs && "y" in CHAIN[1][0].outputs;
    assert Produces(CHAIN[0], "a") && Produces(CHAIN[1], "y");
  }

  lemma ChainFreesForGood()
    ensures AllNameTheirOwn(PLAIN, CHAIN) && FreedForGood(PLAIN, CHAIN, {"y"})
    ensures forall j | 0 <= j < 2 :: FreesStorage(PLAIN, CHAIN[j])
  {
  }

  lemma ChainRunsFromNothing(sem: Semantics)
    ensures RunPartitions(PLAIN, sem, CHAIN, {"y"}, map[], 0, map[]).Some?
  {
    ChainIsScheduled();
    ChainIsClosed();
    ChainFreesForGood();
    hide ScheduledProgram, Closed, ProducedOnce, AllNameTheirOwn, FreedForGood, FreesStorage;
    ClosedProgramRunsFromNothing(PLAIN, sem, CHAIN, {"y"}, map[]);
  }

  lemma AliasedIsClosed()
    ensures ALIASING.Resolves() && Closed(ALIASING, ALIASED, {"y"}, {}) && ProducedOnce(ALIASED, {})
  {
    var p := ALIASED[0];
    assert "a" in p[0].outputs && "y" in p[1].outputs;
    assert Produces(p, "y");
  }

  /** So "a" is wanted before the partition that produces it. */
  lemma AliasedUseIsNotItsOwn()
    ensures ALIASING.Resolves() && !AllNameTheirOwn(ALIASING, ALIASED) && "a" in Unmet(ALIASING, ALIASED, {"y"}, 0)
  {
    var p := ALIASED[0];
    assert "a" in p[0].outputs && Uses(p[1], "b");
    assert UsesAs(ALIASING, p, "b", "a") && Produces(p, "a");
    InputNamesIff(ALIASING, p, "a");
    hide UsesAs, Produces;
    assert !NamesItsOwn(ALIASING, p);
  }
}
