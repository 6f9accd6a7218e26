/**
 The backward signature pass over compiler partitions, and what its signatures mean when the
 partitions are run.

 Each partition is called with the buffers its signature lists as inputs, works on a private store,
 and hands back the buffers its signature lists as outputs.  `RunPartitions` is that copy-in/copy-out
 execution; `RunWhole` is the same list of nodes run in one store that never frees anything.
 */
module GraphPartition {
  import opened Outcomes

  type Name = string
  type Value = int  // stands for the contents of a buffer
  type Store = map<Name, Value>

  datatype Buffer = Buffer(noneLayout: bool, mutationOutput: bool)

  datatype SchedNode = SchedNode(
    outputs: set<Name>, inputs: set<Name>, writes: set<Name>, lastUsage: set<Name>)

  type Partition = seq<SchedNode>

  /** What the pass consults: buffers, the mutation map, the known nodes and the tensor constants. */
  datatype Scheduler = Scheduler(
    nameToBuf: map<Name, Buffer>, mutationReal: map<Name, Name>,
    nameToNode: set<Name>, constants: set<Name>)
  {
    function Real(n: Name): Name {
      if n in mutationReal then mutationReal[n] else n
    }

    /** The mutation map is idempotent, and no layout-less mutation output is its own real name
        (on such an entry the layout test would recurse forever). */
    predicate Resolves() {
      forall n | n in mutationReal ::
        && Real(mutationReal[n]) == mutationReal[n]
        && (mutationReal[n] == n ==>
              !(n in nameToBuf && nameToBuf[n].noneLayout && nameToBuf[n].mutationOutput))
    }

    predicate IsNoneLayout(n: Name)
      requires Resolves()
      decreases if Real(n) != n then 1 else 0
    {
      if n !in nameToBuf then false
      else if !nameToBuf[n].noneLayout then false
      else if nameToBuf[n].mutationOutput && n in mutationReal && mutationReal[n] != "" then
        IsNoneLayout(mutationReal[n])
      else true
    }

    /** A name that stands for storage of its own. */
    predicate Stored(n: Name)
      requires Resolves()
    {
      Real(n) == n && !IsNoneLayout(n)
    }

    /** A buffer with storage has its storage under its real name. */
    predicate WellFormed() {
      && Resolves()
      && forall n | n in mutationReal :: !IsNoneLayout(n) ==> !IsNoneLayout(mutationReal[n])
    }

    function RealSet(ns: set<Name>): set<Name> {
      set n | n in ns :: Real(n)
    }
  }

  // ---------------------------------------------------------------------------------------------
  // The pass, one partition at a time

  function Outputs(p: Partition): set<Name> {
    set node, n | node in p && n in node.outputs :: n
  }

  function Accesses(p: Partition): set<Name> {
    set node, n | node in p && n in node.inputs + node.writes :: n
  }

  function Freed(p: Partition): set<Name> {
    set node, n | node in p && n in node.lastUsage :: n
  }

  function InputNames(s: Scheduler, p: Partition): set<Name>
    requires s.Resolves()
  {
    s.RealSet((set x | x in Accesses(p) && !s.IsNoneLayout(x)) - Outputs(p))
    + (set n | n in Freed(p) - Outputs(p) && n in s.nameToNode)
  }

  /** Inputs that the partition does not free: they are handed back. */
  function KeptInputs(s: Scheduler, p: Partition): set<Name>
    requires s.Resolves()
  {
    set n | n in InputNames(s, p) && n in s.nameToNode && n !in Freed(p)
  }

  function ReturnedNames(s: Scheduler, p: Partition, unmet: set<Name>): set<Name>
    requires s.Resolves()
  {
    s.RealSet(Outputs(p) * unmet + KeptInputs(s, p))
  }

  function UnmetBefore(s: Scheduler, p: Partition, unmet: set<Name>): set<Name>
    requires s.Resolves()
  {
    InputNames(s, p) + (unmet - ReturnedNames(s, p, unmet))
  }

  datatype Signature = Signature(
    inputNodes: set<Name>, inputDeallocation: map<Name, bool>, outputNodes: set<Name>,
    skipCudagraph: bool, constantNames: set<Name>)

  function SignatureOf(s: Scheduler, p: Partition, unmet: set<Name>, skip: bool): Signature
    requires s.Resolves()
  {
    var inputs := set n | n in InputNames(s, p) && n in s.nameToNode;
    Signature(
      inputs,
      (map n | n in inputs :: n in Freed(p)),
      (set n | n in ReturnedNames(s, p, unmet) && !s.IsNoneLayout(n)),
      skip,
      (set n | n in InputNames(s, p) && n in s.constants))
  }

  /** The unmet names just before partition `k`, given the graph outputs `outs`. */
  function Unmet(s: Scheduler, parts: seq<Partition>, outs: set<Name>, k: nat): set<Name>
    requires s.Resolves() && k <= |parts|
    decreases |parts| - k
  {
    if k == |parts| then outs else UnmetBefore(s, parts[k], Unmet(s, parts, outs, k + 1))
  }

  function SignatureAt(s: Scheduler, parts: seq<Partition>, outs: set<Name>, k: nat, skip: bool): Signature
    requires s.Resolves() && k < |parts|
  {
    SignatureOf(s, parts[k], Unmet(s, parts, outs, k + 1), skip)
  }

  /** Every returned name with storage can be looked up among the nodes. */
  predicate Lookups(s: Scheduler, parts: seq<Partition>, outs: set<Name>, k: nat)
    requires s.Resolves() && k < |parts|
  {
    SignatureAt(s, parts, outs, k, false).outputNodes <= s.nameToNode
  }

  /** The scheduler asked for the node of a name it does not know. */
  datatype SignatureError = KeyError(partition: nat)

  /** `sigs` holds the signatures of partitions `k..`, each with all its lookups defined. */
  predicate SignedFrom(
      s: Scheduler, parts: seq<Partition>, skips: seq<bool>, outs: set<Name>, k: nat, sigs: seq<Signature>)
    requires s.Resolves() && |parts| == |skips|
  {
    && k + |sigs| == |parts|
    && forall j | k <= j < |parts| ::
         Lookups(s, parts, outs, j) && sigs[j - k] == SignatureAt(s, parts, outs, j, skips[j])
  }

  /** The verdict of the pass: every signature, or the last partition with an unknown output name. */
  predicate SignatureResult(
      s: Scheduler, parts: seq<Partition>, skips: seq<bool>, outs: set<Name>,
      r: Result<seq<Signature>, SignatureError>)
    requires s.Resolves() && |parts| == |skips|
  {
    match r
    case Ok(sigs) => SignedFrom(s, parts, skips, outs, 0, sigs)
    case Err(KeyError(k)) =>
      && k < |parts| && !Lookups(s, parts, outs, k)
      && forall j | k < j < |parts| :: Lookups(s, parts, outs, j)
  }

  /** Partitions and flags are paired from the back, so when the two lists differ in length it is the
      leading entries of the longer one that are ignored. */
  method GetGraphPartitionSignature(
      s: Scheduler, partitions: seq<Partition>, skipCudagraphs: seq<bool>, graphOutputs: set<Name>)
      returns (r: Result<seq<Signature>, SignatureError>)
    requires s.Resolves()
    ensures var n := if |partitions| <= |skipCudagraphs| then |partitions| else |skipCudagraphs|;
            SignatureResult(s, partitions[|partitions| - n..], skipCudagraphs[|skipCudagraphs| - n..], graphOutputs, r)
  {
    var n := if |partitions| <= |skipCudagraphs| then |partitions| else |skipCudagraphs|;
    r := SignPartitions(s, partitions[|partitions| - n..], skipCudagraphs[|skipCudagraphs| - n..], graphOutputs);
  }

  lemma LookupsAt(s: Scheduler, parts: seq<Partition>, outs: set<Name>, k: nat, skip: bool, sig: Signature)
    requires s.Resolves() && k < |parts|
    requires sig == SignatureOf(s, parts[k], Unmet(s, parts, outs, k + 1), skip)
    ensures sig == SignatureAt(s, parts, outs, k, skip)
    ensures Lookups(s, parts, outs, k) <==> sig.outputNodes <= s.nameToNode
  {
  }

  lemma SignedFromExtends(
      s: Scheduler, parts: seq<Partition>, skips: seq<bool>, outs: set<Name>, k: nat, sig: Signature, sigs: seq<Signature>)
    requires s.Resolves() && |parts| == |skips| && k < |parts|
    requires SignedFrom(s, parts, skips, outs, k + 1, sigs)
    requires Lookups(s, parts, outs, k) && sig == SignatureAt(s, parts, outs, k, skips[k])
    ensures SignedFrom(s, parts, skips, outs, k, [sig] + sigs)
  {
  }

  /** The reverse loop.  The source builds the mirror image of `signatures` and reverses it at the end. */
  method SignPartitions(s: Scheduler, parts: seq<Partition>, skips: seq<bool>, graphOutputs: set<Name>)
      returns (r: Result<seq<Signature>, SignatureError>)
    requires s.Resolves() && |parts| == |skips|
    ensures SignatureResult(s, parts, skips, graphOutputs, r)
  {
    var signatures: seq<Signature> := [];
    var unmet := graphOutputs;
    var k := |parts|;
    while k > 0
      invariant 0 <= k <= |parts|
      invariant unmet == Unmet(s, parts, graphOutputs, k)
      invariant SignedFrom(s, parts, skips, graphOutputs, k, signatures)
    {
      k := k - 1;
      var signature, before := PartitionSignature(s, parts[k], unmet, skips[k]);
      LookupsAt(s, parts, graphOutputs, k, skips[k], signature);
      if !(signature.outputNodes <= s.nameToNode) {
        return Err(KeyError(k));
      }
      SignedFromExtends(s, parts, skips, graphOutputs, k, signature, signatures);
      signatures := [signature] + signatures;
      unmet := before;
    }
    return Ok(signatures);
  }

  /** The body of the reverse loop: the signature of one partition and the names unmet before it. */
  method PartitionSignature(s: Scheduler, p: Partition, unmet: set<Name>, skip: bool)
      returns (signature: Signature, before: set<Name>)
    requires s.Resolves()
    ensures signature == SignatureOf(s, p, unmet, skip)
    ensures before == UnmetBefore(s, p, unmet)
  {
    var outputNames, freed := CollectNames(p);
    var returned := outputNames * unmet;
    var inputNames := s.RealSet((set x | x in Accesses(p) && !s.IsNoneLayout(x)) - outputNames);
    inputNames := inputNames + (set x | x in freed - outputNames && x in s.nameToNode);
    assert inputNames == InputNames(s, p);
    var inputNodes := set x | x in inputNames && x in s.nameToNode;
    var deallocation := map x | x in inputNodes :: x in freed;
    var extraOutputNames := set x | x in inputNames && x in s.nameToNode && x !in freed;
    assert extraOutputNames == KeptInputs(s, p);
    returned := s.RealSet(returned + extraOutputNames);
    assert returned == ReturnedNames(s, p, unmet);
    var outputNodes := set x | x in returned && !s.IsNoneLayout(x);
    var constantNames := set x | x in inputNames && x in s.constants;
    signature := Signature(inputNodes, deallocation, outputNodes, skip, constantNames);
    before := inputNames + (unmet - returned);
  }

  method CollectNames(p: Partition) returns (outputNames: set<Name>, freed: set<Name>)
    ensures outputNames == Outputs(p) && freed == Freed(p)
  {
    outputNames, freed := {}, {};
    for i := 0 to |p|
      invariant outputNames == Outputs(p[..i]) && freed == Freed(p[..i])
    {
      assert p[..i + 1] == p[..i] + [p[i]];
      outputNames, freed := outputNames + p[i].outputs, freed + p[i].lastUsage;
    }
    assert p[..|p|] == p;
  }

  predicate HasNoneLayout(s: Scheduler, n: Name) {
    n in s.nameToBuf && s.nameToBuf[n].noneLayout
  }

  /** The layout test, without its recursion: a buffer without layout counts as none, unless it is a mutation output
      whose real buffer has a layout or is not a buffer. */
  lemma LayoutTestIff(s: Scheduler, n: Name)
    requires s.Resolves()
    ensures s.IsNoneLayout(n) <==>
            && HasNoneLayout(s, n)
            && (s.nameToBuf[n].mutationOutput && n in s.mutationReal && s.mutationReal[n] != "" ==>
                  HasNoneLayout(s, s.mutationReal[n]))
  {
  }

  // ---------------------------------------------------------------------------------------------
  // What a signature lists, node by node

  predicate Uses(node: SchedNode, x: Name) {
    x in node.inputs || x in node.writes
  }

  predicate Produces(p: Partition, x: Name) {
    exists j | 0 <= j < |p| :: x in p[j].outputs
  }

  predicate Frees(p: Partition, n: Name) {
    exists i | 0 <= i < |p| :: n in p[i].lastUsage
  }

  /** Some node uses the storage `n` under a name `x` that no node of the partition produces. */
  predicate UsesAs(s: Scheduler, p: Partition, x: Name, n: Name)
    requires s.Resolves()
  {
    !s.IsNoneLayout(x) && s.Real(x) == n && !Produces(p, x) && exists i | 0 <= i < |p| :: Uses(p[i], x)
  }

  /** The partition uses `n` from outside, or frees a known node that it does not produce. */
  ghost predicate TakesIn(s: Scheduler, p: Partition, n: Name)
    requires s.Resolves()
  {
    (exists x :: UsesAs(s, p, x, n)) || (n in s.nameToNode && Frees(p, n) && !Produces(p, n))
  }

  lemma NamesAreCollected(p: Partition, x: Name)
    ensures x in Outputs(p) <==> Produces(p, x)
    ensures x in Freed(p) <==> Frees(p, x)
    ensures x in Accesses(p) <==> exists i | 0 <= i < |p| :: Uses(p[i], x)
  {
    if x in Accesses(p) {
      var node :| node in p && x in node.inputs + node.writes;
      var i :| 0 <= i < |p| && p[i] == node;
      assert Uses(p[i], x);
    }
    if i :| 0 <= i < |p| && Uses(p[i], x) {
      assert p[i] in p && x in p[i].inputs + p[i].writes;
    }
  }

  lemma InputNamesIff(s: Scheduler, p: Partition, n: Name)
    requires s.Resolves()
    ensures n in InputNames(s, p) <==> TakesIn(s, p, n)
  {
    forall x { NamesAreCollected(p, x); }
    hide Outputs, Freed, Accesses, Produces, Frees;
    if x :| UsesAs(s, p, x, n) {
      assert x in Accesses(p) && x !in Outputs(p);
    }
    if x :| x in Accesses(p) && !s.IsNoneLayout(x) && x !in Outputs(p) && s.Real(x) == n {
      assert UsesAs(s, p, x, n);
    }
  }

  /** The signature of a partition: the known nodes it takes in, each marked when the partition frees it; the
      constants it takes in; and, with storage, what it produces and is wanted, or takes in and keeps. */
  lemma SignatureLists(s: Scheduler, p: Partition, unmet: set<Name>, skip: bool, n: Name)
    requires s.Resolves()
    ensures var sig := SignatureOf(s, p, unmet, skip);
            && sig.skipCudagraph == skip && sig.inputDeallocation.Keys == sig.inputNodes
            && (n in sig.inputNodes <==> n in s.nameToNode && TakesIn(s, p, n))
            && (n in sig.inputNodes ==> (sig.inputDeallocation[n] <==> Frees(p, n)))
            && (n in sig.constantNames <==> n in s.constants && TakesIn(s, p, n))
            && (n in sig.outputNodes <==>
                  && !s.IsNoneLayout(n)
                  && exists m :: s.Real(m) == n
                       && ((Produces(p, m) && m in unmet) || (m in s.nameToNode && TakesIn(s, p, m) && !Frees(p, m))))
  {
    forall m
      ensures m in InputNames(s, p) <==> TakesIn(s, p, m)
      ensures m in Outputs(p) <==> Produces(p, m)
      ensures m in Freed(p) <==> Frees(p, m)
    {
      InputNamesIff(s, p, m);
      NamesAreCollected(p, m);
    }
    hide InputNames, Outputs, Freed, Produces, Frees, TakesIn;
    assert n in ReturnedNames(s, p, unmet) <==>
        exists m :: s.Real(m) == n && m in Outputs(p) * unmet + KeptInputs(s, p);
  }

  // ---------------------------------------------------------------------------------------------
  // The unmet set is liveness

  /** One backward step is the textbook liveness equation exactly when no demanded output of the
      partition is an alias of another buffer. */
  lemma StepIsLivenessIff(s: Scheduler, p: Partition, unmet: set<Name>)
    requires s.Resolves()
    ensures UnmetBefore(s, p, unmet) == InputNames(s, p) + (unmet - Outputs(p))
            <==> forall n | n in Outputs(p) * unmet :: s.Real(n) == n
  {
    var ret := ReturnedNames(s, p, unmet);
    if forall n | n in Outputs(p) * unmet :: s.Real(n) == n {
      forall n | n in unmet && n in ret && n !in Outputs(p)
        ensures n in InputNames(s, p)
      {
        var m :| m in Outputs(p) * unmet + KeptInputs(s, p) && s.Real(m) == n;
        if m in KeptInputs(s, p) { KeptInputsAreCanonical(s, p, m); }
      }
      forall n | n in unmet && n in Outputs(p)
        ensures n in ret
      {
        assert n in Outputs(p) * unmet + KeptInputs(s, p);
        assert s.Real(n) == n;
      }
      assert UnmetBefore(s, p, unmet) == InputNames(s, p) + (unmet - Outputs(p));
    } else {
      var b :| b in Outputs(p) * unmet && s.Real(b) != b;
      assert b !in ret;
      assert b in UnmetBefore(s, p, unmet);
      if b in InputNames(s, p) { OutputInputsAreCanonical(s, p, b); }
      assert b !in InputNames(s, p) + (unmet - Outputs(p));
    }
  }

  lemma KeptInputsAreCanonical(s: Scheduler, p: Partition, n: Name)
    requires s.Resolves() && n in KeptInputs(s, p)
    ensures s.Real(n) == n
  {
  }

  lemma OutputInputsAreCanonical(s: Scheduler, p: Partition, n: Name)
    requires s.Resolves() && n in InputNames(s, p) && n in Outputs(p)
    ensures s.Real(n) == n
  {
  }

  /** `n` is wanted by partition `j` itself, or by the caller of the graph when `j` is past the end. */
  predicate Demanded(s: Scheduler, parts: seq<Partition>, outs: set<Name>, j: nat, n: Name)
    requires s.Resolves() && j <= |parts|
  {
    if j == |parts| then n in outs else n in InputNames(s, parts[j])
  }

  /** Liveness by paths: `n` is demanded at some later point and nothing on the way produces it. */
  ghost predicate LiveAt(s: Scheduler, parts: seq<Partition>, outs: set<Name>, k: nat, n: Name)
    requires s.Resolves() && k <= |parts|
  {
    exists j :: k <= j <= |parts| && Demanded(s, parts, outs, j, n) && NotProduced(parts, k, j, n)
  }

  predicate NotProduced(parts: seq<Partition>, lo: nat, hi: nat, n: Name)
    requires lo <= hi <= |parts|
  {
    forall i | lo <= i < hi :: n !in Outputs(parts[i])
  }

  ghost predicate DemandsCanonical(s: Scheduler, parts: seq<Partition>, outs: set<Name>)
    requires s.Resolves()
  {
    forall j, n | 0 <= j <= |parts| && Demanded(s, parts, outs, j, n) :: s.Real(n) == n
  }

  lemma LiveAtStep(s: Scheduler, parts: seq<Partition>, outs: set<Name>, k: nat, n: Name)
    requires s.Resolves() && k < |parts|
    ensures LiveAt(s, parts, outs, k, n) <==>
            n in InputNames(s, parts[k]) || (n !in Outputs(parts[k]) && LiveAt(s, parts, outs, k + 1, n))
  {
    if n in InputNames(s, parts[k]) {
      assert Demanded(s, parts, outs, k, n) && NotProduced(parts, k, k, n);
    } else if n !in Outputs(parts[k]) && LiveAt(s, parts, outs, k + 1, n) {
      var j :| k + 1 <= j <= |parts| && Demanded(s, parts, outs, j, n) && NotProduced(parts, k + 1, j, n);
      assert NotProduced(parts, k, j, n);
    }
    if LiveAt(s, parts, outs, k, n) {
      var j :| k <= j <= |parts| && Demanded(s, parts, outs, j, n) && NotProduced(parts, k, j, n);
      if j != k { assert NotProduced(parts, k + 1, j, n); }
    }
  }

  /** The unmet set is exactly the live set. */
  lemma {:induction false} UnmetIsLiveness(s: Scheduler, parts: seq<Partition>, outs: set<Name>, k: nat)
    requires s.Resolves() && k <= |parts| && DemandsCanonical(s, parts, outs)
    ensures forall n :: n in Unmet(s, parts, outs, k) <==> LiveAt(s, parts, outs, k, n)
    decreases |parts| - k
  {
    if k == |parts| {
      forall n
        ensures n in outs <==> LiveAt(s, parts, outs, k, n)
      {
        assert Demanded(s, parts, outs, k, n) <==> n in outs;
        assert NotProduced(parts, k, k, n);
      }
    } else {
      UnmetIsLiveness(s, parts, outs, k + 1);
      var unmet := Unmet(s, parts, outs, k + 1);
      assert forall n | n in Outputs(parts[k]) * unmet :: s.Real(n) == n by {
        forall n | n in unmet
          ensures s.Real(n) == n
        {
          assert LiveAt(s, parts, outs, k + 1, n);
        }
      }
      StepIsLivenessIff(s, parts[k], unmet);
      forall n
        ensures n in Unmet(s, parts, outs, k) <==> LiveAt(s, parts, outs, k, n)
      {
        LiveAtStep(s, parts, outs, k, n);
      }
    }
  }

  /** Whatever a partition returns is an output that is live afterwards or an input it did not free. */
  lemma ReturnedIsLiveOrKept(s: Scheduler, parts: seq<Partition>, outs: set<Name>, k: nat, n: Name)
    requires s.Resolves() && k < |parts| && DemandsCanonical(s, parts, outs)
    ensures n in ReturnedNames(s, parts[k], Unmet(s, parts, outs, k + 1)) <==>
            || (n in Outputs(parts[k]) && LiveAt(s, parts, outs, k + 1, n))
            || (n in InputNames(s, parts[k]) && n in s.nameToNode && n !in Freed(parts[k]))
  {
    UnmetIsLiveness(s, parts, outs, k + 1);
    var unmet := Unmet(s, parts, outs, k + 1);
    forall m | m in Outputs(parts[k]) * unmet + KeptInputs(s, parts[k])
      ensures s.Real(m) == m
    {
      if m in unmet {
        assert LiveAt(s, parts, outs, k + 1, m);
      } else {
        KeptInputsAreCanonical(s, parts[k], m);
      }
    }
    assert ReturnedNames(s, parts[k], unmet) == Outputs(parts[k]) * unmet + KeptInputs(s, parts[k]);
  }

  /** Without canonical demands the law fails: a produced graph output that aliases another buffer is
      never met. */
  lemma AliasedOutputStaysUnmet()
    ensures var s := Scheduler(map[], map["b" := "a"], {"a", "b"}, {});
            var parts := [[SchedNode({"b"}, {"a"}, {}, {})]];
            s.Resolves() && "b" in Unmet(s, parts, {"b"}, 0) && !LiveAt(s, parts, {"b"}, 0, "b")
  {
    var s := Scheduler(map[], map["b" := "a"], {"a", "b"}, {});
    var p := [SchedNode({"b"}, {"a"}, {}, {})];
    assert p[0] in p;
    assert Outputs(p) == {"b"};
    assert forall x | x in Accesses(p) :: x == "a";
    assert s.Real("b") == "a" && s.Real("a") == "a";
    assert "b" !in InputNames(s, p);
    assert "b" !in ReturnedNames(s, p, {"b"});
    assert Unmet(s, [p], {"b"}, 1) == {"b"};
    assert Unmet(s, [p], {"b"}, 0) == UnmetBefore(s, p, {"b"});
    LiveAtStep(s, [p], {"b"}, 0, "b");
  }

  // ---------------------------------------------------------------------------------------------
  // Running the partitions

  /** The new contents of storage `n` once a node has run on the given arguments. */
  type Semantics = (SchedNode, Store, Name) -> Value

  function Restrict(st: Store, ns: set<Name>): Store {
    map n | n in ns && n in st :: st[n]
  }

  /** The storages a node must find before it runs. */
  function Needs(s: Scheduler, node: SchedNode): set<Name>
    requires s.Resolves()
  {
    s.RealSet(set x | x in node.inputs + node.writes && !s.IsNoneLayout(x)) - node.outputs
  }

  /** The storages a node writes. */
  function Touches(s: Scheduler, node: SchedNode): set<Name>
    requires s.Resolves()
  {
    s.RealSet(set x | x in node.writes + node.outputs && !s.IsNoneLayout(x))
  }

  function ApplyNode(s: Scheduler, sem: Semantics, node: SchedNode, st: Store): Store
    requires s.Resolves()
  {
    var args := Restrict(st, Needs(s, node));
    st + (map n | n in Touches(s, node) :: sem(node, args, n))
  }

  /** Nodes `i..` of a partition on its private store, freeing as they go; fails on a missing storage. */
  function RunNodes(s: Scheduler, sem: Semantics, p: Partition, i: nat, st: Store): Option<Store>
    requires s.Resolves() && i <= |p|
    decreases |p| - i
  {
    if i == |p| then Some(st)
    else if !(Needs(s, p[i]) <= st.Keys) then None
    else RunNodes(s, sem, p, i + 1, ApplyNode(s, sem, p[i], st) - p[i].lastUsage)
  }

  /** One call of a partition: copy the inputs in, run, copy the outputs out, drop the freed inputs. */
  function CallPartition(
      s: Scheduler, sem: Semantics, p: Partition, sig: Signature, consts: Store, env: Store): Option<Store>
    requires s.Resolves()
    requires sig.inputDeallocation.Keys == sig.inputNodes
  {
    if !(sig.inputNodes <= env.Keys) then None else
    match RunNodes(s, sem, p, 0, Restrict(env, sig.inputNodes) + Restrict(consts, sig.constantNames))
    case None => None
    case Some(local) =>
      if !(sig.outputNodes <= local.Keys) then None
      else Some((env - (set n | n in sig.inputNodes && sig.inputDeallocation[n])) + Restrict(local, sig.outputNodes))
  }

  function RunPartitions(
      s: Scheduler, sem: Semantics, parts: seq<Partition>, outs: set<Name>, consts: Store, k: nat, env: Store)
      : Option<Store>
    requires s.Resolves() && k <= |parts|
    decreases |parts| - k
  {
    if k == |parts| then if outs <= env.Keys then Some(env) else None
    else
      match CallPartition(s, sem, parts[k], SignatureAt(s, parts, outs, k, false), consts, env)
      case None => None
      case Some(env') => RunPartitions(s, sem, parts, outs, consts, k + 1, env')
  }

  function RunWholeNodes(s: Scheduler, sem: Semantics, p: Partition, i: nat, st: Store): Store
    requires s.Resolves() && i <= |p|
    decreases |p| - i
  {
    if i == |p| then st else RunWholeNodes(s, sem, p, i + 1, ApplyNode(s, sem, p[i], st))
  }

  /** The unpartitioned program: every node in one store, nothing freed. */
  function RunWhole(s: Scheduler, sem: Semantics, parts: seq<Partition>, k: nat, st: Store): Store
    requires s.Resolves() && k <= |parts|
    decreases |parts| - k
  {
    if k == |parts| then st else RunWhole(s, sem, parts, k + 1, RunWholeNodes(s, sem, parts[k], 0, st))
  }

  // What the scheduler guarantees about the partitions it hands to the pass.

  /** Every access to a name of the partition's own comes after its storage exists. */
  ghost predicate Ordered(s: Scheduler, p: Partition)
    requires s.Resolves()
  {
    forall i, x | 0 <= i < |p| && x in p[i].inputs + p[i].writes + p[i].outputs && !s.IsNoneLayout(x) && x in Outputs(p) ::
      s.Real(x) in Outputs(p[..i + 1]) || s.Real(x) in InputNames(s, p)
  }

  /** No node uses a storage that an earlier node of the partition freed. */
  ghost predicate LastUseIsLast(s: Scheduler, p: Partition)
    requires s.Resolves()
  {
    forall i, j, n | 0 <= i < j < |p| && n in p[i].lastUsage :: n !in Needs(s, p[j]) && n !in Touches(s, p[j])
  }

  ghost predicate Scheduled(s: Scheduler, p: Partition) {
    && s.WellFormed()
    && s.nameToNode !! s.constants
    && Freed(p) !! s.constants
    && Ordered(s, p)
    && LastUseIsLast(s, p)
    && InputNames(s, p) <= s.nameToNode + s.constants
    && (forall n | n in Outputs(p) && s.Stored(n) :: n in s.nameToNode)
    && (forall n | n in Freed(p) && n in s.nameToNode && n !in Outputs(p) :: s.Real(n) == n)
    && (forall i | 0 <= i < |p| :: Touches(s, p[i]) !! s.constants)
  }

  ghost predicate ScheduledProgram(s: Scheduler, parts: seq<Partition>, outs: set<Name>) {
    && s.WellFormed()
    && (forall k | 0 <= k < |parts| :: Scheduled(s, parts[k]))
    && (forall n | n in outs :: s.Stored(n) && n in s.nameToNode)
  }

  /** Buffers that a partition frees without having produced them are allocated at all. */
  predicate FreesStorage(s: Scheduler, p: Partition)
    requires s.Resolves()
  {
    forall n | n in Freed(p) - Outputs(p) && n in s.nameToNode :: !s.IsNoneLayout(n)
  }

  ghost predicate StoredProgram(s: Scheduler, parts: seq<Partition>, outs: set<Name>) {
    ScheduledProgram(s, parts, outs) && forall k | 0 <= k < |parts| :: FreesStorage(s, parts[k])
  }

  /** Nothing a partition frees is wanted by a later partition or by the caller. */
  predicate FreesAreDead(s: Scheduler, parts: seq<Partition>, outs: set<Name>, k: nat)
    requires s.Resolves() && k <= |parts|
  {
    forall j | k <= j < |parts| :: Freed(parts[j]) !! Unmet(s, parts, outs, j + 1)
  }

  /** `st` holds every name of `ns`, with the contents `whole` gives it. */
  predicate AgreesOn(st: Store, whole: Store, ns: set<Name>) {
    forall n | n in ns :: n in st && n in whole && st[n] == whole[n]
  }

  /** The unmet names that a store has to hold; constants come with the partition. */
  function UnmetNodes(s: Scheduler, parts: seq<Partition>, outs: set<Name>, k: nat): set<Name>
    requires s.Resolves() && k <= |parts|
  {
    set n | n in Unmet(s, parts, outs, k) && n in s.nameToNode
  }

  lemma InputsAreStored(s: Scheduler, p: Partition, n: Name)
    requires Scheduled(s, p) && FreesStorage(s, p) && n in InputNames(s, p)
    ensures s.Stored(n)
  {
  }

  lemma {:induction false} UnmetIsStored(s: Scheduler, parts: seq<Partition>, outs: set<Name>, k: nat, n: Name)
    requires StoredProgram(s, parts, outs) && k <= |parts| && n in Unmet(s, parts, outs, k)
    ensures s.Stored(n)
    decreases |parts| - k
  {
    if k < |parts| {
      if n in InputNames(s, parts[k]) {
        InputsAreStored(s, parts[k], n);
      } else {
        UnmetIsStored(s, parts, outs, k + 1, n);
      }
    }
  }

  /** The storages a partition can rely on before its node `i`. */
  function Available(s: Scheduler, p: Partition, i: nat): set<Name>
    requires s.Resolves() && i <= |p|
  {
    InputNames(s, p) + (set n | n in Outputs(p[..i]) && s.Stored(n)) - Freed(p[..i])
  }

  lemma OutputsUpTo(p: Partition, i: nat)
    requires i < |p|
    ensures Outputs(p[..i + 1]) == Outputs(p[..i]) + p[i].outputs
  {
    assert p[..i + 1] == p[..i] + [p[i]];
  }

  lemma OwnNameIsAvailable(s: Scheduler, p: Partition, i: nat, x: Name)
    requires s.WellFormed() && Ordered(s, p) && i < |p|
    requires x in p[i].inputs + p[i].writes && !s.IsNoneLayout(x) && s.Real(x) !in p[i].outputs && x in Outputs(p)
    ensures s.Real(x) in InputNames(s, p) || (s.Real(x) in Outputs(p[..i]) && s.Stored(s.Real(x)))
  {
    var r := s.Real(x);
    if r !in InputNames(s, p) {
      assert r in Outputs(p[..i + 1]);
      OutputsUpTo(p, i);
      assert s.Real(r) == r && !s.IsNoneLayout(r);
    }
  }

  lemma NeededIsNotFreed(s: Scheduler, p: Partition, i: nat, r: Name)
    requires s.Resolves() && LastUseIsLast(s, p) && i < |p| && r in Needs(s, p[i])
    ensures r !in Freed(p[..i])
  {
    hide Needs, Touches, Freed, Scheduler.Resolves;
    FreedBy(p, i, r);
  }

  lemma FreedBy(p: Partition, i: nat, r: Name)
    requires i <= |p|
    ensures r in Freed(p[..i]) ==> exists j :: 0 <= j < i && r in p[j].lastUsage
  {
    if r !in Freed(p[..i]) { return; }
    var node :| node in p[..i] && r in node.lastUsage;
    var j :| 0 <= j < |p[..i]| && p[..i][j] == node;
    assert p[j] == node;
  }

  lemma NeedsAreAvailable(s: Scheduler, p: Partition, i: nat)
    requires Scheduled(s, p) && i < |p|
    ensures Needs(s, p[i]) <= Available(s, p, i)
  {
    forall r | r in Needs(s, p[i])
      ensures r in Available(s, p, i)
    {
      var x :| x in p[i].inputs + p[i].writes && !s.IsNoneLayout(x) && s.Real(x) == r;
      NeededIsNotFreed(s, p, i, r);
      if x in Outputs(p) {
        OwnNameIsAvailable(s, p, i, x);
      } else {
        assert p[i] in p && x in Accesses(p);
      }
    }
  }

  lemma AvailableNext(s: Scheduler, p: Partition, i: nat)
    requires s.Resolves() && i < |p|
    ensures Available(s, p, i + 1) <= Available(s, p, i) + Touches(s, p[i]) - p[i].lastUsage
  {
    assert p[..i + 1] == p[..i] + [p[i]];
    forall n | n in Available(s, p, i + 1)
      ensures n in Available(s, p, i) + Touches(s, p[i]) - p[i].lastUsage
    {
      if n in p[i].outputs && s.Stored(n) { assert s.Real(n) in Touches(s, p[i]); }
    }
  }

  lemma ApplyNodeAgrees(s: Scheduler, sem: Semantics, node: SchedNode, st: Store, whole: Store)
    requires s.Resolves() && AgreesOn(st, whole, st.Keys) && Needs(s, node) <= st.Keys
    ensures ApplyNode(s, sem, node, st).Keys == st.Keys + Touches(s, node)
    ensures AgreesOn(ApplyNode(s, sem, node, st), ApplyNode(s, sem, node, whole), st.Keys + Touches(s, node))
  {
    assert Restrict(st, Needs(s, node)) == Restrict(whole, Needs(s, node));
  }

  /** Inside a call nothing is missing and every storage held is the one the whole program would hold. */
  lemma {:induction false} LocalRun(
      s: Scheduler, sem: Semantics, p: Partition, i: nat, st: Store, whole: Store)
    requires Scheduled(s, p) && i <= |p|
    requires Available(s, p, i) <= st.Keys && AgreesOn(st, whole, st.Keys)
    ensures RunNodes(s, sem, p, i, st).Some?
    ensures var local := RunNodes(s, sem, p, i, st).value;
            Available(s, p, |p|) <= local.Keys && AgreesOn(local, RunWholeNodes(s, sem, p, i, whole), local.Keys)
    decreases |p| - i
  {
    if i < |p| {
      NeedsAreAvailable(s, p, i);
      AvailableNext(s, p, i);
      ApplyNodeAgrees(s, sem, p[i], st, whole);
      LocalRun(s, sem, p, i + 1, ApplyNode(s, sem, p[i], st) - p[i].lastUsage, ApplyNode(s, sem, p[i], whole));
    }
  }

  lemma {:induction false} UntouchedIsUnchanged(
      s: Scheduler, sem: Semantics, p: Partition, i: nat, whole: Store, n: Name)
    requires s.Resolves() && i <= |p| && n in whole
    requires forall j | i <= j < |p| :: n !in Touches(s, p[j])
    ensures n in RunWholeNodes(s, sem, p, i, whole) && RunWholeNodes(s, sem, p, i, whole)[n] == whole[n]
    decreases |p| - i
  {
    if i < |p| {
      UntouchedIsUnchanged(s, sem, p, i + 1, ApplyNode(s, sem, p[i], whole), n);
    }
  }

  /** A live name that the partition does not return was not an input it may change, and no node of it
      writes that name. */
  lemma SurvivorIsUntouched(s: Scheduler, parts: seq<Partition>, outs: set<Name>, k: nat, n: Name)
    requires StoredProgram(s, parts, outs) && k < |parts|
    requires n in Unmet(s, parts, outs, k + 1) && n !in Freed(parts[k])
    requires n !in ReturnedNames(s, parts[k], Unmet(s, parts, outs, k + 1))
    ensures forall j | 0 <= j < |parts[k]| :: n !in Touches(s, parts[k][j])
  {
    var p := parts[k];
    UnmetIsStored(s, parts, outs, k + 1, n);
    assert Scheduled(s, p);
    assert s.Real(n) == n && n !in Outputs(p) && n !in KeptInputs(s, p);
    forall j | 0 <= j < |p|
      ensures n !in Touches(s, p[j])
    {
      if n in Touches(s, p[j]) {
        var x :| x in p[j].writes + p[j].outputs && !s.IsNoneLayout(x) && s.Real(x) == n;
        TouchedIsOwnOrInput(s, p, j, x);
      }
    }
  }

  lemma TouchedIsOwnOrInput(s: Scheduler, p: Partition, j: nat, x: Name)
    requires Scheduled(s, p) && j < |p| && x in p[j].writes + p[j].outputs && !s.IsNoneLayout(x)
    ensures s.Real(x) in Outputs(p) || s.Real(x) in InputNames(s, p)
  {
    assert p[j] in p;
    if x in Outputs(p) {
      if s.Real(x) !in InputNames(s, p) {
        assert s.Real(x) in Outputs(p[..j + 1]);
        assert forall node | node in p[..j + 1] :: node in p;
      }
    } else {
      assert x in Accesses(p);
    }
  }

  lemma ReturnedIsAvailable(s: Scheduler, parts: seq<Partition>, outs: set<Name>, k: nat)
    requires StoredProgram(s, parts, outs) && k < |parts|
    requires Freed(parts[k]) !! Unmet(s, parts, outs, k + 1)
    ensures SignatureAt(s, parts, outs, k, false).outputNodes <= Available(s, parts[k], |parts[k]|)
  {
    var p, unmet := parts[k], Unmet(s, parts, outs, k + 1);
    assert p[..|p|] == p;
    forall r | r in ReturnedNames(s, p, unmet)
      ensures r in Available(s, p, |p|)
    {
      var m :| m in Outputs(p) * unmet + KeptInputs(s, p) && s.Real(m) == r;
      if m in KeptInputs(s, p) {
        KeptInputsAreCanonical(s, p, m);
      } else {
        UnmetIsStored(s, parts, outs, k + 1, m);
      }
    }
  }

  /** What a call finds in its private store at the start. */
  lemma LocalStart(s: Scheduler, p: Partition, sig: Signature, consts: Store, env: Store, whole: Store)
    requires Scheduled(s, p) && sig.inputNodes == (set n | n in InputNames(s, p) && n in s.nameToNode)
    requires sig.constantNames == (set n | n in InputNames(s, p) && n in s.constants)
    requires AgreesOn(env, whole, sig.inputNodes) && AgreesOn(consts, whole, s.constants)
    ensures var st := Restrict(env, sig.inputNodes) + Restrict(consts, sig.constantNames);
            Available(s, p, 0) <= st.Keys && AgreesOn(st, whole, st.Keys)
  {
    assert p[..0] == [];
  }

  lemma CallKeepsUnmet(
      s: Scheduler, sem: Semantics, parts: seq<Partition>, outs: set<Name>, k: nat, consts: Store, env: Store, whole: Store)
    requires StoredProgram(s, parts, outs) && k < |parts|
    requires AgreesOn(env, whole, UnmetNodes(s, parts, outs, k)) && AgreesOn(consts, whole, s.constants)
    requires Freed(parts[k]) !! Unmet(s, parts, outs, k + 1)
    ensures var r := CallPartition(s, sem, parts[k], SignatureAt(s, parts, outs, k, false), consts, env);
            var whole' := RunWholeNodes(s, sem, parts[k], 0, whole);
            && r.Some? && AgreesOn(r.value, whole', UnmetNodes(s, parts, outs, k + 1))
            && AgreesOn(consts, whole', s.constants)
  {
    hide RunNodes, RunWholeNodes, Available, Touches, Freed;
    var p, sig, unmet := parts[k], SignatureAt(s, parts, outs, k, false), Unmet(s, parts, outs, k + 1);
    assert Scheduled(s, p);
    var st := Restrict(env, sig.inputNodes) + Restrict(consts, sig.constantNames);
    LocalStart(s, p, sig, consts, env, whole);
    LocalRun(s, sem, p, 0, st, whole);
    ReturnedIsAvailable(s, parts, outs, k);
    var whole' := RunWholeNodes(s, sem, p, 0, whole);
    var env' := CallPartition(s, sem, p, sig, consts, env).value;
    forall n | n in unmet && n in s.nameToNode
      ensures n in env' && n in whole' && env'[n] == whole'[n]
    {
      UnmetIsStored(s, parts, outs, k + 1, n);
      if n !in sig.outputNodes {
        SurvivorIsUntouched(s, parts, outs, k, n);
        UntouchedIsUnchanged(s, sem, p, 0, whole, n);
      }
    }
    forall n | n in s.constants
      ensures n in consts && n in whole' && consts[n] == whole'[n]
    {
      UntouchedIsUnchanged(s, sem, p, 0, whole, n);
    }
  }

  /** A call stops at the first node that uses a storage which is not there and which it does not produce itself. */
  lemma {:induction false} MissingStorageStops(
      s: Scheduler, sem: Semantics, p: Partition, i: nat, st: Store, x: Name)
    requires s.Resolves() && i < |p| && Uses(p[i], x) && !s.IsNoneLayout(x)
    requires s.Real(x) !in p[i].outputs && s.Real(x) !in st
    ensures RunNodes(s, sem, p, i, st).None?
  {
    assert x in p[i].inputs + p[i].writes;
    assert s.Real(x) in Needs(s, p[i]);
  }

  // A name lost while it is still live is never recovered.

  lemma {:induction false} MissingStaysMissing(
      s: Scheduler, sem: Semantics, parts: seq<Partition>, outs: set<Name>, consts: Store, k: nat, env: Store, n: Name)
    requires s.Resolves() && k <= |parts|
    requires n in Unmet(s, parts, outs, k) && n in s.nameToNode && n !in env
    ensures RunPartitions(s, sem, parts, outs, consts, k, env).None?
    decreases |parts| - k
  {
    if k < |parts| {
      var sig := SignatureAt(s, parts, outs, k, false);
      if n in InputNames(s, parts[k]) {
        assert n in sig.inputNodes;
      } else {
        match CallPartition(s, sem, parts[k], sig, consts, env)
        case None =>
        case Some(env') =>
          assert n !in env';
          MissingStaysMissing(s, sem, parts, outs, consts, k + 1, env', n);
      }
    }
  }

  lemma {:induction false} FreedIsGone(
      s: Scheduler, sem: Semantics, p: Partition, i: nat, st: Store, f: nat, n: Name)
    requires s.Resolves() && LastUseIsLast(s, p) && i <= |p| && f < |p| && n in p[f].lastUsage
    requires i <= f || n !in st
    ensures RunNodes(s, sem, p, i, st).Some? ==> n !in RunNodes(s, sem, p, i, st).value
    decreases |p| - i
  {
    if i < |p| && Needs(s, p[i]) <= st.Keys {
      FreedIsGone(s, sem, p, i + 1, ApplyNode(s, sem, p[i], st) - p[i].lastUsage, f, n);
    }
  }

  lemma FreedOutputFailsTheCall(
      s: Scheduler, sem: Semantics, parts: seq<Partition>, outs: set<Name>, consts: Store, k: nat, env: Store, n: Name)
    requires StoredProgram(s, parts, outs) && k < |parts|
    requires n in Freed(parts[k]) && n in Outputs(parts[k]) && n in Unmet(s, parts, outs, k + 1)
    ensures CallPartition(s, sem, parts[k], SignatureAt(s, parts, outs, k, false), consts, env).None?
  {
    var p, sig := parts[k], SignatureAt(s, parts, outs, k, false);
    UnmetIsStored(s, parts, outs, k + 1, n);
    assert s.Real(n) in sig.outputNodes;
    var f :| 0 <= f < |p| && n in p[f].lastUsage;
    FreedIsGone(s, sem, p, 0, Restrict(env, sig.inputNodes) + Restrict(consts, sig.constantNames), f, n);
  }

  lemma InputsAreKnown(s: Scheduler, p: Partition, n: Name)
    requires Scheduled(s, p) && n in InputNames(s, p)
    ensures n in s.nameToNode + s.constants
  {
  }

  lemma {:induction false} UnmetIsKnown(s: Scheduler, parts: seq<Partition>, outs: set<Name>, k: nat, n: Name)
    requires StoredProgram(s, parts, outs) && k <= |parts| && n in Unmet(s, parts, outs, k)
    ensures n in s.nameToNode + s.constants
    decreases |parts| - k
  {
    if k < |parts| {
      if n in InputNames(s, parts[k]) {
        InputsAreKnown(s, parts[k], n);
      } else {
        UnmetIsKnown(s, parts, outs, k + 1, n);
      }
    }
  }

  lemma FreedLiveNameFails(
      s: Scheduler, sem: Semantics, parts: seq<Partition>, outs: set<Name>, consts: Store, k: nat, env: Store, n: Name)
    requires StoredProgram(s, parts, outs) && k < |parts|
    requires n in Freed(parts[k]) && n in Unmet(s, parts, outs, k + 1)
    ensures RunPartitions(s, sem, parts, outs, consts, k, env).None?
  {
    var p, sig := parts[k], SignatureAt(s, parts, outs, k, false);
    assert Scheduled(s, p);
    if n in Outputs(p) {
      FreedOutputFailsTheCall(s, sem, parts, outs, consts, k, env, n);
    } else {
      UnmetIsKnown(s, parts, outs, k + 1, n);
      FreedInputIsNotReturned(s, parts, outs, k, n);
      match CallPartition(s, sem, p, sig, consts, env)
      case None =>
      case Some(env') =>
        assert n in sig.inputNodes && sig.inputDeallocation[n] && n !in env';
        MissingStaysMissing(s, sem, parts, outs, consts, k + 1, env', n);
    }
  }

  lemma FreedInputIsNotReturned(s: Scheduler, parts: seq<Partition>, outs: set<Name>, k: nat, n: Name)
    requires StoredProgram(s, parts, outs) && k < |parts| && n in Freed(parts[k]) && n !in Outputs(parts[k])
    ensures n !in ReturnedNames(s, parts[k], Unmet(s, parts, outs, k + 1))
  {
    var p, unmet := parts[k], Unmet(s, parts, outs, k + 1);
    forall m | m in Outputs(p) * unmet + KeptInputs(s, p)
      ensures s.Real(m) != n
    {
      if m in KeptInputs(s, p) {
        KeptInputsAreCanonical(s, p, m);
      } else {
        UnmetIsStored(s, parts, outs, k + 1, m);
      }
    }
  }

  lemma FreesAreDeadStep(s: Scheduler, parts: seq<Partition>, outs: set<Name>, k: nat)
    requires s.Resolves() && k < |parts|
    ensures FreesAreDead(s, parts, outs, k) <==>
            Freed(parts[k]) !! Unmet(s, parts, outs, k + 1) && FreesAreDead(s, parts, outs, k + 1)
  {
  }

  /** The run from partition `k` on reaches the end exactly when nothing it frees is wanted later, and then
      it holds the graph outputs as the unpartitioned program would. */
  ghost predicate KeepsMeaning(
      s: Scheduler, sem: Semantics, parts: seq<Partition>, outs: set<Name>, consts: Store, k: nat, env: Store, whole: Store)
    requires s.Resolves() && k <= |parts|
  {
    var r := RunPartitions(s, sem, parts, outs, consts, k, env);
    && (r.Some? <==> FreesAreDead(s, parts, outs, k))
    && (r.Some? ==> AgreesOn(r.value, RunWhole(s, sem, parts, k, whole), outs))
  }

  lemma KeepsMeaningAtEnd(
      s: Scheduler, sem: Semantics, parts: seq<Partition>, outs: set<Name>, consts: Store, env: Store, whole: Store)
    requires s.Resolves() && outs <= s.nameToNode && AgreesOn(env, whole, UnmetNodes(s, parts, outs, |parts|))
    ensures KeepsMeaning(s, sem, parts, outs, consts, |parts|, env, whole)
  {
  }

  lemma KeepsMeaningStep(
      s: Scheduler, sem: Semantics, parts: seq<Partition>, outs: set<Name>, consts: Store, k: nat, env: Store, whole: Store,
      env': Store, whole': Store)
    requires s.Resolves() && k < |parts| && Freed(parts[k]) !! Unmet(s, parts, outs, k + 1)
    requires CallPartition(s, sem, parts[k], SignatureAt(s, parts, outs, k, false), consts, env) == Some(env')
    requires whole' == RunWholeNodes(s, sem, parts[k], 0, whole)
    requires KeepsMeaning(s, sem, parts, outs, consts, k + 1, env', whole')
    ensures KeepsMeaning(s, sem, parts, outs, consts, k, env, whole)
  {
    FreesAreDeadStep(s, parts, outs, k);
    hide RunWholeNodes, CallPartition, FreesAreDead, AgreesOn, Unmet, Freed;
  }

  lemma FreedLiveNameStops(
      s: Scheduler, sem: Semantics, parts: seq<Partition>, outs: set<Name>, consts: Store, k: nat, env: Store)
    requires StoredProgram(s, parts, outs) && k < |parts|
    requires !(Freed(parts[k]) !! Unmet(s, parts, outs, k + 1))
    ensures forall whole :: KeepsMeaning(s, sem, parts, outs, consts, k, env, whole)
  {
    hide Freed, Unmet, RunPartitions, Scheduled;
    var n :| n in Freed(parts[k]) && n in Unmet(s, parts, outs, k + 1);
    FreedLiveNameFails(s, sem, parts, outs, consts, k, env, n);
  }

  lemma {:induction false} StoredRunPreservesMeaning(
      s: Scheduler, sem: Semantics, parts: seq<Partition>, outs: set<Name>, consts: Store, k: nat, env: Store, whole: Store)
    requires StoredProgram(s, parts, outs) && k <= |parts|
    requires AgreesOn(env, whole, UnmetNodes(s, parts, outs, k)) && AgreesOn(consts, whole, s.constants)
    ensures KeepsMeaning(s, sem, parts, outs, consts, k, env, whole)
    decreases |parts| - k
  {
    hide KeepsMeaning, RunPartitions, RunWhole, RunWholeNodes, AgreesOn, UnmetNodes, Unmet, Freed, Scheduled;
    if k == |parts| {
      KeepsMeaningAtEnd(s, sem, parts, outs, consts, env, whole);
    } else if Freed(parts[k]) !! Unmet(s, parts, outs, k + 1) {
      CallKeepsUnmet(s, sem, parts, outs, k, consts, env, whole);
      var env' := CallPartition(s, sem, parts[k], SignatureAt(s, parts, outs, k, false), consts, env).value;
      var whole' := RunWholeNodes(s, sem, parts[k], 0, whole);
      StoredRunPreservesMeaning(s, sem, parts, outs, consts, k + 1, env', whole');
      KeepsMeaningStep(s, sem, parts, outs, consts, k, env, whole, env', whole');
    } else {
      FreedLiveNameStops(s, sem, parts, outs, consts, k, env);
    }
  }

  /** The layout test is skipped for freed names: a layout-less buffer freed by a partition that did
      not produce it becomes an input of that partition, and nothing ever returns it. */
  lemma {:induction false} FreedLayoutlessBufferFails(
      s: Scheduler, sem: Semantics, parts: seq<Partition>, outs: set<Name>, consts: Store, k: nat, env: Store, j: nat, n: Name)
    requires s.Resolves() && k <= j < |parts|
    requires n in Freed(parts[j]) && n !in Outputs(parts[j]) && n in s.nameToNode && s.IsNoneLayout(n)
    requires n !in env
    ensures RunPartitions(s, sem, parts, outs, consts, k, env).None?
    decreases j - k
  {
    var sig := SignatureAt(s, parts, outs, k, false);
    if k == j {
      assert n in sig.inputNodes;
    } else {
      match CallPartition(s, sem, parts[k], sig, consts, env)
      case None =>
      case Some(env') =>
        assert n !in sig.outputNodes;
        FreedLayoutlessBufferFails(s, sem, parts, outs, consts, k + 1, env', j, n);
    }
  }

  // The pass returns the signatures that the run uses

  lemma InputsAreCanonical(s: Scheduler, p: Partition, n: Name)
    requires Scheduled(s, p) && n in InputNames(s, p)
    ensures s.Real(n) == n
  {
  }

  lemma {:induction false} UnmetIsCanonical(s: Scheduler, parts: seq<Partition>, outs: set<Name>, k: nat, n: Name)
    requires ScheduledProgram(s, parts, outs) && k <= |parts| && n in Unmet(s, parts, outs, k)
    ensures s.Real(n) == n
    decreases |parts| - k
  {
    if k < |parts| {
      hide InputNames;
      if n in InputNames(s, parts[k]) {
        InputsAreCanonical(s, parts[k], n);
      } else {
        UnmetIsCanonical(s, parts, outs, k + 1, n);
      }
    }
  }

  /** Every returned name with storage is a known node. */
  lemma ScheduledProgramHasLookups(s: Scheduler, parts: seq<Partition>, outs: set<Name>, k: nat)
    requires ScheduledProgram(s, parts, outs) && k < |parts|
    ensures Lookups(s, parts, outs, k)
  {
    hide Unmet, InputNames;
    var p, unmet := parts[k], Unmet(s, parts, outs, k + 1);
    assert Scheduled(s, p);
    forall r | r in ReturnedNames(s, p, unmet) && !s.IsNoneLayout(r)
      ensures r in s.nameToNode
    {
      var m :| m in Outputs(p) * unmet + KeptInputs(s, p) && s.Real(m) == r;
      if m in KeptInputs(s, p) {
        InputsAreCanonical(s, p, m);
      } else {
        UnmetIsCanonical(s, parts, outs, k + 1, m);
        assert s.Stored(m);
      }
    }
  }

  /** On every program as the scheduler guarantees it, the pass succeeds, and its signatures are those by which
      `RunPartitions` calls the partitions; the flag for graph capture plays no part in a call. */
  lemma PassSignsScheduledProgram(
      s: Scheduler, parts: seq<Partition>, skips: seq<bool>, outs: set<Name>, r: Result<seq<Signature>, SignatureError>)
    requires ScheduledProgram(s, parts, outs) && |parts| == |skips| && SignatureResult(s, parts, skips, outs, r)
    ensures r.Ok? && |r.value| == |parts|
    ensures forall k | 0 <= k < |parts| :: r.value[k].(skipCudagraph := false) == SignatureAt(s, parts, outs, k, false)
  {
    hide Lookups, Scheduled;
    forall k | 0 <= k < |parts|
      ensures Lookups(s, parts, outs, k)
    {
      ScheduledProgramHasLookups(s, parts, outs, k);
    }
    forall k | 0 <= k < |parts|
      ensures r.value[k].(skipCudagraph := false) == SignatureAt(s, parts, outs, k, false)
    {
      assert Lookups(s, parts, outs, k);
      assert r.value[k] == SignatureAt(s, parts, outs, k, skips[k]);
      FlagAside(s, parts, outs, k, skips[k]);
    }
  }

  lemma FlagAside(s: Scheduler, parts: seq<Partition>, outs: set<Name>, k: nat, skip: bool)
    requires s.Resolves() && k < |parts|
    ensures SignatureAt(s, parts, outs, k, skip).(skipCudagraph := false) == SignatureAt(s, parts, outs, k, false)
  {
  }

  /** The unmet nodes that stand for storage; the others are never allocated. */
  function AllocatedUnmet(s: Scheduler, parts: seq<Partition>, outs: set<Name>): set<Name>
    requires s.Resolves()
  {
    set n | n in UnmetNodes(s, parts, outs, 0) && !s.IsNoneLayout(n)
  }

  predicate OnlyAllocated(s: Scheduler, env: Store)
    requires s.Resolves()
  {
    forall n | n in env :: !s.IsNoneLayout(n)
  }

  lemma StoredUnmetIsAllocated(s: Scheduler, parts: seq<Partition>, outs: set<Name>)
    requires StoredProgram(s, parts, outs)
    ensures AllocatedUnmet(s, parts, outs) == UnmetNodes(s, parts, outs, 0)
  {
    forall n | n in Unmet(s, parts, outs, 0)
      ensures !s.IsNoneLayout(n)
    {
      UnmetIsStored(s, parts, outs, 0, n);
    }
  }

  /** From any environment of allocated buffers that has the unmet names, the partitioned program runs to the
      end exactly when nothing a partition frees is wanted later and nothing it frees lacks storage; and then it
      hands back the graph outputs with the contents the unpartitioned program gives them. */
  lemma PartitionedRunPreservesMeaning(
      s: Scheduler, sem: Semantics, parts: seq<Partition>, outs: set<Name>, consts: Store, env: Store, whole: Store)
    requires ScheduledProgram(s, parts, outs) && OnlyAllocated(s, env)
    requires AgreesOn(env, whole, AllocatedUnmet(s, parts, outs)) && AgreesOn(consts, whole, s.constants)
    ensures var r := RunPartitions(s, sem, parts, outs, consts, 0, env);
            && (r.Some? <==> FreesAreDead(s, parts, outs, 0) && forall j | 0 <= j < |parts| :: FreesStorage(s, parts[j]))
            && (r.Some? ==> AgreesOn(r.value, RunWhole(s, sem, parts, 0, whole), outs))
  {
    hide Unmet, UnmetNodes, RunPartitions, RunWhole, FreesAreDead, AgreesOn, Scheduled, AllocatedUnmet;
    if j :| 0 <= j < |parts| && !FreesStorage(s, parts[j]) {
      var n :| n in Freed(parts[j]) - Outputs(parts[j]) && n in s.nameToNode && s.IsNoneLayout(n);
      FreedLayoutlessBufferFails(s, sem, parts, outs, consts, 0, env, j, n);
    } else {
      StoredUnmetIsAllocated(s, parts, outs);
      StoredRunPreservesMeaning(s, sem, parts, outs, consts, 0, env, whole);
    }
  }

  // A program that meets everything the scheduler guarantees and still fails: partition 0 produces the
  // layout-less buffer "m" and the output "x", partition 1 uses "m" for the last time and frees it.

  const LAYOUTLESS := Scheduler(map["m" := Buffer(true, false)], map[], {"m", "x"}, {})
  const FREES_LAYOUTLESS: seq<Partition> := [[SchedNode({"m", "x"}, {}, {}, {})], [SchedNode({}, {"m"}, {}, {"m"})]]

  lemma NamesOfTheLayoutlessProgram()
    ensures var p, q := FREES_LAYOUTLESS[0], FREES_LAYOUTLESS[1];
            && Outputs(p) == {"m", "x"} && Freed(p) == {} && Accesses(p) == {} && p[..1] == p
            && Outputs(q) == {} && Freed(q) == {"m"} && Accesses(q) == {"m"}
  {
    var p, q := FREES_LAYOUTLESS[0], FREES_LAYOUTLESS[1];
    assert p[0] in p && q[0] in q;
    assert "m" in q[0].inputs + q[0].writes;
  }

  lemma FirstPartIsScheduled()
    ensures Scheduled(LAYOUTLESS, FREES_LAYOUTLESS[0])
  {
    NamesOfTheLayoutlessProgram();
    hide Outputs, Freed, Accesses;
  }

  lemma SecondPartIsScheduled()
    ensures Scheduled(LAYOUTLESS, FREES_LAYOUTLESS[1])
  {
    NamesOfTheLayoutlessProgram();
    hide Outputs, Freed, Accesses;
  }

  /** Whatever the scheduler guarantees holds, and nothing freed is wanted later. */
  lemma LayoutlessProgramIsScheduled()
    ensures ScheduledProgram(LAYOUTLESS, FREES_LAYOUTLESS, {"x"})
    ensures FreesAreDead(LAYOUTLESS, FREES_LAYOUTLESS, {"x"}, 0)
  {
    FirstPartIsScheduled();
    SecondPartIsScheduled();
    NamesOfTheLayoutlessProgram();
    hide Scheduled, Outputs, Freed, Accesses;
  }

  lemma LayoutlessProgramFails(sem: Semantics, consts: Store)
    ensures RunPartitions(LAYOUTLESS, sem, FREES_LAYOUTLESS, {"x"}, consts, 0, map[]).None?
  {
    var q := FREES_LAYOUTLESS[1];
    assert q[0] in q && "m" in Freed(q) && "m" !in Outputs(q);
    FreedLayoutlessBufferFails(LAYOUTLESS, sem, FREES_LAYOUTLESS, {"x"}, consts, 0, map[], 1, "m");
  }
}
