/**
 The executor that runs an application graph: it starts ready nodes up to a concurrency limit, waits
 for any of them to finish, records their outputs, and schedules again.

 Which tasks finish together and in what order is left open: `Await` promises its callers nothing beyond
 what the event loop promises.  `raises(n, k)` says whether a task of node `n` that is looked at when `k` nodes
 have finished has raised.
 */
module GraphExecutor {
  import opened Outcomes
  import opened ApplicationRequest

  datatype RunError = TaskFailed(node: Node) | Submission(error: SubmitError)

  predicate Eligible(g: Graph, r: Request, running: seq<Node>, n: Node) {
    n != g.exit && n !in running && InputReady(g, r, n)
  }

  /** Nodes running after a scheduling pass that looks at the waiting list from position `i` on. */
  function Admit(g: Graph, r: Request, limit: nat, running: seq<Node>, i: nat): seq<Node>
    requires i <= |r.waiting|
    decreases |r.waiting| - i
  {
    if i == |r.waiting| || |running| >= limit then running
    else if Eligible(g, r, running, r.waiting[i]) then Admit(g, r, limit, running + [r.waiting[i]], i + 1)
    else Admit(g, r, limit, running, i + 1)
  }

  /** What holds at every scheduling point. */
  ghost predicate RunningOk(g: Graph, r: Request, limit: nat, running: seq<Node>) {
    Valid(g, r) && RunningSet(g, r, limit, running)
  }

  /** The running nodes are distinct waiting nodes within the limit, all ready, never the exit node. */
  ghost predicate RunningSet(g: Graph, r: Request, limit: nat, running: seq<Node>) {
    && Distinct(running) && |running| <= limit
    && forall n | n in running :: n in r.waiting && n != g.exit && InputReady(g, r, n)
  }

  /** No node could be started now. */
  ghost predicate Saturated(g: Graph, r: Request, limit: nat, running: seq<Node>) {
    |running| == limit || forall n | n in r.waiting :: !Eligible(g, r, running, n)
  }

  lemma {:induction false} AdmitFacts(g: Graph, r: Request, limit: nat, running: seq<Node>, i: nat)
    requires i <= |r.waiting| && RunningSet(g, r, limit, running)
    ensures var after := Admit(g, r, limit, running, i);
            && running <= after && RunningSet(g, r, limit, after)
            && (|after| == limit || forall j | i <= j < |r.waiting| :: !Eligible(g, r, after, r.waiting[j]))
    decreases |r.waiting| - i
  {
    if i < |r.waiting| && |running| < limit {
      if Eligible(g, r, running, r.waiting[i]) {
        AdmitFacts(g, r, limit, running + [r.waiting[i]], i + 1);
        var after := Admit(g, r, limit, running + [r.waiting[i]], i + 1);
        assert r.waiting[i] == (running + [r.waiting[i]])[|running|] == after[|running|];
      } else {
        AdmitFacts(g, r, limit, running, i + 1);
      }
    }
  }

  /** First come, first served: a node that could still be started was left out because the limit is reached, and
      every node started in this pass stands before it in the waiting list. */
  lemma {:induction false} AdmitTakesFirst(g: Graph, r: Request, limit: nat, running: seq<Node>, i: nat, j: nat)
    requires i <= j < |r.waiting| && |running| <= limit
    requires Eligible(g, r, Admit(g, r, limit, running, i), r.waiting[j])
    ensures |Admit(g, r, limit, running, i)| == limit
    ensures forall m | |running| <= m < limit :: exists q | i <= q < j :: r.waiting[q] == Admit(g, r, limit, running, i)[m]
    decreases |r.waiting| - i
  {
    var n := r.waiting[i];
    if |running| < limit {
      var next := if Eligible(g, r, running, n) then running + [n] else running;
      AdmitExtends(g, r, limit, next, i + 1);
      PrefixContains(next, Admit(g, r, limit, running, i), n);
      assert i < j;
      AdmitTakesFirst(g, r, limit, next, i + 1, j);
      assert |next| > |running| ==> r.waiting[i] == Admit(g, r, limit, running, i)[|running|];
    }
  }

  lemma PrefixContains(a: seq<Node>, b: seq<Node>, n: Node)
    requires a <= b
    ensures n in a ==> n in b
  {
    assert b == a + b[|a|..];
  }

  lemma {:induction false} AdmitExtends(g: Graph, r: Request, limit: nat, running: seq<Node>, i: nat)
    requires i <= |r.waiting|
    ensures running <= Admit(g, r, limit, running, i)
    decreases |r.waiting| - i
  {
    if i < |r.waiting| && |running| < limit {
      var next := if Eligible(g, r, running, r.waiting[i]) then running + [r.waiting[i]] else running;
      AdmitExtends(g, r, limit, next, i + 1);
    }
  }

  /** One finished task leaves the rest of the running set as it was. */
  lemma FinishKeepsRunning(g: Graph, r: Request, limit: nat, running: seq<Node>, f: Node)
    requires RunningOk(g, r, limit, running) && f in running && f in r.inputs && Submit(g, r, f).Ok?
    ensures RunningOk(g, Submit(g, r, f).value, limit, Without(running, f))
    ensures Submit(g, r, f).value.inputs == r.inputs - {f}
    ensures Submit(g, r, f).value.finished == r.finished + [f]
  {
    SubmitKeepsValid(g, r, f);
    SubmitEffect(g, r, f);
    WithoutRemovesOne(r.waiting, f);
    WithoutKeepsDistinct(running, f);
    var r' := Submit(g, r, f).value;
    forall n | n in Without(running, f)
      ensures n in r'.waiting && n != g.exit && InputReady(g, r', n)
    {
      ReadyStaysReady(g, r, f, n);
      assert multiset(r.waiting)[n] > 0;
      assert multiset(r'.waiting)[n] > 0;
    }
  }

  lemma {:induction false} WithoutKeepsDistinct(s: seq<Node>, x: Node)
    requires Distinct(s)
    ensures Distinct(Without(s, x)) && |Without(s, x)| <= |s|
    ensures forall n :: n in Without(s, x) <==> n in s && n != x
  {
    if s != [] {
      assert s == [s[0]] + s[1..];
      DistinctCons(s[0], s[1..]);
      if s[0] != x {
        WithoutKeepsDistinct(s[1..], x);
        DistinctCons(s[0], Without(s[1..], x));
      }
    }
  }

  lemma InputsAreIrrelevant(g: Graph, r: Request, limit: nat, running: seq<Node>, inputs: set<Node>)
    requires RunningOk(g, r, limit, running)
    ensures RunningOk(g, r.(inputs := inputs), limit, running)
  {
    var r' := r.(inputs := inputs);
    assert Conserved(g, r') by {
      forall n: Node | n != g.entry
        ensures multiset(r'.waiting)[n] + multiset(r'.finished)[n] == Arrivals(g, r', n)
      {
        assert InnerPredsFinished(g, r, n) <==> InnerPredsFinished(g, r', n);
      }
    }
    assert DeliveriesMatch(g, r') by {
      forall n: Node, f: Node
        ensures Delivered(r, n, f) <==> Delivered(r', n, f)
      {
      }
    }
    forall n | n in running
      ensures InputReady(g, r', n)
    {
      assert CurrentPreds(g, r, n) == CurrentPreds(g, r', n);
    }
  }

  type Limit = n: nat | n >= 1 witness 1

  class Executor {
    const nodeConcurrency: Limit
    const req: RequestObject
    const raises: (Node, nat) -> bool
    var tasks: seq<Node>
    var running: seq<Node>

    constructor (nodeConcurrency: int, req: RequestObject, raises: (Node, nat) -> bool)
      ensures this.req == req && this.raises == raises
      ensures (nodeConcurrency >= 1 ==> this.nodeConcurrency == nodeConcurrency)
      ensures tasks == running == []
    {
      this.nodeConcurrency := if nodeConcurrency >= 1 then nodeConcurrency else 1;
      this.req, this.raises := req, raises;
      tasks, running := [], [];
    }

    /** The running list matches the tasks in flight and obeys the limit. */
    ghost predicate AtSchedulingPoint()
      reads this, req
    {
      RunningOk(req.graph, req.Value(), nodeConcurrency, running) && multiset(tasks) == multiset(running)
    }

    method ScheduleReadyNodes()
      requires AtSchedulingPoint()
      modifies this
      ensures AtSchedulingPoint() && Saturated(req.graph, req.Value(), nodeConcurrency, running)
      ensures running == Admit(req.graph, req.Value(), nodeConcurrency, old(running), 0)
    {
      ghost var g, r := req.graph, req.Value();
      AdmitFacts(g, r, nodeConcurrency, running, 0);
      var waiting := req.waiting;
      for i := 0 to |waiting|
        invariant waiting == r.waiting && req.Value() == r
        invariant Admit(g, r, nodeConcurrency, running, i) == Admit(g, r, nodeConcurrency, old(running), 0)
        invariant multiset(tasks) == multiset(running)
      {
        if |running| >= nodeConcurrency { return; }
        if waiting[i] == req.graph.exit { continue; }
        if waiting[i] in running { continue; }
        var ready := req.GetNodeInput(waiting[i]);
        if !ready { continue; }
        tasks := tasks + [waiting[i]];
        running := running + [waiting[i]];
      }
    }

    /** Every task in flight runs up to its first suspension, which hands the node its input. */
    method StartTasks()
      requires AtSchedulingPoint()
      modifies req`inputs
      ensures AtSchedulingPoint() && (forall n | n in running :: n in req.inputs)
      ensures req.Value().(inputs := {}) == old(req.Value()).(inputs := {})
    {
      for i := 0 to |tasks|
        invariant AtSchedulingPoint()
        invariant forall j | 0 <= j < i :: tasks[j] in req.inputs
        invariant req.Value().(inputs := {}) == old(req.Value()).(inputs := {})
      {
        ghost var before := req.Value();
        req.SubmitInput(tasks[i]);
        InputsAreIrrelevant(req.graph, before, nodeConcurrency, running, req.inputs);
      }
      forall n | n in running
        ensures n in req.inputs
      {
        assert n in multiset(running);
        assert n in tasks;
      }
    }

    /** Record the output of a finished task. */
    method FinishTask(f: Node) returns (r: Result<(), RunError>)
      requires RunningOk(req.graph, req.Value(), nodeConcurrency, running)
      requires f in running && forall n | n in running :: n in req.inputs
      modifies this`running, req
      ensures r.Ok? ==>
                && RunningOk(req.graph, req.Value(), nodeConcurrency, running)
                && running == Without(old(running), f) && (forall n | n in running :: n in req.inputs)
                && req.finished == old(req.finished) + [f]
      ensures r.Ok? <==> Distinct(req.graph.Succ(f)) && (req.graph.Succ(f) != [] ==> f !in old(req.finished))
      ensures Submittable(req.graph) ==> r.Ok?
      ensures r.Err? ==> r.error.Submission?
    {
      ghost var before := req.Value();
      ghost var g := req.graph;
      SubmitEffect(g, before, f);
      if Submittable(g) { SubmittableSubmitSucceeds(g, before, nodeConcurrency, running, f); }
      var s := req.SubmitOutput(f);
      if s.Err? { return Err(Submission(s.error)); }
      FinishKeepsRunning(g, before, nodeConcurrency, running, f);
      WithoutKeepsDistinct(running, f);
      running := Without(running, f);
      return Ok(());
    }

    /** The loop over the tasks that finished together. */
    method FinishAll(done: seq<Node>) returns (r: Result<(), RunError>)
      requires RunningOk(req.graph, req.Value(), nodeConcurrency, running)
      requires multiset(running) == multiset(tasks) + multiset(done)
      requires forall n | n in running :: n in req.inputs
      modifies this`running, req
      ensures r.Ok? ==> AtSchedulingPoint() && |req.finished| == |old(req.finished)| + |done|
      ensures r.Err? ==> if r.error.TaskFailed? then raises(r.error.node, |req.finished|) else !Submittable(req.graph)
    {
      hide RunningOk;
      for i := 0 to |done|
        invariant RunningOk(req.graph, req.Value(), nodeConcurrency, running)
        invariant multiset(running) == multiset(tasks) + multiset(done[i..])
        invariant forall n | n in running :: n in req.inputs
        invariant |req.finished| == |old(req.finished)| + i
      {
        assert done[i..] == [done[i]] + done[i + 1..];
        assert done[i] in multiset(running);
        if raises(done[i], |req.finished|) { return Err(TaskFailed(done[i])); }
        WithoutRemovesOne(running, done[i]);
        var s := FinishTask(done[i]);
        if s.Err? { return Err(s.error); }
      }
      return Ok(());
    }

    /** When it ends normally, nothing runs and nothing could be started.  It stops early only for a task that
        raised or for a graph on which some submission must fail; hence, when every node can be reached and no
        task raises, it ends normally exactly on the submittable graphs. */
    method RunApplication() returns (r: Result<(), RunError>)
      requires AtSchedulingPoint() && tasks == []
      modifies this, req
      ensures r.Ok? ==> AtSchedulingPoint() && running == [] && Saturated(req.graph, req.Value(), nodeConcurrency, [])
      ensures r.Err? ==> if r.error.TaskFailed? then raises(r.error.node, |req.finished|) else !Submittable(req.graph)
      ensures IsLayered(req.graph) && (forall n, k :: !raises(n, k)) ==> (r.Ok? <==> Submittable(req.graph))
    {
      hide RunningOk, Saturated, ArrivalBound, Submittable, IsLayered;
      EmptyMultiset(running);
      ScheduleReadyNodes();
      while tasks != []
        invariant AtSchedulingPoint() && Saturated(req.graph, req.Value(), nodeConcurrency, running)
        decreases |ArrivalBound(req.graph)| - |req.finished|
      {
        StartTasks();
        var done, pending := Await(tasks);
        tasks := pending;
        var s := FinishAll(done);
        if s.Err? { return Err(s.error); }
        RunIsBounded(req.graph, req.Value(), nodeConcurrency, running);
        ScheduleReadyNodes();
      }
      EmptyMultiset(running);
      CompleteLayeredRunIsSubmittable(req.graph, req.Value(), nodeConcurrency);
      return Ok(());
    }
  }

  lemma RunIsBounded(g: Graph, r: Request, limit: nat, running: seq<Node>)
    requires RunningOk(g, r, limit, running)
    ensures |r.finished| <= |ArrivalBound(g)|
  {
    hide Valid;
    FinishedIsBounded(g, r);
  }

  lemma CompleteLayeredRunIsSubmittable(g: Graph, r: Request, limit: Limit)
    requires RunningOk(g, r, limit, []) && Saturated(g, r, limit, [])
    ensures IsLayered(g) ==> Submittable(g)
  {
    hide Valid, Layered, Submittable, Saturated;
    if IsLayered(g) {
      var rank :| Layered(g, rank);
      CompleteRunIsSubmittable(g, r, limit, rank);
    }
  }

  lemma EmptyMultiset(s: seq<Node>)
    ensures multiset(s) == multiset{} ==> s == []
  {
    if s != [] { assert s[0] in multiset(s); }
  }

  /** The event loop hands back at least one finished task and the rest as pending. */
  method Await(tasks: seq<Node>) returns (done: seq<Node>, pending: seq<Node>)
    requires tasks != []
    ensures done != [] && multiset(done) + multiset(pending) == multiset(tasks)
  {
    done, pending := [tasks[0]], tasks[1..];
    assert tasks == done + pending;
  }

  // ---------------------------------------------------------------------------------------------
  // Which nodes run, and how often

  /** How often a complete run executes `n`. */
  function Weight(g: Graph, n: Node): nat {
    multiset(g.Succ(g.entry))[n] + if g.InnerPreds(n) != {} then 1 else 0
  }

  /** No parallel edges, and no successor of the entry node has another predecessor or another entry edge. */
  ghost predicate Simple(g: Graph) {
    && (forall f | f in g.nodes && f != g.entry :: Distinct(g.Succ(f)))
    && (forall n | n in g.nodes && n != g.entry && n != g.exit :: Weight(g, n) <= 1)
  }

  /** Edges lead upwards in `rank`, none leaves the exit node, and every node but the entry has a predecessor. */
  ghost predicate Layered(g: Graph, rank: Node -> nat) {
    && g.Succ(g.exit) == []
    && (forall f, i | f in g.edges && 0 <= i < |g.edges[f]| :: rank(f) < rank(g.edges[f][i]))
    && (forall n | n in g.nodes && n != g.entry :: Weight(g, n) >= 1)
  }

  ghost predicate OnceEach(g: Graph, r: Request) {
    forall n | n in g.nodes && n != g.entry && n != g.exit :: multiset(r.finished)[n] == 1
  }

  /** Every submission that a run has to make succeeds: a node has no parallel edges, and a node with successors
      becomes runnable only once. */
  ghost predicate Submittable(g: Graph) {
    forall f | f in g.nodes && f != g.entry && f != g.exit ::
      Distinct(g.Succ(f)) && (g.Succ(f) != [] ==> Weight(g, f) <= 1)
  }

  ghost predicate IsLayered(g: Graph) {
    exists rank: Node -> nat :: Layered(g, rank)
  }

  lemma SimpleIsSubmittable(g: Graph)
    requires Simple(g)
    ensures Submittable(g)
  {
  }

  lemma SubmittableSubmitSucceeds(g: Graph, r: Request, limit: nat, running: seq<Node>, f: Node)
    requires Submittable(g) && RunningOk(g, r, limit, running) && f in running && f in r.inputs
    ensures Submit(g, r, f).Ok?
  {
    SubmitEffect(g, r, f);
    assert f in r.waiting && f in g.nodes && f != g.entry && f != g.exit;
    assert multiset(r.waiting)[f] >= 1;
    assert multiset(r.waiting)[f] + multiset(r.finished)[f] == Arrivals(g, r, f) <= Weight(g, f);
  }

  /** A run that has completed shows that every submission could be made. */
  lemma CompleteRunIsSubmittable(g: Graph, r: Request, limit: nat, rank: Node -> nat)
    requires Valid(g, r) && limit >= 1 && Saturated(g, r, limit, []) && Layered(g, rank)
    ensures Submittable(g)
  {
    CompleteRunCounts(g, r, limit, rank);
    forall f | f in g.nodes && f != g.entry && f != g.exit
      ensures Distinct(g.Succ(f))
    {
      CompleteRunFinishes(g, r, limit, rank, f);
    }
  }

  /** At every point of every run on a simple graph, no node has run twice or is waiting to run again. */
  lemma SimpleRunsAtMostOnce(g: Graph, r: Request, n: Node)
    requires Simple(g) && Valid(g, r) && n in g.nodes && n != g.entry && n != g.exit
    ensures multiset(r.finished)[n] + multiset(r.waiting)[n] <= 1
  {
    assert Arrivals(g, r, n) <= Weight(g, n);
  }

  lemma {:induction false} CompleteRunFinishes(g: Graph, r: Request, limit: nat, rank: Node -> nat, n: Node)
    requires Valid(g, r) && limit >= 1 && Saturated(g, r, limit, []) && Layered(g, rank)
    requires n in g.nodes && n != g.exit
    ensures n in r.finished && InnerPredsFinished(g, r, n)
    ensures n != g.entry ==> multiset(r.waiting)[n] == 0 && multiset(r.finished)[n] == Weight(g, n)
    decreases rank(n)
  {
    forall src | src in g.InnerPreds(n)
      ensures src in r.finished
    {
      var i :| 0 <= i < |g.edges[src]| && g.edges[src][i] == n;
      assert rank(src) < rank(n) && src in g.nodes && src != g.exit;
      CompleteRunFinishes(g, r, limit, rank, src);
    }
    if n == g.entry {
      assert multiset(r.finished)[g.entry] == 1;
    } else {
      SharedListIsHarmless(g, r, n);
      assert n in r.waiting ==> Eligible(g, r, [], n);
      assert multiset(r.finished)[n] == Arrivals(g, r, n) == Weight(g, n);
    }
  }

  /** In a complete run every node ran `Weight` times and only the exit node is left waiting; hence
      every node ran once exactly when the graph is simple. */
  lemma CompleteRunCounts(g: Graph, r: Request, limit: nat, rank: Node -> nat)
    requires Valid(g, r) && limit >= 1 && Saturated(g, r, limit, []) && Layered(g, rank)
    ensures forall n | n in g.nodes && n != g.entry && n != g.exit :: multiset(r.finished)[n] == Weight(g, n)
    ensures forall n | n in r.waiting :: n == g.exit
    ensures forall n | n in g.nodes && n != g.entry && n != g.exit && g.Succ(n) != [] :: Weight(g, n) == 1
    ensures OnceEach(g, r) <==> Simple(g)
  {
    forall n | n in g.nodes && n != g.exit
      ensures n in r.finished
      ensures n != g.entry ==> multiset(r.waiting)[n] == 0 && multiset(r.finished)[n] == Weight(g, n)
    {
      CompleteRunFinishes(g, r, limit, rank, n);
    }
    forall n | n in r.waiting
      ensures n == g.exit
    {
      assert multiset(r.waiting)[n] > 0;
    }
    forall f | f in g.nodes && f != g.entry
      ensures Distinct(g.Succ(f))
    {
    }
  }

  lemma {:induction false} OnlyExitWaitingAdmitsNothing(g: Graph, r: Request, limit: nat, i: nat)
    requires i <= |r.waiting| && forall n | n in r.waiting :: n == g.exit
    ensures Admit(g, r, limit, [], i) == []
    decreases |r.waiting| - i
  {
    if i < |r.waiting| {
      assert r.waiting[i] in r.waiting;
      OnlyExitWaitingAdmitsNothing(g, r, limit, i + 1);
    }
  }

  /** The finished run has emptied the graph's own entry list down to the exit node, so a second
      request on the same graph starts nothing. */
  lemma SecondRequestRunsNothing(g: Graph, r: Request, limit: nat, rank: Node -> nat)
    requires Valid(g, r) && limit >= 1 && Saturated(g, r, limit, []) && Layered(g, rank)
    ensures var shared := g.(edges := g.edges[g.entry := r.waiting]);
            Admit(shared, Start(shared), limit, [], 0) == []
  {
    CompleteRunCounts(g, r, limit, rank);
    var shared := g.(edges := g.edges[g.entry := r.waiting]);
    assert Start(shared).waiting == r.waiting;
    OnlyExitWaitingAdmitsNothing(shared, Start(shared), limit, 0);
  }

  /** The smallest graph that is not simple: the entry feeds nodes 1 and 2, and node 1 feeds node 2. */
  const TRIANGLE := Graph({0, 1, 2, 3}, map[0 := [1, 2], 1 := [2], 2 := [3]], 0, 3)

  lemma TriangleIsWellFormed()
    ensures TRIANGLE.WellFormed()
  {
  }

  lemma TriangleIsLayered()
    ensures TRIANGLE.WellFormed() && Layered(TRIANGLE, (n: Node) => n)
    ensures Weight(TRIANGLE, 2) == 2
  {
    TriangleIsWellFormed();
    hide Graph.WellFormed;
    assert 1 in TRIANGLE.InnerPreds(2) && 2 in TRIANGLE.InnerPreds(3);
    assert TRIANGLE.Succ(0)[0] == 1 && TRIANGLE.Succ(0)[1] == 2;
  }

  lemma TriangleIsNotSubmittable()
    ensures IsLayered(TRIANGLE) && !Submittable(TRIANGLE)
  {
    TriangleIsLayered();
    assert TRIANGLE.Succ(2) == [3];
    hide Layered, Weight, Graph.WellFormed, Graph.Succ;
  }

  /** A graph that is not simple and still completes: node 2 is queued twice but has no successors. */
  const DEAD_END := Graph({0, 1, 2, 3}, map[0 := [1, 2, 3], 1 := [2]], 0, 3)

  lemma DeadEndWeights()
    ensures var g := DEAD_END; g.Succ(1) == [2] && g.Succ(2) == [] && g.Succ(3) == []
    ensures var g := DEAD_END; Weight(g, 1) == 1 && Weight(g, 2) == 2 && Weight(g, 3) == 1
  {
    var g := DEAD_END;
    assert g.Succ(0) == [1, 2, 3];
    assert 1 in g.InnerPreds(2);
    assert g.InnerPreds(1) == {} && g.InnerPreds(3) == {};
  }

  lemma DeadEndIsLayered()
    ensures Layered(DEAD_END, (n: Node) => n)
  {
    DeadEndWeights();
    hide Weight, Graph.Succ;
  }

  lemma DeadEndIsSubmittable()
    ensures IsLayered(DEAD_END) && Submittable(DEAD_END) && !Simple(DEAD_END)
  {
    DeadEndIsLayered();
    DeadEndWeights();
    hide Weight, Graph.Succ, Layered;
  }

  /** Node 2 is queued twice, so no run on the triangle ever completes. */
  lemma TriangleNeverCompletes(r: Request, limit: nat)
    requires limit >= 1
    ensures !(Valid(TRIANGLE, r) && Saturated(TRIANGLE, r, limit, []))
  {
    hide Valid, Saturated, Layered, Weight;
    TriangleIsLayered();
    if Valid(TRIANGLE, r) && Saturated(TRIANGLE, r, limit, []) {
      CompleteRunCounts(TRIANGLE, r, limit, (n: Node) => n);
    }
  }
}
