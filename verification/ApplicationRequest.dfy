/**
 The per-request bookkeeping of an application graph: which nodes wait, which have finished, and
 which predecessor outputs each node has received.

 The waiting list of a request *is* the graph's own successor list of the entry node, so every
 change to the waiting list also changes the graph.  The model keeps that: the predecessor test
 reads the entry node's edges from the waiting list.
 */
module ApplicationRequest {
  import opened Outcomes

  type Node = nat

  datatype Graph = Graph(nodes: set<Node>, edges: map<Node, seq<Node>>, entry: Node, exit: Node) {
    function Succ(n: Node): seq<Node> {
      if n in edges then edges[n] else []
    }

    /** Predecessors other than the entry node. */
    function InnerPreds(n: Node): set<Node> {
      set src | src in edges && src != entry && n in edges[src]
    }

    /** Edges join known nodes, and nothing leads into the entry node. */
    predicate WellFormed() {
      && entry in nodes && exit in nodes && entry != exit
      && edges.Keys <= nodes
      && (forall src, i | src in edges && 0 <= i < |edges[src]| :: edges[src][i] in nodes && edges[src][i] != entry)
    }

    /** A submission by `f` reaches all its successors: the exit node delivers to none. */
    predicate Delivers(f: Node) {
      f != exit || Succ(f) == []
    }
  }

  /** The lists and dictionaries of one request.  `queued[n]` holds the nodes whose output has been
      delivered to `n`; `inputs` the nodes that have been given their input. */
  datatype Request = Request(
    waiting: seq<Node>, finished: seq<Node>, queued: map<Node, set<Node>>, inputs: set<Node>)

  datatype SubmitError = NotWaiting | NoInput | DeliveredTwice

  function Start(g: Graph): Request {
    Request(g.Succ(g.entry), [g.entry], map n | n in g.Succ(g.entry) :: {g.entry}, {})
  }

  /** Predecessors as the graph reports them, the entry node's edges being the waiting list. */
  function CurrentPreds(g: Graph, r: Request, n: Node): set<Node> {
    set src | src in g.edges && n in (if src == g.entry then r.waiting else g.edges[src])
  }

  predicate PredsFinished(g: Graph, r: Request, n: Node) {
    forall src | src in CurrentPreds(g, r, n) :: src in r.finished
  }

  /** `get_node_input` raises no assertion. */
  predicate InputReady(g: Graph, r: Request, n: Node) {
    n in g.nodes && n in r.queued && PredsFinished(g, r, n)
  }

  function Without(s: seq<Node>, x: Node): seq<Node> {
    if s == [] then [] else if s[0] == x then s[1..] else [s[0]] + Without(s[1..], x)
  }

  predicate Delivered(r: Request, n: Node, src: Node) {
    n in r.queued && src in r.queued[n]
  }

  /** Deliver the output of `f` to its successor `n`. */
  function DeliverOne(g: Graph, r: Request, f: Node, n: Node): Request {
    var got := if n in r.queued then r.queued[n] else {};
    var r' := r.(queued := r.queued[n := got + {f}]);
    if PredsFinished(g, r', n) then r'.(waiting := r'.waiting + [n]) else r'
  }

  /** Deliver the output of `f` to its successors from the `i`-th on. */
  function Deliver(g: Graph, r: Request, f: Node, i: nat): Result<Request, SubmitError>
    requires i <= |g.Succ(f)|
    decreases |g.Succ(f)| - i
  {
    if i == |g.Succ(f)| then Ok(r)
    else if Delivered(r, g.Succ(f)[i], f) then Err(DeliveredTwice)
    else Deliver(g, DeliverOne(g, r, f, g.Succ(f)[i]), f, i + 1)
  }

  /** Bookkeeping done before any delivery. */
  function Retire(r: Request, f: Node): Request {
    Request(Without(r.waiting, f), r.finished + [f], r.queued, r.inputs - {f})
  }

  function Submit(g: Graph, r: Request, f: Node): Result<Request, SubmitError> {
    if f !in r.waiting then Err(NotWaiting)
    else if f !in r.inputs then Err(NoInput)
    else if f == g.exit then Ok(Retire(r, f))
    else Deliver(g, Retire(r, f), f, 0)
  }

  /** What the deliveries from the `i`-th successor on leave behind, whether or not they stop early. */
  function DeliveredSoFar(g: Graph, r: Request, f: Node, i: nat): Request
    requires i <= |g.Succ(f)|
    decreases |g.Succ(f)| - i
  {
    if i == |g.Succ(f)| || Delivered(r, g.Succ(f)[i], f) then r
    else DeliveredSoFar(g, DeliverOne(g, r, f, g.Succ(f)[i]), f, i + 1)
  }

  /** What a submission leaves behind, whether or not it fails: a node without an input has already changed
      lists, and a failing delivery comes after the earlier ones. */
  function Attempted(g: Graph, r: Request, f: Node): Request {
    if f !in r.waiting then r
    else if f !in r.inputs then r.(waiting := Without(r.waiting, f), finished := r.finished + [f])
    else if f == g.exit then Retire(r, f)
    else DeliveredSoFar(g, Retire(r, f), f, 0)
  }

  lemma {:induction false} DeliveredSoFarIsDelivered(g: Graph, r: Request, f: Node, i: nat)
    requires i <= |g.Succ(f)|
    ensures Deliver(g, r, f, i).Ok? ==> DeliveredSoFar(g, r, f, i) == Deliver(g, r, f, i).value
    decreases |g.Succ(f)| - i
  {
    if i < |g.Succ(f)| && !Delivered(r, g.Succ(f)[i], f) {
      DeliveredSoFarIsDelivered(g, DeliverOne(g, r, f, g.Succ(f)[i]), f, i + 1);
    }
  }

  class RequestObject {
    const graph: Graph
    var waiting: seq<Node>
    var finished: seq<Node>
    var queued: map<Node, set<Node>>
    var inputs: set<Node>

    function Value(): Request
      reads this
    {
      Request(waiting, finished, queued, inputs)
    }

    constructor (graph: Graph)
      ensures this.graph == graph && Value() == Start(graph)
    {
      this.graph := graph;
      finished := [graph.entry];
      waiting := graph.Succ(graph.entry);
      queued := map n | n in graph.Succ(graph.entry) :: {graph.entry};
      inputs := {};
    }

    method GetNodeInput(n: Node) returns (ready: bool)
      ensures ready == InputReady(graph, Value(), n)
    {
      ready := n in graph.nodes && n in queued && PredsFinished(graph, Value(), n);
    }

    method SubmitInput(n: Node)
      modifies this`inputs
      ensures Value() == old(Value()).(inputs := old(inputs) + {n})
    {
      inputs := inputs + {n};
    }

    /** A failed submission leaves what had been changed before the failing assertion or lookup. */
    method SubmitOutput(f: Node) returns (r: Result<(), SubmitError>)
      requires f == graph.entry ==> f !in waiting
      modifies this
      ensures match Submit(graph, old(Value()), f)
              case Ok(after) => r == Ok(()) && Value() == after
              case Err(e) => r == Err(e)
      ensures Value() == Attempted(graph, old(Value()), f)
    {
      hide DeliverOne, Without;
      if f !in waiting { return Err(NotWaiting); }
      waiting := Without(waiting, f);
      finished := finished + [f];
      if f !in inputs { return Err(NoInput); }
      inputs := inputs - {f};
      if f == graph.exit { return Ok(()); }
      ghost var retired := Value();
      var successors := graph.Succ(f);
      for i := 0 to |successors|
        invariant Deliver(graph, Value(), f, i) == Deliver(graph, retired, f, 0)
        invariant DeliveredSoFar(graph, Value(), f, i) == DeliveredSoFar(graph, retired, f, 0)
      {
        var ok := DeliverTo(f, successors[i]);
        if !ok { return Err(DeliveredTwice); }
      }
      return Ok(());
    }

    /** The body of the delivery loop. */
    method DeliverTo(f: Node, n: Node) returns (ok: bool)
      modifies this
      ensures ok <==> !Delivered(old(Value()), n, f)
      ensures Value() == if ok then DeliverOne(graph, old(Value()), f, n) else old(Value())
    {
      hide PredsFinished;
      if n !in queued { queued := queued[n := {}]; }
      if f in queued[n] { return false; }
      queued := queued[n := queued[n] + {f}];
      assert queued == old(queued)[n := (if n in old(queued) then old(queued)[n] else {}) + {f}];
      if PredsFinished(graph, Value(), n) { waiting := waiting + [n]; }
      return true;
    }
  }

  // ---------------------------------------------------------------------------------------------
  // What every submission keeps

  predicate Distinct(s: seq<Node>) {
    forall i, j | 0 <= i < j < |s| :: s[i] != s[j]
  }

  predicate InnerPredsFinished(g: Graph, r: Request, n: Node) {
    forall src | src in g.InnerPreds(n) :: src in r.finished
  }

  /** How often `n` has become runnable: once for every entry edge, and once more when the last of its
      other predecessors finished. */
  function Arrivals(g: Graph, r: Request, n: Node): nat {
    multiset(g.Succ(g.entry))[n] + if g.InnerPreds(n) != {} && InnerPredsFinished(g, r, n) then 1 else 0
  }

  /** Every arrival of a node is still waiting or has been run. */
  ghost predicate Conserved(g: Graph, r: Request) {
    forall n: Node | n != g.entry ::
      multiset(r.waiting)[n] + multiset(r.finished)[n] == Arrivals(g, r, n)
  }

  /** Deliveries are exactly the edges out of finished nodes, plus the prompt to the entry's successors. */
  ghost predicate DeliveriesMatch(g: Graph, r: Request) {
    && (forall n: Node, f: Node | f != g.entry :: Delivered(r, n, f) <==> f in r.finished && n in g.Succ(f))
    && (forall n | n in r.waiting :: n in r.queued)
  }

  /** Every node ran after all its predecessors. */
  ghost predicate InDependencyOrder(g: Graph, r: Request) {
    forall i, src | 0 <= i < |r.finished| && src in g.InnerPreds(r.finished[i]) :: src in r.finished[..i]
  }

  ghost predicate Valid(g: Graph, r: Request) {
    && g.WellFormed()
    && multiset(r.finished)[g.entry] == 1 && g.entry !in r.waiting
    && (forall n | n in r.waiting :: n in g.nodes)
    && Conserved(g, r)
    && DeliveriesMatch(g, r)
    && InDependencyOrder(g, r)
    && (forall f | f in r.finished && f != g.entry :: Distinct(g.Succ(f)))
    && (forall f: Node | f != g.entry && g.Succ(f) != [] :: multiset(r.finished)[f] <= 1)
  }

  /** The shared list is harmless within one request: the entry node has always finished. */
  lemma SharedListIsHarmless(g: Graph, r: Request, n: Node)
    requires g.entry in r.finished
    ensures PredsFinished(g, r, n) <==> InnerPredsFinished(g, r, n)
  {
    if PredsFinished(g, r, n) {
      forall src | src in g.InnerPreds(n)
        ensures src in r.finished
      {
        assert src in CurrentPreds(g, r, n);
      }
    }
  }

  /** A waiting node passes the checks of `get_node_input` exactly when its other predecessors have finished;
      successors of the entry node may wait before that. */
  lemma WaitingReadyIff(g: Graph, r: Request, n: Node)
    requires Valid(g, r) && n in r.waiting
    ensures InputReady(g, r, n) <==> InnerPredsFinished(g, r, n)
  {
    SharedListIsHarmless(g, r, n);
  }

  lemma StartIsValid(g: Graph)
    requires g.WellFormed()
    ensures Valid(g, Start(g))
  {
    var r := Start(g);
    forall n: Node | n != g.entry
      ensures multiset(r.waiting)[n] + multiset(r.finished)[n] == Arrivals(g, r, n)
    {
      if g.InnerPreds(n) != {} {
        var src :| src in g.InnerPreds(n);
        assert src !in r.finished;
      }
    }
    forall n | n in r.waiting
      ensures n in g.nodes && n != g.entry
    {
      assert g.entry in g.edges;
    }
  }

  /** At the start every successor of the entry node has received the prompt, and nobody else anything. */
  lemma StartDelivers(g: Graph, n: Node, src: Node)
    ensures Delivered(Start(g), n, src) <==> src == g.entry && n in g.Succ(g.entry)
    ensures Start(g).finished == [g.entry] && Start(g).waiting == g.Succ(g.entry) && Start(g).inputs == {}
  {
  }

  /** It is the first occurrence that is removed. */
  lemma {:induction false} WithoutRemovesFirst(s: seq<Node>, i: nat)
    requires i < |s| && s[i] !in s[..i]
    ensures Without(s, s[i]) == s[..i] + s[i + 1..]
  {
    if i > 0 {
      assert s[1..][..i - 1] == s[..i][1..];
      WithoutRemovesFirst(s[1..], i - 1);
    }
  }

  /** Those of `ns` whose predecessors other than the entry node have finished, in order. */
  function Runnable(g: Graph, r: Request, ns: seq<Node>): seq<Node> {
    if ns == [] then []
    else (if InnerPredsFinished(g, r, ns[0]) then [ns[0]] else []) + Runnable(g, r, ns[1..])
  }

  lemma {:induction false} RunnableDependsOnFinished(g: Graph, r: Request, r': Request, ns: seq<Node>)
    requires r'.finished == r.finished
    ensures Runnable(g, r, ns) == Runnable(g, r', ns)
  {
    if ns != [] {
      RunnableDependsOnFinished(g, r, r', ns[1..]);
      assert InnerPredsFinished(g, r, ns[0]) <==> InnerPredsFinished(g, r', ns[0]);
    }
  }

  /** The successors that have become runnable join the end of the waiting list, in the order of the edges. */
  lemma {:induction false} DeliverInOrder(g: Graph, r: Request, f: Node, i: nat)
    requires i <= |g.Succ(f)| && g.entry in r.finished && Deliver(g, r, f, i).Ok?
    ensures Deliver(g, r, f, i).value.waiting == r.waiting + Runnable(g, r, g.Succ(f)[i..])
    decreases |g.Succ(f)| - i
  {
    if i < |g.Succ(f)| {
      var n, rest := g.Succ(f)[i], g.Succ(f)[i + 1..];
      assert g.Succ(f)[i..] == [n] + rest;
      var r' := DeliverOne(g, r, f, n);
      DeliverOneInOrder(g, r, f, n);
      DeliverInOrder(g, r', f, i + 1);
      RunnableDependsOnFinished(g, r, r', rest);
      hide InnerPredsFinished, DeliverOne, Graph.Succ;
      RunnableCons(g, r, n, rest);
      JoinedInTurn(r.waiting, Runnable(g, r, [n]), Runnable(g, r, rest));
    }
  }

  lemma RunnableCons(g: Graph, r: Request, n: Node, rest: seq<Node>)
    ensures Runnable(g, r, [n] + rest) == Runnable(g, r, [n]) + Runnable(g, r, rest)
  {
    hide InnerPredsFinished;
    assert ([n] + rest)[1..] == rest;
  }

  lemma JoinedInTurn(a: seq<Node>, b: seq<Node>, c: seq<Node>)
    ensures a + b + c == a + (b + c)
  {
  }

  lemma DeliverOneInOrder(g: Graph, r: Request, f: Node, n: Node)
    requires g.entry in r.finished
    ensures DeliverOne(g, r, f, n).finished == r.finished
    ensures DeliverOne(g, r, f, n).waiting == r.waiting + Runnable(g, r, [n])
  {
    var got := if n in r.queued then r.queued[n] else {};
    var r' := r.(queued := r.queued[n := got + {f}]);
    SharedListIsHarmless(g, r', n);
    assert InnerPredsFinished(g, r', n) <==> InnerPredsFinished(g, r, n);
    hide PredsFinished, InnerPredsFinished;
    assert Runnable(g, r, []) == [];
  }

  lemma {:induction false} WithoutRemovesOne(s: seq<Node>, x: Node)
    requires x in s
    ensures multiset(Without(s, x)) == multiset(s) - multiset{x}
  {
    if s[0] == x {
      assert s == [x] + s[1..];
    } else {
      WithoutRemovesOne(s[1..], x);
      assert s == [s[0]] + s[1..];
    }
  }

  /** `r'` is `r` after the output of `f` reached each node of `ns`. */
  ghost predicate DeliveredTo(g: Graph, r: Request, r': Request, f: Node, ns: seq<Node>) {
    && r'.finished == r.finished && r'.inputs == r.inputs
    && (forall m: Node :: multiset(r'.waiting)[m] ==
          multiset(r.waiting)[m] + if m in ns && InnerPredsFinished(g, r, m) then 1 else 0)
    && (forall m: Node, src: Node :: Delivered(r', m, src) <==> Delivered(r, m, src) || (src == f && m in ns))
    && r.queued.Keys <= r'.queued.Keys
  }

  predicate Deliverable(r: Request, f: Node, ns: seq<Node>) {
    Distinct(ns) && forall n | n in ns :: !Delivered(r, n, f)
  }

  /** When a round of deliveries completes, and what it did. */
  lemma {:induction false} DeliverEffect(g: Graph, r: Request, f: Node, i: nat)
    requires i <= |g.Succ(f)| && g.entry in r.finished
    ensures Deliver(g, r, f, i).Ok? <==> Deliverable(r, f, g.Succ(f)[i..])
    ensures Deliver(g, r, f, i).Ok? ==> DeliveredTo(g, r, Deliver(g, r, f, i).value, f, g.Succ(f)[i..])
    decreases |g.Succ(f)| - i
  {
    if i < |g.Succ(f)| {
      var n, rest := g.Succ(f)[i], g.Succ(f)[i + 1..];
      assert g.Succ(f)[i..] == [n] + rest;
      if Delivered(r, n, f) {
        assert n in g.Succ(f)[i..];
      } else {
        var r1 := DeliverOne(g, r, f, n);
        DeliverOneEffect(g, r, f, n);
        DeliverEffect(g, r1, f, i + 1);
        DeliverableStep(g, r, r1, f, n, rest);
        if Deliver(g, r1, f, i + 1).Ok? {
          DeliveredToCompose(g, r, r1, Deliver(g, r1, f, i + 1).value, f, n, rest);
        }
      }
    }
  }

  lemma DeliverableStep(g: Graph, r: Request, r1: Request, f: Node, n: Node, rest: seq<Node>)
    requires DeliveredTo(g, r, r1, f, [n]) && !Delivered(r, n, f)
    ensures Deliverable(r, f, [n] + rest) <==> Deliverable(r1, f, rest)
  {
    DistinctCons(n, rest);
    assert Delivered(r1, n, f);
    forall m
      ensures m in rest ==> m in [n] + rest
    {
    }
  }

  lemma DeliveredToCompose(g: Graph, r: Request, r1: Request, r2: Request, f: Node, n: Node, rest: seq<Node>)
    requires DeliveredTo(g, r, r1, f, [n]) && DeliveredTo(g, r1, r2, f, rest) && n !in rest
    ensures DeliveredTo(g, r, r2, f, [n] + rest)
  {
    forall m: Node
      ensures multiset(r2.waiting)[m] ==
              multiset(r.waiting)[m] + if m in [n] + rest && InnerPredsFinished(g, r, m) then 1 else 0
    {
      assert InnerPredsFinished(g, r, m) <==> InnerPredsFinished(g, r1, m);
    }
  }

  lemma DistinctCons(n: Node, rest: seq<Node>)
    ensures Distinct([n] + rest) <==> n !in rest && Distinct(rest)
  {
    var s := [n] + rest;
    if Distinct(s) {
      forall i | 0 <= i < |rest|
        ensures rest[i] != n
      {
        assert s[0] != s[i + 1];
      }
      forall i, j | 0 <= i < j < |rest|
        ensures rest[i] != rest[j]
      {
        assert s[i + 1] != s[j + 1];
      }
    }
  }

  lemma DeliverOneEffect(g: Graph, r: Request, f: Node, n: Node)
    requires g.entry in r.finished
    ensures DeliveredTo(g, r, DeliverOne(g, r, f, n), f, [n])
  {
    var got := if n in r.queued then r.queued[n] else {};
    var r' := r.(queued := r.queued[n := got + {f}]);
    SharedListIsHarmless(g, r', n);
    assert InnerPredsFinished(g, r', n) <==> InnerPredsFinished(g, r, n);
    hide PredsFinished, InnerPredsFinished;
  }

  /** Why a submission fails: the node does not wait, it was given no input, or some successor already has its output
      or is listed twice.  In the last case the node has been retired and earlier successors have been served. */
  lemma SubmitFailsIff(g: Graph, r: Request, f: Node)
    requires g.entry in r.finished
    ensures Submit(g, r, f) == Err(NotWaiting) <==> f !in r.waiting
    ensures Submit(g, r, f) == Err(NoInput) <==> f in r.waiting && f !in r.inputs
    ensures Submit(g, r, f) == Err(DeliveredTwice) <==>
              f in r.waiting && f in r.inputs && f != g.exit && !Deliverable(r, f, g.Succ(f))
    ensures f !in r.waiting ==> Attempted(g, r, f) == r
    ensures f in r.waiting ==> Attempted(g, r, f).finished == r.finished + [f]
    ensures f in r.waiting ==> Attempted(g, r, f).inputs == r.inputs - {f}
  {
    var ns, r0 := g.Succ(f), Retire(r, f);
    assert ns[0..] == ns;
    DeliverEffect(g, r0, f, 0);
    DeliverFailsTwice(g, r0, f, 0);
    DeliveredSoFarKeeps(g, r0, f, 0);
    assert Deliverable(r0, f, ns) <==> Deliverable(r, f, ns) by {
      assert forall n :: Delivered(r0, n, f) <==> Delivered(r, n, f);
    }
    hide Deliverable, Delivered, Deliver, DeliveredSoFar;
  }

  lemma {:induction false} DeliverFailsTwice(g: Graph, r: Request, f: Node, i: nat)
    requires i <= |g.Succ(f)|
    ensures Deliver(g, r, f, i).Ok? || Deliver(g, r, f, i) == Err(DeliveredTwice)
    decreases |g.Succ(f)| - i
  {
    if i < |g.Succ(f)| { DeliverFailsTwice(g, DeliverOne(g, r, f, g.Succ(f)[i]), f, i + 1); }
  }

  lemma {:induction false} DeliveredSoFarKeeps(g: Graph, r: Request, f: Node, i: nat)
    requires i <= |g.Succ(f)|
    ensures DeliveredSoFar(g, r, f, i).finished == r.finished && DeliveredSoFar(g, r, f, i).inputs == r.inputs
    decreases |g.Succ(f)| - i
  {
    if i < |g.Succ(f)| { DeliveredSoFarKeeps(g, DeliverOne(g, r, f, g.Succ(f)[i]), f, i + 1); }
  }

  lemma SubmitEffect(g: Graph, r: Request, f: Node)
    requires Valid(g, r) && g.Delivers(f) && f in r.waiting && f in r.inputs
    ensures Submit(g, r, f).Ok? <==> Distinct(g.Succ(f)) && (g.Succ(f) != [] ==> f !in r.finished)
    ensures Submit(g, r, f).Ok? ==> DeliveredTo(g, Retire(r, f), Submit(g, r, f).value, f, g.Succ(f))
  {
    var ns, r0 := g.Succ(f), Retire(r, f);
    assert ns[0..] == ns;
    assert g.entry in r0.finished;
    DeliverEffect(g, r0, f, 0);
    assert Submit(g, r, f) == Deliver(g, r0, f, 0);
    forall n | n in ns
      ensures Delivered(r0, n, f) <==> f in r.finished
    {
      assert Delivered(r0, n, f) <==> Delivered(r, n, f);
    }
    if ns != [] { assert ns[0] in ns; }
  }

  /** Arrivals after `f` finishes: only the successors of `f` can gain one. */
  lemma ArrivalsStep(g: Graph, r: Request, r': Request, f: Node, n: Node)
    requires g.WellFormed() && f != g.entry && n != g.entry
    requires r'.finished == r.finished + [f] && (n in g.Succ(f) ==> f !in r.finished)
    ensures Arrivals(g, r', n) ==
            Arrivals(g, r, n) + if n in g.Succ(f) && InnerPredsFinished(g, r', n) then 1 else 0
  {
    if n in g.Succ(f) {
      assert f in g.InnerPreds(n);
      assert !InnerPredsFinished(g, r, n);
    } else {
      assert f !in g.InnerPreds(n);
      assert forall src | src in g.InnerPreds(n) :: src in r'.finished <==> src in r.finished;
      assert InnerPredsFinished(g, r', n) <==> InnerPredsFinished(g, r, n);
    }
  }

  lemma SubmitConserves(g: Graph, r: Request, f: Node)
    requires Valid(g, r) && g.Delivers(f) && f in r.waiting && f in r.inputs && Submit(g, r, f).Ok?
    ensures Conserved(g, Submit(g, r, f).value)
  {
    SubmitEffect(g, r, f);
    WithoutRemovesOne(r.waiting, f);
    var r0, r' := Retire(r, f), Submit(g, r, f).value;
    forall n: Node | n != g.entry
      ensures multiset(r'.waiting)[n] + multiset(r'.finished)[n] == Arrivals(g, r', n)
    {
      ArrivalsStep(g, r, r', f, n);
      assert InnerPredsFinished(g, r0, n) <==> InnerPredsFinished(g, r', n);
      assert multiset(r'.finished) == multiset(r.finished) + multiset{f};
    }
  }

  lemma SubmitKeepsOrder(g: Graph, r: Request, f: Node)
    requires Valid(g, r) && f in r.waiting && InputReady(g, r, f)
    ensures InDependencyOrder(g, Retire(r, f))
  {
    var r' := Retire(r, f);
    SharedListIsHarmless(g, r, f);
    forall i, src | 0 <= i < |r'.finished| && src in g.InnerPreds(r'.finished[i])
      ensures src in r'.finished[..i]
    {
      if i < |r.finished| {
        assert r'.finished[..i] == r.finished[..i];
      } else {
        assert r'.finished[..i] == r.finished;
      }
    }
  }

  lemma SubmitKeepsDeliveries(g: Graph, r: Request, f: Node)
    requires Valid(g, r) && g.Delivers(f) && f in r.waiting && f in r.inputs && Submit(g, r, f).Ok?
    ensures DeliveriesMatch(g, Submit(g, r, f).value)
    ensures forall n | n in Submit(g, r, f).value.waiting :: n in r.waiting || n in g.Succ(f)
  {
    SubmitEffect(g, r, f);
    WithoutRemovesOne(r.waiting, f);
    var r0, r' := Retire(r, f), Submit(g, r, f).value;
    forall n: Node, src: Node | src != g.entry
      ensures Delivered(r', n, src) <==> src in r'.finished && n in g.Succ(src)
    {
      assert Delivered(r0, n, src) <==> Delivered(r, n, src);
    }
    forall n | n in r'.waiting
      ensures n in r'.queued && (n in r.waiting || n in g.Succ(f))
    {
      assert multiset(r'.waiting)[n] > 0;
      if n in g.Succ(f) {
        assert Delivered(r', n, f);
      } else {
        assert multiset(r0.waiting)[n] > 0;
        assert multiset(r.waiting)[n] > 0;
      }
    }
  }

  /** A submission of a ready node keeps everything above. */
  lemma SubmitKeepsValid(g: Graph, r: Request, f: Node)
    requires Valid(g, r) && g.Delivers(f) && f in r.waiting && f in r.inputs && InputReady(g, r, f) && Submit(g, r, f).Ok?
    ensures Valid(g, Submit(g, r, f).value)
  {
    SubmitEffect(g, r, f);
    SubmitConserves(g, r, f);
    SubmitKeepsOrder(g, r, f);
    SubmitKeepsDeliveries(g, r, f);
    var r' := Submit(g, r, f).value;
    forall n | n in r'.waiting
      ensures n in g.nodes && n != g.entry
    {
      if n !in r.waiting { assert f in g.edges; }
    }
  }

  /** Readiness is never lost. */
  lemma ReadyStaysReady(g: Graph, r: Request, f: Node, n: Node)
    requires Valid(g, r) && g.Delivers(f) && f in r.waiting && f in r.inputs && Submit(g, r, f).Ok?
    requires InputReady(g, r, n)
    ensures InputReady(g, Submit(g, r, f).value, n)
  {
    SubmitEffect(g, r, f);
    SharedListIsHarmless(g, r, n);
    SharedListIsHarmless(g, Submit(g, r, f).value, n);
  }

  // Submissions are bounded.

  function ArrivalBound(g: Graph): multiset<Node> {
    multiset(g.Succ(g.entry)) + multiset(g.nodes) + multiset{g.entry}
  }

  lemma SubmultisetIsSmaller(a: multiset<Node>, b: multiset<Node>)
    requires a <= b
    ensures |a| <= |b|
  {
    assert b == a + (b - a);
  }

  lemma InnerPredsMeansNode(g: Graph, n: Node)
    requires g.WellFormed() && g.InnerPreds(n) != {}
    ensures n in g.nodes
  {
    var src :| src in g.InnerPreds(n);
    var i :| 0 <= i < |g.edges[src]| && g.edges[src][i] == n;
  }

  lemma FinishedIsBounded(g: Graph, r: Request)
    requires Valid(g, r)
    ensures |r.finished| + |r.waiting| <= |ArrivalBound(g)|
  {
    var all := multiset(r.waiting) + multiset(r.finished);
    forall n: Node
      ensures all[n] <= ArrivalBound(g)[n]
    {
      if n != g.entry && g.InnerPreds(n) != {} { InnerPredsMeansNode(g, n); }
    }
    SubmultisetIsSmaller(all, ArrivalBound(g));
  }
}
