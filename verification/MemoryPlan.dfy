/**
 The memory planning pass over generated wrapper lines: trailing planning lines of non-output
 buffers are dropped, then every remaining planning line is planned with the state on top of a
 stack that subgraph lines push and pop.
 */
module MemoryPlan {
  import opened Outcomes

  /** `Planned(name, state)` is a planning line once planned.  State 0 is the outermost one; the state
      pushed by the subgraph entry at index `i` is number `i + 1`. */
  datatype Line =
    | Plan(name: string)
    | Planned(name: string, state: nat)
    | EnterSubgraph
    | ExitSubgraph
    | Code(text: string)

  datatype PlanError = IndexError | AssertionError

  predicate Pointless(line: Line, outNames: set<string>) {
    line.Plan? && line.name !in outNames
  }

  function Trimmed(lines: seq<Line>, outNames: set<string>): (r: seq<Line>)
    ensures r <= lines
    ensures forall i | |r| <= i < |lines| :: Pointless(lines[i], outNames)
    ensures r != [] ==> !Pointless(r[|r| - 1], outNames)
  {
    if lines != [] && Pointless(lines[|lines| - 1], outNames)
    then Trimmed(lines[..|lines| - 1], outNames)
    else lines
  }

  function Change(line: Line): int {
    if line.EnterSubgraph? then 1 else if line.ExitSubgraph? then -1 else 0
  }

  /** Open subgraphs, counting the outermost graph, before line `i`. */
  function Depth(lines: seq<Line>, i: nat): int
    requires i <= |lines|
  {
    if i == 0 then 1 else Depth(lines, i - 1) + Change(lines[i - 1])
  }

  predicate WellBracketed(lines: seq<Line>) {
    (forall i | 0 <= i <= |lines| :: Depth(lines, i) >= 1) && Depth(lines, |lines|) == 1
  }

  /** Exactly the line lists the pass accepts: it never pops or consults an empty stack and leaves one
      state at the end. */
  predicate Plannable(lines: seq<Line>) {
    && (forall i | 0 <= i < |lines| && (lines[i].Plan? || lines[i].ExitSubgraph?) :: Depth(lines, i) >= 1)
    && Depth(lines, |lines|) == 1
  }

  /** The loop gets through, and some subgraph is still open at the end. */
  predicate LeavesOpen(lines: seq<Line>) {
    && (forall i | 0 <= i < |lines| && (lines[i].Plan? || lines[i].ExitSubgraph?) :: Depth(lines, i) >= 1)
    && Depth(lines, |lines|) > 1
  }

  /** The stack after the line with index `i`; popping an empty stack leaves it empty. */
  function NextStates(line: Line, i: nat, states: seq<nat>): seq<nat> {
    match line
    case EnterSubgraph => states + [i + 1]
    case ExitSubgraph => if states == [] then [] else states[..|states| - 1]
    case _ => states
  }

  /** The stack of planning states before line `i`. */
  function States(lines: seq<Line>, i: nat): seq<nat>
    requires i <= |lines|
  {
    if i == 0 then [0] else NextStates(lines[i - 1], i - 1, States(lines, i - 1))
  }

  function PlanWith(line: Line, states: seq<nat>): Line {
    if line.Plan? && states != [] then Planned(line.name, states[|states| - 1]) else line
  }

  function PlanLine(lines: seq<Line>, i: nat): Line
    requires i < |lines|
  {
    PlanWith(lines[i], States(lines, i))
  }

  /** The first `i` lines pass without consulting or popping an empty stack. */
  predicate Passes(lines: seq<Line>, i: nat)
    requires i <= |lines|
  {
    i == 0 ||
    (Passes(lines, i - 1) && (lines[i - 1].Plan? || lines[i - 1].ExitSubgraph? ==> States(lines, i - 1) != []))
  }

  lemma {:induction false} PassesIsMonotone(lines: seq<Line>, i: nat, n: nat)
    requires i <= n <= |lines| && Passes(lines, n)
    ensures Passes(lines, i)
  {
    if i < n { PassesIsMonotone(lines, i, n - 1); }
  }

  lemma {:induction false} PassesMeansDepth(lines: seq<Line>, n: nat)
    requires n <= |lines|
    ensures Passes(lines, n) ==> |States(lines, n)| == Depth(lines, n)
    ensures Passes(lines, n) <==>
            forall i | 0 <= i < n && (lines[i].Plan? || lines[i].ExitSubgraph?) :: Depth(lines, i) >= 1
  {
    hide Passes, States, Depth;
    BeforeFirstLine(lines);
    if n > 0 {
      PassesMeansDepth(lines, n - 1);
      AfterLine(lines, n - 1);
      if lines[n - 1].Plan? || lines[n - 1].ExitSubgraph? {
        assert Passes(lines, n - 1) ==> (Passes(lines, n) <==> Depth(lines, n - 1) >= 1);
      }
    }
  }

  /** The first `n` lines, each planned with the stack before it. */
  function PlannedLines(lines: seq<Line>, n: nat): (r: seq<Line>)
    requires n <= |lines|
    ensures |r| == n
  {
    if n == 0 then [] else PlannedLines(lines, n - 1) + [PlanLine(lines, n - 1)]
  }

  lemma {:induction false} PlannedLinesAt(lines: seq<Line>, n: nat, i: nat)
    requires i < n <= |lines|
    ensures PlannedLines(lines, n)[i] == PlanLine(lines, i)
  {
    if i < n - 1 { PlannedLinesAt(lines, n - 1, i); }
  }

  lemma PlanningOneMore(kept: seq<Line>, lines: seq<Line>, i: nat, line: Line)
    requires i < |kept| == |lines| && lines[..i] == PlannedLines(kept, i)
    requires line == PlanWith(kept[i], States(kept, i))
    ensures lines[i := line][..i + 1] == PlannedLines(kept, i + 1)
  {
    assert lines[i := line][..i + 1] == lines[..i] + [line];
  }

  lemma BeforeFirstLine(lines: seq<Line>)
    ensures States(lines, 0) == [0] && Depth(lines, 0) == 1 && Passes(lines, 0) && PlannedLines(lines, 0) == []
  {
  }

  lemma AfterLine(lines: seq<Line>, i: nat)
    requires i < |lines|
    ensures States(lines, i + 1) == NextStates(lines[i], i, States(lines, i))
    ensures Depth(lines, i + 1) == Depth(lines, i) + Change(lines[i])
    ensures Passes(lines, i + 1) <==>
            Passes(lines, i) && (lines[i].Plan? || lines[i].ExitSubgraph? ==> States(lines, i) != [])
  {
  }

  class Wrapper {
    var lines: seq<Line>

    method MemoryPlanReuse(outNames: set<string>) returns (r: Result<(), PlanError>)
      modifies this
      ensures r.Ok? <==> Plannable(Trimmed(old(lines), outNames))
      ensures r == Err(AssertionError) <==> LeavesOpen(Trimmed(old(lines), outNames))
      ensures r.Ok? ==> var kept := Trimmed(old(lines), outNames); lines == PlannedLines(kept, |kept|)
    {
      while lines != [] && Pointless(lines[|lines| - 1], outNames)
        invariant Trimmed(lines, outNames) == Trimmed(old(lines), outNames)
        decreases |lines|
      {
        lines := lines[..|lines| - 1];
      }
      PassesMeansDepth(lines, |lines|);
      var planned := PlanLines();
      if planned.Err? { return Err(planned.error); }
      var planningStates := planned.value;
      if planningStates == [] { return Err(IndexError); }
      planningStates := planningStates[..|planningStates| - 1];  // the popped state joins the past states
      if |planningStates| != 0 { return Err(AssertionError); }
      return Ok(());
    }

    /** The planning loop: the states left on the stack, or the error that stopped it. */
    method PlanLines() returns (r: Result<seq<nat>, PlanError>)
      modifies this
      ensures r.Ok? <==> Passes(old(lines), |old(lines)|)
      ensures r.Err? ==> r.error == IndexError
      ensures r.Ok? ==> r.value == States(old(lines), |old(lines)|)
      ensures r.Ok? ==> lines == PlannedLines(old(lines), |old(lines)|)
    {
      hide States, PlannedLines, Passes, NextStates;
      ghost var kept := lines;
      BeforeFirstLine(kept);
      var planningStates: seq<nat> := [0];
      var i := 0;
      while i < |lines|
        invariant 0 <= i <= |kept|
        invariant |lines| == |kept| && lines[..i] == PlannedLines(kept, i)
        invariant forall j | i <= j < |kept| :: lines[j] == kept[j]
        invariant Passes(kept, i)
        invariant planningStates == States(kept, i)
      {
        ghost var before := lines;
        AfterLine(kept, i);
        var step := PlanOne(i, planningStates);
        if step.Err? {
          if Passes(kept, |kept|) { PassesIsMonotone(kept, i + 1, |kept|); }
          return Err(step.error);
        }
        PlanningOneMore(kept, before, i, lines[i]);
        planningStates := step.value;
        i := i + 1;
      }
      assert lines[..i] == lines;
      return Ok(planningStates);
    }

    /** The body of the planning loop. */
    method PlanOne(i: nat, planningStates: seq<nat>) returns (r: Result<seq<nat>, PlanError>)
      requires i < |lines|
      modifies this
      ensures r == if planningStates == [] && (old(lines[i]).Plan? || old(lines[i]).ExitSubgraph?)
                   then Err(IndexError)
                   else Ok(NextStates(old(lines[i]), i, planningStates))
      ensures lines == old(lines)[i := PlanWith(old(lines[i]), planningStates)]
    {
      match lines[i]
      case Plan(name) =>
        if planningStates == [] { return Err(IndexError); }
        lines := lines[i := Planned(name, planningStates[|planningStates| - 1])];
        return Ok(planningStates);
      case EnterSubgraph =>
        return Ok(planningStates + [i + 1]);
      case ExitSubgraph =>
        if planningStates == [] { return Err(IndexError); }
        return Ok(planningStates[..|planningStates| - 1]);  // the popped state joins the past states
      case _ =>
        return Ok(planningStates);
    }
  }

  // ---------------------------------------------------------------------------------------------
  // What the planning means

  /** The subgraph entered at line `j` is still open before line `i`. */
  ghost predicate Encloses(lines: seq<Line>, j: nat, i: nat)
    requires i <= |lines|
  {
    && j < i && lines[j].EnterSubgraph?
    && forall k | j < k <= i :: Depth(lines, k) > Depth(lines, j)
  }

  ghost predicate Innermost(lines: seq<Line>, j: nat, i: nat)
    requires i <= |lines|
  {
    Encloses(lines, j, i) && forall m: nat | Encloses(lines, m, i) :: m <= j
  }

  /** The stack lists the open subgraphs, each at its own depth. */
  lemma {:induction false} StatesAreOpenSubgraphs(lines: seq<Line>, i: nat)
    requires i <= |lines| && forall j | 0 <= j <= i :: Depth(lines, j) >= 1
    ensures |States(lines, i)| == Depth(lines, i) && States(lines, i)[0] == 0
    ensures forall d | 1 <= d < |States(lines, i)| ::
              States(lines, i)[d] >= 1 && Encloses(lines, States(lines, i)[d] - 1, i)
              && Depth(lines, States(lines, i)[d] - 1) == d
  {
    if i > 0 {
      StatesAreOpenSubgraphs(lines, i - 1);
      var before, after := States(lines, i - 1), States(lines, i);
      forall d | 1 <= d < |after|
        ensures after[d] >= 1 && Encloses(lines, after[d] - 1, i) && Depth(lines, after[d] - 1) == d
      {
        if d < |before| {
          assert after[d] == before[d];
          var j := before[d] - 1;
          assert Encloses(lines, j, i - 1) && Depth(lines, j) == d;
          assert Depth(lines, i) > d;
        }
      }
    }
  }

  lemma {:induction false} DepthAfterEntry(lines: seq<Line>, j: nat, m: nat, i: nat)
    requires i <= |lines| && Encloses(lines, j, i) && j < m <= i
    ensures Depth(lines, m) > Depth(lines, j)
  {
  }

  /** In a well-bracketed list every planning line is planned with the state of its innermost enclosing
      subgraph, or with the outermost state when there is none. */
  lemma PlannedWithInnermostState(lines: seq<Line>, i: nat)
    requires WellBracketed(lines) && i < |lines| && lines[i].Plan?
    ensures PlanLine(lines, i).Planned? && PlanLine(lines, i).name == lines[i].name
    ensures var st := PlanLine(lines, i).state;
            if st == 0 then forall j: nat :: !Encloses(lines, j, i) else Innermost(lines, st - 1, i)
  {
    StatesAreOpenSubgraphs(lines, i);
    var states := States(lines, i);
    var top := |states| - 1;
    forall m: nat | Encloses(lines, m, i)
      ensures top >= 1 && m <= states[top] - 1
    {
      DepthAfterEntry(lines, m, i, i);
      assert Depth(lines, m) >= 1;
      var j := states[top] - 1;
      if m > j {
        DepthAfterEntry(lines, j, m, i);
      }
    }
  }

  /** Lines that plan nothing stay as they are. */
  lemma OtherLinesStay(lines: seq<Line>, i: nat)
    requires i < |lines| && !lines[i].Plan?
    ensures |PlannedLines(lines, |lines|)| == |lines| && PlannedLines(lines, |lines|)[i] == lines[i]
  {
    PlannedLinesAt(lines, |lines|, i);
  }

  /** Trimming keeps the bracketing: it only ever removes planning lines. */
  lemma {:induction false} TrimmingKeepsBracketing(lines: seq<Line>, outNames: set<string>)
    ensures WellBracketed(Trimmed(lines, outNames)) <==> WellBracketed(lines)
    decreases |lines|
  {
    if lines != [] && Pointless(lines[|lines| - 1], outNames) {
      var shorter := lines[..|lines| - 1];
      TrimmingKeepsBracketing(shorter, outNames);
      forall i | 0 <= i <= |shorter|
        ensures Depth(shorter, i) == Depth(lines, i)
      {
        DepthOfPrefix(lines, |shorter|, i);
      }
      assert Depth(lines, |lines|) == Depth(lines, |shorter|);
    }
  }

  lemma {:induction false} DepthOfPrefix(lines: seq<Line>, n: nat, i: nat)
    requires i <= n <= |lines|
    ensures Depth(lines[..n], i) == Depth(lines, i)
  {
    if i > 0 { DepthOfPrefix(lines, n, i - 1); }
  }

  /** Every well-bracketed list is planned without an error ... */
  lemma WellBracketedIsPlannable(lines: seq<Line>, outNames: set<string>)
    requires WellBracketed(lines)
    ensures Plannable(Trimmed(lines, outNames))
  {
    TrimmingKeepsBracketing(lines, outNames);
  }

  /** ... but so is one whose exit comes before its entry: the final assertion does not notice. */
  lemma MisbracketedListIsAccepted()
    ensures var lines := [ExitSubgraph, EnterSubgraph];
            !WellBracketed(lines) && Plannable(Trimmed(lines, {}))
  {
    var lines := [ExitSubgraph, EnterSubgraph];
    assert Depth(lines, 0) == 1 && Depth(lines, 1) == 0 && Depth(lines, 2) == 1;
    assert Trimmed(lines, {}) == lines;
  }
}
