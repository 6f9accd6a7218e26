/**
 Any number of processes reserving and releasing ports through one registry file, as a step system.

 A process can be killed between any two steps, which also frees the lock if it held it; a killed
 process may leave entries in the file, and its pid may be used again.  Replacing the file is atomic.
 */
module PortProtocol {
  import opened Outcomes
  import opened PortRegistry

  /** Where a process is inside `reserve_parrot_ports` or `release`. */
  datatype Phase =
    | Idle
    | ReserveLocked
    | ReserveReady(data: Registry, pair: Pair)   // dictionary changed in memory, lock held
    | ReserveWritten(pair: Pair)                 // file replaced, lock held
    | ReserveReturning(pair: Pair)               // lock given up, reservation object not returned yet
    | ReleaseLocked(pair: Pair)
    | ReleaseReady(data: Registry, pair: Pair)
    | ReleaseWritten(pair: Pair)
    | ReleaseReturning(pair: Pair)               // lock given up, `released` flag not set yet

  /** `held` are the pairs of the reservation objects whose `released` flag is not set. */
  datatype Process = Process(phase: Phase, held: set<Pair>)

  /** The keys of `procs` are the live processes. */
  datatype State = State(file: File, lock: Option<Pid>, procs: map<Pid, Process>)

  predicate HasLock(ph: Phase) {
    !ph.Idle? && !ph.ReserveReturning? && !ph.ReleaseReturning?
  }

  /** What a process relies on owning: its unreleased reservations, minus one whose release has
      already rewritten the file, plus one whose reservation has. */
  function Claims(p: Process): set<Pair> {
    match p.phase
    case ReserveWritten(pair) => p.held + {pair}
    case ReserveReturning(pair) => p.held + {pair}
    case ReleaseWritten(pair) => p.held - {pair}
    case ReleaseReturning(pair) => p.held - {pair}
    case _ => p.held
  }

  predicate Claimed(s: State, pid: Pid, pair: Pair) {
    pid in s.procs && pair in Claims(s.procs[pid])
  }

  datatype Step =
    | Spawn(pid: Pid)
    | Kill(pid: Pid)
    | BeginReserve(pid: Pid)
    | PrepareReserve(pid: Pid, q: Request, alive: set<Pid>, bindable: set<int>)
    | WriteReserve(pid: Pid)
    | UnlockReserve(pid: Pid)
    | ReturnReserve(pid: Pid)
    | BeginRelease(pid: Pid, pair: Pair)
    | PrepareRelease(pid: Pid)
    | WriteRelease(pid: Pid)
    | UnlockRelease(pid: Pid)
    | ReturnRelease(pid: Pid)
    | Abort(pid: Pid)  // an exception before the file is replaced

  function MoveTo(s: State, pid: Pid, phase: Phase): State
    requires pid in s.procs
  {
    s.(procs := s.procs[pid := s.procs[pid].(phase := phase)])
  }

  predicate Enabled(s: State, step: Step) {
    match step
    case Spawn(pid) => pid > 0 && pid !in s.procs
    case Kill(pid) => pid in s.procs
    case BeginReserve(pid) => pid in s.procs && s.procs[pid].phase.Idle? && s.lock.None?
    case PrepareReserve(pid, _, alive, _) =>
      && pid in s.procs && s.procs[pid].phase.ReserveLocked?
      // A process that claims a port has lived since before the lock was taken, so the liveness probe sees it.
      && forall holder | holder in s.procs && Claims(s.procs[holder]) != {} :: holder in alive
    case WriteReserve(pid) => pid in s.procs && s.procs[pid].phase.ReserveReady?
    case UnlockReserve(pid) => pid in s.procs && s.procs[pid].phase.ReserveWritten?
    case ReturnReserve(pid) => pid in s.procs && s.procs[pid].phase.ReserveReturning?
    case BeginRelease(pid, pair) =>
      pid in s.procs && s.procs[pid].phase.Idle? && s.lock.None? && pair in s.procs[pid].held
    case PrepareRelease(pid) => pid in s.procs && s.procs[pid].phase.ReleaseLocked?
    case WriteRelease(pid) => pid in s.procs && s.procs[pid].phase.ReleaseReady?
    case UnlockRelease(pid) => pid in s.procs && s.procs[pid].phase.ReleaseWritten?
    case ReturnRelease(pid) => pid in s.procs && s.procs[pid].phase.ReleaseReturning?
    case Abort(pid) =>
      && pid in s.procs
      && (s.procs[pid].phase.ReserveLocked? || s.procs[pid].phase.ReserveReady?
          || s.procs[pid].phase.ReleaseLocked? || s.procs[pid].phase.ReleaseReady?)
  }

  function Next(s: State, step: Step): State
    requires Enabled(s, step)
  {
    match step
    case Spawn(pid) => s.(procs := s.procs[pid := Process(Idle, {})])
    case Kill(pid) => s.(procs := s.procs - {pid}, lock := if s.lock == Some(pid) then None else s.lock)
    case BeginReserve(pid) => MoveTo(s, pid, ReserveLocked).(lock := Some(pid))
    case PrepareReserve(pid, q, alive, bindable) =>
      (match PlanReserve(s.file, pid, q, alive, bindable)
       case Err(_) => MoveTo(s, pid, Idle).(lock := None)
       case Ok((data, pair)) => MoveTo(s, pid, ReserveReady(data, pair)))
    case WriteReserve(pid) =>
      var ph := s.procs[pid].phase;
      MoveTo(s, pid, ReserveWritten(ph.pair)).(file := Readable(ph.data))
    case UnlockReserve(pid) => MoveTo(s, pid, ReserveReturning(s.procs[pid].phase.pair)).(lock := None)
    case ReturnReserve(pid) =>
      s.(procs := s.procs[pid := Process(Idle, s.procs[pid].held + {s.procs[pid].phase.pair})])
    case BeginRelease(pid, pair) => MoveTo(s, pid, ReleaseLocked(pair)).(lock := Some(pid))
    case PrepareRelease(pid) =>
      var pair := s.procs[pid].phase.pair;
      MoveTo(s, pid, ReleaseReady(PlanRelease(s.file, pid, pair), pair))
    case WriteRelease(pid) =>
      var ph := s.procs[pid].phase;
      MoveTo(s, pid, ReleaseWritten(ph.pair)).(file := Readable(ph.data))
    case UnlockRelease(pid) => MoveTo(s, pid, ReleaseReturning(s.procs[pid].phase.pair)).(lock := None)
    case ReturnRelease(pid) =>
      s.(procs := s.procs[pid := Process(Idle, s.procs[pid].held - {s.procs[pid].phase.pair})])
    case Abort(pid) => MoveTo(s, pid, Idle).(lock := None)
  }

  /** No live process to begin with; the file may hold anything. */
  predicate Initial(s: State) {
    s.procs == map[] && s.lock.None?
  }

  predicate IsRun(states: seq<State>, steps: seq<Step>) {
    && |states| == |steps| + 1 && Initial(states[0])
    && forall i | 0 <= i < |steps| :: Enabled(states[i], steps[i]) && states[i + 1] == Next(states[i], steps[i])
  }

  // ---------------------------------------------------------------------------------------------
  // Safety

  /** Every claimed pair is registered to its claimant in `data`. */
  ghost predicate AllRegistered(s: State, data: Registry) {
    forall pid, pair | Claimed(s, pid, pair) :: Holds(data, pid, pair)
  }

  /** Two different claims never share a port, and the two ports of one claim differ. */
  ghost predicate NoSharedPorts(s: State) {
    && (forall pid, pair | Claimed(s, pid, pair) :: pair.0 != pair.1)
    && (forall p1, a, p2, b | Claimed(s, p1, a) && Claimed(s, p2, b) && (p1, a) != (p2, b) :: Disjoint(a, b))
  }

  ghost predicate PhaseOk(s: State, pid: Pid)
    requires pid in s.procs
  {
    var p := s.procs[pid];
    && (HasLock(p.phase) <==> s.lock == Some(pid))
    && (match p.phase
        case ReserveReady(data, pair) =>
          && pair.0 != pair.1 && Holds(data, pid, pair) && AllRegistered(s, data)
          && forall holder, other | Claimed(s, holder, other) :: Disjoint(other, pair)
        case ReserveWritten(pair) => pair !in p.held
        case ReserveReturning(pair) => pair !in p.held
        case ReleaseLocked(pair) => pair in p.held
        case ReleaseReady(data, pair) =>
          && pair in p.held
          && forall holder, other | Claimed(s, holder, other) && (holder, other) != (pid, pair) :: Holds(data, holder, other)
        case ReleaseWritten(pair) => pair in p.held
        case ReleaseReturning(pair) => pair in p.held
        case _ => true)
  }

  ghost predicate Invariant(s: State) {
    && AllRegistered(s, Load(s.file))
    && NoSharedPorts(s)
    && (forall pid | pid in s.procs :: PhaseOk(s, pid))
    && (s.lock.Some? ==> s.lock.value in s.procs)
  }

  /** `s'` has no claim that `s` does not have. */
  ghost predicate NoNewClaims(s: State, s': State) {
    forall pid, pair | Claimed(s', pid, pair) :: Claimed(s, pid, pair)
  }

  /** A process that did not move and did not gain or lose the lock is still in order when no claim was added. */
  lemma BystanderIsFine(s: State, s': State, other: Pid)
    requires other in s.procs && PhaseOk(s, other)
    requires other in s'.procs && s'.procs[other] == s.procs[other] && NoNewClaims(s, s')
    requires s.lock == Some(other) <==> s'.lock == Some(other)
    ensures PhaseOk(s', other)
  {
  }

  /** One process moves, nobody gains a claim, the file stays. */
  lemma QuietMove(s: State, s': State, pid: Pid)
    requires Invariant(s) && pid in s.procs && pid in s'.procs && s'.procs.Keys == s.procs.Keys
    requires forall other | other in s.procs && other != pid :: s'.procs[other] == s.procs[other]
    requires s'.file == s.file && NoNewClaims(s, s') && PhaseOk(s', pid)
    requires s'.lock == s.lock || (s'.lock == None && s.lock == Some(pid)) || (s.lock == None && s'.lock == Some(pid))
    ensures Invariant(s')
  {
    forall other | other in s'.procs
      ensures PhaseOk(s', other)
    {
      if other != pid { BystanderIsFine(s, s', other); }
    }
  }

  lemma SpawnIsSafe(s: State, pid: Pid)
    requires Invariant(s) && Enabled(s, Spawn(pid))
    ensures Invariant(Next(s, Spawn(pid)))
  {
    var s' := Next(s, Spawn(pid));
    assert NoNewClaims(s, s');
    forall other | other in s'.procs
      ensures PhaseOk(s', other)
    {
      if other != pid { BystanderIsFine(s, s', other); }
    }
  }

  lemma KillIsSafe(s: State, pid: Pid)
    requires Invariant(s) && Enabled(s, Kill(pid))
    ensures Invariant(Next(s, Kill(pid)))
  {
    var s' := Next(s, Kill(pid));
    assert NoNewClaims(s, s');
    forall other | other in s'.procs
      ensures PhaseOk(s', other)
    {
      BystanderIsFine(s, s', other);
    }
  }

  lemma PrepareReserveIsSafe(s: State, pid: Pid, q: Request, alive: set<Pid>, bindable: set<int>)
    requires Invariant(s) && Enabled(s, PrepareReserve(pid, q, alive, bindable))
    ensures Invariant(Next(s, PrepareReserve(pid, q, alive, bindable)))
  {
    var s' := Next(s, PrepareReserve(pid, q, alive, bindable));
    match PlanReserve(s.file, pid, q, alive, bindable)
    case Err(_) =>
      QuietMove(s, s', pid);
    case Ok((data, pair)) =>
      ReserveTakesFreshPorts(s.file, pid, q, alive, bindable, pid, pair);
      forall holder, other | Claimed(s', holder, other)
        ensures Holds(data, holder, other) && Disjoint(other, pair)
      {
        assert Claimed(s, holder, other);
        ReserveTakesFreshPorts(s.file, pid, q, alive, bindable, holder, other);
      }
      QuietMove(s, s', pid);
  }

  lemma WriteReserveIsSafe(s: State, pid: Pid)
    requires Invariant(s) && Enabled(s, WriteReserve(pid))
    ensures Invariant(Next(s, WriteReserve(pid)))
  {
    var s' := Next(s, WriteReserve(pid));
    var pair := s.procs[pid].phase.pair;
    assert PhaseOk(s, pid);
    forall holder, other | Claimed(s', holder, other)
      ensures Claimed(s, holder, other) || (holder, other) == (pid, pair)
    {
    }
    assert pair in s.procs[pid].held ==> Claimed(s, pid, pair);
    forall other | other in s'.procs
      ensures PhaseOk(s', other)
    {
      assert PhaseOk(s, other);
    }
  }

  lemma PrepareReleaseIsSafe(s: State, pid: Pid)
    requires Invariant(s) && Enabled(s, PrepareRelease(pid))
    ensures Invariant(Next(s, PrepareRelease(pid)))
  {
    var s' := Next(s, PrepareRelease(pid));
    var pair := s.procs[pid].phase.pair;
    assert PhaseOk(s, pid);
    assert Claimed(s, pid, pair);
    forall holder, other | Claimed(s', holder, other) && (holder, other) != (pid, pair)
      ensures Holds(PlanRelease(s.file, pid, pair), holder, other)
    {
      assert Claimed(s, holder, other);
      ReleaseKeepsOthers(s.file, pid, pair, holder, other);
    }
    QuietMove(s, s', pid);
  }

  lemma WriteReleaseIsSafe(s: State, pid: Pid)
    requires Invariant(s) && Enabled(s, WriteRelease(pid))
    ensures Invariant(Next(s, WriteRelease(pid)))
  {
    var s' := Next(s, WriteRelease(pid));
    var pair := s.procs[pid].phase.pair;
    assert PhaseOk(s, pid);
    forall holder, other | Claimed(s', holder, other)
      ensures Claimed(s, holder, other) && (holder, other) != (pid, pair)
    {
    }
    forall other | other in s'.procs
      ensures PhaseOk(s', other)
    {
      assert PhaseOk(s, other);
    }
  }

  /** Steps that touch neither the file nor anybody's claims. */
  lemma OtherStepsAreSafe(s: State, step: Step)
    requires Invariant(s) && Enabled(s, step)
    requires !step.Spawn? && !step.Kill? && !step.PrepareReserve? && !step.PrepareRelease?
    requires !step.WriteReserve? && !step.WriteRelease?
    ensures Invariant(Next(s, step))
  {
    var s' := Next(s, step);
    assert PhaseOk(s, step.pid);
    assert Claims(s'.procs[step.pid]) == Claims(s.procs[step.pid]);
    QuietMove(s, s', step.pid);
  }

  lemma StepIsSafe(s: State, step: Step)
    requires Invariant(s) && Enabled(s, step)
    ensures Invariant(Next(s, step))
  {
    match step
    case Spawn(pid) => SpawnIsSafe(s, pid);
    case Kill(pid) => KillIsSafe(s, pid);
    case PrepareReserve(pid, q, alive, bindable) => PrepareReserveIsSafe(s, pid, q, alive, bindable);
    case WriteReserve(pid) => WriteReserveIsSafe(s, pid);
    case PrepareRelease(pid) => PrepareReleaseIsSafe(s, pid);
    case WriteRelease(pid) => WriteReleaseIsSafe(s, pid);
    case _ => OtherStepsAreSafe(s, step);
  }

  /** In every state of every run, different claims never share a port and every claimed port is in the
      registry under its claimant's pid. */
  lemma {:induction false} EveryRunIsSafe(states: seq<State>, steps: seq<Step>, i: nat)
    requires IsRun(states, steps) && i < |states|
    ensures Invariant(states[i])
  {
    if i > 0 {
      EveryRunIsSafe(states, steps, i - 1);
      StepIsSafe(states[i - 1], steps[i - 1]);
    }
  }

  // ---------------------------------------------------------------------------------------------
  // Unreleased reservations

  /** A live process has a reservation of `pair` whose `released` flag is not set. */
  predicate Unreleased(s: State, pid: Pid, pair: Pair) {
    pid in s.procs && pair in s.procs[pid].held
  }

  /** The process is between rewriting the file for the release of `pair` and setting the flag. */
  predicate InReleaseWindow(s: State, pid: Pid, pair: Pair) {
    pid in s.procs && (s.procs[pid].phase == ReleaseWritten(pair) || s.procs[pid].phase == ReleaseReturning(pair))
  }

  /** In every state of every run: an unreleased reservation outside its release window is registered to its
      process, and two unreleased reservations of live processes share a port only while one of them is in
      its release window. */
  lemma UnreleasedReservationsAreSafe(
      states: seq<State>, steps: seq<Step>, i: nat, p: Pid, a: Pair, q: Pid, b: Pair)
    requires IsRun(states, steps) && i < |states|
    requires Unreleased(states[i], p, a)
    ensures InReleaseWindow(states[i], p, a) || Holds(Load(states[i].file), p, a)
    ensures Unreleased(states[i], q, b) && (p, a) != (q, b) && !Disjoint(a, b) ==>
              InReleaseWindow(states[i], p, a) || InReleaseWindow(states[i], q, b)
  {
    EveryRunIsSafe(states, steps, i);
    var s := states[i];
    assert !InReleaseWindow(s, p, a) ==> Claimed(s, p, a);
    assert Unreleased(s, q, b) && !InReleaseWindow(s, q, b) ==> Claimed(s, q, b);
  }

  // A run on which the window matters: process 1 reserves and begins to release, process 2 reserves the same
  // ports before process 1 has set its flag.

  const PAIR: Pair := (10, 11)
  const NO_PORTS := Readable(map[])
  const ASK := Request(10, 11, 1, 1)
  const ALIVE: set<Pid> := {1, 2}
  const BINDABLE: set<int> := {10, 11}

  function Owning(pid: Pid): Registry {
    map[PortKey(10) := Owned(pid), PortKey(11) := Owned(pid)]
  }

  function Two(file: File, lock: Option<Pid>, p: Process, q: Process): State {
    State(file, lock, map[1 := p, 2 := q])
  }

  predicate StepsTo(s: State, step: Step, s': State) {
    Enabled(s, step) && Next(s, step) == s'
  }

  lemma PlansOfThePair(pid: Pid)
    ensures PlanReserve(NO_PORTS, pid, ASK, ALIVE, BINDABLE) == Ok((Owning(pid), PAIR))
    ensures PlanRelease(Readable(Owning(pid)), pid, PAIR) == map[]
  {
    var data := Clean(Load(NO_PORTS), ALIVE);
    assert data == map[];
    assert CandidatePairs(ASK) == [PAIR];
    assert Select([PAIR], {}, BINDABLE, 0) == Some(PAIR);
    assert data[PortKey(10) := Owned(pid)][PortKey(11) := Owned(pid)] == Owning(pid);
  }

  lemma Moves(file: File, lock: Option<Pid>, p: Process, q: Process, r: Process)
    ensures Two(file, lock, p, q).procs[1 := r] == map[1 := r, 2 := q]
    ensures Two(file, lock, p, q).procs[2 := r] == map[1 := p, 2 := r]
  {
  }

  const FRESH := Process(Idle, {})
  const WINDOW := Process(ReleaseReturning(PAIR), {PAIR})

  function WindowState(i: int): State {
    if i == 0 then State(NO_PORTS, None, map[])
    else if i == 1 then State(NO_PORTS, None, map[1 := FRESH])
    else if i == 2 then Two(NO_PORTS, None, FRESH, FRESH)
    else if i == 3 then Two(NO_PORTS, Some(1), Process(ReserveLocked, {}), FRESH)
    else if i == 4 then Two(NO_PORTS, Some(1), Process(ReserveReady(Owning(1), PAIR), {}), FRESH)
    else if i == 5 then Two(Readable(Owning(1)), Some(1), Process(ReserveWritten(PAIR), {}), FRESH)
    else if i == 6 then Two(Readable(Owning(1)), None, Process(ReserveReturning(PAIR), {}), FRESH)
    else if i == 7 then Two(Readable(Owning(1)), None, Process(Idle, {PAIR}), FRESH)
    else if i == 8 then Two(Readable(Owning(1)), Some(1), Process(ReleaseLocked(PAIR), {PAIR}), FRESH)
    else if i == 9 then Two(Readable(Owning(1)), Some(1), Process(ReleaseReady(map[], PAIR), {PAIR}), FRESH)
    else if i == 10 then Two(NO_PORTS, Some(1), Process(ReleaseWritten(PAIR), {PAIR}), FRESH)
    else if i == 11 then Two(NO_PORTS, None, WINDOW, FRESH)
    else if i == 12 then Two(NO_PORTS, Some(2), WINDOW, Process(ReserveLocked, {}))
    else if i == 13 then Two(NO_PORTS, Some(2), WINDOW, Process(ReserveReady(Owning(2), PAIR), {}))
    else if i == 14 then Two(Readable(Owning(2)), Some(2), WINDOW, Process(ReserveWritten(PAIR), {}))
    else if i == 15 then Two(Readable(Owning(2)), None, WINDOW, Process(ReserveReturning(PAIR), {}))
    else Two(Readable(Owning(2)), None, WINDOW, Process(Idle, {PAIR}))
  }

  function WindowStep(i: int): Step {
    if i == 0 then Spawn(1)
    else if i == 1 then Spawn(2)
    else if i == 2 then BeginReserve(1)
    else if i == 3 then PrepareReserve(1, ASK, ALIVE, BINDABLE)
    else if i == 4 then WriteReserve(1)
    else if i == 5 then UnlockReserve(1)
    else if i == 6 then ReturnReserve(1)
    else if i == 7 then BeginRelease(1, PAIR)
    else if i == 8 then PrepareRelease(1)
    else if i == 9 then WriteRelease(1)
    else if i == 10 then UnlockRelease(1)
    else if i == 11 then BeginReserve(2)
    else if i == 12 then PrepareReserve(2, ASK, ALIVE, BINDABLE)
    else if i == 13 then WriteReserve(2)
    else if i == 14 then UnlockReserve(2)
    else ReturnReserve(2)
  }

  lemma FirstWindowSteps(i: int)
    requires 0 <= i < 7
    ensures StepsTo(WindowState(i), WindowStep(i), WindowState(i + 1))
  {
    PlansOfThePair(1);
    hide PlanReserve, PlanRelease, Owning;
    var s, s' := WindowState(i), WindowState(i + 1);
    if i == 1 { assert s.procs[2 := FRESH] == s'.procs; }
    if i >= 2 { Moves(s.file, s.lock, s.procs[1], s.procs[2], s'.procs[1]); }
    assert {} + {PAIR} == {PAIR};
  }

  lemma MiddleWindowSteps(i: int)
    requires 7 <= i < 11
    ensures StepsTo(WindowState(i), WindowStep(i), WindowState(i + 1))
  {
    PlansOfThePair(1);
    hide PlanReserve, PlanRelease, Owning;
    var s, s' := WindowState(i), WindowState(i + 1);
    Moves(s.file, s.lock, s.procs[1], s.procs[2], s'.procs[1]);
  }

  lemma LastWindowSteps(i: int)
    requires 11 <= i < 16
    ensures StepsTo(WindowState(i), WindowStep(i), WindowState(i + 1))
  {
    PlansOfThePair(2);
    hide PlanReserve, PlanRelease, Owning;
    var s, s' := WindowState(i), WindowState(i + 1);
    Moves(s.file, s.lock, s.procs[1], s.procs[2], s'.procs[2]);
    assert {} + {PAIR} == {PAIR};
  }

  /** The window is real: from an empty registry, two processes end up with unreleased reservations of the
      very same ports. */
  lemma ReleaseWindowIsReal()
    ensures IsRun(seq(17, i => WindowState(i)), seq(16, i => WindowStep(i))) && WindowState(0).file == NO_PORTS
    ensures Unreleased(WindowState(16), 1, PAIR) && Unreleased(WindowState(16), 2, PAIR)
  {
    hide WindowState, WindowStep, StepsTo, Initial, Unreleased, IsRun;
    WindowEnds();
    var states, steps := seq(17, i => WindowState(i)), seq(16, i => WindowStep(i));
    forall i | 0 <= i < 16
      ensures StepsTo(states[i], steps[i], states[i + 1])
    {
      if i < 7 { FirstWindowSteps(i); } else if i < 11 { MiddleWindowSteps(i); } else { LastWindowSteps(i); }
    }
    StepsMakeARun(states, steps);
  }

  lemma StepsMakeARun(states: seq<State>, steps: seq<Step>)
    requires |states| == |steps| + 1 && Initial(states[0])
    requires forall i | 0 <= i < |steps| :: StepsTo(states[i], steps[i], states[i + 1])
    ensures IsRun(states, steps)
  {
    forall i | 0 <= i < |steps|
      ensures Enabled(states[i], steps[i]) && states[i + 1] == Next(states[i], steps[i])
    {
      assert StepsTo(states[i], steps[i], states[i + 1]);
    }
  }

  lemma WindowEnds()
    ensures Initial(WindowState(0)) && WindowState(0).file == NO_PORTS
    ensures Unreleased(WindowState(16), 1, PAIR) && Unreleased(WindowState(16), 2, PAIR)
  {
  }
}
