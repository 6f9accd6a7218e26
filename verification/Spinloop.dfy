/**
 The monitor/wait loop against any number of writers, as a step system.  The callback's answer depends
 only on the monitored memory, so only a store can change it.
 */
module Spinloop {
  const WRAP := 0x1_0000_0000  // the iteration counter is an unsigned 32-bit integer

  /** Where the waiter is. */
  datatype Point =
    | FirstCall    // about to call the callback at the top of the loop
    | ClockCheck   // about to test the timeout and count the iteration
    | Arm          // about to arm the monitor
    | SecondCall   // about to call the callback once more
    | EnterWait    // about to execute the wait instruction
    | Sleeping     // inside the wait instruction
    | Pause        // about to execute the fallback pause
    | Done(result: Outcome)

  datatype Outcome = True | False | Error

  /** `satisfied`: the callback would return true.  `armed`: the monitor watches the buffer.  `stored`: a
      store hit the buffer since the monitor was armed.  `rounds`: iterations since the clock was read. */
  datatype State = State(
    satisfied: bool, armed: bool, stored: bool, point: Point, iteration: nat, rounds: nat)

  /** Fixed for one call: whether a timeout is set and whether the hardware wait can be used. */
  datatype Setup = Setup(haveTimeout: bool, hardwareWait: bool)

  /** What ends a hardware wait.  The program sets a hardware timeout and does not look at the reason. */
  datatype Reason = StoreSeen | HardwareTimeout | Interrupt

  datatype Step =
    | Store(satisfied: bool)              // a writer changes the buffer
    | Call(raises: bool)                  // either callback call
    | Check(clockFails: bool, expired: bool)
    | ArmMonitor
    | Wait                                // execute the wait instruction
    | Wake(reason: Reason)                // leave the wait
    | Relax                               // execute the pause instruction

  predicate Enabled(s: State, step: Step) {
    match step
    case Store(_) => true
    case Call(_) => s.point.FirstCall? || s.point.SecondCall?
    case Check(_, _) => s.point.ClockCheck?
    case ArmMonitor => s.point.Arm?
    case Wait => s.point.EnterWait?
    case Wake(reason) => s.point.Sleeping? && (reason.StoreSeen? ==> s.stored)
    case Relax => s.point.Pause?
  }

  function ReadsClock(setup: Setup, s: State): bool {
    setup.haveTimeout && s.iteration % 16 == 0
  }

  function Next(setup: Setup, s: State, step: Step): State
    requires Enabled(s, step)
  {
    match step
    case Store(satisfied) => s.(satisfied := satisfied, stored := s.stored || s.armed)
    case Call(raises) =>
      if raises then s.(point := Done(Error))
      else if s.satisfied then s.(point := Done(True))
      else s.(point := if s.point.FirstCall? then ClockCheck else EnterWait)
    case Check(clockFails, expired) =>
      if ReadsClock(setup, s) && clockFails then s.(point := Done(Error))
      else if ReadsClock(setup, s) && expired then s.(point := Done(False))
      else s.(iteration := (s.iteration + 1) % WRAP,
              rounds := (if ReadsClock(setup, s) then 0 else s.rounds) + 1,
              point := if setup.hardwareWait then Arm else Pause)
    case ArmMonitor => s.(armed := true, stored := false, point := SecondCall)
    case Wait => if s.stored then s.(armed := false, point := FirstCall) else s.(point := Sleeping)
    case Wake(_) => s.(armed := false, point := FirstCall)
    case Relax => s.(point := FirstCall)
  }

  predicate Initial(s: State) {
    s.point.FirstCall? && !s.armed && !s.stored && s.iteration == 0 && s.rounds == 0
  }

  predicate IsRun(setup: Setup, states: seq<State>, steps: seq<Step>) {
    && |states| == |steps| + 1 && Initial(states[0])
    && forall i | 0 <= i < |steps| :: Enabled(states[i], steps[i]) && states[i + 1] == Next(setup, states[i], steps[i])
  }

  /** Between the second call and the wake-up the monitor is armed, and the callback can only have become
      true through a store that the monitor has seen. */
  predicate NoStoreIsLost(s: State) {
    && (s.point.SecondCall? || s.point.EnterWait? || s.point.Sleeping? ==> s.armed)
    && (s.point.EnterWait? || s.point.Sleeping? ==> (s.satisfied ==> s.stored))
  }

  /** `rounds` iterations since the last clock reading, as the low bits of the wrapping counter show. */
  predicate InStep(iteration: nat, rounds: nat) {
    rounds <= 16 && (if rounds == 0 then iteration % 16 == 0 else rounds % 16 == iteration % 16)
  }

  predicate ClockIsRead(setup: Setup, s: State) {
    s.iteration < WRAP && (setup.haveTimeout ==> InStep(s.iteration, s.rounds))
  }

  predicate Invariant(setup: Setup, s: State) {
    NoStoreIsLost(s) && ClockIsRead(setup, s)
  }

  lemma WrapKeepsLowBits(i: nat)
    requires i < WRAP
    ensures (i + 1) % WRAP % 16 == (i + 1) % 16
  {
  }

  lemma CountStaysInStep(i: nat, rounds: nat)
    requires i < WRAP && InStep(i, rounds)
    ensures InStep((i + 1) % WRAP, (if i % 16 == 0 then 0 else rounds) + 1)
  {
    WrapKeepsLowBits(i);
  }

  lemma StepLosesNoStore(setup: Setup, s: State, step: Step)
    requires NoStoreIsLost(s) && Enabled(s, step)
    ensures NoStoreIsLost(Next(setup, s, step))
  {
    hide ReadsClock;
  }

  lemma StepCountsRounds(setup: Setup, s: State, step: Step)
    requires ClockIsRead(setup, s) && Enabled(s, step)
    ensures ClockIsRead(setup, Next(setup, s, step))
  {
    if setup.haveTimeout { CountStaysInStep(s.iteration, s.rounds); }
    hide InStep;
  }

  lemma StepKeepsInvariant(setup: Setup, s: State, step: Step)
    requires Invariant(setup, s) && Enabled(s, step)
    ensures Invariant(setup, Next(setup, s, step))
  {
    hide NoStoreIsLost, ClockIsRead, Next;
    StepLosesNoStore(setup, s, step);
    StepCountsRounds(setup, s, step);
  }

  lemma {:induction false} RunKeepsInvariant(setup: Setup, states: seq<State>, steps: seq<Step>, i: nat)
    requires IsRun(setup, states, steps) && i < |states|
    ensures Invariant(setup, states[i])
  {
    if i > 0 {
      RunKeepsInvariant(setup, states, steps, i - 1);
      StepKeepsInvariant(setup, states[i - 1], steps[i - 1]);
    }
  }

  /** In every interleaving: whenever the waiter sleeps although the callback is true, the store that made it
      true has been seen, so the wait can end without help from a timeout. */
  lemma NoLostWakeUp(setup: Setup, states: seq<State>, steps: seq<Step>, i: nat)
    requires IsRun(setup, states, steps) && i < |states| && states[i].point.Sleeping? && states[i].satisfied
    ensures Enabled(states[i], Wake(StoreSeen)) && Next(setup, states[i], Wake(StoreSeen)).point.FirstCall?
  {
    RunKeepsInvariant(setup, states, steps, i);
  }

  lemma {:induction false} SatisfiedUntilNextStore(setup: Setup, states: seq<State>, steps: seq<Step>, i: nat, k: nat)
    requires IsRun(setup, states, steps) && i < k < |states| && steps[i] == Store(true)
    requires forall m | i < m < k :: !steps[m].Store?
    ensures states[k].satisfied
  {
    if k > i + 1 { SatisfiedUntilNextStore(setup, states, steps, i, k - 1); }
  }

  /** A store that makes the callback true, with no later store, is never lost, whenever it happens: until the
      next call the waiter can always leave the wait, and that call returns true unless it raises. */
  lemma StoreIsNoticed(setup: Setup, states: seq<State>, steps: seq<Step>, i: nat, j: nat)
    requires IsRun(setup, states, steps) && i < j < |steps| && steps[i] == Store(true)
    requires forall m | i < m < j :: !steps[m].Store?
    ensures forall k | i < k <= j && states[k].point.Sleeping? :: Enabled(states[k], Wake(StoreSeen))
    ensures steps[j].Call? ==> states[j + 1].point == Done(if steps[j].raises then Error else True)
  {
    forall k | i < k <= j && states[k].point.Sleeping?
      ensures Enabled(states[k], Wake(StoreSeen))
    {
      SatisfiedUntilNextStore(setup, states, steps, i, k);
      NoLostWakeUp(setup, states, steps, k);
    }
    SatisfiedUntilNextStore(setup, states, steps, i, j);
  }

  /** With a timeout set, at most 16 iterations pass between clock readings, wrap-around included. */
  lemma ClockIsReadInTime(setup: Setup, states: seq<State>, steps: seq<Step>, i: nat)
    requires IsRun(setup, states, steps) && i < |states| && setup.haveTimeout
    ensures states[i].rounds <= 16 && (states[i].rounds == 16 ==> ReadsClock(setup, states[i]))
  {
    RunKeepsInvariant(setup, states, steps, i);
  }

  /** And it is read then and only then: first of all, and after every sixteenth iteration. */
  lemma ClockIsReadIff(setup: Setup, states: seq<State>, steps: seq<Step>, i: nat)
    requires IsRun(setup, states, steps) && i < |states| && setup.haveTimeout
    ensures ReadsClock(setup, states[i]) <==> states[i].rounds == 0 || states[i].rounds == 16
  {
    RunKeepsInvariant(setup, states, steps, i);
  }

  /** What each result means: true, that the callback was true at the call; false, that a timeout was set, the clock
      was read and it had expired. */
  lemma ResultIsJustified(setup: Setup, states: seq<State>, steps: seq<Step>, i: nat)
    requires IsRun(setup, states, steps) && i < |steps| && !states[i].point.Done?
    ensures states[i + 1].point == Done(True) ==> steps[i].Call? && states[i].satisfied
    ensures states[i + 1].point == Done(False) ==> steps[i].Check? && steps[i].expired && ReadsClock(setup, states[i])
  {
  }
}
