/**
 The shared port registry: a file that maps ports to the process that reserved them.  Reserving and
 releasing load the file, change the dictionary in memory and replace the file, all under a lock.
 */
module PortRegistry {
  import opened Outcomes

  type Pid = int

  /** A key of the JSON object.  The program writes only `PortKey`s; anything else found in the file is
      kept with the integer it converts to, if any. */
  datatype Key = PortKey(port: int) | OddKey(text: string, value: Option<int>) {
    function AsInt(): Option<int> {
      match this
      case PortKey(p) => Some(p)
      case OddKey(_, v) => v
    }
  }

  /** `pid` is the entry's pid after integer conversion (`None` when that raises); `exact` says that the
      entry is a dictionary holding that very integer. */
  datatype Entry = Entry(pid: Option<Pid>, exact: bool)

  type Registry = map<Key, Entry>

  datatype File = Unreadable | Readable(ports: Registry)

  type Pair = (int, int)  // core port, engine port

  datatype Request = Request(core: int, engine: int, base: int, searchSize: int)

  datatype ReserveError = InvalidArgument | UnreadableKey | NoFreePair

  const MAX_PORT := 65535

  function Load(f: File): Registry {
    match f
    case Unreadable => map[]
    case Readable(ports) => ports
  }

  /** Entries whose process is considered alive. */
  function Clean(data: Registry, alive: set<Pid>): Registry {
    map k | k in data && data[k].pid.Some? && data[k].pid.value in alive :: data[k]
  }

  /** The ports of the remaining keys; `None` when a key does not convert to an integer. */
  function ReservedPorts(data: Registry): Option<set<int>> {
    if exists k | k in data :: k.AsInt().None? then None
    else Some(set k | k in data :: k.AsInt().value)
  }

  function Max(a: int, b: int): int { if a < b then b else a }

  function Min(a: int, b: int): int { if a < b then a else b }

  function Span(lo: int, hi: int): nat { if lo < hi then hi - lo else 0 }

  function DropEngine(pairs: seq<Pair>, engine: int): seq<Pair> {
    if pairs == [] then []
    else if pairs[0].0 == engine then DropEngine(pairs[1..], engine)
    else [pairs[0]] + DropEngine(pairs[1..], engine)
  }

  function CandidatePairs(q: Request): seq<Pair> {
    var maxPort := Min(MAX_PORT, q.base + q.searchSize - 1);
    if q.core > 0 && q.engine > 0 then [(q.core, q.engine)]
    else if q.core > 0 then
      var start := Max(q.base, q.core + 1);
      seq(Span(start, maxPort + 1), i => (q.core, start + i))
    else if q.engine > 0 then
      DropEngine(seq(Span(q.base, maxPort + 1), i => (q.base + i, q.engine)), q.engine)
    else
      seq((Span(q.base, maxPort) + 1) / 2, i => (q.base + 2 * i, q.base + 2 * i + 1))
  }

  predicate Usable(pair: Pair, reserved: set<int>, bindable: set<int>) {
    && pair.0 != pair.1
    && pair.0 !in reserved && pair.0 in bindable
    && pair.1 !in reserved && pair.1 in bindable
  }

  /** The first usable candidate from position `i` on. */
  function Select(pairs: seq<Pair>, reserved: set<int>, bindable: set<int>, i: nat): Option<Pair>
    requires i <= |pairs|
    decreases |pairs| - i
  {
    if i == |pairs| then None
    else if Usable(pairs[i], reserved, bindable) then Some(pairs[i])
    else Select(pairs, reserved, bindable, i + 1)
  }

  function Owned(pid: Pid): Entry { Entry(Some(pid), true) }

  predicate ValidRequest(q: Request) {
    q.core >= 0 && q.engine >= 0 && 0 < q.base <= MAX_PORT && q.searchSize > 0
  }

  /** What a reservation by `pid` would write, or why it fails. */
  function PlanReserve(f: File, pid: Pid, q: Request, alive: set<Pid>, bindable: set<int>)
      : Result<(Registry, Pair), ReserveError>
  {
    if !ValidRequest(q) then Err(InvalidArgument) else
    var data := Clean(Load(f), alive);
    match ReservedPorts(data)
    case None => Err(UnreadableKey)
    case Some(reserved) =>
      match Select(CandidatePairs(q), reserved, bindable, 0)
      case None => Err(NoFreePair)
      case Some(pair) =>
        Ok((data[PortKey(pair.0) := Owned(pid)][PortKey(pair.1) := Owned(pid)], pair))
  }

  function DropOwn(data: Registry, pid: Pid, port: int): Registry {
    if PortKey(port) in data && data[PortKey(port)] == Owned(pid) then data - {PortKey(port)} else data
  }

  /** What a release of `pair` by `pid` writes. */
  function PlanRelease(f: File, pid: Pid, pair: Pair): Registry {
    DropOwn(DropOwn(Load(f), pid, pair.0), pid, pair.1)
  }

  // ---------------------------------------------------------------------------------------------
  // The operations, each inside the lock

  method CleanPortRegistry(data: Registry, alive: set<Pid>) returns (cleaned: Registry, reserved: Option<set<int>>)
    ensures cleaned == Clean(data, alive) && reserved == ReservedPorts(cleaned)
  {
    var stale: set<Key> := {};
    var todo := data.Keys;
    while todo != {}
      invariant todo <= data.Keys
      invariant stale == set k | k in data && k !in todo && !(data[k].pid.Some? && data[k].pid.value in alive)
      decreases |todo|
    {
      var k :| k in todo;
      if data[k].pid.None? || data[k].pid.value !in alive { stale := stale + {k}; }
      todo := todo - {k};
    }
    cleaned := data - stale;
    reserved := ReservedPorts(cleaned);
  }

  method SelectPair(pairs: seq<Pair>, reserved: set<int>, bindable: set<int>) returns (selected: Option<Pair>)
    ensures selected == Select(pairs, reserved, bindable, 0)
  {
    for i := 0 to |pairs|
      invariant Select(pairs, reserved, bindable, i) == Select(pairs, reserved, bindable, 0)
    {
      if pairs[i].0 == pairs[i].1 { continue; }
      if pairs[i].0 !in reserved && pairs[i].0 in bindable && pairs[i].1 !in reserved && pairs[i].1 in bindable {
        return Some(pairs[i]);
      }
    }
    return None;
  }

  class RegistryFile {
    var content: File

    /** `alive` and `bindable` are the answers the operating system gives while the lock is held. */
    method ReserveParrotPorts(pid: Pid, q: Request, alive: set<Pid>, bindable: set<int>)
        returns (r: Result<PortReservation, ReserveError>)
      modifies this
      ensures match PlanReserve(old(content), pid, q, alive, bindable)
              case Err(e) => r == Err(e) && content == old(content)
              case Ok((data, pair)) =>
                && content == Readable(data)
                && r.Ok? && fresh(r.value) && r.value.Pair() == pair && !r.value.released && r.value.registry == this
    {
      if !ValidRequest(q) { return Err(InvalidArgument); }
      var data, reserved := CleanPortRegistry(Load(content), alive);
      if reserved.None? { return Err(UnreadableKey); }
      var selected := SelectPair(CandidatePairs(q), reserved.value, bindable);
      if selected.None? { return Err(NoFreePair); }
      var pair := selected.value;
      data := data[PortKey(pair.0) := Owned(pid)];
      data := data[PortKey(pair.1) := Owned(pid)];
      content := Readable(data);
      var reservation := new PortReservation(this, pair.0, pair.1);
      return Ok(reservation);
    }
  }

  class PortReservation {
    const registry: RegistryFile
    const corePort: int
    const enginePort: int
    var released: bool

    function Pair(): Pair { (corePort, enginePort) }

    constructor (registry: RegistryFile, corePort: int, enginePort: int)
      ensures this.registry == registry && Pair() == (corePort, enginePort) && !released
    {
      this.registry, this.corePort, this.enginePort, released := registry, corePort, enginePort, false;
    }

    /** Releasing twice changes nothing the second time, whoever holds the ports by then. */
    method Release(pid: Pid)
      modifies this, registry
      ensures released
      ensures registry.content ==
              if old(released) then old(registry.content)
              else Readable(PlanRelease(old(registry.content), pid, Pair()))
    {
      if released { return; }
      var data := Load(registry.content);
      if PortKey(corePort) in data && data[PortKey(corePort)] == Owned(pid) {
        data := data - {PortKey(corePort)};
      }
      if PortKey(enginePort) in data && data[PortKey(enginePort)] == Owned(pid) {
        data := data - {PortKey(enginePort)};
      }
      registry.content := Readable(data);
      released := true;
    }
  }

  // ---------------------------------------------------------------------------------------------
  // What the planned changes do to everybody's ports

  lemma {:induction false} SelectIsFirstUsable(pairs: seq<Pair>, reserved: set<int>, bindable: set<int>, i: nat)
    requires i <= |pairs|
    ensures match Select(pairs, reserved, bindable, i)
            case None => forall j | i <= j < |pairs| :: !Usable(pairs[j], reserved, bindable)
            case Some(pair) =>
              exists j | i <= j < |pairs| ::
                && pairs[j] == pair && Usable(pair, reserved, bindable)
                && forall m | i <= m < j :: !Usable(pairs[m], reserved, bindable)
    decreases |pairs| - i
  {
    if i < |pairs| {
      if Usable(pairs[i], reserved, bindable) {
        assert pairs[i] == Select(pairs, reserved, bindable, i).value;
      } else {
        SelectIsFirstUsable(pairs, reserved, bindable, i + 1);
      }
    }
  }

  /** The two ports are registered to `pid`. */
  predicate Holds(data: Registry, pid: Pid, pair: Pair) {
    && PortKey(pair.0) in data && data[PortKey(pair.0)] == Owned(pid)
    && PortKey(pair.1) in data && data[PortKey(pair.1)] == Owned(pid)
  }

  predicate Disjoint(a: Pair, b: Pair) {
    a.0 != b.0 && a.0 != b.1 && a.1 != b.0 && a.1 != b.1
  }

  /** A reservation takes two different ports that no live holder has, registers them, and keeps every
      live holder's registration. */
  lemma ReserveTakesFreshPorts(
      f: File, pid: Pid, q: Request, alive: set<Pid>, bindable: set<int>, holder: Pid, pair: Pair)
    requires PlanReserve(f, pid, q, alive, bindable).Ok?
    ensures var (data, taken) := PlanReserve(f, pid, q, alive, bindable).value;
            && taken.0 != taken.1 && taken.0 in bindable && taken.1 in bindable && Holds(data, pid, taken)
            && (holder in alive && Holds(Load(f), holder, pair) ==> Holds(data, holder, pair) && Disjoint(pair, taken))
  {
    var data := Clean(Load(f), alive);
    var reserved := ReservedPorts(data).value;
    SelectIsFirstUsable(CandidatePairs(q), reserved, bindable, 0);
    var taken := PlanReserve(f, pid, q, alive, bindable).value.1;
    if holder in alive && Holds(Load(f), holder, pair) {
      assert Holds(data, holder, pair);
      assert PortKey(pair.0).AsInt().value in reserved && PortKey(pair.1).AsInt().value in reserved;
    }
  }

  lemma ReleaseKeepsOthers(f: File, pid: Pid, released: Pair, holder: Pid, pair: Pair)
    requires Holds(Load(f), holder, pair) && (holder != pid || Disjoint(pair, released))
    ensures Holds(PlanRelease(f, pid, released), holder, pair)
  {
  }

  /** Entries of processes not considered alive do not survive a reservation. */
  lemma ReserveReclaims(f: File, pid: Pid, q: Request, alive: set<Pid>, bindable: set<int>, k: Key)
    requires PlanReserve(f, pid, q, alive, bindable).Ok? && k in PlanReserve(f, pid, q, alive, bindable).value.0
    ensures var owner := PlanReserve(f, pid, q, alive, bindable).value.0[k].pid;
            owner.Some? && (owner.value == pid || owner.value in alive)
  {
  }

  /** Automatically chosen pairs are neighbours inside the searched range. */
  lemma AutomaticPairsAreNeighbours(q: Request, i: nat)
    requires ValidRequest(q) && q.core == 0 && q.engine == 0 && i < |CandidatePairs(q)|
    ensures var (core, engine) := CandidatePairs(q)[i];
            engine == core + 1 && q.base <= core && engine <= MAX_PORT && engine < q.base + q.searchSize
  {
  }

  // ---------------------------------------------------------------------------------------------
  // What a request asks for, by arithmetic on its numbers

  /** The pairs a request may get: the ports it names, and otherwise ports of the searched range; with nothing named,
      neighbours an even distance from the start of the range. */
  predicate Eligible(q: Request, pair: Pair) {
    var top := if q.base + q.searchSize - 1 < 65535 then q.base + q.searchSize - 1 else 65535;
    && (q.core > 0 ==> pair.0 == q.core)
    && (q.engine > 0 ==> pair.1 == q.engine)
    && (q.core > 0 && q.engine <= 0 ==> q.base <= pair.1 <= top && q.core < pair.1)
    && (q.core <= 0 && q.engine > 0 ==> q.base <= pair.0 <= top && pair.0 != q.engine)
    && (q.core <= 0 && q.engine <= 0 ==>
          q.base <= pair.0 && pair.1 == pair.0 + 1 && pair.1 <= top && (pair.0 - q.base) % 2 == 0)
  }

  lemma {:induction false} DropEngineKeeps(pairs: seq<Pair>, engine: int, pair: Pair)
    ensures pair in DropEngine(pairs, engine) <==> pair in pairs && pair.0 != engine
  {
    if pairs != [] {
      DropEngineKeeps(pairs[1..], engine, pair);
      assert pairs == [pairs[0]] + pairs[1..];
    }
  }

  lemma InSpan(lo: int, hi: int, v: int)
    ensures lo <= v < hi <==> 0 <= v - lo < Span(lo, hi)
  {
  }

  /** The candidates are exactly the eligible pairs. */
  lemma CandidatesIff(q: Request, pair: Pair)
    requires ValidRequest(q)
    ensures pair in CandidatePairs(q) <==> Eligible(q, pair)
  {
    var top, pairs := Min(MAX_PORT, q.base + q.searchSize - 1), CandidatePairs(q);
    if q.core > 0 && q.engine > 0 {
    } else if q.core > 0 {
      var start := Max(q.base, q.core + 1);
      InSpan(start, top + 1, pair.1);
      if Eligible(q, pair) { assert pairs[pair.1 - start] == pair; }
    } else if q.engine > 0 {
      var all: seq<Pair> := seq(Span(q.base, top + 1), i => (q.base + i, q.engine));
      DropEngineKeeps(all, q.engine, pair);
      InSpan(q.base, top + 1, pair.0);
      if Eligible(q, pair) { assert all[pair.0 - q.base] == pair; }
    } else {
      InSpan(q.base, top, pair.0);
      if Eligible(q, pair) { assert pairs[(pair.0 - q.base) / 2] == pair; }
    }
  }

  /** Candidates come in ascending order of their ports. */
  predicate Ascending(pairs: seq<Pair>) {
    forall i, j | 0 <= i < j < |pairs| :: pairs[i].0 + pairs[i].1 < pairs[j].0 + pairs[j].1
  }

  lemma {:induction false} DropEngineAscends(pairs: seq<Pair>, engine: int)
    requires Ascending(pairs)
    ensures Ascending(DropEngine(pairs, engine))
  {
    if pairs != [] {
      var rest := DropEngine(pairs[1..], engine);
      DropEngineAscends(pairs[1..], engine);
      forall j | 0 <= j < |rest|
        ensures pairs[0].0 + pairs[0].1 < rest[j].0 + rest[j].1
      {
        DropEngineKeeps(pairs[1..], engine, rest[j]);
        var i :| 0 <= i < |pairs[1..]| && pairs[1..][i] == rest[j];
        assert pairs[i + 1] == rest[j];
      }
    }
  }

  lemma CandidatesAscend(q: Request)
    requires ValidRequest(q)
    ensures Ascending(CandidatePairs(q))
  {
    if q.core <= 0 && q.engine > 0 {
      var maxPort := Min(MAX_PORT, q.base + q.searchSize - 1);
      DropEngineAscends(seq(Span(q.base, maxPort + 1), i => (q.base + i, q.engine)), q.engine);
    }
  }

  /** The entry is in the file and its process is considered alive. */
  predicate IsLive(f: File, alive: set<Pid>, k: Key) {
    k in Load(f) && Load(f)[k].pid.Some? && Load(f)[k].pid.value in alive
  }

  /** Nobody alive has registered the port, and the operating system lets it be bound. */
  predicate IsFree(f: File, alive: set<Pid>, bindable: set<int>, port: int) {
    port in bindable && forall k | k in Load(f) && k.AsInt() == Some(port) :: !IsLive(f, alive, k)
  }

  predicate CanBeTaken(f: File, alive: set<Pid>, bindable: set<int>, pair: Pair) {
    pair.0 != pair.1 && IsFree(f, alive, bindable, pair.0) && IsFree(f, alive, bindable, pair.1)
  }

  lemma UsableIff(f: File, alive: set<Pid>, bindable: set<int>, pair: Pair)
    ensures var reserved := ReservedPorts(Clean(Load(f), alive));
            reserved.Some? ==> (Usable(pair, reserved.value, bindable) <==> CanBeTaken(f, alive, bindable, pair))
  {
    var data := Clean(Load(f), alive);
    assert forall k :: k in data <==> IsLive(f, alive, k);
  }

  /** When a reservation fails, and why: a bad number, a live entry under a key that is no number, or no eligible pair
      that can be taken. */
  lemma ReserveFailsIff(f: File, pid: Pid, q: Request, alive: set<Pid>, bindable: set<int>)
    ensures var r := PlanReserve(f, pid, q, alive, bindable);
            && (r == Err(InvalidArgument) <==>
                  q.core < 0 || q.engine < 0 || q.base <= 0 || q.base > 65535 || q.searchSize <= 0)
            && (r == Err(UnreadableKey) <==>
                  ValidRequest(q) && exists k | k in Load(f) :: IsLive(f, alive, k) && k.AsInt().None?)
            && (r == Err(NoFreePair) <==>
                  && ValidRequest(q) && (forall k | k in Load(f) && IsLive(f, alive, k) :: k.AsInt().Some?)
                  && forall pair | Eligible(q, pair) :: !CanBeTaken(f, alive, bindable, pair))
  {
    if !ValidRequest(q) { return; }
    var data := Clean(Load(f), alive);
    assert forall k :: k in data <==> IsLive(f, alive, k);
    var reserved := ReservedPorts(data);
    if reserved.None? { return; }
    SelectIsFirstUsable(CandidatePairs(q), reserved.value, bindable, 0);
    hide CandidatePairs, Eligible, CanBeTaken, Usable, Clean, Load, ReservedPorts, Select, IsLive;
    forall pair
      ensures pair in CandidatePairs(q) <==> Eligible(q, pair)
      ensures Usable(pair, reserved.value, bindable) <==> CanBeTaken(f, alive, bindable, pair)
    {
      CandidatesIff(q, pair);
      UsableIff(f, alive, bindable, pair);
    }
  }

  /** A reservation takes the eligible pair with the smallest ports among those that can be taken. */
  lemma ReserveTakesSmallest(f: File, pid: Pid, q: Request, alive: set<Pid>, bindable: set<int>, other: Pair)
    requires PlanReserve(f, pid, q, alive, bindable).Ok?
    ensures var pair := PlanReserve(f, pid, q, alive, bindable).value.1;
            && Eligible(q, pair) && CanBeTaken(f, alive, bindable, pair)
            && (Eligible(q, other) && CanBeTaken(f, alive, bindable, other) ==> pair.0 <= other.0 && pair.1 <= other.1)
  {
    var reserved := ReservedPorts(Clean(Load(f), alive)).value;
    var pairs, pair := CandidatePairs(q), PlanReserve(f, pid, q, alive, bindable).value.1;
    SelectIsFirstUsable(pairs, reserved, bindable, 0);
    CandidatesAscend(q);
    CandidatesIff(q, pair);
    CandidatesIff(q, other);
    UsableIff(f, alive, bindable, pair);
    UsableIff(f, alive, bindable, other);
    hide CandidatePairs, CanBeTaken, Usable, Clean, Load, ReservedPorts, Select, PlanReserve;
    if Eligible(q, other) && CanBeTaken(f, alive, bindable, other) {
      assert pair.0 + pair.1 <= other.0 + other.1;
    }
  }

  /** What a reservation writes: the live entries as they were, and the two ports for its own process. */
  lemma ReserveWrites(f: File, pid: Pid, q: Request, alive: set<Pid>, bindable: set<int>, k: Key)
    requires PlanReserve(f, pid, q, alive, bindable).Ok?
    ensures var (data, pair) := PlanReserve(f, pid, q, alive, bindable).value;
            if k == PortKey(pair.0) || k == PortKey(pair.1) then k in data && data[k] == Owned(pid)
            else (k in data <==> IsLive(f, alive, k)) && (k in data ==> data[k] == Load(f)[k])
  {
  }

  /** What a release writes: everything as it was, without the two entries if they are its own process's. */
  lemma ReleaseWrites(f: File, pid: Pid, pair: Pair, k: Key)
    ensures var data := PlanRelease(f, pid, pair);
            && (k in data <==> k in Load(f) && !((k == PortKey(pair.0) || k == PortKey(pair.1)) && Load(f)[k] == Owned(pid)))
            && (k in data ==> data[k] == Load(f)[k])
  {
  }
}
