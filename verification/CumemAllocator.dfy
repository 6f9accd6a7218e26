/**
 Creating, mapping, unmapping and releasing the chunks of an allocation on a device driver any of
 whose calls may fail.

 `fault(c)` is the status the driver gives to its `c`-th call when that call is otherwise valid: 0 is
 success.  Status codes of clean-up calls are ignored, as in the program.
 */
module CumemAllocator {
  import opened ChunkPlan

  datatype Mapping = Mapping(addr: nat, size: nat, handle: nat)

  class Driver {
    const fault: nat -> int
    var handles: set<nat>
    var mapped: set<Mapping>
    var nextHandle: nat  // handles are numbered in order of creation
    var calls: nat

    constructor (fault: nat -> int)
      ensures this.fault == fault && handles == {} && mapped == {}
    {
      this.fault := fault;
      handles, mapped, nextHandle, calls := {}, {}, 0, 0;
    }

    method MemCreate() returns (status: int, h: nat)
      modifies this
      ensures calls == old(calls) + 1 && mapped == old(mapped) && status == fault(old(calls)) && h == old(nextHandle)
      ensures if status == 0 then handles == old(handles) + {h} && nextHandle == h + 1
              else handles == old(handles) && nextHandle == h
    {
      status, h := fault(calls), nextHandle;
      calls := calls + 1;
      if status == 0 { handles, nextHandle := handles + {h}, h + 1; }
    }

    method MemMap(addr: nat, size: nat, h: nat) returns (status: int)
      modifies this
      ensures calls == old(calls) + 1 && handles == old(handles) && nextHandle == old(nextHandle)
      ensures status == fault(old(calls))
      ensures mapped == if status == 0 then old(mapped) + {Mapping(addr, size, h)} else old(mapped)
    {
      status := fault(calls);
      calls := calls + 1;
      if status == 0 { mapped := mapped + {Mapping(addr, size, h)}; }
    }

    method MemUnmap(addr: nat, size: nat) returns (status: int)
      modifies this
      ensures calls == old(calls) + 1 && handles == old(handles) && nextHandle == old(nextHandle)
      ensures status == fault(old(calls))
      ensures mapped == if status == 0 then set m | m in old(mapped) && (m.addr, m.size) != (addr, size) else old(mapped)
    {
      status := fault(calls);
      calls := calls + 1;
      if status == 0 { mapped := set m | m in mapped && (m.addr, m.size) != (addr, size); }
    }

    method MemRelease(h: nat) returns (status: int)
      modifies this
      ensures calls == old(calls) + 1 && mapped == old(mapped) && nextHandle == old(nextHandle)
      ensures status == fault(old(calls))
      ensures handles == if status == 0 then old(handles) - {h} else old(handles)
    {
      status := fault(calls);
      calls := calls + 1;
      if status == 0 { handles := handles - {h}; }
    }

    /** A call that changes neither handles nor mappings (context set-up, access rights). */
    method OtherCall() returns (status: int)
      modifies this
      ensures calls == old(calls) + 1 && mapped == old(mapped) && handles == old(handles) && nextHandle == old(nextHandle)
      ensures status == fault(old(calls))
    {
      status := fault(calls);
      calls := calls + 1;
    }
  }

  /** The `n` handles created from `lo` on. */
  function HandleRange(lo: nat, n: nat): (r: set<nat>)
    ensures forall h :: h in r <==> lo <= h < lo + n
  {
    if n == 0 then {} else HandleRange(lo, n - 1) + {lo + n - 1}
  }

  /** Those of them whose release, the calls from `call` on, failed. */
  function Unreleased(fault: nat -> int, lo: nat, n: nat, call: nat): (r: set<nat>)
    ensures forall h :: h in r <==> lo <= h < lo + n && fault(call + (h - lo)) != 0
  {
    if n == 0 then {}
    else Unreleased(fault, lo, n - 1, call) + if fault(call + n - 1) != 0 then {lo + n - 1} else {}
  }

  function Tile(dMem: nat, sizes: seq<nat>, lo: nat, i: nat): Mapping
    requires i < |sizes|
  {
    Mapping(dMem + Total(sizes, i), sizes[i], lo + i)
  }

  /** The mappings of the first `n` chunks: consecutive, each with its own handle. */
  function Tiles(dMem: nat, sizes: seq<nat>, lo: nat, n: nat): set<Mapping>
    requires n <= |sizes|
  {
    if n == 0 then {} else Tiles(dMem, sizes, lo, n - 1) + {Tile(dMem, sizes, lo, n - 1)}
  }

  /** Chunk `i` is mapped where the earlier chunks end, with its own size and the `i`-th handle from `lo` on. */
  predicate IsChunk(dMem: nat, sizes: seq<nat>, lo: nat, i: int, m: Mapping) {
    0 <= i < |sizes| && m.addr == dMem + Total(sizes, i) && m.size == sizes[i] && m.handle == lo + i
  }

  lemma {:induction false} TilesAreChunks(dMem: nat, sizes: seq<nat>, lo: nat, n: nat, m: Mapping)
    requires n <= |sizes|
    ensures m in Tiles(dMem, sizes, lo, n) <==> exists i | 0 <= i < n :: IsChunk(dMem, sizes, lo, i, m)
  {
    if n > 0 {
      TilesAreChunks(dMem, sizes, lo, n - 1, m);
      assert m == Tile(dMem, sizes, lo, n - 1) <==> IsChunk(dMem, sizes, lo, n - 1, m);
    }
  }

  /** The new mappings are the chunks and the new handles back them one to one: chunk `i` is mapped with handle
      `lo + i`, every new mapping is a chunk, and the new handles are `lo`, `lo + 1` and so on. */
  ghost predicate EveryChunkIsBacked(
      dMem: nat, sizes: seq<nat>, lo: nat,
      oldHandles: set<nat>, handles: set<nat>, oldMapped: set<Mapping>, mapped: set<Mapping>)
  {
    && (forall i | 0 <= i < |sizes| :: Mapping(dMem + Total(sizes, i), sizes[i], lo + i) in mapped)
    && (forall m | m in mapped && m !in oldMapped :: exists i :: IsChunk(dMem, sizes, lo, i, m))
    && (forall h :: h in handles && h !in oldHandles <==> lo <= h < lo + |sizes|)
    && oldHandles <= handles && oldMapped <= mapped
  }

  lemma ChunksAreBacked(dMem: nat, sizes: seq<nat>, handles: set<nat>, mapped: set<Mapping>, lo: nat)
    requires forall h | h in handles :: h < lo
    ensures EveryChunkIsBacked(
              dMem, sizes, lo, handles, handles + HandleRange(lo, |sizes|), mapped, mapped + Tiles(dMem, sizes, lo, |sizes|))
  {
    hide HandleRange, Tiles, Total;
    forall m { TilesAreChunks(dMem, sizes, lo, |sizes|, m); }
    forall i | 0 <= i < |sizes|
      ensures Mapping(dMem + Total(sizes, i), sizes[i], lo + i) in Tiles(dMem, sizes, lo, |sizes|)
    {
      assert IsChunk(dMem, sizes, lo, i, Mapping(dMem + Total(sizes, i), sizes[i], lo + i));
    }
  }

  /** Different chunks have different handles and different addresses. */
  lemma HandlesBackOneChunk(dMem: nat, sizes: seq<nat>, lo: nat, i: nat, j: nat, a: Mapping, b: Mapping)
    requires AllPositive(sizes) && IsChunk(dMem, sizes, lo, i, a) && IsChunk(dMem, sizes, lo, j, b) && i != j
    ensures a.handle != b.handle && a.addr != b.addr
  {
    if i < j { TotalIsIncreasing(sizes, i, j); } else { TotalIsIncreasing(sizes, j, i); }
  }

  /** Those of them whose unmapping, the calls from `call` on, failed. */
  function StillMapped(fault: nat -> int, dMem: nat, sizes: seq<nat>, lo: nat, n: nat, call: nat): set<Mapping>
    requires n <= |sizes|
  {
    if n == 0 then {}
    else
      StillMapped(fault, dMem, sizes, lo, n - 1, call)
      + if fault(call + n - 1) != 0 then {Tile(dMem, sizes, lo, n - 1)} else {}
  }

  /** No existing mapping touches the reserved range. */
  predicate RangeFree(mapped: set<Mapping>, dMem: nat, size: nat) {
    forall m | m in mapped :: m.addr + m.size <= dMem || dMem + size <= m.addr
  }

  predicate AllPositive(sizes: seq<nat>) {
    forall i | 0 <= i < |sizes| :: sizes[i] > 0
  }

  lemma {:induction false} TotalIsIncreasing(sizes: seq<nat>, i: nat, j: nat)
    requires AllPositive(sizes) && i <= j <= |sizes|
    ensures Total(sizes, i) <= Total(sizes, j) && (i < j ==> Total(sizes, i) + sizes[i] <= Total(sizes, j))
  {
    if i < j { TotalIsIncreasing(sizes, i, j - 1); }
  }

  /** The mapped chunks tile the range: each starts where the one before ends. */
  lemma TilesAreContiguous(dMem: nat, sizes: seq<nat>, lo: nat, i: nat, j: nat)
    requires AllPositive(sizes) && i < j < |sizes|
    ensures var a, b := Tile(dMem, sizes, lo, i), Tile(dMem, sizes, lo, j);
            && a.addr + a.size <= b.addr && (j == i + 1 ==> a.addr + a.size == b.addr)
            && dMem <= a.addr && b.addr + b.size <= dMem + Total(sizes, |sizes|)
  {
    TotalIsIncreasing(sizes, i, j);
    TotalIsIncreasing(sizes, j, |sizes|);
  }

  /** A tile with index at least `n` is none of the first `n`, and shares no address with them. */
  lemma {:induction false} LaterTileIsNew(dMem: nat, sizes: seq<nat>, lo: nat, n: nat, j: nat, m: Mapping)
    requires AllPositive(sizes) && n <= j < |sizes| && m in Tiles(dMem, sizes, lo, n)
    ensures m.addr < Tile(dMem, sizes, lo, j).addr
  {
    if m == Tile(dMem, sizes, lo, n - 1) {
      TotalIsIncreasing(sizes, n - 1, j);
    } else {
      LaterTileIsNew(dMem, sizes, lo, n - 1, j, m);
    }
  }

  /** The first non-zero status among `n` calls from `call` on, 0 if there is none. */
  function FirstFault(fault: nat -> int, call: nat, n: nat): int {
    if n == 0 then 0
    else if FirstFault(fault, call, n - 1) != 0 then FirstFault(fault, call, n - 1)
    else fault(call + n - 1)
  }

  /** It is 0 exactly when no call fails, and otherwise the status of a failed call before which none failed. */
  lemma {:induction false} FirstFaultIsFirst(fault: nat -> int, call: nat, n: nat)
    ensures FirstFault(fault, call, n) == 0 <==> forall c | call <= c < call + n :: fault(c) == 0
    ensures FirstFault(fault, call, n) != 0 ==>
              exists c: nat | call <= c < call + n ::
                fault(c) == FirstFault(fault, call, n) && forall b | call <= b < c :: fault(b) == 0
  {
    if n > 0 {
      FirstFaultIsFirst(fault, call, n - 1);
      var last := call + n - 1;
      if FirstFault(fault, call, n - 1) == 0 && fault(last) != 0 {
        assert forall b | call <= b < last :: fault(b) == 0;
      }
    }
  }

  /** Releasing handles `lo .. lo + n`, whatever the status of each call. */
  method ReleaseHandles(d: Driver, lo: nat, n: nat) returns (first: int)
    modifies d
    ensures first == FirstFault(d.fault, old(d.calls), n)
    ensures d.calls == old(d.calls) + n && d.mapped == old(d.mapped) && d.nextHandle == old(d.nextHandle)
    ensures d.handles == old(d.handles) - (HandleRange(lo, n) - Unreleased(d.fault, lo, n, old(d.calls)))
  {
    first := 0;
    for j := 0 to n
      invariant first == FirstFault(d.fault, old(d.calls), j)
      invariant d.calls == old(d.calls) + j && d.mapped == old(d.mapped) && d.nextHandle == old(d.nextHandle)
      invariant d.handles == old(d.handles) - (HandleRange(lo, j) - Unreleased(d.fault, lo, j, old(d.calls)))
    {
      var status := d.MemRelease(lo + j);
      if status != 0 && first == 0 { first := status; }
    }
  }

  /** What unmapping the first `n` chunks leaves of the set `ms`. */
  function AfterUnmap(fault: nat -> int, dMem: nat, sizes: seq<nat>, n: nat, call: nat, ms: set<Mapping>): set<Mapping>
    requires n <= |sizes|
  {
    if n == 0 then ms
    else
      var rest := AfterUnmap(fault, dMem, sizes, n - 1, call, ms);
      if fault(call + n - 1) != 0 then rest
      else set m | m in rest && (m.addr, m.size) != (dMem + Total(sizes, n - 1), sizes[n - 1])
  }

  /** Unmapping visits the addresses that mapping visited. */
  method UnmapChunks(d: Driver, dMem: nat, sizes: seq<nat>, n: nat) returns (first: int)
    requires n <= |sizes|
    modifies d
    ensures first == FirstFault(d.fault, old(d.calls), n)
    ensures d.calls == old(d.calls) + n && d.handles == old(d.handles) && d.nextHandle == old(d.nextHandle)
    ensures d.mapped == AfterUnmap(d.fault, dMem, sizes, n, old(d.calls), old(d.mapped))
  {
    var unmappedSize := 0;
    first := 0;
    for j := 0 to n
      invariant first == FirstFault(d.fault, old(d.calls), j)
      invariant d.calls == old(d.calls) + j && d.handles == old(d.handles) && d.nextHandle == old(d.nextHandle)
      invariant d.mapped == AfterUnmap(d.fault, dMem, sizes, j, old(d.calls), old(d.mapped))
      invariant unmappedSize == Total(sizes, j)
    {
      var status := d.MemUnmap(dMem + unmappedSize, sizes[j]);
      if status != 0 && first == 0 { first := status; }
      unmappedSize := unmappedSize + sizes[j];
    }
  }

  /** Unmapping the first `n` of `k` mapped chunks removes exactly those whose call succeeds. */
  lemma {:induction false} UnmapRemovesTiles(
      fault: nat -> int, dMem: nat, sizes: seq<nat>, lo: nat, n: nat, call: nat, before: set<Mapping>)
    requires n <= |sizes| && AllPositive(sizes) && RangeFree(before, dMem, Total(sizes, |sizes|))
    ensures AfterUnmap(fault, dMem, sizes, n, call, before + Tiles(dMem, sizes, lo, n)) ==
            before + StillMapped(fault, dMem, sizes, lo, n, call)
  {
    if n > 0 {
      UnmapRemovesTiles(fault, dMem, sizes, lo, n - 1, call, before);
      var t := Tile(dMem, sizes, lo, n - 1);
      UnmapIgnoresLaterTile(fault, dMem, sizes, n - 1, call, before + Tiles(dMem, sizes, lo, n - 1), t);
      assert before + Tiles(dMem, sizes, lo, n) == (before + Tiles(dMem, sizes, lo, n - 1)) + {t};
      NextTileIsNew(fault, dMem, sizes, lo, n - 1, call, before);
    }
  }

  /** No mapping from before the call and no earlier chunk sits at the next chunk's address. */
  lemma NextTileIsNew(fault: nat -> int, dMem: nat, sizes: seq<nat>, lo: nat, n: nat, call: nat, before: set<Mapping>)
    requires n < |sizes| && AllPositive(sizes) && RangeFree(before, dMem, Total(sizes, |sizes|))
    ensures forall m | m in before + StillMapped(fault, dMem, sizes, lo, n, call) ::
              (m.addr, m.size) != (dMem + Total(sizes, n), sizes[n])
  {
    StillMappedAreTiles(fault, dMem, sizes, lo, n, call);
    TotalIsIncreasing(sizes, n, |sizes|);
    forall m | m in before + StillMapped(fault, dMem, sizes, lo, n, call)
      ensures (m.addr, m.size) != (dMem + Total(sizes, n), sizes[n])
    {
      if m in StillMapped(fault, dMem, sizes, lo, n, call) {
        LaterTileIsNew(dMem, sizes, lo, n, n, m);
      }
    }
  }

  lemma {:induction false} StillMappedAreTiles(fault: nat -> int, dMem: nat, sizes: seq<nat>, lo: nat, n: nat, call: nat)
    requires n <= |sizes|
    ensures StillMapped(fault, dMem, sizes, lo, n, call) <= Tiles(dMem, sizes, lo, n)
  {
    if n > 0 { StillMappedAreTiles(fault, dMem, sizes, lo, n - 1, call); }
  }

  lemma {:induction false} UnmapIgnoresLaterTile(
      fault: nat -> int, dMem: nat, sizes: seq<nat>, n: nat, call: nat, ms: set<Mapping>, t: Mapping)
    requires n < |sizes| && AllPositive(sizes) && t.addr == dMem + Total(sizes, n)
    ensures AfterUnmap(fault, dMem, sizes, n, call, ms + {t}) == AfterUnmap(fault, dMem, sizes, n, call, ms) + {t}
  {
    UnmapIgnores(fault, dMem, sizes, n, n, call, ms, t);
  }

  lemma {:induction false} UnmapIgnores(
      fault: nat -> int, dMem: nat, sizes: seq<nat>, n: nat, j: nat, call: nat, ms: set<Mapping>, t: Mapping)
    requires n <= j < |sizes| && AllPositive(sizes) && t.addr == dMem + Total(sizes, j)
    ensures AfterUnmap(fault, dMem, sizes, n, call, ms + {t}) == AfterUnmap(fault, dMem, sizes, n, call, ms) + {t}
  {
    if n > 0 {
      UnmapIgnores(fault, dMem, sizes, n - 1, j, call, ms, t);
      TotalIsIncreasing(sizes, n - 1, j);
    }
  }

  /** How a `create_and_map` call ended.  A failed create or map step is followed by clean-up calls
      `from .. to`. */
  datatype Outcome =
    | Mapped
    | CreateFailed(chunk: nat, from: nat, to: nat)
    | MapFailed(chunk: nat, from: nat, to: nat)
    | AccessFailed

  predicate NoFaults(fault: nat -> int, from: nat, to: nat) {
    forall c: nat | from <= c < to :: fault(c) == 0
  }

  /** The error code after a call with this status. */
  function StatusOr(status: int, errorCode: int): int {
    if status != 0 then status else errorCode
  }

  /** What a `create_and_map` of `n` chunks does when its first driver call is number `b`: how it ends, how
      many calls have been made by then and which error code it leaves, given the code pending before.  The
      calls are the context, the creates, the maps and the access rights; a failed create or map step is
      followed by its clean-up. */
  predicate IsOutcome(fault: nat -> int, pending: int, b: nat, n: nat, outcome: Outcome, calls: nat, errorCode: int) {
    var before := StatusOr(fault(b), pending);
    match outcome
    case Mapped =>
      && pending == 0 && NoFaults(fault, b, b + 2 + n + n)
      && calls == b + 2 + n + n && errorCode == 0
    case AccessFailed =>
      && (n > 0 ==> pending == 0 && NoFaults(fault, b, b + 1 + n + n))
      && calls == b + 2 + n + n && errorCode == StatusOr(fault(b + 1 + n + n), before) != 0
    case CreateFailed(i, from, to) =>
      && i < n && from == b + 2 + i && to == from + i == calls
      && errorCode == StatusOr(fault(b + 1 + i), before)
      && (if before == 0 then NoFaults(fault, b, b + 1 + i) && fault(b + 1 + i) != 0 else i == 0)
    case MapFailed(i, from, to) =>
      && i < n && from == b + 2 + n + i && to == from + i + n == calls
      && pending == 0 && NoFaults(fault, b, b + 1 + n + i) && errorCode == fault(b + 1 + n + i) != 0
  }

  /** The fault oracle and the pending code decide the outcome. */
  lemma OutcomeIsDetermined(
      fault: nat -> int, pending: int, b: nat, n: nat, o: Outcome, calls: nat, code: int, o': Outcome, calls': nat, code': int)
    requires IsOutcome(fault, pending, b, n, o, calls, code) && IsOutcome(fault, pending, b, n, o', calls', code')
    ensures o == o' && calls == calls' && code == code'
  {
  }

  lemma CreateFailedOutcome(fault: nat -> int, pending: int, b: nat, n: nat, i: nat)
    requires i < n
    requires if StatusOr(fault(b), pending) == 0 then NoFaults(fault, b + 1, b + 1 + i) && fault(b + 1 + i) != 0 else i == 0
    ensures IsOutcome(fault, pending, b, n, CreateFailed(i, b + 2 + i, b + 2 + i + i), b + 2 + i + i,
                      StatusOr(fault(b + 1 + i), StatusOr(fault(b), pending)))
    ensures !(pending == 0 && NoFaults(fault, b, b + 2 + n + n))
  {
  }

  lemma MapFailedOutcome(fault: nat -> int, b: nat, n: nat, i: nat)
    requires i < n && fault(b) == 0 && NoFaults(fault, b + 1, b + 1 + n)
    requires NoFaults(fault, b + 1 + n, b + 1 + n + i) && fault(b + 1 + n + i) != 0
    ensures IsOutcome(fault, 0, b, n, MapFailed(i, b + 2 + n + i, b + 2 + n + i + i + n), b + 2 + n + i + i + n, fault(b + 1 + n + i))
    ensures !NoFaults(fault, b, b + 2 + n + n)
  {
  }

  lemma MappedOutcome(fault: nat -> int, pending: int, b: nat, n: nat)
    requires n > 0 ==> StatusOr(fault(b), pending) == 0
    requires NoFaults(fault, b + 1, b + 1 + n) && NoFaults(fault, b + 1 + n, b + 1 + n + n)
    ensures var code := StatusOr(fault(b + 1 + n + n), StatusOr(fault(b), pending));
            && IsOutcome(fault, pending, b, n, if code != 0 then AccessFailed else Mapped, b + 2 + n + n, code)
            && (code == 0 <==> pending == 0 && NoFaults(fault, b, b + 2 + n + n))
  {
  }

  lemma NoFaultsAt(fault: nat -> int, b: nat, n: nat, i: nat)
    requires i < n
    ensures NoFaults(fault, b, b + i + 1) <==> NoFaults(fault, b, b + i) && fault(b + i) == 0
    ensures NoFaults(fault, b, b + n) ==> fault(b + i) == 0
  {
  }

  lemma HandleRangeSteps(lo: nat, n: nat)
    ensures HandleRange(lo, 0) == {} && HandleRange(lo, n + 1) == HandleRange(lo, n) + {lo + n}
  {
  }

  lemma NoFaultsYet(fault: nat -> int, b: nat)
    ensures NoFaults(fault, b, b)
  {
  }

  /** Nothing is left behind and nothing is lost. */
  twostate predicate Restored(d: Driver)
    reads d
  {
    d.handles == old(d.handles) && d.mapped == old(d.mapped)
  }

  class Allocator {
    const driver: Driver
    var errorCode: int  // a process-wide variable: it survives calls until somebody resets it

    constructor (driver: Driver)
      ensures this.driver == driver && errorCode == 0
    {
      this.driver, errorCode := driver, 0;
    }

    /** Handles are numbered below the next number. */
    ghost predicate WellNumbered()
      reads this, driver
    {
      forall h | h in driver.handles :: h < driver.nextHandle
    }

    /** The create loop.  On failure it releases the handles made before. */
    method CreateChunks(n: nat) returns (ok: bool, made: nat)
      requires WellNumbered()
      modifies this, driver
      ensures driver.mapped == old(driver.mapped)
      ensures ok ==>
                && errorCode == old(errorCode) && (n > 0 ==> errorCode == 0)
                && driver.handles == old(driver.handles) + HandleRange(old(driver.nextHandle), n)
                && driver.nextHandle == old(driver.nextHandle) + n && driver.calls == old(driver.calls) + n
      ensures ok <==> n == 0 || (old(errorCode) == 0 && NoFaults(driver.fault, old(driver.calls), old(driver.calls) + n))
      ensures !ok ==> made < n && errorCode == StatusOr(driver.fault(old(driver.calls) + made), old(errorCode))
      ensures !ok && old(errorCode) == 0 ==>
                && driver.fault(old(driver.calls) + made) != 0
                && NoFaults(driver.fault, old(driver.calls), old(driver.calls) + made)
                && driver.calls == old(driver.calls) + made + 1 + made
                && driver.handles == old(driver.handles)
                     + Unreleased(driver.fault, old(driver.nextHandle), made, old(driver.calls) + made + 1)
      ensures !ok && old(errorCode) != 0 ==>
                && made == 0 && driver.calls == old(driver.calls) + 1
                && driver.handles == old(driver.handles)
                     + if driver.fault(old(driver.calls)) == 0 then {old(driver.nextHandle)} else {}
    {
      hide NoFaults, HandleRange, Unreleased;
      NoFaultsYet(driver.fault, driver.calls);
      HandleRangeSteps(driver.nextHandle, 0);
      ghost var lo, before := driver.nextHandle, driver.handles;
      var first := driver.nextHandle;
      for i := 0 to n
        invariant errorCode == old(errorCode) && (i > 0 ==> errorCode == 0)
        invariant NoFaults(driver.fault, old(driver.calls), old(driver.calls) + i)
        invariant driver.mapped == old(driver.mapped) && driver.calls == old(driver.calls) + i
        invariant driver.nextHandle == lo + i && driver.handles == before + HandleRange(lo, i)
      {
        NoFaultsAt(driver.fault, old(driver.calls), n, i);
        var status, h := driver.MemCreate();
        HandleRangeSteps(lo, i);
        if status != 0 { errorCode := status; }
        if errorCode != 0 {
          MapRollbackHandles(driver.fault, before, lo, i, driver.calls);
          var ignored := ReleaseHandles(driver, first, i);
          return false, i;
        }
      }
      return true, n;
    }

    /** The map loop.  On failure it unmaps the chunks mapped before and releases all handles. */
    method MapChunks(dMem: nat, sizes: seq<nat>, lo: nat) returns (ok: bool, made: nat)
      requires AllPositive(sizes) && RangeFree(driver.mapped, dMem, Total(sizes, |sizes|))
      requires |sizes| > 0 ==> errorCode == 0
      modifies this, driver
      ensures ok ==>
                && errorCode == old(errorCode) && driver.handles == old(driver.handles)
                && driver.mapped == old(driver.mapped) + Tiles(dMem, sizes, lo, |sizes|)
                && driver.calls == old(driver.calls) + |sizes|
      ensures ok <==> NoFaults(driver.fault, old(driver.calls), old(driver.calls) + |sizes|)
      ensures !ok ==>
                && made < |sizes| && errorCode == driver.fault(old(driver.calls) + made) != 0
                && NoFaults(driver.fault, old(driver.calls), old(driver.calls) + made)
                && driver.calls == old(driver.calls) + made + 1 + made + |sizes|
                && driver.mapped == old(driver.mapped)
                     + StillMapped(driver.fault, dMem, sizes, lo, made, old(driver.calls) + made + 1)
                && driver.handles == old(driver.handles)
                     - (HandleRange(lo, |sizes|) - Unreleased(driver.fault, lo, |sizes|, old(driver.calls) + made + 1 + made))
    {
      hide HandleRange, Unreleased, StillMapped, AfterUnmap, NoFaults;
      NoFaultsYet(driver.fault, driver.calls);
      var allocatedSize := 0;
      for i := 0 to |sizes|
        invariant errorCode == old(errorCode) && driver.handles == old(driver.handles)
        invariant NoFaults(driver.fault, old(driver.calls), old(driver.calls) + i)
        invariant driver.calls == old(driver.calls) + i && allocatedSize == Total(sizes, i)
        invariant driver.mapped == old(driver.mapped) + Tiles(dMem, sizes, lo, i)
      {
        NoFaultsAt(driver.fault, old(driver.calls), |sizes|, i);
        var status := driver.MemMap(dMem + allocatedSize, sizes[i], lo + i);
        if status != 0 { errorCode := status; }
        if errorCode != 0 {
          UnmapRemovesTiles(driver.fault, dMem, sizes, lo, i, driver.calls, old(driver.mapped));
          var ignored := UnmapChunks(driver, dMem, sizes, i);
          ignored := ReleaseHandles(driver, lo, |sizes|);
          return false, i;
        }
        allocatedSize := allocatedSize + sizes[i];
      }
      return true, |sizes|;
    }

    /** With no earlier error pending, a failed create or map step leaves handles and mappings as they
        were exactly when every clean-up call succeeds; a failed access call rolls nothing back; and with
        an error pending the first handle created is lost. */
    method CreateAndMap(dMem: nat, sizes: seq<nat>) returns (outcome: Outcome)
      requires WellNumbered() && AllPositive(sizes) && RangeFree(driver.mapped, dMem, Total(sizes, |sizes|))
      modifies this, driver
      ensures IsOutcome(driver.fault, old(errorCode), old(driver.calls), |sizes|, outcome, driver.calls, errorCode)
      ensures outcome.Mapped? <==>
                old(errorCode) == 0 && NoFaults(driver.fault, old(driver.calls), old(driver.calls) + 2 + |sizes| + |sizes|)
      ensures outcome.Mapped? || outcome.AccessFailed? ==>
                && driver.handles == old(driver.handles) + HandleRange(old(driver.nextHandle), |sizes|)
                && driver.mapped == old(driver.mapped) + Tiles(dMem, sizes, old(driver.nextHandle), |sizes|)
                && EveryChunkIsBacked(
                     dMem, sizes, old(driver.nextHandle), old(driver.handles), driver.handles, old(driver.mapped), driver.mapped)
      ensures StatusOr(driver.fault(old(driver.calls)), old(errorCode)) == 0 && (outcome.CreateFailed? || outcome.MapFailed?) ==>
                (Restored(driver) <==> NoFaults(driver.fault, outcome.from, outcome.to))
      ensures StatusOr(driver.fault(old(driver.calls)), old(errorCode)) != 0 && |sizes| > 0 ==>
                && outcome.CreateFailed? && driver.mapped == old(driver.mapped)
                && driver.handles == old(driver.handles)
                     + if driver.fault(old(driver.calls) + 1) == 0 then {old(driver.nextHandle)} else {}
    {
      hide HandleRange, Unreleased, Tiles, StillMapped, Total, NoFaults, IsOutcome, AllPositive, RangeFree, EveryChunkIsBacked;
      var n, lo := |sizes|, driver.nextHandle;
      var context := driver.OtherCall();
      if context != 0 { errorCode := context; }
      var start := driver.calls;
      var created, made := CreateChunks(n);
      if !created {
        CreateFailedOutcome(driver.fault, old(errorCode), old(driver.calls), n, made);
        CreateRollbackIff(driver.fault, old(driver.handles), lo, made, start + made + 1);
        return CreateFailed(made, start + made + 1, start + made + 1 + made);
      }
      outcome := MapAndGrant(dMem, sizes, lo, old(driver.handles));
      ChunksAreBacked(dMem, sizes, old(driver.handles), old(driver.mapped), lo);
      NoFaultsYet(driver.fault, start);
      if outcome.MapFailed? {
        MapFailedOutcome(driver.fault, old(driver.calls), n, outcome.chunk);
      } else {
        MappedOutcome(driver.fault, old(errorCode), old(driver.calls), n);
      }
    }

    /** The second half: the map loop and the access rights, with `handles` from before the create loop. */
    method MapAndGrant(dMem: nat, sizes: seq<nat>, lo: nat, ghost handles: set<nat>) returns (outcome: Outcome)
      requires AllPositive(sizes) && RangeFree(driver.mapped, dMem, Total(sizes, |sizes|))
      requires |sizes| > 0 ==> errorCode == 0
      requires driver.handles == handles + HandleRange(lo, |sizes|) && forall h | h in handles :: h < lo
      modifies this, driver
      ensures !outcome.CreateFailed?
      ensures outcome.Mapped? || outcome.AccessFailed? ==>
                && NoFaults(driver.fault, old(driver.calls), old(driver.calls) + |sizes|)
                && driver.calls == old(driver.calls) + |sizes| + 1
                && errorCode == StatusOr(driver.fault(old(driver.calls) + |sizes|), old(errorCode))
                && (outcome.Mapped? <==> errorCode == 0)
                && driver.handles == old(driver.handles)
                && driver.mapped == old(driver.mapped) + Tiles(dMem, sizes, lo, |sizes|)
      ensures outcome.MapFailed? ==>
                && outcome.chunk < |sizes|
                && NoFaults(driver.fault, old(driver.calls), old(driver.calls) + outcome.chunk)
                && errorCode == driver.fault(old(driver.calls) + outcome.chunk) != 0
                && outcome.from == old(driver.calls) + outcome.chunk + 1
                && outcome.to == outcome.from + outcome.chunk + |sizes| == driver.calls
                && (driver.handles == handles && driver.mapped == old(driver.mapped)
                    <==> NoFaults(driver.fault, outcome.from, outcome.to))
    {
      hide HandleRange, Unreleased, Tiles, StillMapped, Total, NoFaults, AllPositive, RangeFree;
      var start := driver.calls;
      var mapped, done := MapChunks(dMem, sizes, lo);
      if !mapped {
        var cleanup := start + done + 1;
        MapRollbackIff(driver.fault, handles, old(driver.mapped), dMem, sizes, lo, done, cleanup);
        return MapFailed(done, cleanup, cleanup + done + |sizes|);
      }
      var access := driver.OtherCall();
      if access != 0 { errorCode := access; }
      return if errorCode != 0 then AccessFailed else Mapped;
    }

    /** All unmap and release calls are made whatever their status; an error is reported if any failed. */
    method UnmapAndRelease(dMem: nat, sizes: seq<nat>, lo: nat)
      modifies this, driver
      ensures driver.calls == old(driver.calls) + 1 + |sizes| + |sizes|
      ensures var first := FirstFault(driver.fault, old(driver.calls) + 1, |sizes| + |sizes|);
              var context := driver.fault(old(driver.calls));
              errorCode == if first != 0 then first else if context != 0 then context else old(errorCode)
      ensures driver.mapped == AfterUnmap(driver.fault, dMem, sizes, |sizes|, old(driver.calls) + 1, old(driver.mapped))
      ensures driver.handles == old(driver.handles)
                - (HandleRange(lo, |sizes|) - Unreleased(driver.fault, lo, |sizes|, old(driver.calls) + 1 + |sizes|))
    {
      hide HandleRange, Unreleased, AfterUnmap, FirstFault;
      var context := driver.OtherCall();
      if context != 0 { errorCode := context; }
      var firstError := UnmapChunks(driver, dMem, sizes, |sizes|);
      var releaseError := ReleaseHandles(driver, lo, |sizes|);
      if firstError == 0 { firstError := releaseError; }
      FirstFaultOfBoth(driver.fault, old(driver.calls) + 1, |sizes|, |sizes|);
      if firstError != 0 { errorCode := firstError; }
    }

    /** Creating and mapping, then unmapping and releasing: handles and mappings are as before exactly when
        none of the unmap and release calls on the way back failed. */
    method RoundTrip(dMem: nat, sizes: seq<nat>) returns (outcome: Outcome)
      requires WellNumbered() && AllPositive(sizes) && RangeFree(driver.mapped, dMem, Total(sizes, |sizes|))
      modifies this, driver
      ensures outcome.Mapped? <==>
                old(errorCode) == 0 && NoFaults(driver.fault, old(driver.calls), old(driver.calls) + 2 + |sizes| + |sizes|)
      ensures outcome.Mapped? || outcome.AccessFailed? ==>
                var back := old(driver.calls) + 3 + |sizes| + |sizes|;
                && driver.calls == back + |sizes| + |sizes|
                && (Restored(driver) <==> NoFaults(driver.fault, back, driver.calls))
    {
      hide HandleRange, Unreleased, Tiles, StillMapped, NoFaults, Total, AfterUnmap, FirstFault;
      var lo := driver.nextHandle;
      outcome := CreateAndMap(dMem, sizes);
      if outcome.Mapped? || outcome.AccessFailed? {
        ghost var call := driver.calls + 1;
        UnmapRemovesTiles(driver.fault, dMem, sizes, lo, |sizes|, call, old(driver.mapped));
        MapRollbackIff(driver.fault, old(driver.handles), old(driver.mapped), dMem, sizes, lo, |sizes|, call);
        UnmapAndRelease(dMem, sizes, lo);
      }
    }
  }

  lemma {:induction false} FirstFaultOfBoth(fault: nat -> int, call: nat, a: nat, b: nat)
    ensures FirstFault(fault, call, a + b) ==
            if FirstFault(fault, call, a) != 0 then FirstFault(fault, call, a) else FirstFault(fault, call + a, b)
  {
    if b > 0 { FirstFaultOfBoth(fault, call, a, b - 1); }
  }

  lemma ReleaseWindow(fault: nat -> int, lo: nat, n: nat, call: nat)
    ensures Unreleased(fault, lo, n, call) == {} <==> NoFaults(fault, call, call + n)
  {
    if Unreleased(fault, lo, n, call) == {} {
      forall c: nat | call <= c < call + n
        ensures fault(c) == 0
      {
        assert lo + (c - call) !in Unreleased(fault, lo, n, call);
      }
    }
  }

  /** Handles left over by a rollback, against those from before. */
  lemma CreateRollbackIff(fault: nat -> int, before: set<nat>, lo: nat, n: nat, call: nat)
    requires forall h | h in before :: h < lo
    ensures before + Unreleased(fault, lo, n, call) == before <==> NoFaults(fault, call, call + n)
  {
    ReleaseWindow(fault, lo, n, call);
    assert before !! Unreleased(fault, lo, n, call);
  }

  lemma MapRollbackHandles(fault: nat -> int, before: set<nat>, lo: nat, n: nat, call: nat)
    requires forall h | h in before :: h < lo
    ensures before + HandleRange(lo, n) - (HandleRange(lo, n) - Unreleased(fault, lo, n, call)) ==
            before + Unreleased(fault, lo, n, call)
  {
  }

  /** Unmapping `done` chunks and releasing all handles leaves the earlier handles and mappings exactly when
      none of these calls fails. */
  lemma MapRollbackIff(
      fault: nat -> int, handles: set<nat>, mapped: set<Mapping>, dMem: nat, sizes: seq<nat>, lo: nat, done: nat, call: nat)
    requires done <= |sizes| && AllPositive(sizes) && RangeFree(mapped, dMem, Total(sizes, |sizes|))
    requires forall h | h in handles :: h < lo
    ensures var n := |sizes|;
            && handles + HandleRange(lo, n) - (HandleRange(lo, n) - Unreleased(fault, lo, n, call + done)) == handles
            && mapped + StillMapped(fault, dMem, sizes, lo, done, call) == mapped
            <==> NoFaults(fault, call, call + done + n)
  {
    hide HandleRange, Unreleased, StillMapped, NoFaults, Total;
    UnmapWindow(fault, dMem, sizes, lo, done, call, mapped);
    CreateRollbackIff(fault, handles, lo, |sizes|, call + done);
    MapRollbackHandles(fault, handles, lo, |sizes|, call + done);
    SplitWindow(fault, call, call + done, call + done + |sizes|);
  }

  lemma SplitWindow(fault: nat -> int, a: nat, b: nat, c: nat)
    requires a <= b <= c
    ensures NoFaults(fault, a, c) <==> NoFaults(fault, a, b) && NoFaults(fault, b, c)
  {
  }

  lemma {:induction false} UnmapWindow(
      fault: nat -> int, dMem: nat, sizes: seq<nat>, lo: nat, n: nat, call: nat, before: set<Mapping>)
    requires n <= |sizes| && AllPositive(sizes) && RangeFree(before, dMem, Total(sizes, |sizes|))
    ensures before + StillMapped(fault, dMem, sizes, lo, n, call) == before <==> NoFaults(fault, call, call + n)
  {
    if n > 0 {
      UnmapWindow(fault, dMem, sizes, lo, n - 1, call, before);
      var t := Tile(dMem, sizes, lo, n - 1);
      TotalIsIncreasing(sizes, n - 1, |sizes|);
      assert t !in before;
      assert NoFaults(fault, call, call + n) <==> NoFaults(fault, call, call + n - 1) && fault(call + n - 1) == 0;
    }
  }
}
