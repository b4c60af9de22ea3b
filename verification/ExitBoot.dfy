/**
  Leaving boot services: fetch the memory map, exit with its key, retry once,
  reset otherwise.  The environment may change the memory map before every
  firmware call (section 7.4.6 of the UEFI Specification 2.10).
 */
module ExitBoot {
  import opened Bytes
  import opened Uefi
  import opened Logging

  /** Size of the memory descriptor the crate knows. */
  const DESCRIPTOR_SIZE: nat := 40
  const EXTRA_ENTRIES: nat := 8
  const ONE_GB: nat := 0x4000_0000

  datatype MemoryMap = MemoryMap(bytes: seq<Byte>, descSize: nat, descVersion: nat)
  {
    /** What the crate asserts of every map the firmware reports. */
    predicate Ok() {
      descSize >= DESCRIPTOR_SIZE && 0 < |bytes| <= ONE_GB && |bytes| % descSize == 0
    }
  }

  /** Memory from the pool, where the map is to go. */
  datatype MapBuffer = MapBuffer(addr: nat, bytes: array<Byte>)
  {
    /** Aligned like a memory descriptor. */
    predicate Aligned() { addr % 8 == 0 }
  }

  datatype Meta = Meta(mapSize: nat, descSize: nat, mapKey: nat, descVersion: nat)

  /** Boot services calls with their results, and the reset through runtime services. */
  datatype Event =
    | MemoryMapSizeCall
    | AllocatePoolCall
    | GetMemoryMapCall(result: Result<Meta, Status>)
    | ExitBootServicesCall(key: nat, failed: Option<Status>)
    | ResetCall(status: Status)

  /** The map of the machine and the call at which it was installed. */
  datatype MapState = MapState(memoryMap: MemoryMap, installed: nat)

  class Firmware {
    /** The map that the environment installs before call number `tick`, if it changes it. */
    const drift: nat -> Option<MemoryMap>
    /** The key of the map installed at a tick; no two maps share one. */
    const keyAt: nat -> nat
    /** The status with which a call fails on its own account. */
    const fault: nat -> Option<Status>
    /** Where the pool is, call by call. */
    const poolAt: nat -> nat
    var current: MemoryMap
    var installed: nat
    var tick: nat
    var exited: bool
    var trace: seq<Event>

    ghost predicate Valid()
      reads this
    {
      && current.Ok() && installed <= tick
      && (forall t :: drift(t).Some? ==> drift(t).value.Ok())
      && (forall i, j :: keyAt(i) == keyAt(j) ==> i == j)
      && (forall t :: poolAt(t) % 8 == 0)
    }

    constructor (drift: nat -> Option<MemoryMap>, keyAt: nat -> nat, fault: nat -> Option<Status>, poolAt: nat -> nat,
                 current: MemoryMap)
      requires current.Ok() && forall t :: drift(t).Some? ==> drift(t).value.Ok()
      requires forall i, j :: keyAt(i) == keyAt(j) ==> i == j
      requires forall t :: poolAt(t) % 8 == 0
      ensures Valid() && !exited && trace == [] && tick == 0 && this.current == current
      ensures this.drift == drift && this.keyAt == keyAt && this.fault == fault && this.poolAt == poolAt
    {
      this.drift, this.keyAt, this.fault, this.poolAt := drift, keyAt, fault, poolAt;
      this.current, this.installed, this.tick, this.exited, this.trace := current, 0, 0, false, [];
    }

    function Key(): nat
      reads this
    {
      keyAt(installed)
    }

    function State(): MapState
      reads this
    {
      MapState(current, installed)
    }

    function Here(): Start
      reads this
    {
      Start(State(), tick)
    }

    /** The map after the environment had its chance to install another one before call `t`. */
    function Drifted(s: MapState, t: nat): MapState {
      if drift(t).Some? then MapState(drift(t).value, t + 1) else s
    }

    /** The environment's chance to change the map before a call. */
    method Enter()
      requires Valid() && !exited
      modifies this`current, this`installed, this`tick
      ensures Valid() && tick == old(tick) + 1 && State() == Drifted(old(State()), old(tick))
    {
      match drift(tick) {
        case Some(m) =>
          current := m;
          installed := tick + 1;
        case None =>
      }
      tick := tick + 1;
    }

    function CurrentMeta(): Meta
      reads this
    {
      Meta(|current.bytes|, current.descSize, Key(), current.descVersion)
    }

    /** `GetMemoryMap` into a buffer. */
    method GetMemoryMap(buf: array<Byte>) returns (r: Result<Meta, Status>)
      requires Valid() && !exited
      modifies this`current, this`installed, this`tick, this`trace, buf
      ensures Valid() && tick == old(tick) + 1 && trace == old(trace) + [GetMemoryMapCall(r)]
      ensures State() == Drifted(old(State()), old(tick))
      ensures r == if fault(tick).Some? then Err(fault(tick).value)
                   else if buf.Length < |current.bytes| then Err(BufferTooSmall)
                   else Ok(CurrentMeta())
      ensures r.Ok? ==> buf[..|current.bytes|] == current.bytes
    {
      Enter();
      if fault(tick).Some? {
        r := Err(fault(tick).value);
      } else if buf.Length < |current.bytes| {
        r := Err(BufferTooSmall);
      } else {
        var bytes := current.bytes;
        forall k | 0 <= k < |bytes| {
          buf[k] := bytes[k];
        }
        r := Ok(CurrentMeta());
      }
      trace := trace + [GetMemoryMapCall(r)];
    }

    /** `GetMemoryMap` without a buffer: the size is the answer. */
    method MemoryMapSize() returns (r: Option<Meta>)
      requires Valid() && !exited
      modifies this`current, this`installed, this`tick, this`trace
      ensures Valid() && tick == old(tick) + 1 && trace == old(trace) + [MemoryMapSizeCall]
      ensures State() == Drifted(old(State()), old(tick))
      ensures r == if fault(tick).Some? then None else Some(CurrentMeta())
    {
      Enter();
      r := if fault(tick).Some? then None else Some(CurrentMeta());
      trace := trace + [MemoryMapSizeCall];
    }

    /** `allocate_pool`: memory aligned to eight bytes; memory at address zero counts as a failure. */
    method AllocatePool(size: nat) returns (buf: Option<MapBuffer>)
      requires Valid() && !exited
      modifies this`current, this`installed, this`tick, this`trace
      ensures Valid() && tick == old(tick) + 1 && trace == old(trace) + [AllocatePoolCall]
      ensures State() == Drifted(old(State()), old(tick))
      ensures buf.None? <==> fault(tick).Some? || poolAt(tick) == 0
      ensures buf.Some? ==> fresh(buf.value.bytes) && buf.value.bytes.Length == size && buf.value.Aligned()
    {
      Enter();
      if fault(tick).Some? || poolAt(tick) == 0 {
        buf := None;
      } else {
        var bytes := new Byte[size](_ => 0);
        buf := Some(MapBuffer(poolAt(tick), bytes));
      }
      trace := trace + [AllocatePoolCall];
    }

    /** `ExitBootServices`: only the current key is accepted. */
    method ExitBootServices(key: nat) returns (failed: Option<Status>)
      requires Valid() && !exited
      modifies this`current, this`installed, this`tick, this`trace, this`exited
      ensures Valid() && tick == old(tick) + 1 && trace == old(trace) + [ExitBootServicesCall(key, failed)]
      ensures State() == Drifted(old(State()), old(tick))
      ensures failed == if fault(tick).Some? then fault(tick) else if key != Key() then Some(InvalidParameter) else None
      ensures exited <==> failed.None?
    {
      Enter();
      failed := if fault(tick).Some? then fault(tick) else if key != Key() then Some(InvalidParameter) else None;
      exited := failed.None?;
      trace := trace + [ExitBootServicesCall(key, failed)];
    }
  }

  // ----- What the environment makes of an attempt

  /** Where an attempt starts: the map of the machine and the number of calls so far. */
  datatype Start = Start(state: MapState, tick: nat)

  /** What an attempt with a buffer of `len` bytes comes to. */
  function AttemptAt(fw: Firmware, start: Start, len: nat): Result<Meta, Status> {
    var t, fetched := start.tick, fw.Drifted(start.state, start.tick);
    var m := fetched.memoryMap;
    if fw.fault(t + 1).Some? then Err(fw.fault(t + 1).value)
    else if len < |m.bytes| then Err(BufferTooSmall)
    else if fw.fault(t + 2).Some? then Err(fw.fault(t + 2).value)
    else if fw.drift(t + 1).Some? then Err(InvalidParameter)
    else Ok(Meta(|m.bytes|, m.descSize, fw.keyAt(fetched.installed), m.descVersion))
  }

  /** Where the machine is after an attempt: one call later, or two if the map was fetched. */
  function EndOf(fw: Firmware, start: Start, attempt: Attempt): Start {
    var fetched := Start(fw.Drifted(start.state, start.tick), start.tick + 1);
    if attempt.FetchFailed? then fetched else Start(fw.Drifted(fetched.state, fetched.tick), fetched.tick + 1)
  }

  /** Each attempt comes to what the environment makes of it, and the next one starts where it ended. */
  ghost predicate AsMade(fw: Firmware, first: Start, len: nat, starts: seq<Start>, attempts: seq<Attempt>) {
    && |starts| == |attempts|
    && (forall i :: 0 <= i < |attempts| ==> attempts[i].Outcome() == AttemptAt(fw, starts[i], len))
    && (attempts != [] ==> starts[0] == first)
    && (forall i :: 0 < i < |attempts| ==> FollowsOn(fw, starts, attempts, i))
  }

  predicate FollowsOn(fw: Firmware, starts: seq<Start>, attempts: seq<Attempt>, i: nat)
    requires 0 < i < |attempts| == |starts|
  {
    starts[i] == EndOf(fw, starts[i - 1], attempts[i - 1])
  }

  /** The buffer and metadata describe the map with which the machine left boot services. */
  ghost predicate DescribesCurrentMap(fw: Firmware, buf: array<Byte>, meta: Meta)
    reads fw, buf
  {
    && meta == fw.CurrentMeta()
    && meta.mapSize <= buf.Length && buf[..meta.mapSize] == fw.current.bytes
  }

  /** One attempt, as the firmware saw it. */
  datatype Attempt = FetchFailed(status: Status) | ExitFailed(meta: Meta, status: Status) | Left(meta: Meta)
  {
    /** The map is fetched, and the exit uses the key just fetched. */
    function Calls(): seq<Event> {
      match this
      case FetchFailed(status) => [GetMemoryMapCall(Err(status))]
      case ExitFailed(meta, status) => [GetMemoryMapCall(Ok(meta)), ExitBootServicesCall(meta.mapKey, Some(status))]
      case Left(meta) => [GetMemoryMapCall(Ok(meta)), ExitBootServicesCall(meta.mapKey, None)]
    }

    function Outcome(): Result<Meta, Status> {
      match this
      case FetchFailed(status) => Err(status)
      case ExitFailed(_, status) => Err(status)
      case Left(meta) => Ok(meta)
    }
  }

  /** `get_memory_map`: a buffer that is not aligned like a descriptor panics before the firmware is called. */
  method GetMemoryMap(fw: Firmware, buf: MapBuffer) returns (r: Option<Result<Meta, Status>>)
    requires fw.Valid() && !fw.exited
    modifies fw`current, fw`installed, fw`tick, fw`trace, buf.bytes
    ensures fw.Valid() && (r.None? <==> !buf.Aligned())
    ensures r.None? ==> fw.trace == old(fw.trace) && fw.tick == old(fw.tick)
    ensures r.Some? ==>
              && fw.State() == fw.Drifted(old(fw.State()), old(fw.tick))
              && fw.trace == old(fw.trace) + [GetMemoryMapCall(r.value)] && fw.tick == old(fw.tick) + 1
              && r.value == (if fw.fault(fw.tick).Some? then Err(fw.fault(fw.tick).value)
                             else if buf.bytes.Length < |fw.current.bytes| then Err(BufferTooSmall)
                             else Ok(fw.CurrentMeta()))
    ensures r.Some? && r.value.Ok? ==> buf.bytes[..|fw.current.bytes|] == fw.current.bytes
  {
    if buf.addr % 8 != 0 {
      return None;
    }
    var status := fw.GetMemoryMap(buf.bytes);
    r := Some(status);
  }

  /** `get_memory_map_and_exit_boot_services`. */
  method GetMapAndExit(fw: Firmware, buf: MapBuffer) returns (r: Option<Result<Meta, Status>>, ghost attempt: Attempt)
    requires fw.Valid() && !fw.exited
    modifies fw`current, fw`installed, fw`tick, fw`trace, fw`exited, buf.bytes
    ensures fw.Valid() && (r.None? <==> !buf.Aligned())
    ensures fw.exited <==> r.Some? && r.value.Ok?
    ensures r.Some? && r.value.Ok? ==> DescribesCurrentMap(fw, buf.bytes, r.value.value)
    ensures if r.None? then fw.trace == old(fw.trace)
            else r.value == attempt.Outcome() && fw.trace == old(fw.trace) + attempt.Calls()
    ensures r.Some? ==>
              && r.value == AttemptAt(fw, old(fw.Here()), buf.bytes.Length)
              && fw.Here() == EndOf(fw, old(fw.Here()), attempt)
  {
    attempt := FetchFailed(Aborted);
    r := GetMemoryMap(fw, buf);
    if r.None? {
      return;
    }
    if r.value.Err? {
      return r, FetchFailed(r.value.error);
    }
    var meta := r.value.value;
    var failed := fw.ExitBootServices(meta.mapKey);
    if failed.Some? {
      return Some(Err(failed.value)), ExitFailed(meta, failed.value);
    }
    return r, Left(meta);
  }

  datatype Outcome = Returned(meta: Meta) | MachineReset(status: Status) | Panicked

  /** What happens after the buffer has been allocated: the attempts, and the reset if all of them failed. */
  function LeavingTrace(attempts: seq<Attempt>, outcome: Outcome): seq<Event> {
    Calls(attempts) + if outcome.MachineReset? then [ResetCall(outcome.status)] else []
  }

  function Calls(attempts: seq<Attempt>): seq<Event> {
    if attempts == [] then [] else Calls(attempts[..|attempts| - 1]) + attempts[|attempts| - 1].Calls()
  }

  /** One success ends it; two failures reset the machine with the status of the second. */
  ghost predicate EndsAs(attempts: seq<Attempt>, outcome: Outcome) {
    match outcome
    case Panicked => false
    case Returned(meta) =>
      1 <= |attempts| <= 2 && attempts[|attempts| - 1] == Left(meta) && (|attempts| == 2 ==> attempts[0].Outcome().Err?)
    case MachineReset(status) =>
      |attempts| == 2 && attempts[0].Outcome().Err? && attempts[1].Outcome() == Err(status)
  }

  lemma {:induction false} OnlyLeavingCalls(attempts: seq<Attempt>)
    ensures forall i :: 0 <= i < |Calls(attempts)| ==>
              Calls(attempts)[i].GetMemoryMapCall? || Calls(attempts)[i].ExitBootServicesCall?
  {
    if attempts == [] {
    } else {
      OnlyLeavingCalls(attempts[..|attempts| - 1]);
    }
  }

  /** From the first call of `ExitBootServices` on, no boot service is called but that one and `GetMemoryMap`. */
  ghost predicate QuietAfterExit(events: seq<Event>) {
    forall i, j :: 0 <= i < j < |events| && events[i].ExitBootServicesCall? ==>
      events[j].GetMemoryMapCall? || events[j].ExitBootServicesCall? || events[j].ResetCall?
  }

  /** The calls made since the trace was `before`. */
  function Since(before: seq<Event>, trace: seq<Event>): seq<Event> {
    if |before| <= |trace| then trace[|before|..] else []
  }

  lemma {:induction false} LeavingIsQuiet(before: seq<Event>, attempts: seq<Attempt>, outcome: Outcome)
    ensures var trace := before + [MemoryMapSizeCall, AllocatePoolCall] + LeavingTrace(attempts, outcome);
            QuietAfterExit(Since(before, trace))
  {
    var events := [MemoryMapSizeCall, AllocatePoolCall] + LeavingTrace(attempts, outcome);
    OnlyLeavingCalls(attempts);
    Assoc(before, [MemoryMapSizeCall, AllocatePoolCall], LeavingTrace(attempts, outcome));
    assert Since(before, before + events) == events;
  }

  datatype Notice = RetrievalFailed | Resetting
  {
    function Text(): string {
      match this
      case RetrievalFailed => "Error retrieving the memory map for exiting the boot services"
      case Resetting => "Resetting the machine"
    }

    /** The record, logged from the given file. */
    function In(file: string): Record {
      match this
      case RetrievalFailed => Record(Error, Some(file), Some(1376))
      case Resetting => Record(Warn, Some(file), Some(1383))
    }
  }

  /** A message through the disabled logger: the frame says that only the debug console is written. */
  method LogSilently(logger: Logger, file: string, notice: Notice)
    requires logger.Valid() && logger.writer == null && NoNewline(file)
    modifies logger.debugcon
  {
    logger.Log(notice.In(file), [notice.Text()]);
  }

  lemma {:induction false} NextAttempt(fw: Firmware, first: Start, len: nat, starts: seq<Start>, attempts: seq<Attempt>,
                                       start: Start, attempt: Attempt)
    requires AsMade(fw, first, len, starts, attempts) && attempt.Outcome() == AttemptAt(fw, start, len)
    requires start == if attempts == [] then first else EndOf(fw, starts[|attempts| - 1], attempts[|attempts| - 1])
    ensures AsMade(fw, first, len, starts + [start], attempts + [attempt])
    ensures Calls(attempts + [attempt]) == Calls(attempts) + attempt.Calls()
  {
    assert (attempts + [attempt])[..|attempts|] == attempts;
    forall i | 0 < i < |attempts|
      ensures FollowsOn(fw, starts + [start], attempts + [attempt], i)
    {
      assert FollowsOn(fw, starts, attempts, i);
    }
  }

  /** The attempts so far, as the trace and the environment tell it. */
  ghost predicate Tried(fw: Firmware, before: seq<Event>, first: Start, len: nat,
                        starts: seq<Start>, attempts: seq<Attempt>)
    reads fw
  {
    && fw.trace == before + Calls(attempts) && AsMade(fw, first, len, starts, attempts)
    && fw.Here() == if attempts == [] then first else EndOf(fw, starts[|attempts| - 1], attempts[|attempts| - 1])
  }

  /** One round: an attempt, and a message if it fails. */
  method Round(fw: Firmware, buf: MapBuffer, logger: Logger, file: string,
               ghost before: seq<Event>, ghost first: Start, ghost starts: seq<Start>, ghost attempts: seq<Attempt>)
    returns (r: Result<Meta, Status>, ghost start: Start, ghost attempt: Attempt)
    requires fw.Valid() && !fw.exited && buf.Aligned() && logger.Valid() && logger.writer == null && NoNewline(file)
    requires Tried(fw, before, first, buf.bytes.Length, starts, attempts)
    modifies fw`current, fw`installed, fw`tick, fw`trace, fw`exited, buf.bytes, logger.debugcon
    ensures fw.Valid() && Tried(fw, before, first, buf.bytes.Length, starts + [start], attempts + [attempt])
    ensures attempt.Outcome() == r && (fw.exited <==> r.Ok?)
    ensures r.Ok? ==> DescribesCurrentMap(fw, buf.bytes, r.value)
  {
    start := fw.Here();
    var made;
    made, attempt := GetMapAndExit(fw, buf);
    r := made.value;
    NextAttempt(fw, first, buf.bytes.Length, starts, attempts, start, attempt);
    Assoc(before, Calls(attempts), attempt.Calls());
    if r.Err? {
      LogSilently(logger, file, RetrievalFailed);
    }
  }

  /** The two rounds, with the logger already disabled. */
  method TryTwice(fw: Firmware, buf: MapBuffer, logger: Logger, file: string)
    returns (outcome: Outcome, ghost attempts: seq<Attempt>, ghost starts: seq<Start>)
    requires fw.Valid() && !fw.exited && buf.Aligned() && logger.Valid() && logger.writer == null && NoNewline(file)
    modifies fw`current, fw`installed, fw`tick, fw`trace, fw`exited, buf.bytes, logger.debugcon
    ensures fw.Valid() && (fw.exited <==> outcome.Returned?) && EndsAs(attempts, outcome)
    ensures outcome.Returned? ==> DescribesCurrentMap(fw, buf.bytes, outcome.meta)
    ensures fw.trace == old(fw.trace) + LeavingTrace(attempts, outcome)
    ensures AsMade(fw, old(fw.Here()), buf.bytes.Length, starts, attempts)
  {
    attempts, starts := [], [];
    var status := Aborted;
    for round := 0 to 2
      invariant fw.Valid() && !fw.exited && logger.Valid() && logger.writer == null
      invariant |attempts| == round && forall i :: 0 <= i < round ==> attempts[i].Outcome().Err?
      invariant round > 0 ==> attempts[round - 1].Outcome() == Err(status)
      invariant Tried(fw, old(fw.trace), old(fw.Here()), buf.bytes.Length, starts, attempts)
    {
      ghost var start, attempt;
      var r;
      r, start, attempt := Round(fw, buf, logger, file, old(fw.trace), old(fw.Here()), starts, attempts);
      starts, attempts := starts + [start], attempts + [attempt];
      match r {
        case Ok(meta) => return Returned(meta), attempts, starts;
        case Err(err) => status := err;
      }
    }
    LogSilently(logger, file, Resetting);
    fw.trace := fw.trace + [ResetCall(status)];
    outcome := MachineReset(status);
  }

  /**
    `exit_boot_services`, in a crate whose messages name the given file.  If
    it returns, the machine has left boot services with the current key and
    the returned buffer holds the map of that key; otherwise both attempts
    failed and the machine was reset with the last status.  The first attempt
    succeeds exactly when its two calls do not fail, the map does not change
    between them, and it has not outgrown its size at the query by more than
    eight descriptors.
   */
  method ExitBootServices(fw: Firmware, logger: Logger, file: string)
    returns (outcome: Outcome, buf: Option<MapBuffer>, ghost attempts: seq<Attempt>, ghost starts: seq<Start>)
    requires fw.Valid() && !fw.exited && NoNewline(file)
    modifies fw`current, fw`installed, fw`tick, fw`trace, fw`exited, logger`writer, logger.debugcon
    ensures fw.Valid() && logger.writer == null
    ensures fw.exited <==> outcome.Returned?
    ensures outcome.Returned? ==> buf.Some? && DescribesCurrentMap(fw, buf.value.bytes, outcome.meta)
    ensures outcome.Panicked? <==>
              fw.fault(old(fw.tick) + 1).Some? || fw.fault(old(fw.tick) + 2).Some? || fw.poolAt(old(fw.tick) + 2) == 0
    ensures !outcome.Panicked? ==>
              && EndsAs(attempts, outcome)
              && fw.trace == old(fw.trace) + [MemoryMapSizeCall, AllocatePoolCall] + LeavingTrace(attempts, outcome)
    ensures QuietAfterExit(Since(old(fw.trace), fw.trace))
    ensures !outcome.Panicked? ==>
              && AsMade(fw, Allocated(fw, old(fw.Here())), BufferSize(fw, old(fw.Here())), starts, attempts)
              && (attempts[0].Left? <==> LeavesAtOnce(fw, old(fw.Here())))
    ensures Undisturbed(fw, old(fw.tick)) ==> outcome.Returned? && |attempts| == 1
  {
    attempts, starts, buf := [], [], None;
    logger.Disable();
    buf := Prepare(fw);
    if buf.None? {
      return Panicked, None, attempts, starts;
    }
    outcome, attempts, starts := TryTwice(fw, buf.value, logger, file);
    LeavingIsQuiet(old(fw.trace), attempts, outcome);
    FirstAttempt(fw, old(fw.Here()), attempts, starts, outcome);
  }

  /** `MemoryMapBackingMemory::new`: a pool buffer for the map as it is now, with room to grow. */
  method Prepare(fw: Firmware) returns (buf: Option<MapBuffer>)
    requires fw.Valid() && !fw.exited
    modifies fw`current, fw`installed, fw`tick, fw`trace
    ensures fw.Valid() && !fw.exited
    ensures buf.None? <==>
              fw.fault(old(fw.tick) + 1).Some? || fw.fault(old(fw.tick) + 2).Some? || fw.poolAt(old(fw.tick) + 2) == 0
    ensures buf.None? ==> QuietAfterExit(Since(old(fw.trace), fw.trace))
    ensures buf.Some? ==>
              && fw.trace == old(fw.trace) + [MemoryMapSizeCall, AllocatePoolCall]
              && fw.Here() == Allocated(fw, old(fw.Here()))
              && buf.value.Aligned() && fresh(buf.value.bytes)
              && buf.value.bytes.Length == BufferSize(fw, old(fw.Here()))
  {
    var size := fw.MemoryMapSize();
    if size.None? {
      return None;
    }
    buf := fw.AllocatePool(size.value.mapSize + size.value.descSize * EXTRA_ENTRIES);
  }

  /** Where the attempts start: two calls later. */
  function Allocated(fw: Firmware, start: Start): Start {
    var sized := fw.Drifted(start.state, start.tick);
    Start(fw.Drifted(sized, start.tick + 1), start.tick + 2)
  }

  /** The map at the size query, and eight descriptors more. */
  function BufferSize(fw: Firmware, start: Start): nat {
    var sized := fw.Drifted(start.state, start.tick).memoryMap;
    |sized.bytes| + 8 * sized.descSize
  }

  ghost predicate LeavesAtOnce(fw: Firmware, start: Start) {
    var t := start.tick;
    var sized := fw.Drifted(start.state, t);
    var fetched := fw.Drifted(fw.Drifted(sized, t + 1), t + 2);
    && fw.fault(t + 3).None? && fw.fault(t + 4).None? && fw.drift(t + 3).None?
    && |fetched.memoryMap.bytes| <= |sized.memoryMap.bytes| + 8 * sized.memoryMap.descSize
  }

  /** Four calls that do not fail, over a map that does not change once its size is known. */
  ghost predicate Undisturbed(fw: Firmware, t: nat) {
    && fw.poolAt(t + 2) != 0
    && (forall n :: t < n <= t + 4 ==> fw.fault(n).None?)
    && (forall n :: t < n <= t + 3 ==> fw.drift(n).None?)
  }

  lemma {:induction false} FirstAttempt(fw: Firmware, start: Start, attempts: seq<Attempt>, starts: seq<Start>,
                                        outcome: Outcome)
    requires EndsAs(attempts, outcome) && AsMade(fw, Allocated(fw, start), BufferSize(fw, start), starts, attempts)
    ensures attempts[0].Left? <==> LeavesAtOnce(fw, start)
    ensures Undisturbed(fw, start.tick) ==> outcome.Returned? && |attempts| == 1
  {
    assert attempts[0].Outcome() == AttemptAt(fw, starts[0], BufferSize(fw, start));
    if Undisturbed(fw, start.tick) {
      UndisturbedLeaves(fw, start);
    }
  }

  lemma UndisturbedLeaves(fw: Firmware, start: Start)
    requires Undisturbed(fw, start.tick)
    ensures LeavesAtOnce(fw, start)
  {
    var t := start.tick;
    assert fw.fault(t + 3).None? && fw.fault(t + 4).None?;
    assert fw.drift(t + 1).None? && fw.drift(t + 2).None? && fw.drift(t + 3).None?;
  }
}
