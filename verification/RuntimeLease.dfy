/** The local Host Runtime lease as a transition system of any number of current-format Shims
    (crates/shim/src/local_runtime_lease.rs:117-398, 589-607 and 691-767). Every Shim runs `acquire`, publishes its
    child, and drops its lease; between any two of its steps other Shims step, processes exit (crashing Shims
    included, which releases their file lock) and PIDs are reused. */
module RuntimeLease {
  import opened Processes
  import opened ProcessTable
  import opened Sequences
  import OwnerRecords

  /** An owner record whose child identity is complete or absent. */
  datatype Record = Record(shim: Instance, desktop: nat, child: Option<Instance>)

  /** The record as the file holds it, for identities within the source's integer widths. */
  predicate Representable(record: Record) {
    && record.shim.id < 0x1_0000_0000 && record.shim.startedAtMicros < 0x1_0000_0000_0000_0000
    && record.desktop < 0x1_0000_0000
    && (record.child.Some? ==>
          record.child.value.id < 0x1_0000_0000 && record.child.value.startedAtMicros < 0x1_0000_0000_0000_0000)
  }

  function OnDisk(record: Record): OwnerRecords.OwnerRecord
    requires Representable(record)
  {
    OwnerRecords.OwnerRecord(
      record.shim.id, record.shim.startedAtMicros, record.desktop,
      if record.child.Some? then Some(record.child.value.id) else None,
      if record.child.Some? then Some(record.child.value.startedAtMicros) else None)
  }

  /** Writing and reading back the file is invisible to the protocol: the text decodes to the same record, and
      records that read the same are the same. */
  lemma RecordsSurviveTheFile(record: Record, other: Record)
    requires Representable(record) && Representable(other)
    ensures OwnerRecords.Decode(OwnerRecords.Encode(OnDisk(record))) == Some(OwnerRecords.Exact(OnDisk(record)))
    ensures OwnerRecords.Encode(OnDisk(record)) == OwnerRecords.Encode(OnDisk(other)) ==> record == other
  {
    hide OwnerRecords.Decode, OwnerRecords.Encode;
    OwnerRecords.RoundTrip(OnDisk(record));
    OwnerRecords.RoundTrip(OnDisk(other));
  }

  // ----- Executable names -----

  const DELETED := " (deleted)"

  /** The observed name is the expected one, or on Linux the expected one marked as deleted by the kernel. */
  predicate ExecutableFileNameMatches(linux: bool, observed: string, expected: string) {
    observed == expected || (linux && observed == expected + DELETED)
  }

  /** `observedName` is what others read of a process, `ownName` what a Shim reads of itself.
      `dropsAfterChildExit` says that a lease is dropped only once its child is gone, and `recordsAreReadable` that a
      contender who finds a record can read it before the read grace is over; any single read may fail. `liveIsSeen` says
      that a living process is never reported missing; on macOS every failing query is such a report. */
  datatype Config = Config(
    linux: bool,
    observedName: Instance -> string,
    ownName: Instance -> string,
    dropsAfterChildExit: bool,
    recordsAreReadable: bool,
    liveIsSeen: bool)

  ghost predicate NamesAgree(c: Config) {
    forall owner: Instance, contender: Instance :: owner.id != contender.id ==>
      ExecutableFileNameMatches(c.linux, c.observedName(owner), c.ownName(contender))
  }

  // ----- States -----

  /** Completed passes of the acquisition loop, and those of them whose last read of the record failed, so that they
      removed nothing. */
  datatype Progress = Progress(passes: nat, missed: nat)

  /** Where a Shim is. */
  datatype Shim =
    | Starting
    | AtLoop(progress: Progress)
    | Created(progress: Progress)
    | Reading(progress: Progress)
    | Examining(owner: Record, progress: Progress)
    | AwaitingShim(owner: Record, progress: Progress)
    | AwaitingChild(owner: Record, progress: Progress)
    | Removing(owner: Record, progress: Progress)
    | Unlinking(progress: Progress)
    | RemovingDirectory(progress: Progress)
    | Owning(lease: Record)
    | Spawned(lease: Record, child: Instance)
    | Publishing(lease: Record, child: Instance)
    | Published(lease: Record)
    | FailedStart(lease: Record, child: Instance)
    | Running(lease: Record)
    | Dropping(lease: Record)
    | DropLocked(lease: Record)
    | DropUnlinking
    | DropRemovingDirectory
    | Done

  /** `directory` and `record` are the owner directory and the record inside it; `published` and `written` remember
      every child instance and every record that was ever put there. */
  datatype State = State(
    system: System,
    lock: Option<Instance>,
    directory: bool,
    record: Option<Record>,
    shims: map<Instance, Shim>,
    published: set<Instance>,
    written: set<Record>)

  predicate HoldsLock(shim: Shim) {
    !shim.Starting? && !shim.Running? && !shim.Dropping? && !shim.Done?
  }

  function Goto(s: State, me: Instance, shim: Shim): State {
    s.(shims := s.shims[me := shim])
  }

  /** Ends the Shim's part in the protocol and releases the lock it holds. */
  function Leave(s: State, me: Instance): State {
    Goto(s.(lock := None), me, Done)
  }

  // ----- The environment -----

  ghost predicate EnvStep(s: State, t: State) {
    || (exists pid: nat :: ExitsWithLock(s, pid, t))
    || (exists pid: nat, startedAt: nat ::
          Starts(s.system, pid, startedAt, t.system) && t == s.(system := t.system))
    || (exists me: Instance :: Joins(s, me, t))
  }

  /** The kernel releases a file lock when its holder exits. */
  ghost predicate ExitsWithLock(s: State, pid: nat, t: State) {
    && Exits(s.system, pid, t.system)
    && t == s.(system := t.system,
               lock := if s.lock == Some(Instance(pid, s.system.live[pid])) then None else s.lock)
  }

  ghost predicate Joins(s: State, me: Instance, t: State) {
    IsLive(s.system, me) && me !in s.shims && t == Goto(s, me, Starting)
  }

  // ----- One step of a Shim -----

  /** A Desktop conflict, a timeout or a failing operation ends an acquisition with an error, except that a failing read
      counts as a missing record: after the read grace the directory is removed with whatever is in it, and a record that
      cannot be read back before its removal stays. */
  ghost predicate AcquireStep(c: Config, s: State, t: State, me: Instance)
    requires me in s.shims
  {
    match s.shims[me]
    case Starting =>
      (s.lock.None? && t == Goto(s.(lock := Some(me)), me, AtLoop(Progress(0, 0)))) || t == Goto(s, me, Done)
    case AtLoop(n) =>
      || t == Leave(s, me)
      || t == if s.directory then Goto(s, me, Reading(n)) else Goto(s.(directory := true), me, Created(n))
    case Created(n) =>
      || (exists kept: bool :: t == Leave(s.(directory := kept, record := None), me))
      || (exists desktop: nat :: WritesFirstRecord(s, t, me, desktop))
    case Reading(n) =>
      || t == Leave(s, me)
      || (!c.recordsAreReadable && t == Goto(s, me, Unlinking(n)))
      || t == if s.record.None? then Goto(s, me, RemovingDirectory(n)) else Goto(s, me, Examining(s.record.value, n))
    case Examining(owner, n) =>
      || t == Leave(s, me)
      || (!c.liveIsSeen && owner.shim.id != me.id && t == Goto(s, me, AwaitingShim(owner, n)))
      || (owner.shim.id != me.id &&
          t == if IsLive(s.system, owner.shim)
                  && !ExecutableFileNameMatches(c.linux, c.observedName(owner.shim), c.ownName(me))
               then Goto(s, me, Removing(owner, n))
               else Goto(s, me, AwaitingShim(owner, n)))
    case AwaitingShim(owner, n) =>
      || t == Leave(s, me)
      || t == s
      || ((!IsLive(s.system, owner.shim) || !c.liveIsSeen) && t == Goto(s, me, AwaitingChild(owner, n)))
    case AwaitingChild(owner, n) =>
      || t == Leave(s, me)
      || (!c.liveIsSeen && t == Goto(s, me, Removing(owner, n)))
      || t == if owner.child.Some? && IsLive(s.system, owner.child.value)
              then Goto(s, me, AwaitingShim(owner, n)) else Goto(s, me, Removing(owner, n))
    case Removing(owner, n) =>
      || t == Leave(s, me)
      || t == Goto(s, me, AtLoop(Progress(n.passes + 1, n.missed + 1)))
      || (s.record == Some(owner) && t == Goto(s, me, Unlinking(n)))
    case Unlinking(n) => t == Leave(s, me) || t == Goto(s.(record := None), me, RemovingDirectory(n))
    case RemovingDirectory(n) =>
      t == Leave(s, me) || t == Goto(s.(directory := false), me, AtLoop(n.(passes := n.passes + 1)))
    case _ => false
  }

  ghost predicate WritesFirstRecord(s: State, t: State, me: Instance, desktop: nat) {
    var first := Record(me, desktop, None);
    t == Goto(s.(record := Some(first), written := s.written + {first}), me, Owning(first))
  }

  ghost predicate Spawns(s: State, t: State, me: Instance, lease: Record, child: Instance) {
    && Starts(s.system, child.id, child.startedAtMicros, t.system)
    && t == Goto(s.(system := t.system), me, Spawned(lease, child))
  }

  ghost predicate LeaseStep(c: Config, s: State, t: State, me: Instance)
    requires me in s.shims
  {
    match s.shims[me]
    case Owning(lease) =>
      || t == Goto(s, me, DropLocked(lease))
      || (exists child: Instance :: Spawns(s, t, me, lease, child))
    case Spawned(lease, child) =>
      || t == Goto(s, me, FailedStart(lease, child))
      || (s.record == Some(lease) && t == Goto(s, me, Publishing(lease, child)))
    case Publishing(lease, child) =>
      var complete := lease.(child := Some(child));
      t == Goto(s, me, FailedStart(complete, child)) ||
      t == Goto(s.(record := Some(complete), written := s.written + {complete}, published := s.published + {child}),
                   me, Published(complete))
    case Published(lease) => t == Goto(s.(lock := None), me, Running(lease))
    case FailedStart(lease, child) =>
      (c.dropsAfterChildExit ==> !IsLive(s.system, child)) && t == Goto(s, me, DropLocked(lease))
    case Running(lease) =>
      && (c.dropsAfterChildExit && lease.child.Some? ==> !IsLive(s.system, lease.child.value))
      && t == Goto(s, me, Dropping(lease))
    case Dropping(lease) =>
      t == Goto(s, me, Done) || (s.lock.None? && t == Goto(s.(lock := Some(me)), me, DropLocked(lease)))
    case DropLocked(lease) => t == Leave(s, me) || (s.record == Some(lease) && t == Goto(s, me, DropUnlinking))
    case DropUnlinking => t == Leave(s, me) || t == Goto(s.(record := None), me, DropRemovingDirectory)
    case DropRemovingDirectory => t == Leave(s, me) || t == Leave(s.(directory := false), me)
    case _ => false
  }

  ghost predicate ShimStep(c: Config, s: State, t: State, me: Instance) {
    me in s.shims && IsLive(s.system, me) && (AcquireStep(c, s, t, me) || LeaseStep(c, s, t, me))
  }

  ghost predicate Step(c: Config, s: State, t: State) {
    EnvStep(s, t) || exists me: Instance :: ShimStep(c, s, t, me)
  }

  ghost predicate Initial(s: State) {
    && Consistent(s.system)
    && s.lock.None? && !s.directory && s.record.None?
    && s.shims == map[] && s.published == {} && s.written == {}
  }

  ghost predicate Reaches(c: Config, s: State, t: State, steps: nat)
    decreases steps
  {
    if steps == 0 then s == t
    else exists u: State :: Step(c, s, u) && Reaches(c, u, t, steps - 1)
  }

  ghost predicate Reachable(c: Config, s: State) {
    exists start: State, steps: nat :: Initial(start) && Reaches(c, start, s, steps)
  }

  // ----- Conditions and kinds of steps -----

  /** What the lease rests on: contenders recognise Shims by name, can read the record they find and see who is alive,
      and leases outlive their child. */
  ghost predicate Disciplined(c: Config) {
    NamesAgree(c) && c.dropsAfterChildExit && c.recordsAreReadable && c.liveIsSeen
  }

  predicate Acquiring(shim: Shim) {
    || shim.Starting? || shim.AtLoop? || shim.Reading? || shim.Created? || shim.Examining? || shim.AwaitingShim?
    || shim.AwaitingChild? || shim.Removing? || shim.Unlinking? || shim.RemovingDirectory?
  }

  lemma StepKind(c: Config, s: State, t: State, me: Instance)
    requires ShimStep(c, s, t, me)
    ensures !s.shims[me].Done?
    ensures if Acquiring(s.shims[me]) then AcquireStep(c, s, t, me) else LeaseStep(c, s, t, me)
  {
  }
}
