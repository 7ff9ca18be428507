/** The Shim's supervision of its child and the lease it drops afterwards (crates/shim/src/lib.rs:165-254 and 1183-1187,
    crates/shim/src/local_runtime_lease.rs:307-323): when the supervision meets the condition the lease rests on. */
module SupervisedLease {
  import opened Processes
  import opened ProcessTable
  import opened Sequences
  import opened ChildSupervision
  import RuntimeLease

  /** The turn learned of the child's exit. */
  predicate ReportsExit(turn: Turn) {
    turn.exited.Some? && !turn.waitFails
  }

  predicate ExitReported(turns: seq<Turn>) {
    exists turn <- turns :: ReportsExit(turn)
  }

  /** The process table at each turn, in which an exit is reported only of a child that is gone. */
  ghost predicate Truthful(child: Instance, turns: seq<Turn>, systems: seq<System>) {
    && |systems| == |turns|
    && History(systems)
    && forall i :: 0 <= i < |turns| && ReportsExit(turns[i]) ==> Gone(systems[i], child)
  }

  lemma {:induction false} ReturnedReportsExit(refreshInterval: nat, hasInput: bool, s: Supervisor, turns: seq<Turn>)
    requires s.rootStatus.None? && Run(refreshInterval, hasInput, s, turns).1.Returned?
    ensures ExitReported(turns)
    decreases |turns|
  {
    hide TurnStep;
    var (next, verdict) := TurnStep(refreshInterval, hasInput, s, turns[0]);
    TurnStatus(refreshInterval, hasInput, s, turns[0]);
    if next.rootStatus.Some? {
      TurnReadsStatus(refreshInterval, hasInput, s, turns[0]);
      assert ReportsExit(turns[0]);
    } else {
      ReturnedReportsExit(refreshInterval, hasInput, next, turns[1..]);
    }
  }

  lemma TurnReadsStatus(refreshInterval: nat, hasInput: bool, s: Supervisor, turn: Turn)
    requires s.rootStatus.None? && TurnStep(refreshInterval, hasInput, s, turn).0.rootStatus.Some?
    ensures ReportsExit(turn)
  {
    hide Inspect, SoftStop, ForceStop;
    var (seen, live) := Inspect(refreshInterval, s, turn);
    Inspects(refreshInterval, s, turn);
    var signalled := seen.(pending := if turn.raised != 0 then turn.raised else seen.pending);
    StopsSoftly(hasInput, signalled, turn, live);
    ForcesStop(SoftStop(hasInput, signalled, turn, live).0, turn);
  }

  /** The process histories that fit what a run of turns reported tell that the child is gone at its end exactly when one
      of the turns learned of the exit. */
  lemma ReportDecides(child: Instance, turns: seq<Turn>)
    requires turns != []
    ensures (forall systems: seq<System> :: Truthful(child, turns, systems) ==> !IsLive(systems[|turns| - 1], child))
            <==> ExitReported(turns)
  {
    if ExitReported(turns) {
      var i: nat :| i < |turns| && ReportsExit(turns[i]);
      forall systems: seq<System> | Truthful(child, turns, systems) ensures !IsLive(systems[|turns| - 1], child) {
        HistoryFacts(systems, child, i, |turns| - 1);
      }
    } else {
      var table := map[child.id := child.startedAtMicros];
      var systems: seq<System> := seq(|turns|, i => System(table, table));
      assert forall i :: 0 <= i < |turns| ==> turns[i] in turns;
      assert Truthful(child, turns, systems) && IsLive(systems[|turns| - 1], child);
    }
  }

  /** The supervision ends in the last of these turns, not before. */
  ghost predicate EndsWith(refreshInterval: nat, hasInput: bool, turns: seq<Turn>) {
    && turns != []
    && Run(refreshInterval, hasInput, StartingSupervisor(), turns[..|turns| - 1]).1.Continue?
    && !Run(refreshInterval, hasInput, StartingSupervisor(), turns).1.Continue?
  }

  /** Whether the child is gone when the supervision ends, by returning or by failing, is decided by whether a turn up to
      its end learned of the exit: if one did, the child is gone in every process history; if none did, there is a history
      in which it is alive. */
  lemma ChildIsGoneExactly(refreshInterval: nat, hasInput: bool, child: Instance, turns: seq<Turn>)
    requires EndsWith(refreshInterval, hasInput, turns)
    ensures (forall systems: seq<System> :: Truthful(child, turns, systems) ==> !IsLive(systems[|turns| - 1], child))
            <==> ExitReported(turns)
    ensures Run(refreshInterval, hasInput, StartingSupervisor(), turns).1.Returned? ==> ExitReported(turns)
  {
    hide Run;
    ReportDecides(child, turns);
    if Run(refreshInterval, hasInput, StartingSupervisor(), turns).1.Returned? {
      ReturnedReportsExit(refreshInterval, hasInput, StartingSupervisor(), turns);
    }
  }

  /** A supervision that returns meets the drop condition of the lease: whatever the process history, its Shim may take
      the step that drops the lease. */
  lemma ReturnedMayDrop(
    refreshInterval: nat, hasInput: bool, turns: seq<Turn>, systems: seq<System>, child: Instance,
    c: RuntimeLease.Config, s: RuntimeLease.State, me: Instance, lease: RuntimeLease.Record)
    requires Run(refreshInterval, hasInput, StartingSupervisor(), turns).1.Returned?
    requires Truthful(child, turns, systems) && s.system == systems[|turns| - 1]
    requires me in s.shims && s.shims[me] == RuntimeLease.Running(lease) && lease.child == Some(child)
    ensures RuntimeLease.LeaseStep(c, s, RuntimeLease.Goto(s, me, RuntimeLease.Dropping(lease)), me)
  {
    hide Run;
    ReturnedReportsExit(refreshInterval, hasInput, StartingSupervisor(), turns);
    ReportDecides(child, turns);
  }

  /** The supervision failed, and the child is alive at its end. */
  ghost predicate FailsOver(
    refreshInterval: nat, hasInput: bool, child: Instance, turns: seq<Turn>, systems: seq<System>)
  {
    && EndsWith(refreshInterval, hasInput, turns)
    && Run(refreshInterval, hasInput, StartingSupervisor(), turns).1.Failed?
    && Truthful(child, turns, systems) && IsLive(systems[|turns| - 1], child)
  }

  /** A supervision that fails need not: a failing observation can end it, with any options, while the child is alive,
      and the lease is dropped then all the same. */
  lemma FailedMayLeaveChild(refreshInterval: nat, hasInput: bool, child: Instance)
    ensures exists turns, systems :: FailsOver(refreshInterval, hasInput, child, turns, systems)
  {
    var turn := Turn(None, 0, true, 0, false, 0, 0, false, true, false, false);
    var table := map[child.id := child.startedAtMicros];
    assert [turn][..0] == [];
    assert FailsOver(refreshInterval, hasInput, child, [turn], [System(table, table)]);
  }
}
