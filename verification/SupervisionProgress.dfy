/** What the Shim's supervision does for certain while it waits on (crates/shim/src/lib.rs:151-254): it stops the child when
    Desktop's input ends or the root is gone, enforces the grace period, looks at the processes often enough, and returns
    as soon as all is gone. */
module SupervisionProgress {
  import opened Sequences
  import opened ChildSupervision

  // ----- The end of Desktop input -----

  /** In this turn Desktop's input has ended, and the root's exit is not known. */
  predicate InputEndsAt(turns: seq<Turn>, i: nat) {
    i < |turns| && turns[i].inputEnded && FirstExit(None, turns[..i + 1]).None?
  }

  predicate FirstInputEnd(turns: seq<Turn>, i: nat) {
    InputEndsAt(turns, i) && forall j :: 0 <= j < i ==> !turns[j].inputEnded
  }

  /** The log of a run that waits on grows. */
  lemma {:induction false} LogStays(refreshInterval: nat, hasInput: bool, s: Supervisor, turns: seq<Turn>)
    ensures s.log <= Run(refreshInterval, hasInput, s, turns).0.log
    decreases |turns|
  {
    if turns != [] {
      LogOfTurn(refreshInterval, hasInput, s, turns[0]);
      hide TurnStep;
      var (next, verdict) := TurnStep(refreshInterval, hasInput, s, turns[0]);
      if verdict.Continue? {
        LogStays(refreshInterval, hasInput, next, turns[1..]);
      }
    }
  }

  lemma LogOfTurn(refreshInterval: nat, hasInput: bool, s: Supervisor, turn: Turn)
    ensures s.log <= TurnStep(refreshInterval, hasInput, s, turn).0.log
  {
    hide Inspect, SoftStop, ForceStop, InspectionFails;
    var (seen, live) := Inspect(refreshInterval, s, turn);
    InspectLogs(refreshInterval, s, turn);
    var signalled := seen.(pending := if turn.raised != 0 then turn.raised else seen.pending);
    SoftStopLogs(hasInput, signalled, turn, live);
    ForceStopLogs(SoftStop(hasInput, signalled, turn, live).0, turn);
  }

  lemma InspectLogs(refreshInterval: nat, s: Supervisor, turn: Turn)
    ensures s.log <= Inspect(refreshInterval, s, turn).0.log
  {
  }

  lemma SoftStopLogs(hasInput: bool, s: Supervisor, turn: Turn, live: bool)
    ensures s.log <= SoftStop(hasInput, s, turn, live).0.log
  {
  }

  lemma ForceStopLogs(s: Supervisor, turn: Turn)
    ensures s.log <= ForceStop(s, turn).0.log
  {
  }

  /** Desktop's input has not been acted on, and the root's exit is not known. */
  predicate Attached(s: Supervisor) {
    !s.desktopInputClosed && s.rootStatus.None?
  }

  /** A turn that waits on while Desktop's input lasts leaves the supervision attached, unless it learns of the exit; one
      in which it ends sends the stop, and no signal before it. */
  lemma InputTurn(refreshInterval: nat, s: Supervisor, turn: Turn)
    requires Attached(s) && TurnStep(refreshInterval, true, s, turn).1.Continue?
    ensures var next := TurnStep(refreshInterval, true, s, turn).0;
            && (!turn.inputEnded ==> !next.desktopInputClosed && next.rootStatus == turn.exited)
            && (turn.inputEnded && turn.exited.None? ==>
                  && next.desktopInputClosed && next.forwardedSignal == s.forwardedSignal
                  && next.deadline == Some(turn.acted + TERMINATION_GRACE)
                  && ClosedInput(turn.acted) in next.log)
  {
    hide Inspect, ForceStop, InspectionFails;
    var (seen, live) := Inspect(refreshInterval, s, turn);
    Inspects(refreshInterval, s, turn);
    var signalled := seen.(pending := if turn.raised != 0 then turn.raised else seen.pending);
    InputStop(signalled, turn, live);
    hide SoftStop;
    var stopped := SoftStop(true, signalled, turn, live).0;
    ForcesStop(stopped, turn);
    ForceStopLogs(stopped, turn);
    assert ClosedInput(turn.acted) in stopped.log ==> ClosedInput(turn.acted) in ForceStop(stopped, turn).0.log;
  }

  lemma InputStop(s: Supervisor, turn: Turn, live: bool)
    requires !s.desktopInputClosed
    ensures var next := SoftStop(true, s, turn, live).0;
            && (!turn.inputEnded ==> !next.desktopInputClosed)
            && (turn.inputEnded && s.rootStatus.None? && !turn.softStopFails ==>
                  && next.desktopInputClosed && next.forwardedSignal == s.forwardedSignal
                  && next.deadline == Some(turn.acted + TERMINATION_GRACE)
                  && next.log == s.log + [ClosedInput(turn.acted)])
    ensures turn.inputEnded && s.rootStatus.None? && turn.softStopFails ==> SoftStop(true, s, turn, live).1.Failed?
  {
  }

  lemma {:induction false} InputEndFrom(refreshInterval: nat, s: Supervisor, turns: seq<Turn>, i: nat)
    requires Attached(s) && FirstInputEnd(turns, i) && Run(refreshInterval, true, s, turns).1.Continue?
    ensures ClosedInput(turns[i].acted) in Run(refreshInterval, true, s, turns).0.log
    decreases |turns|
  {
    hide TurnStep;
    var next := TurnStep(refreshInterval, true, s, turns[0]).0;
    InputTurn(refreshInterval, s, turns[0]);
    FirstExitShift(None, turns, i + 1);
    if i == 0 {
      LogStays(refreshInterval, true, next, turns[1..]);
    } else {
      assert turns[1..][i - 1] == turns[i];
      assert forall j :: 0 <= j < i - 1 ==> turns[1..][j] == turns[j + 1];
      InputEndFrom(refreshInterval, next, turns[1..], i - 1);
    }
  }

  /** The end of Desktop's input stops the child: a run that waits on past the first turn in which it has ended, with the
      root's exit not known by then, sent the stop in that very turn. */
  lemma InputEndStopsTheChild(refreshInterval: nat, turns: seq<Turn>, i: nat)
    requires FirstInputEnd(turns, i) && Run(refreshInterval, true, StartingSupervisor(), turns).1.Continue?
    ensures ClosedInput(turns[i].acted) in Run(refreshInterval, true, StartingSupervisor(), turns).0.log
  {
    InputEndFrom(refreshInterval, StartingSupervisor(), turns, i);
  }

  // ----- The grace period, and the soft stop after the exit -----

  lemma {:induction false} LastTurnOf(refreshInterval: nat, hasInput: bool, s: Supervisor, turns: seq<Turn>)
    returns (before: Supervisor)
    requires turns != [] && Run(refreshInterval, hasInput, s, turns).1.Continue?
    ensures TurnStep(refreshInterval, hasInput, before, turns[|turns| - 1])
         == (Run(refreshInterval, hasInput, s, turns).0, Continue)
    decreases |turns|
  {
    hide TurnStep;
    var next := TurnStep(refreshInterval, hasInput, s, turns[0]).0;
    if |turns| == 1 {
      before := s;
      assert turns[1..] == [];
    } else {
      before := LastTurnOf(refreshInterval, hasInput, next, turns[1..]);
      assert turns[1..][|turns| - 2] == turns[|turns| - 1];
    }
  }

  /** Whether the root still runs or not: in a run that waits on, a grace period, of two seconds, after the latest soft stop a stop has
      been forced by the turn that sees it pass. */
  lemma GraceIsEnforced(refreshInterval: nat, hasInput: bool, turns: seq<Turn>)
    requires turns != [] && Run(refreshInterval, hasInput, StartingSupervisor(), turns).1.Continue?
    ensures var last := Run(refreshInterval, hasInput, StartingSupervisor(), turns).0;
            LastSoft(last.log).Some? && turns[|turns| - 1].checked >= LastSoft(last.log).value + 2_000 ==>
              last.forced && Forces(last.log) == 1
  {
    ShutdownInvariant(refreshInterval, hasInput, StartingSupervisor(), turns);
    var before := LastTurnOf(refreshInterval, hasInput, StartingSupervisor(), turns);
    hide TurnStep, Run;
    WaitingTurn(refreshInterval, hasInput, before, turns[|turns| - 1]);
  }

  /** A run that waits on after the root's exit is known has sent a soft stop, if only to its descendants. */
  lemma ExitIsFollowedBySoftStop(refreshInterval: nat, hasInput: bool, turns: seq<Turn>)
    requires turns != [] && Run(refreshInterval, hasInput, StartingSupervisor(), turns).1.Continue?
    ensures var last := Run(refreshInterval, hasInput, StartingSupervisor(), turns).0;
            && last.rootStatus == FirstExit(None, turns)
            && (last.rootStatus.Some? ==> LastSoft(last.log).Some?)
  {
    ShutdownInvariant(refreshInterval, hasInput, StartingSupervisor(), turns);
    var before := LastTurnOf(refreshInterval, hasInput, StartingSupervisor(), turns);
    StatusIsFirstExit(refreshInterval, hasInput, StartingSupervisor(), turns);
    hide TurnStep, Run;
    WaitingTurn(refreshInterval, hasInput, before, turns[|turns| - 1]);
  }

  lemma {:induction false} StatusIsFirstExit(refreshInterval: nat, hasInput: bool, s: Supervisor, turns: seq<Turn>)
    requires Run(refreshInterval, hasInput, s, turns).1.Continue?
    ensures Run(refreshInterval, hasInput, s, turns).0.rootStatus == FirstExit(s.rootStatus, turns)
    decreases |turns|
  {
    hide TurnStep;
    if turns != [] {
      WaitingTurn(refreshInterval, hasInput, s, turns[0]);
      StatusIsFirstExit(refreshInterval, hasInput, TurnStep(refreshInterval, hasInput, s, turns[0]).0, turns[1..]);
      if s.rootStatus.Some? {
        KnownIsFirst(s.rootStatus, turns[1..]);
      }
    }
  }

  lemma KnownIsFirst(known: Option<int>, turns: seq<Turn>)
    requires known.Some?
    ensures FirstExit(known, turns) == known
  {
  }

  // ----- Returning and failing -----

  /** None of the turn's operations fails. */
  predicate NothingFails(turn: Turn) {
    !turn.waitFails && !turn.observeFails && !turn.softStopFails && !turn.forceFails
  }

  /** A run that waits on has met no turn in which all was gone. */
  lemma {:induction false} WaitingMeansSomeoneIsLeft(
    refreshInterval: nat, hasInput: bool, s: Supervisor, turns: seq<Turn>, i: nat)
    requires Run(refreshInterval, hasInput, s, turns).1.Continue?
    ensures !AllGoneAt(s.rootStatus, turns, i)
    decreases |turns|
  {
    hide TurnStep;
    if i < |turns| {
      var next := TurnStep(refreshInterval, hasInput, s, turns[0]).0;
      TurnStatus(refreshInterval, hasInput, s, turns[0]);
      FirstExitShift(s.rootStatus, turns, i + 1);
      if i > 0 {
        WaitingMeansSomeoneIsLeft(refreshInterval, hasInput, next, turns[1..], i - 1);
      }
    }
  }

  lemma FailedTurn(refreshInterval: nat, hasInput: bool, s: Supervisor, turn: Turn)
    requires TurnStep(refreshInterval, hasInput, s, turn).1.Failed?
    ensures !NothingFails(turn)
  {
    hide Inspect;
  }

  /** A run in which no operation fails does not fail. */
  lemma {:induction false} OnlyFailuresFail(refreshInterval: nat, hasInput: bool, s: Supervisor, turns: seq<Turn>)
    requires forall turn <- turns :: NothingFails(turn)
    ensures !Run(refreshInterval, hasInput, s, turns).1.Failed?
    decreases |turns|
  {
    hide TurnStep, NothingFails;
    if turns != [] {
      assert turns[0] in turns && forall turn <- turns[1..] :: turn in turns;
      if TurnStep(refreshInterval, hasInput, s, turns[0]).1.Failed? {
        FailedTurn(refreshInterval, hasInput, s, turns[0]);
      }
      OnlyFailuresFail(refreshInterval, hasInput, TurnStep(refreshInterval, hasInput, s, turns[0]).0, turns[1..]);
    }
  }

  /** Where no operation fails, the supervision returns exactly when some turn knows the root's exit and finds nobody. */
  lemma ReturnsExactly(refreshInterval: nat, hasInput: bool, turns: seq<Turn>)
    requires forall turn <- turns :: NothingFails(turn)
    ensures Run(refreshInterval, hasInput, StartingSupervisor(), turns).1.Returned?
            <==> exists n: nat :: AllGoneAt(None, turns, n)
  {
    hide Run;
    OnlyFailuresFail(refreshInterval, hasInput, StartingSupervisor(), turns);
    if Run(refreshInterval, hasInput, StartingSupervisor(), turns).1.Returned? {
      var n := ReturnsOnlyWhenAllIsGone(refreshInterval, hasInput, StartingSupervisor(), turns);
    } else {
      forall n: nat ensures !AllGoneAt(None, turns, n) {
        WaitingMeansSomeoneIsLeft(refreshInterval, hasInput, StartingSupervisor(), turns, n);
      }
    }
  }

  // ----- The processes are watched -----

  /** A look at the process tree in a turn that waits on is at most the refresh interval old, unless the clock went back;
      and while it is younger and the root runs, there is no other. */
  lemma TreeIsWatched(refreshInterval: nat, hasInput: bool, s: Supervisor, turn: Turn)
    requires TurnStep(refreshInterval, hasInput, s, turn).1.Continue?
    ensures var next := TurnStep(refreshInterval, hasInput, s, turn).0;
            && next.lastRefresh.Some?
            && (next.lastRefresh == Some(turn.now)
                || (next.lastRefresh == s.lastRefresh && next.rootStatus.None?
                    && turn.now < next.lastRefresh.value + refreshInterval)
                || (next.lastRefresh == s.lastRefresh && next.rootStatus.None? && turn.now < next.lastRefresh.value))
            && (next.rootStatus.None? && s.lastRefresh.Some?
                  && s.lastRefresh.value <= turn.now < s.lastRefresh.value + refreshInterval
                ==> next.lastRefresh == s.lastRefresh)
  {
    hide SoftStop, ForceStop, InspectionFails;
    var (seen, live) := Inspect(refreshInterval, s, turn);
    var signalled := seen.(pending := if turn.raised != 0 then turn.raised else seen.pending);
    RefreshStays(hasInput, signalled, turn, live);
    StopsSoftly(hasInput, signalled, turn, live);
    ForcesStop(SoftStop(hasInput, signalled, turn, live).0, turn);
  }

  lemma RefreshStays(hasInput: bool, s: Supervisor, turn: Turn, live: bool)
    ensures SoftStop(hasInput, s, turn, live).0.lastRefresh == s.lastRefresh
    ensures forall t: Supervisor :: ForceStop(t, turn).0.lastRefresh == t.lastRefresh
  {
  }

  /** Over a run that waits on with a clock that does not go back, the tree was looked at within the refresh interval
      before its latest turn, and in that turn itself where the root's exit is known. */
  lemma {:induction false} WatchedThroughout(refreshInterval: nat, hasInput: bool, s: Supervisor, turns: seq<Turn>)
    requires turns != [] && Run(refreshInterval, hasInput, s, turns).1.Continue?
    requires forall i, j :: 0 <= i < j < |turns| ==> turns[i].now <= turns[j].now
    requires s.lastRefresh.Some? ==> s.lastRefresh.value <= turns[0].now
    ensures var last, now := Run(refreshInterval, hasInput, s, turns).0, turns[|turns| - 1].now;
            && last.lastRefresh.Some? && last.lastRefresh.value <= now
            && (last.lastRefresh.value == now || now < last.lastRefresh.value + refreshInterval)
            && (last.rootStatus.Some? ==> last.lastRefresh.value == now)
    decreases |turns|
  {
    hide TurnStep;
    var next := TurnStep(refreshInterval, hasInput, s, turns[0]).0;
    TreeIsWatched(refreshInterval, hasInput, s, turns[0]);
    if |turns| > 1 {
      assert turns[1..][0] == turns[1] && turns[1..][|turns| - 2] == turns[|turns| - 1];
      WatchedThroughout(refreshInterval, hasInput, next, turns[1..]);
    } else {
      assert turns[1..] == [];
    }
  }

  // ----- Which signal is forwarded -----

  predicate Raised(turns: seq<Turn>, signal: nat) {
    signal != 0 && exists turn <- turns :: turn.raised == signal
  }

  lemma SignalOfTurn(refreshInterval: nat, hasInput: bool, s: Supervisor, turn: Turn)
    ensures var next := TurnStep(refreshInterval, hasInput, s, turn).0;
            && (next.pending == 0 || next.pending == s.pending || next.pending == turn.raised)
            && (next.forwardedSignal == s.forwardedSignal
                || (next.forwardedSignal.Some? && next.forwardedSignal.value != 0
                    && next.forwardedSignal.value == if turn.raised != 0 then turn.raised else s.pending))
  {
    hide Inspect, SoftStop, ForceStop, InspectionFails;
    var (seen, live) := Inspect(refreshInterval, s, turn);
    Inspects(refreshInterval, s, turn);
    var signalled := seen.(pending := if turn.raised != 0 then turn.raised else seen.pending);
    SignalOfStop(hasInput, signalled, turn, live);
    ForcesStop(SoftStop(hasInput, signalled, turn, live).0, turn);
  }

  lemma SignalOfStop(hasInput: bool, s: Supervisor, turn: Turn, live: bool)
    ensures var next := SoftStop(hasInput, s, turn, live).0;
            && (next.pending == 0 || next.pending == s.pending)
            && (next.forwardedSignal == s.forwardedSignal || (next.forwardedSignal == Some(s.pending) && s.pending != 0))
  {
  }

  /** The forwarded signal is one that was raised. */
  lemma {:induction false} ForwardedWasRaised(
    refreshInterval: nat, hasInput: bool, s: Supervisor, seen: seq<Turn>, turns: seq<Turn>)
    requires s.pending != 0 ==> Raised(seen, s.pending)
    requires s.forwardedSignal.Some? ==> Raised(seen, s.forwardedSignal.value)
    ensures var last := Run(refreshInterval, hasInput, s, turns).0;
            last.forwardedSignal.Some? ==> Raised(seen + turns, last.forwardedSignal.value)
    decreases |turns|
  {
    hide TurnStep;
    if turns == [] {
      assert seen + turns == seen;
    } else {
      var (next, verdict) := TurnStep(refreshInterval, hasInput, s, turns[0]);
      var more := seen + [turns[0]];
      SignalOfTurn(refreshInterval, hasInput, s, turns[0]);
      assert more[|seen|] == turns[0] && forall turn <- seen :: turn in more;
      assert more + turns[1..] == seen + turns;
      if verdict.Continue? {
        ForwardedWasRaised(refreshInterval, hasInput, next, more, turns[1..]);
      } else {
        assert forall turn <- more :: turn in more + turns[1..];
      }
    }
  }
}
