/** The Shim's shutdown state machine on Unix (crates/shim/src/lib.rs:151-254). */
module ChildSupervision {
  import opened Sequences

  const TERMINATION_GRACE := 2_000 // milliseconds

  /** What one turn of the loop meets: the results of its operations and its three clock readings. `raised` is a
      signal that arrived since the last turn, zero for none; a `fails` flag makes the operation of that kind fail. */
  datatype Turn = Turn(
    exited: Option<int>,
    now: nat,
    treeLive: bool,
    raised: nat,
    inputEnded: bool,
    acted: nat,
    checked: nat,
    waitFails: bool,
    observeFails: bool,
    softStopFails: bool,
    forceFails: bool)

  datatype Event =
    | Looked(live: bool)
    | ClosedInput(at: nat)
    | Forwarded(signal: nat, at: nat)
    | StoppedDescendants(at: nat)
    | Forced(at: nat)

  /** The loop's variables, the pending-signal cell, and the log of what was done. */
  datatype Supervisor = Supervisor(
    rootStatus: Option<int>,
    forwardedSignal: Option<nat>,
    deadline: Option<nat>,
    forced: bool,
    terminatedDescendants: bool,
    desktopInputClosed: bool,
    lastRefresh: Option<nat>,
    pending: nat,
    log: seq<Event>)

  datatype ChildOutcome = ChildOutcome(
    status: int,
    forwardedSignal: Option<nat>,
    forced: bool,
    terminatedDescendants: bool,
    desktopInputClosed: bool)

  datatype Verdict = Continue | Returned(outcome: ChildOutcome) | Failed

  function StartingSupervisor(): Supervisor {
    Supervisor(None, None, None, false, false, false, None, 0, [])
  }

  predicate ProcessTreeRefreshDue(refreshInterval: nat, lastRefresh: Option<nat>, now: nat, rootExited: bool) {
    rootExited || lastRefresh.None? || (now >= lastRefresh.value && now - lastRefresh.value >= refreshInterval)
      || (now < lastRefresh.value && refreshInterval == 0)
  }

  // ----- One turn as a function -----

  /** The soft stop of a turn, if any: end of Desktop input first, then a signal, then descendants of an exited root. */
  function SoftStop(hasInput: bool, s: Supervisor, turn: Turn, live: bool): (Supervisor, Verdict) {
    if !s.desktopInputClosed && s.rootStatus.None? && hasInput && turn.inputEnded then
      if turn.softStopFails then (s, Failed)
      else (s.(desktopInputClosed := true, deadline := Some(turn.acted + TERMINATION_GRACE),
               log := s.log + [ClosedInput(turn.acted)]), Continue)
    else
      var taken, cleared := s.pending, s.(pending := 0);
      if taken != 0 && s.forwardedSignal.None? then
        if turn.softStopFails then (cleared, Failed)
        else (cleared.(forwardedSignal := Some(taken), deadline := Some(turn.acted + TERMINATION_GRACE),
                       log := s.log + [Forwarded(taken, turn.acted)]), Continue)
      else if s.rootStatus.Some? && s.deadline.None? && live then
        if turn.softStopFails then (cleared, Failed)
        else (cleared.(terminatedDescendants := true, deadline := Some(turn.acted + TERMINATION_GRACE),
                       log := s.log + [StoppedDescendants(turn.acted)]), Continue)
      else (cleared, Continue)
  }

  function ForceStop(s: Supervisor, turn: Turn): (Supervisor, Verdict) {
    if !s.forced && s.deadline.Some? && turn.checked >= s.deadline.value then
      if turn.forceFails then (s, Failed)
      else (s.(forced := true, log := s.log + [Forced(turn.checked)]), Continue)
    else (s, Continue)
  }

  /** Root status and, when due, the process tree. */
  function Inspect(refreshInterval: nat, s: Supervisor, turn: Turn): (Supervisor, bool) {
    var polled := if s.rootStatus.None? then s.(rootStatus := turn.exited) else s;
    if ProcessTreeRefreshDue(refreshInterval, s.lastRefresh, turn.now, polled.rootStatus.Some?) then
      (polled.(lastRefresh := Some(turn.now), log := s.log + [Looked(turn.treeLive)]), turn.treeLive)
    else (polled, true)
  }

  predicate InspectionFails(refreshInterval: nat, s: Supervisor, turn: Turn) {
    || (s.rootStatus.None? && turn.waitFails)
    || (turn.observeFails &&
        ProcessTreeRefreshDue(refreshInterval, s.lastRefresh, turn.now, s.rootStatus.Some? || turn.exited.Some?))
  }

  function Outcome(s: Supervisor): ChildOutcome
    requires s.rootStatus.Some?
  {
    ChildOutcome(s.rootStatus.value, s.forwardedSignal, s.forced, s.terminatedDescendants, s.desktopInputClosed)
  }

  function TurnStep(refreshInterval: nat, hasInput: bool, s: Supervisor, turn: Turn): (Supervisor, Verdict) {
    if InspectionFails(refreshInterval, s, turn) then (s, Failed)
    else
      var (seen, live) := Inspect(refreshInterval, s, turn);
      if seen.rootStatus.Some? && !live then (seen, Returned(Outcome(seen)))
      else
        var signalled := seen.(pending := if turn.raised != 0 then turn.raised else seen.pending);
        var (stopped, verdict) := SoftStop(hasInput, signalled, turn, live);
        if verdict.Failed? then (stopped, Failed) else ForceStop(stopped, turn)
  }

  /** The loop over a finite run of turns; `Continue` means that it is still waiting. */
  function Run(refreshInterval: nat, hasInput: bool, s: Supervisor, turns: seq<Turn>): (Supervisor, Verdict)
    decreases |turns|
  {
    if turns == [] then (s, Continue)
    else
      var (next, verdict) := TurnStep(refreshInterval, hasInput, s, turns[0]);
      if verdict.Continue? then Run(refreshInterval, hasInput, next, turns[1..]) else (next, verdict)
  }

  // ----- The loop -----

  method WaitForChild(refreshInterval: nat, hasInput: bool, turns: seq<Turn>)
    returns (last: Supervisor, verdict: Verdict)
    ensures (last, verdict) == Run(refreshInterval, hasInput, StartingSupervisor(), turns)
  {
    hide TurnStep;
    last := StartingSupervisor();
    for i := 0 to |turns|
      invariant Run(refreshInterval, hasInput, last, turns[i..])
             == Run(refreshInterval, hasInput, StartingSupervisor(), turns)
    {
      assert turns[i..][0] == turns[i] && turns[i..][1..] == turns[i + 1..];
      last, verdict := TakeTurn(refreshInterval, hasInput, last, turns[i]);
      if !verdict.Continue? {
        return;
      }
    }
    assert turns[|turns|..] == [];
    verdict := Continue;
  }

  /** The loop's body, in the order the source takes its steps. The flags stay a summary of what was done. */
  method TakeTurn(refreshInterval: nat, hasInput: bool, s: Supervisor, turn: Turn)
    returns (next: Supervisor, verdict: Verdict)
    ensures (next, verdict) == TurnStep(refreshInterval, hasInput, s, turn)
    ensures Inv(s) ==> Inv(next)
  {
    if Inv(s) {
      TurnKeeps(refreshInterval, hasInput, s, turn);
    }
    hide Inv, Inspect, InspectionFails, SoftStop, ForceStop;
    var failed, seen, live := InspectProcesses(refreshInterval, s, turn);
    if failed {
      return s, Failed;
    }
    if seen.rootStatus.Some? && !live {
      return seen, Returned(Outcome(seen));
    }
    seen := seen.(pending := if turn.raised != 0 then turn.raised else seen.pending);
    next, verdict := SendSoftStop(hasInput, seen, turn, live);
    if verdict.Failed? {
      return;
    }
    next, verdict := EnforceDeadline(next, turn);
  }

  method InspectProcesses(refreshInterval: nat, s: Supervisor, turn: Turn)
    returns (failed: bool, seen: Supervisor, live: bool)
    ensures failed == InspectionFails(refreshInterval, s, turn)
    ensures !failed ==> (seen, live) == Inspect(refreshInterval, s, turn)
  {
    seen, live := s, true;
    if seen.rootStatus.None? {
      if turn.waitFails {
        return true, s, true;
      }
      seen := seen.(rootStatus := turn.exited);
    }
    if ProcessTreeRefreshDue(refreshInterval, seen.lastRefresh, turn.now, seen.rootStatus.Some?) {
      if turn.observeFails {
        return true, s, true;
      }
      live := turn.treeLive;
      seen := seen.(lastRefresh := Some(turn.now), log := seen.log + [Looked(live)]);
    }
    failed := false;
  }

  method EnforceDeadline(s: Supervisor, turn: Turn) returns (next: Supervisor, verdict: Verdict)
    ensures (next, verdict) == ForceStop(s, turn)
  {
    next, verdict := s, Continue;
    if !s.forced && s.deadline.Some? && turn.checked >= s.deadline.value {
      if turn.forceFails {
        return s, Failed;
      }
      next := s.(forced := true, log := s.log + [Forced(turn.checked)]);
    }
  }

  method SendSoftStop(hasInput: bool, s: Supervisor, turn: Turn, live: bool)
    returns (next: Supervisor, verdict: Verdict)
    ensures (next, verdict) == SoftStop(hasInput, s, turn, live)
  {
    next, verdict := s, Continue;
    var deadline := Some(turn.acted + TERMINATION_GRACE);
    if !next.desktopInputClosed && next.rootStatus.None? && hasInput && turn.inputEnded {
      if turn.softStopFails {
        return s, Failed;
      }
      next := next.(desktopInputClosed := true, deadline := deadline, log := next.log + [ClosedInput(turn.acted)]);
    } else {
      var signal := next.pending;
      next := next.(pending := 0);
      if signal != 0 && next.forwardedSignal.None? {
        if turn.softStopFails {
          return next, Failed;
        }
        next := next.(forwardedSignal := Some(signal), deadline := deadline,
                      log := next.log + [Forwarded(signal, turn.acted)]);
      } else if next.rootStatus.Some? && next.deadline.None? && live {
        if turn.softStopFails {
          return next, Failed;
        }
        next := next.(terminatedDescendants := true, deadline := deadline,
                      log := next.log + [StoppedDescendants(turn.acted)]);
      }
    }
  }

  // ----- What the log may contain -----

  predicate IsSoft(event: Event) {
    event.ClosedInput? || event.Forwarded? || event.StoppedDescendants?
  }

  /** When the latest soft stop was sent. */
  function LastSoft(log: seq<Event>): Option<nat> {
    if log == [] then None
    else if IsSoft(log[|log| - 1]) then Some(log[|log| - 1].at)
    else LastSoft(log[..|log| - 1])
  }

  function Count(log: seq<Event>, kind: Event -> bool): nat {
    if log == [] then 0 else Count(log[..|log| - 1], kind) + (if kind(log[|log| - 1]) then 1 else 0)
  }

  function Forces(log: seq<Event>): nat { Count(log, (event: Event) => event.Forced?) }

  function Forwards(log: seq<Event>): nat { Count(log, (event: Event) => event.Forwarded?) }

  function InputStops(log: seq<Event>): nat { Count(log, (event: Event) => event.ClosedInput?) }

  function DescendantStops(log: seq<Event>): nat { Count(log, (event: Event) => event.StoppedDescendants?) }

  /** Every forced stop comes at least the grace period after the latest soft stop before it. */
  ghost predicate ForcesAfterGrace(log: seq<Event>) {
    forall k :: 0 <= k < |log| && log[k].Forced? ==>
      LastSoft(log[..k]).Some? && log[k].at >= LastSoft(log[..k]).value + TERMINATION_GRACE
  }

  /** The flags of the loop are a summary of its log. */
  ghost predicate Inv(s: Supervisor) {
    && s.deadline == (if LastSoft(s.log).Some? then Some(LastSoft(s.log).value + TERMINATION_GRACE) else None)
    && Forces(s.log) == (if s.forced then 1 else 0)
    && Forwards(s.log) == (if s.forwardedSignal.Some? then 1 else 0)
    && InputStops(s.log) == (if s.desktopInputClosed then 1 else 0)
    && DescendantStops(s.log) == (if s.terminatedDescendants then 1 else 0)
    && (s.desktopInputClosed || s.terminatedDescendants ==> s.deadline.Some?)
    && (s.terminatedDescendants ==> s.rootStatus.Some?)
    && !(s.terminatedDescendants && s.desktopInputClosed)
    && (forall event <- s.log :: event.Forwarded? ==> s.forwardedSignal == Some(event.signal))
    && ForcesAfterGrace(s.log)
  }

  lemma LogGrows(log: seq<Event>, event: Event)
    ensures (log + [event])[..|log|] == log
    ensures LastSoft(log + [event]) == if IsSoft(event) then Some(event.at) else LastSoft(log)
    ensures Forces(log + [event]) == Forces(log) + (if event.Forced? then 1 else 0)
    ensures Forwards(log + [event]) == Forwards(log) + (if event.Forwarded? then 1 else 0)
    ensures InputStops(log + [event]) == InputStops(log) + (if event.ClosedInput? then 1 else 0)
    ensures DescendantStops(log + [event]) == DescendantStops(log) + (if event.StoppedDescendants? then 1 else 0)
    ensures ForcesAfterGrace(log) ==>
      (event.Forced? ==> LastSoft(log).Some? && event.at >= LastSoft(log).value + TERMINATION_GRACE) ==>
      ForcesAfterGrace(log + [event])
  {
    var grown := log + [event];
    assert grown[..|grown| - 1] == log;
    forall k | 0 <= k < |log| ensures grown[..k] == log[..k] {
    }
  }

  lemma InspectKeeps(refreshInterval: nat, s: Supervisor, turn: Turn)
    requires Inv(s)
    ensures Inv(Inspect(refreshInterval, s, turn).0)
  {
    hide LastSoft, Count, Forces, Forwards, InputStops, DescendantStops, ForcesAfterGrace;
    LogGrows(s.log, Looked(turn.treeLive));
  }

  lemma SoftStopKeeps(hasInput: bool, s: Supervisor, turn: Turn, live: bool)
    requires Inv(s)
    ensures Inv(SoftStop(hasInput, s, turn, live).0)
  {
    hide LastSoft, Count, Forces, Forwards, InputStops, DescendantStops, ForcesAfterGrace;
    LogGrows(s.log, ClosedInput(turn.acted));
    LogGrows(s.log, Forwarded(s.pending, turn.acted));
    LogGrows(s.log, StoppedDescendants(turn.acted));
    assert s.forwardedSignal.None? ==> forall event <- s.log :: !event.Forwarded?;
  }

  lemma ForceStopKeeps(s: Supervisor, turn: Turn)
    requires Inv(s)
    ensures Inv(ForceStop(s, turn).0)
  {
    hide LastSoft, Count, Forces, Forwards, InputStops, DescendantStops, ForcesAfterGrace;
    LogGrows(s.log, Forced(turn.checked));
  }

  lemma TurnKeeps(refreshInterval: nat, hasInput: bool, s: Supervisor, turn: Turn)
    requires Inv(s)
    ensures Inv(TurnStep(refreshInterval, hasInput, s, turn).0)
  {
    hide Inv, SoftStop, ForceStop, Inspect;
    var (seen, live) := Inspect(refreshInterval, s, turn);
    InspectKeeps(refreshInterval, s, turn);
    var signalled := seen.(pending := if turn.raised != 0 then turn.raised else seen.pending);
    PendingIsFree(seen, signalled.pending);
    SoftStopKeeps(hasInput, signalled, turn, live);
    ForceStopKeeps(SoftStop(hasInput, signalled, turn, live).0, turn);
  }

  lemma PendingIsFree(s: Supervisor, pending: nat)
    requires Inv(s)
    ensures Inv(s.(pending := pending))
  {
  }

  /** Whatever the turns bring: at most one forced stop, only after the grace period of the latest soft stop; at
      most one forwarded signal; and never both an input stop and a descendant stop. */
  lemma {:induction false} ShutdownInvariant(refreshInterval: nat, hasInput: bool, s: Supervisor, turns: seq<Turn>)
    requires Inv(s)
    ensures var last := Run(refreshInterval, hasInput, s, turns).0;
            && Inv(last)
            && Forces(last.log) <= 1 && Forwards(last.log) <= 1 && InputStops(last.log) + DescendantStops(last.log) <= 1
            && ForcesAfterGrace(last.log)
    decreases |turns|
  {
    hide TurnStep;
    if turns != [] {
      TurnKeeps(refreshInterval, hasInput, s, turns[0]);
      if TurnStep(refreshInterval, hasInput, s, turns[0]).1.Continue? {
        ShutdownInvariant(refreshInterval, hasInput, TurnStep(refreshInterval, hasInput, s, turns[0]).0, turns[1..]);
      }
    }
  }

  /** The first exit status the turns report. */
  function FirstExit(known: Option<int>, turns: seq<Turn>): Option<int>
    decreases |turns|
  {
    if known.Some? || turns == [] then known else FirstExit(turns[0].exited, turns[1..])
  }

  lemma FirstExitShift(known: Option<int>, turns: seq<Turn>, k: nat)
    requires 0 < k <= |turns|
    ensures FirstExit(known, turns[..k]) ==
            FirstExit(if known.Some? then known else turns[0].exited, turns[1..][..k - 1])
  {
    assert turns[..k][0] == turns[0] && turns[..k][1..] == turns[1..][..k - 1];
  }

  /** Turn `n` is where the loop may return: the exit is known and this turn's observation finds nobody. */
  ghost predicate AllGoneAt(known: Option<int>, turns: seq<Turn>, n: nat) {
    n < |turns| && FirstExit(known, turns[..n + 1]).Some? && !turns[n].treeLive
  }

  /** The loop returns in the first turn that knows the root's exit and finds no live member in an observation made
      in that same turn; no earlier turn was like that. Its outcome is the root's first exit status and the flags. */
  lemma {:induction false} ReturnsOnlyWhenAllIsGone(
    refreshInterval: nat, hasInput: bool, s: Supervisor, turns: seq<Turn>) returns (n: nat)
    requires Run(refreshInterval, hasInput, s, turns).1.Returned?
    ensures AllGoneAt(s.rootStatus, turns, n) && !turns[n].observeFails
    ensures var (last, verdict) := Run(refreshInterval, hasInput, s, turns);
            && last.log != [] && last.log[|last.log| - 1] == Looked(false)
            && last.rootStatus == FirstExit(s.rootStatus, turns[..n + 1])
            && last.rootStatus.Some? && verdict.outcome == Outcome(last)
    ensures forall i :: 0 <= i < n ==> !AllGoneAt(s.rootStatus, turns, i)
    decreases |turns|
  {
    hide TurnStep;
    var (next, verdict) := TurnStep(refreshInterval, hasInput, s, turns[0]);
    TurnStatus(refreshInterval, hasInput, s, turns[0]);
    if verdict.Continue? {
      n := ReturnsOnlyWhenAllIsGone(refreshInterval, hasInput, next, turns[1..]);
      n := n + 1;
      FirstExitShift(s.rootStatus, turns, n + 1);
      forall i | 0 <= i < n ensures !AllGoneAt(s.rootStatus, turns, i) {
        FirstExitShift(s.rootStatus, turns, i + 1);
        if i > 0 {
          assert !AllGoneAt(next.rootStatus, turns[1..], i - 1);
        }
      }
    } else {
      n := 0;
      FirstExitShift(s.rootStatus, turns, 1);
    }
  }

  // ----- What the steps of a turn do to the loop's variables -----

  lemma Inspects(refreshInterval: nat, s: Supervisor, turn: Turn)
    ensures var seen := Inspect(refreshInterval, s, turn).0;
            && seen.rootStatus == (if s.rootStatus.Some? then s.rootStatus else turn.exited)
            && seen.deadline == s.deadline && seen.pending == s.pending && seen.forced == s.forced
            && seen.forwardedSignal == s.forwardedSignal && seen.desktopInputClosed == s.desktopInputClosed
  {
  }

  lemma StopsSoftly(hasInput: bool, s: Supervisor, turn: Turn, live: bool)
    ensures var (next, verdict) := SoftStop(hasInput, s, turn, live);
            && next.rootStatus == s.rootStatus && next.forced == s.forced
            && (next.deadline == s.deadline || next.deadline == Some(turn.acted + TERMINATION_GRACE))
            && (!verdict.Failed? && s.rootStatus.Some? ==> next.pending == 0 && (live ==> next.deadline.Some?))
            && (s.rootStatus.Some? && s.deadline.Some? && next.deadline != s.deadline ==>
                  s.forwardedSignal.None? && next.forwardedSignal.Some?)
            && (s.forwardedSignal.Some? ==> next.forwardedSignal == s.forwardedSignal)
            && (s.desktopInputClosed ==> next.desktopInputClosed)
            && (!verdict.Failed? && s.pending != 0 && next.forwardedSignal.None? ==>
                  !s.desktopInputClosed && next.desktopInputClosed && next.pending == s.pending)
  {
  }

  lemma ForcesStop(s: Supervisor, turn: Turn)
    ensures var (next, verdict) := ForceStop(s, turn);
            && next.rootStatus == s.rootStatus && next.pending == s.pending && next.deadline == s.deadline
            && next.forwardedSignal == s.forwardedSignal && next.desktopInputClosed == s.desktopInputClosed
            && (s.forced ==> next.forced)
            && (verdict.Continue? && s.deadline.Some? && turn.checked >= s.deadline.value ==> next.forced)
  {
  }

  /** The steps together, in a turn after which the loop waits on. */
  lemma WaitingTurn(refreshInterval: nat, hasInput: bool, s: Supervisor, turn: Turn)
    requires TurnStep(refreshInterval, hasInput, s, turn).1.Continue?
    ensures var next := TurnStep(refreshInterval, hasInput, s, turn).0;
            && next.rootStatus == (if s.rootStatus.Some? then s.rootStatus else turn.exited)
            && (next.deadline == s.deadline || next.deadline == Some(turn.acted + TERMINATION_GRACE))
            && (next.rootStatus.Some? ==> next.pending == 0 && next.deadline.Some?)
            && (next.rootStatus.Some? && s.deadline.Some? && next.deadline != s.deadline ==>
                  s.forwardedSignal.None? && next.forwardedSignal.Some?)
            && (s.forwardedSignal.Some? ==> next.forwardedSignal == s.forwardedSignal)
            && ((turn.raised != 0 || s.pending != 0) && next.forwardedSignal.None? ==>
                  !s.desktopInputClosed && next.desktopInputClosed && next.pending != 0)
            && (s.forced ==> next.forced)
            && (next.deadline.Some? && turn.checked >= next.deadline.value ==> next.forced)
  {
    hide Inspect, SoftStop, ForceStop, InspectionFails;
    var (seen, live) := Inspect(refreshInterval, s, turn);
    Inspects(refreshInterval, s, turn);
    var signalled := seen.(pending := if turn.raised != 0 then turn.raised else seen.pending);
    StopsSoftly(hasInput, signalled, turn, live);
    ForcesStop(SoftStop(hasInput, signalled, turn, live).0, turn);
  }

  lemma TurnStatus(refreshInterval: nat, hasInput: bool, s: Supervisor, turn: Turn)
    ensures var (next, verdict) := TurnStep(refreshInterval, hasInput, s, turn);
            var known := if s.rootStatus.Some? then s.rootStatus else turn.exited;
            && (verdict.Continue? ==> next.rootStatus == known && (known.Some? ==> turn.treeLive))
            && (verdict.Returned? ==>
                  && next.rootStatus == known && known.Some? && !turn.treeLive && !turn.observeFails
                  && verdict.outcome == Outcome(next)
                  && next.log == s.log + [Looked(false)])
  {
  }

  /** What a turn that waits on does with a signal: it is forwarded, unless the end of Desktop input is acted on instead,
      which happens once and keeps the signal pending. */
  lemma SignalledTurn(refreshInterval: nat, hasInput: bool, s: Supervisor, turn: Turn)
    requires TurnStep(refreshInterval, hasInput, s, turn).1.Continue?
    ensures var next := TurnStep(refreshInterval, hasInput, s, turn).0;
            && (s.forwardedSignal.Some? ==> next.forwardedSignal.Some?)
            && ((turn.raised != 0 || s.pending != 0) && next.forwardedSignal.None? ==>
                  !s.desktopInputClosed && next.desktopInputClosed && next.pending != 0)
  {
    hide TurnStep;
    WaitingTurn(refreshInterval, hasInput, s, turn);
  }

  lemma {:induction false} ForwardedStays(refreshInterval: nat, hasInput: bool, s: Supervisor, turns: seq<Turn>)
    requires s.forwardedSignal.Some? && Run(refreshInterval, hasInput, s, turns).1.Continue?
    ensures Run(refreshInterval, hasInput, s, turns).0.forwardedSignal.Some?
    decreases |turns|
  {
    hide TurnStep;
    if turns != [] {
      SignalledTurn(refreshInterval, hasInput, s, turns[0]);
      ForwardedStays(refreshInterval, hasInput, TurnStep(refreshInterval, hasInput, s, turns[0]).0, turns[1..]);
    }
  }

  /** No signal is lost: a run that waits on for at least one more turn after a signal was raised has forwarded one. */
  lemma {:induction false} SignalIsForwarded(
    refreshInterval: nat, hasInput: bool, s: Supervisor, turns: seq<Turn>, raised: nat)
    requires raised + 1 < |turns| && turns[raised].raised != 0
    requires Run(refreshInterval, hasInput, s, turns).1.Continue?
    ensures Run(refreshInterval, hasInput, s, turns).0.forwardedSignal.Some?
    decreases |turns|
  {
    hide TurnStep;
    var first := TurnStep(refreshInterval, hasInput, s, turns[0]).0;
    SignalledTurn(refreshInterval, hasInput, s, turns[0]);
    if raised > 0 {
      SignalIsForwarded(refreshInterval, hasInput, first, turns[1..], raised - 1);
    } else if first.forwardedSignal.Some? {
      ForwardedStays(refreshInterval, hasInput, first, turns[1..]);
    } else {
      assert turns[1..][0] == turns[1];
      SignalledTurn(refreshInterval, hasInput, first, turns[1]);
      ForwardedStays(refreshInterval, hasInput, TurnStep(refreshInterval, hasInput, first, turns[1]).0, turns[1..][1..]);
    }
  }

  /** The clock does not go back. */
  predicate InOrder(turns: seq<Turn>) {
    && (forall i :: 0 <= i < |turns| ==> turns[i].acted <= turns[i].checked)
    && (forall i, j :: 0 <= i < j < |turns| ==> turns[i].acted <= turns[j].acted)
  }

  /** The root's exit is known, no signal is waiting, and a deadline no later than `limit` is set. */
  predicate Closing(s: Supervisor, limit: nat) {
    s.rootStatus.Some? && s.pending == 0 && s.deadline.Some? && s.deadline.value <= limit
  }

  lemma QuietTurn(refreshInterval: nat, hasInput: bool, s: Supervisor, turn: Turn, limit: nat)
    requires Closing(s, limit) && turn.raised == 0 && TurnStep(refreshInterval, hasInput, s, turn).1.Continue?
    ensures var next := TurnStep(refreshInterval, hasInput, s, turn).0;
            Closing(next, limit) && (s.forced || turn.checked >= limit ==> next.forced)
  {
  }

  lemma {:induction false} QuietRun(refreshInterval: nat, hasInput: bool, s: Supervisor, turns: seq<Turn>, limit: nat)
    requires Closing(s, limit) && Run(refreshInterval, hasInput, s, turns).1.Continue?
    requires forall turn <- turns :: turn.raised == 0
    ensures s.forced || (turns != [] && turns[|turns| - 1].checked >= limit) ==>
              Run(refreshInterval, hasInput, s, turns).0.forced
    decreases |turns|
  {
    hide TurnStep, Closing;
    if turns != [] {
      var next := TurnStep(refreshInterval, hasInput, s, turns[0]).0;
      QuietTurn(refreshInterval, hasInput, s, turns[0], limit);
      QuietRun(refreshInterval, hasInput, next, turns[1..], limit);
      assert |turns| > 1 ==> turns[1..][|turns| - 2] == turns[|turns| - 1];
    }
  }

  lemma LatestTurn(refreshInterval: nat, hasInput: bool, s: Supervisor, turn: Turn)
    requires s.deadline.Some? ==> s.deadline.value <= turn.acted + TERMINATION_GRACE
    requires TurnStep(refreshInterval, hasInput, s, turn).1.Continue?
    ensures var next := TurnStep(refreshInterval, hasInput, s, turn).0;
            && next.rootStatus == (if s.rootStatus.Some? then s.rootStatus else turn.exited)
            && (next.deadline.Some? ==> next.deadline.value <= turn.acted + TERMINATION_GRACE)
            && (next.rootStatus.Some? ==> Closing(next, turn.acted + TERMINATION_GRACE))
            && (next.rootStatus.Some? && turn.checked >= turn.acted + TERMINATION_GRACE ==> next.forced)
  {
    hide TurnStep;
    WaitingTurn(refreshInterval, hasInput, s, turn);
  }

  /** The loop does not wait for ever: once the root's exit is known and no further signal arrives, both by turn
      `quiet`, every turn that looks at the clock a grace period after `quiet` has forced a stop, or the loop has ended
      before. */
  lemma {:induction false} ForcedInTime(
    refreshInterval: nat, hasInput: bool, s: Supervisor, turns: seq<Turn>, quiet: nat)
    requires InOrder(turns) && quiet < |turns|
    requires s.deadline.Some? ==> s.deadline.value <= turns[0].acted + TERMINATION_GRACE
    requires FirstExit(s.rootStatus, turns[..quiet + 1]).Some?
    requires forall i :: quiet < i < |turns| ==> turns[i].raised == 0
    requires Run(refreshInterval, hasInput, s, turns).1.Continue?
    requires turns[|turns| - 1].checked >= turns[quiet].acted + TERMINATION_GRACE
    ensures Run(refreshInterval, hasInput, s, turns).0.forced
    decreases |turns|
  {
    hide TurnStep;
    var next := TurnStep(refreshInterval, hasInput, s, turns[0]).0;
    LatestTurn(refreshInterval, hasInput, s, turns[0]);
    FirstExitShift(s.rootStatus, turns, quiet + 1);
    if quiet == 0 {
      QuietRun(refreshInterval, hasInput, next, turns[1..], turns[0].acted + TERMINATION_GRACE);
      assert |turns| > 1 ==> turns[1..][|turns| - 2] == turns[|turns| - 1];
    } else {
      var later := turns[1..];
      assert later[quiet - 1] == turns[quiet] && later[|later| - 1] == turns[|turns| - 1];
      ForcedInTime(refreshInterval, hasInput, next, later, quiet - 1);
    }
  }

  // ----- The same with further signals: at most one of them postpones the deadline -----

  /** The root's exit is known, and the deadline is no later than `limit` unless a signal has been forwarded. */
  predicate ClosingOnce(s: Supervisor, limit: nat, latest: nat) {
    && s.rootStatus.Some? && s.deadline.Some? && s.deadline.value <= latest + TERMINATION_GRACE
    && (s.forced || s.forwardedSignal.Some? || s.deadline.value <= limit)
  }

  /** Nothing can postpone the deadline any more. */
  predicate ClosingForGood(s: Supervisor, limit: nat) {
    s.forced || (s.rootStatus.Some? && s.forwardedSignal.Some? && s.deadline.Some? && s.deadline.value <= limit)
  }

  lemma ClosingTurn(refreshInterval: nat, hasInput: bool, s: Supervisor, turn: Turn, limit: nat, latest: nat)
    requires ClosingOnce(s, limit, latest) && latest <= turn.acted
    requires TurnStep(refreshInterval, hasInput, s, turn).1.Continue?
    ensures var next := TurnStep(refreshInterval, hasInput, s, turn).0;
            && ClosingOnce(next, limit, turn.acted)
            && (turn.checked >= limit ==> ClosingForGood(next, turn.acted + TERMINATION_GRACE))
  {
    hide TurnStep;
    WaitingTurn(refreshInterval, hasInput, s, turn);
  }

  lemma FinalTurn(refreshInterval: nat, hasInput: bool, s: Supervisor, turn: Turn, limit: nat)
    requires ClosingForGood(s, limit) && TurnStep(refreshInterval, hasInput, s, turn).1.Continue?
    ensures var next := TurnStep(refreshInterval, hasInput, s, turn).0;
            ClosingForGood(next, limit) && (s.forced || turn.checked >= limit ==> next.forced)
  {
    hide TurnStep;
    WaitingTurn(refreshInterval, hasInput, s, turn);
  }

  lemma {:induction false} FinalRun(refreshInterval: nat, hasInput: bool, s: Supervisor, turns: seq<Turn>, limit: nat)
    requires ClosingForGood(s, limit) && Run(refreshInterval, hasInput, s, turns).1.Continue?
    requires s.forced || (turns != [] && turns[|turns| - 1].checked >= limit)
    ensures Run(refreshInterval, hasInput, s, turns).0.forced
    decreases |turns|
  {
    hide TurnStep, ClosingForGood;
    if turns != [] {
      var next := TurnStep(refreshInterval, hasInput, s, turns[0]).0;
      FinalTurn(refreshInterval, hasInput, s, turns[0], limit);
      assert |turns| > 1 ==> turns[1..][|turns| - 2] == turns[|turns| - 1];
      FinalRun(refreshInterval, hasInput, next, turns[1..], limit);
    }
  }

  lemma {:induction false} ClosingRun(
    refreshInterval: nat, hasInput: bool, s: Supervisor, turns: seq<Turn>, limit: nat, latest: nat, due: nat)
    requires InOrder(turns) && due < |turns| && latest <= turns[0].acted
    requires ClosingOnce(s, limit, latest) && Run(refreshInterval, hasInput, s, turns).1.Continue?
    requires turns[due].checked >= limit
    requires turns[|turns| - 1].checked >= turns[due].acted + TERMINATION_GRACE
    ensures Run(refreshInterval, hasInput, s, turns).0.forced
    decreases |turns|
  {
    hide TurnStep, ClosingOnce, ClosingForGood;
    var later := turns[1..];
    var next := TurnStep(refreshInterval, hasInput, s, turns[0]).0;
    ClosingTurn(refreshInterval, hasInput, s, turns[0], limit, latest);
    assert |turns| > 1 ==> later[|turns| - 2] == turns[|turns| - 1];
    if due > 0 {
      ClosingRun(refreshInterval, hasInput, next, later, limit, turns[0].acted, due - 1);
    } else if |turns| > 1 {
      FinalRun(refreshInterval, hasInput, next, later, turns[0].acted + TERMINATION_GRACE);
    } else {
      LastTurnForces(refreshInterval, hasInput, s, turns[0], limit, latest);
    }
  }

  lemma LastTurnForces(refreshInterval: nat, hasInput: bool, s: Supervisor, turn: Turn, limit: nat, latest: nat)
    requires ClosingOnce(s, limit, latest)
    requires latest <= turn.acted && turn.checked >= turn.acted + TERMINATION_GRACE
    requires TurnStep(refreshInterval, hasInput, s, turn).1.Continue?
    ensures TurnStep(refreshInterval, hasInput, s, turn).0.forced
  {
    LatestTurn(refreshInterval, hasInput, s, turn);
  }

  /** Whatever signals arrive, the loop does not wait for ever: once the root's exit is known in turn `exit`, let `due` be
      any turn that looks at the clock a grace period later; every turn that looks a grace period after `due` has forced a
      stop, or the loop has ended before. */
  lemma {:induction false} ForcedWithinTwoGraces(
    refreshInterval: nat, hasInput: bool, s: Supervisor, turns: seq<Turn>, exit: nat, due: nat)
    requires InOrder(turns) && exit <= due < |turns|
    requires s.deadline.Some? ==> s.deadline.value <= turns[0].acted + TERMINATION_GRACE
    requires FirstExit(s.rootStatus, turns[..exit + 1]).Some?
    requires Run(refreshInterval, hasInput, s, turns).1.Continue?
    requires turns[due].checked >= turns[exit].acted + TERMINATION_GRACE
    requires turns[|turns| - 1].checked >= turns[due].acted + TERMINATION_GRACE
    ensures Run(refreshInterval, hasInput, s, turns).0.forced
    decreases |turns|
  {
    hide TurnStep;
    var later := turns[1..];
    var next := TurnStep(refreshInterval, hasInput, s, turns[0]).0;
    LatestTurn(refreshInterval, hasInput, s, turns[0]);
    FirstExitShift(s.rootStatus, turns, exit + 1);
    assert |turns| > 1 ==> later[|turns| - 2] == turns[|turns| - 1];
    assert due > 0 ==> later[due - 1] == turns[due];
    if exit > 0 {
      assert later[exit - 1] == turns[exit];
      ForcedWithinTwoGraces(refreshInterval, hasInput, next, later, exit - 1, due - 1);
    } else if due > 0 {
      ClosingRun(refreshInterval, hasInput, next, later, turns[0].acted + TERMINATION_GRACE, turns[0].acted, due - 1);
    } else if |turns| > 1 {
      FinalRun(refreshInterval, hasInput, next, later, turns[0].acted + TERMINATION_GRACE);
    }
  }

  /** The two results together for a supervised child from its start: what a returned outcome reports is what was
      done, nothing was forced without a soft stop and its grace period, and nobody is left. */
  lemma OutcomeIsHonest(refreshInterval: nat, hasInput: bool, turns: seq<Turn>)
    requires Run(refreshInterval, hasInput, StartingSupervisor(), turns).1.Returned?
    ensures var (last, verdict) := Run(refreshInterval, hasInput, StartingSupervisor(), turns);
            var outcome := verdict.outcome;
            && (exists n: nat :: AllGoneAt(None, turns, n) && Some(outcome.status) == FirstExit(None, turns[..n + 1]))
            && (outcome.forced <==> Forces(last.log) == 1) && ForcesAfterGrace(last.log)
            && (outcome.forwardedSignal.Some? <==> Forwards(last.log) == 1)
            && (forall event <- last.log :: event.Forwarded? ==> outcome.forwardedSignal == Some(event.signal))
            && (outcome.desktopInputClosed <==> InputStops(last.log) == 1)
            && (outcome.terminatedDescendants <==> DescendantStops(last.log) == 1)
            && !(outcome.terminatedDescendants && outcome.desktopInputClosed)
            && last.log != [] && last.log[|last.log| - 1] == Looked(false)
  {
    ShutdownInvariant(refreshInterval, hasInput, StartingSupervisor(), turns);
    var n := ReturnsOnlyWhenAllIsGone(refreshInterval, hasInput, StartingSupervisor(), turns);
    assert AllGoneAt(None, turns, n);
  }
}
