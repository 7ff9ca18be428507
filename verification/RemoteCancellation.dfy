/** The remote updater against a Host that may cancel it at any moment
    (crates/updater/src/remote.rs:52-129 and 161-262). The cancel marker, once written, stays. A check that cannot read
    the marker or the status file reports that nobody cancelled. */
module RemoteCancellation {

  /** `markerIsReadable` says that a marker that is there is read by every check. */
  datatype Config = Config(restartOnly: bool, markerIsReadable: bool)

  /** The `status` calls that publish a phase other than `failed`, in program order. */
  datatype Call = Announce | BeforeInstall | BeforeStop | Final

  /** Inside one `status` call: checks of marker and status file before and after writing the new status, the rename,
      and the last look at the marker. */
  datatype Point = FirstMarker | FirstStatus | Writing | SecondMarker | SecondStatus | Renaming | LastMarker

  datatype Action = NpmRoot | NpmView | NpmInstall | ServiceStop | ServiceInstall | ServiceStart

  datatype Place =
    | EntryStatus
    | EntryMarker
    | Publishing(call: Call, point: Point)
    | AnnouncedStatus
    | AnnouncedMarker
    | Locking
    | LockedMarker
    | LockedStatus
    | CheckingInstallation
    | Act(action: Action)
    | Verifying
    | Recovering
    | RecordingFailure
    | Returned(ok: bool)

  /** `cancelled` is the marker, `failedOnDisk` whether the status file says `failed` for this version. */
  datatype State = State(cancelled: bool, failedOnDisk: bool, place: Place, actions: seq<Action>)

  // ----- Steps -----

  /** The Host cancels: it writes the marker, and later the failed status. */
  ghost predicate HostStep(s: State, t: State) {
    t == s.(cancelled := true) || t == s.(failedOnDisk := true)
  }

  function Goto(s: State, place: Place): State {
    s.(place := place)
  }

  /** Where an error leads: before the lock is sought it is returned as it is, after that it is recorded first. */
  function Abort(s: State): State {
    match s.place
    case EntryStatus => Goto(s, Returned(false))
    case EntryMarker => Goto(s, Returned(false))
    case Publishing(Announce, _) => Goto(s, Returned(false))
    case AnnouncedStatus => Goto(s, Returned(false))
    case AnnouncedMarker => Goto(s, Returned(false))
    case _ => Goto(s, RecordingFailure)
  }

  /** Where a `status` call that returns normally leads. */
  function AfterCall(call: Call): Place {
    match call
    case Announce => AnnouncedStatus
    case BeforeInstall => Act(NpmInstall)
    case BeforeStop => Act(ServiceStop)
    case Final => Returned(true)
  }

  function AfterPoint(call: Call, point: Point): Place {
    match point
    case FirstMarker => Publishing(call, FirstStatus)
    case FirstStatus => Publishing(call, Writing)
    case Writing => Publishing(call, SecondMarker)
    case SecondMarker => Publishing(call, SecondStatus)
    case SecondStatus => Publishing(call, Renaming)
    case Renaming => Publishing(call, LastMarker)
    case LastMarker => AfterCall(call)
  }

  function AfterAction(action: Action): Place {
    match action
    case NpmRoot => Act(NpmView)
    case NpmView => Publishing(BeforeInstall, FirstMarker)
    case NpmInstall => Verifying
    case ServiceStop => Act(ServiceInstall)
    case ServiceInstall => Act(ServiceStart)
    case ServiceStart => Publishing(Final, FirstMarker)
  }

  /** A failed refresh or start of the service is answered by one more attempt to start it. */
  function AfterFailedAction(s: State, action: Action): State {
    if action.ServiceInstall? || action.ServiceStart? then Goto(s, Recovering) else Abort(s)
  }

  predicate ChecksMarker(place: Place) {
    || place.EntryMarker? || place.AnnouncedMarker? || place.LockedMarker?
    || (place.Publishing? && (place.point.FirstMarker? || place.point.SecondMarker? || place.point.LastMarker?))
  }

  predicate ChecksStatus(place: Place) {
    || place.EntryStatus? || place.AnnouncedStatus? || place.LockedStatus?
    || (place.Publishing? && (place.point.FirstStatus? || place.point.SecondStatus?))
  }

  /** Checks and operations other than the actions and the handling of a failure. */
  predicate IsUneventful(place: Place) {
    !place.Act? && !place.Recovering? && !place.RecordingFailure? && !place.Returned?
  }

  /** The next place when checks report nothing and operations succeed. */
  function Next(restartOnly: bool, place: Place): Place
    requires IsUneventful(place)
  {
    match place
    case EntryStatus => EntryMarker
    case EntryMarker => Publishing(Announce, FirstMarker)
    case Publishing(call, point) => AfterPoint(call, point)
    case AnnouncedStatus => AnnouncedMarker
    case AnnouncedMarker => Locking
    case Locking => LockedMarker
    case LockedMarker => LockedStatus
    case LockedStatus => CheckingInstallation
    case CheckingInstallation => if restartOnly then Verifying else Act(NpmRoot)
    case Verifying => Publishing(BeforeStop, FirstMarker)
  }

  function Advance(c: Config, s: State): State
    requires IsUneventful(s.place)
  {
    var published := if s.place.Publishing? && s.place.point.Renaming? then s.(failedOnDisk := false) else s;
    Goto(published, Next(c.restartOnly, s.place))
  }

  /** A check can report a cancellation only where there is one, and may miss a failed status whenever its file cannot be
      read. A request may be rejected on entry. Other operations may fail. An action that fails may still have had its
      effect, or may not even have begun. */
  ghost predicate HelperStep(c: Config, s: State, t: State) {
    match s.place
    case Returned(_) => false
    case RecordingFailure => t == Goto(s.(failedOnDisk := true), Returned(false)) || t == Goto(s, Returned(false))
    case Recovering =>
      t == Goto(s.(actions := s.actions + [ServiceStart]), RecordingFailure) || t == Goto(s, RecordingFailure)
    case Act(action) =>
      || t == Goto(s.(actions := s.actions + [action]), AfterAction(action))
      || t == AfterFailedAction(s.(actions := s.actions + [action]), action)
      || t == AfterFailedAction(s, action)
    case _ =>
      if ChecksMarker(s.place) then
        (s.cancelled && t == Abort(s)) || ((!s.cancelled || !c.markerIsReadable) && t == Advance(c, s))
      else if ChecksStatus(s.place) then
        ((s.failedOnDisk || s.place.EntryStatus?) && t == Abort(s)) || t == Advance(c, s)
      else
        t == Abort(s) || t == Advance(c, s)
  }

  ghost predicate Step(c: Config, s: State, t: State) {
    HostStep(s, t) || HelperStep(c, s, t)
  }

  ghost predicate Behaviour(c: Config, trace: seq<State>) {
    && trace != []
    && trace[0].place == EntryStatus && trace[0].actions == []
    && forall i :: 0 <= i < |trace| - 1 ==> Step(c, trace[i], trace[i + 1])
  }

  // ----- A marker that is read at the last check wins -----

  predicate AtLastCheck(s: State) {
    s.place.Publishing? && s.place.point.LastMarker?
  }

  /** Nothing more can happen than recording the failure. */
  predicate Stopped(s: State) {
    s.place.RecordingFailure? || s.place == Returned(false)
  }

  lemma {:induction false} StoppedForever(c: Config, trace: seq<State>, i: nat, j: nat)
    requires Behaviour(c, trace) && i <= j < |trace| && Stopped(trace[i])
    ensures Stopped(trace[j]) && trace[j].actions == trace[i].actions
  {
    if i < j {
      StoppedForever(c, trace, i, j - 1);
      assert Step(c, trace[j - 1], trace[j - 1 + 1]);
    }
  }

  lemma {:induction false} MarkerStays(c: Config, trace: seq<State>, i: nat, j: nat)
    requires Behaviour(c, trace) && i <= j < |trace| && trace[i].cancelled
    ensures trace[j].cancelled
  {
    if i < j {
      MarkerStays(c, trace, i, j - 1);
      assert Step(c, trace[j - 1], trace[j - 1 + 1]);
    }
  }

  /** The last check of a call, taken in the step after `check`, reported that nobody cancelled. */
  ghost predicate ReportsClear(trace: seq<State>, check: nat, call: Call) {
    && check + 1 < |trace|
    && trace[check].place == Publishing(call, LastMarker)
    && trace[check + 1].place == AfterCall(call)
  }

  /** The last check of a call decides, with the marker there: if its read succeeds, nothing is done from there on and
      the helper does not return normally; if it fails, the call returns as if nobody had cancelled. */
  lemma LastCheckDecides(c: Config, trace: seq<State>, check: nat, call: Call)
    requires Behaviour(c, trace) && check + 1 < |trace|
    requires trace[check].place == Publishing(call, LastMarker) && trace[check].cancelled
    requires trace[check + 1].place != trace[check].place
    ensures ReportsClear(trace, check, call) ==> !c.markerIsReadable
    ensures !ReportsClear(trace, check, call) <==>
              forall later :: check < later < |trace| ==>
                Stopped(trace[later]) && trace[later].actions == trace[check].actions
  {
    assert Step(c, trace[check], trace[check + 1]);
    if !ReportsClear(trace, check, call) {
      forall later | check < later < |trace|
        ensures Stopped(trace[later]) && trace[later].actions == trace[check].actions
      {
        StoppedForever(c, trace, check + 1, later);
      }
    }
  }

  /** A marker present when a last check is due prevents every action from there on, and a normal return. */
  ghost predicate MarkerWins(trace: seq<State>) {
    forall check, later :: 0 <= check <= later < |trace| && trace[check].cancelled && AtLastCheck(trace[check]) ==>
      trace[later].actions == trace[check].actions && trace[later].place != Returned(true)
  }

  lemma {:induction false} DoomedForever(c: Config, trace: seq<State>, i: nat, j: nat)
    requires Behaviour(c, trace) && c.markerIsReadable && i <= j < |trace|
    requires trace[i].cancelled && AtLastCheck(trace[i])
    ensures trace[j].actions == trace[i].actions && trace[j].cancelled && (Stopped(trace[j]) || AtLastCheck(trace[j]))
  {
    if i < j {
      DoomedForever(c, trace, i, j - 1);
      assert Step(c, trace[j - 1], trace[j - 1 + 1]);
    }
  }

  /** A marker written at any time up to a `status` call's last check stops everything from there on, if it is read. */
  lemma CancellationWins(c: Config, trace: seq<State>, marked: nat, check: nat, later: nat)
    requires Behaviour(c, trace) && c.markerIsReadable && marked <= check <= later < |trace|
    requires trace[marked].cancelled && AtLastCheck(trace[check])
    ensures trace[later].actions == trace[check].actions
    ensures trace[later].place != Returned(true)
  {
    MarkerStays(c, trace, marked, check);
    DoomedForever(c, trace, check, later);
  }

  // ----- A marker that is not read loses -----

  /** How far the helper still has to go. */
  function Distance(place: Place): nat {
    match place
    case EntryStatus => 61
    case EntryMarker => 60
    case Publishing(Announce, point) => 50 + PointDistance(point)
    case AnnouncedStatus => 49
    case AnnouncedMarker => 48
    case Locking => 47
    case LockedMarker => 46
    case LockedStatus => 45
    case CheckingInstallation => 44
    case Act(NpmRoot) => 43
    case Act(NpmView) => 42
    case Publishing(BeforeInstall, point) => 32 + PointDistance(point)
    case Act(NpmInstall) => 31
    case Verifying => 30
    case Publishing(BeforeStop, point) => 20 + PointDistance(point)
    case Act(ServiceStop) => 19
    case Act(ServiceInstall) => 18
    case Act(ServiceStart) => 17
    case Publishing(Final, point) => 5 + PointDistance(point)
    case _ => 0
  }

  function PointDistance(point: Point): nat {
    match point
    case FirstMarker => 6
    case FirstStatus => 5
    case Writing => 4
    case SecondMarker => 3
    case SecondStatus => 2
    case Renaming => 1
    case LastMarker => 0
  }

  /** Nothing fails but the reads of the marker. */
  function Unhindered(c: Config, s: State): State
    requires IsUneventful(s.place) || s.place.Act?
  {
    if s.place.Act? then Goto(s.(actions := s.actions + [s.place.action]), AfterAction(s.place.action)) else Advance(c, s)
  }

  lemma UnhinderedAdvances(c: Config, s: State)
    requires (!s.cancelled || !c.markerIsReadable) && (IsUneventful(s.place) || s.place.Act?)
    ensures var t := Unhindered(c, s);
            && HelperStep(c, s, t) && t.cancelled == s.cancelled
            && (t.place == Returned(true) <==> s.place == Publishing(Final, LastMarker))
            && (t.place != Returned(true) ==> IsUneventful(t.place) || t.place.Act?)
            && Distance(t.place) < Distance(s.place)
  {
  }

  /** A helper that was not cancelled, or misreads the marker, can go on to the end. */
  lemma {:induction false} RunOn(c: Config, trace: seq<State>) returns (longer: seq<State>)
    requires Behaviour(c, trace) && (!trace[|trace| - 1].cancelled || !c.markerIsReadable)
    requires IsUneventful(trace[|trace| - 1].place) || trace[|trace| - 1].place.Act?
    ensures Behaviour(c, longer) && |longer| > |trace| && longer[..|trace|] == trace
    ensures longer[|longer| - 2].cancelled == trace[|trace| - 1].cancelled
    ensures longer[|longer| - 2].place == Publishing(Final, LastMarker)
    ensures longer[|longer| - 1].place == Returned(true)
    decreases Distance(trace[|trace| - 1].place)
  {
    hide HelperStep, Distance, Unhindered;
    var last := trace[|trace| - 1];
    var next := Unhindered(c, last);
    UnhinderedAdvances(c, last);
    longer := Extended(c, trace, next);
    if next.place != Returned(true) {
      var whole := RunOn(c, longer);
      assert whole[..|trace|] == whole[..|longer|][..|trace|];
      longer := whole;
    }
  }

  lemma Extended(c: Config, trace: seq<State>, t: State) returns (longer: seq<State>)
    requires Behaviour(c, trace) && Step(c, trace[|trace| - 1], t)
    ensures longer == trace + [t] && Behaviour(c, longer)
  {
    hide Step;
    longer := trace + [t];
    forall i | 0 <= i < |longer| - 1 ensures Step(c, longer[i], longer[i + 1]) {
      assert longer[i] == trace[i];
      assert i + 1 < |trace| ==> longer[i + 1] == trace[i + 1];
    }
  }

  /** With a marker that no check reads, an update that was cancelled before it began runs to its normal return. */
  lemma MisreadMarkerIsIgnored(c: Config) returns (trace: seq<State>)
    requires !c.markerIsReadable
    ensures Behaviour(c, trace) && trace[0].cancelled
    ensures trace[|trace| - 1].place == Returned(true)
    ensures !MarkerWins(trace)
  {
    var start := State(true, false, EntryStatus, []);
    trace := RunOn(c, [start]);
    assert trace[0] == trace[..1][0] == start;
    assert AtLastCheck(trace[|trace| - 2]);
  }

  /** What a complete update does, in this order. */
  function CompleteWork(restartOnly: bool): seq<Action> {
    (if restartOnly then [] else [NpmRoot, NpmView, NpmInstall]) + [ServiceStop, ServiceInstall, ServiceStart]
  }

  /** What has been done by the time the helper is at a place, as long as nothing has failed. */
  function WorkBefore(restartOnly: bool, place: Place): (n: nat)
    ensures n <= |CompleteWork(restartOnly)|
  {
    var npm := if restartOnly then 0 else 3;
    match place
    case Act(NpmRoot) => 0
    case Act(NpmView) => 1
    case Publishing(BeforeInstall, _) => 2
    case Act(NpmInstall) => 2
    case Verifying => npm
    case Publishing(BeforeStop, _) => npm
    case Act(ServiceStop) => npm
    case Act(ServiceInstall) => npm + 1
    case Act(ServiceStart) => npm + 2
    case Publishing(Final, _) => npm + 3
    case Returned(_) => npm + 3
    case _ => 0
  }

  /** The work done so far is the beginning of a complete update, up to the place the helper is at. */
  ghost predicate WorkFits(restartOnly: bool, s: State) {
    s.place == Returned(false) || s.place.RecordingFailure? || s.place.Recovering?
    || (s.actions == CompleteWork(restartOnly)[..WorkBefore(restartOnly, s.place)]
        && PlaceFits(restartOnly, s.place))
  }

  /** A restart does nothing with npm. */
  predicate PlaceFits(restartOnly: bool, place: Place) {
    restartOnly ==> !place.Act? || TouchesService(place.action)
  }

  lemma WorkGrows(restartOnly: bool, s: State, action: Action)
    requires WorkFits(restartOnly, s) && s.place == Act(action)
    ensures s.actions + [action]
         == CompleteWork(restartOnly)[..WorkBefore(restartOnly, AfterAction(action))]
    ensures PlaceFits(restartOnly, AfterAction(action))
  {
    var work, done := CompleteWork(restartOnly), WorkBefore(restartOnly, s.place);
    assert done < |work| && work[done] == action;
    assert work[..done] + [action] == work[..done + 1];
  }

  lemma AdvanceFits(c: Config, s: State)
    requires WorkFits(c.restartOnly, s) && IsUneventful(s.place)
    requires c.restartOnly ==> !InCall(s.place, BeforeInstall)
    ensures WorkFits(c.restartOnly, Advance(c, s))
  {
  }

  /** A helper that returns normally has done a complete update, each action once and in its order: looked for npm's
      installation and the release, installed it, then stopped the service, refreshed it and started it; a restart
      only the latter. */
  lemma SuccessMeansCompleteWork(c: Config, trace: seq<State>, i: nat)
    requires Behaviour(c, trace) && i < |trace| && trace[i].place == Returned(true)
    ensures trace[i].actions == CompleteWork(c.restartOnly)
  {
    WorkHolds(c, trace, i);
    var work := CompleteWork(c.restartOnly);
    assert work[..|work|] == work;
  }

  lemma {:induction false} WorkHolds(c: Config, trace: seq<State>, i: nat)
    requires Behaviour(c, trace) && i < |trace|
    ensures WorkFits(c.restartOnly, trace[i])
  {
    if i > 0 {
      WorkHolds(c, trace, i - 1);
      assert Step(c, trace[i - 1], trace[i - 1 + 1]);
      ClearedHolds(c, trace, i - 1);
      StepFits(c, PassedCalls(trace, i - 1), trace[i - 1], trace[i]);
    } else {
      assert CompleteWork(c.restartOnly)[..0] == [];
    }
  }

  lemma StepFits(c: Config, passed: set<Call>, s: State, t: State)
    requires WorkFits(c.restartOnly, s) && Step(c, s, t) && Cleared(c.restartOnly, passed, s)
    ensures WorkFits(c.restartOnly, t)
  {
    StepKinds(c, s, t);
    CallFits(c.restartOnly, passed, s);
    hide Step, Advance, Cleared, WorkBefore, CompleteWork;
    if t.actions == s.actions && (Stopped(t) || t.place == s.place) {
    } else if s.place.Act? {
      ActionFits(c, s, t);
    } else if s.place.Recovering? {
    } else {
      AdvanceFits(c, s);
    }
  }

  lemma CallFits(restartOnly: bool, passed: set<Call>, s: State)
    requires Cleared(restartOnly, passed, s)
    ensures restartOnly ==> !InCall(s.place, BeforeInstall)
  {
  }

  lemma ActionFits(c: Config, s: State, t: State)
    requires WorkFits(c.restartOnly, s) && s.place.Act? && HelperStep(c, s, t)
    ensures WorkFits(c.restartOnly, t)
  {
    WorkGrows(c.restartOnly, s, s.place.action);
    hide WorkBefore, CompleteWork;
  }

  /** A failed refresh or start of the service leads to one more attempt to start it, and to no other end. */
  lemma FailedServiceIsStartedAgain(c: Config, s: State, t: State)
    requires HelperStep(c, s, t)
    ensures s.place == Act(ServiceInstall) || s.place == Act(ServiceStart) ==>
              t.place == AfterAction(s.place.action) || t.place.Recovering?
    ensures s.place.Recovering? ==>
              t.place.RecordingFailure? && (t.actions == s.actions + [ServiceStart] || t.actions == s.actions)
  {
  }

  /** Without a cancellation the update can complete. */
  lemma UncancelledUpdateCompletes(c: Config) returns (trace: seq<State>)
    ensures Behaviour(c, trace) && !trace[0].cancelled
    ensures trace[|trace| - 1].place == Returned(true)
    ensures trace[|trace| - 1].actions == CompleteWork(c.restartOnly)
  {
    var start := State(false, false, EntryStatus, []);
    trace := RunOn(c, [start]);
    assert trace[0] == trace[..1][0] == start;
    SuccessMeansCompleteWork(c, trace, |trace| - 1);
  }

  /** In every interleaving the marker wins exactly when a marker that is there is read. */
  lemma CancellationWinsExactly(c: Config)
    ensures (forall trace: seq<State> :: Behaviour(c, trace) ==> MarkerWins(trace)) <==> c.markerIsReadable
  {
    if c.markerIsReadable {
      forall trace: seq<State> | Behaviour(c, trace) ensures MarkerWins(trace) {
        forall check, later | 0 <= check <= later < |trace| && trace[check].cancelled && AtLastCheck(trace[check])
          ensures trace[later].actions == trace[check].actions && trace[later].place != Returned(true)
        {
          DoomedForever(c, trace, check, later);
        }
      }
    } else {
      var trace := MisreadMarkerIsIgnored(c);
    }
  }

  // ----- Nothing happens without a last check that reported clear -----

  ghost predicate Passed(trace: seq<State>, i: nat, call: Call) {
    exists k :: 0 <= k < i && ReportsClear(trace, k, call)
  }

  /** Where markers are read, a check that reported clear met no marker. */
  lemma PassedMeansUncancelled(c: Config, trace: seq<State>, k: nat, call: Call)
    requires Behaviour(c, trace) && c.markerIsReadable && ReportsClear(trace, k, call)
    ensures !trace[k].cancelled
  {
    assert Step(c, trace[k], trace[k + 1]);
  }

  predicate TouchesService(action: Action) {
    action.ServiceStop? || action.ServiceInstall? || action.ServiceStart?
  }

  ghost predicate ServiceTouched(actions: seq<Action>) {
    exists a <- actions :: TouchesService(a)
  }

  predicate InCall(place: Place, call: Call) {
    place.Publishing? && place.call == call
  }

  /** What the helper has done and where it stands, given the calls whose last check reported clear. */
  ghost predicate Cleared(restartOnly: bool, passed: set<Call>, s: State) {
    && (s.place == Act(NpmInstall) || NpmInstall in s.actions ==> BeforeInstall in passed && NpmView in s.actions)
    && (InCall(s.place, BeforeInstall) ==> NpmView in s.actions)
    && (s.place == Act(NpmRoot) || s.place == Act(NpmView) || InCall(s.place, BeforeInstall) || s.place == Act(NpmInstall)
        ==> !restartOnly)
    && (s.place.Verifying? || InCall(s.place, BeforeStop) ==> restartOnly || NpmInstall in s.actions)
    && ((s.place.Act? && TouchesService(s.place.action)) || s.place.Recovering? || ServiceTouched(s.actions) ==>
          BeforeStop in passed && (restartOnly || NpmInstall in s.actions))
    && (InCall(s.place, Final) ==> ServiceStart in s.actions)
    && (s.place == Returned(true) ==> Final in passed && ServiceStart in s.actions)
  }

  ghost function PassedCalls(trace: seq<State>, i: nat): set<Call> {
    set call: Call | Passed(trace, i, call)
  }

  function NowPassed(s: State, t: State): set<Call> {
    if AtLastCheck(s) && t.place == AfterCall(s.place.call) then {s.place.call} else {}
  }

  lemma MorePassed(trace: seq<State>, i: nat)
    requires i + 1 < |trace|
    ensures PassedCalls(trace, i) + NowPassed(trace[i], trace[i + 1]) <= PassedCalls(trace, i + 1)
  {
    forall call: Call | Passed(trace, i, call) || call in NowPassed(trace[i], trace[i + 1])
      ensures Passed(trace, i + 1, call)
    {
      if Passed(trace, i, call) {
        var k :| 0 <= k < i && ReportsClear(trace, k, call);
      } else {
        assert ReportsClear(trace, i, call);
      }
    }
  }

  lemma ActionAdded(actions: seq<Action>, action: Action)
    ensures forall a :: a in actions + [action] <==> a in actions || a == action
    ensures ServiceTouched(actions + [action]) <==> ServiceTouched(actions) || TouchesService(action)
  {
    assert forall a :: a in actions + [action] <==> a in actions || a == action;
    assert action in actions + [action];
  }

  /** A step is the Host's, leads to recording a failure, begins or ends an action, or is an uneventful advance. */
  lemma StepKinds(c: Config, s: State, t: State)
    requires Step(c, s, t)
    ensures
      || HostStep(s, t)
      || (t.actions == s.actions && Stopped(t))
      || (s.place.Act? && HelperStep(c, s, t))
      || (s.place.Recovering? && HelperStep(c, s, t))
      || (IsUneventful(s.place) && t == Advance(c, s))
  {
  }

  lemma FailureClears(c: Config, passed: set<Call>, s: State, t: State)
    requires Cleared(c.restartOnly, passed, s)
    requires t.actions == s.actions && (Stopped(t) || t.place == s.place)
    ensures Cleared(c.restartOnly, passed + NowPassed(s, t), t)
  {
    hide ServiceTouched;
  }

  lemma CallClears(c: Config, passed: set<Call>, s: State)
    requires Cleared(c.restartOnly, passed, s) && s.place.Publishing?
    ensures Cleared(c.restartOnly, passed + NowPassed(s, Advance(c, s)), Advance(c, s))
  {
    hide ServiceTouched;
  }

  lemma AdvanceClears(c: Config, passed: set<Call>, s: State)
    requires Cleared(c.restartOnly, passed, s) && IsUneventful(s.place) && !s.place.Publishing?
    ensures Cleared(c.restartOnly, passed, Advance(c, s))
  {
    hide ServiceTouched;
  }

  lemma ActionClears(c: Config, passed: set<Call>, s: State, t: State, action: Action)
    requires Cleared(c.restartOnly, passed, s) && HelperStep(c, s, t)
    requires s.place == Act(action) && !TouchesService(action)
    ensures Cleared(c.restartOnly, passed, t)
  {
    ActionAdded(s.actions, action);
    hide ServiceTouched;
  }

  lemma ServiceActionClears(c: Config, passed: set<Call>, s: State, t: State, action: Action)
    requires Cleared(c.restartOnly, passed, s) && HelperStep(c, s, t)
    requires s.place == Act(action) && TouchesService(action)
    ensures Cleared(c.restartOnly, passed, t)
  {
    ActionAdded(s.actions, action);
    hide ServiceTouched;
  }

  lemma RecoveryClears(c: Config, passed: set<Call>, s: State, t: State)
    requires Cleared(c.restartOnly, passed, s) && HelperStep(c, s, t) && s.place.Recovering?
    ensures Cleared(c.restartOnly, passed, t)
  {
    ActionAdded(s.actions, ServiceStart);
    hide ServiceTouched;
  }

  lemma StepClears(c: Config, passed: set<Call>, s: State, t: State)
    requires Cleared(c.restartOnly, passed, s) && Step(c, s, t)
    ensures Cleared(c.restartOnly, passed + NowPassed(s, t), t)
  {
    StepKinds(c, s, t);
    hide Cleared, Step, HelperStep, Advance;
    if t.actions == s.actions && (Stopped(t) || t.place == s.place) {
      FailureClears(c, passed, s, t);
    } else if s.place.Act? && TouchesService(s.place.action) {
      ServiceActionClears(c, passed, s, t, s.place.action);
    } else if s.place.Act? {
      ActionClears(c, passed, s, t, s.place.action);
    } else if s.place.Recovering? {
      RecoveryClears(c, passed, s, t);
    } else if s.place.Publishing? {
      CallClears(c, passed, s);
    } else {
      AdvanceClears(c, passed, s);
    }
  }

  lemma MoreIsCleared(restartOnly: bool, passed: set<Call>, more: set<Call>, s: State)
    requires Cleared(restartOnly, passed, s) && passed <= more
    ensures Cleared(restartOnly, more, s)
  {
  }

  lemma {:induction false} ClearedHolds(c: Config, trace: seq<State>, i: nat)
    requires Behaviour(c, trace) && i < |trace|
    ensures Cleared(c.restartOnly, PassedCalls(trace, i), trace[i])
  {
    if i > 0 {
      ClearedHolds(c, trace, i - 1);
      assert Step(c, trace[i - 1], trace[i - 1 + 1]);
      StepClears(c, PassedCalls(trace, i - 1), trace[i - 1], trace[i]);
      MorePassed(trace, i - 1);
      MoreIsCleared(c.restartOnly, PassedCalls(trace, i - 1) + NowPassed(trace[i - 1], trace[i]), PassedCalls(trace, i),
                    trace[i]);
    }
  }

  /** Whatever has been done was let through by a last check that reported clear: npm installs only after one, and
      only a release npm could see; the service is touched only after the later one, and unless this is a restart
      only after that installation; and success is returned only after the final one. */
  lemma OnlyClearedWorkIsDone(c: Config, trace: seq<State>, i: nat)
    requires Behaviour(c, trace) && i < |trace|
    ensures NpmInstall in trace[i].actions ==> Passed(trace, i, BeforeInstall) && NpmView in trace[i].actions
    ensures ServiceTouched(trace[i].actions) ==>
      Passed(trace, i, BeforeStop) && (c.restartOnly || NpmInstall in trace[i].actions)
    ensures trace[i].place == Returned(true) ==> Passed(trace, i, Final) && ServiceStart in trace[i].actions
  {
    ClearedHolds(c, trace, i);
  }

  ghost predicate PassedUncancelled(trace: seq<State>, i: nat, call: Call) {
    exists k :: 0 <= k < i && ReportsClear(trace, k, call) && !trace[k].cancelled
  }

  /** Where markers are read, the same work was let through by last checks that met no marker. */
  lemma OnlyUncancelledWorkIsDone(c: Config, trace: seq<State>, i: nat)
    requires Behaviour(c, trace) && i < |trace| && c.markerIsReadable
    ensures NpmInstall in trace[i].actions ==> PassedUncancelled(trace, i, BeforeInstall)
    ensures ServiceTouched(trace[i].actions) ==> PassedUncancelled(trace, i, BeforeStop)
    ensures trace[i].place == Returned(true) ==> PassedUncancelled(trace, i, Final)
  {
    hide Behaviour, ServiceTouched;
    OnlyClearedWorkIsDone(c, trace, i);
    forall call: Call | Passed(trace, i, call) ensures PassedUncancelled(trace, i, call) {
      var k :| 0 <= k < i && ReportsClear(trace, k, call);
      PassedMeansUncancelled(c, trace, k, call);
    }
  }
}
