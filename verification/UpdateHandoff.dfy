/** The handoff between the Launcher and the background Updater: two machines that meet in a status file and in the
    liveness of the Launcher's PID (crates/updater/src/main.rs:50-74 and 123-140,
    crates/launcher/src/active_update.rs:227-257 and 309-348). After the Updater is spawned it is the status file's
    only writer. */
module UpdateHandoff {
  import opened Processes
  import opened ProcessTable
  import opened Sequences

  datatype Phase = Prepared | WaitingForExit | Installing | Restarting | Succeeded | Failed

  /** The Launcher that starts the update; its PID is the request's wait PID and its executable the expected one.
      `liveIsSeen` says that a poll never takes a PID in use for free; a failing query of the process table does. */
  datatype Config = Config(launcher: Instance, executable: Instance -> string, liveIsSeen: bool)

  datatype Launcher =
    | Spawning
    | Transferring
    | Polling
    | CheckingChild
    | Ready
    | UnexpectedPhase
    | Erring
    | Ended

  datatype Updater =
    | NotStarted
    | CheckingExists
    | CheckingExecutable
    | PublishingWait
    | Waiting
    | PublishingInstall
    | StartingInstall
    | PublishingRestart
    | PublishingSuccess
    | PublishingFailure
    | Stopped

  /** `seen` is the process whose executable the Updater compared; `polledAt` the newest start of the wait PID when
      the Updater last found nobody there; `writes` every phase the Updater published. */
  datatype State = State(
    system: System,
    status: Phase,
    launcher: Launcher,
    updater: Updater,
    seen: Option<Instance>,
    polledAt: Option<nat>,
    writes: seq<Phase>,
    installed: bool)

  function Publish(s: State, phase: Phase, next: Updater): State {
    s.(status := phase, writes := s.writes + [phase], updater := next)
  }

  // ----- Steps -----

  ghost predicate EnvStep(s: State, t: State) {
    EnvironmentStep(s.system, t.system) && t == s.(system := t.system)
  }

  /** The Launcher's steps, while it lives. A read of the status file is one step; killing the Updater another. */
  ghost predicate LauncherStep(c: Config, s: State, t: State) {
    && IsLive(s.system, c.launcher)
    && match s.launcher
       case Spawning =>
         t == s.(launcher := Ended) || t == s.(launcher := Transferring, updater := CheckingExists)
       case Transferring => t == s.(launcher := Erring) || t == s.(launcher := Polling)
       case Polling =>
         || t == s.(launcher := Erring)
         || t == s.(launcher := match s.status
                                case WaitingForExit => Ready
                                case Prepared => CheckingChild
                                case Failed => Erring
                                case _ => UnexpectedPhase)
       case CheckingChild => t == s.(launcher := Erring) || (!s.updater.Stopped? && t == s.(launcher := Polling))
       case UnexpectedPhase => t == s.(launcher := Erring)
       case Erring => t == s.(launcher := Ended, updater := Stopped)
       case Ready => false
       case Ended => false
  }

  /** The Updater's steps. Every operation can fail, and a failure goes on to publish `failed`, if it can. */
  ghost predicate UpdaterStep(c: Config, s: State, t: State) {
    var pid := c.launcher.id;
    match s.updater
    case NotStarted => false
    case CheckingExists =>
      || t == s.(updater := Stopped)
      || t == s.(updater := PublishingFailure)
      || (pid in s.system.live && t == s.(updater := CheckingExecutable))
    case CheckingExecutable =>
      || t == s.(updater := PublishingFailure)
      || (pid in s.system.live
          && c.executable(Instance(pid, s.system.live[pid])) == c.executable(c.launcher)
          && t == s.(updater := PublishingWait, seen := Some(Instance(pid, s.system.live[pid]))))
    case PublishingWait =>
      t == s.(updater := PublishingFailure) || t == Publish(s, WaitingForExit, Waiting)
    case Waiting =>
      || t == s.(updater := PublishingFailure)
      || (pid in s.system.live && t == s)
      || ((pid !in s.system.live || !c.liveIsSeen)
          && t == s.(updater := PublishingInstall,
                     polledAt := Some(if pid in s.system.latest then s.system.latest[pid] else 0)))
    case PublishingInstall =>
      t == s.(updater := PublishingFailure) || t == Publish(s, Installing, StartingInstall)
    case StartingInstall =>
      t == s.(updater := PublishingFailure, installed := true) || t == s.(updater := PublishingRestart, installed := true)
    case PublishingRestart =>
      t == s.(updater := PublishingFailure) || t == Publish(s, Restarting, PublishingSuccess)
    case PublishingSuccess =>
      t == s.(updater := PublishingFailure) || t == Publish(s, Succeeded, Stopped)
    case PublishingFailure => t == s.(updater := Stopped) || t == Publish(s, Failed, Stopped)
    case Stopped => false
  }

  ghost predicate Step(c: Config, s: State, t: State) {
    EnvStep(s, t) || LauncherStep(c, s, t) || UpdaterStep(c, s, t)
  }

  /** A live Launcher about to start the Updater it has prepared. */
  ghost predicate Initial(c: Config, s: State) {
    && Consistent(s.system) && IsLive(s.system, c.launcher)
    && s.status == Prepared && s.launcher == Spawning && s.updater == NotStarted
    && s.seen.None? && s.polledAt.None? && s.writes == [] && !s.installed
  }

  ghost predicate Behaviour(c: Config, trace: seq<State>) {
    && trace != []
    && Initial(c, trace[0])
    && forall i :: 0 <= i < |trace| - 1 ==> Step(c, trace[i], trace[i + 1])
  }

  // ----- The invariant -----

  predicate PastWait(updater: Updater) {
    updater.PublishingInstall? || updater.StartingInstall? || updater.PublishingRestart? || updater.PublishingSuccess?
  }

  /** The phases a running Updater at this point has published. */
  function Expected(updater: Updater): seq<Phase> {
    match updater
    case Waiting => [WaitingForExit]
    case PublishingInstall => [WaitingForExit]
    case StartingInstall => [WaitingForExit, Installing]
    case PublishingRestart => [WaitingForExit, Installing]
    case PublishingSuccess => [WaitingForExit, Installing, Restarting]
    case _ => []
  }

  function Successes(): seq<Phase> {
    [WaitingForExit, Installing, Restarting, Succeeded]
  }

  /** Phases are published in order, and a failure is the last thing published. */
  ghost predicate Ordered(writes: seq<Phase>) {
    writes <= Successes() || (writes != [] && writes[|writes| - 1] == Failed && writes[..|writes| - 1] <= Successes())
  }

  /** What has been published fits what the machines are doing. */
  ghost predicate WritesFit(s: State) {
    && s.status == (if s.writes == [] then Prepared else s.writes[|s.writes| - 1])
    && Ordered(s.writes)
    && (!s.updater.Stopped? && !s.updater.PublishingFailure? ==> s.writes == Expected(s.updater))
    && (s.updater.PublishingFailure? ==> s.writes <= Successes())
    && (WaitingForExit in s.writes || s.updater.PublishingWait? ==> s.seen.Some?)
    && (PastWait(s.updater) || Installing in s.writes || s.installed ==> s.polledAt.Some?)
    && (s.polledAt.Some? ==> WaitingForExit in s.writes)
    && (s.launcher.Spawning? <==> s.updater.NotStarted? && !s.launcher.Ended?)
  }

  /** What the Launcher has concluded from the status file is right. */
  ghost predicate LauncherFits(s: State) {
    && s.launcher != UnexpectedPhase
    && (s.launcher.Ready? ==> WaitingForExit in s.writes)
  }

  /** What the Updater has learned about the wait PID is true. */
  ghost predicate KnowledgeFits(c: Config, system: System, seen: Option<Instance>, polledAt: Option<nat>) {
    && Consistent(system) && SeenEarlier(system, c.launcher)
    // The process seen is the Launcher itself as long as the Launcher lives.
    && (seen.Some? ==>
          && seen.value.id == c.launcher.id && SeenEarlier(system, seen.value)
          && c.executable(seen.value) == c.executable(c.launcher)
          && (IsLive(system, c.launcher) ==> seen.value == c.launcher))
    // Past the wait the Launcher is gone, and whoever holds its PID came later.
    && (polledAt.Some? ==>
          && Gone(system, c.launcher) && (seen.Some? ==> Gone(system, seen.value))
          && c.launcher.id in system.latest && polledAt.value <= system.latest[c.launcher.id]
          && c.launcher.startedAtMicros <= polledAt.value
          && (c.launcher.id in system.live ==> system.live[c.launcher.id] > polledAt.value))
  }

  ghost predicate Inv(c: Config, s: State) {
    WritesFit(s) && LauncherFits(s) && KnowledgeFits(c, s.system, s.seen, s.polledAt)
  }

  lemma EnvStepKeeps(c: Config, s: State, t: State)
    requires Inv(c, s) && EnvStep(s, t)
    ensures Inv(c, t)
  {
    GoneForGood(s.system, t.system, c.launcher);
    if s.seen.Some? {
      GoneForGood(s.system, t.system, s.seen.value);
    }
  }

  lemma LauncherLeavesRest(c: Config, s: State, t: State)
    requires LauncherStep(c, s, t)
    ensures t == s.(launcher := t.launcher, updater := t.updater)
    ensures || (t.updater == s.updater && !s.launcher.Spawning? && !t.launcher.Spawning?)
            || (t.updater == s.updater && s.launcher.Spawning? && t.launcher.Ended?)
            || (s.launcher.Spawning? && t.updater.CheckingExists? && t.launcher.Transferring?)
            || (t.updater.Stopped? && t.launcher.Ended?)
  {
  }

  lemma LauncherKeepsWrites(c: Config, s: State, t: State)
    requires WritesFit(s) && LauncherStep(c, s, t)
    ensures WritesFit(t)
  {
    LauncherLeavesRest(c, s, t);
    hide LauncherStep, Ordered, Successes;
  }

  lemma LauncherStepKeeps(c: Config, s: State, t: State)
    requires Inv(c, s) && LauncherStep(c, s, t)
    ensures Inv(c, t)
  {
    // The Launcher lives, so the Updater is not past its wait.
    assert s.polledAt.None?;
    if s.launcher.Polling? {
      assert s.status in [Prepared, WaitingForExit, Failed] by {
        StatusBeforeInstall(s);
      }
    }
  }

  lemma StatusBeforeInstall(s: State)
    requires Ordered(s.writes) && Installing !in s.writes
    requires s.status == (if s.writes == [] then Prepared else s.writes[|s.writes| - 1])
    ensures s.status == Prepared || s.status == WaitingForExit || s.status == Failed
    ensures s.status == WaitingForExit ==> WaitingForExit in s.writes
  {
    assert s.writes <= Successes() ==> forall k :: 0 <= k < |s.writes| ==> s.writes[k] == Successes()[k];
    assert |s.writes| > 1 ==> s.writes[1] in s.writes;
  }

  lemma PublishKeepsOrder(writes: seq<Phase>, phase: Phase)
    requires writes <= Successes()
    requires phase == Failed || writes + [phase] <= Successes()
    ensures Ordered(writes + [phase])
  {
    assert (writes + [phase])[..|writes|] == writes;
  }

  /** The phase a publishing Updater writes, and where it goes from there. */
  ghost predicate Publishes(updater: Updater, phase: Phase, next: Updater) {
    match updater
    case PublishingWait => phase == WaitingForExit && next == Waiting
    case PublishingInstall => phase == Installing && next == StartingInstall
    case PublishingRestart => phase == Restarting && next == PublishingSuccess
    case PublishingSuccess => phase == Succeeded && next == Stopped
    case PublishingFailure => phase == Failed && next == Stopped
    case _ => false
  }

  lemma NextInOrder(updater: Updater, phase: Phase, next: Updater)
    requires Publishes(updater, phase, next) && phase != Failed
    ensures Expected(updater) + [phase] <= Successes()
    ensures next != Stopped ==> Expected(updater) + [phase] == Expected(next)
  {
  }

  lemma PublishedWritesFit(s: State, t: State, phase: Phase, next: Updater)
    requires WritesFit(s) && Publishes(s.updater, phase, next) && t == Publish(s, phase, next)
    ensures WritesFit(t)
    ensures WaitingForExit in s.writes ==> WaitingForExit in t.writes
  {
    hide Ordered, Expected, Successes;
    assert s.writes <= Successes() by {
      ExpectedIsPrefix(s.updater);
    }
    if phase != Failed {
      NextInOrder(s.updater, phase, next);
    }
    PublishKeepsOrder(s.writes, phase);
    assert t.writes[|t.writes| - 1] == phase;
    assert WaitingForExit in t.writes <==> WaitingForExit in s.writes || phase == WaitingForExit;
    assert Installing in t.writes <==> Installing in s.writes || phase == Installing;
  }

  lemma QuietWritesFit(c: Config, s: State, t: State)
    requires WritesFit(s) && UpdaterStep(c, s, t) && t.writes == s.writes
    ensures WritesFit(t)
  {
    hide Ordered, IsLive;
    if t.updater.PublishingFailure? {
      ExpectedIsPrefix(s.updater);
    }
  }

  lemma QuietKnowledgeFits(c: Config, s: State, t: State)
    requires c.liveIsSeen
    requires Inv(c, s) && UpdaterStep(c, s, t) && t.writes == s.writes
    ensures KnowledgeFits(c, t.system, t.seen, t.polledAt)
  {
    hide Ordered;
    assert s.updater.CheckingExecutable? ==> s.writes == [] && s.polledAt.None?;
  }

  lemma ExpectedIsPrefix(updater: Updater)
    ensures Expected(updater) <= Successes()
  {
  }

  lemma UpdaterKeepsWrites(c: Config, s: State, t: State)
    requires WritesFit(s) && UpdaterStep(c, s, t)
    ensures WritesFit(t)
    ensures WaitingForExit in s.writes ==> WaitingForExit in t.writes
  {
    hide WritesFit;
    if t.writes == s.writes {
      QuietWritesFit(c, s, t);
    } else {
      PublishedWritesFit(s, t, t.status, t.updater);
    }
  }

  lemma UpdaterStepKeeps(c: Config, s: State, t: State)
    requires c.liveIsSeen && Inv(c, s) && UpdaterStep(c, s, t)
    ensures Inv(c, t)
  {
    UpdaterKeepsWrites(c, s, t);
    UpdaterLeavesRest(c, s, t);
    hide WritesFit;
    if t.writes == s.writes {
      QuietKnowledgeFits(c, s, t);
    }
  }

  lemma UpdaterLeavesRest(c: Config, s: State, t: State)
    requires UpdaterStep(c, s, t)
    ensures t.system == s.system && t.launcher == s.launcher
    ensures t.writes != s.writes ==> t.seen == s.seen && t.polledAt == s.polledAt
  {
  }

  /** What is published fits at every point of every run, whatever a poll reports. */
  lemma {:induction false} WritesHold(c: Config, trace: seq<State>, i: nat)
    requires Behaviour(c, trace) && i < |trace|
    ensures WritesFit(trace[i])
  {
    if i > 0 {
      WritesHold(c, trace, i - 1);
      assert Step(c, trace[i - 1], trace[i - 1 + 1]);
      hide WritesFit, UpdaterStep, LauncherStep;
      if EnvStep(trace[i - 1], trace[i]) {
        EnvironmentKeepsWrites(trace[i - 1], trace[i]);
      } else if LauncherStep(c, trace[i - 1], trace[i]) {
        LauncherKeepsWrites(c, trace[i - 1], trace[i]);
      } else {
        UpdaterKeepsWrites(c, trace[i - 1], trace[i]);
      }
    }
  }

  lemma EnvironmentKeepsWrites(s: State, t: State)
    requires WritesFit(s) && EnvStep(s, t)
    ensures WritesFit(t)
  {
  }

  lemma {:induction false} InvHolds(c: Config, trace: seq<State>, i: nat)
    requires Behaviour(c, trace) && c.liveIsSeen && i < |trace|
    ensures Inv(c, trace[i])
  {
    if i > 0 {
      InvHolds(c, trace, i - 1);
      assert Step(c, trace[i - 1], trace[i - 1 + 1]);
      hide Inv, UpdaterStep, LauncherStep;
      if EnvStep(trace[i - 1], trace[i]) {
        EnvStepKeeps(c, trace[i - 1], trace[i]);
      } else if LauncherStep(c, trace[i - 1], trace[i]) {
        LauncherStepKeeps(c, trace[i - 1], trace[i]);
      } else {
        UpdaterStepKeeps(c, trace[i - 1], trace[i]);
      }
    }
  }

  // ----- Safety of the handoff -----

  predicate StillPolling(launcher: Launcher) {
    launcher.Transferring? || launcher.Polling? || launcher.CheckingChild?
  }

  /** While the Launcher lives and has not seen the handoff through, the status file can only say `prepared`,
      `waiting-for-exit` or `failed`; the arm for any other phase is never reached. */
  lemma UnexpectedPhaseIsUnreachable(c: Config, trace: seq<State>, i: nat)
    requires Behaviour(c, trace) && c.liveIsSeen && i < |trace|
    ensures trace[i].launcher != UnexpectedPhase
    ensures IsLive(trace[i].system, c.launcher) && StillPolling(trace[i].launcher) ==>
      trace[i].status == Prepared || trace[i].status == WaitingForExit || trace[i].status == Failed
    ensures IsLive(trace[i].system, c.launcher) ==> !PastWait(trace[i].updater) && !trace[i].installed
  {
    InvHolds(c, trace, i);
    if IsLive(trace[i].system, c.launcher) {
      StatusBeforeInstall(trace[i]);
    }
  }

  /** An installation starts, or has started, only after a process with the Launcher's executable was seen alive at
      the wait PID, `waiting-for-exit` was published, and both that process and the Launcher were gone for good; a
      process at the wait PID by then started after the Updater's last look. */
  lemma InstallOnlyAfterExit(c: Config, trace: seq<State>, i: nat)
    requires Behaviour(c, trace) && c.liveIsSeen && i < |trace|
    requires trace[i].updater.StartingInstall? || trace[i].installed
    ensures var s := trace[i];
            && WaitingForExit in s.writes
            && s.seen.Some? && s.seen.value.id == c.launcher.id
            && c.executable(s.seen.value) == c.executable(c.launcher)
            && Gone(s.system, s.seen.value) && Gone(s.system, c.launcher)
            && s.polledAt.Some?
            && (c.launcher.id in s.system.live ==> s.system.live[c.launcher.id] > s.polledAt.value)
  {
    InvHolds(c, trace, i);
  }

  /** The Launcher reports success only once the Updater has taken its wait position, having looked at this very
      Launcher instance. */
  lemma ReadyMeansAcknowledged(c: Config, trace: seq<State>, i: nat)
    requires Behaviour(c, trace) && c.liveIsSeen && i < |trace|
    requires IsLive(trace[i].system, c.launcher) && trace[i].launcher.Ready?
    ensures WaitingForExit in trace[i].writes && trace[i].seen == Some(c.launcher)
  {
    InvHolds(c, trace, i);
  }

  /** Phases are published in order, each at most once, and `failed` ends the publication, whatever a poll reports. */
  lemma StatusIsOrdered(c: Config, trace: seq<State>, i: nat)
    requires Behaviour(c, trace) && i < |trace|
    ensures Ordered(trace[i].writes)
    ensures trace[i].status == if trace[i].writes == [] then Prepared else trace[i].writes[|trace[i].writes| - 1]
  {
    WritesHold(c, trace, i);
  }

  // ----- The handoff can complete -----

  /** From the announced wait: the Launcher sees it, exits, and the Updater installs and reports success. */
  lemma HandoffCompletes(c: Config) returns (trace: seq<State>)
    ensures trace != [] && Behaviour(c, trace)
    ensures var s := trace[|trace| - 1];
            && s.launcher == Ready && s.updater == Stopped && s.installed && s.status == Succeeded
            && s.writes == Successes() && c.launcher.id !in s.system.live
  {
    hide EnvStep;
    var s4;
    trace, s4 := ReachAnnouncedWait(c);
    hide Behaviour;
    var s5 := s4.(launcher := Polling);
    assert LauncherStep(c, s4, s5);
    trace := Extended(c, trace, s5);
    var s6 := s5.(launcher := Ready);
    assert LauncherStep(c, s5, s6);
    trace := Extended(c, trace, s6);
    var s7 := s6.(system := System(map[], s6.system.latest));
    LauncherCanExit(c, s6, s7);
    trace := Extended(c, trace, s7);
    var s8 := s7.(updater := PublishingInstall, polledAt := Some(c.launcher.startedAtMicros));
    assert UpdaterStep(c, s7, s8);
    trace := Extended(c, trace, s8);
    trace := InstallationCompletes(c, trace, s8);
  }

  lemma LauncherCanExit(c: Config, s: State, t: State)
    requires s.system == System(map[c.launcher.id := c.launcher.startedAtMicros], s.system.latest)
    requires t == s.(system := System(map[], s.system.latest))
    ensures Step(c, s, t)
  {
    assert s.system.live - {c.launcher.id} == map[];
    assert Exits(s.system, c.launcher.id, t.system);
    assert EnvStep(s, t);
  }

  lemma InstallationCompletes(c: Config, trace: seq<State>, s: State) returns (longer: seq<State>)
    requires Behaviour(c, trace) && trace[|trace| - 1] == s
    requires s.updater == PublishingInstall && s.writes == [WaitingForExit]
    ensures longer != [] && Behaviour(c, longer)
    ensures longer[|longer| - 1]
         == s.(updater := Stopped, status := Succeeded, writes := Successes(), installed := true)
  {
    hide Behaviour;
    var t1 := Publish(s, Installing, StartingInstall);
    assert UpdaterStep(c, s, t1);
    longer := Extended(c, trace, t1);
    var t2 := t1.(updater := PublishingRestart, installed := true);
    assert UpdaterStep(c, t1, t2);
    longer := Extended(c, longer, t2);
    var t3 := Publish(t2, Restarting, PublishingSuccess);
    assert UpdaterStep(c, t2, t3);
    longer := Extended(c, longer, t3);
    var t4 := Publish(t3, Succeeded, Stopped);
    assert UpdaterStep(c, t3, t4);
    longer := Extended(c, longer, t4);
  }

  // ----- A poll that misses the Launcher -----

  /** The installation waits for the Launcher's end, and the Launcher never meets a phase it does not expect. */
  ghost predicate HandoffIsSafe(c: Config, s: State) {
    (s.updater.StartingInstall? || s.installed ==> Gone(s.system, c.launcher)) && s.launcher != UnexpectedPhase
  }

  /** If a poll can take the living Launcher for gone, the installation starts beside it, and the Launcher reads a phase
      it does not expect. */
  lemma MissedLauncherIsOverrun(c: Config) returns (trace: seq<State>)
    requires !c.liveIsSeen
    ensures trace != [] && Behaviour(c, trace)
    ensures var s := trace[|trace| - 1];
            IsLive(s.system, c.launcher) && s.updater.StartingInstall? && s.launcher == UnexpectedPhase
  {
    var s3;
    trace, s3 := ReachAnnouncedWait(c);
    hide Behaviour;
    var s4 := s3.(updater := PublishingInstall, polledAt := Some(c.launcher.startedAtMicros));
    assert UpdaterStep(c, s3, s4);
    trace := Extended(c, trace, s4);
    var s5 := Publish(s4, Installing, StartingInstall);
    assert UpdaterStep(c, s4, s5);
    trace := Extended(c, trace, s5);
    var s6 := s5.(launcher := Polling);
    assert LauncherStep(c, s5, s6);
    trace := Extended(c, trace, s6);
    var s7 := s6.(launcher := UnexpectedPhase);
    assert LauncherStep(c, s6, s7);
    trace := Extended(c, trace, s7);
  }

  /** In every interleaving the handoff is safe exactly when a poll never takes the PID in use for free. */
  lemma HandoffIsSafeExactly(c: Config)
    ensures (forall trace: seq<State>, i: nat :: Behaviour(c, trace) && i < |trace| ==> HandoffIsSafe(c, trace[i]))
            <==> c.liveIsSeen
  {
    hide Behaviour;
    if c.liveIsSeen {
      forall trace: seq<State>, i: nat | Behaviour(c, trace) && i < |trace| ensures HandoffIsSafe(c, trace[i]) {
        UnexpectedPhaseIsUnreachable(c, trace, i);
        if trace[i].updater.StartingInstall? || trace[i].installed {
          InstallOnlyAfterExit(c, trace, i);
        }
      }
    } else {
      var trace := MissedLauncherIsOverrun(c);
      var i: nat := |trace| - 1;
      assert Behaviour(c, trace) && i < |trace| && !HandoffIsSafe(c, trace[i]);
    }
  }

  // ----- The wait PID can be taken over after the last look -----

  function Handing(system: System, launcher: Launcher, updater: Updater): State {
    State(system, Prepared, launcher, updater, None, None, [], false)
  }

  /** The Updater has seen the Launcher and announced that it waits. */
  function AnnouncedWait(c: Config): State {
    var running := map[c.launcher.id := c.launcher.startedAtMicros];
    var s := Handing(System(running, running), Transferring, PublishingWait);
    Publish(s.(seen := Some(c.launcher)), WaitingForExit, Waiting)
  }

  lemma ReachAnnouncedWait(c: Config) returns (trace: seq<State>, last: State)
    ensures Behaviour(c, trace) && trace[|trace| - 1] == last == AnnouncedWait(c)
  {
    var table := map[c.launcher.id := c.launcher.startedAtMicros];
    var running := System(table, table);
    var s0 := Handing(running, Spawning, NotStarted);
    var s1 := Handing(running, Transferring, CheckingExists);
    var s2 := s1.(updater := CheckingExecutable);
    var s3 := s2.(updater := PublishingWait, seen := Some(c.launcher));
    last := AnnouncedWait(c);
    trace := [s0];
    assert Behaviour(c, trace);
    hide Behaviour;
    assert LauncherStep(c, s0, s1);
    trace := Extended(c, trace, s1);
    assert UpdaterStep(c, s1, s2);
    trace := Extended(c, trace, s2);
    assert c.launcher == Instance(c.launcher.id, running.live[c.launcher.id]);
    assert UpdaterStep(c, s2, s3);
    trace := Extended(c, trace, s3);
    assert UpdaterStep(c, s3, last);
    trace := Extended(c, trace, last);
  }

  /** The process tables from one point of a run to another. */
  function Tables(trace: seq<State>, from: nat, to: nat): (systems: seq<System>)
    requires from <= to < |trace|
    ensures |systems| == to - from + 1
    ensures forall i :: 0 <= i < |systems| ==> systems[i] == trace[from + i].system
  {
    seq(to - from + 1, i requires 0 <= i <= to - from => trace[from + i].system)
  }

  lemma PollFoundNobody(c: Config, trace: seq<State>, poll: nat)
    requires Behaviour(c, trace) && c.liveIsSeen && poll + 1 < |trace|
    requires trace[poll].updater.Waiting? && trace[poll + 1].updater.PublishingInstall?
    ensures c.launcher.id !in trace[poll].system.live
  {
    hide EnvironmentStep;
    assert Step(c, trace[poll], trace[poll + 1]);
  }

  /** "Nobody holds the wait PID during the installation" depends on what happens after the last look: where the poll in
      the step after `poll` found nobody, the PID is in use at any later point exactly when some process started there in
      between and none exited there after that. */
  lemma WaitPidInUseExactly(c: Config, trace: seq<State>, poll: nat, i: nat)
    requires Behaviour(c, trace) && c.liveIsSeen && poll < i < |trace|
    requires trace[poll].updater.Waiting? && trace[poll + 1].updater.PublishingInstall?
    ensures c.launcher.id in trace[i].system.live
            <==> exists j: nat :: TakenForGood(Tables(trace, poll, i), c.launcher.id, j)
  {
    hide *;
    PollFoundNobody(c, trace, poll);
    InUseExactly(Tables(trace, poll, i), c.launcher.id);
  }

  /** Such a start does happen: the Launcher exits, the Updater looks once more and finds nobody, and then an unrelated
      process receives the PID before the installation starts. */
  lemma WaitPidCanBeReused(c: Config) returns (trace: seq<State>)
    ensures Behaviour(c, trace)
    ensures var s := trace[|trace| - 1];
            && s.updater.StartingInstall? && c.launcher.id in s.system.live && s.polledAt.Some?
            && s.system.live[c.launcher.id] > s.polledAt.value
  {
    hide LauncherStep;
    var s4;
    trace, s4 := ReachAnnouncedWait(c);
    hide Behaviour;
    var pid, started := c.launcher.id, c.launcher.startedAtMicros;
    var gone := System(map[], map[pid := started]);
    var reused := System(map[pid := started + 1], map[pid := started + 1]);
    assert Exits(s4.system, pid, gone) && Starts(gone, pid, started + 1, reused);
    var s5 := s4.(system := gone);
    var s6 := s5.(updater := PublishingInstall, polledAt := Some(started));
    var s7 := Publish(s6, Installing, StartingInstall);
    var s8 := s7.(system := reused);
    assert EnvStep(s4, s5);
    trace := Extended(c, trace, s5);
    assert UpdaterStep(c, s5, s6);
    trace := Extended(c, trace, s6);
    assert UpdaterStep(c, s6, s7);
    trace := Extended(c, trace, s7);
    assert EnvStep(s7, s8);
    trace := Extended(c, trace, s8);
  }

  lemma Extended(c: Config, trace: seq<State>, t: State) returns (longer: seq<State>)
    requires Behaviour(c, trace) && Step(c, trace[|trace| - 1], t)
    ensures longer == trace + [t] && Behaviour(c, longer)
  {
    longer := trace + [t];
    forall i | 0 <= i < |longer| - 1 ensures Step(c, longer[i], longer[i + 1]) {
      assert longer[i] == trace[i];
      assert i + 1 < |trace| ==> longer[i + 1] == trace[i + 1];
    }
  }
}
