/** When a launch becomes a session, when it goes on waiting, and which failure ends it, in terms of the frames alone
    (crates/platform/src/desktop_launch.rs:519-573 and 782-872). */
module LaunchDecisions {
  import opened Processes
  import opened Sequences
  import opened DesktopRoots
  import opened DesktopLaunch
  import ObservedTree

  // ----- What the frames say -----

  /** Every scan lists a PID once. */
  ghost predicate Sound(frames: seq<LaunchFrame>) {
    forall frame <- frames :: frame.Scan? ==> DistinctIds(frame.snapshots)
  }

  /** The frame shows the launcher alive and this process below it. */
  ghost predicate BelowIn(launcher: ProcessSnapshot, frame: LaunchFrame, process: ProcessSnapshot) {
    && ShowsLauncher(launcher, frame)
    && process in frame.snapshots && process.id != launcher.id
    && Descends({launcher.id}, frame.snapshots, process)
  }

  ghost predicate PidBelowIn(launcher: ProcessSnapshot, frame: LaunchFrame, pid: nat) {
    exists process <- (if frame.Scan? then frame.snapshots else []) :: process.id == pid && BelowIn(launcher, frame, process)
  }

  ghost predicate InstanceBelowIn(launcher: ProcessSnapshot, frame: LaunchFrame, who: ProcessSnapshot) {
    exists process <- (if frame.Scan? then frame.snapshots else []) ::
      SameProcessInstance(process, who) && BelowIn(launcher, frame, process)
  }

  /** The instance was seen below the living launcher in frame `k`, and no other instance with its PID was since. */
  ghost predicate LatestAt(launcher: ProcessSnapshot, frames: seq<LaunchFrame>, who: ProcessSnapshot, k: nat) {
    && k < |frames| && InstanceBelowIn(launcher, frames[k], who)
    && forall j :: k < j < |frames| && PidBelowIn(launcher, frames[j], who.id) ==> InstanceBelowIn(launcher, frames[j], who)
  }

  ghost predicate OnceBelow(launcher: ProcessSnapshot, frames: seq<LaunchFrame>, who: ProcessSnapshot) {
    exists k: nat :: LatestAt(launcher, frames, who, k)
  }

  ghost predicate AnyoneBelow(launcher: ProcessSnapshot, frames: seq<LaunchFrame>) {
    exists k :: 0 <= k < |frames| && SomeoneBelowIn(launcher, frames[k])
  }

  ghost predicate SomeoneBelowIn(launcher: ProcessSnapshot, frame: LaunchFrame) {
    exists process <- (if frame.Scan? then frame.snapshots else []) :: BelowIn(launcher, frame, process)
  }

  /** The root belongs to this launch: it is in the launcher's group, no older, and the launcher instance itself or an
      instance once seen below it. */
  ghost predicate IsOurs(launcher: ProcessSnapshot, frames: seq<LaunchFrame>, root: ProcessSnapshot) {
    && root.processGroupId == launcher.processGroupId
    && root.startedAtMicros >= launcher.startedAtMicros
    && (SameProcessInstance(root, launcher) || OnceBelow(launcher, frames, root))
  }

  /** What the loop must decide in a frame, after the frames `before` in which it waited. */
  ghost function Decision(
    launcher: ProcessSnapshot, desktopExecutable: string, before: seq<LaunchFrame>, frame: LaunchFrame): Verdict
  {
    if frame.ScanFailed? then Failed(ScanUnavailable)
    else if launcher.id in Ids(frame.snapshots) && !ObservedTree.HasInstance(frame.snapshots, launcher) then
      Failed(LauncherReused)
    else if launcher.id !in Ids(frame.snapshots) && !AnyoneBelow(launcher, before) then Failed(LauncherExited)
    else
      var roots := DesktopRootSnapshots(desktopExecutable, frame.snapshots);
      var now := before + [frame];
      if exists i, j :: 0 <= i < j < |roots| && IsOurs(launcher, now, roots[i]) && IsOurs(launcher, now, roots[j]) then
        Failed(MultipleRoots)
      else if exists root <- roots :: !IsOurs(launcher, now, root) then Failed(UnmanagedDesktopConflict)
      else if roots != [] then Launched(roots[0])
      else if frame.timedOut then Failed(TimedOut)
      else KeepWaiting
  }

  // ----- What the loop remembers -----

  /** The remembered descendants are the instances once seen below the launcher. */
  ghost predicate Recalls(launcher: ProcessSnapshot, frames: seq<LaunchFrame>, st: LaunchState) {
    && DistinctIds(st.descendants)
    && (forall who: ProcessSnapshot :: ObservedTree.HasInstance(st.descendants, who) <==> OnceBelow(launcher, frames, who))
    && (st.descendants == [] <==> !AnyoneBelow(launcher, frames))
  }

  lemma FoundAreBelow(launcher: ProcessSnapshot, frame: LaunchFrame)
    requires frame.Scan? && DistinctIds(frame.snapshots) && ShowsLauncher(launcher, frame)
    ensures var found := Closure({launcher.id}, frame.snapshots);
            && DistinctIds(found)
            && (forall p :: p in found <==> BelowIn(launcher, frame, p))
            && (forall who :: ObservedTree.HasInstance(found, who) <==> InstanceBelowIn(launcher, frame, who))
            && (forall pid :: pid in Ids(found) <==> PidBelowIn(launcher, frame, pid))
  {
    ClosureExact({launcher.id}, frame.snapshots);
    ClosureIdsExact({launcher.id}, frame.snapshots);
  }

  lemma OnceBelowNow(launcher: ProcessSnapshot, frames: seq<LaunchFrame>, frame: LaunchFrame, who: ProcessSnapshot)
    ensures OnceBelow(launcher, frames + [frame], who) <==>
              || InstanceBelowIn(launcher, frame, who)
              || (OnceBelow(launcher, frames, who) && !PidBelowIn(launcher, frame, who.id))
  {
    hide InstanceBelowIn, PidBelowIn;
    var now := frames + [frame];
    assert now[|frames|] == frame;
    assert forall i :: 0 <= i < |frames| ==> now[i] == frames[i];
    if InstanceBelowIn(launcher, frame, who) {
      assert LatestAt(launcher, now, who, |frames|);
    }
    if k: nat :| LatestAt(launcher, frames, who, k) && !PidBelowIn(launcher, frame, who.id) {
      assert LatestAt(launcher, now, who, k);
    }
    if k: nat :| LatestAt(launcher, now, who, k) {
      if k < |frames| {
        assert LatestAt(launcher, frames, who, k);
        assert PidBelowIn(launcher, now[|frames|], who.id) ==> InstanceBelowIn(launcher, now[|frames|], who);
      }
    }
  }

  lemma AnyoneBelowNow(launcher: ProcessSnapshot, frames: seq<LaunchFrame>, frame: LaunchFrame)
    ensures AnyoneBelow(launcher, frames + [frame]) <==> AnyoneBelow(launcher, frames) || SomeoneBelowIn(launcher, frame)
  {
    hide SomeoneBelowIn;
    var now := frames + [frame];
    assert now[|frames|] == frame;
    assert forall i :: 0 <= i < |frames| ==> now[i] == frames[i];
  }

  lemma NobodyBelowUnshown(launcher: ProcessSnapshot, frame: LaunchFrame)
    requires !ShowsLauncher(launcher, frame)
    ensures forall who :: !InstanceBelowIn(launcher, frame, who)
    ensures forall pid :: !PidBelowIn(launcher, frame, pid)
    ensures !SomeoneBelowIn(launcher, frame)
  {
  }

  /** Remembering what was found: its instances come in, and take the place of others with their PIDs. */
  lemma RememberInstances(known: seq<ProcessSnapshot>, found: seq<ProcessSnapshot>, who: ProcessSnapshot)
    requires DistinctIds(known) && DistinctIds(found)
    ensures ObservedTree.HasInstance(Remember(known, found), who) <==>
              || ObservedTree.HasInstance(found, who)
              || (ObservedTree.HasInstance(known, who) && who.id !in Ids(found))
  {
    RememberFacts(known, found);
    hide Remember, DistinctIds;
    var all := Remember(known, found);
    if p :| p in all && SameProcessInstance(p, who) {
      assert p in found || (p in known && p.id !in Ids(found));
    }
    if p :| p in found && SameProcessInstance(p, who) {
      assert p in all;
    }
    if ObservedTree.HasInstance(known, who) && who.id !in Ids(found) {
      var p :| p in known && SameProcessInstance(p, who);
      assert p in all;
    }
  }

  lemma RecallsShown(launcher: ProcessSnapshot, frames: seq<LaunchFrame>, st: LaunchState, frame: LaunchFrame, next: LaunchState)
    requires Recalls(launcher, frames, st) && frame.Scan? && DistinctIds(frame.snapshots) && ShowsLauncher(launcher, frame)
    requires next.descendants == Remember(st.descendants, Closure({launcher.id}, frame.snapshots))
    ensures Recalls(launcher, frames + [frame], next)
  {
    var found := Closure({launcher.id}, frame.snapshots);
    FoundAreBelow(launcher, frame);
    RememberFacts(st.descendants, found);
    AnyoneBelowNow(launcher, frames, frame);
    hide Remember, Closure, DistinctIds, OnceBelow, AnyoneBelow, InstanceBelowIn, PidBelowIn, BelowIn;
    forall who: ProcessSnapshot
      ensures ObservedTree.HasInstance(next.descendants, who) <==> OnceBelow(launcher, frames + [frame], who)
    {
      RememberInstances(st.descendants, found, who);
      OnceBelowNow(launcher, frames, frame, who);
    }
    EmptyMeansNobody(launcher, frame, found);
    EmptyIds(next.descendants);
    EmptyIds(st.descendants);
    EmptyIds(found);
  }

  lemma EmptyIds(processes: seq<ProcessSnapshot>)
    ensures processes == [] <==> Ids(processes) == {}
  {
    assert processes != [] ==> processes[0].id in Ids(processes);
  }

  lemma EmptyMeansNobody(launcher: ProcessSnapshot, frame: LaunchFrame, found: seq<ProcessSnapshot>)
    requires frame.Scan? && forall p :: p in found <==> BelowIn(launcher, frame, p)
    ensures found == [] <==> !SomeoneBelowIn(launcher, frame)
  {
    if found != [] {
      assert BelowIn(launcher, frame, found[0]);
    }
  }

  lemma RecallsUnshown(launcher: ProcessSnapshot, frames: seq<LaunchFrame>, st: LaunchState, frame: LaunchFrame, next: LaunchState)
    requires Recalls(launcher, frames, st) && !ShowsLauncher(launcher, frame) && next.descendants == st.descendants
    ensures Recalls(launcher, frames + [frame], next)
  {
    NobodyBelowUnshown(launcher, frame);
    AnyoneBelowNow(launcher, frames, frame);
    hide OnceBelow, AnyoneBelow, InstanceBelowIn, PidBelowIn, SomeoneBelowIn, DistinctIds;
    forall who: ProcessSnapshot
      ensures ObservedTree.HasInstance(next.descendants, who) <==> OnceBelow(launcher, frames + [frame], who)
    {
      OnceBelowNow(launcher, frames, frame, who);
    }
  }

  lemma DescendantsNow(launcher: ProcessSnapshot, desktopExecutable: string, st: LaunchState, frame: LaunchFrame)
    ensures var next := LaunchStep(launcher, desktopExecutable, st, frame).0;
            next.descendants == if ShowsLauncher(launcher, frame) then
                                  Remember(st.descendants, Closure({launcher.id}, frame.snapshots))
                                else st.descendants
  {
    hide SelectManagedDesktopRoot, DesktopRootSnapshots, Closure, Remember;
  }

  lemma StepRecalls(
    launcher: ProcessSnapshot, desktopExecutable: string, frames: seq<LaunchFrame>, st: LaunchState, frame: LaunchFrame)
    requires Recalls(launcher, frames, st) && (frame.Scan? ==> DistinctIds(frame.snapshots))
    ensures Recalls(launcher, frames + [frame], LaunchStep(launcher, desktopExecutable, st, frame).0)
  {
    hide LaunchStep, Recalls;
    DescendantsNow(launcher, desktopExecutable, st, frame);
    var next := LaunchStep(launcher, desktopExecutable, st, frame).0;
    if ShowsLauncher(launcher, frame) {
      RecallsShown(launcher, frames, st, frame, next);
    } else {
      RecallsUnshown(launcher, frames, st, frame, next);
    }
  }

  // ----- The selection among the roots -----

  lemma {:induction false} SelectCounts<T>(s: seq<T>, p: T -> bool)
    ensures |Select(s, p)| > 0 <==> exists i :: 0 <= i < |s| && p(s[i])
    ensures |Select(s, p)| > 1 <==> exists i, j :: 0 <= i < j < |s| && p(s[i]) && p(s[j])
  {
    if s != [] {
      var rest := s[1..];
      SelectCounts(rest, p);
      assert forall i :: 0 <= i < |rest| ==> rest[i] == s[i + 1];
      if i, j :| 0 <= i < j < |s| && p(s[i]) && p(s[j]) {
        assert p(rest[j - 1]);
        if i > 0 {
          assert p(rest[i - 1]) && p(rest[j - 1]);
        }
      }
      if i, j :| 0 <= i < j < |rest| && p(rest[i]) && p(rest[j]) {
        assert p(s[i + 1]) && p(s[j + 1]);
      }
      if i :| 0 <= i < |rest| && p(rest[i]) {
        assert p(s[i + 1]);
      }
    }
  }

  /** The selection in terms of which roots are managed. */
  lemma SelectionDecides(launcher: ProcessSnapshot, descendants: seq<ProcessSnapshot>, roots: seq<ProcessSnapshot>)
    ensures var managed := Managed(launcher, descendants);
            SelectManagedDesktopRoot(launcher, descendants, roots)
            == if exists i, j :: 0 <= i < j < |roots| && managed(roots[i]) && managed(roots[j]) then Rejected(MultipleRoots)
               else if exists root <- roots :: !managed(root) then Rejected(UnmanagedDesktopConflict)
               else if roots == [] then Selected(None)
               else Selected(Some(roots[0]))
  {
    var managed := Managed(launcher, descendants);
    SelectCounts(roots, managed);
    SelectLength(roots, managed);
  }

  lemma ManagedAreOurs(launcher: ProcessSnapshot, frames: seq<LaunchFrame>, st: LaunchState, root: ProcessSnapshot)
    requires Recalls(launcher, frames, st)
    ensures Managed(launcher, st.descendants)(root) <==> IsOurs(launcher, frames, root)
  {
    hide OnceBelow;
    if d :| d in st.descendants && SameProcessInstance(root, d) {
      assert SameProcessInstance(d, root);
      assert ObservedTree.HasInstance(st.descendants, root);
    }
    if ObservedTree.HasInstance(st.descendants, root) {
      var d :| d in st.descendants && SameProcessInstance(d, root);
      assert SameProcessInstance(root, d);
    }
  }

  // ----- The loop decides as the frames say -----

  lemma LauncherIsShown(launcher: ProcessSnapshot, frame: LaunchFrame)
    requires frame.Scan? && DistinctIds(frame.snapshots)
    ensures var current := ObservedTree.FindId(frame.snapshots, launcher.id);
            && (current.Some? <==> launcher.id in Ids(frame.snapshots))
            && (current.Some? && SameProcessInstance(launcher, current.value)
                <==> ObservedTree.HasInstance(frame.snapshots, launcher))
  {
    CurrentTells(launcher, frame.snapshots);
    var current := ObservedTree.FindId(frame.snapshots, launcher.id);
    assert current.Some? ==> current.value.id in Ids(frame.snapshots);
  }

  lemma SelectionByFrames(
    launcher: ProcessSnapshot, now: seq<LaunchFrame>, st: LaunchState, roots: seq<ProcessSnapshot>)
    requires Recalls(launcher, now, st)
    ensures SelectManagedDesktopRoot(launcher, st.descendants, roots)
         == if exists i, j :: 0 <= i < j < |roots| && IsOurs(launcher, now, roots[i]) && IsOurs(launcher, now, roots[j]) then
              Rejected(MultipleRoots)
            else if exists root <- roots :: !IsOurs(launcher, now, root) then Rejected(UnmanagedDesktopConflict)
            else if roots == [] then Selected(None)
            else Selected(Some(roots[0]))
  {
    hide IsOurs, Managed, Recalls, SelectManagedDesktopRoot;
    forall root ensures Managed(launcher, st.descendants)(root) <==> IsOurs(launcher, now, root) {
      ManagedAreOurs(launcher, now, st, root);
    }
    SelectionDecides(launcher, st.descendants, roots);
  }

  lemma RecallsNobody(launcher: ProcessSnapshot, frames: seq<LaunchFrame>, st: LaunchState)
    requires Recalls(launcher, frames, st)
    ensures st.descendants == [] <==> !AnyoneBelow(launcher, frames)
  {
  }

  lemma StepDecides(
    launcher: ProcessSnapshot, desktopExecutable: string, frames: seq<LaunchFrame>, st: LaunchState, frame: LaunchFrame)
    requires Recalls(launcher, frames, st) && (frame.Scan? ==> DistinctIds(frame.snapshots))
    ensures LaunchStep(launcher, desktopExecutable, st, frame).1 == Decision(launcher, desktopExecutable, frames, frame)
  {
    if frame.Scan? {
      hide LaunchStep, IsOurs, Recalls, AnyoneBelow, DesktopRootSnapshots, DistinctIds, SelectManagedDesktopRoot, Ids;
      hide ObservedTree.FindId, ObservedTree.HasInstance;
      var next := LaunchStep(launcher, desktopExecutable, st, frame).0;
      LauncherIsShown(launcher, frame);
      RecallsNobody(launcher, frames, st);
      StepRecalls(launcher, desktopExecutable, frames, st, frame);
      SelectionByFrames(launcher, frames + [frame], next, DesktopRootSnapshots(desktopExecutable, frame.snapshots));
      StepSelects(launcher, desktopExecutable, st, frame);
    } else {
      hide DesktopRootSnapshots, SelectManagedDesktopRoot;
    }
  }

  /** The verdict of a step, given what it remembers. */
  lemma StepSelects(launcher: ProcessSnapshot, desktopExecutable: string, st: LaunchState, frame: LaunchFrame)
    requires frame.Scan?
    ensures var (next, verdict) := LaunchStep(launcher, desktopExecutable, st, frame);
            var current := ObservedTree.FindId(frame.snapshots, launcher.id);
            var roots := DesktopRootSnapshots(desktopExecutable, frame.snapshots);
            var selection := SelectManagedDesktopRoot(launcher, next.descendants, roots);
            verdict == if current.Some? && !SameProcessInstance(launcher, current.value) then Failed(LauncherReused)
                       else if current.None? && st.descendants == [] then Failed(LauncherExited)
                       else if selection.Rejected? then Failed(selection.error)
                       else if selection.root.Some? then Launched(selection.root.value)
                       else if frame.timedOut then Failed(TimedOut) else KeepWaiting
  {
    hide SelectManagedDesktopRoot, DesktopRootSnapshots, Closure, Remember;
  }

  /** The outcome of a launch, read off the frames: the first frame that does not decide to wait. */
  ghost predicate DecidedBy(
    launcher: ProcessSnapshot, desktopExecutable: string, frames: seq<LaunchFrame>, outcome: LaunchOutcome)
  {
    var n := if outcome.Waiting? then |frames| else outcome.frames - 1;
    && 0 <= n <= |frames|
    && (forall k :: 0 <= k < n ==> Decision(launcher, desktopExecutable, frames[..k], frames[k]).KeepWaiting?)
    && (!outcome.Waiting? ==>
          && n < |frames|
          && Decision(launcher, desktopExecutable, frames[..n], frames[n])
             == if outcome.Session? then Launched(outcome.root) else Failed(outcome.error))
  }

  lemma {:induction false} LaunchDecidesFrom(
    launcher: ProcessSnapshot, desktopExecutable: string, frames: seq<LaunchFrame>, st: LaunchState, looked: nat)
    requires Sound(frames) && looked <= |frames| && Recalls(launcher, frames[..looked], st)
    requires forall k :: 0 <= k < looked ==> Decision(launcher, desktopExecutable, frames[..k], frames[k]).KeepWaiting?
    ensures DecidedBy(launcher, desktopExecutable, frames, Launch(launcher, desktopExecutable, st, frames[looked..], looked))
    decreases |frames| - looked
  {
    hide LaunchStep, Decision, Recalls;
    if looked < |frames| {
      var frame := frames[looked];
      var (next, verdict) := LaunchStep(launcher, desktopExecutable, st, frame);
      assert frame in frames;
      StepDecides(launcher, desktopExecutable, frames[..looked], st, frame);
      StepRecalls(launcher, desktopExecutable, frames[..looked], st, frame);
      assert frames[..looked] + [frame] == frames[..looked + 1];
      assert frames[looked..][0] == frame && frames[looked..][1..] == frames[looked + 1..];
      if verdict.KeepWaiting? {
        LaunchDecidesFrom(launcher, desktopExecutable, frames, next, looked + 1);
      }
    }
  }

  /** For every launch and every run of frames: the loop goes on waiting, returns a session, or reports a failure
      exactly as the frames decide. */
  lemma LaunchDecides(launcher: ProcessSnapshot, desktopExecutable: string, frames: seq<LaunchFrame>)
    requires Sound(frames)
    ensures DecidedBy(launcher, desktopExecutable, frames,
                      Launch(launcher, desktopExecutable, LaunchState([launcher], []), frames, 0))
  {
    var st := LaunchState([launcher], []);
    assert Recalls(launcher, [], st);
    assert frames[..0] == [] && frames[0..] == frames;
    LaunchDecidesFrom(launcher, desktopExecutable, frames, st, 0);
  }

  lemma DecidedAt(
    launcher: ProcessSnapshot, desktopExecutable: string, frames: seq<LaunchFrame>, n: nat, outcome: LaunchOutcome)
    requires DecidedBy(launcher, desktopExecutable, frames, outcome) && n < |frames|
    requires forall k :: 0 <= k < n ==> Decision(launcher, desktopExecutable, frames[..k], frames[k]).KeepWaiting?
    requires !Decision(launcher, desktopExecutable, frames[..n], frames[n]).KeepWaiting?
    ensures !outcome.Waiting? && outcome.frames == n + 1
    ensures Decision(launcher, desktopExecutable, frames[..n], frames[n])
         == if outcome.Session? then Launched(outcome.root) else Failed(outcome.error)
  {
    hide Decision;
  }

  lemma OurRootIsDecided(
    launcher: ProcessSnapshot, desktopExecutable: string, before: seq<LaunchFrame>, frame: LaunchFrame,
    root: ProcessSnapshot)
    requires frame.Scan?
    requires if launcher.id in Ids(frame.snapshots) then ObservedTree.HasInstance(frame.snapshots, launcher)
             else AnyoneBelow(launcher, before)
    requires DesktopRootSnapshots(desktopExecutable, frame.snapshots) == [root]
    requires IsOurs(launcher, before + [frame], root)
    ensures Decision(launcher, desktopExecutable, before, frame) == Launched(root)
  {
    hide IsOurs, DesktopRootSnapshots, AnyoneBelow, Ids, ObservedTree.HasInstance;
  }

  /** In particular, the first frame that does not wait is a session when its only Desktop root is ours, also where the
      launcher is no longer shown, as long as something was once seen below it, and also where time is up. */
  lemma {:induction false} OurRootBecomesTheSession(
    launcher: ProcessSnapshot, desktopExecutable: string, frames: seq<LaunchFrame>, n: nat, root: ProcessSnapshot)
    requires Sound(frames) && n < |frames| && frames[n].Scan?
    requires forall k :: 0 <= k < n ==> Decision(launcher, desktopExecutable, frames[..k], frames[k]).KeepWaiting?
    requires if launcher.id in Ids(frames[n].snapshots) then ObservedTree.HasInstance(frames[n].snapshots, launcher)
             else AnyoneBelow(launcher, frames[..n])
    requires DesktopRootSnapshots(desktopExecutable, frames[n].snapshots) == [root]
    requires IsOurs(launcher, frames[..n + 1], root)
    ensures var outcome := Launch(launcher, desktopExecutable, LaunchState([launcher], []), frames, 0);
            outcome.Session? && outcome.root == root && outcome.frames == n + 1
  {
    hide *;
    LaunchDecides(launcher, desktopExecutable, frames);
    assert frames[..n] + [frames[n]] == frames[..n + 1];
    OurRootIsDecided(launcher, desktopExecutable, frames[..n], frames[n], root);
    DecidedAt(launcher, desktopExecutable, frames, n, Launch(launcher, desktopExecutable, LaunchState([launcher], []), frames, 0));
  }
}
