/** Attribution of a Desktop root to one managed Linux launch
    (crates/platform/src/desktop_launch.rs:483-573 and 782-872). */
module DesktopLaunch {
  import opened Processes
  import opened Sequences
  import opened DesktopRoots
  import ObservedTree
  import LedgerLineage

  // ----- Remembering processes by PID -----

  function Replace(known: seq<ProcessSnapshot>, process: ProcessSnapshot): seq<ProcessSnapshot> {
    if known == [] then [process]
    else if known[0].id == process.id then [process] + known[1..]
    else [known[0]] + Replace(known[1..], process)
  }

  function Remember(known: seq<ProcessSnapshot>, processes: seq<ProcessSnapshot>): seq<ProcessSnapshot>
    decreases |processes|
  {
    if processes == [] then known else Remember(Replace(known, processes[0]), processes[1..])
  }

  method RememberProcesses(known: seq<ProcessSnapshot>, processes: seq<ProcessSnapshot>)
    returns (updated: seq<ProcessSnapshot>)
    ensures updated == Remember(known, processes)
  {
    hide Replace;
    updated := known;
    for i := 0 to |processes|
      invariant Remember(updated, processes[i..]) == Remember(known, processes)
    {
      assert processes[i..][1..] == processes[i + 1..];
      updated := RememberProcess(updated, processes[i]);
    }
    assert processes[|processes|..] == [];
  }

  method RememberProcess(known: seq<ProcessSnapshot>, process: ProcessSnapshot) returns (updated: seq<ProcessSnapshot>)
    ensures updated == Replace(known, process)
  {
    var j := 0;
    while j < |known| && known[j].id != process.id
      invariant j <= |known|
      invariant forall k :: 0 <= k < j ==> known[k].id != process.id
    {
      j := j + 1;
    }
    ReplaceAt(known, process, j);
    if j < |known| {
      updated := known[j := process];
    } else {
      updated := known + [process];
    }
  }

  /** The first entry with the PID gives way in its place; without one, the process is added at the end. */
  lemma {:induction false} ReplaceAt(known: seq<ProcessSnapshot>, process: ProcessSnapshot, j: nat)
    requires j <= |known|
    requires forall k :: 0 <= k < j ==> known[k].id != process.id
    requires j < |known| ==> known[j].id == process.id
    ensures Replace(known, process) == if j < |known| then known[j := process] else known + [process]
  {
    if j > 0 {
      ReplaceAt(known[1..], process, j - 1);
      assert known == [known[0]] + known[1..];
    } else if known != [] {
      assert known[0 := process] == [process] + known[1..];
    }
  }

  lemma {:induction false} ReplaceIds(known: seq<ProcessSnapshot>, process: ProcessSnapshot)
    requires DistinctIds(known)
    ensures DistinctIds(Replace(known, process))
    ensures Ids(Replace(known, process)) == Ids(known) + {process.id}
  {
    if known == [] {
      assert Replace(known, process) == [process];
    } else {
      hide DistinctIds, Ids;
      var head, rest := known[0], known[1..];
      assert known == [head] + rest;
      PrependDistinct(head, rest);
      ReplaceIds(rest, process);
      PrependDistinct(if head.id == process.id then process else head,
                      if head.id == process.id then rest else Replace(rest, process));
    }
  }

  lemma {:induction false} ReplaceMembers(known: seq<ProcessSnapshot>, process: ProcessSnapshot)
    requires DistinctIds(known)
    ensures forall p :: p in Replace(known, process) <==> p == process || (p in known && p.id != process.id)
  {
    if known != [] {
      hide DistinctIds;
      var head, rest := known[0], known[1..];
      assert known == [head] + rest;
      PrependDistinct(head, rest);
      ReplaceMembers(rest, process);
      assert forall p <- rest :: p.id in Ids(rest);
    }
  }

  lemma ReplaceFacts(known: seq<ProcessSnapshot>, process: ProcessSnapshot)
    requires DistinctIds(known)
    ensures DistinctIds(Replace(known, process))
    ensures Ids(Replace(known, process)) == Ids(known) + {process.id}
    ensures forall p :: p in Replace(known, process) <==> p == process || (p in known && p.id != process.id)
  {
    ReplaceIds(known, process);
    ReplaceMembers(known, process);
  }

  lemma {:induction false} RememberFacts(known: seq<ProcessSnapshot>, processes: seq<ProcessSnapshot>)
    requires DistinctIds(known) && DistinctIds(processes)
    ensures DistinctIds(Remember(known, processes))
    ensures Ids(Remember(known, processes)) == Ids(known) + Ids(processes)
    ensures forall p :: p in Remember(known, processes) <==> p in processes || (p in known && p.id !in Ids(processes))
    decreases |processes|
  {
    if processes != [] {
      var head, rest := processes[0], processes[1..];
      assert processes == [head] + rest;
      PrependDistinct(head, rest);
      ReplaceFacts(known, head);
      RememberFacts(Replace(known, head), rest);
    }
  }

  // ----- Selecting the root -----

  predicate IsManagedDesktopRoot(
    launcher: ProcessSnapshot, descendants: seq<ProcessSnapshot>, root: ProcessSnapshot)
  {
    && root.processGroupId == launcher.processGroupId
    && root.startedAtMicros >= launcher.startedAtMicros
    && (SameProcessInstance(root, launcher) || exists d <- descendants :: SameProcessInstance(root, d))
  }

  datatype LaunchError =
    | ScanUnavailable
    | LauncherReused
    | LauncherExited
    | MultipleRoots
    | UnmanagedDesktopConflict
    | TimedOut

  datatype Selection = Selected(root: Option<ProcessSnapshot>) | Rejected(error: LaunchError)

  function Managed(launcher: ProcessSnapshot, descendants: seq<ProcessSnapshot>): ProcessSnapshot -> bool {
    (root: ProcessSnapshot) => IsManagedDesktopRoot(launcher, descendants, root)
  }

  function SelectManagedDesktopRoot(
    launcher: ProcessSnapshot, descendants: seq<ProcessSnapshot>, roots: seq<ProcessSnapshot>): Selection
  {
    var managed := Select(roots, Managed(launcher, descendants));
    if |managed| > 1 then Rejected(MultipleRoots)
    else if |roots| > |managed| then Rejected(UnmanagedDesktopConflict)
    else Selected(if managed == [] then None else Some(managed[0]))
  }

  lemma {:induction false} SelectLength<T>(s: seq<T>, p: T -> bool)
    ensures |Select(s, p)| <= |s|
    ensures |Select(s, p)| == |s| <==> forall x <- s :: p(x)
    ensures |Select(s, p)| == |s| ==> Select(s, p) == s
  {
    if s != [] {
      SelectLength(s[1..], p);
      assert s == [s[0]] + s[1..];
    }
  }

  /** A root is selected only when it is the one Desktop root there is and it is managed; any Desktop root that is
      not managed stops the launch. */
  lemma SelectionExact(launcher: ProcessSnapshot, descendants: seq<ProcessSnapshot>, roots: seq<ProcessSnapshot>)
    ensures forall root :: SelectManagedDesktopRoot(launcher, descendants, roots) == Selected(Some(root)) <==>
      roots == [root] && IsManagedDesktopRoot(launcher, descendants, root)
    ensures SelectManagedDesktopRoot(launcher, descendants, roots) == Selected(None) <==> roots == []
  {
    var managed := Select(roots, Managed(launcher, descendants));
    SelectLength(roots, Managed(launcher, descendants));
    forall root | roots == [root] && IsManagedDesktopRoot(launcher, descendants, root)
      ensures managed == [root]
    {
      assert roots[0] == root;
    }
    if |managed| <= 1 && |roots| <= |managed| && managed != [] {
      assert roots == managed && roots[0] in roots;
    }
  }

  // ----- The launch loop -----

  datatype LaunchFrame = Scan(snapshots: seq<ProcessSnapshot>, timedOut: bool) | ScanFailed

  datatype LaunchState = LaunchState(members: seq<ProcessSnapshot>, descendants: seq<ProcessSnapshot>)

  datatype Verdict = KeepWaiting | Launched(root: ProcessSnapshot) | Failed(error: LaunchError)

  function LaunchStep(launcher: ProcessSnapshot, desktopExecutable: string, st: LaunchState, frame: LaunchFrame)
    : (LaunchState, Verdict)
  {
    if frame.ScanFailed? then (st, Failed(ScanUnavailable))
    else
      var current := ObservedTree.FindId(frame.snapshots, launcher.id);
      if current.Some? && !SameProcessInstance(launcher, current.value) then (st, Failed(LauncherReused))
      else if current.None? && st.descendants == [] then (st, Failed(LauncherExited))
      else
        var members := if current.Some? then Remember(st.members, [current.value]) else st.members;
        var descendants :=
          if current.Some? then Remember(st.descendants, Closure({launcher.id}, frame.snapshots)) else st.descendants;
        var remembered := LaunchState(Remember(members, descendants), descendants);
        var roots := DesktopRootSnapshots(desktopExecutable, frame.snapshots);
        match SelectManagedDesktopRoot(launcher, descendants, roots)
        case Selected(Some(root)) => (remembered, Launched(root))
        case Selected(None) => (remembered, if frame.timedOut then Failed(TimedOut) else KeepWaiting)
        case Rejected(error) => (remembered, Failed(error))
  }

  datatype LaunchOutcome =
    | Session(root: ProcessSnapshot, members: seq<ProcessSnapshot>, frames: nat)
    | CleanedUp(error: LaunchError, members: seq<ProcessSnapshot>, frames: nat)
    | Waiting(state: LaunchState)

  /** The outcome of the loop over a finite run of frames, counting the frames it looked at. */
  function Launch(
    launcher: ProcessSnapshot, desktopExecutable: string, st: LaunchState, frames: seq<LaunchFrame>, looked: nat)
    : LaunchOutcome
    decreases |frames|
  {
    if frames == [] then Waiting(st)
    else
      var (next, verdict) := LaunchStep(launcher, desktopExecutable, st, frames[0]);
      match verdict
      case KeepWaiting => Launch(launcher, desktopExecutable, next, frames[1..], looked + 1)
      case Launched(root) => Session(root, next.members, looked + 1)
      case Failed(error) => CleanedUp(error, next.members, looked + 1)
  }

  method LaunchDesktopSession(launcher: ProcessSnapshot, desktopExecutable: string, frames: seq<LaunchFrame>)
    returns (outcome: LaunchOutcome)
    ensures outcome == Launch(launcher, desktopExecutable, LaunchState([launcher], []), frames, 0)
  {
    hide LaunchStep;
    var members, descendants := [launcher], [];
    for i := 0 to |frames|
      invariant Launch(launcher, desktopExecutable, LaunchState(members, descendants), frames[i..], i)
             == Launch(launcher, desktopExecutable, LaunchState([launcher], []), frames, 0)
    {
      assert frames[i..][1..] == frames[i + 1..] && frames[i..][0] == frames[i];
      var verdict;
      members, descendants, verdict := InspectFrame(launcher, desktopExecutable, members, descendants, frames[i]);
      match verdict
      case KeepWaiting =>
      case Launched(root) => return Session(root, members, i + 1);
      case Failed(error) => return CleanedUp(error, members, i + 1);
    }
    assert frames[|frames|..] == [];
    outcome := Waiting(LaunchState(members, descendants));
  }

  /** The loop's body for one scan of the process table: whatever is remembered stays attributed to the launcher. */
  method InspectFrame(
    launcher: ProcessSnapshot, desktopExecutable: string, observedMembers: seq<ProcessSnapshot>,
    observedDescendants: seq<ProcessSnapshot>, frame: LaunchFrame)
    returns (members: seq<ProcessSnapshot>, descendants: seq<ProcessSnapshot>, verdict: Verdict)
    ensures (LaunchState(members, descendants), verdict)
         == LaunchStep(launcher, desktopExecutable, LaunchState(observedMembers, observedDescendants), frame)
    ensures forall frames :: LaunchInv(launcher, frames, LaunchState(observedMembers, observedDescendants)) ==>
              LaunchInv(launcher, frames + [frame], LaunchState(members, descendants))
  {
    hide LaunchInv;
    forall frames | LaunchInv(launcher, frames, LaunchState(observedMembers, observedDescendants)) {
      LaunchStepKeeps(launcher, desktopExecutable, frames, LaunchState(observedMembers, observedDescendants), frame);
    }
    members, descendants := observedMembers, observedDescendants;
    if frame.ScanFailed? {
      return members, descendants, Failed(ScanUnavailable);
    }
    var current := ObservedTree.FindId(frame.snapshots, launcher.id);
    if current.Some? {
      if !SameProcessInstance(launcher, current.value) {
        return members, descendants, Failed(LauncherReused);
      }
      members := RememberProcesses(members, [current.value]);
      var found := DescendantSnapshots([launcher.id], frame.snapshots);
      assert IdSet([launcher.id]) == {launcher.id};
      descendants := RememberProcesses(descendants, found);
    } else if descendants == [] {
      return members, descendants, Failed(LauncherExited);
    }
    var roots := DesktopRootSnapshots(desktopExecutable, frame.snapshots);
    members := RememberProcesses(members, descendants);
    match SelectManagedDesktopRoot(launcher, descendants, roots)
    case Selected(Some(root)) => verdict := Launched(root);
    case Selected(None) => verdict := if frame.timedOut then Failed(TimedOut) else KeepWaiting;
    case Rejected(error) => verdict := Failed(error);
  }

  // ----- Attribution -----

  /** The launcher itself, or an instance seen below it in a frame that shows that launcher alive. */
  ghost predicate AttributedTo(launcher: ProcessSnapshot, frames: seq<LaunchFrame>, who: ProcessSnapshot) {
    || SameProcessInstance(launcher, who)
    || exists k, seen ::
        && 0 <= k < |frames| && frames[k].Scan?
        && SeenBelow(launcher, frames[k].snapshots, seen)
        && SameProcessInstance(seen, who)
  }

  ghost predicate SeenBelow(launcher: ProcessSnapshot, snapshots: seq<ProcessSnapshot>, seen: ProcessSnapshot) {
    && ObservedTree.HasInstance(snapshots, launcher)
    && seen in snapshots
    && Descends({launcher.id}, snapshots, seen)
  }

  ghost predicate LaunchInv(launcher: ProcessSnapshot, frames: seq<LaunchFrame>, st: LaunchState) {
    && DistinctIds(st.members) && DistinctIds(st.descendants)
    && ObservedTree.HasInstance(st.members, launcher)
    && launcher.id !in Ids(st.descendants)
    && (forall m <- st.members :: AttributedTo(launcher, frames, m))
    && (forall d <- st.descendants :: AttributedTo(launcher, frames, d))
  }

  lemma AttributedLater(launcher: ProcessSnapshot, frames: seq<LaunchFrame>, frame: LaunchFrame, who: ProcessSnapshot)
    requires AttributedTo(launcher, frames, who)
    ensures AttributedTo(launcher, frames + [frame], who)
  {
    if !SameProcessInstance(launcher, who) {
      var k, seen :| 0 <= k < |frames| && frames[k].Scan? && SeenBelow(launcher, frames[k].snapshots, seen)
        && SameProcessInstance(seen, who);
      assert (frames + [frame])[k] == frames[k];
    }
  }

  lemma FoundIsAttributed(launcher: ProcessSnapshot, frames: seq<LaunchFrame>, frame: LaunchFrame)
    requires frame.Scan? && ObservedTree.HasInstance(frame.snapshots, launcher)
    ensures forall d <- Closure({launcher.id}, frame.snapshots) :: AttributedTo(launcher, frames + [frame], d)
  {
    ClosureIdsExact({launcher.id}, frame.snapshots);
    forall d <- Closure({launcher.id}, frame.snapshots) ensures AttributedTo(launcher, frames + [frame], d) {
      assert (frames + [frame])[|frames|] == frame;
      assert SeenBelow(launcher, (frames + [frame])[|frames|].snapshots, d) && SameProcessInstance(d, d);
    }
  }

  lemma DescendantsStayAttributed(
    launcher: ProcessSnapshot, desktopExecutable: string, frames: seq<LaunchFrame>, st: LaunchState, frame: LaunchFrame)
    requires LaunchInv(launcher, frames, st)
    ensures var d := LaunchStep(launcher, desktopExecutable, st, frame).0.descendants;
            && DistinctIds(d) && launcher.id !in Ids(d)
            && forall p <- d :: AttributedTo(launcher, frames + [frame], p)
  {
    hide Closure, Remember, AttributedTo, DesktopRootSnapshots;
    forall p <- st.descendants ensures AttributedTo(launcher, frames + [frame], p) {
      AttributedLater(launcher, frames, frame, p);
    }
    if frame.Scan? {
      var current := ObservedTree.FindId(frame.snapshots, launcher.id);
      if current.Some? && SameProcessInstance(launcher, current.value) {
        var found := Closure({launcher.id}, frame.snapshots);
        assert ObservedTree.HasInstance(frame.snapshots, launcher);
        FoundIsAttributed(launcher, frames, frame);
        ClosureIdsExact({launcher.id}, frame.snapshots);
        RememberFacts(st.descendants, found);
      }
    }
  }

  /** Remembering members keeps them apart, keeps the launcher among them, and brings in no one unattributed. */
  lemma RememberKeepsMembers(
    launcher: ProcessSnapshot, frames: seq<LaunchFrame>, members: seq<ProcessSnapshot>, more: seq<ProcessSnapshot>)
    requires DistinctIds(members) && DistinctIds(more) && ObservedTree.HasInstance(members, launcher)
    requires launcher.id !in Ids(more) || ObservedTree.HasInstance(more, launcher)
    requires forall m <- members :: AttributedTo(launcher, frames, m)
    requires forall m <- more :: AttributedTo(launcher, frames, m)
    ensures var all := Remember(members, more);
            && DistinctIds(all) && ObservedTree.HasInstance(all, launcher)
            && forall m <- all :: AttributedTo(launcher, frames, m)
  {
    RememberFacts(members, more);
    if launcher.id in Ids(more) {
      var entry :| entry in more && SameProcessInstance(entry, launcher);
      assert entry in Remember(members, more);
    } else {
      var entry :| entry in members && SameProcessInstance(entry, launcher);
      assert entry in Remember(members, more);
    }
  }

  lemma LaunchStepKeeps(
    launcher: ProcessSnapshot, desktopExecutable: string, frames: seq<LaunchFrame>, st: LaunchState, frame: LaunchFrame)
    requires LaunchInv(launcher, frames, st)
    ensures LaunchInv(launcher, frames + [frame], LaunchStep(launcher, desktopExecutable, st, frame).0)
  {
    var (next, verdict) := LaunchStep(launcher, desktopExecutable, st, frame);
    var run := frames + [frame];
    DescendantsStayAttributed(launcher, desktopExecutable, frames, st, frame);
    forall m <- st.members ensures AttributedTo(launcher, run, m) {
      AttributedLater(launcher, frames, frame, m);
    }
    if next != st {
      var current := ObservedTree.FindId(frame.snapshots, launcher.id);
      var members := st.members;
      if current.Some? {
        assert current.value in [current.value] && SameProcessInstance(current.value, launcher);
        RememberKeepsMembers(launcher, run, st.members, [current.value]);
        members := Remember(st.members, [current.value]);
      }
      RememberKeepsMembers(launcher, run, members, next.descendants);
    }
  }

  /** What the outcome says about the launch, in terms of the frames seen. */
  ghost predicate OutcomeAttributed(
    launcher: ProcessSnapshot, desktopExecutable: string, frames: seq<LaunchFrame>, outcome: LaunchOutcome)
  {
    match outcome
    case Session(root, members, n) =>
      && 0 < n <= |frames|
      && frames[n - 1].Scan?
      && DesktopRootSnapshots(desktopExecutable, frames[n - 1].snapshots) == [root]
      && root.processGroupId == launcher.processGroupId
      && AttributedTo(launcher, frames[..n], root)
      && DistinctIds(members) && ObservedTree.HasInstance(members, root)
      && forall m <- members :: AttributedTo(launcher, frames[..n], m)
    case CleanedUp(_, members, n) =>
      && 0 < n <= |frames|
      && forall m <- members :: AttributedTo(launcher, frames[..n], m)
    case Waiting(st) => LaunchInv(launcher, frames, st)
  }

  lemma LaunchedRootIsMember(
    launcher: ProcessSnapshot, desktopExecutable: string, frames: seq<LaunchFrame>, st: LaunchState, frame: LaunchFrame)
    requires LaunchInv(launcher, frames, st)
    requires LaunchStep(launcher, desktopExecutable, st, frame).1.Launched?
    ensures var (next, verdict) := LaunchStep(launcher, desktopExecutable, st, frame);
            && frame.Scan?
            && DesktopRootSnapshots(desktopExecutable, frame.snapshots) == [verdict.root]
            && verdict.root.processGroupId == launcher.processGroupId
            && ObservedTree.HasInstance(next.members, verdict.root)
  {
    var (next, verdict) := LaunchStep(launcher, desktopExecutable, st, frame);
    LaunchStepKeeps(launcher, desktopExecutable, frames, st, frame);
    SelectionExact(launcher, next.descendants, DesktopRootSnapshots(desktopExecutable, frame.snapshots));
    if SameProcessInstance(verdict.root, launcher) {
      var entry :| entry in next.members && SameProcessInstance(entry, launcher);
      assert SameProcessInstance(entry, verdict.root);
    } else {
      var d :| d in next.descendants && SameProcessInstance(verdict.root, d);
      var current := ObservedTree.FindId(frame.snapshots, launcher.id);
      var members := if current.Some? then Remember(st.members, [current.value]) else st.members;
      if current.Some? {
        RememberFacts(st.members, [current.value]);
      }
      RememberFacts(members, next.descendants);
      assert SameProcessInstance(d, verdict.root);
    }
  }

  lemma {:induction false} LaunchAttribution(
    launcher: ProcessSnapshot, desktopExecutable: string, seen: seq<LaunchFrame>, st: LaunchState,
    frames: seq<LaunchFrame>)
    requires LaunchInv(launcher, seen, st)
    ensures OutcomeAttributed(launcher, desktopExecutable, seen + frames,
                              Launch(launcher, desktopExecutable, st, frames, |seen|))
    decreases |frames|
  {
    if frames == [] {
      assert seen + frames == seen;
    } else {
      var (next, verdict) := LaunchStep(launcher, desktopExecutable, st, frames[0]);
      var more := seen + [frames[0]];
      LaunchStepKeeps(launcher, desktopExecutable, seen, st, frames[0]);
      assert more + frames[1..] == seen + frames;
      assert (seen + frames)[..|seen| + 1] == more;
      if verdict.KeepWaiting? {
        LaunchAttribution(launcher, desktopExecutable, more, next, frames[1..]);
      } else if verdict.Launched? {
        LaunchedRootIsMember(launcher, desktopExecutable, seen, st, frames[0]);
        var entry :| entry in next.members && SameProcessInstance(entry, verdict.root);
        assert AttributedTo(launcher, more, entry);
        SameInstanceAttributed(launcher, more, entry, verdict.root);
      }
    }
  }

  lemma SameInstanceAttributed(launcher: ProcessSnapshot, frames: seq<LaunchFrame>, a: ProcessSnapshot, b: ProcessSnapshot)
    requires AttributedTo(launcher, frames, a) && SameProcessInstance(a, b)
    ensures AttributedTo(launcher, frames, b)
  {
    if !SameProcessInstance(launcher, a) {
      var k, seen :| 0 <= k < |frames| && frames[k].Scan? && SeenBelow(launcher, frames[k].snapshots, seen)
        && SameProcessInstance(seen, a);
      assert SameProcessInstance(seen, b);
    }
  }

  /** For every launch and every run of frames: a session's root was the only Desktop root of the frame it was
      taken from, and it and everything handed to the session or to failure cleanup is the launcher instance or
      was seen below it while it was alive. */
  lemma LaunchIsAttributed(launcher: ProcessSnapshot, desktopExecutable: string, frames: seq<LaunchFrame>)
    ensures OutcomeAttributed(launcher, desktopExecutable, frames,
                              Launch(launcher, desktopExecutable, LaunchState([launcher], []), frames, 0))
  {
    assert launcher in [launcher] && SameProcessInstance(launcher, launcher);
    assert LaunchInv(launcher, [], LaunchState([launcher], []));
    LaunchAttribution(launcher, desktopExecutable, [], LaunchState([launcher], []), frames);
    assert [] + frames == frames;
  }

  // ----- Nothing of the launch is forgotten -----

  ghost predicate ShowsLauncher(launcher: ProcessSnapshot, frame: LaunchFrame) {
    && frame.Scan?
    && var current := ObservedTree.FindId(frame.snapshots, launcher.id);
    current.Some? && SameProcessInstance(launcher, current.value)
  }

  /** The PIDs a frame puts below the launcher. */
  ghost predicate Covers(launcher: ProcessSnapshot, frame: LaunchFrame, members: seq<ProcessSnapshot>) {
    ShowsLauncher(launcher, frame) ==>
      forall p <- frame.snapshots ::
        Descends({launcher.id}, frame.snapshots, p) && p.id != launcher.id ==> p.id in Ids(members)
  }

  ghost predicate Complete(launcher: ProcessSnapshot, frames: seq<LaunchFrame>, st: LaunchState) {
    && DistinctIds(st.members) && DistinctIds(st.descendants)
    && forall frame <- frames :: Covers(launcher, frame, st.members)
  }

  lemma RememberedIds(
    members: seq<ProcessSnapshot>, descendants: seq<ProcessSnapshot>, current: seq<ProcessSnapshot>,
    found: seq<ProcessSnapshot>)
    requires DistinctIds(members) && DistinctIds(descendants) && DistinctIds(current) && DistinctIds(found)
    ensures var allDescendants := Remember(descendants, found);
            var all := Remember(Remember(members, current), allDescendants);
            && DistinctIds(allDescendants) && DistinctIds(all)
            && Ids(members) <= Ids(all) && Ids(found) <= Ids(all)
  {
    RememberFacts(members, current);
    RememberFacts(descendants, found);
    RememberFacts(Remember(members, current), Remember(descendants, found));
  }

  /** The state after a frame that is not refused outright: one of two ways to remember. */
  lemma StepRemembers(launcher: ProcessSnapshot, desktopExecutable: string, st: LaunchState, frame: LaunchFrame)
    ensures var next := LaunchStep(launcher, desktopExecutable, st, frame).0;
            if ShowsLauncher(launcher, frame) then
              var current := ObservedTree.FindId(frame.snapshots, launcher.id).value;
              var descendants := Remember(st.descendants, Closure({launcher.id}, frame.snapshots));
              next == LaunchState(Remember(Remember(st.members, [current]), descendants), descendants)
            else
              next == st || next == LaunchState(Remember(st.members, st.descendants), st.descendants)
  {
    hide SelectManagedDesktopRoot, DesktopRootSnapshots, Closure, Remember;
  }

  lemma FrameIsCovered(launcher: ProcessSnapshot, desktopExecutable: string, st: LaunchState, frame: LaunchFrame)
    requires DistinctIds(st.members) && DistinctIds(st.descendants)
    ensures var next := LaunchStep(launcher, desktopExecutable, st, frame).0;
            && DistinctIds(next.members) && DistinctIds(next.descendants)
            && Ids(st.members) <= Ids(next.members)
            && Covers(launcher, frame, next.members)
  {
    hide LaunchStep, Closure, Remember;
    StepRemembers(launcher, desktopExecutable, st, frame);
    if ShowsLauncher(launcher, frame) {
      var current := ObservedTree.FindId(frame.snapshots, launcher.id).value;
      ClosureIdsExact({launcher.id}, frame.snapshots);
      RememberedIds(st.members, st.descendants, [current], Closure({launcher.id}, frame.snapshots));
    } else {
      RememberFacts(st.members, st.descendants);
    }
  }

  ghost function HandedOver(outcome: LaunchOutcome): seq<ProcessSnapshot> {
    if outcome.Waiting? then outcome.state.members else outcome.members
  }

  lemma CoversMore(
    launcher: ProcessSnapshot, frame: LaunchFrame, members: seq<ProcessSnapshot>, more: seq<ProcessSnapshot>)
    requires Covers(launcher, frame, members) && Ids(members) <= Ids(more)
    ensures Covers(launcher, frame, more)
  {
  }

  lemma {:induction false} LaunchCovers(
    launcher: ProcessSnapshot, desktopExecutable: string, seen: seq<LaunchFrame>, st: LaunchState,
    frames: seq<LaunchFrame>)
    requires Complete(launcher, seen, st)
    ensures var outcome := Launch(launcher, desktopExecutable, st, frames, |seen|);
            var looked := if outcome.Waiting? then |seen| + |frames| else outcome.frames;
            && looked <= |seen| + |frames|
            && forall frame <- (seen + frames)[..looked] :: Covers(launcher, frame, HandedOver(outcome))
    decreases |frames|
  {
    if frames == [] {
      assert seen + frames == seen && seen[..|seen|] == seen;
    } else {
      hide LaunchStep, Covers;
      var (next, verdict) := LaunchStep(launcher, desktopExecutable, st, frames[0]);
      var more := seen + [frames[0]];
      FrameIsCovered(launcher, desktopExecutable, st, frames[0]);
      forall frame <- seen ensures Covers(launcher, frame, next.members) {
        CoversMore(launcher, frame, st.members, next.members);
      }
      assert more + frames[1..] == seen + frames;
      assert (seen + frames)[..|seen| + 1] == more;
      if verdict.KeepWaiting? {
        LaunchCovers(launcher, desktopExecutable, more, next, frames[1..]);
      }
    }
  }

  /** Every PID seen below the living launcher in a frame the loop looked at is among the processes handed on. */
  lemma LaunchForgetsNothing(launcher: ProcessSnapshot, desktopExecutable: string, frames: seq<LaunchFrame>)
    ensures var outcome := Launch(launcher, desktopExecutable, LaunchState([launcher], []), frames, 0);
            var looked := if outcome.Waiting? then |frames| else outcome.frames;
            && looked <= |frames|
            && forall frame <- frames[..looked] :: Covers(launcher, frame, HandedOver(outcome))
  {
    assert Complete(launcher, [], LaunchState([launcher], []));
    LaunchCovers(launcher, desktopExecutable, [], LaunchState([launcher], []), frames);
    assert [] + frames == frames;
  }

  // ----- The hand-over to the ledger -----

  function SessionLedger(launcher: ProcessSnapshot, root: ProcessSnapshot, members: seq<ProcessSnapshot>): ObservedTree.Ledger {
    ObservedTree.Starting(true, root, Some(launcher.processGroupId), Some(launcher.startedAtMicros), members)
  }

  /** The ledger a session starts from meets the ledger invariant's hypotheses, so along any later run of
      observations every entry is linked by seen parent edges to an instance attributed to the launcher. */
  lemma SessionOwnsOnlyTheLaunch(
    launcher: ProcessSnapshot, desktopExecutable: string, frames: seq<LaunchFrame>, later: seq<LedgerLineage.Frame>)
    requires Launch(launcher, desktopExecutable, LaunchState([launcher], []), frames, 0).Session?
    ensures var outcome := Launch(launcher, desktopExecutable, LaunchState([launcher], []), frames, 0);
            var ledger := SessionLedger(launcher, outcome.root, outcome.members);
            && outcome.frames <= |frames|
            && (forall m <- ledger.known :: AttributedTo(launcher, frames[..outcome.frames], m))
            && LedgerLineage.Holds(ledger, later, LedgerLineage.After(ledger, later))
  {
    var outcome := Launch(launcher, desktopExecutable, LaunchState([launcher], []), frames, 0);
    LaunchIsAttributed(launcher, desktopExecutable, frames);
    LedgerLineage.LedgerInvariant(SessionLedger(launcher, outcome.root, outcome.members), later);
  }

  // ----- Failure cleanup -----

  datatype CleanupTargets = Targets(live: seq<ProcessSnapshot>) | PidReused(id: nat)

  /** The members a fresh scan still shows; a PID that changed hands stops the cleanup. */
  function ExactTargets(members: seq<ProcessSnapshot>, snapshots: seq<ProcessSnapshot>): CleanupTargets {
    if members == [] then Targets([])
    else
      var current := ObservedTree.FindId(snapshots, members[0].id);
      if current.Some? && !SameProcessInstance(members[0], current.value) then PidReused(members[0].id)
      else
        var rest := ExactTargets(members[1..], snapshots);
        if rest.PidReused? || current.None? then rest else Targets([members[0]] + rest.live)
  }

  /** Another process has taken over this member's PID. */
  predicate Replaced(member: ProcessSnapshot, snapshots: seq<ProcessSnapshot>) {
    member.id in Ids(snapshots) && !ObservedTree.HasInstance(snapshots, member)
  }

  function StillLive(snapshots: seq<ProcessSnapshot>): ProcessSnapshot -> bool {
    (member: ProcessSnapshot) => ObservedTree.HasInstance(snapshots, member)
  }

  /** The cleanup goes ahead exactly when no member's PID has changed hands, and then targets the members that are
      still alive, in their order; otherwise it names the first member that was replaced. */
  lemma {:induction false} TargetsAreLiveMembers(members: seq<ProcessSnapshot>, snapshots: seq<ProcessSnapshot>)
    requires DistinctIds(snapshots)
    ensures var targets := ExactTargets(members, snapshots);
            if forall m <- members :: !Replaced(m, snapshots) then targets == Targets(Select(members, StillLive(snapshots)))
            else exists i ::
                   && 0 <= i < |members| && Replaced(members[i], snapshots) && targets == PidReused(members[i].id)
                   && forall j :: 0 <= j < i ==> !Replaced(members[j], snapshots)
  {
    if members != [] {
      hide DistinctIds, Select;
      var head, rest := members[0], members[1..];
      assert members == [head] + rest;
      TargetsAreLiveMembers(rest, snapshots);
      CurrentTells(head, snapshots);
      SelectHead(members, StillLive(snapshots));
      if !Replaced(head, snapshots) && !forall m <- rest :: !Replaced(m, snapshots) {
        var i :| 0 <= i < |rest| && Replaced(rest[i], snapshots) && ExactTargets(rest, snapshots) == PidReused(rest[i].id)
                 && forall j :: 0 <= j < i ==> !Replaced(rest[j], snapshots);
        assert members[i + 1] == rest[i];
        assert forall j :: 0 < j < i + 1 ==> members[j] == rest[j - 1];
      }
    }
  }

  lemma SelectHead<T>(s: seq<T>, p: T -> bool)
    requires s != []
    ensures Select(s, p) == (if p(s[0]) then [s[0]] else []) + Select(s[1..], p)
  {
  }

  lemma CurrentTells(member: ProcessSnapshot, snapshots: seq<ProcessSnapshot>)
    requires DistinctIds(snapshots)
    ensures var current := ObservedTree.FindId(snapshots, member.id);
            && (current.Some? && !SameProcessInstance(member, current.value) <==> Replaced(member, snapshots))
            && (current.Some? && SameProcessInstance(member, current.value)
                <==> ObservedTree.HasInstance(snapshots, member))
  {
    var current := ObservedTree.FindId(snapshots, member.id);
    if p :| p in snapshots && SameProcessInstance(p, member) {
      assert p.id in Ids(snapshots);
      DistinctIdsIdentify(snapshots, p, current.value);
    }
  }
}
