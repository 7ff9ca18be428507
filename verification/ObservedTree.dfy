/** The ownership ledger of a supervised process tree (crates/platform/src/process.rs:265-485). */
module ObservedTree {
  import opened Processes
  import opened Sequences

  datatype RootExecutablePolicy = Fixed | FollowSameProcess

  datatype ObserveError =
    | RootReused(id: nat)
    | RootChangedExecutable(id: nat)
    | UnattributedMember(id: nat)

  datatype Observation = Observed(live: seq<ProcessSnapshot>) | Refused(error: ObserveError)

  /** The observer's fields. `rejectsForeign` is the Linux build, which refuses group members without lineage. */
  datatype Ledger = Ledger(
    root: ProcessSnapshot,
    known: seq<ProcessSnapshot>,
    group: Option<nat>,
    groupStartedAtMicros: nat,
    policy: RootExecutablePolicy,
    rejectsForeign: bool)

  // ----- Lookups -----

  function FindId(snapshots: seq<ProcessSnapshot>, id: nat): (found: Option<ProcessSnapshot>)
    ensures found.Some? ==> found.value in snapshots && found.value.id == id
    ensures found.None? ==> id !in Ids(snapshots)
  {
    if snapshots == [] then None
    else if snapshots[0].id == id then Some(snapshots[0])
    else FindId(snapshots[1..], id)
  }

  function FindInstance(snapshots: seq<ProcessSnapshot>, expected: ProcessSnapshot): (found: Option<ProcessSnapshot>)
    ensures found.Some? ==> found.value in snapshots && SameProcessInstance(expected, found.value)
    ensures found.None? ==> forall p <- snapshots :: !SameProcessInstance(expected, p)
  {
    if snapshots == [] then None
    else if SameProcessInstance(expected, snapshots[0]) then Some(snapshots[0])
    else FindInstance(snapshots[1..], expected)
  }

  // ----- One observation as a function -----

  /** The part of the ledger that survives a frame, with its current snapshots. */
  function Refresh(rootId: nat, known: seq<ProcessSnapshot>, snapshots: seq<ProcessSnapshot>): seq<ProcessSnapshot> {
    if known == [] then []
    else
      var rest := Refresh(rootId, known[1..], snapshots);
      if known[0].id == rootId then
        var current := FindId(snapshots, rootId);
        [if current.Some? then current.value else known[0]] + rest
      else
        var current := FindInstance(snapshots, known[0]);
        if current.Some? then [current.value] + rest else rest
  }

  function InGroup(group: Option<nat>, startedAtMicros: nat): ProcessSnapshot -> bool {
    (process: ProcessSnapshot) =>
      group.Some? && process.startedAtMicros >= startedAtMicros && process.processGroupId == group.value
  }

  predicate HasInstance(processes: seq<ProcessSnapshot>, process: ProcessSnapshot) {
    exists known <- processes :: SameProcessInstance(known, process)
  }

  function FirstForeign(
    members: seq<ProcessSnapshot>, known: seq<ProcessSnapshot>, permitted: seq<ProcessSnapshot>)
    : (foreign: Option<ProcessSnapshot>)
    ensures foreign.None? ==> forall m <- members :: HasInstance(known, m) || HasInstance(permitted, m)
    ensures foreign.Some? ==>
              foreign.value in members && !HasInstance(known, foreign.value) && !HasInstance(permitted, foreign.value)
  {
    if members == [] then None
    else if !HasInstance(known, members[0]) && !HasInstance(permitted, members[0]) then Some(members[0])
    else FirstForeign(members[1..], known, permitted)
  }

  /** Appends each process whose PID the ledger does not hold yet. */
  function Adopt(known: seq<ProcessSnapshot>, observed: seq<ProcessSnapshot>): seq<ProcessSnapshot>
    decreases |observed|
  {
    if observed == [] then known
    else if observed[0].id in Ids(known) then Adopt(known, observed[1..])
    else Adopt(known + [observed[0]], observed[1..])
  }

  function Live(known: seq<ProcessSnapshot>, snapshots: seq<ProcessSnapshot>): seq<ProcessSnapshot> {
    if known == [] then []
    else
      var current := FindInstance(snapshots, known[0]);
      (if current.Some? then [current.value] else []) + Live(known[1..], snapshots)
  }

  /** The strict checks on the root: its PID may not change hands, and its image only under the following policy. */
  function CheckRoot(ledger: Ledger, snapshots: seq<ProcessSnapshot>): Option<ObserveError> {
    var current := FindId(snapshots, ledger.root.id);
    if current.None? then None
    else if !SameProcessInstance(ledger.root, current.value) then Some(RootReused(ledger.root.id))
    else if current.value.executable != ledger.root.executable && ledger.policy.Fixed? then
      Some(RootChangedExecutable(ledger.root.id))
    else None
  }

  function FollowRoot(root: ProcessSnapshot, snapshots: seq<ProcessSnapshot>): ProcessSnapshot {
    var current := FindId(snapshots, root.id);
    if current.Some? then root.(executable := current.value.executable) else root
  }

  function Observe(ledger: Ledger, snapshots: seq<ProcessSnapshot>): (Ledger, Observation) {
    var refusal := CheckRoot(ledger, snapshots);
    if refusal.Some? then (ledger, Refused(refusal.value))
    else
      var root := FollowRoot(ledger.root, snapshots);
      var refreshed := Refresh(root.id, ledger.known, snapshots);
      var members := Select(snapshots, InGroup(ledger.group, ledger.groupStartedAtMicros));
      var descendants := Closure(Ids(refreshed), snapshots);
      var foreign := FirstForeign(members, refreshed, descendants);
      if ledger.rejectsForeign && ledger.group.Some? && foreign.Some? then
        (ledger.(root := root, known := refreshed), Refused(UnattributedMember(foreign.value.id)))
      else
        var known := Adopt(refreshed, members + descendants);
        (ledger.(root := root, known := known), Observed(Live(known, snapshots)))
  }

  // ----- The ledger at the start -----

  function Starting(
    linux: bool, root: ProcessSnapshot, processGroupId: Option<nat>, processGroupStartedAtMicros: Option<nat>,
    known: seq<ProcessSnapshot>): Ledger
  {
    Ledger(root, if HasInstance(known, root) then known else known + [root], processGroupId,
           if processGroupStartedAtMicros.Some? then processGroupStartedAtMicros.value else root.startedAtMicros,
           Fixed, linux)
  }

  /** Distinct PIDs, the root among them. */
  ghost predicate WellFormed(ledger: Ledger) {
    DistinctIds(ledger.known) && HasInstance(ledger.known, ledger.root)
  }

  /** The constructor's ledger is well formed exactly when the PIDs handed over are distinct and no other instance
      among them has the root's PID. It owns nothing but these and the root. */
  lemma FreshLedgerIsWellFormed(
    linux: bool, root: ProcessSnapshot, group: Option<nat>, groupStartedAt: Option<nat>, owned: seq<ProcessSnapshot>)
    ensures WellFormed(Starting(linux, root, group, groupStartedAt, owned))
            <==> DistinctIds(owned) && (root.id in Ids(owned) ==> HasInstance(owned, root))
    ensures var ledger := Starting(linux, root, group, groupStartedAt, owned);
            && ledger.root == root && ledger.group == group && ledger.rejectsForeign == linux && ledger.policy.Fixed?
            && ledger.groupStartedAtMicros == (if groupStartedAt.None? then root.startedAtMicros else groupStartedAt.value)
            && owned <= ledger.known && HasInstance(ledger.known, root)
            && (forall p <- ledger.known :: p in owned || p == root)
  {
    if !HasInstance(owned, root) {
      AppendDistinct(owned, root);
      assert (owned + [root])[|owned|] == root;
      assert SameProcessInstance(root, root);
    } else {
      var entry :| entry in owned && SameProcessInstance(entry, root);
      assert entry.id in Ids(owned);
    }
  }

  lemma AppendDistinct(processes: seq<ProcessSnapshot>, last: ProcessSnapshot)
    ensures DistinctIds(processes + [last]) <==> DistinctIds(processes) && last.id !in Ids(processes)
  {
    var whole := processes + [last];
    assert forall i :: 0 <= i < |processes| ==> whole[i] == processes[i] && processes[i] in processes;
    if DistinctIds(whole) {
      forall p <- processes ensures p.id != last.id {
        var k :| 0 <= k < |processes| && processes[k] == p;
        assert whole[k].id != whole[|processes|].id;
      }
    }
  }

  // ----- The observer itself -----

  class ObservedProcessTree {
    var root: ProcessSnapshot
    var known: seq<ProcessSnapshot>
    var processGroupId: Option<nat>
    var processGroupStartedAtMicros: nat
    var rootExecutablePolicy: RootExecutablePolicy
    const rejectsForeign: bool

    function State(): Ledger
      reads this
    {
      Ledger(root, known, processGroupId, processGroupStartedAtMicros, rootExecutablePolicy, rejectsForeign)
    }

    constructor NewWithOwnedProcesses(
      linux: bool, root: ProcessSnapshot, processGroupId: Option<nat>, processGroupStartedAtMicros: Option<nat>,
      known: seq<ProcessSnapshot>)
      ensures State() == Starting(linux, root, processGroupId, processGroupStartedAtMicros, known)
      ensures WellFormed(State()) <==> DistinctIds(known) && (root.id in Ids(known) ==> HasInstance(known, root))
    {
      FreshLedgerIsWellFormed(linux, root, processGroupId, processGroupStartedAtMicros, known);
      this.known := if HasInstance(known, root) then known else known + [root];
      this.root := root;
      this.processGroupId := processGroupId;
      this.processGroupStartedAtMicros :=
        if processGroupStartedAtMicros.Some? then processGroupStartedAtMicros.value else root.startedAtMicros;
      rootExecutablePolicy := Fixed;
      rejectsForeign := linux;
    }

    method ObserveSnapshots(snapshots: seq<ProcessSnapshot>) returns (result: Observation)
      modifies this
      ensures (State(), result) == old(Observe(State(), snapshots))
    {
      var currentRoot := FindId(snapshots, root.id);
      if currentRoot.Some? {
        if !SameProcessInstance(root, currentRoot.value) {
          return Refused(RootReused(root.id));
        }
        if currentRoot.value.executable != root.executable {
          if rootExecutablePolicy.Fixed? {
            return Refused(RootChangedExecutable(root.id));
          }
          root := root.(executable := currentRoot.value.executable);
        }
      }
      RefreshKnown(currentRoot, snapshots);
      var observed := Select(snapshots, InGroup(processGroupId, processGroupStartedAtMicros));
      var knownIds := seq(|known|, i requires 0 <= i < |known| reads this => known[i].id);
      KnownIds(known, knownIds);
      var descendants := DescendantSnapshots(knownIds, snapshots);
      if rejectsForeign && processGroupId.Some? {
        var foreign := FirstForeign(observed, known, descendants);
        if foreign.Some? {
          return Refused(UnattributedMember(foreign.value.id));
        }
      }
      AdoptAll(observed + descendants);
      result := Observed(Live(known, snapshots));
    }

    /** Forgets retired and replaced descendants; the root entry stays even when the root is gone. */
    method RefreshKnown(currentRoot: Option<ProcessSnapshot>, snapshots: seq<ProcessSnapshot>)
      requires currentRoot == FindId(snapshots, root.id)
      modifies `known
      ensures known == Refresh(root.id, old(known), snapshots)
    {
      var refreshed := [];
      for i := 0 to |known|
        invariant unchanged(this)
        invariant refreshed + Refresh(root.id, known[i..], snapshots) == Refresh(root.id, known, snapshots)
      {
        assert known[i..][1..] == known[i + 1..];
        var expected := known[i];
        if expected.id == root.id {
          refreshed := refreshed + [if currentRoot.Some? then currentRoot.value else expected];
        } else {
          var current := FindInstance(snapshots, expected);
          if current.Some? {
            refreshed := refreshed + [current.value];
          }
        }
      }
      assert known[|known|..] == [];
      known := refreshed;
    }

    method AdoptAll(observed: seq<ProcessSnapshot>)
      modifies `known
      ensures known == Adopt(old(known), observed)
    {
      for i := 0 to |observed|
        invariant Adopt(known, observed[i..]) == Adopt(old(known), observed)
      {
        assert observed[i..][1..] == observed[i + 1..];
        if observed[i].id !in Ids(known) {
          known := known + [observed[i]];
        }
      }
      assert observed[|observed|..] == [];
    }

    /** The live members no longer below the root. */
    method Escaped(snapshots: seq<ProcessSnapshot>) returns (result: Observation)
      modifies this
      ensures State() == old(Observe(State(), snapshots).0)
      ensures result == old(EscapedFrom(root.id, Observe(State(), snapshots).1))
    {
      result := ObserveSnapshots(snapshots);
      if result.Observed? {
        var descendants := DescendantSnapshots([root.id], result.live);
        assert IdSet([root.id]) == {root.id};
        result := Observed(Select(result.live, EscapedPredicate(root.id, descendants)));
      }
    }
  }

  lemma KnownIds(processes: seq<ProcessSnapshot>, ids: seq<nat>)
    requires |ids| == |processes| && forall i :: 0 <= i < |ids| ==> ids[i] == processes[i].id
    ensures IdSet(ids) == Ids(processes)
  {
    forall id ensures id in IdSet(ids) <==> id in Ids(processes) {
      if id in ids {
        var i :| 0 <= i < |ids| && ids[i] == id;
        assert processes[i] in processes;
      }
      if id in Ids(processes) {
        var p :| p in processes && p.id == id;
        var i :| 0 <= i < |processes| && processes[i] == p;
        assert ids[i] in ids;
      }
    }
  }

  function EscapedPredicate(rootId: nat, descendants: seq<ProcessSnapshot>): ProcessSnapshot -> bool {
    (process: ProcessSnapshot) => process.id != rootId && process.id !in Ids(descendants)
  }

  function EscapedFrom(rootId: nat, observation: Observation): Observation {
    if observation.Refused? then observation
    else Observed(Select(observation.live, EscapedPredicate(rootId, Closure({rootId}, observation.live))))
  }
}
