/** The narrowed macOS observation and its agreement with the full one
    (crates/platform/src/macos_process_observation.rs:51-104 with crates/platform/src/process.rs:329-448). */
module MacosObservation {
  import opened Processes
  import opened Sequences
  import opened ObservedTree

  datatype ProcessIdentity = ProcessIdentity(id: nat, parentId: nat, processGroupId: nat, startedAtMicros: nat)

  /** One scan of the system: every process identity, and the executable paths that can be read at that moment. */
  datatype Scan = Scan(identities: seq<ProcessIdentity>, paths: map<nat, string>)

  function Complete(identity: ProcessIdentity, executable: string): ProcessSnapshot {
    ProcessSnapshot(identity.id, identity.parentId, identity.processGroupId, executable, identity.startedAtMicros)
  }

  /** The identities as snapshots whose path has not been read. */
  function Unresolved(identities: seq<ProcessIdentity>): (snapshots: seq<ProcessSnapshot>)
    ensures |snapshots| == |identities|
    ensures forall i :: 0 <= i < |identities| ==> snapshots[i] == Complete(identities[i], "")
  {
    if identities == [] then [] else [Complete(identities[0], "")] + Unresolved(identities[1..])
  }

  /** The readable processes among `candidates`, in scan order. */
  function Resolve(identities: seq<ProcessIdentity>, candidates: set<nat>, paths: map<nat, string>): seq<ProcessSnapshot> {
    if identities == [] then []
    else
      var rest := Resolve(identities[1..], candidates, paths);
      var id := identities[0].id;
      if id in candidates && id in paths then [Complete(identities[0], paths[id])] + rest else rest
  }

  /** What the observer sees without narrowing. */
  function AllReadable(identities: seq<ProcessIdentity>, paths: map<nat, string>): seq<ProcessSnapshot> {
    if identities == [] then []
    else
      var rest := AllReadable(identities[1..], paths);
      if identities[0].id in paths then [Complete(identities[0], paths[identities[0].id])] + rest else rest
  }

  function Seeds(identities: seq<ProcessIdentity>, rootId: nat, known: seq<ProcessSnapshot>, group: Option<(nat, nat)>)
    : set<nat>
  {
    var owned := Ids(known) + {rootId};
    if group.None? then owned
    else owned + set i <- identities | i.processGroupId == group.value.0 && i.startedAtMicros >= group.value.1 :: i.id
  }

  function Candidates(
    identities: seq<ProcessIdentity>, rootId: nat, known: seq<ProcessSnapshot>, group: Option<(nat, nat)>): set<nat>
  {
    var seeds := Seeds(identities, rootId, known, group);
    seeds + Ids(Closure(seeds, Unresolved(identities)))
  }

  method ResolveTreeCandidates(
    identities: seq<ProcessIdentity>, rootId: nat, known: seq<ProcessSnapshot>, group: Option<(nat, nat)>,
    paths: map<nat, string>)
    returns (selected: seq<ProcessSnapshot>)
    ensures selected == Resolve(identities, Candidates(identities, rootId, known, group), paths)
  {
    CandidatesAre(identities, rootId, known, group);
    hide *;
    var candidates := CandidateIds(identities, Seeds(identities, rootId, known, group));
    selected := ResolveCandidates(identities, candidates, paths);
  }

  method ResolveCandidates(identities: seq<ProcessIdentity>, candidates: set<nat>, paths: map<nat, string>)
    returns (selected: seq<ProcessSnapshot>)
    ensures selected == Resolve(identities, candidates, paths)
  {
    hide *;
    selected := [];
    for i := 0 to |identities|
      invariant selected + Resolve(identities[i..], candidates, paths) == Resolve(identities, candidates, paths)
    {
      ResolveStep(identities, candidates, paths, i);
      var id := identities[i].id;
      if id in candidates && id in paths {
        selected := selected + [Complete(identities[i], paths[id])];
      }
    }
    ResolveStep(identities, candidates, paths, |identities|);
  }

  lemma ResolveStep(identities: seq<ProcessIdentity>, candidates: set<nat>, paths: map<nat, string>, i: nat)
    requires i <= |identities|
    ensures Resolve(identities[i..], candidates, paths)
         == if i == |identities| then []
            else
              var id := identities[i].id;
              (if id in candidates && id in paths then [Complete(identities[i], paths[id])] else [])
              + Resolve(identities[i + 1..], candidates, paths)
  {
    if i < |identities| {
      assert identities[i..][1..] == identities[i + 1..];
    }
  }

  lemma CandidatesAre(
    identities: seq<ProcessIdentity>, rootId: nat, known: seq<ProcessSnapshot>, group: Option<(nat, nat)>)
    ensures var seeds := Seeds(identities, rootId, known, group);
            Candidates(identities, rootId, known, group) == seeds + Ids(Closure(seeds, Unresolved(identities)))
  {
  }

  method CandidateIds(identities: seq<ProcessIdentity>, seeds: set<nat>) returns (candidates: set<nat>)
    ensures candidates == seeds + Ids(Closure(seeds, Unresolved(identities)))
  {
    hide MidPass, Closure;
    ghost var snapshots := Unresolved(identities);
    ghost var whole := Closure(seeds, snapshots);
    ghost var found: seq<ProcessSnapshot> := [];
    candidates := seeds;
    while true
      invariant found + Closure(candidates, snapshots) == whole && candidates == seeds + Ids(found)
      decreases Ids(snapshots) - candidates
    {
      var changed := false;
      ghost var before := candidates;
      ghost var owned, pass := before, [];
      PassStart(snapshots, before);
      for i := 0 to |identities|
        invariant owned == candidates == before + Ids(pass) && (changed <==> pass != [])
        invariant MidPass(snapshots, before, owned, pass, snapshots[i..])
      {
        PassStep(snapshots, before, owned, pass, i);
        if identities[i].parentId in candidates {
          if identities[i].id !in candidates {
            IdsOfConcat(pass, [snapshots[i]]);
            candidates := candidates + {identities[i].id};
            changed := true;
            owned, pass := owned + {snapshots[i].id}, pass + [snapshots[i]];
          }
        }
      }
      PassDone(snapshots, before, owned, pass, found, whole);
      IdsOfConcat(found, pass);
      found := found + pass;
      if !changed {
        break;
      }
    }
  }

  /** The PIDs the observer starts from: what it knows, its root, and the processes of its group that are not older. */
  ghost predicate IsSeed(
    identities: seq<ProcessIdentity>, rootId: nat, known: seq<ProcessSnapshot>, group: Option<(nat, nat)>, id: nat)
  {
    || id == rootId
    || (exists k <- known :: k.id == id)
    || (group.Some? && exists i <- identities ::
          i.id == id && i.processGroupId == group.value.0 && i.startedAtMicros >= group.value.1)
  }

  /** A path is read for exactly the seeds and what descends from them by identity, readable or not. */
  lemma CandidatesExact(
    identities: seq<ProcessIdentity>, rootId: nat, known: seq<ProcessSnapshot>, group: Option<(nat, nat)>, id: nat)
    ensures id in Candidates(identities, rootId, known, group) <==>
      || IsSeed(identities, rootId, known, group, id)
      || exists p <- Unresolved(identities) ::
           p.id == id && Descends(Seeds(identities, rootId, known, group), Unresolved(identities), p)
    ensures id in Seeds(identities, rootId, known, group) <==> IsSeed(identities, rootId, known, group, id)
  {
    hide Descends, Closure, Unresolved;
    ClosureIdsExact(Seeds(identities, rootId, known, group), Unresolved(identities));
  }

  /** Every process that is read is one of the table, with its own parent, group and start time and the path read for it,
      and every candidate with a readable path is there. */
  lemma {:induction false} ResolvedExactly(
    identities: seq<ProcessIdentity>, candidates: set<nat>, paths: map<nat, string>, p: ProcessSnapshot)
    ensures p in Resolve(identities, candidates, paths) <==>
      && p.id in candidates && p.id in paths && p.executable == paths[p.id]
      && ProcessIdentity(p.id, p.parentId, p.processGroupId, p.startedAtMicros) in identities
  {
    if identities != [] {
      ResolvedExactly(identities[1..], candidates, paths, p);
      assert identities == [identities[0]] + identities[1..];
    }
  }

  // ----- Dropping non-candidates changes nothing the observer computes -----

  function InSet(candidates: set<nat>): ProcessSnapshot -> bool {
    (process: ProcessSnapshot) => process.id in candidates
  }

  function Keep(candidates: set<nat>, snapshots: seq<ProcessSnapshot>): seq<ProcessSnapshot> {
    Select(snapshots, InSet(candidates))
  }

  lemma {:induction false} KeepFindId(candidates: set<nat>, snapshots: seq<ProcessSnapshot>, id: nat)
    requires id in candidates
    ensures FindId(Keep(candidates, snapshots), id) == FindId(snapshots, id)
  {
    if snapshots != [] {
      KeepFindId(candidates, snapshots[1..], id);
      assert snapshots[0].id in candidates ==> Keep(candidates, snapshots)[1..] == Keep(candidates, snapshots[1..]);
    }
  }

  lemma {:induction false} KeepFindInstance(
    candidates: set<nat>, snapshots: seq<ProcessSnapshot>, expected: ProcessSnapshot)
    requires expected.id in candidates
    ensures FindInstance(Keep(candidates, snapshots), expected) == FindInstance(snapshots, expected)
  {
    if snapshots != [] {
      KeepFindInstance(candidates, snapshots[1..], expected);
      assert snapshots[0].id in candidates ==> Keep(candidates, snapshots)[1..] == Keep(candidates, snapshots[1..]);
    }
  }

  lemma {:induction false} KeepRefresh(
    candidates: set<nat>, rootId: nat, known: seq<ProcessSnapshot>, snapshots: seq<ProcessSnapshot>)
    requires rootId in candidates && Ids(known) <= candidates
    ensures Refresh(rootId, known, Keep(candidates, snapshots)) == Refresh(rootId, known, snapshots)
    ensures Ids(Refresh(rootId, known, snapshots)) <= candidates
  {
    if known != [] {
      assert known[0].id in Ids(known);
      KeepRefresh(candidates, rootId, known[1..], snapshots);
      KeepFindId(candidates, snapshots, rootId);
      KeepFindInstance(candidates, snapshots, known[0]);
    }
  }

  lemma {:induction false} KeepSelect(
    candidates: set<nat>, snapshots: seq<ProcessSnapshot>, wanted: ProcessSnapshot -> bool)
    requires forall p <- snapshots :: wanted(p) ==> p.id in candidates
    ensures Select(Keep(candidates, snapshots), wanted) == Select(snapshots, wanted)
  {
    if snapshots != [] {
      KeepSelect(candidates, snapshots[1..], wanted);
      assert snapshots[0].id in candidates ==> Keep(candidates, snapshots)[1..] == Keep(candidates, snapshots[1..]);
    }
  }

  lemma {:induction false} KeepSweep(candidates: set<nat>, owned: set<nat>, snapshots: seq<ProcessSnapshot>)
    requires owned <= candidates && ParentClosed(candidates, snapshots)
    ensures Sweep(owned, Keep(candidates, snapshots)) == Sweep(owned, snapshots)
    ensures Ids(Sweep(owned, snapshots)) <= candidates
    decreases |snapshots|
  {
    if snapshots != [] {
      var s := snapshots[0];
      assert s in snapshots;
      assert s.id in candidates ==> Keep(candidates, snapshots)[1..] == Keep(candidates, snapshots[1..]);
      if s.id !in owned && s.parentId in owned {
        KeepSweep(candidates, owned + {s.id}, snapshots[1..]);
      } else {
        KeepSweep(candidates, owned, snapshots[1..]);
      }
    }
  }

  lemma {:induction false} KeepClosure(candidates: set<nat>, owned: set<nat>, snapshots: seq<ProcessSnapshot>)
    requires owned <= candidates && ParentClosed(candidates, snapshots)
    ensures Closure(owned, Keep(candidates, snapshots)) == Closure(owned, snapshots)
    ensures Ids(Closure(owned, snapshots)) <= candidates
    decreases Ids(snapshots) - owned
  {
    KeepSweep(candidates, owned, snapshots);
    var added := Sweep(owned, snapshots);
    SweepFacts(owned, snapshots);
    if added != [] {
      assert added[0].id in Ids(added);
      KeepClosure(candidates, owned + Ids(added), snapshots);
      IdsOfConcat(added, Closure(owned + Ids(added), snapshots));
    }
  }

  lemma {:induction false} AdoptStaysInside(
    candidates: set<nat>, known: seq<ProcessSnapshot>, observed: seq<ProcessSnapshot>)
    requires Ids(known) <= candidates && Ids(observed) <= candidates
    ensures Ids(Adopt(known, observed)) <= candidates
    decreases |observed|
  {
    if observed != [] {
      assert observed[0].id in Ids(observed);
      IdsOfConcat(known, [observed[0]]);
      IdsOfConcat([observed[0]], observed[1..]);
      assert observed == [observed[0]] + observed[1..];
      AdoptStaysInside(candidates, known, observed[1..]);
      if observed[0].id !in Ids(known) {
        AdoptStaysInside(candidates, known + [observed[0]], observed[1..]);
      }
    }
  }

  lemma {:induction false} KeepLive(candidates: set<nat>, known: seq<ProcessSnapshot>, snapshots: seq<ProcessSnapshot>)
    requires Ids(known) <= candidates
    ensures Live(known, Keep(candidates, snapshots)) == Live(known, snapshots)
  {
    if known != [] {
      assert known[0].id in Ids(known);
      KeepFindInstance(candidates, snapshots, known[0]);
      KeepLive(candidates, known[1..], snapshots);
    }
  }

  /** Any parent-closed set of PIDs that covers the ledger, the root and the group may replace the frame. */
  lemma ObserveOnCandidates(ledger: Ledger, snapshots: seq<ProcessSnapshot>, candidates: set<nat>)
    requires Ids(ledger.known) <= candidates && ledger.root.id in candidates
    requires forall p <- snapshots :: InGroup(ledger.group, ledger.groupStartedAtMicros)(p) ==> p.id in candidates
    requires ParentClosed(candidates, snapshots)
    ensures Observe(ledger, Keep(candidates, snapshots)) == Observe(ledger, snapshots)
  {
    hide Keep, Select, Closure, Refresh, Adopt, InGroup;
    KeepFindId(candidates, snapshots, ledger.root.id);
    if CheckRoot(ledger, snapshots).None? {
      var root := FollowRoot(ledger.root, snapshots);
      var inGroup := InGroup(ledger.group, ledger.groupStartedAtMicros);
      KeepRefresh(candidates, root.id, ledger.known, snapshots);
      var refreshed := Refresh(root.id, ledger.known, snapshots);
      KeepSelect(candidates, snapshots, inGroup);
      var members := Select(snapshots, inGroup);
      SelectMembers(snapshots, inGroup);
      assert Ids(members) <= candidates;
      KeepClosure(candidates, Ids(refreshed), snapshots);
      var descendants := Closure(Ids(refreshed), snapshots);
      IdsOfConcat(members, descendants);
      AdoptStaysInside(candidates, refreshed, members + descendants);
      KeepLive(candidates, Adopt(refreshed, members + descendants), snapshots);
    }
  }

  lemma {:induction false} ResolveIsKeep(identities: seq<ProcessIdentity>, candidates: set<nat>, paths: map<nat, string>)
    ensures Resolve(identities, candidates, paths) == Keep(candidates, AllReadable(identities, paths))
  {
    if identities != [] {
      ResolveIsKeep(identities[1..], candidates, paths);
      var all := AllReadable(identities, paths);
      if identities[0].id in paths {
        assert all[1..] == AllReadable(identities[1..], paths);
      }
    }
  }

  lemma {:induction false} ReadableIsScanned(identities: seq<ProcessIdentity>, paths: map<nat, string>)
    ensures forall p <- AllReadable(identities, paths) ::
      exists i :: 0 <= i < |identities| && p == Complete(identities[i], p.executable)
  {
    if identities != [] {
      ReadableIsScanned(identities[1..], paths);
      forall p <- AllReadable(identities, paths)
        ensures exists i :: 0 <= i < |identities| && p == Complete(identities[i], p.executable)
      {
        if p in AllReadable(identities[1..], paths) {
          var i :| 0 <= i < |identities[1..]| && p == Complete(identities[1..][i], p.executable);
          assert p == Complete(identities[i + 1], p.executable);
        } else {
          assert p == Complete(identities[0], p.executable);
        }
      }
    }
  }

  // ----- The refinement -----

  function GroupOf(ledger: Ledger): Option<(nat, nat)> {
    if ledger.group.None? then None else Some((ledger.group.value, ledger.groupStartedAtMicros))
  }

  function ObserveFull(ledger: Ledger, scan: Scan): (Ledger, Observation) {
    Observe(ledger, AllReadable(scan.identities, scan.paths))
  }

  function ObserveFiltered(ledger: Ledger, scan: Scan): (Ledger, Observation) {
    var candidates := Candidates(scan.identities, ledger.root.id, ledger.known, GroupOf(ledger));
    Observe(ledger, Resolve(scan.identities, candidates, scan.paths))
  }

  /** One frame: same result list in the same order, same refusal, same new ledger. Nothing is assumed about the
      ledger, the scan, or which paths can be read. */
  lemma FilteredObservationAgrees(ledger: Ledger, scan: Scan)
    ensures ObserveFiltered(ledger, scan) == ObserveFull(ledger, scan)
  {
    var snapshots := AllReadable(scan.identities, scan.paths);
    var seeds := Seeds(scan.identities, ledger.root.id, ledger.known, GroupOf(ledger));
    var candidates := Candidates(scan.identities, ledger.root.id, ledger.known, GroupOf(ledger));
    ClosureIsClosed(seeds, Unresolved(scan.identities));
    ReadableIsScanned(scan.identities, scan.paths);
    forall p <- snapshots
      ensures p.parentId in candidates ==> p.id in candidates
      ensures InGroup(ledger.group, ledger.groupStartedAtMicros)(p) ==> p.id in candidates
    {
      var i :| 0 <= i < |scan.identities| && p == Complete(scan.identities[i], p.executable);
      assert Unresolved(scan.identities)[i] in Unresolved(scan.identities);
      assert scan.identities[i] in scan.identities;
    }
    ObserveOnCandidates(ledger, snapshots, candidates);
    ResolveIsKeep(scan.identities, candidates, scan.paths);
  }

  /** The macOS observer reads paths for candidates only, and still leaves the state the full frame would leave. */
  method ObserveNarrowed(tree: ObservedProcessTree, scan: Scan) returns (result: Observation)
    modifies tree
    ensures (tree.State(), result) == old(ObserveFull(tree.State(), scan))
  {
    FilteredObservationAgrees(tree.State(), scan);
    var selected := ResolveTreeCandidates(scan.identities, tree.root.id, tree.known, GroupOf(tree.State()), scan.paths);
    result := tree.ObserveSnapshots(selected);
  }

  function Run(ledger: Ledger, scans: seq<Scan>, observe: (Ledger, Scan) -> (Ledger, Observation))
    : (Ledger, seq<Observation>)
    decreases |scans|
  {
    if scans == [] then (ledger, [])
    else
      var (next, observation) := observe(ledger, scans[0]);
      var (last, rest) := Run(next, scans[1..], observe);
      (last, [observation] + rest)
  }

  /** Whole runs, refused frames included: two observers that start from the same ledger, one narrowed and one not,
      report the same and end in the same ledger. */
  lemma {:induction false} FilteredObservationRefinesFull(ledger: Ledger, scans: seq<Scan>)
    ensures Run(ledger, scans, ObserveFiltered) == Run(ledger, scans, ObserveFull)
    decreases |scans|
  {
    if scans != [] {
      FilteredObservationAgrees(ledger, scans[0]);
      FilteredObservationRefinesFull(ObserveFull(ledger, scans[0]).0, scans[1..]);
    }
  }
}
