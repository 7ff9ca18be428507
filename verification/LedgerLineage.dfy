/** Where ledger entries come from, over whole runs of observations, refused ones included
    (crates/platform/src/process.rs:308-448). */
module LedgerLineage {
  import opened Processes
  import opened Sequences
  import opened ObservedTree

  type Frame = seq<ProcessSnapshot>

  /** Evidence for owning an instance: it was handed over at the start, or it was seen in some frame as the
      child of an instance that is itself owned by then. */
  datatype Lineage = Origin(who: Instance) | ParentEdge(frame: nat, child: ProcessSnapshot, parent: Lineage) {
    function Subject(): Instance {
      if Origin? then who else InstanceOf(child)
    }
  }

  ghost predicate SeenIn(frame: Frame, who: Instance) {
    exists p <- frame :: InstanceOf(p) == who
  }

  /** Each edge was seen in one frame, in which the parent was seen too unless it is the root; edges further up
      are no later. */
  ghost predicate Supports(lineage: Lineage, initial: Ledger, frames: seq<Frame>)
    decreases lineage
  {
    match lineage
    case Origin(who) => exists p <- initial.known :: InstanceOf(p) == who
    case ParentEdge(k, child, parent) =>
      && k < |frames|
      && child in frames[k]
      && child.parentId == parent.Subject().id
      && (parent.Subject() == InstanceOf(initial.root) || SeenIn(frames[k], parent.Subject()))
      && Supports(parent, initial, frames[..k + 1])
  }

  ghost predicate Linked(initial: Ledger, frames: seq<Frame>, who: Instance) {
    exists lineage: Lineage :: lineage.Subject() == who && Supports(lineage, initial, frames)
  }

  /** The ledger after a run of observations. A refused frame may have brought it forward too. */
  ghost function After(initial: Ledger, frames: seq<Frame>): Ledger {
    if frames == [] then initial
    else Observe(After(initial, frames[..|frames| - 1]), frames[|frames| - 1]).0
  }

  /** Group members without lineage cannot enter: there is no group, or foreign members are refused. */
  predicate Attributing(ledger: Ledger) {
    ledger.group.None? || ledger.rejectsForeign
  }

  // ----- What one observation does to the ledger -----

  lemma {:induction false} RefreshIds(rootId: nat, known: seq<ProcessSnapshot>, snapshots: seq<ProcessSnapshot>)
    requires DistinctIds(known)
    ensures DistinctIds(Refresh(rootId, known, snapshots))
    ensures Ids(Refresh(rootId, known, snapshots)) <= Ids(known)
    ensures rootId in Ids(known) ==> rootId in Ids(Refresh(rootId, known, snapshots))
  {
    if known != [] {
      hide DistinctIds, Ids;
      var rest := Refresh(rootId, known[1..], snapshots);
      assert known == [known[0]] + known[1..];
      PrependDistinct(known[0], known[1..]);
      RefreshIds(rootId, known[1..], snapshots);
      if known[0].id == rootId || FindInstance(snapshots, known[0]).Some? {
        var head := Refresh(rootId, known, snapshots)[0];
        assert Refresh(rootId, known, snapshots) == [head] + rest;
        PrependDistinct(head, rest);
      }
    }
  }

  lemma {:induction false} RefreshSources(rootId: nat, known: seq<ProcessSnapshot>, snapshots: seq<ProcessSnapshot>)
    ensures forall p <- Refresh(rootId, known, snapshots) ::
      if p.id == rootId then p in known || FindId(snapshots, rootId) == Some(p)
      else p in snapshots && HasInstance(known, p)
  {
    if known != [] {
      RefreshSources(rootId, known[1..], snapshots);
      assert known == [known[0]] + known[1..];
    }
  }

  lemma RefreshFacts(rootId: nat, known: seq<ProcessSnapshot>, snapshots: seq<ProcessSnapshot>)
    requires DistinctIds(known)
    ensures DistinctIds(Refresh(rootId, known, snapshots))
    ensures Ids(Refresh(rootId, known, snapshots)) <= Ids(known)
    ensures rootId in Ids(known) ==> rootId in Ids(Refresh(rootId, known, snapshots))
    ensures forall p <- Refresh(rootId, known, snapshots) ::
      if p.id == rootId then p in known || FindId(snapshots, rootId) == Some(p)
      else p in snapshots && HasInstance(known, p)
  {
    RefreshIds(rootId, known, snapshots);
    RefreshSources(rootId, known, snapshots);
  }

  lemma {:induction false} AdoptFacts(known: seq<ProcessSnapshot>, observed: seq<ProcessSnapshot>)
    requires DistinctIds(known)
    ensures DistinctIds(Adopt(known, observed))
    ensures known <= Adopt(known, observed)
    ensures forall p <- Adopt(known, observed) :: p in known || (p in observed && p.id !in Ids(known))
    decreases |observed|
  {
    if observed != [] {
      if observed[0].id in Ids(known) {
        AdoptFacts(known, observed[1..]);
      } else {
        var more := known + [observed[0]];
        forall i, j | 0 <= i < j < |more| ensures more[i].id != more[j].id {
          assert more[i] in known;
        }
        IdsOfConcat(known, [observed[0]]);
        AdoptFacts(more, observed[1..]);
      }
    }
  }

  lemma {:induction false} LiveFacts(known: seq<ProcessSnapshot>, snapshots: seq<ProcessSnapshot>)
    ensures forall p <- Live(known, snapshots) :: p in snapshots && HasInstance(known, p)
    ensures forall k <- known :: HasInstance(snapshots, k) ==> HasInstance(Live(known, snapshots), k)
  {
    if known != [] {
      LiveFacts(known[1..], snapshots);
      var current := FindInstance(snapshots, known[0]);
      if current.Some? {
        assert current.value in Live(known, snapshots);
      }
    }
  }

  // ----- Evidence -----

  lemma {:induction false} SupportsLater(lineage: Lineage, initial: Ledger, frames: seq<Frame>, frame: Frame)
    requires Supports(lineage, initial, frames)
    ensures Supports(lineage, initial, frames + [frame])
  {
    if lineage.ParentEdge? {
      assert (frames + [frame])[..lineage.frame + 1] == frames[..lineage.frame + 1];
    }
  }

  lemma LinkedLater(initial: Ledger, frames: seq<Frame>, frame: Frame, who: Instance)
    requires Linked(initial, frames, who)
    ensures Linked(initial, frames + [frame], who)
  {
    var lineage: Lineage :| lineage.Subject() == who && Supports(lineage, initial, frames);
    SupportsLater(lineage, initial, frames, frame);
  }

  lemma LinkedChild(initial: Ledger, frames: seq<Frame>, parent: Instance, child: ProcessSnapshot)
    requires frames != [] && child in frames[|frames| - 1] && child.parentId == parent.id
    requires parent == InstanceOf(initial.root) || SeenIn(frames[|frames| - 1], parent)
    requires Linked(initial, frames, parent)
    ensures Linked(initial, frames, InstanceOf(child))
  {
    var lineage: Lineage :| lineage.Subject() == parent && Supports(lineage, initial, frames);
    assert frames[..|frames|] == frames;
    var edge := ParentEdge(|frames| - 1, child, lineage);
    assert Supports(edge, initial, frames) && edge.Subject() == InstanceOf(child);
  }

  /** What an observation needs to know about the entries it starts descending from. */
  ghost predicate Anchored(initial: Ledger, frames: seq<Frame>, known: seq<ProcessSnapshot>) {
    && frames != []
    && forall p <- known ::
        && Linked(initial, frames, InstanceOf(p))
        && (InstanceOf(p) == InstanceOf(initial.root) || p in frames[|frames| - 1])
  }

  lemma {:induction false} ChainIsLinked(
    initial: Ledger, frames: seq<Frame>, known: seq<ProcessSnapshot>, path: seq<ProcessSnapshot>)
    requires Anchored(initial, frames, known)
    requires ParentChain(Ids(known), frames[|frames| - 1], path)
    ensures Linked(initial, frames, InstanceOf(path[|path| - 1]))
  {
    var child := path[|path| - 1];
    if |path| == 1 {
      var parent :| parent in known && parent.id == child.parentId;
      LinkedChild(initial, frames, InstanceOf(parent), child);
    } else {
      var shorter := path[..|path| - 1];
      assert ParentChain(Ids(known), frames[|frames| - 1], shorter);
      ChainIsLinked(initial, frames, known, shorter);
      LinkedChild(initial, frames, InstanceOf(shorter[|shorter| - 1]), child);
    }
  }

  lemma ClosureIsLinked(initial: Ledger, frames: seq<Frame>, known: seq<ProcessSnapshot>)
    requires Anchored(initial, frames, known)
    ensures forall p <- Closure(Ids(known), frames[|frames| - 1]) :: Linked(initial, frames, InstanceOf(p))
  {
    var frame := frames[|frames| - 1];
    ClosureIdsExact(Ids(known), frame);
    forall p <- Closure(Ids(known), frame) ensures Linked(initial, frames, InstanceOf(p)) {
      var path :| ParentChain(Ids(known), frame, path) && path[|path| - 1] == p;
      ChainIsLinked(initial, frames, known, path);
    }
  }

  // ----- Whole runs -----

  ghost predicate Holds(initial: Ledger, frames: seq<Frame>, ledger: Ledger) {
    && WellFormed(ledger)
    && InstanceOf(ledger.root) == InstanceOf(initial.root)
    && ledger.group == initial.group && ledger.rejectsForeign == initial.rejectsForeign
    && forall p <- ledger.known :: Linked(initial, frames, InstanceOf(p))
  }

  /** Every entry but the root is live in the frame. */
  predicate LiveIn(ledger: Ledger, frame: Frame) {
    forall p <- ledger.known :: p.id != ledger.root.id ==> p in frame
  }

  lemma RootEntry(ledger: Ledger, p: ProcessSnapshot)
    requires WellFormed(ledger) && p in ledger.known && p.id == ledger.root.id
    ensures InstanceOf(p) == InstanceOf(ledger.root)
  {
    var r :| r in ledger.known && SameProcessInstance(r, ledger.root);
    DistinctIdsIdentify(ledger.known, p, r);
  }

  /** The refreshed part of the ledger is linked, and live except for the root. */
  lemma RefreshedIsAnchored(initial: Ledger, frames: seq<Frame>, ledger: Ledger, frame: Frame)
    requires Holds(initial, frames, ledger) && CheckRoot(ledger, frame).None?
    ensures var refreshed := Refresh(ledger.root.id, ledger.known, frame);
            && DistinctIds(refreshed)
            && Anchored(initial, frames + [frame], refreshed)
            && (forall p <- refreshed :: p.id == ledger.root.id ==> InstanceOf(p) == InstanceOf(ledger.root))
            && ledger.root.id in Ids(refreshed)
  {
    RefreshFacts(ledger.root.id, ledger.known, frame);
    var r :| r in ledger.known && SameProcessInstance(r, ledger.root);
    assert r.id in Ids(ledger.known);
    forall p <- Refresh(ledger.root.id, ledger.known, frame)
      ensures p.id == ledger.root.id ==> InstanceOf(p) == InstanceOf(ledger.root)
      ensures p.id != ledger.root.id ==> p in frame
      ensures Linked(initial, frames + [frame], InstanceOf(p))
    {
      if p.id == ledger.root.id {
        if p in ledger.known {
          RootEntry(ledger, p);
        }
        LinkedLater(initial, frames, frame, InstanceOf(r));
      } else {
        var e :| e in ledger.known && SameProcessInstance(e, p);
        LinkedLater(initial, frames, frame, InstanceOf(e));
      }
    }
  }

  /** One observation keeps the ledger linked, accepted or refused; unless the root itself is refused, it also
      forgets every entry that the frame does not show. */
  lemma ObserveKeeps(initial: Ledger, frames: seq<Frame>, ledger: Ledger, frame: Frame)
    requires Attributing(initial) && Holds(initial, frames, ledger)
    ensures Holds(initial, frames + [frame], Observe(ledger, frame).0)
    ensures CheckRoot(ledger, frame).None? ==> LiveIn(Observe(ledger, frame).0, frame)
  {
    if CheckRoot(ledger, frame).Some? {
      forall p <- ledger.known ensures Linked(initial, frames + [frame], InstanceOf(p)) {
        LinkedLater(initial, frames, frame, InstanceOf(p));
      }
    } else if Observe(ledger, frame).1.Refused? {
      RefusedMemberKeeps(initial, frames, ledger, frame);
    } else {
      AcceptedFrameKeeps(initial, frames, ledger, frame);
    }
  }

  lemma RefusedMemberKeeps(initial: Ledger, frames: seq<Frame>, ledger: Ledger, frame: Frame)
    requires Holds(initial, frames, ledger) && CheckRoot(ledger, frame).None?
    requires Observe(ledger, frame).1.Refused?
    ensures Holds(initial, frames + [frame], Observe(ledger, frame).0)
    ensures LiveIn(Observe(ledger, frame).0, frame)
  {
    hide Linked;
    RefreshedIsAnchored(initial, frames, ledger, frame);
    var refreshed := Refresh(ledger.root.id, ledger.known, frame);
    var r :| r in refreshed && r.id == ledger.root.id;
    assert SameProcessInstance(r, ledger.root);
    assert Observe(ledger, frame).0.known == refreshed;
    RefreshedIsLive(ledger, frame);
  }

  lemma RefreshedIsLive(ledger: Ledger, frame: Frame)
    requires DistinctIds(ledger.known)
    ensures forall p <- Refresh(ledger.root.id, ledger.known, frame) :: p.id != ledger.root.id ==> p in frame
  {
    RefreshFacts(ledger.root.id, ledger.known, frame);
  }

  lemma AcceptedFrameKeeps(initial: Ledger, frames: seq<Frame>, ledger: Ledger, frame: Frame)
    requires Attributing(initial) && Holds(initial, frames, ledger)
    requires Observe(ledger, frame).1.Observed?
    ensures Holds(initial, frames + [frame], Observe(ledger, frame).0)
    ensures LiveIn(Observe(ledger, frame).0, frame)
  {
    var run := frames + [frame];
    var root := FollowRoot(ledger.root, frame);
    var refreshed := Refresh(root.id, ledger.known, frame);
    var inGroup := InGroup(ledger.group, ledger.groupStartedAtMicros);
    var members := Select(frame, inGroup);
    var descendants := Closure(Ids(refreshed), frame);
    var known := Adopt(refreshed, members + descendants);
    RefreshedIsAnchored(initial, frames, ledger, frame);
    RefreshedIsLive(ledger, frame);
    ClosureIsLinked(initial, run, refreshed);
    ClosureIdsExact(Ids(refreshed), frame);
    AdoptFacts(refreshed, members + descendants);
    SelectMembers(frame, inGroup);
    var r :| r in refreshed && r.id == root.id;
    assert r in known;
    forall p <- known
      ensures Linked(initial, run, InstanceOf(p))
      ensures p.id != root.id ==> p in frame
    {
      if p !in refreshed && p !in descendants {
        assert p in members && p.id !in Ids(refreshed);
        assert !HasInstance(refreshed, p);
        var d :| d in descendants && SameProcessInstance(d, p);
        assert InstanceOf(d) == InstanceOf(p);
      }
    }
  }

  lemma StartHolds(initial: Ledger)
    requires WellFormed(initial)
    ensures Holds(initial, [], initial)
  {
    forall p <- initial.known ensures Linked(initial, [], InstanceOf(p)) {
      assert Supports(Origin(InstanceOf(p)), initial, []) && Origin(InstanceOf(p)).Subject() == InstanceOf(p);
    }
  }

  /** After any run of observations by an observer that keeps foreign members out, refused observations included:
      PIDs in the ledger are distinct, the root instance is present, and every entry is linked to what was owned at
      the start by edges seen in the frames. Unless the latest frame was refused for its root, every entry but the root
      was seen in it. */
  lemma {:induction false} LedgerInvariant(initial: Ledger, frames: seq<Frame>)
    requires WellFormed(initial) && Attributing(initial)
    ensures Holds(initial, frames, After(initial, frames))
    ensures frames != [] ==>
              var front, latest := frames[..|frames| - 1], frames[|frames| - 1];
              CheckRoot(After(initial, front), latest).None? ==> LiveIn(After(initial, frames), latest)
  {
    hide Holds, Observe, LiveIn, CheckRoot;
    if frames == [] {
      StartHolds(initial);
    } else {
      var front, latest := frames[..|frames| - 1], frames[|frames| - 1];
      LedgerInvariant(initial, front);
      ObserveKeeps(initial, front, After(initial, front), latest);
      assert front + [latest] == frames;
    }
  }

  /** What a successful observation returns: the current snapshot of every ledger entry the frame shows, and
      nothing that is not in the ledger. */
  lemma ObservationIsLedger(ledger: Ledger, frame: Frame)
    requires Observe(ledger, frame).1.Observed?
    ensures var (after, observation) := Observe(ledger, frame);
            && (forall p <- observation.live :: p in frame && HasInstance(after.known, p))
            && (forall k <- after.known :: HasInstance(frame, k) ==> HasInstance(observation.live, k))
  {
    LiveFacts(Observe(ledger, frame).0.known, frame);
  }

  // ----- Refusing foreign members is what the lineage rests on -----

  /** A PID above all in the list. */
  function Above(known: seq<ProcessSnapshot>): (pid: nat)
    ensures forall p <- known :: p.id < pid
  {
    if known == [] then 0
    else
      var rest := Above(known[1..]);
      if known[0].id < rest then rest else known[0].id + 1
  }

  /** A process of the ledger's group with nothing else to connect it to the ledger. */
  function Stranger(ledger: Ledger): ProcessSnapshot
    requires ledger.group.Some?
  {
    var pid := Above(ledger.known);
    ProcessSnapshot(pid, pid + 1, ledger.group.value, "stranger", ledger.groupStartedAtMicros)
  }

  lemma StrangerIsAlone(ledger: Ledger)
    requires WellFormed(ledger) && ledger.group.Some?
    ensures var stranger := Stranger(ledger);
            var refreshed := Refresh(ledger.root.id, ledger.known, [stranger]);
            && FindId([stranger], ledger.root.id).None?
            && stranger.id !in Ids(refreshed)
            && Closure(Ids(refreshed), [stranger]) == []
            && Select([stranger], InGroup(ledger.group, ledger.groupStartedAtMicros)) == [stranger]
  {
    var stranger := Stranger(ledger);
    var frame := [stranger];
    var refreshed := Refresh(ledger.root.id, ledger.known, frame);
    var r :| r in ledger.known && SameProcessInstance(r, ledger.root);
    assert stranger in frame && frame[1..] == [];
    RefreshIds(ledger.root.id, ledger.known, frame);
    assert forall id <- Ids(ledger.known) :: id < stranger.id;
    assert Sweep(Ids(refreshed), frame) == [];
  }

  lemma StrangerHasNoLineage(ledger: Ledger, lineage: Lineage)
    requires WellFormed(ledger) && ledger.group.Some?
    requires lineage.Subject() == InstanceOf(Stranger(ledger))
    ensures !Supports(lineage, ledger, [[Stranger(ledger)]])
  {
    var r :| r in ledger.known && SameProcessInstance(r, ledger.root);
  }

  /** An observer with a group that does not refuse foreign members adopts a process that no parent edge accounts
      for, whatever it owns; one that does refuse them reports the PID. */
  lemma GroupAloneIsNoLineage(initial: Ledger)
    requires WellFormed(initial) && initial.group.Some?
    ensures var stranger := Stranger(initial);
            && !Linked(initial, [[stranger]], InstanceOf(stranger))
            && if initial.rejectsForeign then Observe(initial, [stranger]).1 == Refused(UnattributedMember(stranger.id))
               else Observe(initial, [stranger]).1.Observed? && stranger in Observe(initial, [stranger]).0.known
  {
    hide Closure, InGroup, Supports, Refresh, WellFormed;
    var stranger := Stranger(initial);
    StrangerIsAlone(initial);
    var refreshed := Refresh(initial.root.id, initial.known, [stranger]);
    forall p <- refreshed ensures !SameProcessInstance(p, stranger) {
      assert p.id in Ids(refreshed);
    }
    assert [stranger] + [] == [stranger] && [stranger][1..] == [];
    assert Adopt(refreshed, [stranger]) == refreshed + [stranger];
    forall lineage: Lineage | lineage.Subject() == InstanceOf(stranger)
      ensures !Supports(lineage, initial, [[stranger]])
    {
      StrangerHasNoLineage(initial, lineage);
    }
  }

  ghost predicate HoldsAfter(initial: Ledger, frames: seq<Frame>) {
    Holds(initial, frames, After(initial, frames))
  }

  /** Over all runs, every ledger is linked exactly when the observer has no group or refuses foreign members. */
  lemma LineageExactly(initial: Ledger)
    requires WellFormed(initial)
    ensures (forall frames: seq<Frame> :: HoldsAfter(initial, frames)) <==> Attributing(initial)
  {
    hide Observe, WellFormed, Linked;
    if Attributing(initial) {
      forall frames: seq<Frame> ensures HoldsAfter(initial, frames) {
        LedgerInvariant(initial, frames);
      }
    } else {
      var frame: Frame := [Stranger(initial)];
      var run: seq<Frame> := [frame];
      GroupAloneIsNoLineage(initial);
      assert run[..0] == [] && After(initial, []) == initial;
      assert After(initial, run) == Observe(initial, frame).0;
      assert !HoldsAfter(initial, run);
    }
  }

  // ----- Nobody is missed -----

  /** Whoever has a parent in the ledger, and every group member, is in the ledger. */
  ghost predicate Complete(ledger: Ledger, frame: Frame) {
    forall p <- frame ::
      p.parentId in Ids(ledger.known) || InGroup(ledger.group, ledger.groupStartedAtMicros)(p) ==> p.id in Ids(ledger.known)
  }

  ghost predicate CompleteAfter(ledger: Ledger, frame: Frame) {
    Observe(ledger, frame).1.Observed? ==> Complete(Observe(ledger, frame).0, frame)
  }

  lemma {:induction false} AdoptIds(known: seq<ProcessSnapshot>, observed: seq<ProcessSnapshot>)
    ensures Ids(Adopt(known, observed)) == Ids(known) + Ids(observed)
    decreases |observed|
  {
    if observed != [] {
      var head, rest := observed[0], observed[1..];
      assert observed == [head] + rest;
      IdsOfConcat([head], rest);
      IdsOfConcat(known, [head]);
      AdoptIds(if head.id in Ids(known) then known else known + [head], rest);
    }
  }

  /** What an accepted frame adds: group members, which are accounted for, and descendants. */
  lemma AcceptedIds(ledger: Ledger, frame: Frame)
    requires Attributing(ledger) && Observe(ledger, frame).1.Observed?
    ensures var refreshed := Refresh(ledger.root.id, ledger.known, frame);
            var members := Select(frame, InGroup(ledger.group, ledger.groupStartedAtMicros));
            var descendants := Closure(Ids(refreshed), frame);
            var after := Observe(ledger, frame).0;
            && after.group == ledger.group && after.groupStartedAtMicros == ledger.groupStartedAtMicros
            && Ids(after.known) == Ids(refreshed) + (Ids(members) + Ids(descendants))
            && (ledger.group.Some? ==> FirstForeign(members, refreshed, descendants).None?)
  {
    hide Refresh, Select, Closure, InGroup, FirstForeign, Adopt, Live, Ids, CheckRoot;
    var refreshed := Refresh(ledger.root.id, ledger.known, frame);
    var members := Select(frame, InGroup(ledger.group, ledger.groupStartedAtMicros));
    var descendants := Closure(Ids(refreshed), frame);
    AdoptIds(refreshed, members + descendants);
    IdsOfConcat(members, descendants);
  }

  lemma AccountedFor(members: seq<ProcessSnapshot>, known: seq<ProcessSnapshot>, permitted: seq<ProcessSnapshot>)
    requires FirstForeign(members, known, permitted).None?
    ensures Ids(members) <= Ids(known) + Ids(permitted)
  {
    hide FirstForeign, HasInstance;
    forall m <- members ensures m.id in Ids(known) + Ids(permitted) {
      InstanceHasId(known, m);
      InstanceHasId(permitted, m);
    }
  }

  lemma InstanceHasId(processes: seq<ProcessSnapshot>, process: ProcessSnapshot)
    ensures HasInstance(processes, process) ==> process.id in Ids(processes)
  {
    if HasInstance(processes, process) {
      var k :| k in processes && SameProcessInstance(k, process);
      assert k.id == process.id;
    }
  }

  /** An accepted frame leaves nobody out who belongs to an observer that keeps foreign members out. */
  lemma ObservationIsComplete(ledger: Ledger, frame: Frame)
    requires Attributing(ledger)
    ensures CompleteAfter(ledger, frame)
  {
    hide Observe, Refresh, Select, Closure, FirstForeign;
    if Observe(ledger, frame).1.Observed? {
      var refreshed := Refresh(ledger.root.id, ledger.known, frame);
      var inGroup := InGroup(ledger.group, ledger.groupStartedAtMicros);
      var members := Select(frame, inGroup);
      var descendants := Closure(Ids(refreshed), frame);
      AcceptedIds(ledger, frame);
      if ledger.group.Some? {
        AccountedFor(members, refreshed, descendants);
      }
      SelectMembers(frame, inGroup);
      assert ledger.group.None? ==> Ids(members) == {};
      ClosureIsClosed(Ids(refreshed), frame);
      assert forall m <- members :: m.id in Ids(members);
    }
  }

  /** The child of a stranger, in no group of the ledger's. */
  function StrangersChild(ledger: Ledger): ProcessSnapshot
    requires ledger.group.Some?
  {
    var pid := Above(ledger.known);
    ProcessSnapshot(pid + 2, pid, ledger.group.value + 1, "child", ledger.groupStartedAtMicros)
  }

  lemma StrangersChildIsApart(ledger: Ledger)
    requires WellFormed(ledger) && ledger.group.Some?
    ensures var stranger, child := Stranger(ledger), StrangersChild(ledger);
            var frame := [stranger, child];
            var refreshed := Refresh(ledger.root.id, ledger.known, frame);
            && FindId(frame, ledger.root.id).None?
            && (forall id <- Ids(refreshed) :: id < stranger.id)
            && Closure(Ids(refreshed), frame) == []
            && Select(frame, InGroup(ledger.group, ledger.groupStartedAtMicros)) == [stranger]
  {
    hide Adopt, Live;
    var stranger, child := Stranger(ledger), StrangersChild(ledger);
    var frame := [stranger, child];
    var inGroup := InGroup(ledger.group, ledger.groupStartedAtMicros);
    var refreshed := Refresh(ledger.root.id, ledger.known, frame);
    var r :| r in ledger.known && SameProcessInstance(r, ledger.root);
    assert forall id <- Ids(ledger.known) :: id < stranger.id;
    assert frame[1..] == [child] && [child][1..] == [];
    RefreshIds(ledger.root.id, ledger.known, frame);
    assert Sweep(Ids(refreshed), [child]) == [];
    assert Sweep(Ids(refreshed), frame) == [];
    assert [stranger] + [] == [stranger];
    assert Select([child], inGroup) == [] && Select(frame, inGroup) == [stranger] + Select([child], inGroup);
  }

  lemma StrangersChildIsMissed(ledger: Ledger)
    requires WellFormed(ledger) && !Attributing(ledger)
    ensures !CompleteAfter(ledger, [Stranger(ledger), StrangersChild(ledger)])
  {
    hide Refresh, Closure, InGroup, Select, Live, Adopt, FirstForeign, WellFormed, FindId, Above;
    var stranger, child := Stranger(ledger), StrangersChild(ledger);
    var frame := [stranger, child];
    var refreshed := Refresh(ledger.root.id, ledger.known, frame);
    StrangersChildIsApart(ledger);
    assert [stranger] + [] == [stranger];
    AdoptIds(refreshed, [stranger]);
    assert Ids([stranger]) == {stranger.id};
    var known := Observe(ledger, frame).0.known;
    assert known == Adopt(refreshed, [stranger]);
    assert child in frame && child.parentId in Ids(known) && child.id !in Ids(known);
  }

  /** Accepted frames leave nobody out exactly when the observer has no group or refuses foreign members: one that adopts
      a stranger misses the stranger's child in the same frame. */
  lemma CompletenessExactly(ledger: Ledger)
    requires WellFormed(ledger)
    ensures (forall frame: Frame :: CompleteAfter(ledger, frame)) <==> Attributing(ledger)
  {
    hide CompleteAfter;
    if Attributing(ledger) {
      forall frame: Frame ensures CompleteAfter(ledger, frame) {
        ObservationIsComplete(ledger, frame);
      }
    } else {
      StrangersChildIsMissed(ledger);
    }
  }
}
