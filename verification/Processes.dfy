/** Process snapshots and the descendant closure both process observers share
    (crates/platform/src/process.rs, crates/shim/src/remote_lifecycle.rs). */
module Processes {

  datatype ProcessSnapshot = ProcessSnapshot(
    id: nat,
    parentId: nat,
    processGroupId: nat,
    executable: string,
    startedAtMicros: nat)

  /** A process instance: a PID together with the start time that tells two users of that PID apart. */
  datatype Instance = Instance(id: nat, startedAtMicros: nat)

  function InstanceOf(process: ProcessSnapshot): Instance {
    Instance(process.id, process.startedAtMicros)
  }

  predicate SameProcessInstance(expected: ProcessSnapshot, current: ProcessSnapshot) {
    expected.id == current.id && expected.startedAtMicros == current.startedAtMicros
  }

  function Ids(processes: seq<ProcessSnapshot>): set<nat> {
    set process <- processes :: process.id
  }

  ghost predicate DistinctIds(processes: seq<ProcessSnapshot>) {
    forall i, j :: 0 <= i < j < |processes| ==> processes[i].id != processes[j].id
  }

  lemma IdsOfConcat(a: seq<ProcessSnapshot>, b: seq<ProcessSnapshot>)
    ensures Ids(a + b) == Ids(a) + Ids(b)
  {
    assert forall p :: p in a + b <==> p in a || p in b;
  }

  lemma PrependDistinct(head: ProcessSnapshot, rest: seq<ProcessSnapshot>)
    ensures DistinctIds([head] + rest) <==> DistinctIds(rest) && head.id !in Ids(rest)
    ensures Ids([head] + rest) == {head.id} + Ids(rest)
  {
    var whole := [head] + rest;
    IdsOfConcat([head], rest);
    if DistinctIds(whole) {
      forall i, j | 0 <= i < j < |rest| ensures rest[i].id != rest[j].id {
        assert whole[i + 1] == rest[i] && whole[j + 1] == rest[j];
      }
      forall p <- rest ensures p.id != head.id {
        var k :| 0 <= k < |rest| && rest[k] == p;
        assert whole[0].id != whole[k + 1].id;
      }
    }
    if DistinctIds(rest) && head.id !in Ids(rest) {
      forall i, j | 0 <= i < j < |whole| ensures whole[i].id != whole[j].id {
        assert whole[j] == rest[j - 1];
        assert rest[j - 1] in rest;
        assert i > 0 ==> whole[i] == rest[i - 1];
      }
    }
  }

  // ----- The closure as a function -----

  /** What one pass over the snapshots adds to `owned`, in snapshot order. */
  function Sweep(owned: set<nat>, snapshots: seq<ProcessSnapshot>): seq<ProcessSnapshot>
    decreases |snapshots|
  {
    if snapshots == [] then []
    else if snapshots[0].id !in owned && snapshots[0].parentId in owned then
      [snapshots[0]] + Sweep(owned + {snapshots[0].id}, snapshots[1..])
    else
      Sweep(owned, snapshots[1..])
  }

  lemma {:induction false} SweepFacts(owned: set<nat>, snapshots: seq<ProcessSnapshot>)
    ensures forall p <- Sweep(owned, snapshots) :: p in snapshots && p.id !in owned
    ensures DistinctIds(Sweep(owned, snapshots))
    ensures Ids(Sweep(owned, snapshots)) <= Ids(snapshots) - owned
    decreases |snapshots|
  {
    if snapshots != [] {
      var s := snapshots[0];
      if s.id !in owned && s.parentId in owned {
        SweepFacts(owned + {s.id}, snapshots[1..]);
      } else {
        SweepFacts(owned, snapshots[1..]);
      }
    }
  }

  /** Passes are repeated until one adds nothing. */
  function Closure(owned: set<nat>, snapshots: seq<ProcessSnapshot>): seq<ProcessSnapshot>
    decreases Ids(snapshots) - owned
  {
    var added := Sweep(owned, snapshots);
    SweepFacts(owned, snapshots);
    if added == [] then []
    else
      assert added[0].id in Ids(added);
      added + Closure(owned + Ids(added), snapshots)
  }

  // ----- What the closure means -----

  /** `path` climbs down from a child of `roots`, one parent edge at a time. */
  ghost predicate ParentChain(roots: set<nat>, snapshots: seq<ProcessSnapshot>, path: seq<ProcessSnapshot>) {
    && path != []
    && path[0].parentId in roots
    && (forall p <- path :: p in snapshots)
    && (forall i :: 0 < i < |path| ==> path[i].parentId == path[i - 1].id)
  }

  ghost predicate Descends(roots: set<nat>, snapshots: seq<ProcessSnapshot>, process: ProcessSnapshot) {
    exists path :: ParentChain(roots, snapshots, path) && path[|path| - 1] == process
  }

  /** Chains of accepted ids can be spliced onto chains from the roots. */
  lemma {:induction false} DescendsExtend(
    roots: set<nat>, snapshots: seq<ProcessSnapshot>, parent: ProcessSnapshot, child: ProcessSnapshot)
    requires Descends(roots, snapshots, parent)
    requires child in snapshots && child.parentId == parent.id
    ensures Descends(roots, snapshots, child)
  {
    var path :| ParentChain(roots, snapshots, path) && path[|path| - 1] == parent;
    assert ParentChain(roots, snapshots, path + [child]);
    assert (path + [child])[|path + [child]| - 1] == child;
  }

  lemma DescendsDirect(roots: set<nat>, snapshots: seq<ProcessSnapshot>, child: ProcessSnapshot)
    requires child in snapshots && child.parentId in roots
    ensures Descends(roots, snapshots, child)
  {
    assert ParentChain(roots, snapshots, [child]);
    assert [child][|[child]| - 1] == child;
  }

  /** Every owned id is a root or belongs to a descendant. */
  ghost predicate Attributed(roots: set<nat>, snapshots: seq<ProcessSnapshot>, owned: set<nat>) {
    forall id <- owned :: id in roots || exists p <- snapshots :: p.id == id && Descends(roots, snapshots, p)
  }

  lemma DescendsFromAttributed(
    roots: set<nat>, snapshots: seq<ProcessSnapshot>, owned: set<nat>, child: ProcessSnapshot)
    requires Attributed(roots, snapshots, owned)
    requires child in snapshots && child.parentId in owned
    ensures Descends(roots, snapshots, child)
  {
    if child.parentId in roots {
      DescendsDirect(roots, snapshots, child);
    } else {
      var parent :| parent in snapshots && parent.id == child.parentId && Descends(roots, snapshots, parent);
      DescendsExtend(roots, snapshots, parent, child);
    }
  }

  lemma {:induction false} SweepSound(
    roots: set<nat>, all: seq<ProcessSnapshot>, owned: set<nat>, snapshots: seq<ProcessSnapshot>)
    requires Attributed(roots, all, owned)
    requires forall p <- snapshots :: p in all
    ensures forall p <- Sweep(owned, snapshots) :: Descends(roots, all, p)
    ensures Attributed(roots, all, owned + Ids(Sweep(owned, snapshots)))
    decreases |snapshots|
  {
    if snapshots != [] {
      var s := snapshots[0];
      if s.id !in owned && s.parentId in owned {
        DescendsFromAttributed(roots, all, owned, s);
        SweepSound(roots, all, owned + {s.id}, snapshots[1..]);
        var rest := Sweep(owned + {s.id}, snapshots[1..]);
        IdsOfConcat([s], rest);
        assert owned + Ids([s] + rest) == owned + {s.id} + Ids(rest);
      } else {
        SweepSound(roots, all, owned, snapshots[1..]);
      }
    }
  }

  lemma {:induction false} ClosureSound(roots: set<nat>, snapshots: seq<ProcessSnapshot>, owned: set<nat>)
    requires Attributed(roots, snapshots, owned)
    ensures forall p <- Closure(owned, snapshots) :: p in snapshots && p.id !in owned && Descends(roots, snapshots, p)
    ensures DistinctIds(Closure(owned, snapshots))
    decreases Ids(snapshots) - owned
  {
    var added := Sweep(owned, snapshots);
    SweepFacts(owned, snapshots);
    if added != [] {
      assert added[0].id in Ids(added);
      SweepSound(roots, snapshots, owned, snapshots);
      ClosureSound(roots, snapshots, owned + Ids(added));
      var rest := Closure(owned + Ids(added), snapshots);
      forall i, j | 0 <= i < |added| && 0 <= j < |rest| ensures added[i].id != rest[j].id {
        assert added[i].id in Ids(added);
        assert rest[j] in rest;
      }
    }
  }

  /** A set of ids no snapshot can extend. */
  ghost predicate ParentClosed(owned: set<nat>, snapshots: seq<ProcessSnapshot>) {
    forall p <- snapshots :: p.parentId in owned ==> p.id in owned
  }

  lemma {:induction false} EmptySweepIsClosed(owned: set<nat>, snapshots: seq<ProcessSnapshot>)
    requires Sweep(owned, snapshots) == []
    ensures ParentClosed(owned, snapshots)
  {
    if snapshots != [] {
      EmptySweepIsClosed(owned, snapshots[1..]);
    }
  }

  lemma {:induction false} ClosureIsClosed(owned: set<nat>, snapshots: seq<ProcessSnapshot>)
    ensures ParentClosed(owned + Ids(Closure(owned, snapshots)), snapshots)
    decreases Ids(snapshots) - owned
  {
    var added := Sweep(owned, snapshots);
    SweepFacts(owned, snapshots);
    if added == [] {
      EmptySweepIsClosed(owned, snapshots);
      assert owned + Ids([]) == owned;
    } else {
      assert added[0].id in Ids(added);
      ClosureIsClosed(owned + Ids(added), snapshots);
      var rest := Closure(owned + Ids(added), snapshots);
      IdsOfConcat(added, rest);
      assert owned + Ids(added + rest) == owned + Ids(added) + Ids(rest);
    }
  }

  lemma {:induction false} ChainStaysInside(
    roots: set<nat>, snapshots: seq<ProcessSnapshot>, closed: set<nat>, path: seq<ProcessSnapshot>)
    requires roots <= closed && ParentClosed(closed, snapshots)
    requires ParentChain(roots, snapshots, path)
    ensures path[|path| - 1].id in closed
  {
    if |path| > 1 {
      var shorter := path[..|path| - 1];
      assert forall i :: 0 < i < |shorter| ==> shorter[i].parentId == shorter[i - 1].id;
      ChainStaysInside(roots, snapshots, closed, shorter);
      assert path[|path| - 1] in snapshots;
    } else {
      assert path[0] in snapshots;
    }
  }

  /** The ids the closure returns are exactly the non-root ids with a parent chain to a root, each once.
      Nothing is assumed about the frame: PIDs may even repeat in it. */
  lemma ClosureIdsExact(roots: set<nat>, snapshots: seq<ProcessSnapshot>)
    ensures DistinctIds(Closure(roots, snapshots))
    ensures forall p <- Closure(roots, snapshots) :: p in snapshots && p.id !in roots && Descends(roots, snapshots, p)
    ensures forall p <- snapshots :: Descends(roots, snapshots, p) && p.id !in roots ==> p.id in Ids(Closure(roots, snapshots))
  {
    ClosureSound(roots, snapshots, roots);
    ClosureIsClosed(roots, snapshots);
    forall p <- snapshots | Descends(roots, snapshots, p) && p.id !in roots
      ensures p.id in Ids(Closure(roots, snapshots))
    {
      var path :| ParentChain(roots, snapshots, path) && path[|path| - 1] == p;
      ChainStaysInside(roots, snapshots, roots + Ids(Closure(roots, snapshots)), path);
    }
  }

  lemma DistinctIdsIdentify(processes: seq<ProcessSnapshot>, a: ProcessSnapshot, b: ProcessSnapshot)
    requires DistinctIds(processes) && a in processes && b in processes && a.id == b.id
    ensures a == b
  {
    var i :| 0 <= i < |processes| && processes[i] == a;
    var j :| 0 <= j < |processes| && processes[j] == b;
    assert !(i < j) && !(j < i);
  }

  /** In a frame whose PIDs are distinct the closure is the set of descendants itself. */
  lemma ClosureExact(roots: set<nat>, snapshots: seq<ProcessSnapshot>)
    requires DistinctIds(snapshots)
    ensures forall p :: p in Closure(roots, snapshots) <==>
      p in snapshots && p.id !in roots && Descends(roots, snapshots, p)
  {
    ClosureIdsExact(roots, snapshots);
    forall p <- snapshots | p.id !in roots && Descends(roots, snapshots, p)
      ensures p in Closure(roots, snapshots)
    {
      var q :| q in Closure(roots, snapshots) && q.id == p.id;
      DistinctIdsIdentify(snapshots, p, q);
    }
  }

  // ----- The two implementations -----

  function IdSet(ids: seq<nat>): set<nat> {
    set id <- ids
  }

  /** A pass that started from `before` has added `pass` so far and still has `rest` to look at. */
  ghost predicate MidPass(
    snapshots: seq<ProcessSnapshot>, before: set<nat>, owned: set<nat>,
    pass: seq<ProcessSnapshot>, rest: seq<ProcessSnapshot>)
  {
    && pass + Sweep(owned, rest) == Sweep(before, snapshots)
    && owned == before + Ids(pass)
  }

  lemma PassStart(snapshots: seq<ProcessSnapshot>, before: set<nat>)
    ensures MidPass(snapshots, before, before, [], snapshots[0..])
  {
    assert snapshots[0..] == snapshots;
    assert [] + Sweep(before, snapshots) == Sweep(before, snapshots);
  }

  lemma PassStep(
    snapshots: seq<ProcessSnapshot>, before: set<nat>, owned: set<nat>, pass: seq<ProcessSnapshot>, i: nat)
    requires i < |snapshots|
    requires MidPass(snapshots, before, owned, pass, snapshots[i..])
    ensures var s := snapshots[i];
            if s.id !in owned && s.parentId in owned
            then MidPass(snapshots, before, owned + {s.id}, pass + [s], snapshots[i + 1..])
            else MidPass(snapshots, before, owned, pass, snapshots[i + 1..])
  {
    var s := snapshots[i];
    assert snapshots[i..][1..] == snapshots[i + 1..];
    if s.id !in owned && s.parentId in owned {
      IdsOfConcat(pass, [s]);
      var rest := Sweep(owned + {s.id}, snapshots[i + 1..]);
      assert pass + ([s] + rest) == (pass + [s]) + rest;
    }
  }

  lemma PassDone(
    snapshots: seq<ProcessSnapshot>, before: set<nat>, owned: set<nat>, pass: seq<ProcessSnapshot>,
    found: seq<ProcessSnapshot>, whole: seq<ProcessSnapshot>)
    requires MidPass(snapshots, before, owned, pass, snapshots[|snapshots|..])
    requires found + Closure(before, snapshots) == whole
    ensures found + pass + Closure(owned, snapshots) == whole
    ensures pass == [] ==> found == whole
    ensures pass != [] ==> Ids(snapshots) - owned < Ids(snapshots) - before
  {
    assert Sweep(owned, snapshots[|snapshots|..]) == [];
    assert pass + [] == pass == Sweep(before, snapshots);
    SweepFacts(before, snapshots);
    if pass != [] {
      assert pass[0].id in Ids(pass);
      var rest := Closure(owned, snapshots);
      assert found + (pass + rest) == found + pass + rest;
    } else {
      assert owned == before;
      assert found + [] == found;
    }
  }

  method DescendantSnapshots(roots: seq<nat>, snapshots: seq<ProcessSnapshot>)
    returns (descendants: seq<ProcessSnapshot>)
    ensures descendants == Closure(IdSet(roots), snapshots)
  {
    hide MidPass, Closure;
    var ownedIds := roots;
    descendants := [];
    while true
      invariant descendants + Closure(IdSet(ownedIds), snapshots) == Closure(IdSet(roots), snapshots)
      decreases Ids(snapshots) - IdSet(ownedIds)
    {
      var changed := false;
      ghost var before, found := IdSet(ownedIds), descendants;
      ghost var owned, pass := before, [];
      PassStart(snapshots, before);
      for i := 0 to |snapshots|
        invariant descendants == found + pass && (changed <==> pass != [])
        invariant owned == IdSet(ownedIds)
        invariant MidPass(snapshots, before, owned, pass, snapshots[i..])
      {
        var snapshot := snapshots[i];
        PassStep(snapshots, before, owned, pass, i);
        if snapshot.id !in ownedIds && snapshot.parentId in ownedIds {
          ownedIds := ownedIds + [snapshot.id];
          descendants := descendants + [snapshot];
          changed := true;
          owned, pass := owned + {snapshot.id}, pass + [snapshot];
        }
      }
      PassDone(snapshots, before, owned, pass, found, Closure(IdSet(roots), snapshots));
      if !changed {
        return;
      }
    }
  }

  /** The remote lifecycle's own closure, which starts its list with the root and keeps ids in a hash set. */
  method RemoteDescendants(root: ProcessSnapshot, snapshots: seq<ProcessSnapshot>)
    returns (selected: seq<ProcessSnapshot>)
    ensures selected == [root] + Closure({root.id}, snapshots)
  {
    hide MidPass, Closure;
    ghost var whole := [root] + Closure({root.id}, snapshots);
    selected := [root];
    var selectedIds := {root.id};
    while true
      invariant selected + Closure(selectedIds, snapshots) == whole
      decreases Ids(snapshots) - selectedIds
    {
      var changed := false;
      ghost var before, found := selectedIds, selected;
      ghost var owned, pass := before, [];
      PassStart(snapshots, before);
      for i := 0 to |snapshots|
        invariant selected == found + pass && (changed <==> pass != [])
        invariant owned == selectedIds && MidPass(snapshots, before, owned, pass, snapshots[i..])
      {
        var snapshot := snapshots[i];
        PassStep(snapshots, before, owned, pass, i);
        if snapshot.id !in selectedIds && snapshot.parentId in selectedIds {
          selectedIds := selectedIds + {snapshot.id};
          selected := selected + [snapshot];
          changed := true;
          owned, pass := owned + {snapshot.id}, pass + [snapshot];
        }
      }
      PassDone(snapshots, before, owned, pass, found, whole);
      if !changed {
        break;
      }
    }
  }

  /** Both implementations, run on the same frame, list the same processes in the same order. */
  method CompareImplementations(root: ProcessSnapshot, snapshots: seq<ProcessSnapshot>)
    returns (remote: seq<ProcessSnapshot>, local: seq<ProcessSnapshot>)
    ensures remote == [root] + local
  {
    remote := RemoteDescendants(root, snapshots);
    local := DescendantSnapshots([root.id], snapshots);
    assert IdSet([root.id]) == {root.id};
  }
}
