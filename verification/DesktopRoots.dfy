/** Which processes are Codex Desktop roots (crates/platform/src/process.rs:220-255). */
module DesktopRoots {
  import opened Processes
  import opened Sequences

  function HasExecutable(desktopExecutable: string): ProcessSnapshot -> bool {
    (process: ProcessSnapshot) => process.executable == desktopExecutable
  }

  function HasExecutableOutside(desktopExecutable: string, parents: set<nat>): ProcessSnapshot -> bool {
    (process: ProcessSnapshot) => process.executable == desktopExecutable && process.parentId !in parents
  }

  function ProcessId(): ProcessSnapshot -> nat {
    (process: ProcessSnapshot) => process.id
  }

  function TreeStarts(desktopExecutable: string, snapshots: seq<ProcessSnapshot>): seq<ProcessSnapshot> {
    var matchingIds := Ids(Select(snapshots, HasExecutable(desktopExecutable)));
    Select(snapshots, HasExecutableOutside(desktopExecutable, matchingIds))
  }

  function DesktopProcessTree(desktopExecutable: string, snapshots: seq<ProcessSnapshot>): seq<ProcessSnapshot> {
    var roots := TreeStarts(desktopExecutable, snapshots);
    SortByKey(roots + Closure(Ids(roots), snapshots), ProcessId())
  }

  function DesktopRootSnapshots(desktopExecutable: string, snapshots: seq<ProcessSnapshot>): seq<ProcessSnapshot> {
    var tree := DesktopProcessTree(desktopExecutable, snapshots);
    Select(tree, HasExecutableOutside(desktopExecutable, Ids(tree)))
  }

  // ----- What a Desktop root is -----

  ghost predicate ProperAncestor(snapshots: seq<ProcessSnapshot>, ancestor: ProcessSnapshot, process: ProcessSnapshot) {
    ancestor in snapshots && Descends({ancestor.id}, snapshots, process)
  }

  ghost predicate Acyclic(snapshots: seq<ProcessSnapshot>) {
    forall p <- snapshots :: !ProperAncestor(snapshots, p, p)
  }

  ghost predicate HasDesktopAncestor(desktopExecutable: string, snapshots: seq<ProcessSnapshot>, process: ProcessSnapshot) {
    exists a <- snapshots :: a.executable == desktopExecutable && ProperAncestor(snapshots, a, process)
  }

  lemma AncestorTransitive(
    snapshots: seq<ProcessSnapshot>, a: ProcessSnapshot, b: ProcessSnapshot, c: ProcessSnapshot)
    requires ProperAncestor(snapshots, a, b) && ProperAncestor(snapshots, b, c)
    ensures ProperAncestor(snapshots, a, c)
  {
    var upper :| ParentChain({a.id}, snapshots, upper) && upper[|upper| - 1] == b;
    var lower :| ParentChain({b.id}, snapshots, lower) && lower[|lower| - 1] == c;
    var whole := upper + lower;
    assert ParentChain({a.id}, snapshots, whole);
    assert whole[|whole| - 1] == c;
  }

  ghost function Ancestors(snapshots: seq<ProcessSnapshot>, process: ProcessSnapshot): set<ProcessSnapshot> {
    set a <- snapshots | ProperAncestor(snapshots, a, process)
  }

  lemma AncestorsShrink(snapshots: seq<ProcessSnapshot>, parent: ProcessSnapshot, child: ProcessSnapshot)
    requires Acyclic(snapshots) && ProperAncestor(snapshots, parent, child)
    ensures Ancestors(snapshots, parent) < Ancestors(snapshots, child)
  {
    forall a <- Ancestors(snapshots, parent) ensures a in Ancestors(snapshots, child) {
      AncestorTransitive(snapshots, a, parent, child);
    }
    assert parent in Ancestors(snapshots, child) - Ancestors(snapshots, parent);
  }

  /** The processes the tree starts from: the Desktop executable, below no matching parent. */
  ghost predicate StartsTree(desktopExecutable: string, snapshots: seq<ProcessSnapshot>, process: ProcessSnapshot) {
    && process in snapshots
    && process.executable == desktopExecutable
    && !exists parent <- snapshots :: parent.executable == desktopExecutable && parent.id == process.parentId
  }

  /** Above every Desktop process there is one the tree starts from. */
  lemma {:induction false} TopmostDesktop(
    desktopExecutable: string, snapshots: seq<ProcessSnapshot>, process: ProcessSnapshot)
    returns (top: ProcessSnapshot)
    requires Acyclic(snapshots)
    requires process in snapshots && process.executable == desktopExecutable
    ensures StartsTree(desktopExecutable, snapshots, top)
    ensures top == process || ProperAncestor(snapshots, top, process)
    decreases Ancestors(snapshots, process)
  {
    if StartsTree(desktopExecutable, snapshots, process) {
      top := process;
    } else {
      var parent :| parent in snapshots && parent.executable == desktopExecutable && parent.id == process.parentId;
      DescendsDirect({parent.id}, snapshots, process);
      AncestorsShrink(snapshots, parent, process);
      top := TopmostDesktop(desktopExecutable, snapshots, parent);
      if top != parent {
        AncestorTransitive(snapshots, top, parent, process);
      }
    }
  }

  lemma TreeStartsExact(desktopExecutable: string, snapshots: seq<ProcessSnapshot>)
    ensures forall p :: p in TreeStarts(desktopExecutable, snapshots) <==> StartsTree(desktopExecutable, snapshots, p)
  {
    var matching := Select(snapshots, HasExecutable(desktopExecutable));
    SelectMembers(snapshots, HasExecutable(desktopExecutable));
    SelectMembers(snapshots, HasExecutableOutside(desktopExecutable, Ids(matching)));
    forall p <- snapshots
      ensures p.parentId in Ids(matching) <==>
              exists parent <- snapshots :: parent.executable == desktopExecutable && parent.id == p.parentId
    {
      if p.parentId in Ids(matching) {
        var parent :| parent in matching && parent.id == p.parentId;
      }
    }
  }

  lemma TreeMembers(desktopExecutable: string, snapshots: seq<ProcessSnapshot>)
    requires DistinctIds(snapshots)
    ensures forall p :: p in DesktopProcessTree(desktopExecutable, snapshots) <==>
      || StartsTree(desktopExecutable, snapshots, p)
      || (p in snapshots && exists r :: StartsTree(desktopExecutable, snapshots, r) && ProperAncestor(snapshots, r, p))
  {
    var roots := TreeStarts(desktopExecutable, snapshots);
    TreeStartsExact(desktopExecutable, snapshots);
    SortByKeyFacts(roots + Closure(Ids(roots), snapshots), ProcessId());
    ClosureExact(Ids(roots), snapshots);
    forall p ensures p in DesktopProcessTree(desktopExecutable, snapshots) <==>
      || StartsTree(desktopExecutable, snapshots, p)
      || (p in snapshots && exists r :: StartsTree(desktopExecutable, snapshots, r) && ProperAncestor(snapshots, r, p))
    {
      if p in Closure(Ids(roots), snapshots) {
        var path: seq<ProcessSnapshot> :| ParentChain(Ids(roots), snapshots, path) && path[|path| - 1] == p;
        var r :| r in roots && r.id == path[0].parentId;
        assert ParentChain({r.id}, snapshots, path);
        assert ProperAncestor(snapshots, r, p);
      }
      if p in snapshots && exists r :: StartsTree(desktopExecutable, snapshots, r) && ProperAncestor(snapshots, r, p) {
        var r :| StartsTree(desktopExecutable, snapshots, r) && ProperAncestor(snapshots, r, p);
        var path: seq<ProcessSnapshot> :| ParentChain({r.id}, snapshots, path) && path[|path| - 1] == p;
        assert r in roots;
        assert ParentChain(Ids(roots), snapshots, path);
        if p.id in Ids(roots) {
          var q :| q in roots && q.id == p.id;
          DistinctIdsIdentify(snapshots, p, q);
        }
      }
    }
  }

  /** The tree is every Desktop process together with everything below one. */
  lemma DesktopTreeExact(desktopExecutable: string, snapshots: seq<ProcessSnapshot>)
    requires DistinctIds(snapshots) && Acyclic(snapshots)
    ensures forall p :: p in DesktopProcessTree(desktopExecutable, snapshots) <==>
      p in snapshots && (p.executable == desktopExecutable || HasDesktopAncestor(desktopExecutable, snapshots, p))
  {
    TreeMembers(desktopExecutable, snapshots);
    forall p <- snapshots | p.executable == desktopExecutable
      ensures p in DesktopProcessTree(desktopExecutable, snapshots)
    {
      var top := TopmostDesktop(desktopExecutable, snapshots, p);
    }
    forall p <- snapshots | HasDesktopAncestor(desktopExecutable, snapshots, p)
      ensures p in DesktopProcessTree(desktopExecutable, snapshots)
    {
      var a :| a in snapshots && a.executable == desktopExecutable && ProperAncestor(snapshots, a, p);
      var top := TopmostDesktop(desktopExecutable, snapshots, a);
      if top != a {
        AncestorTransitive(snapshots, top, a, p);
      }
    }
  }

  /** The last step of a chain from `ancestor` leaves a parent that is `ancestor` or below it. */
  lemma ParentBelow(snapshots: seq<ProcessSnapshot>, ancestor: ProcessSnapshot, process: ProcessSnapshot)
    returns (parent: ProcessSnapshot)
    requires ProperAncestor(snapshots, ancestor, process)
    ensures parent in snapshots && parent.id == process.parentId
    ensures parent == ancestor || ProperAncestor(snapshots, ancestor, parent)
  {
    var path: seq<ProcessSnapshot> :| ParentChain({ancestor.id}, snapshots, path) && path[|path| - 1] == process;
    if |path| == 1 {
      parent := ancestor;
    } else {
      var shorter := path[..|path| - 1];
      assert ParentChain({ancestor.id}, snapshots, shorter);
      parent := shorter[|shorter| - 1];
    }
  }

  /** Somewhere above the process there is one that the tree starts from. */
  ghost predicate BelowStart(desktopExecutable: string, snapshots: seq<ProcessSnapshot>, process: ProcessSnapshot) {
    exists r :: StartsTree(desktopExecutable, snapshots, r) && ProperAncestor(snapshots, r, process)
  }

  lemma ParentInTree(desktopExecutable: string, snapshots: seq<ProcessSnapshot>, process: ProcessSnapshot)
    requires DistinctIds(snapshots) && process in snapshots
    ensures process.parentId in Ids(DesktopProcessTree(desktopExecutable, snapshots))
            <==> BelowStart(desktopExecutable, snapshots, process)
  {
    hide DesktopProcessTree, DistinctIds;
    var tree := DesktopProcessTree(desktopExecutable, snapshots);
    TreeMembers(desktopExecutable, snapshots);
    if process.parentId in Ids(tree) {
      var parent :| parent in tree && parent.id == process.parentId;
      DescendsDirect({parent.id}, snapshots, process);
      if !StartsTree(desktopExecutable, snapshots, parent) {
        var r :| StartsTree(desktopExecutable, snapshots, r) && ProperAncestor(snapshots, r, parent);
        AncestorTransitive(snapshots, r, parent, process);
      }
    }
    if BelowStart(desktopExecutable, snapshots, process) {
      var r :| StartsTree(desktopExecutable, snapshots, r) && ProperAncestor(snapshots, r, process);
      var parent := ParentBelow(snapshots, r, process);
      assert parent in tree;
    }
  }

  /** For every frame: the roots are the processes the tree starts from that are not below another such process. */
  lemma RootsAreTopmostStarts(desktopExecutable: string, snapshots: seq<ProcessSnapshot>)
    requires DistinctIds(snapshots)
    ensures forall p :: p in DesktopRootSnapshots(desktopExecutable, snapshots) <==>
      StartsTree(desktopExecutable, snapshots, p) && !BelowStart(desktopExecutable, snapshots, p)
  {
    hide DesktopProcessTree, DistinctIds, ProperAncestor;
    var tree := DesktopProcessTree(desktopExecutable, snapshots);
    SelectMembers(tree, HasExecutableOutside(desktopExecutable, Ids(tree)));
    TreeMembers(desktopExecutable, snapshots);
    forall p <- snapshots
      ensures p.parentId in Ids(tree) <==> BelowStart(desktopExecutable, snapshots, p)
    {
      ParentInTree(desktopExecutable, snapshots, p);
    }
  }

  /** The roots are the Desktop processes without a Desktop ancestor, whatever helpers stand in between. */
  ghost predicate RootsLackDesktopAncestors(desktopExecutable: string, snapshots: seq<ProcessSnapshot>) {
    forall p :: p in DesktopRootSnapshots(desktopExecutable, snapshots) <==>
      && p in snapshots
      && p.executable == desktopExecutable
      && !HasDesktopAncestor(desktopExecutable, snapshots, p)
  }

  /** No cycle hides a Desktop ancestor: where a process without a matching parent has a Desktop ancestor further up,
      one of its ancestors is without a matching parent too. */
  ghost predicate NoHiddenAncestors(desktopExecutable: string, snapshots: seq<ProcessSnapshot>) {
    forall p :: StartsTree(desktopExecutable, snapshots, p) && HasDesktopAncestor(desktopExecutable, snapshots, p) ==>
      BelowStart(desktopExecutable, snapshots, p)
  }

  lemma MatchingParentIsAncestor(
    desktopExecutable: string, snapshots: seq<ProcessSnapshot>, parent: ProcessSnapshot, process: ProcessSnapshot)
    requires parent in snapshots && process in snapshots
    requires parent.executable == desktopExecutable && parent.id == process.parentId
    ensures HasDesktopAncestor(desktopExecutable, snapshots, process)
  {
    DescendsDirect({parent.id}, snapshots, process);
  }

  /** For every frame with distinct PIDs, cyclic or not. */
  lemma DesktopRootsExactly(desktopExecutable: string, snapshots: seq<ProcessSnapshot>)
    requires DistinctIds(snapshots)
    ensures RootsLackDesktopAncestors(desktopExecutable, snapshots) <==> NoHiddenAncestors(desktopExecutable, snapshots)
  {
    hide DesktopRootSnapshots, DistinctIds;
    RootsAreTopmostStarts(desktopExecutable, snapshots);
    forall p <- snapshots
      | p.executable == desktopExecutable && !HasDesktopAncestor(desktopExecutable, snapshots, p)
      ensures StartsTree(desktopExecutable, snapshots, p) && !BelowStart(desktopExecutable, snapshots, p)
    {
      forall parent <- snapshots | parent.executable == desktopExecutable ensures parent.id != p.parentId {
        if parent.id == p.parentId {
          MatchingParentIsAncestor(desktopExecutable, snapshots, parent, p);
        }
      }
    }
  }

  /** On an acyclic frame no ancestor is hidden, and the roots are exactly as expected. */
  lemma DesktopRootsExact(desktopExecutable: string, snapshots: seq<ProcessSnapshot>)
    requires DistinctIds(snapshots) && Acyclic(snapshots)
    ensures RootsLackDesktopAncestors(desktopExecutable, snapshots)
  {
    forall p | StartsTree(desktopExecutable, snapshots, p) && HasDesktopAncestor(desktopExecutable, snapshots, p)
      ensures BelowStart(desktopExecutable, snapshots, p)
    {
      var a :| a in snapshots && a.executable == desktopExecutable && ProperAncestor(snapshots, a, p);
      var top := TopmostDesktop(desktopExecutable, snapshots, a);
      if top != a {
        AncestorTransitive(snapshots, top, a, p);
      }
    }
    DesktopRootsExactly(desktopExecutable, snapshots);
  }

  // ----- Roots come once each, in PID order -----

  ghost predicate Ascending(processes: seq<ProcessSnapshot>) {
    forall i, j :: 0 <= i < j < |processes| ==> processes[i].id < processes[j].id
  }

  lemma AscendingParts(head: ProcessSnapshot, rest: seq<ProcessSnapshot>)
    ensures Ascending([head] + rest) <==> Ascending(rest) && forall p <- rest :: head.id < p.id
  {
    var whole := [head] + rest;
    assert forall j :: 0 <= j < |rest| ==> whole[j + 1] == rest[j];
    if Ascending(whole) {
      forall p <- rest ensures head.id < p.id {
        var k :| 0 <= k < |rest| && rest[k] == p;
        assert whole[0].id < whole[k + 1].id;
      }
    }
  }

  lemma {:induction false} SelectAscends(processes: seq<ProcessSnapshot>, keep: ProcessSnapshot -> bool)
    requires Ascending(processes)
    ensures Ascending(Select(processes, keep))
  {
    if processes != [] {
      var head, rest := processes[0], processes[1..];
      assert processes == [head] + rest;
      AscendingParts(head, rest);
      SelectAscends(rest, keep);
      SelectMembers(rest, keep);
      AscendingParts(head, Select(rest, keep));
    }
  }

  lemma {:induction false} SelectStaysDistinct(processes: seq<ProcessSnapshot>, keep: ProcessSnapshot -> bool)
    requires DistinctIds(processes)
    ensures DistinctIds(Select(processes, keep))
  {
    if processes != [] {
      hide DistinctIds;
      var head, rest := processes[0], processes[1..];
      assert processes == [head] + rest;
      PrependDistinct(head, rest);
      SelectStaysDistinct(rest, keep);
      SelectMembers(rest, keep);
      PrependDistinct(head, Select(rest, keep));
    }
  }

  lemma {:induction false} ConcatStaysDistinct(a: seq<ProcessSnapshot>, b: seq<ProcessSnapshot>)
    requires DistinctIds(a) && DistinctIds(b) && Ids(a) !! Ids(b)
    ensures DistinctIds(a + b)
  {
    if a == [] {
      assert a + b == b;
    } else {
      hide DistinctIds;
      var head, rest := a[0], a[1..];
      assert a == [head] + rest && a + b == [head] + (rest + b);
      PrependDistinct(head, rest);
      ConcatStaysDistinct(rest, b);
      IdsOfConcat(rest, b);
      PrependDistinct(head, rest + b);
    }
  }

  lemma {:induction false} InsertStaysDistinct(
    process: ProcessSnapshot, sorted: seq<ProcessSnapshot>, less: (ProcessSnapshot, ProcessSnapshot) -> bool)
    requires DistinctIds(sorted) && process.id !in Ids(sorted)
    ensures DistinctIds(InsertBy(process, sorted, less))
    ensures Ids(InsertBy(process, sorted, less)) == Ids(sorted) + {process.id}
  {
    hide DistinctIds;
    PrependDistinct(process, sorted);
    if sorted != [] && !less(process, sorted[0]) {
      var head, rest := sorted[0], sorted[1..];
      assert sorted == [head] + rest;
      PrependDistinct(head, rest);
      InsertStaysDistinct(process, rest, less);
      PrependDistinct(head, InsertBy(process, rest, less));
    }
  }

  lemma {:induction false} SortStaysDistinct(
    processes: seq<ProcessSnapshot>, less: (ProcessSnapshot, ProcessSnapshot) -> bool)
    requires DistinctIds(processes)
    ensures DistinctIds(SortBy(processes, less)) && Ids(SortBy(processes, less)) == Ids(processes)
  {
    if processes != [] {
      var last, rest := processes[|processes| - 1], processes[..|processes| - 1];
      assert processes == rest + [last];
      IdsOfConcat(rest, [last]);
      SortStaysDistinct(rest, less);
      InsertStaysDistinct(last, SortBy(rest, less), less);
    }
  }

  /** Every root is listed once, in the order of the PIDs, whether or not the parent relation is acyclic. */
  lemma RootsAscend(desktopExecutable: string, snapshots: seq<ProcessSnapshot>)
    requires DistinctIds(snapshots)
    ensures Ascending(DesktopRootSnapshots(desktopExecutable, snapshots))
  {
    hide Closure, DistinctIds, Ascending;
    var matching := Ids(Select(snapshots, HasExecutable(desktopExecutable)));
    var starts := TreeStarts(desktopExecutable, snapshots);
    SelectStaysDistinct(snapshots, HasExecutableOutside(desktopExecutable, matching));
    ClosureIdsExact(Ids(starts), snapshots);
    var below := Closure(Ids(starts), snapshots);
    assert Ids(starts) !! Ids(below);
    ConcatStaysDistinct(starts, below);
    SortStaysDistinct(starts + below, KeyLess(ProcessId()));
    SortByKeyFacts(starts + below, ProcessId());
    var tree := DesktopProcessTree(desktopExecutable, snapshots);
    TreeAscends(tree);
    SelectAscends(tree, HasExecutableOutside(desktopExecutable, Ids(tree)));
  }

  lemma TreeAscends(tree: seq<ProcessSnapshot>)
    requires DistinctIds(tree) && SortedByKey(tree, ProcessId())
    ensures Ascending(tree)
  {
    forall i, j | 0 <= i < j < |tree| ensures tree[i].id < tree[j].id {
      assert ProcessId()(tree[i]) <= ProcessId()(tree[j]);
    }
  }

  /** No returned root lies below another, whether or not the parent relation is acyclic. */
  lemma RootsAreIncomparable(desktopExecutable: string, snapshots: seq<ProcessSnapshot>, a: ProcessSnapshot, b: ProcessSnapshot)
    requires DistinctIds(snapshots)
    requires a in DesktopRootSnapshots(desktopExecutable, snapshots)
    requires b in DesktopRootSnapshots(desktopExecutable, snapshots)
    ensures !ProperAncestor(snapshots, a, b)
  {
    hide DesktopRootSnapshots;
    RootsAreTopmostStarts(desktopExecutable, snapshots);
  }

  /** On a cyclic parent relation an ancestor can be hidden: two Desktop processes that name each other as parent
      start no tree, so a third one below them, behind a helper, is reported as a root. */
  lemma CycleHidesAncestor()
    ensures var frame := CyclicFrame();
            && DistinctIds(frame)
            && !Acyclic(frame)
            && HasDesktopAncestor("desktop", frame, frame[3])
            && DesktopRootSnapshots("desktop", frame) == [frame[3]]
            && !NoHiddenAncestors("desktop", frame)
  {
    hide DesktopRootSnapshots, NoHiddenAncestors;
    CyclicFrameAncestors();
    CyclicFrameRoots();
    DesktopRootsExactly("desktop", CyclicFrame());
    assert CyclicFrame()[3] in DesktopRootSnapshots("desktop", CyclicFrame());
  }

  lemma CyclicFrameAncestors()
    ensures var frame := CyclicFrame();
            ProperAncestor(frame, frame[0], frame[0]) && ProperAncestor(frame, frame[0], frame[3])
  {
    var frame := CyclicFrame();
    assert ParentChain({1}, frame, [frame[2], frame[3]]) && [frame[2], frame[3]][1] == frame[3];
    assert ParentChain({1}, frame, [frame[1], frame[0]]) && [frame[1], frame[0]][1] == frame[0];
  }

  function CyclicFrame(): (frame: seq<ProcessSnapshot>)
    ensures |frame| == 4
  {
    [ProcessSnapshot(1, 2, 1, "desktop", 0), ProcessSnapshot(2, 1, 1, "desktop", 0),
     ProcessSnapshot(3, 1, 1, "helper", 0), ProcessSnapshot(4, 3, 1, "desktop", 0)]
  }

  lemma CyclicFrameRoots()
    ensures DesktopRootSnapshots("desktop", CyclicFrame()) == [CyclicFrame()[3]]
  {
    var frame := CyclicFrame();
    var a, b, helper, p := frame[0], frame[1], frame[2], frame[3];
    assert frame[1..] == [b, helper, p] && frame[2..] == [helper, p] && frame[3..] == [p];
    assert frame[1..][1..] == frame[2..] && frame[2..][1..] == frame[3..];
    var matches := HasExecutable("desktop");
    assert Select(frame[3..], matches) == [p];
    assert Select(frame[2..], matches) == [p];
    assert Select(frame[1..], matches) == [b, p];
    assert Select(frame, matches) == [a, b, p];
    assert Ids([a, b, p]) == {1, 2, 4};
    assert Select(frame[3..], HasExecutableOutside("desktop", {1, 2, 4})) == [p];
    assert Select(frame[2..], HasExecutableOutside("desktop", {1, 2, 4})) == [p];
    assert Select(frame[1..], HasExecutableOutside("desktop", {1, 2, 4})) == [p];
    assert TreeStarts("desktop", frame) == [p];
    assert Ids([p]) == {4};
    assert Sweep({4}, frame[3..]) == [];
    assert Sweep({4}, frame[2..]) == [];
    assert Sweep({4}, frame[1..]) == [];
    assert Sweep({4}, frame) == [];
    assert [p] + [] == [p];
    assert SortByKey([p], ProcessId()) == [p];
    assert DesktopProcessTree("desktop", frame) == [p];
  }
}
