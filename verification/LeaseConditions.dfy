/** What the local Host Runtime lease rests on (crates/shim/src/local_runtime_lease.rs:164-323 and 414-429): without any
    one of its conditions, a run in which two published Host Runtimes are alive together. */
module LeaseConditions {
  import opened Processes
  import opened ProcessTable
  import opened Sequences
  import opened RuntimeLease
  import opened LeaseGuarantees

  // ----- The names -----

  /** Only the observed name may carry the mark: a process whose own executable was unlinked does not recognise one whose
      executable was not. */
  lemma DeletedMarkIsOneSided(linux: bool, name: string)
    ensures ExecutableFileNameMatches(linux, name, name)
    ensures ExecutableFileNameMatches(linux, name + " (deleted)", name) <==> linux
    ensures !ExecutableFileNameMatches(linux, name, name + " (deleted)")
  {
    assert |name + DELETED| > |name| && |name + DELETED + DELETED| > |name|;
  }

  /** A contender whose own executable was unlinked, beside a Shim whose executable was not, breaks the agreement. */
  lemma UnlinkedContenderDisagrees(c: Config, owner: Instance, contender: Instance)
    requires owner.id != contender.id && c.ownName(contender) == c.observedName(owner) + DELETED
    ensures !NamesAgree(c)
  {
    DeletedMarkIsOneSided(c.linux, c.observedName(owner));
  }

  // ----- Runs -----

  lemma {:induction false} Extend(c: Config, s: State, u: State, t: State, steps: nat)
    requires Reaches(c, s, u, steps) && Step(c, u, t)
    ensures Reaches(c, s, t, steps + 1)
    decreases steps
  {
    hide Step;
    if steps == 0 {
      assert Step(c, s, t) && Reaches(c, t, t, 0);
    } else {
      var v: State :| Step(c, s, v) && Reaches(c, v, u, steps - 1);
      Extend(c, v, u, t, steps - 1);
    }
  }

  lemma Then(c: Config, s: State, t: State)
    requires Reachable(c, s) && Step(c, s, t)
    ensures Reachable(c, t)
  {
    hide Step;
    var start: State, steps: nat :| Initial(start) && Reaches(c, start, s, steps);
    Extend(c, start, s, t, steps);
  }

  lemma ThenShim(c: Config, s: State, t: State, me: Instance)
    requires Reachable(c, s) && me in s.shims && IsLive(s.system, me)
    requires if Acquiring(s.shims[me]) then AcquireStep(c, s, t, me) else LeaseStep(c, s, t, me)
    ensures Reachable(c, t)
  {
    hide AcquireStep, LeaseStep;
    assert ShimStep(c, s, t, me);
    Then(c, s, t);
  }

  /** Where an unhindered acquisition that finds no directory leads: to the childless record, ... */
  function AfterAcquisition(s: State, me: Instance): State {
    var first := Record(me, 0, None);
    Goto(s.(directory := true, record := Some(first), written := s.written + {first}), me, Owning(first))
  }

  /** ... a spawned child, ... */
  function AfterSpawn(s: State, me: Instance, child: Instance): State {
    Goto(s.(system := System(s.system.live[child.id := child.startedAtMicros],
                             s.system.latest[child.id := child.startedAtMicros])),
         me, Spawned(Record(me, 0, None), child))
  }

  /** ... and its published identity. */
  function AfterPublication(s: State, me: Instance, child: Instance): State {
    var complete := Record(me, 0, Some(child));
    Goto(s.(lock := None, record := Some(complete), written := s.written + {complete},
            published := s.published + {child}), me, Running(complete))
  }

  lemma CanAcquire(c: Config, s: State, me: Instance)
    requires Reachable(c, s) && me in s.shims && IsLive(s.system, me) && s.shims[me].AtLoop? && !s.directory
    ensures Reachable(c, AfterAcquisition(s, me))
  {
    hide Reachable;
    var s1 := Goto(s.(directory := true), me, Created(s.shims[me].progress));
    ThenShim(c, s, s1, me);
    var s2 := AfterAcquisition(s, me);
    assert s2.shims == s1.shims[me := Owning(Record(me, 0, None))];
    assert WritesFirstRecord(s1, s2, me, 0);
    ThenShim(c, s1, s2, me);
  }

  lemma CanSpawn(c: Config, s: State, me: Instance, child: Instance)
    requires Reachable(c, s) && me in s.shims && IsLive(s.system, me) && s.shims[me] == Owning(Record(me, 0, None))
    requires child.id !in s.system.live && child.id !in s.system.latest
    ensures Reachable(c, AfterSpawn(s, me, child))
  {
    hide Reachable;
    assert Spawns(s, AfterSpawn(s, me, child), me, Record(me, 0, None), child);
    ThenShim(c, s, AfterSpawn(s, me, child), me);
  }

  lemma CanPublish(c: Config, s: State, me: Instance, child: Instance)
    requires Reachable(c, s) && me in s.shims && IsLive(s.system, me)
    requires s.shims[me] == Spawned(Record(me, 0, None), child) && s.record == Some(Record(me, 0, None))
    ensures Reachable(c, AfterPublication(s, me, child))
  {
    hide Reachable;
    var complete := Record(me, 0, Some(child));
    var s1 := Goto(s, me, Publishing(Record(me, 0, None), child));
    ThenShim(c, s, s1, me);
    var s2 := Goto(s1.(record := Some(complete), written := s1.written + {complete},
                       published := s1.published + {child}), me, Published(complete));
    ThenShim(c, s1, s2, me);
    var s3 := AfterPublication(s, me, child);
    assert s3.shims == s2.shims[me := Running(complete)];
    ThenShim(c, s2, s3, me);
  }

  /** From the top of the loop to a published child. */
  function AfterStart(s: State, me: Instance, child: Instance): State {
    AfterPublication(AfterSpawn(AfterAcquisition(s, me), me, child), me, child)
  }

  lemma CanStart(c: Config, s: State, me: Instance, child: Instance)
    requires Reachable(c, s) && me in s.shims && IsLive(s.system, me) && s.shims[me].AtLoop? && !s.directory
    requires child.id !in s.system.live && child.id !in s.system.latest && child.id != me.id
    ensures Reachable(c, AfterStart(s, me, child))
  {
    hide Reachable;
    CanAcquire(c, s, me);
    CanSpawn(c, AfterAcquisition(s, me), me, child);
    CanPublish(c, AfterSpawn(AfterAcquisition(s, me), me, child), me, child);
  }

  /** A process that becomes a Shim and takes the free lock. */
  function AfterLocking(s: State, me: Instance): State {
    Goto(s.(lock := Some(me)), me, AtLoop(Progress(0, 0)))
  }

  lemma CanLock(c: Config, s: State, me: Instance)
    requires Reachable(c, s) && IsLive(s.system, me) && me !in s.shims && s.lock.None?
    ensures Reachable(c, AfterLocking(s, me))
  {
    hide Reachable;
    var s1 := Goto(s, me, Starting);
    assert Joins(s, me, s1);
    Then(c, s, s1);
    assert AfterLocking(s, me).shims == s1.shims[me := AtLoop(Progress(0, 0))];
    ThenShim(c, s1, AfterLocking(s, me), me);
  }

  /** The first Shim `a` runs with its child published, and `b` is a live process that is no Shim yet. */
  ghost predicate FirstRuns(s: State, a: Instance, b: Instance, child: Instance) {
    && s.shims == map[a := Running(Record(a, 0, Some(child)))]
    && s.lock.None? && s.directory && s.record == Some(Record(a, 0, Some(child)))
    && IsLive(s.system, a) && IsLive(s.system, b) && IsLive(s.system, child)
    && child in s.published && child.id != a.id && child.id != b.id && a != b
  }

  lemma FirstCanRun(c: Config, a: Instance, b: Instance, child: Instance) returns (s: State)
    requires a.id != b.id && child.id != a.id && child.id != b.id
    ensures Reachable(c, s) && FirstRuns(s, a, b, child)
    ensures s.system.live.Keys == s.system.latest.Keys == {a.id, b.id, child.id}
  {
    var table := map[a.id := a.startedAtMicros, b.id := b.startedAtMicros];
    var start := State(System(table, table), None, false, None, map[], {}, {});
    assert Initial(start) && Reaches(c, start, start, 0);
    CanLock(c, start, a);
    CanStart(c, AfterLocking(start, a), a, child);
    s := AfterStart(AfterLocking(start, a), a, child);
  }

  /** From the removal of a record that can be read back to the top of the loop, without a directory. */
  lemma RemovalFollows(c: Config, s: State, me: Instance) returns (t: State)
    requires Reachable(c, s) && me in s.shims && IsLive(s.system, me)
    requires s.shims[me] == Unlinking(Progress(0, 0))
             || (s.record.Some? && s.shims[me] == Removing(s.record.value, Progress(0, 0)))
    ensures Reachable(c, t) && me in t.shims && t.shims[me].AtLoop? && !t.directory
    ensures t.system == s.system && t.published == s.published
  {
    hide Reachable;
    var s1 := Goto(s, me, Unlinking(Progress(0, 0)));
    if s.shims[me].Removing? {
      ThenShim(c, s, s1, me);
    } else {
      assert s1 == s;
    }
    var s2 := Goto(s1.(record := None), me, RemovingDirectory(Progress(0, 0)));
    ThenShim(c, s1, s2, me);
    t := Goto(s2.(directory := false), me, AtLoop(Progress(1, 0)));
    ThenShim(c, s2, t, me);
  }

  /** `b` holds the lock and has found the directory. */
  function AfterFinding(s: State, b: Instance): State {
    Goto(s.(lock := Some(b)), b, Reading(Progress(0, 0)))
  }

  lemma CanFind(c: Config, s: State, a: Instance, b: Instance, child: Instance)
    requires Reachable(c, s) && FirstRuns(s, a, b, child)
    ensures Reachable(c, AfterFinding(s, b))
  {
    hide Reachable;
    CanLock(c, s, b);
    assert AfterFinding(s, b).shims == AfterLocking(s, b).shims[b := Reading(Progress(0, 0))];
    ThenShim(c, AfterLocking(s, b), AfterFinding(s, b), b);
  }

  /** `b` unlinks the record of the running `a`, whose name it does not recognise. */
  lemma UnrecognisedIsRemoved(c: Config, s: State, a: Instance, b: Instance, child: Instance) returns (t: State)
    requires Reachable(c, s) && FirstRuns(s, a, b, child) && a.id != b.id
    requires !ExecutableFileNameMatches(c.linux, c.observedName(a), c.ownName(b))
    ensures Reachable(c, t) && b in t.shims && t.shims[b].AtLoop? && !t.directory
    ensures t.system == s.system && t.published == s.published
  {
    hide Reachable, ExecutableFileNameMatches;
    var owner := Record(a, 0, Some(child));
    CanFind(c, s, a, b, child);
    var s1 := AfterFinding(s, b);
    var s2 := Goto(s1, b, Examining(owner, Progress(0, 0)));
    ThenShim(c, s1, s2, b);
    var s3 := Goto(s2, b, Removing(owner, Progress(0, 0)));
    ThenShim(c, s2, s3, b);
    t := RemovalFollows(c, s3, b);
  }

  /** `b` cannot read the record of the running `a` and removes the directory with it. */
  lemma UnreadableIsRemoved(c: Config, s: State, a: Instance, b: Instance, child: Instance) returns (t: State)
    requires Reachable(c, s) && FirstRuns(s, a, b, child) && !c.recordsAreReadable
    ensures Reachable(c, t) && b in t.shims && t.shims[b].AtLoop? && !t.directory
    ensures t.system == s.system && t.published == s.published
  {
    hide Reachable;
    CanFind(c, s, a, b, child);
    var s1 := AfterFinding(s, b);
    var s2 := Goto(s1, b, Unlinking(Progress(0, 0)));
    ThenShim(c, s1, s2, b);
    t := RemovalFollows(c, s2, b);
  }

  /** `b` takes the running `a` and its child for gone. */
  lemma UnseenIsRemoved(c: Config, s: State, a: Instance, b: Instance, child: Instance) returns (t: State)
    requires Reachable(c, s) && FirstRuns(s, a, b, child) && a.id != b.id && !c.liveIsSeen
    ensures Reachable(c, t) && b in t.shims && t.shims[b].AtLoop? && !t.directory
    ensures t.system == s.system && t.published == s.published
  {
    hide Reachable, ExecutableFileNameMatches;
    var owner := Record(a, 0, Some(child));
    CanFind(c, s, a, b, child);
    var s1 := AfterFinding(s, b);
    var s2 := Goto(s1, b, Examining(owner, Progress(0, 0)));
    ThenShim(c, s1, s2, b);
    var s3 := UnseenOwnerIsAbandoned(c, s2, b, owner);
    t := RemovalFollows(c, s3, b);
  }

  lemma UnseenOwnerIsAbandoned(c: Config, s: State, me: Instance, owner: Record) returns (t: State)
    requires Reachable(c, s) && me in s.shims && IsLive(s.system, me) && !c.liveIsSeen
    requires s.shims[me] == Examining(owner, Progress(0, 0)) && owner.shim.id != me.id
    ensures Reachable(c, t) && t == Goto(s, me, Removing(owner, Progress(0, 0)))
  {
    hide Reachable, ExecutableFileNameMatches;
    var s1 := Goto(s, me, AwaitingShim(owner, Progress(0, 0)));
    ThenShim(c, s, s1, me);
    var s2 := Goto(s1, me, AwaitingChild(owner, Progress(0, 0)));
    ThenShim(c, s1, s2, me);
    t := Goto(s2, me, Removing(owner, Progress(0, 0)));
    ThenShim(c, s2, t, me);
    assert t.shims == s.shims[me := Removing(owner, Progress(0, 0))];
  }

  /** `a` drops its lease over its living child, and `b` takes the lock. */
  lemma EarlyDropIsRemoved(c: Config, s: State, a: Instance, b: Instance, child: Instance) returns (t: State)
    requires Reachable(c, s) && FirstRuns(s, a, b, child) && !c.dropsAfterChildExit
    ensures Reachable(c, t) && b in t.shims && t.shims[b].AtLoop? && !t.directory
    ensures t.system == s.system && t.published == s.published
  {
    hide Reachable;
    var lease := Record(a, 0, Some(child));
    var s1 := Goto(s, a, Dropping(lease));
    ThenShim(c, s, s1, a);
    var s2 := Goto(s1.(lock := Some(a)), a, DropLocked(lease));
    ThenShim(c, s1, s2, a);
    var s3 := Goto(s2, a, DropUnlinking);
    ThenShim(c, s2, s3, a);
    var s4 := Goto(s3.(record := None), a, DropRemovingDirectory);
    ThenShim(c, s3, s4, a);
    var s5 := Leave(s4.(directory := false), a);
    ThenShim(c, s4, s5, a);
    CanLock(c, s5, b);
    t := AfterLocking(s5, b);
  }

  /** Without any one of the conditions, two published Host Runtimes can be alive together. */
  lemma UndisciplinedCanOverlap(c: Config)
    requires !Disciplined(c)
    ensures exists s: State :: Reachable(c, s) && !NoOverlap(s)
  {
    hide Reachable;
    var a, b := Instance(1, 1), Instance(2, 1);
    if !NamesAgree(c) {
      a, b :| a.id != b.id && !ExecutableFileNameMatches(c.linux, c.observedName(a), c.ownName(b));
    }
    var first, second := Instance(a.id + b.id + 1, 1), Instance(a.id + b.id + 2, 1);
    var s := FirstCanRun(c, a, b, first);
    var t: State;
    if !NamesAgree(c) {
      t := UnrecognisedIsRemoved(c, s, a, b, first);
    } else if !c.dropsAfterChildExit {
      t := EarlyDropIsRemoved(c, s, a, b, first);
    } else if !c.recordsAreReadable {
      t := UnreadableIsRemoved(c, s, a, b, first);
    } else {
      t := UnseenIsRemoved(c, s, a, b, first);
    }
    CanStart(c, t, b, second);
    var u := AfterStart(t, b, second);
    assert first in u.published && second in u.published && IsLive(u.system, first) && IsLive(u.system, second);
  }

  /** Published Host Runtimes never overlap, in any interleaving, exactly when every Shim is recognised by the name
      of its executable, leases are dropped only after the child is gone, a record that is there can be read within
      the read grace, and no living process is reported missing. */
  lemma NoOverlapExactly(c: Config)
    ensures (forall s: State :: Reachable(c, s) ==> NoOverlap(s)) <==> Disciplined(c)
  {
    if Disciplined(c) {
      forall s: State | Reachable(c, s) ensures NoOverlap(s) {
        DisciplinedNeverOverlaps(c, s);
      }
    } else {
      UndisciplinedCanOverlap(c);
    }
  }
}
