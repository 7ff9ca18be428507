/** How often the lease acquisition loop turns (crates/shim/src/local_runtime_lease.rs:186-279): a consequence of the file
    lock alone, whatever the Shims' names, whenever leases are dropped, and whatever can be read or seen. */
module LeasePasses {
  import opened Processes
  import opened ProcessTable
  import opened Sequences
  import opened RuntimeLease
  import opened LeaseInvariant
  import opened LeaseConditions

  /** What the lock protects for its holder. Every completed pass but one left the directory in place, because its last
      read failed; the one that removed it is followed by the pass that creates it. */
  predicate PassFits(s: State, shim: Shim) {
    match shim
    case AtLoop(n) =>
      || (n.passes == 0 && n.missed == 0)
      || (n.passes == n.missed && s.directory)
      || (n.passes == n.missed + 1 && !s.directory)
    case Created(n) => (n.passes == 0 && n.missed == 0) || n.passes == n.missed + 1
    case Reading(n) => n.passes == n.missed && s.directory
    case Examining(owner, n) => n.passes == n.missed && s.directory && s.record == Some(owner)
    case AwaitingShim(owner, n) => n.passes == n.missed && s.directory && s.record == Some(owner)
    case AwaitingChild(owner, n) => n.passes == n.missed && s.directory && s.record == Some(owner)
    case Removing(owner, n) => n.passes == n.missed && s.directory && s.record == Some(owner)
    case Unlinking(n) => n.passes == n.missed
    case RemovingDirectory(n) => n.passes == n.missed
    case _ => true
  }

  ghost predicate PassInv(s: State) {
    && Consistent(s.system)
    && (s.lock.Some? ==> s.lock.value in s.shims)
    && (forall me <- s.shims :: SeenEarlier(s.system, me))
    && (forall me <- s.shims :: IsLive(s.system, me) ==>
          (HoldsLock(s.shims[me]) <==> s.lock == Some(me)) && PassFits(s, s.shims[me]))
  }

  lemma EnvKeepsPasses(s: State, t: State)
    requires PassInv(s) && EnvStep(s, t)
    ensures PassInv(t)
  {
    if pid: nat :| ExitsWithLock(s, pid, t) {
      assert EnvironmentStep(s.system, t.system);
      ExitGrows(s, t);
    } else if pid: nat, startedAt: nat :| Starts(s.system, pid, startedAt, t.system) && t == s.(system := t.system) {
      assert EnvironmentStep(s.system, t.system);
      ExitGrows(s, t);
    }
  }

  /** Only the holder of the lock touches directory and record, and a Shim that takes the lock finds it free. */
  ghost predicate ObeysLock(s: State, t: State, me: Instance) {
    && me in t.shims && t.shims == s.shims[me := t.shims[me]]
    && ((t.record == s.record && t.directory == s.directory) || s.lock == Some(me))
    && (t.lock == s.lock || s.lock.None? || s.lock == Some(me))
    && (HoldsLock(t.shims[me]) <==> t.lock == Some(me))
    && (t.lock.Some? && t.lock != s.lock ==> t.lock == Some(me))
  }

  lemma TurnTakesLock(c: Config, s: State, t: State, me: Instance)
    requires PassInv(s) && ShimStep(c, s, t, me)
    ensures ObeysLock(s, t, me)
  {
    StepKind(c, s, t, me);
    hide ExecutableFileNameMatches;
    if Acquiring(s.shims[me]) {
      AcquireTurn(c, s, t, me);
    } else {
      LeaseTakesLock(c, s, t, me);
    }
  }

  lemma EntryTurn(c: Config, s: State, t: State, me: Instance)
    requires me in s.shims && AcquireStep(c, s, t, me) && PassFits(s, s.shims[me])
    requires s.shims[me].Starting? || s.shims[me].AtLoop? || s.shims[me].Created? || s.shims[me].Reading?
    requires HoldsLock(s.shims[me]) <==> s.lock == Some(me)
    ensures ObeysLock(s, t, me) && PassFits(t, t.shims[me])
  {
    hide ExecutableFileNameMatches, IsLive, Goto, Leave;
    GoingChangesNothingElse(me);
  }

  lemma ExaminationTurn(c: Config, s: State, t: State, me: Instance)
    requires me in s.shims && AcquireStep(c, s, t, me) && PassFits(s, s.shims[me])
    requires s.shims[me].Examining? || s.shims[me].AwaitingShim? || s.shims[me].AwaitingChild?
    requires HoldsLock(s.shims[me]) <==> s.lock == Some(me)
    ensures ObeysLock(s, t, me) && PassFits(t, t.shims[me])
  {
    hide ExecutableFileNameMatches, IsLive, Goto, Leave;
    GoingChangesNothingElse(me);
  }

  lemma RemovalTurn(c: Config, s: State, t: State, me: Instance)
    requires me in s.shims && AcquireStep(c, s, t, me) && PassFits(s, s.shims[me])
    requires s.shims[me].Removing? || s.shims[me].Unlinking? || s.shims[me].RemovingDirectory?
    requires HoldsLock(s.shims[me]) <==> s.lock == Some(me)
    ensures ObeysLock(s, t, me) && PassFits(t, t.shims[me])
  {
    hide ExecutableFileNameMatches, IsLive, Goto, Leave;
    GoingChangesNothingElse(me);
  }

  lemma AcquireTurn(c: Config, s: State, t: State, me: Instance)
    requires me in s.shims && AcquireStep(c, s, t, me) && PassFits(s, s.shims[me]) && Acquiring(s.shims[me])
    requires HoldsLock(s.shims[me]) <==> s.lock == Some(me)
    ensures ObeysLock(s, t, me) && PassFits(t, t.shims[me])
  {
    hide AcquireStep, ObeysLock, PassFits, HoldsLock;
    var shim := s.shims[me];
    if shim.Starting? || shim.AtLoop? || shim.Created? || shim.Reading? {
      EntryTurn(c, s, t, me);
    } else if shim.Examining? || shim.AwaitingShim? || shim.AwaitingChild? {
      ExaminationTurn(c, s, t, me);
    } else {
      RemovalTurn(c, s, t, me);
    }
  }

  lemma GoingChangesNothingElse(me: Instance)
    ensures forall s: State, shim: Shim ::
      && Goto(s, me, shim).shims == s.shims[me := shim]
      && Goto(s, me, shim).lock == s.lock
      && Goto(s, me, shim).record == s.record
      && Goto(s, me, shim).directory == s.directory
    ensures forall s: State ::
      && Leave(s, me).shims == s.shims[me := Done]
      && Leave(s, me).lock.None?
      && Leave(s, me).record == s.record
      && Leave(s, me).directory == s.directory
  {
  }

  lemma LeaseTakesLock(c: Config, s: State, t: State, me: Instance)
    requires me in s.shims && LeaseStep(c, s, t, me)
    requires HoldsLock(s.shims[me]) <==> s.lock == Some(me)
    ensures ObeysLock(s, t, me)
  {
    hide IsLive;
  }

  lemma TurnFits(c: Config, s: State, t: State, me: Instance)
    requires PassInv(s) && ShimStep(c, s, t, me)
    ensures me in t.shims && PassFits(t, t.shims[me])
  {
    StepKind(c, s, t, me);
    hide AcquireStep, LeaseStep;
    if Acquiring(s.shims[me]) {
      AcquireTurn(c, s, t, me);
    } else {
      LeaseIsPastAcquiring(c, s, t, me);
    }
  }

  lemma LeaseIsPastAcquiring(c: Config, s: State, t: State, me: Instance)
    requires me in s.shims && LeaseStep(c, s, t, me)
    ensures me in t.shims && !Acquiring(t.shims[me])
  {
    hide LeaseStep;
    if s.shims[me].Owning? || s.shims[me].Spawned? || s.shims[me].Publishing? || s.shims[me].Published? {
      StartIsPastAcquiring(c, s, t, me);
    } else {
      EndIsPastAcquiring(c, s, t, me);
    }
  }

  lemma StartIsPastAcquiring(c: Config, s: State, t: State, me: Instance)
    requires me in s.shims && LeaseStep(c, s, t, me)
    requires s.shims[me].Owning? || s.shims[me].Spawned? || s.shims[me].Publishing? || s.shims[me].Published?
    ensures me in t.shims && !Acquiring(t.shims[me])
  {
    hide Goto, Leave, IsLive, Starts;
    WhereToGo(me);
  }

  lemma EndIsPastAcquiring(c: Config, s: State, t: State, me: Instance)
    requires me in s.shims && LeaseStep(c, s, t, me)
    requires !s.shims[me].Owning? && !s.shims[me].Spawned? && !s.shims[me].Publishing? && !s.shims[me].Published?
    ensures me in t.shims && !Acquiring(t.shims[me])
  {
    hide Goto, Leave, IsLive, Starts;
    WhereToGo(me);
  }

  lemma WhereToGo(me: Instance)
    ensures forall s: State, shim: Shim :: me in Goto(s, me, shim).shims && Goto(s, me, shim).shims[me] == shim
    ensures forall s: State :: me in Leave(s, me).shims && Leave(s, me).shims[me] == Done
  {
  }

  lemma SystemMovesOn(c: Config, s: State, t: State, me: Instance)
    requires Consistent(s.system) && ShimStep(c, s, t, me)
    ensures Consistent(t.system)
    ensures forall who: Instance :: SeenEarlier(s.system, who) ==> SeenEarlier(t.system, who)
    ensures forall who: Instance :: SeenEarlier(s.system, who) && IsLive(t.system, who) ==> IsLive(s.system, who)
  {
    StepKind(c, s, t, me);
    if !Acquiring(s.shims[me]) && s.shims[me].Owning? && t.system != s.system {
      var child: Instance :| Spawns(s, t, me, s.shims[me].lease, child);
    }
  }

  lemma ShimKeepsPasses(c: Config, s: State, t: State, me: Instance)
    requires PassInv(s) && ShimStep(c, s, t, me)
    ensures PassInv(t)
  {
    TurnTakesLock(c, s, t, me);
    TurnFits(c, s, t, me);
    SystemMovesOn(c, s, t, me);
    hide ShimStep, PassFits, HoldsLock, IsLive, SeenEarlier, Consistent;
    forall other <- t.shims | other != me && IsLive(t.system, other)
      ensures (HoldsLock(t.shims[other]) <==> t.lock == Some(other)) && PassFits(t, t.shims[other])
    {
      assert t.shims[other] == s.shims[other] && IsLive(s.system, other);
      FitsElsewhere(s, t, s.shims[other]);
    }
  }

  /** Without the lock nothing is relied on. */
  lemma FitsElsewhere(s: State, t: State, shim: Shim)
    requires PassFits(s, shim)
    requires (t.record == s.record && t.directory == s.directory) || !HoldsLock(shim)
    ensures PassFits(t, shim)
  {
  }

  lemma {:induction false} PassesHold(c: Config, s: State, t: State, steps: nat)
    requires PassInv(s) && Reaches(c, s, t, steps)
    ensures PassInv(t)
    decreases steps
  {
    hide PassInv, Step;
    if steps > 0 {
      var u: State :| Step(c, s, u) && Reaches(c, u, t, steps - 1);
      OneStepKeepsPasses(c, s, u);
      PassesHold(c, u, t, steps - 1);
    }
  }

  lemma OneStepKeepsPasses(c: Config, s: State, t: State)
    requires PassInv(s) && Step(c, s, t)
    ensures PassInv(t)
  {
    hide PassInv, EnvStep, ShimStep;
    if EnvStep(s, t) {
      EnvKeepsPasses(s, t);
    } else {
      var me: Instance :| ShimStep(c, s, t, me);
      ShimKeepsPasses(c, s, t, me);
    }
  }

  /** In every interleaving, each turn of the loop is accounted for: an acquisition has completed at most one pass more
      than reads failed before a removal. An acquisition that creates the directory is then in its first pass, or in the
      second pass after those that failed to remove it: two passes exactly when none failed. */
  lemma PassesAreMissedRemovals(c: Config, s: State, me: Instance)
    requires Reachable(c, s)
    requires me in s.shims && IsLive(s.system, me) && Acquiring(s.shims[me]) && !s.shims[me].Starting?
    ensures s.shims[me].progress.passes <= s.shims[me].progress.missed + 1
    ensures s.shims[me].Created? ==>
              var n := s.shims[me].progress;
              (n.passes == 0 && n.missed == 0) || n.passes == n.missed + 1
  {
    var start: State, steps: nat :| Initial(start) && Reaches(c, start, s, steps);
    assert PassInv(start);
    PassesHold(c, start, s, steps);
  }

  /** With no failed read before a removal there are at most two passes. */
  lemma AtMostTwoPasses(c: Config, s: State, me: Instance)
    requires Reachable(c, s)
    requires me in s.shims && IsLive(s.system, me) && Acquiring(s.shims[me]) && !s.shims[me].Starting?
    requires s.shims[me].progress.missed == 0
    ensures s.shims[me].AtLoop? ==> s.shims[me].progress.passes <= 1
    ensures s.shims[me].AtLoop? && s.shims[me].progress.passes == 1 ==> !s.directory
    ensures !s.shims[me].AtLoop? && !s.shims[me].Created? ==> s.shims[me].progress.passes == 0
  {
    var start: State, steps: nat :| Initial(start) && Reaches(c, start, s, steps);
    assert PassInv(start);
    PassesHold(c, start, s, steps);
  }

  // ----- No number of passes suffices when reads fail -----

  /** `me` holds the lock over the record of a gone Shim without a child, at the top of the loop. */
  ghost predicate RetiringGone(s: State, me: Instance, owner: Record, n: Progress) {
    && me in s.shims && IsLive(s.system, me) && s.shims[me] == AtLoop(n)
    && s.directory && s.record == Some(owner)
    && owner.shim.id != me.id && owner.child.None? && !IsLive(s.system, owner.shim)
  }

  lemma FailedRead(c: Config, s: State, me: Instance, owner: Record, n: Progress) returns (t: State)
    requires Reachable(c, s) && RetiringGone(s, me, owner, n)
    ensures Reachable(c, t) && RetiringGone(t, me, owner, Progress(n.passes + 1, n.missed + 1))
  {
    hide Reachable, ExecutableFileNameMatches;
    var s1 := Goto(s, me, Reading(n));
    ThenShim(c, s, s1, me);
    var s2 := Goto(s1, me, Examining(owner, n));
    ThenShim(c, s1, s2, me);
    var s3 := Goto(s2, me, AwaitingShim(owner, n));
    ThenShim(c, s2, s3, me);
    t := FailedRemoval(c, s3, me, owner, n);
  }

  lemma FailedRemoval(c: Config, s: State, me: Instance, owner: Record, n: Progress) returns (t: State)
    requires Reachable(c, s) && me in s.shims && IsLive(s.system, me) && s.shims[me] == AwaitingShim(owner, n)
    requires owner.child.None? && !IsLive(s.system, owner.shim)
    ensures Reachable(c, t) && t == Goto(s, me, AtLoop(Progress(n.passes + 1, n.missed + 1)))
  {
    hide Reachable, ExecutableFileNameMatches;
    var s1 := Goto(s, me, AwaitingChild(owner, n));
    ThenShim(c, s, s1, me);
    var s2 := Goto(s1, me, Removing(owner, n));
    ThenShim(c, s1, s2, me);
    t := Goto(s2, me, AtLoop(Progress(n.passes + 1, n.missed + 1)));
    ThenShim(c, s2, t, me);
    assert t.shims == s.shims[me := AtLoop(Progress(n.passes + 1, n.missed + 1))];
  }

  /** For every number of passes there is a run with that many, however disciplined the Shims are: a contender retires
      the record of a gone Shim, and each time the read before the removal fails. */
  lemma {:induction false} ManyPasses(c: Config, passes: nat) returns (s: State, me: Instance, owner: Record)
    ensures Reachable(c, s) && RetiringGone(s, me, owner, Progress(passes, passes))
    decreases passes
  {
    hide Reachable;
    if passes == 0 {
      s, me, owner := GoneShim(c);
    } else {
      s, me, owner := ManyPasses(c, passes - 1);
      s := FailedRead(c, s, me, owner, Progress(passes - 1, passes - 1));
    }
  }

  /** A Shim acquires the lease and exits, and another process takes the lock. */
  lemma GoneShim(c: Config) returns (s: State, me: Instance, owner: Record)
    ensures Reachable(c, s) && RetiringGone(s, me, owner, Progress(0, 0))
  {
    var gone := Instance(1, 1);
    me, owner := Instance(2, 1), Record(gone, 0, None);
    var table := map[1 := 1, 2 := 1];
    var start := State(System(table, table), None, false, None, map[], {}, {});
    assert Initial(start) && Reaches(c, start, start, 0);
    hide Reachable;
    CanLock(c, start, gone);
    CanAcquire(c, AfterLocking(start, gone), gone);
    var s1 := AfterAcquisition(AfterLocking(start, gone), gone);
    var s2 := s1.(system := System(s1.system.live - {1}, s1.system.latest), lock := None);
    assert ExitsWithLock(s1, 1, s2);
    assert EnvStep(s1, s2);
    Then(c, s1, s2);
    CanLock(c, s2, me);
    s := AfterLocking(s2, me);
  }

  /** The record on disk changes only by a step of the Shim that holds the lock. */
  lemma OnlyTheHolderTouchesTheRecord(c: Config, s: State, t: State)
    requires Reachable(c, s) && Step(c, s, t)
    requires t.record != s.record || t.directory != s.directory
    ensures s.lock.Some? && ShimStep(c, s, t, s.lock.value)
  {
    var start: State, steps: nat :| Initial(start) && Reaches(c, start, s, steps);
    assert PassInv(start);
    PassesHold(c, start, s, steps);
    hide PassInv, ShimStep;
    var me: Instance :| ShimStep(c, s, t, me);
    TurnTakesLock(c, s, t, me);
  }
}
