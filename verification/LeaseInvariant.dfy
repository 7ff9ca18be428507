/** What every step of every Shim keeps, as long as the conditions of the lease are met
    (crates/shim/src/local_runtime_lease.rs:164-398). */
module LeaseInvariant {
  import opened Processes
  import opened ProcessTable
  import opened Sequences
  import opened RuntimeLease

  // ----- The invariant -----

  ghost predicate ChildGone(system: System, record: Record) {
    record.child.Some? ==> Gone(system, record.child.value)
  }

  ghost predicate Dead(system: System, record: Record) {
    Gone(system, record.shim) && ChildGone(system, record)
  }

  predicate Released(s: State, who: Instance) {
    who in s.shims && (s.shims[who].Done? || s.shims[who].DropRemovingDirectory?)
  }

  /** A record that is history: its child is gone, and its Shim is gone or has given the lease back. */
  ghost predicate Retired(s: State, record: Record) {
    ChildGone(s.system, record) && (Gone(s.system, record.shim) || Released(s, record.shim))
  }

  /** What a live Shim may rely on at each point. */
  ghost predicate ShimInv(s: State, me: Instance, shim: Shim) {
    && (HoldsLock(shim) <==> s.lock == Some(me))
    && match shim
       case Created(n) => s.directory && s.record.None?
       case Reading(n) => s.directory
       case Examining(owner, n) => s.record == Some(owner)
       case AwaitingShim(owner, n) => s.record == Some(owner)
       case AwaitingChild(owner, n) => s.record == Some(owner) && Gone(s.system, owner.shim)
       case Removing(owner, n) => s.record == Some(owner) && Dead(s.system, owner)
       case Unlinking(n) => s.record.Some? ==> Dead(s.system, s.record.value)
       case RemovingDirectory(n) => s.record.None?
       case Owning(lease) => s.record == Some(lease) && lease.shim == me && lease.child.None?
       case Spawned(lease, child) =>
         s.record == Some(lease) && lease.shim == me && lease.child.None? && SeenEarlier(s.system, child)
       case Publishing(lease, child) =>
         s.record == Some(lease) && lease.shim == me && lease.child.None? && SeenEarlier(s.system, child)
       case Published(lease) => s.record == Some(lease) && lease.shim == me
       case FailedStart(lease, child) => lease.shim == me && s.record == Some(lease.(child := None))
       case Running(lease) => s.record == Some(lease) && lease.shim == me
       case Dropping(lease) => s.record == Some(lease) && lease.shim == me && ChildGone(s.system, lease)
       case DropLocked(lease) =>
         lease.shim == me && s.record.Some? && s.record.value.shim == me && ChildGone(s.system, s.record.value)
       case DropUnlinking => s.record.Some? && s.record.value.shim == me && ChildGone(s.system, s.record.value)
       case DropRemovingDirectory => s.record.None?
       case _ => true
  }

  ghost predicate RecordInv(s: State, record: Record) {
    && SeenEarlier(s.system, record.shim)
    && (record.child.Some? ==> SeenEarlier(s.system, record.child.value))
    && (if s.record.Some? && s.record.value.shim == record.shim
        then record == s.record.value || record.child.None?
        else Retired(s, record))
  }

  ghost predicate ChildInv(s: State, child: Instance) {
    Gone(s.system, child) || (s.record.Some? && s.record.value.child == Some(child))
  }

  ghost predicate Inv(s: State) {
    && Consistent(s.system)
    && (s.record.Some? ==> s.directory && s.record.value in s.written)
    && (s.lock.Some? ==> s.lock.value in s.shims && IsLive(s.system, s.lock.value))
    && (forall me <- s.shims :: SeenEarlier(s.system, me))
    && (forall me <- s.shims :: IsLive(s.system, me) ==> ShimInv(s, me, s.shims[me]))
    && (forall r <- s.written :: RecordInv(s, r))
    && (forall child <- s.published :: ChildInv(s, child))
  }

  // ----- Environment steps keep it -----

  ghost predicate SystemGrows(s: State, t: State) {
    && Consistent(t.system)
    && (forall who: Instance :: SeenEarlier(s.system, who) ==> SeenEarlier(t.system, who))
    && (forall who: Instance :: Gone(s.system, who) ==> Gone(t.system, who))
  }

  lemma ExitGrows(s: State, t: State)
    requires Consistent(s.system) && EnvironmentStep(s.system, t.system)
    ensures SystemGrows(s, t)
  {
    forall who: Instance
      ensures SeenEarlier(s.system, who) ==> SeenEarlier(t.system, who)
      ensures Gone(s.system, who) ==> Gone(t.system, who)
    {
      GoneForGood(s.system, t.system, who);
    }
    GoneForGood(s.system, t.system, Instance(0, 0));
  }

  /** What a Shim relies on is not disturbed when only the process table moves on. */
  lemma ShimInvLater(s: State, t: State, me: Instance, shim: Shim)
    requires ShimInv(s, me, shim) && SystemGrows(s, t)
    requires t.directory == s.directory && t.record == s.record
    requires t.lock == Some(me) <==> s.lock == Some(me)
    ensures ShimInv(t, me, shim)
  {
  }

  lemma SystemStepKeeps(s: State, t: State)
    requires Inv(s) && SystemGrows(s, t)
    requires t == s.(system := t.system, lock := t.lock)
    requires t.lock == s.lock || t.lock.None?
    requires t.lock.None? && s.lock.Some? ==> !IsLive(t.system, s.lock.value)
    requires t.lock.Some? ==> IsLive(t.system, t.lock.value)
    requires forall me <- s.shims :: IsLive(t.system, me) ==> IsLive(s.system, me)
    ensures Inv(t)
  {
    forall me <- t.shims | IsLive(t.system, me) ensures ShimInv(t, me, t.shims[me]) {
      ShimInvLater(s, t, me, s.shims[me]);
    }
    forall r <- t.written ensures RecordInv(t, r) {
      assert RecordInv(s, r);
    }
    forall child <- t.published ensures ChildInv(t, child) {
      assert ChildInv(s, child);
    }
  }

  lemma EnvStepKeeps(s: State, t: State)
    requires Inv(s) && EnvStep(s, t)
    ensures Inv(t)
  {
    if pid: nat :| ExitsWithLock(s, pid, t) {
      assert EnvironmentStep(s.system, t.system);
      ExitGrows(s, t);
      SystemStepKeeps(s, t);
    } else if pid: nat, startedAt: nat :| Starts(s.system, pid, startedAt, t.system) && t == s.(system := t.system) {
      assert EnvironmentStep(s.system, t.system);
      ExitGrows(s, t);
      assert forall me <- s.shims :: SeenEarlier(s.system, me);
      SystemStepKeeps(s, t);
    } else {
      var me: Instance :| Joins(s, me, t);
      forall r <- t.written ensures RecordInv(t, r) {
        assert RecordInv(s, r);
      }
      forall child <- t.published ensures ChildInv(t, child) {
        assert ChildInv(s, child);
      }
      forall other <- t.shims | IsLive(t.system, other) ensures ShimInv(t, other, t.shims[other]) {
        if other != me {
          assert ShimInv(s, other, s.shims[other]);
        }
      }
    }
  }

  // ----- Shim steps keep it -----

  /** A Shim that holds the lock, or leaves the record alone, does not disturb the others: whoever relies on the
      record without the lock is its live owner. */
  lemma OthersUndisturbed(s: State, t: State, me: Instance)
    requires Inv(s) && me in s.shims && IsLive(s.system, me)
    requires SystemGrows(s, t)
    requires forall other <- s.shims :: IsLive(t.system, other) ==> IsLive(s.system, other)
    requires me in t.shims && t.shims == s.shims[me := t.shims[me]]
    requires forall other: Instance :: other != me ==> (t.lock == Some(other) <==> s.lock == Some(other))
    requires (t.record == s.record && t.directory == s.directory) || s.lock == Some(me)
    requires t.record == s.record || (s.record.Some? ==> s.record.value.shim == me || Gone(s.system, s.record.value.shim))
    ensures forall other <- t.shims :: other != me && IsLive(t.system, other) ==> ShimInv(t, other, t.shims[other])
  {
    forall other <- t.shims | other != me && IsLive(t.system, other) ensures ShimInv(t, other, t.shims[other]) {
      assert ShimInv(s, other, s.shims[other]);
    }
  }

  /** Giving the lease back is final. */
  lemma ReleasedLater(s: State, t: State, me: Instance, record: Record)
    requires SystemGrows(s, t) && Retired(s, record)
    requires me in t.shims && t.shims == s.shims[me := t.shims[me]]
    requires Released(s, me) ==> Released(t, me)
    ensures Retired(t, record)
  {
  }

  /** Steps that leave the record, its history and the process table alone. */
  lemma QuietStep(s: State, t: State, me: Instance)
    requires Inv(s) && me in s.shims && IsLive(s.system, me)
    requires me in t.shims
    requires t == s.(lock := t.lock, directory := t.directory, shims := s.shims[me := t.shims[me]])
    requires forall other: Instance :: other != me ==> (t.lock == Some(other) <==> s.lock == Some(other))
    requires t.directory == s.directory || s.lock == Some(me)
    requires t.record.Some? ==> t.directory
    requires Released(s, me) ==> Released(t, me)
    requires ShimInv(t, me, t.shims[me])
    ensures Inv(t)
  {
    OthersUndisturbed(s, t, me);
    forall r <- t.written ensures RecordInv(t, r) {
      assert RecordInv(s, r);
      if !(s.record.Some? && s.record.value.shim == r.shim) {
        ReleasedLater(s, t, me, r);
      }
    }
    forall child <- t.published ensures ChildInv(t, child) {
      assert ChildInv(s, child);
    }
  }

  /** Removing the record of a dead owner, or one's own after the child is gone. */
  lemma UnlinkStep(s: State, t: State, me: Instance)
    requires Inv(s) && me in s.shims && IsLive(s.system, me) && s.lock == Some(me)
    requires s.record.Some? ==> ChildGone(s.system, s.record.value)
    requires s.record.Some? ==>
      Gone(s.system, s.record.value.shim) || (s.record.value.shim == me && t.shims == s.shims[me := DropRemovingDirectory])
    requires !Released(s, me)
    requires me in t.shims && t == s.(record := None, shims := s.shims[me := t.shims[me]])
    requires ShimInv(t, me, t.shims[me])
    ensures Inv(t)
  {
    OthersUndisturbed(s, t, me);
    forall r <- t.written ensures RecordInv(t, r) {
      assert RecordInv(s, r);
      if !(s.record.Some? && s.record.value.shim == r.shim) {
        ReleasedLater(s, t, me, r);
      }
    }
    forall child <- t.published ensures ChildInv(t, child) {
      assert ChildInv(s, child);
    }
  }

  lemma FirstWriteStep(s: State, t: State, me: Instance, desktop: nat)
    requires Inv(s) && me in s.shims && IsLive(s.system, me) && s.shims[me].Created?
    requires WritesFirstRecord(s, t, me, desktop)
    ensures Inv(t)
  {
    assert ShimInv(s, me, s.shims[me]);
    OthersUndisturbed(s, t, me);
    forall r <- t.written ensures RecordInv(t, r) {
      if r in s.written {
        assert RecordInv(s, r);
        ReleasedLater(s, t, me, r);
        assert r.shim != me;
      }
    }
    forall child <- t.published ensures ChildInv(t, child) {
      assert ChildInv(s, child);
    }
  }

  lemma PublishStep(s: State, t: State, me: Instance, lease: Record, child: Instance)
    requires Inv(s) && me in s.shims && IsLive(s.system, me) && s.shims[me] == Publishing(lease, child)
    requires var complete := lease.(child := Some(child));
             t == Goto(s.(record := Some(complete), written := s.written + {complete},
                          published := s.published + {child}), me, Published(complete))
    ensures Inv(t)
  {
    assert ShimInv(s, me, s.shims[me]);
    OthersUndisturbed(s, t, me);
    forall r <- t.written ensures RecordInv(t, r) {
      if r in s.written {
        assert RecordInv(s, r);
        if lease.shim != r.shim {
          ReleasedLater(s, t, me, r);
        }
      }
    }
    forall c <- t.published ensures ChildInv(t, c) {
      if c in s.published {
        assert ChildInv(s, c);
      }
    }
  }

  lemma SpawnStep(s: State, t: State, me: Instance, lease: Record, child: Instance)
    requires Inv(s) && me in s.shims && IsLive(s.system, me) && s.shims[me] == Owning(lease)
    requires Spawns(s, t, me, lease, child)
    ensures Inv(t)
  {
    assert ShimInv(s, me, s.shims[me]);
    assert EnvironmentStep(s.system, t.system);
    ExitGrows(s, t);
    forall other <- s.shims | IsLive(t.system, other) ensures IsLive(s.system, other) {
      assert SeenEarlier(s.system, other);
    }
    OthersUndisturbed(s, t, me);
    forall r <- t.written ensures RecordInv(t, r) {
      assert RecordInv(s, r);
      if !(s.record.Some? && s.record.value.shim == r.shim) {
        ReleasedLater(s, t, me, r);
      }
    }
    forall c <- t.published ensures ChildInv(t, c) {
      assert ChildInv(s, c);
    }
  }

  /** What the invariant says about the stepping Shim and the record in place. */
  lemma Facts(s: State, me: Instance)
    requires Inv(s) && me in s.shims && IsLive(s.system, me)
    ensures ShimInv(s, me, s.shims[me])
    ensures s.record.Some? ==> s.directory && RecordInv(s, s.record.value)
  {
  }

  lemma LockingStep(c: Config, s: State, t: State, me: Instance)
    requires c.recordsAreReadable
    requires Inv(s) && me in s.shims && IsLive(s.system, me) && AcquireStep(c, s, t, me)
    requires s.shims[me].Starting? || s.shims[me].AtLoop? || s.shims[me].Reading?
    ensures Inv(t)
  {
    hide Inv;
    Facts(s, me);
    QuietStep(s, t, me);
  }

  lemma CreatedStep(c: Config, s: State, t: State, me: Instance)
    requires Inv(s) && me in s.shims && IsLive(s.system, me) && AcquireStep(c, s, t, me)
    requires s.shims[me].Created?
    ensures Inv(t)
  {
    hide Inv;
    Facts(s, me);
    if kept: bool :| t == Leave(s.(directory := kept, record := None), me) {
      QuietStep(s, t, me);
    } else {
      var desktop: nat :| WritesFirstRecord(s, t, me, desktop);
      FirstWriteStep(s, t, me, desktop);
    }
  }

  lemma ExaminingStep(c: Config, s: State, t: State, me: Instance)
    requires NamesAgree(c)
    requires Inv(s) && me in s.shims && IsLive(s.system, me) && AcquireStep(c, s, t, me)
    requires s.shims[me].Examining?
    ensures Inv(t)
  {
    hide Inv, ExecutableFileNameMatches;
    Facts(s, me);
    var owner := s.shims[me].owner;
    assert owner.shim.id != me.id ==> ExecutableFileNameMatches(c.linux, c.observedName(owner.shim), c.ownName(me));
    QuietStep(s, t, me);
  }

  lemma AwaitingStep(c: Config, s: State, t: State, me: Instance)
    requires c.liveIsSeen
    requires Inv(s) && me in s.shims && IsLive(s.system, me) && AcquireStep(c, s, t, me)
    requires s.shims[me].AwaitingShim? || s.shims[me].AwaitingChild?
    ensures Inv(t)
  {
    hide Inv;
    Facts(s, me);
    if t != s {
      QuietStep(s, t, me);
    }
  }

  lemma RemovingStep(c: Config, s: State, t: State, me: Instance)
    requires Inv(s) && me in s.shims && IsLive(s.system, me) && AcquireStep(c, s, t, me)
    requires s.shims[me].Removing? || s.shims[me].Unlinking? || s.shims[me].RemovingDirectory?
    ensures Inv(t)
  {
    hide Inv;
    Facts(s, me);
    if s.shims[me].Unlinking? && t != Leave(s, me) {
      UnlinkStep(s, t, me);
    } else {
      QuietStep(s, t, me);
    }
  }

  lemma StartingStep(c: Config, s: State, t: State, me: Instance)
    requires Inv(s) && me in s.shims && IsLive(s.system, me) && LeaseStep(c, s, t, me)
    requires s.shims[me].Owning? || s.shims[me].Spawned? || s.shims[me].Publishing?
    ensures Inv(t)
  {
    hide Inv;
    Facts(s, me);
    match s.shims[me]
    case Owning(lease) =>
      if t == Goto(s, me, DropLocked(lease)) {
        QuietStep(s, t, me);
      } else {
        var child: Instance :| Spawns(s, t, me, lease, child);
        SpawnStep(s, t, me, lease, child);
      }
    case Spawned(lease, child) => QuietStep(s, t, me);
    case Publishing(lease, child) =>
      if t == Goto(s, me, FailedStart(lease.(child := Some(child)), child)) {
        QuietStep(s, t, me);
      } else {
        PublishStep(s, t, me, lease, child);
      }
  }

  lemma HoldingStep(c: Config, s: State, t: State, me: Instance)
    requires c.dropsAfterChildExit
    requires Inv(s) && me in s.shims && IsLive(s.system, me) && LeaseStep(c, s, t, me)
    requires s.shims[me].Published? || s.shims[me].FailedStart? || s.shims[me].Running? || s.shims[me].Dropping?
    ensures Inv(t)
  {
    hide Inv;
    Facts(s, me);
    QuietStep(s, t, me);
  }

  lemma DropStep(c: Config, s: State, t: State, me: Instance)
    requires Inv(s) && me in s.shims && IsLive(s.system, me) && LeaseStep(c, s, t, me)
    requires s.shims[me].DropLocked? || s.shims[me].DropUnlinking? || s.shims[me].DropRemovingDirectory?
    ensures Inv(t)
  {
    hide Inv;
    Facts(s, me);
    if s.shims[me].DropUnlinking? && t != Leave(s, me) {
      UnlinkStep(s, t, me);
    } else {
      QuietStep(s, t, me);
    }
  }

  lemma StepKeeps(c: Config, s: State, t: State)
    requires Disciplined(c) && Inv(s) && Step(c, s, t)
    ensures Inv(t)
  {
    if EnvStep(s, t) {
      EnvStepKeeps(s, t);
    } else {
      var me: Instance :| ShimStep(c, s, t, me);
      StepKind(c, s, t, me);
      hide Inv, AcquireStep, LeaseStep;
      var shim := s.shims[me];
      if shim.Starting? || shim.AtLoop? || shim.Reading? {
        LockingStep(c, s, t, me);
      } else if shim.Created? {
        CreatedStep(c, s, t, me);
      } else if shim.Examining? {
        ExaminingStep(c, s, t, me);
      } else if shim.AwaitingShim? || shim.AwaitingChild? {
        AwaitingStep(c, s, t, me);
      } else if Acquiring(shim) {
        RemovingStep(c, s, t, me);
      } else if shim.Owning? || shim.Spawned? || shim.Publishing? {
        StartingStep(c, s, t, me);
      } else if shim.Published? || shim.FailedStart? || shim.Running? || shim.Dropping? {
        HoldingStep(c, s, t, me);
      } else {
        DropStep(c, s, t, me);
      }
    }
  }

  lemma {:induction false} InvHolds(c: Config, s: State, t: State, steps: nat)
    requires Disciplined(c) && Inv(s) && Reaches(c, s, t, steps)
    ensures Inv(t)
    decreases steps
  {
    hide Inv, Step;
    if steps > 0 {
      var u: State :| Step(c, s, u) && Reaches(c, u, t, steps - 1);
      StepKeeps(c, s, u);
      InvHolds(c, u, t, steps - 1);
    }
  }

  lemma ReachableInv(c: Config, s: State)
    requires Disciplined(c) && Reachable(c, s)
    ensures Inv(s)
  {
    var start: State, steps: nat :| Initial(start) && Reaches(c, start, s, steps);
    assert Inv(start);
    InvHolds(c, start, s, steps);
  }
}
