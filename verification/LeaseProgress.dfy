/** What a Shim can get done (crates/shim/src/local_runtime_lease.rs:164-323): an acquisition that is let through completes,
    also over a living predecessor, and a lease that may be dropped is given back. */
module LeaseProgress {
  import opened Processes
  import opened ProcessTable
  import opened Sequences
  import opened RuntimeLease
  import opened LeaseInvariant
  import opened LeaseConditions

  /** A step of `me`, or the exit of one of the processes in `leaving`. */
  ghost predicate TakeoverStep(c: Config, me: Instance, leaving: set<Instance>, s: State, t: State) {
    || ShimStep(c, s, t, me)
    || exists who: Instance :: who in leaving && IsLive(s.system, who) && ExitsWithLock(s, who.id, t)
  }

  /** Nothing else happens from `s` to `t`. */
  ghost predicate TakesOver(c: Config, me: Instance, leaving: set<Instance>, s: State, t: State, steps: nat)
    decreases steps
  {
    if steps == 0 then s == t
    else exists u: State :: TakeoverStep(c, me, leaving, s, u) && TakesOver(c, me, leaving, u, t, steps - 1)
  }

  /** `me` owns the lease, with its own record on disk and the lock in hand. */
  ghost predicate Acquired(s: State, me: Instance) {
    && me in s.shims && IsLive(s.system, me) && s.shims[me].Owning?
    && s.shims[me].lease == Record(me, s.shims[me].lease.desktop, None)
    && s.directory && s.record == Some(s.shims[me].lease) && s.lock == Some(me)
  }

  ghost function Acquires(me: Instance): State -> bool {
    (s: State) => Acquired(s, me)
  }

  ghost predicate CanReach(c: Config, me: Instance, leaving: set<Instance>, s: State, goal: State -> bool) {
    exists t: State, steps: nat :: TakesOver(c, me, leaving, s, t, steps) && goal(t)
  }

  ghost predicate CanTakeOver(c: Config, me: Instance, leaving: set<Instance>, s: State) {
    CanReach(c, me, leaving, s, Acquires(me))
  }

  lemma Prepend(c: Config, me: Instance, leaving: set<Instance>, s: State, u: State, goal: State -> bool)
    requires TakeoverStep(c, me, leaving, s, u) && CanReach(c, me, leaving, u, goal)
    ensures CanReach(c, me, leaving, s, goal)
  {
    hide TakeoverStep;
    var t: State, steps: nat :| TakesOver(c, me, leaving, u, t, steps) && goal(t);
    assert TakesOver(c, me, leaving, s, t, steps + 1);
  }

  lemma PrependTurn(c: Config, me: Instance, leaving: set<Instance>, s: State, u: State)
    requires me in s.shims && IsLive(s.system, me) && AcquireStep(c, s, u, me) && CanTakeOver(c, me, leaving, u)
    ensures CanTakeOver(c, me, leaving, s)
  {
    hide AcquireStep, CanReach;
    assert ShimStep(c, s, u, me);
    Prepend(c, me, leaving, s, u, Acquires(me));
  }

  // ----- Backwards from the end of an acquisition -----

  /** `me` is alive and holds the lock. */
  ghost predicate InLock(s: State, me: Instance) {
    me in s.shims && IsLive(s.system, me) && s.lock == Some(me)
  }

  lemma FromFreeLoop(c: Config, s: State, me: Instance, leaving: set<Instance>)
    requires InLock(s, me) && s.shims[me].AtLoop? && !s.directory
    ensures CanTakeOver(c, me, leaving, s)
  {
    var n := s.shims[me].progress;
    var u := Goto(s.(directory := true), me, Created(n));
    var first := Record(me, 0, None);
    var t := Goto(u.(record := Some(first), written := u.written + {first}), me, Owning(first));
    assert WritesFirstRecord(u, t, me, 0);
    assert TakesOver(c, me, leaving, t, t, 0) && Acquires(me)(t);
    PrependTurn(c, me, leaving, u, t);
    PrependTurn(c, me, leaving, s, u);
  }

  lemma FromEmptyDirectory(c: Config, s: State, me: Instance, leaving: set<Instance>)
    requires InLock(s, me) && s.shims[me].RemovingDirectory?
    ensures CanTakeOver(c, me, leaving, s)
  {
    hide CanTakeOver;
    var n := s.shims[me].progress;
    var u := Goto(s.(directory := false), me, AtLoop(n.(passes := n.passes + 1)));
    FromFreeLoop(c, u, me, leaving);
    PrependTurn(c, me, leaving, s, u);
  }

  lemma FromRemoving(c: Config, s: State, me: Instance, leaving: set<Instance>)
    requires InLock(s, me) && s.shims[me].Removing? && s.record == Some(s.shims[me].owner)
    ensures CanTakeOver(c, me, leaving, s)
  {
    hide CanTakeOver;
    var n := s.shims[me].progress;
    var u := Goto(s, me, Unlinking(n));
    var v := Goto(u.(record := None), me, RemovingDirectory(n));
    FromEmptyDirectory(c, v, me, leaving);
    PrependTurn(c, me, leaving, u, v);
    PrependTurn(c, me, leaving, s, u);
  }

  /** The owner and its child are gone. */
  lemma FromDeadOwner(c: Config, s: State, me: Instance, owner: Record, leaving: set<Instance>)
    requires InLock(s, me) && s.shims[me].AwaitingShim? && s.shims[me].owner == owner && s.record == Some(owner)
    requires !IsLive(s.system, owner.shim) && (owner.child.Some? ==> !IsLive(s.system, owner.child.value))
    ensures CanTakeOver(c, me, leaving, s)
  {
    hide CanTakeOver;
    var n := s.shims[me].progress;
    var u := Goto(s, me, AwaitingChild(owner, n));
    var v := Goto(u, me, Removing(owner, n));
    FromRemoving(c, v, me, leaving);
    PrependTurn(c, me, leaving, u, v);
    PrependTurn(c, me, leaving, s, u);
  }

  /** What the exit of another process leaves as it was. */
  function AfterExit(s: State, who: Instance): State
    requires who.id in s.system.live
  {
    s.(system := s.system.(live := s.system.live - {who.id}),
       lock := if s.lock == Some(Instance(who.id, s.system.live[who.id])) then None else s.lock)
  }

  lemma PrependExit(c: Config, s: State, me: Instance, who: Instance, leaving: set<Instance>)
    requires who in leaving && IsLive(s.system, who) && CanTakeOver(c, me, leaving, AfterExit(s, who))
    ensures CanTakeOver(c, me, leaving, s)
  {
    hide CanReach;
    assert ExitsWithLock(s, who.id, AfterExit(s, who));
    Prepend(c, me, leaving, s, AfterExit(s, who), Acquires(me));
  }

  lemma FromAwaitingShim(c: Config, s: State, me: Instance, owner: Record, leaving: set<Instance>)
    requires InLock(s, me) && s.shims[me].AwaitingShim? && s.shims[me].owner == owner && s.record == Some(owner)
    requires leaving == Predecessors(owner) && me !in leaving
    ensures CanTakeOver(c, me, leaving, s)
  {
    hide CanTakeOver;
    if IsLive(s.system, owner.shim) {
      var u := AfterExit(s, owner.shim);
      WithoutShim(c, u, me, owner, leaving);
      PrependExit(c, s, me, owner.shim, leaving);
    } else {
      WithoutShim(c, s, me, owner, leaving);
    }
  }

  lemma WithoutShim(c: Config, s: State, me: Instance, owner: Record, leaving: set<Instance>)
    requires InLock(s, me) && s.shims[me].AwaitingShim? && s.shims[me].owner == owner && s.record == Some(owner)
    requires leaving == Predecessors(owner) && me !in leaving && !IsLive(s.system, owner.shim)
    ensures CanTakeOver(c, me, leaving, s)
  {
    hide CanTakeOver;
    if owner.child.Some? && IsLive(s.system, owner.child.value) {
      var u := AfterExit(s, owner.child.value);
      FromDeadOwner(c, u, me, owner, leaving);
      PrependExit(c, s, me, owner.child.value, leaving);
    } else {
      FromDeadOwner(c, s, me, owner, leaving);
    }
  }

  // ----- Taking over -----

  /** The processes a record names. */
  function Predecessors(owner: Record): set<Instance> {
    {owner.shim} + if owner.child.Some? then {owner.child.value} else {}
  }

  /** A contender that examines the record of another Shim, living or not, needs only that Shim and its child to exit. */
  lemma TakeoverFollows(c: Config, s: State, me: Instance)
    requires Disciplined(c) && Reachable(c, s)
    requires me in s.shims && IsLive(s.system, me) && s.shims[me].Examining?
    requires s.shims[me].owner.shim.id != me.id && s.shims[me].owner.child != Some(me)
    ensures CanTakeOver(c, me, Predecessors(s.shims[me].owner), s)
  {
    ReachableInv(c, s);
    Facts(s, me);
    hide Inv, Reachable, CanTakeOver, ExecutableFileNameMatches;
    var owner, n := s.shims[me].owner, s.shims[me].progress;
    var u := Goto(s, me, AwaitingShim(owner, n));
    assert ExecutableFileNameMatches(c.linux, c.observedName(owner.shim), c.ownName(me));
    FromAwaitingShim(c, u, me, owner, Predecessors(owner));
    PrependTurn(c, me, Predecessors(owner), s, u);
  }

  /** The same from the start of an acquisition: the record, if there is one, names another Shim. */
  lemma AcquisitionFollows(c: Config, s: State, me: Instance)
    requires Disciplined(c) && Reachable(c, s)
    requires me in s.shims && IsLive(s.system, me) && s.shims[me].Starting? && s.lock.None?
    requires s.record.Some? ==> s.record.value.shim.id != me.id && s.record.value.child != Some(me)
    ensures CanTakeOver(c, me, Named(s), s)
  {
    ReachableInv(c, s);
    hide Reachable, CanTakeOver, ExecutableFileNameMatches, Predecessors;
    assert s.record.Some? ==> s.directory;
    var u := Goto(s.(lock := Some(me)), me, AtLoop(Progress(0, 0)));
    var v := Goto(u, me, Reading(Progress(0, 0)));
    if !s.directory {
      FromFreeLoop(c, u, me, Named(s));
    } else if s.record.None? {
      var w := Goto(v, me, RemovingDirectory(Progress(0, 0)));
      FromEmptyDirectory(c, w, me, Named(s));
      PrependTurn(c, me, Named(s), v, w);
      PrependTurn(c, me, Named(s), u, v);
    } else {
      var owner := s.record.value;
      var w := Goto(v, me, Examining(owner, Progress(0, 0)));
      var x := Goto(w, me, AwaitingShim(owner, Progress(0, 0)));
      assert ExecutableFileNameMatches(c.linux, c.observedName(owner.shim), c.ownName(me));
      FromAwaitingShim(c, x, me, owner, Named(s));
      PrependTurn(c, me, Named(s), w, x);
      PrependTurn(c, me, Named(s), v, w);
      PrependTurn(c, me, Named(s), u, v);
    }
    PrependTurn(c, me, Named(s), s, u);
  }

  /** The processes the record on disk names. */
  function Named(s: State): set<Instance> {
    if s.record.Some? then Predecessors(s.record.value) else {}
  }

  // ----- A record with the contender's own PID -----

  /** The record, of an earlier process, has the PID of `me`, and `me` has not got beyond finding that out. */
  ghost predicate IsRefused(s: State, me: Instance) {
    && me in s.shims
    && match s.shims[me]
       case Done => true
       case Starting => s.directory && s.record.Some? && s.record.value.shim.id == me.id
       case AtLoop(_) => s.directory && s.record.Some? && s.record.value.shim.id == me.id
       case Reading(_) => s.directory && s.record.Some? && s.record.value.shim.id == me.id
       case Examining(owner, _) => owner.shim.id == me.id
       case _ => false
  }

  lemma StaysRefused(c: Config, s: State, t: State, me: Instance, leaving: set<Instance>)
    requires c.recordsAreReadable && IsRefused(s, me) && TakeoverStep(c, me, leaving, s, t)
    ensures IsRefused(t, me)
  {
    hide ExecutableFileNameMatches;
  }

  lemma {:induction false} RefusedAlong(
    c: Config, s: State, t: State, me: Instance, leaving: set<Instance>, steps: nat)
    requires c.recordsAreReadable && IsRefused(s, me) && TakesOver(c, me, leaving, s, t, steps)
    ensures IsRefused(t, me)
    decreases steps
  {
    hide TakeoverStep, IsRefused;
    if steps > 0 {
      var u: State :| TakeoverStep(c, me, leaving, s, u) && TakesOver(c, me, leaving, u, t, steps - 1);
      StaysRefused(c, s, u, me, leaving);
      RefusedAlong(c, u, t, me, leaving, steps - 1);
    }
  }

  /** An acquisition that nobody interferes with, but for the exits it waits for, can complete exactly when the record,
      if there is one, does not have the contender's own PID: a Shim that was given the PID of its crashed predecessor
      takes that record for its own and is refused. */
  lemma AcquisitionExactly(c: Config, s: State, me: Instance)
    requires Disciplined(c) && Reachable(c, s)
    requires me in s.shims && IsLive(s.system, me) && s.shims[me].Starting? && s.lock.None?
    requires s.record.Some? ==> s.record.value.child != Some(me)
    ensures CanTakeOver(c, me, Named(s), s) <==> (s.record.Some? ==> s.record.value.shim.id != me.id)
  {
    if s.record.Some? && s.record.value.shim.id == me.id {
      ReachableInv(c, s);
      hide Inv, Reachable, TakesOver;
      assert IsRefused(s, me) by {
        RecordHasDirectory(s);
      }
      if t: State, steps: nat :| TakesOver(c, me, Named(s), s, t, steps) && Acquires(me)(t) {
        RefusedAlong(c, s, t, me, Named(s), steps);
      }
    } else {
      AcquisitionFollows(c, s, me);
    }
  }

  lemma RecordHasDirectory(s: State)
    requires Inv(s) && s.record.Some?
    ensures s.directory
  {
  }

  // ----- Giving the lease back -----

  /** `me` is done with the lease, and nothing of it is left. */
  ghost predicate GaveBack(s: State, me: Instance) {
    me in s.shims && s.shims[me].Done? && !s.directory && s.record.None? && s.lock.None?
  }

  ghost function GivesBack(me: Instance): State -> bool {
    (s: State) => GaveBack(s, me)
  }

  lemma PrependDrop(c: Config, me: Instance, s: State, u: State)
    requires me in s.shims && IsLive(s.system, me) && LeaseStep(c, s, u, me) && CanReach(c, me, {}, u, GivesBack(me))
    ensures CanReach(c, me, {}, s, GivesBack(me))
  {
    hide LeaseStep, CanReach;
    assert ShimStep(c, s, u, me);
    Prepend(c, me, {}, s, u, GivesBack(me));
  }

  lemma FromDropLocked(c: Config, s: State, me: Instance, lease: Record)
    requires InLock(s, me) && s.shims[me] == DropLocked(lease) && s.record == Some(lease)
    ensures CanReach(c, me, {}, s, GivesBack(me))
  {
    var u := Goto(s, me, DropUnlinking);
    var v := Goto(u.(record := None), me, DropRemovingDirectory);
    var w := Leave(v.(directory := false), me);
    assert TakesOver(c, me, {}, w, w, 0) && GivesBack(me)(w);
    hide CanReach;
    PrependDrop(c, me, v, w);
    PrependDrop(c, me, u, v);
    PrependDrop(c, me, s, u);
  }

  /** A Shim whose child is gone can give its lease back by its own steps, once the lock is free, and leaves nothing. */
  lemma LeaseIsGivenBack(c: Config, s: State, me: Instance)
    requires Disciplined(c) && Reachable(c, s)
    requires me in s.shims && IsLive(s.system, me) && s.shims[me].Running? && s.lock.None?
    requires ChildGone(s.system, s.shims[me].lease)
    ensures CanReach(c, me, {}, s, GivesBack(me))
  {
    ReachableInv(c, s);
    Facts(s, me);
    hide Inv, Reachable, CanReach;
    var lease := s.shims[me].lease;
    var u := Goto(s, me, Dropping(lease));
    var v := Goto(u.(lock := Some(me)), me, DropLocked(lease));
    FromDropLocked(c, v, me, lease);
    PrependDrop(c, me, u, v);
    PrependDrop(c, me, s, u);
  }
}
