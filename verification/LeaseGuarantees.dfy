/** What the local Host Runtime lease guarantees where its conditions are met
    (crates/shim/src/local_runtime_lease.rs:164-379). */
module LeaseGuarantees {
  import opened Processes
  import opened ProcessTable
  import opened Sequences
  import opened RuntimeLease
  import opened LeaseInvariant

  /** No two published Host Runtimes are alive together. */
  ghost predicate NoOverlap(s: State) {
    forall a <- s.published, b <- s.published :: IsLive(s.system, a) && IsLive(s.system, b) ==> a == b
  }

  lemma DisciplinedNeverOverlaps(c: Config, s: State)
    requires Disciplined(c) && Reachable(c, s)
    ensures NoOverlap(s)
  {
    ReachableInv(c, s);
    forall a <- s.published, b <- s.published | IsLive(s.system, a) && IsLive(s.system, b) ensures a == b {
      assert ChildInv(s, a) && ChildInv(s, b);
    }
  }

  predicate BeforePublication(shim: Shim) {
    shim.Owning? || shim.Spawned? || shim.Publishing?
  }

  /** When `acquire` has returned, everything every other Shim ever published is history: the child is gone, and
      the Shim is gone or has given its lease back. In particular no published Host Runtime is alive. */
  lemma AcquiredAfterRetirement(c: Config, s: State, me: Instance)
    requires Disciplined(c) && Reachable(c, s)
    requires me in s.shims && IsLive(s.system, me) && BeforePublication(s.shims[me])
    ensures forall r <- s.written :: r.shim != me ==> Retired(s, r)
    ensures forall child <- s.published :: Gone(s.system, child)
    ensures s.directory && s.record == Some(s.shims[me].lease) && s.lock == Some(me)
  {
    ReachableInv(c, s);
    Facts(s, me);
    forall r <- s.written | r.shim != me ensures Retired(s, r) {
      assert RecordInv(s, r);
    }
    forall child <- s.published ensures Gone(s.system, child) {
      assert ChildInv(s, child);
    }
  }

  /** A directory without a record hides no published Host Runtime, and neither does a missing directory. */
  lemma UnrecordedMeansGone(c: Config, s: State)
    requires Disciplined(c) && Reachable(c, s) && s.record.None?
    ensures forall child <- s.published :: Gone(s.system, child)
    ensures forall me <- s.shims :: IsLive(s.system, me) ==> !s.shims[me].Running?
  {
    ReachableInv(c, s);
    forall child <- s.published ensures Gone(s.system, child) {
      assert ChildInv(s, child);
    }
    forall me <- s.shims | IsLive(s.system, me) ensures !s.shims[me].Running? {
      assert ShimInv(s, me, s.shims[me]);
    }
  }

  /** While a Shim lives and has not started to drop its lease, the record on disk is its own. */
  lemma HolderKeepsItsRecord(c: Config, s: State, me: Instance)
    requires Disciplined(c) && Reachable(c, s)
    requires me in s.shims && IsLive(s.system, me)
    requires BeforePublication(s.shims[me]) || s.shims[me].Published? || s.shims[me].Running?
    ensures s.directory && s.record == Some(s.shims[me].lease) && s.shims[me].lease.shim == me
  {
    ReachableInv(c, s);
    Facts(s, me);
  }

  /** No delayed deletion: whatever step takes a record away or replaces it, its owner did it, or its Shim and its
      child are both gone. */
  lemma NoDelayedDeletion(c: Config, s: State, t: State, record: Record)
    requires Disciplined(c) && Reachable(c, s) && Step(c, s, t)
    requires s.record == Some(record) && t.record != Some(record)
    ensures Dead(s.system, record) || ShimStep(c, s, t, record.shim)
    ensures t.record.Some? ==> t.record.value.shim == record.shim && record.child.None?
  {
    ReachableInv(c, s);
    if me: Instance :| ShimStep(c, s, t, me) {
      Facts(s, me);
      StepKind(c, s, t, me);
    }
  }
}
