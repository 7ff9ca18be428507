/** The operating system's process table while processes exit and PIDs are reused. */
module ProcessTable {
  import opened Processes

  /** Processes that exist now, and the latest start time each PID has ever had. */
  datatype System = System(live: map<nat, nat>, latest: map<nat, nat>)

  ghost predicate Consistent(system: System) {
    forall pid <- system.live :: pid in system.latest && system.live[pid] == system.latest[pid]
  }

  predicate IsLive(system: System, who: Instance) {
    who.id in system.live && system.live[who.id] == who.startedAtMicros
  }

  ghost predicate Exits(system: System, pid: nat, after: System) {
    && pid in system.live
    && after == system.(live := system.live - {pid})
  }

  /** A PID's start times strictly increase, so an instance lives for one interval. */
  ghost predicate Starts(system: System, pid: nat, startedAt: nat, after: System) {
    && pid !in system.live
    && (pid in system.latest ==> startedAt > system.latest[pid])
    && after == System(system.live[pid := startedAt], system.latest[pid := startedAt])
  }

  ghost predicate EnvironmentStep(system: System, after: System) {
    || (exists pid: nat :: Exits(system, pid, after))
    || (exists pid: nat, startedAt: nat :: Starts(system, pid, startedAt, after))
  }

  /** The instance exists or existed. */
  ghost predicate SeenEarlier(system: System, who: Instance) {
    who.id in system.latest && system.latest[who.id] >= who.startedAtMicros
  }

  ghost predicate Gone(system: System, who: Instance) {
    SeenEarlier(system, who) && !IsLive(system, who)
  }

  lemma GoneForGood(system: System, after: System, who: Instance)
    requires Consistent(system) && EnvironmentStep(system, after)
    ensures Consistent(after)
    ensures SeenEarlier(system, who) ==> SeenEarlier(after, who)
    ensures Gone(system, who) ==> Gone(after, who)
  {
  }

  // ----- Histories: whether a PID changed hands -----

  ghost predicate History(systems: seq<System>) {
    && systems != []
    && Consistent(systems[0])
    && forall i :: 0 <= i < |systems| - 1 ==>
         systems[i + 1] == systems[i] || EnvironmentStep(systems[i], systems[i + 1])
  }

  /** A process starts at the PID in the step after `i`. */
  ghost predicate Taken(systems: seq<System>, pid: nat, i: nat) {
    i + 1 < |systems| && pid !in systems[i].live && pid in systems[i + 1].live
  }

  ghost predicate ChangesHands(systems: seq<System>, pid: nat) {
    exists i: nat :: Taken(systems, pid, i)
  }

  lemma {:induction false} HistoryFacts(systems: seq<System>, who: Instance, i: nat, k: nat)
    requires History(systems) && i <= k < |systems|
    ensures Consistent(systems[i]) && Consistent(systems[k])
    ensures SeenEarlier(systems[i], who) ==> SeenEarlier(systems[k], who)
    ensures Gone(systems[i], who) ==> Gone(systems[k], who)
  {
    if i < k {
      HistoryFacts(systems, who, i, k - 1);
      assert systems[k - 1 + 1] == systems[k - 1] || EnvironmentStep(systems[k - 1], systems[k - 1 + 1]);
      if systems[k] != systems[k - 1] {
        GoneForGood(systems[k - 1], systems[k], who);
      }
    } else if k > 0 {
      HistoryFacts(systems, who, 0, k);
    }
  }

  lemma {:induction false} UntakenStays(systems: seq<System>, who: Instance, k: nat)
    requires History(systems) && k < |systems| && IsLive(systems[0], who)
    requires forall j :: 0 <= j < k ==> !Taken(systems, who.id, j)
    ensures who.id in systems[k].live ==> IsLive(systems[k], who)
  {
    if k > 0 {
      UntakenStays(systems, who, k - 1);
      assert !Taken(systems, who.id, k - 1);
      assert systems[k - 1 + 1] == systems[k - 1] || EnvironmentStep(systems[k - 1], systems[k - 1 + 1]);
    }
  }

  /** A PID that is in use at the end of a history is still the instance's that had it at the start exactly when no
      process started there in between. */
  lemma StillTheSameExactly(systems: seq<System>, who: Instance)
    requires History(systems) && IsLive(systems[0], who)
    requires who.id in systems[|systems| - 1].live
    ensures IsLive(systems[|systems| - 1], who) <==> !ChangesHands(systems, who.id)
  {
    var last := |systems| - 1;
    if !ChangesHands(systems, who.id) {
      UntakenStays(systems, who, last);
    }
    if j: nat :| Taken(systems, who.id, j) {
      HistoryFacts(systems, who, 0, j);
      HistoryFacts(systems, who, j, last);
      assert SeenEarlier(systems[0], who);
    }
  }

  /** The process at the PID exits in the step after `i`. */
  ghost predicate Freed(systems: seq<System>, pid: nat, i: nat) {
    i + 1 < |systems| && pid in systems[i].live && pid !in systems[i + 1].live
  }

  /** A process starts at the PID in the step after `j`, and none exits there after that. */
  ghost predicate TakenForGood(systems: seq<System>, pid: nat, j: nat) {
    Taken(systems, pid, j) && forall m: nat :: j < m ==> !Freed(systems, pid, m)
  }

  lemma {:induction false} UnfreedStays(systems: seq<System>, pid: nat, j: nat, k: nat)
    requires TakenForGood(systems, pid, j) && j < k < |systems|
    ensures pid in systems[k].live
  {
    if j + 1 < k {
      UnfreedStays(systems, pid, j, k - 1);
      assert !Freed(systems, pid, k - 1);
    }
  }

  /** The start that is behind a PID in use: the latest one. */
  lemma {:induction false} LatestStart(systems: seq<System>, pid: nat, k: nat) returns (j: nat)
    requires k < |systems| && pid !in systems[0].live && pid in systems[k].live
    ensures j < k && Taken(systems, pid, j)
    ensures forall m: nat :: j < m < k ==> !Freed(systems, pid, m)
  {
    if pid in systems[k - 1].live {
      j := LatestStart(systems, pid, k - 1);
    } else {
      j := k - 1;
    }
  }

  /** A PID that is free at the start of a history is in use at its end exactly when some process started there and
      none exited there after that. */
  lemma InUseExactly(systems: seq<System>, pid: nat)
    requires systems != [] && pid !in systems[0].live
    ensures pid in systems[|systems| - 1].live <==> exists j: nat :: TakenForGood(systems, pid, j)
  {
    var last := |systems| - 1;
    if pid in systems[last].live {
      var j := LatestStart(systems, pid, last);
      assert TakenForGood(systems, pid, j);
    }
    if j: nat :| TakenForGood(systems, pid, j) {
      UnfreedStays(systems, pid, j, last);
    }
  }
}
