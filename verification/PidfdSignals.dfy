/** Signal delivery to observed process instances while processes exit and PIDs are reused
    (crates/platform/src/process.rs:487-566). */
module PidfdSignals {
  import opened Processes
  import opened ProcessTable

  datatype Phase =
    | Opening
    | Checking(descriptor: Instance)
    | Sending(target: Instance)
    | Finished(ok: bool)

  datatype Delivery = Delivery(position: nat, target: Instance)

  datatype State = State(system: System, position: nat, phase: Phase, delivered: seq<Delivery>)

  /** `InvalidId` and the I/O failures end the whole call, as does a PID found reused. */
  ghost predicate LinuxStep(expected: seq<Instance>, s: State, t: State) {
    && t.system == s.system
    && match s.phase
       case Opening =>
         if s.position >= |expected| then t == s.(phase := Finished(true))
         else
           var pid := expected[s.position].id;
           || t == s.(phase := Finished(false))
           || (pid !in s.system.live && t == s.(position := s.position + 1))
           || (pid in s.system.live && pid != 0 && t == s.(phase := Checking(Instance(pid, s.system.live[pid]))))
       case Checking(descriptor) =>
         && s.position < |expected|
         && var pid := expected[s.position].id;
         || t == s.(phase := Finished(false))
         || (pid !in s.system.live && t == s.(phase := Opening, position := s.position + 1))
         || (IsLive(s.system, expected[s.position]) && t == s.(phase := Sending(descriptor)))
       case Sending(target) =>
         var next := s.(phase := Opening, position := s.position + 1);
         if IsLive(s.system, target) then
           t == s.(phase := Finished(false)) || t == next.(delivered := s.delivered + [Delivery(s.position, target)])
         else t == next
       case Finished(_) => false
  }

  ghost predicate Step(expected: seq<Instance>, s: State, t: State) {
    || (EnvironmentStep(s.system, t.system) && t == s.(system := t.system))
    || LinuxStep(expected, s, t)
  }

  ghost predicate Initial(s: State) {
    Consistent(s.system) && s.position == 0 && s.phase == Opening && s.delivered == []
  }

  ghost predicate Behaviour(expected: seq<Instance>, trace: seq<State>) {
    && trace != []
    && Initial(trace[0])
    && forall i :: 0 <= i < |trace| - 1 ==> Step(expected, trace[i], trace[i + 1])
  }

  // ----- The invariant -----

  /** The descriptor pins some user of the PID. Once the expected instance is seen live after that, an older one
      the descriptor may pin is gone for good. */
  ghost predicate Inv(expected: seq<Instance>, s: State) {
    && Consistent(s.system)
    && (s.phase.Checking? ==>
          && s.position < |expected|
          && s.phase.descriptor.id == expected[s.position].id
          && s.phase.descriptor.id in s.system.latest
          && s.phase.descriptor.startedAtMicros <= s.system.latest[s.phase.descriptor.id])
    && (s.phase.Sending? ==>
          && s.position < |expected|
          && s.phase.target.id == expected[s.position].id
          && s.phase.target.id in s.system.latest
          && (s.phase.target == expected[s.position] || s.phase.target.startedAtMicros < s.system.latest[s.phase.target.id]))
    && (forall d <- s.delivered :: d.position < s.position && d.position < |expected| && d.target == expected[d.position])
    && (forall i, j :: 0 <= i < j < |s.delivered| ==> s.delivered[i].position < s.delivered[j].position)
  }

  lemma EnvironmentKeeps(system: System, after: System)
    requires Consistent(system) && EnvironmentStep(system, after)
    ensures Consistent(after)
    ensures forall pid <- system.latest :: pid in after.latest && system.latest[pid] <= after.latest[pid]
  {
  }

  lemma StepKeeps(expected: seq<Instance>, s: State, t: State)
    requires Inv(expected, s) && Step(expected, s, t)
    ensures Inv(expected, t)
  {
    if EnvironmentStep(s.system, t.system) && t == s.(system := t.system) {
      EnvironmentKeeps(s.system, t.system);
    } else {
      assert LinuxStep(expected, s, t);
    }
  }

  lemma {:induction false} InvHolds(expected: seq<Instance>, trace: seq<State>, i: nat)
    requires Behaviour(expected, trace) && i < |trace|
    ensures Inv(expected, trace[i])
  {
    if i > 0 {
      InvHolds(expected, trace, i - 1);
      assert Step(expected, trace[i - 1], trace[i - 1 + 1]);
      StepKeeps(expected, trace[i - 1], trace[i]);
    }
  }

  /** Under any interleaving of exits and PID reuse, every signal reaches exactly the listed instance it was meant
      for, in list order and at most once each. Nothing is assumed about where the list comes from. */
  lemma SignalsReachOnlyObserved(expected: seq<Instance>, trace: seq<State>, i: nat)
    requires Behaviour(expected, trace) && i < |trace|
    ensures forall d <- trace[i].delivered :: d.position < |expected| && d.target == expected[d.position]
    ensures forall j, k :: 0 <= j < k < |trace[i].delivered| ==>
      trace[i].delivered[j].position < trace[i].delivered[k].position
  {
    InvHolds(expected, trace, i);
  }

  // ----- Nobody alive is skipped -----

  ghost predicate Signalled(s: State, position: nat) {
    exists d <- s.delivered :: d.position == position
  }

  ghost predicate Settled(expected: seq<Instance>, s: State) {
    && (forall e <- expected :: SeenEarlier(s.system, e))
    && (s.phase.Finished? && s.phase.ok ==> s.position >= |expected|)
    // A descriptor opened after the instance was seen cannot pin an older user of the PID.
    && (s.phase.Checking? && s.position < |expected| ==>
          s.phase.descriptor.startedAtMicros >= expected[s.position].startedAtMicros)
    && (s.phase.Sending? && s.position < |expected| ==> s.phase.target == expected[s.position])
    && forall p :: 0 <= p < s.position && p < |expected| ==> Signalled(s, p) || Gone(s.system, expected[p])
  }

  lemma StepSettles(expected: seq<Instance>, s: State, t: State)
    requires Inv(expected, s) && Settled(expected, s) && Step(expected, s, t)
    ensures Settled(expected, t)
  {
    if EnvironmentStep(s.system, t.system) && t == s.(system := t.system) {
      forall e <- expected ensures SeenEarlier(t.system, e) && (Gone(s.system, e) ==> Gone(t.system, e)) {
        GoneForGood(s.system, t.system, e);
      }
    } else {
      assert LinuxStep(expected, s, t);
      assert s.position < |expected| ==> expected[s.position] in expected;
      assert forall d <- s.delivered :: d in t.delivered;
      if t.delivered != s.delivered {
        var d := Delivery(s.position, s.phase.target);
        assert d in t.delivered && d.position == s.position;
      }
      forall p | 0 <= p < t.position && p < |expected| ensures Signalled(t, p) || Gone(t.system, expected[p]) {
        if p < s.position && Signalled(s, p) {
          var d :| d in s.delivered && d.position == p;
          assert d in t.delivered;
        }
      }
    }
  }

  /** Given that every listed instance was seen live before, a call that succeeds has signalled each of them or
      found it gone. */
  lemma {:induction false} SettledHolds(expected: seq<Instance>, trace: seq<State>, i: nat)
    requires Behaviour(expected, trace) && i < |trace|
    requires forall e <- expected :: SeenEarlier(trace[0].system, e)
    ensures Settled(expected, trace[i])
  {
    if i > 0 {
      SettledHolds(expected, trace, i - 1);
      InvHolds(expected, trace, i - 1);
      assert Step(expected, trace[i - 1], trace[i - 1 + 1]);
      StepSettles(expected, trace[i - 1], trace[i]);
    }
  }

  lemma SuccessLeavesNobodyOut(expected: seq<Instance>, trace: seq<State>, i: nat, position: nat)
    requires Behaviour(expected, trace) && i < |trace| && position < |expected|
    requires forall e <- expected :: SeenEarlier(trace[0].system, e)
    requires trace[i].phase == Finished(true)
    ensures Signalled(trace[i], position) || Gone(trace[i].system, expected[position])
  {
    SettledHolds(expected, trace, i);
  }

  // ----- Everyone can be reached -----

  /** The deliveries of a call that finds everyone from position `from` on alive. */
  function AllDelivered(expected: seq<Instance>, from: nat): seq<Delivery>
    decreases |expected| - from
  {
    if from >= |expected| then [] else [Delivery(from, expected[from])] + AllDelivered(expected, from + 1)
  }

  ghost predicate Reaches(expected: seq<Instance>, s: State, t: State, steps: nat)
    decreases steps
  {
    if steps == 0 then s == t
    else exists u: State :: LinuxStep(expected, s, u) && Reaches(expected, u, t, steps - 1)
  }

  lemma Then(expected: seq<Instance>, s: State, u: State, t: State, steps: nat)
    requires LinuxStep(expected, s, u) && Reaches(expected, u, t, steps)
    ensures Reaches(expected, s, t, steps + 1)
  {
    hide LinuxStep;
  }

  /** Left alone, a call whose listed processes are all alive signals every one of them, in list order, and succeeds. */
  lemma {:induction false} EveryoneIsReached(expected: seq<Instance>, s: State) returns (t: State, steps: nat)
    requires s.phase == Opening && s.position <= |expected|
    requires forall e <- expected :: IsLive(s.system, e) && e.id != 0
    ensures Reaches(expected, s, t, steps)
    ensures t.phase == Finished(true) && t.delivered == s.delivered + AllDelivered(expected, s.position)
    decreases |expected| - s.position
  {
    if s.position == |expected| {
      t := s.(phase := Finished(true));
      assert s.delivered + [] == s.delivered;
      assert Reaches(expected, t, t, 0);
      Then(expected, s, t, t, 0);
      steps := 1;
    } else {
      var target := expected[s.position];
      assert target in expected;
      var s1 := s.(phase := Checking(target));
      var s2 := s.(phase := Sending(target));
      var s3 := s.(position := s.position + 1, delivered := s.delivered + [Delivery(s.position, target)]);
      assert target == Instance(target.id, s.system.live[target.id]);
      t, steps := EveryoneIsReached(expected, s3);
      assert s.delivered + ([Delivery(s.position, target)] + AllDelivered(expected, s.position + 1))
          == s3.delivered + AllDelivered(expected, s.position + 1);
      Then(expected, s2, s3, t, steps);
      Then(expected, s1, s2, t, steps + 1);
      Then(expected, s, s1, t, steps + 2);
      steps := steps + 3;
    }
  }

  // ----- The order is what the guarantee rests on -----

  /** The macOS branch: check the PID's start time, then signal the PID. A process that is gone at either point is
      skipped; a reused PID, and any failure, end the call. */
  ghost predicate MacosStep(expected: seq<Instance>, s: State, t: State) {
    && t.system == s.system
    && match s.phase
       case Opening =>
         if s.position >= |expected| then t == s.(phase := Finished(true))
         else
           var pid := expected[s.position].id;
           || t == s.(phase := Finished(false))
           || (pid !in s.system.live && t == s.(position := s.position + 1))
           || (IsLive(s.system, expected[s.position]) && t == s.(phase := Sending(expected[s.position])))
       case Sending(target) =>
         var next := s.(phase := Opening, position := s.position + 1);
         if target.id in s.system.live then
           || t == s.(phase := Finished(false))
           || t == next.(delivered := s.delivered + [Delivery(s.position, HolderOf(s.system, target.id))])
         else t == next
       case _ => false
  }

  function HolderOf(system: System, pid: nat): Instance
    requires pid in system.live
  {
    Instance(pid, system.live[pid])
  }

  ghost predicate MacosBehaviour(expected: seq<Instance>, trace: seq<State>) {
    && trace != []
    && Initial(trace[0])
    && forall i :: 0 <= i < |trace| - 1 ==>
         || (EnvironmentStep(trace[i].system, trace[i + 1].system)
             && trace[i + 1] == trace[i].(system := trace[i + 1].system))
         || MacosStep(expected, trace[i], trace[i + 1])
  }

  /** The process tables of a part of a run. */
  function Tables(trace: seq<State>, from: nat, to: nat): (systems: seq<System>)
    requires from <= to < |trace|
    ensures |systems| == to - from + 1
    ensures forall i :: 0 <= i < |systems| ==> systems[i] == trace[from + i].system
  {
    seq(to - from + 1, i requires 0 <= i <= to - from => trace[from + i].system)
  }

  lemma {:induction false} MacosTablesConsistent(expected: seq<Instance>, trace: seq<State>, i: nat)
    requires MacosBehaviour(expected, trace) && i < |trace|
    ensures Consistent(trace[i].system)
  {
    hide MacosStep;
    if i > 0 {
      MacosTablesConsistent(expected, trace, i - 1);
      MacosStepKeepsTable(expected, trace, i - 1);
      if trace[i].system != trace[i - 1].system {
        GoneForGood(trace[i - 1].system, trace[i].system, Instance(0, 0));
      }
    }
  }

  lemma MacosStepKeepsTable(expected: seq<Instance>, trace: seq<State>, i: nat)
    requires MacosBehaviour(expected, trace) && i + 1 < |trace|
    ensures trace[i + 1].system == trace[i].system || EnvironmentStep(trace[i].system, trace[i + 1].system)
  {
  }

  lemma MacosTables(expected: seq<Instance>, trace: seq<State>, from: nat, to: nat)
    requires MacosBehaviour(expected, trace) && from <= to < |trace|
    ensures History(Tables(trace, from, to))
  {
    var systems := Tables(trace, from, to);
    MacosTablesConsistent(expected, trace, from);
    forall i | 0 <= i < |systems| - 1
      ensures systems[i + 1] == systems[i] || EnvironmentStep(systems[i], systems[i + 1])
    {
      MacosStepKeepsTable(expected, trace, from + i);
    }
  }

  /** Checking before binding to the process: for every run, a signal sent in the step after `kill`, for the check
      passed in the step after `check`, reaches the listed instance exactly when no process started at its PID in
      between. */
  lemma CheckThenKillExactly(expected: seq<Instance>, trace: seq<State>, check: nat, kill: nat)
    requires MacosBehaviour(expected, trace) && check < kill && kill + 1 < |trace|
    requires trace[check].phase.Opening? && trace[check].position < |expected|
    requires forall i :: check < i <= kill ==> trace[i].phase.Sending? && trace[i].position == trace[check].position
    requires trace[kill + 1].delivered != trace[kill].delivered
    ensures var target := expected[trace[check].position];
            trace[kill + 1].delivered == trace[kill].delivered + [Delivery(trace[check].position, target)]
            <==> !ChangesHands(Tables(trace, check + 1, kill), target.id)
  {
    var target := expected[trace[check].position];
    var systems := Tables(trace, check + 1, kill);
    MacosTables(expected, trace, check + 1, kill);
    SendingKeepsTarget(expected, trace, check, kill);
    assert trace[kill + 1] != trace[kill].(system := trace[kill + 1].system);
    assert systems[0] == trace[check + 1].system && systems[|systems| - 1] == trace[kill].system;
    StillTheSameExactly(systems, target);
    KillReachesHolder(expected, trace[kill], trace[kill + 1], target);
  }

  lemma KillReachesHolder(expected: seq<Instance>, s: State, t: State, target: Instance)
    requires MacosStep(expected, s, t) && s.phase == Sending(target) && t.delivered != s.delivered
    ensures target.id in s.system.live
    ensures t.delivered == s.delivered + [Delivery(s.position, HolderOf(s.system, target.id))]
    ensures t.delivered == s.delivered + [Delivery(s.position, target)] <==> IsLive(s.system, target)
  {
    var holder := HolderOf(s.system, target.id);
    assert t.delivered[|s.delivered|] == Delivery(s.position, holder);
    if t.delivered == s.delivered + [Delivery(s.position, target)] {
      assert (s.delivered + [Delivery(s.position, target)])[|s.delivered|] == Delivery(s.position, target);
    }
  }

  lemma {:induction false} SendingKeepsTarget(expected: seq<Instance>, trace: seq<State>, check: nat, k: nat)
    requires MacosBehaviour(expected, trace) && check < k < |trace|
    requires trace[check].phase.Opening? && trace[check].position < |expected|
    requires forall i :: check < i <= k ==> trace[i].phase.Sending? && trace[i].position == trace[check].position
    ensures trace[k].phase == Sending(expected[trace[check].position])
    ensures IsLive(trace[check + 1].system, expected[trace[check].position])
  {
    if k == check + 1 {
      assert trace[check + 1].phase.Sending?;
    } else {
      SendingKeepsTarget(expected, trace, check, k - 1);
      assert trace[k - 1 + 1].phase.Sending? && trace[k - 1].phase.Sending?;
    }
  }

  /** Such a start does happen: here the observed process exits and its PID is taken over between the check and the
      signal, and the signal reaches the newcomer. */
  lemma CheckThenKillCanMissTheInstance() returns (trace: seq<State>)
    ensures |trace| == 5 && MacosBehaviour([Instance(7, 100)], trace)
    ensures trace[4].delivered == [Delivery(0, Instance(7, 200))]
  {
    var running := System(map[7 := 100], map[7 := 100]);
    var gone := System(map[], map[7 := 100]);
    var reused := System(map[7 := 200], map[7 := 200]);
    var s0 := State(running, 0, Opening, []);
    var s1 := s0.(phase := Sending(Instance(7, 100)));
    assert running.live - {7} == map[];
    assert Exits(running, 7, gone);
    assert Starts(gone, 7, 200, reused);
    var s2 := s1.(system := gone);
    var s3 := s1.(system := reused);
    var s4 := s3.(phase := Opening, position := 1, delivered := [Delivery(0, Instance(7, 200))]);
    assert MacosStep([Instance(7, 100)], s0, s1) && MacosStep([Instance(7, 100)], s3, s4);
    assert EnvironmentStep(s1.system, s2.system) && EnvironmentStep(s2.system, s3.system);
    trace := [s0, s1, s2, s3, s4];
  }
}
