/** What an observation must answer (crates/platform/src/process.rs:347-485): it keeps what it owns while that lives,
    refuses for stated reasons only, and reports as escaped exactly the live members that are not below the root. */
module LedgerAnswers {
  import opened Processes
  import opened Sequences
  import opened ObservedTree
  import opened LedgerLineage

  // ----- What lives is kept -----

  lemma {:induction false} RefreshKeeps(rootId: nat, known: seq<ProcessSnapshot>, frame: Frame)
    ensures forall k <- known :: k.id != rootId && HasInstance(frame, k) ==> HasInstance(Refresh(rootId, known, frame), k)
    ensures forall k <- known :: k.id == rootId ==>
              if FindId(frame, rootId).Some? then FindId(frame, rootId).value in Refresh(rootId, known, frame)
              else k in Refresh(rootId, known, frame)
  {
    if known != [] {
      var rest := Refresh(rootId, known[1..], frame);
      RefreshKeeps(rootId, known[1..], frame);
      assert known == [known[0]] + known[1..];
      forall k <- known | k.id != rootId && HasInstance(frame, k)
        ensures HasInstance(Refresh(rootId, known, frame), k)
      {
        if k == known[0] {
          var found := FindInstance(frame, k);
          ShownIsFound(frame, k);
          assert found.value in Refresh(rootId, known, frame) && SameProcessInstance(found.value, k);
        } else {
          var kept :| kept in rest && SameProcessInstance(kept, k);
          assert kept in Refresh(rootId, known, frame);
        }
      }
    }
  }

  lemma ShownIsFound(frame: Frame, k: ProcessSnapshot)
    requires HasInstance(frame, k)
    ensures FindInstance(frame, k).Some?
  {
    var p :| p in frame && SameProcessInstance(p, k);
    assert SameProcessInstance(k, p);
  }

  /** Unless the root is refused, every owned instance that the frame shows stays owned, whatever has become of its
      parents; and the root stays owned in any case. */
  lemma ObservationKeepsTheLiving(ledger: Ledger, frame: Frame)
    requires WellFormed(ledger) && CheckRoot(ledger, frame).None?
    ensures var after := Observe(ledger, frame).0;
            && (forall k <- ledger.known :: HasInstance(frame, k) ==> HasInstance(after.known, k))
            && HasInstance(after.known, ledger.root)
  {
    var refreshed := Refresh(ledger.root.id, ledger.known, frame);
    var after := Observe(ledger, frame).0;
    RefreshedStays(ledger, frame);
    RefreshKeeps(ledger.root.id, ledger.known, frame);
    hide Observe, Refresh;
    var r :| r in ledger.known && SameProcessInstance(r, ledger.root);
    forall k <- ledger.known | HasInstance(frame, k) || k == r ensures HasInstance(after.known, k) {
      if k.id == ledger.root.id {
        RootEntry(ledger, k);
        var current := FindId(frame, ledger.root.id);
        assert (if current.Some? then current.value else k) in refreshed;
        assert SameProcessInstance(if current.Some? then current.value else k, k);
      } else {
        var kept :| kept in refreshed && SameProcessInstance(kept, k);
      }
    }
    var root :| root in after.known && SameProcessInstance(root, r);
    assert SameProcessInstance(root, ledger.root);
  }

  lemma RefreshedStays(ledger: Ledger, frame: Frame)
    requires DistinctIds(ledger.known) && CheckRoot(ledger, frame).None?
    ensures forall p <- Refresh(ledger.root.id, ledger.known, frame) :: p in Observe(ledger, frame).0.known
  {
    var refreshed := Refresh(ledger.root.id, ledger.known, frame);
    var members := Select(frame, InGroup(ledger.group, ledger.groupStartedAtMicros));
    var descendants := Closure(Ids(refreshed), frame);
    RefreshIds(ledger.root.id, ledger.known, frame);
    hide Refresh, Closure, Adopt, Live, FirstForeign, Select;
    AdoptFacts(refreshed, members + descendants);
  }

  /** An accepted observation returns every owned instance that the frame shows. */
  lemma AnswerShowsTheLiving(ledger: Ledger, frame: Frame)
    requires WellFormed(ledger) && Observe(ledger, frame).1.Observed?
    ensures forall k <- ledger.known :: HasInstance(frame, k) ==> HasInstance(Observe(ledger, frame).1.live, k)
  {
    ObservationKeepsTheLiving(ledger, frame);
    ObservationIsLedger(ledger, frame);
    hide Observe;
    var (after, observation) := Observe(ledger, frame);
    forall k <- ledger.known | HasInstance(frame, k) ensures HasInstance(observation.live, k) {
      var owned :| owned in after.known && SameProcessInstance(owned, k);
      SameShown(frame, k, owned);
      var live :| live in observation.live && SameProcessInstance(live, owned);
      assert SameProcessInstance(live, k);
    }
  }

  lemma SameShown(frame: Frame, a: ProcessSnapshot, b: ProcessSnapshot)
    requires HasInstance(frame, a) && SameProcessInstance(b, a)
    ensures HasInstance(frame, b)
  {
    var p :| p in frame && SameProcessInstance(p, a);
    assert SameProcessInstance(p, b);
  }

  function Pids(processes: seq<ProcessSnapshot>): seq<nat> {
    if processes == [] then [] else [processes[0].id] + Pids(processes[1..])
  }

  function ShownIn(frame: Frame): ProcessSnapshot -> bool {
    (process: ProcessSnapshot) => HasInstance(frame, process)
  }

  /** The answer lists the shown entries in the order of the ledger. */
  lemma {:induction false} AnswerFollowsLedger(known: seq<ProcessSnapshot>, frame: Frame)
    ensures Pids(Live(known, frame)) == Pids(Select(known, ShownIn(frame)))
  {
    if known != [] {
      AnswerFollowsLedger(known[1..], frame);
      var current := FindInstance(frame, known[0]);
      assert current.Some? ==> current.value in frame && SameProcessInstance(current.value, known[0]);
      if HasInstance(frame, known[0]) {
        ShownIsFound(frame, known[0]);
        assert Live(known, frame)[1..] == Live(known[1..], frame);
      } else {
        assert [] + Live(known[1..], frame) == Live(known[1..], frame);
      }
    }
  }

  // ----- When an observation is accepted -----

  /** The frame does not show the root's PID in other hands. */
  predicate RootIsTheSame(ledger: Ledger, frame: Frame) {
    forall p <- frame :: p.id == ledger.root.id ==> SameProcessInstance(ledger.root, p)
  }

  /** The root runs the image it had, or the observer follows it into another. */
  predicate RootImageIsAccepted(ledger: Ledger, frame: Frame) {
    !ledger.policy.Fixed? || forall p <- frame :: p.id == ledger.root.id ==> p.executable == ledger.root.executable
  }

  /** The PIDs from which the ledger may descend in this frame: the root, and the owned instances that it shows. */
  ghost function Anchors(ledger: Ledger, frame: Frame): set<nat> {
    set k <- ledger.known | k.id == ledger.root.id || HasInstance(frame, k) :: k.id
  }

  /** A process of the ledger's group that is neither owned nor descends from what is owned and shown. */
  ghost predicate IsForeign(ledger: Ledger, frame: Frame, process: ProcessSnapshot) {
    && ledger.group == Some(process.processGroupId)
    && process.startedAtMicros >= ledger.groupStartedAtMicros
    && !HasInstance(ledger.known, process)
    && !Descends(Anchors(ledger, frame), frame, process)
  }

  lemma RootChecked(ledger: Ledger, frame: Frame)
    requires DistinctIds(frame)
    ensures CheckRoot(ledger, frame)
         == if !RootIsTheSame(ledger, frame) then Some(RootReused(ledger.root.id))
            else if !RootImageIsAccepted(ledger, frame) then Some(RootChangedExecutable(ledger.root.id))
            else None
  {
    var current := FindId(frame, ledger.root.id);
    if current.Some? {
      forall p <- frame | p.id == ledger.root.id ensures p == current.value {
        DistinctIdsIdentify(frame, p, current.value);
      }
    } else {
      forall p <- frame ensures p.id != ledger.root.id {
        assert p.id in Ids(frame);
      }
    }
  }

  lemma RefreshedAreAnchors(ledger: Ledger, frame: Frame)
    requires WellFormed(ledger)
    ensures Ids(Refresh(ledger.root.id, ledger.known, frame)) == Anchors(ledger, frame)
  {
    var refreshed := Refresh(ledger.root.id, ledger.known, frame);
    RefreshKeeps(ledger.root.id, ledger.known, frame);
    RefreshFacts(ledger.root.id, ledger.known, frame);
    hide Refresh;
    forall p <- refreshed ensures p.id in Anchors(ledger, frame) {
      if p.id == ledger.root.id {
        var r :| r in ledger.known && SameProcessInstance(r, ledger.root);
        assert r.id == p.id;
      } else {
        var k :| k in ledger.known && SameProcessInstance(k, p);
        assert SameProcessInstance(p, k) && HasInstance(frame, k);
      }
    }
    forall k <- ledger.known | k.id == ledger.root.id || HasInstance(frame, k) ensures k.id in Ids(refreshed) {
      if k.id == ledger.root.id {
        var current := FindId(frame, ledger.root.id);
        assert (if current.Some? then current.value else k) in refreshed;
      } else {
        var kept :| kept in refreshed && SameProcessInstance(kept, k);
        assert kept.id == k.id;
      }
    }
  }

  /** A group member passes the check of the observer exactly when it is not foreign. */
  lemma MemberPasses(ledger: Ledger, frame: Frame, m: ProcessSnapshot)
    requires WellFormed(ledger) && DistinctIds(frame) && CheckRoot(ledger, frame).None? && m in frame
    ensures var refreshed := Refresh(ledger.root.id, ledger.known, frame);
            HasInstance(refreshed, m) || HasInstance(Closure(Ids(refreshed), frame), m)
            <==> HasInstance(ledger.known, m) || Descends(Anchors(ledger, frame), frame, m)
  {
    var refreshed := Refresh(ledger.root.id, ledger.known, frame);
    var below := Closure(Ids(refreshed), frame);
    RefreshedAreAnchors(ledger, frame);
    RefreshFacts(ledger.root.id, ledger.known, frame);
    RefreshKeeps(ledger.root.id, ledger.known, frame);
    ClosureExact(Ids(refreshed), frame);
    hide Refresh, Closure, Anchors, Descends, WellFormed;
    if HasInstance(refreshed, m) {
      RefreshedIsOwned(ledger, frame, m);
    }
    if HasInstance(below, m) {
      var d :| d in below && SameProcessInstance(d, m);
      DistinctIdsIdentify(frame, d, m);
    }
    if HasInstance(ledger.known, m) {
      OwnedIsRefreshed(ledger, frame, m);
    } else if Descends(Anchors(ledger, frame), frame, m) {
      if m.id in Ids(refreshed) {
        AnchorIsOwned(ledger, frame, m);
      } else {
        assert m in below && SameProcessInstance(m, m);
      }
    }
  }

  lemma RefreshedIsOwned(ledger: Ledger, frame: Frame, m: ProcessSnapshot)
    requires WellFormed(ledger) && CheckRoot(ledger, frame).None?
    requires HasInstance(Refresh(ledger.root.id, ledger.known, frame), m)
    ensures HasInstance(ledger.known, m)
  {
    RefreshFacts(ledger.root.id, ledger.known, frame);
    hide Refresh;
    var p :| p in Refresh(ledger.root.id, ledger.known, frame) && SameProcessInstance(p, m);
    var r :| r in ledger.known && SameProcessInstance(r, ledger.root);
    if p.id == ledger.root.id {
      if p !in ledger.known {
        assert SameProcessInstance(r, m);
      }
    } else {
      var k :| k in ledger.known && SameProcessInstance(k, p);
      assert SameProcessInstance(k, m);
    }
  }

  lemma OwnedIsRefreshed(ledger: Ledger, frame: Frame, m: ProcessSnapshot)
    requires WellFormed(ledger) && CheckRoot(ledger, frame).None? && m in frame && HasInstance(ledger.known, m)
    ensures HasInstance(Refresh(ledger.root.id, ledger.known, frame), m)
  {
    RefreshKeeps(ledger.root.id, ledger.known, frame);
    hide Refresh;
    var refreshed := Refresh(ledger.root.id, ledger.known, frame);
    var k :| k in ledger.known && SameProcessInstance(k, m);
    if k.id == ledger.root.id {
      RootEntry(ledger, k);
      var current := FindId(frame, ledger.root.id);
      assert m.id in Ids(frame);
      assert current.value in refreshed && SameProcessInstance(current.value, m);
    } else {
      assert SameProcessInstance(m, k);
      var kept :| kept in refreshed && SameProcessInstance(kept, k);
      assert SameProcessInstance(kept, m);
    }
  }

  /** Whoever in the frame has an anchor's PID is the owned instance itself. */
  lemma AnchorIsOwned(ledger: Ledger, frame: Frame, m: ProcessSnapshot)
    requires WellFormed(ledger) && DistinctIds(frame) && CheckRoot(ledger, frame).None?
    requires m in frame && m.id in Anchors(ledger, frame)
    ensures HasInstance(ledger.known, m)
  {
    var k :| k in ledger.known && k.id == m.id && (k.id == ledger.root.id || HasInstance(frame, k));
    if k.id == ledger.root.id {
      RootEntry(ledger, k);
      RootChecked(ledger, frame);
      assert SameProcessInstance(ledger.root, m);
      assert SameProcessInstance(k, m);
    } else {
      var p :| p in frame && SameProcessInstance(p, k);
      DistinctIdsIdentify(frame, p, m);
      assert SameProcessInstance(k, m);
    }
  }

  /** The first foreign process of the frame, if the observer refuses such. */
  ghost predicate FirstForeignAt(ledger: Ledger, frame: Frame, i: nat) {
    && i < |frame| && IsForeign(ledger, frame, frame[i])
    && forall j :: 0 <= j < i ==> !IsForeign(ledger, frame, frame[j])
  }

  ghost predicate RefusesForeign(ledger: Ledger, frame: Frame) {
    ledger.rejectsForeign && exists m <- frame :: IsForeign(ledger, frame, m)
  }

  lemma {:induction false} FirstForeignExact(
    frame: Frame, inGroup: ProcessSnapshot -> bool, known: seq<ProcessSnapshot>, permitted: seq<ProcessSnapshot>)
    returns (i: nat)
    ensures var foreign := FirstForeign(Select(frame, inGroup), known, permitted);
            if i < |frame| then
              && foreign == Some(frame[i]) && inGroup(frame[i])
              && !HasInstance(known, frame[i]) && !HasInstance(permitted, frame[i])
            else foreign.None?
    ensures forall j :: 0 <= j < i && j < |frame| ==>
              !inGroup(frame[j]) || HasInstance(known, frame[j]) || HasInstance(permitted, frame[j])
  {
    if frame == [] {
      i := 0;
    } else if inGroup(frame[0]) && !HasInstance(known, frame[0]) && !HasInstance(permitted, frame[0]) {
      i := 0;
    } else {
      i := FirstForeignExact(frame[1..], inGroup, known, permitted);
      if inGroup(frame[0]) {
        assert Select(frame, inGroup)[1..] == Select(frame[1..], inGroup);
      }
      i := i + 1;
    }
  }

  /** For every frame with distinct PIDs: an observation is refused exactly for a reused root, for a changed image of a
      root that is to keep it, or for the first foreign group member, in this order, and is accepted otherwise. */
  lemma ObservationAnswers(ledger: Ledger, frame: Frame)
    requires WellFormed(ledger) && DistinctIds(frame)
    ensures var answer := Observe(ledger, frame).1;
            if !RootIsTheSame(ledger, frame) then answer == Refused(RootReused(ledger.root.id))
            else if !RootImageIsAccepted(ledger, frame) then answer == Refused(RootChangedExecutable(ledger.root.id))
            else if RefusesForeign(ledger, frame) then
              exists i: nat :: FirstForeignAt(ledger, frame, i) && answer == Refused(UnattributedMember(frame[i].id))
            else answer.Observed?
  {
    RootChecked(ledger, frame);
    if CheckRoot(ledger, frame).Some? {
      assert Observe(ledger, frame).1 == Refused(CheckRoot(ledger, frame).value);
    } else {
      hide *;
      var refreshed := Refresh(ledger.root.id, ledger.known, frame);
      var below := Closure(Ids(refreshed), frame);
      var inGroup := InGroup(ledger.group, ledger.groupStartedAtMicros);
      var i := FirstForeignExact(frame, inGroup, refreshed, below);
      forall m <- frame ensures IsForeign(ledger, frame, m) <==>
        inGroup(m) && !HasInstance(refreshed, m) && !HasInstance(below, m)
      {
        MemberIsForeign(ledger, frame, m);
      }
      ForeignAnswer(ledger, frame, i);
    }
  }

  lemma MemberIsForeign(ledger: Ledger, frame: Frame, m: ProcessSnapshot)
    requires WellFormed(ledger) && DistinctIds(frame) && CheckRoot(ledger, frame).None? && m in frame
    ensures var refreshed := Refresh(ledger.root.id, ledger.known, frame);
            IsForeign(ledger, frame, m) <==>
              && InGroup(ledger.group, ledger.groupStartedAtMicros)(m)
              && !HasInstance(refreshed, m) && !HasInstance(Closure(Ids(refreshed), frame), m)
  {
    hide Refresh, Closure, HasInstance, Anchors, Descends, WellFormed, CheckRoot, DistinctIds;
    MemberPasses(ledger, frame, m);
  }

  lemma ForeignAnswer(ledger: Ledger, frame: Frame, i: nat)
    requires CheckRoot(ledger, frame).None?
    requires var refreshed := Refresh(ledger.root.id, ledger.known, frame);
             var inGroup := InGroup(ledger.group, ledger.groupStartedAtMicros);
             FirstForeign(Select(frame, inGroup), refreshed, Closure(Ids(refreshed), frame))
             == if i < |frame| then Some(frame[i]) else None
    requires i < |frame| ==> IsForeign(ledger, frame, frame[i])
    requires forall j :: 0 <= j < i && j < |frame| ==> !IsForeign(ledger, frame, frame[j])
    ensures var answer := Observe(ledger, frame).1;
            if RefusesForeign(ledger, frame) then
              exists i: nat :: FirstForeignAt(ledger, frame, i) && answer == Refused(UnattributedMember(frame[i].id))
            else answer.Observed?
  {
    hide CheckRoot, Refresh, Closure, Adopt, Live, Anchors, Descends, InGroup, Select, FirstForeign;
    if i < |frame| {
      assert frame[i] in frame;
      assert FirstForeignAt(ledger, frame, i);
    }
  }

  /** The root's image after an observation that does not refuse it: the one the frame shows. */
  lemma RootIsFollowed(ledger: Ledger, frame: Frame)
    requires DistinctIds(frame) && CheckRoot(ledger, frame).None?
    ensures var root := Observe(ledger, frame).0.root;
            && (forall p <- frame :: p.id == ledger.root.id ==> root == ledger.root.(executable := p.executable))
            && (ledger.root.id !in Ids(frame) ==> root == ledger.root)
  {
    hide Refresh, Closure, Adopt, Live, FirstForeign;
    var current := FindId(frame, ledger.root.id);
    forall p <- frame | p.id == ledger.root.id ensures current == Some(p) {
      assert p.id in Ids(frame);
      DistinctIdsIdentify(frame, p, current.value);
    }
  }

  // ----- Who has escaped -----

  lemma {:induction false} LiveIsDistinct(known: seq<ProcessSnapshot>, frame: Frame)
    requires DistinctIds(known)
    ensures DistinctIds(Live(known, frame)) && Ids(Live(known, frame)) <= Ids(known)
  {
    if known != [] {
      hide DistinctIds, Ids;
      assert known == [known[0]] + known[1..];
      PrependDistinct(known[0], known[1..]);
      LiveIsDistinct(known[1..], frame);
      var current := FindInstance(frame, known[0]);
      if current.Some? {
        PrependDistinct(current.value, Live(known[1..], frame));
      } else {
        assert [] + Live(known[1..], frame) == Live(known[1..], frame);
      }
    }
  }

  lemma AfterIsDistinct(ledger: Ledger, frame: Frame)
    requires WellFormed(ledger)
    ensures DistinctIds(Observe(ledger, frame).0.known)
    ensures Observe(ledger, frame).1.Observed? ==>
              DistinctIds(Observe(ledger, frame).1.live)
  {
    RefreshIds(ledger.root.id, ledger.known, frame);
    var refreshed := Refresh(ledger.root.id, ledger.known, frame);
    var members := Select(frame, InGroup(ledger.group, ledger.groupStartedAtMicros));
    var descendants := Closure(Ids(refreshed), frame);
    AdoptFacts(refreshed, members + descendants);
    hide Refresh, Closure, Adopt, FirstForeign, Select;
    LiveIsDistinct(Adopt(refreshed, members + descendants), frame);
  }

  /** A well-formed ledger stays so, whatever frame is observed, accepted or refused. */
  lemma WellFormedStays(ledger: Ledger, frame: Frame)
    requires WellFormed(ledger)
    ensures WellFormed(Observe(ledger, frame).0)
  {
    if CheckRoot(ledger, frame).None? {
      AfterIsDistinct(ledger, frame);
      ObservationKeepsTheLiving(ledger, frame);
      RootInstanceStays(ledger, frame);
      hide Observe;
      var after := Observe(ledger, frame).0;
      var r :| r in after.known && SameProcessInstance(r, ledger.root);
      assert SameProcessInstance(r, after.root);
    }
  }

  lemma RootInstanceStays(ledger: Ledger, frame: Frame)
    ensures SameProcessInstance(ledger.root, Observe(ledger, frame).0.root)
  {
    hide Refresh, Closure, Adopt, Live, FirstForeign;
  }

  /** Escaped are exactly the live members that are neither the root nor below it among the live members, in the order
      in which the observation lists them. A refusal is passed on. */
  lemma EscapedExactly(ledger: Ledger, frame: Frame)
    requires WellFormed(ledger)
    ensures var observation := Observe(ledger, frame).1;
            var escaped := EscapedFrom(ledger.root.id, observation);
            if observation.Refused? then escaped == observation
            else
              && escaped.Observed?
              && (forall p :: p in escaped.live <==>
                    && p in observation.live && p.id != ledger.root.id
                    && !Descends({ledger.root.id}, observation.live, p))
              && Select(observation.live, IsIn(escaped.live)) == escaped.live
  {
    AfterIsDistinct(ledger, frame);
    hide Observe;
    var observation := Observe(ledger, frame).1;
    if observation.Observed? {
      var live, rootId := observation.live, ledger.root.id;
      var below := Closure({rootId}, live);
      var escapes := EscapedPredicate(rootId, below);
      ClosureExact({rootId}, live);
      SelectMembers(live, escapes);
      forall p <- live ensures p.id in Ids(below) <==> p in below {
        if p.id in Ids(below) {
          var q :| q in below && q.id == p.id;
          DistinctIdsIdentify(live, p, q);
        }
      }
      SelectAgain(live, escapes, IsIn(Select(live, escapes)));
    }
  }

  function IsIn(processes: seq<ProcessSnapshot>): ProcessSnapshot -> bool {
    (process: ProcessSnapshot) => process in processes
  }

  lemma {:induction false} SelectAgain<T>(s: seq<T>, p: T -> bool, q: T -> bool)
    requires forall x <- s :: p(x) <==> q(x)
    ensures Select(s, q) == Select(s, p)
  {
    if s != [] {
      assert s[0] in s;
      assert forall x <- s[1..] :: x in s;
      SelectAgain(s[1..], p, q);
    }
  }
}
