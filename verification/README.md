# Verified models of process ownership, the runtime lease and the update handoff

codexhost supervises processes that it does not fully control: Codex Desktop, a Shim, a Host Runtime and an Updater can
exit at any moment, and their PIDs can be given to other processes. This project models the code that decides who owns
what, and proves what holds over every frame, every run and every interleaving.

A process table is a sequence of process snapshots. The operating system is a nondeterministic environment: processes
exit, and a free PID may be taken over by a process that started strictly later. Code that changes state in place is a
class or a method with loops, proved against a specification function; the properties are proved about that function.
The protocols between processes are transition systems over single steps.

- `Sequences`, `Processes`: filtering, stable sorting, snapshots, and the descendant closure with its two
  implementations.
- `DesktopRoots`: which Desktop processes are roots.
- `ObservedTree`, `LedgerLineage`, `LedgerAnswers`, `MacosObservation`: the ownership ledger as a class, its lineage over
  whole runs, what it must answer, and the narrowed macOS observation.
- `ProcessTable`, `PidfdSignals`: PID reuse, and signals that reach only the observed instance.
- `DesktopLaunch`, `LaunchDecisions`: the Linux launch loop, what it hands to the ledger or to cleanup, and how the frames
  decide it.
- `OwnerRecords`, `RuntimeLease`: the owner record as text, and the lease as a transition system of any number of Shims.
- `LeaseInvariant`, `LeaseGuarantees`, `LeaseConditions`, `LeaseProgress`, `LeasePasses`: what every step of the lease
  keeps, what it guarantees, what it rests on, what a Shim can get done, and how often an acquisition turns.
- `ChildSupervision`, `SupervisionProgress`, `SupervisedLease`: the Shim's shutdown state machine, what it does for certain,
  and what it means for the lease.
- `UpdateHandoff`, `RemoteCancellation`: Launcher and Updater, and the remote Updater against a cancelling Host.
- `WindowsCommandLine`, `WindowsEnvironment`, `AppServerArguments`, `ArgumentGrammar`, `HostRuntimeRouting`,
  `OutputTail`: printers, parsers and a stream loop.

`dafny verify dfyconfig.toml` checks everything.

## What the proofs brought to light

Each point is a lemma with the concrete case, and where the code meets the property under a condition, a lemma with the
exact condition.

- Published Host Runtimes never overlap exactly under four conditions (`LeaseConditions.NoOverlapExactly`), each of which
  the code relies on without enforcing it.
  - Contenders recognise a live Shim's executable name. Otherwise they take its record for corrupt and remove it without
    stopping anyone. On Linux the comparison accepts the kernel's ` (deleted)` suffix, but on the observed side only, so a
    contender whose own executable was unlinked does not recognise a Shim whose executable was not
    (`LeaseConditions.UnlinkedContenderDisagrees`).
  - A record that is there can be read before the read grace is over. A read that fails counts as a missing record, and
    the directory is removed with what is in it.
  - A living process is never reported missing. On macOS every failing query is such a report.
  - Leases are dropped only after the child exited. `Drop` does not check it. A supervision that returns has met this
    condition; one that fails need not have (`SupervisedLease.ReturnedMayDrop`, `SupervisedLease.FailedMayLeaveChild`).
- An acquisition makes two passes at most only if no read before a removal fails; each that does adds one
  (`LeasePasses.PassesAreMissedRemovals`, `LeasePasses.ManyPasses`).
- A Shim that was given the PID of its crashed predecessor takes the predecessor's record for its own and is refused, for
  as long as that record is there (`LeaseProgress.AcquisitionExactly`).
- The remote Updater's checks report that nobody cancelled when the marker cannot be read. Cancellation wins in every
  interleaving exactly when a marker that is there is read (`RemoteCancellation.CancellationWinsExactly`); with failing
  reads a cancelled update runs to its end (`RemoteCancellation.MisreadMarkerIsIgnored`).
- Linux signalling needs no assumption about earlier observations: opening the pidfd before the identity check is
  enough. Checking before binding, as the macOS path does, reaches the listed instance exactly when no process started
  at its PID between check and signal (`PidfdSignals.CheckThenKillExactly`).
- The ledger's lineage rests on refusing foreign group members: over all runs it holds exactly for observers without a
  group and for those that refuse (`LedgerLineage.LineageExactly`), and so does completeness
  (`LedgerLineage.CompletenessExactly`).
- A cycle in the parent relation can hide a Desktop ancestor. For any frame the roots are as expected exactly when none
  is hidden (`DesktopRoots.DesktopRootsExactly`).
- When the installation starts, the Launcher is gone for good exactly if no poll takes a PID in use for free, which a
  failing query does (`UpdateHandoff.HandoffIsSafeExactly`). Even then its PID may already belong to a newcomer: it is in
  use exactly if a process started there after the last look and none exited there after that (`UpdateHandoff.WaitPidInUseExactly`).
- Quoting a Windows argument goes through the lossy text, so an argument list survives exactly when every argument that
  needs quotes is valid Unicode (`WindowsCommandLine.CommandLineRoundTrip`).
- Rewriting arguments for a local listener is a projection exactly when no other option has a value that reads like
  `--listen` or `--stdio`, and nothing is kept behind a non-Unicode argument that ends the reading
  (`AppServerArguments.RewritingIsProjection`, with `DroppedValueIsRefused` and `UnreadArgumentHidesListener`).

## Model

| member | source | states |
|---|---|---|
| `Processes.DescendantSnapshots` | crates/platform/src/process.rs:198-217 | the growing-vector loop ends and computes the sweep closure, in the order of discovery |
| `Processes.RemoteDescendants` | crates/shim/src/remote_lifecycle.rs:326-343 | the second implementation, with its hash set, computes the root followed by the same closure |
| `Processes.CompareImplementations` | crates/shim/src/remote_lifecycle.rs:326-343 | run on one frame, both implementations list the same processes in the same order |
| `Processes.ClosureIdsExact` | crates/platform/src/process.rs:198-217 | for any frame, repeated PIDs included: the closure has each PID once, holds only non-root snapshots with a parent chain to a root id, and misses no such PID |
| `Processes.ClosureExact` | crates/platform/src/process.rs:198-217 | with distinct PIDs the closure is exactly the set of non-root descendants |
| `DesktopRoots.DesktopTreeExact` | crates/platform/src/process.rs:220-241 | on an acyclic frame the tree is every Desktop process and everything below one |
| `DesktopRoots.DesktopRootsExact` | crates/platform/src/process.rs:244-255 | on an acyclic frame the roots are exactly the Desktop processes with no proper Desktop ancestor, whatever helpers stand between |
| `DesktopRoots.RootsAscend` | crates/platform/src/process.rs:238-255 | each root comes once, in ascending PID order, cycles or not |
| `DesktopRoots.RootsAreIncomparable` | crates/platform/src/process.rs:244-255 | no returned root is an ancestor of another, cycles or not |
| `DesktopRoots.DesktopRootsExactly` | crates/platform/src/process.rs:244-255 | for every frame, cyclic or not: the roots are exactly the Desktop processes without a Desktop ancestor if and only if every Desktop process with such an ancestor but no matching parent has an ancestor without a matching parent |
| `DesktopRoots.RootsAreTopmostStarts` | crates/platform/src/process.rs:220-255 | for every frame the roots are the Desktop processes without a matching parent that are not below another such process |
| `DesktopRoots.CycleHidesAncestor` | crates/platform/src/process.rs:220-255 | a cyclic frame without that condition, in which a process with a Desktop ancestor is returned as the root |
| `ObservedTree.FreshLedgerIsWellFormed` | crates/platform/src/process.rs:308-328 | a new observer has distinct PIDs and its root among them exactly when the PIDs handed over are distinct and none belongs to another instance with the root's PID; it owns these and nothing else, with the given group, its start or else the root's, and keeps the root to its image |
| `ObservedTree.ObservedProcessTree.ObserveSnapshots` | crates/platform/src/process.rs:347-448 | the stateful method computes exactly the specified new ledger and result, refusals included |
| `ObservedTree.ObservedProcessTree.RefreshKnown` | crates/platform/src/process.rs:372-391 | retired and replaced entries are forgotten, current snapshots taken over, the root entry kept |
| `ObservedTree.ObservedProcessTree.AdoptAll` | crates/platform/src/process.rs:432-437 | observed processes are added unless their PID is already in the ledger |
| `ObservedTree.ObservedProcessTree.Escaped` | crates/platform/src/process.rs:473-485 | observes, and returns the selection `EscapedExactly` characterises |
| `LedgerAnswers.EscapedExactly` | crates/platform/src/process.rs:473-485 | the escaped are exactly the live members that are neither the root nor below it among the live members, in the order of the observation; a refusal is passed on |
| `LedgerAnswers.ObservationAnswers` | crates/platform/src/process.rs:347-448 | for every frame with distinct PIDs: an observation is refused exactly for a reused root, a changed image the root may not have, or the first group member that is neither owned nor descends from what is owned and shown, in this order, and accepted otherwise |
| `LedgerAnswers.ObservationKeepsTheLiving` | crates/platform/src/process.rs:372-391 | unless the root is refused, every owned instance the frame shows stays owned, whatever became of its parents; and so does the root |
| `LedgerAnswers.AnswerShowsTheLiving` | crates/platform/src/process.rs:438-448 | an accepted observation returns every owned instance the frame shows |
| `LedgerAnswers.AnswerFollowsLedger` | crates/platform/src/process.rs:438-448 | in the order of the ledger |
| `LedgerAnswers.RootIsFollowed` | crates/platform/src/process.rs:351-371 | the root takes over the image the frame shows, and nothing else changes about it |
| `LedgerAnswers.WellFormedStays` | crates/platform/src/process.rs:347-448 | PIDs in the ledger stay distinct and the root stays in it, for any frame, accepted or refused, and any observer |
| `LedgerLineage.LedgerInvariant` | crates/platform/src/process.rs:308-448 | after any run of observations, refused ones included: distinct PIDs, the root instance present, every entry linked to the initial ownership by parent edges seen in the frames; unless the root was refused, every other entry is live in the latest frame |
| `LedgerLineage.ObserveKeeps` | crates/platform/src/process.rs:347-448 | one observation keeps all of this, for any frame, accepted or refused |
| `LedgerLineage.ObservationIsLedger` | crates/platform/src/process.rs:438-448 | the returned processes are in the frame and in the ledger, and every ledger entry the frame shows is returned |
| `LedgerLineage.CompletenessExactly` | crates/platform/src/process.rs:392-448 | an accepted frame leaves no process out that has a parent in the ledger or is in its group, for every frame, if and only if the observer has no group or refuses foreign members |
| `LedgerLineage.LineageExactly` | crates/platform/src/process.rs:308-448 | lineage holds over all runs if and only if the observer has no group or refuses foreign members |
| `LedgerLineage.GroupAloneIsNoLineage` | crates/platform/src/process.rs:397-431 | whatever it owns, a group observer that does not refuse foreign members adopts one without lineage; one that does names its PID |
| `MacosObservation.ResolveTreeCandidates` | crates/platform/src/macos_process_observation.rs:51-104 | the hash-set loop and filter return the readable candidates in table order |
| `MacosObservation.CandidatesExact` | crates/platform/src/macos_process_observation.rs:58-90 | a path is read for exactly the root, the known PIDs, the group members that are not older, and their descendants, readable or not |
| `MacosObservation.ResolvedExactly` | crates/platform/src/macos_process_observation.rs:91-104 | what is read are exactly the candidates with a readable path, each with its own parent, group and start time |
| `MacosObservation.ObserveOnCandidates` | crates/platform/src/process.rs:347-448 | any parent-closed set of PIDs that covers ledger, root and group may replace the frame |
| `MacosObservation.FilteredObservationAgrees` | crates/platform/src/macos_process_observation.rs:51-104 | one frame: narrowed and full observation give the same result, order, error and ledger, for any ledger, scan and set of unreadable paths |
| `MacosObservation.FilteredObservationRefinesFull` | crates/platform/src/macos_process_observation.rs:21-104 | the same over any run of frames, refused frames included |
| `MacosObservation.ObserveNarrowed` | crates/platform/src/process.rs:334-345 | the observer class driven with narrowed frames ends as one driven with full frames |
| `ProcessTable.GoneForGood` | crates/platform/src/process.rs:193-195 | an instance that is gone stays gone, whatever exits, starts and PID reuses follow |
| `PidfdSignals.SignalsReachOnlyObserved` | crates/platform/src/process.rs:499-535 | under any interleaving each signal reaches exactly the instance at its position of the list, in order, at most once each |
| `PidfdSignals.SuccessLeavesNobodyOut` | crates/platform/src/process.rs:487-535 | on Linux, a call that reports success has signalled every listed instance that is not gone |
| `PidfdSignals.EveryoneIsReached` | crates/platform/src/process.rs:499-535 | left alone, a call whose listed processes are alive signals every one of them in list order and succeeds |
| `PidfdSignals.CheckThenKillExactly` | crates/platform/src/process.rs:536-566 | with the check first, for every run: the signal reaches the listed instance if and only if no process started at its PID between check and signal |
| `PidfdSignals.CheckThenKillCanMissTheInstance` | crates/platform/src/process.rs:536-566 | a run in which one does, and receives the signal |
| `DesktopLaunch.RememberProcesses` | crates/platform/src/desktop_launch.rs:484-493 | the in-place update equals the specified one |
| `DesktopLaunch.RememberFacts` | crates/platform/src/desktop_launch.rs:484-493 | distinct PIDs are kept, no PID is lost, and a remembered PID is replaced by its latest snapshot |
| `DesktopLaunch.SelectionExact` | crates/platform/src/desktop_launch.rs:519-573 | a root is selected if and only if it is the only Desktop root and managed; nothing is selected if and only if there is none |
| `DesktopLaunch.LaunchStepKeeps` | crates/platform/src/desktop_launch.rs:785-865 | one turn of the launch loop keeps everything it remembers attributed to the launcher, and its PIDs distinct |
| `DesktopLaunch.LaunchDesktopSession` | crates/platform/src/desktop_launch.rs:782-872 | the launch loop over a run of frames, whose outcome `LaunchDecides` reads off the frames |
| `LaunchDecisions.LaunchDecides` | crates/platform/src/desktop_launch.rs:782-872 | for every run of frames: the loop waits on, returns a session, or reports each of its failures exactly as a decision made from the frames alone says; for example, the launcher's exit ends it exactly when nothing was ever seen below it |
| `LaunchDecisions.OurRootBecomesTheSession` | crates/platform/src/desktop_launch.rs:805-853 | a frame whose only Desktop root is the launcher instance or was once seen below it, in its group and no older, ends in that session, also where the launcher is no longer shown or time is up |
| `LaunchDecisions.StepRecalls` | crates/platform/src/desktop_launch.rs:808-822 | the remembered descendants are exactly the instances once seen below the living launcher and not replaced since |
| `LaunchDecisions.SelectionDecides` | crates/platform/src/desktop_launch.rs:541-573 | the selection fails for several managed roots, else for an unmanaged one, and otherwise takes the root there is |
| `DesktopLaunch.LaunchIsAttributed` | crates/platform/src/desktop_launch.rs:782-872 | a session's root was the only Desktop root of its frame, and it and everything handed on, to the session or to failure cleanup, is the launcher instance or was seen below it while it lived |
| `DesktopLaunch.LaunchForgetsNothing` | crates/platform/src/desktop_launch.rs:484-493 | every PID seen below the living launcher in a frame the loop looked at is handed on |
| `DesktopLaunch.SessionOwnsOnlyTheLaunch` | crates/platform/src/desktop_launch.rs:840-865 | the ledger a session starts with is attributed to the launch, and stays linked to it over any later run of observations, refused ones included |
| `DesktopLaunch.TargetsAreLiveMembers` | crates/platform/src/process.rs:577-604 | cleanup goes ahead exactly when no member's PID changed hands, then targets the live members in order, and otherwise names the first replaced one |
| `OwnerRecords.RoundTrip` | crates/shim/src/local_runtime_lease.rs:66-115 | decoding undoes encoding exactly for records whose child PID and start time are both present or both absent; all others are unreadable |
| `OwnerRecords.VersionsReadExactly` | crates/shim/src/local_runtime_lease.rs:90-101 | records with start times are read back under versions 1 and 2 and under no other |
| `OwnerRecords.ReleasedShimsReadExactRecords` | crates/shim/src/local_runtime_lease.rs:779-793 | released readers recover the Shim PID, the Desktop PID and the child PID from the same text |
| `OwnerRecords.ReleasedRoundTrip` | crates/shim/src/local_runtime_lease.rs:80-97 | a record in the released format, which has no start times, is read as such and complete, by both readers |
| `OwnerRecords.DecimalsParseExactly` | crates/shim/src/local_runtime_lease.rs:87-89 | decimal text is read back exactly as far as it fits the width, with or without a plus sign |
| `OwnerRecords.MigrationIsReadable` | crates/shim/src/local_runtime_lease.rs:573-587 | a migrated record is read back with the observed processes and start times, and released readers get the Shim, the observed parent and the child from it |
| `RuntimeLease.RecordsSurviveTheFile` | crates/shim/src/local_runtime_lease.rs:325-398 | the record in the protocol and the text on disk determine each other |
| `LeaseConditions.NoOverlapExactly` | crates/shim/src/local_runtime_lease.rs:164-379 | in every interleaving published Host Runtimes never overlap, if and only if Shims recognise each other by name, records can be read within the read grace, living processes are seen, and leases are dropped after the child exited |
| `LeaseGuarantees.DisciplinedNeverOverlaps` | crates/shim/src/local_runtime_lease.rs:164-323 | under the four conditions, no reachable state has two live published Host Runtimes, crashes, PID reuse and single failed reads included |
| `LeaseConditions.UndisciplinedCanOverlap` | crates/shim/src/local_runtime_lease.rs:222-271 | without any one of the conditions, a reachable state with two live published Host Runtimes |
| `LeaseConditions.DeletedMarkIsOneSided` | crates/shim/src/local_runtime_lease.rs:414-429 | on Linux the mark of an unlinked executable is accepted on the observed name, and nowhere on the expected one |
| `LeaseConditions.UnlinkedContenderDisagrees` | crates/shim/src/local_runtime_lease.rs:414-429 | a contender whose own executable was unlinked, beside a Shim whose executable was not, breaks the name condition of the no-overlap result |
| `LeaseGuarantees.AcquiredAfterRetirement` | crates/shim/src/local_runtime_lease.rs:186-279 | under the four conditions: when `acquire` has returned, every record another Shim ever wrote is retired and every published child is gone |
| `LeaseGuarantees.UnrecordedMeansGone` | crates/shim/src/local_runtime_lease.rs:222-225 | under the four conditions: a missing record, with or without its directory, never hides a published child |
| `LeaseGuarantees.HolderKeepsItsRecord` | crates/shim/src/local_runtime_lease.rs:282-304 | under the four conditions: from acquisition until it starts to drop, the record on disk is the holder's own |
| `LeaseGuarantees.NoDelayedDeletion` | crates/shim/src/local_runtime_lease.rs:353-373 | under the four conditions: whatever takes a record away or replaces it is its own Shim, or comes when its Shim and child are both gone |
| `LeaseProgress.TakeoverFollows` | crates/shim/src/local_runtime_lease.rs:186-279 | from every reachable state under the four conditions in which a contender examines another Shim's record, living or not, a run of that Shim's and its child's exits and the contender's own steps ends with the contender owning the lease and its own record on disk |
| `LeaseProgress.AcquisitionExactly` | crates/shim/src/local_runtime_lease.rs:186-246 | from its start an acquisition can complete in this way, from any record or none, if and only if the record does not have the contender's own PID |
| `LeaseProgress.LeaseIsGivenBack` | crates/shim/src/local_runtime_lease.rs:307-323 | a Shim whose child is gone can give its lease back by its own steps, and nothing of it is left |
| `LeasePasses.PassesAreMissedRemovals` | crates/shim/src/local_runtime_lease.rs:186-279 | in every interleaving, under no condition: an acquisition has completed at most one pass more than reads failed before a removal, and creates the directory in its first pass or in the second after those that failed |
| `LeasePasses.AtMostTwoPasses` | crates/shim/src/local_runtime_lease.rs:186-279 | two passes at most while no read before a removal has failed |
| `LeasePasses.ManyPasses` | crates/shim/src/local_runtime_lease.rs:353-362 | for every number of passes a run with that many, each ended by such a failed read |
| `LeasePasses.OnlyTheHolderTouchesTheRecord` | crates/shim/src/local_runtime_lease.rs:353-398 | owner directory and record change only by a step of the Shim that holds the lock |
| `ChildSupervision.WaitForChild` | crates/shim/src/lib.rs:165-254 | the loop with its flags and deadline equals the specified run |
| `ChildSupervision.TurnKeeps` | crates/shim/src/lib.rs:192-253 | one turn keeps the flags a summary of what was done: soft stops, their deadline, one forward, one forced stop after its grace |
| `ChildSupervision.ShutdownInvariant` | crates/shim/src/lib.rs:165-254 | at most one forced stop, only after the grace period of the latest soft stop; at most one forwarded signal; never an input stop and a descendant stop both |
| `SupervisionProgress.InputEndStopsTheChild` | crates/shim/src/lib.rs:232-238 | a run that waits on past the first turn in which Desktop's input has ended, with the root's exit not known, sent the stop in that very turn |
| `SupervisionProgress.InputTurn` | crates/shim/src/lib.rs:232-242 | that turn starts the grace period and forwards no signal; before it, nothing counts as the end of input |
| `SupervisionProgress.GraceIsEnforced` | crates/shim/src/lib.rs:247-251 | whether the root still runs or not, a grace period after the latest soft stop a stop has been forced |
| `SupervisionProgress.ExitIsFollowedBySoftStop` | crates/shim/src/lib.rs:242-246 | a run that waits on after the root's exit has sent a soft stop |
| `SupervisionProgress.ReturnsExactly` | crates/shim/src/lib.rs:219-231 | where no operation fails, the loop returns if and only if some turn knows the exit and finds nobody |
| `SupervisionProgress.WatchedThroughout` | crates/shim/src/lib.rs:165-174 | over a run the process tree was looked at within the refresh interval before its latest turn, and in that turn once the exit is known |
| `SupervisionProgress.ForwardedWasRaised` | crates/shim/src/lib.rs:239-242 | the forwarded signal is one that was raised |
| `ChildSupervision.ReturnsOnlyWhenAllIsGone` | crates/shim/src/lib.rs:165-254 | the loop returns in the first turn that knows the root's exit and finds nobody live in an observation of that same turn |
| `ChildSupervision.ForcedInTime` | crates/shim/src/lib.rs:165-254 | over a run: once the root's exit is known and no further signal arrives, any turn that looks at the clock a grace period later has forced a stop, or the loop has ended before |
| `ChildSupervision.ForcedWithinTwoGraces` | crates/shim/src/lib.rs:165-254 | whatever signals arrive: a turn that looks at the clock a grace period after one that looked a grace period after the root's exit was known has forced a stop, or the loop has ended before |
| `ChildSupervision.SignalIsForwarded` | crates/shim/src/lib.rs:235-242 | a run that waits on for one more turn after a signal was raised has forwarded one, even where the end of Desktop input came first |
| `ChildSupervision.OutcomeIsHonest` | crates/shim/src/lib.rs:165-254 | the returned flags say exactly what was done |
| `SupervisedLease.ChildIsGoneExactly` | crates/shim/src/lib.rs:192-232 | where the supervision ends, by returning or by failing: the child is gone in every process history if and only if a turn up to that end learned of its exit; one that returns has |
| `SupervisedLease.ReturnedMayDrop` | crates/shim/src/lib.rs:1183-1187 | after a supervision that returned, the Shim meets the condition under which the lease may be dropped |
| `SupervisedLease.FailedMayLeaveChild` | crates/shim/src/lib.rs:1183-1187 | a failing observation can end the supervision while the child is alive, and the lease is dropped all the same |
| `UpdateHandoff.UnexpectedPhaseIsUnreachable` | crates/launcher/src/active_update.rs:228-257 | if polls see who lives: while the Launcher polls, the status is `prepared`, `waiting-for-exit` or `failed`; the arm for anything else is never reached |
| `UpdateHandoff.InstallOnlyAfterExit` | crates/updater/src/main.rs:50-74 | if polls see who lives: installation starts only after the expected executable was seen alive at the wait PID, `waiting-for-exit` was published, and the Launcher was gone for good; whoever holds the PID by then started after the last poll |
| `UpdateHandoff.ReadyMeansAcknowledged` | crates/launcher/src/active_update.rs:310-348 | if polls see who lives: the Launcher reports success only once the Updater has seen this very Launcher and announced its wait |
| `UpdateHandoff.StatusIsOrdered` | crates/updater/src/main.rs:123-140 | phases are published in order, each at most once, and `failed` ends the publication |
| `UpdateHandoff.HandoffCompletes` | crates/updater/src/main.rs:123-140 | for every Launcher a run in which it is acknowledged and exits, and the Updater installs and reports success, every phase published |
| `UpdateHandoff.HandoffIsSafeExactly` | crates/updater/src/main.rs:50-74 | in every interleaving the installation follows the Launcher's end and no unexpected phase is met, if and only if no poll takes a PID in use for free |
| `UpdateHandoff.MissedLauncherIsOverrun` | crates/updater/src/main.rs:67-72 | otherwise, a run that installs beside the living Launcher |
| `UpdateHandoff.WaitPidInUseExactly` | crates/updater/src/main.rs:67-74 | after the last look the wait PID is in use if and only if a process started there since and none exited there after that |
| `UpdateHandoff.WaitPidCanBeReused` | crates/updater/src/main.rs:50-74 | for every Launcher a run in which another process holds its PID when the installation starts |
| `RemoteCancellation.CancellationWinsExactly` | crates/updater/src/remote.rs:52-85 | in every interleaving a marker present when a last check is due prevents every later action and a normal return, if and only if a marker that is there is read |
| `RemoteCancellation.LastCheckDecides` | crates/updater/src/remote.rs:81-84 | for every run and call: a marker present at the last check stops everything exactly when that check reads it |
| `RemoteCancellation.CancellationWins` | crates/updater/src/remote.rs:61-85 | where markers are read, one written at any time up to a last check stops everything after it |
| `RemoteCancellation.MisreadMarkerIsIgnored` | crates/updater/src/remote.rs:52-60 | where none is, a run that was cancelled before it began and returns success |
| `RemoteCancellation.OnlyClearedWorkIsDone` | crates/updater/src/remote.rs:161-262 | npm install, the service steps and a normal return each come only after the last check of their own call reported clear |
| `RemoteCancellation.OnlyUncancelledWorkIsDone` | crates/updater/src/remote.rs:161-262 | where markers are read, each such check met no marker |
| `RemoteCancellation.ClearedHolds` | crates/updater/src/remote.rs:92-129 | at every point of a run the calls whose last check reported clear account for all the work done |
| `RemoteCancellation.SuccessMeansCompleteWork` | crates/updater/src/remote.rs:161-262 | a helper that returns normally has done exactly the actions of a complete update, each once and in order; a restart just those of the service |
| `RemoteCancellation.UncancelledUpdateCompletes` | crates/updater/src/remote.rs:92-129 | without a cancellation, a run that does |
| `RemoteCancellation.FailedServiceIsStartedAgain` | crates/updater/src/remote.rs:251-255 | a failed refresh or start of the service leads to one more attempt to start it, and to no other end |
| `WindowsCommandLine.QuoteWindowsArgument` | crates/platform/src/windows_desktop.rs:277-302 | the loop with its backslash counter produces the specified quoting |
| `WindowsCommandLine.ReadEscaped` | crates/platform/src/windows_desktop.rs:284-300 | inside quotes a reader recovers the value, with the backslashes pending before it |
| `WindowsCommandLine.SplitUndoesCommandLine` | crates/platform/src/windows_desktop.rs:304-310 | splitting a printed line gives the arguments back, whichever way the reader treats doubled quotes; quoted ones as lossy text |
| `WindowsCommandLine.CommandLineRoundTrip` | crates/platform/src/windows_desktop.rs:277-310 | the list comes back unchanged if and only if every argument that needs quotes is valid Unicode |
| `WindowsCommandLine.PrintedAsIsExactly` | crates/platform/src/windows_desktop.rs:277-281 | an argument is printed as it is if and only if it has something in it and no space, tab or quote |
| `WindowsCommandLine.JoinedBySpaces` | crates/platform/src/windows_desktop.rs:304-310 | arguments are joined by single spaces |
| `WindowsCommandLine.ActivationDeliversArguments` | crates/platform/src/windows_desktop.rs:449-454 | an activated package receives the lossy text of every argument, in order and in number |
| `WindowsEnvironment.WindowsEnvironmentBlock` | crates/platform/src/windows_desktop.rs:312-347 | refuses exactly when an entry is invalid, and otherwise writes the entries sorted by folded name |
| `WindowsEnvironment.BlockRoundTrip` | crates/platform/src/windows_desktop.rs:312-347 | reading the block gives a permutation of the list, ascending by folded name and stable, whatever the folding |
| `WindowsEnvironment.ReadWholeBlock` | crates/platform/src/windows_desktop.rs:335-345 | the reader stops at the end of the block, which ends in two NULs even when empty |
| `WindowsEnvironment.TextLessAtDifference` | crates/platform/src/windows_desktop.rs:329-334 | names are ordered at their first difference, and a name comes before its extensions |
| `WindowsEnvironment.TextLessTotal` | crates/platform/src/windows_desktop.rs:329-334 | names of which neither comes first are the same |
| `Sequences.StableSortIsUnique` | crates/platform/src/windows_desktop.rs:329-334 | two sorted arrangements that keep ties in the same order are equal, so the result does not depend on the sorting algorithm |
| `AppServerArguments.AppServerSubcommandIndex` | crates/shim/src/lib.rs:308-355 | the index loop finds the subcommand as specified |
| `ArgumentGrammar.AppServerIndexExactly` | crates/shim/src/lib.rs:303-355 | the subcommand is found exactly behind a list of global settings, whatever follows; an argument that merely reads like it, behind anything else or as an option's value, is not |
| `ArgumentGrammar.SettingsExactly` | crates/shim/src/lib.rs:454-480 | the Host Runtime's grammar reads exactly the lists that spell out settings, up to a first argument that is not Unicode, and reads just these settings |
| `ArgumentGrammar.EveryOptionIsKnown` | crates/shim/src/lib.rs:309-325 | the subcommand is found behind each global option with any value, and each app-server option is read with any value |
| `HostRuntimeRouting.ShouldStartHostRuntime` | crates/shim/src/lib.rs:438-482 | the Host Runtime serves exactly the invocations its option grammar reads, that no named originator but Desktop started, and that do not select the memory provider |
| `HostRuntimeRouting.IsSkysightMemoryAppServer` | crates/shim/src/lib.rs:362-400 | the index loop over config overrides decides as specified |
| `HostRuntimeRouting.MemoryProviderExactly` | crates/shim/src/lib.rs:384-394 | an override selects the memory provider if and only if it is the key and the provider, spaced in any way and the provider quoted in any way |
| `HostRuntimeRouting.SkysightExactly` | crates/shim/src/lib.rs:362-400 | an invocation belongs to the summarizer if and only if one of its config overrides, in any notation and anywhere, selects the memory provider |
| `HostRuntimeRouting.InlineConfigExactly` | crates/shim/src/lib.rs:376-383 | an inline override is `-c=` or `--config=` with its value |
| `HostRuntimeRouting.AuxiliaryExactly` | crates/shim/src/lib.rs:446-449 | auxiliary is whoever shows a name, and not Desktop's |
| `AppServerArguments.IsDefaultRemoteUnixListener` | crates/shim/src/lib.rs:486-539 | the loop with its listener flag decides as specified |
| `AppServerArguments.DefaultListenerExact` | crates/shim/src/lib.rs:486-539 | for every argument list: it is a default listener if and only if the Host Runtime's grammar accepts it with exactly one listen option, on the default address, and without `--stdio` |
| `AppServerArguments.LocalListenerArguments` | crates/shim/src/lib.rs:753-781 | the rewriting loop produces the specified list, or fails without a subcommand |
| `AppServerArguments.RewritingLastWins` | crates/shim/src/lib.rs:753-781 | rewriting twice equals rewriting once with the last socket; with the same socket it is idempotent |
| `AppServerArguments.RewritingIsProjection` | crates/shim/src/lib.rs:753-781 | the rewritten invocation is accepted, read to its end, with all other settings and the new listener, if and only if values are clear and nothing stays behind an unread argument |
| `AppServerArguments.RewrittenListensOnce` | crates/shim/src/lib.rs:753-781 | it then has the new listener as its only one, and no `--stdio` |
| `AppServerArguments.DroppedValueIsRefused` | crates/shim/src/lib.rs:767-775 | an accepted invocation with the option value `--stdio` that is refused once rewritten |
| `AppServerArguments.UnreadArgumentHidesListener` | crates/shim/src/lib.rs:767-775 | an accepted invocation with a non-Unicode argument whose rewritten form is read without any listener |
| `OutputTail.ReadOutputTail` | crates/updater/src/ssh.rs:156-170 | however a stream is cut into reads, the output is its last 16384 bytes, or all of a shorter one; a failing read fails the whole |
| `OutputTail.CuttingDoesNotMatter` | crates/updater/src/ssh.rs:156-170 | bytes cut into pieces in any way are a stream of just these bytes |

## Left out

- Operating system calls (`/proc`, libproc, Win32, COM, launchctl, SSH, npm): their results are parameters, or
  nondeterministic steps of the environment.
- Clocks are natural numbers taken from the turns and frames; sleeping is not modelled, and a timeout is a frame's or a
  step's choice.
- Signalling on macOS and `killpg`: only the window in check-then-kill is shown.
- LocalRuntimeLease as a class: the lease's fields are the local state of a Shim in a transition system, because the
  property is about the interleaving of many of them; aliasing of the struct is not captured.
- Shims of the first released format that are still alive: the migration's waits and the retirement of the old mapping
  store are not part of the lease protocol; only the record a migration writes is.
- A Shim that crashes between spawning a child and publishing it: the lease speaks of published children.
- Which failing system calls make a record unreadable, a marker misread or a process unseen: each is a condition or a
  nondeterministic step.
- Signals a contender sends to the Shim and the child it waits for: both may exit at any time anyway, and only their
  exit matters.
- The takeover of a stale lock file in the remote updater: reading, removing and creating it is not one step, and mutual
  exclusion is not claimed.
- The Launcher's search for a pending update, and the relaunch after an installation: chains of file reads and checks.
- The launch pre-checks for a missing executable and an exited launch process before the first scan.
- JSON, path canonicalisation, permissions and canonical file identity: paths and executables are compared as values.
- The exit-wait on Windows and the macOS launch loop.
- The environment variable that names the originator: its value is a parameter.
- Case folding of environment names: any function; nothing proved depends on which.
- How a Windows program reads its own name: `windows_command_line` prints the arguments of an activated package, and
  the debugger command whose first argument is a path without quotes in it.
- `cleanup_escaped`, the bounded retry observers of `process_identity.rs`, `is_helper_descendant`, and the
  proxy variables: loops whose properties follow from one body each.
