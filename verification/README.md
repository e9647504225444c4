# Verification of the task, evidence and storage logic

A Dafny 4.11 model of the parts of the repository whose correctness takes an argument, with proofs. `dafny verify
dfyconfig.toml` checks everything. One module per component:

| files | what they model |
|---|---|
| `Arithmetic`, `Primes`, `MillerRabin`, `Certificates`, `Factorization` | the campaign scripts that check number-theoretic witnesses: the fixed-base Miller-Rabin test, the two prime-power certificate checkers, trial division, powerful numbers |
| `PrimalityProofs`, `DocumentedBound` | a composite that the test accepts below the bound its comment gives |
| `Graphs`, `TaskDraft` | the graph checks on a task draft: parent walk, three-colour search, sinks, two worklists |
| `Sorting`, `Batches` | the partition of record numbers into batches, and the table of one batch |
| `DependencyCheck`, `TaskModel`, `TaskBoard`, `TaskRuns`, `TaskEffects`, `TaskCreation`, `TaskFocus`, `TaskProgress`, `TaskDetours` | the long-term task store: one class with a method per mutation, the specification of each, and what holds over all runs |
| `KnowledgeIndex` | the search index of a knowledge base as three tables under transactions |
| `PairSelector`, `Submission` | the arena's pair selection, and its queue with one asynchronous write |
| `Deliveries` | the cross-session delivery queue |
| `Transfers` | chunked file transfer |

Code that changes state is a class whose methods are proved against a function of the old state; the theorems about
whole runs are lemmas about those functions. SQL tables are maps from key to row, timestamps and the random source are
parameters, and what the model does not see of a call (whether a text column is given, whether evidence or a timestamp
is well formed) is a boolean parameter of it. Of the text columns of a sub-project the model keeps how often they were
written; wait notes, wait times and evidence are kept as they are.

## What the proofs found

- The comment on the twelve Miller-Rabin bases gives the bound that belongs to thirteen bases. The number
  399165290221 * 798330580441 is below it and is accepted (`DocumentedBound.DocumentedBoundFails`). No result here
  rests on that bound: what the largest-prime verdict needs is only that the first two largest bases are prime
  (`Certificates.TripletSound`), and the powerful-number checker needs nothing (`Factorization.CheckedIsPowerful`).
- The id pattern of the triage table ends in `$`, which also matches before a trailing newline, so one number can be
  recorded twice (`Batches.NewlineTwinPasses`; exact condition in `Batches.NumbersDistinctIff`).
- `createTask` accepts drafts that refer to each other in a circle, which then never begin
  (`TaskCreation.RefCycleNeverBegins`); without such a circle a created task can always be finished by pushing work
  forward (`TaskCreation.CreatedFinishableIff`).
- `updateSubtask` may put an unaccepted dependency under something already begun; this is the only way in which the
  dependency order breaks (`TaskRuns.StepKeepsDepsMetIff`, `TaskRuns.UndercutsExist`). A refused edit may have
  written text or moved the sub-project (exactly when: `TaskRuns.RefusedCallChangesIff`).
- A rejected proposal leaves its note and evidence on the row, so a rejected sub-project still shows as proposed; no
  other call leaves a wait note on what does not wait (`TaskRuns.StepKeepsNotesTidyIff`,
  `TaskDetours.ProposeThenReject`).
- An active task can have nothing open, by activation only (`TaskRuns.StepKeepsActiveOpenIff`), and then begin,
  unblock and accept never end it; which plans they can end is `TaskProgress.FinishableIff`.
- The acceptance switch can be turned on by any caller; that is the only call with which the twin gets past it
  (`TaskRuns.TwinStepGivesNoVerdictIff`). `addSubtask` can reopen a done task (`TaskRuns.StepKeepsDoneClosedIff`).
- Skipping a sub-project blocks for good what depends on it, until redefined; everything else can still be accepted
  (`TaskProgress.AcceptableIff`; the effect on the focus is in `TaskFocus.FallbackAvoidedIff`).
- The completion message of a file transfer only starts the timer: its own test for completeness never holds
  (`Transfers.CompleteDoesNothing`).
- Removing a queued comparison while a write is in flight can lose another one (`Submission.RemovalInFlightLosesItem`;
  exact condition in `Submission.NextConservesIff`).

## Model

| member | source | states |
|---|---|---|
| `MillerRabin.IsPrime` | scripts/metatask-campaign/spec-lpf-triplet.py:26-46 | The trial divisions, the halving loop and the squaring loops decide exactly `Passes`: n is a witness, or no witness divides it and it is a strong probable prime to all twelve bases, for any way of splitting n - 1. |
| `MillerRabin.OddPart` | scripts/metatask-campaign/spec-lpf-triplet.py:32-35 | The halving loop ends with n - 1 = d * 2^r, d odd and r at least 1. |
| `MillerRabin.TryBase` | scripts/metatask-campaign/spec-lpf-triplet.py:36-45 | One power and at most r - 1 squarings find out whether the base is passed. |
| `MillerRabin.PrimePasses` | scripts/metatask-campaign/spec-lpf-triplet.py:26-46 | Every prime is accepted, so a rejected n from 2 upwards is composite (Fermat's little theorem and the absence of further square roots of 1 are proved here). |
| `MillerRabin.PassesIff` | scripts/metatask-campaign/spec-lpf-triplet.py:26-46 | Said without the loops and the splitting: a number other than a witness is accepted exactly when no witness divides it and every witness a satisfies a^(n-1) = 1 modulo n and, wherever n - 1 is halved, meets no square root of 1 besides 1 and -1. |
| `MillerRabin.FirstOpenProductRejected` | scripts/metatask-campaign/spec-lpf-triplet.py:36-45 | 41 * 43, the smallest product beyond the trial division with two different primes, is rejected. |
| `MillerRabin.ExactBelowSquareOf41` | scripts/metatask-campaign/spec-lpf-triplet.py:29-31 | Below 41 squared the test accepts exactly the primes. |
| `MillerRabin.OneSplitDecides` | scripts/metatask-campaign/spec-lpf-triplet.py:32-45 | The verdict on a base does not depend on how n - 1 is split, because the split is unique. |
| `DocumentedBound.DocumentedBoundFails` | scripts/metatask-campaign/spec-lpf-triplet.py:22-23 | The documented bound is false of the code: the composite 318665857834031151167461 lies below 3317044064679887385961981 and is accepted. |
| `DocumentedBound.BaseDecided` | scripts/metatask-campaign/spec-lpf-triplet.py:36-45 | A fourth root modulo p and an eighth root modulo q of the base, up to a sign or a square root of -1, show that the base is passed modulo p * q. |
| `Certificates.VerifyCertificate` | scripts/metatask-campaign/spec-lpf-triplet.py:49-67 | Accepts exactly the non-empty lists of pairs with p >= 2, e >= 1, p passing the test and product equal to the value; returns the largest base; otherwise reports the first fault in the order of the checks. |
| `Certificates.CheckCertificate` | scripts/metatask-campaign/spec-witness-extraction.py:73-93 | Accepts exactly the lists whose exponents are at least 2 as well; returns the bases in order; otherwise reports the first fault. |
| `Certificates.OneFault` | scripts/metatask-campaign/spec-lpf-triplet.py:49-67 | In both checkers the reported faults exclude one another and an accepted certificate has none, so the reason of a refusal is determined. |
| `Certificates.PrimeReachesBase` | scripts/metatask-campaign/spec-lpf-triplet.py:63-65 | A prime divisor of the product divides one of the listed bases. |
| `Certificates.LargestBaseBoundsPrimes` | scripts/metatask-campaign/spec-lpf-triplet.py:49-67 | Without assuming the test sound: the largest base divides the value, no prime divisor exceeds it, and it is the greatest prime divisor exactly when it is prime. |
| `Certificates.SmallLargestBaseIsExact` | scripts/metatask-campaign/spec-lpf-triplet.py:49-67 | With a largest base below 41 squared it is unconditionally the greatest prime divisor. |
| `Certificates.GreatestFromPrimeEntries` | scripts/metatask-campaign/spec-lpf-triplet.py:49-67 | If the listed factors are prime, the returned number is P(value), also when a prime is listed more than once. |
| `Certificates.CheckTriplet` | scripts/metatask-campaign/spec-lpf-triplet.py:70-102 | Pass exactly when three accepted certificates have strictly decreasing largest bases; invalid exactly when a field is absent before anything fails. |
| `Certificates.MissingIff` | scripts/metatask-campaign/spec-lpf-triplet.py:83-92 | When the script is stopped by an absent certificate, said on the three keys. |
| `Certificates.TripletSound` | scripts/metatask-campaign/spec-lpf-triplet.py:95-102 | A pass verdict means P(n) > P(n+1) > P(n+2) as soon as the first two largest bases are prime. |
| `Certificates.TripletExact` | scripts/metatask-campaign/spec-lpf-triplet.py:95-102 | With three accepted certificates of prime factors the verdict is a pass exactly when P(n) > P(n+1) > P(n+2). |
| `Factorization.Factorize` | scripts/metatask-campaign/spec-powerful-pair.py:20-33 | None below 2; otherwise strictly increasing primes with exponents at least 1 whose product is x, although only 2 and odd numbers up to the root of the rest are tried. |
| `Factorization.DivideOut` | scripts/metatask-campaign/spec-powerful-pair.py:27-29 | The inner loop takes a candidate out as often as it divides; what was taken out is recorded and no smaller divisor appears. |
| `Factorization.NextCandidate` | scripts/metatask-campaign/spec-powerful-pair.py:26-30 | Stepping from 2 to 3 and then by twos skips no prime divisor of what remains. |
| `Factorization.Leftover` | scripts/metatask-campaign/spec-powerful-pair.py:31-32 | What is left above 1 when d * d exceeds it is a prime, and completes the factorization. |
| `Factorization.IsPowerful` | scripts/metatask-campaign/spec-powerful-pair.py:36-41 | True exactly when p^2 divides x for every prime p dividing x; a reported weak prime is the least one. |
| `Factorization.PowerfulByExponents` | scripts/metatask-campaign/spec-powerful-pair.py:40 | x is powerful exactly when every exponent of its factorization is at least 2. |
| `Factorization.FactorizationUnique` | scripts/metatask-campaign/spec-powerful-pair.py:20-33 | A number has only one increasing prime factorization. |
| `Factorization.FactorizationExists` | scripts/metatask-campaign/spec-powerful-pair.py:20-33 | Every number from 1 upwards has one, so the checkers below have something to agree on. |
| `Factorization.CheckersAgree` | scripts/metatask-campaign/spec-powerful-pair.py:20-41 | The result of factorize is accepted by verify_certificate with the greatest key as largest prime, and by check_certificate exactly when is_powerful holds. |
| `Factorization.CheckedIsPowerful` | scripts/metatask-campaign/spec-witness-extraction.py:73-93 | What check_certificate accepts is powerful, whatever composites the primality test lets through. |
| `Factorization.PowerfulIffCertifiable` | scripts/metatask-campaign/spec-witness-extraction.py:73-93 | A number is powerful exactly when some certificate for it is accepted. |
| `TaskDraft.IndexNodes` | scripts/metatask-wizard/validate-task-draft.py:416-420 | The index by id and the id list, later nodes replacing earlier ones with the same id. |
| `TaskDraft.LastWins` | scripts/metatask-wizard/validate-task-draft.py:416-420 | The index holds the last node of each id. |
| `TaskDraft.Loops` | scripts/metatask-wizard/validate-task-draft.py:420-428 | The walk up the parents with its `seen` set reports a loop exactly when the chain of parents never ends. |
| `TaskDraft.LoopingNodes` | scripts/metatask-wizard/validate-task-draft.py:419-429 | The reported ids are exactly those whose parent chain does not end. |
| `TaskDraft.DepsWalk.Acyclic` | scripts/metatask-wizard/validate-task-draft.py:439-450 | One call of the three-colour search, from any state earlier calls left: true settles the node and all below it, false means the graph has a cycle; it terminates on every graph. |
| `TaskDraft.DepsWalk.AllAcyclic` | scripts/metatask-wizard/validate-task-draft.py:452-453 | Over all ids with the shared state: true exactly when the dependency graph has no cycle. |
| `Graphs.AcyclicIffRanked` | scripts/metatask-wizard/validate-task-draft.py:439-453 | Having no cycle is the same as having a rank that drops along every edge. |
| `Graphs.Closure` | scripts/metatask-wizard/validate-task-draft.py:467-474 | The pop-and-extend worklist terminates and visits exactly the nodes reachable from its start list. |
| `TaskDraft.BuildDependents` | scripts/metatask-wizard/validate-task-draft.py:461-466 | The reversed edge lists, in the order in which the loop appends. |
| `TaskDraft.DependentsMean` | scripts/metatask-wizard/validate-task-draft.py:461-466 | They hold exactly the reversed dependencies. |
| `TaskDraft.DependentsList` | scripts/metatask-wizard/validate-task-draft.py:461-466 | Each list is the ids of the nodes that name the dependency, in node order and as often as they name it. |
| `TaskDraft.CheckGraph` | scripts/metatask-wizard/validate-task-draft.py:416-486 | Each reported check holds exactly when its graph property does: one root, parents ending, no cycle, the sink list, an entry, reachability from entries and to the final node. |
| `TaskDraft.LaterChecksFollow` | scripts/metatask-wizard/validate-task-draft.py:452-486 | With unique ids and known deps, acyclic dependencies and finalnode as the only sink already imply the entry check and both reachability checks. |
| `TaskDraft.SinkCheckIffToFinal` | scripts/metatask-wizard/validate-task-draft.py:455-486 | On an acyclic draft the sink check and the last reachability check are equivalent. |
| `TaskDraft.EveryNodeFromEntries` | scripts/metatask-wizard/validate-task-draft.py:458-476 | In an acyclic draft every node is reached from an entry node. |
| `TaskDraft.EveryNodeToFinal` | scripts/metatask-wizard/validate-task-draft.py:477-486 | If nothing but finalnode is a sink, finalnode depends on every node directly or not. |
| `TaskDraft.ParentsFormTree` | scripts/metatask-wizard/validate-task-draft.py:417-429 | With one root, known parents and no parent loop every node's chain ends at that root. |
| `TaskDraft.OneRootIff` | scripts/metatask-wizard/validate-task-draft.py:417-418 | One root is counted exactly when one node of the list has no parent. |
| `Batches.CheckRanges` | scripts/metatask-campaign/validate-drafts.py:226-235 | After sorting by `from`, there is no gap message exactly when each range starts where the previous one ended; the messages name exactly the mismatches. |
| `Batches.GapCheckPartitions` | scripts/metatask-campaign/validate-drafts.py:226-235 | Ranges that pass put every number from the first `from` to the last `to` in exactly one batch. |
| `Batches.GapCheckExact` | scripts/metatask-campaign/validate-drafts.py:226-235 | For non-empty ranges the check passes exactly when they partition. |
| `Batches.CheckTable` | scripts/metatask-campaign/spec-triage-table.py:50-112 | Pass and invalid are decided exactly: by the bounds, then by the first bad record, then by the count. |
| `Batches.EditAcceptedIff` | scripts/metatask-campaign/spec-triage-table.py:75-108 | Another record in an accepted table is accepted exactly when its id is that of an unused number of the batch and its certificate type, feasibility, page count and notes are allowed. |
| `Batches.NumberInjective` | scripts/metatask-campaign/spec-triage-table.py:83 | Reading equally long digit strings as numbers is injective. |
| `Batches.ParseIdIff` | scripts/metatask-campaign/spec-triage-table.py:37-83 | An id is read as n exactly when it is JSP- and the six decimal digits of n, with or without a trailing newline. |
| `Batches.SameNumber` | scripts/metatask-campaign/spec-triage-table.py:37-83 | Two accepted ids with the same number are equal up to a trailing newline, which the pattern's `$` lets through. |
| `Batches.RecordsInHull` | scripts/metatask-campaign/spec-triage-table.py:84-86 | All accepted records lie between the first `from` and the last `to`. |
| `Batches.RecordsDistinct` | scripts/metatask-campaign/spec-triage-table.py:87-108 | For accepted tables in any order whose sorted ranges pass the gap check: the ranges partition the numbers, the record ids are distinct over all tables and number exactly the sum of the expected counts. |
| `Batches.BatchesOfSort` | scripts/metatask-campaign/validate-drafts.py:227 | Sorting the tables by range sorts their batches as the draft check does. |
| `Batches.NumbersDistinctIff` | scripts/metatask-campaign/spec-triage-table.py:79-90 | For such tables the records' numbers are distinct exactly when no id occurs both with and without a trailing newline. |
| `Batches.NewlineTwinPasses` | scripts/metatask-campaign/spec-triage-table.py:37 | Such a pair does pass one table: two records, one number. |
| `DependencyCheck.HasDependencyCycle` | src/main/longTermTaskStore.ts:946-968 | True exactly when a cycle can be reached from the start node; it terminates although ids may be unknown. |
| `DependencyCheck.Visitor.Visit` | src/main/longTermTaskStore.ts:955-966 | One nested visit, from any state of the two shared sets: false settles the node, true means a cycle is reachable from the start. |
| `DependencyCheck.EditCreatesCycleIff` | src/main/longTermTaskStore.ts:934-937 | Replacing one node's dependencies in an acyclic graph makes a cycle exactly when that node then reaches one, so checking from the edited node is enough. |
| `DependencyCheck.EditCreatesCycleIffReached` | src/main/longTermTaskStore.ts:934-937 | Such an edit makes a cycle exactly when one of the new dependencies already reached the edited node. |
| `DependencyCheck.NewNodeCreatesNoCycle` | src/main/longTermTaskStore.ts:831-835 | A new node nobody points to makes no cycle. |
| `TaskBoard.CheckDrafts` | src/main/longTermTaskStore.ts:579-590 | The draft loop accepts exactly references between 1 and the number of drafts that are not to the draft itself. |
| `TaskBoard.Board.constructor` | src/main/longTermTaskStore.ts:591-619 | Creation yields the sub-projects numbered in draft order, pending, with references turned into ids. |
| `TaskBoard.Board.ListRows` | src/main/longTermTaskStore.ts:479-481 | The rows of the task, each once, in ordinal order. |
| `TaskBoard.Board.Current` | src/main/longTermTaskStore.ts:196-210 | Nothing exactly when all is closed; the pinned sub-project while open; else the lowest-ordinal free one; only without a free one the lowest open one. |
| `TaskBoard.Board.ActivateTask` | src/main/longTermTaskStore.ts:625-637 | Is exactly the step of the run theorems, result code included: refused from every other stage with nothing changed. |
| `TaskBoard.Board.PauseTask` | src/main/longTermTaskStore.ts:639-648 | Is exactly the step of the run theorems, result code included: refused from every other stage with nothing changed. |
| `TaskBoard.Board.CancelTask` | src/main/longTermTaskStore.ts:650-660 | Is exactly the step of the run theorems, result code included: refused from every other stage with nothing changed. |
| `TaskBoard.Board.CompleteTask` | src/main/longTermTaskStore.ts:675-724 | Needs the switch for the twin; skips everything open one by one, clears the pin and ends in done. |
| `TaskBoard.Board.UpdateTask` | src/main/longTermTaskStore.ts:726-751 | Sets the acceptance switch if it differs; refused when nothing changes; no check of who asks. |
| `TaskBoard.Board.AddSubtask` | src/main/longTermTaskStore.ts:826-864 | The new row is pending, numbered after all others, and depends on exactly the rows with the ordinals named; refused when one is unknown; no stage check. |
| `TaskBoard.Board.UpdateSubtask` | src/main/longTermTaskStore.ts:872-944 | The state after an edit that is applied field by field: text columns first, then the link, the ordinal and the dependencies, with everything already written kept when a later field is refused. |
| `TaskBoard.Board.DependencyLinkedIds` | src/main/longTermTaskStore.ts:1448-1456 | Exactly the ids that have a dependency or are one. |
| `TaskBoard.Board.BeginSubtask` | src/main/longTermTaskStore.ts:971-1002 | Begins and pins only when pending or in progress, all dependencies accepted and the task active. |
| `TaskBoard.Board.WaitSubtask` | src/main/longTermTaskStore.ts:1005-1034 | Parks what is under way with its note and time, for the owner or for something external, whatever the stage; refused otherwise with nothing changed. |
| `TaskBoard.Board.ProposeSubtask` | src/main/longTermTaskStore.ts:1069-1095 | From in progress or an external wait to waiting for the owner with the evidence and the summary as note, whatever the stage; refused otherwise with nothing changed. |
| `TaskBoard.Board.AcceptSubtask` | src/main/longTermTaskStore.ts:1102-1136 | Needs the switch for the twin, clears a pin on it, and ends an active task with nothing open left. |
| `TaskBoard.Board.SkipSubtask` | src/main/longTermTaskStore.ts:1146-1188 | Decides on the other sub-projects whether it closes the task, and then needs the switch for the twin. |
| `TaskBoard.Board.RejectSubtask` | src/main/longTermTaskStore.ts:1191-1206 | Only with feedback and only what waits for the owner goes back to in progress; evidence, note and time stay. |
| `TaskBoard.Board.UnblockSubtask` | src/main/longTermTaskStore.ts:1209-1225 | Only what waits goes back to in progress, whatever the stage, and loses its note and time. |
| `TaskBoard.Board.MoveSubtask` | src/main/longTermTaskStore.ts:1468-1500 | Swaps ordinals with the row before or after in ordinal order, unless there is none or either is dependency-linked. |
| `TaskBoard.SwapInThree` | src/main/longTermTaskStore.ts:1490-1494 | While the swap is under way no two sub-projects share an ordinal. |
| `TaskRuns.RunKeepsValid` | src/main/longTermTaskStore.ts:826-968 | From a valid task every run keeps ordinals unique and positive, dependencies among siblings, the graph acyclic, and the pin on a sub-project in progress or waiting. |
| `TaskRuns.UpdateRefusesExactlyCycles` | src/main/longTermTaskStore.ts:925-938 | New dependencies among siblings are refused exactly when they would create a cycle anywhere in the plan, which is when one of them already depends on the sub-project. |
| `TaskRuns.StepKeepsDepsMetIff` | src/main/longTermTaskStore.ts:872-1225 | A call leaves every begun sub-project with all dependencies accepted except in exactly one case, said by the guards of the edit: it redefines the dependencies of a begun one to something allowed but not accepted. |
| `TaskRuns.UndercutsExist` | src/main/longTermTaskStore.ts:925-938 | Anything in progress can be given any dependency that is not accepted and does not depend on it. |
| `TaskRuns.RunKeepsDepsMet` | src/main/longTermTaskStore.ts:971-1225 | So runs without such a redefinition keep the order. |
| `TaskRuns.AcceptedAfterItsDeps` | src/main/longTermTaskStore.ts:1102-1121 | In those runs a sub-project becomes accepted only when all its dependencies already are. |
| `TaskRuns.NewlyAccepted` | src/main/longTermTaskStore.ts:1102-1116 | Only an accept call accepts, and only from in progress or waiting for the owner. |
| `TaskRuns.RunKeepsFinal` | src/main/longTermTaskStore.ts:650-724 | Accepted and skipped sub-projects and done and cancelled tasks never change again. |
| `TaskRuns.StepKeepsDoneClosedIff` | src/main/longTermTaskStore.ts:826-864 | Done means everything closed, except after a titled draft with known references was added to a done task under a new id. |
| `TaskRuns.AddsToDoneExist` | src/main/longTermTaskStore.ts:826-864 | Every done task admits such an addition. |
| `TaskRuns.StepKeepsActiveOpenIff` | src/main/longTermTaskStore.ts:625-637 | An active task has something open, and every call keeps this except one: activating a defining or paused task with nothing open. |
| `TaskRuns.StepKeepsNotesTidyIff` | src/main/longTermTaskStore.ts:1191-1206 | What does not wait has no wait note or time, and every call keeps this except one: rejecting a sub-project that holds one. |
| `TaskRuns.RunKeepsDoneClosed` | src/main/longTermTaskStore.ts:1102-1188 | In runs that add nothing to a done task, done means every sub-project is accepted or skipped. |
| `TaskRuns.RefusedCallChangesIff` | src/main/longTermTaskStore.ts:872-944 | A refused call has changed something exactly when it is an edit of an open sub-project that gives a text column and then has its link, ordinal or dependencies refused, or that gives a new settable ordinal and then has its dependencies refused; then only that row differs, in the text and ordinal columns written so far, and never in its dependencies. |
| `TaskRuns.RefusedUpdateReorders` | src/main/longTermTaskStore.ts:883-932 | Both kinds of half-applied edit exist for every unlinked open sub-project: the ordinal moves, or the text is written, and the call is refused. |
| `TaskRuns.TwinRunGivesNoVerdict` | src/main/longTermTaskStore.ts:1102-1188 | With the switch off, no sequence of twin calls that leaves it off accepts anything or reaches done. |
| `TaskRuns.TwinStepGivesNoVerdictIff` | src/main/longTermTaskStore.ts:726-751 | With the switch off, a call of the twin accepts something, completes the task or gains that authority exactly when it turns the switch on. |
| `TaskRuns.SwitchIsNotGuarded` | src/main/libs/longTermTaskAgentTools.ts:336-339 | After that it can accept whatever is in progress. |
| `TaskEffects.GrantedIff` | src/main/longTermTaskStore.ts:625-1500 | Every call succeeds exactly under a stated condition on the task before it: stage, statuses, dependencies, switch, arguments, and for edits and moves the plain ordinals and dependencies. |
| `TaskEffects.RefusalCodes` | src/main/longTermTaskStore.ts:625-1500 | Which refusals are not-found, forbidden or a violated constraint; all others are validation errors. |
| `TaskEffects.StageChanges` | src/main/longTermTaskStore.ts:625-722 | Exactly which granted calls make a task active, paused, cancelled and done; none makes it defining. |
| `TaskEffects.PinChanges` | src/main/longTermTaskStore.ts:982-1000 | The focus becomes a sub-project exactly by a granted begin of it, and is lost exactly when the sub-project in focus is accepted or skipped or the task is completed. |
| `TaskEffects.BegunIsShown` | src/main/longTermTaskStore.ts:971-1000 | After a granted begin in a valid task the card shows what was begun. |
| `TaskEffects.SwitchChanges` | src/main/longTermTaskStore.ts:726-760 | The acceptance switch changes by task updates only, to the value they give. |
| `TaskEffects.RowsStay` | src/main/longTermTaskStore.ts:826-864 | No sub-project disappears; a granted addition adds one empty pending row, nothing else adds any. |
| `TaskEffects.StatusChanges` | src/main/longTermTaskStore.ts:971-1225 | For each status exactly which granted calls bring a sub-project into it; none makes it pending or rejected. |
| `TaskEffects.WaitColumns` | src/main/longTermTaskStore.ts:1005-1225 | Who writes and who empties evidence, wait note and wait time, and what is written. |
| `TaskEffects.PlanColumns` | src/main/longTermTaskStore.ts:872-944 | Text and dependencies change by edits only and ordinals by edits and moves only, and to what. |
| `TaskEffects.MoveSwapsNeighbours` | src/main/longTermTaskStore.ts:1468-1500 | A granted move turns round the order of the sub-project and the one next to it, on the asked side, and of no other pair. |
| `TaskEffects.LinkedKeepsPlace` | src/main/longTermTaskStore.ts:908-924 | A sub-project that has a dependency or is one keeps its ordinal in every call. |
| `TaskCreation.CreatedValidIff` | src/main/longTermTaskStore.ts:579-619 | For all accepted drafts: the created graph has a cycle, and the created task is not valid, exactly when the drafts refer to each other in a circle, said on the draft indices alone. |
| `TaskCreation.CreatedInOrder` | src/main/longTermTaskStore.ts:591-619 | Whatever the references, ordinals are unique, dependencies are siblings and everything is pending. |
| `TaskCreation.CreatedExactly` | src/main/longTermTaskStore.ts:591-619 | Stage, switch and focus of a created task, and every column of its rows: numbered in draft order, pending, reference k of a draft leading to the row with that number. |
| `TaskCreation.RefCycleNeverBegins` | src/main/longTermTaskStore.ts:579-590 | No member of such a circle ever begins in a run that does not redefine the dependencies of one of its members. |
| `TaskCreation.CreatedFinishableIff` | src/main/longTermTaskStore.ts:570-1136 | A created task can have all its sub-projects accepted without redefining dependencies exactly when its drafts have no such circle. |
| `TaskProgress.RunStaysStuck` | src/main/longTermTaskStore.ts:971-983 | Sub-projects none of which has begun and each of which is skipped, rejected or waiting for another of them stay so in every run that does not redefine their dependencies. |
| `TaskProgress.AcceptableIff` | src/main/longTermTaskStore.ts:971-1188 | In an active valid plan with met dependencies a sub-project can be accepted exactly when it depends, directly or not, on nothing skipped or rejected: then by begin, unblock and accept calls alone, otherwise by no run that leaves the dependencies concerned alone. |
| `TaskProgress.NeverAccepted` | src/main/longTermTaskStore.ts:1146-1188 | So skipping blocks for good what depends on it, until that is redefined. |
| `TaskProgress.FinishableIff` | src/main/longTermTaskStore.ts:971-1136 | An active valid plan with met dependencies can be brought to done by begin, unblock and accept calls exactly when something is open and nothing open depends, directly or not, on anything skipped or rejected. |
| `TaskProgress.FinishByDriving` | src/main/longTermTaskStore.ts:971-1136 | Such a run is constructed: it accepts everything open, changes no other status and ends the task. |
| `TaskProgress.ActiveWithNothingOpen` | src/main/longTermTaskStore.ts:1117-1123 | Accepting the last open sub-project while paused and then activating gives an active task with nothing open, which no such run ends. |
| `TaskFocus.FocusMeans` | src/main/longTermTaskStore.ts:196-210 | The meaning of the derived focus for rows in any order. |
| `TaskFocus.FocusIsFree` | src/main/longTermTaskStore.ts:196-210 | Nothing pinned, nothing skipped, something open: a valid task shows its lowest-ordinal sub-project whose dependencies are all accepted, never the blocked fallback. |
| `TaskFocus.FallbackAvoidedIff` | src/main/longTermTaskStore.ts:209 | Under met dependencies the fallback is avoided exactly when some open sub-project depends on nothing skipped. |
| `TaskFocus.PinDecides` | src/main/longTermTaskStore.ts:204-207 | A set pin of a valid task is what the card shows. |
| `TaskDetours.WaitThenUnblock` | src/main/longTermTaskStore.ts:1005-1225 | Parking and unblocking a sub-project in progress restores everything but its wait note and time, which end up empty: the task is restored exactly when they were empty. In between the owner can decide on it exactly when it waits for the owner, and it can be proposed exactly when not. |
| `TaskDetours.ProposeThenReject` | src/main/longTermTaskStore.ts:1069-1206 | A rejected proposal restores status and structure but leaves its evidence and its note on the row and empties the wait time: the task is restored exactly when the row held these before, and the note is never empty. |
| `TaskDetours.MoveThereAndBack` | src/main/longTermTaskStore.ts:1468-1500 | A move is undone exactly by the opposite move. |
| `KnowledgeIndex.StepRefines` | src/main/knowledgeBaseIndexStore.ts:105-170 | Each call keeps the three tables consistent (full-text rows with the chunk rows' rowids and token text, exact chunk counts, no orphans, one row per path and ord) and changes the content exactly as the simple map from path to document and chunks does. |
| `KnowledgeIndex.RunRefines` | src/main/knowledgeBaseIndexStore.ts:105-170 | So does every run. |
| `KnowledgeIndex.LastWriteIsRead` | src/main/knowledgeBaseIndexStore.ts:105-170 | After any run a document reads as its last successful replacement wrote it, with the fingerprint of the last refresh since, and is absent exactly if it was removed or all was cleared after that. |
| `KnowledgeIndex.OthersUntouched` | src/main/knowledgeBaseIndexStore.ts:105-170 | Calls on other documents leave a document as it was. |
| `KnowledgeIndex.InsertAllMeans` | src/main/knowledgeBaseIndexStore.ts:129-141 | The insertion loop succeeds exactly when the ords are distinct, and then adds exactly the listed chunks; no rowid it reuses meets an old full-text row. |
| `KnowledgeIndex.SearchHitsAreCurrent` | src/main/knowledgeBaseIndexStore.ts:187-207 | Fetching the rowids of a full-text search gives one chunk per rowid, in order, of a present document, with the token text that was searched. |
| `KnowledgeIndex.EveryChunkIsSearchable` | src/main/knowledgeBaseIndexStore.ts:114-143 | Every chunk of every document is found by its token text. |
| `KnowledgeIndex.FetchedInParts` | src/main/knowledgeBaseIndexStore.ts:187-207 | Fetching two lists of rowids one after the other is fetching them together. |
| `KnowledgeIndex.FetchedOne` | src/main/knowledgeBaseIndexStore.ts:187-207 | A single rowid gives its row, or nothing when it has none. |
| `KnowledgeIndex.StepKeepsRowIff` | src/main/knowledgeBaseIndexStore.ts:114-170 | After a call a rowid names the same chunk exactly when the call is not a clearing, a removal of its document or a successful replacement of it, or when that replacement has the same chunk at the place that gets this rowid again. |
| `KnowledgeIndex.InsertsConsecutively` | src/main/knowledgeBaseIndexStore.ts:120-139 | Insertion numbers the chunks of a document consecutively in list order, from one more than the greatest rowid in use. |
| `KnowledgeIndex.RunKeepsRow` | src/main/knowledgeBaseIndexStore.ts:114-170 | Through any run that does not clear the index or remove or successfully replace its document, a rowid keeps its chunk. |
| `KnowledgeIndex.RowidComesBack` | src/main/knowledgeBaseIndexStore.ts:129-141 | A rowid kept across a removal can name another document's chunk. |
| `KnowledgeIndex.TotalIsExact` | src/main/knowledgeBaseIndexStore.ts:172-176 | The number of chunk rows is the sum of the stored chunk counts. |
| `KnowledgeIndex.Index.ReplaceDoc` | src/main/knowledgeBaseIndexStore.ts:74-143 | The transaction: succeeds exactly for distinct ords; otherwise all three tables are as before. |
| `KnowledgeIndex.Index.InsertChunk` | src/main/knowledgeBaseIndexStore.ts:130-140 | One chunk row at the next rowid and its full-text row, or a constraint violation. |
| `KnowledgeIndex.Index.DeleteDocChunks` | src/main/knowledgeBaseIndexStore.ts:145-153 | Removes the document's rows from both tables. |
| `KnowledgeIndex.Index.RemoveDoc` | src/main/knowledgeBaseIndexStore.ts:155-160 | Removes the document and its chunks and nothing else. |
| `KnowledgeIndex.Index.ClearAll` | src/main/knowledgeBaseIndexStore.ts:162-170 | Leaves an empty, consistent index. |
| `KnowledgeIndex.Index.TouchDoc` | src/main/knowledgeBaseIndexStore.ts:105-112 | Refreshes the fingerprint of a present document only. |
| `KnowledgeIndex.Index.Counts` | src/main/knowledgeBaseIndexStore.ts:172-176 | The document count, and the sum of the stored chunk counts. |
| `KnowledgeIndex.Index.GetChunksByRowids` | src/main/knowledgeBaseIndexStore.ts:187-207 | The rows that still exist, in the order asked for. |
| `PairSelector.KeyNamesPair` | METAAPPs/motion-video-arena/app.js:204-207 | For ids without a bar the key is the same for two pairs exactly when they are the same unordered pair. |
| `PairSelector.UsableMeans` | METAAPPs/motion-video-arena/app.js:221-224 | The pool is exactly the candidates whose ok is not false, in order and as often as given. |
| `PairSelector.PickMeans` | METAAPPs/motion-video-arena/app.js:221-264 | A pick is an unseen pair of usable candidates with different videos, of least exposure and then of least key among all such pairs; null exactly when every such pair was seen. |
| `PairSelector.NeverShownAgain` | METAAPPs/motion-video-arena/app.js:249-264 | No pair is picked twice, even when the pool changes between picks. |
| `PairSelector.EveryPairExactlyOnce` | METAAPPs/motion-video-arena/app.js:216-275 | On a fixed list whose usable candidates have distinct ids every unseen pair of usable candidates with different videos is shown by exactly one of the first N picks, N being the number of such pairs. |
| `PairSelector.PicksThenNull` | METAAPPs/motion-video-arena/app.js:258-264 | Picks 0 to N - 1 show a pair and all later ones null. |
| `PairSelector.BalancedFromStart` | METAAPPs/motion-video-arena/app.js:249-255 | In every run from the start the shown counts add up to twice the number of seen pairs. |
| `PairSelector.CountsAreAppearances` | METAAPPs/motion-video-arena/app.js:249-255 | The shown count of each candidate is exactly how often it appeared in a new pair. |
| `PairSelector.PickRegisters` | METAAPPs/motion-video-arena/app.js:225-229 | After a pick exactly the usable candidates have been added to those with a count. |
| `PairSelector.Selector.UnseenPairs` | METAAPPs/motion-video-arena/app.js:221-247 | Registers the pool and lists the offers of the two nested loops in order of exposure and key. |
| `PairSelector.Selector.MarkShown` | METAAPPs/motion-video-arena/app.js:249-255 | Marks an unseen pair and counts both candidates; a seen one changes nothing. |
| `PairSelector.Selector.Pick` | METAAPPs/motion-video-arena/app.js:258-264 | Shows and marks the best offer; the random source only decides which candidate goes left. |
| `Submission.Queue.AddItem` | METAAPPs/motion-video-arena/app.js:285-291 | Appends below the limit of 28, refuses at it. |
| `Submission.Queue.RemoveItemAt` | METAAPPs/motion-video-arena/app.js:292-296 | Removes one item, refuses a bad index. |
| `Submission.Queue.RemoveRange` | METAAPPs/motion-video-arena/app.js:297-302 | Keeps the items whose index is not listed. |
| `Submission.WithoutKeeps` | METAAPPs/motion-video-arena/app.js:297-302 | Exactly the items at the other indices are kept, in order. |
| `Submission.Controller.Begin` | METAAPPs/motion-video-arena/app.js:480-488 | Refused while busy, without bridge, with an empty queue or an invalid payload; otherwise the write takes a snapshot. |
| `Submission.Controller.Finish` | METAAPPs/motion-video-arena/app.js:506-541 | A confirmed write clears by index, any other outcome clears nothing, and the controller is free again. |
| `Submission.NextConservesIff` | METAAPPs/motion-video-arena/app.js:506-541 | An event loses or doubles an item in exactly one case: a confirmation clearing other items than those it confirmed. |
| `Submission.RunConserves` | METAAPPs/motion-video-arena/app.js:279-304 | In every interleaving in which no removal hits the write in flight every item added is exactly once queued, removed or confirmed. |
| `Submission.SettledQueue` | METAAPPs/motion-video-arena/app.js:506-541 | A confirmed write takes exactly its batch off the front, any other outcome nothing; what was added meanwhile stays in order. |
| `Submission.FlightIsQueueAtSubmit` | METAAPPs/motion-video-arena/app.js:480-488 | In every run a write is in flight exactly while one that was begun is unsettled, and it carries the whole queue as it stood then. |
| `Submission.BatchIsQueueAtSubmit` | METAAPPs/motion-video-arena/app.js:480-508 | Each confirmed batch is exactly the queue as it stood at its submit, and only confirmations of an open write add one. |
| `Submission.ConfirmedLeavesLater` | METAAPPs/motion-video-arena/app.js:480-541 | In runs that spare the write in flight a confirmation leaves exactly what was added since the submit and not removed; nothing, when it follows at once. |
| `Submission.FromStart` | METAAPPs/motion-video-arena/app.js:279-304 | From the empty queue: one write at most and the limit in every run, and nothing lost or doubled in every run that spares the write in flight. |
| `Submission.RunHasOneWrite` | METAAPPs/motion-video-arena/app.js:480-541 | At most one write is outstanding and the queue never exceeds its limit. |
| `Submission.RemovalInFlightLosesItem` | METAAPPs/motion-video-arena/app.js:1000-1007 | The remove button in flight can make an item vanish: a run of five events that loses one. |
| `Deliveries.RunTallies` | src/main/crossSessionDeliveryStore.ts:158-232 | After every run the phase follows from what has happened: completed exactly after one effective completion report, cancelled exactly after a cancellation, failed exactly after a failure beyond the backoff; the attempts are those begun, that is the failures plus the restarts that caught it plus the attempt under way, never more than backoff length + 1 + those restarts. |
| `Deliveries.FailedAfterExactly` | src/main/crossSessionDeliveryStore.ts:181-193 | Without restarts failed means exactly backoff length + 1 failures, and with that many failures the delivery is failed or cancelled. |
| `Deliveries.NeverDueAgain` | src/main/crossSessionDeliveryStore.ts:170-203 | What was completed, cancelled or failed for good at some point of a run is due at no later time. |
| `Deliveries.FirstEnqueueDecides` | src/main/crossSessionDeliveryStore.ts:119-140 | A delivery exists exactly when its id was enqueued, and the first enqueue decides its content and creation time for ever. |
| `Deliveries.EnqueuedIsDue` | src/main/crossSessionDeliveryStore.ts:133-137 | A new delivery is pending and due at once, with no attempt made. |
| `Deliveries.FailingAttempts` | src/main/crossSessionDeliveryStore.ts:158-193 | After the k-th failure the delivery is due exactly from the end of the k-th backoff step on; the failure after the last step ends it for good. |
| `Deliveries.RunKeepsFinal` | src/main/crossSessionDeliveryStore.ts:119-210 | A completed or cancelled delivery stays so and never runs again, a failed one can only be cancelled, and no delivery changes its content or disappears. |
| `Deliveries.NextPendingIsDueFirst` | src/main/crossSessionDeliveryStore.ts:234-250 | If the delivery nextPending names is not due, none is. |
| `Deliveries.DeliveryStore.EnqueueDelivery` | src/main/crossSessionDeliveryStore.ts:119-140 | A repeated id returns the stored delivery unchanged, and throws exactly when the content differs. |
| `Deliveries.DeliveryStore.Start` | src/main/crossSessionDeliveryStore.ts:158-168 | Only a pending delivery starts; attempts go up by one. |
| `Deliveries.DeliveryStore.Complete` | src/main/crossSessionDeliveryStore.ts:170-179 | Only a running delivery completes. |
| `Deliveries.DeliveryStore.AttemptFailed` | src/main/crossSessionDeliveryStore.ts:181-193 | Failed or pending again with its backoff; the list is never read out of range. |
| `Deliveries.DeliveryStore.Cancel` | src/main/crossSessionDeliveryStore.ts:195-203 | Everything but a completed delivery can be cancelled. |
| `Deliveries.DeliveryStore.DeferTo` | src/main/crossSessionDeliveryStore.ts:212-218 | A waiting delivery is due exactly from the given time on; others are untouched. |
| `Deliveries.DeliveryStore.CancelAllFor` | src/main/crossSessionDeliveryStore.ts:225-232 | Cancels exactly the active deliveries of the target and counts them. |
| `Deliveries.DeliveryStore.RecoverAfterRestart` | src/main/crossSessionDeliveryStore.ts:260-272 | Nothing is running afterwards, what was running is due at once with its attempts kept, and the targets with active deliveries are named. |
| `Deliveries.DeliveryStore.NextDue` | src/main/crossSessionDeliveryStore.ts:234-241 | The oldest due delivery of the target, by creation time and id. |
| `Deliveries.DeliveryStore.NextPending` | src/main/crossSessionDeliveryStore.ts:243-250 | The waiting delivery with the earliest next attempt. |
| `Transfers.SendFile` | sandbox/agent-runner/index.js:1721-1757 | Skips files over the limit, sends small ones whole, and cuts the others into 2 to 200 chunks followed by the completion message. |
| `Transfers.PieceSizes` | sandbox/agent-runner/index.js:1749-1752 | Every chunk has between 1 and 512 * 1024 bytes and starts where the previous one ended. |
| `Transfers.SizesAddUp` | sandbox/agent-runner/index.js:1745-1750 | The chunk sizes add up to the file size. |
| `Transfers.JoinedPieces` | sandbox/agent-runner/index.js:1902-1911 | Joining the chunks in index order gives the file back. |
| `Transfers.OnlyTheFileIsWritten` | sandbox/agent-runner/index.js:1849-1923 | Whatever the order, duplication, loss and expiry of its chunks and whatever other transfers send, only the file's content is ever written for a transfer. |
| `Transfers.NothingWhileMissing` | sandbox/agent-runner/index.js:1871-1873 | While an index is missing nothing is written for the transfer and exactly the chunks that arrived are stored. |
| `Transfers.LastChunkWrites` | sandbox/agent-runner/index.js:1871-1873 | The chunk missing last completes the transfer with exactly one write, however the others came. |
| `Transfers.AllChunksWrite` | sandbox/agent-runner/index.js:1849-1874 | When every chunk arrives and the transfer does not expire, the file is written at least once, whatever was stored before. |
| `Transfers.WritesCountParts` | sandbox/agent-runner/index.js:1849-1874 | However chunks repeat, without expiry the file is written k times or more exactly when the messages contain k successive parts that each hold every chunk. |
| `Transfers.SentFileArrives` | src/main/libs/coworkVmRunner.ts:655-685 | Received in the order in which pushFile sends them, the messages make exactly one write of the file. |
| `Transfers.CompleteDoesNothing` | sandbox/agent-runner/index.js:1876-1883 | Whatever messages came before, honest or not, a completion message never assembles anything; and nothing is kept or written without id, path and base. |
| `Transfers.FirstHeaderLastChunks` | sandbox/agent-runner/index.js:1859-1869 | While a transfer is under way, honest or not, path, base and total are those of its first message and it holds exactly the last chunk that came with each index. |
| `Transfers.PushReceiver.HandleChunk` | sandbox/agent-runner/index.js:1849-1874 | Stores the chunk under its transfer, and assembles when the number of chunks equals the total. |
| `Transfers.PushReceiver.HandleComplete` | sandbox/agent-runner/index.js:1876-1892 | Assembles a transfer that is complete. |
| `Transfers.PushReceiver.DropIncomplete` | sandbox/agent-runner/index.js:1886-1891 | The timer drops the transfer. |
| `Transfers.PushReceiver.Assemble` | sandbox/agent-runner/index.js:1894-1923 | Writes the chunks in index order, or nothing when one is missing; the transfer is forgotten either way. |

## Left out

- Which numbers up to the true bound for twelve bases are decided correctly: a published computation. The proofs say what follows without it.
- `is_square`: it rests on a floating-point square root, so the non-square half of the powerful-pair verdict is not modelled.
- The other fields of a witness extraction, such as provenance and quoted text: string presence checks.
- JSON parsing, booleans passing as integers and non-ASCII digits: inputs are typed, digits are ASCII.
- Node fields, rubrics, placeholders, the weight sum and all message strings of the draft validator: one-branch checks.
- `scripts/metatask-v13-pilot/validate-pilot-drafts.py`: repeats the same graph code.
- Task tables of several tasks at once: the model is one task; ids of different tasks never meet in a call.
- The journal, sessions, contents of the title and other text columns, timestamps and board columns of the task store: no modelled decision reads them.
- Freshness of generated ids: a clash is the outcome Thrown of `AddSubtask`; ids of one creation are assumed distinct.
- A stored status of rejected: the store reads it but no method writes it, so runs only keep it.
- `inTransaction` as a higher-order function: each transactional method saves and restores the tables itself, and failures other than violated constraints do not occur.
- Opening an existing index with a different full-text setting, rowids beyond the largest integer, ranking and substring search.
- `remainingCount` and a pool with repeated root ids: the exactly-once theorem is for pools with distinct ids.
- The arena's payload check, page routing, player and host detection; a write reported as unknown may still have been broadcast.
- Message attachment, error texts, the other time stamps and the reliability snapshot of deliveries.
- File-system errors, symlinks and path checks in transfers, base64 (taken as the identity), and the single-message branch beyond its condition.
