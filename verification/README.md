# A verified model of the lead-research core

The repository turns business rules into criteria, researches companies against them, merges and scores what it finds,
and publishes results under versioned tasks and fenced leases. This project models the parts of it that carry real
state, arithmetic or meaning, and proves what each of them is for. `dafny verify dfyconfig.toml` checks everything.

One module stands for one component:

| module | component |
|---|---|
| `Values` | the dynamic values of rules and enterprises, with Python's equality, ordering and containment |
| `Rules` | pairwise conflict detection and the suppression of competing soft rules |
| `Compiler` | hard rules compiled to one bound per side and deduplicated exact constraints |
| `Evaluator` | the three-valued evaluator of compiled constraints |
| `Satisfiability` | why a pairwise check is enough on numbers, and what the criteria validator can still find |
| `Ranges` | the same check over every kind of value: texts, lists, mixtures |
| `Leases`, `PostgresLeases` | the in-memory and the Postgres execution coordinator |
| `Patches`, `Tasks` | patch algebra, versioned tasks, the mutation service |
| `Snapshots`, `Promotion` | execution snapshots, and leases, versions and snapshots meeting in the promotion node |
| `PostgresPromotion` | the promotion node over the Postgres coordinator, where check and promotion are separate steps |
| `UnionFind`, `Resolution` | entity resolution: blocking, matching, union-find with path halving, clustering |
| `Pushdown` | hard constraints pushed to a provider, and the filter after it |
| `Discovery` | the merge of discovery batches through three dictionaries |
| `RateLimit` | the in-memory token bucket and the Redis script |
| `Scoring` | re-weighting, rounding, and the ranked lead set |
| `Chunker` | splitting long text into bounded pieces |
| `Basics`, `Sorting` | shared vocabulary: options, ids, combinations, Python's `sorted` for any order |

Objects the source updates in place are classes whose methods are proved equal to a function from the old state to the
new one (`ClaimStep`, `ApplyStep`, `PromoteStep`, `Decided`, `Merged`, ...); the safety results are then lemmas about
all histories of those functions. What each of them answers is also stated in its caller's terms, apart from the
function: which claim is granted, which rule is suppressed, which enterprise lists whom, which lead comes first. Loops
keep their loops. Exceptions are results (`None`, `Failure`, `AlreadyClaimed`).

How values are read:

- Identifiers, and texts that are only compared (names, urls, addresses), are numbers. Canonical uuid strings sort as
  the numbers they spell. Composite string keys such as `workspace:session` are pairs.
- Floats are reals; `float(text)` is a parameter. Rounding to a number of digits is modelled, half to even.
- Time, fresh uuids, the outcome of patch validation and the later rules of the entity matcher are parameters.
- `sorted` is modelled for an arbitrary order, so the results hold for whatever order fields and keys have.

Results that differ from what one may expect of the code. Each has a lemma that shows an input, and a theorem that says
for all inputs when the expectation holds:

- Compiling keeps the outcome for every order of the rules exactly when not both a comparison raises and a rule fails;
  then the order decides between NO_MATCH and the exception (`CompilePreservesMeaningIff`, `OrderDecides`).
- Two rules with one source key are filed as duplicates and never compared, although the comment in `resolve` says the
  compiler coalesces duplicates. Range rules whose values are not both numbers are compared through `float()` or not at
  all, while the evaluator compares texts as texts. Without a blocking report one value passes all hard range rules
  exactly when each rule can be met and the pairs the check does not truly compare can be
  (`Ranges.NoReportMeansSatisfiable`, `SharedKeyHidesContradiction`, `TextBoundsGoUnseen`). List bounds, which get
  through only between duplicates, count by whole groups (`ListBoundsNeedTheGroup`). The range check also reports an
  equality strictly inside an open bound (`ReportedIff`).
- `finish` in memory pops the thread's active entry without checking whose it is. Whatever follows it in time, no two
  leases of a thread become live together exactly when the entry was not another active run's (`FinishIsSafeIff`,
  `ForeignPopHappens`). The token guarantee needs no such condition.
- A Postgres finish may leave its run active. The unique index refuses that beside another active row, so no history
  has two active rows on a thread (`HistoryKeepsOneActive`). Where the index lets it pass, the row is active without a
  lease, and a heartbeat revives its token however old it is (`ReactivatingFinishRevivesToken`). Active rows keep a
  lease and the newest token exactly when no finish does that (`TxKeepsInvIff`, `HistoryKeepsInvIff`); the chat route
  only finishes with COMPLETED, FAILED or WAITING_INTERRUPT.
- Over Postgres the fence check and the promotion are separate steps (app/agent/nodes/reexecution.py:294-299). A worker
  overtaken by a later claim still publishes exactly when its check came first and said yes, its scope is not NONE and
  it worked on the head version (`PostgresPromotion.OvertakenWorkerPublishesIff`, `OvertakenWorkerPublishes`). The
  current version never goes back all the same (`CheckedVersionNeverDecreases`), and in memory an overtaken worker
  never publishes (`Promotion.OvertakenWorkerCannotPublish`).
- An office filter that failed on the address alone can be undone by locations that arrive later
  (`OfficeFailureStableIff`, `OfficeFailureUndone`), so a provider may only drop such a row when its locations are
  known. Dropping rows can also hide an exception, exactly when no kept row raises one (`PushdownLosesNothing`,
  `DroppedRowHidesException`).
- A mutation whose message was already applied directly announces a version that is never made
  (`AnnouncedVersionMadeIff`, `AnnouncedVersionMissing`). Within the program `apply_patch` under a message is followed
  by `save_mutation` (app/mutation/service.py:130-131, app/agent/subgraphs/mutation/nodes.py:188-191), so this takes a
  direct call of the repository, or a failure between the two.
- Candidates without a credit code can bridge two codes into one enterprise; without such a bridge no enterprise mixes
  codes (`MixedCodesIff`, `CodelessCandidateBridgesCodes`).
- The profile check rounds the total weight to six digits, so an accepted profile can be re-weighted far past 100
  (`RoundedTotalOverflows`), and more than 102 components can round past it. For every accepted total and number of
  scored components, all such profiles stay in bounds exactly when the total is at most 100 and the components at most
  102, or nothing is scored (`AcceptedBoundIff`; `BoundHoldsIff` for all totals up to 100 at once).
- A negative chunk overlap loses text from every paragraph that has to be cut (`WindowsLosslessIff`,
  `NegativeOverlapLosesText`).

## Model

| member | source | states |
|---|---|---|
| `Rules.Detect` | app/rules/conflicts.py:21-48 | the pair loop reports exactly the specified conflicts in pair order, or raises where the first bad number is parsed |
| `Rules.DetectedExact` | app/rules/conflicts.py:23-48 | a conflict is in the report if and only if some pair of rules contributes it |
| `Rules.Resolve` | app/rules/conflicts.py:50-79 | the loop computes the specified suppression and the (included, suppressed) split |
| `Rules.ResolvePartitions` | app/rules/conflicts.py:73-79 | included and suppressed together are the input as a multiset, only the status rewritten |
| `Rules.PairSuppression` | app/rules/conflicts.py:52-72 | resolving a pair's conflict suppresses only a soft member of that pair, and does suppress one for every soft competition or contradiction |
| `Rules.OnlySoftSuppressed` | app/rules/conflicts.py:51-72 | resolving a detected report never raises and suppresses soft rules only |
| `Rules.HardRulesSurvive` | app/rules/conflicts.py:50-79 | no hard rule is ever suppressed |
| `Rules.ResolveSettles` | app/rules/conflicts.py:21-79 | detecting again on the included rules succeeds and reports no soft conflict and no contradiction with a soft member |
| `Rules.ReportedAs` | app/rules/conflicts.py:23-48 | what a pair is reported as, kind by kind: duplicate, contradiction (between official and user when both hard), narrowing ranges, soft competition; blocking exactly for contradictory hard rules |
| `Rules.SuppressedIff` | app/rules/conflicts.py:52-72 | exactly the soft rules that lose to a rule they contradict or compete with are suppressed: to one that is not soft, to the user's, or to one of no less weight |
| `Rules.OneLoses` | app/rules/conflicts.py:52-72 | of two rules at odds, one of them soft, exactly one loses, and never are both included |
| `Rules.ReportInPairOrder` | app/rules/conflicts.py:23-48 | the report follows the order of the pairs |
| `Basics.CombinationsInOrder` | app/rules/conflicts.py:23-23 | pairs come in index order, every two elements once |
| `Rules.ResolvingOne` | app/rules/conflicts.py:52-72 | whatever the conflicts given: which suppress nothing, and exactly when resolving one raises |
| `Compiler.ContradictionsCannotBothPass` | app/rules/conflicts.py:30-36 | no enterprise passes both rules of a pair reported for different values, or for the same values included and excluded |
| `Satisfiability.ReportedIff` | app/rules/conflicts.py:37-43 | the range check reports a pair exactly when no real number meets both rules, or an equality lies strictly inside an open bound |
| `Satisfiability.PairwiseIsEnough` | app/rules/conflicts.py:37-43 | Helly on the line: interval rules that share a value two by two all share one |
| `Satisfiability.BlockingIff` | app/rules/conflicts.py:26-43 | a hard pair of numeric interval rules is reported as blocking exactly when the range check fails under different source keys |
| `Satisfiability.IntervalsSatisfiableIff` | app/rules/conflicts.py:21-48 | without a blocking report, one number meets all hard numeric range rules of a field if and only if the pairs hidden by a shared source key are compatible |
| `Ranges.NoReportMeansSatisfiable` | app/rules/conflicts.py:21-48 | over all values: without a blocking report, one value passes every hard range rule of a field if and only if each rule can be met, each pair not truly compared can be, and each group sharing a source key with a list bound can be |
| `Ranges.NoReportUnderOwnKeys` | app/rules/conflicts.py:21-48 | with distinct source keys and numeric values, no blocking report means jointly satisfiable |
| `Satisfiability.SharedKeyHidesContradiction` | app/rules/conflicts.py:26-28 | two contradictory hard rules with one source key, no blocking report |
| `Ranges.TextBoundsGoUnseen` | app/rules/conflicts.py:8-17 | three unmeetable pairs without a blocking report: text equality and number, texts that spell numbers, number and text |
| `Ranges.ListBoundDuplicates` | app/rules/conflicts.py:11-17 | where detection does not raise, a list bound shares source key or operator and value with every other hard range rule of its field |
| `Ranges.ListBoundsNeedTheGroup` | app/rules/conflicts.py:26-28 | three list bounds of one source key, meetable two by two and not together |
| `Ranges.TextsTogether` | app/criteria/evaluator.py:15-27 | text bounds that can be met two by two can be met together, by what passes the tightest of each side |
| `Satisfiability.CompiledPassesValidationIff` | app/criteria/validator.py:12-38 | criteria compiled from rules without a blocking report pass the validator's pairwise check of hard constraints if and only if the pairs exempted by a shared source key would |
| `Satisfiability.IncompatibleIff` | app/criteria/validator.py:12-23 | which pairs the validator refuses: different values demanded, the same values included and excluded, bounds that no number meets |
| `Satisfiability.IncompatibleCannotBothPass` | app/criteria/validator.py:12-23 | no enterprise with a number in the field passes both constraints of a refused pair |
| `Evaluator.Evaluate` | app/criteria/evaluator.py:31-43 | the loop with its unknown flag and early return computes the specified outcome |
| `Evaluator.EvaluatedMeaning` | app/criteria/evaluator.py:31-43 | while nothing raises, order is irrelevant: a failure gives NO_MATCH, else an unknown gives UNKNOWN, else MATCH |
| `Evaluator.OppositeOperators` | app/criteria/evaluator.py:15-27 | a known value meets exactly one of EQ and NE, IN and NOT_IN, EXISTS and NOT_EXISTS, unless the comparison raises, and then for both; it meets EXISTS |
| `Evaluator.OppositeBounds` | app/criteria/evaluator.py:15-27 | on numbers and on texts each bound is the opposite of the reverse one, and GTE with LTE is EQ |
| `Evaluator.InMeansMember` | app/criteria/evaluator.py:15-27 | IN asks for an equal item of a list or a part of a text, and raises otherwise |
| `Evaluator.ContainsMirrorsIn` | app/criteria/evaluator.py:15-27 | CONTAINS is IN with the sides exchanged |
| `Evaluator.IncludeExcludeContradict` | app/criteria/evaluator.py:15-27 | no value meets IN and NOT_IN against equal values |
| `Evaluator.EqualitiesContradict` | app/criteria/evaluator.py:15-27 | no value meets EQ against two different values |
| `Evaluator.UnknownStaysOpen` | app/criteria/evaluator.py:38-40 | an unknown value leaves every constraint open, EXISTS and NOT_EXISTS included |
| `Evaluator.MissingPasses` | app/criteria/evaluator.py:15-27 | compared directly, as preferences are, a missing value passes no bound, contains nothing, does not exist and equals only None |
| `Evaluator.OfficesAreLocations` | app/criteria/evaluator.py:35-37 | an office filter looks at the locations if there are any, else at the address, and stays open exactly while neither is known |
| `Values.NumbersCompareByValue` | app/criteria/evaluator.py:15-27 | numbers of all kinds, booleans included, compare by value, inside lists too, and equal nothing else |
| `Values.TextsByFirstDifference` | app/criteria/evaluator.py:18-21 | texts are ordered by their first difference, a beginning before the whole |
| `Values.ListsByFirstDifference` | app/criteria/evaluator.py:18-21 | lists are ordered by their first unequal items, a beginning before the whole |
| `Compiler.GroupByField` | app/criteria/compiler.py:24-26 | the dictionary holds each field's rules in order, its keys in order of first occurrence |
| `Compiler.CompileBounds` | app/criteria/compiler.py:30-39 | one constraint for the tightest lower and one for the tightest upper bound, when there are any |
| `Compiler.CompileHard` | app/criteria/compiler.py:23-46 | one constraint for every non-empty group, field by field in sorted order, lower bound, upper bound, then exact keys in order |
| `Compiler.EachConstraint` | app/criteria/compiler.py:13-46 | each compiled constraint is a rule's, the tightest of its group where that is one of bounds, and names exactly the rules of the group, in order |
| `Compiler.OneConstraintPerGroup` | app/criteria/compiler.py:23-46 | each group of rules has exactly one constraint |
| `Compiler.TightestIsFirst` | app/criteria/compiler.py:34-39 | of equally tight bounds the first one wins |
| `Compiler.CompiledInOrder` | app/criteria/compiler.py:28-45 | under any strict orders of fields and keys the constraints come field by field, bounds first, then the exact ones by key |
| `Compiler.TightestSpeaks` | app/criteria/compiler.py:34-39 | on every enterprise the tightest bound fails, is unknown or raises exactly when some bound on its side does |
| `Evaluator.RaiseDecides` | app/criteria/evaluator.py:31-43 | when nothing fails, a raising comparison makes the evaluation raise wherever it stands |
| `Compiler.CompilePreservesMeaning` | app/criteria/compiler.py:23-46 | while not both a comparison raises and a rule fails, compiled constraints and the rules in any order give the same outcome, the exception included |
| `Compiler.CompilePreservesMeaningIff` | app/criteria/compiler.py:23-46 | for every enterprise, all orders of the rules agree with the compiled constraints if and only if not both a comparison raises and a rule fails |
| `Compiler.OrderDecides` | app/criteria/compiler.py:28-45 | two rules and an enterprise with a text in a numeric field: NO_MATCH as listed, an exception as compiled |
| `Compiler.ProvenanceKept` | app/criteria/compiler.py:13-21 | every rule's id survives in a constraint on its field, and every source id is a rule's |
| `Compiler.ResolveKeepsHardRules` | app/criteria/compiler.py:48-50 | resolving conflicts first leaves the hard rules that are compiled unchanged but for the mark INCLUDED |
| `Leases.InMemoryCoordinator.Claim` | app/runtime/leases.py:25-92 | state and result are those of the claim step: replay, rejection, expiry, reclaim or a new run |
| `Leases.InMemoryCoordinator.Heartbeat` | app/runtime/leases.py:94-103 | renews exactly the lease whose token and status still hold |
| `Leases.InMemoryCoordinator.Promotable` | app/runtime/leases.py:105-120 | answers whether the run is its thread's active one under this token |
| `Leases.InMemoryCoordinator.Finish` | app/runtime/leases.py:122-149 | rewrites the run and pops the thread's entry, or changes nothing |
| `Leases.FinishedRequestIsReplayed` | app/runtime/leases.py:36-41 | over every history, a request whose run was finished with a response is answered with that run and response up to the run's next accepted finish, and claiming it changes nothing |
| `Leases.GrantedIff` | app/runtime/leases.py:36-92 | a request without a response is granted if and only if its thread is free and it is new or its run is on this thread and may be taken up again; else it is refused |
| `Leases.GrantedRun` | app/runtime/leases.py:57-92 | the granted run: the request's own, running, the requester's until the seconds asked for have passed, nothing left of an earlier try |
| `Leases.ClaimTouches` | app/runtime/leases.py:43-53 | a claim leaves all other requests' runs alone, but marks an active one of its thread recoverable whose lease ran out |
| `Leases.HeartbeatProlongs` | app/runtime/leases.py:94-103 | accepted exactly for an active run under its token; prolongs that lease and nothing else |
| `Leases.FinishEnds` | app/runtime/leases.py:122-149 | accepted exactly under the run's token; ends the lease and the right to promote, records what it was given, leaves all other runs alone |
| `Leases.RunIsFiled` | app/runtime/leases.py:25-149 | over every history each run is the one its request is filed under |
| `Leases.StepKeepsWellFormed` | app/runtime/leases.py:25-149 | every step keeps the tables consistent, never lowers a fence and never moves a run |
| `Leases.RunIsWellFormed` | app/runtime/leases.py:25-149 | so does every history |
| `Leases.GrantRaisesFence` | app/runtime/leases.py:54-92 | a granted claim hands out its thread's fence plus one and is promotable at once |
| `Leases.TokensIncrease` | app/runtime/leases.py:54-92 | over every history, later claims of a thread get strictly larger tokens |
| `Leases.PromotableIsNewest` | app/runtime/leases.py:105-111 | whoever may promote holds the largest token ever issued for the thread |
| `Leases.OnePromotable` | app/runtime/leases.py:105-111 | at most one run and token of a thread is promotable |
| `Leases.OvertakenNeverPromotes` | app/runtime/leases.py:25-149 | an overtaken token is never promotable again, whatever stale heartbeats and finishes arrive |
| `Leases.FinishKeepsExclusiveIff` | app/runtime/leases.py:122-149 | after an accepted finish every active run is still its thread's entry if and only if the finish popped no other active run's |
| `Leases.FinishIsSafeIff` | app/runtime/leases.py:25-149 | an accepted finish lets no two leases of a thread be live at any later time, over all disciplined continuations that follow it in time, if and only if it pops no other active run's entry, expired or not |
| `Leases.DisciplinedRunIsExclusive` | app/runtime/leases.py:25-149 | histories whose finishes meet that condition never have two active runs on a thread |
| `Leases.GrantMeansNoLiveLease` | app/runtime/leases.py:43-53 | in such histories a claim is granted only when no lease of the thread is unexpired |
| `Leases.ForeignPopAdmitsSecondLease` | app/runtime/leases.py:148-148 | after a foreign pop, any new request gets a second live lease |
| `Leases.ForeignPopHappens` | app/runtime/leases.py:25-149 | claim, claim after expiry, late finish: the foreign pop is reachable |
| `PostgresLeases.ClaimWrites` | app/runtime/leases.py:163-282 | a claim changes nothing, or puts a run under the next sequence value into its idle thread |
| `PostgresLeases.TxKeepsOneActive` | app/runtime/leases.py:163-353 | no transaction, whatever status it finishes with, leaves a thread with two active rows |
| `PostgresLeases.TxKeepsInvIff` | app/runtime/leases.py:163-353 | a transaction keeps every thread's one active row leased and under the thread's newest token if and only if it is no finish into an active status that the index lets pass |
| `PostgresLeases.HistoryKeepsOneActive` | migrations/versions/0008_phase8_production_runtime.py:57-63 | over every history a thread has at most one active row, the index refusing a finish into an active status beside another active row |
| `PostgresLeases.HistoryKeepsInvIff` | app/runtime/leases.py:163-353 | active rows are leased and newest at every point of a history if and only if no finish that the index lets pass leaves its run active |
| `PostgresLeases.IssueMeansNoLiveRow` | app/runtime/leases.py:200-226 | a claim is granted only when no lease of the thread is unexpired |
| `PostgresLeases.PromotableRowIsNewest` | app/runtime/leases.py:298-309 | whoever may promote holds the largest token issued for the thread |
| `PostgresLeases.ReactivatingFinishRevivesToken` | app/runtime/leases.py:311-353 | a finish into RUNNING is refused and changes nothing beside another active row; without one the old token is promotable after a heartbeat |
| `PostgresLeases.RowTokensIncrease` | app/runtime/leases.py:227-282 | tokens grow strictly from each granted claim to the next, over all threads |
| `PostgresLeases.OvertakenRowNeverPromotes` | app/runtime/leases.py:298-309 | once a later claim of the thread was granted, the check of the earlier token answers no at any time |
| `PostgresLeases.FinishedRequestIsReplayed` | app/runtime/leases.py:197-200 | over every history a finished request is answered with its row and response up to the next accepted finish, and refused on another thread |
| `PostgresLeases.IssuedIff` | app/runtime/leases.py:178-282 | a request without a response is granted if and only if no row of its thread holds a lease and it is new or its row is on this thread and may be taken up again; else it is refused |
| `PostgresLeases.IssuedRun` | app/runtime/leases.py:227-282 | the granted row, as in memory |
| `PostgresLeases.ClaimTouches` | app/runtime/leases.py:214-226 | a granted claim releases the thread's active row and touches no other request's row |
| `PostgresLeases.HeartbeatProlongs` | app/runtime/leases.py:284-296 | accepted exactly for an active row under its token; prolongs its lease alone |
| `PostgresLeases.FinishEnds` | app/runtime/leases.py:311-353 | refused by the index exactly when two active rows would be left; an accepted one ends the lease and records what it was given |
| `Patches.DropField` | app/mutation/preview.py:15-15 | the comprehension keeps the constraints on other fields, in order |
| `Patches.ApplyConstraints` | app/mutation/preview.py:13-18 | the rewriting loop keeps untouched constraints in place and appends each touched field's last write in patch order |
| `Patches.ApplyPatchPure` | app/mutation/preview.py:7-20 | the patched content: a scalar or field list the patch sets takes its value, one it does not set stays, and the constraints are rewritten |
| `Patches.LastWriterWins` | app/mutation/preview.py:13-18 | each field's constraint is its last operation's, gone if that removes it, untouched otherwise |
| `Patches.LastOperationDecides` | app/mutation/preview.py:13-18 | REMOVE and CLEAR take the field's constraint away, ADD and UPDATE put theirs in its place |
| `Patches.PatchKeepsUniqueFields` | app/mutation/preview.py:13-18 | at most one constraint per field stays so |
| `Patches.PatchIsIdempotent` | app/mutation/preview.py:7-20 | applying a patch twice is applying it once, list order included, repeated fields allowed |
| `Patches.TaskDiffEmptyIff` | app/mutation/preview.py:36-51 | the task diff is empty exactly when scalars and field lists are the same and each field's constraint is equal in Python's sense |
| `Patches.SplitChangesEmptyIff` | app/criteria/diff.py:10-26 | nothing added, removed or changed exactly when the constraint sets are equal |
| `Patches.NoneMeansNoEffect` | app/mutation/invalidation.py:25-26 | scope NONE implies the skipped version would have had the very same content, a 2 replaced by 2.0 included |
| `Patches.NoneIffNoEffect` | app/mutation/invalidation.py:25-26 | with at most one constraint per field, NONE if and only if the patch has no effect |
| `Patches.NoneAsksForNothing` | app/mutation/invalidation.py:25-26 | a patch classified NONE sets every scalar and list to what the task has, and each field's last operation asks for what is there |
| `Patches.NoneIffAsksForNothing` | app/mutation/invalidation.py:25-26 | with at most one constraint per field, NONE if and only if that is so |
| `Patches.HardAndSoftChanges` | app/mutation/preview.py:41-50 | which changes the preview calls hard and soft |
| `Patches.NumberKindsInDiffs` | app/mutation/preview.py:38-40 | a number rewritten as an equal one of another kind is not in the task diff and is in the criteria diff |
| `Patches.CriteriaKeysSnoc` | app/mutation/diff.py:14-22 | each constraint with a value adds one key, to the soft criteria if it is SOFT and else to the hard ones |
| `Tasks.TaskRepository.CreateTask` | app/repositories/mock_task_repository.py:38-57 | a new task at version 1 with its record, or the task an earlier message created |
| `Tasks.TaskRepository.UpdateTask` | app/repositories/mock_task_repository.py:85-101 | stores the head and records its version once |
| `Tasks.TaskRepository.ApplyPatch` | app/repositories/mock_task_repository.py:110-133 | replay, conflict, or one new version: the specified step |
| `Tasks.TaskRepository.SetStatus` | app/repositories/mock_task_repository.py:135-144 | rewrites stage and status without a version |
| `Tasks.MutationService.Mutate` | app/mutation/service.py:79-132 | replay, rejection, NONE short cut or a new version: the specified step |
| `Tasks.ApplyAppendsOrRejects` | app/repositories/mock_task_repository.py:110-133 | an accepted patch appends exactly one version, child of the old head, with the patched content, the mutation and the message; every other case leaves the store as it was |
| `Tasks.StepKeeps` | app/repositories/mock_task_repository.py:38-144 | every operation keeps versions chained and only adds to what is recorded |
| `Tasks.HistoryIsConsistent` | app/repositories/mock_task_repository.py:85-163 | over all histories versions are exactly 1..head with parent v-1, and the head shows the newest |
| `Tasks.HistoryExtends` | app/repositories/mock_task_repository.py:97-133 | recorded versions and first answers never change |
| `Tasks.ApplyReplay` | app/repositories/mock_task_repository.py:122-126 | replaying a message later changes nothing and answers with the head, shown at the first answer's version and content |
| `Tasks.MutateReplay` | app/mutation/service.py:88-91 | replaying a mutation's message changes nothing and returns the first mutation |
| `Tasks.StaleMutationRejected` | app/mutation/service.py:96-96 | a stale base version is refused and changes nothing |
| `Tasks.MutationRefusals` | app/mutation/service.py:88-97 | what a mutation under a new message is refused for, and that a refused one changes nothing |
| `Tasks.MutationMakesVersionIff` | app/mutation/service.py:114-132 | over every history, a mutation on the head under a new message makes a version if and only if its patch asks for something the task does not have |
| `Tasks.HistoryKeepsFieldsUnique` | app/mutation/preview.py:13-18 | over every history no task has two constraints on one field |
| `Tasks.CreateAnswers` | app/repositories/mock_task_repository.py:38-57 | a first creation makes the task at version 1 with its record and puts the session on it |
| `Tasks.CreateReplay` | app/repositories/mock_task_repository.py:40-43 | creating again under a message, whatever happened in between, changes nothing and answers with the head of the first task |
| `Tasks.SetStatusAnswers` | app/repositories/mock_task_repository.py:135-144 | changes stage and status alone, without a version, for a visible task |
| `Tasks.RecordedOnce` | app/repositories/mock_task_repository.py:97-101 | a version number is recorded once |
| `Tasks.MutationMakesAnnouncedVersion` | app/mutation/service.py:114-132 | an accepted mutation has no effect and no version, or appends the version it announces with the patched content |
| `Tasks.AnnouncedVersionMadeIff` | app/mutation/service.py:114-132 | the announced version is made if and only if the message was not applied directly before |
| `Tasks.AnnouncedVersionMissing` | app/mutation/service.py:114-132 | create, apply under a message by a direct repository call, mutate under the same message: version 3 announced, version 2 kept |
| `Snapshots.SnapshotRepository.Promote` | app/execution/repository.py:31-41 | state and answer are those of the promote step |
| `Snapshots.PromoteKeepsOneCurrent` | app/execution/repository.py:31-41 | one current snapshot per task; the previous one becomes reusable; another version changes no current entry |
| `Promotion.PromoteSnapshot` | app/agent/nodes/reexecution.py:209-284 | given the fence's answer, snapshots, plan status and outcome are as specified: missing task, reuse under scope NONE, rejection, stale version or activation |
| `Promotion.PromoteExecutionSnapshot` | app/agent/nodes/reexecution.py:286-299 | over the in-memory coordinator the node asks the fence of the run it is called for, and promotes with the answer |
| `Promotion.ActivatedIff` | app/agent/nodes/reexecution.py:258-284 | a promotion changes a current entry exactly when it reports an activated version |
| `Promotion.OutcomeIff` | app/agent/nodes/reexecution.py:209-284 | each outcome from what the caller sees: the task, the scope, the fence's answer, the versions |
| `Promotion.StoredAs` | app/agent/nodes/reexecution.py:244-270 | a rejected snapshot is kept aside as superseded, an activated one as current; of the others only the former current one changes |
| `Promotion.PlanCloses` | app/agent/nodes/reexecution.py:272-281 | closing a plan gives it its status and touches no other |
| `Promotion.RunIsSound` | app/agent/nodes/reexecution.py:209-299 | in every interleaving of claims, heartbeats, late finishes, mutations and promotions each task has at most one CURRENT snapshot, the one its entry names, of a version the task has reached |
| `Promotion.CurrentVersionNeverDecreases` | app/execution/repository.py:31-41 | a task's current version never goes back |
| `Promotion.BecomesCurrentOnlyFenced` | app/agent/nodes/reexecution.py:258-299 | a snapshot becomes current only at a promotion for the head version, under the largest token ever issued for the thread when the run has a lease |
| `Promotion.OvertakenWorkerCannotPublish` | app/agent/nodes/reexecution.py:286-299 | over the in-memory coordinator a worker overtaken by a later claim never changes what is current |
| `PostgresPromotion.PlayIsSound` | app/agent/nodes/reexecution.py:294-299 | with anything between check and promotion, snapshots and leases stay sound |
| `PostgresPromotion.CheckedVersionNeverDecreases` | app/execution/repository.py:31-41 | a task's current version never goes back, promotions of overtaken workers included |
| `PostgresPromotion.PublishesIff` | app/agent/nodes/reexecution.py:294-299 | a promotion changes a current entry if and only if its earlier check said yes, its scope is not NONE and its version is the head's at the promotion |
| `PostgresPromotion.OvertakenWorkerPublishesIff` | app/agent/nodes/reexecution.py:294-299 | a worker overtaken by a later claim changes a current entry if and only if its check came before that claim and said yes, its scope is not NONE and it worked on the head version |
| `PostgresPromotion.OvertakenWorkerPublishes` | app/agent/nodes/reexecution.py:294-299 | claim, new task, check, second claim after expiry, promotion: the first run's snapshot becomes current |
| `UnionFind.ConnectedIsSmallest` | app/entities/service.py:34-45 | connectedness by the decisions is an equivalence that contains them, and the smallest one |
| `UnionFind.Clusters.constructor` | app/entities/service.py:26-26 | every candidate starts as its own representative |
| `UnionFind.Clusters.Find` | app/entities/service.py:28-32 | terminates at the root; path halving changes no representative |
| `UnionFind.Clusters.Union` | app/entities/service.py:34-35 | the right class joins the left one, all others unchanged |
| `UnionFind.HalvingKeepsReps` | app/entities/service.py:30-30 | moving a node to its grandparent keeps an acyclic forest with the same roots |
| `UnionFind.ExactAfterUnion` | app/entities/service.py:34-45 | after each union, in any order, the classes are exactly the closure of the united pairs |
| `Resolution.BuildGroups` | app/entities/blocking.py:20-49 | one group for every set of at least two candidates that some key holds together, none twice, each with the reason of such a key |
| `Resolution.SharesKeyIff` | app/entities/blocking.py:24-35 | candidates share a block key exactly when name, domain, phone or provider group agree; the region key adds nothing |
| `Resolution.ComparedIff` | app/entities/blocking.py:39-49 | a pair is compared if and only if it shares a key, always the smaller id first: deduplication loses no pair |
| `Resolution.UniteAll` | app/entities/service.py:37-45 | the classes are exactly the closure of the SAME_ENTITY pairs among compared candidates |
| `Resolution.Gather` | app/entities/service.py:47-49 | clusters are the classes, members in input order, keys in the order of their first members |
| `Resolution.Resolve` | app/entities/service.py:23-59 | every candidate has exactly one enterprise, shared exactly by the candidates SAME_ENTITY decisions connect; enterprises come in the order of their first candidates |
| `Resolution.LinkedIff` | app/entities/service.py:37-45 | candidates are linked when they share a key and have equal codes or, if one lacks a code, the later rules say the same; linked candidates share an enterprise |
| `Resolution.EnterpriseMembers` | app/entities/service.py:54-54 | an enterprise lists a candidate if and only if the candidate is filed under it |
| `Resolution.EnterpriseListsInOrder` | app/entities/service.py:47-54 | its members are listed in input order, one entry for each |
| `Resolution.EnterpriseName` | app/entities/service.py:52-54 | name, code and region come from the first candidate with the longest name among those with a code, or among all if none has one |
| `Resolution.EnterpriseTypeIff` | app/entities/service.py:53-53 | a branch exactly when some candidate's name is a branch's, an office exactly when none is and some name is an office's |
| `Resolution.SameNeedsEqualCodes` | app/entities/matcher.py:28-33 | two coded candidates are called the same only when the codes agree |
| `Resolution.CodedClusterHasOneCode` | app/entities/service.py:51-57 | a cluster whose members all carry a code has exactly one, and its enterprise bears it |
| `Resolution.EnterpriseCode` | app/entities/service.py:52-54 | an enterprise has a code exactly when a member has one, and then a member's |
| `Resolution.MixedCodesIff` | app/entities/service.py:37-57 | some enterprise mixes two codes if and only if a walk of same-entity pairs joins two codes through candidates that all lack one |
| `Resolution.CodelessCandidateBridgesCodes` | app/entities/matcher.py:28-66 | such a walk under the matcher's rule for similar names and one domain |
| `Pushdown.PlanPushdown` | app/research/planner.py:77-93 | each field's pushed entry is its last supported constraint; unsupported constraints keep their order; enrichment fields are listed once |
| `Pushdown.EveryConstraintCovered` | app/research/planner.py:84-92 | every constraint is left to the post filter exactly when unsupported, else its field is pushed |
| `Pushdown.PushedIff` | app/research/planner.py:84-89 | a field's pushed entry is exactly its last constraint that the provider supports |
| `Pushdown.EnrichmentListsEachOnce` | app/research/planner.py:91-93 | enrichment is asked for exactly the fields of the constraints that are left, each once |
| `Pushdown.EnrichmentInOrder` | app/research/planner.py:93-93 | and in the order of their first constraints |
| `Pushdown.ApplyHardFilters` | app/services/research_service.py:525-534 | keeps, in order, exactly the rows that are not NO_MATCH, and marks the others |
| `Pushdown.HardFilterPlaces` | app/services/research_service.py:525-534 | exactly the rows not ruled out are kept, each in its place |
| `Pushdown.FailureIsStable` | app/criteria/evaluator.py:33-42 | a failure on a known value stays one whatever enrichment fills in |
| `Pushdown.OfficeFailureStableIff` | app/criteria/evaluator.py:35-37 | an office failure is stable if and only if the locations are known |
| `Pushdown.OfficeFailureUndone` | app/criteria/evaluator.py:35-37 | an address elsewhere fails an office filter, a later location passes it |
| `Pushdown.PushdownLosesNothing` | app/research/planner.py:77-93 | when a provider drops only known failures of pushed filters, entries overwritten and enrichment included, hard-filtering what it returns equals hard-filtering everything if and only if no dropped row raises or a kept one does too |
| `Pushdown.DroppedRowHidesException` | app/services/research_service.py:525-534 | a bound given as text raises on a row that is known to fail another pushed filter: dropped, nothing raises |
| `Discovery.Repository.MergeDiscovery` | app/services/research_service.py:343-399 | the three dictionaries give the selection, copies, errors and truncation of the linear scan |
| `Discovery.Repository.CopySources` | app/services/research_service.py:361-369 | appends a copy of every record of the duplicate as it stood before |
| `Discovery.LookupsAgree` | app/services/research_service.py:353-359 | looking keys up dictionary by dictionary finds what a scan of the selected candidates finds |
| `Discovery.IndexesGrow` | app/services/research_service.py:371-377 | entering a selected candidate keeps each dictionary equal to the scan, for every key |
| `Discovery.SelectedShareNoKey` | app/services/research_service.py:347-377 | selected candidates pairwise share no key |
| `Discovery.HolderIsUnique` | app/services/research_service.py:353-377 | each key maps to the one selected candidate that holds it |
| `Discovery.SharesKeyIff` | app/services/research_service.py:353-359 | candidates share a key when they are one provider's entity, or have one name and address, or one url |
| `Discovery.SelectedIff` | app/services/research_service.py:360-371 | a listed candidate of the run is selected if and only if it shares no key with those selected before |
| `Discovery.TwinByPriority` | app/services/research_service.py:353-359 | of several twins the entity's comes first, then the one of name and address, then the url's |
| `Discovery.CopiesAreExact` | app/services/research_service.py:361-370 | a duplicate's records are all copied, each as often as it occurs, in order, and nothing else is added |
| `Discovery.ListedAppend` | app/services/research_service.py:348-349 | candidates are taken in the order of the references, an unknown reference standing for none |
| `Discovery.NothingIsLost` | app/services/research_service.py:360-371 | every listed candidate is selected, or shares a key with a selected one that received all its records |
| `Discovery.NothingIsInvented` | app/services/research_service.py:360-370 | every record is an old one or a copy handed to a selected candidate sharing a key with its owner |
| `RateLimit.InMemoryTokenBucket.Acquire` | app/infrastructure/rate_limit.py:69-80 | decision and bucket as specified, other keys untouched, no store when the hint divides by zero |
| `RateLimit.WindowBound` | app/infrastructure/rate_limit.py:69-80 | over any run on a key, the amount granted between two times is at most capacity plus refill times the span |
| `RateLimit.BoundIsReached` | app/infrastructure/rate_limit.py:69-80 | that bound is reached |
| `RateLimit.LevelRefills` | app/infrastructure/rate_limit.py:72-73 | an unknown key is full, a known one fills at the rate up to the capacity, and not while the clock is behind |
| `RateLimit.AnswerIsTrue` | app/infrastructure/rate_limit.py:74-80 | admitted exactly when the bucket holds the amount; what is reported as remaining stays in the bucket; only refusals ask to wait |
| `RateLimit.RetryGrantedIff` | app/infrastructure/rate_limit.py:72-77 | a refused request is granted after a wait if and only if it fits the bucket and the wait refills what was missing |
| `RateLimit.HintIsTight` | app/infrastructure/rate_limit.py:78-80 | after exactly the hint the request is granted despite truncation, and more than a millisecond earlier it is not |
| `RateLimit.TokenScript.Eval` | app/infrastructure/rate_limit.py:8-27 | answer, stored bucket and deadline as specified; with a refill of zero the bucket is stored and the script fails |
| `RateLimit.TokenScript.Acquire` | app/infrastructure/rate_limit.py:51-61 | the script's decision, or the configured open or closed answer when the server or the script fails |
| `RateLimit.ScriptAnswerIsTrue` | app/infrastructure/rate_limit.py:13-27 | the same of the script |
| `RateLimit.ScriptHintIsTight` | app/infrastructure/rate_limit.py:20-27 | a refused script request is granted when retried alone after the hint, and refused before it |
| `RateLimit.TimeToLiveIs` | app/infrastructure/rate_limit.py:26-26 | an idle key is kept for twice the time an empty bucket takes to fill |
| `RateLimit.DropHarmlessIff` | app/infrastructure/rate_limit.py:13-17 | no request can tell a dropped bucket from a kept one exactly when it is full again |
| `RateLimit.ExpiryChangesNothing` | app/infrastructure/rate_limit.py:26-26 | runs with and without expiry give the same answers |
| `RateLimit.LimitersAgree` | app/infrastructure/rate_limit.py:7-80 | both limiters admit the same requests and leave the same tokens, step after step; the in-memory hint is one millisecond more exactly on whole milliseconds |
| `Scoring.RawScoreInUnitIff` | app/scoring/components.py:31-68 | raw scores lie in [0,1] exactly when the office share is not too negative |
| `Scoring.RawScoreExtremes` | app/scoring/components.py:31-68 | for each component, exactly when the raw score is full and when it is nothing |
| `Scoring.OfficeScore` | app/scoring/components.py:38-44 | the office share below the target, and 0.2 more for several regions, up to the full score |
| `Scoring.EvidenceScore` | app/scoring/components.py:60-64 | monotone in coverage, confidence and conflicts, with steps of six, four and minus three tenths between the ends |
| `Scoring.MiddleScores` | app/scoring/components.py:33-67 | the middle values of scale and fit, and the order and worth of contact qualities |
| `Scoring.FitNeverRises` | app/scoring/components.py:34-36 | a further hard constraint never raises the business fit |
| `Scoring.AbsentIff` | app/scoring/components.py:27-28 | a field counts as absent exactly when its quality is worth less than a conflicting one; required fields are missing only together |
| `Scoring.MissingCounts` | app/scoring/engine.py:23-43 | what a missing component counts under each policy |
| `Scoring.FiguresAreNearest` | app/scoring/engine.py:43-45 | each figure is the nearest number of six, four and two digits |
| `Scoring.RoundNearest` | app/scoring/engine.py:44-45 | rounding gives the nearest whole number, of two nearest ones the even one |
| `Scoring.LargestWeight` | app/scoring/engine.py:43-44 | the largest effective weight a fully met component may have |
| `Scoring.ScoreComponents` | app/scoring/engine.py:21-45 | the loops compute the specified components and total; None exactly when a result fails its bounds |
| `Scoring.Score` | app/scoring/engine.py:17-47 | not scorable exactly when a hard-required field is missing, else the loops' result under the status coverage and conflicts give |
| `Scoring.WeightSplits` | app/scoring/engine.py:21-32 | removed and active weight add up to the profile |
| `Scoring.EffectiveTotalIff` | app/scoring/engine.py:33-43 | when any component stays, effective weights total exactly 100 if and only if the profile's weights do, and at most 100 if those do |
| `Scoring.RoundingGain` | app/scoring/engine.py:44-45 | rounding gains at most half a unit per component, and an even total when it gains that everywhere |
| `Scoring.ScoreInBounds` | app/scoring/engine.py:33-47 | with weights of at most 100 and at most 102 scored components every result and the total are within bounds |
| `Scoring.BoundHoldsIff` | app/scoring/engine.py:44-47 | for n scored components the bound holds for all profiles of weights up to 100 if and only if n is at most 102 |
| `Scoring.AcceptedBoundIff` | app/scoring/models.py:38-42 | for n scored components and a total the profile check accepts, all profiles stay within bounds if and only if the total is at most 100 and n at most 102, or n is 0 |
| `Scoring.RoundedTotalOverflows` | app/scoring/models.py:38-42 | an accepted profile whose re-weighted score exceeds 100 |
| `Scoring.LeadSetIgnoresOrder` | app/scoring/engine.py:49-53 | the lead set does not depend on the order of the scores |
| `Scoring.LeadsAreBest` | app/scoring/engine.py:49-53 | leads are ranked and scorable, and nobody left out was ahead of one of them |
| `Scoring.BetterLeadsFirst` | app/scoring/engine.py:49-53 | a scorable enterprise stands before every lead of its status with a lower total, or an equal one and a larger id, and a SCORED one before every PARTIAL_SCORE one; none is left out for such a lead |
| `Scoring.LeadSetFills` | app/scoring/engine.py:51-53 | the leads are scorable, all of them while there is room, at most topN |
| `Chunker.SplitLong` | app/knowledge/ingestion/chunker.py:67-87 | the loop yields the pieces of greedy packing, long paragraphs cut into windows |
| `Chunker.PiecesBounded` | app/knowledge/ingestion/chunker.py:73-87 | no piece is empty or longer than the chunk size, for any overlap |
| `Chunker.PackingKeepsParagraphs` | app/knowledge/ingestion/chunker.py:73-86 | packing keeps every paragraph, in order |
| `Chunker.PackingIsGreedy` | app/knowledge/ingestion/chunker.py:73-86 | two packed pieces stand side by side only if the second's first paragraph did not fit into the first, and just the paragraphs longer than a chunk are cut |
| `Chunker.ParagraphsAreVisible` | app/knowledge/ingestion/chunker.py:68-70 | stripping loses no visible character and keeps their order; only a text without any stands for itself |
| `Chunker.WindowAt` | app/knowledge/ingestion/chunker.py:82-83 | the k-th window starts k steps in and ends after the chunk size or with the paragraph |
| `Chunker.WindowsOverlap` | app/knowledge/ingestion/chunker.py:82-83 | each window after a full one repeats its last characters: as many as the overlap, but never a whole window |
| `Chunker.SplitIsLossless` | app/knowledge/ingestion/chunker.py:67-87 | with a non-negative overlap the paragraphs can be read back from the pieces, in order, given the layout: how many windows and which paragraph lengths each piece stands for |
| `Chunker.WindowsLosslessIff` | app/knowledge/ingestion/chunker.py:82-83 | the windows of a cut paragraph give it back if and only if the overlap is not negative |
| `Chunker.NegativeOverlapLosesText` | app/knowledge/ingestion/chunker.py:82-83 | a three-character paragraph cut with an overlap of minus one loses its middle |

## Left out

- Routes, authentication, settings, metrics, tracing, migrations, exports, the frontend: plumbing.
- LLM calls, graph wiring, embeddings, reranking, regular expressions over user text: foreign code; parsed rules,
  patches and text parts are inputs.
- Soft preferences, rationales, criteria hashes and the field registry of the validator: they would add easy members.
- Scopes of `classify_invalidation` other than NONE, how reexecution plans are made, artifact selection in the
  promotion node: the eight artifact ids of a snapshot are one opaque value.
- Plan builder and query generation around `CriteriaPushdownPlanner`; `restore_task`, which sets versions freely.
- `materialize_relations`, resolution confidences, an enterprise's website, name, phone, website and region
  normalisers, the ambiguous-entity resolver: normalised values are inputs and the later matcher rules one fixed
  function.
- Candidate profile enrichment: only that it fills unknown fields; a profile lookup that overwrites a known value is
  not modelled.
- Circuit breakers and budget guards.
- NaN, infinities, negative zero, and values that are JSON objects.
- Leases.InMemoryCoordinator.Claim: asks that every run is stored under its own id, which every history keeps.
- PostgresLeases.ClaimWrites: transactions are atomic steps under the advisory locks; the row operations are functions
  on the table, and sequence gaps of rolled-back transactions are not modelled.
- Promotion.PromoteExecutionSnapshot: `sync_node` over the Postgres coordinator, which has no `can_promote_cached` and
  would promote unchecked, is not modelled; the program only calls `ainvoke` (app/api/chat.py:165-169).
- PostgresPromotion.OvertakenWorkerPublishesIff: for lease histories in which no finish leaves its run active; the chat
  route makes no other. Task and snapshot operations are atomic steps.
- Resolution.Resolve: asks that equal ids mean equal candidates, as the repository keyed by id guarantees; object
  identity of enterprises is their index.
- Discovery.Repository.MergeDiscovery: run records, events and the missing-plan error after the merge are left out.
- RateLimit.WindowBound: for capacities, refills and amounts that are not negative, as all callers pass them.
- RateLimit.TokenScript.Eval: the 14-digit text Redis stores for a number is left out.
- RateLimit.ExpiryChangesNothing: Redis and the caller are taken to read the same clock.
- Scoring.Score: whether the criteria have a soft industry constraint, and the measures behind raw scores, are inputs.
- Chunker.SplitLong: for chunk sizes of at least 1; headings, pages and metadata of `chunk` are left out.
