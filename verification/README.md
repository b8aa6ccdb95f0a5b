# Verification of the deterministic proof-fetch scheduler

A Dafny model of the wave scheduler in `internal/scheduler` and of the code that checks,
classifies and compares its results. The claim at the centre of the repository is that
fetching a lock DAG concurrently, wave by wave under a semaphore, yields exactly the
evidence that a sequential pass yields. Here that is a theorem about every interleaving,
for any number of locks, any bound, any retry policy and any server.

Verify with `dafny verify dfyconfig.toml`.

| file | content |
|---|---|
| `Model.dfy` | locks, evidence, metrics, comparisons, the lock map |
| `Sequences.dfy`, `Declarations.dfy`, `Ordering.dfy` | counting, pigeonhole, lists and maps by ID, Go's string order and sort |
| `Fetch.dfy` | the retry loop, the classification, the in-flight meter as one goroutine uses it |
| `Evidence.dfy` | canonical order, final verdict, metrics |
| `Comparison.dfy` | the pair comparison |
| `Graph.dfy`, `Kahn.dfy` | dependency chains and cycles; `validateDAG` |
| `Layering.dfy` | `buildWaves` and `buildSchedule` |
| `ParallelRun.dfy` | the bounded-parallel branch of `run` as a step system |
| `ParallelControl.dfy` | semaphore, wait group, deadlock freedom, termination |
| `ParallelMeter.dfy` | the lock-free maximum under every interleaving |
| `ParallelSaturation.dfy` | the bound on the requests in flight is attained |
| `ParallelData.dfy` | what is written where, and how often |
| `ParallelRequests.dfy` | how many requests are sent |
| `Runs.dfy` | both modes of `run`, their agreement, `RunPair`, `ReplayPair` |
| `Validation.dfy` | `validateSource`, and what it leaves open |
| `EndToEnd.dfy` | from validated input to the verdict on the pair |
| `Fixtures.dfy`, `Tokenizer.dfy` | fixture checks and the canonical cases; the `.gooo` tokenizer |

## How the source is modelled

- The server and the transport are an oracle: the answer to a request depends on the lock
  ID and on the attempt, never on timing. It can be a transport error, a failed body read,
  or a status with a parsed or unparsable body. `fetchLock` ignores its fixture record, so
  the model has none there.
- One worker goroutine of the parallel run is a program counter with the positions
  acquire, enter, add, load, compare-and-swap, request, subtract, decide, back off, store,
  release, done; the main goroutine has `group.Add`, `go`, `group.Wait` and return. A step
  moves one goroutine by one atomic action. An execution is any sequence of steps. The
  semaphore is released before `group.Done`, as deferred calls run last-in first-out.
- Wall times are arbitrary integers. JSON encodings and the digest are arbitrary functions,
  assumed injective only where a statement says so.
- Code that works in loops on maps, slices and fields is a method with loop invariants,
  proved equal to a specification function; the theorems are about that function.
- `sort.Strings` and `sort.SliceStable` are functions, each proved to be the only ordering
  (the only stable ordering) of its argument.

## What the source does not keep

- `validateSource` announces that the canonical order contains every lock exactly once, but
  checks only length and membership, and `validateDAG` accepts a sorted order with a repeated
  ID: overwriting the last entry of any accepted order that layers passes every check and
  leaves a lock out (`Validation.RepeatedOrderPasses`). A repeated ID makes the parallel run
  leave a slot empty in every interleaving: the two modes agree exactly when the order repeats
  no ID (`Runs.RefinementCondition`), and the pair is refuted exactly otherwise
  (`Runs.RunPairVerdict`), with the empty slot as the counterexample
  (`Runs.RunPairRefutation`). Replay stays deterministic either way.
- The requests that a parallel run reports can be fewer than it sent: with a repeated ID each
  of its workers sends its own, and only one is counted, unless the lock is reused
  (`Runs.RequestsIssued`).
- `docs/protocol-v1.md` says that the canonical order is used only for emission and
  comparison. The code also layers by it: on a sorted order, which validation insists on, the
  parallel mode runs exactly when every dependency of a listed lock is listed and its ID sorts
  before its dependant's (`Validation.LayeringOfSorted`). Validated sources of every size
  fail that (`Validation.ValidatedButNotLayered`).
- `pointerValue` confuses a missing digest with the digest `<null>`
  (`Comparison.PointerMeaning`). For fetched evidence with equal statuses the confusion
  cannot arise (`Comparison.NotRefutedMeansEqual`).
- `ComparePair` by itself can refute with a counterexample whose two sides are equal, through
  its root fallback. With an injective digest that happens exactly when the lists have one
  canonical form, name the locks at different places, and differ nowhere in status or digest
  (`Comparison.RefutationIsGenuine`; `Comparison.SwappedPairShowsNothing` is such a pair).
  No pair that `RunPair` produces is of that kind (`Runs.RunPairRefutation`).
- A canonical case that ends UNKNOWN lacks part of its tuple exactly when its fixture names no
  kind, and one that ends REFUTED can show equal sides: a race between equal values, or a
  missing value where `<null>` is expected (`Fixtures.CaseEvidence`).

## Model

| member | source | states |
|---|---|---|
| Runs.ParallelRefinesSequential | internal/scheduler/runner.go:160-189 | for a canonical order without repeats on which the layering succeeds, every complete interleaving under any bound ends with the sequential loop's evidence, slot by slot |
| Runs.RefinementCondition | internal/scheduler/runner.go:160-189 | a complete interleaving exists; all of them agree with the sequential loop if and only if the canonical order repeats no ID, and with a repeat none does |
| Runs.ParallelIsSequential | internal/scheduler/runner.go:170-184 | what a parallel run leaves behind (last occurrence fetched, other slots zero) is the sequential evidence if and only if no ID repeats |
| Runs.RunSequential | internal/scheduler/runner.go:157-164 | the sequential loop fills each slot with the evidence of its lock; the meter then shows one request in flight if any lock was fetched, else none |
| Runs.SequentialPeakMeaning | internal/scheduler/runner.go:157-164 | the reported maximum in flight is 1 if a listed lock is not reused, else 0 |
| Runs.BaselineMeaning | internal/scheduler/runner.go:190-195 | the sequential mode reports the evidence of its loop, the wall time, and a maximum in flight of 1 if a listed lock is not reused, else 0 |
| Runs.SlotNames | internal/scheduler/runner.go:160-164 | each slot of the sequential mode carries the listed ID and a coordinate declared for it, or empty ones for an ID that is not declared |
| Runs.BuildIndices | internal/scheduler/runner.go:170-173 | the index map built in the loop is the last-occurrence map |
| Runs.IndexMapMeaning | internal/scheduler/runner.go:170-173 | an ID is mapped if and only if it occurs, to its last position |
| Runs.DependenciesWritten | internal/scheduler/runner.go:174-188 | in every reachable state, the slots of a started lock's dependencies already hold their evidence |
| Runs.SlotWrites | internal/scheduler/runner.go:170-188 | a slot whose ID occurs again later is never stored to; any other is stored to at most as often as the order lists its ID and exactly so often at the end; over distinct IDs that is once |
| Runs.ReportedMaximum | internal/scheduler/runner.go:190-195 | the reported maximum in flight is the highest value the counter had, at most the bound and at most the widest wave of really fetched locks |
| Runs.ReportedMaximumAttained | internal/scheduler/runner.go:174-195 | some complete interleaving reports exactly the smaller of the bound and the widest wave of really fetched locks |
| Runs.SequentialInvariant | internal/scheduler/runner.go:160-164 | the evidence invariant holds in every slot of the sequential mode |
| Runs.ParallelInvariant | internal/scheduler/runner.go:165-189 | in every complete interleaving the evidence invariant of its own lock holds in each slot, except that the earlier slots of a repeated ID stay zero |
| Runs.SequentialConservation | internal/scheduler/runner.go:337-356 | in the sequential mode completed, reused, unknown and refuted add up to the length of the order, requests stay between one and the allowed attempts per fetched entry, and the counters give the final verdict |
| Runs.ParallelConservation | internal/scheduler/runner.go:337-356 | in every complete interleaving the four counters add up to the number of different IDs, which is the length of the order if and only if none repeats; requests stay between one and the allowed attempts per fetched ID; the counters give the final verdict over distinct IDs, and the verdict is the empty string otherwise |
| Runs.RequestsIssued | internal/scheduler/runner.go:251-275 | every complete interleaving sends exactly as many requests as the sequential mode reports; it reports at most that many, and exactly that many if and only if every repeated ID belongs to a reused lock |
| Runs.SortedRunIsCanonical | internal/scheduler/model.go:327-331 | for a sorted order of declared IDs, run output already is its canonical form |
| Runs.StartRun | internal/scheduler/runner.go:150-169 | a run starts if and only if the concurrency is within the bound and, in parallel mode, the order respects the dependencies; then with the specified waves |
| Runs.RunPairStarts | internal/scheduler/runner.go:111-123 | both runs of the pair start if and only if the bound is at least one and the layering succeeds |
| Runs.RunPairVerdict | internal/scheduler/runner.go:111-123 | the comparison is REFUTED if and only if the order repeats an ID; otherwise CLOSED exactly when the candidate's wall time is strictly lower, else UNKNOWN |
| Runs.ReceiptMeaning | internal/scheduler/runner.go:136-147 | for any two results, the receipt is deterministic and CLOSED if and only if the roots are equal, else UNKNOWN with the mismatch reason, and names both roots |
| Runs.ReceiptIdentifiesEvidence | internal/scheduler/runner.go:136-147 | with an injective digest a receipt is deterministic if and only if both runs hold the same evidence under each lock ID |
| Runs.ReplayDeterministic | internal/scheduler/runner.go:125-148 | any two complete interleavings, even under different bounds, report the same evidence, and the receipt of the pair is deterministic and CLOSED, repeated IDs or not |
| EndToEnd.ValidatedPair | internal/scheduler/runner.go:111-123 | a validated source runs in both modes if and only if its dependencies sort before their dependants; then in every interleaving the pair is REFUTED if and only if the order repeats an ID, else CLOSED or UNKNOWN by wall time alone with each declared lock reported once, in canonical form, under the sequential root |
| ParallelControl.HoldersBounded | internal/scheduler/runner.go:176-184 | in every reachable state the semaphore counts its holders, at most the bound; requests in flight belong to holders; the meter counts the workers between begin and end |
| ParallelControl.ControlHolds | internal/scheduler/runner.go:174-188 | the control invariant (semaphore, wait group and meter counts, spawn progress, attempt ranges) holds in every reachable state |
| ParallelControl.BarrierIsQuiet | internal/scheduler/runner.go:187 | when the barrier opens all workers of the wave are finished and the semaphore and the meter are at zero |
| ParallelControl.DeadlockFree | internal/scheduler/runner.go:174-188 | every reachable state before the return has an enabled step |
| ParallelControl.ExecutionsBounded | internal/scheduler/runner.go:174-188 | a measure over remaining waves, positions, attempts and swap retries drops in every step, so no interleaving is longer than its initial value |
| ParallelControl.Completes | internal/scheduler/runner.go:174-188 | every interleaving extends to one in which the run returns |
| ParallelMeter.HistoryAccounted | internal/scheduler/runner.go:88-96 | the highest counter value so far always equals the maximum of the peak and the values still held inside begin |
| ParallelMeter.MaxCurrentMeaning | internal/scheduler/runner.go:98-104 | the historical maximum bounds the counter in every state and is attained |
| ParallelMeter.PeakIsMaximum | internal/scheduler/runner.go:102-104 | with nobody inside begin, in particular at the end, the peak is exactly the historical maximum |
| ParallelMeter.PeakMonotone | internal/scheduler/runner.go:88-96 | the peak never decreases |
| ParallelMeter.SwapFailsAfterRise | internal/scheduler/runner.go:90-95 | a swap fails only after the peak strictly rose above the loaded value, and the distance left then shrinks |
| ParallelMeter.RetriesBounded | internal/scheduler/runner.go:90-95 | the excess of a worker's value over the peak bounds its failed swaps within one begin |
| ParallelMeter.MaxInFlightBounded | internal/scheduler/runner.go:194 | the counter and the peak never exceed the bound nor the widest wave of really fetched locks |
| ParallelSaturation.Gather | internal/scheduler/runner.go:176-184 | from the opening of a wave, steps that open no barrier and pass no counted add bring as many workers into flight as the bound and the wave allow |
| ParallelSaturation.Saturated | internal/scheduler/runner.go:174-194 | some complete interleaving reaches the smaller of the bound and the widest wave of really fetched locks as its peak |
| ParallelData.Deterministic | internal/scheduler/runner.go:174-188 | every complete interleaving ends with the same evidence array |
| ParallelData.OnlyOwnerWrites | internal/scheduler/runner.go:184 | in every reachable state, a step changes a slot only as the store of the worker of that slot's lock, and to that lock's evidence |
| ParallelData.WritesCounted | internal/scheduler/runner.go:184 | in every reachable state an owned slot was stored to at most as often as the waves list its ID, at the end exactly so often, and no other slot ever; a slot stored to holds its lock's evidence, any other is zero |
| ParallelData.DependenciesFirst | internal/scheduler/runner.go:174-188 | over a layered configuration a started worker finds all its dependencies' evidence in place |
| ParallelRequests.IssuedHolds | internal/scheduler/runner.go:251-275 | in every reachable state the requests sent are those recorded for the finished waves plus what the positions of the current workers account for |
| ParallelRequests.RequestsSent | internal/scheduler/runner.go:174-188 | at the return the requests sent are those recorded in the evidence of every entry of every wave |
| Fetch.FetchLock | internal/scheduler/runner.go:246-304 | the branching retry loop computes the decisive-attempt evidence, never reaches the return after the loop, and leaves the meter's counter as it was |
| Fetch.RetryMeaning | internal/scheduler/runner.go:251-313 | the evidence of a fetched lock classifies the response of the unique decisive attempt: all earlier ones got no response or a listed status other than 200, it did not or is the last one allowed, and at least one is; attempts and requests both equal it |
| Fetch.FetchMeaning | internal/scheduler/runner.go:262-302 | the whole evidence from the decisive response: UNKNOWN and which tuple without a readable answer; REFUTED with the answered digest, the declared side as expected and the answered side as observed, coordinate before digest; else CLOSED |
| Fetch.StatusMeaning | internal/scheduler/runner.go:315-335 | each of the five tuples belongs to exactly its statuses, and the default tuple to all others |
| Fetch.ReusedMeaning | internal/scheduler/runner.go:247-250 | a reused lock is closed on its declared digest without any request |
| Fetch.VerdictMeaning | internal/scheduler/runner.go:276-302 | CLOSED exactly for a decisive 200 answer repeating the declared coordinate and digest, REFUTED exactly for a readable one contradicting them |
| Fetch.FetchKeepsInvariant | internal/scheduler/runner.go:246-335 | CLOSED carries the declared digest and nothing else, UNKNOWN a null digest and a complete tuple, REFUTED a digest and a counterexample whose sides differ; attempts equal requests and stay in range |
| Fetch.ClassifyKeepsInvariant | internal/scheduler/runner.go:262-302 | the same for the classification of any single response |
| Fetch.StatusTupleComplete | internal/scheduler/runner.go:315-335 | every status yields a complete UNKNOWN tuple |
| Fetch.InflightMeter.Begin | internal/scheduler/runner.go:88-96 | used by one goroutine, adds one and raises the peak to the new value if that is higher |
| Fetch.InflightMeter.CompareAndSwapPeak | internal/scheduler/runner.go:92 | replaces the peak exactly when it has the expected value |
| Fetch.InflightMeter.End | internal/scheduler/runner.go:98-100 | subtracts one and leaves the peak |
| Evidence.StableSortKeeps | internal/scheduler/model.go:327-331 | the canonical order is an ordered, stable rearrangement |
| Evidence.StableSortUnique | internal/scheduler/model.go:329 | it is the only ordered list with the same entries per lock ID in the same order |
| Evidence.StableSortIdentity | internal/scheduler/model.go:327-331 | it leaves a list unchanged exactly when that is ordered, and is idempotent |
| Evidence.ArrangementIrrelevant | internal/scheduler/model.go:327-331 | two arrangements of the same evidence over distinct lock IDs have the same canonical form |
| Evidence.StableSortInjective | internal/scheduler/model.go:327-331 | lists naming the same locks in the same places are equal when their canonical forms are |
| Evidence.AggregateEvidence | internal/scheduler/model.go:317-325 | the loop computes the final verdict |
| Evidence.VerdictDominates | internal/scheduler/model.go:304-325 | for any statuses, the verdict is CLOSED or a status that occurs, and no status takes precedence over it |
| Evidence.VerdictPrecedence | internal/scheduler/model.go:304-325 | REFUTED if some entry is, else UNKNOWN if some entry is, else CLOSED |
| Evidence.VerdictArrangement | internal/scheduler/model.go:317-325 | rearranging the evidence keeps the verdict whenever all statuses besides the three known ones are the same, empty slots included |
| Evidence.VerdictArrangementFree | internal/scheduler/model.go:317-325 | the verdict is the same for every arrangement of the evidence if and only if no two different unknown statuses occur |
| Evidence.SummarizeMetrics | internal/scheduler/runner.go:337-356 | the loop counts closed-not-reused, reused, unknown and refuted entries and sums the requests |
| Evidence.MetricsMeaning | internal/scheduler/runner.go:337-356 | no evidence has zero counts; one more entry adds its requests and raises just the counters that its status and reuse call for |
| Evidence.Conservation | internal/scheduler/runner.go:337-356 | over fetched evidence and slots never stored to, every stored entry is counted once and requests stay within the attempts allowed |
| Evidence.MetricsArrangement | internal/scheduler/runner.go:337-356 | the metrics do not depend on the order of the evidence |
| Evidence.EmptySlotVerdict | internal/scheduler/model.go:304-325 | one slot never stored to makes the final verdict the empty string |
| Evidence.VerdictAgreesWithMetrics | internal/scheduler/runner.go:337-356 | the final verdict is REFUTED iff refuted is positive, else UNKNOWN iff unknown is, else CLOSED |
| Comparison.RootIdentifiesEvidence | internal/scheduler/runner.go:190-195 | with an injective digest, two reports have equal roots if and only if they hold the same evidence under each lock ID in the same order (over distinct IDs: the same evidence in any order); equal roots imply equal counters and, unless different unknown statuses compete, equal final verdicts |
| Comparison.RootMeaning | internal/scheduler/runner.go:190-195 | the root of a report is the digest of the one list that is ordered by lock ID and keeps the entries of each lock in order |
| Comparison.CompareEvidence | internal/scheduler/runner.go:383-403 | each of the four flags holds exactly when lengths and that field agree at every index |
| Comparison.FindFirstDifference | internal/scheduler/runner.go:405-419 | the loop finds the difference at the first index whose status or digest differs |
| Comparison.FirstDifferenceUnique | internal/scheduler/runner.go:405-419 | only one value is the first difference of two lists |
| Comparison.PointerMeaning | internal/scheduler/runner.go:421-430 | digests compare equal exactly when they are, or when one is missing and the other is `<null>` |
| Comparison.JudgePair | internal/scheduler/runner.go:365-379 | verdict, reason, counterexample and UNKNOWN tuple follow from exactness and wall times |
| Comparison.ComparePair | internal/scheduler/runner.go:358-381 | every field of the comparison, each against its own meaning |
| Comparison.PairMeaning | internal/scheduler/runner.go:358-381 | REFUTED if and only if an entry or the roots differ, else CLOSED if and only if the candidate is strictly faster, else UNKNOWN; the reason of each verdict, a counterexample only with REFUTED, and the tuple only with UNKNOWN |
| Comparison.CounterexampleMeaning | internal/scheduler/runner.go:365-371 | a refuted pair shows the baseline as expected and the candidate as observed: statuses, or else digests, at the first index that differs in them, and the roots if there is none |
| Comparison.NotRefutedMeansEqual | internal/scheduler/runner.go:358-442 | for fetched evidence and injective encodings a pair is not refuted if and only if lock ID, status, digest, UNKNOWN tuple and counterexample agree at every index and the roots agree |
| Comparison.NotRefutedMeansSame | internal/scheduler/runner.go:358-381 | for rooted evidence and an injective digest, a pair is not refuted if and only if the two evidence lists are equal in every field, those that no flag compares included |
| Comparison.RefutationSides | internal/scheduler/runner.go:365-371 | every refutation carries a counterexample; its sides are equal if and only if the roots are equal and no index differs in status or digest |
| Comparison.RefutationIsGenuine | internal/scheduler/runner.go:365-371 | for rooted evidence and an injective digest, a refutation shows equal sides if and only if the lists have one canonical form, name the locks at different places, and differ nowhere in status or digest |
| Runs.RunPairRefutation | internal/scheduler/runner.go:111-123 | for every interleaving, a refuted pair carries the counterexample of the first repeated ID: the fetched, non-empty status against the empty one |
| Comparison.SwappedPairShowsNothing | internal/scheduler/runner.go:368-371 | two lists that swap two locks of equal status and digest are refuted with a counterexample whose sides are equal |
| Kahn.ValidateDAG | internal/scheduler/source.go:326-379 | valid if and only if lock IDs are distinct, dependencies declared, the graph acyclic and the order sorted, whatever the map iteration order; which error otherwise |
| Kahn.BuildGraph | internal/scheduler/source.go:327-340 | indegrees are dependency counts and children record every dependency as often as it is named |
| Kahn.AddChildren | internal/scheduler/source.go:333-339 | appends a lock to the children of each dependency as often as that is named |
| Kahn.CheckDeclared | internal/scheduler/source.go:341-347 | passes exactly when every dependency is declared, else names one that is not |
| Kahn.InitialQueue | internal/scheduler/source.go:348-353 | queues each lock of indegree zero once, in any order |
| Kahn.Relax | internal/scheduler/source.go:360-365 | lowers each child's indegree by its occurrences and queues a lock only when its indegree runs out, never a second time |
| Kahn.LowerChild | internal/scheduler/source.go:361-364 | one dependency fewer, and a place in the queue exactly when none is left |
| Kahn.Drain | internal/scheduler/source.go:354-366 | the loop ends; what was processed was due when processed, what is left is still waiting |
| Kahn.AllProcessed | internal/scheduler/source.go:367-369 | if as many were processed as declared, IDs are distinct and there is no cycle |
| Kahn.LeftOver | internal/scheduler/source.go:367-369 | if some lock of a closed, distinct set is left over there is a cycle |
| Kahn.Compare | internal/scheduler/source.go:373-377 | passes exactly on equal lists, else gives the first difference |
| Graph.StuckHasCycle | internal/scheduler/source.go:367-369 | a finite set in which every lock depends on a member contains a cycle |
| Graph.AcyclicByRank | internal/scheduler/source.go:367-369 | a graph whose locks rank above their dependencies has no cycle |
| Declarations.ByNameLast | internal/scheduler/source.go:381-395 | a map filled from a list holds the last entry of each ID |
| Graph.KeyCount | internal/scheduler/source.go:381-387 | the lock map has as many keys as there are locks if and only if IDs are distinct |
| Layering.BuildWaves | internal/scheduler/runner.go:198-228 | the three loops compute the specified waves, or none |
| Layering.AssignWaves | internal/scheduler/runner.go:200-218 | one pass assigns each lock the first wave after its dependencies and tracks the highest |
| Layering.PlaceLock | internal/scheduler/runner.go:203-213 | the first wave after all dependencies, or none if one has no wave yet |
| Layering.FillWaves | internal/scheduler/runner.go:219-223 | each wave lists the IDs of its number in the order's order |
| Layering.SortWaves | internal/scheduler/runner.go:224-226 | each wave is replaced by its sorted form |
| Layering.LayersAccept | internal/scheduler/runner.go:202-213 | the pass succeeds if and only if every dependency occurs strictly earlier in the order |
| Layering.LayersTight | internal/scheduler/runner.go:202-218 | exactly the listed IDs get a wave, the first one after their dependencies, and listing an ID again changes nothing |
| Layering.WaveIsLongestChain | internal/scheduler/runner.go:203-214 | a lock's wave is the length of its longest dependency chain |
| Layering.WaveIsMinimal | internal/scheduler/runner.go:203-214 | no assignment putting locks after their dependencies gives any lock a smaller number |
| Layering.LayersOrderFree | internal/scheduler/runner.go:198-218 | wave numbers do not depend on which dependency-respecting order is used |
| Layering.WavesOrderFree | internal/scheduler/runner.go:198-228 | any two dependency-respecting permutations give identical waves |
| Layering.WaveMembers | internal/scheduler/runner.go:219-226 | an ID is in a wave, as often as it is listed, exactly when that is its number |
| Layering.WavesPartition | internal/scheduler/runner.go:219-227 | the waves concatenated are a permutation of the order, each wave sorted |
| Layering.WavesNonEmpty | internal/scheduler/runner.go:219-223 | every wave of a non-empty order is non-empty |
| Layering.LayeredIsAcyclic | internal/scheduler/runner.go:198-228 | success on a permutation of the declared locks implies what the Kahn pass checks |
| Layering.BuildSchedule | internal/scheduler/runner.go:230-244 | the schedule lists the order with ordinals and dependencies and recovers each wave number plus one, or one throughout when layering fails |
| Layering.ScheduleMeaning | internal/scheduler/runner.go:230-244 | the scheduled wave of a listed lock is the length of its longest dependency chain, or 0 throughout when the layering fails |
| Layering.ScheduledWaves | internal/scheduler/runner.go:231-237 | the map rebuilt from the waves gives each listed lock its wave number |
| Layering.RecoverWaves | internal/scheduler/runner.go:232-237 | every member of a wave is recorded, with that wave's number |
| Layering.RecordWave | internal/scheduler/runner.go:234-236 | records one wave's members and keeps the rest |
| Ordering.LeqMeaning | internal/scheduler/source.go:370-377 | the string order: one starts the other, or has the smaller character at the first index where they differ |
| Ordering.SortMeaning | internal/scheduler/runner.go:224-226 | sorting gives a sorted permutation |
| Ordering.SortedUnique | internal/scheduler/source.go:370-377 | there is only one sorted permutation |
| Validation.CheckSource | internal/scheduler/model.go:333-377 | identity, denominators, bound, retry, lock, order, authority and guardrail checks pass exactly on accepted sources |
| Validation.CheckLocks | internal/scheduler/model.go:355-364 | passes exactly on distinct, complete lock declarations |
| Validation.ExactlyOnce | internal/scheduler/model.go:352-369 | an accepted order holds every lock exactly once if and only if it repeats none, equivalently leaves none out |
| Validation.RepeatedOrderPasses | internal/scheduler/model.go:352-369 | for any accepted source of at least two locks that layers, overwriting the last entry of the order by the one before keeps all checks and the layering, repeats an ID, and leaves the declared last lock out |
| Validation.RepetitionForEverySize | internal/scheduler/model.go:352-369 | such sources exist for every number of locks from two on |
| Validation.LayeringOfSorted | internal/scheduler/runner.go:202-213 | on any sorted order, repeated IDs included, layering succeeds if and only if every dependency of a listed lock is listed and sorts strictly before it |
| Validation.ValidatedButNotLayered | internal/scheduler/runner.go:202-213 | for every number of locks from two on, a validated source without repeats that the parallel mode refuses |
| Fixtures.CheckFixture | internal/scheduler/source.go:252-275 | accepted if and only if lock IDs and record IDs are distinct, name the same locks, and all entries are complete |
| Fixtures.FixtureTotal | internal/scheduler/source.go:389-395 | after acceptance each lock has exactly one record and the map finds it |
| Fixtures.CheckCases | internal/scheduler/source.go:289-303 | accepted if and only if case IDs match the declarations one to one and all expectations are set |
| Fixtures.EvaluateCases | internal/scheduler/runner.go:444-459 | succeeds exactly when every case decides as declared, with those results in order; otherwise reports the first case that does not, as missing exactly when its fixture is; after an accepted load nothing is missing |
| Fixtures.CaseMeaning | internal/scheduler/runner.go:461-490 | CLOSED exactly for readable evidence repeating what is expected, REFUTED exactly for a race or a readable contradiction; only UNKNOWN has a tuple, only REFUTED a counterexample |
| Fixtures.CaseReasons | internal/scheduler/runner.go:461-490 | the reason of every decision, the tuple of an UNKNOWN one, and the counterexample of a REFUTED one: expected value as expected, observed value or `<null>` as observed, coordinate before digest |
| Fixtures.CaseEvidence | internal/scheduler/runner.go:461-490 | an UNKNOWN case has a complete tuple if and only if its kind is named; a REFUTED case shows equal sides if and only if it is a race between equal values or a missing value where `<null>` is expected |
| Tokenizer.ParseFields | internal/scheduler/source.go:154-184 | the scanning loops end and compute the blank-separated fields, or the empty-field error |
| Tokenizer.FieldsMeaning | internal/scheduler/source.go:154-184 | a line laid out as fields with blanks around them parses to those fields without their outer quotes, and to the empty-field error if one has nothing else |
| Tokenizer.LayoutOf | internal/scheduler/source.go:154-184 | every line is laid out that way: fields hold blanks only inside quotes, and end at the first blank outside them |
| Tokenizer.FieldLengthMeaning | internal/scheduler/source.go:163-175 | a field reaches to the first blank preceded by an even number of quotes, or to the end |
| Tokenizer.TrimQuotesMeaning | internal/scheduler/source.go:177 | trimming removes exactly the quotes at both ends |
| Tokenizer.ScanField | internal/scheduler/source.go:163-175 | stops at the first blank outside quotes |
| Tokenizer.SkipBlanks | internal/scheduler/source.go:157-159 | skips blanks and loses no field |
| Tokenizer.ParseKeyValues | internal/scheduler/source.go:186-200 | the loop computes the last value per key, or an error |
| Tokenizer.KeyValueMeaning | internal/scheduler/source.go:188-196 | a field is a pair if and only if it is a non-empty key, its first equals sign and a value that is non-empty without its outer quotes |
| Tokenizer.KeyValuesMeaning | internal/scheduler/source.go:186-200 | the map exists if and only if every field is a pair, and holds the last value of each key and no other key |
| Tokenizer.RoundTrip | internal/scheduler/source.go:154-200 | printing directive words and a map's entries, each quoted or not, in any order with any blanks around them, and parsing the line returns the words and the map |
| Tokenizer.SplitList | internal/scheduler/source.go:214-227 | the loop keeps the trimmed, non-empty, non-dash parts |
| Tokenizer.ListMeaning | internal/scheduler/source.go:214-227 | a value is the join of a list of comma-free parts, and parses to those parts trimmed, without the empty ones and the dashes |
| Tokenizer.TrimSpaceMeaning | internal/scheduler/source.go:222 | trimming removes exactly the white space at both ends |
| Tokenizer.SpaceCodes | internal/scheduler/source.go:222 | white space is the listed code points |
| Tokenizer.ListRoundTrip | internal/scheduler/source.go:214-227 | a parsed list joined with commas parses to itself |

## Left out

- The HTTP server and client, deadlines, sleeps, latencies and clocks: replaced by the oracle and by arbitrary wall times (internal/scheduler/runner.go:28-81).
- The 32-bit width of the meter's two counters: both stay between 0 and the concurrency bound, which validation caps at 64, so they cannot wrap.
- Torn writes: two workers of a repeated ID store to the same slot without synchronization; the model treats a store as atomic. Over distinct IDs no two workers share a slot.
- SHA-256 and `encoding/json`: abstract functions; marshalling errors do not occur for these types.
- Peak RSS (internal/scheduler/measurement.go): a system call.
- Which of several failing checks is reported first by `CheckSource`, `CheckFixture` and `CheckCases`, and the text of error messages.
- `strings.ToUpper` in `evaluateCase`: an arbitrary spelling that keeps exactly the empty string empty.
- `Distribution` and `HTTPStatusName` (internal/scheduler/runner.go:492-509).
- The declaration dispatch and comment stripping of `ParseSourceBytes` and `strconv.Atoi` (internal/scheduler/source.go:29-152, internal/scheduler/source.go:202-212).
- UTF-8: strings are sequences of characters ordered by code; `strings.TrimSpace` uses the Unicode space characters.
- Go source generation, artifact writing, Markdown reports and the command line: printers and plumbing with no inverse in the repository.
