# Verified model of rustuna's optimisation core

rustuna is a hyper-parameter optimiser in the style of Optuna. This project models four of its parts
in Dafny and proves that the fast code does what its plain definitions say.

**Multi-objective selection.** Losses are exact integers. The hypervolume of a list of rows is the
number of lattice cells in the union of their boxes (`Cells`), so inclusion-exclusion, monotonicity
and submodularity are facts about finite sets. Against that definition stand the closed forms, the
three-objective sweep (`Sweep3d`), the recursion (`Hypervolume`), the lazy greedy with stale bounds
(`LazyGreedy`), the two-objective rectangle greedy (`Hssp2d`) and the memo around them (`Hssp`).
Non-dominated ranks are defined as the length of the longest dominance chain (`Chains`); the
patience sweep, the peel loop (`Nds`) and NSGA-II's counting sort (`Layers`, `Nsga2`) are all shown
to compute it. `Split`, `SplitQuality`, `SplitObservations` and `PedAnova` build on both, up to the
assertion that top sets nest; `Elitism` follows NSGA-II's parents over whole runs.

**The caching storage.** `Backend` is the shared store: rows that other processes append, update,
finish and discard between client calls. `CachedStorages` is the client, a class with the fields of
the original; `CacheInvariant` states what it keeps true of every study and proves that each client
step and each step of other processes keeps it. `StudyCaches` is the incremental search space.
`InMemory` is the simple storage. `Surprises` holds complete runs of both that end where a caller
would not expect.

**Bandwidths.** `Bandwidths` shows that the bucket pass and the sorting fallback of the Parzen
estimator compute one and the same function.

**Timestamps.** `Datetime` proves the calendar conversion for all integer days and the string order
of rendered timestamps, on which the discard cursor of the cache relies; `DiscardCursors`
shows that the read on text selects the same rows as the read on instants.

Assumptions of the caching model:

- A client call is atomic with respect to other processes: their writes happen between calls, so the
  two backend reads of one refresh see one state.
- Discard stamps never go backwards (rustuna_storage/src/sqlite3.rs:359-361 documents the exception
  of clocks that lag behind; there a discarded trial merely stays cached).
- A finished trial never changes, and ids are not reused. The proofs show that the client itself
  never writes a parameter or an attribute to a finished trial.

One comment differs from the code, and the model follows the code:

- rustuna_storage/src/cache.rs:487-488 says that a rejected state change is not recorded. If another
  process discarded the trial and the cache has not noticed, the backend does record the new state
  and the call then fails. The contract of `SetTrialStateValues` says exactly when, and
  `Surprises.RefusedStateIsRecorded` is a run from an empty store that ends so.

Other behaviour a caller might not expect, each with its exact condition in a contract and a run that
shows it:

- `get_trials` of the caching storage reports a missing study for an existing study without trials,
  as long as this process never cached it (`GetTrials`, `Surprises.EmptyStudyIsMissing`).
- `get_trial` of the caching storage serves a cached finished trial although another process
  discarded it (`GetTrial`, `Surprises.DiscardedTrialIsServed`).
- The joint search space of either storage contains what all complete trials agree on only if the
  process has once seen a complete trial. If all were discarded before it looked, the space is empty
  (`LowerBoundExactly`, both `GetJointSearchSpace`; `Surprises.AgreedParameterIsMissed`,
  `Surprises.AgreedParameterIsMissedInMemory`).
- A float distribution whose range is exactly one step has two values but counts as single, because of
  the tolerance in rustuna_core/src/distribution.rs:127, and so never enters a joint search space
  (`Trials.SingleExactly`, `Trials.TwoValuesSingle`).
- A template without objective values is refused by the SQLite storage only after its trial was
  created, and the trial stays running (`CreateNewTrialFromTemplate`,
  `Surprises.RefusedTemplateLeavesTrial`).
- The in-memory storage keeps the attributes written before a forbidden overwrite, and the discards
  made before an unknown id, where the SQLite storage rolls back (`Surprises.RefusedAttrsAreKept`,
  `Surprises.RefusedDiscardsAreKept`).

## Model

| member | source | states |
|---|---|---|
| Cells.BoxSize | rustuna_core/src/multi_objective/hypervolume.rs:12-21 | the closed product of clamped side lengths is the number of lattice cells of the box, in every dimension, empty boxes included |
| Cells.JoinBox | rustuna_core/src/multi_objective/hypervolume.rs:40-162 | the coordinate-wise maximum of two rows spans exactly the intersection of their boxes |
| Cells.LimitedRegion | rustuna_core/src/multi_objective/hypervolume.rs:40-162 | rows limited to a row `p` cover exactly the part of the union that lies in the box of `p`, which is why the exclusive measure may be computed from limited rows |
| Hypervolume.InclusiveHv | rustuna_core/src/multi_objective/hypervolume.rs:12-21 | the product loop returns the measure of one box |
| Hypervolume.TwoPointHv | rustuna_core/src/multi_objective/hypervolume.rs:40-162 | inclusion-exclusion for two rows is the measure of their union |
| Hypervolume.CoversRegion | rustuna_core/src/multi_objective/nds.rs:272-304 | dropping dominated, duplicate and NaN rows leaves the union of the boxes unchanged |
| Hypervolume.ComputeHypervolumeWith | rustuna_core/src/multi_objective/hypervolume.rs:40-162 | for every dimension and every list of rows, with or without the front filter, whichever of the closed forms, the sweep and the recursion runs, the result is the measure of the union of the boxes of the clean rows; the recursion terminates |
| Hypervolume.MeasureWfg | rustuna_core/src/multi_objective/hypervolume.rs:40-162 | the sum of the exclusive measures, taken over limited rows, is the measure of the union |
| Hypervolume.ComputeExclusiveHypervolume | rustuna_core/src/multi_objective/hypervolume.rs:249-259 | the exclusive measure is the inclusive one less the measure of the limited rows |
| Sweep3d.ComputeHypervolume3dSorted | rustuna_core/src/multi_objective/hypervolume.rs:164-247 | the row-streamed sweep with two rolling rows counts exactly the cells of the union, for any number of rows, with ties in any axis, duplicates and dominated rows |
| Sweep3d.StreamRow | rustuna_core/src/multi_objective/hypervolume.rs:175-247 | one column of the sweep: the running maximum turns the previous row of heights into the next, and the line sum is the measure of the column |
| Orders.LexSortIndices | rustuna_core/src/multi_objective/nds.rs:9-25 | a permutation of the indices in lexicographic order of their rows |
| Orders.LexOrderFacts | rustuna_core/src/multi_objective/hssp.rs:337-402 | the stable sort used by the two-objective solver: every index once, lexicographic, ties by position |
| Front.LexParetoMark | rustuna_core/src/multi_objective/nds.rs:192-250 | one sweep over lexicographically sorted rows marks exactly the rows that no other row dominates, and of equal rows all or only the first |
| Front.FilterParetoFront | rustuna_core/src/multi_objective/nds.rs:272-304 | what is kept is free of NaN, mutually incomparable, and covers every clean row |
| Greedy.GainShrinks | rustuna_core/src/multi_objective/hssp.rs:203-229 | marginal hypervolume never grows as rows are chosen (submodularity), the reason stale bounds stay upper bounds |
| Greedy.GainIsDifference | rustuna_core/src/multi_objective/hssp.rs:184-310 | a row's gain is what it adds to the measure of the chosen rows |
| Greedy.GainsAddUp | rustuna_core/src/multi_objective/hssp.rs:337-402 | the gains of the rows picked, one after the other, add up to the measure of the selection, on both greedy paths |
| Greedy.PicksPrefix | rustuna_core/src/multi_objective/hssp.rs:203-229 | the picks for a smaller subset are a prefix of the picks for a larger one |
| Greedy.PicksAreGreedy | rustuna_core/src/multi_objective/hssp.rs:203-229 | every pick has the largest gain of all candidates at its turn |
| Greedy.PicksDistinct | rustuna_core/src/multi_objective/hssp.rs:184-310 | no candidate is picked twice |
| Greedy.NextPickIsFirst | rustuna_core/src/multi_objective/hssp.rs:184-310 | each round takes the first remaining candidate of greatest gain |
| Greedy.RemovedShape | rustuna_core/src/multi_objective/hssp.rs:203-229 | what a pick leaves: the last entry moved into its place on the general path, the rest shifted down on the two-objective one |
| Greedy.GreedyApproximation | rustuna_core/src/multi_objective/hssp.rs:33-40 | k^k (OPT - H) <= (k-1)^k OPT for the picks against any k candidates, which is the (1 - (1 - 1/k)^k) guarantee without e |
| LazyGreedy.LazyPick | rustuna_core/src/multi_objective/hssp.rs:184-310 | an exact maximal bound among upper bounds is a true maximiser of the gain |
| LazyGreedy.LazyUpdate | rustuna_core/src/multi_objective/hssp.rs:243-310 | the bound update walks candidates by stale bound and stops early; afterwards every entry is an upper bound on its gain and the maximal entry is exact |
| LazyGreedy.SelectLazily | rustuna_core/src/multi_objective/hssp.rs:184-310 | the lazy greedy with stale bounds and in-place `swap_remove` makes exactly the picks of plain greedy, first among ties |
| Hssp2d.RectangleGain | rustuna_core/src/multi_objective/hssp.rs:337-402 | the shrinking rectangle of a candidate has exactly the area of its marginal hypervolume over the picks so far |
| Hssp2d.CapKeepsDescription | rustuna_core/src/multi_objective/hssp.rs:337-402 | capping one side of each rectangle after a pick keeps every rectangle equal to what the picks leave of the candidate's box |
| Hssp2d.SolveHssp2d | rustuna_core/src/multi_objective/hssp.rs:337-402 | the two-objective solver makes exactly the picks of plain greedy over lexicographically ordered candidates, for all rows, mutually non-dominated or not |
| Hssp.Solver.HypervolumeSubsetSelection | rustuna_core/src/multi_objective/hssp.rs:41-326 | dispatch, NaN policy and memo together return the named indices of the specified selection; the memo never changes an answer |
| Hssp.Solver.Probe | rustuna_core/src/multi_objective/hssp.rs:102-150 | a memo hit is the selection for the rows, indices, reference and size asked for |
| Hssp.Solver.SelectClean | rustuna_core/src/multi_objective/hssp.rs:152-326 | both greedy paths select what plain greedy selects |
| Hssp.SelectionPaths | rustuna_core/src/multi_objective/hssp.rs:152-182 | two objectives with finite rows meet the candidates in lexicographic order, all others in input order with the last one moved into the place of each pick |
| Hssp.NewEntryTruthful | rustuna_core/src/multi_objective/hssp.rs:24-31 | an entry that matches on flat values, indices, size and reference belongs to the same rows |
| SelectionQuality.SelectionDistinct | rustuna_core/src/multi_objective/hssp.rs:41-326 | no position is selected twice, padding with NaN rows included |
| SelectionQuality.SelectionNests | rustuna_core/src/multi_objective/hssp.rs:203-229 | a smaller selection is contained in a larger one, on every path |
| SelectionQuality.NanRowsLast | rustuna_core/src/multi_objective/hssp.rs:41-326 | a row with NaN is selected only once every clean row is |
| SelectionQuality.SelectionOrder | rustuna_core/src/multi_objective/hssp.rs:41-326 | clean rows come first, then rows with NaN in input order, none skipped |
| SelectionQuality.SelectionIsGreedy | rustuna_core/src/multi_objective/hssp.rs:41-326 | when clean rows are left over, every row selected gains the most of all rows at its turn, whichever path selected it |
| SelectionQuality.SelectionApproximation | rustuna_core/src/multi_objective/hssp.rs:33-40 | the approximation guarantee for the whole selection, any rows, NaN rows included |
| Chains.CertifiedDepth | rustuna_core/src/multi_objective/nds.rs:40-180 | ranks that grow along dominance and have a witness one below are the lengths of the longest dominance chains |
| Chains.CertifiedAgree | rustuna_core/src/multi_objective/nds.rs:40-180 | two rankings that stop at different limits agree wherever both are exact |
| Nds.FirstAbove | rustuna_core/src/multi_objective/nds.rs:113-123 | the binary search finds the first entry that exceeds the value |
| Nds.PatienceRanks | rustuna_core/src/multi_objective/nds.rs:92-134 | the two-objective patience sweep gives each row its chain depth, equal rows sharing a rank |
| Nds.PeelRanks | rustuna_core/src/multi_objective/nds.rs:136-180 | the peel loop gives each emitted row its chain depth, emits at least `n_below` rows (or all) and no layer more than that takes, and gives the rest one larger rank |
| Nds.FastNonDominatedSortPartial | rustuna_core/src/multi_objective/nds.rs:40-180 | on every path: exact depths for at least `n_below` clean rows, a larger sentinel for the unranked, and one shared rank just above every clean one for NaN rows; all clean rows are exact for two objectives, and no layer more than needed otherwise |
| Nds.RankIsDepth | rustuna_core/src/multi_objective/nds.rs:40-180 | an emitted rank is the length of the longest strict-dominance chain; the sentinel is a lower bound for it |
| ParetoFront.DominatesValues | rustuna_core/src/study.rs:535-555 | the loop with early return decides strict dominance of the losses under the directions |
| ParetoFront.GetParetoFront | rustuna_core/src/study.rs:491-530 | exactly the undominated trials in order, or an error for values that do not validate |
| ParetoFront.RankZeroIsFront | rustuna_core/src/multi_objective/nds.rs:40-180 | rank 0 of the fast sort is the naive Pareto front |
| Split.SplitFeasible | rustuna_core/src/multi_objective/split.rs:109-276 | whole ranks while they fit, then infinite rows and a hypervolume subset selection of the boundary rank; the loop over ranks terminates |
| SplitQuality.SplitPartitions | rustuna_core/src/multi_objective/split.rs:109-276 | the promising and the poor side are disjoint, cover all positions, and exactly `gamma` are promising |
| SplitQuality.GoodIsExact | rustuna_core/src/multi_objective/split.rs:143-258 | no clean row without an exact rank is ever promising |
| SplitQuality.NoPoorDominatesGood | rustuna_core/src/multi_objective/split.rs:109-276 | no poor observation dominates a promising one |
| SplitQuality.NanGoodLast | rustuna_core/src/multi_objective/split.rs:109-276 | an observation with NaN is promising only once every clean one is |
| SplitQuality.WholeRanksFirst | rustuna_core/src/multi_objective/split.rs:143-258 | no promising row is deeper in the dominance order than a row left out |
| SplitQuality.BoundaryOrder | rustuna_core/src/multi_objective/split.rs:143-258 | of the boundary rank, rows with -inf are taken first and rows with +inf last |
| SplitQuality.ReferenceMargin | rustuna_core/src/multi_objective/split.rs:225-232 | the reference lies beyond the worst loss of an objective by a tenth of its size, or by a little if it is zero |
| SplitQuality.InsideReference | rustuna_core/src/multi_objective/split.rs:213-243 | every finite clean row of the boundary rank lies strictly inside the reference and so measures more than nothing |
| SplitQuality.BoundaryPicksNest | rustuna_core/src/multi_objective/split.rs:143-258 | the picks from the boundary rank nest, because neither its rows nor its reference depend on how many are taken |
| SplitQuality.FinitePicksApproximation | rustuna_core/src/multi_objective/split.rs:143-258 | the t picks among the finite rows of the boundary rank measure at least 1 - (1 - 1/t)^t of any t of them |
| SplitQuality.GoodNests | rustuna_core/src/multi_objective/split.rs:143-258 | the promising set of a smaller quota is contained in that of a larger one, although each call ranks only as far as its own quota needs |
| SplitObservations.SplitInfeasible | rustuna_core/src/multi_objective/split.rs:278-313 | the `gamma` least violating infeasible observations are promising |
| SplitObservations.SplitAll | rustuna_core/src/multi_objective/split.rs:64-107 | a partition with exactly `gamma` promising observations in which no feasible poor one dominates a feasible promising one, no clean feasible one is poor while a feasible one with NaN is promising, no infeasible one is promising while a feasible one is poor, and violations of promising infeasible ones never exceed those of poor ones; with enough feasible ones the promising set is that of the hypervolume split |
| SplitObservations.PartitionDisjoint | rustuna_core/src/multi_objective/split.rs:64-107 | the two sides share no index and repeat none |
| PedAnova.GetTopQuantileTrials | rustuna_importance/src/ped_anova.rs:124-173 | each branch returns the top set it is named for: all trials, the promising set of a split, or the values at most a threshold |
| PedAnova.TopSetMeaning | rustuna_importance/src/ped_anova.rs:124-173 | with a target or one objective, no trial left out is at least as good as one kept, at least the rounded-up share of the trials is kept, and fewer than that are better than the worst one kept; with several objectives exactly the rounded-up share is kept |
| PedAnova.TopSetsNest | rustuna_importance/src/ped_anova.rs:124-173 | for a smaller quantile the top set is contained in that of a larger one, on every branch |
| PedAnova.TargetAndRegion | rustuna_importance/src/ped_anova.rs:239-244 | the subset assertion of the evaluator always holds |
| StudyCaches.Update | rustuna_core/src/study_cache.rs:43-69 | one reverse pass moves the cursor to the oldest unfinished trial and narrows the space to the entries shared by all complete trials from the cursor on |
| StudyCaches.JointSearchSpace | rustuna_core/src/study_cache.rs:32-41 | exactly the shared entries that can take more than one value |
| Trials.SingleExactly | rustuna_core/src/distribution.rs:120-146 | which distributions count as taking a single value: those that do, and those with a step that exceed it by less than the tolerance |
| Trials.TwoValuesSingle | rustuna_core/src/distribution.rs:120-146 | a distribution with two values that counts as single |
| Backend.SharedBackend.GetTrialsDiff | rustuna_storage/src/sqlite3.rs:1527-1744 | exactly the visible rows that are listed or beyond the cursor |
| Backend.SharedBackend.GetDiscardedTrialsDiff | rustuna_storage/src/sqlite3.rs:342-399 | exactly the rows stamped at or after the cursor, and the latest stamp among them |
| DiscardCursors.SinceByText | rustuna_storage/src/sqlite3.rs:355-397 | for stamps in years 0 to 9999 the textual comparison with the cursor, the empty string for none, selects the rows stamped at or after it |
| DiscardCursors.GetDiscardedTrialsDiff | rustuna_storage/src/sqlite3.rs:385-397 | the loop over texts reads the rows that the backend contract names, and its greatest text is the text of the latest stamp |
| Backend.SharedBackend.DiscardTrials | rustuna_storage/src/sqlite3.rs:275-340 | first stamps are kept, the others get the current time, and an unknown id leaves no trace |
| Backend.StampMeaning | rustuna_storage/src/sqlite3.rs:275-340 | a stamp is the time of the first discard that named the trial; no other row and nothing else of it changes |
| Backend.SharedBackend.SetTrialStateValues | rustuna_storage/src/sqlite3.rs:726-862 | refuses empty objective values, unknown and finished trials, and otherwise replaces the state only |
| Backend.EvolvesTransitive | rustuna_storage/src/cache.rs:108-116 | what other processes may do composes: identities and first stamps stay, finished trials never change, stamps never go backwards |
| CacheInvariant.RefreshSyncs | rustuna_storage/src/cache.rs:169-234 | from any state that satisfies the invariant, a refresh makes the cached slots equal what the backend shows |
| CacheInvariant.InvEvolves | rustuna_storage/src/cache.rs:169-265 | no step of another process breaks the invariant of the unfinished list, the last-finished cursor and the discard cursor |
| CacheInvariant.NothingNew | rustuna_storage/src/cache.rs:199-201 | a refresh that reads nothing had nothing to do |
| CacheInvariant.RefreshInv | rustuna_storage/src/cache.rs:203-265 | the bookkeeping recomputed after a refresh satisfies the invariant again |
| CacheInvariant.RegisterInv | rustuna_storage/src/cache.rs:339-415 | registering a created trial keeps the invariant, whether or not the lower slots were fresh |
| CacheInvariant.ClearInv | rustuna_storage/src/cache.rs:764-784 | clearing slots of discarded trials keeps the invariant |
| CacheInvariant.JointSpaceBounds | rustuna_storage/src/cache.rs:227-230 | every entry of the incremental space takes more than one value and is shared by all visible complete trials; once this process has seen a complete trial, all entries come from one complete trial of the study and every entry shared by all complete trials ever is there, even if all of them have been discarded; before, the space is empty |
| CacheInvariant.LowerBoundExactly | rustuna_storage/src/cache.rs:227-230 | the space contains what all complete trials ever agree on if and only if this process has seen a complete trial or there is nothing they agree on |
| CacheInvariant.SeenAfter | rustuna_storage/src/cache.rs:227-230 | after a refresh this process has seen a complete trial if and only if it had before or one is visible now |
| CacheInvariant.JointSpaceExact | rustuna_core/src/study_cache.rs:32-69 | without discards the incremental space is the intersection computed from scratch |
| CachedStorages.CachedStorage.constructor | rustuna_storage/src/cache.rs:153-167 | an empty cache over any backend satisfies the invariant |
| CachedStorages.CachedStorage.OtherProcesses | rustuna_storage/src/cache.rs:106-122 | any evolution of the backend between two calls leaves the invariant intact |
| CachedStorages.CachedStorage.OtherClient | rustuna_storage/src/cache.rs:106-122 | two clients of one backend keep each other valid: a client that did nothing stays valid over any call of another one |
| CachedStorages.CachedStorage.RefreshTrials | rustuna_storage/src/cache.rs:169-234 | afterwards the cached trials of the study are what the backend shows, other studies are untouched, and the invariant holds |
| CachedStorages.ApplyDiff | rustuna_storage/src/cache.rs:203-225 | loaded trials are written, then discarded slots cleared, and the list grows exactly as far as either reaches |
| CachedStorages.CachedStorage.RecomputeTrialBookkeeping | rustuna_storage/src/cache.rs:236-265 | the unfinished list holds exactly the cached unfinished trials, and the cursor becomes the largest of its old value and the numbers of finished trials and, where discards are applied, of empty slots |
| CachedStorages.CachedStorage.ResolveTrialLocation | rustuna_storage/src/cache.rs:267-282 | the backend's location of the trial, refreshing its study when the cache did not know it |
| CachedStorages.CachedStorage.CreateNewStudy | rustuna_storage/src/cache.rs:306-321 | a fresh study, empty in cache and backend |
| CachedStorages.CachedStorage.CreateNewTrial | rustuna_storage/src/cache.rs:339-368 | one row under a new id is appended to the backend, every slot up to it is loaded or discarded, and the cache knows where the trial lives |
| CachedStorages.CachedStorage.CreateNewTrialFromTemplate | rustuna_storage/src/cache.rs:370-415 | the same for a proper template, finished or not; which templates are refused with which error, and that one without objective values leaves a running trial in the backend |
| CachedStorages.CachedStorage.SetTrialParam | rustuna_storage/src/cache.rs:417-480 | succeeds if and only if the trial is visible, unfinished and the distribution compatible; then the parameter and its distribution are there, every other entry of the trial is as it was, cache and backend agree, and the distribution is recorded for the study; otherwise nothing is written or recorded and the error says which check failed first |
| StudyCaches.AcceptedCompatible | rustuna_storage/src/cache.rs:417-480 | over any number of accepted parameters, all distributions recorded under one name are compatible with each other |
| Trials.CompatibleClasses | rustuna_core/src/distribution.rs:1-118 | two distributions are compatible exactly if they are of one kind and one scale, or categorical of one size |
| CachedStorages.CachedStorage.SetTrialStateValues | rustuna_storage/src/cache.rs:482-517 | succeeds if and only if the trial is visible and unfinished and the values are proper; the backend takes the new state exactly when the cache did not know of a discard, even though the call then fails; which error is returned when |
| CachedStorages.CachedStorage.SetTrialIntermediateValues | rustuna_storage/src/cache.rs:519-550 | succeeds if and only if there is nothing to write or the trial is visible and unfinished; then the steps named have the new values and everything else of the trial is as it was; otherwise the error says which check failed first |
| CachedStorages.CachedStorage.SetTrialAttrs | rustuna_storage/src/cache.rs:692-731 | succeeds if and only if the trial is visible, unfinished and no forbidden overwrite occurs; then the keys named have the new values and everything else of the trial is as it was; otherwise the error says which check failed first |
| CachedStorages.CachedStorage.GetTrials | rustuna_storage/src/cache.rs:571-582 | every slot equals the backend's trial of its number and is empty exactly when discards apply and the trial is discarded; fails only for a study never cached that holds no trial; when this process has seen a complete trial |
| CachedStorages.CachedStorage.GetTrial | rustuna_storage/src/cache.rs:584-590 | the backend's trial; refused exactly when it is hidden and was not already cached as finished |
| CachedStorages.CachedStorage.GetCachedTrial | rustuna_storage/src/cache.rs:596-611 | what the cache holds; a finished trial is always the backend's |
| CachedStorages.CachedStorage.GetTrialNumberFromId | rustuna_storage/src/cache.rs:613-622 | the number of every existing trial |
| CachedStorages.CachedStorage.GetTrialIdFromStudyIdTrialNumber | rustuna_storage/src/cache.rs:655-670 | the inverse of the number lookup, for visible trials |
| CachedStorages.CachedStorage.GetJointSearchSpace | rustuna_storage/src/cache.rs:733-738 | which of its bounds the space meets, by whether this process had seen a complete trial before the call or one is visible now: both bounds if so, empty if not; exact when nothing was discarded |
| CachedStorages.CachedStorage.DiscardTrials | rustuna_storage/src/cache.rs:744-784 | all named trials are stamped and forgotten, or none if one is unknown |
| Surprises.AgreedParameterIsMissed | rustuna_storage/src/cache.rs:733-738 | a run in which all complete trials have a parameter that the joint search space lacks |
| Surprises.RefusedTemplateLeavesTrial | rustuna_storage/src/cache.rs:370-415 | a run in which a refused template leaves a running trial behind |
| Surprises.RefusedStateIsRecorded | rustuna_storage/src/cache.rs:482-517 | a run in which a state change is refused as discarded and the backend nevertheless holds the new state |
| Surprises.EmptyStudyIsMissing | rustuna_storage/src/cache.rs:571-582 | a run in which an existing study is reported missing |
| Surprises.DiscardedTrialIsServed | rustuna_storage/src/cache.rs:584-590 | a run in which a discarded trial is still served |
| Bandwidths.SameBinClose | rustuna_core/src/parzen_estimator/model.rs:261-266 | values in one bin are no farther apart than its width, so they cannot lift the floor |
| Bandwidths.BinnedSigmas | rustuna_core/src/parzen_estimator/model.rs:267-302 | the bucket pass returns, for every index and duplicates included, the specified bandwidth, and declines exactly when there are fewer than two observations or one lies outside |
| Bandwidths.SortedSigmas | rustuna_core/src/parzen_estimator/model.rs:352-380 | the stable sort, neighbour gaps and clamp return the same bandwidths for any observations |
| Bandwidths.Sigmas | rustuna_core/src/parzen_estimator/model.rs:342-380 | whichever path runs, each bandwidth is the larger distance to the sorted neighbours, clamped, and the prior's is the width of the space |
| Bandwidths.BandwidthMeaning | rustuna_core/src/parzen_estimator/model.rs:342-380 | a bandwidth is the larger gap to the nearest observation before and after it, or the larger distance to the end points for a single one, and the nearer bound where that lies outside the bounds |
| Datetime.CalendarWalk | rustuna_core/src/datetime.rs:107-129 | day 0 is 1970-01-01 and every day is followed by its successor under the Gregorian leap rule (section 5.7 and Appendix C of RFC 3339), for all integers |
| Datetime.DaysToDate | rustuna_core/src/datetime.rs:107-129 | the result is always a valid date, and its day number is the input |
| Datetime.DateToDays | rustuna_core/src/datetime.rs:107-129 | every valid date is reached: with `DaysToDate`, a bijection |
| Datetime.LaterDays | rustuna_core/src/datetime.rs:107-129 | later days have later dates |
| Datetime.PartsOrder | rustuna_core/src/datetime.rs:67-83 | calendar fields compare as the instants do, before and after the epoch |
| Datetime.PartsAreInstant | rustuna_core/src/datetime.rs:67-83 | hour, minute and second are in range, and together with the day number of the date they make up the instant |
| Datetime.TimestampReads | rustuna_core/src/datetime.rs:85-102 | for instants in years 0 to 9999 the separators stand at their places and the digits between them read as the fields |
| Datetime.TimestampsOrdered | rustuna_core/src/datetime.rs:131-139 | for instants in years 0 to 9999 the rendered timestamps have 26 characters and compare as strings exactly as the instants compare in time |
| Datetime.FourDigitDays | rustuna_core/src/datetime.rs:85-102 | which days have a four-digit year |
| Nsga2.ConstrainedStrict | rustuna_sampler/src/nsgaii.rs:679-700 | constrained dominance is irreflexive and transitive |
| Nsga2.PreferredDominates | rustuna_sampler/src/nsgaii.rs:679-700 | complete trials dominate unfinished ones, feasible ones infeasible ones, better values worse ones, and of two infeasible ones the one that exceeds its constraints by less |
| Nsga2.ViolationFacts | rustuna_sampler/src/nsgaii.rs:727-728 | the violation is zero exactly on feasible lists, additive, and the excess of a single constraint |
| Nsga2.CountDominance | rustuna_sampler/src/nsgaii.rs:734-750 | after the pairwise loop each count is the number of dominators and each list holds exactly the dominated positions |
| Nsga2.Release | rustuna_sampler/src/nsgaii.rs:771-775 | taking a placed position out of the counts never decrements a count of zero |
| Nsga2.SortPositions | rustuna_sampler/src/nsgaii.rs:702-784 | the counting sort terminates and returns the layers of constrained dominance |
| Nsga2.SortIsDepth | rustuna_sampler/src/nsgaii.rs:702-784 | every position occurs once, in the layer of its chain depth under constrained dominance |
| Nsga2.PreferredEarlier | rustuna_sampler/src/nsgaii.rs:702-784 | whatever is preferred for one of these reasons is in an earlier layer of the sort |
| Nsga2.FeasibleAgrees | rustuna_sampler/src/nsgaii.rs:702-784 | on feasible complete populations the layers are the ranks of the lexicographic sort |
| Layers.PeelLayered | rustuna_sampler/src/nsgaii.rs:753-783 | peeling a strict partial order: ranks grow along the relation and each positive rank has a dominator one layer below |
| Layers.PeelPartitions | rustuna_sampler/src/nsgaii.rs:753-783 | the layers hold every entry exactly once and none is empty |
| Layers.SwapRemoveAt | rustuna_sampler/src/nsgaii.rs:753-770 | taking an entry moves the last one into its place and leaves every other where it is |
| Elitism.FastNonDominatedSort | rustuna_sampler/src/nsgaii.rs:702-784 | the ranks of trial numbers, or an error exactly when a trial is discarded, its values do not validate or a stored constraint is not a number |
| Elitism.SelectElite | rustuna_sampler/src/nsgaii.rs:304-324 | whole ranks while they fit, then the first of the reordered next rank |
| Elitism.EliteFacts | rustuna_sampler/src/nsgaii.rs:304-324 | the elite has the population size, or all candidates if fewer, and consists of candidates |
| Elitism.EliteShape | rustuna_sampler/src/nsgaii.rs:304-324 | the elite is the first ranks as long as they fit and then the front of the reordered next rank |
| Elitism.EliteKeepsBetter | rustuna_sampler/src/nsgaii.rs:304-324 | nothing left out is less deep in the dominance order than anything kept, for any candidate list, repetitions included |
| Elitism.LeftOutNeverBeats | rustuna_sampler/src/nsgaii.rs:304-324 | no candidate left out dominates one that is kept |
| Elitism.SameTrialDepth | rustuna_sampler/src/nsgaii.rs:304-324 | a trial named twice among the candidates has one depth, so it is in one rank only |
| Elitism.FirstRank | rustuna_sampler/src/nsgaii.rs:753-783 | the first rank is exactly what no candidate dominates |
| Elitism.GetChildGeneration | rustuna_sampler/src/nsgaii.rs:326-348 | the first generation that is not full; the search terminates |
| Elitism.GetParents | rustuna_sampler/src/nsgaii.rs:350-391 | the fold over missing generations; a list is saved for every generation from the first missing one to the last recomputed and no other, the parents are the last of them, and each is the list that recomputation from generation 1 gives |
| Elitism.StopsAtChild | rustuna_sampler/src/nsgaii.rs:350-391 | when all earlier generations are full, the recomputation reaches the child generation |
| Elitism.ResumeIsRecompute | rustuna_sampler/src/nsgaii.rs:350-391 | resuming from a persisted list equal to the fold gives the parents that starting from generation 1 gives |
| Elitism.ParentsSize | rustuna_sampler/src/nsgaii.rs:350-391 | the parents of every generation number exactly the population size and come from earlier generations |
| Elitism.ParentsKeepBetter | rustuna_sampler/src/nsgaii.rs:350-391 | at every generation of the fold, of the previous generation and its parents nothing left out is less deep than, or dominates, anything kept |
| Elitism.ParentsKeepFront | rustuna_sampler/src/nsgaii.rs:350-391 | over any number of generations, as long as every first rank fits, the parents hold every trial that no trial of the earlier generations dominates |
| InMemory.InMemoryStorage.constructor | rustuna_core/src/storage.rs:198-225 | an empty storage satisfies the invariant |
| InMemory.InMemoryStorage.CreateNewStudy | rustuna_core/src/storage.rs:336-356 | a study id never in use, listed under its name, or an error for a taken name; no two studies share a name |
| InMemory.InMemoryStorage.DeleteStudy | rustuna_core/src/storage.rs:358-371 | a study goes with its trials and both directions of their ids; used trial ids stay used |
| InMemory.InMemoryStorage.CreateNewTrial | rustuna_core/src/storage.rs:373-383 | an id never used before, at the next number |
| InMemory.InMemoryStorage.CreateNewTrialFromTemplate | rustuna_core/src/storage.rs:385-402 | the same for a template |
| InMemory.InMemoryStorage.InsertStudyWithId | rustuna_core/src/storage.rs:227-254 | a chosen id is inserted once; a study that exists is returned exactly if it has the given name, and nothing changes |
| InMemory.InMemoryStorage.InsertTrialWithId | rustuna_core/src/storage.rs:256-284 | the next number under an unused id is appended, a live trial is returned exactly if it has the given id, anything else is refused with the error for its cause |
| InMemory.InMemoryStorage.SetTrialParam | rustuna_core/src/storage.rs:404-436 | the parameter and its distribution are there, every other entry of the trial is as it was, and the distribution is recorded, if the trial is unfinished and live and the distribution fits; every other slot and study stays |
| InMemory.InMemoryStorage.SetTrialStateValues | rustuna_core/src/storage.rs:438-461 | exactly the state of an unfinished live trial changes; a finished one never does; every other slot stays |
| InMemory.InMemoryStorage.SetTrialIntermediateValues | rustuna_core/src/storage.rs:463-478 | the steps named of an unfinished live trial have the new values, everything else of it is as it was; every other slot stays |
| InMemory.InMemoryStorage.SetTrialAttrs | rustuna_core/src/storage.rs:577-598 | attributes are written in the order visited up to the first forbidden overwrite, and what was written stays; every other attribute, the rest of the trial and every other slot are as they were |
| InMemory.InMemoryStorage.GetTrial | rustuna_core/src/storage.rs:506-519 | the trial at its own number unless it was discarded |
| InMemory.InMemoryStorage.GetTrialNumberFromId | rustuna_core/src/storage.rs:521-525 | the number is the position, in the history of its study, of the trial with this id, discarded or not |
| InMemory.InMemoryStorage.GetTrialIdFromStudyIdTrialNumber | rustuna_core/src/storage.rs:547-555 | the other direction, discarded trials included |
| InMemory.InMemoryStorage.GetNTrials | rustuna_core/src/storage.rs:607-635 | the number of trials the study ever had whose last state is one of those asked for |
| InMemory.InMemoryStorage.DiscardTrials | rustuna_core/src/storage.rs:637-660 | clears exactly the known trials named before the first unknown id; the history, and with it every count, stays |
| InMemory.InMemoryStorage.GetJointSearchSpace | rustuna_core/src/storage.rs:600-605 | which of its bounds the space meets, by whether a complete trial was there at this call or an earlier one: both bounds if so, empty if not; exact when nothing was discarded |
| InMemory.TallySplit | rustuna_core/src/storage.rs:607-635 | live trials and recorded discards together make up the history, state by state |
| Surprises.AgreedParameterIsMissedInMemory | rustuna_core/src/storage.rs:600-605 | the same for the in-memory storage |
| Surprises.RefusedAttrsAreKept | rustuna_core/src/storage.rs:577-598 | a run in which an attribute stays written although the call is refused |
| Surprises.RefusedDiscardsAreKept | rustuna_core/src/storage.rs:637-660 | a run in which a discard stays although the call fails |

## Left out

- Floating-point rounding, overflow and signed zero: losses and bandwidths are exact. The branch of
  the lazy greedy that guards against a hypervolume overflowing to infinity is not modelled, and an
  infinite loss enters the general greedy as a very large number.
- Units: losses are whole ticks, so the reference of the boundary rank (1.1 or 0.9 times the worst
  loss, or a smallest step) is computed on tenths of ticks.
- Nds.FastNonDominatedSortPartial: the assertion that all rows have one width is a precondition.
- Hssp.Solver.HypervolumeSubsetSelection: rows of one width are a precondition, so the memo's check
  against rows of mixed widths is not modelled.
- Bandwidths.Sigmas: the logarithms of a logarithmic search space are taken before the model begins,
  and the NaN that starts the forward and backward pass is an absent value.
- CachedStorages.CachedStorage.GetTrials: interleavings of other processes inside one client call,
  and study deletion with reuse of ids, are excluded by the assumptions above.
- CachedStorages.CachedStorage.SetTrialParam: compatibility is enforced against the distributions
  this process recorded itself, as in the code; agreement across processes is not claimed.
- Backend.SharedBackend.GetTrialsDiff: the SQL behind the contract, its transactions and schema
  migration are not part of this model.
- StudyCaches.Update: the study cache is a value that the storage stores back, not an object updated
  in place.
- Elitism.SelectElite: crowding distances are not modelled; their sort is an arbitrary deterministic
  reordering of the boundary rank. Its panic on unfinished trials in that rank is not modelled.
- Elitism.GetParents: a generation that grows after its parents were persisted makes the persisted
  list differ from a recomputation; the equality is stated for a list that equals the fold. Encoding
  the lists as JSON and the cache of generations are parameters.
- Elitism.FastNonDominatedSort: a stored constraint that reads as NaN is not modelled; constraints are
  exact numbers, and setting a NaN constraint is refused (rustuna_core/src/trial.rs:268-278).
- PedAnova.GetTopQuantileTrials: values and targets are finite, as the trials that the evaluator keeps
  are (rustuna_importance/src/common.rs:133-142), so comparisons with NaN are not modelled.
- SplitQuality.FinitePicksApproximation: a reference that overflows is excluded.
- InMemory.InMemoryStorage.SetTrialAttrs: the hash map's visiting order is the order of the list.
- Library sorts are written as insertion sorts; only their contract is used.
- Random sampling, crossover, mutation, truncated normal distributions and the evaluation of
  importances beyond the two top sets.
- Study attributes, category labels, study listing and the trial count of the caching storage, trial
  datetimes: plain delegation or field access.
- The trial queues, whose atomicity rests on a mutex, a file rename or the database, and the Python
  and JavaScript bindings.
