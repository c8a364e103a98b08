# Sandbox benchmarks: verified model

A Dafny model of the parts of the sandbox benchmark suite whose correctness rests on an argument rather
than on a type. Check it with `dafny verify dfyconfig.toml`.

- **Statistics** (`Coverage`, `Sorting`, `OrderStatistics`, `Aggregates`, `Bootstrap`, `KolmogorovSmirnov`, `Choose`,
  `Splits`, `Midranks`, `ExactNull`, `MannWhitney`, `MannWhitneyLaws`, `Separation`). Samples are `real`,
  doubled ranks and counts are integers, a split of the pool is a set of indices. Loops over buffers stay
  loops over arrays and are proved equal to textbook definitions; the statistical claims are proved of those.
- **Shared preparation** (`Preparation`, `PreparationOutcomes`, `PreparationHost`). The protocol is a state machine whose steps are
  chosen by an adversary: callers, timers, signals and runner outcomes in any order. The mutable state is a
  class whose methods are shown to be its steps.
- **Failed creates** (`Observations`, `FailedCreate`, `CreateOwnership`). The environment alone writes the
  history of what it answered; the clock, the CLI and the signals are arbitrary. The answers amount to a log of
  observations, and a name is given up exactly when that log is conclusive, which is proof in the answers.
- **Redaction** (`Redaction`). Argument lists and echoed text.
- **Canonical JSON** (`JsonText`, `JsonTree`, `CanonicalTree`, `CanonicalJson`). Strings are sequences of
  UTF-16 code units; a reader after the grammar of RFC 8259 is the printer's partner.
- **Suite create** (`SuiteCreate`). The attempt loop over a clock, a deadline and a pending create.
- **Generated regions** (`TextLines`, `RegionLines`, `GeneratedRegion`, `WiringFiles`). The rewriter works on
  text and is proved to rewrite lines; fixed point, frame and commutation are proved on lines.
- **Cost totals** (`ProviderCost`) and **request pacing** (`RequestPacer`).

`Wrappers` holds `Option` and `Result`; `Reals` and `Sequences` hold what several parts share. A JavaScript throw is an `Err` that says which throw was taken.

## What the proofs show about the code

- A secret that starts or ends with `*`, or contains `***`, can survive redaction
  (`Redaction.RedactedIffSafe`); every other secret cannot.
- Overlapping occurrences of one secret leave a tail (`Redaction.OverlapLeavesTail`); an occurrence that no
  other secret sticks out of is masked whole (`Redaction.OccurrenceIsMaskedWhole`).
- The canonical text depends on insertion order as soon as two different keys collate equal
  (`CanonicalTree.OrderIgnoredIffTotal`). Equal texts always mean equal trees.
- A second generator run fails exactly when a body contains a marker line of its own region
  (`RegionLines.RewritesAgain`).
- A request that reserved its slot before a rate-limited answer can be sent during the pause; exactly those
  reserved after it cannot (`RequestPacer.ProtectedIffReservedLater`).
- If the budget is spent before the create command is issued, `create` still throws a cleanup error with an
  owner, for a name that was never used (`CreateOwnership.Driver.Create`).
- The absence horizon is measured between answers. A cleanup call can accept an absence it asked about before
  the horizon had passed, exactly when it was made before then (`Observations.NeverEarlyIffHorizonPassed`).
- The attainable floor of the rank-sum test is not a function of the sample sizes: ties can halve it
  (`Separation.TiesHalveTheFloor`).

## Model

| member | source | states |
|---|---|---|
| OrderStatistics.SelectNth | packages/schema/src/analysis.ts:62-93 | in-place quickselect returns and stores the k-th order statistic of the prefix, with nothing larger before it and nothing smaller after it; the prefix is permuted and the rest of the buffer untouched |
| OrderStatistics.Partition | packages/schema/src/analysis.ts:71-86 | one three-way pass permutes only its window and leaves it below, equal to and above the pivot |
| OrderStatistics.MedianInPlace | packages/schema/src/analysis.ts:100-118 | the in-place median is the middle order statistic of an odd prefix and the mean of the two middle ones of an even prefix, the 0.5 percentile of the sorted prefix; ties allowed, the buffer past the prefix untouched |
| OrderStatistics.TailMinimum | packages/schema/src/analysis.ts:112-116 | the scan above the lower middle finds the least element of the tail, with a position that holds it |
| OrderStatistics.PartitionSelects | packages/schema/src/analysis.ts:62-93 | any arrangement partitioned at k has at k what sorting puts there |
| OrderStatistics.TailMinimumSelects | packages/schema/src/analysis.ts:100-118 | the smallest element after a partition point is the next order statistic, wherever it stands |
| OrderStatistics.PassNarrows | packages/schema/src/analysis.ts:87-91 | after a pass the window can shrink to the side that holds k, and an index between the parts already holds the pivot |
| OrderStatistics.MedianFromSelection | packages/schema/src/analysis.ts:100-118 | a selected lower middle and the least of the tail above it average to the sorted median |
| OrderStatistics.MedianOfOddLength | packages/schema/src/analysis.ts:34-41 | an odd number of samples has its middle order statistic as median |
| OrderStatistics.MedianOfEvenLength | packages/schema/src/analysis.ts:34-41 | an even number of samples has the midpoint of its two middle order statistics as median |
| OrderStatistics.PercentileInterpolates | packages/schema/src/analysis.ts:34-41 | the R-7 rule in numbers: between order statistics k and k + 1 a percentile moves in proportion to (n - 1)p - k |
| OrderStatistics.PercentileOfReads | packages/schema/src/analysis.ts:127-144 | the same rule for samples in any order, for every level and every k around its position |
| OrderStatistics.PercentileInRange | packages/schema/src/analysis.ts:34-41 | no percentile leaves the range of its samples |
| OrderStatistics.PercentileMonotone | packages/schema/src/analysis.ts:34-41 | a higher level never reads a lower value |
| OrderStatistics.PercentileEnds | packages/schema/src/analysis.ts:34-41 | levels 0 and 1 read the minimum and the maximum |
| OrderStatistics.PercentileOfIgnoresOrder | packages/schema/src/analysis.ts:127-144 | a value exactly for samples and a level in [0, 1], the empty sample refused first, and no dependence on the order of the samples |
| Aggregates.WelfordStep | packages/schema/src/analysis.ts:147-184 | one more sample keeps the running mean and the running sum of squared deviations exact |
| Aggregates.ParallelAxis | packages/schema/src/analysis.ts:147-184 | moving the centre changes the squared deviations as the parallel-axis identity says |
| Aggregates.ComputeAggregate | packages/schema/src/analysis.ts:147-184 | the one-pass result is the textbook distribution: mean = sum/n, squared deviations around that mean, true extremes, sorted percentiles; no samples is an error |
| Aggregates.DistributionInNumbers | packages/schema/src/analysis.ts:174-183 | n times the mean is the sum, n - 1 times the variance the squared deviations from it (0 for one sample), and the percentiles are those of levels 0.5, 0.95, 0 and 1 |
| Aggregates.AggregateIsOrdered | packages/schema/src/analysis.ts:147-184 | min <= p50 <= p95 <= max, min <= mean <= max, the extremes are the true ones and the variance is never negative |
| Aggregates.AggregateIgnoresOrder | packages/schema/src/analysis.ts:147-184 | permuting the samples changes no field |
| Bootstrap.FillResample | packages/schema/src/analysis.ts:335 | every drawn index is in range for every generator into [0, 1), and a resample fills exactly its stretch of the buffer |
| Bootstrap.OptionsInNumbers | packages/schema/src/analysis.ts:308-320 | 0.95 and 10 000 unless given; a coverage outside (0, 1) is refused before a resample count below 1 |
| Bootstrap.EnvelopeReports | packages/schema/src/analysis.ts:338-347 | lo and hi are the percentiles (1 - level)/2 and (1 + level)/2 of the resampled medians |
| Bootstrap.FlatIntervalReports | packages/schema/src/analysis.ts:322-347 | a single sample is its own interval; otherwise the bounds are percentiles of the medians of resamples, each from its own stretch of the stream, one draw a sample |
| Bootstrap.ClusterPoolDraws | packages/schema/src/analysis.ts:384-390 | every cluster draw spends one uniform on a replicate and one on each of its samples, and the pool is those resamples one after another |
| Bootstrap.FlattenKeepsCounts | packages/schema/src/analysis.ts:540 | pooling keeps every sample as often as it was taken |
| Bootstrap.HierarchicalIntervalReports | packages/schema/src/analysis.ts:540-559 | the median of everything pooled, and percentiles of the resampled medians |
| Bootstrap.BootstrapMedianInterval | packages/schema/src/analysis.ts:303-348 | the scratch-buffer loop returns the envelope of the medians of independent resamples; option errors come before every early return |
| Bootstrap.DrawMedians | packages/schema/src/analysis.ts:330-337 | one reused buffer gives the medians of as many fresh resamples |
| Bootstrap.ClusterMedianInterval | packages/schema/src/analysis.ts:469-505 | the cluster interval is the flat bootstrap of the per-sandbox medians |
| Bootstrap.HierarchicalResampleMedian | packages/schema/src/analysis.ts:379-392 | whatever the pool held before, the median is that of the resampled replicates alone, and the pool is never overrun |
| Bootstrap.HierarchicalBootstrapMedianInterval | packages/schema/src/analysis.ts:527-560 | the two-level loop over one pool returns the envelope of the medians of fresh hierarchical resamples |
| Bootstrap.LongestBounds | packages/schema/src/analysis.ts:394-403 | the pool is sized for a draw that picks the longest replicate every time |
| Bootstrap.EnvelopeBounds | packages/schema/src/analysis.ts:338-347 | lo <= hi, and neither bound leaves the range of what was resampled |
| Bootstrap.FlatIntervalBounds | packages/schema/src/analysis.ts:303-348 | min(samples) <= lo <= hi <= max(samples) for every generator, and the median lies in the same range |
| Bootstrap.ClusterIntervalBounds | packages/schema/src/analysis.ts:469-505 | the cluster interval lies in any range that holds every replicate's samples |
| Bootstrap.HierarchicalIntervalBounds | packages/schema/src/analysis.ts:527-560 | the hierarchical interval lies in the range of the pooled samples |
| KolmogorovSmirnov.Sweep | packages/schema/src/analysis.ts:1006-1031 | the two-pointer sweep terminates with the attained supremum over the whole line of the distance of the two empirical distribution functions; an empty side is an error |
| KolmogorovSmirnov.EcdfCountsSamples | packages/schema/src/analysis.ts:1019-1030 | the distribution function times n is the number of samples at or below the point |
| KolmogorovSmirnov.SweepStep | packages/schema/src/analysis.ts:1023-1031 | one loop step keeps the maximum over everything behind the sweep line, copies included |
| KolmogorovSmirnov.SweepEnds | packages/schema/src/analysis.ts:1019-1031 | the part of the line never visited after one side runs out cannot exceed the maximum found |
| KolmogorovSmirnov.SupremumUnique | packages/schema/src/analysis.ts:1006-1031 | the contract of the sweep determines its result |
| KolmogorovSmirnov.SupremumSymmetric | packages/schema/src/analysis.ts:1006-1031 | swapping the sides changes nothing |
| KolmogorovSmirnov.SupremumZeroIffSameDistribution | packages/schema/src/analysis.ts:1006-1031 | the statistic lies in [0, 1] and is 0 exactly when the two distribution functions coincide |
| Choose.ChooseExact | packages/schema/src/analysis.ts:823-832 | the running product is the binomial coefficient, every division is exact and every product a safe integer for n <= 50 |
| Choose.Absorption | packages/schema/src/analysis.ts:830 | k C(n, k) = n C(n - 1, k - 1): why each division is exact |
| Choose.BinomialIsSafe | packages/schema/src/analysis.ts:815-823 | every coefficient up to row 50 is a safe integer, and below that row still is after a multiplication by 50 |
| Choose.BinomialSymmetric | packages/schema/src/analysis.ts:828 | C(n, k) = C(n, n - k) |
| Splits.PickCountIsCardinality | packages/schema/src/analysis.ts:834-869 | the knapsack recurrence counts the k-element index subsets with a given rank sum, ties kept apart |
| Splits.PicksAreBinomial | packages/schema/src/analysis.ts:834-837 | there are C(n, k) index subsets of size k |
| Splits.PickCountBounded | packages/schema/src/analysis.ts:815-823 | no cell exceeds a binomial coefficient |
| Splits.TailMassIsCardinality | packages/schema/src/analysis.ts:888-896 | the swept mass is the number of splits at least as far out as the threshold |
| Splits.MaxDeviationIsMax | packages/schema/src/analysis.ts:881-887 | the swept maximum is the deviation of the most extreme split, attained by one |
| Splits.PickCountIgnoresOrder | packages/schema/src/analysis.ts:859-869 | the counts depend on the ranks as a multiset only |
| Splits.TailIgnoresOrder | packages/schema/src/analysis.ts:878-896 | tail and extreme deviation depend on the ranks as a multiset only |
| Splits.ComplementPick | packages/schema/src/analysis.ts:845-902 | complementing is a bijection on splits that turns a rank sum into the rest of the total |
| Splits.TailMirrors | packages/schema/src/analysis.ts:845-902 | the other side's null distribution is the mirror image, so tails have the same size |
| Midranks.ComputeMidranks | packages/schema/src/analysis.ts:747-763 | every value's rank is (number less) + (number equal + 1)/2, and the tie correction is the sum of t^3 - t over the tie groups |
| Midranks.WriteGroup | packages/schema/src/analysis.ts:755-759 | every index of a tie group gets the group's mean rank, and no rank written before changes |
| Midranks.TieGroupRank | packages/schema/src/analysis.ts:747-763 | the value of a maximal run [i, j] of the sorted pool has doubled rank i + j + 2 |
| Midranks.RankSumCountsPairs | packages/schema/src/analysis.ts:954-960 | a side's doubled rank sum is its pairs won (2 each) and tied (1 each) plus nA(nA + 1) |
| Midranks.PairCountsAddUp | packages/schema/src/analysis.ts:954-960 | the two sides' pair counts add up to all nA nB pairs |
| Midranks.SplitCountsPairs | packages/schema/src/analysis.ts:845-876 | the same for every split of the pool, ties or not |
| Midranks.TotalOfRanks | packages/schema/src/analysis.ts:747-763 | all doubled ranks add up to N(N + 1), whatever the ties |
| Midranks.RanksIgnoreOrder | packages/schema/src/analysis.ts:747-763 | reordering the pool reorders its ranks |
| ExactNull.FillCounts | packages/schema/src/analysis.ts:854-869 | after every rank, counts[k][s] is the number of size-k index subsets with doubled rank sum s |
| ExactNull.AddRank | packages/schema/src/analysis.ts:860-868 | one rank enters the table in place, rows downward, no subset taking it twice, and every sum written is a safe integer |
| ExactNull.MostExtreme | packages/schema/src/analysis.ts:881-887 | the sweep over the last row finds the deviation of the most extreme split |
| ExactNull.TailTally | packages/schema/src/analysis.ts:888-896 | the tally is the number of splits at least that far out, every partial tally a safe integer |
| ExactNull.ExactMannWhitney | packages/schema/src/analysis.ts:845-902 | p-value and floor are the number of splits with deviation at least the observed, respectively the greatest, over C(N, nA), for any tie pattern |
| ExactNull.ShareWithinOne | packages/schema/src/analysis.ts:897-901 | a tail's share of all splits never exceeds 1, so the final minimum with 1 never bites |
| MannWhitney.MannWhitneyU | packages/schema/src/analysis.ts:945-989 | the in-place computation reports the pair-count statistic, and on the exact path the exact p-value and floor; empty sides, constant pools and the size ceiling take their own exits |
| MannWhitney.UFromRankSum | packages/schema/src/analysis.ts:954-960 | U from the rank sum is the number of pairs a_i > b_j plus half the equal pairs, and uA + uB = nA nB |
| MannWhitney.ExactPCountsSplits | packages/schema/src/analysis.ts:834-900 | the exact p-value is the number of splits at least as far out in pairs won and tied, over C(N, nA) |
| MannWhitney.StatisticIsSmallerU | packages/schema/src/analysis.ts:958-960 | the statistic is the smaller U |
| MannWhitney.VarianceInNumbers | packages/schema/src/analysis.ts:969 | 12 N (N - 1) times the variance is nA nB ((N + 1) N (N - 1) - T) |
| MannWhitney.TestInNumbers | packages/schema/src/analysis.ts:962-988 | the fields on each way out: exact shares up to 50 pooled values, beyond them the tail of the deviation and of its largest value, or 1 without variance |
| MannWhitney.DeviationCountsPairs | packages/schema/src/analysis.ts:871-876 | a split's deviation, counted in pairs instead of ranks |
| MannWhitney.FloorIsSmallestAttainable | packages/schema/src/analysis.ts:878-901 | the floor is the least p-value any split can have and is attained; it is at most the observed p-value, positive and at most 1 |
| MannWhitneyLaws.TestIgnoresOrder | packages/schema/src/analysis.ts:945-989 | reordering either side's samples changes nothing the test reports |
| MannWhitneyLaws.TestIsSymmetric | packages/schema/src/analysis.ts:945-989 | swapping the sides gives the same statistic, p-value and floor |
| MannWhitneyLaws.ExactMirrors | packages/schema/src/analysis.ts:845-902 | swapping the sides keeps the exact p-value and floor, by complementing splits |
| MannWhitneyLaws.ExactIgnoresOrder | packages/schema/src/analysis.ts:845-902 | the exact p-value and floor ignore the order inside each side |
| MannWhitneyLaws.ExtremeFloor | packages/schema/src/analysis.ts:795-812 | once a pool can be separated completely, the floor is the number of its completely separated splits over C(N, nA) |
| MannWhitneyLaws.TwoSidedFloor | packages/schema/src/analysis.ts:795-812 | a pool that can be separated both ways has floor 2/C(N, nA), whatever ties its sides hold |
| MannWhitneyLaws.OneSidedFloor | packages/schema/src/analysis.ts:798-805 | a pool that can be separated one way only has half that floor |
| MannWhitneyLaws.DistinctFloor | packages/schema/src/analysis.ts:795-812 | with distinct values on two non-empty sides the floor is exactly 2/C(N, nA) |
| MannWhitneyLaws.CompleteSeparationAttainsFloor | packages/schema/src/analysis.ts:789-812 | a completely separated observation attains the floor, ties inside the sides allowed |
| MannWhitneyLaws.EqualSidesSeparate | packages/schema/src/analysis.ts:789-812 | equal sides, completely separated: p is exactly 2/C(2R, R), ties inside the sides allowed |
| MannWhitneyLaws.BalancedFloor | packages/schema/src/analysis.ts:795-812 | with R values on each side the floor is at least 2/C(2R, R) under every tie pattern |
| MannWhitneyLaws.LowerSplitUnique | packages/schema/src/analysis.ts:798-801 | at most one split of each size lies entirely below the rest, ties or not |
| MannWhitneyLaws.SplitExtremes | packages/schema/src/analysis.ts:798-801 | a split wins no pair exactly when it lies entirely below the rest, and every pair exactly when entirely above |
| Separation.ClusterSeparation | packages/schema/src/analysis.ts:632-645 | level, p-value, floor and method are those of the rank-sum test of the sandbox medians, and separated means exactly p < 1 - level; every error has its case |
| Separation.VerdictCountsSplits | packages/schema/src/analysis.ts:639-644 | on the exact path a verdict separates exactly when the splits at least as far out as the observed one are fewer than (1 - level) C(N, nA) |
| Separation.GuardIsAttainability | packages/schema/src/analysis.ts:904-918 | the power guard lets a comparison through exactly when some split of the same medians would come out below alpha |
| Separation.EvenPairsNeverSeparate | packages/schema/src/analysis.ts:632-645 | sides that win as many pairs as they lose have p = 1 and separate at no coverage |
| Separation.FourSandboxesNeedNotSeparate | packages/schema/src/analysis.ts:588-604 | four a side with distinct medians that do not separate, although the guard lets them through |
| Separation.VerdictIsSymmetric | packages/schema/src/analysis.ts:621-645 | one verdict either way round, field by field |
| Separation.VerdictIgnoresOrder | packages/schema/src/analysis.ts:621-645 | reordering trials inside a sandbox, or the sandboxes, changes no verdict |
| Separation.SmallSamplesNeverSeparate | packages/schema/src/analysis.ts:588-604 | R <= 3 sandboxes a side never separate at the default coverage and the power guard says so; one a side never separates at any |
| Separation.FourSandboxesCanSeparate | packages/schema/src/analysis.ts:588-604 | from four sandboxes a side on, completely separated medians are declared different, whichever side is ahead and whatever ties it holds |
| Separation.TiesHalveTheFloor | packages/schema/src/analysis.ts:798-805 | [2] against [1, 1] has floor 1/3 where an untied pair of that size has 2/3: sizes alone cannot give the floor |
| Separation.NoVarianceIffConstant | packages/schema/src/analysis.ts:967-973 | the tie-corrected variance is never negative, and is 0 exactly when all pooled values are equal |
| Preparation.StepKeeps | packages/driver/src/cli.ts:1234-1360 | every enabled atomic step keeps the whole invariant: ownership, one preparation per context, truthful results, lock chain |
| Preparation.RunKeeps | packages/driver/src/cli.ts:1234-1360 | the invariant holds in every state of every run |
| Preparation.OneUnsettledPerContext | packages/driver/src/cli.ts:1269-1323 | at most one preparation of a context is unsettled, it is the latest, and a successor exists only once its predecessors settled |
| Preparation.PreparationsAreOwned | packages/driver/src/cli.ts:1276-1359 | a live preparation has a waiter; a cancelled one has none, and until it settles the owner that cancelled it is waiting for the runner |
| Preparation.NothingLeftRunning | packages/driver/src/cli.ts:1344-1359 | once every call has returned, every preparation has settled |
| Preparation.NoSuccessWithoutPreparation | packages/driver/src/cli.ts:1263-1343 | no caller resolves unless a preparation of its context succeeded, and prepare is true exactly when one did |
| Preparation.LockExcludes | packages/driver/src/cli.ts:1239-1254 | two preparations that authenticate against one CLI never run at the same time, across contexts |
| Preparation.RunForward | packages/driver/src/cli.ts:1256-1360 | prepare never reverts from true, settled stays settled, cancelled stays cancelled and gains no waiter, returned calls keep their outcome |
| PreparationOutcomes.OutcomesHaveCauses | packages/driver/src/cli.ts:1262-1359 | over every run: timed out only if a deadline had passed or a timer fired, cancelled only on an aborted signal, failed only if the caller's own preparation settled with a failure, fulfilled only live on a prepared context or on its own success |
| PreparationOutcomes.RunHasEvents | packages/driver/src/cli.ts:1256-1360 | every run has events to explain it |
| PreparationOutcomes.RunByIsRun | packages/driver/src/cli.ts:1256-1360 | and runs with events are runs |
| PreparationOutcomes.PreparedCallAnswers | packages/driver/src/cli.ts:1263-1266 | a call on a prepared context is fulfilled unless its own signal, then its own deadline, says otherwise |
| PreparationOutcomes.UnpreparedCallAnswers | packages/driver/src/cli.ts:1267-1326 | a call on an unprepared context is turned away exactly when its deadline has passed; otherwise it owns a live preparation or waits for a cancelled one |
| PreparationOutcomes.WonRaceAnswers | packages/driver/src/cli.ts:1337-1343 | a won race stands unless the caller finds its signal aborted or its deadline passed |
| PreparationOutcomes.LostRaceAnswers | packages/driver/src/cli.ts:1344-1359 | a lost race keeps its reason, through the drain |
| PreparationOutcomes.CancelledNeverRuns | packages/driver/src/cli.ts:1242-1247 | a cancelled preparation that is still queued never runs |
| PreparationHost.Host.EnsurePreparedOnce | packages/driver/src/cli.ts:1256-1337 | updating prepare, waiters and the lock map in place is exactly the protocol's entry step, and keeps the invariant |
| PreparationHost.Host.LeaveRace | packages/driver/src/cli.ts:1344-1359 | the finally of a race is the protocol's leaving step: the last waiter cancels and stays to see the drain |
| PreparationHost.Host.FinishRace | packages/driver/src/cli.ts:1337-1343 | the end of a race is the protocol's step |
| PreparationHost.Host.FinishDrain | packages/driver/src/cli.ts:1352-1358 | the last owner returns only after the cancelled runner was reaped, with its own error |
| PreparationHost.Host.GiveUpRetiring | packages/driver/src/cli.ts:1303-1322 | a caller waiting for a drain may give up by its own deadline or signal, touching no preparation |
| PreparationHost.Host.BeginPreparation | packages/driver/src/cli.ts:1241-1247 | a queued preparation begins only after the one ahead in the lock chain settled |
| PreparationHost.Host.SettlePreparation | packages/driver/src/cli.ts:1282-1295 | settling is the protocol's step and keeps the invariant |
| PreparationHost.Host.Release | packages/driver/src/cli.ts:1286-1294 | settling releases the context and the lock only if they still belong to this preparation |
| FailedCreate.Reconciliation.RetryCleanup | packages/driver/src/cli.ts:1708-1772 | it returns normally exactly when this call made the observations conclusive, and then the CLI's own answers prove the name gone; otherwise it stays the owner; a confirming look is never early, and a call made once the horizon has passed accepts no absence asked for before it |
| FailedCreate.Reconciliation.Observe | packages/driver/src/cli.ts:1593-1707 | the outcome is what the last answer says: gone exactly on an acknowledged destroy, missing exactly on not-found or an empty lookup, an error otherwise; a positive lookup clears firstMissingAt |
| FailedCreate.Reconciliation.DestroyOnce | packages/driver/src/cli.ts:1416-1442 | a destroy is gone exactly when acknowledged and missing exactly when not found; it records nothing itself |
| Observations.ReadIsFaithful | packages/driver/src/cli.ts:1584-1772 | every observation rests on an answer of the CLI, in order, an absence dated by the first clock reading after it; no positive or acknowledged answer is left out, and no absence that was dated at once |
| Observations.ConclusiveIsReal | packages/driver/src/cli.ts:1584-1772 | conclusive observations mean an acknowledged destroy, or two answers of absence read at least the horizon apart, and the name not shown since |
| FailedCreate.Reconciliation.ObserveAndJudge | packages/driver/src/cli.ts:1723-1733 | one observation is judged proof exactly when the history of observations is conclusive |
| FailedCreate.Reconciliation.Confirm | packages/driver/src/cli.ts:1738-1771 | the second look waits out the horizon first, and succeeds exactly on proof |
| Observations.ConclusiveMeansGone | packages/driver/src/cli.ts:1584-1772 | a conclusive history ends in an acknowledged destroy, or in an absence at least the horizon after an earlier one with no positive lookup between |
| Observations.LastingAbsenceIsConclusive | packages/driver/src/cli.ts:1724-1734 | conversely, absence observed over the whole horizon is always accepted |
| Observations.FirstMissingIsRecorded | packages/driver/src/cli.ts:1584-1592 | the time the horizon is measured from is a recorded absence with no positive lookup since |
| Observations.NeverEarlyIffHorizonPassed | packages/driver/src/cli.ts:1726-1734 | exact condition: no accepted absence can have been asked for before the horizon passed if and only if it had passed when the look began |
| Observations.AcceptedObservationMayBeginEarly | packages/driver/src/cli.ts:1726-1734 | a witness: two calls, the second asking before the horizon had passed and answered after it |
| CreateOwnership.Driver.Create | packages/driver/src/cli.ts:1444-1820 | the command is issued at most once; an issued create is returned exactly when it became ready, and otherwise thrown after the CLI's own answers proved the name gone, or left with an owner that can retry; a mark needs that proof and a create failure, and a retryable one gets it |
| CreateOwnership.Driver.Reconcile | packages/driver/src/cli.ts:1773-1818 | throwing the primary error needs the CLI's own proof of absence; every other outcome hands an owner over |
| CreateOwnership.CleanupOwner.Call | packages/driver/src/lib/errors.ts:167-173 | a call is done at once after the first success, and otherwise starts a cleanup or joins the one in flight |
| CreateOwnership.CleanupOwner.Settle | packages/driver/src/lib/errors.ts:174-188 | one reconciliation settles everyone who joined with one outcome; success needs proof, failure leaves the owner retryable |
| CreateOwnership.CleanupOwner.CleanupRepeatedly | packages/driver/src/lib/errors.ts:131-203 | over any interleaving of calls and settlements the name is given up only on proof, and nobody is told otherwise |
| Redaction.RedactArgs | packages/driver/src/cli.ts:770-784 | exactly the values after secret flags are masked, position by position |
| Redaction.HiddenAfterOddRun | packages/driver/src/cli.ts:774-782 | flags alternate with their values: an argument is hidden exactly when the run of flags in front of it is of odd length |
| Redaction.RedactDiagnostics | packages/driver/src/cli.ts:795-815 | the collecting loops, the sort and the replacements compute the redaction defined over the secrets of all commands |
| Redaction.SecretsAreMaskedValues | packages/driver/src/cli.ts:770-811 | what is collected from diagnostics is exactly the non-empty values that argument redaction masks |
| Redaction.LongestFirstSorts | packages/driver/src/cli.ts:812-813 | the sort is by decreasing length, loses nothing and is stable |
| Redaction.PrefixComesLater | packages/driver/src/cli.ts:812-813 | a secret that is a proper prefix of another is replaced after it |
| Redaction.OccurrenceIsMaskedWhole | packages/driver/src/cli.ts:795-815 | a credential around which no other secret occurs is masked whole, whatever parts of it are secrets too and in whatever order they were passed: the rest of the text stays, and not one of its characters survives |
| Redaction.PrefixLeavesNoTail | packages/driver/src/cli.ts:812-813 | two secrets, one a prefix of the other, in either order: the longer is masked and leaves no tail |
| Redaction.CommandOrderIsIrrelevant | packages/driver/src/cli.ts:800-814 | when equally long secrets are the same, only which secrets were passed matters, not the order |
| Redaction.LongestGoesFirst | packages/driver/src/cli.ts:812-814 | a secret longer than every other is replaced in the text as it came |
| Redaction.FreeOccurrenceIsReplaced | packages/driver/src/cli.ts:814 | an occurrence no earlier one overlaps is replaced whole, and the text on both sides by itself |
| Redaction.OverlapLeavesTail | packages/driver/src/cli.ts:814 | a witness: an occurrence that overlaps an earlier one of the same secret is not masked whole |
| Redaction.ReplacementCreatesNothing | packages/driver/src/cli.ts:814 | replacing one secret creates no occurrence of another and leaves none of itself |
| Redaction.SecretsAreRemoved | packages/driver/src/cli.ts:795-815 | for every text and command list, no collected secret survives that neither starts nor ends with a star nor contains the mask |
| Redaction.StarFreeIsSafe | packages/driver/src/cli.ts:795-815 | every star-free secret is of that kind |
| Redaction.RedactedIffSafe | packages/driver/src/cli.ts:795-815 | exact condition: redaction removes a secret from every text for every command list that passes it, if and only if it is of that kind |
| Redaction.RedactsOneSecret | packages/driver/src/cli.ts:795-815 | for one command that passes one secret, redaction is one replacement of it |
| Redaction.UnsafeSecretSurvivesRedaction | packages/driver/src/cli.ts:795-815 | for every other secret, a command list that passes it and a text whose redaction still contains it |
| Redaction.RemovedIffSafe | packages/driver/src/cli.ts:814 | the same exact condition for one replacement |
| Redaction.UnsafeSecretSurvives | packages/driver/src/cli.ts:814 | for every other secret, a text that still contains it after its own replacement |
| Redaction.InnocentTextIsKept | packages/driver/src/cli.ts:814 | text in which no secret occurs is unchanged |
| CanonicalJson.Printer.Visit | packages/schema/src/canonical-json.ts:93-137 | a subtree is printed exactly when it fits what is left of every limit; the counters then grow by its nodes and by the UTF-8 length of its text |
| CanonicalJson.Printer.VisitArray | packages/schema/src/canonical-json.ts:111-117 | the array branch of that, charging brackets and commas first |
| CanonicalJson.Printer.VisitObject | packages/schema/src/canonical-json.ts:118-133 | the object branch of that, keys sorted before they are visited |
| CanonicalJson.Printer.VisitMember | packages/schema/src/canonical-json.ts:124-132 | one member: key length, then key bytes, then its value, and its counters |
| CanonicalJson.CanonicalJsonString | packages/schema/src/canonical-json.ts:78-140 | success exactly within limits, with the canonical text, whose UTF-8 length never exceeds maxBytes |
| CanonicalJson.CanonicalJsonEqual | packages/schema/src/canonical-json.ts:142-149 | true exactly when both sides are within limits and have one canonical text |
| CanonicalJson.TextEqualityIsStructural | packages/schema/src/canonical-json.ts:142-149 | within limits one text means structural equality, and conversely when no two keys collate equal |
| CanonicalJson.AcceptedTextIsJson | packages/schema/src/canonical-json.ts:77-140 | accepted text parses under the RFC 8259 grammar to the canonical tree, whose canonical text it is again |
| CanonicalJson.AdmissibleIffAllFit | packages/schema/src/canonical-json.ts:93-127 | the shape limits hold exactly when every value inside fits by itself and none stands deeper than allowed |
| CanonicalJson.NodesInCases | packages/schema/src/canonical-json.ts:93-94 | a node for every value, leaves and containers alike |
| CanonicalJson.AcceptsArray | packages/schema/src/canonical-json.ts:111-117 | an array fits exactly when its frame and its items fit one after the other |
| CanonicalJson.AcceptsObject | packages/schema/src/canonical-json.ts:118-133 | an object fits exactly when its frame and its sorted members fit one after the other |
| CanonicalJson.JoinedSize | packages/schema/src/canonical-json.ts:88-92 | the bytes charged fragment by fragment add up to the UTF-8 length of the joined text |
| CanonicalTree.SameCanonIsEqual | packages/schema/src/canonical-json.ts:142-149 | one canonical form means structural equality, even under tied keys |
| CanonicalTree.EqualHaveSameCanon | packages/schema/src/canonical-json.ts:119 | with a total key order, structurally equal trees have one canonical form, whatever the insertion order |
| CanonicalTree.RenderInjective | packages/schema/src/canonical-json.ts:77-140 | different trees never share a canonical text |
| CanonicalTree.OrderIgnoredIffTotal | packages/schema/src/canonical-json.ts:119 | exact condition: insertion order never shows in the text if and only if no two keys collate equal |
| CanonicalTree.TieBreaksByInsertion | packages/schema/src/canonical-json.ts:119 | two keys that collate equal: equal objects with different texts |
| CanonicalTree.CanonicalTextIsStable | packages/schema/src/canonical-json.ts:77-140 | canonical text reads back as the canonical tree and prints to itself |
| JsonTree.PrintRoundTrip | packages/schema/src/canonical-json.ts:93-133 | compact text reads back as the value it was printed from, whatever delimiter follows, numbers per section 6 of RFC 8259 |
| JsonTree.PrintInjective | packages/schema/src/canonical-json.ts:93-133 | different trees print differently |
| JsonTree.ArraySyntax | packages/schema/src/canonical-json.ts:111-117 | the brackets and the comma, letter for letter |
| JsonTree.ObjectSyntax | packages/schema/src/canonical-json.ts:118-133 | the braces, the colon and the comma, letter for letter |
| JsonTree.WordSyntax | packages/schema/src/canonical-json.ts:96-99 | the words and numbers, letter for letter |
| JsonText.QuoteRoundTrip | packages/schema/src/canonical-json.ts:101-104 | string quoting read by the grammar of section 7 of RFC 8259 gives the string back, lone surrogates and control characters included |
| JsonText.QuotedIsRead | packages/schema/src/canonical-json.ts:101-104 | a quoted string is one string token that denotes the string |
| JsonText.QuoteIsShortest | packages/schema/src/canonical-json.ts:101-104 | no token of section 7 that denotes the string is shorter than its quotation: nothing is escaped that need not be |
| JsonText.EscapesAreLowerCase | packages/schema/src/canonical-json.ts:101-104 | hexadecimal escapes are in lower case, and a surrogate pair is not escaped |
| JsonText.PairsAreSupplementary | packages/schema/src/canonical-json.ts:88-92 | surrogate pairs stand for the code points beyond the basic plane, each once, and for nothing else |
| JsonText.Utf8OfUnits | packages/schema/src/canonical-json.ts:88-92 | one, two, three or four bytes, by code unit or pair |
| JsonText.Utf8Concat | packages/schema/src/canonical-json.ts:88-92 | UTF-8 lengths add up unless the cut splits a surrogate pair |
| SuiteCreate.Loop.Round | packages/harness/src/index.ts:562-612 | one pass of the loop, for any delay: it ends the run with the attempt's handle, or with its own error after one marker when it may not or cannot afford to retry, or leaves a legal run that may go on |
| SuiteCreate.Loop.Rounds | packages/harness/src/index.ts:562-613 | after any number of passes, with any delay, the run is legal: retries were allowed and reserved, late handles are guarded, one marker at most |
| SuiteCreate.Loop.CreateSuiteSandbox | packages/harness/src/index.ts:510-613 | with a positive delay the loop ends, with the last attempt's handle and no marker, or the last attempt's own error after one marker |
| SuiteCreate.Loop.TryOnce | packages/harness/src/index.ts:563-595 | one attempt reports its own outcome; a timeout or a cleanup error is never retryable, and a late handle is guarded exactly when a create was in flight |
| SuiteCreate.Loop.GiveUp | packages/harness/src/index.ts:531-561 | the single throwing exit tries the marker once and lets the original error through even if the write fails |
| SuiteCreate.TermsInNumbers | packages/harness/src/index.ts:515-525 | the timeout that races an attempt is what is reserved for it, else the ceiling the adapter declares; five minutes, two minutes and no budget unless set |
| SuiteCreate.RetryInCases | packages/harness/src/index.ts:590-595 | retried exactly when the attempt failed by itself, left no cleanup and the plan says so; a timeout's error is the attempt's own |
| SuiteCreate.EarlierAttemptsRejected | packages/harness/src/index.ts:590-601 | an attempt starts only after every earlier create rejected: none timed out, none left a cleanup |
| SuiteCreate.StartsDrift | packages/harness/src/index.ts:601-611 | the k-th retry starts at least k backoffs after the first attempt |
| SuiteCreate.RetriesFitBudget | packages/harness/src/index.ts:518-530 | all backoffs plus one whole attempt fit in the budget |
| SuiteCreate.AttemptsBounded | packages/harness/src/index.ts:510-613 | at most 1 + budget/delay attempts |
| GeneratedRegion.ExactMarkerIndices | packages/schema/scripts/generate-provider-wiring.ts:80-89 | exactly the positions where the marker stands alone on a line but for leading white space, in increasing order |
| GeneratedRegion.ReplaceGeneratedRegion | packages/schema/scripts/generate-provider-wiring.ts:91-108 | succeeds exactly when each marker occurs once, start first; keeps all text up to the start marker's end and from the end marker on; malformed is told from repeated exactly |
| GeneratedRegion.IndexIsPosition | packages/schema/scripts/generate-provider-wiring.ts:80-89 | line-by-line offsets and positions in the text are the same thing |
| GeneratedRegion.SpliceRewrites | packages/schema/scripts/generate-provider-wiring.ts:104-107 | splicing the string is rewriting the lines |
| GeneratedRegion.NamesSeparate | packages/schema/scripts/generate-provider-wiring.ts:70-78 | regions of one file with different names have four different markers |
| GeneratedRegion.StartIsNoEnd | packages/schema/scripts/generate-provider-wiring.ts:70-78 | no start marker is an end marker |
| GeneratedRegion.MarkerTexts | packages/schema/scripts/generate-provider-wiring.ts:70-78 | the wording of both markers, letter for letter |
| GeneratedRegion.CommentStyles | packages/schema/scripts/generate-provider-wiring.ts:70-78 | files whose name ends in .md get HTML comments, all others hash comments |
| RegionLines.WhiteAscii | packages/schema/scripts/generate-provider-wiring.ts:84 | indentation is JavaScript white space, six of the ASCII characters |
| RegionLines.RewriteKeepsRegion | packages/schema/scripts/generate-provider-wiring.ts:91-108 | a body without marker lines leaves exactly one start and one end marker |
| RegionLines.RewritesAgain | packages/schema/scripts/generate-provider-wiring.ts:91-108 | exact condition: a second rewrite succeeds if and only if the body holds no marker of its own region, and then changes nothing |
| RegionLines.RewritesCommute | packages/schema/scripts/generate-provider-wiring.ts:91-108 | regions beside each other can be rewritten in either order with the same result |
| RegionLines.RewriteKeepsOther | packages/schema/scripts/generate-provider-wiring.ts:91-108 | a marker line outside the region stays the only one of its kind, moved by the change in length |
| RegionLines.FoldSucceeds | packages/schema/scripts/generate-provider-wiring.ts:854-857 | compatible regions lying side by side can all be rewritten |
| RegionLines.FoldSettles | packages/schema/scripts/generate-provider-wiring.ts:854-857 | after the sequential pass every region of the file is up to date |
| RegionLines.FoldIsFixedPoint | packages/schema/scripts/generate-provider-wiring.ts:854-857 | a second pass over the file writes the file it read |
| WiringFiles.SecondRewriteIsIdentity | packages/schema/scripts/generate-provider-wiring.ts:91-108 | the same fixed point for file text |
| WiringFiles.OneMarkerEach | packages/schema/scripts/generate-provider-wiring.ts:97-103 | a rewritable file has exactly one position of either marker |
| WiringFiles.ReplacementsCommute | packages/schema/scripts/generate-provider-wiring.ts:91-108 | the same commutation for file text |
| WiringFiles.RenderRegions | packages/schema/scripts/generate-provider-wiring.ts:840-857 | the pass over all regions of all files succeeds exactly when each file's regions can be rewritten in order, and renders exactly the files that have regions |
| WiringFiles.BlocksForConcat | packages/schema/scripts/generate-provider-wiring.ts:854-857 | a file's regions are rewritten in the order of the list, and no others |
| WiringFiles.WellPlacedIsRenderable | packages/schema/scripts/generate-provider-wiring.ts:854-857 | the pass succeeds when every file with regions is readable and its regions lie side by side with clean bodies |
| WiringFiles.SecondRunIsIdentity | packages/schema/scripts/generate-provider-wiring.ts:854-857 | over the files it wrote, the generator succeeds and renders the same files again |
| WiringFiles.StuckStaysStuck | packages/schema/scripts/generate-provider-wiring.ts:854-857 | a region that cannot be rewritten stops every longer pass |
| ProviderCost.ProviderCostTotal | packages/schema/src/cost-evidence.ts:137-178 | a total exactly for complete evidence, and then the sum and the one currency |
| ProviderCost.CompleteIsBijection | packages/schema/src/cost-evidence.ts:137-178 | complete evidence is a one-to-one correspondence between records and expected cells, with distinct sandboxes, one currency and no overflow |
| ProviderCost.AcceptedIsComplete | packages/schema/src/cost-evidence.ts:151-177 | counting distinct keys is enough: as many accepted records as expected cells are all of them |
| ProviderCost.KeyInjective | packages/schema/src/cost-evidence.ts:126-135 | the NUL-joined key identifies the cell |
| ProviderCost.KeyText | packages/schema/src/cost-evidence.ts:126-135 | the four fields joined by NUL, with single for no replicate |
| ProviderCost.DecimalIsWorth | packages/schema/src/cost-evidence.ts:133 | a replicate index is written in decimal |
| ProviderCost.AmountAddsUp | packages/schema/src/cost-evidence.ts:174 | the amount adds up over any cut of the records |
| ProviderCost.FiniteIsTotalFits | packages/schema/src/cost-evidence.ts:175 | the running overflow test is a test of the total alone |
| RequestPacer.Pacing.Slot | packages/digitalocean/src/vendor.ts:47-52 | the reserved slot is the earliest time at or after the clock, the last slot's spacing and the pause |
| RequestPacer.Pacing.Pause | packages/digitalocean/src/vendor.ts:189 | a rate-limited answer raises the shared pause and never lowers it |
| RequestPacer.Pacing.Request | packages/digitalocean/src/vendor.ts:172-192 | at most eight attempts, each but the last rate limited, every retry's slot at or after the wait it was told; other answers are never retried |
| RequestPacer.SlotsAreSpaced | packages/digitalocean/src/vendor.ts:41-52 | for any interleaving and any clock readings, slots k apart in order are at least k * 300 ms apart in time |
| RequestPacer.AtMostTwoHundredPerMinute | packages/digitalocean/src/vendor.ts:33-52 | any half-open 60 s window holds at most 200 slots |
| RequestPacer.WindowHoldsAtMost | packages/digitalocean/src/vendor.ts:41-52 | a half-open window of k spacings holds at most k slots |
| RequestPacer.SlotsWasteNoTime | packages/digitalocean/src/vendor.ts:47-52 | a slot is the clock reading, the start of time, or held back by an earlier slot's 300 ms or an earlier answer's pause |
| RequestPacer.PauseIsRespected | packages/digitalocean/src/vendor.ts:37-52 | a slot reserved after a rate-limited answer never falls inside the pause |
| RequestPacer.ProtectedIffReservedLater | packages/digitalocean/src/vendor.ts:37-52 | exact condition: a slot keeps out of the pause of a rate-limited answer in every run if and only if it is reserved after that answer |
| RequestPacer.QueuedSlotCanBeOvertaken | packages/digitalocean/src/vendor.ts:37-52 | every slot reserved before an answer is covered by the pause some answer asks for |
| RequestPacer.QueuedRequestIgnoresPause | packages/digitalocean/src/vendor.ts:37-52 | a witness: two requests, and a pause that begins between the second one's reservation and its slot |

## Left out

- Aggregates.ComputeAggregate: reports the variance, whose square root the program publishes; rounding of doubles and negative zero are not modelled anywhere in the statistics.
- MannWhitney.MannWhitneyU: above the size ceiling the normal tail is an arbitrary function parameter, so that path's p-value is tied to the statistic and the variance but not to the normal distribution.
- KolmogorovSmirnov.Sweep: gives the statistic; the program's p-value series is not part of this model.
- Bootstrap.FillResample: draws come from any stream of values in [0, 1); the bit mixing of the seeded generator is not modelled.
- CreateOwnership.Driver.Issue: the create command, row lookup and readiness polling are one step with an arbitrary outcome.
- CreateOwnership.CleanupOwner.Settle: a settlement is one step; the abort signals of callers that join are an arbitrary signal to the reconciliation.
- Preparation.StepKeeps: models profiles that have a preparation; what a preparation does (probe, login) is one step that succeeds or fails.
- SuiteCreate.Loop.CreateSuiteSandbox: requires a positive retry delay, because with a delay of zero the loop need not end (the laws of the run are stated by Rounds for every delay); the clock is assumed not to run backwards, and a classifier that throws is not modelled.
- CanonicalJson.Printer.Visit: proxies, accessors, cycles and foreign prototypes are one leaf kind that is refused; the contract fixes when a visit fails but not which of several exceeded limits is named.
- CanonicalTree.EqualHaveSameCanon: the collation is an arbitrary weight on keys; that ICU never ties two different keys is an assumption of this direction.
- CanonicalTree.TieBreaksByInsertion: members stand in the order the object lists its keys, which in JavaScript puts integer-like keys first in ascending order; that order is an input.
- JsonTree.PrintRoundTrip: a number is identified with the text JSON.stringify gives it, so 0 and -0 are one number; shortest-digits printing is not modelled.
- ProviderCost.ProviderCostTotal: amounts are real and overflow is a bound on the running sum; the record and cell schemas are inputs that accept or refuse, and a replicate index prints as plain decimal digits.
- RequestPacer.Pacing.Request: paces reserved slots; a timer that fires late can bring two sends closer together than their slots.
- WiringFiles.RenderRegions: the three files rendered whole after the regions, and reading and writing files, are not modelled.
- The median-difference interval of the bootstrap is a further loop of the kind already proved.
- Vendor requests, process spawning, screenshots, schemas, provider adapters, figures, pricing and registry metadata are not part of this model.
