# Verified models of the benchmark evidence machinery

The scripts under `benchmarks/` decide the published numbers of the memory
system: they cluster and score texts, supervise the processes that produce
results, keep a resumable journal, compare runs, and check that published
packages can be recomputed. This project models that code in Dafny and proves
what it promises, for all inputs, all interleavings and all runs. A list or a
loop of the source is a loop here; an object that changes is a class; each is
proved against a specification function, and the theorems are about that.

`dafny verify dfyconfig.toml` checks the project.

| module | what it is about |
|---|---|
| `Regex` | a backtracking engine for the patterns the tokenisers use, with leftmost scanning |
| `FactProbes`, `ProbeShapes`, `RecompactionScore` | the fact-retention proxy, which probes a text has, said of its characters, and the score made of them |
| `Clusters`, `VectorSizes` | the two greedy clustering sweeps, and how large vector clusters grow |
| `HardTimeout`, `SupervisorLoop` | the hard per-unit timeout: every interleaving as a transition system, and the polling loop as written, which refines it |
| `WorkerProtocol`, `WorkerLoop` | the persistent worker with its queues, and the question loop as written, which refines it |
| `Fusion`, `RecallAggregate` | session roll-up, reciprocal-rank fusion, recall metrics and their averages |
| `Journal` | the append-only journal of a resumable run |
| `Pairing`, `PairedScorecard`, `PairedComparison` | pairing two runs, the bootstrap, the paired test |
| `Ndjson`, `ReproPackage` | row framing, the package producer and its verifier |
| `NiahMetrics` | metrics as a function of the multiset of rows |
| `RankingIdentity` | fingerprints, their framing, the identity gate |
| `TopKMask` | the top-k mask with ties |
| `Episodes` | the synthetic episode families and the independent labeller |
| `Sorting`, `Decimals`, `Texts`, `Common` | what these share |

Parameters stand for what the source calls and does not define: the alphabet
classes of the regular expressions that go beyond ASCII, letter case, SHA-256,
UTF-8, the JSON parser, `float.hex`, the exact binomial test, the random bits,
the neighbour lists of the vector index, the metric functions, and the outcome
of a compressor. Hypotheses on them are spelled out in the contracts: the parser
reads back the text of well-formed values (numbers that print so, keys distinct
and sorted), the hash has no collisions, `float.hex` is exact but for NaN, the
test is symmetric and 1 on a tie, the random bits eventually fall below `n`.

Where the code does less than its documentation suggests, the model follows
the code, and the condition under which it does more is proved to be exact:

- A vector cluster can have k + 2 members when the index leaves an anchor out of
  its own full answer and no earlier block shields it (`VectorSizes.VectorSizeIff`).
- `TIMEOUT` is glossed as the deadline passing with the child still alive. The
  child was alive at its last check and may have exited, or posted, since
  (`HardTimeout.TimeoutMeans`, with a run in `HardTimeout.TimeoutMayDiscardAResult`).
- Two scores can share a token without sharing their bits: every NaN has the
  same one (`RankingIdentity.ScoreTokensInjective`).
- Resuming a run loses rows when two pending questions share an id
  (`Journal.ResumptionIsTransparentIff`).
- The bootstrap interval is guaranteed to be in order only when its indices
  are (`PairedComparison.AlwaysOrderedIff`), and it mirrors under an exchange of
  the arms only when the tail holds a whole number of resamples
  (`PairedComparison.AlwaysMirrorsIff`).
- Ties at the threshold can push a better score out of the top k
  (`TopKMask.StrictDominanceIff`, `TopKMask.DominanceIff`).

## Model

| member | source | states |
|---|---|---|
| FactProbes.ExtractProbes | benchmarks/recompaction_bench.py:85-100 | The four extraction steps, with the loop over the entities, give the set of probes whose members the `ProbeShapes` rows characterise. |
| FactProbes.ProbesPresent | benchmarks/recompaction_bench.py:131-162 | The loop counts exactly the credited probes: a number by its token, anything else by its guarded pattern; 1 when there is nothing to lose. |
| FactProbes.SearchFindsTokens | benchmarks/recompaction_bench.py:106-118 | The guarded pattern of a probe is found exactly when the text holds the probe with no word character of its edge touching another one. |
| FactProbes.NumberFirstChoice | benchmarks/recompaction_bench.py:75-75 | When the number pattern can match a whole text, its first, greedy choice does: the full match and the scan agree. |
| FactProbes.QuotedNumberIsToken | benchmarks/recompaction_bench.py:121-128 | A number or date inside quotation marks is also a number token of the surrounding text, although it was extracted by another pattern. |
| FactProbes.OwnProbesCredited | benchmarks/recompaction_bench.py:140-147 | For every text, each of its own probes is credited by the matcher, odd ones included. |
| FactProbes.EchoScoresOne | benchmarks/recompaction_bench.py:143-146 | For every text, extraction followed by the search in the same text scores exactly 1. |
| FactProbes.CreditedIsToken | benchmarks/recompaction_bench.py:131-142 | A credited probe stands in the text as a whole token. |
| FactProbes.RetentionIsConservative | benchmarks/recompaction_bench.py:131-162 | For every probe set and text the score lies in the unit interval and never exceeds what substring containment would grant. |
| FactProbes.NothingLostIff | benchmarks/recompaction_bench.py:131-162 | The score is 1 exactly when every probe is credited. |
| ProbeShapes.NumbersAreProbes | benchmarks/recompaction_bench.py:75-94 | A number, with or without commas and decimals, whose neighbours are no word character, comma or point is a probe of every text around it. |
| ProbeShapes.DigitRunsAreProbes | benchmarks/recompaction_bench.py:75-94 | So is a run of digits. |
| ProbeShapes.DatesAreProbes | benchmarks/recompaction_bench.py:77-96 | An ISO date between no word characters is a probe of every text around it, whatever digits and hyphens stand nearby. |
| ProbeShapes.ScanPairs | benchmarks/recompaction_bench.py:76-95 | The scan finds exactly the pairs of consecutive marks, 2 to 80 characters apart, whose first one opens: it does not close a quotation opened by the mark before it. |
| ProbeShapes.QuotedTextsAreProbes | benchmarks/recompaction_bench.py:76-95 | A quoted text of 2 to 80 characters, by that left-to-right pairing, is a probe. |
| ProbeShapes.EntitiesAreProbes | benchmarks/recompaction_bench.py:78-99 | A capitalised word of more than one character that is no function word is a probe together with all its hyphenated parts, in every text around it where no more of it follows: `PRJ-mind`, not `PRJ`. |
| ProbeShapes.ProbesHaveShapes | benchmarks/recompaction_bench.py:85-100 | Nothing else is a probe: every probe is a number text, a date, a quoted text by left-to-right pairing, or a capitalised word that is no function word. |
| ProbeShapes.FunctionWordsAreNoProbes | benchmarks/recompaction_bench.py:80-99 | A function word or a single capital letter is a probe exactly when it stands in quotation marks. |
| ProbeShapes.OnlyItsNumberIsCredited | benchmarks/recompaction_bench.py:140-158 | A text whose only number is q credits the number p exactly when p is q: 469 is lost to a rewrite that mentions 1,469 alone. |
| Regex.ThenInverse | benchmarks/recompaction_bench.py:75-78 | A match of two patterns in sequence splits at a point that the first reaches and the second continues from. |
| Regex.LiteralEnds | benchmarks/recompaction_bench.py:106-118 | An escaped literal matches at a position exactly when the text holds it there, and then in one way. |
| Regex.Local | benchmarks/recompaction_bench.py:75-78 | Between two quotation marks a pattern that cannot consume one behaves as on the quoted text alone. |
| Regex.StopsAtQuote | benchmarks/recompaction_bench.py:75-78 | No match that starts before a quotation mark runs past it. |
| Regex.StopsBefore | benchmarks/recompaction_bench.py:75-78 | A match never runs past a character that no part of its pattern accepts. |
| Regex.UpToRuns | benchmarks/recompaction_bench.py:76-76 | A bounded repetition of a class matches exactly the runs within the bound. |
| Regex.NotSkipped | benchmarks/recompaction_bench.py:94-97 | The left-to-right scan comes to every match that no earlier match runs into. |
| Regex.QuotedTextFound | benchmarks/recompaction_bench.py:126-128 | The left-to-right scan never jumps over a quoted text: a match of the whole of it is among the results. |
| RecompactionScore.ScoreIsMeanShare | benchmarks/recompaction_bench.py:435-438 | Retention times convergence rate is the sum of the retentions of the converged clusters divided by the number of clusters. |
| RecompactionScore.ScoreIsPerfectIff | benchmarks/recompaction_bench.py:511-555 | The score of any run lies in the unit interval, and is 1 exactly when there are clusters and all converged with every probe retained. |
| RecompactionScore.ScoreIsOneIff | benchmarks/recompaction_bench.py:447-555 | A run scores 1 exactly when there are clusters, every rewrite reached a fixpoint, and every probe of each source is credited in its own rewrite. |
| RecompactionScore.RecordIs | benchmarks/recompaction_bench.py:456-508 | A record converged exactly when its cluster returned at a fixpoint; it carries the passes and the length ratio of a result, the bound of a non-convergence, and zeros otherwise. |
| RecompactionScore.BenchCounts | benchmarks/recompaction_bench.py:537-545 | Clusters, failures and convergence rate count the records, those that did not converge, and the share of those that did. |
| RecompactionScore.EchoCompressorIsPerfect | benchmarks/recompaction_bench.py:447-508 | A compressor that returns every text unchanged and converges scores exactly 1, whatever the texts. |
| RecompactionScore.MeansIgnoreFailures | benchmarks/recompaction_bench.py:537-555 | The three means are those of the converged clusters alone. |
| Clusters.ClusterByOverlap | benchmarks/recompaction_bench.py:335-357 | The lexical sweep, with its growing set of assigned blocks, computes the clusters that the next rows characterise on the token sets. |
| Clusters.ScoreCandidates | benchmarks/recompaction_bench.py:339-350 | The candidates of an anchor are the free blocks that share a token with it, with their Jaccard scores. |
| Clusters.LexicalClustersAreBest | benchmarks/recompaction_bench.py:335-357 | Clusters are disjoint, large enough, made of blocks that were free, and take every free overlapping block while there is room. |
| Clusters.LexicalClustersAreClosest | benchmarks/recompaction_bench.py:339-352 | On the token sets: with anchor tokens A, a member with tokens C and a later member, or a free overlapping block left out, with tokens X, |A*C|*|A+X| >= |A*X|*|A+C|, and on equality the id of the member comes first; a block is left out only of a full cluster. |
| Clusters.ClustersInAnchorOrder | benchmarks/recompaction_bench.py:315-357 | The clusters come in strictly increasing order of their anchors, however the rows were stored. |
| Clusters.TokensAreTheRows | benchmarks/recompaction_bench.py:317-333 | Each block with tokens enters the sweep with the tokens of its own row, and no other block does. |
| Clusters.ClusterSizes | benchmarks/recompaction_bench.py:352-355 | Every cluster has at least the minimum and at most k + 1 members. |
| Clusters.SweepIsMaximal | benchmarks/recompaction_bench.py:335-357 | With k at least min_size - 1, a block left over overlaps fewer than min_size - 1 other leftovers. |
| Clusters.LeftoversAreDisjoint | benchmarks/recompaction_bench.py:335-357 | At the default minimum of two, no two leftovers share a token. |
| Clusters.TooFewNeighbours | benchmarks/recompaction_bench.py:352-355 | With k below min_size - 1 nothing is clustered. |
| Clusters.ClustersDependOnTokensOnly | benchmarks/recompaction_bench.py:315-333 | Only the map from ids to tokens decides the clusters; the order of the stored rows does not. |
| Clusters.ClusterByVectors | benchmarks/recompaction_bench.py:260-287 | The vector sweep computes the clusters of its specification, for arbitrary neighbour lists. |
| Clusters.NearMembers | benchmarks/recompaction_bench.py:277-284 | The members are the anchor and its free neighbours above the floor, in neighbour order. |
| Clusters.VectorClustersAreNear | benchmarks/recompaction_bench.py:244-287 | Vector clusters are disjoint, every member is a close neighbour of its anchor, and there are at most k + 1 members when the anchor is its own neighbour, k + 2 otherwise. |
| VectorSizes.VectorSizeIff | benchmarks/recompaction_bench.py:260-287 | Over a whole table and for every symmetric closeness, no cluster exceeds k + 1 exactly when every anchor missing from its own full answer is shielded by an earlier block of that answer, one that has the anchor in its own answer when the minimum is two; nothing shields at larger minimums, and a minimum beyond k + 2 leaves no clusters. |
| VectorSizes.ThreeTwins | benchmarks/recompaction_bench.py:260-287 | Three equal embeddings with k = 1, the first answered with the two others: one cluster of three at the default minimum. |
| HardTimeout.StepKeepsInv | benchmarks/hard_timeout.py:185-209 | Every step of child, feeder, clock or parent keeps the invariant: at most one report, the parent holds only what was posted, rounds keep pace with the clock. |
| HardTimeout.OutcomeIsHonest | benchmarks/hard_timeout.py:211-231 | In every interleaving OK and ERROR carry exactly what the child posted, CRASHED means it exited and never posted, TIMEOUT comes after the deadline, and killed is set for TIMEOUT alone. |
| HardTimeout.OneOutcome | benchmarks/hard_timeout.py:161-231 | The outcome is final. |
| HardTimeout.SupervisorTerminates | benchmarks/hard_timeout.py:185-209 | In every run the parent makes at most a fixed number of steps, given by the timeout in poll intervals. |
| HardTimeout.CanAnswer | benchmarks/hard_timeout.py:185-209 | Progress: from every point of every run the parent reaches an answer by its own steps and the passing of time alone. |
| HardTimeout.TimeoutMeans | benchmarks/hard_timeout.py:56-57 | Behind every TIMEOUT: nothing was posted at the last look at the queue, and a result was posted by the end exactly when the child wrote one after that look; the child was alive at its last check, and still at the check of the clock, or at the kill, exactly when it did not exit in between. |
| HardTimeout.TimeoutMayDiscardAResult | benchmarks/hard_timeout.py:190-222 | A run, for every timeout and report, in which the child posts after the last look and the outcome is TIMEOUT. |
| SupervisorLoop.RunWithHardTimeout | benchmarks/hard_timeout.py:185-231 | The loop as written, for every schedule of the other processes, ends and returns an honest outcome, a TIMEOUT with its story; its run is a run of the transition system. |
| WorkerProtocol.ReceiveKeepsInv | benchmarks/_ch_minilm_spawn.py:574-619 | A received message answers the question just sent, and only an ok message appends, one payload for that question. |
| WorkerProtocol.RunKeepsInv | benchmarks/_ch_minilm_spawn.py:421-493 | The protocol invariant holds at every state of every run of child and parent. |
| WorkerProtocol.PayloadBelongsToItsIteration | benchmarks/_ch_minilm_spawn.py:569-602 | In every run only a receive appends a payload, one at the end, tagged with the question of the iteration. |
| WorkerProtocol.PayloadIsTheChildsAnswer | benchmarks/_ch_minilm_spawn.py:569-602 | In every run, whatever grows the payloads in iteration i appends exactly the answer that the current child gave, at an earlier step, while busy with question i. |
| WorkerProtocol.EveryPayloadWasAnswered | benchmarks/_ch_minilm_spawn.py:569-602 | Every payload of every state is the answer some child gave to the question it is tagged with. |
| WorkerProtocol.TotalsCount | benchmarks/_ch_minilm_spawn.py:574-619 | In every state timeouts are the kills so far, errors the failures and memory faults received, filtered the empty answers received, and there is a payload for each answer received. |
| WorkerProtocol.LostChildIsReplaced | benchmarks/_ch_minilm_spawn.py:576-611 | At every loop head a child that ran out of memory or was killed has been replaced by a younger one, so no question is sent to it. |
| WorkerProtocol.NoUnexpectedStatus | benchmarks/_ch_minilm_spawn.py:590-619 | The branch that passes over an unexpected status is never taken. |
| WorkerProtocol.NothingIsLost | benchmarks/_ch_minilm_spawn.py:566-619 | At every loop head evaluated plus skipped equals the questions handled, and skipped is timeouts plus errors plus filtered. |
| WorkerProtocol.LateResultIsAbandoned | benchmarks/_ch_minilm_spawn.py:482-493 | A result that arrives between the timeout and the kill stays on a queue that nobody reads again; the new queues start empty. |
| WorkerLoop.EvaluateAll | benchmarks/_ch_minilm_spawn.py:566-619 | The question loop as written, for every behaviour of the worker: unless a start fails, every question is evaluated or skipped, in order; each payload is what a child answered to that question, timeouts count the kills, errors the failures received, and skipped is these and the filtered. |
| WorkerLoop.Worker.Recv | benchmarks/_ch_minilm_spawn.py:479-480 | A message received answers the question in flight and moves the counters as its status says; without one nothing moves. |
| WorkerLoop.Worker.RespawnWorker | benchmarks/_ch_minilm_spawn.py:487-493 | A replaced worker leaves every counter and payload as it was. |
| Fusion.RollUp | benchmarks/_ch_minilm_spawn.py:266-274 | The sessions of the hits, each once, in the order of first appearance. |
| Fusion.SessionOfTurn | benchmarks/_ch_minilm_spawn.py:269-270 | The block SESSION-<s>__t<j> names the session s, whenever s holds neither separator and j no colon. |
| Fusion.RrfFuse | benchmarks/_ch_minilm_spawn.py:172-177 | The score table and its sort compute the ids in order of falling reciprocal-rank score, ties in insertion order. |
| Fusion.FirstSeenOrder | benchmarks/_ch_minilm_spawn.py:266-274 | An id that occurs first is listed first. |
| Fusion.FusedIsRanking | benchmarks/_ch_minilm_spawn.py:172-177 | Fusion returns every id of the lists, each once, in non-increasing score. |
| Fusion.ScoreIsSumOfReciprocals | benchmarks/_ch_minilm_spawn.py:173-176 | On lists without repetitions a score is the sum of 1/(k + rank) over the lists that hold the id. |
| Fusion.FusedOrderIs | benchmarks/_ch_minilm_spawn.py:172-177 | Of two ids the one with the higher score is first, and between equal scores the one met first. |
| Sorting.SortStable | benchmarks/_ch_minilm_spawn.py:177-177 | The sort is stable: of two elements that may stand as they do, the former stays before the latter. |
| Fusion.FusionRespectsUnanimity | benchmarks/_ch_minilm_spawn.py:172-177 | On lists without repetitions, an id that precedes another in every list holding the latter (one at least) is ranked strictly before it. |
| Fusion.FusionOfOne | benchmarks/_ch_minilm_spawn.py:172-177 | Fusing a single list without repetitions gives it back. |
| Fusion.ShortcutAgrees | benchmarks/_ch_minilm_spawn.py:274-276 | The shortcut for at most one list is the general form. |
| Fusion.ReciprocalRank | benchmarks/_ch_minilm_spawn.py:282-286 | The reciprocal of the first gold rank or zero, and any@k holds exactly when it is at least 1/k. |
| Fusion.AnyAtIffRank | benchmarks/_ch_minilm_spawn.py:277-286 | any@k holds exactly when the first gold rank is within k. |
| Fusion.RecallLaws | benchmarks/_ch_minilm_spawn.py:277-281 | Both recalls are monotone in k; all@k of a non-empty gold set implies any@k and at most k gold ids. |
| RecallAggregate.GroupByKind | benchmarks/_ch_minilm_spawn.py:513-515 | Every type maps to its own records, in order, and nothing else is a type. |
| RecallAggregate.Aggregate | benchmarks/_ch_minilm_spawn.py:498-521 | The report holds the overall metric and, once per type in sorted order, the metric of the records of that type. |
| RecallAggregate.MeansAreMeans | benchmarks/_ch_minilm_spawn.py:503-510 | A metric holds the number of its items, and each mean, as often as there are items, is the sum of its mark over them. |
| RecallAggregate.OverallIsWeightedMean | benchmarks/_ch_minilm_spawn.py:503-521 | Each overall mean is the mean of the type means weighted by their counts, before rounding, for any measure. |
| Journal.EligibleQuestions | benchmarks/longmemeval_full_run.py:74-95 | The pool and the two exclusion counts, which add up to the dataset. |
| Journal.EligibleAre | benchmarks/longmemeval_full_run.py:74-95 | The pool holds exactly the questions with gold whose id does not end in _abs. |
| Journal.LimitedIs | benchmarks/longmemeval_full_run.py:224-225 | A limit keeps a prefix: of that length, or, when negative, without that many at the end. |
| Journal.UnnamedDiffer | benchmarks/longmemeval_full_run.py:232-232 | Questions without an id get names of their own. |
| Journal.StridedAt | benchmarks/longmemeval_full_run.py:216-223 | A stride takes every stride-th question of the pool, from the first on, and no other. |
| Journal.UnitsAreQueried | benchmarks/longmemeval_full_run.py:232-238 | There is one unit of work for each question of the pool with a query, in order, and none for another. |
| Journal.OwnIdsGiveOwnNames | benchmarks/longmemeval_full_run.py:215-234 | When every question has an id of its own, so has every unit of work, for every stride and limit. |
| Journal.Log.LoadDone | benchmarks/longmemeval_full_run.py:145-159 | The ids in the artifact. |
| Journal.Log.Run | benchmarks/longmemeval_full_run.py:226-274 | One pass appends, in order, a row (ranking, latency, pipeline note, status and time, a miss when the unit did not return) for each unit whose id was not there when it began, until it is interrupted. |
| Journal.NewRowsReportAttempts | benchmarks/longmemeval_full_run.py:239-265 | A pass leaves the rows that were there; its n-th new row carries the gold set, status and time of the n-th attempt on the n-th pending unit, with the served ranking, latency and probe when it finished, and an empty ranking, its run time and the clipped error otherwise. |
| Journal.PassMovesNames | benchmarks/longmemeval_full_run.py:226-274 | An interrupted pass only moves ids from the pending list to the journal, in order. |
| Journal.InterruptionsDoNotMatter | benchmarks/longmemeval_full_run.py:200-274 | Any series of interrupted passes and then a full one leave the ids, in the order, of a single full pass. |
| Journal.ExactlyOnce | benchmarks/longmemeval_full_run.py:200-274 | From an empty journal the outcome is exactly one row per unit of work, in order. |
| Journal.RepeatedNameLosesARow | benchmarks/longmemeval_full_run.py:231-237 | When two pending units share an id, some interruption loses a row. |
| Journal.ResumptionIsTransparentIff | benchmarks/longmemeval_full_run.py:200-274 | Resuming is transparent exactly when no two pending units share an id. |
| Journal.KilledUnitsAreMisses | benchmarks/longmemeval_full_run.py:242-252 | A unit that did not finish stays in the journal as a miss through any passes. |
| Pairing.IndexByQuestion | benchmarks/paired_scorecard.py:116-131 | Indexing succeeds exactly when every id is usable and none is repeated, and then maps each id to its row; otherwise the first offending row decides the reason. |
| Pairing.PairRuns | benchmarks/paired_scorecard.py:150-197 | Two runs are indexed and then paired as specified, or refused for an id. |
| Pairing.PairingIsExact | benchmarks/paired_scorecard.py:150-197 | Runs pair exactly when they cover the same questions, one completed in both, and all did or dropping was asked for; the kept ids are those that completed in both, in baseline order, and with the dropped ones they are all the questions. |
| Pairing.ArmsHoldTheirRows | benchmarks/paired_scorecard.py:190-197 | Each arm of a pairing maps every id to that arm's own row, and knows every kept id. |
| Pairing.CompleteMeansBothOk | benchmarks/paired_scorecard.py:179-179 | The index is read as the rows stand: a question is complete exactly when both runs hold a completed row for it. |
| Pairing.CandidateOrderIrrelevant | benchmarks/paired_scorecard.py:150-197 | The order of the rows of the candidate does not matter. |
| PairedScorecard.DrawWidth | benchmarks/paired_scorecard.py:236-236 | The width of a draw below n covers n and is less than twice as wide. |
| PairedScorecard.Rng.DrawIndex | benchmarks/paired_scorecard.py:223-240 | The result is the first draw below n, every earlier one having been too large; no draw is made for n up to 1. |
| PairedScorecard.Resample | benchmarks/paired_scorecard.py:290-294 | One resample sums as many differences as there are questions, at the indices that the generator accepts one after the other. |
| PairedScorecard.BootstrapMeanDiff | benchmarks/paired_scorecard.py:266-306 | The interval is computed exactly for the arguments that the code accepts, from that many resamples, drawn in succession from the generator. |
| PairedScorecard.SameBitsSameDraws | benchmarks/paired_scorecard.py:223-240 | The resamples depend on nothing but the bits of the generator, the number of questions and how many are drawn. |
| PairedScorecard.IndicesInRange | benchmarks/paired_scorecard.py:297-298 | Both percentile indices are in range for every number of resamples. |
| PairedScorecard.IndicesByTail | benchmarks/paired_scorecard.py:296-298 | Without the clamps the low index is the floor of the tail count and the high one is its mirror by the ceiling. |
| PairedScorecard.IndicesOrderedIff | benchmarks/paired_scorecard.py:296-298 | The low index is at most the high one exactly when the tail count is below 1 or its floor and ceiling leave room. |
| PairedScorecard.BandOfOneIsEnough | benchmarks/paired_scorecard.py:296-298 | confidence * resamples >= 1 suffices for the indices to be in order. |
| PairedScorecard.CrossedIndices | benchmarks/paired_scorecard.py:296-298 | Three resamples at confidence 0.2 have crossed indices. |
| PairedScorecard.BootstrapBounds | benchmarks/paired_scorecard.py:289-306 | Both bounds lie between the least and the greatest difference, and low <= high when the indices are in order. |
| PairedComparison.AlwaysOrderedIff | benchmarks/paired_scorecard.py:289-306 | low <= high for every sample and all draws exactly when the indices are in order. |
| PairedComparison.IndicesMirrorIff | benchmarks/paired_scorecard.py:296-298 | The two indices are mirror images exactly when the tail holds a whole number of resamples or there is one resample. |
| PairedComparison.AlwaysMirrorsIff | benchmarks/paired_scorecard.py:289-306 | For the same draws, exchanging the arms maps [low, high] to [-high, -low] for every sample exactly when the indices are mirror images. |
| PairedComparison.SwappedComparison | benchmarks/paired_scorecard.py:380-422 | Exchanging the arms exchanges the discordant counts, keeps the concordant count and p, negates the mean difference, turns the verdict round and mirrors the interval. |
| PairedComparison.SwappedRuns | benchmarks/paired_scorecard.py:380-422 | Two comparisons that each draw from a generator with the same bits make the same draws, and so exchange in the same way. |
| PairedComparison.VerdictSwapsIff | benchmarks/paired_scorecard.py:309-324 | The verdict on exchanged counts is the opposite one, except exactly when a tie is tested at a level of 1 or more; which verdict it is, `VerdictIs` says. |
| PairedComparison.ComparisonCounts | benchmarks/paired_scorecard.py:380-422 | On the two vectors: candidate-only, baseline-only and concordant are the numbers of indices at which the candidate is greater, less, or equal; p is the test of the first two; the mean difference is that of the sums, over n. |
| PairedComparison.VerdictIs | benchmarks/paired_scorecard.py:309-324 | Each verdict exactly when: no index differs; fewer differ than the floor; enough differ and p exceeds alpha; enough differ, p does not, and more indices favour the candidate; or as many or more favour the baseline. |
| PairedComparison.WinsBounds | benchmarks/paired_scorecard.py:398-400 | The two discordant counts never exceed the pairs, and are both zero exactly when all values are equal. |
| PairedComparison.IdenticalMeansEqual | benchmarks/paired_scorecard.py:489-505 | The runs count as identical exactly when every paired value of every tested metric is equal. |
| PairedComparison.NetZeroIsNotIdentical | benchmarks/paired_scorecard.py:493-495 | Equal discordant counts in both directions are not identity. |
| Ndjson.PrintIsClean | benchmarks/repro_manifest.py:65-67 | Canonical JSON is one non-empty line without control characters and without white space at its edges. |
| Ndjson.ReadRows | benchmarks/repro_manifest.py:220-232 | The loop returns the parsed non-blank lines, or an error at the first that does not parse. |
| Ndjson.RowsAreParsedLines | benchmarks/repro_manifest.py:220-232 | There are rows exactly when every line that is not blank parses, and then there is one for each, in order. |
| Ndjson.BrokenLineLeavesNoRows | benchmarks/repro_manifest.py:220-232 | One line that is not blank and does not parse leaves no rows. |
| Ndjson.RowsRoundTrip | benchmarks/repro_manifest.py:203-203 | Any well-formed rows written one per line are read back as they were, by every parser that reads back the text of well-formed values. |
| Ndjson.ReaderReadsBack | benchmarks/repro_manifest.py:220-232 | Such a parser exists for every choice of numerals, and may refuse all other text. |
| Ndjson.PrintUnique | benchmarks/repro_manifest.py:65-67 | Text that starts with a printed value, followed by nothing that could prolong a number, can be read as one in one way only. |
| Ndjson.UnescapeInverts | benchmarks/repro_manifest.py:65-67 | Reading an escaped string by section 7 of RFC 8259 gives the string back. |
| Ndjson.CanonicalInjective | benchmarks/repro_manifest.py:65-67 | Different values have different canonical text, from the printer alone. |
| ReproPackage.WritePackage | benchmarks/repro_manifest.py:191-217 | The four artifacts and a manifest stamped with the hash and length of each. |
| ReproPackage.Report.Check | benchmarks/repro_verify.py:63-70 | A check is counted, and adds its finding exactly when it fails. |
| ReproPackage.Report.CheckArtifacts | benchmarks/repro_verify.py:99-107 | One finding for each fault of each artifact, in name order, and no other. |
| ReproPackage.Report.NameDifferences | benchmarks/repro_verify.py:126-130 | One finding for each key whose committed and recomputed value differ, in order. |
| ReproPackage.Report.CheckRows | benchmarks/repro_verify.py:133-160 | The findings about verdicts, counters, vacuity and headline, each exactly when it applies. |
| ReproPackage.VerifyPackage | benchmarks/repro_verify.py:88-161 | The report passes exactly when the package is acceptable, which `AcceptedIff` spells out; unreadable text raises only for a package that is not; every artifact fault is named either way. |
| ReproPackage.AcceptedIff | benchmarks/repro_verify.py:95-161 | On the fields of the rows: a readable package is accepted exactly when schema, hashes and lengths are as stated, the metrics text is that of its rows, the total is the number of rows, the killed counter the number of rows whose unit_status is not ok, some row ran if there is one, the headline is the recomputed one, and no disagreeing row is listed. |
| ReproPackage.AcceptedCounts | benchmarks/repro_verify.py:138-154 | A non-empty package whose rows all carry a unit_status other than ok is never accepted; an accepted one counts its rows and its failed rows. |
| ReproPackage.FalseClaimsAreRejected | benchmarks/repro_verify.py:133-160 | A headline other than the recomputed one is rejected, and so is a non-empty list of disagreeing rows. |
| ReproPackage.WrittenIsAcceptedIff | benchmarks/repro_manifest.py:191-232 | A written package is accepted exactly when its metrics are the metric function of its well-formed rows, and on the fields of those rows the counters and the headline are true, no verdict disagrees and something ran. |
| ReproPackage.EditedArtifactIsRejected | benchmarks/repro_verify.py:98-107 | Any edit of any artifact after the stamp is rejected. |
| ReproPackage.RemovedArtifactIsRejected | benchmarks/repro_verify.py:99-102 | So is the removal of one. |
| NiahMetrics.NiahHit | benchmarks/repro_metrics.py:78-94 | Found exactly when some result is the needle or its excerpt holds every one of at least one keyword. |
| NiahMetrics.NiahMetricsOf | benchmarks/repro_metrics.py:97-159 | The loop computes the metrics of the specification. |
| NiahMetrics.MetricsIgnoreOrder | benchmarks/repro_metrics.py:97-159 | The metrics are the same for every permutation of the rows. |
| NiahMetrics.PayloadNamesDecisions | benchmarks/repro_metrics.py:38-47 | Two runs have the same decision text, the one that is hashed, exactly when their multisets of unit id and ranked ids are equal. |
| NiahMetrics.BreakdownAddsUp | benchmarks/repro_metrics.py:116-124 | A breakdown summed over its keys gives the passed rows and all the rows. |
| NiahMetrics.TimedPlusKilled | benchmarks/repro_metrics.py:111-115 | Timed rows and killed rows are all the rows. |
| NiahMetrics.PercentileIsNearestRank | benchmarks/repro_metrics.py:57-60 | For 0 < p <= 1 the percentile is a sample value with at least p*n values up to it and fewer than p*n below it. |
| NiahMetrics.PercentileMonotone | benchmarks/repro_metrics.py:57-60 | Percentiles grow with p. |
| NiahMetrics.PublishedPercentilesInOrder | benchmarks/repro_metrics.py:62-70 | p50 <= p90 <= p95 <= p99 <= max, and nothing exceeds the maximum. |
| NiahMetrics.PublishedTimingInOrder | benchmarks/repro_metrics.py:50-70 | On the published timing: it covers the rows that finished, p50 <= p90 <= p95 <= p99 <= max, and the maximum is the largest latency of those rows. |
| NiahMetrics.PublishedCounts | benchmarks/repro_metrics.py:107-137 | Passed, total, rate and the killed counter count the rows that are hits, all rows, their quotient, and the rows that did not finish. |
| NiahMetrics.SizeTable | benchmarks/repro_metrics.py:119-124 | The table by size has a cell for exactly the sizes that occur, counting the rows of that size and the hits among them. |
| NiahMetrics.DepthTable | benchmarks/repro_metrics.py:119-124 | The table by depth likewise. |
| NiahMetrics.DisagreementsAre | benchmarks/repro_metrics.py:106-109 | The integrity list names in order the units of the rows whose stored verdict their own results contradict, one entry for each. |
| RankingIdentity.ScoreTokensInjective | benchmarks/ranking_identity.py:77-92 | Two scores share a token exactly when they are the same value, bit for bit, or are both NaN. |
| RankingIdentity.NansShareAToken | benchmarks/ranking_identity.py:80-84 | Two NaNs with different bits share a token; the two zeros do not. |
| RankingIdentity.RankingFingerprint | benchmarks/ranking_identity.py:95-121 | The served pairs in rank order, or an error exactly when some hit lacks its id or a numeric score. |
| RankingIdentity.FingerprintDigest | benchmarks/ranking_identity.py:124-136 | The loop hashes the framed, flattened pairs. |
| RankingIdentity.FrameInjective | benchmarks/ranking_identity.py:127-130 | Length-prefixed framing is injective. |
| RankingIdentity.FlattenInjective | benchmarks/ranking_identity.py:132-135 | Flattening the pairs is injective. |
| RankingIdentity.DigestNamesRanking | benchmarks/ranking_identity.py:124-136 | Under a collision-free hash two digests are equal exactly when the rankings are. |
| RankingIdentity.CompareRankings | benchmarks/ranking_identity.py:165-183 | Moved exactly when the rankings differ, exactly when a divergence is reported, and it is where they part. |
| RankingIdentity.DivergenceIsFirst | benchmarks/ranking_identity.py:167-173 | The reported divergence is the least differing position. |
| RankingIdentity.AssertRankingUnchanged | benchmarks/ranking_identity.py:186-218 | Passes exactly when both sides are thick enough and equal; vacuous exactly when one is too thin. |
| RankingIdentity.AssertBatteryUnchanged | benchmarks/ranking_identity.py:243-279 | Passes exactly when both batteries ask the same queries, each thick enough, with equal answers; otherwise vacuous, or moved with all the queries that moved. |
| RankingIdentity.PassMeansIdentical | benchmarks/ranking_identity.py:243-279 | With min_results at least 1, a pass means a non-empty battery, equal on both sides, with enough results everywhere. |
| TopKMask.TopK | benchmarks/bench_kernels.py:107-120 | Exactly min(k, n) entries are marked, ties included, and which ones. |
| TopKMask.FirstReaching | benchmarks/bench_kernels.py:112-119 | The loop marks the first k scores that reach the threshold. |
| TopKMask.ThresholdCounts | benchmarks/bench_kernels.py:111-111 | At least k scores reach the threshold and fewer than k exceed it. |
| TopKMask.StrictDominanceIff | benchmarks/bench_kernels.py:107-120 | Every marked score exceeds every unmarked one exactly when exactly k scores reach the threshold. |
| TopKMask.DominanceIff | benchmarks/bench_kernels.py:107-120 | No marked score is below an unmarked one exactly when every score above the threshold is among the first k that reach it. |
| TopKMask.TiesCanShutOutTheBest | benchmarks/bench_kernels.py:107-120 | For the scores 1, 1, 2 and k = 2 the best score is left out. |
| Decimals.PaddedInjective | benchmarks/feedback_success_bench.py:100-100 | Zero-padded numbers never collide, however many digits they need. |
| Episodes.TopicTextInjective | benchmarks/feedback_success_bench.py:92-100 | Two topics have the same text only when they are the same topic. |
| Episodes.Topics.BuildS1 | benchmarks/feedback_success_bench.py:139-143 | Builds the S1 family and advances the shared counter by n. |
| Episodes.Topics.BuildS2 | benchmarks/feedback_success_bench.py:146-155 | Builds S1 and three hits without a fact. |
| Episodes.Topics.BuildF1 | benchmarks/feedback_success_bench.py:158-175 | Builds a third of the hits. |
| Episodes.Topics.BuildF2 | benchmarks/feedback_success_bench.py:178-201 | Builds n hits on the excerpt of the first, using up n ids. |
| Episodes.Topics.BuildF3 | benchmarks/feedback_success_bench.py:204-216 | Builds n hits of which only the first third is valid. |
| Episodes.Topics.BuildF4 | benchmarks/feedback_success_bench.py:219-244 | Builds n hits of which only the first third is durable and active. |
| Episodes.IsNearDuplicate | benchmarks/feedback_success_bench.py:271-285 | True exactly when the tokens are non-empty and some counted set shares at least 0.6 of the union. |
| Episodes.GroundTruthLabel | benchmarks/feedback_success_bench.py:288-313 | The loop labels a list of hits as specified. |
| Episodes.LabelIff | benchmarks/feedback_success_bench.py:288-313 | A list of hits is sufficient exactly when every needed fact is carried by a hit that is sound and not too similar to an earlier one that counts; unsound hits neither cover nor make later ones duplicates. |
| Episodes.SimilarIff | benchmarks/feedback_success_bench.py:271-285 | Two token sets are too similar exactly when three times what they do not share is at most twice what they share. |
| Episodes.PlainFieldsAreReadAsTheyAre | benchmarks/feedback_success_bench.py:300-312 | On plain lower-case fields a hit is sound exactly when it is durable, active and valid to at least a half. |
| Episodes.DistinctWordsCover | benchmarks/feedback_success_bench.py:288-313 | Sound hits on pairwise different words cover exactly their facts. |
| Episodes.RepeatedWordCoversOne | benchmarks/feedback_success_bench.py:288-313 | Sound hits that all say the same word cover the first fact alone. |
| Episodes.CoveredHasSoundHit | benchmarks/feedback_success_bench.py:300-312 | A covered fact has a sound hit of its own. |
| Episodes.SufficientIsTrue | benchmarks/feedback_success_bench.py:139-155 | For every demand and counter start, S1 and S2 are labelled true. |
| Episodes.DeficientIsFalse | benchmarks/feedback_success_bench.py:158-244 | For every demand and counter start, F1, F3 and F4 are labelled false. |
| Episodes.RedundantIff | benchmarks/feedback_success_bench.py:178-201 | F2 is labelled true exactly when one fact was needed. |

## Left out

- HardTimeout: states are values and steps are a relation, because every interleaving is quantified over; the parent's own code is `SupervisorLoop.RunWithHardTimeout`. The half-second grace of the last read is one look at the queue after any number of other moves, and elapsed time and exit codes are not recorded.
- WorkerProtocol: likewise a relation over values, with the parent's code in `WorkerLoop.EvaluateAll`. Model loading, the CUDA cache, progress printing and the final `kill` are not modelled; a failed start ends the run, as the exception does.
- FactProbes.ExtractProbes: `\b`, `\d` and `\w` follow a parameter that contains the ASCII classes and keeps `"` out of the words, so the theorems cover the Unicode classes too; the cache of compiled patterns is not modelled.
- Clusters.ClusterByOverlap: takes the token sets of the rows; JSON decoding and `_tokenize` are not modelled, and `k` is a natural number.
- Clusters.ClusterByVectors: neighbour lists and the closeness test are arbitrary; the cosine and its floor are not computed.
- Clusters: resolving ids to blocks afterwards (`_materialize`), which can only drop clusters with unreadable blocks and sort the rest, is not modelled.
- RecompactionScore.ScoreIsPerfectIff: the compressor's outcome is an input; `recompact_cluster` itself is not part of this model.
- Journal.Log.Run: appends are whole lines; a torn line, which `_load_done` skips and `_replay` does not, is not modelled, and neither is the count of killed units that `_replay` discloses. The recall and precision tables of a row, which `score_question` derives from the recorded ranking and gold set, are not repeated in it, nor are the adapter, turns and mask labels.
- PairedScorecard.BootstrapMeanDiff: arithmetic is exact, and the index products are those of exact arithmetic; a floating-point product can fall just below a whole number where the exact one meets it.
- PairedComparison.SwappedComparison: the exact binomial test and the floor of discordant pairs are inputs; note texts are not modelled.
- Pairing.IndexByQuestion: reading the artifact and validating metric values are not modelled, nor the wording of refusals.
- Ndjson.RowsRoundTrip: the JSON parser is a parameter, and so is which numerals the numbers of a program print as; object keys stand in canonical order already.
- ReproPackage.VerifyPackage: a manifest is absent, unreadable (which raises) or an object whose fields may be missing; fields of the wrong JSON type, the flag for run-to-run stability and the rendering of the report are not modelled. The scorecard verifier is not modelled.
- NiahMetrics.NiahMetricsOf: missing row fields have been defaulted before. The insertion order of the breakdown keys is not modelled; canonical text sorts keys, so it does not show. Ratios, percentiles and means are stated before rounding, and constant labels are left out.
- RankingIdentity.DigestNamesRanking: the served-set encoder is taken as a collision-free hash of the length-prefixed framing that its caller describes.
- Fusion.RrfFuse: scores are exact; `k` is a natural number.
- TopKMask.TopK: `k` is a natural number; a negative `k` indexes from the end in the source.
- Episodes.GroundTruthLabel: letter case is folded for ASCII only, and a validity score is a real number.
- Rounding of published values, tables, environment capture, dataset downloads, model calls and judges are not modelled.
- The near-copies of the worker, the roll-up and the fusion in the other LongMemEval harnesses are not modelled again.
