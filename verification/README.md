# A model of VBASE's multi-index top-k executor, its index scans and their tools

VBASE adds vector indexes to PostgreSQL. A `topk` query reads rows from several index scans,
drops the rows it has met before, keeps the `ef` best ones in a bounded max-heap, and stops when a
scan is exhausted or when `termCond` new rows in a row were rejected by the heap. The files here
model that executor under its three schedulers, the index scans that feed it, the row identities that
connect the two, the selectivity estimator used in planning, and two state machines of the lint script
that ships with the Milvus client.

Layout, bottom up:

- `RowIdentity.dfy`: tuple identifiers, stored labels, dedup keys.
- `Ranking.dfy`: rows, and what the k best rows of a set are.
- `Scans.dfy`: one read of one column (`Pull`), the scan state as a function of the sequence of
  columns read (`Replay`), and the drop counter as a function of the rows seen (`Streak`).
- `Arithmetic.dfy`, `Schedulers.dfy`: proportional shares and rounding; the quotas of a round under
  round robin, greedy and adaptive scheduling.
- `Runs.dfy`: whole runs, as a total function to `Finished`, `Undefined` or `Stalled`.
- `QuotaLaws.dfy`: what the quotas mean in terms of counts, score sums and scores.
- `ReadOrder.dfy`, `QuotaOrder.dfy`: in which order the three schedulers read the columns, over whole runs.
- `TwoRuns.dfy`, `Stopping.dfy`, `AdaptiveRuns.dfy`: theorems about whole runs.
- `WarmUpRounds.dfy`, `SpinningRuns.dfy`: the two ways an adaptive run goes wrong, a division by zero and a
  loop that reads nothing, with the inputs that show them.
- `Heap.dfy`, `QuotaMethods.dfy`, `Executor.dfy`: the executor as a class that updates heap, seen set,
  cursors, counter and stack in place, with the loops of the three schedulers, and the `topk` and
  `multicol_topk` functions.
- `Nearest.dfy`, `IndexScan.dfy`: the distance queue and the scan state machine of the HNSW and SPTAG
  access methods.
- `Pipeline.dfy`: index scans and executor together, from stored labels to the rows returned.
- `Selectivity.dfy`, `Sampler.dfy`, `SamplerLaws.dfy`: the two-pointer sweep, the sampler and its file format.
- `Brackets.dfy`, `BracketLaws.dfy`, `AngleLaws.dfy`: cpplint's bracket matchers, and when they undo each other.
- `BalancedText.dfy`, `TemplateText.dfy`: what text the matchers find, in terms of the characters alone.
- `Preprocessor.dfy`, `Branches.dfy`: cpplint's nesting stack under conditional compilation.

How the parts hang together. The executor's heap test has a heap-free meaning: a new row is rejected
exactly when `ef` rows seen before it score no worse (`Heap.HeapDecides`). So the drop counter, and with
it the whole schedule, is a function of the rows seen, and a run is a pure function of its streams
(`Runs.Run`). The class methods are proved to compute that run while the heap holds the `ef` best rows
seen; what a run means is proved about the function. In particular its log of reads is determined by the
streams alone: by laws that mention neither rounds nor plans for round robin (`ReadOrder.RoundRobinReads`) and
greedy (`QuotaOrder.GreedyReads`), and round by round for adaptive (`QuotaOrder.AdaptiveReads`).

Conventions. Scores, distances and weights are exact reals. The order in which a priority queue
releases equal scores is left open: the result heap pops any worst row, and the adaptive scheduler's local
queue is an arbitrary function that lists what was pushed in order of score (`Schedulers.Drains`). In the
adaptive scheduler scores are not negative, since it takes `1 / (1e-10 + score)` as a weight.

Where code and intention part, the model follows the code:

- In the greedy and adaptive executors a column that ends does not stop the round: the remaining
  columns are still read (`QuotaOrder.QuotasServed`). In round robin it does (`ReadOrder.RoundRobinReads`).
- The adaptive executor divides by zero in its second round if some column has contributed no positive score
  (`AdaptiveRuns.UndefinedExactly`). On the streams: exactly when the warm-up round does not end the run and
  some column has, among its first 20 rows, none of positive score that is new (`WarmUpRounds.UndefinedOnStreams`).
  Two indexes that list the same 20 rows in the same order are enough (`WarmUpRounds.TwinsUndefined`).
- The adaptive executor can spin for ever, reading nothing, exactly when there are more than `2k` columns, also
  if every column lists the same table and each row once (`SpinningRuns.NeverStallsIff`).
- cpplint's backward matcher is described as almost the reverse of the forward one. It is its exact
  inverse, in any text, on `()`, `[]` and `{}`, and not on `<>` (`BracketLaws.InvertibleIff`). For `<>`,
  `AngleLaws.AngleInverseIff` says for every text whether it is: the angle brackets outside plain groups, counted
  from the match back as the backward matcher reads them, must leave exactly one closer for the `<`. That is so
  whenever nothing in between is part of `<<` or of a spaced `>=`, or follows `operator`
  (`AngleLaws.CleanReverseUndoesClose`).
- The sampler accepts an empty vector while its dimension is unset; if it is sampled and a nonempty vector follows,
  that leaves a sample of another length than the recorded one (`Sampler.UniformIff`,
  `Sampler.EmptySampleCounterexample`).

## Model

| member | source | states |
|---|---|---|
| `TwoRuns.LargerHeapReadsOn` | vectordb/topk_src/topk_opt.cpp:500-607 | for every scheduler, on the same streams and termCond: with a larger ef the sequence of columns read and the sequence of rows seen only get longer, as prefixes; a run that is undefined or stalls with the smaller heap does the same with the larger one |
| `TwoRuns.LargerHeapNoWorse` | vectordb/src/topk.cpp:424-502 | two-run monotonicity: for k <= ef1 <= ef2, any answer with ef2 is at least as long as any answer with ef1 and position by position no worse, whatever the tie-breaking |
| `ReadOrder.RoundRobinReads` | vectordb/topk_src/topk_round_robin.cpp:458-513 | every round-robin run: read number j is of column j mod m, every read but the last finds a row, and the run stops at the first read that finds none or at the end of the first round that leaves termCond rejections in a row |
| `QuotaOrder.QuotasServed` | vectordb/topk_src/topk_opt.cpp:538-605 | a greedy or adaptive round with any quotas: unless rejections cut it short, the cursor of every column i ends at min(pos + quota, its rows), also after a column that ended, and i ends exactly if its quota exceeds its rows; the reads are column by column, cut at the first moment with termCond rejections |
| `QuotaOrder.WarmUpServed` | vectordb/topk_src/topk_opt.cpp:503-509 | the first round of every greedy or adaptive run brings each cursor to min(20, rows of the column), unless rejections cut it short; a column has ended exactly if it has fewer than 20 rows |
| `QuotaOrder.GreedyReads` | vectordb/topk_src/topk_greedy.cpp:494-591 | every greedy run: the warm-up reads, then one column, of least average in what the warm-up saw; it stops at the first moment with termCond rejections, after the warm-up if a column has ended, or at the first later read that finds nothing |
| `QuotaOrder.AdaptiveReads` | vectordb/topk_src/topk_opt.cpp:500-607 | every adaptive run: the warm-up reads, then rounds that read what fair quotas allow, each computed from the rows the round before brought; and what the last state is when it finishes, divides by zero or spins |
| `QuotaLaws.QuotasFair` | vectordb/topk_src/topk_opt.cpp:511-531 | the quotas, on counts, score sums and scores: k rows are shared among the columns so that share times score per row is the same for all, and one for each of the k best new rows so that share times (1e-10 + score) is the same for all; both rounded to the nearest, the second added up column by column |
| `QuotaLaws.InverseUnique` | vectordb/topk_src/topk_opt.cpp:519-531 | there is only one such sharing |
| `QuotaLaws.CheaperGetsMore` | vectordb/topk_src/topk_opt.cpp:524-531 | in it a column with a smaller score per row, or a better row, never gets less, rounded or not |
| `QuotaLaws.FrontIsBest` | vectordb/topk_src/topk_opt.cpp:512-518 | the rows that earn quotas are k rows of the last round, or all, and none of the others scores better than one of them |
| `QuotaLaws.AttributionMeaning` | vectordb/topk_src/topk_opt.cpp:576-578 | a column's count and score sum are those of the rows seen through it, each once |
| `QuotaLaws.AverageBetween` | vectordb/topk_src/topk_greedy.cpp:505-513 | a column's average lies between the least and the greatest score it contributed, and times its count is its score sum |
| `ReadOrder.NeverAskedAgain` | vectordb/topk_src/topk_opt.cpp:546-553 | under every scheduler no column is read again after a read that found it exhausted |
| `SpinningRuns.NeverStallsIff` | vectordb/topk_src/topk_opt.cpp:511-535 | over all inputs in which every column lists one and the same table, each row once: none makes the adaptive loop spin if and only if m <= 2k, for m columns and k requested rows (m below 2^32) |
| `AdaptiveRuns.AdaptiveFinishes` | vectordb/topk_src/topk_opt.cpp:500-607 | with at most 2k columns, an adaptive run that ends in its warm-up round or leaves it with every column's weight defined terminates |
| `AdaptiveRuns.UndefinedExactly` | vectordb/topk_src/topk_opt.cpp:524-528 | the division by zero happens exactly when the warm-up round does not end the run and leaves a column with score sum 0; it never happens later |
| `WarmUpRounds.UndefinedOnStreams` | vectordb/topk_src/topk_opt.cpp:503-528 | the same stated on the streams: it happens exactly when the warm-up round does not end the run and some column has no row of positive score among its first 20 that occurs neither earlier in the column nor among the first 20 rows of a column to its left |
| `WarmUpRounds.WarmMeaning` | vectordb/topk_src/topk_opt.cpp:503-605 | after a warm-up round that did not end the run, every column has 20 rows or more, and its score sum is positive exactly when one of its first 20 rows is new and of positive score |
| `WarmUpRounds.TwinsUndefined` | vectordb/topk_src/topk_opt.cpp:524-528 | for every k, a division by zero on two columns that list the same 20 distinct rows of score 1 in the same order |
| `SpinningRuns.StuckStalls` | vectordb/topk_src/topk_opt.cpp:511-535 | for every k and every m > 2k, a table and m columns that each list it once, on which the run reaches a state with no column ended and all-zero quotas |
| `AdaptiveRuns.StallIsForever` | vectordb/topk_src/topk_opt.cpp:511-605 | a round with all-zero quotas leaves the state as it is and is followed by a round with the same quotas |
| `AdaptiveRuns.RunNeverStalls` | vectordb/topk_src/topk_opt.cpp:511-605 | from any state between rounds, with at most 2k columns, no later round gets all-zero quotas |
| `AdaptiveRuns.RunStaysDefined` | vectordb/topk_src/topk_opt.cpp:524-528 | once every column has a positive score sum, no later round divides by zero |
| `Schedulers.QuotaBounds` | vectordb/topk_src/topk_opt.cpp:512-531 | the total quota of a non-first round is above k + _k/2 - m/2 and at most k + 3_k/2 + m/2 |
| `Schedulers.StallCondition` | vectordb/topk_src/topk_opt.cpp:512-531 | all quotas are zero exactly when the last round brought no new row and every column's share of k is below one half; never if m <= 2k |
| `Schedulers.BetterRowEarnsNoLess` | vectordb/topk_src/topk_opt.cpp:514-522 | among the best rows of a round a better score never earns its column a smaller quota |
| `Schedulers.AttributionConserved` | vectordb/topk_src/topk_opt.cpp:576-578 | the per-column counts add up to the number of rows seen, the per-column score sums to the total score of all rows seen |
| `Schedulers.GatherAll` | vectordb/topk_src/topk_opt.cpp:520-522 | handing each rounded part to its row's column loses and invents nothing |
| `Schedulers.Cheapest` | vectordb/topk_src/topk_greedy.cpp:505-513 | the leftmost column of least average score among those that contributed a row; none only if no column contributed |
| `Schedulers.StableOrderDrains` | vectordb/topk_src/topk_opt.cpp:482-482 | the order assumed of the local priority queue can be met: a stable sort by score meets it |
| `Arithmetic.SharesAddUp` | vectordb/topk_src/topk_opt.cpp:519-531 | the unrounded shares of n are nonnegative and add up to n |
| `Arithmetic.ApportionBounds` | vectordb/topk_src/topk_opt.cpp:519-531 | rounding moves the total of n shares by at most one half per share, strictly below on the losing side |
| `Stopping.StopByDrops` | vectordb/topk_src/topk_opt.cpp:583-605 | if a run ends and no column has ended: its last termCond new rows were all rejected, each with ef rows before it scoring no worse; exactly termCond of them for greedy and adaptive, at most termCond + m - 1 for round robin |
| `Stopping.ExactOnExhaustion` | vectordb/src/topk.cpp:434-502 | if a column that lists the whole table has ended, the rows seen are the table, and the scores returned are the first k scores of the table in order |
| `Stopping.ExactWithLargeHeap` | vectordb/src/topk.cpp:424-502 | if every column lists the table and ef is at least its size, every finished run is exact, under any scheduler |
| `Stopping.AlwaysFinishes` | vectordb/topk_src/topk_greedy.cpp:494-591 | round robin and greedy terminate on every input, by exhaustion or by drops |
| `Stopping.GreedyLocksIn` | vectordb/topk_src/topk_greedy.cpp:497-562 | every read after the warm-up round is of one column, of least average warm-up score among the columns that contributed a row |
| `Stopping.GreedyColumnMeaning` | vectordb/topk_src/topk_greedy.cpp:505-515 | the chosen column contributed a row, no column beats its average and none to its left ties it; column 0 if nothing was seen |
| `Scans.ReplayedSound` | vectordb/src/topk.cpp:430-459 | in every reachable state the seen rows have distinct tids, each is among the rows read of its column, and together they cover every row read; a column counts as ended only when it is exhausted |
| `Scans.ReplayedCounted` | vectordb/src/topk.cpp:430-459 | a column's cursor is the number of its reads, up to its rows, and it has ended exactly if there were more reads than rows |
| `Scans.RejectedMeaning` | vectordb/src/topk.cpp:462-462 | a row counts as rejected exactly if at least ef rows seen before it, counted one by one, score no worse |
| `Scans.ReplayPrefix` | vectordb/src/topk.cpp:430-459 | reading on never changes what has been seen, only extends it |
| `Scans.StreakMeaning` | vectordb/src/topk.cpp:461-467 | the drop counter counts the rejected rows at the end of what was seen, no fewer and no more |
| `Scans.StreakShrinks` | vectordb/src/topk.cpp:461-467 | on the same rows a larger heap never has the longer streak |
| `Runs.RunStep` | vectordb/topk_src/topk_opt.cpp:500-607 | one round of an unfinished run that is defined and not all zero: the run goes on from the state after the round, which extends the rows seen and has read a row or ended the run |
| `Runs.RoundProgress` | vectordb/topk_src/topk_opt.cpp:538-605 | a round with a positive quota reads a row or ends the run |
| `Ranking.KBestMonotone` | vectordb/src/topk.cpp:487-502 | the k best rows of a larger set are at least as many and position by position no worse |
| `Ranking.KBestIsSortedPrefix` | vectordb/src/topk.cpp:487-502 | the scores of the k best rows do not depend on ties: they are the first k of any sorted listing |
| `Ranking.PrefixIsBest` | vectordb/src/topk.cpp:702-717 | the first k of the ef best rows are the k best |
| `Heap.HeapDecides` | vectordb/src/topk.cpp:462-462 | a full heap accepts a score exactly when fewer than ef rows seen so far score no worse |
| `Heap.AcceptInPlaceOfWorst` | vectordb/src/topk.cpp:462-465 | replacing a worst row by a better one keeps the heap the ef best of all rows seen |
| `Heap.DrainedIsBest` | vectordb/src/topk.cpp:487-490 | the drained heap, read from the top of the stack, is the list of the ef best rows, best first |
| `Executor.FaginsState.constructor` | vectordb/src/topk.cpp:507-531 | a fresh node has read nothing |
| `Executor.FaginsState.Offer` | vectordb/src/topk.cpp:461-467 | after a new row the heap holds the ef best rows seen and the counter is the streak of rejections |
| `Executor.FaginsState.ReadColumn` | vectordb/src/topk.cpp:428-470 | one read keeps the node's invariant, and tells an exhausted column, a duplicate and a new row apart by the 64-bit key |
| `Executor.FaginsState.ReadEachOnce` | vectordb/topk_src/topk_round_robin.cpp:461-506 | a round-robin round, cut short by a column that ends |
| `Executor.FaginsState.ScanRoundRobin` | vectordb/topk_src/topk_round_robin.cpp:458-513 | the loop terminates with the scan of the whole round-robin run and the ef best rows of it in the heap |
| `Executor.FaginsState.ServeColumn` | vectordb/topk_src/topk_opt.cpp:539-596 | serves one quota; the local queue receives exactly the new rows, and the score and count lists stay those of the rows seen |
| `Executor.FaginsState.ServeQuotas` | vectordb/topk_src/topk_opt.cpp:538-605 | serves a round; unless the run is over, every quota is back to zero at its end |
| `Executor.FaginsState.ScanGreedy` | vectordb/topk_src/topk_greedy.cpp:494-591 | the loop terminates with the scan of the whole greedy run; the score and count lists are those of the first round throughout |
| `Executor.FaginsState.ScanAdaptive` | vectordb/topk_src/topk_opt.cpp:500-607 | for a run that neither divides by zero nor spins, the loop terminates with the scan of the whole adaptive run |
| `Executor.FaginsState.Drain` | vectordb/src/topk.cpp:487-490 | moves the heap to the stack, worst row first, losing nothing |
| `Executor.FaginsState.ExecFagins` | vectordb/src/topk.cpp:409-504 | the first call fixes the answer, the ef best rows seen; the n-th call returns its n-th row, and none once it is used up |
| `Executor.CallUntilDone` | vectordb/src/topk.cpp:702-717 | the successive calls return min(k, rows seen) rows in nondecreasing score that are the k best of all rows seen |
| `Executor.Topk` | vectordb/src/topk.cpp:576-586 | with the defaults for ef and termCond, the same for the whole function, under any scheduler; no rows for k = 0 |
| `Executor.AdaptiveRunnable` | vectordb/topk_src/topk_opt.cpp:500-607 | what the adaptive loop needs is given by at most 2k columns and a warm-up round that ends the run or leaves every weight defined |
| `Executor.MulticolTopk` | vectordb/src/multicol_topk.cpp:408-495 | the same with the heap bounded by k itself, and no rows for k = 0 |
| `Executor.EffectiveEf` | vectordb/src/topk.cpp:578-582 | a given ef of at least k is used as it is, 0 stands for 64 or k if that is more, and the bound is positive and at least k |
| `Executor.EffectiveTermCond` | vectordb/src/topk.cpp:584-586 | a given termCond is used as it is, and 0 stands for 50 |
| `QuotaMethods.FindCheapest` | vectordb/topk_src/topk_greedy.cpp:505-513 | the loop over the lists finds the greedy column |
| `QuotaMethods.PopBest` | vectordb/topk_src/topk_opt.cpp:512-519 | fills ids, weights and their sum from the best rows of the local queue, within the arrays of length k |
| `QuotaMethods.AddLocalShares` | vectordb/topk_src/topk_opt.cpp:512-522 | adds up the rounded shares of the best rows, column by column |
| `QuotaMethods.FillWeights` | vectordb/topk_src/topk_opt.cpp:524-528 | the weights are rows per score, and their sum |
| `QuotaMethods.AddChances` | vectordb/topk_src/topk_opt.cpp:529-531 | adds each column's rounded share of k |
| `QuotaMethods.ShareOut` | vectordb/topk_src/topk_opt.cpp:511-531 | from all-zero quotas, the quotas of the next round |
| `Pipeline.TopkOverIndexes` | vectordb/src/topk.cpp:409-504 | over ordered scans of indexes built from a table: if an index whose search reaches the whole table runs out, the rows returned have the k best rank scores of the table, under any scheduler and with other indexes that reach less; no rows for k = 0 |
| `Pipeline.StreamsListTable` | vectordb/src/hnswindex.cpp:315-323 | unpacking the labels that were packed for a table gives rows of that table, all of them if all labels come up |
| `Pipeline.ReadIndex` | vectordb/src/hnswindex.cpp:203-329 | the requests of an ordered scan return the rows of the index one for one, in the iterator's order |
| `RowIdentity.PackLabel` | vectordb/src/hnswindex_builder.cpp:117-121 | decoding the stored label returns the same block and offset, also for blocks from 2^31 on, which pass through a negative 32-bit number; the label is block times 2^32 plus offset |
| `RowIdentity.CastToUint64` | vectordb/src/topk.cpp:315-319 | the dedup key determines block and offset |
| `RowIdentity.SameKeyIffSameLabel` | vectordb/src/topk.cpp:315-319 | two labels decode to the same dedup key exactly when they are equal |
| `IndexScan.Scan.ScanAll` | vectordb/src/hnswindex.cpp:203-329 | over all requests of a range scan, exactly the in-range results before the scan is over are returned, each once, in order; in an ordered scan every result is, and xs_inorder ends up true exactly if some result had 86 strictly closer predecessors |
| `IndexScan.Scan.GetTuple` | vectordb/src/hnswindex.cpp:203-329 | one request returns the next result that is due, skipping none, with its label decoded; none is returned only if none is due any more |
| `IndexScan.Scan.NextInRange` | vectordb/src/hnswindex.cpp:247-298 | the loop of a range scan against the heap-free description of the whole trace |
| `IndexScan.Scan.KeepLooking` | vectordb/src/hnswindex.cpp:262-281 | the queue test fails exactly if queueThreshold earlier results are no farther; otherwise the queue again holds the nearest results |
| `IndexScan.Scan.NoteDistance` | vectordb/src/hnswindex.cpp:299-313 | xs_inorder turns true exactly at a result with 86 strictly closer predecessors, and never back |
| `IndexScan.Scan.Hnsw` | vectordb/src/hnswindex.cpp:247-250 | a scan with HNSW's constants: 3 results out of range, 50 queued distances, 86 closer ones |
| `IndexScan.Scan.Sptag` | vectordb/src/index.cpp:236-239 | a scan with SPTAG's constants: 5 results out of range, no queue |
| `IndexScan.Scan.Rescan` | vectordb/src/hnswindex.cpp:174-198 | a rescan starts over with the new key, also after a scan that has ended |
| `IndexScan.ExactWhenMonotone` | vectordb/src/index.cpp:236-266 | on a stream in order of distance, a range scan of either index returns every row in range |
| `IndexScan.HnswReturns` | vectordb/src/hnswindex.cpp:247-298 | exactly which results a range scan of an HNSW index returns: those in range, unless three in a row out of range followed one in range, or before any in range a result had 50 earlier ones no farther |
| `IndexScan.SptagReturns` | vectordb/src/index.cpp:236-266 | exactly which results a range scan of an SPTAG index returns: those in range, unless five in a row out of range followed one in range |
| `IndexScan.InOrderInNumbers` | vectordb/src/hnswindex.cpp:299-313 | an ordered HNSW scan counts as in order exactly from a result with 86 closer predecessors on |
| `IndexScan.FirstHitKept` | vectordb/src/hnswindex.cpp:262-297 | the give-up test never discards the first result in range |
| `IndexScan.RanOut` | vectordb/src/index.cpp:250-260 | after a hit followed by a full run out of range (3 results, 5 for SPTAG) nothing more is returned |
| `IndexScan.GaveUp` | vectordb/src/hnswindex.cpp:262-281 | after a result fails the give-up test nothing more is returned |
| `Nearest.TopDecides` | vectordb/src/hnswindex.cpp:300-301 | comparing the top of a full queue with x decides whether the whole stream holds that many distances closer than x |
| `Nearest.SmallestStep` | vectordb/src/hnswindex.cpp:264-276 | push, or pop and push, keeps the queue the n smallest distances met |
| `Selectivity.Cardinalities` | scripts/result_analysis/q_error.py:39-46 | entry j counts the distances up to radius j; the entries left out are those of radii that take in everything |
| `Selectivity.Sweep` | scripts/result_analysis/q_error.py:38-50 | entry j is the share of distances up to radius j, or 1 if there are no distances |
| `Selectivity.ShareMeaning` | scripts/result_analysis/q_error.py:39-49 | the share times the number of distances is the number of places that hold a distance up to the radius |
| `Selectivity.ShareMonotone` | scripts/result_analysis/q_error.py:47-49 | a selectivity lies in [0, 1] and does not decrease with the radius |
| `Sampler.RangeRSelEsti.Estimate` | scripts/planning/vectordb/src/ranger_sel.cpp:81-93 | the counting loop computes the same share as the sweep, or 0.33 without samples |
| `Sampler.RangeRSelEsti.AddTuple` | scripts/planning/vectordb/src/ranger_sel.cpp:41-57 | a vector of another length than the recorded one is refused and changes nothing |
| `Sampler.RangeRSelEsti.Save` | scripts/planning/vectordb/src/ranger_sel.cpp:59-78 | the bytes written: sample count, dimension, components |
| `Sampler.RangeRSelEsti.Load` | scripts/planning/vectordb/src/ranger_sel.cpp:14-28 | succeeds exactly on files that are long enough, with the samples and dimension they encode |
| `SamplerLaws.SamplesAre` | scripts/planning/vectordb/src/ranger_sel.cpp:41-57 | whatever is offered to an empty sampler: it holds the accepted vectors that were picked, in order, where a vector is accepted if it is as long as the first nonempty one before it; and it records that length |
| `SamplerLaws.FileLayout` | scripts/planning/vectordb/src/ranger_sel.cpp:66-72 | every byte of a saved file: count, dimension and components at their places, least significant byte first, and the length of the file |
| `SamplerLaws.FileRead` | scripts/planning/vectordb/src/ranger_sel.cpp:14-28 | a file is refused exactly if it is shorter than its header says; otherwise it starts with what saving the samples read from it writes |
| `Sampler.RoundTrip` | scripts/planning/vectordb/src/ranger_sel.cpp:14-28 | reading what was written restores samples and dimension |
| `Sampler.CopyThroughFile` | scripts/planning/vectordb/src/ranger_sel.cpp:59-78 | saving one sampler and loading another makes them equal, so every later estimate is |
| `Sampler.EmptySampleCounterexample` | scripts/planning/vectordb/src/ranger_sel.cpp:41-57 | an empty vector that is sampled, then a nonempty one: the sampler holds a sample of length 0 and records another dimension |
| `Sampler.UniformIff` | scripts/planning/vectordb/src/ranger_sel.cpp:41-57 | whatever is offered to an empty sampler, all samples have the recorded dimension exactly if no empty vector was sampled before the first nonempty one was offered |
| `Brackets.FindEndOfExpressionInLine` | VBench/Milvus/milvus-sdk-cpp/scripts/cpplint.py:1532-1594 | the loop over a line computes the forward search of that line |
| `Brackets.CloseExpression` | VBench/Milvus/milvus-sdk-cpp/scripts/cpplint.py:1620-1638 | the loop over lines computes the forward search of the text |
| `Brackets.FindStartOfExpressionInLine` | VBench/Milvus/milvus-sdk-cpp/scripts/cpplint.py:1657-1715 | the loop over a line computes the backward search of that line |
| `Brackets.ReverseCloseExpression` | VBench/Milvus/milvus-sdk-cpp/scripts/cpplint.py:1735-1753 | the loop over lines computes the backward search of the text |
| `BalancedText.CloseIff` | VBench/Milvus/milvus-sdk-cpp/scripts/cpplint.py:1597-1638 | in any text, from a (, [ or {: the forward matcher returns a position exactly if the character before it is the partner and the text in between, over any lines, is balanced in (), [] and {} |
| `BalancedText.ReverseCloseIff` | VBench/Milvus/milvus-sdk-cpp/scripts/cpplint.py:1718-1753 | the same for the backward matcher from a ), ] or } |
| `BalancedText.NoMatchIff` | VBench/Milvus/milvus-sdk-cpp/scripts/cpplint.py:1597-1753 | a matcher finds nothing exactly if no position of the text encloses balanced text with the bracket it starts from |
| `TemplateText.TemplateCloseIff` | VBench/Milvus/milvus-sdk-cpp/scripts/cpplint.py:1597-1638 | in any text, from a < that is not part of <<, <= or an operator function: the forward matcher returns a position exactly if a > before it ends a template argument list, in which angle brackets have partners, other groups are balanced and no semicolon stands outside them; the > of -> and of operator functions do not count, and << takes its first < back |
| `TemplateText.OperatorsRefused` | VBench/Milvus/milvus-sdk-cpp/scripts/cpplint.py:1620-1622 | from a < that starts << or <= nothing is returned |
| `TemplateText.OperatorPattern` | VBench/Milvus/milvus-sdk-cpp/scripts/cpplint.py:1545-1546 | the operator test: the word at a word boundary, followed by white space to the end |
| `BracketLaws.ReverseUndoesClose` | VBench/Milvus/milvus-sdk-cpp/scripts/cpplint.py:1597-1753 | in any text, across any number of lines: if the forward matcher closes a (, [ or {, the backward matcher leads from there back to it |
| `BracketLaws.CloseUndoesReverse` | VBench/Milvus/milvus-sdk-cpp/scripts/cpplint.py:1597-1753 | the converse: from a ), ] or } back and forth again |
| `BracketLaws.AngleCounterexample` | VBench/Milvus/milvus-sdk-cpp/scripts/cpplint.py:1667-1671 | a text in which a template bracket is closed forward and not found backward |
| `BracketLaws.InvertibleIff` | VBench/Milvus/milvus-sdk-cpp/scripts/cpplint.py:1597-1753 | over all texts, the inverse law holds for an opening bracket exactly if it is not < |
| `AngleLaws.AngleInverseIff` | VBench/Milvus/milvus-sdk-cpp/scripts/cpplint.py:1597-1753 | for every text and every < that the forward matcher closes: the backward matcher leads back to it exactly if the backward count from the match leaves one closer unmatched just after it and the backward matcher reads it as an opener |
| `AngleLaws.CleanReverseUndoesClose` | VBench/Milvus/milvus-sdk-cpp/scripts/cpplint.py:1597-1753 | the inverse law for a <, if no character up to the match falls under <<, a spaced >= or operator; a -> does no harm |
| `AngleLaws.CleanCloseUndoesReverse` | VBench/Milvus/milvus-sdk-cpp/scripts/cpplint.py:1597-1753 | the converse for a >, under the same rules: the forward matcher returns to it exactly if the < found does not start <= |
| `AngleLaws.CountBackMeaning` | VBench/Milvus/milvus-sdk-cpp/scripts/cpplint.py:1657-1715 | from the forward match on, the backward matcher reaches any earlier position with the count given for it, or has stopped after it |
| `AngleLaws.ForwardFromCounts` | VBench/Milvus/milvus-sdk-cpp/scripts/cpplint.py:1532-1594 | in any text the forward matcher's stack amounts to a number of open angle brackets and the plain brackets above them |
| `AngleLaws.BackwardFromCounts` | VBench/Milvus/milvus-sdk-cpp/scripts/cpplint.py:1657-1715 | the same for the backward matcher, including the characters skipped unseen |
| `AngleLaws.CounterexampleRule` | VBench/Milvus/milvus-sdk-cpp/scripts/cpplint.py:1667-1671 | the counterexample breaks one rule at one place, the spaced >= |
| `BracketLaws.ForwardFromIsPlain` | VBench/Milvus/milvus-sdk-cpp/scripts/cpplint.py:1532-1594 | once a plain bracket is at the bottom of the stack, angle brackets never affect the forward result |
| `BracketLaws.BackwardFromIsPlain` | VBench/Milvus/milvus-sdk-cpp/scripts/cpplint.py:1657-1715 | the same backward, including the characters skipped unseen |
| `BracketLaws.ForwardThenBackward` | VBench/Milvus/milvus-sdk-cpp/scripts/cpplint.py:1519-1715 | the backward stack at every position mirrors the forward stack there |
| `Preprocessor.NestingState.UpdatePreprocessor` | VBench/Milvus/milvus-sdk-cpp/scripts/cpplint.py:2546-2579 | the effect of a directive on stack and checkpoints, unmatched #else and #endif included |
| `Preprocessor.NestingState.UpdateAll` | VBench/Milvus/milvus-sdk-cpp/scripts/cpplint.py:2582-2604 | the lines of a file, directive first, then the line's own effect on the stack |
| `Branches.StackExplained` | VBench/Milvus/milvus-sdk-cpp/scripts/cpplint.py:2546-2579 | for any lines, nested well or not, and after any number of them, inside else branches too: the stack is the effect of the lines that remain when every closed conditional is reduced to its first branch and every open one to its current branch |
| `Preprocessor.ElseBranchesErased` | VBench/Milvus/milvus-sdk-cpp/scripts/cpplint.py:2546-2579 | for any lines, nested well or not, and any stack updates: whenever no else branch is open, the stack is the one obtained by deleting all #else and #elif branches |
| `Preprocessor.ErasureRun` | VBench/Milvus/milvus-sdk-cpp/scripts/cpplint.py:2546-2579 | at every moment, also inside else branches, the checkpoints hold the stack built by the first branches alone |
| `Preprocessor.CheckpointDepth` | VBench/Milvus/milvus-sdk-cpp/scripts/cpplint.py:2546-2579 | there is one checkpoint for every open #if |
| `Preprocessor.WholeFile` | VBench/Milvus/milvus-sdk-cpp/scripts/cpplint.py:2546-2579 | a file whose #ifs are all closed ends with the stack of its first branches and no checkpoint |

## Left out

- PostgreSQL itself: SPI, plan extraction, SQL text, memory contexts, tuple slots and descriptors. A child scan is a
  finite sequence of rows, each with its tid and rank score.
- The graph searches of hnswlib and SPTAG: a result iterator is an arbitrary finite sequence of distances
  and labels.
- Floating point: rounding, NaN, infinities and integer overflow of quotas. Greedy's average over zero rows, 0/0, is a column that
  is skipped.
- The scan count that two of the executors print: it is the length of the log of reads.
- Null scan keys and requests after a request that returned nothing.
- The SPTAG scan's copy of the label through an 8-byte array, and its builder, whose arithmetic is that of
  `PackLabel`. The model resets xs_inorder for SPTAG too, which the source leaves alone.
- A missing sample file, which loads as an empty sampler; the header of a file shorter than 16 bytes, which the source
  reads into uninitialised memory and the model refuses.
- Word and space characters beyond ASCII in cpplint's patterns, and all its other checks.
- The q-error buckets and plots, query generators, benchmark clients, index construction and cost estimates, and
  the copies of the executor that differ in constants only.
- Executor.FaginsState.ScanAdaptive: requires a run that finishes, because the source's loop need not;
  Executor.AdaptiveRunnable gives it for at most 2k columns, and WarmUpRounds and SpinningRuns say which inputs
  divide by zero and which numbers of columns can spin.
- Pipeline.ReadIndex: reads an index to its end, where the executor asks for one row at a time; what it asks
  for is a prefix of the same rows.
- TemplateText.TemplateCloseIff: leaves open a start at a `<` that follows the word operator or another `<`, where
  the source goes on with an empty stack; AngleLaws.AngleInverseIff covers these starts too.
- Selectivity.Sweep: requires ascending radii, as the script's fixed list is.
- Sampler.RangeRSelEsti.Save: requires samples of the recorded dimension; otherwise the source writes beyond a
  vector's end.
