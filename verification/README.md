# Corpus pipeline: a verified model

The pipeline takes logs of agent episodes (trajectories), ingests and redacts them, assembles
training corpora from a train/test split, and analyses them: stalls, action n-grams, failure modes
and win/loss contrasts with exact statistics. This project models those components in Dafny and
proves what each promises. `dafny verify dfyconfig.toml` checks everything.

## Map

| component | modules |
|---|---|
| exact statistics | `Binomial`, `Fisher`, `McNemar`, `BenjaminiHochberg`, `Wilson`, `Bootstrap`, `BootstrapFacts` |
| stall detection | `Stalls` (the two scans), `StallReport` (merge and report) |
| schema compatibility | `SchemaDiff` (the classifier), `SchemaFindings` (each finding, its path and its place), `SchemaExact` (what an empty report is worth) |
| redaction | `Spans`, `Placeholders`, `Redaction`, `RedactedText` (the output, stretch by stretch), `RedactTrajectory` |
| corpus assembly | `Sampling`, `SelectionFacts`, `OutcomeMatters`, `Splits`, `Merkle`, `Corpus` (the plan), `Snapshot` (the files), `SnapshotFacts`, `CorpusFacts` (a build in plain terms), `CorpusRoot`, `InputOrder`, `BuildOrder` |
| analyses | `Contrast`, `ContrastFacts`, `ContrastCounts`, `Ngrams`, `NgramFacts`, `NgramCounts`, `ErrorReport`, `ErrorFacts`, `ErrorCounts` |
| stores | `Ingest`, `IngestCases`, `IngestFacts`, `Instructions` |
| shared | `Ordering` (stable sorting, permutations, counting), `RealAlgebra`, `Hashing`, `Wrappers`, `Models` |

Loops of the program are methods proved against specification functions or predicates; the
redaction table, the object store, the metadata table, the instruction registry and the corpus
workspace are classes whose methods state their whole new state. The main results are lemmas about
those specifications: over all inputs, over all runs of batches or registrations, and across modules.
For each operation some lemma says what its specification amounts to with the conditions written out, by
positions, sums and characters, so that its reading does not rest on a definition further up.

## How the program's world enters

- Floating point numbers are reals; the tolerance `1 + 1e-9` is kept as a constant, and a square root
  is any nonnegative number whose square is the radicand.
- Seeded generators are arbitrary draws: index tables for the bootstrap, samples without replacement
  and points in [0, 1] for task sampling, any permutation for the split shuffle. Results hold for all.
- sha256, JSON serialisers, the normaliser, regular expressions, detectors and predicates are function
  parameters; that a hash tells the texts at hand apart, or a serialiser its values, is assumed only where a
  statement says so.
- Directories, object stores and tables are maps and sequences; a failing insert is an outcome.
- Python's `sorted` is a stable insertion sort; strings compare by code unit.

## Where code and commentary part ways

- `src/psd/core/schemas/registry.py:120-123` says the classifier never reports a false "compatible". It
  does: `SchemaExact.KindChangeIsMissed`, `NewEnumIsMissed`, `NewRequirementOfEmptyObjectIsMissed` and
  `ChainIsNotFollowed` are instances. `SchemaExact.CompatibleIffReportedAndKept` gives the exact condition for well-shaped schemas: an
  empty report means compatible if and only if, at every shared property, kinds stay or widen from integer
  to number, a new enum lists a whole finite kind, a dropped one was of the new kind, and nothing becomes
  required below an object that declared nothing. A finding is never a false alarm.
- Empty reports do not add up over two steps: `SchemaExact.DroppedEnumComesBackNarrower` is an instance, and
  `SchemaExact.ReportAddsUpIffEnumsComeBackWhole` the exact condition where references resolve in one step.
  Through a chain of references they fail to add up with no enum anywhere: `SchemaExact.ChainHidesFromTheNextStep`.
- `src/psd/analysis/stalls.py:147-149` says a period of identical actions was already found as a repeat.
  `StallReport.OneActionHitIsRepeatedIff` says when: the views of the hit agree, the action is not
  whitelisted, and the block around it is long enough. `StallReport.AlternatingViewsAreAHit` is an instance
  where neither detector reports it.
- `src/psd/ingest/redaction.py:200` says the longest span wins. It wins among spans with one start; the
  sweep otherwise goes by position: in `Spans.EmailLosesToPhone` a phone number beats the longer address it
  runs into, and the address's tail stays in the text. `Spans.KeptIffWins` says from the candidates alone
  which ones are kept, `Spans.KeptIffUnreached` where one look at the neighbours is enough.
- `migrations/0002_trajectories.sql:38-40` calls its unique key an idempotency key. It contains the
  insertion time, so the check in the code does that work: `IngestFacts.TableAloneAdmitsDuplicates`.
- `src/psd/corpus/manager.py:79-80` promises a selection that depends on the seed and not on dict insertion
  order, and it keeps that promise. The order of the list of trajectories is another matter: the selection
  depends on it exactly when the strategy looks at outcomes, some tasks but not all are to be selected, and
  the no-think trajectories of some task disagree (`InputOrder.SelectionIgnoresOrderIff`). With the selection
  settled, the manifest and the files depend on it exactly when two chosen trajectories for one file differ in
  their bytes, or the verdict that every selected task succeeded is open (`BuildOrder.BuildIgnoresOrderIff`).
- The root in a manifest is the root over the files on disk exactly when no two chosen trajectories share
  mode and task (`src/psd/corpus/snapshot.py:140-143`): `CorpusRoot.RootIsOnDiskIffOneEpisodePerFile`.

## Model

| member | source | states |
|---|---|---|
| `Fisher.WeightsSumToComb` | src/psd/core/stats.py:31-39 | the hypergeometric weights over the whole support add up to comb(n, col1), for every table |
| `Fisher.ProbabilitiesSumToOne` | src/psd/core/stats.py:34-39 | so the probabilities summed by the test form a distribution |
| `Fisher.FisherBounds` | src/psd/core/stats.py:40-46 | the p-value lies in (0, 1], is at least the observed probability, and the final clamp never bites |
| `Fisher.FisherMonotone` | src/psd/core/stats.py:40-46 | a table no likelier than another with the same margins has no larger p-value |
| `Fisher.FisherLeavesOutTheLikelier` | src/psd/core/stats.py:40-46 | one minus the p-value is the sum, over the support, of the probabilities above observed * (1 + 1e-9) |
| `Fisher.FisherIsOneIff` | src/psd/core/stats.py:40-46 | the p-value is 1 if and only if no table with these margins lies above that line |
| `Fisher.FisherStrictlyMonotone` | src/psd/core/stats.py:40-46 | of two tables with the same margins the one that lies above the line of the other has the larger p-value |
| `Fisher.ProbabilityIsHypergeometric` | src/psd/core/stats.py:34-35 | the probability of a table, cross-multiplied with the factorials of its margins and cells |
| `Fisher.FisherSwapRows` | src/psd/core/stats.py:31-46 | swapping the rows leaves the p-value alone |
| `Fisher.FisherSwapColumns` | src/psd/core/stats.py:31-46 | swapping the columns leaves the p-value alone |
| `Fisher.FisherTranspose` | src/psd/core/stats.py:31-46 | transposing the table leaves the p-value alone, although the summed range changes |
| `Binomial.Vandermonde` | src/psd/core/stats.py:35 | the convolution identity behind the normalisation, for the binomials the code uses |
| `McNemar.McNemarSymmetric` | src/psd/core/stats.py:59-65 | the two discordant counts may be exchanged |
| `McNemar.McNemarBounds` | src/psd/core/stats.py:57-65 | the p-value lies in (0, 1] |
| `McNemar.McNemarIsBothTails` | src/psd/core/stats.py:63-65 | for b != c it is exactly the mass of both binomial tails |
| `McNemar.CapBindsOnlyAtATie` | src/psd/core/stats.py:65 | the clamp changes the doubled tail only at b = c; the p-value is 1 exactly when the counts differ by at most one |
| `McNemar.McNemarDecreases` | src/psd/core/stats.py:56-65 | for a fixed number of discordant pairs the p-value falls strictly as they grow apart |
| `BenjaminiHochberg.RunningMinimum` | src/psd/core/stats.py:90-97 | the downward loop leaves in slot r the least of 1 and all p_(k) m / k for ranks k > r |
| `BenjaminiHochberg.AdjustAll` | src/psd/core/stats.py:87-108 | one result for each input, in input position, with the adjusted value of its rank |
| `BenjaminiHochberg.StepUpRule` | src/psd/core/stats.py:93-107 | for 0 <= q < 1 an entry is significant exactly when it does not exceed the p-value at the largest rank k with p_(k) <= kq/m |
| `BenjaminiHochberg.AdjustedFacts` | src/psd/core/stats.py:93-107 | adjusted values are at least the p-values, at most 1, monotone in them and equal on ties |
| `BenjaminiHochberg.VerdictsIgnoreOrder` | src/psd/core/stats.py:90-107 | permuting the input moves each verdict with its p-value and changes none |
| `BenjaminiHochberg.AdjustedIsLeastRatio` | src/psd/core/stats.py:90-108 | what is reported of an input, written out: with the p-values in order, the least of 1 and p_(k) m / k from its own rank on, and whether that is at most q |
| `Wilson.WilsonBracketsRate` | src/psd/core/stats.py:145-154 | for 0 <= successes <= n, n > 0, z >= 0: 0 <= low <= rate <= high <= 1, and neither clamp changes its end |
| `Wilson.WilsonReflects` | src/psd/core/stats.py:150-154 | counting failures instead of successes reflects the interval about one half |
| `Wilson.EndsSolveScoreEquation` | src/psd/core/stats.py:150-154 | both ends solve (rate - e)^2 = (z^2 / n) e (1 - e): the interval is the one the score test defines |
| `Bootstrap.ResampleMean` | src/psd/core/stats.py:201-204 | the inner loop is the mean of the drawn deltas |
| `Bootstrap.ResampleMeans` | src/psd/core/stats.py:199-204 | one mean for each resample, in order |
| `Bootstrap.PairedBootstrapDelta` | src/psd/core/stats.py:177-216 | error cases in the order of the code; otherwise the point estimate and the two interpolated percentiles of the sorted means |
| `Bootstrap.PercentileMonotone` | src/psd/core/stats.py:207-214 | interpolation is monotone in the percentile |
| `Bootstrap.PercentileJoinsRanks` | src/psd/core/stats.py:207-214 | between neighbouring ranks the percentile runs on a straight line from one value to the next, ends included |
| `Bootstrap.IntervalBounds` | src/psd/core/stats.py:194-216 | for any draws, low <= high and both lie between the least and the greatest task delta |
| `Bootstrap.SwapNegates` | src/psd/core/stats.py:189-216 | exchanging the conditions under the same draws negates the estimate and turns (low, high) at mirrored percentiles into (-high, -low) |
| `BootstrapFacts.OutcomeCases` | src/psd/core/stats.py:177-191 | which error comes when and what it names: no shared task, the one-sided tasks, the first task without replicates, no resamples |
| `BootstrapFacts.PointIsMeanOfTaskDeltas` | src/psd/core/stats.py:189-195 | the point estimate: mean of the treatment less mean of the baseline for each task, added up, over the number of tasks |
| `BootstrapFacts.EndsAreInterpolated` | src/psd/core/stats.py:197-216 | the ends: the mean of every resample, sorted, read off at pct / 100 of the way from the first to the last, on straight lines between neighbours |
| `Stalls.FindBlockEnd` | src/psd/analysis/stalls.py:99-105 | the inner loop stops at the end of the block of equal steps |
| `Stalls.RepeatRuns` | src/psd/analysis/stalls.py:95-118 | the scan reports the runs of the block decomposition |
| `Stalls.RepeatRunsAreMaximalBlocks` | src/psd/analysis/stalls.py:95-118 | a run is reported exactly for every maximal block of steps with equal action and view, long enough and not whitelisted |
| `Stalls.FindReach` | src/psd/analysis/stalls.py:137-143 | how far the period carries from a position |
| `Stalls.ScanPosition` | src/psd/analysis/stalls.py:136-164 | one position of the scan: a jump past a hit, or one step |
| `Stalls.CycleRunsOfPeriod` | src/psd/analysis/stalls.py:135-164 | all positions of one period |
| `Stalls.CycleRuns` | src/psd/analysis/stalls.py:132-165 | all periods from 2 to the maximum |
| `Stalls.HitsAreMaximal` | src/psd/analysis/stalls.py:137-145 | every hit spans at least two periods, repeats action and view at that distance, and cannot be extended to the right |
| `Stalls.HoldsOrClips` | src/psd/analysis/stalls.py:135-164 | a segment of two periods or more is either held by a hit but for its first period-1 steps, or clipped by an earlier hit |
| `Stalls.HeldIffNotClipped` | src/psd/analysis/stalls.py:135-164 | for a segment that ends where its period breaks the two exclude each other: it is held if and only if no hit clips it |
| `Stalls.ScanMeetsEverySegment` | src/psd/analysis/stalls.py:135-164 | every periodic segment of at least two periods overlaps a hit |
| `Stalls.ScanHoldsLongSegments` | src/psd/analysis/stalls.py:135-164 | every periodic segment of at least 3p - 1 steps lies in one hit but for at most its first p - 1 steps |
| `Stalls.ShorterSegmentsAreMissed` | src/psd/analysis/stalls.py:162 | the bound is tight at every period of 2 or more: a segment of 3p - 2 steps that no hit holds |
| `StallReport.MergeRuns` | src/psd/analysis/stalls.py:179-185 | the containment loop computes the specified merge |
| `StallReport.MergeFacts` | src/psd/analysis/stalls.py:179-185 | kept runs come from the input, starts and ends strictly increase, and every input run lies inside a kept one |
| `StallReport.MergeIsIdempotent` | src/psd/analysis/stalls.py:179-185 | merging a merged list changes nothing |
| `StallReport.MergeIgnoresOrder` | src/psd/analysis/stalls.py:179-185 | when the sort key determines a run, the order of the input does not matter |
| `StallReport.DetectedRunsHaveKeys` | src/psd/analysis/stalls.py:176-185 | the sort key tells apart all runs the two scans find, whatever the names of the actions |
| `StallReport.ReportIgnoresOrder` | src/psd/analysis/stalls.py:176-185 | so the report does not depend on the order in which the scans hand over their runs |
| `StallReport.DetectStalls` | src/psd/analysis/stalls.py:195-203 | the report is the merge of repeat runs and cycle runs |
| `StallReport.ReportIsExact` | src/psd/analysis/stalls.py:188-213 | every repeat run and every proper cycle lies inside a reported run, and every reported run is one of them |
| `StallReport.LeastPeriodIsReported` | src/psd/analysis/stalls.py:179-185 | of the cycles found over the same steps the one with the least period is reported |
| `StallReport.ProperCycleMeans` | src/psd/analysis/stalls.py:146-153 | the filter passes a period with two different actions and one that is not whitelisted |
| `StallReport.ReportedRunSays` | src/psd/analysis/stalls.py:95-213 | what a reported run says of its steps: a maximal stretch of one action and one view, or a pattern of two actions or more that comes back as far as it does |
| `StallReport.RepeatIsReported` | src/psd/analysis/stalls.py:95-213 | and every maximal stretch of one action and one view, long enough and not whitelisted, lies inside a reported run |
| `StallReport.LongCyclesAreReported` | src/psd/analysis/stalls.py:132-203 | a proper cycle of 3p - 1 steps or more, at any period from 2 to the maximum, lies inside one run of the report from its p-th step on |
| `StallReport.OneActionHitIsRepeatedIff` | src/psd/analysis/stalls.py:147-151 | a hit whose period holds one action lies inside a repeat run if and only if all its views are equal, the action is not whitelisted and the block of equal steps around it is long enough; up to a minimum of two periods the last clause is idle |
| `StallReport.ConstantActionWithChangingViewsIsMissed` | src/psd/analysis/stalls.py:147-151 | in particular an episode of one action whose view changes at every step has an empty report, whatever its periods |
| `StallReport.AlternatingViewsAreAHit` | src/psd/analysis/stalls.py:147-151 | an instance where the scan has a hit and the report is empty |
| `SchemaDiff.FindInProperties` | src/psd/core/schemas/registry.py:132-154 | the loop over the old properties |
| `SchemaDiff.FindNewlyRequired` | src/psd/core/schemas/registry.py:156-159 | the loop over the newly required names |
| `SchemaDiff.FindInProperty` | src/psd/core/schemas/registry.py:133-154 | one property: removed, now required, enum narrowed, nested findings |
| `SchemaDiff.FindBreakingChanges` | src/psd/core/schemas/registry.py:107-176 | the findings list equals the specified report; termination on acyclic references |
| `SchemaDiff.EmptyIffFine` | src/psd/core/schemas/registry.py:125-161 | no finding exactly when every old property survives, nothing becomes required, no enum shrinks, at every depth |
| `SchemaFindings.ReportIsTraced` | src/psd/core/schemas/registry.py:125-161 | the findings, one for one: each names, by the dotted names that lead to it, a property that was removed, became required, lost enum values, or is new and required; all of them, in order |
| `SchemaExact.CompatibleIffReportedAndKept` | src/psd/core/schemas/registry.py:98-161 | every record valid before is valid after if and only if the report is empty and, at every shared property, kinds stay or widen from integer to number, a new enum lists a whole finite kind, a dropped enum was of the new kind, and nothing is newly required below an object that declared nothing |
| `SchemaExact.ReportIsEmptyIffCompatible` | src/psd/core/schemas/registry.py:107-176 | where all of that stays put, no finding if and only if every record valid before is valid after |
| `SchemaExact.ReportIsTransitive` | src/psd/core/schemas/registry.py:107-176 | where it stays put at two steps without findings, the jump has no finding and keeps it too |
| `SchemaExact.ReportIsReflexive` | src/psd/core/schemas/registry.py:107-176 | any acyclic schema against itself gives no finding |
| `SchemaExact.ReportAddsUpIffEnumsComeBackWhole` | src/psd/core/schemas/registry.py:125-161 | for acyclic schemas, the first two with references in one step: after two steps without findings the jump has none if and only if no enum that the middle schema dropped comes back narrower |
| `SchemaExact.DroppedEnumComesBackNarrower` | src/psd/core/schemas/registry.py:143-148 | an instance: two steps without findings and a jump with one |
| `SchemaExact.MiddleKeepsProperties` | src/psd/core/schemas/registry.py:150-176 | with references in one step a step without findings leaves no nested object bare |
| `SchemaExact.KindChangeIsMissed` | src/psd/core/schemas/registry.py:140-148 | a changed leaf kind loses records and gives no finding |
| `SchemaExact.NewEnumIsMissed` | src/psd/core/schemas/registry.py:143-148 | a new enum loses records and gives no finding |
| `SchemaExact.NewRequirementOfEmptyObjectIsMissed` | src/psd/core/schemas/registry.py:150-154 | a requirement added below an object that declared nothing loses records and gives no finding |
| `SchemaExact.ChainIsNotFollowed` | src/psd/core/schemas/registry.py:75-94 | an object behind a chain of references turned into a text loses records and gives no finding |
| `SchemaExact.ChainHidesFromTheNextStep` | src/psd/core/schemas/registry.py:75-94 | an object moved behind a chain and then removed: two steps without findings, no enum anywhere, and a jump with a finding |
| `Spans.FindSpans` | src/psd/ingest/redaction.py:202-209 | the sweep over the sorted candidates |
| `Spans.ResolvedFacts` | src/psd/ingest/redaction.py:202-209 | resolved spans are candidates, ordered and disjoint, and hold the first character of every candidate |
| `Spans.ResolvedIgnoresOrder` | src/psd/ingest/redaction.py:202-209 | when no two candidates share start, length and priority the order of the detectors does not matter |
| `Spans.LongestWinsAtEqualStart` | src/psd/ingest/redaction.py:200-202 | among candidates with one start the longest wins, and of those the one with the least priority |
| `Spans.KeptIffNotOvertaken` | src/psd/ingest/redaction.py:204-208 | a candidate first at its start is kept if and only if no kept span that starts earlier reaches past that start |
| `Spans.KeptIffUnreached` | src/psd/ingest/redaction.py:204-208 | on the candidates alone: one first at its start is kept when no earlier candidate reaches past that start, lost when one does that none reaches, and where no reaching candidate is itself reached this is an equivalence |
| `Spans.KeptIffWins` | src/psd/ingest/redaction.py:202-209 | when no two candidates share extent and priority, a candidate is kept if and only if it comes first at its start and no winning candidate that starts earlier reaches past that start, winning being defined on the candidates alone |
| `Spans.EmailLosesToPhone` | src/psd/ingest/redaction.py:110-133 | two matches of the built-in detectors in one text: the shorter phone number is kept, the longer address is lost and its tail stays in the output |
| `Spans.CutPutsBack` | src/psd/ingest/redaction.py:250-257 | putting every replaced span back gives the input exactly |
| `Placeholders.TextInjective` | src/psd/ingest/redaction.py:236 | the rendered class and number tell placeholders apart, whatever the class names |
| `Placeholders.DecimalReadsBack` | src/psd/ingest/redaction.py:236 | reading the digits of the rendered number gives the number |
| `Placeholders.RedactionState.PlaceholderFor` | src/psd/ingest/redaction.py:231-238 | the three tables after the call are those of the log of replacements with this one appended |
| `Placeholders.AssignmentIsStable` | src/psd/ingest/redaction.py:233-236 | an assignment never changes once made |
| `Placeholders.NumberIsRankOfFirstEncounter` | src/psd/ingest/redaction.py:233-236 | a value carries the number of distinct values of its class met up to its first encounter |
| `Placeholders.NumbersFollowFirstEncounter` | src/psd/ingest/redaction.py:233-236 | earlier first encounters have smaller numbers within a class |
| `Placeholders.NumbersAreDense` | src/psd/ingest/redaction.py:234-236 | the numbers of a class are exactly 1 to the number of its distinct values |
| `Placeholders.SamePlaceholderIffSameValue` | src/psd/ingest/redaction.py:231-238 | two replacements show the same string if and only if class and value agree |
| `Placeholders.CountsAreReplacements` | src/psd/ingest/redaction.py:237 | the count of a class is the number of positions of the log with that class |
| `Redaction.RedactText` | src/psd/ingest/redaction.py:245-257 | the output shows the pieces of the text under the log the call leaves behind |
| `Redaction.RedactedIsStable` | src/psd/ingest/redaction.py:231-238 | later replacements do not change how a value was redacted |
| `Redaction.RedactionKeepsShape` | src/psd/ingest/redaction.py:260-268 | redaction keeps lengths, keys and every value that is not a text |
| `RedactedText.RedactedTextsAreSpliced` | src/psd/ingest/redaction.py:245-268 | every text at any depth of a value: what stood between the resolved spans, and for each span the placeholder of its class and value, in order |
| `RedactedText.SameStretchIffSameValue` | src/psd/ingest/redaction.py:231-257 | two stretches of the output that replaced spans read the same if and only if class and value of the spans agree |
| `RedactedText.ListsAreReadInOrder` | src/psd/ingest/redaction.py:266-267 | the replacements in a list are those of its items from left to right |
| `RedactedText.ObjectsAreReadByName` | src/psd/ingest/redaction.py:264-265 | those in an object begin with the entry of the least name |
| `RedactTrajectory.RedactValue` | src/psd/ingest/redaction.py:260-268 | an arbitrary value: every text at any depth spliced, taken in traversal order, objects by sorted key |
| `RedactTrajectory.RedactItems` | src/psd/ingest/redaction.py:266-267 | the items of a list in order |
| `RedactTrajectory.RedactFields` | src/psd/ingest/redaction.py:264-265 | the entries of an object by sorted key |
| `RedactTrajectory.RedactPayload` | src/psd/ingest/redaction.py:304-325 | the whole payload in path order: every text below a redactable leaf spliced under the one final table, every other part as it was, and the reported counts |
| `RedactTrajectory.PathsAreReadInOrder` | src/psd/ingest/redaction.py:276-291 | the leaves are taken by step and, within a step, from what was observed to what came back |
| `RedactTrajectory.SameStringIffSameValueAnywhere` | src/psd/ingest/redaction.py:294-325 | anywhere in a redacted trajectory, two stretches of output that replaced spans read the same if and only if class and value agree |
| `Sampling.SelectTasks` | src/psd/corpus/manager.py:82-133 | every strategy, error and warning, as a function of the tasks, their outcomes and the generator |
| `Sampling.DrawWeighted` | src/psd/corpus/manager.py:119-130 | the drawing loop with removal |
| `Sampling.FindReaching` | src/psd/corpus/manager.py:124-130 | the running sum stops at the first task that reaches the cut |
| `Sampling.QuotasAreProportional` | src/psd/corpus/manager.py:107-113 | for a size within range both quotas are feasible and add up to the size, and that of the successes is the exact proportion rounded half to even: nothing is handed back |
| `Sampling.DrawsAreASample` | src/psd/corpus/manager.py:121-130 | wherever the cuts fall in [0, total], the draws are exactly so many distinct tasks |
| `Sampling.EveryTaskOwnsItsWeight` | src/psd/corpus/manager.py:118-130 | a positive cut picks a task exactly when it falls in that task own stretch, which is as long as its weight |
| `Sampling.SelectionSize` | src/psd/corpus/manager.py:82-131 | every known strategy picks exactly the requested number of distinct eligible tasks |
| `Sampling.SelectedTasksExist` | src/psd/corpus/manager.py:82-131 | whatever is selected, with any size, is distinct and eligible |
| `Sampling.NegativeQuotas` | src/psd/corpus/manager.py:107-114 | a negative size makes a quota negative, which the generator refuses |
| `SelectionFacts.SettledSelections` | src/psd/corpus/manager.py:82-97 | what no generator has a say in: all tasks, the missing size, more than there are with a warning, unknown strategies, negative sizes |
| `SelectionFacts.RandomSelection` | src/psd/corpus/manager.py:98-101 | a random selection is what the generator samples from the sorted tasks |
| `SelectionFacts.EveryChoiceIsPossible` | src/psd/corpus/manager.py:100-101 | and every set of tasks is selected by some fair generator |
| `SelectionFacts.StratifiedSelection` | src/psd/corpus/manager.py:103-115 | a sample of the tasks that succeeded and one of those that failed; the first has its share of the size, rounded half to even |
| `SelectionFacts.WeightedSelection` | src/psd/corpus/manager.py:117-131 | a weighted selection is one draw after another, sorted |
| `SelectionFacts.NextDraw` | src/psd/corpus/manager.py:121-130 | one weighted draw: it takes the task whose stretch of the total weight holds the point drawn |
| `SelectionFacts.WeightsAddUp` | src/psd/corpus/manager.py:118-122 | where a failed task weighs failure_weight and any other 1 |
| `Splits.BuiltSplitsAreSound` | src/psd/corpus/splits.py:90-112 | a built split verifies, has the requested sizes, distinct ids from the pool and disjoint halves; it fails exactly when the pool is too small |
| `Splits.BuiltSplitSays` | src/psd/corpus/splits.py:90-112 | the first ids of the shuffled pool and the next ones, sorted, under the address of just that content; or how many distinct ids there were |
| `Splits.BuildIgnoresOrder` | src/psd/corpus/splits.py:90-99 | order and repetition of the ids handed in do not matter |
| `Splits.AddressDeterminesContent` | src/psd/corpus/splits.py:38-71 | unless their two texts collide, equal addresses mean equal domain, sampling and id lists up to order |
| `Corpus.GroupByTask` | src/psd/corpus/manager.py:195-197 | grouping keeps list order within each task |
| `Corpus.PlanCorpus` | src/psd/corpus/manager.py:181-263 | everything decided before a byte is written, with the errors in the order of the code |
| `Corpus.ContaminationAborts` | src/psd/corpus/manager.py:242-261 | a plan is ready only on a verified split with the selection clear of the test half; otherwise the error names exactly the shared tasks |
| `Corpus.PlannedTrajectoriesAreSafe` | src/psd/corpus/manager.py:189-243 | whatever is about to be written comes from the input, for the domain and model, on a train task outside the test half, in an arm the composition admits |
| `Corpus.KeptAndDroppedPartition` | src/psd/corpus/manager.py:201-210 | kept and dropped tasks of a paired corpus partition the tasks with an eligible trajectory |
| `CorpusFacts.GroupReadsOffInput` | src/psd/corpus/manager.py:189-210 | the group of a task holds the input episodes for it, of the domain and model asked for and in an arm the composition admits, each once and in order |
| `CorpusFacts.TaskIsKeptIff` | src/psd/corpus/manager.py:199-227 | a no-think corpus keeps exactly the train tasks with a no-think episode, a paired one those with both arms |
| `CorpusFacts.FirstNoThinkSucceeds` | src/psd/corpus/manager.py:64-67 | a task succeeds when its first no-think episode does, or without one when any does |
| `CorpusFacts.PlanCases` | src/psd/corpus/manager.py:181-261 | every way a plan fails, in order, and what a ready one holds |
| `CorpusFacts.ChosenCounts` | src/psd/corpus/manager.py:237-265 | of the chosen episodes as many satisfy a condition as of the input episodes that belong to selected tasks |
| `Snapshot.ModeLevelHidesOutcomes` | src/psd/corpus/snapshot.py:79-101 | under mode_level the bytes of an episode do not depend on reward or success |
| `Snapshot.Workspace.WriteTrajectories` | src/psd/corpus/snapshot.py:137-143 | one file for each trajectory in write order, later files replacing earlier ones, and all hashes collected |
| `Snapshot.Workspace.WriteRest` | src/psd/corpus/snapshot.py:145-168 | pass rates, readme and the precomputed reports |
| `Snapshot.Workspace.Materialize` | src/psd/corpus/snapshot.py:134-175 | the whole directory and its root |
| `Snapshot.Workspace.Stage` | src/psd/corpus/manager.py:302-323 | staging, the check for an existing destination, and the move |
| `Snapshot.Workspace.Build` | src/psd/corpus/manager.py:157-323 | the whole build: fail and leave every directory as it was, or add the complete destination |
| `SnapshotFacts.FilesAreChosen` | src/psd/corpus/snapshot.py:137-143 | an episode file exists exactly for the mode and task of a chosen trajectory, and holds the bytes of one |
| `SnapshotFacts.MaterializedFacts` | src/psd/corpus/snapshot.py:145-174 | the other files; precomputed reports exist only when asked for |
| `SnapshotFacts.BuildIsSafe` | src/psd/corpus/manager.py:157-323 | over every input: a failed build changes nothing, a finished one adds a directory on a verified split whose episode files are all admissible, with both arms in a paired corpus |
| `CorpusRoot.RootIsOnDiskIffOneEpisodePerFile` | src/psd/corpus/snapshot.py:137-170 | the manifest root equals the root over the trajectory and pass-rate files on disk, listed in any order, if and only if no two chosen trajectories share mode and task |
| `Merkle.RootIgnoresOrder` | src/psd/corpus/snapshot.py:48-56 | the root does not depend on the order of the hashes |
| `Merkle.RootIsOfSortedHashes` | src/psd/corpus/snapshot.py:48-56 | the root is the hash of the joined lines of the hashes in ascending order |
| `Merkle.LinesAreJoined` | src/psd/corpus/snapshot.py:55 | lines are joined by a line break between any two, and by nothing else |
| `Merkle.RootDeterminesHashes` | src/psd/corpus/snapshot.py:48-56 | two lists of digests have the same root if and only if they hold the same digests equally often |
| `CorpusRoot.RootAddressesContent` | src/psd/corpus/snapshot.py:137-170 | two roots agree if and only if the same texts were hashed, each as often, whatever was selected and whatever visibility was asked for |
| `CorpusRoot.RootAddressesDisk` | src/psd/corpus/snapshot.py:89-104 | with one episode per file, two corpora have the same root if and only if they have the same trajectory files and pass rates on disk, name by name |
| `InputOrder.OutcomeIgnoresOrderIffNoThinkAgree` | src/psd/corpus/manager.py:64-67 | a task outcome is independent of list order if and only if its no-think trajectories agree |
| `InputOrder.OutcomeMeans` | src/psd/corpus/manager.py:57-67 | and then it is the success of the no-think trajectories or, without any, whether some trajectory succeeded |
| `InputOrder.RatesCoverEpisodes` | src/psd/corpus/manager.py:143-154 | the pass rates account for every chosen episode, mode by mode |
| `CorpusFacts.RateCounts` | src/psd/corpus/manager.py:143-154 | episodes of a mode are the chosen ones with it, successes those of them that succeeded, and the rest failed |
| `CorpusFacts.BuiltRates` | src/psd/corpus/manager.py:143-154 | and this is what the pass-rate file of a finished build is rendered from |
| `CorpusFacts.BuildCases` | src/psd/corpus/manager.py:270-320 | with a plan in hand a build fails for its reason, for an unknown visibility or for a destination that is taken, in this order, and not otherwise |
| `CorpusFacts.BytesShow` | src/psd/corpus/snapshot.py:79-101 | two episodes have the same bytes exactly when all that may be seen agrees, reward and success only under per-task visibility |
| `OutcomeMatters.OneOutcomeMatters` | src/psd/corpus/manager.py:103-131 | under either outcome-aware strategy and for every size from one to one less than the number of tasks, the outcome of any single task shows in the selection of some run of the generator |
| `OutcomeMatters.OutcomesDoNotMatter` | src/psd/corpus/manager.py:85-131 | at all other sizes, and under the other strategies, outcomes do not matter |
| `InputOrder.SelectionIgnoresOrderIff` | src/psd/corpus/manager.py:57-131 | for every request the selection ignores the order of the trajectories if and only if the strategy looks at tasks alone, or none or all of them are to be selected, or the no-think trajectories of each task agree |
| `InputOrder.PlanIgnoresOrderIff` | src/psd/corpus/manager.py:181-263 | the same equivalence for the whole plan, on a verified split with disjoint halves |
| `InputOrder.PlanIgnoresOrder` | src/psd/corpus/manager.py:181-263 | under that condition rearranging the input leaves decision, selection and the episodes of every task alone |
| `InputOrder.BuildsAgree` | src/psd/corpus/manager.py:181-320 | then both builds fail alike or get the same selection and root |
| `BuildOrder.BuildIgnoresOrderIff` | src/psd/corpus/manager.py:181-320 | where the selection is settled, every order of the input gives the same manifest and directory if and only if chosen trajectories for one file have the same bytes, and the selected tasks all succeed in every order if they all can in any |
| `BuildOrder.OneEpisodePerFileSettles` | src/psd/corpus/snapshot.py:137-143 | one trajectory for each file is enough for that |
| `BuildOrder.BuiltAlikeIff` | src/psd/corpus/snapshot.py:137-170 | between plans that differ in order only, manifest and directory agree if and only if the verdict on all tasks and the trajectory files do |
| `Contrast.UnpairedContrast` | src/psd/analysis/contrast.py:83-152 | the unpaired report: order, dropped predicates, verdicts, degenerate case |
| `Contrast.PairedContrast` | src/psd/analysis/contrast.py:167-236 | the paired report over the matched arms |
| `Contrast.CountDiscordant` | src/psd/analysis/contrast.py:186-195 | the counting loop: the two discordant counts and their tasks |
| `Contrast.BuildArms` | src/psd/analysis/contrast.py:167-169 | the nested table of arms |
| `ContrastFacts.FinishedIsSorted` | src/psd/analysis/contrast.py:145-148 | rows are the labelled entries, by adjusted value, effect size and name |
| `ContrastFacts.SignificantRowsComeFirst` | src/psd/analysis/contrast.py:127-148 | the significant rows form a prefix of the table |
| `ContrastFacts.SignificantIffUnderCutoff` | src/psd/analysis/contrast.py:127-138 | a row is significant exactly when its p-value is on or under the step-up cutoff of the table |
| `ContrastFacts.UnpairedReportFacts` | src/psd/analysis/contrast.py:83-97 | wins and losses count the input; the report is degenerate exactly when nobody wins or nobody loses |
| `ContrastCounts.UnpairedWins` | src/psd/analysis/contrast.py:57-97 | wins are the trajectories with a reward above the threshold, losses those at or below it |
| `ContrastCounts.UnpairedRowCounts` | src/psd/analysis/contrast.py:102-125 | a row counts the winners and the losers with its predicate; both rates, the lift and the p-value are of these four counts |
| `ContrastCounts.UnpairedRowEvidence` | src/psd/analysis/contrast.py:113 | a row shows winners first, then losers with its predicate, the least ids of either side, as many as there are and are allowed |
| `ContrastCounts.RowsInOrder` | src/psd/analysis/contrast.py:145-148 | the least adjusted value first, then the larger effect whatever its sign, then the name |
| `ContrastFacts.UnpairedRowsAreVaryingPredicates` | src/psd/analysis/contrast.py:100-109 | a predicate has a row if and only if it holds of some trajectory and fails for some |
| `ContrastFacts.UnpairedRowsTestTheirTables` | src/psd/analysis/contrast.py:102-125 | every row carries the counts, the two rates and the p-value of the 2x2 table of its predicate, counted in the input |
| `ContrastFacts.TableFacts` | src/psd/analysis/contrast.py:122 | its p-value lies in (0, 1] and is the same whichever way the table is read |
| `ContrastFacts.ExchangingOutcomesNegatesLift` | src/psd/analysis/contrast.py:102-125 | exchanging winners and losers negates the lift and keeps the p-value |
| `ContrastFacts.PairJoinsLatestArms` | src/psd/analysis/contrast.py:167-175 | a pair joins, for one task, the trajectories of either arm with the greatest id |
| `ContrastFacts.PairIffBothArms` | src/psd/analysis/contrast.py:171-177 | a task has a pair exactly when the input has both of its arms |
| `ContrastCounts.PairedWins` | src/psd/analysis/contrast.py:178-183 | a pair counts as won when its think arm is above the threshold |
| `ContrastCounts.PairedRowCounts` | src/psd/analysis/contrast.py:186-212 | a row counts the pairs whose think arm alone, or no-think arm alone, has the predicate; rates, lift and p-value are of these |
| `ContrastFacts.PairedRowsAreDiscordantPredicates` | src/psd/analysis/contrast.py:186-197 | a predicate has a row if and only if the arms of some task differ on it |
| `ContrastFacts.PairedRowsBalance` | src/psd/analysis/contrast.py:186-212 | b and c count the pairs where one arm only has the predicate, and lift times the number of pairs is b - c |
| `ContrastFacts.ExchangingArmsNegatesLift` | src/psd/analysis/contrast.py:186-212 | exchanging the arms negates the lift and keeps the p-value |
| `ContrastFacts.EvidenceShowsPredicate` | src/psd/analysis/contrast.py:113 | unpaired evidence names trajectories that satisfy the predicate, no more than allowed |
| `ContrastFacts.PairedEvidenceIsDiscordant` | src/psd/analysis/contrast.py:187-210 | paired evidence is the least tasks whose arms differ, in order, as many as there are and are allowed; none left out comes before one that is in |
| `ContrastFacts.ReportsIgnoreOrder` | src/psd/analysis/contrast.py:83-236 | with unique ids both reports are the same for any order of the input |
| `Ngrams.CountLength` | src/psd/analysis/ngrams.py:83-90 | the start loop for one length |
| `Ngrams.CountTrajectory` | src/psd/analysis/ngrams.py:79-90 | a trajectory adds min(cap, occurrences) to the count of each gram of a requested length |
| `Ngrams.AddDocument` | src/psd/analysis/ngrams.py:92-96 | the document sets after filing one id |
| `Ngrams.TallyAll` | src/psd/analysis/ngrams.py:64-96 | counts, document sets, wins and losses over all trajectories |
| `Ngrams.ActionNgrams` | src/psd/analysis/ngrams.py:55-130 | the report: exactly the grams that occur often enough, each once, sorted |
| `NgramFacts.ContributesIffOccurs` | src/psd/analysis/ngrams.py:82-93 | with a positive cap a trajectory is in the documents of a gram exactly when the gram occurs in it |
| `NgramFacts.DocumentFrequencies` | src/psd/analysis/ngrams.py:92-115 | with unique ids doc_freq counts trajectories and equals wins plus losses with the gram |
| `NgramFacts.CountBounds` | src/psd/analysis/ngrams.py:87-90 | with unique ids doc_freq <= count <= cap * doc_freq |
| `NgramCounts.CountAddsUp` | src/psd/analysis/ngrams.py:79-90 | the count of a gram grows, with each trajectory, by the places where it stands, up to the cap |
| `NgramCounts.RowCounts` | src/psd/analysis/ngrams.py:69-115 | doc_freq, the trajectories with the gram; wins, those with a reward above zero; the lift is the share among winners less that among losers |
| `NgramCounts.RowsInOrder` | src/psd/analysis/ngrams.py:98-121 | the grams counted often enough have a row; the stronger effect first, then the greater count, then the gram |
| `NgramFacts.ReportIgnoresOrder` | src/psd/analysis/ngrams.py:72-130 | the report is determined by its contract and does not depend on the order of the trajectories |
| `ErrorReport.DetectAll` | src/psd/analysis/error_frequency.py:144-151 | the events in loop order |
| `ErrorReport.Aggregate` | src/psd/analysis/error_frequency.py:154-158 | occurrences and trajectory sets by type |
| `ErrorReport.GroupByStep` | src/psd/analysis/error_frequency.py:161-163 | the types of each step |
| `ErrorReport.CountTogether` | src/psd/analysis/error_frequency.py:160-168 | each entry counts the steps that show both types, and every such pair has one |
| `ErrorReport.ErrorFrequencyReport` | src/psd/analysis/error_frequency.py:137-208 | rows, totals and co-occurrence as specified |
| `ErrorFacts.EventIsShown` | src/psd/analysis/error_frequency.py:147-151 | there is an event for a step and type exactly when a detector reports the type at that step |
| `ErrorFacts.TrajectoriesWithType` | src/psd/analysis/error_frequency.py:158-191 | with unique ids trajectories_with is the number of trajectories at some step of which the type is reported, and the rate its share of all |
| `ErrorFacts.TogetherCountsSteps` | src/psd/analysis/error_frequency.py:160-168 | a co-occurrence entry is the number of input steps at which detectors report both types |
| `ErrorFacts.OccurrencesSumToTotal` | src/psd/analysis/error_frequency.py:154-192 | the occurrences of the rows add up to the number of events |
| `ErrorFacts.SharesSumToOne` | src/psd/analysis/error_frequency.py:192-194 | with any event at all the shares add up to 1 |
| `ErrorFacts.EvidenceIsLeast` | src/psd/analysis/error_frequency.py:176-181 | evidence is the least events of the type by trajectory and step, as many as allowed |
| `ErrorCounts.OccurrencesAreNamings` | src/psd/analysis/error_frequency.py:146-158 | the occurrences of a type are the places where some detector names it, over all trajectories, steps and detectors |
| `ErrorCounts.RowSays` | src/psd/analysis/error_frequency.py:154-196 | a row sets the events of its type against all events and the ids they carry against all trajectories |
| `ErrorCounts.RowsInOrder` | src/psd/analysis/error_frequency.py:199-200 | the largest share first, then by type |
| `ErrorCounts.EvidenceSays` | src/psd/analysis/error_frequency.py:176-181 | evidence is of the type, by id and step; what is left out comes no earlier |
| `ErrorFacts.ReportIgnoresOrder` | src/psd/analysis/error_frequency.py:146-208 | rows and co-occurrence do not depend on the order of trajectories or of detectors |
| `Ingest.FilesystemObjectStore.Put` | src/psd/ingest/storage.py:76-86 | write-once: the same bytes again are accepted, others refused, nothing else changes |
| `Ingest.MetadataStore.Exists` | src/psd/ingest/api.py:83-92 | whether a row has the tenant, domain and hash |
| `Ingest.MetadataStore.Insert` | migrations/0002_trajectories.sql:37-40 | the insert succeeds exactly when the keys of the table admit the row |
| `Ingest.IngestOne` | src/psd/ingest/api.py:150-208 | one record: duplicate, quarantined, accepted, or an exception |
| `Ingest.IngestBatch` | src/psd/ingest/api.py:139-215 | the batch loop up to the first exception, and the three counts |
| `IngestCases.StepAnswers` | src/psd/ingest/api.py:150-208 | one record with keys, bytes and row written out: known, refused into quarantine, or taken under the tenant of the batch |
| `IngestCases.BatchAnswers` | src/psd/ingest/api.py:147-208 | one answer for each record in order, each from the state the last one left, up to the first exception |
| `IngestCases.ResponseCounts` | src/psd/ingest/api.py:210-215 | the three counts are those of the accepted, duplicate and quarantined results |
| `IngestFacts.BatchFacts` | src/psd/ingest/api.py:150-208 | in any batch, finished or stopped: one row per tenant, domain and hash, each backed by the hashed bytes; no key changes; new rows carry the batch tenant, one for each acceptance and none for a quarantine |
| `IngestFacts.EveryRunIsConsistent` | src/psd/ingest/api.py:139-215 | the same from empty stores over any sequence of batches, wherever each stops and whichever are undone with their blobs left behind; rows carry the tenant of a batch that stands |
| `IngestFacts.NoKeyEverChanges` | src/psd/ingest/storage.py:76-86 | over any run stored keys keep their bytes and rows are only appended |
| `IngestFacts.RollbackKeepsConsistency` | src/psd/ingest/api.py:198-200 | rows stay backed when the blobs grow under them, as they do when the inserts of a batch are undone |
| `IngestFacts.CountsAddUp` | src/psd/ingest/api.py:210-215 | in a finished batch the three counts add up to the number of records |
| `IngestFacts.ResendChangesNothing` | src/psd/ingest/api.py:154-160 | a batch whose records all have rows changes nothing and returns only duplicates |
| `IngestFacts.RedeliveryIsANoOp` | src/psd/ingest/api.py:139-215 | a finished batch without quarantined records, sent again on any day, is all duplicates and changes nothing |
| `IngestFacts.RequarantineFailsIffRefusalDiffers` | src/psd/ingest/api.py:163-178 | sending a quarantined body again under another source format fails if and only if the refusal differs |
| `IngestFacts.TableAloneAdmitsDuplicates` | migrations/0002_trajectories.sql:36-40 | the keys of the table admit the same content again if and only if the insertion time differs: only the check before the insert keeps it out |
| `IngestFacts.NormalRecordsAreNeverStopped` | src/psd/ingest/storage.py:36-39 | after any run, with no hash collision among the bodies sent, the object store never refuses the body of a normalised record of a plain tenant |
| `Instructions.InstructionRegistry.Register` | src/psd/distill/instructions/store.py:40-89 | both tables and the reply after a registration, in every case |
| `Instructions.StepAnswers` | src/psd/distill/instructions/store.py:40-89 | which reply comes when, and the row and the audit entry of a new registration, id and line count included |
| `Instructions.VersionsAndHashesCorrespond` | migrations/0003_instructions.sql:11-19 | over any run versions and hashes name the same rows one to one, and every hash is the hash of its body |
| `Instructions.VersionsNeverChange` | src/psd/distill/instructions/store.py:91-108 | once a version is there every later lookup finds the same row |
| `Instructions.RegistrationIsForever` | src/psd/distill/instructions/store.py:48-125 | with no hash collision among the texts at hand, a registration that returned is loaded byte for byte ever after, and repeating it changes neither table |
| `Instructions.LookupsAgree` | src/psd/distill/instructions/store.py:91-125 | looking a stored row up by hash or by version gives that row, and loading it gives its text |
| `Instructions.SecondVersionOfATextFails` | src/psd/distill/instructions/store.py:68-76 | a text registered once cannot be registered under another version |
| `Instructions.AuditCompleteIffNoneLost` | src/psd/distill/instructions/store.py:69-88 | audit entries record rows in order without repetition, and exactly as many rows lack one as audit inserts failed |
| `Instructions.CompleteLogMatchesRows` | src/psd/distill/instructions/store.py:77-88 | with none lost the i-th entry records the i-th row |
| `Instructions.LostEntryStaysLost` | src/psd/distill/instructions/store.py:56-59 | a lost entry is never made up for: registering again succeeds and logs nothing |

## Left out

- Bootstrap.PairedBootstrapDelta: percentiles are taken within 0 and 100, the range where the position falls inside the list; the program does not check them.
- Wilson.WilsonBracketsRate: stated for z >= 0, as a negative z turns the interval around.
- BuildOrder.BuildIgnoresOrderIff: stated for plans that are ready; a plan that aborts writes nothing, and `InputOrder.PlanIgnoresOrderIff` covers it.
- IngestFacts.BatchFacts: assumes a normaliser that keeps the `domain` of the body, as the registered mapper does.
- IngestFacts.NormalRecordsAreNeverStopped: resolution of keys to paths, and the refusal of keys that leave the root, are not modelled; tenants are those without a slash other than the quarantine prefix itself.
- Ngrams.ActionNgrams: lengths are natural numbers; the program would accept negative ones.
- SchemaExact.CompatibleIffReportedAndKept: closed objects, one kind for each node, references in one step, enums of the declared kind; unions, array items and open objects are not modelled, and equality of JSON values is structural (in Python 1 equals true).
- SchemaExact.ReportAddsUpIffEnumsComeBackWhole: references of the first two schemas in one step; behind a chain the second step never looks, so nothing is promised there (`SchemaExact.ChainHidesFromTheNextStep`).
- CorpusRoot.RootAddressesDisk: the readme, the manifest, precomputed reports and the analyzer library are outside the root, as in the program.
- InputOrder.PlanIgnoresOrderIff: splits whose halves share a task are left to `InputOrder.PlanIgnoresOrder`; the builder never makes one.
- RedactTrajectory.RedactPayload: the redaction record of a trajectory is the returned counts; its policy version is not modelled.
- Snapshot.Workspace.Build: the manifest holds what the proofs use (request, split address, sizes, dropped tasks, warnings as flags, root), not ids, versions and timestamps; the rounding of pass rates happens inside the serialiser parameter; the copied analyzer library and clearing of write bits are not modelled.
- Snapshot.Workspace.Materialize: the copied analyzer library, as for the whole build.
- Snapshot.Workspace.WriteRest: likewise.
- Corpus.PlanCorpus: warnings are flags, not texts.
- Instructions.AuditCompleteIffNoneLost: each insert commits on its own; a caller's transaction around both would undo the row with the entry.
- Rounding of floating point numbers, and the claim that a bootstrap interval brackets the point estimate, which the code does not give.
- Concurrent ingestion: there is no lock between the check and the insert, so only sequential runs are covered.
- The built-in detectors, action canonicalisation, observation normalisation and the regular expressions of redaction.
- `SplitStore`, `task_split_map`, imported splits and split files on disk: inserts and maps without further logic.
- The HTTP application, the command line, database connections, quality checks and metrics.
