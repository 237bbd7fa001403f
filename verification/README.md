# Evidence replay, oracles and codecs of the analysis scripts

The scripts under `analysis/` freeze calibration results only after replaying the raw evidence
behind them.  This project models that replay in Dafny and proves what an accepted replay says.

A *telemetry log* is a file of samples and markers on one strictly increasing nanosecond clock.  A
*guard campaign* is a list of cases of ten blocks; a block has one to three *block-attempts*, a
block-attempt one to three *thermal attempts*, and a thermal attempt a list of *active stability
checks*.  Every layer has markers in the log and a stored record, and the replay compares the two.
The *deadline calibration* repeats the scheme with its own marker chain, and the *thermal pilot*
with a fixed schedule of checkpoints.  The remaining modules are the window arithmetic on the log,
the application oracles (word error rate, detection matching, the trace join), and the binary and
text codecs of captured outputs.

The main results, none of which the source states in one place:

- Every marker of an accepted guard campaign is read by the replay, once and in log order; the
  marker count in `build_lock` holds if and only if that is so.  The deadline chain has the same
  theorem over its own marker names.
- All clocks of an accepted campaign form one strictly increasing sequence, so measurement windows
  never overlap each other or any thermal preconditioning.
- Each layer of the guard campaign, the deadline calibration and the pilot accepts a record if and
  only if it meets conditions that are written out, layer by layer, on the markers of the log, the
  clocks of the record and its files.
- A measurement of an accepted campaign is thermally valid exactly when its sample lies between
  cleanup and qualification, it starts less than 500 ms after the end of its heating, and the sample
  at its start is qualified; no heating is accepted before nearly a whole stability window has passed.
- The guard is the least tenth of a millisecond that covers 1.2 times the point 0.999 of the way along
  the ordered drains, and the three percentile spellings agree on that point.
- Which attempt a guard campaign uses never depends on the measured drains: two campaigns that
  differ in drains alone are accepted together or refused together.
- Greedy detection matching is sound for every request; on requests whose same-class expected boxes
  are disjoint it decides whether a bijection exists if and only if the threshold exceeds 1/2 or is
  0.  The default threshold 1/2 is not among them, even for boxes in the decoder's own order.  When
  expected boxes may overlap, only the thresholds 0 and 1 are exact.
- Token lists whose bytes are valid UTF-8 still raise exactly when some token begins inside a
  character, because decoding works token by token.
- A prediction trace covers exactly the measured iterations, and every row comes from exactly one
  manifest line and one CSV row.
- The two-row word-error-rate loop computes the length of a shortest edit script, which is a metric.
- Both binary containers round-trip in both directions; the token container is prefix-free, and a
  truncated tensor container is accepted exactly on a record boundary.

## Files

| file | module | contents |
|---|---|---|
| `Common.dfy`, `Arithmetic.dfy`, `Chains.dfy`, `LittleEndian.dfy` | same names | results, loops that stop at the first failure, products, increasing chains and positions, packed integers, sorting and distinct keys |
| `Telemetry.dfy`, `Windows.dfy`, `Coverage.dfy`, `Slope.dfy`, `ThermalWindow.dfy`, `DeadlineWindow.dfy`, `WindowReadings.dfy`, `SampleVerdicts.dfy` | same names | the log, its loader and lookups; slices, gaps, slopes and thermal verdicts on it, and what these say of its samples |
| `Streaks.dfy` | `Streaks`, `ActiveStability` | consecutive-pass counters and the two active stability rules |
| `EvidenceRegistry.dfy` | `Registry` | the registry of independent raw files, as a class |
| `Labels.dfy`, `Accounting.dfy` | same names | marker labels; lookups as log positions |
| `GuardRecords.dfy`, `GuardAttempts.dfy`, `GuardBlocks.dfy`, `GuardCampaign.dfy`, `GuardAccounting.dfy`, `GuardClocks.dfy`, `GuardExactly.dfy`, `GuardRetries.dfy`, `GuardLock.dfy`, `GuardBound.dfy`, `GuardExample.dfy` | same names | the guard campaign from stored records to frozen guards, and a block-attempt that replays |
| `DeadlineChain.dfy`, `DeadlineAccounting.dfy`, `DeadlineClocks.dfy`, `DeadlineExactly.dfy`, `DeadlineExample.dfy`, `PilotProtocol.dfy`, `PilotExactly.dfy`, `PipelineDeadline.dfy`, `Percentile.dfy` | same names | the deadline calibration, the thermal pilot, pipeline deadlines, percentiles |
| `ExampleSamples.dfy` | same name | the samples of the two concrete logs, and the windows, health and causal samples in them |
| `WordErrorRate.dfy`, `Detection.dfy`, `PredictionJoin.dfy`, `PredictionExample.dfy` | same names | the application oracles, the trace join, and a trace built from given bytes |
| `AsrTrace.dfy`, `OutputTrace.dfy`, `Utf8.dfy`, `TokenText.dfy` | same names | the JDGASR1 and JDGOUT1 containers, UTF-8, ByteLevel tokens |

Loops and stateful objects of the source are methods with loops and a class; each method is proved
against a specification function or predicate, and the lemmas are about those.  Times are integers
in nanoseconds; temperatures, latencies and scores are reals.  Thermal verdicts that a marker replay
takes from samples are function values of an `Evidence` record, so the replay theorems hold for any
of them.  `ThermalWindow.EvidenceOf` and `DeadlineWindow.DeadlineEvidenceOf` are the ones the
scripts compute.  Two concrete logs, with samples as well as markers, replay under these, so the
conditions of the replays can all be met at once.

## Model

| member | source | states |
|---|---|---|
| `Telemetry.Load` | analysis/freeze_p9_guard.py:866-961 | the loader accepts exactly the logs whose lines are intact, on one strictly increasing clock and with a sample; it returns the samples and markers in order, each stream increasing and the two disjoint |
| `Telemetry.FindMarker` | analysis/freeze_p9_guard.py:963-997 | the lookup loop returns the position of the only matching marker, and nothing when none or several match |
| `Telemetry.LookupIsUnique` | analysis/freeze_p9_guard.py:963-997 | a matching marker is the lookup's answer if and only if no other marker matches |
| `Telemetry.ConflictSeparates` | analysis/freeze_p9_guard.py:975-991 | two lookups that disagree on the name or on an entry both constrain never find the same marker |
| `Windows.BisectSplits` | analysis/freeze_p9_guard.py:1088-1094 | on an increasing clock the two bisection points separate exactly the clocks below, respectively not above, a time |
| `Windows.SliceIsFilter` | analysis/freeze_p9_guard.py:1088-1094 | the bisect slice of a log is the linear time filter |
| `Windows.CausalSampleIsExtreme` | analysis/freeze_p9_guard.py:1282-1302 | the causal lookup returns the first, or the last, sample after the boundary and not after the reference, and none exactly when there is none |
| `SampleVerdicts.CausalSampleExactly` | analysis/freeze_p9_guard.py:1282-1302 | the lookup finds the earliest, or the latest, sample of the log whose clock is after the boundary and not after the reference, and nothing exactly when there is none |
| `Windows.DeadlineFormAgrees` | analysis/freeze_p9_deadline.py:1520-1525 | the deadline freezer's filter form selects exactly the same sample |
| `Coverage.GapFormsAgree` | analysis/freeze_p9_thermal.py:182-192 | the largest-gap form and the comparison of first, last and neighbouring gaps decide the same predicate |
| `Coverage.GapsBoundedIffCovered` | analysis/freeze_p9_guard.py:1032-1041 | no gap exceeds a limit if and only if every closed stretch of that length, at any real start, contains a sample |
| `Coverage.SpanBound` | analysis/freeze_p9_thermal.py:182-192 | n samples with gaps of at most g span at most (n + 1) g |
| `Coverage.MoreSamplesSmallerGap` | analysis/freeze_p9_thermal.py:182-192 | adding samples never increases the largest gap |
| `Slope.SlopeIsLeastSquares` | analysis/freeze_p9_thermal.py:222-237 | no line has a smaller squared error than the one with the computed slope through the means |
| `Slope.SlopeShiftInvariant` | analysis/freeze_p9_thermal.py:222-237 | shifting the clock or the temperature does not change the slope |
| `Slope.SlopeIsWeightedMean` | analysis/freeze_p9_thermal.py:222-237 | the slope is the mean of the pairwise slopes weighted by squared time differences |
| `Slope.SlopeBetweenPairSlopes` | analysis/freeze_p9_thermal.py:222-237 | the slope lies between the smallest and the largest pairwise slope |
| `Slope.DenominatorPositive` | analysis/freeze_p9_thermal.py:227-237 | with two or more increasing times the denominator is positive, so the zero branch is unreachable |
| `ThermalWindow.WindowsAgree` | analysis/freeze_p9_thermal.py:195-250 | the guard freezer and the thermal freezer replay the same window from the same log |
| `ThermalWindow.WindowSlopeIsLeastSquares` | analysis/freeze_p9_thermal.py:218-237 | every stability window of a loaded log has a positive denominator, 60 times the computed slope as its slope per minute, and no line that fits its readings better |
| `WindowReadings.WindowExactly` | analysis/freeze_p9_thermal.py:195-250 | a window sums up exactly the finite readings at most `windowSeconds` before the reference and not before the start of the heating; its gaps are measured from the later of the two, its count, span, mean, extremes, last value, largest gap and slope are theirs, and its span never exceeds the time since the start |
| `WindowReadings.EvidenceWindowExactly` | analysis/freeze_p9_guard.py:1088-1135 | the same of the guard freezer's bisected window |
| `WindowReadings.StableExactly` | analysis/freeze_p9_guard.py:1088-1230 | a check is stable exactly when the aggregator finds that stretch healthy and below the hard limit and its readings are enough, span 99 % of the window without a gap above the limit, and have mean, last value and slope in their bands |
| `WindowReadings.RawWindowExactly` | analysis/freeze_p9_deadline.py:577-723 | the deadline replay reports a window exactly when every sample of the stretch, with or without its end, is complete, none is hot, and their readings, one sensor for both, are enough and well spread; it sums them up, and its envelope is stable exactly when they are steady |
| `ThermalWindow.HealthyIntervalExactly` | analysis/freeze_p9_guard.py:999-1053 | an interval is healthy exactly when enough complete samples lie in it, every stretch of the gap limit holds one, and none reaches the hard limit |
| `SampleVerdicts.HealthyExactly` | analysis/freeze_p9_guard.py:999-1053 | the same of the samples from start to before end: as many complete ones as the required fraction of the whole intervals that fit, one in every closed stretch of the gap limit, none at the hard limit |
| `ThermalWindow.PassedQualificationIsCausal` | analysis/freeze_p9_guard.py:1304-1472 | a passed qualification rests on the first sample after the boundary, which is fresh, in the band and below the hard limit |
| `SampleVerdicts.CausalExactly` | analysis/freeze_p9_guard.py:1304-1472 | a causal qualification passes exactly when its sample is healthy, prompt, fresh, in the band and below the hard limit; the reason of a failure is the first of these tests that fails |
| `DeadlineWindow.RawWindowIsEvidenceWindow` | analysis/freeze_p9_deadline.py:618-723 | whatever stability window the deadline replay reports is the guard replay's window |
| `DeadlineWindow.OutcomesAgree` | analysis/freeze_p9_deadline.py:1520-1625 | the two freezers see the same causal sample and agree on whether it passes whenever it is complete |
| `SampleVerdicts.DeadlineCausalExactly` | analysis/freeze_p9_deadline.py:1520-1660 | the deadline freezer passes the same sample exactly when it is complete and meets the same tests |
| `Streaks.StreakIsPassingSuffix` | analysis/freeze_p9_guard.py:1615-1617 | the counter is the length of the longest all-pass suffix |
| `ActiveStability.StableEndsInThree` | analysis/freeze_p9_guard.py:1582-1629 | accepted checks end in exactly three passes, the fourth from last failed, and the three samples are a second apart |
| `ActiveStability.DeadlineStableImpliesGuardStable` | analysis/freeze_p9_deadline.py:1103-1197 | what the deadline rule accepts, the guard rule accepts |
| `ActiveStability.DeadlineRejectsOnlyNearFailures` | analysis/freeze_p9_deadline.py:1141-1152 | of the lists the guard accepts, the deadline rejects exactly those with neighbours closer than a second of which one failed |
| `ActiveStability.FinalFlagsNeverReject` | analysis/freeze_p9_guard.py:1625-1629 | the test of the last three flags never fires after the counter test |
| `ActiveStability.GuardStableExactly` | analysis/freeze_p9_guard.py:1582-1629 | the guard accepts exactly the lists that end in exactly three passes and in which of two neighbouring passes the second is a second or more later |
| `ActiveStability.DeadlineStableExactly` | analysis/freeze_p9_deadline.py:1103-1197 | the deadline accepts exactly those of them in which all neighbours are that far apart |
| `ActiveStability.FourthPassRejected` | analysis/freeze_p9_guard.py:1625-1629 | an accepted list followed by one more pass is not accepted |
| `Registry.EvidenceRegistry.constructor` | analysis/freeze_p9_guard.py:344-349 | an empty registry is valid |
| `Registry.EvidenceRegistry.Claim` | analysis/freeze_p9_guard.py:351-391 | a claim succeeds exactly when the file exists and shares no path, inode or hash with the manifest; it then appends one entry, and a refused claim changes nothing |
| `Registry.SizesOfIndependent` | analysis/freeze_p9_guard.py:346-349 | the path, inode and hash sets each have as many members as the manifest has entries |
| `Registry.ClaimEach` | analysis/freeze_p9_guard.py:351-391 | trying any list of claims, refused ones included, leaves exactly the accepted entries, and no two share a path, an inode or a hash |
| `Labels.GuardLabelInjective` | analysis/freeze_p9_guard.py:1976-1980 | different thermal attempts of a campaign have different labels, whatever the case identifiers contain |
| `Labels.DeadlineLabelInjective` | analysis/freeze_p9_deadline.py:2241-2264 | different attempts of a calibration have different labels |
| `Labels.GuardLabelReads` | analysis/freeze_p9_guard.py:1976-1980 | the label of a thermal attempt of the campaign, in one piece |
| `Labels.TwoDigitsRead` | analysis/freeze_p9_guard.py:1976-1980 | below 100 a number is written with its tens and its ones, from 100 on in full, and it can be read back |
| `Labels.DeadlineLabelReads` | analysis/freeze_p9_deadline.py:2241-2264 | the label of an attempt of the calibration, in one piece |
| `GuardAttempts.ReplayChecks` | analysis/freeze_p9_guard.py:1581-1624 | the loop over the check markers accepts exactly the lists in which each check is causal, spaced and claims the window, outcome and counter of the raw samples |
| `GuardExactly.ChecksExactly` | analysis/freeze_p9_guard.py:1581-1624 | the loop accepts the checks if and only if each was taken after the start and no later than its marker, repeats the window and the outcome of the raw samples, counts the stable endpoints in a row and keeps a second from a stable one before it |
| `GuardAttempts.ReplayPrecondition` | analysis/freeze_p9_guard.py:1521-1722 | accepts exactly the preconditions that repeat their markers, and returns the marker clocks |
| `GuardExactly.HeatingExactly` | analysis/freeze_p9_guard.py:1521-1722 | a heating is accepted if and only if its outer markers are the only ones with their names and label and say what its record says, its checks stand, exactly three stable endpoints end it, the boundary carries the last, and its clocks increase |
| `GuardAttempts.PreconditionEndsStable` | analysis/freeze_p9_guard.py:1569-1629 | an accepted precondition satisfies the guard's stability rule |
| `GuardAttempts.BoundaryRestsOnThreePasses` | analysis/freeze_p9_guard.py:1569-1639 | in an accepted heating the boundary marker carries the sample and raw window of the last of exactly three stable endpoints, each a second or more after the one before, between start and boundary |
| `GuardClocks.HeatingLastsAWindow` | analysis/freeze_p9_guard.py:1088-1091 | on the samples of a log no heating is accepted before 99 % of the stability window and two seconds have passed since its start |
| `GuardAttempts.ReplayThermalAttempt` | analysis/freeze_p9_guard.py:1960-2136 | accepts exactly the thermal attempts whose precondition, qualification, result and release repeat the log, and returns their clocks |
| `GuardExactly.ThermalExactly` | analysis/freeze_p9_guard.py:1960-2136 | a thermal attempt is accepted if and only if its heating is, its qualification, result, start and release are the only markers of their identity and say what its record says, at increasing clocks, exactly the measured processes were paused, and its verdict and reason are those of its clocks |
| `GuardAttempts.ReplayAttempts` | analysis/freeze_p9_guard.py:1939-2168 | accepts exactly the lists of one to three attempts in order of which only the last passed, and returns all their clocks |
| `GuardExactly.AttemptsExactly` | analysis/freeze_p9_guard.py:1939-2168 | a list is accepted if and only if it has one to three such attempts, each prepared after the last clock of the one before it, of which the last, and no other, was released in time, and which is the selected one |
| `GuardClocks.LookupsByIdentity` | analysis/freeze_p9_guard.py:963-997 | each lookup of the replay finds a marker exactly when it is the only one with its name and the identity entries of its attempt |
| `GuardClocks.ThermalAttemptLogged` | analysis/freeze_p9_guard.py:1981-2075 | the start, cleanup, qualification, result, block start and release of a replayed attempt stand in the log at the recorded clocks with exactly its identity and outcome, and exactly its processes were paused |
| `GuardClocks.ReleasedExactly` | analysis/freeze_p9_guard.py:2076-2125 | the pre-release verdict is that the qualification passed and cleanup, sample, qualification, result, start and release follow the boundary in this order, the last less than 500000000 ns after it; a failure names the failed qualification or the exceeded handoff |
| `GuardClocks.FirstReleasedInTime` | analysis/freeze_p9_guard.py:2140-2163 | of the one to three attempts the last, and no earlier one, was released in time by these clocks |
| `GuardBlocks.ReplayFiles` | analysis/freeze_p9_guard.py:2283-2350 | claims the trace, the result and one file for each worker in order, and accepts exactly when all claims succeed and the contents agree with the record and the marker clocks |
| `GuardBlocks.ReplayHandoff` | analysis/freeze_p9_guard.py:1919-1936 | the loop computes whether each of the eight clocks follows the one before it, strictly within the bound |
| `GuardBlocks.WithinByLastClock` | analysis/freeze_p9_guard.py:1919-1936 | the handoff is within the bound exactly when its clocks increase strictly and the measurement starts less than 500 ms after the boundary |
| `GuardBlocks.ReplayMeasurement` | analysis/freeze_p9_guard.py:2362-2404 | accepts exactly when the selected attempt was released, resumed and qualified at the measurement start as recorded |
| `GuardBlocks.ReplayBlockAttempt` | analysis/freeze_p9_guard.py:2211-2456 | accepts exactly the block-attempts whose files, thermal attempts, verdict and order replay, leaves their files in the manifest, and returns the end clock and the drains |
| `GuardExactly.StepExactly` | analysis/freeze_p9_guard.py:2211-2456 | a block-attempt is accepted, its claims apart, if and only if its files, thermal attempts, own markers, handoff, verdict, clocks and measurement health are as its record says; every condition is written out on markers, files and clocks |
| `GuardExactly.ClaimsInOrder` | analysis/freeze_p9_guard.py:2283-2329 | successful claims add exactly the entries of the trace, the result and the workers, in this order and under the case and block, and keep the manifest free of shared paths, inodes and hashes |
| `GuardClocks.BlockAttemptRecorded` | analysis/freeze_p9_guard.py:2237-2423 | the prepare, resume, actual-start, result and end markers of a replayed block-attempt stand in the log with exactly its record, and its actual start is the causal outcome at the measurement start |
| `GuardClocks.AttemptTimeline` | analysis/freeze_p9_guard.py:2424-2438 | from the boundary of the selected heating to the end marker all twelve clocks of a block-attempt increase strictly |
| `GuardClocks.ValidExactly` | analysis/freeze_p9_guard.py:1871-1936 | a block-attempt is valid exactly when the sample lies strictly between cleanup and qualification, the measurement starts less than 500000000 ns after the boundary and is causally qualified: the other comparisons of the handoff are implied |
| `GuardClocks.AttemptFiled` | analysis/freeze_p9_guard.py:2283-2350 | the trace holds exactly 1000 positive drains, the critical result spans the measurement, and each worker, under its own process identifier, was released before it started, ran through the end of the measurement and ended before the result |
| `GuardClocks.EveryAttemptInClocks` | analysis/freeze_p9_guard.py:2211-2456 | all of this holds of every block-attempt of every accepted run |
| `GuardCampaign.FirstValidIsLeast` | analysis/freeze_p9_guard.py:2194-2208 | an initial part of a list of outcomes is accepted exactly when its last attempt is the least valid one and the selected one |
| `GuardCampaign.FirstValidPart` | analysis/freeze_p9_guard.py:2194-2208 | once an attempt is valid, exactly one initial part of the outcomes is accepted |
| `GuardCampaign.FirstValidPrefixFree` | analysis/freeze_p9_guard.py:2194-2208 | no accepted list of attempts extends another |
| `GuardRetries.StepIgnoresDrains` | analysis/freeze_p9_guard.py:2283-2329 | a block-attempt replays with both of two file systems that differ in decodable drains alone, or with neither |
| `GuardRetries.SelectionIgnoresDrains` | analysis/freeze_p9_guard.py:2194-2208 | a whole campaign, with the attempts it selects, is accepted or refused whatever the measured drains are |
| `GuardRetries.ThermalAttemptsPrefixFree` | analysis/freeze_p9_guard.py:2140-2163 | no accepted list of thermal attempts extends another |
| `GuardRetries.BlocksPrefixFree` | analysis/freeze_p9_guard.py:2194-2208 | no accepted block extends the block-attempts of another |
| `GuardCampaign.ReplayBlock` | analysis/freeze_p9_guard.py:2486-2524 | accepts exactly the blocks of one to three replayed attempts that use the first valid one, and returns its drains |
| `GuardClocks.BlockShapeOf` | analysis/freeze_p9_guard.py:2486-2524 | a block is accepted exactly when it is in place and exactly the last of its one to three attempts is valid and selected |
| `GuardCampaign.ReplayCase` | analysis/freeze_p9_guard.py:2459-2550 | accepts exactly the cases of the protocol with ten such blocks, and pools the drains of their first valid attempts |
| `GuardCampaign.PooledSize` | analysis/freeze_p9_guard.py:2538-2539 | the pool of n replayed blocks has exactly 1000 n drains, all positive, so the size test never fires |
| `GuardCampaign.ExpectedMarkerCount` | analysis/freeze_p9_guard.py:2685-2716 | the nested loops count 3, and 5 for each block-attempt, and 6 plus its checks for each thermal attempt, and 2 for each passed one |
| `GuardCampaign.ReplayCampaign` | analysis/freeze_p9_guard.py:2635-2757 | accepts exactly the profiles whose markers, case order, count, cases and order replay; returns the pooled drains and the manifest |
| `GuardExactly.CampaignExactly` | analysis/freeze_p9_guard.py:2635-2757 | apart from the marker count a campaign is accepted if and only if its own markers are the only ones with their names, no marker has a foreign name, its cases have the shape of the protocol, its block-attempts replay one after the other from its start, and it ends after them |
| `GuardExactly.RunLength` | analysis/freeze_p9_guard.py:2459-2524 | the replay has as many steps as the profile stores block-attempts |
| `GuardClocks.CampaignShape` | analysis/freeze_p9_guard.py:2635-2757 | an accepted campaign has its two markers, the cases of the protocol in order, ten numbered blocks each, and one to three attempts at each, of which exactly the last is valid |
| `GuardClocks.EveryStoredAttemptReplayed` | analysis/freeze_p9_guard.py:2459-2524 | every stored block-attempt, selected or not, was replayed under the identity of its place in the profile |
| `GuardAccounting.ThermalRefClocks` | analysis/freeze_p9_guard.py:1960-2139 | a thermal attempt reads as many markers as the count allots it, at the clocks whose order it checks |
| `GuardAccounting.StepRefClocks` | analysis/freeze_p9_guard.py:2237-2270 | a block-attempt reads as many markers as the count allots it, at increasing clocks between the previous end and its own |
| `GuardAccounting.CampaignIsOneLine` | analysis/freeze_p9_guard.py:2424-2438 | all clocks of an accepted campaign are one strictly increasing sequence from its start to its end |
| `GuardAccounting.MeasurementsNeverOverlap` | analysis/freeze_p9_guard.py:2424-2438 | measurement windows are pairwise disjoint, and no thermal preconditioning overlaps its own or an earlier measurement |
| `GuardAccounting.MeasurementsAreSound` | analysis/freeze_p9_guard.py:2383-2441 | every measurement of an accepted run was healthy, and a thermally valid one began within 500 ms of its boundary, after strictly increasing clocks, with a passed causal qualification |
| `GuardAccounting.EveryMarkerRead` | analysis/freeze_p9_guard.py:2685-2718 | in an accepted campaign the i-th marker read is the i-th marker of the log |
| `GuardAccounting.CountIsTheOrphanTest` | analysis/freeze_p9_guard.py:2717-2718 | once everything else replays, the marker count holds if and only if every marker is read |
| `GuardAccounting.ThermalAttemptIsFirstPassing` | analysis/freeze_p9_guard.py:2140-2163 | the selected thermal attempt is the first that passed |
| `GuardAccounting.ManifestOfRun` | analysis/freeze_p9_guard.py:2283-2329 | the manifest holds two files for each block-attempt and one for each expanded client, no two sharing an identity |
| `GuardExample.SomeRunAccepted` | analysis/freeze_p9_guard.py:2211-2456 | a well-ordered log of samples and markers, a record and a set of files replay as a block-attempt with a failed and a passed thermal attempt and a worker, with windows, health and causal samples taken from the samples |
| `GuardLock.SingleKeysDistinct` | analysis/freeze_p9_guard.py:156-175 | no single case calibrates the key of another |
| `GuardLock.WorkersOfCases` | analysis/freeze_p9_guard.py:544-549 | of the eleven cases the last three are held out; a single case runs one worker and a held-out mix six |
| `GuardLock.HeldOutCasesCalibrated` | analysis/freeze_p9_guard.py:178-207 | the held-out cases only use calibrated keys, so that error cannot occur |
| `GuardLock.FreezeGuards` | analysis/freeze_p9_guard.py:2759-2774 | succeeds exactly when every pool yields a guard, and maps each key to it |
| `GuardLock.GuardOfCase` | analysis/freeze_p9_guard.py:2762-2765 | with distinct keys each key maps to the guard of its own pool |
| `GuardLock.FrozenGuardsBoundTheirPools` | analysis/freeze_p9_guard.py:291-296 | in a frozen lock each single-client guard rests on 10,000 drains, of which at most 10 exceed it |
| `GuardLock.RequireCoverage` | analysis/freeze_p9_guard.py:299-307 | succeeds exactly when the envelope of the mix fits the period and no drain exceeds it |
| `GuardLock.CoverableInNumbers` | analysis/freeze_p9_guard.py:299-307 | a mix is covered exactly when its largest load is from 0 to below 20 ms and no drain exceeds it by more than 1e-12 ms |
| `GuardLock.BuildLock` | analysis/freeze_p9_guard.py:2635-2800 | freezes exactly the replayed campaigns whose guards fit the period and cover every held-out mix |
| `GuardLock.LabelsSeparateAttempts` | analysis/freeze_p9_guard.py:1976-1980 | no marker answers lookups by the labels of two different thermal attempts |
| `GuardLock.GuardAnswers` | analysis/freeze_p9_guard.py:1055-1302 | the campaign replay runs on the windows, verdicts, health and causal outcomes of the samples of its own log, under those labels |
| `GuardLock.FrozenLockReadsWholeLog` | analysis/freeze_p9_guard.py:2673-2757 | a frozen lock rests on a log whose every marker was read, in order |
| `GuardLock.FrozenMeasurementsWatched` | analysis/freeze_p9_guard.py:2439-2441 | behind every measurement of a frozen lock every stretch of the gap limit holds a complete sample and no sample reaches the hard limit |
| `GuardBound.RoundUpIsLeastMultiple` | analysis/freeze_p9_guard.py:282-288 | the rounded value is the least multiple of the quantum not below the value |
| `GuardBound.GuardAcceptedExactlyWhen` | analysis/freeze_p9_guard.py:291-296 | a guard is estimated exactly when there are samples, none negative, and the rounded margin over their p99.9 is below the period |
| `GuardBound.GuardBoundsDrains` | analysis/freeze_p9_guard.py:291-296 | the guard is the margin over the p99.9 up to one quantum, and at most ceil(0.001 (n - 1)) samples exceed it |
| `GuardBound.GuardInNumbers` | analysis/freeze_p9_guard.py:267-296 | with `raw` the point k + f steps along the ordered drains, where k + f is 0.999 (n - 1), the guard is the least number of tenths of a millisecond that covers 1.2 `raw`, and there is none from 20 ms on |
| `GuardBound.NoGuard` | analysis/freeze_p9_guard.py:267-279 | without samples, or with a negative one, the estimate fails with that error |
| `GuardBound.GuardOfPool` | analysis/freeze_p9_guard.py:291-296 | for 10,000 drains the point lies one thousandth of the way from the 9990th to the 9991st |
| `GuardBound.AdditiveEnvelope` | analysis/freeze_p9_guard.py:2562-2578 | returns the largest summed count times guard over the instances, and each instance's sum; fails exactly on an uncalibrated key or no client |
| `GuardBound.LoadOfOne` | analysis/freeze_p9_guard.py:2562-2578 | one client adds its count times the guard of its placement, quota and modality to its own instance and nothing elsewhere |
| `GuardBound.EnvelopeReordered` | analysis/freeze_p9_guard.py:2562-2578 | reordering clients leaves the envelope unchanged |
| `GuardBound.EnvelopeSplit` | analysis/freeze_p9_guard.py:2562-2578 | splitting a client group leaves the envelope unchanged |
| `GuardBound.EnvelopeOfConcatenation` | analysis/freeze_p9_guard.py:2562-2578 | adding clients never lowers the envelope, and envelopes are subadditive |
| `Percentile.DifferenceSpellingAgrees` | analysis/freeze_p9_deadline.py:253-261 | the difference spelling computes the Type-7 value |
| `Percentile.WeightedSpellingAgrees` | analysis/freeze_p9_pipeline_deadline.py:86-93 | the weighted spelling computes the Type-7 value |
| `Percentile.GuardSpellingAgrees` | analysis/freeze_p9_guard.py:267-279 | the guard spelling computes the Type-7 value or rejects a negative sample |
| `Percentile.InterpolatesExactly` | analysis/freeze_p9_guard.py:267-279 | when q (n - 1) is k + f, all three spellings return the k-th of the ordered samples plus f times the step to the next, for whichever ordered list has the same samples |
| `Percentile.SingleSample` | analysis/freeze_p9_guard.py:271-272 | a single sample is each of its percentiles |
| `Percentile.EvenlySpaced` | analysis/freeze_p9_deadline.py:253-261 | samples a, a + b, a + 2b, ... in any order give a + b q (n - 1) |
| `Percentile.PermutationInvariant` | analysis/freeze_p9_guard.py:267-279 | the percentile does not depend on the order of the samples |
| `Percentile.BoundedByExtremes` | analysis/freeze_p9_guard.py:267-279 | the percentile lies between the least and the greatest sample |
| `Percentile.MonotoneInQuantile` | analysis/freeze_p9_guard.py:267-279 | the percentile grows with the quantile |
| `Percentile.SortedDominated` | analysis/freeze_p9_guard.py:270-270 | dominated lists have dominated order statistics |
| `Percentile.MonotoneInSamples` | analysis/freeze_p9_guard.py:267-279 | raising samples never lowers the percentile |
| `Percentile.FewAbovePercentile` | analysis/freeze_p9_guard.py:267-279 | at most ceil((1 - q)(n - 1)) samples exceed the q percentile |
| `DeadlineChain.ReplayChecks` | analysis/freeze_p9_deadline.py:1072-1197 | accepts exactly the check lists that repeat their markers, are causal and spaced, claim what the raw samples give and end in three passes |
| `DeadlineExactly.ChecksExactly` | analysis/freeze_p9_deadline.py:1072-1197 | the checks are accepted if and only if they repeat the check markers of the log one for one, each inside the heating and after its sample, with what the raw samples say, a second or more apart, and three stable endpoints in a row end them |
| `DeadlineChain.ReplayedChecksStable` | analysis/freeze_p9_deadline.py:1103-1197 | replayed checks satisfy the deadline's stability rule and the guard's |
| `DeadlineChain.FinalEnvelopeNeverRejects` | analysis/freeze_p9_deadline.py:1396-1402 | the envelope test after the checks never fires |
| `DeadlineChain.ReplayPrecondition` | analysis/freeze_p9_deadline.py:1200-1412 | accepts exactly the preconditions that repeat their markers, checks and boundary |
| `DeadlineExactly.HeatingExactly` | analysis/freeze_p9_deadline.py:1200-1412 | a heating is accepted if and only if its outer markers are the only ones with their names and metadata, its checks stand, its boundary carries the last one, which is fresh, and its clocks are in order |
| `DeadlineChain.ReplayBlock` | analysis/freeze_p9_deadline.py:2229-2463 | accepts exactly the blocks of one to three ordered attempts, of which only the last passed, whose markers, order, actual start and handoff replay |
| `DeadlineExactly.AttemptExactly` | analysis/freeze_p9_deadline.py:2252-2330 | an attempt is accepted if and only if its heating is, its qualification and result are logged as recorded at increasing clocks, and it qualified exactly when it is the last |
| `DeadlineExactly.BlockExactly` | analysis/freeze_p9_deadline.py:2229-2463 | a block is accepted if and only if its one to three attempts are, one after the other, its own markers are the only ones and in order around the measurement, and the measurement was released after the last result, began less than 500 ms after the boundary and is causally qualified |
| `DeadlineExactly.CalibrationAnswers` | analysis/freeze_p9_deadline.py:577-723 | the calibration replay runs on the windows at sample clocks, envelopes, health of whole heatings and causal outcomes of the samples of its own log, under those labels |
| `DeadlineClocks.ExactIsOnly` | analysis/freeze_p9_deadline.py:896-908 | a lookup by metadata returns a clock exactly when one marker, and no other, has the name and the metadata |
| `DeadlineClocks.TagIsOnly` | analysis/freeze_p9_deadline.py:1094-1100 | a lookup by label returns a marker exactly when no other has its name and label |
| `DeadlineClocks.AttemptIsLogged` | analysis/freeze_p9_deadline.py:1424-1688 | a replayed attempt repeats its markers with exactly its identity and outcome, at increasing clocks, and qualified exactly when it is the last |
| `DeadlineClocks.HeatingEndsStable` | analysis/freeze_p9_deadline.py:1103-1412 | its heating ends on exactly three stable endpoints, all endpoints a second or more apart, the last one fresh at the boundary, whose marker carries it |
| `DeadlineClocks.BlockIsLogged` | analysis/freeze_p9_deadline.py:2362-2397 | the five markers of a block stand in the log in order around its measurement |
| `DeadlineClocks.BlockInClocks` | analysis/freeze_p9_deadline.py:2229-2463 | an accepted block has one to three such attempts, of which only the last qualified; its measurement was released after that result, began less than 500000000 ns after the boundary and rests on a causally qualified sample |
| `DeadlineAccounting.ExpectedMarkers` | analysis/freeze_p9_deadline.py:2181-2209 | the totals are five for each block, six for each attempt and one for each check, and exist exactly when each block has one to three attempts |
| `DeadlineExactly.ChainNamesExactly` | analysis/freeze_p9_deadline.py:2167-2180 | the count is about exactly the twelve chain marker names |
| `DeadlineAccounting.ReplayChain` | analysis/freeze_p9_deadline.py:2167-2463 | accepts exactly the calibrations whose blocks replay in order and whose chain marker count matches |
| `DeadlineClocks.EachBlock` | analysis/freeze_p9_deadline.py:2229-2240 | every block of an accepted calibration is such a block, after the end of the one before it |
| `DeadlineAccounting.CountIsTheOrphanTest` | analysis/freeze_p9_deadline.py:2208-2213 | once the blocks replay, the count holds if and only if every chain marker is read; each is read once, in log order |
| `DeadlineAccounting.AttemptOnLine` | analysis/freeze_p9_deadline.py:2253-2330 | an attempt reads six markers and its checks, at increasing clocks from its prepare to its result |
| `DeadlineAccounting.ClosingOnLine` | analysis/freeze_p9_deadline.py:2362-2392 | the closing markers of a block are strictly ordered although the code lets some share a clock |
| `DeadlineAccounting.MeasurementsNeverOverlap` | analysis/freeze_p9_deadline.py:2382-2397 | measurement windows of different blocks are disjoint and follow their own thermal attempts |
| `DeadlineAccounting.FirstSuccessUsed` | analysis/freeze_p9_deadline.py:2324-2328 | the qualification a block uses is the first that passed |
| `DeadlineAccounting.AttemptsPrefixFree` | analysis/freeze_p9_deadline.py:2324-2328 | no replayed block extends the thermal attempts of another |
| `DeadlineAccounting.LabelsSeparateAttempts` | analysis/freeze_p9_deadline.py:2241-2264 | no marker answers lookups by the labels of two different attempts |
| `DeadlineAccounting.AcceptedCalibrationReadsChain` | analysis/freeze_p9_deadline.py:2167-2397 | in an accepted calibration of a loaded log every chain marker was read |
| `DeadlineExample.SomeCalibrationAccepted` | analysis/freeze_p9_deadline.py:2167-2463 | a well-ordered log of samples and markers replays as a calibration of one block, with windows, health and causal samples taken from the samples, and its fourteen markers match the count |
| `PilotProtocol.ReplayPilot` | analysis/freeze_p9_thermal.py:433-646 | accepts exactly the pilots whose markers are paired, on schedule and true to the raw samples, and which stop at their first eligible checkpoint |
| `PilotExactly.PilotExactlyStands` | analysis/freeze_p9_thermal.py:433-646 | with the frozen constants a pilot is accepted if and only if its checkpoints are due every 30 s and at most 1 s late and say what the raw samples say, the last is the first at 600 s or later that ends three passes in a row, it is due within 900 s, and the outer markers and the summary repeat it in order |
| `PilotProtocol.StoppingIsPrefixFree` | analysis/freeze_p9_thermal.py:599-620 | no accepted pilot continues another |
| `PilotProtocol.StoppingConfirms` | analysis/freeze_p9_thermal.py:642-646 | the final confirmation test never fires |
| `PilotProtocol.CheckpointBounds` | analysis/freeze_p9_thermal.py:550-624 | the number of checkpoints times the step lies between the minimum soak less the lateness and the maximum soak |
| `PilotProtocol.FrozenPilotLength` | analysis/freeze_p9_thermal.py:65-69 | with the frozen constants a pilot has 20 to 30 checkpoints |
| `PilotProtocol.AcceptedPilotStops` | analysis/freeze_p9_thermal.py:589-624 | an accepted pilot stops at the first moment at which ten minutes have passed and three checks in a row were stable |
| `PilotProtocol.PassingCheckpointIsWatched` | analysis/freeze_p9_thermal.py:280-340 | a passing checkpoint has a complete sample in every 300 ms of its window |
| `SampleVerdicts.CheckpointExactly` | analysis/freeze_p9_thermal.py:253-340 | a checkpoint passes exactly when all samples of the 180 s before it, but not before the start, are complete, they and the readings of both sensors are enough and without a gap above 300 ms, the readings span 99 % of the window, their slope is small and none reaches the hard limit |
| `PilotProtocol.AcceptedPilotWatched` | analysis/freeze_p9_thermal.py:549-646 | in a pilot accepted on raw samples the last three checkpoints are on schedule and pass, and every 300 ms of their windows hold a complete sample |
| `PipelineDeadline.ReplayTrace` | analysis/freeze_p9_pipeline_deadline.py:96-109 | accepts exactly the traces of positive values without a miss, and returns the values |
| `PipelineDeadline.BuildLock` | analysis/freeze_p9_pipeline_deadline.py:135-200 | accepts exactly two or more ordered, complete blocks from distinct traces whose stated p99 is close to the raw one, and freezes 1.10 times the pooled p99 |
| `PipelineDeadline.BlocksExactly` | analysis/freeze_p9_pipeline_deadline.py:135-184 | the blocks are accepted if and only if each has its index, as many rows as are due, all positive and without a miss, and a close p99, and no two share a trace |
| `PipelineDeadline.DeadlineInNumbers` | analysis/freeze_p9_pipeline_deadline.py:86-93 | the deadline is 1.1 times the point k + f steps along the ordered pool, where k + f is 0.99 (n - 1) |
| `PipelineDeadline.CloseExactly` | analysis/freeze_p9_pipeline_deadline.py:168-172 | a stated p99 is close when it differs by at most 0.01 or a billionth of either value |
| `PipelineDeadline.DeadlineIsRarelyMissed` | analysis/freeze_p9_pipeline_deadline.py:185-197 | the pool holds all samples of all blocks, and at most ceil(0.01 (N - 1)) of them exceed the deadline |
| `WordErrorRate.WordErrorRateOf` | analysis/build_application_prediction_trace.py:115-130 | the two-row loop returns the edit distance over the number of expected words, and fails exactly on an empty expectation |
| `WordErrorRate.AsrRequestCorrect` | analysis/build_application_prediction_trace.py:133-136 | a request is correct exactly when some script within the budget rewrites it |
| `WordErrorRate.DistanceIsShortestScript` | analysis/build_application_prediction_trace.py:115-130 | the distance is the cost of a cheapest insert, delete and substitute script |
| `WordErrorRate.DistanceZeroIffEqual` | analysis/build_application_prediction_trace.py:115-130 | the distance is zero exactly for equal lists |
| `WordErrorRate.DistanceSymmetric` | analysis/build_application_prediction_trace.py:115-130 | the distance is symmetric, by inverting scripts |
| `WordErrorRate.DistanceTriangle` | analysis/build_application_prediction_trace.py:115-130 | the triangle inequality, by composing scripts |
| `WordErrorRate.DistanceBounds` | analysis/build_application_prediction_trace.py:115-130 | the distance lies between the length difference and the longer length |
| `Detection.MatchBoxes` | analysis/build_application_prediction_trace.py:302-324 | the greedy loop returns its assignment, and accepts only when it is a class-preserving bijection within the threshold |
| `Detection.DetectionRequestCorrect` | analysis/build_application_prediction_trace.py:256-324 | accepts exactly what the greedy matching of the parsed boxes accepts, and rejects malformed boxes |
| `Detection.BoxExactly` | analysis/build_application_prediction_trace.py:284-299 | a box is accepted exactly when both sides are positive, and keeps its class, corner, sides and area |
| `Detection.OverlapExactly` | analysis/build_application_prediction_trace.py:309-319 | what two intervals share is positive exactly when they meet, and then it is the stretch between the later begin and the earlier end |
| `Detection.GreedyIsComplete` | analysis/build_application_prediction_trace.py:302-324 | greedy matching finds a bijection whenever one exists and overlapping choices are interchangeable |
| `Detection.GreedyIsSound` | analysis/build_application_prediction_trace.py:302-324 | a true answer of the greedy matching always comes from a bijection, for every request and threshold |
| `Detection.DisjointRequestsAreUnambiguous` | analysis/build_application_prediction_trace.py:309-319 | above 1/2 no predicted box is compatible with two disjoint expected boxes of its class |
| `Detection.AboveHalfGreedyDecides` | analysis/build_application_prediction_trace.py:302-324 | for disjoint expected boxes and a threshold above 1/2 the answer is true if and only if a bijection exists |
| `Detection.PairAnswer` | analysis/build_application_prediction_trace.py:302-324 | for requests of two boxes, exactly when greedy misses an existing bijection |
| `Detection.HalfThresholdIsTooLow` | analysis/build_application_prediction_trace.py:256-324 | at every threshold above 0 and up to 1/2 every box has a request on which greedy matching fails although a bijection exists |
| `Detection.DecidesExactlyWhen` | analysis/build_application_prediction_trace.py:256-324 | greedy decides all requests with disjoint expected boxes if and only if the threshold exceeds 1/2 or is 0, and the same holds for requests in the frame and order that the decoder emits |
| `Detection.FrameInNumbers` | analysis/build_application_prediction_trace.py:223-251 | a box is in the decoder's frame exactly when its class is one of the three decoded ones and its whole coordinates lie in 0 to 639 and 0 to 367 |
| `Detection.NotAfterDecided` | analysis/build_application_prediction_trace.py:252 | two class names are ordered by their first differing character, and a beginning comes first |
| `Detection.SortsBeforeOrders` | analysis/build_application_prediction_trace.py:252 | the sort key orders any two boxes, and both ways only equal ones |
| `Detection.EmittedCanonical` | analysis/build_application_prediction_trace.py:252-253 | the decoder writes one array for one collection of boxes |
| `Detection.DecidesAllExactlyWhen` | analysis/build_application_prediction_trace.py:256-324 | without any condition on the boxes greedy decides all requests if and only if the threshold is 0 or 1 |
| `PredictionJoin.ReadManifest` | analysis/build_application_prediction_trace.py:52-80 | accepts exactly the manifests with distinct iterations, requests and arrivals and dense arrivals |
| `PredictionJoin.ManifestExactly` | analysis/build_application_prediction_trace.py:52-80 | a manifest is accepted exactly when it has a line, its lines are intact with iterations from 0 on and request identifiers, no two share either, and each number below their count is some arrival; the arrivals are then a rearrangement of these numbers |
| `PredictionJoin.RequestsExactly` | analysis/build_application_prediction_trace.py:76-80 | the dictionary holds exactly the lines, each under its iteration |
| `PredictionJoin.ReadWallCsv` | analysis/build_application_prediction_trace.py:149-187 | accepts exactly the valid tables, keeps the measured rows, and every kept miss flag says whether the latency exceeds the deadline |
| `PredictionJoin.CsvExactly` | analysis/build_application_prediction_trace.py:149-187 | a table is accepted exactly when it has a row, its rows are intact with iterations and latencies from 0 on, flag exactly the latencies above the deadline, name their inputs when these are bound, and share no iteration |
| `PredictionJoin.MeasuredExactly` | analysis/build_application_prediction_trace.py:185-187 | the measured rows are exactly those from the first measured iteration on |
| `PredictionJoin.Build` | analysis/build_application_prediction_trace.py:371-441 | succeeds exactly when counts agree, every measured output joins and can be judged, and the arrivals are dense; returns the joined rows |
| `PredictionJoin.BuildTrace` | analysis/build_application_prediction_trace.py:326-441 | from the raw bytes, manifest lines and CSV rows: succeeds exactly when the readers and the join do; the rows then cover exactly the measured iterations of the CSV, each is sourced, no request occurs twice, and each arrival below their number occurs once |
| `PredictionJoin.BuildsExactly` | analysis/build_application_prediction_trace.py:371-441 | the script succeeds if and only if the manifest and the table are accepted, every measured output has a line and a row of its iteration that agree on the input, a prediction that can be judged and an arrival below the number of outputs, and every measured row has an output |
| `PredictionExample.BuildTheTrace` | analysis/build_application_prediction_trace.py:326-441 | on a tensor file given byte by byte, a manifest of two lines and a table of two rows the script returns one row, that of the measured request |
| `PredictionJoin.ArrivalsArePermutation` | analysis/build_application_prediction_trace.py:439-440 | each arrival below the number of rows is emitted by exactly one row |
| `PredictionJoin.RowIsSourced` | analysis/build_application_prediction_trace.py:382-438 | every emitted row has exactly one manifest line and exactly one CSV row of its iteration behind it, carries their data, and its flags are the deadline and correctness tests on them |
| `PredictionJoin.DenseExactlyWhen` | analysis/build_application_prediction_trace.py:439-440 | after a valid manifest the density test fails exactly when a measured arrival is past the number of rows |
| `AsrTrace.ParseAsr` | analysis/read_application_output_trace.py:46-103 | the cursor loop accepts exactly what parses, and returns the records sorted by iteration |
| `AsrTrace.AfterSound` | analysis/read_application_output_trace.py:59-84 | the cursor never passes the end, and behind it stand exactly the records read |
| `AsrTrace.ParseOfSerialized` | analysis/read_application_output_trace.py:46-88 | parsing a serialized trace returns its records |
| `AsrTrace.ValidExactly` | analysis/read_application_output_trace.py:48-74 | a trace may hold one to a million records of distinct 32-bit iterations, each of up to 128 tokens below 51865 |
| `PredictionExample.TokenFileParses` | analysis/read_application_output_trace.py:46-103 | 44 given bytes parse as two token records, in order of iteration |
| `AsrTrace.SerializeOfParsed` | analysis/read_application_output_trace.py:46-88 | serializing what was parsed, in file order, returns the same bytes |
| `AsrTrace.ParsesExactlySerialized` | analysis/read_application_output_trace.py:46-88 | the bytes that parse are exactly the serialized valid traces |
| `AsrTrace.ParsedRecordsSorted` | analysis/read_application_output_trace.py:88-88 | the returned records are the file's, ascending by iteration |
| `AsrTrace.TracesArePrefixFree` | analysis/read_application_output_trace.py:52-86 | no valid JDGASR1 trace is the beginning of another |
| `OutputTrace.Parse` | analysis/read_application_output_trace.py:106-168 | takes the container that the magic announces, accepts exactly what parses, and sorts its records; asked for float32 numbers, it accepts a tensor container only if every output is a whole number of finite ones |
| `OutputTrace.ParsedDistinct` | analysis/read_application_output_trace.py:133-156 | no two records of a parsed container share an iteration |
| `OutputTrace.FromSound` | analysis/read_application_output_trace.py:133-155 | the record loop reaches the end of the file exactly, and what it read stands in the file |
| `OutputTrace.ParseOfSerialized` | analysis/read_application_output_trace.py:110-155 | parsing a serialized trace returns its sizes and records |
| `OutputTrace.ValidExactly` | analysis/read_application_output_trace.py:116-155 | a trace may hold 1 to 64 outputs of 1 to 2^34 bytes and records of distinct 32-bit iterations with one value of each size |
| `OutputTrace.FiniteExactly` | analysis/read_application_output_trace.py:146-149 | a value is refused exactly when bits 23 to 30 of its little-endian word are all set |
| `PredictionExample.TensorFileParses` | analysis/read_application_output_trace.py:106-168 | 32 given bytes parse as two tensor records, in order of iteration |
| `OutputTrace.SerializeOfParsed` | analysis/read_application_output_trace.py:110-155 | serializing what was parsed, in file order, returns the same bytes |
| `OutputTrace.ParsesExactlySerialized` | analysis/read_application_output_trace.py:110-155 | the bytes that parse are exactly the serialized valid traces |
| `OutputTrace.PrefixAcceptedExactly` | analysis/read_application_output_trace.py:130-132 | a truncated trace is accepted exactly when it is cut at or after the header on a record boundary, and gives the records before the cut |
| `Utf8.DecodeOfEncoded` | analysis/decode_whisper_token_trace.py:84-84 | strict decoding inverts encoding (section 3 of RFC 3629) |
| `Utf8.OctetsInNumbers` | analysis/decode_whisper_token_trace.py:84-84 | the octets of a character carry its bits as the table in section 3 of RFC 3629 lays them out |
| `Utf8.EncodeOfDecoded` | analysis/decode_whisper_token_trace.py:84-84 | a byte string that decodes is the encoding of its text, so each text has one form |
| `Utf8.DecodeConcat` | analysis/decode_whisper_token_trace.py:84-87 | texts of valid byte strings join as the byte strings do |
| `Utf8.CutsBetweenCharacters` | analysis/decode_whisper_token_trace.py:84-84 | of a valid byte string cut in two, each part is valid if and only if the second does not begin with a continuation octet |
| `TokenText.ByteEncoder` | analysis/decode_whisper_token_trace.py:31-43 | the loops pair every byte, once, with its symbol |
| `TokenText.SymbolsDistinct` | analysis/decode_whisper_token_trace.py:31-43 | the byte alphabet is a bijection |
| `TokenText.SymbolExactly` | analysis/decode_whisper_token_trace.py:31-43 | the symbol of each byte in numbers: itself, or the next code point from U+0100 on in order of the bytes |
| `TokenText.BytesOfSpelled` | analysis/decode_whisper_token_trace.py:74-84 | reading symbols back inverts spelling bytes |
| `TokenText.DecodeTokens` | analysis/decode_whisper_token_trace.py:73-87 | the loop returns the stripped text of the tokens, or the error of the first token that raises |
| `TokenText.BracketsDropped` | analysis/decode_whisper_token_trace.py:81-82 | a token of `<|`, any symbols and `|>`, and the token `<|>`, add nothing |
| `TokenText.PieceInSymbols` | analysis/decode_whisper_token_trace.py:77-86 | every other token adds a text exactly when it spells the UTF-8 bytes of that text, and raises when it spells none |
| `TokenText.TextOfOne` | analysis/decode_whisper_token_trace.py:76-86 | one token alone decodes to what it adds |
| `TokenText.TextIsByteLevel` | analysis/decode_whisper_token_trace.py:76-87 | the UTF-8 bytes of the text are the ByteLevel bytes of the tokens that are not special |
| `TokenText.TextConcat` | analysis/decode_whisper_token_trace.py:76-87 | decoding distributes over concatenation of token lists, errors included |
| `TokenText.SpelledTexts` | analysis/decode_whisper_token_trace.py:76-87 | texts spelled in the alphabet decode to their concatenation when none has the special shape |
| `TokenText.RoundTripExactly` | analysis/decode_whisper_token_trace.py:81-84 | a spelled text decodes back to itself exactly when it does not have the special shape |
| `TokenText.DecodesExactlyWhen` | analysis/decode_whisper_token_trace.py:73-86 | a token list decodes if and only if every token is known and special or in the alphabet, the joined bytes are valid, and no token begins inside a character |
| `TokenText.CutCharacterRaises` | analysis/decode_whisper_token_trace.py:83-86 | any character of several octets, cut anywhere between any two texts, makes both tokens raise although their bytes join to valid UTF-8 |
| `TokenText.StripTrims` | analysis/decode_whisper_token_trace.py:87-87 | stripping removes white space from the two ends only, and all of it |

## Left out

- Files, paths, symlinks, JSON, CSV and SHA-256: logs, records, hashes and inode pairs are values given to the model, already decoded.
- Floating-point rounding and `math.isclose`: arithmetic is over the reals, and stored values are compared with replayed ones exactly; only the comparison of the pipeline p99 keeps its tolerances.
- Fields compared one by one with constants (sensor names, engines, affinities, configurations, schemas, aggregate contents) are one `conforms` or `intact` flag of their record.
- `aggregate_samples` of the runtime is not part of this model: its verdicts on an interval and on one sample are function values of the `Context`.
- Failure reasons of the guard replay are an enumeration instead of strings; those of the deadline replay are strings of which only emptiness matters.
- The greedy detection loop is taken to visit its set of unmatched indices in ascending order, as the set of small integers does.
- Python's equality of `True` with 1 and of integers with floats in marker metadata.
- The two case lists of a guard profile, each matched with its own protocol list, are modelled as their concatenation.
- `validate_artifacts`, `_validate_profile_provenance` and the other contract checks before the telemetry is loaded.
- The dwell window of `TelemetryReplay.thermal_start` and the final coverage tests of the pilot after its confirmation, which repeat the window tests.
- Wire details of the deadline calibration other than its marker chain: trace files, latency summaries and readiness affinity.
- The values of float32 tensors, the argmax, OpenCV rectangle grouping, and the class and transcript maps: the join takes each output's prediction and a correctness test, which may raise, as given.
- PairAnswer: gives the exact condition on one request only for requests of two boxes; which thresholds are exact is stated for requests of any size.
- SHA-256 digests in parsed traces; the parsed bytes themselves are returned.
- Python's set of white-space characters is a parameter of the token decoder.
- `PercentileByWeights`: the model takes a quantile between 0 and 1, because the callers of the pipeline `percentile` all pass 0.99.
- Figures, tables, summaries, frontier checkers and the scheduler comparisons, which hold only field-by-field checks.
