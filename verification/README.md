# Verification of the latency histogram, its recorder, its log and the record codec

This project models, in Dafny, the parts of the benchmark that its measurements and
its stored records rest on: the HdrHistogram C library that keeps all latency
statistics, and the codec that turns a list of key-value pairs into a stored value.

- `Bits`, `Buckets`: the shift, mask and leading-zero arithmetic between a value and
  its slot, and the calculation of a bucket configuration. u stands for
  `unit_magnitude`, m for `sub_bucket_half_count_magnitude`.
- `HistogramModel`: a histogram as a value, recording as a function on it, and a log
  of records as the reference every other statement is made against.
- `Histograms`: `struct hdr_histogram` and `struct hdr_iter` as objects updated in
  place. Their methods are proved against functions on histogram values; the
  properties of those functions are in `OrderStatistics`, `BatchPercentiles`,
  `Counters`, `Merging`, `MergedExtremes` and `Levels`.
- `AtomicRecording`, `Phaser`, `IntervalRecorder`: the three concurrent protocols as
  step relations. Every atomic operation is one step, a run is any interleaving of
  any number of threads, and the recorder is the composition of the other two.
  `PhaserObject` is the phaser as an object whose every state is reached by a run;
  `IntervalSampling` is `hdr_interval_recorder_sample` on top of the recorder, and
  `UpdateJobs` says what the recorder's update makes of its caller's records.
- `ZigZag`, `Payload`, `Base64`, `LogLines`, `LogReader`: the encoded counts, their
  base64 text, and the lines of a histogram log with the state machine reading them.
- `RecordCodec`: the key-value codec. `Basics`: bytes, options, result codes.

`dafny verify dfyconfig.toml` checks the whole project.

Points where the code and its documentation, or a natural expectation, part:

- `hdr_record_values` accepts values above `highest_trackable_value`, up to the end
  of the last bucket (`Buckets.RecordableRange` gives the exact limit,
  `HistogramModel.AcceptsAboveHighest` an input).
- Recomputed counters differ from the kept ones in two families of histograms, both
  characterised exactly (`Counters.MaxAgreesIff`, `Counters.MinAgreesIff`).
- `hdr_value_at_percentiles` against separate queries: for a given total, a non-zero
  request agrees on every histogram if and only if no earlier request of the call asks
  for a larger rank (`BatchPercentiles.AgreesIffLargestRank`, and an input that fails
  in `BatchPercentiles.OutOfOrderDiffers`). Percentile 0, which the batch answers with
  the top of a slot and the separate query with the bottom, agrees if and only if in
  addition every slot is one value wide (`BatchPercentiles.ZeroAgreesEverywhereIff`,
  `BatchPercentiles.ZeroPercentileDiffers`). On an empty histogram the two agree only
  for non-zero percentiles and a unit of 2 (`BatchPercentiles.EmptyBatchDiffers`).
- `hdr_add` keeps the extremes of the lowest values of the source's slots, so that
  `hdr_max` and `hdr_min` of a merge differ from those of a joint recording in two
  families (`MergedExtremes.MergedMaxIff`, `MergedExtremes.MergedMinIff`).
- `hdr_interval_recorder_sample` is safe with one sampler and not with two
  (`IntervalSampling.OneSamplerStable`, `IntervalSampling.CompletedRecordIsLost`).
- The base64 decoder accepts characters outside the alphabet and reads them as `W`
  (`Base64.EncodedDecodedIff`, `Base64.ForeignReadsAsW`).
- A tag as long as the reader's buffer comes back without a terminator
  (`LogLines.TagReadsBackIff`, `LogLines.UnterminatedTag`).
- The phaser's counting works up to exactly 2^63 - 1 entries a phase
  (`Phaser.EnterPhase`, `Phaser.BeyondLimitMisfiles`).

## Model

| member | source | states |
|---|---|---|
| `Phaser.StepKeepsInv` | `third-party/HdrHistogram_c/src/hdr_writer_reader_phaser.c:71-142` | every atomic step of any writer or reader keeps: `start_epoch` minus the current phase's end epoch is the number of writers inside in that phase, and outside a flip the other phase has none |
| `Phaser.RunKeepsInv` | `third-party/HdrHistogram_c/src/hdr_writer_reader_phaser.c:36-142` | the invariant holds at every point of every interleaving with at most 2^63 - 1 entries a phase |
| `Phaser.EnterPhase` | `third-party/HdrHistogram_c/src/hdr_writer_reader_phaser.c:71-74` | an entry gets a value of the phase it enters if and only if the phase has taken fewer than 2^63 - 1 entries |
| `Phaser.ClearLosesNoExit` | `third-party/HdrHistogram_c/src/hdr_writer_reader_phaser.c:106-117` | when the next phase's end epoch is cleared no writer of that phase is inside, so no pending exit is lost |
| `Phaser.CaughtUpIffDrained` | `third-party/HdrHistogram_c/src/hdr_writer_reader_phaser.c:122-141` | the spin's test succeeds if and only if the old phase has no writer inside |
| `Phaser.OldPhaseShrinks` | `third-party/HdrHistogram_c/src/hdr_writer_reader_phaser.c:119-141` | while a flip spins, no step of anyone adds a writer to the old phase, and the flip leaves the loop only when it is empty |
| `Phaser.FlipWaitsForEarlierWriters` | `third-party/HdrHistogram_c/src/hdr_writer_reader_phaser.c:94-142` | in every interleaving, as long as one writer that entered before the exchange has not exited, the flip is still spinning |
| `Phaser.FlipEndsOnceDrained` | `third-party/HdrHistogram_c/src/hdr_writer_reader_phaser.c:122-141` | progress: once the finitely many writers of the old phase have exited, the next test ends the flip, whatever else happened |
| `Phaser.LimitIsReachable` | `third-party/HdrHistogram_c/src/hdr_writer_reader_phaser.c:71-74` | the bound on entries is reached by legal runs |
| `Phaser.BeyondLimitMisfiles` | `third-party/HdrHistogram_c/src/hdr_writer_reader_phaser.c:71-82` | one entry beyond the bound breaks the invariant: its exit increments the other phase's end epoch and not its own |
| `PhaserObject.WriterReaderPhaser.constructor` | `third-party/HdrHistogram_c/src/hdr_writer_reader_phaser.c:36-63` | a new phaser is the machine's initial state |
| `PhaserObject.WriterReaderPhaser.WriterEnter` | `third-party/HdrHistogram_c/src/hdr_writer_reader_phaser.c:71-74` | the in-place increment is the machine's enter step and extends the recorded run |
| `PhaserObject.WriterReaderPhaser.WriterExit` | `third-party/HdrHistogram_c/src/hdr_writer_reader_phaser.c:76-82` | the sign of the kept value selects the end epoch to increment: the machine's exit step |
| `PhaserObject.WriterReaderPhaser.ReaderLock` | `third-party/HdrHistogram_c/src/hdr_writer_reader_phaser.c:84-87` | taking the free mutex: the machine's acquire step |
| `PhaserObject.WriterReaderPhaser.ReaderUnlock` | `third-party/HdrHistogram_c/src/hdr_writer_reader_phaser.c:89-92` | giving it back: the machine's release step |
| `PhaserObject.WriterReaderPhaser.LoadStart` | `third-party/HdrHistogram_c/src/hdr_writer_reader_phaser.c:102-104` | the sign of the start epoch gives the next phase: the machine's load step |
| `PhaserObject.WriterReaderPhaser.ClearEnd` | `third-party/HdrHistogram_c/src/hdr_writer_reader_phaser.c:106-117` | the end epoch of the next phase, and no other field, gets the next phase's start value: the machine's clear step |
| `PhaserObject.WriterReaderPhaser.ExchangeStart` | `third-party/HdrHistogram_c/src/hdr_writer_reader_phaser.c:119-120` | the exchange of the start epoch, returning its old value: the machine's exchange step |
| `PhaserObject.WriterReaderPhaser.TestEnd` | `third-party/HdrHistogram_c/src/hdr_writer_reader_phaser.c:122-127` | one test of the spin: the machine's spin step |
| `PhaserObject.WriterReaderPhaser.FlipPhase` | `third-party/HdrHistogram_c/src/hdr_writer_reader_phaser.c:94-142` | under any schedule of the writers between its atomic operations, when the flip returns the phase has changed and every value still held is of the new phase; while it has not, a value of the old phase is held |
| `AtomicRecording.StepKeepsInv` | `third-party/HdrHistogram_c/src/hdr_histogram.c:75-115` | every atomic step of every thread keeps the histogram in agreement with the records landed so far, up to what the threads in flight still owe |
| `AtomicRecording.RunKeepsInv` | `third-party/HdrHistogram_c/src/hdr_histogram.c:513-533` | the same, with the returned calls, at every point of every run of any number of threads |
| `AtomicRecording.CountsAheadOfTotal` | `third-party/HdrHistogram_c/src/hdr_histogram.c:75-82` | at every point of every run, sum(counts) minus `total_count` is the sum of the counts of the threads between their two adds |
| `AtomicRecording.QuietDescribes` | `third-party/HdrHistogram_c/src/hdr_histogram.c:75-115` | with no record outstanding, the histogram is the one its landed records describe |
| `AtomicRecording.QuiescentEqualsSequential` | `third-party/HdrHistogram_c/src/hdr_histogram.c:513-533` | with no call in progress, counts, total, min and max equal a sequential recording of the calls that returned true, in any order |
| `AtomicRecording.StepMonotone` | `third-party/HdrHistogram_c/src/hdr_histogram.c:90-115` | the minimum only falls and the maximum only rises |
| `AtomicRecording.BoundedSteps` | `third-party/HdrHistogram_c/src/hdr_histogram.c:90-115` | the compare-exchange loops end: a call takes at most a number of steps fixed by the state it starts in, whatever the others do |
| `AtomicRecording.CallTakesAtMost` | `third-party/HdrHistogram_c/src/hdr_histogram.c:75-115` | the bound in closed form: four steps, and two more for each value by which the minimum lies above or the maximum below the recorded value |
| `IntervalRecorder.StepKeepsInv` | `third-party/HdrHistogram_c/src/hdr_interval_recorder.c:50-101` | every step of any writer and any reader keeps the joint invariant of phaser, histograms, roles, samples and completed records |
| `IntervalRecorder.RunKeepsInv` | `third-party/HdrHistogram_c/src/hdr_interval_recorder.c:50-101` | the joint invariant holds at every point of every run |
| `IntervalRecorder.Conservation` | `third-party/HdrHistogram_c/src/hdr_interval_recorder.c:50-101` | in every run the returned samples, the histogram being swapped out and the active one hold exactly the records of completed calls and of calls still in progress |
| `IntervalRecorder.ConservationAtRest` | `third-party/HdrHistogram_c/src/hdr_interval_recorder.c:188-201` | with no writer inside and no flip under way, samples plus the active histogram hold exactly the multiset of completed records |
| `UpdateJobs.UpdateMakesItsJob` | `third-party/HdrHistogram_c/src/hdr_interval_recorder.c:89-101` | from a writer's enter to the point where it can leave, in every run, its completed records grow by exactly its update action up to the first refused record |
| `UpdateJobs.StepKeepsMade` | `third-party/HdrHistogram_c/src/hdr_interval_recorder.c:89-101` | no step between them changes what the writer will have made: a call that returns true moves its record from the rest of the action to the completed ones |
| `UpdateJobs.OneConfiguration` | `third-party/HdrHistogram_c/src/hdr_interval_recorder.c:54-62` | every histogram a recorder makes has the configuration it was set up with, and a returned call says whether its value was accepted |
| `UpdateJobs.CorrectedJobIsWhole` | `third-party/HdrHistogram_c/src/hdr_interval_recorder.c:147-152` | the records of a corrected value are made all or none |
| `IntervalRecorder.SwappedOutQuiet` | `third-party/HdrHistogram_c/src/hdr_interval_recorder.c:68-80` | after the flip nobody writes the swapped-out histogram, and it is the histogram its records build |
| `IntervalRecorder.SamplesConsistent` | `third-party/HdrHistogram_c/src/hdr_interval_recorder.c:50-81` | every returned histogram is a sequential recording of its records in any order |
| `IntervalRecorder.StepLeavesReturnedAlone` | `third-party/HdrHistogram_c/src/hdr_interval_recorder.c:50-101` | no step but its holder handing it back changes a returned histogram, and no writer is on it |
| `IntervalRecorder.StableSample` | `third-party/HdrHistogram_c/src/hdr_interval_recorder.c:50-101` | over any run in which its holder does not hand it back, a returned histogram keeps its contents and has no writer in flight |
| `IntervalRecorder.SampleReturnsOnceDrained` | `third-party/HdrHistogram_c/src/hdr_interval_recorder.c:68-80` | progress: once every writer a spinning sample_and_recycle waits for has left, whatever else happened, its next test ends the flip and it can return what it swapped out |
| `IntervalRecorder.RefinesPhaser` | `third-party/HdrHistogram_c/src/hdr_interval_recorder.c:68-101` | every run of the recorder is a run of the phaser |
| `IntervalSampling.OneSamplerOwnsItsRecycle` | `third-party/HdrHistogram_c/src/hdr_interval_recorder.c:83-87` | with one sampler, in every run, what `hdr_interval_recorder_sample` recycles is the sampler's own |
| `IntervalSampling.OneSamplerStable` | `third-party/HdrHistogram_c/src/hdr_interval_recorder.c:83-87` | with one sampler a returned histogram keeps its contents and has no writer until the next call |
| `IntervalSampling.TwoSamplersCollide` | `third-party/HdrHistogram_c/src/hdr_interval_recorder.c:83-87` | with two samplers, from any state at rest, both can read the same inactive histogram; after the first has made it active the second is about to reset it |
| `IntervalSampling.CollisionIsReachable` | `third-party/HdrHistogram_c/src/hdr_interval_recorder.c:83-87` | for every configuration such a run starts from a fresh recorder |
| `IntervalSampling.ResetOfActiveLoses` | `third-party/HdrHistogram_c/src/hdr_interval_recorder.c:63-66` | a reset of the active histogram takes exactly its records out of what is kept |
| `IntervalSampling.CompletedRecordIsLost` | `third-party/HdrHistogram_c/src/hdr_interval_recorder.c:63-87` | with two samplers: a run from a fresh recorder in which a call has returned true and its writer has left, and the second sampler's reset leaves what is kept short of the completed records by exactly what the active histogram holds, that record included |
| `Buckets.BucketIndexBounds` | `third-party/HdrHistogram_c/src/hdr_histogram.c:168-172` | bucket b > 0 holds exactly the values of bit length u + m + 1 + b |
| `Buckets.BucketIndexUnique` | `third-party/HdrHistogram_c/src/hdr_histogram.c:168-172` | and a value lies in no other bucket |
| `Buckets.SubBucketBounds` | `third-party/HdrHistogram_c/src/hdr_histogram.c:174-177` | the sub-bucket index is below `sub_bucket_count`, so the adjustment at lines 221 and 230 never fires, and in the upper half in every bucket but the first |
| `Buckets.IndexOfValueAtIndex` | `third-party/HdrHistogram_c/src/hdr_histogram.c:195-215` | `counts_index_for(hdr_value_at_index(i)) == i` for every i |
| `Buckets.ValueAtIndexOfValue` | `third-party/HdrHistogram_c/src/hdr_histogram.c:195-239` | `hdr_value_at_index(counts_index_for(v))` is the lowest value equivalent to v |
| `Buckets.SlotsMeet` | `third-party/HdrHistogram_c/src/hdr_histogram.c:203-252` | the next slot begins exactly where a slot ends |
| `Buckets.InOwnRange` | `third-party/HdrHistogram_c/src/hdr_histogram.c:217-257` | a value lies between its lowest and its next non-equivalent value, which are its slot's width apart |
| `Buckets.NextOfLowest` | `third-party/HdrHistogram_c/src/hdr_histogram.c:234-252` | all values of a slot have the same next non-equivalent value |
| `Buckets.ValueAtIndexStrict` | `third-party/HdrHistogram_c/src/hdr_histogram.c:203-215` | slot values rise strictly, by at least the slot's width |
| `Buckets.SlotTiling` | `third-party/HdrHistogram_c/src/hdr_histogram.c:168-257` | v has slot i if and only if it lies between the first values of slots i and i + 1: the slots tile the naturals |
| `Buckets.CountsIndexMonotone` | `third-party/HdrHistogram_c/src/hdr_histogram.c:195-201` | `counts_index_for` is monotone |
| `Buckets.EquivalentIffSameSlot` | `third-party/HdrHistogram_c/src/hdr_histogram.c:774-782` | two values have the same slot if and only if they have the same lowest equivalent value, and then the same highest |
| `Buckets.EquivalentRange` | `third-party/HdrHistogram_c/src/hdr_histogram.c:234-257` | the values with v's slot are exactly those from its lowest to its highest equivalent |
| `Buckets.RecordableRange` | `third-party/HdrHistogram_c/src/hdr_histogram.c:195-201` | a value's slot is inside `counts` if and only if the value is below 2^(u + m + bucket_count) |
| `Buckets.BucketsNeededToCoverValue` | `third-party/HdrHistogram_c/src/hdr_histogram.c:318-341` | the loop returns the least number of buckets that cover the value, without overflow |
| `Buckets.CalculateBucketConfig` | `third-party/HdrHistogram_c/src/hdr_histogram.c:343-387` | parameters are accepted if and only if they are acceptable, with the 64-bit wrap of `lowest * 2` written out, and the accepted configuration is the one they determine |
| `Buckets.AcceptableMeans` | `third-party/HdrHistogram_c/src/hdr_histogram.c:361-381` | the condition on the magnitudes: the range of single-unit resolution, in units, stays within 2^62 |
| `Buckets.DoublingOverflow` | `third-party/HdrHistogram_c/src/hdr_histogram.c:355-378` | where `lowest * 2` overflows the unit magnitude is refused anyway |
| `Buckets.RangeCovered` | `third-party/HdrHistogram_c/src/hdr_histogram.c:343-387` | every value from 0 to the highest trackable one is recordable; one bucket fewer would leave the highest out |
| `Buckets.Precision` | `third-party/HdrHistogram_c/src/hdr_histogram.c:217-232` | a slot is one unit wide in bucket 0; above it width * 10^significant_figures never exceeds a value of the slot |
| `HistogramModel.RecordsCommute` | `third-party/HdrHistogram_c/src/hdr_histogram.c:491-511` | two records in either order give the same histogram |
| `HistogramModel.RecordDescribes` | `third-party/HdrHistogram_c/src/hdr_histogram.c:491-511` | one record keeps every field in agreement with the extended log |
| `HistogramModel.ReplayPermutation` | `third-party/HdrHistogram_c/src/hdr_histogram.c:491-511` | a histogram depends on which records were made, not on their order |
| `HistogramModel.ReplayDescribes` | `third-party/HdrHistogram_c/src/hdr_histogram.c:491-511` | after any run of records each slot, the total, the minimum and the maximum are those of the log |
| `HistogramModel.DescribesUnique` | `third-party/HdrHistogram_c/src/hdr_histogram.c:67-88` | a log determines the histogram |
| `HistogramModel.ReplaySum` | `third-party/HdrHistogram_c/src/hdr_histogram.c:67-73` | the slots add up to `total_count` |
| `HistogramModel.AcceptsAboveHighest` | `third-party/HdrHistogram_c/src/hdr_histogram.c:491-511` | a concrete value above `highest_trackable_value` that is accepted |
| `Histograms.Histogram.constructor` | `third-party/HdrHistogram_c/src/hdr_histogram.c:389-406` | a new histogram is empty |
| `Histograms.Histogram.Reset` | `third-party/HdrHistogram_c/src/hdr_histogram.c:459-465` | a reset histogram is an empty one of its configuration |
| `Histograms.Histogram.RecordValues` | `third-party/HdrHistogram_c/src/hdr_histogram.c:491-511` | in place: true if and only if the value is accepted; the new state is the record applied to the old one, unchanged on refusal |
| `OrderStatistics.SlotOfRank` | `third-party/HdrHistogram_c/src/hdr_histogram.c:669-685` | the slot where the running count first reaches k is the slot of the k-th smallest recorded value |
| `OrderStatistics.CountBounds` | `third-party/HdrHistogram_c/src/hdr_histogram.c:690-692` | the count looked for lies between 1 and the total and grows with the percentile |
| `OrderStatistics.PrefixIsRank` | `third-party/HdrHistogram_c/src/hdr_histogram.c:669-685` | the counts of the first slots add up to how many recorded values lie in them |
| `OrderStatistics.RankIs` | `third-party/HdrHistogram_c/src/hdr_histogram.c:687-692` | the count looked for is the one integer nearest to p/100 * total, halves up, that is at least 1 |
| `OrderStatistics.PercentileIsOrderStatistic` | `third-party/HdrHistogram_c/src/hdr_histogram.c:687-698` | a percentile is the highest (for 0: lowest) equivalent of the k-th smallest recorded value, k that nearest rank |
| `OrderStatistics.PercentileMonotone` | `third-party/HdrHistogram_c/src/hdr_histogram.c:687-698` | a higher percentile never has a lower value |
| `OrderStatistics.EmptyPercentile` | `third-party/HdrHistogram_c/src/hdr_histogram.c:669-698` | with nothing recorded every query answers from slot 0 |
| `Histograms.Histogram.GetValueFromIdxUpToCount` | `third-party/HdrHistogram_c/src/hdr_histogram.c:669-685` | the scan returns the value of the first slot that reaches the count, 0 if none does |
| `Histograms.Histogram.ValueAtPercentile` | `third-party/HdrHistogram_c/src/hdr_histogram.c:687-698` | the query method computes the percentile function the order-statistic lemmas are about |
| `BatchPercentiles.AgreesIffLargestRank` | `third-party/HdrHistogram_c/src/hdr_histogram.c:700-732` | a non-zero request is answered as a separate query on every histogram of a given total if and only if no earlier request asks for a larger rank |
| `BatchPercentiles.AgreesIffEquivalent` | `third-party/HdrHistogram_c/src/hdr_histogram.c:700-732` | on one histogram: if and only if the value of the largest rank asked for so far is equivalent to the value of its own rank |
| `BatchPercentiles.OutOfOrderDiffers` | `third-party/HdrHistogram_c/src/hdr_histogram.c:700-732` | two values in different slots asked for 100 and then 50: the second entry is wrong |
| `BatchPercentiles.ZeroAgreesIff` | `third-party/HdrHistogram_c/src/hdr_histogram.c:700-732` | percentile 0 agrees if and only if the smallest value has a slot to itself and is also the value of the largest rank asked for so far |
| `BatchPercentiles.ZeroAgreesEverywhereIff` | `third-party/HdrHistogram_c/src/hdr_histogram.c:700-732` | percentile 0 agrees on every histogram of a given total if and only if no earlier rank is larger, the unit is 1 and there is one bucket |
| `BatchPercentiles.ZeroPercentileDiffers` | `third-party/HdrHistogram_c/src/hdr_histogram.c:700-732` | one record of 0 under a larger unit: the batch answers percentile 0 with the top of slot 0, the separate query with 0 |
| `BatchPercentiles.MaxCountIs` | `third-party/HdrHistogram_c/src/hdr_histogram.c:707-716` | the count in force at an entry is the largest nearest rank among the requests up to it |
| `BatchPercentiles.BatchIsOrderStatistic` | `third-party/HdrHistogram_c/src/hdr_histogram.c:700-732` | for requests in any order, entry i is the highest equivalent of the k-th smallest recorded value, k the largest nearest rank up to i |
| `BatchPercentiles.AscendingBatchIsSeparateQueries` | `third-party/HdrHistogram_c/src/hdr_histogram.c:700-732` | for a non-empty histogram and ascending non-zero percentiles the batch equals the separate queries |
| `BatchPercentiles.EmptyBatchDiffers` | `third-party/HdrHistogram_c/src/hdr_histogram.c:700-732` | on an empty histogram every entry is 1; it agrees with the separate query if and only if the percentile is not 0 and the unit is 2 |
| `Histograms.ValueAtPercentiles` | `third-party/HdrHistogram_c/src/hdr_histogram.c:700-732` | the in-place two-use array ends, entry by entry, at the batch values; entries beyond the length are untouched; null arguments give EINVAL |
| `Counters.TotalAgrees` | `third-party/HdrHistogram_c/src/hdr_histogram.c:274-316` | the recomputed total is the kept one |
| `Counters.SlotNatural` | `third-party/HdrHistogram_c/src/hdr_histogram.c:67-73` | a slot's count is never negative, and 0 when no value of the slot was recorded |
| `Counters.LastIsMaxSlot` | `third-party/HdrHistogram_c/src/hdr_histogram.c:283-301` | the highest occupied slot is the slot of the largest recorded value |
| `Counters.FirstIsMinSlot` | `third-party/HdrHistogram_c/src/hdr_histogram.c:283-301` | with slot 0 empty, the lowest occupied slot is the slot of the smallest recorded value |
| `Counters.MaxAgreesIff` | `third-party/HdrHistogram_c/src/hdr_histogram.c:649-657` | `hdr_max` after recomputation agrees if and only if not (only zeros were recorded and a unit is larger than 1) |
| `Counters.MinAgreesIff` | `third-party/HdrHistogram_c/src/hdr_histogram.c:659-667` | `hdr_min` after recomputation agrees if and only if not (only INT64_MAX was recorded) |
| `Counters.MaxIs` | `third-party/HdrHistogram_c/src/hdr_histogram.c:649-657` | `hdr_max` is the top of the slot of the largest recorded value, 0 for a largest value of 0 or for nothing |
| `Counters.MinIs` | `third-party/HdrHistogram_c/src/hdr_histogram.c:659-667` | `hdr_min` is the bottom of the slot of the smallest recorded value, INT64_MAX for INT64_MAX itself |
| `Counters.RecomputedMaxIs` | `third-party/HdrHistogram_c/src/hdr_histogram.c:295-303` | the recomputed maximum is the top of the slot of the largest recorded value |
| `Counters.RecomputedMinIs` | `third-party/HdrHistogram_c/src/hdr_histogram.c:305-312` | the recomputed minimum is the bottom of the slot of the smallest value recorded outside slot 0 |
| `Counters.ZerosDisagree` | `third-party/HdrHistogram_c/src/hdr_histogram.c:274-316` | the disagreement on the maximum, on a concrete record |
| `Counters.LargestDisagrees` | `third-party/HdrHistogram_c/src/hdr_histogram.c:264-316` | the disagreement on the minimum, on a concrete record |
| `Histograms.Histogram.ResetInternalCounters` | `third-party/HdrHistogram_c/src/hdr_histogram.c:274-316` | the loop recomputes total, minimum and maximum from the counts alone |
| `Merging.CorrectedShape` | `third-party/HdrHistogram_c/src/hdr_histogram.c:545-569` | for e > 0 and value > e: floor(value / e) records of equal count at value, value - e, ..., the last >= e |
| `Merging.BackfillAccepted` | `third-party/HdrHistogram_c/src/hdr_histogram.c:545-569` | once the value itself is accepted no backfill can be refused |
| `Merging.CorrectedTotal` | `third-party/HdrHistogram_c/src/hdr_histogram.c:545-569` | corrected recording adds exactly count * floor(value / e), or count where nothing is corrected |
| `Merging.CorrectedOnce` | `third-party/HdrHistogram_c/src/hdr_histogram.c:545-557` | at or below the expected interval, or without one, it is one plain record |
| `Merging.BatchConservation` | `third-party/HdrHistogram_c/src/hdr_histogram.c:545-615` | what a batch of records adds and what it drops make up the batch |
| `Histograms.Histogram.RecordCorrectedValues` | `third-party/HdrHistogram_c/src/hdr_histogram.c:545-569` | the loop records exactly that batch, one plain record where nothing is corrected, and returns true if and only if the value is accepted |
| `Merging.MergeConservation` | `third-party/HdrHistogram_c/src/hdr_histogram.c:597-615` | new total + dropped = old total + source total, for any two configurations |
| `Merging.MergeSameConfig` | `third-party/HdrHistogram_c/src/hdr_histogram.c:597-615` | with equal configurations nothing is dropped and counts add slot by slot |
| `Merging.MergeAnswersJointQueries` | `third-party/HdrHistogram_c/src/hdr_histogram.c:597-615` | a merge of two recorded histograms answers every percentile as one histogram holding all their records |
| `Merging.MergeIsJoint` | `third-party/HdrHistogram_c/src/hdr_histogram.c:597-615` | the counts and the total of the merge are those of the joint recording |
| `MergedExtremes.MergedMaxIff` | `third-party/HdrHistogram_c/src/hdr_histogram.c:649-657` | `hdr_max` of the merge is that of the joint recording if and only if not (the target holds at most zeros and the source only values below one unit, one of them not 0) |
| `MergedExtremes.MergedMinIff` | `third-party/HdrHistogram_c/src/hdr_histogram.c:659-667` | `hdr_min` of the merge is that of the joint recording if and only if not (the source holds something and both hold only INT64_MAX) |
| `MergedExtremes.MergedOneDiffers` | `third-party/HdrHistogram_c/src/hdr_histogram.c:597-615` | the disagreement on the maximum, on a concrete record |
| `MergedExtremes.MergedLargestDiffers` | `third-party/HdrHistogram_c/src/hdr_histogram.c:597-615` | the disagreement on the minimum, on a concrete record |
| `Histograms.Add` | `third-party/HdrHistogram_c/src/hdr_histogram.c:597-615` | the loop records each non-zero slot of the source exactly once and counts what is refused, also when a histogram is added to itself |
| `Histograms.Iter.constructor` | `third-party/HdrHistogram_c/src/hdr_histogram.c:885-899` | the iterator starts before the first slot with nothing counted |
| `Histograms.Iter.HasNext` | `third-party/HdrHistogram_c/src/hdr_histogram.c:809-812` | true if and only if the slots not yet passed hold something |
| `Histograms.Iter.MoveNext` | `third-party/HdrHistogram_c/src/hdr_histogram.c:814-837` | one slot on: count, running count and the slot's bounds |
| `Histograms.Iter.RecordedNext` | `third-party/HdrHistogram_c/src/hdr_histogram.c:1010-1024` | stops at the next non-zero slot and skips only empty ones; false means every later slot is empty |
| `Histograms.Iter.StartLevels` | `third-party/HdrHistogram_c/src/hdr_histogram.c:1081-1149` | the reporting level and the start of its slot |
| `Levels.NextLevelIs` | `third-party/HdrHistogram_c/src/hdr_histogram.c:1058-1112` | moving on n times from the first level gives first + n * step, or first * base^n |
| `Histograms.Iter.LevelNext` | `third-party/HdrHistogram_c/src/hdr_histogram.c:1044-1134` | a step is made if and only if something is left to count or the level lies in the slot just reported; it ends in the level's slot or off the end, counts exactly the slots it passed, moves the level on and lowers the measure |
| `Histograms.CollectLevels` | `third-party/HdrHistogram_c/src/hdr_histogram.c:1044-1149` | the iteration ends for every positive step and every base >= 2; its n-th report is at the n-th level and has counted exactly the slots up to that level's; it stops at the first level at which no step is due; its counts add up to `total_count` |
| `ZigZag.Fold` | `third-party/HdrHistogram_c/src/hdr_encoding.c:17-19` | shift and exclusive or on 64-bit words is 2v, or -2v - 1 for negative v |
| `ZigZag.Unfold` | `third-party/HdrHistogram_c/src/hdr_encoding.c:156-160` | its inverse, read back as a signed word |
| `ZigZag.UnpackPack` | `third-party/HdrHistogram_c/src/hdr_encoding.c:20-150` | unpacking inverts packing at every level of the nested ifs, with any bytes behind |
| `ZigZag.PackUnpack` | `third-party/HdrHistogram_c/src/hdr_encoding.c:20-150` | packing inverts unpacking at every level if and only if there is no redundant last zero byte |
| `ZigZag.DecodeEncode` | `third-party/HdrHistogram_c/src/hdr_encoding.c:14-163` | for every int64 decode inverts encode, in value and length, with any bytes before and behind |
| `ZigZag.EncodeDecode` | `third-party/HdrHistogram_c/src/hdr_encoding.c:14-163` | the bytes read are the encoding of the value read if and only if they do not end in a redundant zero byte |
| `ZigZag.PackedByte` | `third-party/HdrHistogram_c/src/hdr_encoding.c:20-91` | the i-th byte is the i-th group of seven bits, high bit set while more follow; the ninth is the last eight bits; no byte more than needed |
| `ZigZag.EncodedExamples` | `third-party/HdrHistogram_c/src/hdr_encoding.c:14-96` | some numbers and their bytes |
| `ZigZag.DecodeCut` | `third-party/HdrHistogram_c/src/hdr_encoding.c:98-163` | a number that is not negative, cut short and followed by a 0 byte, reads as not negative and takes one byte too many |
| `ZigZag.WriteI64` | `third-party/HdrHistogram_c/src/hdr_encoding.c:14-96` | the encoder writes those bytes into the buffer and nothing else |
| `Payload.AppliedEncoded` | `third-party/HdrHistogram_c/src/hdr_histogram_log.c:186-216` | reading the zero-run payload of any counts onto zeroed counts returns 0 and restores every count |
| `Payload.AppliedWritable` | `third-party/HdrHistogram_c/src/hdr_histogram_log.c:295-333` | no bytes, however corrupt, put a negative count into the histogram |
| `Payload.RunIsOneNumber` | `third-party/HdrHistogram_c/src/hdr_histogram_log.c:200-211` | a run of zeros takes one number, its negated length |
| `Payload.CountIsOneNumber` | `third-party/HdrHistogram_c/src/hdr_histogram_log.c:212-215` | any other count takes one number, itself |
| `Payload.OversizedPayload` | `third-party/HdrHistogram_c/src/hdr_histogram_log.c:301-330` | a payload of more slots than the histogram has is refused as too long, or for a run of zeros that goes beyond the end |
| `Payload.TruncatedPayload` | `third-party/HdrHistogram_c/src/hdr_histogram_log.c:323-326` | a payload cut short inside its last number is refused as truncated |
| `Payload.CountsLimitIs` | `third-party/HdrHistogram_c/src/hdr_histogram_log.c:186-187` | the slots written are those up to the maximum's, all if it has none |
| `Payload.DecodedEncoded` | `third-party/HdrHistogram_c/src/hdr_histogram_log.c:186-216` | an encoded histogram always decodes; its counts survive if and only if no slot above the maximum's holds anything |
| `Payload.NothingAboveMax` | `third-party/HdrHistogram_c/src/hdr_histogram_log.c:186-187` | a recorded histogram holds nothing above the slots the writer covers |
| `Payload.RecordedRoundTrip` | `third-party/HdrHistogram_c/src/hdr_histogram_log.c:608-638` | what recording built comes back with the same counts and total and the same answer to every percentile |
| `Payload.RecordedExtremes` | `third-party/HdrHistogram_c/src/hdr_histogram_log.c:608-638` | `hdr_max` and `hdr_min` of a decoded histogram are those of the recorded one except exactly where recomputation changes them |
| `Payload.CountsLenFits` | `third-party/HdrHistogram_c/src/hdr_histogram.c:381-384` | the length of the counts of every accepted configuration fits 32 bits |
| `Payload.Encoded` | `third-party/HdrHistogram_c/src/hdr_histogram_log.c:189-216` | the payload takes at most nine bytes a count |
| `Payload.WritePayload` | `third-party/HdrHistogram_c/src/hdr_histogram_log.c:195-218` | the loop fills the buffer with exactly the payload |
| `Payload.ApplyToCounts` | `third-party/HdrHistogram_c/src/hdr_histogram_log.c:295-333` | the loop computes the counts and the result code for every input |
| `Base64.SymbolReadsBack` | `third-party/HdrHistogram_c/src/hdr_encoding.c:165-208` | each of the 64 characters reads back as its index |
| `Base64.ReadsBackIff` | `third-party/HdrHistogram_c/src/hdr_encoding.c:180-208` | a character is read as what it stands for if and only if it is in the table |
| `Base64.DecodedEncoded` | `third-party/HdrHistogram_c/src/hdr_encoding.c:265-322` | decoding an encoding gives the input followed only by zero bytes up to a multiple of 3 |
| `Base64.PaddingIsAtTheEnd` | `third-party/HdrHistogram_c/src/hdr_encoding.c:220-250` | a character is padding if and only if it is one of the last (3 - n % 3) % 3 |
| `Base64.GroupsOfThree` | `third-party/HdrHistogram_c/src/hdr_encoding.c:252-263` | each four characters stand for three bytes, the first highest, missing ones 0 |
| `Base64.TestVectors` | `third-party/HdrHistogram_c/src/hdr_encoding.c:265-285` | test vectors of section 10 of RFC 4648 |
| `Base64.EncodedDecodedIff` | `third-party/HdrHistogram_c/src/hdr_encoding.c:287-322` | re-encoding what was decoded gives the text back if and only if every character is in the table: padding and foreign characters pass unnoticed |
| `Base64.ForeignReadsAsW` | `third-party/HdrHistogram_c/src/hdr_encoding.c:180-208` | a text with a foreign character that decodes as if the character were W |
| `Base64.Encode` | `third-party/HdrHistogram_c/src/hdr_encoding.c:265-285` | succeeds if and only if the output has the encoded length, and then writes the encoding |
| `Base64.Decode` | `third-party/HdrHistogram_c/src/hdr_encoding.c:304-322` | succeeds if and only if the lengths fit and the input is not empty, and then writes the decoding |
| `LogLines.DigitsAhead` | `third-party/HdrHistogram_c/src/hdr_histogram_log.c:1032-1060` | a run of digits is read digit by digit into the seconds or the fraction |
| `LogLines.MillisAhead` | `third-party/HdrHistogram_c/src/hdr_histogram_log.c:1024-1063` | a printed whole-millisecond time reads back to the same seconds and nanoseconds |
| `LogLines.DecimalReadsBack` | `third-party/HdrHistogram_c/src/hdr_histogram_log.c:1044-1055` | the digits printed for a number add up to it again |
| `LogLines.TagAhead` | `third-party/HdrHistogram_c/src/hdr_histogram_log.c:1125-1147` | the tag is stored and terminated if it fits, cut off if not, and the machine goes on behind its comma |
| `LogLines.CString` | `third-party/HdrHistogram_c/src/hdr_histogram_log.c:866-873` | what is printed of a tag buffer: its characters up to the terminator or the end |
| `LogLines.NumbersAhead` | `third-party/HdrHistogram_c/src/hdr_histogram_log.c:1148-1197` | the three numbers and the text of a line are read into the entry |
| `LogLines.TextAhead` | `third-party/HdrHistogram_c/src/hdr_histogram_log.c:1178-1197` | the text up to the line end is collected |
| `LogLines.ScanProgress` | `third-party/HdrHistogram_c/src/hdr_histogram_log.c:1088-1203` | a successful read consumes something |
| `LogLines.EofIff` | `third-party/HdrHistogram_c/src/hdr_histogram_log.c:1112-1119` | EOF is reported if and only if only line ends are left |
| `LogLines.LineEndsSkipped` | `third-party/HdrHistogram_c/src/hdr_histogram_log.c:1112-1115` | line ends before a line are skipped |
| `LogLines.ForeignStartRefused` | `third-party/HdrHistogram_c/src/hdr_histogram_log.c:1120-1123` | a line that begins with neither T nor a digit is refused |
| `LogLines.BrokenTagRefused` | `third-party/HdrHistogram_c/src/hdr_histogram_log.c:1096-1106` | T without ag= behind it is refused |
| `LogLines.UnfinishedTagRefused` | `third-party/HdrHistogram_c/src/hdr_histogram_log.c:1135-1138` | a tag that meets a line end or the end of the stream before its comma is refused |
| `LogLines.StampOkIff` | `third-party/HdrHistogram_c/src/hdr_histogram_log.c:1032-1062` | a number is read if and only if digits and points lead up to a comma |
| `LogLines.TextGoesToLineEnd` | `third-party/HdrHistogram_c/src/hdr_histogram_log.c:1178-1197` | the text goes up to the first line end of either kind, or to the end of the stream |
| `LogLines.ExampleLine` | `third-party/HdrHistogram_c/src/hdr_histogram_log.c:871-877` | a printed line, character by character |
| `LogLines.LineReadsBack` | `third-party/HdrHistogram_c/src/hdr_histogram_log.c:1088-1203` | a printed line anywhere in the stream reads back to its tag, times, maximum and text, consuming exactly that line |
| `LogLines.TagReadsBackIff` | `third-party/HdrHistogram_c/src/hdr_histogram_log.c:1125-1147` | in the entry the scan returns for a printed line, the tag stands as a terminated string if and only if it is shorter than the buffer |
| `LogLines.UnterminatedTag` | `third-party/HdrHistogram_c/src/hdr_histogram_log.c:1125-1147` | a line whose tag is as long as the buffer, read without a terminator |
| `LogLines.LogReadsBack` | `third-party/HdrHistogram_c/src/hdr_histogram_log.c:866-877` | every log of printed lines reads back entry by entry and ends with EOF at the end of the stream |
| `LogLines.BytesThroughLog` | `third-party/HdrHistogram_c/src/hdr_histogram_log.c:856-877` | bytes printed as base64 in a line come back, with the base64 padding |
| `LogReader.ReadAhead` | `third-party/HdrHistogram_c/src/hdr_histogram_log.c:1010-1022` | matches the prefix, consuming up to the first mismatch |
| `LogReader.ReadAheadTimestamp` | `third-party/HdrHistogram_c/src/hdr_histogram_log.c:1024-1063` | the loop computes the time, or fails, for every stream |
| `LogReader.Append` | `third-party/HdrHistogram_c/src/hdr_histogram_log.c:1182-1191` | the text stays within the capacity, which doubles when it is full |
| `LogReader.InitTurn` | `third-party/HdrHistogram_c/src/hdr_histogram_log.c:1094-1124` | one turn in the initial state is one step of the scan, and consumes input or leaves the state |
| `LogReader.TagTurn` | `third-party/HdrHistogram_c/src/hdr_histogram_log.c:1125-1147` | likewise for a character of the tag, within the buffer |
| `LogReader.NumberTurn` | `third-party/HdrHistogram_c/src/hdr_histogram_log.c:1148-1177` | likewise for each of the three numbers |
| `LogReader.HistogramTurn` | `third-party/HdrHistogram_c/src/hdr_histogram_log.c:1178-1197` | likewise for a character of the text, within the buffer |
| `LogReader.ReadLine` | `third-party/HdrHistogram_c/src/hdr_histogram_log.c:1088-1203` | the state machine ends on every finite stream despite the push-back, and computes the scan the line lemmas are about |
| `LogReader.ReadEntry` | `third-party/HdrHistogram_c/src/hdr_histogram_log.c:1069-1213` | the result code in every case, and the decoded bytes handed on when the text is non-empty and of whole blocks |
| `RecordCodec.TakeStringIff` | `db/rocksdb_cloud_db.cc:720-730` | a string is taken if and only if its length-prefixed form stands there |
| `RecordCodec.TakenPairs` | `db/rocksdb_cloud_db.cc:717-732` | the bytes a parse went over are the serialised pairs |
| `RecordCodec.SerializedIsParsed` | `db/rocksdb_cloud_db.cc:695-733` | for every list of fewer than 2^32 pairs, parsing the serialised form gives the list and stops at its last byte, whatever follows |
| `RecordCodec.ReadBackSerialized` | `db/rocksdb_cloud_db.cc:695-733` | reading back a written list gives the list and ends at the end of the buffer |
| `RecordCodec.TooManyNeverEnd` | `db/rocksdb_cloud_db.cc:717-717` | a buffer that says 2^32 pairs or more is never read to its end |
| `RecordCodec.Layout` | `db/rocksdb_cloud_db.cc:697-705` | the serialised form holds the pair count and for each pair in turn key length, key, value length, value, and nothing else |
| `RecordCodec.LittleEndian` | `lib/coding.h:23-36` | the i-th byte of a fixed number is its i-th group of eight bits |
| `RecordCodec.ParsedIsSerialized` | `db/rocksdb_cloud_db.cc:708-733` | whatever buffer parses, the part read is the serialised form of the pairs it gave |
| `RecordCodec.BytesReadBack` | `lib/coding.h:23-36` | little-endian bytes read back to the number |
| `RecordCodec.BytesPrintBack` | `lib/coding.h:52-63` | and a number read from bytes prints back to them |
| `RecordCodec.SerializeValues` | `db/rocksdb_cloud_db.cc:695-706` | the loop appends exactly the serialised form |
| `RecordCodec.DeSerializeValues` | `db/rocksdb_cloud_db.cc:708-733` | for every buffer: appends exactly the parsed pairs and leaves the offset behind the last one, or runs off the end, always so for 2^32 pairs and more, which the 32-bit counter never reaches |

## Left out

- 64-bit overflow of counts, totals, running counts and iterator levels: counts are unbounded integers. Wrap-around is written out for the epochs and for `lowest * 2`.
- The "next value" of the topmost slot can be 2^63; the model keeps it as an integer where C overflows.
- `log`, `ceil` and `pow` in the configuration are exact integer logarithms and powers; percentiles are real numbers, not doubles; encoded lengths are exact.
- `normalizing_index_offset` is 0 throughout.
- IntervalRecorder.StepKeepsInv: the recorder's pointers and histograms are components of a state value, not objects updated in place; aliasing is expressed by roles.
- AtomicRecording.StepKeepsInv: likewise a step relation on values, since threads interleave between the operations.
- PhaserObject.WriterReaderPhaser.FlipPhase: the writers' actions between its operations are a parameter; sleeping and yielding are not modelled, and the mutex is a precondition.
- The non-atomic record entry points of the interval recorder, which promise nothing to concurrent writers.
- Weaker memory orders: every atomic operation is sequentially consistent.
- zlib, allocation failures, byte-order macros, the 40-byte header and cookies, the V0 and V1 decoders, and `hdr_add` into an existing histogram while decoding.
- Payload.RecordedRoundTrip: concerns the V2 payload without compression, and a configuration handed over as it is.
- LogReader.ReadEntry: ends where the bytes go to `hdr_decode_compressed`; a failing reallocation is not modelled.
- LogReader.ReadAheadTimestamp: seconds and fraction are unbounded integers where C has `long`.
- LogLines.LineReadsBack: times are whole milliseconds, printed exactly; `%.3f` of other times rounds.
- The log header, its version check and comment lines.
- RecordCodec.DeSerializeValues: what the source reads beyond the end of a buffer that holds less than it says is undefined in C; the model stops there.
- The percentile iterator, mean, standard deviation, all-values iterator, printing and memory size: easy members or floating point.
- hdr_add_while_correcting_for_coordinated_omission: the recorded iterator and corrected recording it combines are modelled separately.
- RocksDB and AWS calls, option setup, statistics threads, workload generators and scripts.
