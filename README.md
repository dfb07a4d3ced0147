# Image similarity search, modelled in Dafny

A model of the image similarity search in ImageSimilaritySearchGo. Each image
becomes a colour histogram. The Go program reduces every RGB channel to
`depth` = 3 bits and makes the three reduced channels one bucket index. It
counts pixels per bucket and divides by the pixel count. Two images are
scored by histogram intersection, the sum of the bucket-wise minima. The
dataset directory is cut into slices, one goroutine per slice. The workers
send the histograms of the `.jpg` entries down a channel. The main routine
keeps one score per image name, sorts the scores in descending order and
shows the first five.

There are three copies of the program: `similaritySearch.go`,
`Src/similaritySearch.go` and `TimeMeasurement/time_experiment.go`. Their
helper functions are the same line for line. `Src/` lines 24-100 and
`TimeMeasurement/` lines 25-101 repeat `similaritySearch.go` lines 18-98.
The rows below therefore cite `similaritySearch.go` for the shared code.
The three copies differ only in where the worker count `k` comes from:
- the top-level program fixes it at 256;
- `Src/` reads it from the command line and rejects values that are not positive;
- `TimeMeasurement/` runs the search for `k`, `2k`, `4k` and `8k`.

Modules:
- `Quantize` covers the channel quantisation and the bucket index. It uses
  the 32-bit unsigned arithmetic of the Go code, with the wrap-around written out.
- `Histogram` covers `computeHistogram`: the scanning method, with the
  specification function `HistogramOf` it is proved against.
- `Compare` covers `compareHistograms` and `min`.
- `Partition` covers `divideDataset` as written: the method, a fuel-bounded
  model of its loop, and the corrected version.
- `Worker` covers `processSlice` and the fan-in of all workers.
- `Rank` covers the score map, the map-to-pairs loop, the descending sort
  (an in-place insertion sort on an array) and the top five.
- `Pipeline` covers the three entry points and the schedule of worker counts.
- `Wrappers`, `Seqs` and `Arith` hold shared helpers.

## Model

| member | source | states |
|---|---|---|
| Quantize.QuantizeChannel | similaritySearch.go:38-40 | a 16-bit channel shifted right by `16 - depth` is below `2^depth` |
| Quantize.BucketIndex | similaritySearch.go:41 | the uint32 index `(r << 2d) + (g << d) + b` is always a valid bucket of the `2^(3d)`-entry histogram; up to depth 10 no wrap-around happens and it is the base-`2^d` number with digits r, g, b |
| Quantize.Shl32 | similaritySearch.go:41 | a uint32 left shift stays below 2^32 |
| Quantize.Add32 | similaritySearch.go:41 | a uint32 addition stays below 2^32 |
| Quantize.IndexInRange | similaritySearch.go:31-41 | for quantised channels the wrapped index lies below `1 << (3*depth)`, the histogram length, so `histogram[index]++` never goes out of range |
| Quantize.DigitsDecode | similaritySearch.go:41 | the reduced r, g and b can each be recovered from the index |
| Quantize.BucketIndexInjective | similaritySearch.go:38-41 | up to depth 10, two pixels share a bucket if and only if their three reduced channels are equal |
| Histogram.ComputeHistogram | similaritySearch.go:30-52 | the row-by-row scan into an array, followed by in-place normalisation, yields exactly `HistogramOf`: an error for an image without pixels, otherwise per-bucket count over pixel count, under the given name |
| Histogram.CountRow | similaritySearch.go:35-44 | the scan of one row leaves the array holding the counts of every pixel seen so far, that row included, and adds the row length to the pixel total |
| Histogram.DivideAll | similaritySearch.go:48-50 | the normalisation pass divides every bucket, in place, by the pixel total |
| Histogram.RealCountsSnoc | similaritySearch.go:42 | as an array update: the next pixel adds 1.0 to its bucket and nothing else |
| Histogram.CountSnoc | similaritySearch.go:42 | one more pixel adds one to its own bucket's count and leaves every other bucket as it was |
| Histogram.CountsSumToPixels | similaritySearch.go:33-45 | the bucket counts sum to `totalPixels` |
| Histogram.CountAtMostPixels | similaritySearch.go:42-43 | no bucket counts more pixels than the image has |
| Histogram.NormalizeSum | similaritySearch.go:48-50 | dividing every count by the total divides any prefix sum by the total |
| Histogram.BucketsInUnitInterval | similaritySearch.go:48-50 | every normalised bucket lies in [0, 1] |
| Histogram.NormalizedSumsToOne | similaritySearch.go:47-50 | the normalised histogram of a non-empty image sums to 1 |
| Histogram.HistogramOf | similaritySearch.go:18-53 | `computeHistogram` as a function of the decoded image: it fails exactly when the image has no pixels, and otherwise returns a histogram under the given name with `1 << (3*depth)` buckets |
| Histogram.BucketsAreFractions | similaritySearch.go:42-50 | bucket `i` is the fraction of the pixels whose quantised index is `i`: their number over the pixel count |
| Histogram.HistogramIsDistribution | similaritySearch.go:18-53 | the histogram fails exactly when the image has no pixels; otherwise it carries the given name and `1 << (3*depth)` buckets, and it is a probability distribution |
| Compare.Min | similaritySearch.go:63-68 | the result is the smaller argument: at most each argument and equal to one of them |
| Compare.CompareHistograms | similaritySearch.go:55-61 | the loop over `h1`'s buckets accumulates the intersection, the sum of bucket-wise minima |
| Compare.IntersectionSymmetric | similaritySearch.go:55-61 | for histograms of equal length the score does not depend on argument order |
| Compare.IntersectionBounds | similaritySearch.go:55-61 | for non-negative histograms the score lies between 0 and the mass of either one |
| Compare.IntersectionSelf | similaritySearch.go:55-61 | an image scored against itself gets its own mass, 1 for a normalised histogram |
| Compare.IntersectionDisjoint | similaritySearch.go:55-61 | two non-negative histograms of the same length score 0 if and only if no bucket is positive in both |
| Compare.IntersectionToZero | similaritySearch.go:56-58 | a running sum of 0 over non-negative buckets means every bucket summed so far is 0 in one histogram or the other |
| Compare.IntersectionGap | similaritySearch.go:57-58 | the mass of `h1` exceeds the intersection by at least what any single bucket loses to `min` |
| Compare.IntersectionOneIffEqual | similaritySearch.go:55-61 | two distributions of the same length score 1 if and only if they are identical |
| Partition.DivideDataset | similaritySearch.go:71-82 | the stride loop on the inputs where it ends: an empty listing gives no slices; otherwise the slices are consecutive `n / k`-sized pieces, the last holding the rest, and they concatenate back to the listing |
| Partition.ChunksFlatten | similaritySearch.go:74-80 | the cut slices concatenate, in order, to the listing |
| Partition.ChunksShape | similaritySearch.go:74-80 | there are `ceil(n / stride)` slices; all but the last hold exactly `stride` entries and the last holds 1 to `stride` |
| Partition.ChunkStep | similaritySearch.go:75-79 | one turn of the loop cuts `files[i : min(i + stride, n)]` and resumes at the slice end |
| Partition.DivideLoop | similaritySearch.go:74-80 | the stride loop run for a bounded number of turns from offset `i`: when it ends, its slices concatenate to the listing from `i` on |
| Partition.DivideLoopHangs | similaritySearch.go:74 | with fewer entries than workers the stride is 0 and the loop ends within no number of turns |
| Partition.DivideLoopFinishes | similaritySearch.go:74-80 | with `1 <= k <= n`, the loop started at `i` ends within `n - i` turns with the chunks of the rest |
| Partition.DivideDatasetTerminates | similaritySearch.go:71-82 | with `1 <= k <= n` the loop model ends with the slices the method computes |
| Partition.MoreSlicesThanWorkers | similaritySearch.go:70-74 | the stride rounds down, so 10 files and 3 workers give 4 slices, not 3 |
| Partition.CeilStrideCovers | similaritySearch.go:70 | the rounded-up stride is positive, `k` strides cover the listing, and they make at most `k` slices |
| Partition.DivideDatasetFixed | similaritySearch.go:70-82 | the corrected partition ends for every `k >= 1`: at most `k` non-empty slices of at most `ceil(n / k)` entries that concatenate to the listing |
| Partition.CeilChunks | similaritySearch.go:70 | with the rounded-up stride there are at most `k` chunks, none empty or longer than the stride, and they concatenate to the listing |
| Worker.ExtIsDotSuffix | similaritySearch.go:88 | `filepath.Ext` of a name is empty or a suffix of the name that starts with a dot |
| Worker.ExtBeforeStartsWithDot | similaritySearch.go:88 | an extension found by the backward scan begins with the dot the scan stopped on |
| Worker.ExtBefore | similaritySearch.go:88 | the extension found is empty or a suffix of the name |
| Worker.ExtIsJpg | similaritySearch.go:88 | `filepath.Ext(name) == ".jpg"` holds exactly when the name ends in `.jpg` |
| Worker.JpgSuffixIsExtension | similaritySearch.go:88 | a name ending in `.jpg` has extension `.jpg` |
| Worker.JpgExtensionIsSuffix | similaritySearch.go:88 | a name whose extension is `.jpg` ends in `.jpg` |
| Worker.EligibleIsJpgFile | similaritySearch.go:88 | an entry passes the worker's filter exactly when it is not a directory and its name ends in `.jpg` |
| Worker.UpperCaseExtensionSkipped | similaritySearch.go:88 | the comparison is case-sensitive (`photo.JPG` is skipped) and only the last extension counts (`photo.tar.jpg` is kept) |
| Worker.ExtractImage | similaritySearch.go:89-95 | a computed histogram is named after the directory entry |
| Worker.ProcessSlice | similaritySearch.go:85-98 | a worker sends, in order, the histogram of every non-directory `.jpg` entry whose histogram can be computed; it reports the others by name and goes on |
| Worker.EmittedConcat | similaritySearch.go:85-98 | what the workers emit over consecutive slices is what one pass over their concatenation emits |
| Worker.FailedConcat | similaritySearch.go:91-93 | the same holds for the failures reported |
| Worker.CollectHistograms | similaritySearch.go:125-143 | all workers together deliver the histograms, and report the failures, of one pass over the whole listing |
| Worker.EmittedExactly | similaritySearch.go:88-95 | a histogram is delivered if and only if some eligible entry produced it |
| Worker.EmittedAtMostFiles | similaritySearch.go:87-97 | each entry yields at most one histogram or one failure report |
| Worker.EmittedAreDistributions | similaritySearch.go:90-95 | every delivered histogram has `1 << (3*depth)` buckets and is a distribution |
| Rank.LastIndex | similaritySearch.go:142 | the position found is the last histogram carrying the name, if any |
| Rank.ScoreMapLastWins | similaritySearch.go:139-143 | the map holds exactly the delivered names, each mapped to the score of its last delivered histogram |
| Rank.ScoreMapDistinct | similaritySearch.go:139-143 | with distinct names, every delivered histogram's score is in the map under its name |
| Rank.ScoreMapIncluded | similaritySearch.go:139-143 | every entry of the map built in one delivery order is in the map built in any other order, with the same score |
| Rank.ScoreMapOrderFree | similaritySearch.go:139-143 | with distinct names, the map does not depend on the order in which the histograms arrive |
| Rank.Aggregate | similaritySearch.go:139-143 | the collecting loop builds the score map |
| Rank.MapToPairs | similaritySearch.go:145-148 | the pairs list every map entry exactly once, with its score and nothing else, in any order |
| Rank.SwapAdjacent | similaritySearch.go:150-152 | one exchange of neighbours changes nothing else and keeps the multiset of pairs |
| Rank.SortByScore | similaritySearch.go:150-152 | after sorting the scores are non-increasing and the pairs are a permutation of those before |
| Rank.InsertLast | similaritySearch.go:150-152 | one insertion pass extends the sorted prefix by one pair, keeps the multiset of pairs and leaves the pairs after it untouched |
| Rank.TopResults | similaritySearch.go:154-157 | the first `min(len, 5)` pairs are shown, and when sorted no pair left out outscores a shown one |
| Rank.PermutedEntriesDistinct | similaritySearch.go:145-152 | a reordering of the map's pairs still lists distinct names with their map scores |
| Rank.PermutedHistosDistinct | similaritySearch.go:139-143 | reordering histograms with distinct names keeps the names distinct |
| Rank.PermutedComparable | similaritySearch.go:141 | reordering the delivered histograms keeps each one at least as long as the query |
| Rank.PrefixOfEntries | similaritySearch.go:154-157 | the first pairs of the sorted list are sorted and list distinct map entries with their scores |
| Rank.LeftOutScoresLower | similaritySearch.go:150-157 | a map entry missing from the sorted prefix scores no higher than any shown entry |
| Rank.SortedPrefixIsTopRanking | similaritySearch.go:145-157 | the sorted prefix is a top ranking of the map: at most five distinct entries, with scores in descending order, none outscored by an entry left out, and all of them shown when there are at most five |
| Pipeline.RunSimilaritySearch | TimeMeasurement/time_experiment.go:104-163 | a failed query histogram (an undecodable query image, or one without pixels) stops the run first, then an unreadable directory; otherwise the result is a top ranking of the score map of everything the workers deliver, together with the failures they report |
| Pipeline.RankScores | TimeMeasurement/time_experiment.go:138-158 | the ranking stage turns the delivered histograms into a top ranking of their score map |
| Pipeline.SearchWithFixedWorkers | similaritySearch.go:100-157 | the top-level program with the corrected stride has the same outcome with 256 workers |
| Pipeline.SearchWithArgument | Src/similaritySearch.go:102-164 | a `k` that does not parse (`strconv.Atoi` fails, also above `MaxInt64`) or is not positive is rejected before anything else; otherwise the run, with the corrected stride, has the outcome above |
| Pipeline.EmittedNamesDistinct | similaritySearch.go:88-95 | entries of one directory have distinct names, so the histograms delivered have distinct names |
| Pipeline.DeliveryOrderIrrelevant | similaritySearch.go:125-143 | any order in which the workers deliver the histograms gives the same score map |
| Pipeline.Wrap64 | TimeMeasurement/time_experiment.go:183 | Go `int` arithmetic: the result lies in the 64-bit range, equals the input there and is congruent to it modulo 2^64 |
| Pipeline.KScheduleAsWritten | TimeMeasurement/time_experiment.go:183 | the schedule has four counts, the first being the argument and the others wrapped to the 64-bit range |
| Pipeline.KScheduleWraps | TimeMeasurement/time_experiment.go:176-183 | a start value of 2^61 passes the argument check but makes the third count -2^63 and the fourth 0 |
| Pipeline.KSchedule | TimeMeasurement/time_experiment.go:176-183 | the corrected schedule is defined exactly for `1 <= k <= MaxInt64 / 8`; it then equals the schedule as written, its counts are positive and each doubles the one before |
| Pipeline.RunExperiment | TimeMeasurement/time_experiment.go:165-190 | an invalid start value stops the experiment; otherwise there are four runs with the corrected stride, each with the search outcome, which does not depend on the worker count |

## Left out

- File and directory I/O is left out: `os.Open`, `image.Decode`, `img.At(...).RGBA()` and `os.ReadDir`. The query image, the directory listing and the decoder become parameters. `None` stands for an error from Go.
- `filepath.Join` and `filepath.Base` are left out. A histogram carries the entry name itself, which is what `Base(Join(dir, name))` gives for a plain file name.
- Goroutines, the `WaitGroup` and the channel are left out. The fan-in of the workers is modelled as their outputs concatenated in slice order. `Pipeline.DeliveryOrderIrrelevant` and `Rank.ScoreMapOrderFree` show that any other delivery order gives the same score map.
- `float64` is modelled as `real`: rounding in the normalisation and in the intersection sum is not modelled.
- Histogram.ComputeHistogram: for an image without pixels Go divides 0 by 0 and gets NaN buckets without an error. The model has no NaN, so it returns an `EmptyImage` error. This changes what a run does in two ways:
  - A dataset image without pixels: the model reports it as a failure and emits nothing. Go prints no error, and `min(q, NaN)` returns NaN (similaritySearch.go:58, 64-67), so the image gets a NaN score in the map. NaN compares false both ways, so `sort.Slice` (similaritySearch.go:150-152) no longer has a consistent order.
  - A query image without pixels: the model stops the run as a failed query histogram. Go goes on, and `min(NaN, b)` returns `b`, so every dataset image scores its own mass, 1 up to rounding.
- Quantize.BucketIndexInjective holds only up to depth 10. Above that the uint32 index wraps, and the program always uses depth 3.
- Compare.CompareHistograms requires `h1` to be no longer than `h2`. Go panics on the out-of-range index otherwise, and every histogram in the program has the same length.
- Partition.DivideDataset requires an empty listing or `1 <= k <= n`. For a non-empty listing any other `k` fails in Go. With `k` = 0, `n / k` divides by zero. With `-n <= k <= -1`, the truncating `n / k` is negative, so `end < i` and `files[i:end]` panics (similaritySearch.go:75, 79). With `k < -n` or `0 < n < k`, `n / k` is 0 and the loop never ends. The loop model shows the hang for `0 < n < k` (see Findings).
- Rank.SortByScore fixes no order among equal scores. `sort.Slice` is not stable, so the model states sortedness and permutation only.
- Pipeline.RunSimilaritySearch, Pipeline.SearchWithFixedWorkers, Pipeline.SearchWithArgument and Pipeline.RunExperiment cut the slices with the corrected stride. The as-written stride loop hangs on a directory with fewer entries than workers, so these members describe the corrected program, not Go's.
- Pipeline.RunExperiment rejects start values above MaxInt64 / 8, which Go accepts (see Findings).
- Pipeline.RunExperiment passes the same listing to all four runs. Go re-reads the directory each time, so the model assumes the directory does not change in between.
- Printing is left out; only the data printed is modelled. The timing (`time.Now`, `time.Since`) is left out too.
- The argument-count checks on `os.Args` are left out.
- `strconv.Atoi` is modelled as an `Option<int>`. A value outside the 64-bit range does not parse.
- The commented-out timing block at the end of the top-level `main` (similaritySearch.go:161-198) is dead code and is not modelled.

## Findings

| source | as written | input that shows it | evidently intended | confidence | as-written member | corrected member |
|---|---|---|---|---|---|---|
| similaritySearch.go:74 | the loop steps `i` by `n / k`, which is 0 when the directory has fewer entries than workers | 100 `.jpg` files with `k` = 256 (the top-level program's fixed count): stride 0, `i` stays at 0 and the loop never ends | cut the listing into at most `k` slices for every `k >= 1`, stepping by `ceil(n / k)` | high (not executed) | Partition.DivideLoopHangs | Partition.DivideDatasetFixed |
| TimeMeasurement/time_experiment.go:183 | `initialK * 2`, `* 4` and `* 8` wrap in 64-bit `int` for large start values that the positivity check accepts | `initialK` = 2305843009213693952 (2^61): the third count is -2^63 and the fourth is 0, so `divideDataset` gets worker counts that are not positive. The wrap matters only once the stride is corrected: with `initialK` >= 2^60 the first run already hangs on any non-empty directory (stride 0), and on an empty one `n / k` is never evaluated | reject start values whose eightfold does not fit an `int` | high (not executed) | Pipeline.KScheduleWraps | Pipeline.KSchedule |
