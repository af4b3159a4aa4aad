# Video bitrate segmentation: peak detection and per-second bitrate

This project models the computational core of `video_bitrate_segmentation`, a
tool that splits a video into segments at points where the bitrate spikes.
There are three parts:

- **Per-second bitrate.** `BitrateExtractor._extract_bitrate_data` runs with
  `keyframes=False`. Its copy `VideoDataExtractor.extract_bitrate_data` is
  modelled too. Each probed frame carries a size in kilobits and a keyframe
  flag. A frame that is not a keyframe contributes its size; a keyframe
  contributes 0. The contributions are summed into one total per whole
  second of video. Second `i` is the slice `[int(i*fr) : int((i+1)*fr)]`, and
  a trailing partial second is dropped. The conversion of a packet size in
  bytes to kilobits (`* 8 / 1000`) is modelled with it.
- **Peak detection.** `PeakDetectorKNeighbours`: `__init__` with its default
  mean aggregation, `calc_spikiness` and `detect_peaks`.
  - Each index gets a spikiness score. It is the average of the aggregated
    distances to its k left and k right neighbours. Indices without k
    neighbours on both sides get the sentinel -1. A real score can equal -1
    as well (with k = 1 the middle of `[0, -1, 0]` scores -1), so the value
    alone does not tell an edge index from an interior one.
  - An index becomes a candidate when its score is positive and lies more
    than `factor` standard deviations above the mean of all scores.
  - Of two adjacent candidates at most k apart, the one with the lower score
    is removed.
- **Sequence arithmetic** (module `Series`). It covers Python's `sum` and
  Python list slicing, including negative and clamped bounds. It also covers
  the population mean and variance that `np.mean` and `np.std` compute.

The modules and what they hold:

- `Series` (series.dfy): `sum`, slicing, mean and variance.
- `PeakDetection` (peak_detection.dfy):
  - the detector configuration, as a datatype, because `__init__` sets the
    fields and nothing changes them afterwards;
  - the specification functions `Scores`, `Candidates`, `Marked`, `Select`
    and `Peaks`;
  - the method `DetectPeaks`, which keeps the source's loops and is proved
    equal to `Peaks`.
- `PeakExamples` (peak_examples.dfy): two worked spike examples with the
  default factor 2 and mean aggregation. With k = 2, a series of nine samples,
  all 10 except a 1000 in the middle, has exactly one peak, the spike. With k = 1,
  the five-sample version of the same series has no peak at all: the
  neighbours of the spike score -495 each, which raises the standard
  deviation of the scores so far that twice it (about 1084.5) exceeds the
  spike's distance from the mean (990.4). An isolated spike is therefore not
  always reported when k is small.
- `BitrateExtraction` (bitrate_extraction.dfy): the frame record,
  the specification function `PerSecondBitrate` and the two-loop method
  `ExtractBitrateData`.
- `VBSegmenter` (vb_segmenter.dfy): the duplicate method from
  `VBSegmenter.py`. It is proved against the same specification function, so
  both copies return the same series on the same input.

Two details of the code are easy to misread; the model follows the code as
written:

- **Ties in suppression.** When two close candidates have equal scores, the
  code removes the *earlier* index `i1`. The `else` branch of the comparison
  `spikiness_values[i1] > spikiness_values[i2]` covers the tie.
- **Frames and seconds.** The code puts frame `j` in second `i` exactly when
  `int(i*fr) <= j < int((i+1)*fr)`. This agrees with `floor(j / fr)` only for
  whole-number frame rates (`IntegralRateSeconds`). At 2.5 frames per second,
  frame 2 is counted in second 1 (`FractionalRateSeconds`).

The standard deviation is never computed. `(sp - mean) > std * factor` is
stated through the variance as `AboveThreshold`, without a square root.
`AboveThresholdMeansStdDev` proves this equivalent to the original comparison
for any non-negative square root of the variance and any sign of the factor.

## Model

| member | source | states |
|---|---|---|
| PeakDetection.Configure | video_bitrate_segmentation/peak_detection.py:15-37 | k and the threshold factor are kept as given; the aggregation is the mean exactly when no function is supplied, and a supplied function is the one stored |
| PeakDetection.DefaultDetector | video_bitrate_segmentation/peak_detection.py:15-18 | the defaults are five neighbours per side, the mean, and factor 2 |
| PeakDetection.Aggregate | video_bitrate_segmentation/peak_detection.py:33-36 | the default aggregation is the mean (its value times the length is the sum); a supplied function is applied as given |
| PeakDetection.Spikiness | video_bitrate_segmentation/peak_detection.py:69-83 | outside the window of indices with k neighbours on both sides the score is the sentinel -1; inside it, it is the average of the aggregated distances to `s[i-k..i]` and `s[i+1..i+k+1]` (an inside score may also equal -1) |
| PeakDetection.AverageSpikiness | video_bitrate_segmentation/peak_detection.py:77-82 | with the default aggregation, an evaluable index scores `s[i]` minus the average of the means of its two neighbourhoods |
| Series.Differences | video_bitrate_segmentation/peak_detection.py:77-80 | one distance per neighbour, in order, with `s[i] - v` for neighbour value v |
| Series.MeanDifferences | video_bitrate_segmentation/peak_detection.py:33-35 | the mean of the distances `x - v` is `x` minus the mean of the values |
| Series.SliceBound | video_bitrate_segmentation/peak_detection.py:71-72 | a normalised slice bound lies in `0..len`, and an in-range bound is unchanged |
| Series.PySlice | video_bitrate_segmentation/peak_detection.py:71-72 | a Python slice is never longer than the list, and with in-range ordered bounds it is the plain subsequence |
| Series.MeanConstant | video_bitrate_segmentation/peak_detection.py:33-35 | the mean of a list whose entries all equal `c` is `c` |
| Series.SumConcat | video_bitrate_segmentation/bitrate_extraction.py:131 | `sum` of a concatenation is the sum of the parts |
| Series.PopulationVariance | video_bitrate_segmentation/peak_detection.py:47 | the squared `np.std` of the scores is never negative |
| PeakDetection.Scores | video_bitrate_segmentation/peak_detection.py:41-44 | there is one score per series index |
| PeakDetection.ScoreStats | video_bitrate_segmentation/peak_detection.py:46-47 | for a non-empty score list, the mean times the length is the sum and the variance is the ddof = 0 variance; the variance is never negative |
| PeakDetection.AboveThresholdMeansStdDev | video_bitrate_segmentation/peak_detection.py:46-51 | the square-free threshold test holds exactly when `dev > std * factor`, for any non-negative `std` with `std * std == variance` |
| PeakDetection.Candidates | video_bitrate_segmentation/peak_detection.py:49-52 | `peaks_filtered_global` is strictly increasing and holds only indices of the score list |
| PeakDetection.CandidatesUpTo | video_bitrate_segmentation/peak_detection.py:49-52 | the candidates found among the first n indices are strictly increasing and below n |
| PeakDetection.CandidatesUpToMembers | video_bitrate_segmentation/peak_detection.py:49-52 | an index is a candidate exactly when it is in range, its score is positive and it passes the threshold |
| PeakDetection.CandidatesPassFilter | video_bitrate_segmentation/peak_detection.py:46-52 | every candidate is an index whose score is positive and above `factor` standard deviations over the mean of all scores, sentinels included |
| PeakDetection.FilterGlobal | video_bitrate_segmentation/peak_detection.py:46-52 | the filtering loop appends exactly the candidates, in index order |
| PeakDetection.Loser | video_bitrate_segmentation/peak_detection.py:58-61 | the index appended to `remove_list` is one of the pair, has the lower or equal score, and is the earlier one on a tie |
| PeakDetection.Marked | video_bitrate_segmentation/peak_detection.py:54-61 | `remove_list` has fewer entries than there are candidates, one at most per adjacent pair |
| PeakDetection.MarkedUpTo | video_bitrate_segmentation/peak_detection.py:54-61 | the first j adjacent pairs mark at most j indices |
| PeakDetection.MarkedUpToMembers | video_bitrate_segmentation/peak_detection.py:54-61 | an index is marked exactly when some adjacent candidate pair at most k apart has it as the lower-scoring member (the earlier one on a tie) |
| PeakDetection.MarkClosePairs | video_bitrate_segmentation/peak_detection.py:54-61 | the pairwise loop builds exactly the remove list of the adjacent close pairs |
| PeakDetection.KeepUnmarked | video_bitrate_segmentation/peak_detection.py:63 | an index is kept exactly when it is a candidate and not marked; the kept indices are an in-order subsequence, so they stay strictly increasing |
| PeakDetection.Select | video_bitrate_segmentation/peak_detection.py:63-65 | the returned peaks are a strictly increasing subsequence of the candidates |
| PeakDetection.Peaks | video_bitrate_segmentation/peak_detection.py:39-65 | the peaks of a series are a strictly increasing subsequence of its candidates |
| PeakDetection.SelectPassesFilter | video_bitrate_segmentation/peak_detection.py:46-65 | every returned peak is in range, has a positive score and passes the threshold |
| PeakDetection.CloseLoserSuppressed | video_bitrate_segmentation/peak_detection.py:56-61 | of two adjacent candidates at most k apart, the later one is dropped if the earlier scores higher, otherwise the earlier one is dropped |
| PeakDetection.IsolatedCandidateKept | video_bitrate_segmentation/peak_detection.py:56-63 | a candidate more than k away from both adjacent candidates is returned |
| PeakDetection.LoneCandidateKept | video_bitrate_segmentation/peak_detection.py:56-63 | a single candidate is returned as the only peak |
| PeakDetection.SomeCandidateSurvives | video_bitrate_segmentation/peak_detection.py:54-63 | if there is any candidate, at least one peak is returned |
| PeakDetection.PeaksInWindow | video_bitrate_segmentation/peak_detection.py:39-75 | every peak has k neighbours on both sides, so a series shorter than 2k+1 has no peaks |
| PeakDetection.ConstantSeriesHasNoPeaks | video_bitrate_segmentation/peak_detection.py:39-83 | with mean aggregation, a constant series has no peaks, whatever the factor |
| PeakDetection.DetectPeaks | video_bitrate_segmentation/peak_detection.py:39-65 | `detect_peaks` returns exactly `Peaks`, the selected candidates of the score series |
| PeakExamples.InteriorScore | video_bitrate_segmentation/peak_detection.py:77-82 | for k = 2 with the mean, an interior score is the value minus the average of the means of its two neighbour pairs |
| PeakExamples.SpikeInteriorScores | video_bitrate_segmentation/peak_detection.py:69-83 | for k = 2, nine samples, all 10 except a 1000 in the middle, score -247.5 at indices 2, 3, 5, 6 and 990 at index 4 |
| PeakExamples.EdgeScores | video_bitrate_segmentation/peak_detection.py:71-75 | for k = 2, the first two and last two indices of any nine-sample series get the sentinel -1 |
| PeakExamples.SpikeScores | video_bitrate_segmentation/peak_detection.py:69-83 | for k = 2, nine samples, all 10 except a 1000 in the middle, score -1, -1, -247.5, -247.5, 990, -247.5, -247.5, -1, -1 |
| PeakExamples.SpikeCandidates | video_bitrate_segmentation/peak_detection.py:46-52 | with factor 2, only the spike's index 4 passes the filter for those scores |
| PeakExamples.SpikeExample | video_bitrate_segmentation/peak_detection.py:39-65 | a k = 2 detector with factor 2 returns exactly `[4]` for that series |
| PeakExamples.NarrowInteriorScore | video_bitrate_segmentation/peak_detection.py:77-82 | for k = 1 with the mean, an interior score is the value minus the mean of its two neighbours |
| PeakExamples.NarrowSpikeScores | video_bitrate_segmentation/peak_detection.py:69-83 | for k = 1, five samples, all 10 except a 1000 in the middle, score -1, -495, 990, -495, -1 |
| PeakExamples.NarrowSpikeCandidates | video_bitrate_segmentation/peak_detection.py:46-52 | with factor 2, no index of those scores passes the filter |
| PeakExamples.NarrowSpikeExample | video_bitrate_segmentation/peak_detection.py:39-65 | a k = 1 detector with factor 2 returns no peak for that series |
| BitrateExtraction.KBitrate | video_bitrate_segmentation/bitrate_extraction.py:86-87 | a packet of n bytes is n/125 kilobits, never negative |
| BitrateExtraction.FrameOfPacket | video_bitrate_segmentation/bitrate_extraction.py:86-91 | a frame record holds the packet size in kilobits (bytes / 125, never negative) and the keyframe flag unchanged |
| BitrateExtraction.PacketFramesGiveNonNegativeBuckets | video_bitrate_segmentation/bitrate_extraction.py:84-92 | frames built from probed packet sizes give a per-second series with no negative entry |
| BitrateExtraction.Contribution | video_bitrate_segmentation/bitrate_extraction.py:120-123 | a frame with `keyframe == 0` contributes its kilobits, any other frame contributes 0, so a contribution lies between 0 and the non-negative size |
| BitrateExtraction.Contributions | video_bitrate_segmentation/bitrate_extraction.py:113-123 | there is one contribution per frame |
| BitrateExtraction.SecondCount | video_bitrate_segmentation/bitrate_extraction.py:130 | for a positive rate the bucket count is `n / fr` rounded down |
| BitrateExtraction.SecondStart | video_bitrate_segmentation/bitrate_extraction.py:131 | `int(i * fr)` is `i * fr` rounded down, as truncation is for a non-negative product |
| BitrateExtraction.LoopBound | video_bitrate_segmentation/bitrate_extraction.py:130 | the loop bound is the bucket count for a positive rate and at most 0 for a negative one |
| BitrateExtraction.SecondCountIsWholeSeconds | video_bitrate_segmentation/bitrate_extraction.py:130 | the bucket count is the number of whole seconds that fit: `nb*fr <= n < (nb+1)*fr` |
| BitrateExtraction.ExactMultipleSeconds | video_bitrate_segmentation/bitrate_extraction.py:130 | over exact reals, a frame count of exactly m seconds gives exactly m buckets (IEEE doubles can give m - 1; see "## Left out") |
| BitrateExtraction.SecondsInBounds | video_bitrate_segmentation/bitrate_extraction.py:131 | no bucket slice reaches past the last frame |
| BitrateExtraction.PerSecondBitrate | video_bitrate_segmentation/bitrate_extraction.py:127-135 | the series has one entry per whole second |
| BitrateExtraction.ExtractBitrateData | video_bitrate_segmentation/bitrate_extraction.py:96-135 | the two append loops return `PerSecondBitrate` for a positive rate and an empty list for a negative one |
| BitrateExtraction.BucketMembership | video_bitrate_segmentation/bitrate_extraction.py:131 | frame j is in the slice of bucket i exactly when `i*fr < j+1 <= (i+1)*fr` |
| BitrateExtraction.SecondsDisjoint | video_bitrate_segmentation/bitrate_extraction.py:131 | no frame is counted in two seconds |
| BitrateExtraction.IntegralRateSeconds | video_bitrate_segmentation/bitrate_extraction.py:131 | with a whole-number rate m, frame j is in second i exactly when `j / m == i` |
| BitrateExtraction.FractionalRateSeconds | video_bitrate_segmentation/bitrate_extraction.py:131 | at 2.5 frames per second, frame 2 is in second 1 although `floor(2 / 2.5)` is 0 |
| BitrateExtraction.BucketIsSecondTotal | video_bitrate_segmentation/bitrate_extraction.py:127-135 | each bucket equals the total of the non-keyframe sizes of the frames in that second, an independent masked sum over all frames |
| BitrateExtraction.BucketsTotal | video_bitrate_segmentation/bitrate_extraction.py:130-131 | the buckets add up to the contributions of the frames they cover, and fewer than `fr + 1` trailing frames are dropped |
| BitrateExtraction.DroppedFrames | video_bitrate_segmentation/bitrate_extraction.py:130-131 | the covered frames end within the series, and fewer than `fr + 1` frames are left over |
| BitrateExtraction.AllKeyframesGiveZeros | video_bitrate_segmentation/bitrate_extraction.py:119-123 | if every frame is a keyframe, every bucket is 0 |
| BitrateExtraction.EmptyInputGivesEmptySeries | video_bitrate_segmentation/bitrate_extraction.py:96-135 | no frames give an empty series |
| BitrateExtraction.NonNegativeBuckets | video_bitrate_segmentation/bitrate_extraction.py:127-135 | non-negative frame sizes give non-negative buckets |
| VBSegmenter.ExtractBitrateData | VBSegmenter.py:102-141 | the duplicate loops return `PerSecondBitrate` for a positive rate and an empty list for a negative one, the same series as `BitrateExtraction.ExtractBitrateData` |
| VBSegmenter.ExtractorsAgree | VBSegmenter.py:102-141 | running both extractors on the same frames and rate gives equal series |

## Left out

- Running `ffprobe`/`ffmpeg` (and re-encoding), parsing their JSON output and the frame-rate string `"num/den"`, temporary directories: external processes and I/O. Frames enter the model as a list of `Frame` records, and the rate as a real.
- The `keyframes=True` branch of `_extract_bitrate_data`. It calls `append` on each frame dictionary, which a dictionary does not have, so it fails on any non-empty input. Only the default `keyframes=False` path is modelled.
- The `time_data` and `normed_time_data` lists: they are built and never returned.
- `video_bitrate_segmentation/segmentation.py` and `VBSegmenter.segment`/`extract_video_data`, which orchestrate extraction, detection and segment assembly, are not part of this model.
- Floating-point arithmetic: sizes, scores, means and variances are exact reals, so rounding effects near the threshold are not captured.
- BitrateExtraction.SecondCount: the frame rate `float(num) / float(den)`, the bucket count `int(len // fr)` and the slice bounds `int(i * fr)` are computed over exact reals, whereas the source computes them in IEEE doubles. Rounding can move a result across an integer. At 24000/1001 fps, 24000 frames give 1000 buckets in doubles, not the 1001 of exact arithmetic, and at 50/3 fps, 50 frames give 2 buckets, not 3. Taking the rate as the double nearest 30000/1001 (just below it), the exact product `1001 * fr` lies below 30000 and its floor is 29999, but the double multiplication rounds to 30000, so `int(1001 * fr)` is 30000. The exact-multiple and bucket-boundary lemmas hold for exact rates only.
- `np.mean`/`np.std` of an empty score list (nan with a warning): the model uses a placeholder, which no index ever reads, because an empty series has no index to filter.
- PeakDetection.DetectPeaks: requires k >= 1. With k <= 0, the default aggregation divides by zero on any non-empty series (its neighbour list is empty). A custom aggregation applied to an empty list is not modelled.
- PeakDetection.Aggregate: a custom aggregation is any total function on non-empty lists; an aggregation that raises or has side effects is not modelled.
- BitrateExtraction.ExtractBitrateData: requires a non-zero rate, because a zero rate is a `ZeroDivisionError` in the source. The same holds for VBSegmenter.ExtractBitrateData.
- `key_frame` values are compared with 0 as integers; JSON values of another type are not modelled.
