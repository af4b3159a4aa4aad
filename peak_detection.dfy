/**
 * The k-neighbours peak detector (`PeakDetectorKNeighbours`): every index of a
 * per-second bitrate series gets a spikiness score from its k left and k right
 * neighbours; indices whose score is positive and more than `factor` standard
 * deviations above the mean of all scores become candidates; of two adjacent
 * candidates at most k apart, the lower-scoring one is suppressed.
 */
module PeakDetection {
  import opened Series

  /** How the distances to the neighbours of one side are combined. */
  datatype Aggregation =
    | Average                           // the default: sum(x) / len(x)
    | Custom(f: seq<real> -> real)      // a caller-supplied function

  /**
   * The detector's configuration, fixed once it is built. `factor` is the
   * standard-deviation threshold factor.
   */
  datatype Detector = Detector(k: int, aggregation: Aggregation, factor: real)

  datatype Option<T> = None | Some(value: T)

  /** `PeakDetectorKNeighbours.__init__`: no aggregation function means the mean. */
  function Configure(k: int, aggregation: Option<seq<real> -> real>, factor: real): (d: Detector)
    ensures d.k == k && d.factor == factor
    ensures aggregation.None? <==> d.aggregation == Average
    ensures aggregation.Some? ==> d.aggregation == Custom(aggregation.value)
  {
    Detector(k, if aggregation.None? then Average else Custom(aggregation.value), factor)
  }

  /** The defaults of `__init__`: five neighbours on each side, factor 2. */
  function DefaultDetector(): (d: Detector)
    ensures d == Detector(5, Average, 2.0)
  {
    Configure(5, None, 2.0)
  }

  function Aggregate(aggregation: Aggregation, xs: seq<real>): (r: real)
    requires |xs| > 0
    ensures aggregation == Average ==> r * |xs| as real == Sum(xs)
    ensures aggregation.Custom? ==> r == aggregation.f(xs)
  {
    match aggregation
    case Average => Mean(xs)
    case Custom(f) => f(xs)
  }

  /** Index `i` of a series of length `n` has k neighbours on both sides. */
  predicate Evaluable(k: int, n: int, i: int)
  {
    k <= i && i + k < n
  }

  /**
   * `calc_spikiness`: the score of index `i`. Outside the window of indices
   * with k neighbours on both sides it is the sentinel -1 (Python's negative
   * slice start never yields k elements); inside it combines the two
   * k-element neighbourhoods. A score inside the window can equal -1 too.
   */
  function Spikiness(d: Detector, s: seq<real>, i: nat): (r: real)
    requires d.k >= 1
    requires i < |s|
    ensures !Evaluable(d.k, |s|, i) ==> r == -1.0
    ensures Evaluable(d.k, |s|, i) ==>
      r == (Aggregate(d.aggregation, Differences(s[i], s[i - d.k..i]))
            + Aggregate(d.aggregation, Differences(s[i], s[i + 1..i + d.k + 1]))) / 2.0
  {
    var left := PySlice(s, i - d.k, i);
    var right := PySlice(s, i + 1, i + d.k + 1);
    if |left| < d.k || |right| < d.k then -1.0
    else
      (Aggregate(d.aggregation, Differences(s[i], left))
       + Aggregate(d.aggregation, Differences(s[i], right))) / 2.0
  }

  /**
   * With the default mean, an evaluable index scores its value minus the
   * average of the means of its two neighbourhoods.
   */
  lemma AverageSpikiness(d: Detector, s: seq<real>, i: nat)
    requires d.k >= 1 && d.aggregation == Average
    requires i < |s| && Evaluable(d.k, |s|, i)
    ensures Spikiness(d, s, i) == s[i] - (Mean(s[i - d.k..i]) + Mean(s[i + 1..i + d.k + 1])) / 2.0
  {
    var left, right := s[i - d.k..i], s[i + 1..i + d.k + 1];
    assert Spikiness(d, s, i) == (Mean(Differences(s[i], left)) + Mean(Differences(s[i], right))) / 2.0;
    MeanDifferences(s[i], left);
    MeanDifferences(s[i], right);
  }

  /** The list of all scores, one per index of the series. */
  function Scores(d: Detector, s: seq<real>): (sc: seq<real>)
    requires d.k >= 1
    ensures |sc| == |s|
  {
    seq(|s|, i requires 0 <= i < |s| => Spikiness(d, s, i))
  }

  /** Mean and population variance of the score list, sentinels included. */
  datatype Stats = Stats(mean: real, variance: real)

  function ScoreStats(sc: seq<real>): (st: Stats)
    ensures st.variance >= 0.0
    ensures |sc| > 0 ==> st.mean * |sc| as real == Sum(sc) && st.variance == PopulationVariance(sc)
  {
    // numpy yields nan for an empty list; no index is then examined.
    if |sc| == 0 then Stats(0.0, 0.0) else Stats(Mean(sc), PopulationVariance(sc))
  }

  /**
   * `dev > sqrt(variance) * factor`, written without the square root: with
   * a non-negative factor both sides are compared through their squares, with
   * a negative factor the right-hand side is at most 0.
   */
  predicate AboveThreshold(dev: real, variance: real, factor: real)
  {
    if factor >= 0.0 then dev > 0.0 && dev * dev > variance * factor * factor
    else dev > 0.0 || dev * dev < variance * factor * factor
  }

  /** Squaring keeps the order of non-negative reals. */
  lemma SquareMonotone(x: real, y: real)
    requires 0.0 <= x <= y
    ensures x * x <= y * y
  {
    assert (y - x) * y >= 0.0;
    assert (y - x) * x >= 0.0;
    assert (y - x) * y == y * y - x * y;
    assert (y - x) * x == x * y - x * x;
  }

  lemma SquareStrictMonotone(x: real, y: real)
    requires 0.0 <= x < y
    ensures x * x < y * y
  {
    assert (y - x) * y > 0.0;
    assert (y - x) * x >= 0.0;
    assert (y - x) * y == y * y - x * y;
    assert (y - x) * x == x * y - x * x;
  }

  /** The encoding agrees with the comparison against the standard deviation. */
  lemma AboveThresholdMeansStdDev(dev: real, variance: real, factor: real, std: real)
    requires std >= 0.0 && std * std == variance
    ensures AboveThreshold(dev, variance, factor) <==> dev > std * factor
  {
    var t := std * factor;
    var v := variance * factor * factor;
    assert v == t * t by {
      assert t * t == (std * std) * (factor * factor);
    }
    if factor >= 0.0 {
      assert t >= 0.0;
      assert AboveThreshold(dev, variance, factor) <==> dev > 0.0 && dev * dev > v;
      if dev > t {
        SquareStrictMonotone(t, dev);
      } else if dev > 0.0 {
        SquareMonotone(dev, t);
      }
    } else {
      assert t <= 0.0;
      assert AboveThreshold(dev, variance, factor) <==> dev > 0.0 || dev * dev < v;
      if t < dev <= 0.0 {
        SquareStrictMonotone(-dev, -t);
      } else if dev <= t {
        SquareMonotone(-t, -dev);
      }
    }
  }

  /** The global filter: a positive score far enough above the mean. */
  predicate IsCandidate(sp: real, st: Stats, factor: real)
  {
    sp > 0.0 && AboveThreshold(sp - st.mean, st.variance, factor)
  }

  predicate StrictlyIncreasing(c: seq<nat>)
  {
    forall a, b :: 0 <= a < b < |c| ==> c[a] < c[b]
  }

  /** Every element of `c` indexes a list of length `n`. */
  predicate IndicesBelow(c: seq<nat>, n: nat)
  {
    forall i :: 0 <= i < |c| ==> c[i] < n
  }

  /** The indices below `n` that pass the global filter, in ascending order. */
  function CandidatesUpTo(sc: seq<real>, st: Stats, factor: real, n: nat): (c: seq<nat>)
    requires n <= |sc|
    ensures StrictlyIncreasing(c) && IndicesBelow(c, n)
  {
    if n == 0 then []
    else
      var prev := CandidatesUpTo(sc, st, factor, n - 1);
      if IsCandidate(sc[n - 1], st, factor) then prev + [n - 1] else prev
  }

  /** An index below `n` is a candidate exactly when it passes the filter. */
  lemma {:induction false} CandidatesUpToMembers(sc: seq<real>, st: Stats, factor: real, n: nat)
    requires n <= |sc|
    ensures forall x :: x in CandidatesUpTo(sc, st, factor, n) <==> 0 <= x < n && IsCandidate(sc[x], st, factor)
  {
    if n > 0 {
      CandidatesUpToMembers(sc, st, factor, n - 1);
    }
  }

  /** `peaks_filtered_global`. */
  function Candidates(sc: seq<real>, factor: real): (c: seq<nat>)
    ensures StrictlyIncreasing(c) && IndicesBelow(c, |sc|)
  {
    CandidatesUpTo(sc, ScoreStats(sc), factor, |sc|)
  }

  /** Of two compared indices, the one that is marked for removal. */
  function Loser(sc: seq<real>, i1: nat, i2: nat): (x: nat)
    requires i1 < |sc| && i2 < |sc|
    ensures x == i1 || x == i2
    ensures sc[x] <= sc[i1] && sc[x] <= sc[i2]
    ensures sc[i1] == sc[i2] ==> x == i1
  {
    if sc[i1] > sc[i2] then i2 else i1
  }

  /** The adjacent candidate pair `c[p], c[p + 1]` is close and marks `x`. */
  predicate Suppresses(sc: seq<real>, c: seq<nat>, k: int, p: int, x: nat)
    requires IndicesBelow(c, |sc|)
  {
    0 <= p && p + 1 < |c| && c[p + 1] - c[p] <= k && x == Loser(sc, c[p], c[p + 1])
  }

  /** `remove_list` after the first `j` adjacent pairs have been compared. */
  function MarkedUpTo(sc: seq<real>, c: seq<nat>, k: int, j: nat): (m: seq<nat>)
    requires j == 0 || j < |c|
    requires IndicesBelow(c, |sc|)
    ensures |m| <= j
  {
    if j == 0 then []
    else
      var prev := MarkedUpTo(sc, c, k, j - 1);
      var i1, i2 := c[j - 1], c[j];
      if i2 - i1 <= k then prev + [Loser(sc, i1, i2)] else prev
  }

  /** An index is marked exactly when it loses one of the first `j` close pairs. */
  lemma {:induction false} MarkedUpToMembers(sc: seq<real>, c: seq<nat>, k: int, j: nat)
    requires j == 0 || j < |c|
    requires IndicesBelow(c, |sc|)
    ensures forall x :: x in MarkedUpTo(sc, c, k, j) <==> exists p :: 0 <= p < j && Suppresses(sc, c, k, p, x)
  {
    if j > 0 {
      MarkedUpToMembers(sc, c, k, j - 1);
      if c[j] - c[j - 1] <= k {
        assert Suppresses(sc, c, k, j - 1, Loser(sc, c[j - 1], c[j]));
      }
    }
  }

  /** `remove_list` once every adjacent pair has been compared. */
  function Marked(sc: seq<real>, c: seq<nat>, k: int): (m: seq<nat>)
    requires IndicesBelow(c, |sc|)
    ensures |c| == 0 || |m| < |c|
  {
    if |c| == 0 then [] else MarkedUpTo(sc, c, k, |c| - 1)
  }

  predicate IsSubsequence(a: seq<nat>, b: seq<nat>)
  {
    if |a| == 0 then true
    else if |b| == 0 then false
    else if a[0] == b[0] then IsSubsequence(a[1..], b[1..])
    else IsSubsequence(a, b[1..])
  }

  lemma TailIncreasing(c: seq<nat>)
    requires |c| > 0 && StrictlyIncreasing(c)
    ensures StrictlyIncreasing(c[1..])
    ensures forall x :: x in c[1..] ==> c[0] < x
  {
  }

  lemma PrependIncreasing(x: nat, rest: seq<nat>)
    requires StrictlyIncreasing(rest)
    requires forall y :: y in rest ==> x < y
    ensures StrictlyIncreasing([x] + rest)
  {
    var r := [x] + rest;
    forall a, b | 0 <= a < b < |r|
      ensures r[a] < r[b]
    {
      assert r[b] == rest[b - 1];
      if a == 0 {
        assert rest[b - 1] in rest;
      } else {
        assert r[a] == rest[a - 1];
      }
    }
  }

  /** `[i for i in c if i not in set(removed)]`. */
  function KeepUnmarked(c: seq<nat>, removed: seq<nat>): (r: seq<nat>)
    ensures forall x :: x in r <==> x in c && x !in removed
    ensures IsSubsequence(r, c)
    ensures StrictlyIncreasing(c) ==> StrictlyIncreasing(r)
  {
    if |c| == 0 then []
    else
      var rest := KeepUnmarked(c[1..], removed);
      assert c == [c[0]] + c[1..];
      if c[0] in removed then rest
      else
        var r := [c[0]] + rest;
        assert r[1..] == rest;
        assert StrictlyIncreasing(c) ==> StrictlyIncreasing(r) by {
          if StrictlyIncreasing(c) {
            TailIncreasing(c);
            PrependIncreasing(c[0], rest);
          }
        }
        r
  }

  /**
   * The two filtering passes of `detect_peaks` over the score list `sc`: the
   * candidates in ascending order, minus every index marked for removal.
   */
  function Select(sc: seq<real>, factor: real, k: int): (r: seq<nat>)
    ensures StrictlyIncreasing(r)
    ensures IsSubsequence(r, Candidates(sc, factor))
  {
    var c := Candidates(sc, factor);
    KeepUnmarked(c, Marked(sc, c, k))
  }

  /** What `detect_peaks` returns for `series`. */
  function Peaks(d: Detector, series: seq<real>): (r: seq<nat>)
    requires d.k >= 1
    ensures StrictlyIncreasing(r)
    ensures IsSubsequence(r, Candidates(Scores(d, series), d.factor))
  {
    Select(Scores(d, series), d.factor, d.k)
  }

  /** Every candidate passes the global filter against the whole score list. */
  lemma CandidatesPassFilter(sc: seq<real>, factor: real)
    ensures forall p :: p in Candidates(sc, factor) ==>
      && p < |sc|
      && sc[p] > 0.0
      && AboveThreshold(sc[p] - Mean(sc), PopulationVariance(sc), factor)
  {
    CandidatesUpToMembers(sc, ScoreStats(sc), factor, |sc|);
  }

  /**
   * Every selected index has a positive score that lies more than `factor`
   * standard deviations above the mean, both taken over the whole score list.
   */
  lemma SelectPassesFilter(sc: seq<real>, factor: real, k: int)
    ensures forall p :: p in Select(sc, factor, k) ==>
      && p < |sc|
      && sc[p] > 0.0
      && AboveThreshold(sc[p] - Mean(sc), PopulationVariance(sc), factor)
  {
    CandidatesPassFilter(sc, factor);
  }

  /**
   * Of two adjacent candidates at most k apart, the one with the lower score
   * is not selected; on a tie the earlier one is not selected.
   */
  lemma CloseLoserSuppressed(sc: seq<real>, factor: real, k: int, p: nat)
    requires var c := Candidates(sc, factor); p + 1 < |c| && c[p + 1] - c[p] <= k
    ensures var c := Candidates(sc, factor);
      && (sc[c[p]] > sc[c[p + 1]] ==> c[p + 1] !in Select(sc, factor, k))
      && (sc[c[p]] <= sc[c[p + 1]] ==> c[p] !in Select(sc, factor, k))
  {
    var c := Candidates(sc, factor);
    MarkedUpToMembers(sc, c, k, |c| - 1);
    assert Suppresses(sc, c, k, p, Loser(sc, c[p], c[p + 1]));
  }

  /**
   * A candidate whose neighbouring candidates are both more than k away, or
   * absent, is selected.
   */
  lemma IsolatedCandidateKept(sc: seq<real>, factor: real, k: int, p: nat)
    requires var c := Candidates(sc, factor);
      && p < |c|
      && (p == 0 || c[p] - c[p - 1] > k)
      && (p + 1 == |c| || c[p + 1] - c[p] > k)
    ensures Candidates(sc, factor)[p] in Select(sc, factor, k)
  {
    var c := Candidates(sc, factor);
    if |c| > 1 {
      MarkedUpToMembers(sc, c, k, |c| - 1);
      forall q | 0 <= q < |c| - 1
        ensures !Suppresses(sc, c, k, q, c[p])
      {
        if q + 1 < p {
          assert c[q] < c[p] && c[q + 1] < c[p];
        } else if q + 1 == p {
          assert c[p] - c[q] > k;
        } else if q == p {
          assert c[q + 1] - c[p] > k;
        } else {
          assert c[p] < c[q] && c[p] < c[q + 1];
        }
      }
      assert c[p] !in Marked(sc, c, k);
    }
  }

  /** A lone candidate is always selected. */
  lemma LoneCandidateKept(sc: seq<real>, factor: real, k: int)
    requires |Candidates(sc, factor)| == 1
    ensures Select(sc, factor, k) == Candidates(sc, factor)
  {
    var c := Candidates(sc, factor);
    IsolatedCandidateKept(sc, factor, k, 0);
    var r := Select(sc, factor, k);
    assert forall x :: x in r ==> x == c[0];
  }

  /** If `m` is shorter than the distinct `c`, some element of `c` is not in `m`. */
  lemma {:induction false} SomeElementMissing(c: seq<nat>, m: seq<nat>)
    requires StrictlyIncreasing(c) && |m| < |c|
    ensures exists x :: x in c && x !in m
  {
    if c[0] in m {
      var i :| 0 <= i < |m| && m[i] == c[0];
      var m' := m[..i] + m[i + 1..];
      SomeElementMissing(c[1..], m');
      var x :| x in c[1..] && x !in m';
      assert x != c[0];
      assert m == m[..i] + [c[0]] + m[i + 1..];
      assert x in c;
    } else {
      assert c[0] in c;
    }
  }

  /**
   * Suppression never empties the result: each adjacent pair marks at most
   * one index, so when there is a candidate at all, something is selected.
   */
  lemma SomeCandidateSurvives(sc: seq<real>, factor: real, k: int)
    requires |Candidates(sc, factor)| > 0
    ensures |Select(sc, factor, k)| > 0
  {
    var c := Candidates(sc, factor);
    SomeElementMissing(c, Marked(sc, c, k));
    var x :| x in c && x !in Marked(sc, c, k);
    assert x in Select(sc, factor, k);
  }

  /**
   * Every returned index has k neighbours on both sides, so a series shorter
   * than 2k + 1 yields no peak (and no error).
   */
  lemma PeaksInWindow(d: Detector, series: seq<real>)
    requires d.k >= 1
    ensures forall p :: p in Peaks(d, series) ==> d.k <= p < |series| - d.k
    ensures |series| < 2 * d.k + 1 ==> Peaks(d, series) == []
  {
    var sc := Scores(d, series);
    SelectPassesFilter(sc, d.factor, d.k);
    forall p | p in Select(sc, d.factor, d.k)
      ensures d.k <= p < |series| - d.k
    {
      assert sc[p] == Spikiness(d, series, p) > 0.0;
      assert Evaluable(d.k, |series|, p);
    }
    var r := Peaks(d, series);
    assert |r| > 0 ==> r[0] in r;
  }

  /**
   * With the default mean, a constant series has no peak: every evaluable
   * score is 0 and every other one is -1, so none is positive.
   */
  lemma ConstantSeriesHasNoPeaks(d: Detector, series: seq<real>, v: real)
    requires d.k >= 1 && d.aggregation == Average
    requires forall i :: 0 <= i < |series| ==> series[i] == v
    ensures Peaks(d, series) == []
  {
    var sc := Scores(d, series);
    forall i | 0 <= i < |series|
      ensures sc[i] <= 0.0
    {
      if Evaluable(d.k, |series|, i) {
        AverageSpikiness(d, series, i);
        MeanConstant(series[i - d.k..i], v);
        MeanConstant(series[i + 1..i + d.k + 1], v);
      }
    }
    CandidatesUpToMembers(sc, ScoreStats(sc), d.factor, |sc|);
  }

  /**
   * The global filter of `detect_peaks`: the loop that collects
   * `peaks_filtered_global`.
   */
  method FilterGlobal(scores: seq<real>, factor: real) returns (globalPeaks: seq<nat>)
    ensures globalPeaks == Candidates(scores, factor)
  {
    var stats := ScoreStats(scores);
    globalPeaks := [];
    for i := 0 to |scores|
      invariant globalPeaks == CandidatesUpTo(scores, stats, factor, i)
    {
      if IsCandidate(scores[i], stats, factor) {
        globalPeaks := globalPeaks + [i];
      }
    }
  }

  /**
   * The suppression pass of `detect_peaks`: the loop over adjacent candidate
   * pairs that fills `remove_list`.
   */
  method MarkClosePairs(scores: seq<real>, globalPeaks: seq<nat>, k: int) returns (removeList: seq<nat>)
    requires IndicesBelow(globalPeaks, |scores|)
    ensures removeList == Marked(scores, globalPeaks, k)
  {
    removeList := [];
    var j := 0;
    while j + 1 < |globalPeaks|
      invariant j == 0 || j < |globalPeaks|
      invariant removeList == MarkedUpTo(scores, globalPeaks, k, j)
    {
      var i1, i2 := globalPeaks[j], globalPeaks[j + 1];
      if i2 - i1 <= k {
        if scores[i1] > scores[i2] {
          removeList := removeList + [i2];
        } else {
          removeList := removeList + [i1];
        }
      }
      j := j + 1;
    }
  }

  /** `detect_peaks`: score every index, filter globally, suppress close pairs. */
  method DetectPeaks(d: Detector, series: seq<real>) returns (peaks: seq<nat>)
    requires d.k >= 1
    ensures peaks == Peaks(d, series)
  {
    var scores := Scores(d, series);
    var globalPeaks := FilterGlobal(scores, d.factor);
    var removeList := MarkClosePairs(scores, globalPeaks, d.k);
    peaks := KeepUnmarked(globalPeaks, removeList);
  }
}
