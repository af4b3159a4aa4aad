/**
 * Worked examples for `PeakDetectorKNeighbours` with mean aggregation and
 * threshold factor 2: a flat series of 10s with one spike of 1000 at the
 * midpoint and `k` flat samples on either side of each neighbourhood.
 * With k = 2 (nine samples) the spike is the only peak; with k = 1 (five
 * samples) the sentinel and neighbour scores inflate the standard
 * deviation enough that the spike falls below the threshold and nothing
 * is reported.
 */
module PeakExamples {
  import opened Series
  import opened PeakDetection

  /** The sum of a nine-element list, written out. */
  lemma SumNine(e: seq<real>)
    requires |e| == 9
    ensures Sum(e) == e[0] + e[1] + e[2] + e[3] + e[4] + e[5] + e[6] + e[7] + e[8]
  {
    var t := e;
    SumFirst(t); t := t[1..];
    SumFirst(t); t := t[1..];
    SumFirst(t); t := t[1..];
    SumFirst(t); t := t[1..];
    SumFirst(t); t := t[1..];
    SumFirst(t); t := t[1..];
    SumFirst(t); t := t[1..];
    SumFirst(t); t := t[1..];
    SumFirst(t); t := t[1..];
    assert t == [];
  }

  /** The mean of a two-element list is their midpoint. */
  lemma MeanOfTwo(a: real, b: real)
    ensures Mean([a, b]) == (a + b) / 2.0
  {
    SumFirst([a, b]);
    SumFirst([b]);
    assert [a, b][1..] == [b];
    assert [b][1..] == [];
  }

  /** A flat series of 10s of length `n` with a single spike of 1000 at `mid`. */
  predicate FlatWithSpike(s: seq<real>, n: nat, mid: nat)
  {
    |s| == n && mid < n && s[mid] == 1000.0
    && forall j :: 0 <= j < n && j != mid ==> s[j] == 10.0
  }

  /** For k = 2 an interior score is the value minus the average of its two neighbour means. */
  lemma InteriorScore(s: seq<real>, i: nat)
    requires 2 <= i && i + 2 < |s|
    ensures Spikiness(Detector(2, Average, 2.0), s, i)
      == s[i] - ((s[i - 2] + s[i - 1]) / 2.0 + (s[i + 1] + s[i + 2]) / 2.0) / 2.0
  {
    AverageSpikiness(Detector(2, Average, 2.0), s, i);
    var left, right := s[i - 2..i], s[i + 1..i + 3];
    assert left[0] == s[i - 2] && left[1] == s[i - 1];
    assert left == [s[i - 2], s[i - 1]];
    assert right[0] == s[i + 1] && right[1] == s[i + 2];
    assert right == [s[i + 1], s[i + 2]];
    MeanOfTwo(s[i - 2], s[i - 1]);
    MeanOfTwo(s[i + 1], s[i + 2]);
  }

  /** The five interior scores for k = 2. */
  lemma SpikeInteriorScores(s: seq<real>)
    requires FlatWithSpike(s, 9, 4)
    ensures var sc := Scores(Detector(2, Average, 2.0), s);
      sc[2] == sc[3] == sc[5] == sc[6] == -247.5 && sc[4] == 990.0
  {
    var sc := Scores(Detector(2, Average, 2.0), s);
    assert sc[2] == -247.5 by { InteriorScore(s, 2); }
    assert sc[3] == -247.5 by { InteriorScore(s, 3); }
    assert sc[4] == 990.0 by { InteriorScore(s, 4); }
    assert sc[5] == -247.5 by { InteriorScore(s, 5); }
    assert sc[6] == -247.5 by { InteriorScore(s, 6); }
  }

  /** For k = 2 the two indices at each end of a nine-sample series get the sentinel. */
  lemma EdgeScores(s: seq<real>)
    requires |s| == 9
    ensures var sc := Scores(Detector(2, Average, 2.0), s);
      sc[0] == sc[1] == sc[7] == sc[8] == -1.0
  {
    var sc := Scores(Detector(2, Average, 2.0), s);
    assert sc[0] == -1.0 && sc[1] == -1.0 && sc[7] == -1.0 && sc[8] == -1.0;
  }

  /** Scores for k = 2: sentinels at the two ends, the spike scored 990. */
  lemma SpikeScores(s: seq<real>)
    requires FlatWithSpike(s, 9, 4)
    ensures Scores(Detector(2, Average, 2.0), s) == [-1.0, -1.0, -247.5, -247.5, 990.0, -247.5, -247.5, -1.0, -1.0]
  {
    var sc := Scores(Detector(2, Average, 2.0), s);
    var expected := [-1.0, -1.0, -247.5, -247.5, 990.0, -247.5, -247.5, -1.0, -1.0];
    SpikeInteriorScores(s);
    EdgeScores(s);
    assert |sc| == |expected|;
    assert forall j :: 0 <= j < 9 ==> sc[j] == expected[j];
  }

  /** Against the global mean -4/9 and its deviation, only index 4 passes the filter. */
  lemma SpikeCandidates(sc: seq<real>)
    requires sc == [-1.0, -1.0, -247.5, -247.5, 990.0, -247.5, -247.5, -1.0, -1.0]
    ensures Candidates(sc, 2.0) == [4]
  {
    SumNine(sc);
    var m := Mean(sc);
    assert m == -4.0 / 9.0;
    var sq := SquaredDeviations(sc, m);
    SumNine(sq);
    var v := PopulationVariance(sc);
    var st := ScoreStats(sc);
    assert IsCandidate(sc[4], st, 2.0);
    assert CandidatesUpTo(sc, st, 2.0, 4) == [] by {
      assert CandidatesUpTo(sc, st, 2.0, 0) == [];
      assert CandidatesUpTo(sc, st, 2.0, 1) == [];
      assert CandidatesUpTo(sc, st, 2.0, 2) == [];
      assert CandidatesUpTo(sc, st, 2.0, 3) == [];
    }
    assert CandidatesUpTo(sc, st, 2.0, 5) == [4];
    assert CandidatesUpTo(sc, st, 2.0, 6) == [4];
    assert CandidatesUpTo(sc, st, 2.0, 7) == [4];
    assert CandidatesUpTo(sc, st, 2.0, 8) == [4];
  }

  /** With k = 2 the detector returns exactly the spike's index. */
  lemma SpikeExample()
    ensures Peaks(Detector(2, Average, 2.0), [10.0, 10.0, 10.0, 10.0, 1000.0, 10.0, 10.0, 10.0, 10.0]) == [4]
  {
    var d := Detector(2, Average, 2.0);
    var s := [10.0, 10.0, 10.0, 10.0, 1000.0, 10.0, 10.0, 10.0, 10.0];
    var sc := Scores(d, s);
    assert FlatWithSpike(s, 9, 4);
    SpikeScores(s);
    SpikeCandidates(sc);
    LoneCandidateKept(sc, d.factor, d.k);
  }

  /** The sum of a five-element list, written out. */
  lemma SumFive(e: seq<real>)
    requires |e| == 5
    ensures Sum(e) == e[0] + e[1] + e[2] + e[3] + e[4]
  {
    var t := e;
    SumFirst(t); t := t[1..];
    SumFirst(t); t := t[1..];
    SumFirst(t); t := t[1..];
    SumFirst(t); t := t[1..];
    SumFirst(t); t := t[1..];
    assert t == [];
  }

  /** The mean of a one-element list is its element. */
  lemma MeanOfOne(a: real)
    ensures Mean([a]) == a
  {
    SumFirst([a]);
    assert [a][1..] == [];
  }

  /** For k = 1 an interior score is the value minus the mean of its two neighbours. */
  lemma NarrowInteriorScore(s: seq<real>, i: nat)
    requires 1 <= i && i + 1 < |s|
    ensures Spikiness(Detector(1, Average, 2.0), s, i) == s[i] - (s[i - 1] + s[i + 1]) / 2.0
  {
    AverageSpikiness(Detector(1, Average, 2.0), s, i);
    var left, right := s[i - 1..i], s[i + 1..i + 2];
    assert left[0] == s[i - 1] && left == [s[i - 1]];
    assert right[0] == s[i + 1] && right == [s[i + 1]];
    MeanOfOne(s[i - 1]);
    MeanOfOne(s[i + 1]);
  }

  /** Scores for k = 1: one sentinel at each end, the spike scored 990. */
  lemma NarrowSpikeScores(s: seq<real>)
    requires FlatWithSpike(s, 5, 2)
    ensures Scores(Detector(1, Average, 2.0), s) == [-1.0, -495.0, 990.0, -495.0, -1.0]
  {
    var sc := Scores(Detector(1, Average, 2.0), s);
    assert sc[0] == -1.0;
    assert sc[1] == -495.0 by { NarrowInteriorScore(s, 1); }
    assert sc[2] == 990.0 by { NarrowInteriorScore(s, 2); }
    assert sc[3] == -495.0 by { NarrowInteriorScore(s, 3); }
    assert sc[4] == -1.0;
  }

  /**
   * The mean is -2/5 and the variance 294030.24, so twice the deviation is
   * about 1084.5, above the spike's distance 990.4 from the mean.
   */
  lemma NarrowSpikeCandidates(sc: seq<real>)
    requires sc == [-1.0, -495.0, 990.0, -495.0, -1.0]
    ensures Candidates(sc, 2.0) == []
  {
    SumFive(sc);
    var m := Mean(sc);
    assert m == -2.0 / 5.0;
    var sq := SquaredDeviations(sc, m);
    SumFive(sq);
    var st := ScoreStats(sc);
    assert !IsCandidate(sc[2], st, 2.0);
    assert CandidatesUpTo(sc, st, 2.0, 0) == [];
    assert CandidatesUpTo(sc, st, 2.0, 1) == [];
    assert CandidatesUpTo(sc, st, 2.0, 2) == [];
    assert CandidatesUpTo(sc, st, 2.0, 3) == [];
    assert CandidatesUpTo(sc, st, 2.0, 4) == [];
  }

  /** With k = 1 the same kind of spike is not reported. */
  lemma NarrowSpikeExample()
    ensures Peaks(Detector(1, Average, 2.0), [10.0, 10.0, 1000.0, 10.0, 10.0]) == []
  {
    var d := Detector(1, Average, 2.0);
    var s := [10.0, 10.0, 1000.0, 10.0, 10.0];
    var sc := Scores(d, s);
    assert FlatWithSpike(s, 5, 2);
    NarrowSpikeScores(s);
    NarrowSpikeCandidates(sc);
  }
}
