/**
 * Sequence arithmetic the two algorithms rely on: Python's built-in `sum`,
 * Python list slicing (negative and out-of-range bounds), and the population
 * mean and variance that numpy's `np.mean` and `np.std` (ddof = 0) compute.
 * Values are exact reals; floating-point rounding is not modelled.
 */
module Series {

  /** Python's `sum`: left-to-right addition, 0 for the empty list. */
  function Sum(s: seq<real>): real
  {
    if |s| == 0 then 0.0 else Sum(s[..|s| - 1]) + s[|s| - 1]
  }

  lemma {:induction false} SumConcat(a: seq<real>, b: seq<real>)
    ensures Sum(a + b) == Sum(a) + Sum(b)
  {
    if |b| == 0 {
      assert a + b == a;
    } else {
      assert (a + b)[..|a + b| - 1] == a + b[..|b| - 1];
      SumConcat(a, b[..|b| - 1]);
    }
  }

  /** Python's `sum` read from the front: the first element plus the sum of the rest. */
  lemma SumFirst(s: seq<real>)
    requires |s| > 0
    ensures Sum(s) == s[0] + Sum(s[1..])
  {
    SumConcat([s[0]], s[1..]);
    assert [s[0]] + s[1..] == s;
    assert [s[0]][..0] == [];
  }

  /** Summing a range equals summing two adjacent ranges that cover it. */
  lemma SumSplit(s: seq<real>, i: nat, j: nat, k: nat)
    requires i <= j <= k <= |s|
    ensures Sum(s[i..k]) == Sum(s[i..j]) + Sum(s[j..k])
  {
    assert s[i..k] == s[i..j] + s[j..k];
    SumConcat(s[i..j], s[j..k]);
  }

  lemma {:induction false} SumConstant(s: seq<real>, c: real)
    requires forall i :: 0 <= i < |s| ==> s[i] == c
    ensures Sum(s) == |s| as real * c
  {
    if |s| > 0 {
      SumConstant(s[..|s| - 1], c);
    }
  }

  lemma {:induction false} SumNonNegative(s: seq<real>)
    requires forall i :: 0 <= i < |s| ==> s[i] >= 0.0
    ensures Sum(s) >= 0.0
  {
    if |s| > 0 {
      SumNonNegative(s[..|s| - 1]);
    }
  }

  /** `np.mean`: the arithmetic mean of a non-empty list. */
  function Mean(s: seq<real>): real
    requires |s| > 0
  {
    Sum(s) / |s| as real
  }

  function SquaredDeviations(s: seq<real>, m: real): (r: seq<real>)
    ensures |r| == |s|
  {
    seq(|s|, i requires 0 <= i < |s| => (s[i] - m) * (s[i] - m))
  }

  lemma SquareNonNegative(x: real)
    ensures x * x >= 0.0
  {
    if x < 0.0 {
      assert x * x == (-x) * (-x);
    }
  }

  lemma SquaredDeviationsNonNegative(s: seq<real>, m: real)
    ensures forall i :: 0 <= i < |s| ==> SquaredDeviations(s, m)[i] >= 0.0
  {
    forall i | 0 <= i < |s| ensures SquaredDeviations(s, m)[i] >= 0.0 {
      SquareNonNegative(s[i] - m);
    }
  }

  /**
   * The square of `np.std` with its default ddof = 0: the mean squared
   * deviation from the mean, never negative.
   */
  function PopulationVariance(s: seq<real>): (v: real)
    requires |s| > 0
    ensures v >= 0.0
  {
    var sq := SquaredDeviations(s, Mean(s));
    SquaredDeviationsNonNegative(s, Mean(s));
    SumNonNegative(sq);
    Sum(sq) / |s| as real
  }

  lemma MeanConstant(s: seq<real>, c: real)
    requires |s| > 0
    requires forall i :: 0 <= i < |s| ==> s[i] == c
    ensures Mean(s) == c
  {
    SumConstant(s, c);
  }

  /** The list `[x - v for v in vs]`. */
  function Differences(x: real, vs: seq<real>): (r: seq<real>)
    ensures |r| == |vs|
    ensures forall j :: 0 <= j < |vs| ==> r[j] + vs[j] == x
  {
    seq(|vs|, j requires 0 <= j < |vs| => x - vs[j])
  }

  lemma {:induction false} SumDifferences(x: real, vs: seq<real>)
    ensures Sum(Differences(x, vs)) == |vs| as real * x - Sum(vs)
  {
    if |vs| > 0 {
      var n := |vs| - 1;
      assert Differences(x, vs)[..n] == Differences(x, vs[..n]);
      SumDifferences(x, vs[..n]);
    }
  }

  /** The mean distance of `x` from the values `vs` is `x` minus their mean. */
  lemma MeanDifferences(x: real, vs: seq<real>)
    requires |vs| > 0
    ensures Mean(Differences(x, vs)) == x - Mean(vs)
  {
    SumDifferences(x, vs);
    var n := |vs| as real;
    calc {
      Mean(Differences(x, vs));
      (n * x - Sum(vs)) / n;
      n * x / n - Sum(vs) / n;
      x - Mean(vs);
    }
  }

  /**
   * Python's normalisation of a slice bound `b` for a list of length `n`:
   * a negative bound counts from the end, and the result is clamped to
   * `0 .. n`.
   */
  function SliceBound(b: int, n: nat): (r: nat)
    ensures r <= n
    ensures 0 <= b <= n ==> r == b
  {
    if b < 0 then (if n + b < 0 then 0 else n + b)
    else if b > n then n
    else b
  }

  /** Python's `s[lo:hi]`: empty when the normalised bounds are out of order. */
  function PySlice(s: seq<real>, lo: int, hi: int): (r: seq<real>)
    ensures |r| <= |s|
    ensures 0 <= lo <= hi <= |s| ==> r == s[lo..hi]
  {
    var a, b := SliceBound(lo, |s|), SliceBound(hi, |s|);
    if a < b then s[a..b] else []
  }
}
