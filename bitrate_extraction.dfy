/**
 * Per-second bitrate bucketing (`BitrateExtractor._extract_bitrate_data` with
 * `keyframes=False`): per-frame sizes become one kilobit total per whole
 * second of video, keyframes counting as 0 and a trailing partial second
 * dropped.
 */
module BitrateExtraction {
  import opened Series

  /** One decoded frame: its size in kilobits and ffprobe's `key_frame` flag. */
  datatype Frame = Frame(kbitrate: real, keyframe: int)

  /** The packet size in bytes converted to kilobits: 8 bits per byte, 1000 bits per kilobit. */
  function KBitrate(pktSize: nat): (kb: real)
    ensures kb >= 0.0
    ensures kb * 125.0 == pktSize as real
  {
    pktSize as real * 8.0 / 1000.0
  }

  /** The record built for each probed frame. */
  function FrameOfPacket(pktSize: nat, keyFrame: int): (f: Frame)
    ensures f.kbitrate * 125.0 == pktSize as real && f.kbitrate >= 0.0
    ensures f.keyframe == keyFrame
  {
    Frame(KBitrate(pktSize), keyFrame)
  }

  /** What one frame adds to its second: its size unless it is a keyframe. */
  function Contribution(f: Frame): (r: real)
    ensures f.keyframe != 0 ==> r == 0.0
    ensures f.keyframe == 0 ==> r == f.kbitrate
    ensures f.kbitrate >= 0.0 ==> 0.0 <= r <= f.kbitrate
  {
    if f.keyframe == 0 then f.kbitrate else 0.0
  }

  /** `bitrate_data`: the contributions in frame order. */
  function Contributions(frames: seq<Frame>): (c: seq<real>)
    ensures |c| == |frames|
  {
    seq(|frames|, j requires 0 <= j < |frames| => Contribution(frames[j]))
  }

  /** `int(n // framerate)`: the number of buckets for a positive rate. */
  function SecondCount(n: nat, framerate: real): (nb: nat)
    requires framerate > 0.0
    ensures nb as real <= n as real / framerate < nb as real + 1.0
  {
    (n as real / framerate).Floor
  }

  /**
   * The loop bound `int(n // framerate)` for any non-zero rate: the bucket
   * count when the rate is positive, and no iterations when it is negative.
   */
  function LoopBound(n: nat, framerate: real): (b: int)
    requires framerate != 0.0
    ensures framerate > 0.0 ==> b == SecondCount(n, framerate)
    ensures framerate < 0.0 ==> b <= 0
  {
    var q := n as real / framerate;
    assert framerate < 0.0 ==> q <= 0.0 by {
      if framerate < 0.0 {
        assert q * framerate == n as real;
      }
    }
    q.Floor
  }

  /** `int(i * framerate)`: the first frame of bucket `i`. */
  function SecondStart(i: nat, framerate: real): (start: nat)
    requires framerate > 0.0
    ensures start as real <= i as real * framerate < start as real + 1.0
  {
    (i as real * framerate).Floor
  }

  lemma MulMonotone(a: real, b: real, c: real)
    requires a <= b && c > 0.0
    ensures a * c <= b * c
  {
    assert b * c - a * c == (b - a) * c;
  }

  lemma MulStrictMonotone(a: real, b: real, c: real)
    requires a < b && c > 0.0
    ensures a * c < b * c
  {
    assert b * c - a * c == (b - a) * c;
  }

  /** Dividing a chain `a*c < x <= b*c` by a positive `c`. */
  lemma MulCancelLess(a: real, x: real, b: real, c: real)
    requires c > 0.0 && a * c < x && x <= b * c
    ensures a < b
  {
    assert (b - a) * c == b * c - a * c;
  }

  lemma SecondStartMonotone(i: nat, j: nat, framerate: real)
    requires framerate > 0.0 && i <= j
    ensures SecondStart(i, framerate) <= SecondStart(j, framerate)
  {
    MulMonotone(i as real, j as real, framerate);
  }

  /**
   * The bucket count is the number of whole seconds that fit: that many
   * seconds of frames take no more than `n` frames, one more second would
   * not fit. When `n` is an exact multiple of the rate there is no off-by-one.
   */
  lemma SecondCountIsWholeSeconds(n: nat, framerate: real)
    requires framerate > 0.0
    ensures SecondCount(n, framerate) as real * framerate <= n as real
    ensures n as real < (SecondCount(n, framerate) + 1) as real * framerate
  {
    var x := n as real / framerate;
    var nb := SecondCount(n, framerate);
    assert nb as real <= x < nb as real + 1.0;
    assert x * framerate == n as real;
    MulMonotone(nb as real, x, framerate);
    var y := (nb + 1) as real;
    assert x < y;
    MulStrictMonotone(x, y, framerate);
    calc {
      n as real;
      == x * framerate;
      < y * framerate;
    }
  }

  /** A frame count that is an exact multiple `m` of the rate gives exactly `m` buckets. */
  lemma ExactMultipleSeconds(n: nat, m: nat, framerate: real)
    requires framerate > 0.0
    requires n as real == m as real * framerate
    ensures SecondCount(n, framerate) == m
  {
    assert n as real / framerate == m as real;
  }

  /** Every bucket ends at or before the last frame: the slices stay in bounds. */
  lemma SecondsInBounds(n: nat, framerate: real, i: nat)
    requires framerate > 0.0
    requires i <= SecondCount(n, framerate)
    ensures SecondStart(i, framerate) <= n
  {
    SecondCountIsWholeSeconds(n, framerate);
    var nb := SecondCount(n, framerate);
    assert i as real * framerate <= nb as real * framerate;
  }

  /** `normed_bitrate_data`: bucket `i` sums the contributions of its frames. */
  function PerSecondBitrate(frames: seq<Frame>, framerate: real): (r: seq<real>)
    requires framerate > 0.0
    ensures |r| == SecondCount(|frames|, framerate)
  {
    var c := Contributions(frames);
    var nb := SecondCount(|frames|, framerate);
    seq(nb, i requires 0 <= i < nb =>
      SecondsInBounds(|frames|, framerate, i + 1);
      SecondStartMonotone(i, i + 1, framerate);
      Sum(c[SecondStart(i, framerate)..SecondStart(i + 1, framerate)]))
  }

  /**
   * `_extract_bitrate_data(frame_data, framerate)`: the two append loops. A
   * zero rate is a division by zero in the source; a negative rate gives no
   * buckets.
   */
  method ExtractBitrateData(frames: seq<Frame>, framerate: real) returns (normed: seq<real>)
    requires framerate != 0.0
    ensures framerate > 0.0 ==> normed == PerSecondBitrate(frames, framerate)
    ensures framerate < 0.0 ==> normed == []
  {
    var bitrateData: seq<real> := [];
    for index := 0 to |frames|
      invariant |bitrateData| == index
      invariant forall j :: 0 <= j < index ==> bitrateData[j] == Contribution(frames[j])
    {
      var item := frames[index];
      if item.keyframe == 0 {
        bitrateData := bitrateData + [item.kbitrate];
      } else {
        bitrateData := bitrateData + [0.0];
      }
    }
    assert bitrateData == Contributions(frames);
    normed := [];
    var bound := LoopBound(|bitrateData|, framerate);
    var i := 0;
    while i < bound
      invariant 0 <= i && |normed| == i
      invariant framerate < 0.0 ==> i == 0
      invariant framerate > 0.0 ==> i <= bound
      invariant framerate > 0.0 ==>
        forall j :: 0 <= j < i ==> normed[j] == PerSecondBitrate(frames, framerate)[j]
    {
      SecondsInBounds(|bitrateData|, framerate, i + 1);
      SecondStartMonotone(i, i + 1, framerate);
      var normedBitrate := Sum(bitrateData[SecondStart(i, framerate)..SecondStart(i + 1, framerate)]);
      normed := normed + [normedBitrate];
      i := i + 1;
    }
  }

  /**
   * The second that frame `j` is counted in, as a relation between reals:
   * second `i` covers the frames whose end `j + 1` lies in `(i*fr, (i+1)*fr]`.
   */
  predicate InSecond(j: nat, i: nat, framerate: real)
  {
    i as real * framerate < (j + 1) as real <= (i + 1) as real * framerate
  }

  /** Frame `j` lies in the slice of bucket `i` exactly when it is in second `i`. */
  lemma BucketMembership(j: nat, i: nat, framerate: real)
    requires framerate > 0.0
    ensures SecondStart(i, framerate) <= j < SecondStart(i + 1, framerate) <==> InSecond(j, i, framerate)
  {
    var lo, hi := i as real * framerate, (i + 1) as real * framerate;
    assert lo.Floor as real <= lo < lo.Floor as real + 1.0;
    assert hi.Floor as real <= hi < hi.Floor as real + 1.0;
  }

  /** No frame is counted in two seconds. */
  lemma SecondsDisjoint(j: nat, i1: nat, i2: nat, framerate: real)
    requires framerate > 0.0
    requires InSecond(j, i1, framerate) && InSecond(j, i2, framerate)
    ensures i1 == i2
  {
    var x := (j + 1) as real;
    MulCancelLess(i1 as real, x, (i2 + 1) as real, framerate);
    MulCancelLess(i2 as real, x, (i1 + 1) as real, framerate);
  }

  lemma IntMulMonotone(a: nat, b: nat, m: nat)
    requires a <= b
    ensures a * m <= b * m
  {
    assert b * m == a * m + (b - a) * m;
  }

  /** With an integral rate the real bounds of a second are integer products. */
  lemma IntegralRateBounds(j: nat, i: nat, m: nat)
    requires m >= 1
    ensures InSecond(j, i, m as real) <==> i * m < j + 1 <= (i + 1) * m
  {
    assert (i * m) as real == i as real * m as real;
    assert ((i + 1) * m) as real == (i + 1) as real * m as real;
  }

  /**
   * With an integral frame rate, second `i` holds exactly the frames `j` with
   * `j / fr == i`: the frames of one second are the next `fr` frames.
   */
  lemma IntegralRateSeconds(j: nat, i: nat, m: nat)
    requires m >= 1
    ensures InSecond(j, i, m as real) <==> j / m == i
  {
    IntegralRateBounds(j, i, m);
    var q := j / m;
    assert j == q * m + j % m && 0 <= j % m < m;
    assert (q + 1) * m == q * m + m;
    assert (i + 1) * m == i * m + m;
    if i * m < j + 1 <= (i + 1) * m {
      if q < i {
        IntMulMonotone(q + 1, i, m);
      } else if q > i {
        IntMulMonotone(i + 1, q, m);
      }
    }
  }

  /**
   * With a fractional rate the seconds are not `floor(j / fr)`: at 2.5 frames
   * per second, frame 2 is counted in second 1 (the slice `[2:5]`), although
   * `floor(2 / 2.5)` is 0.
   */
  lemma FractionalRateSeconds()
    ensures InSecond(2, 1, 2.5) && !InSecond(2, 0, 2.5)
    ensures SecondStart(1, 2.5) == 2 && SecondStart(2, 2.5) == 5
    ensures (2.0 / 2.5).Floor == 0
  {
    assert 2.0 / 2.5 == 0.8;
  }

  /** The frames of the video counted in second `i`, as an independent total. */
  function SecondTotal(frames: seq<Frame>, framerate: real, i: nat): real
  {
    Sum(seq(|frames|, j requires 0 <= j < |frames| =>
      if InSecond(j, i, framerate) then Contribution(frames[j]) else 0.0))
  }

  lemma {:induction false} SumZeros(s: seq<real>)
    requires forall j :: 0 <= j < |s| ==> s[j] == 0.0
    ensures Sum(s) == 0.0
  {
    SumConstant(s, 0.0);
  }

  /** A list that agrees with `c` on `lo .. hi` and is 0 elsewhere sums to `c[lo..hi]`. */
  lemma MaskedSum(masked: seq<real>, c: seq<real>, lo: nat, hi: nat)
    requires |masked| == |c| && lo <= hi <= |c|
    requires forall j :: 0 <= j < |c| ==> masked[j] == if lo <= j < hi then c[j] else 0.0
    ensures Sum(masked) == Sum(c[lo..hi])
  {
    var n := |c|;
    assert masked[0..n] == masked;
    SumSplit(masked, 0, lo, n);
    SumSplit(masked, lo, hi, n);
    SumZeros(masked[0..lo]);
    SumZeros(masked[hi..n]);
    assert masked[lo..hi] == c[lo..hi];
  }

  /** Each bucket is the total of the non-keyframe sizes of the frames in its second. */
  lemma BucketIsSecondTotal(frames: seq<Frame>, framerate: real, i: nat)
    requires framerate > 0.0
    requires i < SecondCount(|frames|, framerate)
    ensures PerSecondBitrate(frames, framerate)[i] == SecondTotal(frames, framerate, i)
  {
    var n := |frames|;
    var c := Contributions(frames);
    SecondsInBounds(n, framerate, i + 1);
    SecondStartMonotone(i, i + 1, framerate);
    var lo, hi := SecondStart(i, framerate), SecondStart(i + 1, framerate);
    var masked := seq(n, j requires 0 <= j < n =>
      if InSecond(j, i, framerate) then Contribution(frames[j]) else 0.0);
    assert SecondTotal(frames, framerate, i) == Sum(masked);
    assert PerSecondBitrate(frames, framerate)[i] == Sum(c[lo..hi]);
    forall j | 0 <= j < n
      ensures masked[j] == if lo <= j < hi then c[j] else 0.0
    {
      BucketMembership(j, i, framerate);
    }
    MaskedSum(masked, c, lo, hi);
  }

  /**
   * Sums over adjacent ranges `starts[i] .. starts[i + 1]` that begin at 0
   * add up to the sum of the prefix they cover.
   */
  lemma {:induction false} TilingSum(r: seq<real>, c: seq<real>, starts: seq<nat>)
    requires |starts| == |r| + 1 && starts[0] == 0
    requires forall i :: 0 <= i < |starts| ==> starts[i] <= |c|
    requires forall i :: 0 <= i < |r| ==> starts[i] <= starts[i + 1]
    requires forall i :: 0 <= i < |r| ==> r[i] == Sum(c[starts[i]..starts[i + 1]])
    ensures starts[|r|] <= |c|
    ensures Sum(r) == Sum(c[..starts[|r|]])
  {
    var m := |r|;
    if m > 0 {
      TilingSum(r[..m - 1], c, starts[..m]);
      SumSplit(c, 0, starts[m - 1], starts[m]);
      assert c[0..starts[m]] == c[..starts[m]];
      assert c[0..starts[m - 1]] == c[..starts[m - 1]];
    }
  }

  /**
   * The buckets tile a prefix of the frames: their total is the total of the
   * contributions before `int(nb * fr)`, and fewer than `fr + 1` trailing
   * frames are dropped.
   */
  lemma BucketsTotal(frames: seq<Frame>, framerate: real)
    requires framerate > 0.0
    ensures var nb := SecondCount(|frames|, framerate);
      && SecondStart(nb, framerate) <= |frames|
      && (|frames| - SecondStart(nb, framerate)) as real < framerate + 1.0
      && Sum(PerSecondBitrate(frames, framerate))
         == Sum(Contributions(frames)[..SecondStart(nb, framerate)])
  {
    var n := |frames|;
    var nb := SecondCount(n, framerate);
    var r := PerSecondBitrate(frames, framerate);
    var starts := seq(nb + 1, i requires 0 <= i <= nb => SecondStart(i, framerate));
    forall i | 0 <= i <= nb
      ensures starts[i] <= n
    {
      SecondsInBounds(n, framerate, i);
    }
    forall i | 0 <= i < nb
      ensures starts[i] <= starts[i + 1]
    {
      SecondStartMonotone(i, i + 1, framerate);
    }
    TilingSum(r, Contributions(frames), starts);
    DroppedFrames(n, framerate);
  }

  /** Fewer than `fr + 1` frames lie after the last whole second. */
  lemma DroppedFrames(n: nat, framerate: real)
    requires framerate > 0.0
    ensures SecondStart(SecondCount(n, framerate), framerate) <= n
    ensures (n - SecondStart(SecondCount(n, framerate), framerate)) as real < framerate + 1.0
  {
    var nb := SecondCount(n, framerate);
    SecondCountIsWholeSeconds(n, framerate);
    SecondsInBounds(n, framerate, nb);
    var x := nb as real * framerate;
    assert (nb + 1) as real * framerate == x + framerate;
    assert x.Floor as real > x - 1.0;
  }

  /** Input made only of keyframes gives one zero per whole second. */
  lemma AllKeyframesGiveZeros(frames: seq<Frame>, framerate: real)
    requires framerate > 0.0
    requires forall j :: 0 <= j < |frames| ==> frames[j].keyframe != 0
    ensures PerSecondBitrate(frames, framerate) == seq(SecondCount(|frames|, framerate), _ => 0.0)
  {
    var r := PerSecondBitrate(frames, framerate);
    var c := Contributions(frames);
    forall i | 0 <= i < |r|
      ensures r[i] == 0.0
    {
      SecondsInBounds(|frames|, framerate, i + 1);
      SecondStartMonotone(i, i + 1, framerate);
      SumZeros(c[SecondStart(i, framerate)..SecondStart(i + 1, framerate)]);
    }
  }

  /** No frames, no buckets. */
  lemma EmptyInputGivesEmptySeries(framerate: real)
    requires framerate > 0.0
    ensures PerSecondBitrate([], framerate) == []
  {
  }

  /** Frames with non-negative sizes give non-negative buckets. */
  lemma NonNegativeBuckets(frames: seq<Frame>, framerate: real)
    requires framerate > 0.0
    requires forall j :: 0 <= j < |frames| ==> frames[j].kbitrate >= 0.0
    ensures forall i :: 0 <= i < SecondCount(|frames|, framerate) ==>
      PerSecondBitrate(frames, framerate)[i] >= 0.0
  {
    var c := Contributions(frames);
    forall i | 0 <= i < SecondCount(|frames|, framerate)
      ensures PerSecondBitrate(frames, framerate)[i] >= 0.0
    {
      SecondsInBounds(|frames|, framerate, i + 1);
      SecondStartMonotone(i, i + 1, framerate);
      SumNonNegative(c[SecondStart(i, framerate)..SecondStart(i + 1, framerate)]);
    }
  }

  /** Frames built from probed packet sizes give non-negative buckets. */
  lemma PacketFramesGiveNonNegativeBuckets(sizes: seq<nat>, keyFrames: seq<int>, framerate: real)
    requires framerate > 0.0 && |sizes| == |keyFrames|
    ensures var frames := seq(|sizes|, j requires 0 <= j < |sizes| => FrameOfPacket(sizes[j], keyFrames[j]));
      forall i :: 0 <= i < |PerSecondBitrate(frames, framerate)| ==> PerSecondBitrate(frames, framerate)[i] >= 0.0
  {
    var frames := seq(|sizes|, j requires 0 <= j < |sizes| => FrameOfPacket(sizes[j], keyFrames[j]));
    NonNegativeBuckets(frames, framerate);
  }
}
