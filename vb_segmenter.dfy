/**
 * `VideoDataExtractor.extract_bitrate_data`, a second copy of the per-second
 * bucketing with the same two append loops as
 * `BitrateExtractor._extract_bitrate_data`. It is proved against the same
 * specification, so on identical inputs both return the same series.
 */
module VBSegmenter {
  import opened Series
  import opened BitrateExtraction

  /**
   * `VideoDataExtractor.extract_bitrate_data(frame_data, framerate)`: a zero
   * rate is a division by zero, a negative rate gives no buckets.
   */
  method ExtractBitrateData(frames: seq<Frame>, framerate: real) returns (normed: seq<real>)
    requires framerate != 0.0
    ensures framerate > 0.0 ==> normed == PerSecondBitrate(frames, framerate)
    ensures framerate < 0.0 ==> normed == []
  {
    var bitrateData: seq<real> := [];
    for index := 0 to |frames|
      invariant |bitrateData| == index
      invariant forall j :: 0 <= j < index ==> bitrateData[j] == Contribution(frames[j])
    {
      var item := frames[index];
      if item.keyframe == 0 {
        bitrateData := bitrateData + [item.kbitrate];
      } else {
        bitrateData := bitrateData + [0.0];
      }
    }
    assert bitrateData == Contributions(frames);
    normed := [];
    var bound := LoopBound(|bitrateData|, framerate);
    var i := 0;
    while i < bound
      invariant 0 <= i && |normed| == i
      invariant framerate < 0.0 ==> i == 0
      invariant framerate > 0.0 ==> i <= bound
      invariant framerate > 0.0 ==>
        forall j :: 0 <= j < i ==> normed[j] == PerSecondBitrate(frames, framerate)[j]
    {
      SecondsInBounds(|bitrateData|, framerate, i + 1);
      SecondStartMonotone(i, i + 1, framerate);
      var normedBitrate := Sum(bitrateData[SecondStart(i, framerate)..SecondStart(i + 1, framerate)]);
      normed := normed + [normedBitrate];
      i := i + 1;
    }
  }

  /**
   * `BitrateExtractor._extract_bitrate_data` and this copy return the same
   * series for the same frames and rate.
   */
  method ExtractorsAgree(frames: seq<Frame>, framerate: real) returns (fromExtractor: seq<real>, fromSegmenter: seq<real>)
    requires framerate != 0.0
    ensures fromExtractor == fromSegmenter
  {
    fromExtractor := BitrateExtraction.ExtractBitrateData(frames, framerate);
    fromSegmenter := ExtractBitrateData(frames, framerate);
  }
}
