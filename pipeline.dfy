// The analysis half of main.py: estimate a crop offset per frame, smooth the
// offsets, and reduce them to segments. What the renderer then does with the
// segments is outside the model.

module Pipeline {
  import opened FaceDetection
  import opened Smoothing
  import opened Segments

  /** Segments that encode a smoothed trajectory last at least `minFrames`
    * frames each, except the last one. */
  lemma SmoothedSegmentsHold(crops: seq<int>, minFrames: nat, segs: seq<Segment>)
    requires |crops| > 0
    requires Tiles(segs, 0, |crops|) && AdjacentDistinct(segs)
    requires Expand(segs) == Smooth(crops, minFrames)
    ensures forall k :: 0 <= k < |segs| - 1 ==> Span(segs[k]) >= minFrames
  {
    forall k | 0 <= k < |segs| - 1
      ensures Span(segs[k]) >= minFrames
    {
      SmoothedSegmentHolds(crops, minFrames, segs, k);
    }
  }

  /** Segment `k` is followed by a change of the smoothed trajectory, so the
    * run it covers lasted at least `minFrames` frames. */
  lemma SmoothedSegmentHolds(crops: seq<int>, minFrames: nat, segs: seq<Segment>, k: nat)
    requires |crops| > 0
    requires Tiles(segs, 0, |crops|) && AdjacentDistinct(segs) && k + 1 < |segs|
    requires Expand(segs) == Smooth(crops, minFrames)
    ensures Span(segs[k]) >= minFrames
  {
    var c := segs[k + 1].start;
    assert segs[k].end == c && segs[k].start < c;
    ExpandAt(segs, 0, |crops|, k + 1, c);
    ExpandAt(segs, 0, |crops|, k, c - 1);
    SmoothHoldsBeforeChange(crops, minFrames, c);
    if segs[k].start + minFrames > c {
      assert k > 0;
      ExpandAt(segs, 0, |crops|, k - 1, segs[k].start - 1);
      assert false;
    }
  }

  /** Every segment's crop is the offset estimated for some frame at or before
    * the segment's start. */
  lemma SegmentCropsFromFrames(crops: seq<int>, minFrames: nat, segs: seq<Segment>)
    requires |crops| > 0
    requires Tiles(segs, 0, |crops|)
    requires Expand(segs) == Smooth(crops, minFrames)
    ensures forall k :: 0 <= k < |segs| ==> segs[k].start < |crops| && segs[k].crop in crops[..segs[k].start + 1]
  {
    forall k | 0 <= k < |segs|
      ensures segs[k].start < |crops| && segs[k].crop in crops[..segs[k].start + 1]
    {
      SegmentCropFromFrame(crops, minFrames, segs, k);
    }
  }

  lemma SegmentCropFromFrame(crops: seq<int>, minFrames: nat, segs: seq<Segment>, k: nat)
    requires |crops| > 0
    requires Tiles(segs, 0, |crops|) && k < |segs|
    requires Expand(segs) == Smooth(crops, minFrames)
    ensures segs[k].start < |crops| && segs[k].crop in crops[..segs[k].start + 1]
  {
    var start := segs[k].start;
    ExpandAt(segs, 0, |crops|, k, start);
    SmoothValuesFromInput(crops, minFrames, start);
  }

  /** The per-frame offsets detect_faces estimates for `frames`. */
  function Estimates(frames: seq<Frame>, videoWidth: nat, videoHeight: nat): seq<int>
  {
    seq(|frames|, i requires 0 <= i < |frames| => FrameCrop(frames[i], videoWidth, videoHeight))
  }

  /** Steps 5 to 7 of main: detect_faces, smooth_crops, generate_segments. */
  method CropSegments(frames: seq<Frame>, videoWidth: nat, videoHeight: nat, minFrames: nat)
    returns (segments: seq<Segment>)
    requires |frames| > 0
    ensures Expand(segments) == Smooth(Estimates(frames, videoWidth, videoHeight), minFrames)
    ensures Tiles(segments, 0, |frames|) && AdjacentDistinct(segments)
    ensures forall k :: 0 <= k < |segments| - 1 ==> Span(segments[k]) >= minFrames
    ensures forall k :: 0 <= k < |segments| ==>
      exists i :: 0 <= i <= segments[k].start && i < |frames| &&
        segments[k].crop == FrameCrop(frames[i], videoWidth, videoHeight)
    ensures (forall i :: 0 <= i < |frames| ==> frames[i].Readable?) ==>
      forall k :: 0 <= k < |segments| ==>
        0 <= segments[k].crop &&
        (TargetWidth(videoHeight) <= videoWidth ==> segments[k].crop + TargetWidth(videoHeight) <= videoWidth)
  {
    var cropPositions := DetectFaces(frames, videoWidth, videoHeight);
    assert cropPositions == Estimates(frames, videoWidth, videoHeight);
    var smoothed := SmoothCrops(cropPositions, minFrames);
    segments := GenerateSegments(smoothed);
    SmoothedSegmentsHold(cropPositions, minFrames, segments);
    SegmentCropsFromFrames(cropPositions, minFrames, segments);
    forall k | 0 <= k < |segments|
      ensures exists i :: 0 <= i <= segments[k].start && i < |frames| &&
                          segments[k].crop == FrameCrop(frames[i], videoWidth, videoHeight)
    {
      var prefix := cropPositions[..segments[k].start + 1];
      var i :| 0 <= i < |prefix| && prefix[i] == segments[k].crop;
      assert cropPositions[i] == segments[k].crop;
    }
  }
}
