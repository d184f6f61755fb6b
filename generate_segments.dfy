// The segment reducer of generate_segments.py: run-length encoding of the
// smoothed per-frame crop offsets into ordered constant-crop segments. Times
// are kept as frame indices; the source's seconds are these divided by the
// frame rate.

module Segments {

  /** One segment: frames `start` (inclusive) to `end` (exclusive), cropped at `crop`. */
  datatype Segment = Segment(start: nat, end: nat, crop: int)

  /** Number of frames a segment covers (none when its bounds are reversed). */
  function Span(s: Segment): nat
  {
    if s.start <= s.end then s.end - s.start else 0
  }

  /** Run-length decoding: every segment becomes `Span` copies of its crop. */
  function Expand(segs: seq<Segment>): seq<int>
  {
    if segs == [] then []
    else
      var last := segs[|segs| - 1];
      Expand(segs[..|segs| - 1]) + seq(Span(last), _ => last.crop)
  }

  /** The segments are non-empty, ordered and contiguous, and together cover
    * exactly the frames `from` to `to`. */
  ghost predicate Tiles(segs: seq<Segment>, from: nat, to: nat)
  {
    (segs == [] ==> from == to) &&
    (segs != [] ==> segs[0].start == from && segs[|segs| - 1].end == to) &&
    (forall k :: 0 <= k < |segs| ==> segs[k].start < segs[k].end) &&
    (forall k :: 0 < k < |segs| ==> segs[k - 1].end == segs[k].start)
  }

  /** No two neighbouring segments share a crop. */
  ghost predicate AdjacentDistinct(segs: seq<Segment>)
  {
    forall k :: 0 < k < |segs| ==> segs[k - 1].crop != segs[k].crop
  }

  /** The frames at which the crop differs from the previous frame's. */
  function ChangePoints(crops: seq<int>): set<int>
  {
    set i | 0 < i < |crops| && ChangesAt(crops, i)
  }

  /** The number of change points among the first `n` frames, counted frame by frame. */
  function ChangesBefore(crops: seq<int>, n: nat): nat
    requires n <= |crops|
  {
    if n <= 1 then 0
    else ChangesBefore(crops, n - 1) + (if ChangesAt(crops, n - 1) then 1 else 0)
  }

  /** Frame `i` carries a different crop from frame `i - 1`. */
  predicate ChangesAt(crops: seq<int>, i: int)
  {
    0 < i < |crops| && crops[i] != crops[i - 1]
  }

  /** generate_segments itself, without the JSON file it writes. */
  method GenerateSegments(smoothedCrops: seq<int>) returns (segments: seq<Segment>)
    requires |smoothedCrops| > 0
    ensures |segments| == |ChangePoints(smoothedCrops)| + 1
    ensures Tiles(segments, 0, |smoothedCrops|)
    ensures AdjacentDistinct(segments)
    ensures Expand(segments) == smoothedCrops
  {
    segments := [];
    var startFrame: nat := 0;
    var currentCrop := smoothedCrops[0];
    for i := 0 to |smoothedCrops|
      invariant Scanned(smoothedCrops, segments, startFrame, currentCrop, i)
    {
      var crop := smoothedCrops[i];
      if crop != currentCrop {
        var endFrame := i;
        ScanChange(smoothedCrops, segments, startFrame, currentCrop, i);
        segments := segments + [Segment(startFrame, endFrame, currentCrop)];
        startFrame := i;
        currentCrop := crop;
      } else {
        ScanSame(smoothedCrops, segments, startFrame, currentCrop, i);
      }
    }
    ScanEnd(smoothedCrops, segments, startFrame, currentCrop);
    segments := segments + [Segment(startFrame, |smoothedCrops|, currentCrop)];
  }

  /** The loop's invariant after frames `0..i`: the closed segments tile frames
    * `0..start` with distinct neighbours and decode to them, one per change
    * point so far; the open run starts at `start` and every frame since carries
    * `crop`, which differs from the last closed segment's crop. */
  ghost predicate Scanned(crops: seq<int>, segs: seq<Segment>, start: nat, crop: int, i: nat)
  {
    start <= i <= |crops| && start < |crops| && (0 < i ==> start < i) &&
    crops[start] == crop && (forall j :: start <= j < i ==> crops[j] == crop) &&
    Tiles(segs, 0, start) && AdjacentDistinct(segs) &&
    (segs != [] ==> segs[|segs| - 1].crop != crop) &&
    Expand(segs) == crops[..start] &&
    |segs| == ChangesBefore(crops, i)
  }

  /** A frame that carries the open run's crop extends the run. */
  lemma ScanSame(crops: seq<int>, segs: seq<Segment>, start: nat, crop: int, i: nat)
    requires Scanned(crops, segs, start, crop, i) && i < |crops| && crops[i] == crop
    ensures Scanned(crops, segs, start, crop, i + 1)
  {
    assert 0 < i ==> crops[i - 1] == crop;
  }

  /** A frame with another crop closes the open run and opens a new one there. */
  lemma ScanChange(crops: seq<int>, segs: seq<Segment>, start: nat, crop: int, i: nat)
    requires Scanned(crops, segs, start, crop, i) && i < |crops| && crops[i] != crop
    ensures Scanned(crops, segs + [Segment(start, i, crop)], i, crops[i], i + 1)
  {
    assert 0 < i && crops[i - 1] == crop;
    CloseRun(crops, segs, start, i, crop);
  }

  /** After the last frame, closing the open run completes the encoding. */
  lemma ScanEnd(crops: seq<int>, segs: seq<Segment>, start: nat, crop: int)
    requires Scanned(crops, segs, start, crop, |crops|)
    ensures |segs + [Segment(start, |crops|, crop)]| == |ChangePoints(crops)| + 1
    ensures Tiles(segs + [Segment(start, |crops|, crop)], 0, |crops|)
    ensures AdjacentDistinct(segs + [Segment(start, |crops|, crop)])
    ensures Expand(segs + [Segment(start, |crops|, crop)]) == crops
  {
    CloseRun(crops, segs, start, |crops|, crop);
    assert crops[..|crops|] == crops;
    ChangesBeforeCounts(crops, |crops|);
  }

  /** Closing the open run of frames `start..end` as a segment keeps the
    * segments a tiling with distinct neighbours that decodes to the input so far. */
  lemma CloseRun(crops: seq<int>, segs: seq<Segment>, start: nat, end: nat, crop: int)
    requires start < end <= |crops|
    requires forall j :: start <= j < end ==> crops[j] == crop
    requires Tiles(segs, 0, start) && AdjacentDistinct(segs)
    requires segs != [] ==> segs[|segs| - 1].crop != crop
    requires Expand(segs) == crops[..start]
    ensures Tiles(segs + [Segment(start, end, crop)], 0, end)
    ensures AdjacentDistinct(segs + [Segment(start, end, crop)])
    ensures Expand(segs + [Segment(start, end, crop)]) == crops[..end]
  {
    ExpandRun(segs, Segment(start, end, crop), crops);
    TilesSnoc(segs, Segment(start, end, crop), 0);
  }

  /** Counting frame by frame gives the number of change points below `n`. */
  lemma {:induction false} ChangesBeforeCounts(crops: seq<int>, n: nat)
    requires n <= |crops|
    ensures ChangesBefore(crops, n) == |set i | 0 < i < n && ChangesAt(crops, i)|
  {
    var after := set i | 0 < i < n && ChangesAt(crops, i);
    if n > 1 {
      ChangesBeforeCounts(crops, n - 1);
      var before := set i | 0 < i < n - 1 && ChangesAt(crops, i);
      if ChangesAt(crops, n - 1) {
        assert after == before + {n - 1};
        assert n - 1 !in before;
      } else {
        assert after == before;
      }
    } else {
      assert after == {};
    }
  }

  /** Appending a segment whose frames all carry its crop extends the decoded
    * prefix of `crops` up to the segment's end. */
  lemma ExpandRun(segs: seq<Segment>, s: Segment, crops: seq<int>)
    requires s.start <= s.end <= |crops|
    requires Expand(segs) == crops[..s.start]
    requires forall j :: s.start <= j < s.end ==> crops[j] == s.crop
    ensures Expand(segs + [s]) == crops[..s.end]
  {
    assert (segs + [s])[..|segs|] == segs;
    assert crops[..s.end] == crops[..s.start] + crops[s.start..s.end];
    assert crops[s.start..s.end] == seq(Span(s), _ => s.crop);
  }

  /** A segment that starts where a tiling ends, and differs in crop from its
    * last segment, extends the tiling and keeps neighbours distinct. */
  lemma TilesSnoc(segs: seq<Segment>, s: Segment, from: nat)
    requires Tiles(segs, from, s.start) && s.start < s.end
    requires AdjacentDistinct(segs)
    requires segs != [] ==> segs[|segs| - 1].crop != s.crop
    ensures Tiles(segs + [s], from, s.end)
    ensures AdjacentDistinct(segs + [s])
  {
    var t := segs + [s];
    forall k | 0 < k < |t|
      ensures t[k - 1].end == t[k].start && t[k - 1].crop != t[k].crop
    {
      if k < |segs| {
        assert t[k - 1] == segs[k - 1] && t[k] == segs[k];
      }
    }
  }

  // ---------------------------------------------------------------------------
  // Properties of the encoding

  /** A crop sequence has no change point exactly when it is constant, so a
    * constant input gives exactly one segment. */
  lemma ConstantIffNoChanges(crops: seq<int>)
    requires |crops| > 0
    ensures (forall i :: 0 <= i < |crops| ==> crops[i] == crops[0]) <==> ChangePoints(crops) == {}
  {
    if ChangePoints(crops) == {} {
      forall i | 0 <= i < |crops|
        ensures crops[i] == crops[0]
      {
        NoChangeUpTo(crops, i);
      }
    } else {
      var i :| i in ChangePoints(crops);
      assert crops[i] != crops[i - 1];
    }
  }

  lemma {:induction false} NoChangeUpTo(crops: seq<int>, i: nat)
    requires ChangePoints(crops) == {} && i < |crops|
    ensures crops[i] == crops[0]
  {
    if i > 0 {
      assert i !in ChangePoints(crops);
      NoChangeUpTo(crops, i - 1);
    }
  }

  /** Dropping the last segment of a tiling leaves a tiling up to that segment's start. */
  lemma TilesInit(segs: seq<Segment>, from: nat, to: nat)
    requires Tiles(segs, from, to) && segs != []
    ensures Tiles(segs[..|segs| - 1], from, segs[|segs| - 1].start)
    ensures AdjacentDistinct(segs) ==> AdjacentDistinct(segs[..|segs| - 1])
  {
  }

  /** A tiling of `from` to `to` decodes to exactly `to - from` frames. */
  lemma {:induction false} ExpandLength(segs: seq<Segment>, from: nat, to: nat)
    requires Tiles(segs, from, to)
    ensures from <= to && |Expand(segs)| == to - from
  {
    if segs != [] {
      var last := segs[|segs| - 1];
      TilesInit(segs, from, to);
      ExpandLength(segs[..|segs| - 1], from, last.start);
    }
  }

  /** Every frame a segment covers decodes to that segment's crop. */
  lemma {:induction false} ExpandAt(segs: seq<Segment>, from: nat, to: nat, k: nat, j: nat)
    requires Tiles(segs, from, to)
    requires k < |segs| && segs[k].start <= j < segs[k].end
    ensures from <= j < to && |Expand(segs)| == to - from
    ensures Expand(segs)[j - from] == segs[k].crop
  {
    var init, last := segs[..|segs| - 1], segs[|segs| - 1];
    TilesInit(segs, from, to);
    ExpandLength(segs, from, to);
    ExpandLength(init, from, last.start);
    if k < |segs| - 1 {
      assert init[k] == segs[k];
      ExpandAt(init, from, last.start, k, j);
    }
  }

  /** Two tilings of the same frames that decode alike and whose neighbours
    * differ cannot have last segments starting at different frames: the
    * later start would separate two frames of one run. */
  lemma LastStartNotBefore(a: seq<Segment>, b: seq<Segment>, from: nat, to: nat)
    requires Tiles(a, from, to) && Tiles(b, from, to) && a != [] && b != []
    requires AdjacentDistinct(b)
    requires Expand(a) == Expand(b)
    ensures a[|a| - 1].start >= b[|b| - 1].start
  {
    var la, lb := a[|a| - 1], b[|b| - 1];
    if la.start < lb.start {
      ExpandAt(a, from, to, |a| - 1, la.start);
      assert |b| >= 2;
      ExpandAt(b, from, to, |b| - 2, lb.start - 1);
      ExpandAt(b, from, to, |b| - 1, lb.start);
      ExpandAt(a, from, to, |a| - 1, lb.start - 1);
      ExpandAt(a, from, to, |a| - 1, lb.start);
      assert false;
    }
  }

  /** Only the empty list tiles an empty range of frames. */
  lemma NothingTilesEmpty(segs: seq<Segment>, from: nat)
    requires Tiles(segs, from, from)
    ensures segs == []
  {
    ExpandLength(segs, from, from);
  }

  /** Two such tilings end with the same segment, and what precedes it is
    * again a pair of such tilings of the frames before it. */
  lemma LastSegmentsAgree(a: seq<Segment>, b: seq<Segment>, from: nat, to: nat)
    requires Tiles(a, from, to) && Tiles(b, from, to) && a != [] && b != []
    requires AdjacentDistinct(a) && AdjacentDistinct(b)
    requires Expand(a) == Expand(b)
    ensures a[|a| - 1] == b[|b| - 1]
    ensures Tiles(a[..|a| - 1], from, a[|a| - 1].start) && Tiles(b[..|b| - 1], from, a[|a| - 1].start)
    ensures AdjacentDistinct(a[..|a| - 1]) && AdjacentDistinct(b[..|b| - 1])
    ensures Expand(a[..|a| - 1]) == Expand(b[..|b| - 1])
  {
    var la, lb := a[|a| - 1], b[|b| - 1];
    LastStartNotBefore(a, b, from, to);
    LastStartNotBefore(b, a, from, to);
    ExpandAt(a, from, to, |a| - 1, to - 1);
    ExpandAt(b, from, to, |b| - 1, to - 1);
    var ia, ib := a[..|a| - 1], b[..|b| - 1];
    TilesInit(a, from, to);
    TilesInit(b, from, to);
    ExpandLength(ia, from, la.start);
    ExpandLength(ib, from, lb.start);
    assert Expand(ia) == Expand(a)[..la.start - from];
    assert Expand(ib) == Expand(b)[..lb.start - from];
  }

  /** Run-length encoding is unique: two ordered, contiguous segment lists
    * with distinct neighbours that decode to the same crops are equal. So the
    * output of GenerateSegments is the one canonical encoding of its input. */
  lemma {:induction false} EncodingUnique(a: seq<Segment>, b: seq<Segment>, from: nat, to: nat)
    requires Tiles(a, from, to) && Tiles(b, from, to)
    requires AdjacentDistinct(a) && AdjacentDistinct(b)
    requires Expand(a) == Expand(b)
    ensures a == b
    decreases |a|
  {
    if a == [] {
      NothingTilesEmpty(b, from);
    } else if b == [] {
      NothingTilesEmpty(a, from);
    } else {
      var ia, ib := a[..|a| - 1], b[..|b| - 1];
      LastSegmentsAgree(a, b, from, to);
      EncodingUnique(ia, ib, from, a[|a| - 1].start);
      assert a == ia + [a[|a| - 1]] && b == ib + [b[|b| - 1]];
    }
  }
}
