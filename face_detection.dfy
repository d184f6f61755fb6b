// The per-frame crop estimator of face_detection.py. Reading a frame and
// running the face detector on it are outside the model: each frame arrives
// as what they produced, either "unreadable" or the list of face boxes found.

module FaceDetection {

  /** A detected face: left edge, width and height in pixels. */
  datatype Box = Box(left: int, width: int, height: int)

  /** What reading frame i and running the detector on it yields. */
  datatype Frame = Unreadable | Readable(faces: seq<Box>)

  function Area(b: Box): int
  {
    b.width * b.height
  }

  function Max(a: int, b: int): int { if a < b then b else a }

  function Min(a: int, b: int): int { if a < b then a else b }

  /** The face of largest area. Among equal areas the earliest box wins, as
    * with Python's max; the contract does not depend on which one. */
  function LargestFace(faces: seq<Box>): (r: Box)
    requires |faces| > 0
    ensures r in faces
    ensures forall b :: b in faces ==> Area(b) <= Area(r)
  {
    if |faces| == 1 then faces[0]
    else
      var best := LargestFace(faces[1..]);
      if Area(best) > Area(faces[0]) then best else faces[0]
  }

  /** Width of the 9:16 window for a frame of the given height, rounded down. */
  function TargetWidth(videoHeight: nat): (w: nat)
    ensures 16 * w <= 9 * videoHeight < 16 * w + 16
  {
    videoHeight * 9 / 16
  }

  /** The horizontal position to centre on: the middle of the largest face, or
    * the middle of the frame when there is no face. */
  function CenterX(faces: seq<Box>, videoWidth: nat): (c: int)
    ensures |faces| == 0 ==> c == videoWidth / 2
    ensures |faces| > 0 ==>
      exists b :: b in faces && (forall b' :: b' in faces ==> Area(b') <= Area(b)) && c == b.left + b.width / 2
  {
    if |faces| > 0 then
      var largest := LargestFace(faces);
      largest.left + largest.width / 2
    else
      videoWidth / 2
  }

  /** The left edge of a window of TargetWidth centred on `centerX`, pushed back
    * inside the frame: never negative, never past the right edge when the
    * window fits, and exactly centred whenever that already fits. */
  function ClampCrop(centerX: int, videoWidth: nat, videoHeight: nat): (x: int)
    ensures 0 <= x
    ensures TargetWidth(videoHeight) <= videoWidth ==> x + TargetWidth(videoHeight) <= videoWidth
    ensures TargetWidth(videoHeight) >= videoWidth ==> x == 0
    ensures 0 <= centerX - TargetWidth(videoHeight) / 2 <= videoWidth - TargetWidth(videoHeight) ==>
      x == centerX - TargetWidth(videoHeight) / 2
    ensures centerX - TargetWidth(videoHeight) / 2 < 0 ==> x == 0
    ensures TargetWidth(videoHeight) <= videoWidth < centerX - TargetWidth(videoHeight) / 2 + TargetWidth(videoHeight) ==>
      x == videoWidth - TargetWidth(videoHeight)
    ensures x == 0 || x == centerX - TargetWidth(videoHeight) / 2 || x == videoWidth - TargetWidth(videoHeight)
  {
    var targetWidth := TargetWidth(videoHeight);
    var halfWidth := targetWidth / 2;
    Max(0, Min(centerX - halfWidth, videoWidth - targetWidth))
  }

  /** The crop offset recorded for one frame. An unreadable frame records the
    * middle of the frame as it is, without the clamp; a readable frame records
    * the clamped window around the largest face, or around the middle of the
    * frame when no face was found. */
  function FrameCrop(frame: Frame, videoWidth: nat, videoHeight: nat): (x: int)
    ensures frame.Unreadable? ==> x == videoWidth / 2
    ensures frame.Readable? ==> 0 <= x
    ensures frame.Readable? && TargetWidth(videoHeight) <= videoWidth ==> x + TargetWidth(videoHeight) <= videoWidth
    ensures frame == Readable([]) ==> x == ClampCrop(videoWidth / 2, videoWidth, videoHeight)
    ensures frame.Readable? && |frame.faces| > 0 ==>
      exists b :: b in frame.faces && (forall b' :: b' in frame.faces ==> Area(b') <= Area(b)) &&
        x == ClampCrop(b.left + b.width / 2, videoWidth, videoHeight)
  {
    match frame
    case Unreadable => videoWidth / 2
    case Readable(faces) => ClampCrop(CenterX(faces, videoWidth), videoWidth, videoHeight)
  }

  /** detect_faces: one crop offset per frame, in frame order. */
  method DetectFaces(frames: seq<Frame>, videoWidth: nat, videoHeight: nat) returns (cropPositions: seq<int>)
    ensures |cropPositions| == |frames|
    ensures forall i :: 0 <= i < |frames| ==> cropPositions[i] == FrameCrop(frames[i], videoWidth, videoHeight)
  {
    cropPositions := [];
    for i := 0 to |frames|
      invariant |cropPositions| == i
      invariant forall j :: 0 <= j < i ==> cropPositions[j] == FrameCrop(frames[j], videoWidth, videoHeight)
    {
      if frames[i].Unreadable? {
        cropPositions := cropPositions + [videoWidth / 2];
        continue;
      }
      var centerX := CenterX(frames[i].faces, videoWidth);
      var cropX := ClampCrop(centerX, videoWidth, videoHeight);
      cropPositions := cropPositions + [cropX];
    }
  }

  /** An unreadable frame is cropped further right than a readable frame with
    * no face, whenever the window is at least two pixels wide. */
  lemma UnreadableRightOfNoFace(videoWidth: nat, videoHeight: nat)
    requires 2 <= TargetWidth(videoHeight) && 2 <= videoWidth
    ensures FrameCrop(Readable([]), videoWidth, videoHeight) < FrameCrop(Unreadable, videoWidth, videoHeight)
  {
  }

  /** When the window fits the frame, an unreadable frame's window runs past the
    * right edge exactly when the frame is narrower than twice the window, less
    * one pixel: a portrait source does, a landscape one does not. */
  lemma UnreadablePastRightEdge(videoWidth: nat, videoHeight: nat)
    requires TargetWidth(videoHeight) <= videoWidth
    ensures FrameCrop(Unreadable, videoWidth, videoHeight) + TargetWidth(videoHeight) > videoWidth
        <==> videoWidth < 2 * TargetWidth(videoHeight) - 1
  {
  }

  /** For a 1080x1920 portrait source the window is the whole width, yet an
    * unreadable frame records an offset of 540. */
  lemma UnreadablePortraitExample()
    ensures TargetWidth(1920) == 1080
    ensures FrameCrop(Unreadable, 1080, 1920) == 540
    ensures FrameCrop(Readable([]), 1080, 1920) == 0
  {
  }

  /** For a 1920x1080 landscape source the window is 607 wide and an unreadable
    * frame's window, starting at 960, stays inside the frame but right of centre. */
  lemma UnreadableLandscapeExample()
    ensures TargetWidth(1080) == 607
    ensures FrameCrop(Unreadable, 1920, 1080) == 960
    ensures FrameCrop(Unreadable, 1920, 1080) + TargetWidth(1080) <= 1920
    ensures FrameCrop(Readable([]), 1920, 1080) == 657
  {
  }
}
