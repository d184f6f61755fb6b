# Verticalizer crop-position pipeline in Dafny

This project models the analysis core of verticalizer. Verticalizer turns a landscape video into a 9:16 vertical one by following the dominant face. The core has three stages, each a small integer algorithm:

- **Crop estimator** (`face_detection.py`, module `FaceDetection`). For every frame, it picks the detected face with the largest area and takes that face's centre. If there is no face, it takes the middle of the frame. It turns that centre into the left edge of a 9:16 window and clamps the edge into the frame. A frame that cannot be read records `video_width // 2` directly, without the clamp.
- **Debounce smoother** (`smooth_crops.py`, module `Smoothing`). One pass over the per-frame offsets with two locals: the current offset and a counter. A different offset takes over only if the current one has already been emitted for at least `min_frames` frames. Rejected frames still advance the counter. This is not a majority filter, and the model keeps that policy exactly.
- **Segment reducer** (`generate_segments.py`, module `Segments`). Run-length encodes the smoothed offsets into ordered `(start, end, crop)` segments, counted in frames.
- **Composition** (`main.py` steps 5 to 7, module `Pipeline`). Chains the three stages and states what the renderer receives.

Each source loop is a Dafny `method` with the same loop and the same locals. Each method is proved against a specification function or predicate. The properties the source promises are proved as lemmas about those specifications:

- the smoother's specification is `Smoothing.Smooth`, built from the loop state after every prefix of the input;
- the reducer is specified by its decoding `Segments.Expand` and the tiling predicates;
- the estimator is specified by the pure functions `FaceDetection.FrameCrop`, `ClampCrop`, `CenterX` and `LargestFace`.

Two behaviours of the code are kept as written:

- **Unreadable frames.** The renderer crops each segment with `crop={target_width}:{video_height}:{crop_x}:0` (ffmpeg_processing.py:22-29). So the window fits only when `crop_x + target_width <= video_width` holds. For unreadable frames the estimator records `video_width // 2` unclamped (face_detection.py:14-17), a centre used as a left edge. The window then sits right of centre. When the window fits the frame, it runs past the right edge exactly when `video_width < 2 * target_width - 1` (`UnreadablePastRightEdge`). A 1080x1920 portrait source is such a case: the window is 1080 wide, yet the offset is 540 (`UnreadablePortraitExample`). A 1920x1080 landscape source is not: the window, 607 wide, starts at 960 and stays in frame (`UnreadableLandscapeExample`). The model keeps this behaviour, and `UnreadableRightOfNoFace` shows that such a frame is cropped further right than a readable frame with no face. The bounds in `FrameCrop` and `CropSegments` are stated for readable frames only.
- **Empty input.** The smoother and the reducer index `[0]` of their input and raise on an empty list (smooth_crops.py:19, generate_segments.py:19). The model states this as `requires |…| > 0`. So the pipeline requires at least one frame.

## Model

| member | source | states |
|---|---|---|
| `Smoothing.Step` | smooth_crops.py:23-33 | one iteration: the current offset changes only to the incoming offset, and it changes exactly when the two differ and `count >= min_frames`; a change resets `count` to 1, otherwise `count` grows by 1 (rejected frames included) |
| `Smoothing.Emitted` | smooth_crops.py:22-34 | the loop appends exactly one offset per input frame |
| `Smoothing.Smooth` | smooth_crops.py:17-37 | the smoothed list has exactly as many entries as the input |
| `Smoothing.SmoothCrops` | smooth_crops.py:18-37 | the imperative loop over `current_crop`/`count` produces exactly `Smooth(crop_positions, min_frames)` |
| `Smoothing.TrailingRun` | smooth_crops.py:7 | the length of the last run of equal values: all of those entries are equal, and the entry just before them differs |
| `Smoothing.CountIsTrailingRun` | smooth_crops.py:20-33 | `count` always equals the number of frames emitted since the last accepted change, rejected frames included, and `current_crop` is the last emitted value |
| `Smoothing.SmoothFirst` | smooth_crops.py:19-34 | the first output equals the first input |
| `Smoothing.SmoothChangeTakesInput` | smooth_crops.py:23-34 | at each frame where the output changes, the new value is that frame's input offset |
| `Smoothing.SmoothValuesFromInput` | smooth_crops.py:22-34 | every output value is an input offset seen at or before that frame |
| `Smoothing.SmoothHoldsBeforeChange` | smooth_crops.py:24-33 | minimum-run guarantee: at every change of the output, the run being left has lasted at least `min_frames` frames (so only the last run can be shorter) |
| `Smoothing.SmoothWithoutDelay` | smooth_crops.py:24-26 | with `min_frames == 0` every change is accepted and the output equals the input |
| `Smoothing.SmoothConstant` | smooth_crops.py:32-34 | an all-constant input is returned unchanged for every `min_frames` |
| `Smoothing.ReplayAgrees` | smooth_crops.py:22-34 | replaying the emitted offsets from the same initial state passes through the same states and emits the same offsets |
| `Smoothing.SmoothIdempotent` | smooth_crops.py:22-34 | smoothing an already smoothed sequence with the same `min_frames` returns it unchanged |
| `Smoothing.SmoothTrace` | smooth_crops.py:22-34 | with `min_frames = 3`, `[100,100,100,200,200,100,100,100,100,100]` becomes `[100,100,100,200,200,200,100,100,100,100]` |
| `Segments.GenerateSegments` | generate_segments.py:17-38 | the segments tile frames `0..len` in order: the first starts at 0, each ends where the next starts, the last ends at `len`, and every segment is non-empty; neighbouring segments have different crops; expanding each segment to `end - start` copies of its crop gives back the input exactly; there is one more segment than there are change points |
| `Segments.ChangesBeforeCounts` | generate_segments.py:21-31 | counting changes frame by frame, as the loop closes segments, gives exactly the number of frames `i > 0` whose crop differs from frame `i - 1`'s |
| `Segments.ConstantIffNoChanges` | generate_segments.py:21-38 | an input has no change point if and only if it is constant, so a constant input yields exactly one segment |
| `Segments.ExpandLength` | generate_segments.py:33-38 | a tiling of frames `from..to` decodes to exactly `to - from` frames |
| `Segments.ExpandAt` | generate_segments.py:21-38 | every frame covered by a segment decodes to that segment's crop |
| `Segments.EncodingUnique` | generate_segments.py:21-38 | two tilings with distinct neighbours that decode to the same frames are equal, so the reducer's output is the unique run-length encoding of its input |
| `FaceDetection.LargestFace` | face_detection.py:23 | the chosen face is one of the detected faces, and no detected face has a larger `width * height`; which of several equal-area faces wins is not pinned |
| `FaceDetection.TargetWidth` | face_detection.py:30 | the window width is `video_height * 9 / 16` rounded down |
| `FaceDetection.CenterX` | face_detection.py:21-27 | with faces, the centre is `left + width // 2` of some face of maximal area; with none, it is `video_width // 2` |
| `FaceDetection.ClampCrop` | face_detection.py:30-32 | the offset is never negative; the window ends inside the frame whenever it fits; the offset is 0 when it does not fit; the window is exactly centred (`center_x - target_width // 2`) whenever that fits; a centred offset below 0 becomes 0; when the window fits and the centred offset would run past the right edge, the offset is `video_width - target_width`; so the offset always equals the clamp's value |
| `FaceDetection.FrameCrop` | face_detection.py:14-32 | an unreadable frame gives `video_width // 2` unclamped; a readable frame gives an offset that is non-negative and keeps the window inside the frame when it fits; with no face it is the clamped middle of the frame; with faces it is the clamped centre of a largest face |
| `FaceDetection.DetectFaces` | face_detection.py:11-33 | exactly one offset per frame, in frame order, each equal to `FrameCrop` of that frame (the unreadable path appends before `continue`) |
| `FaceDetection.UnreadableRightOfNoFace` | face_detection.py:14-32 | once the window is at least 2 pixels wide, an unreadable frame's offset is strictly right of a faceless readable frame's |
| `FaceDetection.UnreadablePastRightEdge` | face_detection.py:14-17 | when the window fits the frame, an unreadable frame's window runs past the right edge if and only if `video_width < 2 * target_width - 1` |
| `FaceDetection.UnreadableLandscapeExample` | face_detection.py:14-32 | a 1920x1080 source: window width 607, unreadable offset 960 with the window inside the frame, faceless readable offset 657 |
| `FaceDetection.UnreadablePortraitExample` | face_detection.py:14-32 | a 1080x1920 source: window width 1080, unreadable offset 540, faceless readable offset 0 |
| `Pipeline.SmoothedSegmentsHold` | main.py:99-103 | when segments encode a smoothed trajectory, every segment except the last spans at least `min_frames` frames |
| `Pipeline.SegmentCropsFromFrames` | main.py:96-103 | every segment's crop is the raw offset of some frame at or before the segment's start |
| `Pipeline.CropSegments` | main.py:96-103 | estimate, smooth and reduce: the segments decode to exactly `Smooth` of the per-frame estimates, so with `EncodingUnique` they are the unique run-length encoding of the smoothed trajectory; the result tiles all frames with distinct neighbours; every segment but the last lasts at least `min_frames` frames; each segment's crop is the estimate of some frame at or before its start; when every frame is readable, every crop keeps the window inside the frame |

## Left out

- Reading frames (`cv2.imread`, `cvtColor`) and the dlib face detector: frames arrive as `Unreadable` or `Readable(faces)`, and the model takes those results as given. Frame file paths and the detector object are therefore not modelled.
- A face box's top edge: no computation uses it.
- Progress and warning `print` calls and all `logging` calls: they have no effect on the results.
- `min_frames = int(min_duration_sec * frame_rate)` (smooth_crops.py:17): this is floating-point arithmetic, so `min_frames` is a natural-number parameter.
- Segment times in seconds (`frame / frame_rate`, generate_segments.py:25-26 and 35-36): floating point. Segments carry frame indices, and the times are those indices divided by the frame rate.
- The `crop_segments.json` write and the JSON round-trip of the segment list (generate_segments.py:41-44): file I/O and serialisation.
- `FaceDetection.TargetWidth`: `int(video_height * 9 / 16)` is a float division truncated to an integer. It is modelled as integer division. The two agree for the non-negative heights a video has, as long as the float is exact, which holds for every realistic height.
- `video_width // 2`, `width // 2` and `target_width // 2`: Python floor division by 2 is Dafny's `/`, which agrees with floor division for a positive divisor, negative dividends included.
- `Smoothing.Smooth`, `Smoothing.SmoothCrops`, `Segments.GenerateSegments`, `Pipeline.CropSegments`: an empty input is excluded by `requires |…| > 0` instead of being modelled. The source indexes `[0]` of an empty list (smooth_crops.py:19, generate_segments.py:19), raises `IndexError`, and `main.py` catches it and ends the run with a logged message (main.py:122-124). The model does not describe that error path.
- Everything outside the three core files and `main.py`'s chaining of them is not part of this model: extract_frames.py, ffmpeg_processing.py, concatenate_segments.py, utils.py (video decoding, ffmpeg/ffprobe subprocesses, metadata parsing, audio muxing, directory cleanup, logging setup), and `main.py`'s error handling.
