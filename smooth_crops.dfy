// The debounce smoother of smooth_crops.py: a single pass over the raw
// per-frame crop offsets that keeps emitting the current offset until it has
// been emitted for at least `minFrames` frames, and only then lets a
// different offset take over.

module Smoothing {

  /** The two locals of the loop: the offset being emitted and how many frames
    * have been processed since it was accepted (rejected frames included). */
  datatype Debounce = Debounce(current: int, count: nat)

  /** One iteration of the loop body for the incoming offset `crop`. A change
    * happens only to `crop`, and exactly when `crop` differs from the current
    * offset and the current offset has already been held `minFrames` frames. */
  function Step(s: Debounce, crop: int, minFrames: nat): (t: Debounce)
    ensures t.current != s.current <==> crop != s.current && s.count >= minFrames
    ensures t.current != s.current ==> t.current == crop && t.count == 1
    ensures t.current == s.current ==> t.count == s.count + 1
  {
    if crop != s.current then
      if s.count >= minFrames then Debounce(crop, 1) else Debounce(s.current, s.count + 1)
    else
      Debounce(s.current, s.count + 1)
  }

  /** The loop state after the frames of `crops` have been fed in, starting from `s0`. */
  function StateAfter(s0: Debounce, crops: seq<int>, minFrames: nat): Debounce
  {
    if crops == [] then s0
    else Step(StateAfter(s0, crops[..|crops| - 1], minFrames), crops[|crops| - 1], minFrames)
  }

  /** The offsets appended to the output list while `crops` is fed in from `s0`:
    * one per frame, the current offset after that frame. */
  function Emitted(s0: Debounce, crops: seq<int>, minFrames: nat): (out: seq<int>)
    ensures |out| == |crops|
  {
    if crops == [] then []
    else Emitted(s0, crops[..|crops| - 1], minFrames) + [StateAfter(s0, crops, minFrames).current]
  }

  /** The result of smooth_crops: the loop starts with the first offset as
    * current and a count of zero. */
  function Smooth(crops: seq<int>, minFrames: nat): (smoothed: seq<int>)
    requires |crops| > 0
    ensures |smoothed| == |crops|
  {
    Emitted(Debounce(crops[0], 0), crops, minFrames)
  }

  /** smooth_crops itself, with `min_frames` given as a natural number. */
  method SmoothCrops(cropPositions: seq<int>, minFrames: nat) returns (smoothed: seq<int>)
    requires |cropPositions| > 0
    ensures smoothed == Smooth(cropPositions, minFrames)
  {
    smoothed := [];
    var currentCrop := cropPositions[0];
    var count: nat := 0;
    ghost var s0 := Debounce(currentCrop, count);
    for i := 0 to |cropPositions|
      invariant Debounce(currentCrop, count) == StateAfter(s0, cropPositions[..i], minFrames)
      invariant smoothed == Emitted(s0, cropPositions[..i], minFrames)
    {
      var crop := cropPositions[i];
      assert cropPositions[..i + 1][..i] == cropPositions[..i];
      if crop != currentCrop {
        if count >= minFrames {
          currentCrop := crop;
          count := 1;
        } else {
          count := count + 1;
        }
      } else {
        count := count + 1;
      }
      smoothed := smoothed + [currentCrop];
    }
    assert cropPositions[..|cropPositions|] == cropPositions;
  }

  /** Number of equal values at the end of `y`: the length of its last run. */
  function TrailingRun(y: seq<int>): (r: nat)
    ensures r <= |y|
    ensures |y| > 0 ==> r >= 1
    ensures forall i :: |y| - r <= i < |y| ==> y[i] == y[|y| - 1]
    ensures 0 < r < |y| ==> y[|y| - 1 - r] != y[|y| - 1]
  {
    if |y| <= 1 then |y|
    else if y[|y| - 1] == y[|y| - 2] then TrailingRun(y[..|y| - 1]) + 1
    else 1
  }

  // ---------------------------------------------------------------------------
  // Prefix structure of the specification

  /** Feeding a prefix of the input emits a prefix of the output. */
  lemma {:induction false} EmittedPrefix(s0: Debounce, crops: seq<int>, minFrames: nat, n: nat)
    requires n <= |crops|
    ensures Emitted(s0, crops, minFrames)[..n] == Emitted(s0, crops[..n], minFrames)
    decreases |crops|
  {
    if n < |crops| {
      var init := crops[..|crops| - 1];
      EmittedPrefix(s0, init, minFrames, n);
      assert init[..n] == crops[..n];
      assert Emitted(s0, crops, minFrames)[..n] == Emitted(s0, init, minFrames)[..n];
    } else {
      assert crops[..n] == crops;
    }
  }

  /** The value emitted for frame `k` is the current offset after frames 0..k. */
  lemma EmittedAt(s0: Debounce, crops: seq<int>, minFrames: nat, k: nat)
    requires k < |crops|
    ensures Emitted(s0, crops, minFrames)[k] == StateAfter(s0, crops[..k + 1], minFrames).current
  {
    EmittedPrefix(s0, crops, minFrames, k + 1);
    assert Emitted(s0, crops, minFrames)[k] == Emitted(s0, crops, minFrames)[..k + 1][k];
  }

  /** The value emitted for frame `k` is one step of the state reached after frames 0..k-1. */
  lemma EmittedStep(s0: Debounce, crops: seq<int>, minFrames: nat, k: nat)
    requires k < |crops|
    ensures Emitted(s0, crops, minFrames)[k]
         == Step(StateAfter(s0, crops[..k], minFrames), crops[k], minFrames).current
  {
    EmittedAt(s0, crops, minFrames, k);
    assert crops[..k + 1][..k] == crops[..k];
  }

  // ---------------------------------------------------------------------------
  // Properties of the smoother

  /** The first frame always keeps its own offset. */
  lemma SmoothFirst(crops: seq<int>, minFrames: nat)
    requires |crops| > 0
    ensures Smooth(crops, minFrames)[0] == crops[0]
  {
    EmittedStep(Debounce(crops[0], 0), crops, minFrames, 0);
  }

  /** Wherever the output changes value, the new value is the input offset of that very frame. */
  lemma SmoothChangeTakesInput(crops: seq<int>, minFrames: nat, k: nat)
    requires 0 < k < |crops|
    requires Smooth(crops, minFrames)[k] != Smooth(crops, minFrames)[k - 1]
    ensures Smooth(crops, minFrames)[k] == crops[k]
  {
    var s0 := Debounce(crops[0], 0);
    EmittedStep(s0, crops, minFrames, k);
    EmittedAt(s0, crops, minFrames, k - 1);
  }

  /** Every output value is an input offset already seen at or before that frame. */
  lemma {:induction false} SmoothValuesFromInput(crops: seq<int>, minFrames: nat, k: nat)
    requires k < |crops|
    ensures Smooth(crops, minFrames)[k] in crops[..k + 1]
  {
    var y := Smooth(crops, minFrames);
    if k == 0 {
      SmoothFirst(crops, minFrames);
    } else if y[k] == y[k - 1] {
      SmoothValuesFromInput(crops, minFrames, k - 1);
      assert crops[..k] <= crops[..k + 1];
    } else {
      SmoothChangeTakesInput(crops, minFrames, k);
    }
  }

  /** The counter after a non-empty prefix is the length of the last run of the
    * output so far, provided the loop started with a count of zero. */
  lemma {:induction false} CountIsTrailingRun(s0: Debounce, crops: seq<int>, minFrames: nat)
    requires s0.count == 0 && |crops| > 0
    ensures StateAfter(s0, crops, minFrames).count == TrailingRun(Emitted(s0, crops, minFrames))
    ensures StateAfter(s0, crops, minFrames).current == Emitted(s0, crops, minFrames)[|crops| - 1]
  {
    var init := crops[..|crops| - 1];
    var y := Emitted(s0, crops, minFrames);
    if |init| > 0 {
      CountIsTrailingRun(s0, init, minFrames);
      assert y[..|y| - 1] == Emitted(s0, init, minFrames);
    }
  }

  /** Minimum-run guarantee: at every frame where the output changes value, the
    * run it leaves has lasted at least `minFrames` frames. Only the last run of
    * the output may be shorter. */
  lemma SmoothHoldsBeforeChange(crops: seq<int>, minFrames: nat, k: nat)
    requires 0 < k < |crops|
    requires Smooth(crops, minFrames)[k] != Smooth(crops, minFrames)[k - 1]
    ensures minFrames <= TrailingRun(Smooth(crops, minFrames)[..k])
    ensures minFrames <= k
    ensures forall i :: k - minFrames <= i < k ==> Smooth(crops, minFrames)[i] == Smooth(crops, minFrames)[k - 1]
  {
    var s0 := Debounce(crops[0], 0);
    var y := Smooth(crops, minFrames);
    var s := StateAfter(s0, crops[..k], minFrames);
    EmittedStep(s0, crops, minFrames, k);
    EmittedPrefix(s0, crops, minFrames, k);
    CountIsTrailingRun(s0, crops[..k], minFrames);
    assert y[..k] == Emitted(s0, crops[..k], minFrames);
    assert s.current == y[k - 1];
    forall i | k - minFrames <= i < k
      ensures y[i] == y[k - 1]
    {
      assert y[..k][i] == y[i];
    }
  }

  /** With `minFrames == 0` every change is accepted: the smoother is the identity. */
  lemma {:induction false} EmittedWithoutDelay(s0: Debounce, crops: seq<int>)
    ensures Emitted(s0, crops, 0) == crops
  {
    if crops != [] {
      var init := crops[..|crops| - 1];
      EmittedWithoutDelay(s0, init);
      assert crops == init + [crops[|crops| - 1]];
    }
  }

  lemma SmoothWithoutDelay(crops: seq<int>)
    requires |crops| > 0
    ensures Smooth(crops, 0) == crops
  {
    EmittedWithoutDelay(Debounce(crops[0], 0), crops);
  }

  /** Offsets equal to the current one never change the state's offset. */
  lemma {:induction false} EmittedSteady(s0: Debounce, crops: seq<int>, minFrames: nat)
    requires forall i :: 0 <= i < |crops| ==> crops[i] == s0.current
    ensures StateAfter(s0, crops, minFrames).current == s0.current
    ensures Emitted(s0, crops, minFrames) == crops
  {
    if crops != [] {
      var init := crops[..|crops| - 1];
      EmittedSteady(s0, init, minFrames);
      assert crops == init + [crops[|crops| - 1]];
    }
  }

  /** An all-constant input is returned unchanged, whatever `minFrames` is. */
  lemma SmoothConstant(crops: seq<int>, minFrames: nat)
    requires |crops| > 0
    requires forall i :: 0 <= i < |crops| ==> crops[i] == crops[0]
    ensures Smooth(crops, minFrames) == crops
  {
    EmittedSteady(Debounce(crops[0], 0), crops, minFrames);
  }

  /** Feeding a step its own output offset reaches the same state. */
  lemma StepAbsorbs(s: Debounce, crop: int, minFrames: nat)
    ensures Step(s, Step(s, crop, minFrames).current, minFrames) == Step(s, crop, minFrames)
  {
  }

  /** Replaying the emitted offsets from the same start passes through the same
    * states, so it emits the same offsets again. */
  lemma {:induction false} ReplayAgrees(s0: Debounce, crops: seq<int>, minFrames: nat)
    ensures StateAfter(s0, Emitted(s0, crops, minFrames), minFrames) == StateAfter(s0, crops, minFrames)
    ensures Emitted(s0, Emitted(s0, crops, minFrames), minFrames) == Emitted(s0, crops, minFrames)
  {
    if crops != [] {
      var init := crops[..|crops| - 1];
      var y := Emitted(s0, crops, minFrames);
      ReplayAgrees(s0, init, minFrames);
      assert y[..|y| - 1] == Emitted(s0, init, minFrames);
      StepAbsorbs(StateAfter(s0, init, minFrames), crops[|crops| - 1], minFrames);
    }
  }

  /** Idempotence: smoothing an already smoothed sequence with the same
    * `minFrames` changes nothing. */
  lemma SmoothIdempotent(crops: seq<int>, minFrames: nat)
    requires |crops| > 0
    ensures Smooth(Smooth(crops, minFrames), minFrames) == Smooth(crops, minFrames)
  {
    SmoothFirst(crops, minFrames);
    ReplayAgrees(Debounce(crops[0], 0), crops, minFrames);
  }

  /** The trace with `minFrames == 3`: the short run of 200 is accepted,
    * because 100 had already been held three frames, and it is then kept one
    * frame longer than the input has it. */
  lemma SmoothTrace()
    ensures Smooth([100, 100, 100, 200, 200, 100, 100, 100, 100, 100], 3)
         == [100, 100, 100, 200, 200, 200, 100, 100, 100, 100]
  {
    var s0 := Debounce(100, 0);
    TraceOpening();
    var p5 := [100, 100, 100, 200, 200];
    Snoc(s0, p5, 100, 3);
    var p6 := p5 + [100];
    assert StateAfter(s0, p6, 3) == Debounce(200, 3);
    assert Emitted(s0, p6, 3) == [100, 100, 100, 200, 200, 200];
    Snoc(s0, p6, 100, 3);
    var p7 := p6 + [100];
    assert StateAfter(s0, p7, 3) == Debounce(100, 1);
    Snoc(s0, p7, 100, 3);
    var p8 := p7 + [100];
    Snoc(s0, p8, 100, 3);
    var p9 := p8 + [100];
    Snoc(s0, p9, 100, 3);
    assert p9 + [100] == [100, 100, 100, 200, 200, 100, 100, 100, 100, 100];
  }

  /** The first five frames of the trace: 200 takes over at frame 3, once 100
    * has been held three frames. */
  lemma TraceOpening()
    ensures StateAfter(Debounce(100, 0), [100, 100, 100, 200, 200], 3) == Debounce(200, 2)
    ensures Emitted(Debounce(100, 0), [100, 100, 100, 200, 200], 3) == [100, 100, 100, 200, 200]
  {
    var s0 := Debounce(100, 0);
    Snoc(s0, [], 100, 3);
    var p1 := [] + [100];
    Snoc(s0, p1, 100, 3);
    var p2 := p1 + [100];
    Snoc(s0, p2, 100, 3);
    var p3 := p2 + [100];
    assert StateAfter(s0, p3, 3) == Debounce(100, 3);
    Snoc(s0, p3, 200, 3);
    var p4 := p3 + [200];
    assert StateAfter(s0, p4, 3) == Debounce(200, 1);
    Snoc(s0, p4, 200, 3);
    assert p4 + [200] == [100, 100, 100, 200, 200];
  }

  /** Feeding one more frame: one more step, one more emitted offset. */
  lemma Snoc(s0: Debounce, crops: seq<int>, crop: int, minFrames: nat)
    ensures StateAfter(s0, crops + [crop], minFrames) == Step(StateAfter(s0, crops, minFrames), crop, minFrames)
    ensures Emitted(s0, crops + [crop], minFrames)
         == Emitted(s0, crops, minFrames) + [StateAfter(s0, crops + [crop], minFrames).current]
  {
    assert (crops + [crop])[..|crops|] == crops;
  }
}
