/**
 The fixed calibration stand-ins of the measurement engine. None of them is
 measured: they are hard-coded assumptions about the camera and the scene.
 */
module Calibration {

  /** Assumed frame height in pixels; vertical offsets are scored against it. */
  const FrameHeightPx: real := 720.0

  /** A candidate must score strictly above this to be matched. */
  const MatchThreshold: real := 0.3

  /** Assumed horizontal distance between the two capture positions. */
  const BaselineCm: real := 15.0

  /** Assumed focal length, relating pixel sizes to sizes at a given depth. */
  const FocalLengthPx: real := 1000.0

  /** Pairs whose centres are closer than this horizontally are not triangulated. */
  const MinDisparityPx: nat := 5

  /** Bounds every reported depth is clamped into. */
  const MinDepthCm: real := 20.0
  const MaxDepthCm: real := 500.0
}
