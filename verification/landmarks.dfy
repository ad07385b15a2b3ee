/**
 The landmark format produced by the external hand-pose estimator (MediaPipe Hands).
 Every coordinate is normalised to the camera frame; image-space y grows downwards,
 so a finger tip "above" its knuckle has the SMALLER y.
 */
module Landmarks {

  /** One normalised landmark. The estimator also reports a depth `z`; nothing in the core reads it. */
  datatype Point = Point(x: real, y: real)

  /** The 21 landmarks of one tracked hand, one field per role of MediaPipe's HandLandmark enumeration
      (indices 0 .. 20 in that order). */
  datatype Hand = Hand(
    wrist: Point,
    thumbCmc: Point, thumbMcp: Point, thumbIp: Point, thumbTip: Point,
    indexMcp: Point, indexPip: Point, indexDip: Point, indexTip: Point,
    middleMcp: Point, middlePip: Point, middleDip: Point, middleTip: Point,
    ringMcp: Point, ringPip: Point, ringDip: Point, ringTip: Point,
    pinkyMcp: Point, pinkyPip: Point, pinkyDip: Point, pinkyTip: Point)

  /** A hand whose 21 landmarks all sit at `p`; handy for building concrete poses. */
  function Uniform(p: Point): Hand
  {
    Hand(p, p, p, p, p, p, p, p, p, p, p, p, p, p, p, p, p, p, p, p, p)
  }
}
