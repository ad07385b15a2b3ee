/**
 The rule-based pinch classifier of `GestureRecognizer` (src/gesture_recognizer.py).

 It reads only the first hand of the estimator's hand list, measures the Euclidean distance
 from the thumb tip to the index tip and to the middle tip, and answers one of three integer
 symbols. `math.sqrt` is not available over `real`, so a distance is represented by the ghost
 predicate `IsDistance` and every threshold test is carried out on the squared distance;
 `SquaredComparisonAgrees` proves the two tests agree.
 */
module GestureRecognizer {
  import opened Landmarks

  /** The integer symbols `recognize` returns, as declared on the class. */
  const MouseButtonsUp: int := 0
  const MouseRightDown: int := 1
  const MouseLeftDown: int := 2

  /** A pinch is a thumb-to-finger distance strictly below this many normalised units. */
  const PinchThreshold: real := 0.05

  /** Python's `None` or a value. */
  datatype Option<T> = None | Some(value: T)

  /** The closed set of results of `recognize`. */
  datatype Gesture = ButtonsUp | RightDown | LeftDown

  /** The integer symbol the source returns for each gesture. */
  function Code(g: Gesture): (c: int)
    ensures MouseButtonsUp <= c <= MouseLeftDown
    ensures c == MouseLeftDown <==> g == LeftDown
    ensures c == MouseRightDown <==> g == RightDown
  {
    match g
    case ButtonsUp => MouseButtonsUp
    case RightDown => MouseRightDown
    case LeftDown => MouseLeftDown
  }

  /** Distinct gestures are reported as distinct integers. */
  lemma CodeInjective(g1: Gesture, g2: Gesture)
    ensures Code(g1) == Code(g2) <==> g1 == g2
  {
  }

  // ---------------------------------------------------------------------------
  // Geometry
  // ---------------------------------------------------------------------------

  /** The square of the Euclidean distance between two landmarks (x and y only). */
  function SquaredDistance(p: Point, q: Point): (d: real)
    ensures d >= 0.0
  {
    (p.x - q.x) * (p.x - q.x) + (p.y - q.y) * (p.y - q.y)
  }

  /** `d` is the value `math.sqrt` returns for the distance between `p` and `q`. */
  ghost predicate IsDistance(p: Point, q: Point, d: real)
  {
    d >= 0.0 && d * d == SquaredDistance(p, q)
  }

  /** The pinch test of the source, stated on squared distances. */
  predicate IsPinch(p: Point, q: Point)
  {
    SquaredDistance(p, q) < PinchThreshold * PinchThreshold
  }

  /** Distance does not depend on the order of its arguments. */
  lemma DistanceSymmetric(p: Point, q: Point, d: real)
    ensures SquaredDistance(p, q) == SquaredDistance(q, p)
    ensures IsDistance(p, q, d) <==> IsDistance(q, p, d)
    ensures IsPinch(p, q) <==> IsPinch(q, p)
  {
  }

  /** A landmark is at distance zero from itself, so it always counts as pinched against itself. */
  lemma DistanceToSelf(p: Point)
    ensures SquaredDistance(p, p) == 0.0
    ensures IsDistance(p, p, 0.0)
    ensures IsPinch(p, p)
  {
  }

  /** A product of two positive reals is positive. */
  lemma PositiveProduct(a: real, b: real)
    requires 0.0 < a && 0.0 < b
    ensures 0.0 < a * b
  {
  }

  /** For non-negative reals, comparing squares is comparing the values. */
  lemma SquareStrictlyMonotone(a: real, b: real)
    requires 0.0 <= a && 0.0 <= b
    ensures a < b <==> a * a < b * b
  {
    if a < b {
      PositiveProduct(b - a, b + a);
      assert (b - a) * (b + a) == b * b - a * a;
    } else if b < a {
      PositiveProduct(a - b, a + b);
      assert (a - b) * (a + b) == a * a - b * b;
    }
  }

  /** The source's test `sqrt(d2) < 0.05` and the model's `d2 < 0.05 * 0.05` always agree. */
  lemma SquaredComparisonAgrees(p: Point, q: Point, d: real)
    requires IsDistance(p, q, d)
    ensures d < PinchThreshold <==> IsPinch(p, q)
  {
    SquareStrictlyMonotone(d, PinchThreshold);
  }

  // ---------------------------------------------------------------------------
  // Predicates on the first hand
  // ---------------------------------------------------------------------------

  /** The mouse-control posture: pinky and ring tips below their knuckles, index tip above its knuckle.
      `recognize` never consults it (see `PostureNeverConsulted`). */
  predicate IsMouseGesture(hands: seq<Hand>)
    requires |hands| > 0
  {
    var h := hands[0];
    h.pinkyTip.y > h.pinkyMcp.y && h.ringTip.y > h.ringMcp.y && h.indexTip.y < h.indexMcp.y
  }

  /** Thumb tip pinched against the index tip. */
  predicate IsMouseLeftDown(hands: seq<Hand>)
    requires |hands| > 0
  {
    IsPinch(hands[0].thumbTip, hands[0].indexTip)
  }

  /** Thumb tip pinched against the middle tip. */
  predicate IsMouseRightDown(hands: seq<Hand>)
    requires |hands| > 0
  {
    IsPinch(hands[0].thumbTip, hands[0].middleTip)
  }

  /** The landmark that drives the pointer: the ring-finger knuckle of the first hand. */
  function GetPointerCoordinates(hands: seq<Hand>): Point
    requires |hands| > 0
  {
    hands[0].ringMcp
  }

  // ---------------------------------------------------------------------------
  // Classification
  // ---------------------------------------------------------------------------

  /** What the `if` at the head of `recognize` tests. The source writes the bound method
      `self.__is_mouse_gesture` without calling it, so the operand is a method object. */
  datatype GateOperand = BoundMethod | Called(result: bool)

  /** Python truthiness of the operand: a method object is always true. */
  predicate Truthy(v: GateOperand)
  {
    match v
    case BoundMethod => true
    case Called(b) => b
  }

  /** The classifier as written: gate on the method object, then left pinch before right pinch. */
  function Recognize(hands: seq<Hand>): (r: Option<Gesture>)
    requires |hands| > 0
    ensures r.Some?
  {
    if Truthy(BoundMethod) then
      if IsMouseLeftDown(hands) then Some(LeftDown)
      else if IsMouseRightDown(hands) then Some(RightDown)
      else Some(ButtonsUp)
    else
      None
  }

  /** LEFT_DOWN is answered exactly when the thumb-index distance is strictly below 0.05. */
  lemma RecognizeLeftIff(hands: seq<Hand>, d: real)
    requires |hands| > 0
    requires IsDistance(hands[0].thumbTip, hands[0].indexTip, d)
    ensures Recognize(hands) == Some(LeftDown) <==> d < PinchThreshold
  {
    SquaredComparisonAgrees(hands[0].thumbTip, hands[0].indexTip, d);
  }

  /** RIGHT_DOWN is answered exactly when there is no left pinch and the thumb-middle distance is below 0.05. */
  lemma RecognizeRightIff(hands: seq<Hand>, dIndex: real, dMiddle: real)
    requires |hands| > 0
    requires IsDistance(hands[0].thumbTip, hands[0].indexTip, dIndex)
    requires IsDistance(hands[0].thumbTip, hands[0].middleTip, dMiddle)
    ensures Recognize(hands) == Some(RightDown) <==> !(dIndex < PinchThreshold) && dMiddle < PinchThreshold
  {
    SquaredComparisonAgrees(hands[0].thumbTip, hands[0].indexTip, dIndex);
    SquaredComparisonAgrees(hands[0].thumbTip, hands[0].middleTip, dMiddle);
  }

  /** BUTTONS_UP is answered exactly when neither pinch holds. */
  lemma RecognizeButtonsUpIff(hands: seq<Hand>, dIndex: real, dMiddle: real)
    requires |hands| > 0
    requires IsDistance(hands[0].thumbTip, hands[0].indexTip, dIndex)
    requires IsDistance(hands[0].thumbTip, hands[0].middleTip, dMiddle)
    ensures Recognize(hands) == Some(ButtonsUp) <==> !(dIndex < PinchThreshold) && !(dMiddle < PinchThreshold)
  {
    SquaredComparisonAgrees(hands[0].thumbTip, hands[0].indexTip, dIndex);
    SquaredComparisonAgrees(hands[0].thumbTip, hands[0].middleTip, dMiddle);
  }

  /** When both pinches hold, the left one wins. */
  lemma LeftHasPriority(hands: seq<Hand>)
    requires |hands| > 0
    requires IsMouseLeftDown(hands) && IsMouseRightDown(hands)
    ensures Recognize(hands) == Some(LeftDown)
  {
  }

  /** The answer is never `None` and always one of the three integer symbols. */
  lemma RecognizeIsTotal(hands: seq<Hand>)
    requires |hands| > 0
    ensures Recognize(hands).Some?
    ensures Code(Recognize(hands).value) in {MouseButtonsUp, MouseRightDown, MouseLeftDown}
  {
  }

  /** A thumb-index distance of exactly 0.05 is not a left pinch: thumb at (0.5, 0.5), index tip
      at (0.53, 0.54), middle tip far away. */
  lemma ThresholdIsStrict()
    ensures var h := Uniform(Point(0.5, 0.5)).(indexTip := Point(0.53, 0.54), middleTip := Point(0.9, 0.9));
            IsDistance(h.thumbTip, h.indexTip, 0.05) && Recognize([h]) == Some(ButtonsUp)
  {
  }

  /** The answer depends only on the thumb, index and middle tips of the first hand: the posture
      landmarks (pinky, ring and index knuckles) and every other hand are ignored. */
  lemma RecognizeReadsOnlyPinchTips(a: seq<Hand>, b: seq<Hand>)
    requires |a| > 0 && |b| > 0
    requires a[0].thumbTip == b[0].thumbTip
    requires a[0].indexTip == b[0].indexTip
    requires a[0].middleTip == b[0].middleTip
    ensures Recognize(a) == Recognize(b)
  {
  }

  /** The posture predicate does not gate the result: a hand outside the mouse posture still
      yields a pinch result, where testing the called predicate would have yielded `None`. */
  lemma PostureNeverConsulted()
    ensures var h := Uniform(Point(0.5, 0.5));
            !IsMouseGesture([h]) && Recognize([h]) == Some(LeftDown)
            && !Truthy(Called(IsMouseGesture([h])))
  {
  }

  /** The pointer landmark is the ring knuckle of the first hand, whatever follows it in the list
      and whatever the finger tips do. */
  lemma PointerReadsRingKnuckle(a: seq<Hand>, b: seq<Hand>)
    requires |a| > 0 && |b| > 0
    requires a[0].ringMcp == b[0].ringMcp
    ensures GetPointerCoordinates(a) == GetPointerCoordinates(b)
    ensures GetPointerCoordinates(a) == a[0].ringMcp
  {
  }
}
