/**
 The button latch machine of `MouseController` (src/mouse_controller.py).

 The controller's fields become the immutable record `Mouse`; each method becomes a function
 from a `Mouse` to a `Step`: the new record and the calls made on the pointer backend, in
 order. The screen size that the source reads from the backend at construction is a
 parameter of `Init`.
 */
module MouseController {
  import opened Reals

  /** One call on the pointer backend. */
  datatype Command =
    | MoveTo(x: real, y: real)  // moveTo(x, y)
    | Click                     // click(): a left click where the pointer is
    | RightClick                // rightClick()
    | MouseDown                 // mouseDown(button='left')
    | MouseUp                   // mouseUp(button='left')
    | Scroll(clicks: int)       // scroll(clicks): positive is up

  /** The controller: screen size, the two click latches and the count of left presses since the
      last `buttons_up`. */
  datatype Mouse = Mouse(
    screenWidth: int,
    screenHeight: int,
    hasClickedLeft: bool,
    hasClickedRight: bool,
    framesClickedLeft: nat)

  /** The result of one method: the controller afterwards and the backend calls made. */
  datatype Step = Step(mouse: Mouse, commands: seq<Command>)

  /** From this many left presses since the last `buttons_up` on, the left button is held down.
      Only `buttons_up` resets the count, so the presses need not be consecutive calls
      (`InterleavedPressesHold`). */
  const HoldFrames: nat := 10

  /** The camera sub-range [0.2, 0.8] that is stretched over the whole screen. */
  const ActiveMin: real := 0.2
  const ActiveSpan: real := 0.6

  /** A freshly constructed controller on a screen of the given size. */
  function Init(width: int, height: int): Mouse
  {
    Mouse(width, height, false, false, 0)
  }

  /** Both latches open and the counter at zero: the state `Init` and `ButtonsUp` leave. */
  predicate IsReleased(m: Mouse)
  {
    !m.hasClickedLeft && !m.hasClickedRight && m.framesClickedLeft == 0
  }

  /** How many times `x` occurs in `s`. */
  function Occurrences<T(==)>(s: seq<T>, x: T): (n: nat)
    ensures n <= |s|
    ensures n == 0 <==> x !in s
  {
    if |s| == 0 then 0 else (if s[0] == x then 1 else 0) + Occurrences(s[1..], x)
  }

  lemma {:induction false} OccurrencesAppend<T>(a: seq<T>, b: seq<T>, x: T)
    ensures Occurrences(a + b, x) == Occurrences(a, x) + Occurrences(b, x)
  {
    if |a| > 0 {
      assert (a + b)[1..] == a[1..] + b;
      OccurrencesAppend(a[1..], b, x);
    } else {
      assert a + b == b;
    }
  }

  // ---------------------------------------------------------------------------
  // Cursor mapping
  // ---------------------------------------------------------------------------

  /** One axis of `move_cursor` before clamping: stretch [0.2, 0.8] to [0, 1] and scale to the
      screen dimension. */
  function Stretch(v: real, size: int): real
  {
    (v - ActiveMin) / ActiveSpan * size as real
  }

  /** Python's `max(1, min(t, hi))`: the lower bound wins when the bounds cross. */
  function Clamp(t: real, hi: real): (r: real)
    ensures 1.0 <= hi ==> 1.0 <= r <= hi
    ensures hi < 1.0 ==> r == 1.0
    ensures 1.0 <= t <= hi ==> r == t
    ensures 1.0 <= hi <= t ==> r == hi
    ensures t <= 1.0 ==> r == 1.0
  {
    Max(1.0, Min(t, hi))
  }

  /** One axis of `move_cursor`: stretch, then clamp to [1, size - 2]. */
  function ScreenCoordinate(v: real, size: int): (r: real)
    ensures 3 <= size ==> 1.0 <= r <= (size - 2) as real
    ensures size < 3 ==> r == 1.0
    ensures 1.0 <= (v - ActiveMin) / ActiveSpan * size as real <= (size - 2) as real ==>
              r * ActiveSpan == (v - ActiveMin) * size as real
    ensures (v - ActiveMin) / ActiveSpan * size as real <= 1.0 ==> r == 1.0
    ensures 1.0 <= (size - 2) as real <= (v - ActiveMin) / ActiveSpan * size as real ==> r == (size - 2) as real
  {
    Clamp(Stretch(v, size), (size - 2) as real)
  }

  /** `move_cursor`: one `moveTo`, always on the screen, and the latches untouched. */
  function MoveCursor(m: Mouse, x: real, y: real): (r: Step)
    ensures r.mouse == m
    ensures |r.commands| == 1 && r.commands[0].MoveTo?
    ensures 3 <= m.screenWidth ==> 1.0 <= r.commands[0].x <= (m.screenWidth - 2) as real
    ensures 3 <= m.screenHeight ==> 1.0 <= r.commands[0].y <= (m.screenHeight - 2) as real
    ensures r.commands[0] == MoveTo(ScreenCoordinate(x, m.screenWidth), ScreenCoordinate(y, m.screenHeight))
  {
    Step(m, [MoveTo(ScreenCoordinate(x, m.screenWidth), ScreenCoordinate(y, m.screenHeight))])
  }

  lemma ProductMonotone(a: real, b: real, c: real)
    requires a <= b && 0.0 <= c
    ensures a * c <= b * c
  {
    assert b * c - a * c == (b - a) * c;
  }

  /** Stretching keeps the order of camera coordinates on a screen of non-negative size. */
  lemma StretchMonotone(v1: real, v2: real, size: int)
    requires v1 <= v2 && 0 <= size
    ensures Stretch(v1, size) <= Stretch(v2, size)
  {
    ProductMonotone((v1 - ActiveMin) / ActiveSpan, (v2 - ActiveMin) / ActiveSpan, size as real);
  }

  /** Moving the hand right (or down) never moves the pointer left (or up): no mirroring. */
  lemma ScreenCoordinateMonotone(v1: real, v2: real, size: int)
    requires v1 <= v2 && 0 <= size
    ensures ScreenCoordinate(v1, size) <= ScreenCoordinate(v2, size)
  {
    StretchMonotone(v1, v2, size);
  }

  /** The left (top) fifth of the camera frame pins the pointer to pixel 1 and the right
      (bottom) fifth to pixel size - 2. */
  lemma ScreenCoordinateEdges(v: real, size: int)
    requires 3 <= size
    ensures v <= ActiveMin ==> ScreenCoordinate(v, size) == 1.0
    ensures v >= ActiveMin + ActiveSpan ==> ScreenCoordinate(v, size) == (size - 2) as real
  {
    if v <= ActiveMin {
      StretchMonotone(v, ActiveMin, size);
      assert Stretch(ActiveMin, size) == 0.0;
    }
    if v >= ActiveMin + ActiveSpan {
      StretchMonotone(ActiveMin + ActiveSpan, v, size);
      assert Stretch(ActiveMin + ActiveSpan, size) == size as real;
    }
  }

  // ---------------------------------------------------------------------------
  // Buttons and scrolling
  // ---------------------------------------------------------------------------

  /** `left_button_down`: count the frame, click once per pinch, hold from the tenth frame on. */
  function LeftButtonDown(m: Mouse): (r: Step)
    ensures r.mouse.framesClickedLeft == m.framesClickedLeft + 1
    ensures r.mouse.hasClickedLeft
    ensures r.mouse.hasClickedRight == m.hasClickedRight
    ensures r.mouse.screenWidth == m.screenWidth && r.mouse.screenHeight == m.screenHeight
    ensures Click in r.commands <==> !m.hasClickedLeft
    ensures MouseDown in r.commands <==> m.framesClickedLeft + 1 >= HoldFrames
    ensures forall c :: c in r.commands ==> c == Click || c == MouseDown
    ensures Occurrences(r.commands, Click) == if m.hasClickedLeft then 0 else 1
    ensures Occurrences(r.commands, MouseDown) == if m.framesClickedLeft + 1 >= HoldFrames then 1 else 0
  {
    var frames := m.framesClickedLeft + 1;
    var click := if !m.hasClickedLeft then [Click] else [];
    var hold := if frames >= HoldFrames then [MouseDown] else [];
    Step(m.(framesClickedLeft := frames, hasClickedLeft := true), click + hold)
  }

  /** `right_button_down`: a right click only when the right latch is open; nothing else changes. */
  function RightButtonDown(m: Mouse): (r: Step)
    ensures r.mouse.hasClickedRight
    ensures r.mouse.hasClickedLeft == m.hasClickedLeft
    ensures r.mouse.framesClickedLeft == m.framesClickedLeft
    ensures r.mouse.screenWidth == m.screenWidth && r.mouse.screenHeight == m.screenHeight
    ensures r.commands == if m.hasClickedRight then [] else [RightClick]
  {
    if !m.hasClickedRight then
      Step(m.(hasClickedRight := true), [RightClick])
    else
      Step(m, [])
  }

  /** `buttons_up`: back to the constructed state, releasing the left button once. */
  function ButtonsUp(m: Mouse): (r: Step)
    ensures r.mouse == Init(m.screenWidth, m.screenHeight)
    ensures IsReleased(r.mouse)
    ensures r.commands == [MouseUp]
  {
    Step(m.(hasClickedRight := false, hasClickedLeft := false, framesClickedLeft := 0), [MouseUp])
  }

  /** `buttons_up` twice leaves the same controller as once. */
  lemma ButtonsUpIdempotent(m: Mouse)
    ensures ButtonsUp(ButtonsUp(m).mouse).mouse == ButtonsUp(m).mouse
  {
  }

  /** `scroll_down`: one scroll by the negated amount, controller untouched. */
  function ScrollDown(m: Mouse, amount: int): (r: Step)
    ensures r.mouse == m
    ensures |r.commands| == 1 && r.commands[0].Scroll? && r.commands[0].clicks == -amount
  {
    Step(m, [Scroll(-amount)])
  }

  /** `scroll_up`: one scroll by the amount itself, controller untouched. */
  function ScrollUp(m: Mouse, amount: int): (r: Step)
    ensures r.mouse == m
    ensures |r.commands| == 1 && r.commands[0].Scroll? && r.commands[0].clicks == amount
  {
    Step(m, [Scroll(amount)])
  }

  /** Scrolling up and then down by the same amount nets to zero and changes no latch. */
  lemma ScrollsCancel(m: Mouse, amount: int)
    ensures ScrollDown(ScrollUp(m, amount).mouse, amount).mouse == m
    ensures ScrollUp(m, amount).commands[0].clicks + ScrollDown(m, amount).commands[0].clicks == 0
  {
  }

  // ---------------------------------------------------------------------------
  // Sequences of calls
  // ---------------------------------------------------------------------------

  /** One method invocation on the controller. */
  datatype Call =
    | CallMoveCursor(x: real, y: real)
    | CallLeftButtonDown
    | CallRightButtonDown
    | CallButtonsUp
    | CallScrollDown(downBy: int)
    | CallScrollUp(upBy: int)

  function Apply(m: Mouse, call: Call): Step
  {
    match call
    case CallMoveCursor(x, y) => MoveCursor(m, x, y)
    case CallLeftButtonDown => LeftButtonDown(m)
    case CallRightButtonDown => RightButtonDown(m)
    case CallButtonsUp => ButtonsUp(m)
    case CallScrollDown(v) => ScrollDown(m, v)
    case CallScrollUp(v) => ScrollUp(m, v)
  }

  /** The controller after a sequence of calls, with every backend call in order. */
  function Run(m: Mouse, calls: seq<Call>): (r: Step)
    ensures r.mouse.screenWidth == m.screenWidth && r.mouse.screenHeight == m.screenHeight
    decreases |calls|
  {
    if |calls| == 0 then Step(m, [])
    else
      var first := Apply(m, calls[0]);
      var rest := Run(first.mouse, calls[1..]);
      Step(rest.mouse, first.commands + rest.commands)
  }

  /** `n` consecutive `left_button_down` calls. */
  function LeftPinch(n: nat): (r: seq<Call>)
    ensures |r| == n
  {
    seq(n, _ => CallLeftButtonDown)
  }

  /** How many of the frames f + 1 .. f + n reach the hold threshold. */
  function HeldFrames(f: nat, n: nat): nat
  {
    if f + n < HoldFrames then 0
    else if f >= HoldFrames - 1 then n
    else f + n - (HoldFrames - 1)
  }

  /** The counter and latches do not disagree: the left latch is closed exactly when some left
      pinch frame has been counted since the last release. */
  predicate Consistent(m: Mouse)
  {
    m.hasClickedLeft <==> m.framesClickedLeft > 0
  }

  /** In a consistent controller, `left_button_down` clicks exactly on the first counted frame. */
  lemma ClickOnFirstCountedFrame(m: Mouse)
    requires Consistent(m)
    ensures Click in LeftButtonDown(m).commands <==> LeftButtonDown(m).mouse.framesClickedLeft == 1
  {
  }

  /** Every method keeps the controller consistent. */
  lemma ApplyKeepsConsistent(m: Mouse, call: Call)
    requires Consistent(m)
    ensures Consistent(Apply(m, call).mouse)
  {
  }

  /** Every reachable controller is consistent (see `ClickOnFirstCountedFrame` for what that buys). */
  lemma {:induction false} RunKeepsConsistent(m: Mouse, calls: seq<Call>)
    requires Consistent(m)
    ensures Consistent(Run(m, calls).mouse)
    decreases |calls|
  {
    if |calls| > 0 {
      ApplyKeepsConsistent(m, calls[0]);
      RunKeepsConsistent(Apply(m, calls[0]).mouse, calls[1..]);
    }
  }

  /** Without a release, the counter grows by exactly the number of `left_button_down` calls,
      whatever other calls are interleaved with them. */
  lemma {:induction false} RunCountsLeftPresses(m: Mouse, calls: seq<Call>)
    requires CallButtonsUp !in calls
    ensures Run(m, calls).mouse.framesClickedLeft == m.framesClickedLeft + Occurrences(calls, CallLeftButtonDown)
    decreases |calls|
  {
    if |calls| > 0 {
      assert calls[0] != CallButtonsUp;
      assert forall c :: c in calls[1..] ==> c in calls;
      RunCountsLeftPresses(Apply(m, calls[0]).mouse, calls[1..]);
    }
  }

  lemma {:induction false} LeftPinchOccurrences(n: nat)
    ensures Occurrences(LeftPinch(n), CallLeftButtonDown) == n
    ensures CallButtonsUp !in LeftPinch(n)
    decreases n
  {
    if n > 0 {
      assert LeftPinch(n)[1..] == LeftPinch(n - 1);
      LeftPinchOccurrences(n - 1);
    }
  }

  /** Five left presses, a right press and four more left presses leave the counter at 9, so the
      next left press holds the button although the presses were not consecutive. */
  lemma InterleavedPressesHold(width: int, height: int)
    ensures var calls := LeftPinch(5) + [CallRightButtonDown] + LeftPinch(4);
            var m := Run(Init(width, height), calls).mouse;
            && m.framesClickedLeft == HoldFrames - 1
            && MouseDown in LeftButtonDown(m).commands
  {
    var calls := LeftPinch(5) + [CallRightButtonDown] + LeftPinch(4);
    LeftPinchOccurrences(5);
    LeftPinchOccurrences(4);
    OccurrencesAppend(LeftPinch(5), [CallRightButtonDown], CallLeftButtonDown);
    OccurrencesAppend(LeftPinch(5) + [CallRightButtonDown], LeftPinch(4), CallLeftButtonDown);
    assert Occurrences([CallRightButtonDown], CallLeftButtonDown) == 0;
    RunCountsLeftPresses(Init(width, height), calls);
  }

  /** One more frame of left pinch is one `left_button_down` in front of the rest. */
  lemma LeftPinchUnfold(m: Mouse, n: nat)
    requires n > 0
    ensures var first := LeftButtonDown(m);
            var rest := Run(first.mouse, LeftPinch(n - 1));
            Run(m, LeftPinch(n)) == Step(rest.mouse, first.commands + rest.commands)
  {
    assert LeftPinch(n)[0] == CallLeftButtonDown;
    assert LeftPinch(n)[1..] == LeftPinch(n - 1);
  }

  /** A held left pinch counts one frame per call and closes the left latch; the right latch
      is untouched. */
  lemma {:induction false} LeftPinchState(m: Mouse, n: nat)
    ensures Run(m, LeftPinch(n)).mouse
            == m.(framesClickedLeft := m.framesClickedLeft + n, hasClickedLeft := m.hasClickedLeft || n > 0)
    decreases n
  {
    if n > 0 {
      LeftPinchUnfold(m, n);
      LeftPinchState(LeftButtonDown(m).mouse, n - 1);
    }
  }

  /** A held left pinch clicks at most once (and only if the left latch was open) and holds the
      button on every frame that reaches the tenth. */
  lemma {:induction false} LeftPinchCommands(m: Mouse, n: nat)
    ensures Occurrences(Run(m, LeftPinch(n)).commands, Click) == if n > 0 && !m.hasClickedLeft then 1 else 0
    ensures Occurrences(Run(m, LeftPinch(n)).commands, MouseDown) == HeldFrames(m.framesClickedLeft, n)
    decreases n
  {
    if n > 0 {
      var first := LeftButtonDown(m);
      var rest := Run(first.mouse, LeftPinch(n - 1));
      LeftPinchUnfold(m, n);
      LeftPinchCommands(first.mouse, n - 1);
      OccurrencesAppend(first.commands, rest.commands, Click);
      OccurrencesAppend(first.commands, rest.commands, MouseDown);
    }
  }

  /** The i-th frame (from 0) of a held left pinch clicks only when it is the first frame and
      the latch was open, and holds the button exactly when it is at least the tenth counted frame. */
  lemma LeftPinchFrame(m: Mouse, n: nat, i: nat)
    requires i < n
    ensures var before := Run(m, LeftPinch(n)[..i]).mouse;
            && (Click in LeftButtonDown(before).commands <==> i == 0 && !m.hasClickedLeft)
            && (MouseDown in LeftButtonDown(before).commands <==> m.framesClickedLeft + i + 1 >= HoldFrames)
  {
    assert LeftPinch(n)[..i] == LeftPinch(i);
    LeftPinchState(m, i);
  }

  /** A single call other than `buttons_up` clicks left exactly when it closes the left latch. */
  lemma LeftClickClosesLatch(m: Mouse, call: Call)
    requires call != CallButtonsUp
    ensures var r := Apply(m, call);
            Occurrences(r.commands, Click) + (if m.hasClickedLeft then 1 else 0) == (if r.mouse.hasClickedLeft then 1 else 0)
  {
    match call
    case CallLeftButtonDown =>
    case CallMoveCursor(x, y) =>
      assert Click !in MoveCursor(m, x, y).commands;
    case _ =>
  }

  /** A single call other than `buttons_up` clicks right exactly when it closes the right latch. */
  lemma RightClickClosesLatch(m: Mouse, call: Call)
    requires call != CallButtonsUp
    ensures var r := Apply(m, call);
            Occurrences(r.commands, RightClick) + (if m.hasClickedRight then 1 else 0) == (if r.mouse.hasClickedRight then 1 else 0)
  {
    match call
    case CallRightButtonDown =>
    case CallLeftButtonDown =>
      assert RightClick !in LeftButtonDown(m).commands;
    case CallMoveCursor(x, y) =>
      assert RightClick !in MoveCursor(m, x, y).commands;
    case _ =>
  }

  /** Between two releases the left click is emitted at most once: the number of clicks is exactly
      the number of times the left latch closed. */
  lemma {:induction false} LeftClickOncePerRelease(m: Mouse, calls: seq<Call>)
    requires CallButtonsUp !in calls
    ensures var r := Run(m, calls);
            Occurrences(r.commands, Click) + (if m.hasClickedLeft then 1 else 0) == (if r.mouse.hasClickedLeft then 1 else 0)
    ensures Occurrences(Run(m, calls).commands, Click) <= 1
    decreases |calls|
  {
    if |calls| > 0 {
      assert calls[0] in calls;
      assert forall c :: c in calls[1..] ==> c in calls;
      var first := Apply(m, calls[0]);
      LeftClickClosesLatch(m, calls[0]);
      LeftClickOncePerRelease(first.mouse, calls[1..]);
      OccurrencesAppend(first.commands, Run(first.mouse, calls[1..]).commands, Click);
    }
  }

  /** Between two releases the right click is emitted at most once. */
  lemma {:induction false} RightClickOncePerRelease(m: Mouse, calls: seq<Call>)
    requires CallButtonsUp !in calls
    ensures var r := Run(m, calls);
            Occurrences(r.commands, RightClick) + (if m.hasClickedRight then 1 else 0) == (if r.mouse.hasClickedRight then 1 else 0)
    ensures Occurrences(Run(m, calls).commands, RightClick) <= 1
    decreases |calls|
  {
    if |calls| > 0 {
      assert calls[0] in calls;
      assert forall c :: c in calls[1..] ==> c in calls;
      var first := Apply(m, calls[0]);
      RightClickClosesLatch(m, calls[0]);
      RightClickOncePerRelease(first.mouse, calls[1..]);
      OccurrencesAppend(first.commands, Run(first.mouse, calls[1..]).commands, RightClick);
    }
  }

  /** A single call releases the left button exactly when it is `buttons_up`. */
  lemma ReleaseOnlyOnButtonsUp(m: Mouse, call: Call)
    ensures Occurrences(Apply(m, call).commands, MouseUp) == if call == CallButtonsUp then 1 else 0
  {
    match call
    case CallLeftButtonDown =>
      assert MouseUp !in LeftButtonDown(m).commands;
    case CallMoveCursor(x, y) =>
      assert MouseUp !in MoveCursor(m, x, y).commands;
    case _ =>
  }

  /** Every `buttons_up` releases the left button exactly once, and nothing else releases it. */
  lemma {:induction false} OneReleasePerButtonsUp(m: Mouse, calls: seq<Call>)
    ensures Occurrences(Run(m, calls).commands, MouseUp) == Occurrences(calls, CallButtonsUp)
    decreases |calls|
  {
    if |calls| > 0 {
      var first := Apply(m, calls[0]);
      ReleaseOnlyOnButtonsUp(m, calls[0]);
      OneReleasePerButtonsUp(first.mouse, calls[1..]);
      OccurrencesAppend(first.commands, Run(first.mouse, calls[1..]).commands, MouseUp);
    }
  }

  /** A pinch held for n >= 10 frames from a fresh controller clicks once and holds on frames
      10 .. n (twenty frames hold eleven times); a release then restores the fresh state, so the
      next pinch clicks again. */
  lemma PinchThenRelease(width: int, height: int, n: nat)
    requires n >= HoldFrames
    ensures var held := Run(Init(width, height), LeftPinch(n));
            && Occurrences(held.commands, Click) == 1
            && Occurrences(held.commands, MouseDown) == n - (HoldFrames - 1)
            && ButtonsUp(held.mouse).commands == [MouseUp]
            && ButtonsUp(held.mouse).mouse == Init(width, height)
            && Click in LeftButtonDown(ButtonsUp(held.mouse).mouse).commands
  {
    LeftPinchCommands(Init(width, height), n);
  }
}
