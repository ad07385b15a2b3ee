# handy-input: the pinch classifier, the mouse state machine and the evaluation metrics

handy-input turns a webcam image of one hand into mouse input. An external hand-pose estimator
(MediaPipe Hands) reports 21 normalised landmarks per hand. This project models and proves
properties of three pieces of the program:

- **`GestureRecognizer`** (`gesture_recognizer.dfy`). A thumb-to-index-tip distance strictly
  below 0.05 is a left-button press. Otherwise, a thumb-to-middle-tip distance below 0.05 is a
  right-button press. Anything else means the buttons are up. The pointer follows the ring-finger
  knuckle.
  - The `if` at the head of `recognize` tests the *method object* `__is_mouse_gesture` without
    calling it. A method object is always truthy, so the posture check never runs and
    `recognize` never answers `None`.
  - The model keeps that behaviour through `GateOperand.BoundMethod` and `Truthy`.
    `PostureNeverConsulted` exhibits a hand outside the posture that is still classified.
  - Distances are square roots. The model compares squared distances, and
    `SquaredComparisonAgrees` proves that test agrees with the source's `sqrt(d2) < 0.05`.
- **`MouseController`** (`mouse_controller.dfy`). The controller keeps the screen size read at
  construction, the left and right click latches, and a count of left presses since the last
  `buttons_up`. Only `buttons_up` resets that count, so presses interleaved with other calls
  still add up to the 10 that start a press-and-hold (`InterleavedPressesHold`).
  - Each operation is a pure function from a `Mouse` state to a `Step`: the next state plus the
    pyautogui commands the call would issue (`MoveTo`, `Click`, `RightClick`, `MouseDown`,
    `MouseUp`, `Scroll`).
  - `Run` replays a sequence of calls.
  - The lemmas about runs prove the click-once-per-release latches, the press-and-hold after 10
    frames, and one release per `buttons_up`.
- **`Tester`** (`tester.dfy`). This is the offline evaluation script. It loads labelled image
  paths, classifies each image with the recogniser, and computes these metrics:
  - detection accuracy;
  - per-gesture detection accuracy;
  - gesture accuracy;
  - precision, recall and F1 score.

  Each metric method is a loop, as in the source. Its contract ties the result to a recursive
  reference count (`Count`) and to an exact model of Python's `/`: `Divide` returns
  `ZeroDivisionError` when the denominator is zero.

`Landmarks` (`landmarks.dfy`) holds the shared landmark format: a point is `x`, `y`, and a hand
has one named field per MediaPipe landmark.
`Reals` (`reals.dfy`) holds `Min` and `Max` on exact reals, used by the cursor clamp and the F1 bounds.

## Model

| member | source | states |
|---|---|---|
| GestureRecognizer.Code | src/gesture_recognizer.py:7-9 | The three gestures map to the symbols 0, 1, 2; LEFT_DOWN is 2 and RIGHT_DOWN is 1 exactly for those gestures |
| GestureRecognizer.CodeInjective | src/gesture_recognizer.py:7-9 | Distinct gestures are reported as distinct integers |
| GestureRecognizer.DistanceSymmetric | src/gesture_recognizer.py:14-15 | The distance and the pinch test do not depend on the order of the two landmarks |
| GestureRecognizer.DistanceToSelf | src/gesture_recognizer.py:14-15 | A landmark is at distance 0 from itself and so counts as pinched against itself |
| GestureRecognizer.SquaredComparisonAgrees | src/gesture_recognizer.py:14-15 | For the true Euclidean distance d, `d < 0.05` holds exactly when the squared distance is below 0.05² |
| GestureRecognizer.Recognize | src/gesture_recognizer.py:57-64 | For any non-empty hand list the answer is never None, because the gate operand is an always-truthy method object |
| GestureRecognizer.RecognizeLeftIff | src/gesture_recognizer.py:31-38 | LEFT_DOWN is answered if and only if the thumb-index distance is strictly below 0.05 |
| GestureRecognizer.RecognizeRightIff | src/gesture_recognizer.py:40-47 | RIGHT_DOWN is answered if and only if the thumb-index distance is at least 0.05 and the thumb-middle distance is below 0.05 |
| GestureRecognizer.RecognizeButtonsUpIff | src/gesture_recognizer.py:57-64 | BUTTONS_UP is answered if and only if neither distance is below 0.05 |
| GestureRecognizer.LeftHasPriority | src/gesture_recognizer.py:59-62 | When both pinches hold, the left press wins |
| GestureRecognizer.RecognizeIsTotal | src/gesture_recognizer.py:57-64 | Every non-empty hand list gets one of the three integer symbols |
| GestureRecognizer.ThresholdIsStrict | src/gesture_recognizer.py:37-38 | A thumb-index distance of exactly 0.05 is not a left press; the hand is reported as buttons up |
| GestureRecognizer.RecognizeReadsOnlyPinchTips | src/gesture_recognizer.py:57-64 | The answer depends only on the thumb, index and middle tips of the first hand |
| GestureRecognizer.PostureNeverConsulted | src/gesture_recognizer.py:58 | A hand outside the mouse posture is still classified (as LEFT_DOWN), where calling the posture predicate would have rejected it |
| GestureRecognizer.PointerReadsRingKnuckle | src/gesture_recognizer.py:49-54 | The pointer position is the ring knuckle of the first hand, whatever else the hand list holds |
| MouseController.ScreenCoordinate | src/mouse_controller.py:36-39 | The band [0.2, 0.8] is rescaled linearly onto the screen: inside [1, size-2] the pixel is (v - 0.2) / 0.6 times the size, below that it is 1, above it size-2; so it always lands in [1, size-2] on a screen at least 3 pixels wide, and at 1 otherwise |
| MouseController.MoveCursor | src/mouse_controller.py:36-41 | Moving the cursor issues exactly one moveTo, to the per-axis `ScreenCoordinate` of the hand position and so inside the screen's inner rectangle, and leaves the click state unchanged |
| MouseController.ScreenCoordinateMonotone | src/mouse_controller.py:36-39 | Moving the hand right (down) never moves the cursor left (up) |
| MouseController.ScreenCoordinateEdges | src/mouse_controller.py:36-39 | The active band 0.2–0.8 spans the whole screen: anything at or below 0.2 maps to pixel 1, anything at or above 0.8 to size-2 |
| MouseController.LeftButtonDown | src/mouse_controller.py:49-54 | One more frame is counted and the left latch closes; a click is issued exactly when the latch was open, and a press-and-hold exactly from the tenth frame on |
| MouseController.RightButtonDown | src/mouse_controller.py:61-63 | A right click is issued exactly when the right latch was open; the latch closes and nothing else changes |
| MouseController.ButtonsUp | src/mouse_controller.py:70-73 | The state returns to the initial one (both latches open, counter 0) and one left mouseUp is issued |
| MouseController.ButtonsUpIdempotent | src/mouse_controller.py:70-73 | Releasing twice leaves the same state as releasing once |
| MouseController.ScrollDown | src/mouse_controller.py:75-82 | Scrolling down by n issues one scroll of -n and changes no state |
| MouseController.ScrollUp | src/mouse_controller.py:84-91 | Scrolling up by n issues one scroll of +n and changes no state |
| MouseController.ScrollsCancel | src/mouse_controller.py:75-91 | Scrolling up then down by the same amount restores the state, and the two scroll amounts sum to zero |
| MouseController.Run | src/mouse_controller.py:14-17 | No sequence of calls changes the screen size read at construction |
| MouseController.ApplyKeepsConsistent | src/mouse_controller.py:49-73 | Every single call keeps the invariant "left latch closed iff the frame counter is positive" |
| MouseController.RunKeepsConsistent | src/mouse_controller.py:14-17 | Any sequence of calls from a state satisfying that invariant (the initial state does) keeps it |
| MouseController.ClickOnFirstCountedFrame | src/mouse_controller.py:49-52 | In a consistent controller, left_button_down clicks exactly when the frame it counts is the first one |
| MouseController.RunCountsLeftPresses | src/mouse_controller.py:36-91 | With no buttons_up in a call sequence, the counter grows by exactly the number of left_button_down calls, whatever calls come between them; only line 72 resets it |
| MouseController.InterleavedPressesHold | src/mouse_controller.py:49-54 | Ten left presses interrupted by a right press still start the press-and-hold: the tenth issues mouseDown, although the presses were not consecutive |
| MouseController.LeftPinchState | src/mouse_controller.py:49-52 | After n left-press frames the counter has grown by n and the left latch is closed if n > 0 |
| MouseController.LeftPinchCommands | src/mouse_controller.py:49-54 | n left-press frames issue one click if the latch was open (none otherwise) and one mouseDown per frame from the tenth on |
| MouseController.LeftPinchFrame | src/mouse_controller.py:49-54 | Frame i (from 0) of a held left pinch clicks exactly when it is the first frame and the latch was open, and holds the button exactly when it is at least the tenth counted frame |
| MouseController.LeftClickClosesLatch | src/mouse_controller.py:49-63 | A single call other than buttons_up issues a left click exactly when it closes a previously open left latch |
| MouseController.RightClickClosesLatch | src/mouse_controller.py:49-63 | A single call other than buttons_up issues a right click exactly when it closes a previously open right latch |
| MouseController.LeftClickOncePerRelease | src/mouse_controller.py:49-52 | Between two releases the number of left clicks is exactly the number of times the left latch went from open to closed, hence at most one |
| MouseController.RightClickOncePerRelease | src/mouse_controller.py:61-63 | Between two releases the number of right clicks is exactly the number of times the right latch went from open to closed, hence at most one |
| MouseController.ReleaseOnlyOnButtonsUp | src/mouse_controller.py:49-73 | A single call issues a mouseUp exactly when it is buttons_up, and then exactly one |
| MouseController.OneReleasePerButtonsUp | src/mouse_controller.py:70-73 | Every buttons_up call issues exactly one mouseUp and no other call issues one |
| MouseController.PinchThenRelease | src/mouse_controller.py:43-73 | From the initial state, holding a left pinch for n ≥ 10 frames clicks once and presses n-9 times; releasing restores the initial state, and the next pinch clicks again |
| MouseController.OccurrencesAppend | src/mouse_controller.py:49-73 | Commands issued by consecutive calls add up: counting in a concatenation is the sum of the counts |
| Tester.ImageFileExamples | tests/tester.py:21 | Names ending in .png, .jpg or .jpeg are images; upper-case extensions and other formats are skipped |
| Tester.JoinPathEndsWithName | tests/tester.py:22 | The joined path ends with the file name, and a name that is not absolute is placed under the folder |
| Tester.ImageFilesMembership | tests/tester.py:20-21 | A name is kept exactly when it is in the listing and has an image extension |
| Tester.ImageFilesExtend | tests/tester.py:20-21 | Scanning one more name appends it to the kept names exactly when it has an image extension, so kept names stay in listing order |
| Tester.NewRecords | tests/tester.py:22-27 | One record per kept name, the i-th carrying the i-th name's joined path, the given label and detected label -1 |
| Tester.LoadImages | tests/tester.py:19-27 | Existing records are kept; one record per kept image name is appended, the i-th with the i-th name's joined path, the given label and detected label -1 |
| Tester.Classify | tests/tester.py:42-43 | A detected hand is always labelled with one of the three gesture symbols, never -1 |
| Tester.ClassifyImages | tests/tester.py:29-43 | Paths and real labels are kept; a record whose image shows no hand is unchanged; otherwise its detected label becomes the recogniser's answer, so a fresh record is detected exactly when a hand was found |
| Tester.CountExtend | tests/tester.py:47-49 | A counter loop that has seen one more record has grown by one exactly when that record matches |
| Tester.CountZero | tests/tester.py:45-50 | A counter loop ends at 0 exactly when no record matches its condition |
| Tester.CountFull | tests/tester.py:45-50 | A counter loop ends at the dataset size exactly when every record matches its condition |
| Tester.CountMonotone | tests/tester.py:62-70 | A stricter criterion never counts more records |
| Tester.CountDisjointUnion | tests/tester.py:72-81 | Counts of two disjoint criteria add up to the count of their union |
| Tester.Divide | tests/tester.py:50 | Python's `/` on counts: ZeroDivisionError exactly on a zero denominator, otherwise a ratio in [0, 1] when the numerator is at most the denominator, 0 iff nothing counted, 1 iff everything counted |
| Tester.GetDetectionAccuracy | tests/tester.py:45-50 | The share of records with a detected hand; an error on an empty dataset; 1 iff every record was detected, 0 iff none was |
| Tester.GetDetectionAccuracyByGesture | tests/tester.py:52-60 | The share of records of a gesture that were recognised as that gesture; an error exactly when no record has that gesture (a zero count, which `Tester.CountZero` ties to no record matching) |
| Tester.GetGestureAccuracy | tests/tester.py:62-70 | The share of detected records whose recognised gesture is the real one; an error exactly when no hand was detected |
| Tester.PrecisionDenominator | tests/tester.py:72-81 | True plus false positives are exactly the detected records predicted as the gesture |
| Tester.GetDetectedPrecision | tests/tester.py:72-81 | True positives over records predicted as the gesture; an error exactly when no detected record is predicted as it (a zero count, see `Tester.CountZero`) |
| Tester.RecallDenominator | tests/tester.py:83-92 | True positives plus false negatives are exactly the detected records whose real label is the gesture |
| Tester.GetDetectedRecall | tests/tester.py:83-92 | True positives over detected records of the gesture; an error exactly when no detected record has that real label (a zero count, see `Tester.CountZero`) |
| Tester.F1Between | tests/tester.py:97 | The harmonic mean of precision and recall lies between the two |
| Tester.F1Score | tests/tester.py:94-98 | The F1 score is defined exactly when precision and recall are defined and not both 0, and then it lies between them |
| Tester.F1FromCounts | tests/tester.py:94-98 | With no more true positives than either denominator, the F1 score is defined exactly when there is a true positive, and it lies in [0, 1] |
| Tester.GetDetectedF1Score | tests/tester.py:94-98 | The F1 score of a gesture is defined exactly when it has at least one true positive, and it always lies in [0, 1] |

## Left out

- `src/hand_tracker.py` (camera loop, OpenCV window, MediaPipe session): I/O around the core. In this revision it never calls the recogniser or the controller; `MouseController.Run` stands for any sequence of controller calls a frame loop could make.
- `src/main.py`: process wiring only. It constructs `HandTracker` with two arguments although its constructor takes none; that crash is outside this model.
- `tests/utils.py`: `extract_frames`, which reads a video file with `cv2.VideoCapture`, picks evenly spaced frame indices with `numpy.linspace` and writes each frame as a JPEG with `cv2.imwrite` (file and library I/O).
- pyautogui side effects: each call is modelled by the command it issues, not by what the operating system does with it. pyautogui's own rounding of `moveTo` coordinates to integer pixels is not modelled, and neither is the `PAUSE = 0` setting.
- Tester.JoinPath: models `os.path.join` with POSIX rules only (`/` separator, an absolute name replaces the folder); the Windows rules of `ntpath.join` (backslashes, drive letters) are not modelled.
- `pyautogui.size()`: the screen size becomes the `width` and `height` parameters of `MouseController.Init`.
- Floating point: coordinates and metrics are exact reals, so the model does not capture IEEE rounding. `math.sqrt` is not computed: distances are related to their squares by `IsDistance`.
- The depth coordinate `z` of each landmark: nothing in the core reads it.
- The hand-pose estimator: `Tester.ClassifyImages` takes it as a parameter `detect` from record index and path to the list of hands found. `cv2.imread`/`cvtColor` failures on unreadable files are not modelled.
- The `print` progress line in `classify_images`, and `os.listdir`, whose result becomes the `listing` parameter of `Tester.LoadImages`.
- An empty hand list: the recogniser indexes `hand_landmarks[0]` and would raise `IndexError`. The only caller, `classify_images`, first checks that the list is non-empty, so the model requires a non-empty list.
- GestureRecognizer.DistanceToSelf: proves only that a landmark is at distance 0 from itself, not the converse (distance 0 only for identical x and y).
- GestureRecognizer.IsMouseGesture: modelled, but no contract is stated about its own result, because `recognize` never calls it.
- Tester.GetDetectedF1Score: the source evaluates precision before recall. When both raise `ZeroDivisionError`, the model reports the same single error value without distinguishing which division failed.
