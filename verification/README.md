# Virtual mouse: gesture-to-cursor control step

This project models the per-frame core of the `VirtualMouse` class in
`virtual_mouse.py`. The class turns the index-finger and thumb landmarks
of one tracked hand into cursor moves and clicks. The model has four parts:

- **Geometry** (`geometry.dfy`): a landmark `Point` and Python's `int()` on a
  float (`Trunc`, truncation toward zero). It also has the
  normalised-to-screen conversion `ToScreen` and the squared pinch distance.
- **Smoother** (`smoother.dfy`): the one-pole low-pass filter
  `smooth_movement`. Each call moves the stored `(prev_x, prev_y)` one
  seventh of the way to the target. It keeps the unrounded value and hands
  the cursor its truncation. `Settle` and `Iterate` are repeated calls
  towards a fixed target.
- **Click detector** (`click_detector.dfy`): the pinch test
  `distance * 640 < 40`, stated on squares so that no square root is needed.
  It also has the level-triggered cooldown rule `Detect`.
- **Control loop** (`control_loop.dfy`): the body of `run` for one detected
  hand, as a pure `Step(state, hand?, now, screenW, screenH)`. It returns the
  new state and the cursor calls as `Action` values. `Run` folds `Step`
  over a sequence of frames. `ClickTimes` lists the clock readings at
  which clicks fire.

The constants of `__init__` are in `config.dfy`: camera 640 x 480, divisor
7, threshold 40, cooldown 0.5 s and initial last-click time 0.

The model uses exact `real` arithmetic. Divisions are exact and truncation
is explicit.

Two points of `virtual_mouse.py` are easy to misread:
- `int()` at lines 89-90 and 51 truncates toward zero. It does not round
  (`Geometry.Trunc`, `Geometry.TruncVersusFloor`).
- The click rule at lines 104-107 is level-triggered with a cooldown. A held
  pinch clicks again after every cooldown (`ControlLoop.HeldPinchClicks`).

## Model

| member | source | states |
|---|---|---|
| `Geometry.Trunc` | virtual_mouse.py:89-90 | `int()` truncates toward zero: the result has the sign of its argument and lies less than one unit closer to zero |
| `Geometry.ToPixel` | virtual_mouse.py:89-90 | one axis of the screen conversion: a coordinate in [0,1) lands on [0, size-1], one at or past 1 lands at or past `size`, and one scaling to -1 or less is negative, as no clamping is done |
| `Geometry.TruncUnique` | virtual_mouse.py:89-90 | every integer with the truncation property is `Trunc(r)`, so the contract of `Trunc` determines it |
| `Geometry.TruncVersusFloor` | virtual_mouse.py:89-90 | truncation agrees with flooring except on negative non-integers, where it is one more |
| `Geometry.ToScreen` | virtual_mouse.py:89-90 | with a screen at least one pixel wide, a coordinate in [0,1) lands on a pixel in [0, size-1] |
| `Geometry.ToScreenUnclamped` | virtual_mouse.py:89-90 | coordinates outside the frame are not clamped: x >= 1 gives a pixel >= the screen size, and x * size <= -1 gives a negative pixel |
| `Geometry.SquaredDistance` | virtual_mouse.py:42-44 | the squared Euclidean distance is non-negative and is zero for equal points |
| `Geometry.SquaredDistanceSymmetric` | virtual_mouse.py:42-44 | the distance does not depend on argument order |
| `Geometry.ScaledDistanceBySquares` | virtual_mouse.py:99-104 | for a positive scale and threshold, `sqrt(d2) * scale < threshold` holds iff `d2 * scale^2 < threshold^2`, for any non-negative root |
| `ClickDetector.IsPinch` | virtual_mouse.py:99-104 | touching fingertips are a pinch, and a pinch keeps the tips within 1/16 of the frame width, i.e. 40 camera pixels, on each axis |
| `ClickDetector.PinchMatchesPixelDistance` | virtual_mouse.py:99-104 | the square-free `IsPinch` is exactly `distance * 640 < 40`; a distance of exactly 40 pixels is not a pinch |
| `ClickDetector.PinchExamples` | virtual_mouse.py:99-104 | a thumb 0.01 from the index tip (6.4 px) is a pinch; one 1/16 away (exactly 40 px) is not |
| `ClickDetector.Detect` | virtual_mouse.py:102-107 | a click fires only for a pinch more than the cooldown after the last click, and then the last-click time becomes `now`; otherwise it is unchanged |
| `ClickDetector.DetectBoundaries` | virtual_mouse.py:104-105 | both comparisons are strict: elapsed time exactly 0.5 s does not fire, any later time does, and no pinch never fires |
| `ClickDetector.FirstPinchFires` | virtual_mouse.py:30-32 | from the initial last-click time 0, the first pinch at any clock reading past 0.5 fires |
| `Smoother.Approach` | virtual_mouse.py:48-49 | one call multiplies the gap to the target by exactly 6/7 |
| `Smoother.ApproachStaysBetween` | virtual_mouse.py:48-49 | one call lands between the old value and the target, strictly closer unless already there |
| `Smoother.Smooth` | virtual_mouse.py:46-51 | both axes shrink their gap by 6/7; the stored state is the exact value and the returned pair is its truncation |
| `Smoother.SmoothFirstStepExample` | virtual_mouse.py:48-51 | from (0,0) towards (70,0) the new state is exactly (10,0) and the cursor goes to (10,0) |
| `Smoother.SmoothKeepsFraction` | virtual_mouse.py:50-51 | because the fraction is stored, two calls towards (6,0) reach x = 1, while re-truncating the state would stay at x = 0 |
| `Smoother.SettleAxes` | virtual_mouse.py:48-50 | repeated calls act on each axis independently |
| `Smoother.IterateGap` | virtual_mouse.py:48-50 | after n calls towards a fixed target the gap is the initial gap times (6/7)^n |
| `Smoother.IterateNeverOvershoots` | virtual_mouse.py:48-50 | every value after repeated calls lies between the start and the target |
| `Smoother.IterateApproaches` | virtual_mouse.py:48-50 | each further call strictly shrinks a nonzero gap and keeps a zero gap at zero |
| `Smoother.IterateConverges` | virtual_mouse.py:48-50 | after n calls the gap is at most 7/(7+n) of the initial gap, so it tends to zero |
| `Smoother.IterateWithinOnePixel` | virtual_mouse.py:48-50 | a gap of at most 100 pixels is below one pixel after 35 or more calls |
| `Smoother.SettleWithinOnePixel` | virtual_mouse.py:46-51 | on both axes, e.g. from (0,0) towards (100,100), the state is within one unit of the target after 35 frames |
| `Smoother.IterateStaysBelow` | virtual_mouse.py:48-50 | approaching a target from below, the stored value never reaches it |
| `Smoother.SettleCursorExample` | virtual_mouse.py:46-51 | with the hand resting on (100,100) from the start state, the returned cursor position never exceeds (99,99) and is exactly (99,99) from the 35th call on |
| `ControlLoop.Step` | virtual_mouse.py:77-107 | no hand: same state, no actions; a hand: smoother updated towards the truncated screen target, first action a move to the truncated smoothed point, then a click exactly when pinch and cooldown both hold, with the last-click time set to `now` or kept |
| `ControlLoop.StepMoveIgnoresClicks` | virtual_mouse.py:89-107 | the smoother update and the cursor move do not depend on the click state or the clock |
| `ControlLoop.StepExample` | virtual_mouse.py:85-107 | index (0.5,0.5), thumb (0.51,0.5) on 1920 x 1080: target (960,540), actions move to (137,77) then click |
| `ControlLoop.Run` | virtual_mouse.py:65-107 | over a sequence of frames the cursor is moved exactly once per frame with a hand, and at most two cursor calls are made per frame |
| `ControlLoop.RunAppend` | virtual_mouse.py:65-107 | running two stretches of frames in turn equals running their concatenation |
| `ControlLoop.RunIgnoresEmptyFrames` | virtual_mouse.py:75-78 | dropping the frames with no hand changes neither the final state nor any cursor call |
| `ControlLoop.RunSettlesSteadyHand` | virtual_mouse.py:85-93 | while the index tip stays put, the loop's smoother after n frames is n smoothing calls towards that pixel |
| `ControlLoop.ClickTimes` | virtual_mouse.py:102-107 | the first click is more than the cooldown after the starting last-click time, and each click more than the cooldown after the previous one, whatever order the timestamps come in |
| `ControlLoop.ClicksSpread` | virtual_mouse.py:104-107 | clicks i < j are more than (j - i) cooldowns apart |
| `ControlLoop.ClickAfter` | virtual_mouse.py:104-107 | the last-click time after a stretch is its last click, or the starting time if none fired |
| `ControlLoop.RunClickTimesMatch` | virtual_mouse.py:102-107 | the clock readings of the frames whose step clicks, over a whole run, equal `ClickTimes` entry for entry |
| `ControlLoop.RunClicksAreClickTimes` | virtual_mouse.py:102-107 | the clock readings of the frames in which a run clicks are exactly `ClickTimes`, in order, so the cooldown separation holds for the run's own clicks; the run ends with the last entry as its last-click time |
| `ControlLoop.QuietStretch` | virtual_mouse.py:104-105 | frames all within the cooldown of the last click fire nothing |
| `ControlLoop.HeldPinchClicks` | virtual_mouse.py:102-107 | a pinch held at ten frames a second clicks on every sixth frame: ceil(n/6) clicks, 0.6 s apart |
| `ControlLoop.HeldPinchClicksFourTimes` | virtual_mouse.py:102-107 | 20 pinching frames 0.1 s apart from the initial state click exactly four times, at 0, 0.6, 1.2 and 1.8 s |

## Left out

- Camera capture, frame flipping, colour conversion, the quit key and resource release (lines 55-72, 127-134): I/O. A frame is an input value.
- MediaPipe hand detection (line 75): an opaque library call. Its result is an `Option<Hand>` input. `max_num_hands=1` means at most one hand per frame. The detector confidence settings are passed to that library and are not modelled.
- `get_landmark_position` (lines 37-40): reading landmarks 8 and 4 becomes the `index` and `thumb` fields of `Hand`.
- `pyautogui.size()`, `moveTo` and `click` (lines 20, 96, 106): OS calls. The screen size is a parameter, and the calls are returned as `Action` values.
- `time.time()` (line 103): the clock reading is the `now` input of each frame.
- Drawing, the "CLICKING" label and `print` (lines 59-63, 80-82, 108, 111-127): they only display things. `CamHeight` is used only to configure the camera (line 57) and for drawing (line 113). The control step does not use it.
- IEEE double behaviour of Python floats and `np.sqrt`: the model uses exact reals. The pinch test compares squared distances, which is exact for any square root.
- Smoother.Approach: the divisor is fixed at the program's constant 7, and the contraction factor 6/7 is stated for that value only. A smoothing factor chosen at run time is not modelled.
- The `while True` loop (lines 65-68, 130-131): `Run` processes a finite sequence of frames. Stopping on a failed read or on the quit key is the end of that sequence.
