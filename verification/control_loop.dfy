/** The per-frame control step and runs of it over a sequence of frames.
    Camera, hand detector, clock and cursor are outside the model: a frame is
    the detector's optional hand plus the clock reading, and the cursor calls
    are returned as actions. */
module ControlLoop {
  import opened Geometry
  import opened Smoother
  import opened ClickDetector
  import Config

  datatype Option<T> = None | Some(value: T)

  /** The two landmarks the step reads from a detected hand. */
  datatype Hand = Hand(index: Point, thumb: Point)

  /** A cursor call the step asks for, in the order it is made. */
  datatype Action = MoveTo(x: int, y: int) | Click

  /** Everything the loop carries from one frame to the next. */
  datatype MouseState = MouseState(smoother: SmootherState, lastClick: real)

  /** The state when the loop starts. */
  const Initial: MouseState := MouseState(Start, Config.InitialLastClick)

  datatype StepResult = StepResult(state: MouseState, actions: seq<Action>)

  /** What the loop sees in one frame: the hand found, if any, and the clock. */
  datatype Frame = Frame(hand: Option<Hand>, now: real)

  /** One frame of the loop.  Without a hand nothing changes and nothing is
      asked of the cursor.  With a hand the cursor moves to the truncated
      smoothed position, and a click follows exactly when the pinch is below
      threshold and the cooldown has passed. */
  function Step(s: MouseState, hand: Option<Hand>, now: real, screenW: int, screenH: int): (r: StepResult)
    ensures hand.None? ==> r == StepResult(s, [])
    ensures hand.Some? ==>
      var target := ToScreen(hand.value.index, screenW, screenH);
      var fires := IsPinch(hand.value.index, hand.value.thumb) && now - s.lastClick > Config.ClickCooldown;
      && r.state.smoother == Smooth(s.smoother, target.0, target.1).state
      && 1 <= |r.actions|
      && r.actions[..1] == [MoveTo(Trunc(r.state.smoother.prevX), Trunc(r.state.smoother.prevY))]
      && (fires ==> r.actions[1..] == [Click] && r.state.lastClick == now)
      && (!fires ==> r.actions[1..] == [] && r.state.lastClick == s.lastClick)
  {
    match hand
    case None => StepResult(s, [])
    case Some(h) =>
      var target := ToScreen(h.index, screenW, screenH);
      var moved := Smooth(s.smoother, target.0, target.1);
      var click := Detect(IsPinch(h.index, h.thumb), now, s.lastClick);
      StepResult(MouseState(moved.state, click.lastClick),
                 [MoveTo(moved.x, moved.y)] + (if click.fired then [Click] else []))
  }

  /** The smoother and the cursor move of a step do not depend on the click
      state or the clock. */
  lemma StepMoveIgnoresClicks(s: MouseState, t: MouseState, h: Hand, now: real, later: real, screenW: int, screenH: int)
    requires s.smoother == t.smoother
    ensures Step(s, Some(h), now, screenW, screenH).state.smoother == Step(t, Some(h), later, screenW, screenH).state.smoother
    ensures Step(s, Some(h), now, screenW, screenH).actions[0] == Step(t, Some(h), later, screenW, screenH).actions[0]
  {
  }

  /** The end-to-end example: index tip at the centre, thumb 0.01 to its
      right, a 1920 x 1080 screen, the loop just started at clock 1000.  The
      target is (960, 540), the first smoothed position (960/7, 540/7)
      truncates to (137, 77), and the 6.4-pixel pinch clicks. */
  lemma StepExample()
    ensures ToScreen(Point(0.5, 0.5), 1920, 1080) == (960, 540)
    ensures Step(Initial, Some(Hand(Point(0.5, 0.5), Point(0.51, 0.5))), 1000.0, 1920, 1080).actions
            == [MoveTo(137, 77), Click]
  {
    PinchExamples();
  }

  /** A run of the loop over a sequence of frames: the final state and every
      cursor call in order.  The cursor is moved exactly once for every frame
      in which a hand is seen, and at most two calls are made per frame. */
  function Run(s: MouseState, frames: seq<Frame>, screenW: int, screenH: int): (r: StepResult)
    ensures CountMoves(r.actions) == |WithHand(frames)|
    ensures |r.actions| <= 2 * |frames|
    decreases |frames|
  {
    if |frames| == 0 then StepResult(s, [])
    else
      var first := Step(s, frames[0].hand, frames[0].now, screenW, screenH);
      var rest := Run(first.state, frames[1..], screenW, screenH);
      StepMoves(s, frames[0].hand, frames[0].now, screenW, screenH);
      CountMovesAppend(first.actions, rest.actions);
      StepResult(rest.state, first.actions + rest.actions)
  }

  /** The number of cursor moves among `actions`. */
  function CountMoves(actions: seq<Action>): nat {
    if |actions| == 0 then 0
    else (if actions[0].MoveTo? then 1 else 0) + CountMoves(actions[1..])
  }

  lemma {:induction false} CountMovesAppend(a: seq<Action>, b: seq<Action>)
    ensures CountMoves(a + b) == CountMoves(a) + CountMoves(b)
    decreases |a|
  {
    if |a| == 0 {
      assert a + b == b;
    } else {
      assert (a + b)[1..] == a[1..] + b;
      CountMovesAppend(a[1..], b);
    }
  }

  /** A step moves the cursor once when it sees a hand and not otherwise. */
  lemma StepMoves(s: MouseState, hand: Option<Hand>, now: real, screenW: int, screenH: int)
    ensures var actions := Step(s, hand, now, screenW, screenH).actions;
            && CountMoves(actions) == (if hand.Some? then 1 else 0)
            && |actions| <= 2
  {
    var actions := Step(s, hand, now, screenW, screenH).actions;
    if hand.Some? {
      assert actions == actions[..1] + actions[1..];
      assert CountMoves(actions[1..]) == 0;
    }
  }

  /** Running two stretches of frames one after the other is running their
      concatenation. */
  lemma {:induction false} RunAppend(s: MouseState, a: seq<Frame>, b: seq<Frame>, screenW: int, screenH: int)
    ensures var first := Run(s, a, screenW, screenH);
            var second := Run(first.state, b, screenW, screenH);
            Run(s, a + b, screenW, screenH) == StepResult(second.state, first.actions + second.actions)
    decreases |a|
  {
    if |a| == 0 {
      assert a + b == b;
    } else {
      assert (a + b)[1..] == a[1..] + b;
      var step := Step(s, a[0].hand, a[0].now, screenW, screenH);
      RunAppend(step.state, a[1..], b, screenW, screenH);
      var mid := Run(step.state, a[1..], screenW, screenH);
      var last := Run(mid.state, b, screenW, screenH);
      assert step.actions + (mid.actions + last.actions) == (step.actions + mid.actions) + last.actions;
    }
  }

  /** The frames in which a hand was found. */
  function WithHand(frames: seq<Frame>): (r: seq<Frame>)
    ensures |r| <= |frames|
    ensures forall i :: 0 <= i < |r| ==> r[i].hand.Some?
    ensures forall f :: f in r ==> f in frames
  {
    if |frames| == 0 then []
    else (if frames[0].hand.Some? then [frames[0]] else []) + WithHand(frames[1..])
  }

  /** While the index tip stays at one point, whatever the thumb and the
      clock do, the loop's smoother follows `Settle` towards that point's
      screen pixel: one smoothing call per frame. */
  lemma {:induction false} RunSettlesSteadyHand(s: MouseState, frames: seq<Frame>, index: Point, screenW: int, screenH: int)
    requires forall k :: 0 <= k < |frames| ==> frames[k].hand.Some? && frames[k].hand.value.index == index
    ensures var target := ToScreen(index, screenW, screenH);
            Run(s, frames, screenW, screenH).state.smoother == Settle(s.smoother, target.0, target.1, |frames|)
    decreases |frames|
  {
    if |frames| > 0 {
      var target := ToScreen(index, screenW, screenH);
      var first := Step(s, frames[0].hand, frames[0].now, screenW, screenH);
      RunSettlesSteadyHand(first.state, frames[1..], index, screenW, screenH);
      SettleFront(s.smoother, target.0, target.1, |frames|);
    }
  }

  /** Frames without a hand are invisible to the loop: dropping them changes
      neither the final state nor a single cursor call. */
  lemma {:induction false} RunIgnoresEmptyFrames(s: MouseState, frames: seq<Frame>, screenW: int, screenH: int)
    ensures Run(s, WithHand(frames), screenW, screenH) == Run(s, frames, screenW, screenH)
    decreases |frames|
  {
    if |frames| > 0 {
      var first := Step(s, frames[0].hand, frames[0].now, screenW, screenH);
      var tail := WithHand(frames[1..]);
      RunIgnoresEmptyFrames(first.state, frames[1..], screenW, screenH);
      if frames[0].hand.Some? {
        var kept := [frames[0]] + tail;
        assert WithHand(frames) == kept;
        assert kept[0] == frames[0] && kept[1..] == tail;
        var rest := Run(first.state, tail, screenW, screenH);
        assert Run(s, kept, screenW, screenH) == StepResult(rest.state, first.actions + rest.actions);
      } else {
        assert WithHand(frames) == tail;
        assert first == StepResult(s, []);
      }
    }
  }

  /** The clock readings of the frames in which a click fires, starting from
      the last-click time `lastClick`.  Consecutive clicks, and the first
      click and `lastClick`, are more than the cooldown apart, whatever order
      the clock readings come in. */
  function ClickTimes(lastClick: real, frames: seq<Frame>): (r: seq<real>)
    ensures |r| > 0 ==> r[0] - lastClick > Config.ClickCooldown
    ensures forall i :: 0 < i < |r| ==> r[i] - r[i - 1] > Config.ClickCooldown
    decreases |frames|
  {
    if |frames| == 0 then []
    else match frames[0].hand
      case None => ClickTimes(lastClick, frames[1..])
      case Some(h) =>
        var c := Detect(IsPinch(h.index, h.thumb), frames[0].now, lastClick);
        (if c.fired then [frames[0].now] else []) + ClickTimes(c.lastClick, frames[1..])
  }

  /** Any two clicks of a run, not only neighbours, are separated by more
      than the cooldown for every click between them. */
  lemma {:induction false} ClicksSpread(lastClick: real, frames: seq<Frame>, i: nat, j: nat)
    requires i < j < |ClickTimes(lastClick, frames)|
    ensures var c := ClickTimes(lastClick, frames);
            c[j] - c[i] > (j - i) as real * Config.ClickCooldown
    decreases j - i
  {
    var c := ClickTimes(lastClick, frames);
    if i + 1 < j {
      ClicksSpread(lastClick, frames, i, j - 1);
      assert c[j] - c[j - 1] > Config.ClickCooldown;
    }
  }

  function CountClicks(actions: seq<Action>): nat {
    if |actions| == 0 then 0
    else (if actions[0] == Click then 1 else 0) + CountClicks(actions[1..])
  }

  lemma {:induction false} CountClicksAppend(a: seq<Action>, b: seq<Action>)
    ensures CountClicks(a + b) == CountClicks(a) + CountClicks(b)
    decreases |a|
  {
    if |a| == 0 {
      assert a + b == b;
    } else {
      assert (a + b)[1..] == a[1..] + b;
      CountClicksAppend(a[1..], b);
    }
  }

  /** The clock readings of the frames whose step asks the cursor for a
      click, in a run of the loop from `s`. */
  function RunClickTimes(s: MouseState, frames: seq<Frame>, screenW: int, screenH: int): (r: seq<real>)
    ensures |r| <= |frames|
    decreases |frames|
  {
    if |frames| == 0 then []
    else
      var first := Step(s, frames[0].hand, frames[0].now, screenW, screenH);
      (if Click in first.actions then [frames[0].now] else [])
        + RunClickTimes(first.state, frames[1..], screenW, screenH)
  }

  /** A step asks for a click exactly when a hand is seen and the detector
      fires for it. */
  lemma StepClicks(s: MouseState, hand: Option<Hand>, now: real, screenW: int, screenH: int)
    ensures var first := Step(s, hand, now, screenW, screenH);
            (Click in first.actions) == (hand.Some? && Detect(IsPinch(hand.value.index, hand.value.thumb), now, s.lastClick).fired)
  {
    var first := Step(s, hand, now, screenW, screenH);
    if hand.Some? {
      assert first.actions[0] != Click;
      assert first.actions == first.actions[..1] + first.actions[1..];
    }
  }

  /** The frames in which a run of the loop clicks are exactly the frames in
      which the detector, threaded through the run on its own, fires. */
  lemma {:induction false} RunClickTimesMatch(s: MouseState, frames: seq<Frame>, screenW: int, screenH: int)
    ensures RunClickTimes(s, frames, screenW, screenH) == ClickTimes(s.lastClick, frames)
    decreases |frames|
  {
    if |frames| > 0 {
      var first := Step(s, frames[0].hand, frames[0].now, screenW, screenH);
      StepClicks(s, frames[0].hand, frames[0].now, screenW, screenH);
      RunClickTimesMatch(first.state, frames[1..], screenW, screenH);
    }
  }

  /** `ClickTimes` describes the clicks of a run: the run clicks in exactly
      the frames whose clock readings `ClickTimes` lists, so one click per
      entry, and the last-click time it ends with is the last entry (or the
      starting one when no click fired). */
  lemma {:induction false} RunClicksAreClickTimes(s: MouseState, frames: seq<Frame>, screenW: int, screenH: int)
    ensures var c := ClickTimes(s.lastClick, frames);
            var r := Run(s, frames, screenW, screenH);
            && RunClickTimes(s, frames, screenW, screenH) == c
            && CountClicks(r.actions) == |c|
            && r.state.lastClick == (if |c| == 0 then s.lastClick else c[|c| - 1])
    decreases |frames|
  {
    RunClickTimesMatch(s, frames, screenW, screenH);
    if |frames| > 0 {
      var first := Step(s, frames[0].hand, frames[0].now, screenW, screenH);
      RunClicksAreClickTimes(first.state, frames[1..], screenW, screenH);
      var rest := Run(first.state, frames[1..], screenW, screenH);
      CountClicksAppend(first.actions, rest.actions);
      match frames[0].hand
      case None =>
      case Some(h) =>
        assert CountClicks(first.actions) == CountClicks(first.actions[..1]) + CountClicks(first.actions[1..]) by {
          assert first.actions == first.actions[..1] + first.actions[1..];
          CountClicksAppend(first.actions[..1], first.actions[1..]);
        }
    }
  }

  /** The last-click time after the detector has seen `frames`, starting
      from `lastClick`. */
  function ClickAfter(lastClick: real, frames: seq<Frame>): (r: real)
    ensures var c := ClickTimes(lastClick, frames);
            r == (if |c| == 0 then lastClick else c[|c| - 1])
    decreases |frames|
  {
    if |frames| == 0 then lastClick
    else match frames[0].hand
      case None => ClickAfter(lastClick, frames[1..])
      case Some(h) => ClickAfter(Detect(IsPinch(h.index, h.thumb), frames[0].now, lastClick).lastClick, frames[1..])
  }

  /** The clicks of two stretches of frames one after the other. */
  lemma {:induction false} ClickTimesAppend(lastClick: real, a: seq<Frame>, b: seq<Frame>)
    ensures ClickTimes(lastClick, a + b) == ClickTimes(lastClick, a) + ClickTimes(ClickAfter(lastClick, a), b)
    decreases |a|
  {
    if |a| == 0 {
      assert a + b == b;
    } else {
      assert (a + b)[1..] == a[1..] + b;
      match a[0].hand
      case None =>
        ClickTimesAppend(lastClick, a[1..], b);
      case Some(h) =>
        var next := Detect(IsPinch(h.index, h.thumb), a[0].now, lastClick).lastClick;
        ClickTimesAppend(next, a[1..], b);
    }
  }

  /** No frame of a stretch comes more than the cooldown after `lastClick`:
      nothing fires. */
  lemma {:induction false} QuietStretch(lastClick: real, frames: seq<Frame>)
    requires forall k :: 0 <= k < |frames| ==> frames[k].now - lastClick <= Config.ClickCooldown
    ensures ClickTimes(lastClick, frames) == []
    decreases |frames|
  {
    if |frames| > 0 {
      QuietStretch(lastClick, frames[1..]);
    }
  }

  /** The frames of a pinch held still for `n` frames, 0.1 seconds apart from
      clock reading `t0`. */
  function HeldPinch(h: Hand, t0: real, n: nat): (frames: seq<Frame>)
    ensures |frames| == n
    ensures forall k :: 0 <= k < n ==> frames[k] == Frame(Some(h), t0 + k as real / 10.0)
  {
    seq(n, k => Frame(Some(h), t0 + k as real / 10.0))
  }

  lemma HeldPinchSplit(h: Hand, t0: real, m: nat, n: nat)
    ensures HeldPinch(h, t0, m + n) == HeldPinch(h, t0, m) + HeldPinch(h, t0 + m as real / 10.0, n)
  {
    var whole := HeldPinch(h, t0, m + n);
    var parts := HeldPinch(h, t0, m) + HeldPinch(h, t0 + m as real / 10.0, n);
    forall k | 0 <= k < m + n
      ensures whole[k] == parts[k]
    {
      if m <= k {
        assert parts[k] == HeldPinch(h, t0 + m as real / 10.0, n)[k - m];
      }
    }
  }

  /** Up to six frames of a held pinch, the first one past the cooldown:
      only the first fires. */
  lemma HeldBlock(h: Hand, lastClick: real, t0: real, n: nat)
    requires IsPinch(h.index, h.thumb) && t0 - lastClick > Config.ClickCooldown
    requires 1 <= n <= 6
    ensures ClickTimes(lastClick, HeldPinch(h, t0, n)) == [t0]
    ensures ClickAfter(lastClick, HeldPinch(h, t0, n)) == t0
  {
    var frames := HeldPinch(h, t0, n);
    QuietStretch(t0, frames[1..]);
    assert frames[0] == Frame(Some(h), t0);
  }

  /** A pinch held at ten frames a second clicks on every sixth frame: the
      first frame past the cooldown fires, and the five after it are within
      the 0.5-second cooldown of it. */
  lemma {:induction false} HeldPinchClicks(h: Hand, lastClick: real, t0: real, n: nat)
    requires IsPinch(h.index, h.thumb) && t0 - lastClick > Config.ClickCooldown
    ensures var c := ClickTimes(lastClick, HeldPinch(h, t0, n));
            && |c| == (n + 5) / 6
            && forall j :: 0 <= j < |c| ==> c[j] == t0 + j as real * 0.6
    decreases n
  {
    var c := ClickTimes(lastClick, HeldPinch(h, t0, n));
    if n == 0 {
    } else if n <= 6 {
      HeldBlock(h, lastClick, t0, n);
    } else {
      var head := HeldPinch(h, t0, 6);
      var tail := HeldPinch(h, t0 + 0.6, n - 6);
      HeldPinchSplit(h, t0, 6, n - 6);
      assert HeldPinch(h, t0, n) == head + tail;
      HeldBlock(h, lastClick, t0, 6);
      ClickTimesAppend(lastClick, head, tail);
      HeldPinchClicks(h, t0, t0 + 0.6, n - 6);
      ShiftedClicks(c, ClickTimes(t0, tail), t0, n - 6);
    }
  }

  /** One click at `t0` followed by the clicks of the rest of the held pinch,
      which start 0.6 seconds later. */
  lemma ShiftedClicks(c: seq<real>, rest: seq<real>, t0: real, m: nat)
    requires c == [t0] + rest
    requires |rest| == (m + 5) / 6
    requires forall j :: 0 <= j < |rest| ==> rest[j] == t0 + 0.6 + j as real * 0.6
    ensures |c| == (m + 11) / 6
    ensures forall j :: 0 <= j < |c| ==> c[j] == t0 + j as real * 0.6
  {
    forall j | 1 <= j < |c|
      ensures c[j] == t0 + j as real * 0.6
    {
      assert c[j] == rest[j - 1];
    }
  }

  lemma FourClicks(c: seq<real>, t0: real)
    requires |c| == 4
    requires forall j :: 0 <= j < |c| ==> c[j] == t0 + j as real * 0.6
    ensures c == [t0, t0 + 0.6, t0 + 1.2, t0 + 1.8]
  {
    assert c[1] == t0 + 1 as real * 0.6;
    assert c[2] == t0 + 2 as real * 0.6;
    assert c[3] == t0 + 3 as real * 0.6;
  }

  /** The sustained-pinch scenario: 20 frames 0.1 seconds apart, starting
      from the initial state, click exactly four times, at 0, 0.6, 1.2 and
      1.8 seconds, and the whole run emits exactly four clicks. */
  lemma HeldPinchClicksFourTimes(h: Hand, t0: real, screenW: int, screenH: int)
    requires IsPinch(h.index, h.thumb) && Config.ClickCooldown < t0
    ensures ClickTimes(Config.InitialLastClick, HeldPinch(h, t0, 20)) == [t0, t0 + 0.6, t0 + 1.2, t0 + 1.8]
    ensures CountClicks(Run(Initial, HeldPinch(h, t0, 20), screenW, screenH).actions) == 4
  {
    var frames := HeldPinch(h, t0, 20);
    HeldPinchClicks(h, Config.InitialLastClick, t0, 20);
    RunClicksAreClickTimes(Initial, frames, screenW, screenH);
    FourClicks(ClickTimes(Config.InitialLastClick, frames), t0);
  }
}
