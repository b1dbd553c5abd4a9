/** The motion smoother: a one-pole low-pass filter that moves the stored
    cursor position one `Smoothing`-th of the way to each new target.  The
    stored position keeps its fractional part; only the value handed to the
    cursor is truncated. */
module Smoother {
  import opened Geometry
  import Config

  /** The unrounded position reached so far, one real per axis. */
  datatype SmootherState = SmootherState(prevX: real, prevY: real)

  /** The smoother before the first detected hand. */
  const Start: SmootherState := SmootherState(0.0, 0.0)

  /** What one smoothing call yields: the state to store and the integer
      position to move the cursor to. */
  datatype Smoothed = Smoothed(state: SmootherState, x: int, y: int)

  /** The divisor as the real that `smooth_movement` divides by. */
  const Divisor: real := Config.Smoothing as real

  /** The fraction of the gap to the target that is left after one call. */
  const Remaining: real := (Config.Smoothing - 1) as real / Divisor

  function Pow(r: real, n: nat): real {
    if n == 0 then 1.0 else r * Pow(r, n - 1)
  }

  /** One axis of the filter: the gap to the target shrinks to exactly the
      remaining fraction of what it was. */
  function Approach(prev: real, target: real): (next: real)
    ensures target - next == (target - prev) * Remaining
  {
    prev + (target - prev) / Divisor
  }

  /** A call lands between the previous value and the target, and strictly
      closer to the target unless it was already there. */
  lemma ApproachStaysBetween(prev: real, target: real)
    ensures Between(prev, Approach(prev, target), target)
    ensures prev != target ==> Abs(target - Approach(prev, target)) < Abs(target - prev)
  {
  }

  /** One call of the smoother towards the integer screen target: the stored
      state keeps the exact value and the cursor position is its truncation. */
  function Smooth(s: SmootherState, targetX: int, targetY: int): (r: Smoothed)
    ensures targetX as real - r.state.prevX == (targetX as real - s.prevX) * Remaining
    ensures targetY as real - r.state.prevY == (targetY as real - s.prevY) * Remaining
    ensures r.x == Trunc(r.state.prevX) && r.y == Trunc(r.state.prevY)
  {
    var next := SmootherState(Approach(s.prevX, targetX as real), Approach(s.prevY, targetY as real));
    Smoothed(next, Trunc(next.prevX), Trunc(next.prevY))
  }

  /** The state after `n` calls towards the same target. */
  function Settle(s: SmootherState, targetX: int, targetY: int, n: nat): SmootherState {
    if n == 0 then s else Smooth(Settle(s, targetX, targetY, n - 1), targetX, targetY).state
  }

  /** `Settle` can equally be unfolded from the first call. */
  lemma {:induction false} SettleFront(s: SmootherState, targetX: int, targetY: int, n: nat)
    requires 0 < n
    ensures Settle(s, targetX, targetY, n) == Settle(Smooth(s, targetX, targetY).state, targetX, targetY, n - 1)
  {
    if 1 < n {
      SettleFront(s, targetX, targetY, n - 1);
    }
  }

  /** One axis of `n` calls towards a fixed target. */
  function Iterate(prev: real, target: real, n: nat): real {
    if n == 0 then prev else Approach(Iterate(prev, target, n - 1), target)
  }

  /** Both axes of `Settle` are the one-axis iteration: the axes do not
      interact. */
  lemma {:induction false} SettleAxes(s: SmootherState, targetX: int, targetY: int, n: nat)
    ensures Settle(s, targetX, targetY, n).prevX == Iterate(s.prevX, targetX as real, n)
    ensures Settle(s, targetX, targetY, n).prevY == Iterate(s.prevY, targetY as real, n)
  {
    if n > 0 {
      SettleAxes(s, targetX, targetY, n - 1);
    }
  }

  /** After `n` calls the gap to a fixed target is the initial gap times the
      n-th power of the remaining fraction. */
  lemma {:induction false} IterateGap(prev: real, target: real, n: nat)
    ensures target - Iterate(prev, target, n) == (target - prev) * Pow(Remaining, n)
  {
    if n > 0 {
      IterateGap(prev, target, n - 1);
      GapStep(target - prev, target - Iterate(prev, target, n - 1), target - Iterate(prev, target, n),
              Pow(Remaining, n - 1), Remaining);
    }
  }

  lemma GapStep(g0: real, gBefore: real, gAfter: real, p: real, r: real)
    requires gBefore == g0 * p && gAfter == gBefore * r
    ensures gAfter == g0 * (r * p)
  {
  }

  /** Repeated calls towards a fixed target never overshoot it: every value
      lies between the start and the target. */
  lemma {:induction false} IterateNeverOvershoots(prev: real, target: real, n: nat)
    ensures Between(prev, Iterate(prev, target, n), target)
  {
    if n > 0 {
      IterateNeverOvershoots(prev, target, n - 1);
      ApproachStaysBetween(Iterate(prev, target, n - 1), target);
    }
  }

  /** Each further call towards a fixed target strictly shrinks a nonzero gap
      and keeps a zero gap at zero. */
  lemma IterateApproaches(prev: real, target: real, n: nat)
    ensures var before := Iterate(prev, target, n);
            var after := Iterate(prev, target, n + 1);
            && (before != target ==> Abs(target - after) < Abs(target - before))
            && (before == target ==> after == target)
  {
    ApproachStaysBetween(Iterate(prev, target, n), target);
  }

  /** A power of a fraction in [0,1] stays in [0,1] and is at most
      1 / (1 + n * (1 - r)). */
  lemma {:induction false} PowBound(r: real, n: nat)
    requires 0.0 <= r <= 1.0
    ensures 0.0 <= Pow(r, n) <= 1.0
    ensures Pow(r, n) * (1.0 + n as real * (1.0 - r)) <= 1.0
  {
    if n > 0 {
      PowBound(r, n - 1);
      BoundStep(r, Pow(r, n - 1), (n - 1) as real);
    }
  }

  lemma BoundStep(r: real, p: real, m: real)
    requires 0.0 <= r <= 1.0 && 0.0 <= p <= 1.0 && 0.0 <= m
    requires p * (1.0 + m * (1.0 - r)) <= 1.0
    ensures 0.0 <= r * p <= 1.0
    ensures (r * p) * (1.0 + (m + 1.0) * (1.0 - r)) <= 1.0
  {
    var a := 1.0 - r;
    var q := p * (1.0 + m * a);
    MulMonotone(r, p, 1.0);
    MulNonNegative(r, p);
    MulMonotone(r, q, 1.0);
    MulMonotone(a, r * p, 1.0);
    Distribute(r * p, m, a);
    Regroup(r, p, 1.0 + m * a);
    AddBounds(r * q, a * (r * p), r, a);
  }

  lemma Distribute(x: real, m: real, a: real)
    ensures x * (1.0 + (m + 1.0) * a) == x * (1.0 + m * a) + a * x
  {
  }

  lemma Regroup(x: real, y: real, z: real)
    ensures (x * y) * z == x * (y * z)
  {
  }

  lemma AddBounds(x: real, y: real, xBound: real, yBound: real)
    requires x <= xBound && y <= yBound
    ensures x + y <= xBound + yBound
  {
  }

  /** The filter converges: after `n` calls the gap to a fixed target is at
      most `Divisor / (Divisor + n)` of the initial gap, which tends to zero
      as `n` grows. */
  lemma IterateConverges(prev: real, target: real, n: nat)
    ensures Abs(target - Iterate(prev, target, n)) * (Divisor + n as real) <= Abs(target - prev) * Divisor
  {
    PowBound(Remaining, n);
    IterateGap(prev, target, n);
    ScaledGapBound(target - prev, Pow(Remaining, n), target - Iterate(prev, target, n), n as real);
  }

  lemma ScaledGapBound(gap: real, p: real, shrunk: real, n: real)
    requires 0.0 <= p && p * (1.0 + n * (1.0 - Remaining)) <= 1.0
    requires shrunk == gap * p
    ensures Abs(shrunk) * (Divisor + n) <= Abs(gap) * Divisor
  {
    assert Divisor == 7.0 && Remaining == 6.0 / 7.0;
    assert p * (Divisor + n) == Divisor * (p * (1.0 + n * (1.0 - Remaining)));
    MulMonotone(Divisor, p * (1.0 + n * (1.0 - Remaining)), 1.0);
    assert Abs(shrunk) == Abs(gap) * p;
    Regroup(Abs(gap), p, Divisor + n);
    MulMonotone(Abs(gap), p * (Divisor + n), Divisor);
  }

  /** Five calls close more than half of any gap: (6/7)^5 = 7776/16807. */
  lemma PowFiveHalves(n: nat)
    ensures Pow(Remaining, n + 5) <= Pow(Remaining, n) / 2.0
  {
    assert Remaining == 6.0 / 7.0;
    PowBound(Remaining, n);
    var p := Pow(Remaining, n);
    assert Pow(Remaining, n + 1) == Remaining * p;
    assert Pow(Remaining, n + 2) == Remaining * Pow(Remaining, n + 1);
    assert Pow(Remaining, n + 3) == Remaining * Pow(Remaining, n + 2);
    assert Pow(Remaining, n + 4) == Remaining * Pow(Remaining, n + 3);
    assert Pow(Remaining, n + 5) == Remaining * Pow(Remaining, n + 4);
  }

  /** Thirty-five calls leave less than a hundredth of any gap. */
  lemma PowThirtyFive()
    ensures Pow(Remaining, 35) < 0.01
  {
    PowBound(Remaining, 35);
    PowFiveHalves(0);
    PowFiveHalves(5);
    PowFiveHalves(10);
    PowFiveHalves(15);
    PowFiveHalves(20);
    PowFiveHalves(25);
    PowFiveHalves(30);
    assert Pow(Remaining, 0) == 1.0;
  }

  /** Powers of the remaining fraction only decrease. */
  lemma {:induction false} PowDecreasing(m: nat, n: nat)
    requires m <= n
    ensures Pow(Remaining, n) <= Pow(Remaining, m)
  {
    if m < n {
      PowDecreasing(m, n - 1);
      PowBound(Remaining, n - 1);
    }
  }

  /** Holding the hand still, any gap of at most 100 pixels is closed to
      within one pixel after 35 or more frames. */
  lemma IterateWithinOnePixel(prev: real, target: real, n: nat)
    requires Abs(target - prev) <= 100.0 && 35 <= n
    ensures Abs(target - Iterate(prev, target, n)) < 1.0
  {
    PowSmall(n);
    IterateGap(prev, target, n);
    SmallGap(target - prev, Pow(Remaining, n), target - Iterate(prev, target, n));
  }

  lemma PowSmall(n: nat)
    requires 35 <= n
    ensures 0.0 <= Pow(Remaining, n) < 0.01
  {
    PowThirtyFive();
    PowDecreasing(35, n);
    PowBound(Remaining, n);
  }

  lemma SmallGap(gap: real, p: real, shrunk: real)
    requires Abs(gap) <= 100.0 && 0.0 <= p < 0.01 && shrunk == gap * p
    ensures Abs(shrunk) < 1.0
  {
    assert Abs(shrunk) == Abs(gap) * p;
    MulMonotone(p, Abs(gap), 100.0);
  }

  /** On both axes: in particular the cursor travels from the start state to
      within one unit of (100, 100) in 35 frames. */
  lemma SettleWithinOnePixel(s: SmootherState, targetX: int, targetY: int, n: nat)
    requires Abs(targetX as real - s.prevX) <= 100.0 && Abs(targetY as real - s.prevY) <= 100.0
    requires 35 <= n
    ensures Abs(targetX as real - Settle(s, targetX, targetY, n).prevX) < 1.0
    ensures Abs(targetY as real - Settle(s, targetX, targetY, n).prevY) < 1.0
  {
    SettleAxes(s, targetX, targetY, n);
    IterateWithinOnePixel(s.prevX, targetX as real, n);
    IterateWithinOnePixel(s.prevY, targetY as real, n);
  }

  lemma {:induction false} PowPositive(r: real, n: nat)
    requires 0.0 < r
    ensures 0.0 < Pow(r, n)
  {
    if n > 0 {
      PowPositive(r, n - 1);
      MulPositive(r, Pow(r, n - 1));
    }
  }

  /** Approaching from below, the value never reaches the target. */
  lemma IterateStaysBelow(prev: real, target: real, n: nat)
    requires prev < target
    ensures Iterate(prev, target, n) < target
  {
    IterateGap(prev, target, n);
    PowPositive(Remaining, n);
    MulPositive(target - prev, Pow(Remaining, n));
  }

  /** What the cursor shows while the hand rests on (100, 100) from the start
      state: the position returned by every call stays at most 99 on both
      axes, and from the 35th call on it is exactly (99, 99). */
  lemma SettleCursorExample(n: nat)
    requires 1 <= n
    ensures var last := Smooth(Settle(Start, 100, 100, n - 1), 100, 100);
            && last.x <= 99 && last.y <= 99
            && (35 <= n ==> last.x == 99 && last.y == 99)
  {
    SettleAxes(Start, 100, 100, n);
    IterateStaysBelow(0.0, 100.0, n);
    IterateNeverOvershoots(0.0, 100.0, n);
    if 35 <= n {
      SettleWithinOnePixel(Start, 100, 100, n);
    }
  }

  /** From the start state, one call towards (70, 0) lands exactly on
      (10, 0): 0 + 70 / 7 = 10. */
  lemma SmoothFirstStepExample()
    ensures Smooth(Start, 70, 0) == Smoothed(SmootherState(10.0, 0.0), 10, 0)
  {
  }

  /** The stored state keeps its fraction: two calls towards (6, 0) put the
      cursor at x = 1, whereas storing the truncated position after the first
      call would leave it at x = 0. */
  lemma SmoothKeepsFraction()
    ensures var first := Smooth(Start, 6, 0);
            && first.x == 0
            && Smooth(first.state, 6, 0).x == 1
            && Smooth(SmootherState(first.x as real, first.y as real), 6, 0).x == 0
  {
    var first := Smooth(Start, 6, 0);
    assert first.state == SmootherState(6.0 / 7.0, 0.0);
    assert Smooth(first.state, 6, 0).state.prevX == 78.0 / 49.0;
    assert Smooth(SmootherState(0.0, 0.0), 6, 0).state.prevX == 6.0 / 7.0;
  }
}
