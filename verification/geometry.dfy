/** Pure geometry of the gesture pipeline: landmark points, Python's `int()`
    on a float, the normalised-to-screen conversion and the squared pinch
    distance. */
module Geometry {

  /** A landmark position normalised to the camera frame, origin top-left.
      Detector output usually lies in [0,1] x [0,1] but may stray outside. */
  datatype Point = Point(x: real, y: real)

  function Abs(r: real): real {
    if r < 0.0 then -r else r
  }

  /** `v` lies between `a` and `b`, whichever of them is smaller. */
  predicate Between(a: real, v: real, b: real) {
    (a <= v <= b) || (b <= v <= a)
  }

  /** Python's `int()` applied to a float: truncation toward zero. */
  function Trunc(r: real): (n: int)
    ensures 0.0 <= r ==> 0 <= n && n as real <= r < n as real + 1.0
    ensures r < 0.0 ==> n <= 0 && n as real - 1.0 < r <= n as real
  {
    if 0.0 <= r then r.Floor else -((-r).Floor)
  }

  /** Truncation is the only integer that has the sign of `r` (or is zero) and
      lies less than one unit closer to zero than `r`. */
  lemma TruncUnique(r: real, n: int)
    requires 0.0 <= r ==> 0 <= n && n as real <= r < n as real + 1.0
    requires r < 0.0 ==> n <= 0 && n as real - 1.0 < r <= n as real
    ensures n == Trunc(r)
  {
  }

  /** Truncation differs from flooring exactly on negative non-integers. */
  lemma TruncVersusFloor(r: real)
    ensures Trunc(r) == r.Floor <==> 0.0 <= r || r.Floor as real == r
    ensures Trunc(r) != r.Floor ==> Trunc(r) == r.Floor + 1
  {
  }

  /** One axis of the conversion to the screen: the normalised coordinate
      scaled by the screen size and truncated, with no clamping.  Inside
      [0, 1) it lands on a pixel of the screen; at or past the far edge it
      lands at or past the screen size; scaled to -1 or less it is negative. */
  function ToPixel(x: real, size: int): (n: int)
    ensures 1 <= size && 0.0 <= x < 1.0 ==> 0 <= n < size
    ensures 0 <= size && 1.0 <= x ==> size <= n
    ensures x * size as real <= -1.0 ==> n < 0
  {
    PixelRange(x, size);
    Trunc(x * size as real)
  }

  lemma PixelRange(x: real, size: int)
    ensures 1 <= size && 0.0 <= x < 1.0 ==> 0 <= Trunc(x * size as real) < size
    ensures 0 <= size && 1.0 <= x ==> size <= Trunc(x * size as real)
  {
    var v := x * size as real;
    if 1 <= size && 0.0 <= x < 1.0 {
      ScaleBelow(x, size);
      TruncRange(v, size);
    }
    if 0 <= size && 1.0 <= x {
      ScaleAbove(x, size);
      TruncRange(v, size);
    }
  }

  /** Truncation keeps integer bounds: a value in [0, size) truncates into
      [0, size), and one at or above a non-negative `size` to at least
      `size`. */
  lemma TruncRange(v: real, size: int)
    ensures 0.0 <= v < size as real ==> 0 <= Trunc(v) < size
    ensures 0 <= size && size as real <= v ==> size <= Trunc(v)
  {
  }

  /** The screen pixel under a normalised point, one axis at a time. */
  function ToScreen(p: Point, screenW: int, screenH: int): (r: (int, int))
    ensures 1 <= screenW && 0.0 <= p.x < 1.0 ==> 0 <= r.0 < screenW
    ensures 1 <= screenH && 0.0 <= p.y < 1.0 ==> 0 <= r.1 < screenH
  {
    (ToPixel(p.x, screenW), ToPixel(p.y, screenH))
  }

  /** Points outside the frame are not clamped: a coordinate at or past the
      far edge lands at or past the screen edge, and one that scales to -1 or
      less lands at a negative pixel. */
  lemma ToScreenUnclamped(p: Point, screenW: int, screenH: int)
    ensures 0 <= screenW && 1.0 <= p.x ==> screenW <= ToScreen(p, screenW, screenH).0
    ensures 0 <= screenH && 1.0 <= p.y ==> screenH <= ToScreen(p, screenW, screenH).1
    ensures p.x * screenW as real <= -1.0 ==> ToScreen(p, screenW, screenH).0 < 0
    ensures p.y * screenH as real <= -1.0 ==> ToScreen(p, screenW, screenH).1 < 0
  {
  }

  lemma ScaleBelow(x: real, n: int)
    ensures 1 <= n && 0.0 <= x < 1.0 ==> 0.0 <= x * n as real < n as real
  {
    if 1 <= n && 0.0 <= x < 1.0 {
      assert x * n as real < 1.0 * n as real;
    }
  }

  lemma ScaleAbove(x: real, n: int)
    ensures 0 <= n && 1.0 <= x ==> n as real <= x * n as real
  {
    if 0 <= n && 1.0 <= x {
      assert 1.0 * n as real <= x * n as real;
    }
  }

  /** The square of the Euclidean distance between two points. */
  function SquaredDistance(p: Point, q: Point): (d: real)
    ensures 0.0 <= d
    ensures p == q ==> d == 0.0
  {
    var dx := p.x - q.x;
    var dy := p.y - q.y;
    MulNonNegative(Abs(dx), Abs(dx));
    MulNonNegative(Abs(dy), Abs(dy));
    assert dx * dx == Abs(dx) * Abs(dx);
    assert dy * dy == Abs(dy) * Abs(dy);
    dx * dx + dy * dy
  }

  /** The pinch distance does not depend on which finger is named first. */
  lemma SquaredDistanceSymmetric(p: Point, q: Point)
    ensures SquaredDistance(p, q) == SquaredDistance(q, p)
  {
    assert (p.x - q.x) * (p.x - q.x) == (q.x - p.x) * (q.x - p.x);
    assert (p.y - q.y) * (p.y - q.y) == (q.y - p.y) * (q.y - p.y);
  }

  lemma MulNonNegative(a: real, b: real)
    requires 0.0 <= a && 0.0 <= b
    ensures 0.0 <= a * b
  {
  }

  lemma MulMonotone(c: real, a: real, b: real)
    requires 0.0 <= c && a <= b
    ensures c * a <= c * b
  {
    assert c * b - c * a == c * (b - a);
    MulNonNegative(c, b - a);
  }

  lemma MulPositive(a: real, b: real)
    requires 0.0 < a && 0.0 < b
    ensures 0.0 < a * b
  {
  }

  lemma SquareLess(a: real, b: real)
    requires 0.0 <= a < b
    ensures a * a < b * b
  {
    assert b * b - a * a == (b - a) * (b + a);
    MulPositive(b - a, b + a);
  }

  /** Squaring is strictly monotone on the non-negative reals. */
  lemma SquareMonotone(a: real, b: real)
    requires 0.0 <= a && 0.0 <= b
    ensures a < b <==> a * a < b * b
  {
    if a < b {
      SquareLess(a, b);
    } else if b < a {
      SquareLess(b, a);
    }
  }

  /** `virtual_mouse.py` compares `sqrt(dx^2 + dy^2) * scale` with a threshold.  For a
      positive scale and threshold this is the same test as comparing the
      squared distance, scaled by `scale^2`, with `threshold^2`, whichever
      non-negative square root is taken. */
  lemma ScaledDistanceBySquares(p: Point, q: Point, root: real, scale: real, threshold: real)
    requires 0.0 <= root && root * root == SquaredDistance(p, q)
    requires 0.0 < scale && 0.0 < threshold
    ensures root * scale < threshold <==> SquaredDistance(p, q) * (scale * scale) < threshold * threshold
  {
    MulNonNegative(root, scale);
    SquareMonotone(root * scale, threshold);
    assert (root * scale) * (root * scale) == (root * root) * (scale * scale);
  }
}
