/** The click detector: a pinch closer than the threshold fires a click when
    more than the cooldown has passed since the last click.  It is level
    triggered, so a pinch that is held fires again after every cooldown. */
module ClickDetector {
  import opened Geometry
  import Config

  /** The pinch test without the square root: the squared normalised distance
      between thumb tip and index tip, scaled by the camera width squared, is
      below the squared threshold.  Touching fingertips are a pinch, and a
      pinch keeps the tips within 1/16 of the frame (40 camera pixels) on
      each axis. */
  function IsPinch(index: Point, thumb: Point): (pinch: bool)
    ensures index == thumb ==> pinch
    ensures pinch ==> 16.0 * Abs(thumb.x - index.x) < 1.0 && 16.0 * Abs(thumb.y - index.y) < 1.0
  {
    PinchAxes(index, thumb);
    SquaredDistance(thumb, index) * (Config.CamWidth * Config.CamWidth)
      < Config.ClickThreshold * Config.ClickThreshold
  }

  /** Below the threshold, neither axis alone can be 40 pixels apart. */
  lemma PinchAxes(index: Point, thumb: Point)
    ensures SquaredDistance(thumb, index) * (Config.CamWidth * Config.CamWidth)
              < Config.ClickThreshold * Config.ClickThreshold
            ==> 16.0 * Abs(thumb.x - index.x) < 1.0 && 16.0 * Abs(thumb.y - index.y) < 1.0
  {
    var d := SquaredDistance(thumb, index);
    if d * (Config.CamWidth * Config.CamWidth) < Config.ClickThreshold * Config.ClickThreshold {
      var ax := Abs(thumb.x - index.x);
      var ay := Abs(thumb.y - index.y);
      assert d == ax * ax + ay * ay;
      assert d < 1.0 / 256.0;
      MulNonNegative(ax, ax);
      MulNonNegative(ay, ay);
      SquareMonotone(ax, 1.0 / 16.0);
      SquareMonotone(ay, 1.0 / 16.0);
    }
  }

  /** `IsPinch` is exactly the program's test `sqrt(dx^2 + dy^2) * 640 < 40`,
      for the non-negative square root of the squared distance; in
      particular a pinch of exactly 40 pixels is not a click gesture. */
  lemma PinchMatchesPixelDistance(index: Point, thumb: Point, root: real)
    requires 0.0 <= root && root * root == SquaredDistance(thumb, index)
    ensures IsPinch(index, thumb) <==> root * Config.CamWidth < Config.ClickThreshold
    ensures root * Config.CamWidth == Config.ClickThreshold ==> !IsPinch(index, thumb)
  {
    ScaledDistanceBySquares(thumb, index, root, Config.CamWidth, Config.ClickThreshold);
  }

  /** Thumb 0.01 to the right of the index tip is 6.4 pixels apart, a pinch;
      thumb 1/16 to the right is exactly 40 pixels apart, not a pinch. */
  lemma PinchExamples()
    ensures IsPinch(Point(0.5, 0.5), Point(0.51, 0.5))
    ensures !IsPinch(Point(0.5, 0.5), Point(0.5625, 0.5))
  {
    PinchMatchesPixelDistance(Point(0.5, 0.5), Point(0.51, 0.5), 0.01);
    PinchMatchesPixelDistance(Point(0.5, 0.5), Point(0.5625, 0.5), 0.0625);
  }

  /** The outcome of one evaluation: whether a click fired and the last-click
      time to keep. */
  datatype ClickResult = ClickResult(fired: bool, lastClick: real)

  /** One evaluation of the detector at time `now`. */
  function Detect(pinching: bool, now: real, lastClick: real): (r: ClickResult)
    ensures r.fired ==> pinching && now - lastClick > Config.ClickCooldown && r.lastClick == now
    ensures !r.fired ==> r.lastClick == lastClick && (!pinching || now - lastClick <= Config.ClickCooldown)
  {
    if pinching && now - lastClick > Config.ClickCooldown then ClickResult(true, now)
    else ClickResult(false, lastClick)
  }

  /** Both comparisons are strict: exactly the cooldown after the last click
      does not fire, any later time does; and a gesture that is not a pinch
      never fires. */
  lemma DetectBoundaries(lastClick: real, later: real)
    requires 0.0 < later
    ensures !Detect(true, lastClick + Config.ClickCooldown, lastClick).fired
    ensures Detect(true, lastClick + Config.ClickCooldown + later, lastClick).fired
    ensures !Detect(false, lastClick + Config.ClickCooldown + later, lastClick).fired
  {
  }

  /** With the initial last-click time of zero, the first pinch at any clock
      reading beyond the cooldown fires: there is no spurious cooldown at
      start-up. */
  lemma FirstPinchFires(now: real)
    requires Config.ClickCooldown < now
    ensures Detect(true, now, Config.InitialLastClick) == ClickResult(true, now)
  {
  }
}
