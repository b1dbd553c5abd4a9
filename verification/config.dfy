/** The constants fixed when the virtual mouse is constructed.  None of them
    changes while the control loop runs. */
module Config {

  /** Width of the camera frame in pixels; it is also the scale that turns a
      normalised pinch distance into "pixels" for the click threshold. */
  const CamWidth: real := 640.0

  /** Height of the camera frame in pixels.  It configures the capture device
      and places the drawn landmarks; the control step does not use it. */
  const CamHeight: real := 480.0

  /** Divisor of the gap between the smoothed cursor and its target. */
  const Smoothing: int := 7

  /** A pinch closer than this many (camera-width) pixels is a click gesture. */
  const ClickThreshold: real := 40.0

  /** Seconds that must have passed since the last click, strictly. */
  const ClickCooldown: real := 0.5

  /** The last-click time before any click has fired. */
  const InitialLastClick: real := 0.0
}
