/** The pure core of `capture_screenshot` in thumbnail/utils.py: the guard on the
    decoder-reported duration, the choice of the screenshot time, and the fixed
    size of the thumbnail. Decoding, frame extraction and JPEG encoding are not
    modelled; the random draw is a parameter. */
module Screenshot {
  import opened Wrappers

  /** Width and height that every thumbnail is stretched to. */
  const ThumbWidth: nat := 300
  const ThumbHeight: nat := 140

  /** The error raised when the decoder reports a duration of exactly zero. */
  datatype CaptureError = ZeroDuration

  /** A decoded frame or a thumbnail, known only by its pixel size. */
  datatype Image = Image(width: nat, height: nat)

  /** What `capture_screenshot` returns: the thumbnail, the duration the
      decoder reported and the time the frame was taken at. */
  datatype Capture = Capture(thumbnail: Image, duration: real, time: real)

  /** The values `random.uniform(a, b)` can return: the closed range between
      `a` and `b`, whichever of the two is larger. */
  predicate UniformRange(a: real, b: real, x: real)
  {
    if a <= b then a <= x <= b else b <= x <= a
  }

  /** A requested timestamp is honoured when it lies in `[0, duration]`. */
  predicate InPlayableRange(duration: real, t: real)
  {
    0.0 <= t <= duration
  }

  /** Picks the screenshot time. `draw` is the value `random.uniform(0, duration)`
      would return; only a duration of exactly zero is rejected. */
  function ScreenshotTime(duration: real, timestamp: Option<real>, draw: real): (r: Result<real, CaptureError>)
    requires UniformRange(0.0, duration, draw)
    ensures r.Failure? <==> duration == 0.0
    ensures r.Success? && timestamp.Some? && InPlayableRange(duration, timestamp.value) ==> r.value == timestamp.value
    ensures r.Success? && (timestamp.None? || !InPlayableRange(duration, timestamp.value)) ==> r.value == draw
    ensures duration > 0.0 ==> r.Success? && InPlayableRange(duration, r.value)
  {
    if duration == 0.0 then Failure(ZeroDuration)
    else if timestamp.Some? then
      if timestamp.value < 0.0 || timestamp.value > duration then Success(draw)
      else Success(timestamp.value)
    else Success(draw)
  }

  /** Stretches a frame to the fixed thumbnail size, whatever its own size. */
  function ResizeToThumbnail(frame: Image): (thumb: Image)
    ensures thumb.width == ThumbWidth && thumb.height == ThumbHeight
  {
    Image(ThumbWidth, ThumbHeight)
  }

  /** `capture_screenshot` on a video whose decoder reports `duration` and whose
      frame has the size `frame`. */
  function CaptureScreenshot(frame: Image, duration: real, timestamp: Option<real>, draw: real): (r: Result<Capture, CaptureError>)
    requires UniformRange(0.0, duration, draw)
    ensures r.Failure? <==> duration == 0.0
    ensures r.Success? ==> r.value.duration == duration
    ensures r.Success? ==> r.value.thumbnail == Image(ThumbWidth, ThumbHeight)
    ensures r.Success? ==> ScreenshotTime(duration, timestamp, draw) == Success(r.value.time)
  {
    match ScreenshotTime(duration, timestamp, draw)
    case Failure(e) => Failure(e)
    case Success(t) => Success(Capture(ResizeToThumbnail(frame), duration, t))
  }

  /** The random fallback decides the outcome exactly when no timestamp, or one
      outside `[0, duration]`, was requested: the result is the same for every
      draw if and only if an in-range timestamp was given. */
  lemma DrawIrrelevantIffInRange(duration: real, timestamp: Option<real>)
    requires duration > 0.0
    ensures (forall d1, d2 :: UniformRange(0.0, duration, d1) && UniformRange(0.0, duration, d2) ==>
               ScreenshotTime(duration, timestamp, d1) == ScreenshotTime(duration, timestamp, d2))
            <==> (timestamp.Some? && InPlayableRange(duration, timestamp.value))
  {
    if !(timestamp.Some? && InPlayableRange(duration, timestamp.value)) {
      assert ScreenshotTime(duration, timestamp, 0.0) != ScreenshotTime(duration, timestamp, duration);
    }
  }

  /** A negative duration passes the guard: the requested timestamp is then never
      used, and the time comes from the draw in `[duration, 0]`, before the start
      of the video. */
  lemma NegativeDurationNotRejected(duration: real, timestamp: Option<real>, draw: real)
    requires duration < 0.0 && UniformRange(0.0, duration, draw)
    ensures ScreenshotTime(duration, timestamp, draw) == Success(draw)
    ensures duration <= draw <= 0.0
  {
  }
}
