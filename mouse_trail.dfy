/** The MouseTrail closure: one object owning the configuration, the two
    colours parsed from it, the point buffer shared by the pointer handler and
    the frame loop, and the time of the previous frame. */
module MouseTrail {
  import opened Colour
  import opened TrailPoints
  import opened TrailPaint

  class Effect {
    const config: Config
    const startRGB: RGB
    const endRGB: RGB
    /** trailPoints, oldest first. */
    var points: seq<TrailPoint>
    /** The timestamp of the previous frame, in milliseconds. */
    var lastTime: real

    /** The buffer never holds more than trailLength points, and every point
        in it is alive. */
    ghost predicate Valid()
      reads this
    {
      |points| <= config.trailLength && AllAlive(points)
    }

    constructor (config: Config, now: real)
      requires Parsable(config.trailColor) && Parsable(config.trailColorEnd)
      ensures Valid()
      ensures this.config == config && points == [] && lastTime == now
      ensures startRGB == ParseColor(config.trailColor) && endRGB == ParseColor(config.trailColorEnd)
    {
      this.config := config;
      startRGB := ParseColor(config.trailColor);
      endRGB := ParseColor(config.trailColorEnd);
      points := [];
      lastTime := now;
    }

    /** addPoint: append the smoothed point, then drop the oldest points
        beyond trailLength. */
    method AddPoint(x: real, y: real)
      requires Valid()
      modifies this
      ensures Valid() && lastTime == old(lastTime)
      ensures points == Recent(old(points) + [NextPoint(old(points), x, y, config.smoothing)], config.trailLength)
    {
      var p := NextPoint(points, x, y, config.smoothing);
      points := points + [p];
      if |points| > config.trailLength {
        points := points[|points| - config.trailLength..];
      }
    }

    /** The decay step of drawFrame: newest to oldest, age each point and
        splice it out in place once its life is gone. */
    method Decay(dt: real)
      requires Valid() && 0.0 <= dt
      modifies this
      ensures Valid() && lastTime == old(lastTime)
      ensures points == AfterDecay(config, old(points), dt)
    {
      if config.autoFade && |points| > 0 {
        var decay := DecayAmount(dt, config.fadeDuration);
        var orig, buf := points, points;
        var i := |buf| - 1;
        while i >= 0
          invariant -1 <= i < |orig|
          invariant buf == orig[..i + 1] + Decayed(orig[i + 1..], decay)
          invariant lastTime == old(lastTime)
        {
          DecayLoopStep(orig, i, decay, buf);
          buf := buf[i := Aged(buf[i], decay)];
          if buf[i].life <= 0.0 {
            buf := buf[..i] + buf[i + 1..];
          }
          i := i - 1;
        }
        assert buf == Decayed(orig, decay) by {
          assert orig[..0] == [] && orig[0..] == orig;
        }
        points := buf;
      }
    }

    /** The paint part of drawFrame: the lone point, one segment per
        neighbouring pair ("line"), one circle per point ("dots"), or nothing. */
    method Paint() returns (shapes: seq<Shape>)
      ensures shapes == FrameShapes(config, startRGB, endRGB, points)
    {
      var n := |points|;
      if n < 2 {
        if n == 1 {
          shapes := [SinglePoint(config, startRGB, endRGB, points[0])];
        } else {
          shapes := [];
        }
        return;
      }
      shapes := [];
      if config.variant == Line {
        var i := 1;
        while i < n
          invariant 1 <= i <= n
          invariant |shapes| == i - 1
          invariant forall k :: 0 <= k < i - 1 ==> shapes[k] == SegmentShape(config, startRGB, endRGB, points, k + 1)
        {
          shapes := shapes + [SegmentShape(config, startRGB, endRGB, points, i)];
          i := i + 1;
        }
      } else if config.variant == Dots {
        var i := 0;
        while i < n
          invariant 0 <= i <= n
          invariant |shapes| == i
          invariant forall k :: 0 <= k < i ==> shapes[k] == DotShape(config, startRGB, endRGB, points, k)
        {
          shapes := shapes + [DotShape(config, startRGB, endRGB, points, i)];
          i := i + 1;
        }
      }
    }

    /** drawFrame: decay, then paint what is left. */
    method DrawFrame(dt: real) returns (shapes: seq<Shape>)
      requires Valid() && 0.0 <= dt
      modifies this
      ensures Valid() && lastTime == old(lastTime)
      ensures points == AfterDecay(config, old(points), dt)
      ensures shapes == FrameShapes(config, startRGB, endRGB, points)
    {
      Decay(dt);
      shapes := Paint();
    }

    /** One tick of animate at clock reading `now` (milliseconds): the delta
        since the last tick in seconds, clamped to [0, 0.05], drives drawFrame. */
    method Animate(now: real) returns (shapes: seq<Shape>)
      requires Valid()
      modifies this
      ensures Valid() && lastTime == now
      ensures points == AfterDecay(config, old(points), ClampDt((now - old(lastTime)) / 1000.0))
      ensures shapes == FrameShapes(config, startRGB, endRGB, points)
    {
      var dt := (now - lastTime) / 1000.0;
      dt := ClampDt(dt);
      lastTime := now;
      shapes := DrawFrame(dt);
    }
  }

  /** The page's two trail colours parse to (34, 197, 94) and (168, 245, 200). */
  lemma DefaultColours()
    ensures Parsable(DefaultConfig.trailColor) && Parsable(DefaultConfig.trailColorEnd)
    ensures ParseColor(DefaultConfig.trailColor) == RGB(34, 197, 94)
    ensures ParseColor(DefaultConfig.trailColorEnd) == RGB(168, 245, 200)
  {
    assert DefaultConfig.trailColor[1..] == "22c55e";
    assert DefaultConfig.trailColorEnd[1..] == "a8f5c8";
  }
}
