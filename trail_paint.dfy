/** The paint half of drawFrame: what is drawn for a buffer of points, as a
    list of shapes instead of canvas calls. Each shape carries the computed
    position, width or radius, and rgba colour. */
module TrailPaint {
  import opened Colour
  import opened TrailPoints

  /** One filled circle (arc + fill) or one round-capped segment (moveTo, lineTo, stroke). */
  datatype Shape =
    | Disc(cx: real, cy: real, radius: real, fill: RGBA)
    | Stroke(x1: real, y1: real, x2: real, y2: real, width: real, colour: RGBA)

  /** The point's life when autoFade is on, otherwise 1. */
  function LifeFactor(cfg: Config, life: real): real {
    if cfg.autoFade then life else 1.0
  }

  /** t = i / (n - 1): how far index i is along the buffer, 0 at the oldest point. */
  function Position(i: nat, n: nat): (t: real)
    requires 2 <= n
    ensures i < n ==> 0.0 <= t <= 1.0
    ensures i == 0 ==> t == 0.0
    ensures i == n - 1 ==> t == 1.0
  {
    var t := i as real / (n - 1) as real;
    assert t * (n - 1) as real == i as real;
    t
  }

  /** The alpha of segment i: (i / n) times the life factor when fadeOut is on. */
  function SegmentAlpha(cfg: Config, i: nat, n: nat, life: real): real
    requires 0 < n
  {
    (if cfg.fadeOut then i as real / n as real else 1.0) * LifeFactor(cfg, life)
  }

  /** `Math.max(1, lineWidth * widthScale)`, thinner toward the tail when fadeOut is on. */
  function StrokeWidth(cfg: Config, a: real): (w: real)
    ensures 1.0 <= w
  {
    Max(1.0, cfg.lineWidth * (if cfg.fadeOut then 0.3 + 0.7 * a else 1.0))
  }

  /** The alpha of dot i: always (i / n) times the life factor, whatever fadeOut says. */
  function DotAlpha(cfg: Config, i: nat, n: nat, life: real): real
    requires 0 < n
  {
    (i as real / n as real) * LifeFactor(cfg, life)
  }

  /** The radius of a dot with alpha a: dotSize, scaled down toward the tail
      when fadeOut is on. */
  function DotRadius(cfg: Config, a: real): real {
    cfg.dotSize * (if cfg.fadeOut then 0.3 + 0.7 * a else 1.0)
  }

  /** The segment from point i - 1 to point i of the "line" variant. */
  function SegmentShape(cfg: Config, start: RGB, end: RGB, pts: seq<TrailPoint>, i: nat): Shape
    requires 1 <= i < |pts|
  {
    var a := SegmentAlpha(cfg, i, |pts|, pts[i].life);
    Stroke(pts[i - 1].x, pts[i - 1].y, pts[i].x, pts[i].y,
           StrokeWidth(cfg, a), Blend(start, end, a, Position(i, |pts|)))
  }

  /** The circle for point i of the "dots" variant. */
  function DotShape(cfg: Config, start: RGB, end: RGB, pts: seq<TrailPoint>, i: nat): Shape
    requires i < |pts| && 2 <= |pts|
  {
    var a := DotAlpha(cfg, i, |pts|, pts[i].life);
    Disc(pts[i].x, pts[i].y, DotRadius(cfg, a), Blend(start, end, a, Position(i, |pts|)))
  }

  /** The lone point of a one-point buffer: a circle of radius lineWidth in the start colour. */
  function SinglePoint(cfg: Config, start: RGB, end: RGB, p: TrailPoint): Shape {
    Disc(p.x, p.y, cfg.lineWidth, Blend(start, end, LifeFactor(cfg, p.life), 0.0))
  }

  /** Everything drawFrame paints for the buffer `pts` (after its decay step). */
  function FrameShapes(cfg: Config, start: RGB, end: RGB, pts: seq<TrailPoint>): seq<Shape> {
    if |pts| < 2 then
      if |pts| == 1 then [SinglePoint(cfg, start, end, pts[0])] else []
    else
      match cfg.variant
      case Line => seq(|pts| - 1, k requires 0 <= k < |pts| - 1 => SegmentShape(cfg, start, end, pts, k + 1))
      case Dots => seq(|pts|, k requires 0 <= k < |pts| => DotShape(cfg, start, end, pts, k))
      case Particles => []
      case Pixel => []
  }

  /** An empty buffer paints nothing, one point paints one circle, the line
      variant one segment per neighbouring pair, the dots variant one circle per
      point, and the two unimplemented variants nothing. */
  lemma FrameShapeCount(cfg: Config, start: RGB, end: RGB, pts: seq<TrailPoint>)
    ensures |FrameShapes(cfg, start, end, pts)| ==
      if |pts| < 2 then |pts|
      else match cfg.variant
        case Line => |pts| - 1
        case Dots => |pts|
        case Particles => 0
        case Pixel => 0
  {
  }

  /** The line variant draws one connected polyline: from the oldest point,
      through every point in buffer order, to the newest. */
  lemma StrokesFormPolyline(cfg: Config, start: RGB, end: RGB, pts: seq<TrailPoint>)
    requires cfg.variant == Line && 2 <= |pts|
    ensures var s := FrameShapes(cfg, start, end, pts);
      && |s| == |pts| - 1
      && forall k :: 0 <= k < |s| ==>
           && s[k].Stroke?
           && s[k].x1 == pts[k].x && s[k].y1 == pts[k].y
           && s[k].x2 == pts[k + 1].x && s[k].y2 == pts[k + 1].y
  {
  }

  /** Every segment is at least one pixel wide; with fadeOut off every segment
      is max(1, lineWidth) wide; and for live points with fadeOut on no segment
      is wider than that. */
  lemma StrokeWidthBounds(cfg: Config, start: RGB, end: RGB, pts: seq<TrailPoint>)
    requires cfg.variant == Line && AllAlive(pts)
    ensures var s := FrameShapes(cfg, start, end, pts);
      forall k :: 0 <= k < |s| && s[k].Stroke? ==>
        && 1.0 <= s[k].width <= Max(1.0, cfg.lineWidth)
        && (!cfg.fadeOut ==> s[k].width == Max(1.0, cfg.lineWidth))
  {
    var s := FrameShapes(cfg, start, end, pts);
    if 2 <= |pts| {
      forall i | 1 <= i < |pts|
        ensures StrokeWidth(cfg, SegmentAlpha(cfg, i, |pts|, pts[i].life)) <= Max(1.0, cfg.lineWidth)
      {
        assert Alive(pts[i]);
        SegmentWidthBound(cfg, i, |pts|, pts[i].life);
      }
      assert forall k :: 0 <= k < |s| ==> s[k] == SegmentShape(cfg, start, end, pts, k + 1);
    }
  }

  lemma SegmentWidthBound(cfg: Config, i: nat, n: nat, life: real)
    requires 1 <= i < n && 0.0 < life <= 1.0
    ensures StrokeWidth(cfg, SegmentAlpha(cfg, i, n, life)) <= Max(1.0, cfg.lineWidth)
  {
    if cfg.fadeOut && cfg.lineWidth < 0.0 {
      var a := SegmentAlpha(cfg, i, n, life);
      AlphaInUnit(cfg, i, n, life);
      var scale := 0.3 + 0.7 * a;
      ProductSign(-cfg.lineWidth, scale);
      assert (-cfg.lineWidth) * scale == -(cfg.lineWidth * scale);
      assert StrokeWidth(cfg, a) == 1.0;
    } else if cfg.fadeOut {
      var a := SegmentAlpha(cfg, i, n, life);
      AlphaInUnit(cfg, i, n, life);
      var scale := 0.3 + 0.7 * a;
      assert scale <= 1.0;
      ProductSign(cfg.lineWidth, 1.0 - scale);
      assert cfg.lineWidth * (1.0 - scale) == cfg.lineWidth - cfg.lineWidth * scale;
    }
  }

  /** For a live point the alpha i / n * life is in (0, 1), or (0, 1] with fadeOut off. */
  lemma AlphaInUnit(cfg: Config, i: nat, n: nat, life: real)
    requires 1 <= i < n && 0.0 < life <= 1.0
    ensures 0.0 < SegmentAlpha(cfg, i, n, life) <= 1.0
    ensures cfg.fadeOut ==> SegmentAlpha(cfg, i, n, life) < 1.0
    ensures 0.0 < DotAlpha(cfg, i, n, life) < 1.0
  {
    var f := i as real / n as real;
    assert f * n as real == i as real;
    assert 0.0 < f < 1.0;
    var l := LifeFactor(cfg, life);
    assert 0.0 < f * l <= f * 1.0;
  }

  /** A dot's radius is positive and at most dotSize, and exactly dotSize with
      fadeOut off, so the circle is never given a negative radius. The oldest
      dot's alpha is 0. */
  lemma DotRadiusBounds(cfg: Config, i: nat, n: nat, life: real)
    requires i < n && 0.0 < life <= 1.0 && 0.0 < cfg.dotSize
    ensures i == 0 ==> DotAlpha(cfg, i, n, life) == 0.0
    ensures 0.0 < DotRadius(cfg, DotAlpha(cfg, i, n, life)) <= cfg.dotSize
    ensures !cfg.fadeOut ==> DotRadius(cfg, DotAlpha(cfg, i, n, life)) == cfg.dotSize
  {
    var a := DotAlpha(cfg, i, n, life);
    if i == 0 {
      assert i as real / n as real == 0.0;
    } else {
      AlphaInUnit(cfg, i, n, life);
    }
    assert 0.0 <= a <= 1.0;
    var scale := if cfg.fadeOut then 0.3 + 0.7 * a else 1.0;
    assert 0.3 <= scale <= 1.0;
    ShrinkFactor(cfg.dotSize, scale);
    assert DotRadius(cfg, a) == cfg.dotSize * scale;
  }

  /** Scaling a positive size by a factor in (0, 1] keeps it positive and no larger. */
  lemma ShrinkFactor(size: real, m: real)
    requires 0.0 < size && 0.0 < m <= 1.0
    ensures 0.0 < size * m <= size
  {
    ProductSign(size, m);
    ProductSign(size, 1.0 - m);
    assert size * (1.0 - m) == size - size * m;
  }

  /** In the dots variant over live points every circle has a radius in
      (0, dotSize]. */
  lemma DotRadiiInRange(cfg: Config, start: RGB, end: RGB, pts: seq<TrailPoint>)
    requires cfg.variant == Dots && 2 <= |pts| && AllAlive(pts) && 0.0 < cfg.dotSize
    ensures var s := FrameShapes(cfg, start, end, pts);
      forall k :: 0 <= k < |s| ==> s[k].Disc? && 0.0 < s[k].radius <= cfg.dotSize
  {
    var s := FrameShapes(cfg, start, end, pts);
    forall k | 0 <= k < |s|
      ensures s[k].Disc? && 0.0 < s[k].radius <= cfg.dotSize
    {
      assert s[k] == DotShape(cfg, start, end, pts, k);
      assert Alive(pts[k]);
      DotRadiusBounds(cfg, k, |pts|, pts[k].life);
    }
  }

  /** For a buffer of live points the alpha clamp of rgba never fires: each
      segment's colour carries its computed alpha, and with fadeOut on every
      segment is partly transparent. */
  lemma SegmentAlphaUnclamped(cfg: Config, start: RGB, end: RGB, pts: seq<TrailPoint>)
    requires cfg.variant == Line && AllAlive(pts)
    ensures var s := FrameShapes(cfg, start, end, pts);
      forall k :: 0 <= k < |s| && 2 <= |pts| ==>
        && s[k].Stroke?
        && s[k].colour.a == SegmentAlpha(cfg, k + 1, |pts|, pts[k + 1].life)
        && 0.0 < s[k].colour.a <= 1.0
        && (cfg.fadeOut ==> s[k].colour.a < 1.0)
  {
    var s := FrameShapes(cfg, start, end, pts);
    forall i | 1 <= i < |pts|
      ensures 0.0 < SegmentAlpha(cfg, i, |pts|, pts[i].life) <= 1.0
      ensures cfg.fadeOut ==> SegmentAlpha(cfg, i, |pts|, pts[i].life) < 1.0
    {
      assert Alive(pts[i]);
      AlphaInUnit(cfg, i, |pts|, pts[i].life);
    }
  }

  /** The colour gradient runs from the start colour at the oldest point to the
      end colour at the newest: the last segment, and the last dot, carry the end
      colour exactly; the first dot and a lone point the start colour. */
  lemma GradientEnds(cfg: Config, start: RGB, end: RGB, pts: seq<TrailPoint>)
    requires pts != []
    ensures var s := FrameShapes(cfg, start, end, pts);
      && (|pts| == 1 ==> |s| == 1 && s[0].Disc? && s[0].fill.r == start.r && s[0].fill.g == start.g && s[0].fill.b == start.b)
      && (2 <= |pts| && cfg.variant == Line ==>
            var c := s[|s| - 1].colour; c.r == end.r && c.g == end.g && c.b == end.b)
      && (2 <= |pts| && cfg.variant == Dots ==>
            && s[0].fill.r == start.r && s[0].fill.g == start.g && s[0].fill.b == start.b
            && var c := s[|s| - 1].fill; c.r == end.r && c.g == end.g && c.b == end.b)
  {
    var n := |pts|;
    if n == 1 {
      BlendEndpoints(start, end, LifeFactor(cfg, pts[0].life));
    } else {
      BlendEndpoints(start, end, SegmentAlpha(cfg, n - 1, n, pts[n - 1].life));
      BlendEndpoints(start, end, DotAlpha(cfg, n - 1, n, pts[n - 1].life));
      BlendEndpoints(start, end, DotAlpha(cfg, 0, n, pts[0].life));
    }
  }

  /** A lone point is drawn at its position with radius lineWidth, its alpha
      being its life when autoFade is on and 1 otherwise. */
  lemma LonePoint(cfg: Config, start: RGB, end: RGB, p: TrailPoint)
    requires Alive(p)
    ensures FrameShapes(cfg, start, end, [p]) ==
      [Disc(p.x, p.y, cfg.lineWidth, RGBA(start.r, start.g, start.b, if cfg.autoFade then p.life else 1.0))]
  {
    BlendEndpoints(start, end, LifeFactor(cfg, p.life));
  }

  /** Between two in-gamut colours every painted colour has byte channels. */
  lemma ColoursInGamut(cfg: Config, start: RGB, end: RGB, pts: seq<TrailPoint>)
    requires InGamut(start) && InGamut(end)
    ensures var s := FrameShapes(cfg, start, end, pts);
      forall k :: 0 <= k < |s| ==>
        var c := if s[k].Disc? then s[k].fill else s[k].colour;
        IsByte(c.r) && IsByte(c.g) && IsByte(c.b)
  {
    var s := FrameShapes(cfg, start, end, pts);
    var n := |pts|;
    forall k | 0 <= k < |s|
      ensures var c := if s[k].Disc? then s[k].fill else s[k].colour;
        IsByte(c.r) && IsByte(c.g) && IsByte(c.b)
    {
      if n == 1 {
        BlendInGamut(start, end, LifeFactor(cfg, pts[0].life), 0.0);
      } else if cfg.variant == Line {
        BlendInGamut(start, end, SegmentAlpha(cfg, k + 1, n, pts[k + 1].life), Position(k + 1, n));
      } else {
        BlendInGamut(start, end, DotAlpha(cfg, k, n, pts[k].life), Position(k, n));
      }
    }
  }
}
