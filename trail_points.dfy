/** The mouse trail's point buffer as values: the configuration, the smoothed
    point the sampler appends, the trim to the newest `trailLength` points, the
    frame clock's clamp and the life decay that prunes dead points. The class
    in module MouseTrail updates its buffer exactly as these functions say. */
module TrailPoints {

  /** One recorded cursor position; life is 1 when born and the point is
      removed once it drops to 0 or below. */
  datatype TrailPoint = TrailPoint(x: real, y: real, life: real)

  /** The variant string; only Line and Dots draw anything. */
  datatype Variant = Line | Dots | Particles | Pixel

  datatype Config = Config(
    variant: Variant,
    trailColor: string,
    trailColorEnd: string,
    trailLength: nat,
    lineWidth: real,
    fadeOut: bool,
    smoothing: real,
    dotSize: real,
    autoFade: bool,
    fadeDuration: real)

  /** The configuration the page ships with. */
  const DefaultConfig := Config(Line, "#22c55e", "#a8f5c8", 25, 2.5, true, 0.3, 5.0, true, 1.5)

  function Max(a: real, b: real): real { if a >= b then a else b }

  function Min(a: real, b: real): real { if a <= b then a else b }

  /** A live point: 0 < life <= 1. */
  predicate Alive(p: TrailPoint) { 0.0 < p.life <= 1.0 }

  predicate AllAlive(pts: seq<TrailPoint>) {
    forall k :: 0 <= k < |pts| ==> Alive(pts[k])
  }

  predicate Between(a: real, m: real, b: real) {
    Min(a, b) <= m <= Max(a, b)
  }

  // ---------------------------------------------------------------------
  // Sampler

  /** `Math.max(0.001, 1 - smoothing)`: the weight of the raw position. */
  function SmoothingFactor(smoothing: real): (s: real)
    ensures 0.001 <= s
    ensures 0.0 <= smoothing ==> s <= 1.0
    ensures smoothing <= 0.999 ==> s == 1.0 - smoothing
  {
    Max(0.001, 1.0 - smoothing)
  }

  /** The point addPoint appends for a pointer at (x, y): the raw position on an
      empty buffer, otherwise the tail moved toward (x, y) by the smoothing factor. */
  function NextPoint(pts: seq<TrailPoint>, x: real, y: real, smoothing: real): (p: TrailPoint)
    ensures p.life == 1.0
    ensures pts == [] ==> p.x == x && p.y == y
  {
    if pts == [] then TrailPoint(x, y, 1.0)
    else
      var last, s := pts[|pts| - 1], SmoothingFactor(smoothing);
      TrailPoint(last.x + (x - last.x) * s, last.y + (y - last.y) * s, 1.0)
  }

  lemma ProductSign(u: real, v: real)
    ensures 0.0 <= u && 0.0 <= v ==> 0.0 <= u * v
    ensures u != 0.0 && v != 0.0 ==> u * v != 0.0
  {
  }

  lemma BetweenOnSegment(a: real, b: real, s: real, m: real)
    requires 0.0 < s <= 1.0 && m == a + (b - a) * s
    ensures Between(a, m, b)
    ensures b != a ==> m != a
  {
    var e := b - a;
    var es := e * s;
    assert m == a + es;
    assert e * (1.0 - s) == e - es;
    if e >= 0.0 {
      ProductSign(e, s);
      ProductSign(e, 1.0 - s);
      assert a <= m <= b;
    } else {
      ProductSign(-e, s);
      ProductSign(-e, 1.0 - s);
      assert (-e) * s == -es;
      assert (-e) * (1.0 - s) == es - e;
      assert b <= m <= a;
    }
    ProductSign(e, s);
  }

  lemma ScaledCollinear(x0: real, y0: real, x1: real, y1: real, s: real, mx: real, my: real)
    requires mx == x0 + (x1 - x0) * s && my == y0 + (y1 - y0) * s
    ensures (mx - x0) * (y1 - y0) == (my - y0) * (x1 - x0)
  {
    assert (x1 - x0) * s * (y1 - y0) == (y1 - y0) * s * (x1 - x0);
  }

  /** For smoothing >= 0 the stored point lies on the segment from the buffer's
      tail to the raw pointer position (collinear, between them coordinate-wise),
      and it moves off the tail whenever the pointer did. */
  lemma NextPointOnSegment(pts: seq<TrailPoint>, x: real, y: real, smoothing: real)
    requires pts != [] && 0.0 <= smoothing
    ensures var last, p := pts[|pts| - 1], NextPoint(pts, x, y, smoothing);
      && Between(last.x, p.x, x) && Between(last.y, p.y, y)
      && (p.x - last.x) * (y - last.y) == (p.y - last.y) * (x - last.x)
      && (x != last.x ==> p.x != last.x) && (y != last.y ==> p.y != last.y)
  {
    var last, s := pts[|pts| - 1], SmoothingFactor(smoothing);
    var p := NextPoint(pts, x, y, smoothing);
    BetweenOnSegment(last.x, x, s, p.x);
    BetweenOnSegment(last.y, y, s, p.y);
    ScaledCollinear(last.x, last.y, x, y, s, p.x, p.y);
  }

  /** The newest n elements of s, in their original order (the `splice(0, ...)`
      of addPoint when the buffer has grown past n). */
  function Recent<T>(s: seq<T>, n: nat): (r: seq<T>)
    ensures |r| == if |s| <= n then |s| else n
    ensures r == s[|s| - |r|..]
  {
    if |s| > n then s[|s| - n..] else s
  }

  /** Trimming before an append and trimming after it keep the same points. */
  lemma RecentAppend<T>(s: seq<T>, p: T, n: nat)
    ensures Recent(Recent(s, n) + [p], n) == Recent(s + [p], n)
  {
    var r := Recent(s, n);
    if n <= |s| {
      assert r == s[|s| - n..];
      var tail := r + [p];
      assert Recent(tail, n) == tail[1..];
      if 0 < n {
        assert tail[1..] == s[|s| - n + 1..] + [p];
        assert (s + [p])[|s| + 1 - n..] == s[|s| + 1 - n..] + [p];
      }
    }
  }

  /** Every point the sampler stores for the raw positions `moves`, oldest
      first, as if the buffer were unbounded. */
  function History(moves: seq<(real, real)>, smoothing: real): (h: seq<TrailPoint>)
    ensures |h| == |moves|
  {
    if moves == [] then []
    else
      var h := History(moves[..|moves| - 1], smoothing);
      var m := moves[|moves| - 1];
      h + [NextPoint(h, m.0, m.1, smoothing)]
  }

  /** The buffer after addPoint has been called for each of `moves` in turn,
      starting from the empty buffer. */
  function Replay(moves: seq<(real, real)>, smoothing: real, n: nat): seq<TrailPoint> {
    if moves == [] then []
    else
      var b := Replay(moves[..|moves| - 1], smoothing, n);
      var m := moves[|moves| - 1];
      Recent(b + [NextPoint(b, m.0, m.1, smoothing)], n)
  }

  /** A buffer holding the newest n stored points gets the same next point as
      the unbounded history, so appending and trimming keep it the newest n. */
  lemma ReplayStep(h: seq<TrailPoint>, b: seq<TrailPoint>, x: real, y: real, smoothing: real, n: nat)
    requires b == Recent(h, n)
    ensures Recent(b + [NextPoint(b, x, y, smoothing)], n) == Recent(h + [NextPoint(h, x, y, smoothing)], n)
  {
    if n == 0 {
      assert Recent(b + [NextPoint(b, x, y, smoothing)], n) == [];
      assert Recent(h + [NextPoint(h, x, y, smoothing)], n) == [];
    } else {
      assert NextPoint(b, x, y, smoothing) == NextPoint(h, x, y, smoothing) by {
        if h != [] {
          assert b[|b| - 1] == h[|h| - 1];
        }
      }
      RecentAppend(h, NextPoint(h, x, y, smoothing), n);
    }
  }

  /** After any number of appends the buffer holds exactly the newest
      min(count, n) stored points, in insertion order: trimming never changes
      what later points are smoothed toward. */
  lemma {:induction false} ReplayKeepsNewest(moves: seq<(real, real)>, smoothing: real, n: nat)
    ensures Replay(moves, smoothing, n) == Recent(History(moves, smoothing), n)
    ensures |Replay(moves, smoothing, n)| == if |moves| <= n then |moves| else n
  {
    if moves != [] {
      var init, m := moves[..|moves| - 1], moves[|moves| - 1];
      ReplayKeepsNewest(init, smoothing, n);
      var h, b := History(init, smoothing), Replay(init, smoothing, n);
      assert History(moves, smoothing) == h + [NextPoint(h, m.0, m.1, smoothing)];
      assert Replay(moves, smoothing, n) == Recent(b + [NextPoint(b, m.0, m.1, smoothing)], n);
      ReplayStep(h, b, m.0, m.1, smoothing, n);
    }
  }

  // ---------------------------------------------------------------------
  // Frame clock and decay

  /** `Math.max(0, Math.min(dt, 0.05))`: the frame delta drawFrame is given. */
  function ClampDt(dt: real): (c: real)
    ensures 0.0 <= c <= 0.05
    ensures 0.0 <= dt <= 0.05 ==> c == dt
    ensures dt < 0.0 ==> c == 0.0
    ensures 0.05 < dt ==> c == 0.05
  {
    Max(0.0, Min(dt, 0.05))
  }

  /** `dt / Math.max(0.001, fadeDuration)`: life lost by every point in a frame. */
  function DecayAmount(dt: real, fadeDuration: real): (d: real)
    ensures 0.0 <= dt ==> 0.0 <= d
    ensures 0.001 <= fadeDuration ==> d * fadeDuration == dt
    ensures fadeDuration < 0.001 ==> d == dt * 1000.0
  {
    dt / Max(0.001, fadeDuration)
  }

  /** A clamped frame never adds life and takes at most 50 per frame. */
  lemma ClampedDecayBounded(rawDt: real, fadeDuration: real)
    ensures 0.0 <= DecayAmount(ClampDt(rawDt), fadeDuration) <= 50.0
  {
    var dt, m := ClampDt(rawDt), Max(0.001, fadeDuration);
    var d := dt / m;
    assert d * m == dt;
    assert d * 0.001 <= d * m;
  }

  /** A point after losing d of its life. */
  function Aged(p: TrailPoint, d: real): TrailPoint {
    p.(life := p.life - d)
  }

  /** One point's fate in a frame: gone once its life is used up, else aged. */
  function Fate(p: TrailPoint, d: real): seq<TrailPoint> {
    if p.life - d <= 0.0 then [] else [Aged(p, d)]
  }

  /** What the decay loop leaves: every point aged by d, those at or below zero
      dropped, the rest in their original order. */
  function Decayed(s: seq<TrailPoint>, d: real): (r: seq<TrailPoint>)
    ensures |r| <= |s|
    ensures 0.0 <= d && AllAlive(s) ==> AllAlive(r)
  {
    if s == [] then [] else Fate(s[0], d) + Decayed(s[1..], d)
  }

  lemma {:induction false} DecayedAppend(a: seq<TrailPoint>, b: seq<TrailPoint>, d: real)
    ensures Decayed(a + b, d) == Decayed(a, d) + Decayed(b, d)
  {
    if a != [] {
      DecayedAppend(a[1..], b, d);
      assert (a + b)[0] == a[0] && (a + b)[1..] == a[1..] + b;
      assert Decayed(a + b, d) == Fate(a[0], d) + (Decayed(a[1..], d) + Decayed(b, d));
    } else {
      assert a + b == b;
    }
  }

  /** The indices of the points that survive a decay of d, in increasing order. */
  function SurvivorIndices(s: seq<TrailPoint>, d: real): seq<int> {
    if s == [] then []
    else
      var rest := SurvivorIndices(s[..|s| - 1], d);
      if s[|s| - 1].life - d > 0.0 then rest + [|s| - 1] else rest
  }

  /** r lists the points of s at the increasing indices idx, each aged by d,
      and idx holds exactly the indices whose point outlives d. */
  predicate KeepsSurvivors(s: seq<TrailPoint>, d: real, r: seq<TrailPoint>, idx: seq<int>) {
    && |r| == |idx|
    && (forall k :: 0 <= k < |idx| ==> 0 <= idx[k] < |s| && r[k] == Aged(s[idx[k]], d))
    && (forall k, m :: 0 <= k < m < |idx| ==> idx[k] < idx[m])
    && (forall j :: 0 <= j < |s| ==> (j in idx <==> s[j].life - d > 0.0))
  }

  lemma SurvivorKept(init: seq<TrailPoint>, last: TrailPoint, d: real, r0: seq<TrailPoint>, idx0: seq<int>)
    requires KeepsSurvivors(init, d, r0, idx0) && last.life - d > 0.0
    ensures KeepsSurvivors(init + [last], d, r0 + [Aged(last, d)], idx0 + [|init|])
  {
    var s, r, idx := init + [last], r0 + [Aged(last, d)], idx0 + [|init|];
    forall k | 0 <= k < |idx| ensures 0 <= idx[k] < |s| && r[k] == Aged(s[idx[k]], d) {
      if k < |idx0| {
        assert idx[k] == idx0[k] && r[k] == r0[k] && s[idx0[k]] == init[idx0[k]];
      }
    }
    forall k, m | 0 <= k < m < |idx| ensures idx[k] < idx[m] {
      if m < |idx0| {
        assert idx[k] == idx0[k] && idx[m] == idx0[m];
      } else {
        assert idx[k] == idx0[k];
      }
    }
    forall j | 0 <= j < |s| ensures j in idx <==> s[j].life - d > 0.0 {
      if j < |init| {
        assert s[j] == init[j];
        assert j in idx <==> j in idx0;
      }
    }
  }

  lemma SurvivorDropped(init: seq<TrailPoint>, last: TrailPoint, d: real, r0: seq<TrailPoint>, idx0: seq<int>)
    requires KeepsSurvivors(init, d, r0, idx0) && last.life - d <= 0.0
    ensures KeepsSurvivors(init + [last], d, r0, idx0)
  {
    var s := init + [last];
    forall k | 0 <= k < |idx0| ensures 0 <= idx0[k] < |s| && r0[k] == Aged(s[idx0[k]], d) {
      assert s[idx0[k]] == init[idx0[k]];
    }
    forall j | 0 <= j < |s| ensures j in idx0 <==> s[j].life - d > 0.0 {
      if j < |init| {
        assert s[j] == init[j];
      }
    }
  }

  /** The decay keeps exactly the points whose life minus d is positive, each
      aged by d, in their original order: no point is skipped or kept twice. */
  lemma {:induction false} DecayedKeepsExactlySurvivors(s: seq<TrailPoint>, d: real)
    ensures KeepsSurvivors(s, d, Decayed(s, d), SurvivorIndices(s, d))
  {
    if s != [] {
      var init, last := s[..|s| - 1], s[|s| - 1];
      DecayedKeepsExactlySurvivors(init, d);
      var r0, idx0 := Decayed(init, d), SurvivorIndices(init, d);
      assert s == init + [last];
      DecayedAppend(init, [last], d);
      assert Decayed([last], d) == Fate(last, d);
      if last.life - d > 0.0 {
        assert Decayed(s, d) == r0 + [Aged(last, d)];
        assert SurvivorIndices(s, d) == idx0 + [|init|];
        SurvivorKept(init, last, d, r0, idx0);
      } else {
        assert Decayed(s, d) == r0;
        assert SurvivorIndices(s, d) == idx0;
        SurvivorDropped(init, last, d, r0, idx0);
      }
    }
  }

  /** Decaying from index i on: point i's fate, then the rest. */
  lemma DecayedFrom(s: seq<TrailPoint>, i: nat, d: real)
    requires i < |s|
    ensures Decayed(s[i..], d) == Fate(s[i], d) + Decayed(s[i + 1..], d)
  {
    assert s[i..][0] == s[i];
    assert s[i..][1..] == s[i + 1..];
  }

  /** One iteration of the backward decay loop at index i: with everything
      after i already decayed, ageing point i and splicing it out when dead
      leaves everything from i on decayed. */
  lemma DecayLoopStep(orig: seq<TrailPoint>, i: nat, d: real, pts: seq<TrailPoint>)
    requires i < |orig| && pts == orig[..i + 1] + Decayed(orig[i + 1..], d)
    ensures var aged := pts[i := Aged(pts[i], d)];
      var next := if aged[i].life <= 0.0 then aged[..i] + aged[i + 1..] else aged;
      next == orig[..i] + Decayed(orig[i..], d)
  {
    var rest, p := Decayed(orig[i + 1..], d), Aged(orig[i], d);
    OverwriteAt(orig, i, p, rest, pts);
    DecayedFrom(orig, i, d);
    if p.life > 0.0 {
      assert orig[..i] + ([p] + rest) == orig[..i] + [p] + rest;
    }
  }

  /** Overwriting index i of orig[..i + 1] + rest, and then splicing it out. */
  lemma OverwriteAt<T>(orig: seq<T>, i: nat, p: T, rest: seq<T>, pts: seq<T>)
    requires i < |orig| && pts == orig[..i + 1] + rest
    ensures pts[i] == orig[i]
    ensures pts[i := p] == orig[..i] + [p] + rest
    ensures pts[i := p][..i] + pts[i := p][i + 1..] == orig[..i] + rest
  {
    assert orig[..i + 1] == orig[..i] + [orig[i]];
    var w := orig[..i] + [p] + rest;
    assert pts[i := p] == w;
    assert w[..i] == orig[..i];
    assert w[i + 1..] == rest;
  }

  /** A point that is already alive loses nothing in a zero-length frame. */
  lemma {:induction false} DecayedByZero(s: seq<TrailPoint>)
    requires AllAlive(s)
    ensures Decayed(s, 0.0) == s
  {
    if s != [] {
      DecayedByZero(s[1..]);
      assert s == [s[0]] + s[1..];
    }
  }

  /** The decay step of drawFrame: applied only with autoFade on and a non-empty buffer. */
  function AfterDecay(cfg: Config, pts: seq<TrailPoint>, dt: real): (r: seq<TrailPoint>)
    ensures |r| <= |pts|
    ensures !cfg.autoFade || pts == [] ==> r == pts
    ensures 0.0 <= dt && AllAlive(pts) ==> AllAlive(r)
  {
    if cfg.autoFade && |pts| > 0 then Decayed(pts, DecayAmount(dt, cfg.fadeDuration)) else pts
  }

  // ---------------------------------------------------------------------
  // Worked examples

  /** With trailLength 3 and no smoothing, a third move fills the buffer and a
      fourth evicts the oldest point. */
  lemma EvictionExample()
    ensures var p0, p1, p2, p3 := TrailPoint(0.0, 0.0, 1.0), TrailPoint(10.0, 0.0, 1.0),
                                  TrailPoint(20.0, 0.0, 1.0), TrailPoint(30.0, 0.0, 1.0);
      && Recent([p0, p1] + [NextPoint([p0, p1], 20.0, 0.0, 0.0)], 3) == [p0, p1, p2]
      && Recent([p0, p1, p2] + [NextPoint([p0, p1, p2], 30.0, 0.0, 0.0)], 3) == [p1, p2, p3]
  {
    assert SmoothingFactor(0.0) == 1.0;
  }

  /** With fadeDuration 1 a new point keeps half its life after 0.5 s and is
      removed by a further 0.6 s. */
  lemma FadeExample(x: real, y: real)
    ensures Decayed([TrailPoint(x, y, 1.0)], DecayAmount(0.5, 1.0)) == [TrailPoint(x, y, 0.5)]
    ensures Decayed([TrailPoint(x, y, 0.5)], DecayAmount(0.6, 1.0)) == []
  {
    assert DecayAmount(0.5, 1.0) == 0.5;
    assert DecayAmount(0.6, 1.0) == 0.6;
  }
}
