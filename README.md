# Mouse trail and contact-form rules, modelled in Dafny

The site's script draws a cursor trail on a full-screen overlay canvas. A
pointer handler appends a smoothed point to a bounded buffer. A frame loop
ages every point, removes the dead ones and paints what is left, either as a
polyline whose colour runs from a start colour to an end colour, or as dots.
The same script validates a contact form: an email pattern, per-field rules,
a 500-character cap on the message box, and an all-fields check on submit.

This project models that logic:

- `colour.dfy`, module `Colour`: the hex colour parser and the per-channel
  interpolation behind every `rgba(...)` style, with `Math.round` taken as
  `Floor(x + 0.5)`.
- `trail_points.dfy`, module `TrailPoints`: the configuration, the trail point,
  the smoothed point that is appended, the trim to the newest `trailLength`
  points, the frame-delta clamp and the life decay. All are functions on values,
  with lemmas about them.
- `trail_paint.dfy`, module `TrailPaint`: what one frame paints, as a list of
  shapes (circles and round-capped segments) with their computed width or
  radius and colour, in place of canvas calls.
- `mouse_trail.dfy`, module `MouseTrail`: class `Effect` holds the state the
  script's closure keeps: the configuration, the two parsed colours, the point
  buffer (a `seq` field the methods reassign) and the previous frame's time.
  `AddPoint` appends and trims. `Decay` runs the script's backward loop, which
  ages each point and splices the dead ones out; it works on a local sequence
  `buf` and then assigns it to `points`, so the splicing is on a sequence value
  rather than in place in a shared array. `Paint` runs the paint loops. `DrawFrame`
  and `Animate` put these together. Each method's postcondition gives the new
  buffer, and the shapes it returns, as the module-level functions of the old
  state.
- `contact_form.dfy`, module `ContactForm`: `trim`, the email regular
  expression (as a predicate over the split points) and the decision procedure
  proved equal to it. Also the field verdict, the message-box cap and the
  submit fold.

Coordinates, life, `t` and alpha are Dafny `real`s. The trail's variant string
is a closed datatype in which `Particles` and `Pixel` paint nothing. The clock
reading is a parameter of `Animate`.

Three facts about the code that the model follows:
- The "dots" variant computes alpha as `(i / N) * lifeFactor` whether or not
  position fading is on. Only the radius depends on `fadeOut`
  (script.js:121-122).
- With `smoothing = 0` the smoothing factor is exactly 1, so points are stored
  unsmoothed (script.js:61).
- `animate` clamps every frame delta to at most 0.05 s, so one frame never
  ages a point by 0.5 s. `TrailPoints.FadeExample` therefore states a decay of
  0.5 s followed by 0.6 s on the decay function itself.

## Model

| member | source | states |
|---|---|---|
| `Colour.HexPair` | script.js:41-43 | `parseInt` of two hex digits is a channel value in 0..255 |
| `Colour.ParseColor` | script.js:36-47 | a parsable colour gives channels in 0..255; a string not starting with `#` gives black |
| `Colour.ParseHexColour` | script.js:36-47 | parsing the `#rrggbb` spelling of any in-gamut colour gives that colour back (round trip) |
| `Colour.ShortHexDoubles` | script.js:39 | `#abc` parses to the same channels as `#aabbcc` |
| `Colour.Round` | script.js:53-55 | `Math.round(x)` is the integer n with x - 0.5 < n <= x + 0.5 |
| `Colour.Lerp` | script.js:53-55 | one rounded channel of `rgba`; its contract is `Colour.LerpEndpoints` and `Colour.LerpBetween` |
| `Colour.LerpEndpoints` | script.js:53-55 | a channel interpolated at t = 0 is exactly the start channel, at t = 1 exactly the end channel |
| `Colour.LerpBetween` | script.js:53-55 | for t in [0, 1] the rounded channel lies between the two end channels |
| `Colour.ClampUnit` | script.js:56 | the emitted alpha is in [0, 1], equals a inside it, and is 0 below it and 1 above it |
| `Colour.Blend` | script.js:52-57 | every `rgba(a, t)` colour has alpha in [0, 1] |
| `Colour.BlendEndpoints` | script.js:52-57 | `rgba(a, 0)` reproduces the start colour, `rgba(a, 1)` the end colour |
| `Colour.BlendInGamut` | script.js:52-57 | between two in-gamut colours every interpolated channel is a byte |
| `TrailPoints.SmoothingFactor` | script.js:61 | the factor is at least 0.001, at most 1 when smoothing >= 0, and equal to 1 - smoothing when smoothing <= 0.999 |
| `TrailPoints.NextPoint` | script.js:59-65 | the new point has life 1, and on an empty buffer it is the raw position |
| `TrailPoints.NextPointOnSegment` | script.js:60-63 | for smoothing >= 0 the stored point is collinear with the tail and the raw position and lies between them, and it leaves the tail whenever the pointer did |
| `TrailPoints.Recent` | script.js:67-69 | the trim keeps min(length, trailLength) elements, namely the newest ones in original order |
| `TrailPoints.RecentAppend` | script.js:65-69 | trimming before an append and trimming after it leave the same buffer |
| `TrailPoints.ReplayKeepsNewest` | script.js:59-70 | after any sequence of appends from empty, the buffer is the newest min(count, trailLength) of all stored points, in insertion order |
| `TrailPoints.EvictionExample` | script.js:65-69 | with trailLength 3 and no smoothing, a third move fills the buffer and a fourth evicts the oldest point |
| `TrailPoints.ClampDt` | script.js:134-135 | the frame delta lies in [0, 0.05]; inside that range it is unchanged |
| `TrailPoints.DecayAmount` | script.js:77 | a non-negative delta gives a non-negative decay, which is dt / fadeDuration whenever fadeDuration >= 0.001 and dt / 0.001 below that floor |
| `TrailPoints.ClampedDecayBounded` | script.js:132-138 | after the clamp a frame's decay is in [0, 50], so decay never raises life |
| `TrailPoints.Decayed` | script.js:78-83 | what the decay leaves is no longer than the buffer, and live points stay live for a non-negative decay |
| `TrailPoints.DecayedKeepsExactlySurvivors` | script.js:78-83 | the decay keeps exactly the points whose life minus decay is positive, each aged by the decay, in original order, none skipped or repeated |
| `TrailPoints.DecayLoopStep` | script.js:78-83 | one backward iteration, which ages point i and splices it out when dead, extends the decayed suffix by index i |
| `TrailPoints.DecayedByZero` | script.js:76-84 | a zero-length frame leaves a buffer of live points unchanged |
| `TrailPoints.AfterDecay` | script.js:76-84 | the decay step never lengthens the buffer, leaves it unchanged with autoFade off or when empty, and keeps live points live |
| `TrailPoints.FadeExample` | script.js:77-83 | with fadeDuration 1, a point keeps life 0.5 after 0.5 s and is removed after a further 0.6 s |
| `TrailPaint.Position` | script.js:102 | t = i / (N - 1) is in [0, 1], 0 at the oldest index and 1 at the newest |
| `TrailPaint.SegmentAlpha` | script.js:103-105 | a segment's alpha, (i / N) times the life factor with fadeOut on and the life factor alone otherwise; its contract is `TrailPaint.AlphaInUnit` and `TrailPaint.SegmentAlphaUnclamped` |
| `TrailPaint.DotAlpha` | script.js:121 | a dot's alpha, (i / N) times the life factor whatever fadeOut says; its contract is `TrailPaint.AlphaInUnit` and `TrailPaint.DotRadiusBounds` |
| `TrailPaint.DotRadius` | script.js:122 | a dot's radius, dotSize scaled by 0.3 + 0.7a with fadeOut on; its contract is `TrailPaint.DotRadiusBounds` |
| `TrailPaint.SegmentShape` | script.js:99-115 | the segment from point i - 1 to point i with its width and colour; its contract is `TrailPaint.StrokesFormPolyline`, `TrailPaint.StrokeWidthBounds` and `TrailPaint.SegmentAlphaUnclamped` |
| `TrailPaint.DotShape` | script.js:117-127 | the circle for point i with its radius and colour; its contract is `TrailPaint.DotRadiiInRange` and `TrailPaint.GradientEnds` |
| `TrailPaint.SinglePoint` | script.js:87-94 | the circle for a one-point buffer; its contract is `TrailPaint.LonePoint` |
| `TrailPaint.FrameShapes` | script.js:86-129 | the shapes one frame paints; its contract is `TrailPaint.FrameShapeCount` together with the lemmas below |
| `TrailPaint.StrokeWidth` | script.js:106-109 | every stroke width is at least 1 |
| `TrailPaint.FrameShapeCount` | script.js:86-129 | nothing for an empty buffer, one circle for one point, N - 1 segments for "line", N circles for "dots", nothing for the other variants |
| `TrailPaint.StrokesFormPolyline` | script.js:99-115 | the segments form one polyline through every point in buffer order |
| `TrailPaint.StrokeWidthBounds` | script.js:104-109 | for live points every segment is between 1 and max(1, lineWidth) wide, and exactly max(1, lineWidth) with fadeOut off |
| `TrailPaint.AlphaInUnit` | script.js:103-105 | for i >= 1 and a live point the segment alpha is in (0, 1], and below 1 with fadeOut on; the dot alpha is in (0, 1) (the oldest dot's alpha is 0, stated by `TrailPaint.DotRadiusBounds`) |
| `TrailPaint.DotRadiusBounds` | script.js:120-126 | for a live point and a positive dotSize the oldest dot's alpha is 0, every dot's radius is in (0, dotSize], so `arc` never gets a negative radius, and it is exactly dotSize with fadeOut off |
| `TrailPaint.DotRadiiInRange` | script.js:116-127 | in the dots variant over two or more live points every painted circle has a radius in (0, dotSize] |
| `TrailPaint.SegmentAlphaUnclamped` | script.js:103-108 | for live points the alpha clamp never changes a segment's computed alpha |
| `TrailPaint.GradientEnds` | script.js:86-128 | the lone point and the first dot carry the start colour; the last segment and the last dot carry the end colour |
| `TrailPaint.LonePoint` | script.js:87-94 | a one-point buffer paints one circle of radius lineWidth at the point, alpha = life with autoFade on and 1 otherwise |
| `TrailPaint.ColoursInGamut` | script.js:98-128 | between in-gamut colours every painted colour has byte channels |
| `MouseTrail.DefaultColours` | script.js:49-50 | the configured colours parse to (34, 197, 94) and (168, 245, 200) |
| `MouseTrail.Effect.constructor` | script.js:20-50 | an empty, valid buffer with the two colours parsed from the configuration |
| `MouseTrail.Effect.AddPoint` | script.js:59-70 | the new buffer is the newest trailLength points of the old buffer plus the smoothed point; length bound and liveness are kept |
| `MouseTrail.Effect.Decay` | script.js:76-84 | the backward loop, splicing a local copy of the buffer and then assigning it, leaves exactly the decayed buffer, keeping the length bound and liveness |
| `MouseTrail.Effect.Paint` | script.js:86-129 | the paint loops return exactly the frame's shapes for the current buffer |
| `MouseTrail.Effect.DrawFrame` | script.js:72-130 | decays the buffer, then returns the shapes for what is left |
| `MouseTrail.Effect.Animate` | script.js:132-138 | draws with the clamped delta since the previous tick and records the new time |
| `ContactForm.LeadingBlanks` | script.js:1009 | counts the leading whitespace: all of it is whitespace and the next character is not |
| `ContactForm.TrailingBlanks` | script.js:1009 | counts the trailing whitespace: all of it is whitespace and the character before it is not |
| `ContactForm.Trim` | script.js:1009 | `value.trim()`; its contract is `ContactForm.TrimCharacterised` |
| `ContactForm.TrimCharacterised` | script.js:1009 | `trim()` gives a slice with only whitespace outside it, which neither starts nor ends with whitespace and is empty exactly when the value is all whitespace |
| `ContactForm.ValidateEmail` | script.js:1002-1005 | the email test; its contract is `ContactForm.ValidateEmailMatchesPattern` |
| `ContactForm.ValidateEmailMatchesPattern` | script.js:1002-1005 | the email check accepts exactly the strings the regular expression `^[^\s@]+@[^\s@]+\.[^\s@]+$` matches |
| `ContactForm.ValidateField` | script.js:1008-1041 | the field's verdict; its contract is `ContactForm.FieldInvalidExactly` and `ContactForm.FieldMessageEmptyExactly` |
| `ContactForm.FieldInvalidExactly` | script.js:1008-1041 | a field is invalid exactly when it breaks the rule `BreaksFieldRule` gives for its kind, that is, when it is an email field not matching the pattern, a message under 10 trimmed characters, or a name/phone field of only whitespace |
| `ContactForm.FieldMessageEmptyExactly` | script.js:1011-1041 | every email, message, name or phone field gets feedback text; only fields of no known kind get none |
| `ContactForm.ValidEmailFieldMatches` | script.js:1014-1023 | a valid email field's trimmed value matches the email pattern |
| `ContactForm.CapMessage` | script.js:1070-1080 | a message box with a counter holds at most 500 characters, a prefix of what was typed; other fields and short values are untouched |
| `ContactForm.CapMessageIdempotent` | script.js:1076-1078 | capping twice is the same as capping once |
| `ContactForm.ValidateAll` | script.js:1099-1104 | every field gets its verdict, and the form is sent exactly when all fields are valid |
| `ContactForm.NoFieldBreaksRule` | script.js:1099-1104 | all fields are valid exactly when no field breaks the rule for its kind |

## Left out

- Canvas drawing (`clearRect`, `arc`, `stroke`, line caps and joins), the
  compositing mode `blendMode`, `resizeCanvas` and device-pixel-ratio scaling:
  these are browser rendering calls. The model returns the shapes with their
  computed parameters instead.
- The `requestAnimationFrame` loop, `performance.now()` and the `mousemove`
  listener: the clock reading is a parameter of `Animate`, and each event is
  one method call.
- Floating point: all arithmetic is on exact reals, so IEEE rounding in the
  smoothing, decay and alpha formulas is not captured.
- `Colour.ParseColor`: the `NaN` channels that `parseInt` gives for non-hex
  digits or short strings, and its partial parse of a pair such as `1g`, are
  excluded by the precondition that the first six expanded digits are hex.
- `TrailPoints.Config`: `trailLength` is a natural number; negative or
  fractional values are not modelled.
- The configuration is treated as constant, although the script hands the
  configuration object out and other code could change it.
- Strings are sequences of Unicode characters, not UTF-16 code units, so lengths
  differ from JavaScript's for characters outside the Basic Multilingual Plane.
- The CSS class and feedback-text updates of `validateField`, the character
  counter's text, and what happens after a successful submit (loading state,
  timers, `alert`, form reset): these are DOM updates and timers.
- The rest of the script (carousel, particle/helix scene, counters, reveal,
  parallax and menu handlers) is not part of this model.
