/** Colours of the mouse trail: the hex parser applied to the two configured
    colours, and the per-channel interpolation that builds each stroke's
    `rgba(...)` style. */
module Colour {

  /** The `{r, g, b}` record that parseColor returns. */
  datatype RGB = RGB(r: int, g: int, b: int)

  /** The four components written into an `rgba(r,g,b,a)` style string. */
  datatype RGBA = RGBA(r: int, g: int, b: int, a: real)

  const Black := RGB(0, 0, 0)

  predicate IsByte(v: int) { 0 <= v < 256 }

  predicate InGamut(c: RGB) { IsByte(c.r) && IsByte(c.g) && IsByte(c.b) }

  predicate IsHexDigit(c: char) {
    '0' <= c <= '9' || 'a' <= c <= 'f' || 'A' <= c <= 'F'
  }

  function HexValue(c: char): (v: nat)
    requires IsHexDigit(c)
    ensures v < 16
  {
    if '0' <= c <= '9' then c as int - '0' as int
    else if 'a' <= c <= 'f' then c as int - 'a' as int + 10
    else c as int - 'A' as int + 10
  }

  /** `parseInt(hi + lo, 16)` for two hex digits. */
  function HexPair(hi: char, lo: char): (v: int)
    requires IsHexDigit(hi) && IsHexDigit(lo)
    ensures IsByte(v)
  {
    16 * HexValue(hi) + HexValue(lo)
  }

  predicate StartsWithHash(col: string) { |col| > 0 && col[0] == '#' }

  /** The digits after '#': a three-digit shorthand has each digit doubled. */
  function ExpandHex(hex: string): string {
    if |hex| == 3 then [hex[0], hex[0], hex[1], hex[1], hex[2], hex[2]] else hex
  }

  /** The first six (expanded) digits are hex digits, so no channel is NaN. */
  predicate WellFormedHex(h: string) {
    |h| >= 6 && forall k :: 0 <= k < 6 ==> IsHexDigit(h[k])
  }

  predicate Parsable(col: string) {
    StartsWithHash(col) ==> WellFormedHex(ExpandHex(col[1..]))
  }

  /** parseColor: `#rgb` or `#rrggbb` (extra digits ignored) to channels;
      anything not starting with '#' is black. */
  function ParseColor(col: string): (c: RGB)
    requires Parsable(col)
    ensures InGamut(c)
    ensures !StartsWithHash(col) ==> c == Black
  {
    if StartsWithHash(col) then
      var h := ExpandHex(col[1..]);
      RGB(HexPair(h[0], h[1]), HexPair(h[2], h[3]), HexPair(h[4], h[5]))
    else
      Black
  }

  function HexDigit(v: nat): (c: char)
    requires v < 16
    ensures IsHexDigit(c) && HexValue(c) == v
  {
    if v < 10 then ('0' as int + v) as char else ('a' as int + v - 10) as char
  }

  /** The `#rrggbb` spelling of an in-gamut colour, the inverse of ParseColor. */
  function HexColour(c: RGB): string
    requires InGamut(c)
  {
    ['#', HexDigit(c.r / 16), HexDigit(c.r % 16),
          HexDigit(c.g / 16), HexDigit(c.g % 16),
          HexDigit(c.b / 16), HexDigit(c.b % 16)]
  }

  lemma ParseHexColour(c: RGB)
    requires InGamut(c)
    ensures Parsable(HexColour(c)) && ParseColor(HexColour(c)) == c
  {
    var s := HexColour(c);
    assert s[1..] == s[1..7];
    assert ExpandHex(s[1..]) == s[1..];
  }

  /** `#abc` denotes the same colour as `#aabbcc`. */
  lemma ShortHexDoubles(a: char, b: char, c: char)
    requires IsHexDigit(a) && IsHexDigit(b) && IsHexDigit(c)
    ensures Parsable(['#', a, b, c]) && Parsable(['#', a, a, b, b, c, c])
    ensures ParseColor(['#', a, b, c]) == ParseColor(['#', a, a, b, b, c, c])
  {
    var short, long := ['#', a, b, c], ['#', a, a, b, b, c, c];
    assert short[1..] == [a, b, c];
    assert ExpandHex(long[1..]) == long[1..] == ExpandHex(short[1..]);
  }

  /** Math.round: the nearest integer, halves rounded up. */
  function Round(x: real): (n: int)
    ensures x - 0.5 < n as real <= x + 0.5
  {
    (x + 0.5).Floor
  }

  /** One channel of rgba: `Math.round(from + (to - from) * t)`. */
  function Lerp(from: int, to: int, t: real): int {
    Round(from as real + (to - from) as real * t)
  }

  lemma LerpEndpoints(from: int, to: int)
    ensures Lerp(from, to, 0.0) == from && Lerp(from, to, 1.0) == to
  {
  }

  /** For t in [0, 1] the rounded channel stays between the two end channels. */
  lemma LerpBetween(from: int, to: int, t: real)
    requires 0.0 <= t <= 1.0
    ensures from <= to ==> from <= Lerp(from, to, t) <= to
    ensures to <= from ==> to <= Lerp(from, to, t) <= from
  {
    var d := (to - from) as real;
    var v := from as real + d * t;
    if from <= to {
      assert 0.0 <= d * t <= d by {
        assert d * t <= d * 1.0;
      }
    } else {
      assert d <= d * t <= 0.0 by {
        assert d * 1.0 <= d * t;
      }
    }
  }

  /** `Math.max(0, Math.min(1, a))`. */
  function ClampUnit(a: real): (r: real)
    ensures 0.0 <= r <= 1.0
    ensures 0.0 <= a <= 1.0 ==> r == a
    ensures a < 0.0 ==> r == 0.0
    ensures 1.0 < a ==> r == 1.0
  {
    if a < 0.0 then 0.0 else if 1.0 < a then 1.0 else a
  }

  /** rgba(a, t): the colour at fraction t from `start` to `end`, with alpha a clamped. */
  function Blend(start: RGB, end: RGB, a: real, t: real): (c: RGBA)
    ensures 0.0 <= c.a <= 1.0
  {
    RGBA(Lerp(start.r, end.r, t), Lerp(start.g, end.g, t), Lerp(start.b, end.b, t), ClampUnit(a))
  }

  /** t = 0 reproduces the start colour exactly, t = 1 the end colour. */
  lemma BlendEndpoints(start: RGB, end: RGB, a: real)
    ensures Blend(start, end, a, 0.0) == RGBA(start.r, start.g, start.b, ClampUnit(a))
    ensures Blend(start, end, a, 1.0) == RGBA(end.r, end.g, end.b, ClampUnit(a))
  {
    LerpEndpoints(start.r, end.r);
    LerpEndpoints(start.g, end.g);
    LerpEndpoints(start.b, end.b);
  }

  /** Between two in-gamut colours every interpolated channel is a byte. */
  lemma BlendInGamut(start: RGB, end: RGB, a: real, t: real)
    requires InGamut(start) && InGamut(end) && 0.0 <= t <= 1.0
    ensures var c := Blend(start, end, a, t); IsByte(c.r) && IsByte(c.g) && IsByte(c.b)
  {
    LerpBetween(start.r, end.r, t);
    LerpBetween(start.g, end.g, t);
    LerpBetween(start.b, end.b, t);
  }
}
