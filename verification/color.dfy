/** Colour values and the conversions between hex strings, RGB and HSL
    (code.ts:46-53 and code.ts:278-340). Channels are exact reals; the
    plugin's channels are reals in [0, 1]. */
module ColorSpace {
  import opened Wrappers
  import opened Text

  /** A colour as the host stores it: three channels, nominally in [0, 1]. */
  datatype RGB = RGB(r: real, g: real, b: real)

  /** Hue as a fraction of a full turn, saturation and lightness. */
  datatype HSL = HSL(h: real, s: real, l: real)

  predicate InUnit(x: real) {
    0.0 <= x <= 1.0
  }

  predicate IsUnitRgb(c: RGB) {
    InUnit(c.r) && InUnit(c.g) && InUnit(c.b)
  }

  /** The channel value of a byte: `n / 255`. */
  function OfByte(n: int): real {
    n as real / 255.0
  }

  /** A channel that is some byte divided by 255. */
  predicate IsByteChannel(x: real) {
    InUnit(x) && (x * 255.0).Floor as real == x * 255.0
  }

  predicate IsByteColor(c: RGB) {
    IsByteChannel(c.r) && IsByteChannel(c.g) && IsByteChannel(c.b)
  }

  // ----- hex strings -----

  /** The strings `/^#?([a-f\d]{2})([a-f\d]{2})([a-f\d]{2})$/i` matches:
      an optional `#` and exactly six hex digits of either case. */
  predicate IsHexColor(hex: string) {
    || (|hex| == 6 && AllDigitsIn(hex, 16))
    || (|hex| == 7 && hex[0] == '#' && AllDigitsIn(hex[1..], 16))
  }

  /** The six digits of a hex colour, without its `#`. */
  function HexDigitsOf(hex: string): (d: string)
    requires IsHexColor(hex)
    ensures |d| == 6 && AllDigitsIn(d, 16)
    ensures hex == d || hex == "#" + d
  {
    if |hex| == 7 then hex[1..] else hex
  }

  /** The byte spelled by the two hex digits at `i`, which is what
      `parseInt(pair, 16)` returns for them (see ParseIntOfHexPair). */
  function ByteAt(d: string, i: nat): (n: nat)
    requires i + 1 < |d| && IsHexDigit(d[i]) && IsHexDigit(d[i + 1])
    ensures n <= 255
  {
    16 * DigitValue(d[i]) + DigitValue(d[i + 1])
  }

  lemma ParseIntOfHexPair(d: string, i: nat)
    requires i + 1 < |d| && IsHexDigit(d[i]) && IsHexDigit(d[i + 1])
    ensures ParseInt(d[i..i + 2], 16) == Some(ByteAt(d, i))
  {
    var pair := d[i..i + 2];
    PairValue(d, i);
    ParseIntOfDigitRun(pair, 16);
  }

  /** The two digits at `i`, read as a run, spell the byte at `i`. */
  lemma PairValue(d: string, i: nat)
    requires i + 1 < |d| && IsHexDigit(d[i]) && IsHexDigit(d[i + 1])
    ensures AllDigitsIn(d[i..i + 2], 16)
    ensures DigitsValue(d[i..i + 2], 16) == ByteAt(d, i)
  {
    assert d[i..i + 2] == [d[i], d[i + 1]];
    TwoDigitsValue(d[i], d[i + 1]);
  }

  lemma TwoDigitsValue(a: char, b: char)
    requires IsHexDigit(a) && IsHexDigit(b)
    ensures DigitsValue([a, b], 16) == 16 * DigitValue(a) + DigitValue(b)
  {
    assert [a, b][..1] == [a];
    assert [a][..0] == [];
    assert DigitsValue([a], 16) == DigitValue(a);
    assert DigitsValue([a, b], 16) == DigitsValue([a], 16) * 16 + DigitValue(b);
  }

  /** `hexToRgb`: None where the source throws 'Invalid hex color'. */
  function HexToRgb(hex: string): (c: Option<RGB>)
    ensures c.Some? <==> IsHexColor(hex)
    ensures c.Some? ==> IsUnitRgb(c.value) && IsByteColor(c.value)
  {
    if !IsHexColor(hex) then None
    else
      var d := HexDigitsOf(hex);
      var c := RGB(OfByte(ByteAt(d, 0)), OfByte(ByteAt(d, 2)), OfByte(ByteAt(d, 4)));
      ByteChannel(ByteAt(d, 0));
      ByteChannel(ByteAt(d, 2));
      ByteChannel(ByteAt(d, 4));
      Some(c)
  }

  lemma ByteChannel(n: nat)
    requires n <= 255
    ensures IsByteChannel(OfByte(n))
  {
    assert OfByte(n) * 255.0 == n as real;
  }

  /** `Math.round`: the nearest integer, halves rounded up. */
  function Round(x: real): int {
    (x + 0.5).Floor
  }

  /** `Math.round(n * 255).toString(16)`, zero-padded to two characters. */
  function ChannelHex(x: real): string {
    var h := IntToString(Round(x * 255.0), 16);
    if |h| == 1 then "0" + h else h
  }

  /** `rgbToHex` */
  function RgbToHex(c: RGB): string {
    "#" + (ChannelHex(c.r) + ChannelHex(c.g) + ChannelHex(c.b))
  }

  /** A colour in [0, 1] renders as `#` and six lower-case hex digits. */
  lemma RgbToHexShape(c: RGB)
    requires IsUnitRgb(c)
    ensures var hex := RgbToHex(c);
            && |hex| == 7 && hex[0] == '#' && AllDigitsIn(hex[1..], 16)
            && forall i :: 1 <= i < 7 ==> !('A' <= hex[i] <= 'Z')
  {
    var x, y, z := Round(c.r * 255.0), Round(c.g * 255.0), Round(c.b * 255.0);
    UnitRgbHex(c, x, y, z);
    HexOfBytes(x, y, z);
  }

  /** A colour in [0, 1] renders as a hex string that `hexToRgb` reads back
      as the colour rounded to the nearest 1/255 per channel. */
  lemma RgbToHexParses(c: RGB)
    requires IsUnitRgb(c)
    ensures HexToRgb(RgbToHex(c)) == Some(Quantize(c))
  {
    var x, y, z := Round(c.r * 255.0), Round(c.g * 255.0), Round(c.b * 255.0);
    UnitRgbHex(c, x, y, z);
    HexOfBytes(x, y, z);
  }

  /** A colour in [0, 1] renders as the two-digit spellings of its rounded
      bytes, which are also what `Quantize` keeps. */
  lemma UnitRgbHex(c: RGB, x: int, y: int, z: int)
    requires IsUnitRgb(c)
    requires x == Round(c.r * 255.0) && y == Round(c.g * 255.0) && z == Round(c.b * 255.0)
    ensures 0 <= x <= 255 && 0 <= y <= 255 && 0 <= z <= 255
    ensures RgbToHex(c) == "#" + (BytePair(x) + BytePair(y) + BytePair(z))
    ensures Quantize(c) == RGB(OfByte(x), OfByte(y), OfByte(z))
  {
    var hr := UnitChannelHex(c.r, x);
    var hg := UnitChannelHex(c.g, y);
    var hb := UnitChannelHex(c.b, z);
    assert RgbToHex(c) == "#" + (hr + hg + hb);
  }

  /** Two lower-case hex digits spelling the byte `n`. */
  function BytePair(n: int): (p: string)
    requires 0 <= n <= 255
    ensures |p| == 2 && AllDigitsIn(p, 16)
  {
    [DigitChar(n / 16), DigitChar(n % 16)]
  }

  lemma HexOfBytes(x: int, y: int, z: int)
    requires 0 <= x <= 255 && 0 <= y <= 255 && 0 <= z <= 255
    ensures var d := BytePair(x) + BytePair(y) + BytePair(z);
            var hex := "#" + d;
            && |hex| == 7 && hex[0] == '#' && hex[1..] == d && AllDigitsIn(d, 16)
            && (forall i :: 1 <= i < 7 ==> !('A' <= hex[i] <= 'Z'))
            && IsHexColor(hex) && HexDigitsOf(hex) == d
            && HexToRgb(hex) == Some(RGB(OfByte(x), OfByte(y), OfByte(z)))
  {
    var d := BytePair(x) + BytePair(y) + BytePair(z);
    var hex := "#" + d;
    assert hex[1..] == d;
    assert ByteAt(d, 0) == x && ByteAt(d, 2) == y && ByteAt(d, 4) == z;
  }

  /** The colour a channel-wise round to the nearest 1/255 produces. */
  function Quantize(c: RGB): RGB {
    RGB(OfByte(Round(c.r * 255.0)), OfByte(Round(c.g * 255.0)), OfByte(Round(c.b * 255.0)))
  }

  /** A unit channel renders as two lower-case digits spelling its rounded byte. */
  lemma UnitChannelHex(x: real, n: int) returns (h: string)
    requires InUnit(x) && n == Round(x * 255.0)
    ensures 0 <= n <= 255
    ensures h == ChannelHex(x) == BytePair(n)
  {
    RoundedByte(x);
    ByteHex(n);
    h := ChannelHex(x);
  }

  /** A channel in [0, 1] rounds to a byte. */
  lemma RoundedByte(x: real)
    requires InUnit(x)
    ensures 0 <= Round(x * 255.0) <= 255
  {
    assert 0.0 <= x * 255.0 <= 255.0;
  }

  lemma ByteHex(n: int)
    requires 0 <= n <= 255
    ensures var h := IntToString(n, 16);
            (if |h| == 1 then "0" + h else h) == BytePair(n)
  {
    if n >= 16 {
      assert NatDigits(n, 16) == NatDigits(n / 16, 16) + [DigitChar(n % 16)];
    }
  }

  lemma LowerHexDigit(c: char)
    requires IsHexDigit(c)
    ensures DigitChar(DigitValue(c)) == LowerChar(c)
  {
  }

  /** Every valid hex colour renders back as `#` and its digits in lower case. */
  lemma {:induction false} HexRoundTrip(hex: string)
    requires IsHexColor(hex)
    ensures RgbToHex(HexToRgb(hex).value) == "#" + LowerAscii(HexDigitsOf(hex))
  {
    var d := HexDigitsOf(hex);
    assert HexToRgb(hex).value == RGB(OfByte(ByteAt(d, 0)), OfByte(ByteAt(d, 2)), OfByte(ByteAt(d, 4)));
    DigitsHexRoundTrip(d);
  }

  lemma {:induction false} DigitsHexRoundTrip(d: string)
    requires |d| == 6 && AllDigitsIn(d, 16)
    ensures RgbToHex(RGB(OfByte(ByteAt(d, 0)), OfByte(ByteAt(d, 2)), OfByte(ByteAt(d, 4))))
            == "#" + LowerAscii(d)
  {
    DigitsRoundTrip(d);
  }

  lemma DigitsRoundTrip(d: string)
    requires |d| == 6 && AllDigitsIn(d, 16)
    ensures
      ChannelHex(OfByte(ByteAt(d, 0))) + ChannelHex(OfByte(ByteAt(d, 2))) + ChannelHex(OfByte(ByteAt(d, 4)))
      == LowerAscii(d)
  {
    DigitsLower(d);
    BytesHex(ByteAt(d, 0), ByteAt(d, 2), ByteAt(d, 4));
    LowerSix(d);
  }

  lemma BytesHex(x: int, y: int, z: int)
    requires 0 <= x <= 255 && 0 <= y <= 255 && 0 <= z <= 255
    ensures ChannelHex(OfByte(x)) + ChannelHex(OfByte(y)) + ChannelHex(OfByte(z))
            == BytePair(x) + BytePair(y) + BytePair(z)
  {
    ByteChannelHex(x);
    ByteChannelHex(y);
    ByteChannelHex(z);
  }

  lemma DigitsLower(d: string)
    requires |d| == 6 && AllDigitsIn(d, 16)
    ensures BytePair(ByteAt(d, 0)) + BytePair(ByteAt(d, 2)) + BytePair(ByteAt(d, 4))
            == [LowerChar(d[0]), LowerChar(d[1])] + [LowerChar(d[2]), LowerChar(d[3])] + [LowerChar(d[4]), LowerChar(d[5])]
  {
    assert IsHexDigit(d[0]) && IsHexDigit(d[1]) && IsHexDigit(d[2]);
    assert IsHexDigit(d[3]) && IsHexDigit(d[4]) && IsHexDigit(d[5]);
    PairLower(d, 0);
    PairLower(d, 2);
    PairLower(d, 4);
  }

  lemma LowerSix(d: string)
    requires |d| == 6
    ensures LowerAscii(d) == [LowerChar(d[0]), LowerChar(d[1])] + [LowerChar(d[2]), LowerChar(d[3])] + [LowerChar(d[4]), LowerChar(d[5])]
  {
  }

  /** A byte divided by 255 renders as the byte's two digits. */
  lemma ByteChannelHex(n: int)
    requires 0 <= n <= 255
    ensures ChannelHex(OfByte(n)) == BytePair(n)
  {
    var x := OfByte(n);
    assert x * 255.0 == n as real;
    assert Round(x * 255.0) == n;
    var h := UnitChannelHex(x, n);
  }

  /** The byte at `i` renders as the two digits at `i`, lower-cased. */
  lemma PairLower(d: string, i: nat)
    requires i + 1 < |d| && IsHexDigit(d[i]) && IsHexDigit(d[i + 1])
    ensures BytePair(ByteAt(d, i)) == [LowerChar(d[i]), LowerChar(d[i + 1])]
  {
    var n := ByteAt(d, i);
    assert n / 16 == DigitValue(d[i]) && n % 16 == DigitValue(d[i + 1]);
    LowerHexDigit(d[i]);
    LowerHexDigit(d[i + 1]);
  }

  // ----- HSL -----

  function Max3(a: real, b: real, c: real): real {
    if a >= b && a >= c then a else if b >= c then b else c
  }

  function Min3(a: real, b: real, c: real): real {
    if a <= b && a <= c then a else if b <= c then b else c
  }

  /** `rgbToHsl`. The channels must lie in [0, 1]; outside it the source
      can divide by zero. The hue branch is chosen by which channel
      equals the maximum, red first, as the source's `switch (max)`. */
  function RgbToHsl(c: RGB): (hsl: HSL)
    requires IsUnitRgb(c)
    ensures hsl.l == (Max3(c.r, c.g, c.b) + Min3(c.r, c.g, c.b)) / 2.0
    ensures Max3(c.r, c.g, c.b) == Min3(c.r, c.g, c.b) ==> hsl.h == 0.0 && hsl.s == 0.0 && hsl.l == c.r
    ensures InUnit(hsl.s) && InUnit(hsl.l)
    ensures 0.0 <= hsl.h < 1.0
  {
    var mx := Max3(c.r, c.g, c.b);
    var mn := Min3(c.r, c.g, c.b);
    var l := (mx + mn) / 2.0;
    if mx == mn then HSL(0.0, 0.0, l)
    else
      SaturationInUnit(mx, mn);
      HueInRange(c);
      HSL(HueOf(c, mx - mn), Saturation(mx, mn), l)
  }

  /** The saturation of a colour whose extreme channels are `mx` > `mn`. */
  function Saturation(mx: real, mn: real): real
    requires 0.0 <= mn < mx <= 1.0
  {
    var d := mx - mn;
    if (mx + mn) / 2.0 > 0.5 then d / (2.0 - mx - mn) else d / (mx + mn)
  }

  /** The hue of a colour whose channel spread is `d`, measured from the
      largest channel, red winning ties before green. */
  function HueOf(c: RGB, d: real): real
    requires d != 0.0
  {
    var mx := Max3(c.r, c.g, c.b);
    if mx == c.r then ((c.g - c.b) / d + (if c.g < c.b then 6.0 else 0.0)) / 6.0
    else if mx == c.g then ((c.b - c.r) / d + 2.0) / 6.0
    else ((c.r - c.g) / d + 4.0) / 6.0
  }

  lemma SaturationInUnit(mx: real, mn: real)
    requires 0.0 <= mn < mx <= 1.0
    ensures InUnit(Saturation(mx, mn))
  {
    var d := mx - mn;
    if (mx + mn) / 2.0 > 0.5 {
      RatioInUnit(d, 2.0 - mx - mn);
    } else {
      RatioInUnit(d, mx + mn);
    }
  }

  lemma RatioInUnit(a: real, b: real)
    requires 0.0 <= a <= b && b > 0.0
    ensures InUnit(a / b)
  {
    assert a / b * b == a;
  }

  /** `(x - y) / d` lies in [-1, 1] when both lie in [mn, mn + d]. */
  lemma SpreadRatio(x: real, y: real, mn: real, d: real)
    requires d > 0.0 && mn <= x <= mn + d && mn <= y <= mn + d
    ensures -1.0 <= (x - y) / d <= 1.0
    ensures (x - y) / d * d == x - y
  {
    RatioInUnit(if x >= y then x - y else y - x, d);
  }

  lemma HueInRange(c: RGB)
    requires IsUnitRgb(c)
    requires Max3(c.r, c.g, c.b) != Min3(c.r, c.g, c.b)
    ensures 0.0 <= HueOf(c, Max3(c.r, c.g, c.b) - Min3(c.r, c.g, c.b)) < 1.0
  {
    var mx := Max3(c.r, c.g, c.b);
    var mn := Min3(c.r, c.g, c.b);
    var d := mx - mn;
    SpreadRatio(c.g, c.b, mn, d);
    SpreadRatio(c.b, c.r, mn, d);
    SpreadRatio(c.r, c.g, mn, d);
    if mx == c.r {
      RatioSign(c.g - c.b, d);
    }
  }

  /** Dividing by a positive number keeps the sign. */
  lemma RatioSign(a: real, d: real)
    requires d > 0.0
    ensures a >= 0.0 ==> a / d >= 0.0
    ensures a > 0.0 ==> a / d > 0.0
    ensures a < 0.0 ==> a / d < 0.0
  {
    var q := a / d;
    assert q * d == a;
    if q < 0.0 {
      assert q * d < 0.0;
    } else if q == 0.0 {
      assert q * d == 0.0;
    } else {
      assert q * d > 0.0;
    }
  }

  /** The wrap of `hue2rgb`'s argument into [0, 1]: one step up from
      below 0, one step down from above 1. */
  function WrapHue(t0: real): (t: real)
    ensures -1.0 <= t0 <= 2.0 ==> 0.0 <= t <= 1.0
    ensures 0.0 <= t0 <= 1.0 ==> t == t0
  {
    var t1 := if t0 < 0.0 then t0 + 1.0 else t0;
    if t1 > 1.0 then t1 - 1.0 else t1
  }

  /** The `hue2rgb` helper of `hslToRgb`: after wrapping, rises from p to
      q over the first sixth, holds q up to one half, falls back to p by
      two thirds and stays at p. */
  function HueToChannel(p: real, q: real, t0: real): real {
    HueShape(p, q, WrapHue(t0))
  }

  function HueShape(p: real, q: real, t: real): real {
    if t < 1.0 / 6.0 then p + (q - p) * 6.0 * t
    else if t < 1.0 / 2.0 then q
    else if t < 2.0 / 3.0 then p + (q - p) * (2.0 / 3.0 - t) * 6.0
    else p
  }

  /** `hslToRgb`. A saturation of exactly 0 gives grey without using the hue. */
  function HslToRgb(c: HSL): (rgb: RGB)
    ensures c.s == 0.0 ==> rgb == RGB(c.l, c.l, c.l)
    ensures InUnit(c.s) && InUnit(c.l) && 0.0 <= c.h < 1.0 ==> IsUnitRgb(rgb)
  {
    if c.s == 0.0 then RGB(c.l, c.l, c.l)
    else
      var q := UpperBound(c.s, c.l);
      var p := 2.0 * c.l - q;
      var rgb := RGB(HueToChannel(p, q, c.h + 1.0 / 3.0), HueToChannel(p, q, c.h), HueToChannel(p, q, c.h - 1.0 / 3.0));
      if InUnit(c.s) && InUnit(c.l) && 0.0 <= c.h < 1.0 then
        BoundsInUnit(c.s, c.l);
        HueToChannelBetween(p, q, c.h + 1.0 / 3.0);
        HueToChannelBetween(p, q, c.h);
        HueToChannelBetween(p, q, c.h - 1.0 / 3.0);
        rgb
      else
        rgb
  }

  /** The `q` of `hslToRgb`: the largest channel of the colour. */
  function UpperBound(s: real, l: real): real {
    if l < 0.5 then l * (1.0 + s) else l + s - l * s
  }

  lemma BoundsInUnit(s: real, l: real)
    requires InUnit(s) && InUnit(l)
    ensures var q := UpperBound(s, l);
            0.0 <= 2.0 * l - q <= q <= 1.0
  {
    if l < 0.5 {
      MulUnit(l, s);
      assert UpperBound(s, l) == l + l * s;
    } else {
      MulUnit(1.0 - l, s);
      var q := UpperBound(s, l);
      assert q == l + s - l * s;
      assert l + s - l * s == l + (1.0 - l) * s;
      assert q <= 1.0;
      assert 2.0 * l - q <= q;
      assert 0.0 <= 2.0 * l - q;
    }
  }

  lemma HueToChannelBetween(p: real, q: real, t0: real)
    requires p <= q
    requires -1.0 <= t0 <= 2.0
    ensures p <= HueToChannel(p, q, t0) <= q
  {
    ShapeBetween(p, q, WrapHue(t0));
  }

  lemma ShapeBetween(p: real, q: real, t: real)
    requires p <= q
    requires 0.0 <= t <= 1.0
    ensures p <= HueShape(p, q, t) <= q
  {
    if t < 1.0 / 6.0 {
      assert (q - p) * 6.0 * t == (q - p) * (6.0 * t);
      Segment(p, q, 6.0 * t);
    } else if 1.0 / 2.0 <= t < 2.0 / 3.0 {
      assert (q - p) * (2.0 / 3.0 - t) * 6.0 == (q - p) * ((2.0 / 3.0 - t) * 6.0);
      Segment(p, q, (2.0 / 3.0 - t) * 6.0);
    }
  }

  /** A point a fraction x of the way from p to q lies between them. */
  lemma Segment(p: real, q: real, x: real)
    requires p <= q && InUnit(x)
    ensures p <= p + (q - p) * x <= q
  {
    MulUnit(q - p, x);
    Between(p, q, (q - p) * x);
  }

  lemma Between(p: real, q: real, y: real)
    requires 0.0 <= y <= q - p
    ensures p <= p + y <= q
  {
  }

  /** Scaling a non-negative amount by a factor in [0, 1] keeps it between 0 and itself. */
  lemma MulUnit(a: real, x: real)
    requires 0.0 <= a && InUnit(x)
    ensures 0.0 <= a * x <= a
  {
    assert a - a * x == a * (1.0 - x);
  }

  // ----- the HSL round trip -----

  /** Converting a colour in [0, 1] to HSL and back gives the same colour:
      the lightness and saturation recover the extreme channels, and the
      hue places each channel on the right edge of `hue2rgb`'s shape. */
  lemma {:induction false} HslRoundTrip(c: RGB)
    requires IsUnitRgb(c)
    ensures HslToRgb(RgbToHsl(c)) == c
  {
    var mx := Max3(c.r, c.g, c.b);
    var mn := Min3(c.r, c.g, c.b);
    if mx != mn {
      var hsl := RgbToHsl(c);
      var d := mx - mn;
      assert hsl == HSL(HueOf(c, d), Saturation(mx, mn), (mx + mn) / 2.0);
      ExtremesFromHsl(mx, mn);
      var h := hsl.h;
      assert HslToRgb(hsl) == RGB(HueToChannel(mn, mx, h + 1.0 / 3.0), HueToChannel(mn, mx, h), HueToChannel(mn, mx, h - 1.0 / 3.0));
      if mx == c.r {
        RedLargest(c);
      } else if mx == c.g {
        GreenLargest(c);
      } else {
        BlueLargest(c);
      }
    }
  }

  /** The `q` and `p` that `hslToRgb` derives from a colour's saturation and
      lightness are its largest and smallest channels. */
  lemma ExtremesFromHsl(mx: real, mn: real)
    requires 0.0 <= mn < mx <= 1.0
    ensures Saturation(mx, mn) != 0.0
    ensures UpperBound(Saturation(mx, mn), (mx + mn) / 2.0) == mx
    ensures 2.0 * ((mx + mn) / 2.0) - mx == mn
  {
    var d := mx - mn;
    var l := (mx + mn) / 2.0;
    var s := Saturation(mx, mn);
    if l > 0.5 {
      var w := 2.0 - mx - mn;
      assert s == d / w;
      assert s * w == d;
      assert 1.0 - l == w / 2.0;
      assert UpperBound(s, l) == l + s * (1.0 - l);
      assert s * (1.0 - l) == s * w / 2.0;
    } else {
      var w := mx + mn;
      assert s == d / w;
      assert s * w == d;
      if l < 0.5 {
        assert UpperBound(s, l) == l + l * s;
        assert l * s == s * w / 2.0;
      } else {
        assert w == 1.0;
        assert UpperBound(s, l) == l + s * (1.0 - l);
      }
    }
  }

  /** `hue2rgb` at a wrapped position on the rising edge. */
  lemma ShapeRise(p: real, q: real, t: real, v: real)
    requires 0.0 <= t <= 1.0 / 6.0
    requires (q - p) * (6.0 * t) == v - p
    ensures HueShape(p, q, t) == v
  {
    assert (q - p) * 6.0 * t == (q - p) * (6.0 * t);
  }

  lemma ShapePlateau(p: real, q: real, t: real)
    requires 1.0 / 6.0 <= t <= 1.0 / 2.0
    ensures HueShape(p, q, t) == q
  {
  }

  lemma ShapeFall(p: real, q: real, t: real, v: real)
    requires 1.0 / 2.0 <= t <= 2.0 / 3.0
    requires (q - p) * (4.0 - 6.0 * t) == v - p
    ensures HueShape(p, q, t) == v
  {
    assert (q - p) * (2.0 / 3.0 - t) * 6.0 == (q - p) * (4.0 - 6.0 * t);
  }

  lemma ShapeFloor(p: real, q: real, t: real)
    requires 2.0 / 3.0 <= t <= 1.0
    ensures HueShape(p, q, t) == p
  {
  }

  /** The three channels `hslToRgb` rebuilds from the hue of `c`, given that
      `hslToRgb`'s p and q are the smallest and largest channel of `c`. */
  predicate RebuildsChannels(c: RGB)
    requires Max3(c.r, c.g, c.b) != Min3(c.r, c.g, c.b)
  {
    var mx := Max3(c.r, c.g, c.b);
    var mn := Min3(c.r, c.g, c.b);
    var h := HueOf(c, mx - mn);
    && HueToChannel(mn, mx, h + 1.0 / 3.0) == c.r
    && HueToChannel(mn, mx, h) == c.g
    && HueToChannel(mn, mx, h - 1.0 / 3.0) == c.b
  }

  lemma RedLargest(c: RGB)
    requires IsUnitRgb(c)
    requires Max3(c.r, c.g, c.b) != Min3(c.r, c.g, c.b)
    requires Max3(c.r, c.g, c.b) == c.r
    ensures RebuildsChannels(c)
  {
    var mx := Max3(c.r, c.g, c.b);
    var mn := Min3(c.r, c.g, c.b);
    var d := mx - mn;
    var e := (c.g - c.b) / d;
    SpreadRatio(c.g, c.b, mn, d);
    RatioSign(c.g - c.b, d);
    var h := HueOf(c, d);
    if c.g >= c.b {
      assert h == e / 6.0;
      assert WrapHue(h + 1.0 / 3.0) == h + 1.0 / 3.0;
      ShapePlateau(mn, mx, h + 1.0 / 3.0);
      assert WrapHue(h) == h;
      ShapeRise(mn, mx, h, c.g);
      assert WrapHue(h - 1.0 / 3.0) == h + 2.0 / 3.0;
      ShapeFloor(mn, mx, h + 2.0 / 3.0);
    } else {
      assert h == 1.0 + e / 6.0;
      assert WrapHue(h + 1.0 / 3.0) == h - 2.0 / 3.0;
      ShapePlateau(mn, mx, h - 2.0 / 3.0);
      assert WrapHue(h) == h;
      ShapeFloor(mn, mx, h);
      assert WrapHue(h - 1.0 / 3.0) == h - 1.0 / 3.0;
      ShapeFall(mn, mx, h - 1.0 / 3.0, c.b);
    }
  }

  lemma GreenLargest(c: RGB)
    requires IsUnitRgb(c)
    requires Max3(c.r, c.g, c.b) != Min3(c.r, c.g, c.b)
    requires Max3(c.r, c.g, c.b) == c.g != c.r
    ensures RebuildsChannels(c)
  {
    var mx := Max3(c.r, c.g, c.b);
    var mn := Min3(c.r, c.g, c.b);
    var d := mx - mn;
    var e := (c.b - c.r) / d;
    SpreadRatio(c.b, c.r, mn, d);
    var h := HueOf(c, d);
    assert h == (e + 2.0) / 6.0;
    assert WrapHue(h) == h;
    ShapePlateau(mn, mx, h);
    if c.b < c.r {
      assert WrapHue(h + 1.0 / 3.0) == h + 1.0 / 3.0;
      ShapeFall(mn, mx, h + 1.0 / 3.0, c.r);
      assert WrapHue(h - 1.0 / 3.0) == h + 2.0 / 3.0;
      ShapeFloor(mn, mx, h + 2.0 / 3.0);
    } else {
      assert WrapHue(h + 1.0 / 3.0) == h + 1.0 / 3.0;
      ShapeFloor(mn, mx, h + 1.0 / 3.0);
      assert WrapHue(h - 1.0 / 3.0) == h - 1.0 / 3.0;
      ShapeRise(mn, mx, h - 1.0 / 3.0, c.b);
    }
  }

  lemma BlueLargest(c: RGB)
    requires IsUnitRgb(c)
    requires Max3(c.r, c.g, c.b) != Min3(c.r, c.g, c.b)
    requires Max3(c.r, c.g, c.b) == c.b != c.r
    requires c.b != c.g
    ensures RebuildsChannels(c)
  {
    if c.r > c.g {
      BlueThenRed(c);
    } else {
      BlueThenGreen(c);
    }
  }

  /** Blue largest, red in the middle. */
  lemma BlueThenRed(c: RGB)
    requires IsUnitRgb(c)
    requires Max3(c.r, c.g, c.b) != Min3(c.r, c.g, c.b)
    requires Max3(c.r, c.g, c.b) == c.b != c.r
    requires c.b != c.g && c.r > c.g
    ensures RebuildsChannels(c)
  {
    var mx := Max3(c.r, c.g, c.b);
    var mn := Min3(c.r, c.g, c.b);
    var d := mx - mn;
    var e := (c.r - c.g) / d;
    SpreadRatio(c.r, c.g, mn, d);
    RatioSign(c.r - c.g, d);
    var h := HueOf(c, d);
    assert h == (e + 4.0) / 6.0;
    assert WrapHue(h - 1.0 / 3.0) == h - 1.0 / 3.0;
    ShapePlateau(mn, mx, h - 1.0 / 3.0);
    assert WrapHue(h + 1.0 / 3.0) == h - 2.0 / 3.0;
    ShapeRise(mn, mx, h - 2.0 / 3.0, c.r);
    assert WrapHue(h) == h;
    ShapeFloor(mn, mx, h);
  }

  /** Blue largest, green at least as large as red. */
  lemma BlueThenGreen(c: RGB)
    requires IsUnitRgb(c)
    requires Max3(c.r, c.g, c.b) != Min3(c.r, c.g, c.b)
    requires Max3(c.r, c.g, c.b) == c.b != c.r
    requires c.b != c.g && c.r <= c.g
    ensures RebuildsChannels(c)
  {
    var mx := Max3(c.r, c.g, c.b);
    var mn := Min3(c.r, c.g, c.b);
    var d := mx - mn;
    var e := (c.r - c.g) / d;
    SpreadRatio(c.r, c.g, mn, d);
    RatioSign(c.r - c.g, d);
    var h := HueOf(c, d);
    assert h == (e + 4.0) / 6.0;
    assert WrapHue(h - 1.0 / 3.0) == h - 1.0 / 3.0;
    ShapePlateau(mn, mx, h - 1.0 / 3.0);
    assert WrapHue(h + 1.0 / 3.0) == h + 1.0 / 3.0;
    ShapeFloor(mn, mx, h + 1.0 / 3.0);
    assert WrapHue(h) == h;
    ShapeFall(mn, mx, h, c.g);
  }

  /** Converting HSL to RGB and back keeps the lightness: among the three
      channels `hslToRgb` builds, one reaches q and one falls to p. */
  lemma {:induction false} HslLightnessKept(c: HSL)
    requires InUnit(c.s) && InUnit(c.l) && 0.0 <= c.h < 1.0
    ensures IsUnitRgb(HslToRgb(c))
    ensures RgbToHsl(HslToRgb(c)).l == c.l
  {
    var rgb := HslToRgb(c);
    if c.s != 0.0 {
      var q := UpperBound(c.s, c.l);
      var p := 2.0 * c.l - q;
      BoundsInUnit(c.s, c.l);
      assert rgb == RGB(HueToChannel(p, q, c.h + 1.0 / 3.0), HueToChannel(p, q, c.h), HueToChannel(p, q, c.h - 1.0 / 3.0));
      ExtremesAttained(p, q, c.h);
      assert (q + p) / 2.0 == c.l;
    }
  }

  /** For any hue, the three channels of `hslToRgb` span exactly [p, q]. */
  lemma ExtremesAttained(p: real, q: real, h: real)
    requires p <= q && 0.0 <= h < 1.0
    ensures var r, g, b := HueToChannel(p, q, h + 1.0 / 3.0), HueToChannel(p, q, h), HueToChannel(p, q, h - 1.0 / 3.0);
            Max3(r, g, b) == q && Min3(r, g, b) == p
  {
    HueToChannelBetween(p, q, h + 1.0 / 3.0);
    HueToChannelBetween(p, q, h);
    HueToChannelBetween(p, q, h - 1.0 / 3.0);
    if h < 1.0 / 6.0 {
      assert WrapHue(h + 1.0 / 3.0) == h + 1.0 / 3.0;
      ShapePlateau(p, q, h + 1.0 / 3.0);
      assert WrapHue(h - 1.0 / 3.0) == h + 2.0 / 3.0;
      ShapeFloor(p, q, h + 2.0 / 3.0);
    } else if h < 1.0 / 3.0 {
      assert WrapHue(h) == h;
      ShapePlateau(p, q, h);
      assert WrapHue(h - 1.0 / 3.0) == h + 2.0 / 3.0;
      ShapeFloor(p, q, h + 2.0 / 3.0);
    } else if h < 1.0 / 2.0 {
      assert WrapHue(h) == h;
      ShapePlateau(p, q, h);
      assert WrapHue(h + 1.0 / 3.0) == h + 1.0 / 3.0;
      ShapeFloor(p, q, h + 1.0 / 3.0);
    } else if h < 2.0 / 3.0 {
      assert WrapHue(h - 1.0 / 3.0) == h - 1.0 / 3.0;
      ShapePlateau(p, q, h - 1.0 / 3.0);
      assert WrapHue(h + 1.0 / 3.0) == h + 1.0 / 3.0;
      ShapeFloor(p, q, h + 1.0 / 3.0);
    } else if h < 5.0 / 6.0 {
      assert WrapHue(h - 1.0 / 3.0) == h - 1.0 / 3.0;
      ShapePlateau(p, q, h - 1.0 / 3.0);
      assert WrapHue(h) == h;
      ShapeFloor(p, q, h);
    } else {
      assert WrapHue(h + 1.0 / 3.0) == h - 2.0 / 3.0;
      ShapePlateau(p, q, h - 2.0 / 3.0);
      assert WrapHue(h) == h;
      ShapeFloor(p, q, h);
    }
  }
}
