/** The string form of colour values at the boundary with the UI:
    `formatColorValue` (code.ts:55-64) renders a variable's value for
    display, and `parseColorValue` (code.ts:252-276) reads an edited string
    back into channels. */
module ColorValue {
  import opened Wrappers
  import opened Text
  import opened ColorSpace

  // ----- formatting (code.ts:55-64) -----

  /** A variable's value: a colour, whose alpha may be absent, or any other
      value, carried as the text `String(value)` gives it. */
  datatype VariableValue =
    | ColorVal(r: real, g: real, b: real, a: Option<real>)
    | OtherVal(text: string)

  /** Whether `formatColorValue` takes the `rgba(...)` branch. */
  predicate IsTranslucent(v: VariableValue) {
    v.ColorVal? && v.a.Some? && v.a.value < 1.0
  }

  /** `formatColorValue`. `alphaText` is JavaScript's rendering of a number
      in a template literal, which only the alpha needs: the rounded
      channels are integers and render in decimal. */
  function FormatColorValue(v: VariableValue, alphaText: real -> string): (s: string)
    ensures v.ColorVal? && !IsTranslucent(v) && IsUnitRgb(RGB(v.r, v.g, v.b)) ==>
              |s| == 7 && s[0] == '#' && AllDigitsIn(s[1..], 16)
    ensures IsTranslucent(v) ==> |s| > 5 && s[..5] == "rgba(" && s[|s| - 1] == ')'
    ensures v.OtherVal? ==> s == v.text
  {
    match v
    case ColorVal(r, g, b, a) =>
      if a.Some? && a.value < 1.0 then
        RgbaText(Round(r * 255.0), Round(g * 255.0), Round(b * 255.0), alphaText(a.value))
      else
        var c := RGB(r, g, b);
        if IsUnitRgb(c) then
          RgbToHexShape(c);
          RgbToHex(c)
        else
          RgbToHex(c)
    case OtherVal(text) => text
  }

  /** `rgba(R, G, B, A)` with the channels in decimal. */
  function RgbaText(r: int, g: int, b: int, alpha: string): (s: string)
    ensures |s| > 5 && s[..5] == "rgba(" && s[|s| - 1] == ')'
  {
    "rgba(" + (Decimal(r) + (", " + (Decimal(g) + (", " + (Decimal(b) + (", " + (alpha + ")")))))))
  }

  // ----- parsing (code.ts:252-276) -----

  /** What `parseColorValue` returns: `null`, or three channels each of
      which is a number (Some) or NaN (None). */
  datatype Parsed = Null | Channels(r: Option<real>, g: Option<real>, b: Option<real>)

  /** The parsed form of an RGB colour. */
  function AsParsed(c: RGB): Parsed {
    Channels(Some(c.r), Some(c.g), Some(c.b))
  }

  /** `parseInt(text, radix) / 255`, NaN staying NaN. */
  function ChannelOf(text: string, radix: Radix): Option<real> {
    match ParseInt(text, radix)
    case None => None
    case Some(n) => Some(OfByte(n))
  }

  /** JavaScript strings are sequences of UTF-16 code units: a character
      above U+FFFF takes two of them, a surrogate pair. `CodeUnits` is that
      view of `s`, with each half of a pair written as `Surrogate`. */
  function CodeUnits(s: string): (u: string)
    ensures |u| >= |s|
  {
    if |s| == 0 then []
    else (if IsAstral(s[0]) then [Surrogate, Surrogate] else [s[0]]) + CodeUnits(s[1..])
  }

  predicate IsAstral(c: char) {
    c as int > 0xFFFF
  }

  /** Stands for one half of a surrogate pair. Like a surrogate it is not
      a digit, a sign or white space, which is all `parseInt` asks of it. */
  const Surrogate: char := '\U{FFFF}'

  /** The first branch: a `#` and then exactly six code units
      (`hex.length === 6`). */
  predicate IsHashSix(s: string) {
    |s| > 0 && s[0] == '#' && |CodeUnits(s[1..])| == 6
  }

  /** The three `(\d+)` groups of a match of
      `/rgba?\((\d+),\s*(\d+),\s*(\d+)(?:,\s*([\d.]+))?\)/`; the alpha group
      is matched but never read. */
  datatype Captures = Captures(r: string, g: string, b: string)

  /** What a `(\d+)` group can capture. */
  predicate DigitRun(d: string) {
    |d| > 0 && AllDigitsIn(d, 10)
  }

  predicate ValidCaptures(c: Captures) {
    DigitRun(c.r) && DigitRun(c.g) && DigitRun(c.b)
  }

  /** The length of the run of characters satisfying `p` at the start of `t`. */
  function RunLength(t: string, p: char -> bool): (n: nat)
    ensures n <= |t|
    ensures forall k | 0 <= k < n :: p(t[k])
    ensures n == |t| || !p(t[n])
  {
    if |t| == 0 || !p(t[0]) then 0 else 1 + RunLength(t[1..], p)
  }

  predicate IsDigitOrDot(c: char) {
    IsDecimalDigit(c) || c == '.'
  }

  /** What is left after a `\s*`. */
  function SkipSpaces(t: string): (u: string)
    ensures |u| <= |t|
  {
    t[RunLength(t, IsJsSpace)..]
  }

  /** A `(\d+)` group followed by the character `next`: the digits and what
      follows `next`. Each quantifier in the pattern is followed by a
      character it cannot consume, so greedy matching never backtracks and
      the run is maximal. */
  function DigitsThen(t: string, next: char): (r: Option<(string, string)>)
    ensures r.Some? ==> DigitRun(r.value.0)
  {
    var n := RunLength(t, IsDecimalDigit);
    if n > 0 && n < |t| && t[n] == next then Some((t[..n], t[n + 1..])) else None
  }

  /** The blue group and the optional alpha: `(\d+)(?:,\s*([\d.]+))?\)`. */
  function LastGroup(t: string): (r: Option<string>)
    ensures r.Some? ==> DigitRun(r.value)
  {
    var n := RunLength(t, IsDecimalDigit);
    if n == 0 || n == |t| then None
    else if t[n] == ')' then Some(t[..n])
    else if t[n] == ',' then
      var a := SkipSpaces(t[n + 1..]);
      var m := RunLength(a, IsDigitOrDot);
      if m > 0 && m < |a| && a[m] == ')' then Some(t[..n]) else None
    else None
  }

  /** The three channel groups, from just after the opening parenthesis. */
  function Groups(t: string): (r: Option<Captures>)
    ensures r.Some? ==> ValidCaptures(r.value)
  {
    match DigitsThen(t, ',')
    case None => None
    case Some((red, t1)) =>
      match DigitsThen(SkipSpaces(t1), ',')
      case None => None
      case Some((green, t2)) =>
        match LastGroup(SkipSpaces(t2))
        case None => None
        case Some(blue) => Some(Captures(red, green, blue))
  }

  /** The match of the pattern at the very start of `t`, if any. */
  function MatchHere(t: string): (r: Option<Captures>)
    ensures r.Some? ==> ValidCaptures(r.value)
  {
    if !(|t| >= 3 && t[..3] == "rgb") then None
    else
      var u := if |t| > 3 && t[3] == 'a' then t[4..] else t[3..];
      if !(|u| > 0 && u[0] == '(') then None
      else Groups(u[1..])
  }

  /** The match of the pattern starting exactly at `i`, if any. */
  function MatchAt(s: string, i: nat): (r: Option<Captures>)
    requires i <= |s|
    ensures r.Some? ==> ValidCaptures(r.value)
  {
    MatchHere(s[i..])
  }

  /** `String.prototype.match` without the `g` flag: the leftmost match
      at or after `i`. */
  function FirstMatch(s: string, i: nat): (r: Option<Captures>)
    requires i <= |s|
    ensures r.None? <==> forall k | i <= k <= |s| :: MatchAt(s, k).None?
    ensures r.Some? ==> ValidCaptures(r.value)
    decreases |s| - i
  {
    if MatchAt(s, i).Some? then MatchAt(s, i)
    else if i == |s| then None
    else FirstMatch(s, i + 1)
  }

  /** `parseColorValue` */
  function ParseColorValue(value: string): (r: Parsed)
    ensures IsHashSix(value) ==> r.Channels?
    ensures r.Null? <==> !IsHashSix(value) && forall k | 0 <= k <= |value| :: MatchAt(value, k).None?
    ensures !IsHashSix(value) && r.Channels? ==>
              && r.r.Some? && r.g.Some? && r.b.Some?
              && 0.0 <= r.r.value && 0.0 <= r.g.value && 0.0 <= r.b.value
    ensures !IsHashSix(value) && FirstMatch(value, 0).Some? ==>
              var c := FirstMatch(value, 0).value;
              r == Channels(Some(OfByte(DigitsValue(c.r, 10))), Some(OfByte(DigitsValue(c.g, 10))), Some(OfByte(DigitsValue(c.b, 10))))
  {
    if IsHashSix(value) then
      var hex := CodeUnits(value[1..]);
      Channels(ChannelOf(hex[0..2], 16), ChannelOf(hex[2..4], 16), ChannelOf(hex[4..6], 16))
    else
      match FirstMatch(value, 0)
      case None => Null
      case Some(c) =>
        CapturedValue(c.r, DigitsValue(c.r, 10));
        CapturedValue(c.g, DigitsValue(c.g, 10));
        CapturedValue(c.b, DigitsValue(c.b, 10));
        Channels(ChannelOf(c.r, 10), ChannelOf(c.g, 10), ChannelOf(c.b, 10))
  }

  /** A `(\d+)` capture always parses, to a non-negative number. */
  lemma CapturedChannel(d: string)
    requires DigitRun(d)
    ensures ChannelOf(d, 10).Some? && 0.0 <= ChannelOf(d, 10).value
  {
    CapturedValue(d, DigitsValue(d, 10));
  }

  /** A `(\d+)` capture of value `n` reads as `n / 255`. */
  lemma CapturedValue(d: string, n: nat)
    requires DigitRun(d) && DigitsValue(d, 10) == n
    ensures ChannelOf(d, 10) == Some(OfByte(n))
  {
    ParseIntOfDigitRun(d, 10);
    ChannelOfParsed(d, 10, n);
  }

  lemma ChannelOfParsed(text: string, radix: Radix, n: int)
    requires ParseInt(text, radix) == Some(n)
    ensures ChannelOf(text, radix) == Some(OfByte(n))
  {
  }

  /** The match `FirstMatch` returns is the leftmost one. */
  lemma {:induction false} FirstMatchIsLeftmost(s: string, i: nat)
    requires i <= |s|
    requires FirstMatch(s, i).Some?
    ensures exists k | i <= k <= |s| :: MatchAt(s, k) == FirstMatch(s, i) && forall k' | i <= k' < k :: MatchAt(s, k').None?
    decreases |s| - i
  {
    if MatchAt(s, i).None? {
      FirstMatchIsLeftmost(s, i + 1);
      var k :| i + 1 <= k <= |s| && MatchAt(s, k) == FirstMatch(s, i + 1) && forall k' | i + 1 <= k' < k :: MatchAt(s, k').None?;
      assert forall k' | i <= k' < k :: MatchAt(s, k').None?;
    } else {
      assert MatchAt(s, i) == FirstMatch(s, i);
    }
  }

  // ----- properties -----

  /** On `#RRGGBB` the first branch reads the same colour as `hexToRgb`. */
  lemma ParseAgreesWithHex(value: string)
    requires |value| == 7 && value[0] == '#' && AllDigitsIn(value[1..], 16)
    ensures IsHashSix(value) && IsHexColor(value)
    ensures ParseColorValue(value) == AsParsed(HexToRgb(value).value)
  {
    var d := value[1..];
    CodeUnitsOfBmp(d);
    assert HexDigitsOf(value) == d;
    HexPairsChannels(d);
  }

  /** Text without characters above U+FFFF is its own code-unit view. */
  lemma {:induction false} CodeUnitsOfBmp(s: string)
    requires forall k | 0 <= k < |s| :: !IsAstral(s[k])
    ensures CodeUnits(s) == s
  {
    if |s| > 0 {
      CodeUnitsOfBmp(s[1..]);
    }
  }

  /** A character above U+FFFF counts twice towards `hex.length`: a `#`,
      an emoji and four hex digits (`#\u{1F600}abcd`) make six code units,
      so the first branch is taken, and its first pair, the emoji's two
      halves, reads as NaN. */
  lemma AstralHexChannels(emoji: char, d1: string, d2: string)
    requires IsAstral(emoji)
    requires |d1| == 2 && AllDigitsIn(d1, 16) && |d2| == 2 && AllDigitsIn(d2, 16)
    ensures ParseColorValue("#" + [emoji] + d1 + d2)
              == Channels(None, Some(OfByte(DigitsValue(d1, 16))), Some(OfByte(DigitsValue(d2, 16))))
  {
    var value := "#" + [emoji] + d1 + d2;
    var hex := [Surrogate, Surrogate] + (d1 + d2);
    AstralUnits(emoji, d1 + d2);
    assert value[1..] == [emoji] + (d1 + d2);
    assert IsHashSix(value);
    assert hex[0..2] == [Surrogate, Surrogate] && hex[2..4] == d1 && hex[4..6] == d2;
    ParseIntNeedsDigit([Surrogate, Surrogate], 16);
    HexTextChannel(d1);
    HexTextChannel(d2);
  }

  /** And an emoji with five hex digits (`#\u{1F600}abcde`) is seven code
      units: not the first branch, and with no `rgb` in it, null. */
  lemma AstralHexTooLong(emoji: char, d: string)
    requires IsAstral(emoji)
    requires |d| == 5 && AllDigitsIn(d, 16)
    ensures ParseColorValue("#" + [emoji] + d) == Null
  {
    var value := "#" + [emoji] + d;
    AstralUnits(emoji, d);
    assert value[1..] == [emoji] + d;
    assert !IsHashSix(value);
    assert forall k | 0 <= k < |value| :: value[k] != 'r' by {
      forall k | 0 <= k < |value| ensures value[k] != 'r' {
        if k >= 2 { assert value[k] == d[k - 2]; }
      }
    }
    NoMatchWithoutR(value);
  }

  /** The hex branch checks neither sign nor range: `parseInt` reads a
      leading `-`, so `#-1abcd` gives a red channel of -1/255. */
  lemma NegativeHexChannel(c: char, d1: string, d2: string)
    requires IsHexDigit(c)
    requires |d1| == 2 && AllDigitsIn(d1, 16) && |d2| == 2 && AllDigitsIn(d2, 16)
    ensures ParseColorValue("#" + ['-', c] + d1 + d2)
              == Channels(Some(OfByte(-(DigitValue(c) as int))), Some(OfByte(DigitsValue(d1, 16))), Some(OfByte(DigitsValue(d2, 16))))
  {
    HexBranch(['-', c], d1, d2);
    SignedDigit(c);
    HexTextChannel(d1);
    HexTextChannel(d2);
  }

  /** Nor does it reject white space: `parseInt` skips it before a pair's
      digit and stops at it after one, so `#ab cd ` reads as 0xab, 0xc and
      0xd over 255. */
  lemma SpacedHexChannel(d1: string, c: char, e: char)
    requires |d1| == 2 && AllDigitsIn(d1, 16) && IsHexDigit(c) && IsHexDigit(e)
    ensures ParseColorValue("#" + d1 + [' ', c] + [e, ' '])
              == Channels(Some(OfByte(DigitsValue(d1, 16))), Some(OfByte(DigitValue(c))), Some(OfByte(DigitValue(e))))
  {
    HexBranch(d1, [' ', c], [e, ' ']);
    HexTextChannel(d1);
    SpacedDigit(c);
    TrailingSpaceDigit(e);
  }

  /** A `#` and three pairs of BMP characters take the first branch, which
      reads each pair with `parseInt(pair, 16)`. */
  lemma HexBranch(p1: string, p2: string, p3: string)
    requires |p1| == 2 && |p2| == 2 && |p3| == 2
    requires forall k | 0 <= k < 2 :: !IsAstral(p1[k]) && !IsAstral(p2[k]) && !IsAstral(p3[k])
    ensures ParseColorValue("#" + p1 + p2 + p3) == Channels(ChannelOf(p1, 16), ChannelOf(p2, 16), ChannelOf(p3, 16))
  {
    var hex := p1 + p2 + p3;
    var value := "#" + p1 + p2 + p3;
    assert value[1..] == hex;
    assert forall k | 0 <= k < |hex| :: !IsAstral(hex[k]) by {
      forall k | 0 <= k < |hex| ensures !IsAstral(hex[k]) {
        if k < 2 { assert hex[k] == p1[k]; }
        else if k < 4 { assert hex[k] == p2[k - 2]; }
        else { assert hex[k] == p3[k - 4]; }
      }
    }
    CodeUnitsOfBmp(hex);
    assert hex[0..2] == p1 && hex[2..4] == p2 && hex[4..6] == p3;
  }

  /** `-` and one digit reads as the digit's negation. */
  lemma SignedDigit(c: char)
    requires IsHexDigit(c)
    ensures ChannelOf(['-', c], 16) == Some(OfByte(-(DigitValue(c) as int)))
  {
    var s := ['-', c];
    assert SkipSpace(s) == s;
    assert StripSign(s) == [c];
    OneDigit(c);
  }

  /** A space and one digit reads as the digit. */
  lemma SpacedDigit(c: char)
    requires IsHexDigit(c)
    ensures ChannelOf([' ', c], 16) == Some(OfByte(DigitValue(c)))
  {
    var s := [' ', c];
    DigitIsNotSpace(c, 16);
    assert SkipSpace([c]) == [c];
    assert s[1..] == [c] && IsJsSpace(s[0]);
    assert SkipSpace(s) == SkipSpace([c]);
    assert StripSign([c]) == [c];
    OneDigit(c);
    assert ParseInt(s, 16) == Some(DigitValue(c));
  }

  /** One digit and then a space reads as the digit. */
  lemma TrailingSpaceDigit(c: char)
    requires IsHexDigit(c)
    ensures ChannelOf([c, ' '], 16) == Some(OfByte(DigitValue(c)))
  {
    assert [c] + " " == [c, ' '];
    ParseIntOfDigits([c], " ", 16);
    OneDigit(c);
  }

  /** A lone digit after any white space and sign. */
  lemma OneDigit(c: char)
    requires IsHexDigit(c)
    ensures StripHexPrefix([c], 16) == [c]
    ensures DigitsValue([c], 16) == DigitValue(c)
    ensures LeadingValue([c], 16) == Some(DigitValue(c))
  {
    assert [c][..0] == [];
    assert [c][..1] == [c];
  }

  /** An astral character followed by BMP text: two code units, then the text. */
  lemma AstralUnits(emoji: char, rest: string)
    requires IsAstral(emoji)
    requires forall k | 0 <= k < |rest| :: !IsAstral(rest[k])
    ensures CodeUnits([emoji] + rest) == [Surrogate, Surrogate] + rest
  {
    assert ([emoji] + rest)[1..] == rest;
    CodeUnitsOfBmp(rest);
  }

  lemma HexTextChannel(d: string)
    requires |d| > 0 && AllDigitsIn(d, 16)
    ensures ChannelOf(d, 16) == Some(OfByte(DigitsValue(d, 16)))
  {
    assert d + "" == d;
    ParseIntOfDigits(d, "", 16);
    ChannelOfParsed(d, 16, DigitsValue(d, 16));
  }

  lemma HexPairsChannels(d: string)
    requires |d| == 6 && AllDigitsIn(d, 16)
    ensures ChannelOf(d[0..2], 16) == Some(OfByte(ByteAt(d, 0)))
    ensures ChannelOf(d[2..4], 16) == Some(OfByte(ByteAt(d, 2)))
    ensures ChannelOf(d[4..6], 16) == Some(OfByte(ByteAt(d, 4)))
  {
    HexPairChannel(d, 0);
    HexPairChannel(d, 2);
    HexPairChannel(d, 4);
  }

  lemma HexPairChannel(d: string, i: nat)
    requires |d| == 6 && AllDigitsIn(d, 16) && i <= 4
    ensures ChannelOf(d[i..i + 2], 16) == Some(OfByte(ByteAt(d, i)))
  {
    ParseIntOfHexPair(d, i);
    ChannelOfParsed(d[i..i + 2], 16, ByteAt(d, i));
  }

  /** `hexToRgb` accepts six digits without `#`, but `parseColorValue` does
      not: with no `r` in it, such a string matches neither branch. */
  lemma BareHexIsNull(value: string)
    requires |value| == 6 && AllDigitsIn(value, 16)
    ensures IsHexColor(value)
    ensures ParseColorValue(value) == Null
  {
    assert !IsHashSix(value) by {
      assert value[0] != '#';
    }
    assert forall k | 0 <= k < |value| :: value[k] != 'r';
    NoMatchWithoutR(value);
  }

  /** Text without an `r` matches the pattern nowhere. */
  lemma NoMatchWithoutR(value: string)
    requires forall k | 0 <= k < |value| :: value[k] != 'r'
    ensures forall k | 0 <= k <= |value| :: MatchAt(value, k).None?
  {
    forall k | 0 <= k <= |value| ensures MatchAt(value, k).None? {
      if k + 3 <= |value| {
        assert value[k..][..3][0] == value[k];
      }
    }
  }

  /** The text `formatColorValue` writes for a translucent colour parses
      back to its three rounded channels over 255, whatever they are. */
  lemma ParseRgbaText(x: int, y: int, z: int, alpha: string)
    requires 0 <= x && 0 <= y && 0 <= z
    requires |alpha| > 0 && forall k | 0 <= k < |alpha| :: IsDigitOrDot(alpha[k])
    ensures ParseColorValue(RgbaText(x, y, z, alpha))
              == Channels(Some(OfByte(x)), Some(OfByte(y)), Some(OfByte(z)))
  {
    RgbaMatches(x, y, z, alpha);
    DecimalChannel(x);
    DecimalChannel(y);
    DecimalChannel(z);
  }

  lemma DecimalChannel(n: int)
    requires 0 <= n
    ensures ChannelOf(Decimal(n), 10) == Some(OfByte(n))
  {
    DecimalValue(n);
    CapturedValue(Decimal(n), n);
  }

  predicate IsSpaceRun(s: string) {
    forall k | 0 <= k < |s| :: IsJsSpace(s[k])
  }

  /** What a `([\d.]+)` group can capture. */
  predicate IsAlphaRun(s: string) {
    |s| > 0 && forall k | 0 <= k < |s| :: IsDigitOrDot(s[k])
  }

  /** The end of a match: `)`, or the optional `,\s*([\d.]+)` (a white
      space run and the alpha) and then `)`. */
  function AlphaTail(alpha: Option<(string, string)>): string {
    match alpha
    case None => ")"
    case Some((space, a)) => "," + (space + (a + ")"))
  }

  /** Any text the pattern matches from its first to its last character:
      `rgb(` or `rgba(`, three digit runs each after a comma and a run of
      white space but the first, then the optional alpha and `)`. */
  function PatternText(withA: bool, dx: string, s1: string, dy: string, s2: string, dz: string,
                       alpha: Option<(string, string)>): string
  {
    (if withA then "rgba(" else "rgb(") + (dx + ("," + (s1 + (dy + ("," + (s2 + (dz + AlphaTail(alpha))))))))
  }

  /** Every form the pattern accepts, with or without `a`, with any white
      space after the commas and with or without the alpha, parses to the
      three digit runs over 255. */
  lemma ParsePatternText(withA: bool, dx: string, s1: string, dy: string, s2: string, dz: string,
                         alpha: Option<(string, string)>)
    requires DigitRun(dx) && DigitRun(dy) && DigitRun(dz)
    requires IsSpaceRun(s1) && IsSpaceRun(s2)
    requires alpha.Some? ==> IsSpaceRun(alpha.value.0) && IsAlphaRun(alpha.value.1)
    ensures ParseColorValue(PatternText(withA, dx, s1, dy, s2, dz, alpha))
              == Channels(Some(OfByte(DigitsValue(dx, 10))), Some(OfByte(DigitsValue(dy, 10))), Some(OfByte(DigitsValue(dz, 10))))
  {
    var t := PatternText(withA, dx, s1, dy, s2, dz, alpha);
    var body := dx + ("," + (s1 + (dy + ("," + (s2 + (dz + AlphaTail(alpha)))))));
    PatternHere(withA, body);
    GroupsOfPattern(dx, s1, dy, s2, dz, alpha);
    assert t[0..] == t;
    assert MatchAt(t, 0) == Some(Captures(dx, dy, dz));
  }

  /** The prefix `rgb(` or `rgba(` leads to the groups. */
  lemma PatternHere(withA: bool, body: string)
    ensures var t := (if withA then "rgba(" else "rgb(") + body;
            t[0] == 'r' && MatchHere(t) == Groups(body)
  {
    var t := (if withA then "rgba(" else "rgb(") + body;
    if withA {
      assert t[..3] == "rgb" && t[3] == 'a' && t[4..] == "(" + body && ("(" + body)[1..] == body;
    } else {
      assert t[..3] == "rgb" && t[3] == '(' && t[3..] == "(" + body && ("(" + body)[1..] == body;
    }
  }

  lemma GroupsOfPattern(dx: string, s1: string, dy: string, s2: string, dz: string, alpha: Option<(string, string)>)
    requires DigitRun(dx) && DigitRun(dy) && DigitRun(dz)
    requires IsSpaceRun(s1) && IsSpaceRun(s2)
    requires alpha.Some? ==> IsSpaceRun(alpha.value.0) && IsAlphaRun(alpha.value.1)
    ensures Groups(dx + ("," + (s1 + (dy + ("," + (s2 + (dz + AlphaTail(alpha)))))))) == Some(Captures(dx, dy, dz))
  {
    var t2 := dz + AlphaTail(alpha);
    var t1 := dy + ("," + (s2 + t2));
    DigitsThenComma(dx, s1 + t1);
    SpacesOver(s1, t1);
    DigitsThenComma(dy, s2 + t2);
    SpacesOver(s2, t2);
    LastGroupOfTail(dz, alpha);
  }

  /** A digit run and then a comma: the group is the whole run. */
  lemma DigitsThenComma(d: string, r: string)
    requires DigitRun(d)
    ensures DigitsThen(d + ("," + r), ',') == Some((d, r))
  {
    var t := d + ("," + r);
    RunOver(d, "," + r, IsDecimalDigit);
    assert t[..|d|] == d && t[|d|] == ',' && t[|d| + 1..] == r;
  }

  /** A `\s*` consumes a white space run up to text that starts with a digit. */
  lemma SpacesOver(space: string, r: string)
    requires IsSpaceRun(space)
    requires |r| > 0 && IsDecimalDigit(r[0])
    ensures SkipSpaces(space + r) == r
  {
    RunOver(space, r, IsJsSpace);
    assert (space + r)[|space|..] == r;
  }

  lemma LastGroupOfTail(d: string, alpha: Option<(string, string)>)
    requires DigitRun(d)
    requires alpha.Some? ==> IsSpaceRun(alpha.value.0) && IsAlphaRun(alpha.value.1)
    ensures LastGroup(d + AlphaTail(alpha)) == Some(d)
  {
    var tail := AlphaTail(alpha);
    var t := d + tail;
    RunOver(d, tail, IsDecimalDigit);
    assert t[..|d|] == d && t[|d|] == tail[0] && t[|d| + 1..] == tail[1..];
    if alpha.Some? {
      var (space, a) := alpha.value;
      assert tail[1..] == space + (a + ")");
      RunOver(space, a + ")", IsJsSpace);
      assert (space + (a + ")"))[|space|..] == a + ")";
      RunOver(a, ")", IsDigitOrDot);
      assert (a + ")")[|a|] == ')';
    }
  }

  /** A digit run is never range checked: a red channel above 255 reads
      as a value above 1. */
  lemma NoRangeCheck(x: int, y: int, z: int, alpha: string)
    requires 255 < x && 0 <= y && 0 <= z
    requires |alpha| > 0 && forall k | 0 <= k < |alpha| :: IsDigitOrDot(alpha[k])
    ensures var p := ParseColorValue(RgbaText(x, y, z, alpha)); p.Channels? && p.r.Some? && 1.0 < p.r.value
  {
    ParseRgbaText(x, y, z, alpha);
  }

  /** An opaque colour with channels in [0, 1] formats as hex and parses
      back as its channels rounded to the nearest 1/255. */
  lemma FormatParseOpaque(v: VariableValue, alphaText: real -> string)
    requires v.ColorVal? && !IsTranslucent(v) && IsUnitRgb(RGB(v.r, v.g, v.b))
    ensures ParseColorValue(FormatColorValue(v, alphaText)) == AsParsed(Quantize(RGB(v.r, v.g, v.b)))
  {
    var c := RGB(v.r, v.g, v.b);
    FormatOpaque(v, alphaText);
    RgbToHexShape(c);
    RgbToHexParses(c);
    ParseAgreesWithHex(RgbToHex(c));
  }

  /** A translucent colour with channels in [0, 1] formats as `rgba(...)`
      and parses back as its rounded channels: the alpha is lost. The
      alpha must render as digits and dots, as numbers in [0, 1) from
      0.000001 up do. */
  lemma FormatParseDropsAlpha(v: VariableValue, alphaText: real -> string)
    requires IsTranslucent(v) && IsUnitRgb(RGB(v.r, v.g, v.b))
    requires var t := alphaText(v.a.value); |t| > 0 && forall k | 0 <= k < |t| :: IsDigitOrDot(t[k])
    ensures ParseColorValue(FormatColorValue(v, alphaText)) == AsParsed(Quantize(RGB(v.r, v.g, v.b)))
  {
    var c := RGB(v.r, v.g, v.b);
    var x, y, z := Round(v.r * 255.0), Round(v.g * 255.0), Round(v.b * 255.0);
    QuantizedBytes(c, x, y, z);
    FormatTranslucent(v, alphaText);
    ParseRgbaText(x, y, z, alphaText(v.a.value));
  }

  /** The parsed form of a quantized colour is its three rounded bytes over 255. */
  lemma QuantizedBytes(c: RGB, x: int, y: int, z: int)
    requires IsUnitRgb(c)
    requires x == Round(c.r * 255.0) && y == Round(c.g * 255.0) && z == Round(c.b * 255.0)
    ensures 0 <= x && 0 <= y && 0 <= z
    ensures AsParsed(Quantize(c)) == Channels(Some(OfByte(x)), Some(OfByte(y)), Some(OfByte(z)))
  {
    RoundedByte(c.r);
    RoundedByte(c.g);
    RoundedByte(c.b);
  }

  lemma FormatOpaque(v: VariableValue, alphaText: real -> string)
    requires v.ColorVal? && !IsTranslucent(v)
    ensures FormatColorValue(v, alphaText) == RgbToHex(RGB(v.r, v.g, v.b))
  {
  }

  lemma FormatTranslucent(v: VariableValue, alphaText: real -> string)
    requires IsTranslucent(v)
    ensures FormatColorValue(v, alphaText)
              == RgbaText(Round(v.r * 255.0), Round(v.g * 255.0), Round(v.b * 255.0), alphaText(v.a.value))
  {
  }

  /** The decimal rendering of a non-negative integer is its digits. */
  lemma DecimalValue(n: int)
    requires 0 <= n
    ensures DigitRun(Decimal(n)) && DigitsValue(Decimal(n), 10) == n
  {
    NatDigitsSpec(n, 10);
  }

  /** The text `formatColorValue` writes for a translucent colour is a
      match of the pattern at its first character. */
  lemma RgbaMatches(x: int, y: int, z: int, alpha: string)
    requires 0 <= x && 0 <= y && 0 <= z
    requires |alpha| > 0 && forall k | 0 <= k < |alpha| :: IsDigitOrDot(alpha[k])
    ensures !IsHashSix(RgbaText(x, y, z, alpha))
    ensures FirstMatch(RgbaText(x, y, z, alpha), 0) == Some(Captures(Decimal(x), Decimal(y), Decimal(z)))
  {
    DecimalValue(x);
    DecimalValue(y);
    DecimalValue(z);
    var s := RgbaText(x, y, z, alpha);
    RgbaTextMatches(Decimal(x), Decimal(y), Decimal(z), alpha);
    assert s[0..] == s;
  }

  /** `rgba(` three digit runs separated by `, `, then `, ` and an alpha of
      digits and dots, then `)`: a match with the three runs captured. */
  lemma RgbaTextMatches(dx: string, dy: string, dz: string, alpha: string)
    requires DigitRun(dx) && DigitRun(dy) && DigitRun(dz)
    requires |alpha| > 0 && forall k | 0 <= k < |alpha| :: IsDigitOrDot(alpha[k])
    ensures var t := "rgba(" + (dx + (", " + (dy + (", " + (dz + (", " + (alpha + ")")))))));
      !IsHashSix(t) && MatchHere(t) == Some(Captures(dx, dy, dz))
  {
    var rest := dx + (", " + (dy + (", " + (dz + (", " + (alpha + ")"))))));
    var t := "rgba(" + rest;
    assert t[..3] == "rgb" && t[3] == 'a' && t[4..] == "(" + rest && ("(" + rest)[1..] == rest;
    GroupsOver(dx, dy, dz, alpha);
  }

  lemma GroupsOver(dx: string, dy: string, dz: string, alpha: string)
    requires DigitRun(dx) && DigitRun(dy) && DigitRun(dz)
    requires |alpha| > 0 && forall k | 0 <= k < |alpha| :: IsDigitOrDot(alpha[k])
    ensures Groups(dx + (", " + (dy + (", " + (dz + (", " + (alpha + ")"))))))) == Some(Captures(dx, dy, dz))
  {
    var t2 := dz + (", " + (alpha + ")"));
    var t1 := dy + (", " + t2);
    DigitsThenOver(dx, t1);
    SpaceOver(t1);
    DigitsThenOver(dy, t2);
    SpaceOver(t2);
    LastGroupOver(dz, alpha);
  }

  /** A single space before text that does not start with white space is
      all a `\s*` consumes. */
  lemma SpaceOver(r: string)
    requires |r| > 0 && !IsJsSpace(r[0])
    ensures SkipSpaces(" " + r) == r
  {
    RunOver(" ", r, IsJsSpace);
    assert (" " + r)[1..] == r;
  }

  /** A digit run and then `, `: the group is the whole run. */
  lemma DigitsThenOver(d: string, r: string)
    requires DigitRun(d)
    ensures DigitsThen(d + (", " + r), ',') == Some((d, " " + r))
  {
    var t := d + (", " + r);
    RunOver(d, ", " + r, IsDecimalDigit);
    assert t[..|d|] == d && t[|d|] == ',' && t[|d| + 1..] == " " + r;
  }

  lemma LastGroupOver(d: string, alpha: string)
    requires DigitRun(d)
    requires |alpha| > 0 && forall k | 0 <= k < |alpha| :: IsDigitOrDot(alpha[k])
    ensures LastGroup(d + (", " + (alpha + ")"))) == Some(d)
  {
    var t := d + (", " + (alpha + ")"));
    RunOver(d, ", " + (alpha + ")"), IsDecimalDigit);
    assert t[..|d|] == d && t[|d|] == ',' && t[|d| + 1..] == " " + (alpha + ")");
    SpaceOver(alpha + ")");
    RunOver(alpha, ")", IsDigitOrDot);
  }

  /** A run of characters satisfying `p`, followed by one that does not,
      has exactly the run's length. */
  lemma {:induction false} RunOver(t: string, r: string, p: char -> bool)
    requires forall k | 0 <= k < |t| :: p(t[k])
    requires |r| > 0 && !p(r[0])
    ensures RunLength(t + r, p) == |t|
  {
    if |t| > 0 {
      assert (t + r)[1..] == t[1..] + r;
      RunOver(t[1..], r, p);
    }
  }
}
