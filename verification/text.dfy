/** Character classes, integer rendering (`Number.prototype.toString(radix)`,
    template-literal `${n}`), integer parsing (`parseInt`), ASCII lower-casing,
    substring search and `String.prototype.split` as the plugin uses them.
    Strings are sequences of characters. */
module Text {
  import opened Wrappers

  /** The characters JavaScript counts as white space: `\s` in a regular
      expression, and the leading white space that `parseInt` skips. */
  predicate IsJsSpace(c: char) {
    || c == ' ' || c == '\t' || c == '\n' || c == '\r' || c == '\U{0B}' || c == '\U{0C}'
    || c == '\U{A0}' || c == '\U{1680}' || ('\U{2000}' <= c <= '\U{200A}')
    || c == '\U{2028}' || c == '\U{2029}' || c == '\U{202F}' || c == '\U{205F}'
    || c == '\U{3000}' || c == '\U{FEFF}'
  }

  predicate IsDecimalDigit(c: char) {
    '0' <= c <= '9'
  }

  /** `[a-f\d]` under the case-insensitive flag */
  predicate IsHexDigit(c: char) {
    IsDecimalDigit(c) || 'a' <= c <= 'f' || 'A' <= c <= 'F'
  }

  /** The two radixes the plugin parses and renders integers in. */
  type Radix = r: nat | r == 10 || r == 16 witness 10

  predicate IsDigitIn(c: char, radix: Radix) {
    if radix == 10 then IsDecimalDigit(c) else IsHexDigit(c)
  }

  predicate AllDigitsIn(s: string, radix: Radix) {
    forall i :: 0 <= i < |s| ==> IsDigitIn(s[i], radix)
  }

  function DigitValue(c: char): (d: nat)
    requires IsHexDigit(c)
    ensures d < 16
    ensures IsDecimalDigit(c) <==> d < 10
  {
    if IsDecimalDigit(c) then c as int - '0' as int
    else if 'a' <= c <= 'f' then c as int - 'a' as int + 10
    else c as int - 'A' as int + 10
  }

  /** The lower-case digit `toString(16)` writes for `d`. */
  function DigitChar(d: nat): (c: char)
    requires d < 16
    ensures IsHexDigit(c) && DigitValue(c) == d
    ensures !('A' <= c <= 'Z')
  {
    if d < 10 then ('0' as int + d) as char else ('a' as int + d - 10) as char
  }

  /** The value of a non-empty or empty run of digits, most significant first. */
  function DigitsValue(s: string, radix: Radix): nat
    requires AllDigitsIn(s, radix)
  {
    if |s| == 0 then 0 else Shift(DigitsValue(s[..|s| - 1], radix), radix) + DigitValue(s[|s| - 1])
  }

  /** `v * radix`, written per radix so that the arithmetic stays linear. */
  function Shift(v: nat, radix: Radix): nat {
    if radix == 10 then 10 * v else 16 * v
  }

  /** `n / radix` and `n % radix`, written per radix for the same reason. */
  function High(n: nat, radix: Radix): nat {
    if radix == 10 then n / 10 else n / 16
  }

  function Low(n: nat, radix: Radix): (d: nat)
    ensures d < radix
    ensures n == Shift(High(n, radix), radix) + d
  {
    if radix == 10 then n % 10 else n % 16
  }

  /** `n.toString(radix)` for a natural number: the shortest digit string, lower case. */
  function NatDigits(n: nat, radix: Radix): string {
    if n < radix then [DigitChar(n)] else NatDigits(High(n, radix), radix) + [DigitChar(Low(n, radix))]
  }

  /** The rendering of `n` is a non-empty run of lower-case digits whose
      value is `n`, with no leading zero, one digit long exactly when `n`
      is below the radix. */
  lemma {:induction false} NatDigitsSpec(n: nat, radix: Radix)
    ensures var s := NatDigits(n, radix);
            && 1 <= |s|
            && AllDigitsIn(s, radix)
            && DigitsValue(s, radix) == n
            && (s[0] == '0' ==> n == 0 && |s| == 1)
            && (forall i :: 0 <= i < |s| ==> !('A' <= s[i] <= 'Z'))
            && (n < radix <==> |s| == 1)
    decreases n
  {
    if n >= radix {
      var high := NatDigits(High(n, radix), radix);
      NatDigitsSpec(High(n, radix), radix);
      var s := high + [DigitChar(Low(n, radix))];
      assert s[..|s| - 1] == high;
    }
  }

  /** `n.toString(radix)` for an integer, and `${n}` when the radix is 10. */
  function IntToString(n: int, radix: Radix): string {
    if n < 0 then "-" + NatDigits(-n, radix) else NatDigits(n, radix)
  }

  function Decimal(n: int): string {
    IntToString(n, 10)
  }

  /** A decimal rendering holds only digits and perhaps a leading minus sign. */
  lemma DecimalChars(n: int)
    ensures forall c | c in Decimal(n) :: c == '-' || IsDecimalDigit(c)
  {
    var m := if n < 0 then -n else n;
    NatDigitsSpec(m, 10);
    var d := NatDigits(m, 10);
    if n < 0 {
      assert Decimal(n) == "-" + d;
    }
  }

  /** What is left of `s` after its leading white space. */
  function SkipSpace(s: string): (t: string)
    ensures |t| <= |s| && t == s[|s| - |t|..]
    ensures |t| == 0 || !IsJsSpace(t[0])
    ensures forall i :: 0 <= i < |s| - |t| ==> IsJsSpace(s[i])
  {
    if |s| > 0 && IsJsSpace(s[0]) then SkipSpace(s[1..]) else s
  }

  /** The length of the longest prefix of `s` made of digits of `radix`. */
  function DigitPrefixLength(s: string, radix: Radix): (k: nat)
    ensures k <= |s|
    ensures AllDigitsIn(s[..k], radix)
    ensures k == |s| || !IsDigitIn(s[k], radix)
  {
    if |s| == 0 || !IsDigitIn(s[0], radix) then 0
    else
      var k := 1 + DigitPrefixLength(s[1..], radix);
      assert s[..k] == [s[0]] + s[1..][..k - 1];
      k
  }

  /** `parseInt(s, radix)`: leading white space is skipped, then an optional
      sign, then (radix 16 only) an optional `0x`/`0X`; the longest run of
      digits that follows is the value, and None stands for NaN when that
      run is empty. Anything after the run is ignored. */
  function ParseInt(s: string, radix: Radix): Option<int> {
    var t := SkipSpace(s);
    var negative := |t| > 0 && t[0] == '-';
    match LeadingValue(StripHexPrefix(StripSign(t), radix), radix)
    case None => None
    case Some(m) => Some(if negative then -(m as int) else m)
  }

  function StripSign(t: string): string {
    if |t| > 0 && (t[0] == '-' || t[0] == '+') then t[1..] else t
  }

  function StripHexPrefix(u: string, radix: Radix): string {
    if radix == 16 && |u| >= 2 && u[0] == '0' && (u[1] == 'x' || u[1] == 'X') then u[2..] else u
  }

  /** The value of the longest digit run at the start of `w`, if it is not empty. */
  function LeadingValue(w: string, radix: Radix): Option<nat> {
    var k := DigitPrefixLength(w, radix);
    if k == 0 then None else Some(DigitsValue(w[..k], radix))
  }

  /** A run of digits followed by anything that does not continue the run
      parses to the run's value: `parseInt("500px", 10)` is 500. */
  lemma ParseIntOfDigits(d: string, rest: string, radix: Radix)
    requires |d| > 0 && AllDigitsIn(d, radix)
    requires |rest| == 0 || !IsDigitIn(rest[0], radix)
    requires radix == 16 && d == "0" && |rest| > 0 ==> rest[0] != 'x' && rest[0] != 'X'
    ensures ParseInt(d + rest, radix) == Some(DigitsValue(d, radix))
  {
    var s := d + rest;
    assert s[0] == d[0];
    DigitIsNotSpace(d[0], radix);
    assert SkipSpace(s) == s;
    assert StripSign(s) == s;
    assert StripHexPrefix(s, radix) == s by {
      if |s| >= 2 && |d| >= 2 {
        assert s[1] == d[1] && IsDigitIn(d[1], radix);
      }
    }
    DigitPrefixOfDigits(d, rest, radix);
    assert s[..|d|] == d;
  }

  lemma {:induction false} DigitPrefixOfDigits(d: string, rest: string, radix: Radix)
    requires AllDigitsIn(d, radix)
    requires |rest| == 0 || !IsDigitIn(rest[0], radix)
    ensures DigitPrefixLength(d + rest, radix) == |d|
    decreases |d|
  {
    if |d| > 0 {
      assert (d + rest)[1..] == d[1..] + rest;
      DigitPrefixOfDigits(d[1..], rest, radix);
    }
  }

  lemma DigitIsNotSpace(c: char, radix: Radix)
    requires IsDigitIn(c, radix)
    ensures !IsJsSpace(c) && c != '-' && c != '+'
  {
  }

  /** Rendering an integer and parsing it back gives the integer. */
  lemma ParseIntOfIntToString(n: int, radix: Radix)
    ensures ParseInt(IntToString(n, radix), radix) == Some(n)
  {
    if n < 0 {
      ParseIntOfNegative(n, radix);
    } else {
      ParseIntOfNatural(n, radix);
    }
  }

  lemma {:induction false} ParseIntOfNegative(n: int, radix: Radix)
    requires n < 0
    ensures ParseInt(IntToString(n, radix), radix) == Some(n)
  {
    NatDigitsSpec(-n, radix);
    ParseIntOfMinusDigits(NatDigits(-n, radix), radix, -n);
  }

  /** A minus sign and a run of digits parse to the negated value of the run. */
  lemma ParseIntOfMinusDigits(d: string, radix: Radix, v: nat)
    requires |d| > 0 && AllDigitsIn(d, radix) && DigitsValue(d, radix) == v
    ensures ParseInt("-" + d, radix) == Some(-(v as int))
  {
    LeadingValueOfDigits(d, radix);
    ParseIntOfSignedDigits(d, radix, v);
  }

  lemma ParseIntOfNatural(n: int, radix: Radix)
    requires 0 <= n
    ensures ParseInt(IntToString(n, radix), radix) == Some(n)
  {
    NatDigitsSpec(n, radix);
    ParseIntOfDigitRun(NatDigits(n, radix), radix);
  }

  /** A string made only of digits parses to their value. */
  lemma ParseIntOfDigitRun(d: string, radix: Radix)
    requires |d| > 0 && AllDigitsIn(d, radix)
    ensures ParseInt(d, radix) == Some(DigitsValue(d, radix))
  {
    assert d + "" == d;
    ParseIntOfDigits(d, "", radix);
  }

  lemma ParseIntOfSignedDigits(d: string, radix: Radix, v: nat)
    requires |d| > 0 && AllDigitsIn(d, radix)
    requires LeadingValue(StripHexPrefix(d, radix), radix) == Some(v)
    ensures ParseInt("-" + d, radix) == Some(-(v as int))
  {
    var s := "-" + d;
    assert s[0] == '-' && s[1..] == d;
    NoLeadingSpace(s);
  }

  lemma NoLeadingSpace(s: string)
    requires |s| > 0 && !IsJsSpace(s[0])
    ensures SkipSpace(s) == s
  {
  }

  lemma LeadingValueOfDigits(d: string, radix: Radix)
    requires |d| > 0 && AllDigitsIn(d, radix)
    ensures StripHexPrefix(d, radix) == d
    ensures LeadingValue(d, radix) == Some(DigitsValue(d, radix))
  {
    assert |d| < 2 || IsDigitIn(d[1], radix);
    DigitPrefixOfDigits(d, "", radix);
    assert d + "" == d;
    assert d[..|d|] == d;
  }

  /** A string with no digit in it never parses: `parseInt` yields NaN. */
  lemma ParseIntNeedsDigit(s: string, radix: Radix)
    requires forall i :: 0 <= i < |s| ==> !IsDigitIn(s[i], radix)
    ensures ParseInt(s, radix) == None
  {
    var t := SkipSpace(s);
    var u := StripSign(t);
    var w := StripHexPrefix(u, radix);
    assert w == s[|s| - |w|..];
    assert |w| == 0 || w[0] == s[|s| - |w|];
    assert DigitPrefixLength(w, radix) == 0;
  }

  /** ASCII lower-casing of one character. */
  function LowerChar(c: char): char {
    if 'A' <= c <= 'Z' then (c as int + 32) as char else c
  }

  /** Lower-cases the ASCII letters of `s` and keeps every other character. */
  function LowerAscii(s: string): (t: string)
    ensures |t| == |s|
    ensures forall i :: 0 <= i < |s| ==> t[i] == LowerChar(s[i])
  {
    seq(|s|, i requires 0 <= i < |s| => LowerChar(s[i]))
  }

  /** `s.includes(p)` */
  predicate Contains(s: string, p: string) {
    exists i | 0 <= i <= |s| - |p| :: OccursAt(s, p, i)
  }

  predicate OccursAt(s: string, p: string, i: int) {
    0 <= i <= |s| - |p| && s[i..i + |p|] == p
  }

  /** `s.split(sep)` for a one-character separator: the pieces between
      separators, computed from the end of the string. */
  function Split(s: string, sep: char): (parts: seq<string>)
    ensures |parts| >= 1
    ensures forall i :: 0 <= i < |parts| ==> sep !in parts[i]
    ensures |parts| == 1 <==> sep !in s
    ensures Join(parts, sep) == s
  {
    if |s| == 0 then [""]
    else
      var t := s[..|s| - 1];
      var c := s[|s| - 1];
      var init := Split(t, sep);
      assert s == t + [c];
      if c == sep then
        SplitNewPiece(t, sep, init);
        init + [""]
      else
        SplitLongerPiece(t, c, sep, init);
        init[..|init| - 1] + [init[|init| - 1] + [c]]
  }

  /** A separator closes the last piece and opens an empty one. */
  lemma SplitNewPiece(t: string, sep: char, init: seq<string>)
    requires |init| >= 1 && (forall i :: 0 <= i < |init| ==> sep !in init[i])
    requires Join(init, sep) == t
    ensures var parts := init + [""];
            && |parts| >= 2
            && (forall i :: 0 <= i < |parts| ==> sep !in parts[i])
            && sep in t + [sep]
            && Join(parts, sep) == t + [sep]
  {
    var parts := init + [""];
    assert parts[..|parts| - 1] == init;
    assert (t + [sep])[|t|] == sep;
  }

  /** Any other character extends the last piece. */
  lemma SplitLongerPiece(t: string, c: char, sep: char, init: seq<string>)
    requires c != sep
    requires |init| >= 1 && (forall i :: 0 <= i < |init| ==> sep !in init[i])
    requires |init| == 1 <==> sep !in t
    requires Join(init, sep) == t
    ensures var parts := init[..|init| - 1] + [init[|init| - 1] + [c]];
            && |parts| == |init|
            && (forall i :: 0 <= i < |parts| ==> sep !in parts[i])
            && (sep in t + [c] <==> sep in t)
            && Join(parts, sep) == t + [c]
  {
    var parts := init[..|init| - 1] + [init[|init| - 1] + [c]];
    assert forall i :: 0 <= i < |parts| - 1 ==> parts[i] == init[i];
    assert forall x :: x in t + [c] <==> x in t || x == c;
    if |init| > 1 {
      assert parts[..|parts| - 1] == init[..|init| - 1];
    }
  }

  /** `parts.join(sep)`, the inverse of `Split`. */
  function Join(parts: seq<string>, sep: char): string
    requires |parts| >= 1
  {
    if |parts| == 1 then parts[0]
    else Join(parts[..|parts| - 1], sep) + [sep] + parts[|parts| - 1]
  }

  /** A separator-free list of pieces is exactly what splitting its join gives. */
  lemma {:induction false} SplitJoin(parts: seq<string>, sep: char)
    requires |parts| >= 1
    requires forall i :: 0 <= i < |parts| ==> sep !in parts[i]
    ensures Split(Join(parts, sep), sep) == parts
    decreases |parts|, |parts[|parts| - 1]|
  {
    var last := parts[|parts| - 1];
    var init := parts[..|parts| - 1];
    if |parts| == 1 {
      SplitOfSeparatorFree(last, sep);
    } else if |last| == 0 {
      InitSeparatorFree(parts, sep);
      SplitJoin(init, sep);
      ExtendEmpty(parts, sep);
    } else {
      var shorter := init + [last[..|last| - 1]];
      ShorterSeparatorFree(parts, sep);
      SplitJoin(shorter, sep);
      ExtendLast(parts, sep);
    }
  }

  /** Dropping the last piece keeps the rest free of the separator. */
  lemma InitSeparatorFree(parts: seq<string>, sep: char)
    requires |parts| >= 2
    requires forall i :: 0 <= i < |parts| ==> sep !in parts[i]
    ensures var init := parts[..|parts| - 1];
            |init| >= 1 && forall i :: 0 <= i < |init| ==> sep !in init[i]
  {
  }

  /** The step of SplitJoin for an empty last piece. */
  lemma ExtendEmpty(parts: seq<string>, sep: char)
    requires |parts| >= 2 && parts[|parts| - 1] == ""
    requires Split(Join(parts[..|parts| - 1], sep), sep) == parts[..|parts| - 1]
    ensures Split(Join(parts, sep), sep) == parts
  {
    var init := parts[..|parts| - 1];
    assert Join(parts, sep) == Join(init, sep) + [sep];
    SplitAppend(Join(init, sep), sep, sep);
    Unsnoc(parts);
  }

  /** The step of SplitJoin for a non-empty last piece. */
  lemma ExtendLast(parts: seq<string>, sep: char)
    requires |parts| >= 2 && |parts[|parts| - 1]| > 0
    requires parts[|parts| - 1][|parts[|parts| - 1]| - 1] != sep
    requires var last := parts[|parts| - 1];
             var shorter := parts[..|parts| - 1] + [last[..|last| - 1]];
             Split(Join(shorter, sep), sep) == shorter
    ensures Split(Join(parts, sep), sep) == parts
  {
    var last := parts[|parts| - 1];
    var c := last[|last| - 1];
    var init := parts[..|parts| - 1];
    var shorter := init + [last[..|last| - 1]];
    ShorterJoin(parts, sep);
    SplitAppend(Join(shorter, sep), c, sep);
    Snoc(init, last[..|last| - 1]);
    Unsnoc(last);
    Unsnoc(parts);
  }

  lemma Snoc<T>(init: seq<T>, x: T)
    ensures (init + [x])[..|init|] == init && (init + [x])[|init|] == x
  {
  }

  lemma Unsnoc<T>(s: seq<T>)
    requires |s| > 0
    ensures s[..|s| - 1] + [s[|s| - 1]] == s
  {
  }

  /** Joining, then appending the last piece's final character, is joining
      with that character kept. */
  lemma ShorterJoin(parts: seq<string>, sep: char)
    requires |parts| >= 2 && |parts[|parts| - 1]| > 0
    ensures var last := parts[|parts| - 1];
            var shorter := parts[..|parts| - 1] + [last[..|last| - 1]];
            Join(parts, sep) == Join(shorter, sep) + [last[|last| - 1]]
  {
    var last := parts[|parts| - 1];
    var shorter := parts[..|parts| - 1] + [last[..|last| - 1]];
    assert shorter[..|shorter| - 1] == parts[..|parts| - 1];
    assert last == last[..|last| - 1] + [last[|last| - 1]];
  }

  /** Dropping the last character of the last piece keeps every piece
      free of the separator. */
  lemma ShorterSeparatorFree(parts: seq<string>, sep: char)
    requires |parts| >= 1 && |parts[|parts| - 1]| > 0
    requires forall i :: 0 <= i < |parts| ==> sep !in parts[i]
    ensures var last := parts[|parts| - 1];
            var shorter := parts[..|parts| - 1] + [last[..|last| - 1]];
            && |shorter| == |parts| && |shorter[|shorter| - 1]| < |last|
            && (forall i :: 0 <= i < |shorter| ==> sep !in shorter[i])
            && last[|last| - 1] != sep
  {
    var last := parts[|parts| - 1];
    assert last[|last| - 1] in last;
    assert forall x :: x in last[..|last| - 1] ==> x in last;
  }

  /** Splitting one more character either opens a new empty piece (the
      separator) or extends the last piece. */
  lemma SplitAppend(s: string, c: char, sep: char)
    ensures var init := Split(s, sep);
            Split(s + [c], sep) == if c == sep then init + [""] else init[..|init| - 1] + [init[|init| - 1] + [c]]
  {
    var t := s + [c];
    assert t[..|t| - 1] == s && t[|t| - 1] == c;
  }

  lemma {:induction false} SplitOfSeparatorFree(s: string, sep: char)
    requires sep !in s
    ensures Split(s, sep) == [s]
  {
    var parts := Split(s, sep);
    assert |parts| == 1;
    assert Join(parts, sep) == parts[0];
  }
}
