/** Which variables the plugin reads (code.ts:151-162): every colour
    variable, and the number variables whose name, lower-cased, mentions
    one of six typography words. */
module Typography {
  import opened Text

  /** A Figma variable's `resolvedType`. */
  datatype ResolvedType = BOOLEAN | COLOR | FLOAT | STRING

  /** The words code.ts:155-160 look for, in the order it tries them. */
  const TypographyWords: seq<string> := ["font", "text", "size", "line", "spacing", "scale"]

  /** `s.includes(p)`, trying each start position from the left. */
  function Includes(s: string, p: string): (b: bool)
    ensures b <==> Contains(s, p)
  {
    if |p| > |s| then false
    else if s[..|p|] == p then
      assert OccursAt(s, p, 0);
      true
    else
      ContainsStep(s, p);
      Includes(s[1..], p)
  }

  /** An occurrence in `s` is one at its start or one in its tail. */
  lemma ContainsStep(s: string, p: string)
    requires 0 < |s| && |p| <= |s|
    ensures Contains(s, p) <==> s[..|p|] == p || Contains(s[1..], p)
  {
    if Contains(s, p) {
      var i :| 0 <= i <= |s| - |p| && OccursAt(s, p, i);
      if i > 0 {
        assert s[1..][i - 1..i - 1 + |p|] == s[i..i + |p|];
        assert OccursAt(s[1..], p, i - 1);
      }
    }
    if Contains(s[1..], p) {
      var i :| 0 <= i <= |s| - 1 - |p| && OccursAt(s[1..], p, i);
      assert s[1..][i..i + |p|] == s[i + 1..i + 1 + |p|];
      assert OccursAt(s, p, i + 1);
    }
    if s[..|p|] == p {
      assert OccursAt(s, p, 0);
    }
  }

  /** Whether `name` includes any of `words`, tried left to right. */
  function IncludesAny(name: string, words: seq<string>): (b: bool)
    ensures b <==> exists i | 0 <= i < |words| :: Contains(name, words[i])
  {
    if |words| == 0 then false
    else if Includes(name, words[0]) then true
    else
      var b := IncludesAny(name, words[1..]);
      assert forall i | 1 <= i < |words| :: words[i] == words[1..][i - 1];
      b
  }

  /** `isTypographyVariable` */
  function IsTypography(t: ResolvedType, name: string): (b: bool)
    ensures b <==> t == FLOAT && exists i | 0 <= i < |TypographyWords| :: Contains(LowerAscii(name), TypographyWords[i])
  {
    t == FLOAT && IncludesAny(LowerAscii(name), TypographyWords)
  }

  /** `isColorVariable || isTypographyVariable`: whether `readVariables`
      lists the variable. */
  function IsListed(t: ResolvedType, name: string): (b: bool)
    ensures t == COLOR ==> b
    ensures t == BOOLEAN || t == STRING ==> !b
    ensures t == FLOAT ==> (b <==> exists i | 0 <= i < |TypographyWords| :: Contains(LowerAscii(name), TypographyWords[i]))
  {
    t == COLOR || IsTypography(t, name)
  }

  // ----- properties -----

  /** The test ignores the case of ASCII letters in the name. */
  lemma TypographyIgnoresCase(t: ResolvedType, name: string)
    ensures IsTypography(t, LowerAscii(name)) == IsTypography(t, name)
  {
    assert LowerAscii(LowerAscii(name)) == LowerAscii(name);
  }

  /** A number variable named with a typography word anywhere, in any
      case, is listed: `Body/FontSize` is. */
  lemma WordMakesTypography(prefix: string, word: string, suffix: string)
    requires LowerAscii(word) in TypographyWords
    ensures IsTypography(FLOAT, prefix + word + suffix)
  {
    var name := prefix + word + suffix;
    var lower := LowerAscii(name);
    var i := |prefix|;
    assert lower[i..i + |word|] == LowerAscii(word);
    assert OccursAt(lower, LowerAscii(word), i);
    var k :| 0 <= k < |TypographyWords| && TypographyWords[k] == LowerAscii(word);
  }

  /** More text around a typography name keeps it one. */
  lemma TypographyExtends(prefix: string, name: string, suffix: string)
    requires IsTypography(FLOAT, name)
    ensures IsTypography(FLOAT, prefix + name + suffix)
  {
    var lower := LowerAscii(name);
    var k :| 0 <= k < |TypographyWords| && Contains(lower, TypographyWords[k]);
    var w := TypographyWords[k];
    var i :| 0 <= i <= |lower| - |w| && OccursAt(lower, w, i);
    var big := LowerAscii(prefix + name + suffix);
    assert big[|prefix| + i..|prefix| + i + |w|] == lower[i..i + |w|];
    assert OccursAt(big, w, |prefix| + i);
  }
}
