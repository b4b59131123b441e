/** The parts of java.lang.String the booking service relies on: `trim()`
    (behind the @NotBlank check on the service type), `toUpperCase()` (before
    the status enum lookup) and `equalsIgnoreCase` (on the payment status). */
module JavaString {

  /** A character that `String.trim()` strips from either end: any code point
      up to and including U+0020 (space and all control characters). */
  predicate IsTrimmable(c: char) {
    c <= ' '
  }

  /** Every character of `s` would be stripped by `trim()`. */
  predicate AllTrimmable(s: string) {
    forall i :: 0 <= i < |s| ==> IsTrimmable(s[i])
  }

  /** `s` without its longest prefix of trimmable characters. */
  function TrimStart(s: string): (r: string)
    ensures |r| <= |s| && r == s[|s| - |r|..]
    ensures forall i :: 0 <= i < |s| - |r| ==> IsTrimmable(s[i])
    ensures |r| > 0 ==> !IsTrimmable(r[0])
    decreases |s|
  {
    if |s| > 0 && IsTrimmable(s[0]) then TrimStart(s[1..]) else s
  }

  /** `s` without its longest suffix of trimmable characters. */
  function TrimEnd(s: string): (r: string)
    ensures |r| <= |s| && r == s[..|r|]
    ensures forall i :: |r| <= i < |s| ==> IsTrimmable(s[i])
    ensures |r| > 0 ==> !IsTrimmable(r[|r| - 1])
    decreases |s|
  {
    if |s| > 0 && IsTrimmable(s[|s| - 1]) then TrimEnd(s[..|s| - 1]) else s
  }

  /** `String.trim()`: strip trimmable characters from both ends. Nothing is
      left exactly when every character is trimmable, and whatever is left
      starts and ends with a character `trim()` keeps. */
  function Trim(s: string): (r: string)
    ensures r == [] <==> AllTrimmable(s)
    ensures |r| > 0 ==> !IsTrimmable(r[0]) && !IsTrimmable(r[|r| - 1])
  {
    TrimEnd(TrimStart(s))
  }

  /** `Character.toUpperCase` on the characters whose upper case is a basic
      Latin letter: a-z, dotless i (U+0131) and long s (U+017F). Every other
      character is kept: A-Z are their own upper case, and the real upper
      case of any remaining character is never a basic Latin letter. */
  function UpperChar(c: char): char {
    if 'a' <= c <= 'z' then (c as int - 32) as char
    else if c == '\U{0131}' then 'I'
    else if c == '\U{017F}' then 'S'
    else c
  }

  /** `Character.toLowerCase` on the characters whose lower case is a basic
      Latin letter: A-Z, dotted capital I (U+0130) and the Kelvin sign (U+212A). */
  function LowerChar(c: char): char {
    if 'A' <= c <= 'Z' then (c as int + 32) as char
    else if c == '\U{0130}' then 'i'
    else if c == '\U{212A}' then 'k'
    else c
  }

  /** The full upper-case mapping of one character as `String.toUpperCase()`
      applies it: sharp s and the Latin ligatures expand to two or three
      letters, every other character maps as `UpperChar` does. */
  function UpperChars(c: char): (r: seq<char>)
    ensures 1 <= |r| <= 3
  {
    if c == '\U{00DF}' then "SS"
    else if c == '\U{FB00}' then "FF"
    else if c == '\U{FB01}' then "FI"
    else if c == '\U{FB02}' then "FL"
    else if c == '\U{FB03}' then "FFI"
    else if c == '\U{FB04}' then "FFL"
    else if c == '\U{FB05}' || c == '\U{FB06}' then "ST"
    else [UpperChar(c)]
  }

  /** A character's full upper case consists of capitals A-Z exactly for the
      characters of `UpperCasesToCapitals`: no other character can help spell
      an enum constant's name. */
  lemma UpperCharsCapitals(c: char)
    ensures AllCapitals(UpperChars(c)) <==> UpperCasesToCapitals(c)
  {
    var r := UpperChars(c);
    if |r| == 1 {
      var u := UpperChar(c);
      assert r == [u];
      if !UpperCasesToCapitals(c) {
        assert u == c;
      }
      assert r[0] == u;
      assert AllCapitals(r) <==> 'A' <= u <= 'Z';
    }
  }

  /** Every character of `s` is a capital A-Z. */
  predicate AllCapitals(s: string) {
    forall i :: 0 <= i < |s| ==> 'A' <= s[i] <= 'Z'
  }

  /** The characters whose full upper case consists of capitals A-Z only:
      the basic Latin letters, dotless i, long s, sharp s and the Latin
      ligatures U+FB00-U+FB06. */
  predicate UpperCasesToCapitals(c: char) {
    || 'a' <= c <= 'z' || 'A' <= c <= 'Z'
    || c in {'\U{0131}', '\U{017F}', '\U{00DF}', '\U{FB00}', '\U{FB01}', '\U{FB02}',
             '\U{FB03}', '\U{FB04}', '\U{FB05}', '\U{FB06}'}
  }

  /** `String.toUpperCase()` outside the Turkish, Azeri and Lithuanian default
      locales, exact as far as deciding whether the result is a given string of capitals A-Z (such as
      an enum constant's name). Characters outside `UpperCasesToCapitals` are
      kept as they are, whereas Java maps many of them (é to É, say); Java's
      result for them always contains a character outside A-Z, and so does
      the kept character. */
  function ToUpper(s: string): string
    decreases |s|
  {
    if |s| == 0 then [] else UpperChars(s[0]) + ToUpper(s[1..])
  }

  /** Upper-casing distributes over concatenation. */
  lemma {:induction false} ToUpperAppend(a: string, b: string)
    ensures ToUpper(a + b) == ToUpper(a) + ToUpper(b)
    decreases |a|
  {
    if |a| == 0 {
      assert a + b == b;
    } else {
      assert (a + b)[1..] == a[1..] + b;
      ToUpperAppend(a[1..], b);
    }
  }

  /** Upper-casing an already upper-cased character sequence changes nothing. */
  lemma UpperCharsStable(c: char)
    ensures ToUpper(UpperChars(c)) == UpperChars(c)
  {
    var u := UpperChars(c);
    if |u| == 1 {
      assert ToUpper(u) == UpperChars(u[0]) + ToUpper(u[1..]);
    } else {
      UpperCharsCapitals(c);
      ToUpperKeepsCapitals(u);
    }
  }

  /** `toUpperCase()` is idempotent. */
  lemma {:induction false} ToUpperIdempotent(s: string)
    ensures ToUpper(ToUpper(s)) == ToUpper(s)
    decreases |s|
  {
    if |s| > 0 {
      ToUpperAppend(UpperChars(s[0]), ToUpper(s[1..]));
      UpperCharsStable(s[0]);
      ToUpperIdempotent(s[1..]);
    }
  }

  /** A string of capital basic Latin letters is its own upper case. */
  lemma {:induction false} ToUpperKeepsCapitals(s: string)
    requires AllCapitals(s)
    ensures ToUpper(s) == s
    decreases |s|
  {
    if |s| > 0 {
      ToUpperKeepsCapitals(s[1..]);
      assert s == [s[0]] + s[1..];
    }
  }

  /** `Character`-level comparison used by `equalsIgnoreCase`: equal, equal
      after upper-casing, or equal after lower-casing the upper cases. */
  predicate CharEqualsIgnoreCase(a: char, b: char) {
    || a == b
    || UpperChar(a) == UpperChar(b)
    || LowerChar(UpperChar(a)) == LowerChar(UpperChar(b))
  }

  /** `a.equalsIgnoreCase(b)` for a non-null `b`: same length, and every pair
      of characters at the same position equal ignoring case. Exact whenever
      `a` consists of capitals other than I and K (as "SUCCESS" does); for two
      letters outside basic Latin (é and É, say) Java may answer true where
      this answers false. */
  predicate EqualsIgnoreCase(a: string, b: string) {
    |a| == |b| && forall i :: 0 <= i < |a| ==> CharEqualsIgnoreCase(a[i], b[i])
  }
}
