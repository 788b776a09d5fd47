/**
 This module models the JavaScript string primitives the substitution engine
 relies on: `toLowerCase`, `trim`, `startsWith` and the regular-expression
 test `/[a-zA-Z0-9]/`. Strings are sequences of characters; lowercasing is
 the length-preserving ASCII fold.
 */
module JsString {

  predicate IsAsciiUpper(c: char) {
    'A' <= c <= 'Z'
  }

  predicate IsAsciiLower(c: char) {
    'a' <= c <= 'z'
  }

  predicate IsAsciiDigit(c: char) {
    '0' <= c <= '9'
  }

  /** The character class `[a-zA-Z0-9]`. */
  predicate IsAsciiAlnum(c: char) {
    IsAsciiUpper(c) || IsAsciiLower(c) || IsAsciiDigit(c)
  }

  /** `/[a-zA-Z0-9]/.test(s)`: some character of `s` is an ASCII letter or digit. */
  predicate HasAsciiAlnum(s: string) {
    exists i :: 0 <= i < |s| && IsAsciiAlnum(s[i])
  }

  /** True iff `s` holds an ASCII upper-case letter. */
  predicate HasAsciiUpper(s: string) {
    exists i :: 0 <= i < |s| && IsAsciiUpper(s[i])
  }

  /** Lower-casing of one character, restricted to the ASCII letters. */
  function ToLowerChar(c: char): (d: char)
    ensures !IsAsciiUpper(d)
    ensures IsAsciiUpper(c) ==> IsAsciiLower(d)
    ensures !IsAsciiUpper(c) ==> d == c
    ensures IsAsciiAlnum(d) <==> IsAsciiAlnum(c)
  {
    if IsAsciiUpper(c) then (c as int - 'A' as int + 'a' as int) as char else c
  }

  /** `s.toLowerCase()`, one character at a time; the length is kept. */
  function ToLowerCase(s: string): (r: string)
    ensures |r| == |s|
  {
    if |s| == 0 then "" else [ToLowerChar(s[0])] + ToLowerCase(s[1..])
  }

  /** `ToLowerCase` lower-cases each character in place. */
  lemma {:induction false} ToLowerCaseAt(s: string, i: nat)
    requires i < |s|
    ensures ToLowerCase(s)[i] == ToLowerChar(s[i])
    decreases |s|
  {
    if i > 0 {
      ToLowerCaseAt(s[1..], i - 1);
    }
  }

  /** `s.startsWith(prefix)`. */
  predicate StartsWith(s: string, prefix: string) {
    |prefix| <= |s| && s[..|prefix|] == prefix
  }

  /** Lower-casing commutes with concatenation. */
  lemma {:induction false} ToLowerCaseConcat(a: string, b: string)
    ensures ToLowerCase(a + b) == ToLowerCase(a) + ToLowerCase(b)
    decreases |a|
  {
    if |a| == 0 {
      assert a + b == b;
    } else {
      var ab := a + b;
      assert ab[0] == a[0] && ab[1..] == a[1..] + b;
      ToLowerCaseConcat(a[1..], b);
      calc {
        ToLowerCase(ab);
        [ToLowerChar(a[0])] + ToLowerCase(a[1..] + b);
        [ToLowerChar(a[0])] + (ToLowerCase(a[1..]) + ToLowerCase(b));
        ([ToLowerChar(a[0])] + ToLowerCase(a[1..])) + ToLowerCase(b);
      }
    }
  }

  /** Lower-casing commutes with taking a prefix or a suffix. */
  lemma ToLowerCaseSlices(s: string, n: nat)
    requires n <= |s|
    ensures ToLowerCase(s[..n]) == ToLowerCase(s)[..n]
    ensures ToLowerCase(s[n..]) == ToLowerCase(s)[n..]
  {
    assert s == s[..n] + s[n..];
    ToLowerCaseConcat(s[..n], s[n..]);
  }

  /** A lower-cased string holds no ASCII upper-case letter. */
  lemma {:induction false} LowerCaseHasNoUpper(s: string)
    ensures !HasAsciiUpper(ToLowerCase(s))
  {
    forall i | 0 <= i < |s|
      ensures !IsAsciiUpper(ToLowerCase(s)[i])
    {
      ToLowerCaseAt(s, i);
    }
  }

  /** A lower-cased string holds no ASCII upper-case letter, so it cannot
      start with a string that holds one. */
  lemma LowerCaseNeverStartsWithUpper(s: string, key: string)
    requires HasAsciiUpper(key)
    ensures !StartsWith(ToLowerCase(s), key)
  {
    var i :| 0 <= i < |key| && IsAsciiUpper(key[i]);
    if |key| <= |s| {
      ToLowerCaseAt(s, i);
      assert ToLowerCase(s)[..|key|][i] != key[i];
    }
  }

  /** The WhiteSpace and LineTerminator code points of ECMA-262, which
      `String.prototype.trim` strips from both ends. The space separators are
      those of Unicode general category Zs. */
  predicate IsJsWhitespace(c: char) {
    || c == '\t' || c == '\U{000B}' || c == '\U{000C}' || c == ' '
    || c == '\U{00A0}' || c == '\U{FEFF}' || c == '\U{1680}'
    || ('\U{2000}' <= c <= '\U{200A}')
    || c == '\U{202F}' || c == '\U{205F}' || c == '\U{3000}'
    || c == '\n' || c == '\r' || c == '\U{2028}' || c == '\U{2029}'
  }

  /** Every character of `s` is white space (vacuously so for ""). */
  predicate AllWhitespace(s: string) {
    forall i :: 0 <= i < |s| ==> IsJsWhitespace(s[i])
  }

  /** `s` without its leading white space. */
  function TrimStart(s: string): (r: string)
    ensures |r| <= |s| && r == s[|s| - |r|..]
    ensures AllWhitespace(s[..|s| - |r|])
    ensures |r| > 0 ==> !IsJsWhitespace(r[0])
    decreases |s|
  {
    if |s| > 0 && IsJsWhitespace(s[0]) then TrimStart(s[1..]) else s
  }

  /** `s` without its trailing white space. */
  function TrimEnd(s: string): (r: string)
    ensures |r| <= |s| && r == s[..|r|]
    ensures AllWhitespace(s[|r|..])
    ensures |r| > 0 ==> !IsJsWhitespace(r[|r| - 1])
    decreases |s|
  {
    if |s| > 0 && IsJsWhitespace(s[|s| - 1]) then TrimEnd(s[..|s| - 1]) else s
  }

  /** `r` occurs in `s` at `i`, with only white space before and after it. */
  predicate Framed(s: string, i: int, r: string) {
    && 0 <= i <= |s| - |r|
    && r == s[i..i + |r|]
    && AllWhitespace(s[..i])
    && AllWhitespace(s[i + |r|..])
  }

  /** `s.trim()`: `s` with its leading and trailing white space removed. The
      result is a slice of `s` framed by white space on both sides, and it is
      empty exactly when `s` is all white space; otherwise it neither starts nor
      ends with white space, so no more could be stripped. */
  function Trim(s: string): (r: string)
    ensures exists i :: Framed(s, i, r)
    ensures |r| == 0 <==> AllWhitespace(s)
    ensures |r| > 0 ==> !IsJsWhitespace(r[0]) && !IsJsWhitespace(r[|r| - 1])
    ensures |r| <= |s|
  {
    var t := TrimStart(s);
    var r := TrimEnd(t);
    TrimFrame(s, t, r);
    r
  }

  /** Stripping white space first from the front of `s`, giving `t`, then from
      the back of `t`, giving `r`, leaves `r` as a slice of `s` framed by white
      space, which is empty only when `s` is all white space. */
  lemma TrimFrame(s: string, t: string, r: string)
    requires |t| <= |s| && t == s[|s| - |t|..] && AllWhitespace(s[..|s| - |t|])
    requires |r| <= |t| && r == t[..|r|] && AllWhitespace(t[|r|..])
    requires |r| > 0 ==> !IsJsWhitespace(r[0])
    ensures Framed(s, |s| - |t|, r)
    ensures |r| == 0 <==> AllWhitespace(s)
  {
    var i := |s| - |t|;
    if |r| > 0 {
      assert s[i] == r[0];
    }
    assert s == s[..i] + t;
    assert s[i + |r|..] == t[|r|..];
  }
}
