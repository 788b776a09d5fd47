/**
 Properties of the rewriter: longest match with ties broken by match order,
 passthrough of unmatched characters, verbatim replacement whatever the case
 of the matched text, keys that can never match, and the empty-key hazard.
 */
module RewriteProperties {
  import opened Options
  import opened JsString
  import opened KeyOrder
  import opened Rewriter

  /** Over keys sorted by descending length, the first match is a longest
      match, and among matching keys of that length it is the earliest. */
  lemma LongestMatch(keys: seq<string>, lowered: string, i: nat)
    requires SortedByLengthDesc(keys)
    requires FirstMatch(keys, lowered) == Some(i)
    ensures forall j :: 0 <= j < |keys| && StartsWith(lowered, keys[j]) ==>
      |keys[j]| < |keys[i]| || (|keys[j]| == |keys[i]| && i <= j)
  {
  }

  /** Conversely, when key `i` is a longest key the lower-cased text starts
      with, and the earliest such key, the rewrite replaces it and carries on
      after it in the original text. */
  lemma RewriteConsumesLongestMatch(keys: seq<string>, dict: Dict, s: string, i: nat)
    requires ValidKeys(keys, dict) && SortedByLengthDesc(keys)
    requires i < |keys| && StartsWith(ToLowerCase(s), keys[i])
    requires forall j :: 0 <= j < |keys| && StartsWith(ToLowerCase(s), keys[j]) ==>
      |keys[j]| < |keys[i]| || (|keys[j]| == |keys[i]| && i <= j)
    ensures |keys[i]| <= |s|
    ensures Rewrite(keys, dict, s) == dict[keys[i]] + Rewrite(keys, dict, s[|keys[i]|..])
  {
    FirstMatchIsFirstPrefix(keys, ToLowerCase(s), i);
    RewriteAtMatch(keys, dict, s, i);
  }

  /** Where no key matches, the first character is copied with its case
      and the rest is rewritten. */
  lemma RewritePassthrough(keys: seq<string>, dict: Dict, s: string)
    requires ValidKeys(keys, dict) && |s| > 0
    requires NoMatchAt(keys, s)
    ensures Rewrite(keys, dict, s) == [s[0]] + Rewrite(keys, dict, s[1..])
  {
    RewriteAtNoMatch(keys, dict, s);
  }

  /** No key matches at any position of `s`: not at its start, and not at
      any position of its tail. */
  predicate NoKeyOccurs(keys: seq<string>, s: string)
    decreases |s|
  {
    NoMatchAt(keys, s) && (|s| == 0 || NoKeyOccurs(keys, s[1..]))
  }

  /** Text in which no key occurs is returned unchanged. */
  lemma {:induction false} RewriteWithoutOccurrences(keys: seq<string>, dict: Dict, s: string)
    requires ValidKeys(keys, dict)
    requires NoKeyOccurs(keys, s)
    ensures Rewrite(keys, dict, s) == s
    decreases |s|
  {
    if |s| > 0 {
      RewritePassthrough(keys, dict, s);
      RewriteWithoutOccurrences(keys, dict, s[1..]);
      assert s == [s[0]] + s[1..];
    }
  }

  /** With an empty dictionary the rewrite is the identity. */
  lemma {:induction false} RewriteEmptyDictionary(s: string)
    ensures Rewrite([], map[], s) == s
  {
    NothingOccursWithoutKeys(s);
    RewriteWithoutOccurrences([], map[], s);
  }

  /** With no keys, no key occurs. */
  lemma {:induction false} NothingOccursWithoutKeys(s: string)
    ensures NoKeyOccurs([], s)
    decreases |s|
  {
    if |s| > 0 {
      NothingOccursWithoutKeys(s[1..]);
    }
  }

  /** A key holding an ASCII upper-case letter is never taken: the text it is
      compared with is lower-cased, the key is not. */
  lemma UppercaseKeyNeverMatches(keys: seq<string>, dict: Dict, s: string)
    requires ValidKeys(keys, dict) && |s| > 0
    ensures StepAt(keys, dict, s).Replace? ==> !HasAsciiUpper(StepAt(keys, dict, s).key)
  {
    var st := StepAt(keys, dict, s);
    StepAtMeaning(keys, dict, s);
    if st.Replace? {
      LowerCaseHasNoUpper(st.span);
    }
  }

  /** The keys that can match at all: those without an ASCII upper-case letter. */
  function Matchable(keys: seq<string>): (r: seq<string>)
    ensures forall k :: k in r <==> k in keys && !HasAsciiUpper(k)
  {
    if |keys| == 0 then []
    else (if HasAsciiUpper(keys[0]) then [] else [keys[0]]) + Matchable(keys[1..])
  }

  /** Dropping the keys that hold upper-case letters does not change which key
      is found at any position. */
  lemma {:induction false} FirstMatchIgnoresUnmatchable(keys: seq<string>, s: string)
    ensures KeyAt(keys, FirstMatch(keys, ToLowerCase(s)))
         == KeyAt(Matchable(keys), FirstMatch(Matchable(keys), ToLowerCase(s)))
    decreases |keys|
  {
    if |keys| > 0 {
      var t := ToLowerCase(s);
      var m := Matchable(keys);
      FirstMatchIgnoresUnmatchable(keys[1..], s);
      KeyAtUnfold(keys, t);
      if HasAsciiUpper(keys[0]) {
        LowerCaseNeverStartsWithUpper(s, keys[0]);
        assert m == Matchable(keys[1..]);
      } else {
        assert m == [keys[0]] + Matchable(keys[1..]);
        assert m[0] == keys[0] && m[1..] == Matchable(keys[1..]);
        KeyAtUnfold(m, t);
      }
    }
  }

  /** The key at an optional index, if any. */
  function KeyAt(keys: seq<string>, i: Option<nat>): Option<string> {
    match i
    case Some(n) => if n < |keys| then Some(keys[n]) else None
    case None => None
  }

  /** The key found in a non-empty key list: the first one if the text starts
      with it, otherwise the key found in the rest. */
  lemma KeyAtUnfold(keys: seq<string>, lowered: string)
    requires |keys| > 0
    ensures KeyAt(keys, FirstMatch(keys, lowered)) ==
      if StartsWith(lowered, keys[0]) then Some(keys[0])
      else KeyAt(keys[1..], FirstMatch(keys[1..], lowered))
  {
  }

  /** Keys holding upper-case letters are dead: the rewrite is the same
      without them. */
  lemma {:induction false} RewriteIgnoresUnmatchable(keys: seq<string>, dict: Dict, s: string)
    requires ValidKeys(keys, dict)
    ensures ValidKeys(Matchable(keys), dict)
    ensures Rewrite(keys, dict, s) == Rewrite(Matchable(keys), dict, s)
    decreases |s|
  {
    var m := Matchable(keys);
    assert forall j :: 0 <= j < |m| ==> m[j] in keys;
    if |s| > 0 {
      FirstMatchIgnoresUnmatchable(keys, s);
      match FirstMatch(keys, ToLowerCase(s))
      case Some(i) =>
        var i' :| FirstMatch(m, ToLowerCase(s)) == Some(i');
        RewriteAtMatch(keys, dict, s, i);
        RewriteAtMatch(m, dict, s, i');
        RewriteIgnoresUnmatchable(keys, dict, s[|keys[i]|..]);
      case None =>
        assert FirstMatch(m, ToLowerCase(s)) == None;
        RewriteAtNoMatch(keys, dict, s);
        RewriteAtNoMatch(m, dict, s);
        RewriteIgnoresUnmatchable(keys, dict, s[1..]);
    }
  }

  /** The replacement is emitted verbatim, whatever the case of the matched
      text: two texts whose first match spans `u` and `v`, which differ only in
      case, rewrite to the same output. */
  lemma ReplacementIgnoresCase(keys: seq<string>, dict: Dict, u: string, v: string, rest: string, i: nat)
    requires ValidKeys(keys, dict)
    requires ToLowerCase(u) == ToLowerCase(v)
    requires |u| > 0 && FirstMatch(keys, ToLowerCase(u + rest)) == Some(i) && |keys[i]| == |u|
    ensures Rewrite(keys, dict, u + rest) == dict[keys[i]] + Rewrite(keys, dict, rest)
    ensures Rewrite(keys, dict, v + rest) == dict[keys[i]] + Rewrite(keys, dict, rest)
  {
    assert |v| == |u| by {
      assert |ToLowerCase(v)| == |ToLowerCase(u)|;
    }
    assert ToLowerCase(v + rest) == ToLowerCase(u + rest) by {
      ToLowerCaseConcat(u, rest);
      ToLowerCaseConcat(v, rest);
    }
    RewriteAtMatch(keys, dict, u + rest, i);
    RewriteAtMatch(keys, dict, v + rest, i);
    assert (u + rest)[|u|..] == rest;
    assert (v + rest)[|v|..] == rest;
  }

  /** Why keys must be non-empty: an empty key matches at every position.
      Wherever no non-empty key matches, it is the key taken, in any order.
      Over a sorted order it sorts last, so conversely it is taken only where
      no non-empty key matches; there the source loop would not advance. */
  lemma EmptyKeyAlwaysMatches(keys: seq<string>, lowered: string, e: nat)
    requires e < |keys| && keys[e] == ""
    ensures FirstMatch(keys, lowered).Some?
    ensures (forall j :: 0 <= j < |keys| && keys[j] != "" ==> !StartsWith(lowered, keys[j]))
      ==> |keys[FirstMatch(keys, lowered).value]| == 0
    ensures SortedByLengthDesc(keys) && |keys[FirstMatch(keys, lowered).value]| == 0
      ==> forall j :: 0 <= j < |keys| && keys[j] != "" ==> !StartsWith(lowered, keys[j])
  {
    assert StartsWith(lowered, keys[e]);
    var i := FirstMatch(keys, lowered).value;
    if SortedByLengthDesc(keys) {
      LongestMatch(keys, lowered, i);
    }
  }
}
