/**
 The rewriter of the substitution engine (`translateEntireString`): a
 left-to-right scan that, at every cursor position, lower-cases the remaining
 text and takes the first key, in match order, that it starts with. The
 matched key's replacement is emitted verbatim and the cursor moves past the
 key; when no key matches, one character is copied unchanged.

 `Rewrite` is the recursive specification; `TranslateEntireString` is the
 loop of the source, proved equal to it.
 */
module Rewriter {
  import opened Options
  import opened JsString
  import opened KeyOrder

  /** The dictionary: key to replacement. */
  type Dict = map<string, string>

  /** The match order may only hold keys of the dictionary, and none of them
      empty: an empty key would match without consuming anything, and the
      scanning loop would never end. */
  predicate ValidKeys(keys: seq<string>, dict: Dict) {
    forall i :: 0 <= i < |keys| ==> keys[i] in dict && |keys[i]| > 0
  }

  /** The index of the first key in `keys` that `lowered` starts with. */
  function FirstMatch(keys: seq<string>, lowered: string): (r: Option<nat>)
    ensures r.Some? ==> r.value < |keys| && StartsWith(lowered, keys[r.value])
    ensures r.Some? ==> forall j {:trigger StartsWith(lowered, keys[j])} :: 0 <= j < r.value ==> !StartsWith(lowered, keys[j])
    ensures r.None? ==> forall j {:trigger StartsWith(lowered, keys[j])} :: 0 <= j < |keys| ==> !StartsWith(lowered, keys[j])
  {
    if |keys| == 0 then None
    else if StartsWith(lowered, keys[0]) then Some(0)
    else match FirstMatch(keys[1..], lowered)
      case None => None
      case Some(i) => Some(i + 1)
  }

  /** No key matches at the start of `s`: the lower-cased `s` starts with none
      of them. */
  predicate NoMatchAt(keys: seq<string>, s: string) {
    forall j :: 0 <= j < |keys| ==> !StartsWith(ToLowerCase(s), keys[j])
  }

  /** One step of the scan: either a key matched, consuming `span` of the
      original text (whatever its case) and emitting `replacement`, or no key
      matched and the character `c` is kept. */
  datatype Step = Replace(key: string, span: string, replacement: string) | Keep(c: char)
  {
    /** The part of the input this step consumes. */
    function Source(): string {
      if Replace? then span else [c]
    }

    /** The part of the output this step produces. */
    function Emitted(): string {
      if Replace? then replacement else [c]
    }
  }

  /** The step taken at the start of `s`. It consumes a non-empty prefix of
      `s`, which is what makes the scan terminate. */
  function StepAt(keys: seq<string>, dict: Dict, s: string): (st: Step)
    requires ValidKeys(keys, dict)
    requires |s| > 0
    ensures 1 <= |st.Source()| <= |s| && st.Source() == s[..|st.Source()|]
  {
    match FirstMatch(keys, ToLowerCase(s))
    case Some(i) => Replace(keys[i], s[..|keys[i]|], dict[keys[i]])
    case None => Keep(s[0])
  }

  /** What a step means: a replacing step consumed text that lower-cases to a
      key of the match order and emits that key's replacement; a step keeps a
      character exactly when no key matches the lower-cased text. */
  lemma StepAtMeaning(keys: seq<string>, dict: Dict, s: string)
    requires ValidKeys(keys, dict) && |s| > 0
    ensures var st := StepAt(keys, dict, s);
      && (st.Replace? ==> st.key in keys && ToLowerCase(st.span) == st.key && st.replacement == dict[st.key])
      && (st.Keep? <==> NoMatchAt(keys, s))
  {
    var st := StepAt(keys, dict, s);
    if st.Replace? {
      var i := FirstMatch(keys, ToLowerCase(s)).value;
      ToLowerCaseSlices(s, |keys[i]|);
    }
  }

  /** The rewritten text: the output of every step, left to right. */
  function Rewrite(keys: seq<string>, dict: Dict, s: string): string
    requires ValidKeys(keys, dict)
    decreases |s|
  {
    if |s| == 0 then ""
    else
      var st := StepAt(keys, dict, s);
      st.Emitted() + Rewrite(keys, dict, s[|st.Source()|..])
  }

  /** The first key that the text starts with is what `FirstMatch` finds. */
  lemma FirstMatchIsFirstPrefix(keys: seq<string>, lowered: string, i: nat)
    requires i < |keys| && StartsWith(lowered, keys[i])
    requires forall j :: 0 <= j < i ==> !StartsWith(lowered, keys[j])
    ensures FirstMatch(keys, lowered) == Some(i)
  {
  }

  /** The rewrite of a non-empty text is what its first step emits followed
      by the rewrite of what that step leaves. */
  lemma RewriteUnfold(keys: seq<string>, dict: Dict, s: string)
    requires ValidKeys(keys, dict) && |s| > 0
    ensures Rewrite(keys, dict, s) ==
      StepAt(keys, dict, s).Emitted() + Rewrite(keys, dict, s[|StepAt(keys, dict, s).Source()|..])
  {
  }

  /** Where key `i` is the first match, the rewrite emits its replacement and
      resumes after it. */
  lemma RewriteAtMatch(keys: seq<string>, dict: Dict, s: string, i: nat)
    requires ValidKeys(keys, dict)
    requires |s| > 0 && FirstMatch(keys, ToLowerCase(s)) == Some(i)
    ensures 0 < |keys[i]| <= |s|
    ensures Rewrite(keys, dict, s) == dict[keys[i]] + Rewrite(keys, dict, s[|keys[i]|..])
  {
    RewriteUnfold(keys, dict, s);
    assert StepAt(keys, dict, s) == Replace(keys[i], s[..|keys[i]|], dict[keys[i]]);
  }

  /** Where no key matches, the rewrite copies one character and resumes
      after it; stated with the `FirstMatch` result the loop's key search
      reports (`RewriteProperties.RewritePassthrough` states it without). */
  lemma RewriteAtNoMatch(keys: seq<string>, dict: Dict, s: string)
    requires ValidKeys(keys, dict)
    requires |s| > 0 && FirstMatch(keys, ToLowerCase(s)) == None
    ensures Rewrite(keys, dict, s) == [s[0]] + Rewrite(keys, dict, s[1..])
  {
    RewriteUnfold(keys, dict, s);
    assert StepAt(keys, dict, s) == Keep(s[0]);
  }

  /** After emitting the replacement of key `i`, the first match at the
      start of `s`, the output so far plus the rewrite of the rest of `s` is
      still the rewrite of the whole text. */
  lemma RewriteMatchedStep(keys: seq<string>, dict: Dict, text: string, done: string, s: string, i: nat)
    requires ValidKeys(keys, dict)
    requires |s| > 0 && FirstMatch(keys, ToLowerCase(s)) == Some(i)
    requires done + Rewrite(keys, dict, s) == Rewrite(keys, dict, text)
    ensures 0 < |keys[i]| <= |s|
    ensures (done + dict[keys[i]]) + Rewrite(keys, dict, s[|keys[i]|..]) == Rewrite(keys, dict, text)
  {
    RewriteAtMatch(keys, dict, s, i);
    AppendRegroup(done, dict[keys[i]], Rewrite(keys, dict, s[|keys[i]|..]), Rewrite(keys, dict, s), Rewrite(keys, dict, text));
  }

  /** After copying the first character of `s`, where no key matches, the
      output so far plus the rewrite of the rest is still the rewrite of the
      whole text. */
  lemma RewriteUnmatchedStep(keys: seq<string>, dict: Dict, text: string, done: string, s: string)
    requires ValidKeys(keys, dict)
    requires |s| > 0 && FirstMatch(keys, ToLowerCase(s)) == None
    requires done + Rewrite(keys, dict, s) == Rewrite(keys, dict, text)
    ensures (done + [s[0]]) + Rewrite(keys, dict, s[1..]) == Rewrite(keys, dict, text)
  {
    RewriteAtNoMatch(keys, dict, s);
    AppendRegroup(done, [s[0]], Rewrite(keys, dict, s[1..]), Rewrite(keys, dict, s), Rewrite(keys, dict, text));
  }

  /** Moving one piece from the pending part to the finished part of an output. */
  lemma AppendRegroup(done: string, piece: string, rest: string, pending: string, total: string)
    requires pending == piece + rest && done + pending == total
    ensures (done + piece) + rest == total
  {
  }

  /** The inner `for (const key of sortedKeys)` loop: the first key that the
      lower-cased remaining text starts with, or none. */
  method FindKey(keys: seq<string>, lowerRemaining: string) returns (found: bool, i: nat)
    ensures found ==> FirstMatch(keys, lowerRemaining) == Some(i)
    ensures !found <==> FirstMatch(keys, lowerRemaining) == None
  {
    found := false;
    i := 0;
    while i < |keys|
      invariant 0 <= i <= |keys|
      invariant forall j :: 0 <= j < i ==> !StartsWith(lowerRemaining, keys[j])
    {
      if StartsWith(lowerRemaining, keys[i]) {
        FirstMatchIsFirstPrefix(keys, lowerRemaining, i);
        found := true;
        return;
      }
      i := i + 1;
    }
  }

  /** `translateEntireString`: the loop of the source computes `Rewrite`. */
  method TranslateEntireString(keys: seq<string>, dict: Dict, text: string) returns (result: string)
    requires ValidKeys(keys, dict)
    ensures result == Rewrite(keys, dict, text)
  {
    var remaining := text;
    result := "";
    while |remaining| > 0
      invariant result + Rewrite(keys, dict, remaining) == Rewrite(keys, dict, text)
      decreases |remaining|
    {
      var lowerRemaining := ToLowerCase(remaining);
      var found, i := FindKey(keys, lowerRemaining);
      if found {
        var key := keys[i];
        RewriteMatchedStep(keys, dict, text, result, remaining, i);
        result := result + dict[key];
        remaining := remaining[|key|..];
      } else {
        RewriteUnmatchedStep(keys, dict, text, result, remaining);
        result := result + [remaining[0]];
        remaining := remaining[1..];
      }
    }
  }
}
