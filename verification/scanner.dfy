/**
 The scan behind the rewrite, as the sequence of steps it takes: every
 character of the input is consumed exactly once, either inside a matched key
 or as a kept character, and the output is what those steps emit.
 */
module Scanner {
  import opened JsString
  import opened Rewriter

  /** The steps the rewrite of `s` takes, left to right. */
  function Scan(keys: seq<string>, dict: Dict, s: string): seq<Step>
    requires ValidKeys(keys, dict)
    decreases |s|
  {
    if |s| == 0 then []
    else
      var st := StepAt(keys, dict, s);
      [st] + Scan(keys, dict, s[|st.Source()|..])
  }

  /** The input text the steps consumed, in order. */
  function Sources(steps: seq<Step>): string {
    if |steps| == 0 then "" else steps[0].Source() + Sources(steps[1..])
  }

  /** The output text the steps produced, in order. */
  function Emissions(steps: seq<Step>): string {
    if |steps| == 0 then "" else steps[0].Emitted() + Emissions(steps[1..])
  }

  /** The scan consumes the whole input, each character once, in order. */
  lemma {:induction false} ScanCoversInput(keys: seq<string>, dict: Dict, s: string)
    requires ValidKeys(keys, dict)
    ensures Sources(Scan(keys, dict, s)) == s
    decreases |s|
  {
    if |s| > 0 {
      var st := StepAt(keys, dict, s);
      var n := |st.Source()|;
      ScanUnfold(keys, dict, s);
      ScanCoversInput(keys, dict, s[n..]);
      SourcesPrepend(st, Scan(keys, dict, s[n..]), s, n);
    }
  }

  /** A step that consumed the first `n` characters of `s`, followed by steps
      that consumed the rest, consumed all of `s`. */
  lemma SourcesPrepend(st: Step, rest: seq<Step>, s: string, n: nat)
    requires n <= |s| && st.Source() == s[..n] && Sources(rest) == s[n..]
    ensures Sources([st] + rest) == s
  {
    SourcesCons(st, rest);
    assert s == s[..n] + s[n..];
  }

  /** The scan of a non-empty text is its first step followed by the scan of
      what that step leaves. */
  lemma ScanUnfold(keys: seq<string>, dict: Dict, s: string)
    requires ValidKeys(keys, dict) && |s| > 0
    ensures Scan(keys, dict, s) ==
      [StepAt(keys, dict, s)] + Scan(keys, dict, s[|StepAt(keys, dict, s).Source()|..])
  {
  }

  /** `Sources` distributes over putting a step in front. */
  lemma SourcesCons(st: Step, rest: seq<Step>)
    ensures Sources([st] + rest) == st.Source() + Sources(rest)
  {
    assert ([st] + rest)[1..] == rest;
  }

  /** `Emissions` distributes over putting a step in front. */
  lemma EmissionsCons(st: Step, rest: seq<Step>)
    ensures Emissions([st] + rest) == st.Emitted() + Emissions(rest)
  {
    assert ([st] + rest)[1..] == rest;
  }

  /** The rewrite is the concatenation of what the scan's steps emit. */
  lemma {:induction false} RewriteEmitsScan(keys: seq<string>, dict: Dict, s: string)
    requires ValidKeys(keys, dict)
    ensures Rewrite(keys, dict, s) == Emissions(Scan(keys, dict, s))
    decreases |s|
  {
    if |s| > 0 {
      var st := StepAt(keys, dict, s);
      var n := |st.Source()|;
      ScanUnfold(keys, dict, s);
      EmissionsCons(st, Scan(keys, dict, s[n..]));
      RewriteEmitsScan(keys, dict, s[n..]);
    }
  }

  /** A replacing step consumed a non-empty span that lower-cases to a key of
      the match order, and emitted that key's replacement. */
  predicate IsMatch(keys: seq<string>, dict: Dict, st: Step) {
    st.Replace? ==>
      st.key in keys && |st.key| > 0 && st.key in dict
      && ToLowerCase(st.span) == st.key && st.replacement == dict[st.key]
  }

  /** Every replacing step of the scan is a genuine match. */
  lemma {:induction false} ScanStepsAreMatches(keys: seq<string>, dict: Dict, s: string)
    requires ValidKeys(keys, dict)
    ensures forall k :: 0 <= k < |Scan(keys, dict, s)| ==> IsMatch(keys, dict, Scan(keys, dict, s)[k])
    decreases |s|
  {
    if |s| > 0 {
      var st := StepAt(keys, dict, s);
      var n := |st.Source()|;
      ScanUnfold(keys, dict, s);
      StepAtMeaning(keys, dict, s);
      ScanStepsAreMatches(keys, dict, s[n..]);
      MatchesPrepend(keys, dict, st, Scan(keys, dict, s[n..]));
    }
  }

  /** Putting a genuine match in front of genuine matches. */
  lemma MatchesPrepend(keys: seq<string>, dict: Dict, st: Step, rest: seq<Step>)
    requires ValidKeys(keys, dict)
    requires st.Replace? ==> st.key in keys && ToLowerCase(st.span) == st.key && st.replacement == dict[st.key]
    requires forall k :: 0 <= k < |rest| ==> IsMatch(keys, dict, rest[k])
    ensures forall k :: 0 <= k < |[st] + rest| ==> IsMatch(keys, dict, ([st] + rest)[k])
  {
    if st.Replace? {
      var i :| 0 <= i < |keys| && keys[i] == st.key;
    }
  }
}
