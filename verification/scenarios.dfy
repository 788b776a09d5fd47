/**
 Worked cases of the rewriter and of the node filter, evaluated by the
 verifier on concrete dictionaries.
 */
module Scenarios {
  import opened Options
  import opened JsString
  import opened KeyOrder
  import opened Rewriter
  import opened NodeFilter
  import opened RewriteProperties

  /** {"a": "X", "ab": "Y"}: the longer key wins, "ab" becomes "Y", not "Xb". */
  lemma LongerKeyWins()
    ensures SortedKeys(["a", "ab"]) == ["ab", "a"]
    ensures Rewrite(["ab", "a"], map["a" := "X", "ab" := "Y"], "ab") == "Y"
  {
    var keys := ["ab", "a"];
    var dict := map["a" := "X", "ab" := "Y"];
    assert StartsWith(ToLowerCase("ab"), "ab");
    FirstMatchIsFirstPrefix(keys, ToLowerCase("ab"), 0);
    RewriteAtMatch(keys, dict, "ab", 0);
  }

  /** {"hello": "HI"}: the match ignores the input's case, the replacement
      keeps its own. */
  lemma CaseInsensitiveMatch()
    ensures Rewrite(["hello"], map["hello" := "HI"], "HELLO") == "HI"
  {
    var keys := ["hello"];
    var dict := map["hello" := "HI"];
    assert ToLowerCase("HELLO") == "hello";
    FirstMatchIsFirstPrefix(keys, ToLowerCase("HELLO"), 0);
    RewriteAtMatch(keys, dict, "HELLO", 0);
  }

  /** A character no key matches is copied with its case: {"cat": "X"} leaves
      "Q" as it is. */
  lemma UnmatchedCharacterKept()
    ensures Rewrite(["cat"], map["cat" := "X"], "Q") == "Q"
  {
    RewritePassthrough(["cat"], map["cat" := "X"], "Q");
  }

  /** A node under a `SCRIPT` element is never written, whatever it holds. */
  lemma ScriptTextUntouched(keys: seq<string>, dict: Dict, text: string)
    requires ValidKeys(keys, dict)
    ensures ProcessNode(keys, dict, Node(true, text, Some("SCRIPT"))) == NoWrite
  {
  }

  /** Lower-case tag names are not in the exclusion list: text under an
      element whose `tagName` is "script" (as in an XML document) is eligible. */
  lemma LowerCaseTagNotExcluded()
    ensures Eligible(Node(true, "a", Some("script")))
  {
    assert IsAsciiAlnum("a"[0]);
  }
}
