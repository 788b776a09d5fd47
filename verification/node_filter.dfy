/**
 The per-node step of the engine (`processNode`): the eligibility checks a
 document node must pass before it is rewritten, and the decision whether to
 write the rewritten text back. The node is reduced to what the checks read;
 the write is returned as a decision instead of being performed.
 */
module NodeFilter {
  import opened Options
  import opened JsString
  import opened Rewriter

  /** A document node as `processNode` sees it: whether it is a text node
      (`nodeType === 3`), its text (`nodeValue`), and the tag name of its parent
      element, if it has one. */
  datatype Node = Node(isText: bool, text: string, parentTag: Option<string>)

  /** What `processNode` does to the node: nothing, or assign a new text. */
  datatype Decision = NoWrite | Write(newText: string)

  /** Parent elements whose text is never rewritten. */
  const ExcludedParents: seq<string> := ["SCRIPT", "STYLE", "CODE", "TEXTAREA", "NOSCRIPT", "INPUT"]

  /** The parent's tag name, or "" for a node without a parent element. */
  function ParentTagName(n: Node): string {
    match n.parentTag
    case Some(tag) => tag
    case None => ""
  }

  /** The node passes all four checks that precede the rewrite. */
  predicate Eligible(n: Node) {
    && n.isText
    && !AllWhitespace(n.text)
    && ParentTagName(n) !in ExcludedParents
    && HasAsciiAlnum(n.text)
  }

  /** `processNode`. Each check, failed, means no write; a node passing them all
      is written exactly when the rewrite changes its text, and then with the
      rewritten text. */
  function ProcessNode(keys: seq<string>, dict: Dict, n: Node): (d: Decision)
    requires ValidKeys(keys, dict)
    ensures !n.isText ==> d == NoWrite
    ensures AllWhitespace(n.text) ==> d == NoWrite
    ensures ParentTagName(n) in ExcludedParents ==> d == NoWrite
    ensures !HasAsciiAlnum(n.text) ==> d == NoWrite
    ensures d.Write? ==> d.newText == Rewrite(keys, dict, n.text) && d.newText != n.text
    ensures d.Write? <==> Eligible(n) && Rewrite(keys, dict, n.text) != n.text
  {
    if !n.isText then NoWrite
    else if |Trim(n.text)| == 0 then NoWrite
    else if ParentTagName(n) in ExcludedParents then NoWrite
    else if !HasAsciiAlnum(n.text) then NoWrite
    else
      var newText := Rewrite(keys, dict, n.text);
      if newText != n.text then Write(newText) else NoWrite
  }

  /** The node after the decision is carried out. */
  function Apply(n: Node, d: Decision): (m: Node)
    ensures m.isText == n.isText && m.parentTag == n.parentTag
    ensures d.NoWrite? ==> m == n
    ensures d.Write? ==> m.text == d.newText
  {
    match d
    case NoWrite => n
    case Write(t) => n.(text := t)
  }

  /** The reprocessing guard: a node whose text holds no ASCII letter or digit
      is left as it is. */
  lemma GuardedNodeIsFixed(keys: seq<string>, dict: Dict, n: Node)
    requires ValidKeys(keys, dict)
    requires !HasAsciiAlnum(n.text)
    ensures Apply(n, ProcessNode(keys, dict, n)) == n
  {
  }

  /** Once a write leaves no ASCII letter or digit, processing the node again
      (as happens when the node is reached again, say after it is removed and
      re-inserted and reported as added) does nothing. */
  lemma GuardStopsReprocessing(keys: seq<string>, dict: Dict, n: Node)
    requires ValidKeys(keys, dict)
    requires ProcessNode(keys, dict, n).Write?
    requires !HasAsciiAlnum(ProcessNode(keys, dict, n).newText)
    ensures ProcessNode(keys, dict, Apply(n, ProcessNode(keys, dict, n))) == NoWrite
  {
  }

  /** A write happens at most once in a row whenever the rewrite is idempotent
      on the node's text: the second pass finds nothing to change. */
  lemma SecondPassAfterStableRewrite(keys: seq<string>, dict: Dict, n: Node)
    requires ValidKeys(keys, dict)
    requires ProcessNode(keys, dict, n).Write?
    requires var t := Rewrite(keys, dict, n.text); Rewrite(keys, dict, t) == t
    ensures ProcessNode(keys, dict, Apply(n, ProcessNode(keys, dict, n))) == NoWrite
  {
  }

  /** A write only ever lands on a text node under an allowed parent. Once
      text `t` is written there, a second pass writes again exactly when `t`
      still holds an ASCII letter or digit and the rewrite would change it:
      the guard and a stable rewrite are the only two ways it stops. */
  lemma SecondPassStopsExactly(keys: seq<string>, dict: Dict, n: Node, t: string)
    requires ValidKeys(keys, dict)
    requires n.isText && ParentTagName(n) !in ExcludedParents
    ensures ProcessNode(keys, dict, Apply(n, Write(t))) == NoWrite
      <==> !HasAsciiAlnum(t) || Rewrite(keys, dict, t) == t
  {
    if HasAsciiAlnum(t) {
      AlnumIsNotWhitespace(t);
    }
  }

  /** Text holding an ASCII letter or digit is not all white space. */
  lemma AlnumIsNotWhitespace(s: string)
    requires HasAsciiAlnum(s)
    ensures !AllWhitespace(s)
  {
    var i :| 0 <= i < |s| && IsAsciiAlnum(s[i]);
    assert !IsJsWhitespace(s[i]);
  }
}
