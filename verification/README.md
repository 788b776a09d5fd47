# Morpheme shredder: a Dafny model of the substitution engine

The browser content script `content.js` rewrites the text of a web page with a
dictionary, `morphemeMap`, that maps keys to replacement text. This project
models its two pure parts and proves their properties:

- **The rewriter** (`translateEntireString`). It scans the text from left to
  right. At each position it lower-cases the rest of the text and takes the
  first dictionary key, in match order, that the rest starts with. It emits
  that key's replacement verbatim and skips the key's length in the original
  text. When no key matches, it copies one character unchanged. The match
  order (`sortedKeys`) is the dictionary's key enumeration, stably sorted by
  descending length.
- **The node filter** (`processNode`). A node is rewritten only if it passes
  four checks: it is a text node, its trimmed text is not empty, its parent
  element is not one of `SCRIPT`, `STYLE`, `CODE`, `TEXTAREA`, `NOSCRIPT`,
  `INPUT`, and its text holds an ASCII letter or digit. That last check is the
  reprocessing guard. Its text is written back only when the rewrite changed
  it.

Modules, one per file:

| file | module | models |
|---|---|---|
| `options.dfy` | `Options` | the optional value used for a missing dictionary or parent |
| `js_string.dfy` | `JsString` | `toLowerCase` (ASCII fold), `startsWith`, `trim`, `/[a-zA-Z0-9]/` |
| `key_order.dfy` | `KeyOrder` | `sortedKeys`: a stable insertion sort by descending length |
| `rewriter.dfy` | `Rewriter` | `translateEntireString`: the recursive `Rewrite` and the source loop |
| `scanner.dfy` | `Scanner` | the steps (matches and kept characters) behind one rewrite |
| `rewrite_properties.dfy` | `RewriteProperties` | longest match, passthrough, case behaviour, dead keys |
| `node_filter.dfy` | `NodeFilter` | `processNode` as a pure decision: no write, or write a new text |
| `shredder.dfy` | `Shredder` | start-up: missing dictionary check and computing the match order |
| `scenarios.dfy` | `Scenarios` | worked cases on concrete dictionaries |

The dictionary is an immutable `map<string, string>`. `Object.keys` order is
a parameter `order`: a list of the dictionary's keys with no repeats. The
model records each iteration of the rewrite loop as a `Step`. The source
builds no such record. A `Step` is either `Replace(key, span, replacement)`,
where `span` is the original text the key consumed, or `Keep(c)`, a character
copied unchanged.

Every key must be non-empty (`ValidKeys`). The source does not check this.
`lowerRemaining.startsWith("")` always holds, and `slice(0)` does not
advance. An empty key sorts last, so it is taken only at a position where no
non-empty key matches. Once the loop reaches such a position it never ends
(`RewriteProperties.EmptyKeyAlwaysMatches`). An empty text, or a text that
non-empty keys consume entirely, still finishes.

Keys are compared as stored against the lower-cased text. So a key with an
ASCII upper-case letter never matches (`RewriteProperties.UppercaseKeyNeverMatches`),
and dropping such keys changes no rewrite. The rewrite is not idempotent: a
replacement may hold ASCII text that matches again. After a write, a second
pass over the node writes again exactly when the written text still holds an
ASCII letter or digit and the rewrite would change it
(`NodeFilter.SecondPassStopsExactly`).

## Model

| member | source | states |
|---|---|---|
| KeyOrder.SortedKeys | content.js:8 | the match order is sorted by non-increasing key length, is a permutation of the key enumeration (equal multisets), and is stable: for every length, the keys of that length keep their enumeration order |
| KeyOrder.Insert | content.js:8 | inserting one key into a sorted order keeps it sorted and adds exactly that key to the multiset |
| KeyOrder.InsertOfLength | content.js:8 | insertion is stable: among keys of the inserted key's length, it comes first and the others keep their order |
| KeyOrder.StableSortIsUnique | content.js:8 | two sequences sorted by descending length that agree on the keys of every length, in order, are equal; so any stable sort by descending length gives the same order |
| KeyOrder.SortedKeysIsTheStableSort | content.js:8 | any sorted sequence with the enumeration's per-length order is exactly `SortedKeys(order)` |
| Shredder.Init | content.js:3-8 | no engine starts without a dictionary, and one always starts with a dictionary; the engine's match order is sorted, stable, a permutation of the enumeration, and holds exactly the dictionary's keys |
| Shredder.InitRunnable | content.js:8 | an engine started from a dictionary without an empty key satisfies the rewriter's key requirement |
| Rewriter.Rewrite | content.js:15-33 | the rewritten text: each step's output followed by the rewrite of what the step left; its meaning is fixed by `RewriteAtMatch`, `RewritePassthrough`, `LongestMatch` and `ScanCoversInput`, and the loop is proved to compute it |
| Rewriter.FirstMatch | content.js:19-25 | the result is the index of a key the lower-cased text starts with, and no earlier key matches; no result means no key matches at all |
| Rewriter.FindKey | content.js:19-26 | the inner loop over the keys, with its early exit, finds exactly `FirstMatch`, and reports no match exactly when there is none |
| Rewriter.StepAt | content.js:15-33 | every step consumes at least one and at most all remaining characters, always a prefix of the remaining text; this is the termination measure of the loop |
| Rewriter.StepAtMeaning | content.js:17-30 | a replacing step consumed text that lower-cases to a key of the match order and emits that key's replacement; a step keeps a character exactly when no key matches |
| Rewriter.RewriteAtMatch | content.js:20-23 | where key `i` is the first match, the output is the key's replacement followed by the rewrite of the text after the key's length |
| Rewriter.RewriteMatchedStep | content.js:20-22 | emitting a matched replacement and advancing past the key keeps "output so far + rewrite of the remainder = rewrite of the text" |
| Rewriter.RewriteUnmatchedStep | content.js:28-30 | copying an unmatched character and advancing by one keeps the same equation |
| Rewriter.TranslateEntireString | content.js:11-36 | the loop of the source returns the rewrite defined by the left-to-right scan |
| Scanner.Scan | content.js:15-33 | the steps of the loop, left to right, one per iteration; `ScanCoversInput` and `RewriteEmitsScan` relate them to the input and the output |
| Scanner.ScanCoversInput | content.js:15-33 | the consumed spans of the scan's steps concatenate back to the input, so every character is consumed exactly once, in order |
| Scanner.RewriteEmitsScan | content.js:15-33 | the rewrite is the concatenation of what the scan's steps emit |
| Scanner.ScanStepsAreMatches | content.js:17-22 | every replacing step consumed a non-empty span that lower-cases to a dictionary key, and emitted that key's replacement |
| RewriteProperties.LongestMatch | content.js:19-25 | over a sorted match order, no key that matches is longer than the one taken, and among matching keys of the same length the one taken is the earliest |
| RewriteProperties.RewriteConsumesLongestMatch | content.js:19-25 | conversely, when key `i` is the longest match and the earliest of that length, the rewrite replaces it and resumes after it |
| RewriteProperties.RewritePassthrough | content.js:28-30 | when no key matches, the first character is copied with its case and the rest is rewritten |
| RewriteProperties.RewriteWithoutOccurrences | content.js:15-33 | text in which no key matches at any position is returned unchanged |
| RewriteProperties.RewriteEmptyDictionary | content.js:28-30 | with an empty dictionary the rewrite is the identity |
| RewriteProperties.UppercaseKeyNeverMatches | content.js:17-20 | the key a step replaces never holds an ASCII upper-case letter |
| RewriteProperties.FirstMatchIgnoresUnmatchable | content.js:17-20 | dropping keys with upper-case letters from the match order does not change which key is found |
| RewriteProperties.RewriteIgnoresUnmatchable | content.js:17-20 | dropping keys with upper-case letters does not change the rewrite of any text |
| RewriteProperties.ReplacementIgnoresCase | content.js:20-22 | two texts whose first match covers spans differing only in case rewrite to the same output: the key's replacement, verbatim, then the rewrite of the rest |
| RewriteProperties.EmptyKeyAlwaysMatches | content.js:8-25 | an empty key makes every position match, and wherever no non-empty key matches it is the key taken, consuming nothing; over the sorted order it is taken only where no non-empty key matches |
| JsString.ToLowerCase | content.js:17 | lower-casing keeps the length; with `ToLowerCaseAt`, every character is folded in place |
| JsString.ToLowerCaseAt | content.js:17 | the character at each position of the lower-cased text is the fold of the input's character there |
| JsString.StartsWith | content.js:20 | `startsWith`: the prefix is no longer than the text and equals the text's first characters |
| JsString.HasAsciiAlnum | content.js:52 | `/[a-zA-Z0-9]/.test`: some character is an ASCII letter or digit |
| JsString.Trim | content.js:43 | the trimmed text is a slice of the input with only white space before and after it; it is empty exactly when every character is ECMAScript white space, and otherwise neither starts nor ends with white space, so nothing more could be stripped |
| JsString.TrimFrame | content.js:43 | stripping leading then trailing white space leaves a slice framed by white space, empty exactly when the whole text is white space |
| JsString.LowerCaseNeverStartsWithUpper | content.js:17-20 | a lower-cased text never starts with a key that holds an ASCII upper-case letter |
| NodeFilter.Eligible | content.js:41-52 | the four checks before the rewrite: a text node, not all white space, parent tag not excluded, an ASCII letter or digit present |
| NodeFilter.ProcessNode | content.js:39-58 | no write for a non-text node, all-white-space text, an excluded parent tag, or text without ASCII letters or digits; otherwise a write exactly when the rewrite differs from the text, and then with the rewritten text |
| NodeFilter.Apply | content.js:55-57 | carrying out a decision changes only the node's text, and only on a write |
| NodeFilter.GuardedNodeIsFixed | content.js:52 | a node whose text holds no ASCII letter or digit is left unchanged |
| NodeFilter.GuardStopsReprocessing | content.js:48-52 | after a write that leaves no ASCII letter or digit, processing the node again makes no write |
| NodeFilter.SecondPassAfterStableRewrite | content.js:54-57 | after a write, a second pass makes no write when the rewrite leaves its own output unchanged |
| NodeFilter.SecondPassStopsExactly | content.js:41-57 | once text `t` is written to a text node under an allowed parent (the only nodes `ProcessNode` writes), a second pass makes no write exactly when `t` has no ASCII letter or digit or the rewrite leaves `t` unchanged |
| NodeFilter.AlnumIsNotWhitespace | content.js:43-52 | text that passes the ASCII letter-or-digit test also passes the non-empty trim test |
| Scenarios.LongerKeyWins | content.js:8-25 | with keys "a" and "ab", "ab" sorts first and "ab" rewrites to "Y", not "Xb" |
| Scenarios.CaseInsensitiveMatch | content.js:17-22 | "HELLO" matches the key "hello" and becomes its replacement "HI" verbatim |
| Scenarios.UnmatchedCharacterKept | content.js:28-30 | a character no key matches is copied unchanged |
| Scenarios.ScriptTextUntouched | content.js:45-46 | a text node under `SCRIPT` is never written |
| Scenarios.LowerCaseTagNotExcluded | content.js:45-46 | the tag comparison is exact: a parent whose tag name is "script" does not exclude its text |

## Left out

- The tree walk `walkAndShred` (content.js:61-67) and the `MutationObserver` subscription (content.js:70-93). They are DOM traversal and host event plumbing. All they do with text is call `processNode` on each text node, and that is modelled.
- The `typeof morphemeMap === 'undefined'` probe is modelled as an optional dictionary in `Shredder.Init`. The `console` messages (content.js:4, 86) are output only and are not modelled.
- JsString.ToLowerCase: only the ASCII letters are folded. JavaScript's `toLowerCase` applies full Unicode case mapping, which can change a string's length (U+0130, for one). Then the cursor advance by the key's length would no longer line up with the original text.
- JsString.IsJsWhitespace: the space separators are the Unicode category Zs code points of current Unicode versions. `trim` follows whatever Unicode version the engine ships.
- Strings are sequences of characters, not UTF-16 code units. `remaining[0]` on a surrogate pair copies half a character in the source, and the model does not show that.
- With an empty key in the dictionary, the source loop diverges once it reaches a position where no non-empty key matches. The model requires non-empty keys (`Rewriter.ValidKeys`) instead of modelling that divergence. `RewriteProperties.EmptyKeyAlwaysMatches` shows the empty key is taken there.
- Rewriter.TranslateEntireString: the inner `for` loop in the source appends the replacement and advances before it breaks. The model's `FindKey` returns the matched index, and the outer loop then appends and advances. The effect is the same.
- `Object.keys` order is the parameter `order` rather than derived from the map. JavaScript lists integer-like keys first in ascending order, then the others in insertion order. Dafny maps have no order.
- The model gives every node a text. `processNode` returns before reading `nodeValue` for a node that is not a text node, so that text plays no part.
