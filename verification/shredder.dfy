/**
 Activation of the engine (`initShredder`): a missing dictionary stops it,
 otherwise the match order is computed once from the dictionary's key
 enumeration and used for every rewrite.
 */
module Shredder {
  import opened Options
  import opened KeyOrder
  import opened Rewriter

  /** A running engine: the dictionary and its match order. */
  datatype Engine = Engine(dict: Dict, keys: seq<string>)

  /** `order` lists every key of `dict` once, as `Object.keys` does. */
  predicate EnumeratesKeys(order: seq<string>, dict: Dict) {
    && (forall i :: 0 <= i < |order| ==> order[i] in dict)
    && (forall k :: k in dict ==> k in order)
    && (forall i, j :: 0 <= i < j < |order| ==> order[i] != order[j])
  }

  /** Start-up: no engine without a dictionary; otherwise the dictionary with
      its keys sorted by descending length, stably, which holds every key of
      the dictionary once. */
  function Init(dict: Option<Dict>, order: seq<string>): (r: Option<Engine>)
    requires dict.Some? ==> EnumeratesKeys(order, dict.value)
    ensures r.None? <==> dict.None?
    ensures r.Some? ==> r.value.dict == dict.value
    ensures r.Some? ==> SortedByLengthDesc(r.value.keys) && SameByLength(r.value.keys, order)
    ensures r.Some? ==> multiset(r.value.keys) == multiset(order)
    ensures r.Some? ==> forall k :: k in r.value.keys <==> k in r.value.dict
  {
    match dict
    case None => None
    case Some(d) =>
      var keys := SortedKeys(order);
      assert forall k :: k in keys <==> k in multiset(order);
      Some(Engine(d, keys))
  }

  /** The engine can rewrite when no key of its dictionary is empty. */
  predicate Runnable(e: Engine) {
    ValidKeys(e.keys, e.dict)
  }

  /** An engine started from a dictionary without an empty key can rewrite. */
  lemma InitRunnable(d: Dict, order: seq<string>)
    requires EnumeratesKeys(order, d)
    requires "" !in d
    ensures Init(Some(d), order).Some? && Runnable(Init(Some(d), order).value)
  {
    var e := Init(Some(d), order).value;
    forall i | 0 <= i < |e.keys|
      ensures e.keys[i] in e.dict && |e.keys[i]| > 0
    {
      assert e.keys[i] in e.keys;
    }
  }
}
