/**
 The match order of the dictionary's keys: the keys in their enumeration
 order (`Object.keys`), stably sorted by descending length. `Array.prototype.sort`
 is stable since ECMA-262, 10th edition (ECMAScript 2019), so keys of equal
 length keep their enumeration order.
 */
module KeyOrder {

  /** Longer keys come first; equal lengths may appear in any order. */
  predicate SortedByLengthDesc(ks: seq<string>) {
    forall i, j :: 0 <= i < j < |ks| ==> |ks[i]| >= |ks[j]|
  }

  /** The keys of `ks` whose length is `n`, in the order they appear in `ks`. */
  function OfLength(ks: seq<string>, n: nat): seq<string>
  {
    if |ks| == 0 then []
    else (if |ks[0]| == n then [ks[0]] else []) + OfLength(ks[1..], n)
  }

  /** A key is kept by the length filter iff it occurs and has that length. */
  lemma {:induction false} OfLengthMember(ks: seq<string>, n: nat, x: string)
    ensures x in OfLength(ks, n) <==> x in ks && |x| == n
    decreases |ks|
  {
    if |ks| > 0 {
      OfLengthMember(ks[1..], n, x);
      assert ks == [ks[0]] + ks[1..];
    }
  }

  /** Filtering a sequence by length distributes over putting a key in front. */
  lemma OfLengthCons(x: string, ks: seq<string>, n: nat)
    ensures OfLength([x] + ks, n) == (if |x| == n then [x] else []) + OfLength(ks, n)
  {
    assert ([x] + ks)[1..] == ks;
  }

  /** Puts `k` in front of the first key that is not longer than it. */
  function Insert(k: string, ks: seq<string>): (r: seq<string>)
    requires SortedByLengthDesc(ks)
    ensures SortedByLengthDesc(r)
    ensures multiset(r) == multiset(ks) + multiset{k}
  {
    if |ks| == 0 || |ks[0]| <= |k| then
      ConsSorted(k, ks);
      [k] + ks
    else
      var rest := Insert(k, ks[1..]);
      assert ks == [ks[0]] + ks[1..];
      forall i | 0 <= i < |rest|
        ensures |rest[i]| <= |ks[0]|
      {
        assert rest[i] in multiset(rest);
        assert rest[i] == k || rest[i] in ks[1..];
      }
      ConsSorted(ks[0], rest);
      [ks[0]] + rest
  }

  /** A key no shorter than every key of a sorted sequence can go in front. */
  lemma ConsSorted(x: string, ks: seq<string>)
    requires SortedByLengthDesc(ks)
    requires forall i :: 0 <= i < |ks| ==> |ks[i]| <= |x|
    ensures SortedByLengthDesc([x] + ks)
  {
  }

  /** Insertion is stable: among the keys of one length, `k` comes first and
      the others keep their order. */
  lemma {:induction false} InsertOfLength(k: string, ks: seq<string>, n: nat)
    requires SortedByLengthDesc(ks)
    ensures OfLength(Insert(k, ks), n) == (if |k| == n then [k] else []) + OfLength(ks, n)
    decreases |ks|
  {
    if |ks| == 0 || |ks[0]| <= |k| {
      OfLengthCons(k, ks, n);
    } else {
      var rest := Insert(k, ks[1..]);
      InsertOfLength(k, ks[1..], n);
      OfLengthCons(ks[0], rest, n);
      OfLengthCons(ks[0], ks[1..], n);
      assert ks == [ks[0]] + ks[1..];
    }
  }

  /** `Object.keys(morphemeMap).sort((a, b) => b.length - a.length)`: sorted by
      descending length, a permutation of `order`, and stable (for every length,
      the keys of that length keep their relative order). */
  function SortedKeys(order: seq<string>): (r: seq<string>)
    ensures SortedByLengthDesc(r)
    ensures multiset(r) == multiset(order)
    ensures SameByLength(r, order)
  {
    if |order| == 0 then []
    else
      var rest := SortedKeys(order[1..]);
      assert order == [order[0]] + order[1..];
      assert forall n: nat :: OfLength(Insert(order[0], rest), n) == OfLength(order, n) by {
        forall n: nat ensures OfLength(Insert(order[0], rest), n) == OfLength(order, n) {
          InsertOfLength(order[0], rest, n);
          OfLengthCons(order[0], order[1..], n);
        }
      }
      Insert(order[0], rest)
  }

  /** The three properties of `SortedKeys` pin its result down: any sequence
      sorted by descending length that agrees with `order` on the keys of every
      length is `SortedKeys(order)`. */
  lemma {:induction false} StableSortIsUnique(a: seq<string>, b: seq<string>)
    requires SortedByLengthDesc(a) && SortedByLengthDesc(b)
    requires SameByLength(a, b)
    ensures a == b
    decreases |a|
  {
    if |a| == 0 || |b| == 0 {
      if |a| > 0 {
        LongestComesFirst(a, b);
      } else if |b| > 0 {
        LongestComesFirst(b, a);
      }
    } else {
      HeadsAgree(a, b);
      StableSortIsUnique(a[1..], b[1..]);
      assert a == [a[0]] + a[1..] && b == [b[0]] + b[1..];
    }
  }

  /** For every length, `a` and `b` hold the same keys of that length in the same order. */
  ghost predicate SameByLength(a: seq<string>, b: seq<string>) {
    forall n: nat :: OfLength(a, n) == OfLength(b, n)
  }

  /** Two non-empty descending-length sequences that agree on every length
      class start with the same key, and their tails agree as well. */
  lemma HeadsAgree(a: seq<string>, b: seq<string>)
    requires |a| > 0 && |b| > 0
    requires SortedByLengthDesc(a) && SortedByLengthDesc(b)
    requires SameByLength(a, b)
    ensures a[0] == b[0]
    ensures SameByLength(a[1..], b[1..])
  {
    var la := |a[0]|;
    LongestComesFirst(a, b);
    LongestComesFirst(b, a);
    assert a == [a[0]] + a[1..] && b == [b[0]] + b[1..];
    OfLengthCons(a[0], a[1..], la);
    OfLengthCons(b[0], b[1..], la);
    assert OfLength(a, la)[0] == a[0];
    assert OfLength(b, la)[0] == b[0];
    forall n: nat
      ensures OfLength(a[1..], n) == OfLength(b[1..], n)
    {
      OfLengthCons(a[0], a[1..], n);
      OfLengthCons(b[0], b[1..], n);
      assert OfLength(a, n) == OfLength(b, n);
      var skip := if la == n then 1 else 0;
      assert OfLength(a[1..], n) == OfLength(a, n)[skip..];
      assert OfLength(b[1..], n) == OfLength(b, n)[skip..];
    }
  }

  /** When two descending-length sequences hold keys of the same lengths, the
      first key of `b` is at least as long as the first key of `a`. */
  lemma LongestComesFirst(a: seq<string>, b: seq<string>)
    requires |a| > 0
    requires SortedByLengthDesc(b)
    requires OfLength(a, |a[0]|) == OfLength(b, |a[0]|)
    ensures |b| > 0 && |b[0]| >= |a[0]|
  {
    OfLengthMember(a, |a[0]|, a[0]);
    OfLengthMember(b, |a[0]|, a[0]);
    var j :| 0 <= j < |b| && b[j] == a[0];
  }

  /** Any stable descending-length sort of `order` yields `SortedKeys(order)`. */
  lemma SortedKeysIsTheStableSort(order: seq<string>, r: seq<string>)
    requires SortedByLengthDesc(r)
    requires SameByLength(r, order)
    ensures r == SortedKeys(order)
  {
    StableSortIsUnique(r, SortedKeys(order));
  }
}
