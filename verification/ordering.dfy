/** Sorted sequences under a Java-style comparator (negative, zero or positive),
    and the binary search of `java.util.Collections.binarySearch` over them.
    Every sequence here is sorted by a key drawn from its elements. */
module Ordering {

  /** What the registry needs of a comparator: `cmp(a, b) < 0` is a strict
      order, swapping the arguments flips the sign, and keys that compare as
      zero are interchangeable on either side of `<`. */
  ghost predicate IsStrictOrder<K(!new)>(cmp: (K, K) -> int) {
    (forall a, b :: cmp(a, b) < 0 <==> cmp(b, a) > 0) &&
    (forall a, b, c :: cmp(a, b) < 0 && cmp(b, c) < 0 ==> cmp(a, c) < 0) &&
    (forall a, b, c :: cmp(a, b) == 0 && cmp(b, c) < 0 ==> cmp(a, c) < 0) &&
    (forall a, b, c :: cmp(a, b) < 0 && cmp(b, c) == 0 ==> cmp(a, c) < 0)
  }

  /** The part of a strict order that makes sorted sequences unique: no two
      keys are each below the other. */
  ghost predicate Asymmetric<K(!new)>(cmp: (K, K) -> int) {
    forall a, b :: cmp(a, b) < 0 ==> !(cmp(b, a) < 0)
  }

  /** Strictly ascending keys: no two elements compare as zero. */
  ghost predicate SortedBy<T, K>(s: seq<T>, keyOf: T -> K, cmp: (K, K) -> int) {
    forall i, j :: 0 <= i < j < |s| ==> cmp(keyOf(s[i]), keyOf(s[j])) < 0
  }

  /** The precondition of `Collections.binarySearch`: the elements below `key`
      come first and the elements above `key` come last. */
  ghost predicate Partitioned<T, K>(s: seq<T>, keyOf: T -> K, cmp: (K, K) -> int, key: K) {
    forall i, j :: 0 <= i <= j < |s| ==>
      (cmp(keyOf(s[j]), key) < 0 ==> cmp(keyOf(s[i]), key) < 0) &&
      (cmp(keyOf(s[i]), key) > 0 ==> cmp(keyOf(s[j]), key) > 0)
  }

  /** The promise of `Collections.binarySearch`: a non-negative result is the
      index of an element comparing as zero with `key`; a negative result r
      encodes the insertion point -r-1, before which every element is below
      `key` and from which every element is above it. */
  ghost predicate IsSearchResult<T, K>(s: seq<T>, keyOf: T -> K, cmp: (K, K) -> int, key: K, r: int) {
    if r >= 0 then
      r < |s| && cmp(keyOf(s[r]), key) == 0
    else
      -r - 1 <= |s| &&
      (forall i :: 0 <= i < -r - 1 ==> cmp(keyOf(s[i]), key) < 0) &&
      (forall i :: -r - 1 <= i < |s| ==> cmp(keyOf(s[i]), key) > 0)
  }

  /** The number of leading elements below `key`: where `key` belongs. */
  function LowerBound<T, K>(s: seq<T>, keyOf: T -> K, cmp: (K, K) -> int, key: K): (n: nat)
    ensures n <= |s|
  {
    if s == [] || cmp(keyOf(s[0]), key) >= 0 then 0
    else 1 + LowerBound(s[1..], keyOf, cmp, key)
  }

  /** The one result `binarySearch` can give on a strictly sorted sequence:
      the index of the element equivalent to `key`, else -(insertion point)-1. */
  function SearchResult<T, K>(s: seq<T>, keyOf: T -> K, cmp: (K, K) -> int, key: K): int {
    var lb: int := LowerBound(s, keyOf, cmp, key);
    if lb < |s| && cmp(keyOf(s[lb]), key) == 0 then lb else -lb - 1
  }

  /** The index at which `add` inserts: a found index, or the insertion point
      decoded from a negative result (`index >= 0 ? index : -index - 1`). */
  function InsertionIndex(r: int): int {
    if r >= 0 then r else -r - 1
  }

  function InsertAt<T>(s: seq<T>, i: nat, x: T): (r: seq<T>)
    requires i <= |s|
    ensures |r| == |s| + 1 && r[i] == x
    ensures multiset(r) == multiset(s) + multiset{x}
  {
    assert s == s[..i] + s[i..];
    s[..i] + [x] + s[i..]
  }

  function RemoveAt<T>(s: seq<T>, i: nat): (r: seq<T>)
    requires i < |s|
    ensures |r| == |s| - 1
    ensures multiset(r) == multiset(s) - multiset{s[i]}
  {
    assert s == s[..i] + [s[i]] + s[i + 1..];
    s[..i] + s[i + 1..]
  }

  /** `Collections.binarySearch(list, key, c)` on a random-access list: the
      same halving loop, comparing the middle element against the key. */
  method BinarySearch<T, K>(s: seq<T>, keyOf: T -> K, cmp: (K, K) -> int, key: K) returns (r: int)
    requires Partitioned(s, keyOf, cmp, key)
    ensures IsSearchResult(s, keyOf, cmp, key, r)
  {
    var low, high := 0, |s| - 1;
    while low <= high
      invariant 0 <= low <= high + 1 <= |s|
      invariant forall i :: 0 <= i < low ==> cmp(keyOf(s[i]), key) < 0
      invariant forall i :: high < i < |s| ==> cmp(keyOf(s[i]), key) > 0
    {
      // Java shifts right without sign to halve low + high; both are non-negative.
      var mid := (low + high) / 2;
      var c := cmp(keyOf(s[mid]), key);
      if c < 0 {
        low := mid + 1;
      } else if c > 0 {
        high := mid - 1;
      } else {
        return mid;
      }
    }
    return -(low + 1);
  }

  /** Elements before the lower bound are below `key`, the rest are not. */
  lemma {:induction false} LowerBoundSplits<T, K(!new)>(s: seq<T>, keyOf: T -> K, cmp: (K, K) -> int, key: K)
    requires Partitioned(s, keyOf, cmp, key)
    ensures forall i :: 0 <= i < LowerBound(s, keyOf, cmp, key) ==> cmp(keyOf(s[i]), key) < 0
    ensures forall i :: LowerBound(s, keyOf, cmp, key) <= i < |s| ==> cmp(keyOf(s[i]), key) >= 0
  {
    if s != [] && cmp(keyOf(s[0]), key) < 0 {
      assert Partitioned(s[1..], keyOf, cmp, key) by {
        forall i, j | 0 <= i <= j < |s[1..]|
          ensures (cmp(keyOf(s[1..][j]), key) < 0 ==> cmp(keyOf(s[1..][i]), key) < 0) &&
                  (cmp(keyOf(s[1..][i]), key) > 0 ==> cmp(keyOf(s[1..][j]), key) > 0)
        {
          assert s[1..][i] == s[i + 1] && s[1..][j] == s[j + 1];
        }
      }
      LowerBoundSplits(s[1..], keyOf, cmp, key);
      forall i | 1 <= i < |s| ensures s[1..][i - 1] == s[i] { }
    } else if s != [] {
      forall i | 0 <= i < |s| ensures cmp(keyOf(s[i]), key) >= 0 {
        assert cmp(keyOf(s[0]), key) >= 0;
      }
    }
  }

  /** A strictly sorted sequence meets the precondition of the binary search,
      whatever key is sought. */
  lemma SortedIsPartitioned<T, K(!new)>(s: seq<T>, keyOf: T -> K, cmp: (K, K) -> int, key: K)
    requires IsStrictOrder(cmp) && SortedBy(s, keyOf, cmp)
    ensures Partitioned(s, keyOf, cmp, key)
  {
    forall i, j | 0 <= i <= j < |s|
      ensures (cmp(keyOf(s[j]), key) < 0 ==> cmp(keyOf(s[i]), key) < 0) &&
              (cmp(keyOf(s[i]), key) > 0 ==> cmp(keyOf(s[j]), key) > 0)
    {
      if i < j {
        var a, b := keyOf(s[i]), keyOf(s[j]);
        assert cmp(a, b) < 0;
        if cmp(a, key) > 0 {
          assert cmp(key, a) < 0;
          assert cmp(key, b) < 0;
        }
      }
    }
  }

  /** On a strictly sorted sequence the binary search's promise leaves only one
      possible result, and decoding it gives the lower bound. */
  lemma SearchResultUnique<T, K(!new)>(s: seq<T>, keyOf: T -> K, cmp: (K, K) -> int, key: K, r: int)
    requires IsStrictOrder(cmp) && SortedBy(s, keyOf, cmp)
    requires IsSearchResult(s, keyOf, cmp, key, r)
    ensures r == SearchResult(s, keyOf, cmp, key)
    ensures InsertionIndex(r) == LowerBound(s, keyOf, cmp, key)
  {
    SortedIsPartitioned(s, keyOf, cmp, key);
    LowerBoundSplits(s, keyOf, cmp, key);
    var lb := LowerBound(s, keyOf, cmp, key);
    if lb < |s| {
      assert cmp(keyOf(s[lb]), key) >= 0;
    }
    if r >= 0 {
      forall i | 0 <= i < r ensures cmp(keyOf(s[i]), key) < 0 {
        assert cmp(keyOf(s[i]), keyOf(s[r])) < 0;
      }
      assert lb == r;
    } else {
      if -r - 1 < |s| {
        assert cmp(keyOf(s[-r - 1]), key) > 0;
      }
      assert lb == -r - 1;
    }
  }

  /** The search finds an element exactly when one is equivalent to `key`. */
  lemma SearchResultFound<T, K(!new)>(s: seq<T>, keyOf: T -> K, cmp: (K, K) -> int, key: K)
    requires IsStrictOrder(cmp) && SortedBy(s, keyOf, cmp)
    ensures SearchResult(s, keyOf, cmp, key) >= 0 <==>
            exists k :: 0 <= k < |s| && cmp(keyOf(s[k]), key) == 0
  {
    SortedIsPartitioned(s, keyOf, cmp, key);
    LowerBoundSplits(s, keyOf, cmp, key);
    if k :| 0 <= k < |s| && cmp(keyOf(s[k]), key) == 0 {
      forall i | 0 <= i < k ensures cmp(keyOf(s[i]), key) < 0 {
        assert cmp(keyOf(s[i]), keyOf(s[k])) < 0;
      }
    }
  }

  /** Inserting a key that no element is equivalent to, at its lower bound,
      keeps the sequence strictly sorted. */
  lemma InsertKeepsSorted<T, K(!new)>(s: seq<T>, keyOf: T -> K, cmp: (K, K) -> int, x: T)
    requires IsStrictOrder(cmp) && SortedBy(s, keyOf, cmp)
    requires forall e :: e in s ==> cmp(keyOf(e), keyOf(x)) != 0
    ensures SortedBy(InsertAt(s, LowerBound(s, keyOf, cmp, keyOf(x)), x), keyOf, cmp)
  {
    SortedIsPartitioned(s, keyOf, cmp, keyOf(x));
    LowerBoundSplits(s, keyOf, cmp, keyOf(x));
    var i := LowerBound(s, keyOf, cmp, keyOf(x));
    var r := InsertAt(s, i, x);
    forall k | i <= k < |s| ensures cmp(keyOf(x), keyOf(s[k])) < 0 {
      assert s[k] in s;
    }
    forall a, b | 0 <= a < b < |r| ensures cmp(keyOf(r[a]), keyOf(r[b])) < 0 {
      InsertAtPair(s, keyOf, cmp, i, x, a, b);
    }
  }

  lemma InsertAtPair<T, K>(s: seq<T>, keyOf: T -> K, cmp: (K, K) -> int, i: nat, x: T, a: nat, b: nat)
    requires i <= |s| && a < b < |s| + 1 && SortedBy(s, keyOf, cmp)
    requires forall k :: 0 <= k < i ==> cmp(keyOf(s[k]), keyOf(x)) < 0
    requires forall k :: i <= k < |s| ==> cmp(keyOf(x), keyOf(s[k])) < 0
    ensures cmp(keyOf(InsertAt(s, i, x)[a]), keyOf(InsertAt(s, i, x)[b])) < 0
  {
    var r := InsertAt(s, i, x);
    assert r == s[..i] + [x] + s[i..];
    if b < i {
      assert r[a] == s[a] && r[b] == s[b];
    } else if b == i {
      assert r[a] == s[a] && r[b] == x;
    } else if a < i {
      assert r[a] == s[a] && r[b] == s[b - 1];
    } else if a == i {
      assert r[a] == x && r[b] == s[b - 1];
    } else {
      assert r[a] == s[a - 1] && r[b] == s[b - 1];
    }
  }

  /** Deleting one element keeps the rest strictly sorted. */
  lemma RemoveKeepsSorted<T, K(!new)>(s: seq<T>, keyOf: T -> K, cmp: (K, K) -> int, i: nat)
    requires i < |s| && SortedBy(s, keyOf, cmp)
    ensures SortedBy(RemoveAt(s, i), keyOf, cmp)
  {
    var r := RemoveAt(s, i);
    forall a, b | 0 <= a < b < |r| ensures cmp(keyOf(r[a]), keyOf(r[b])) < 0 {
      var a', b' := if a < i then a else a + 1, if b < i then b else b + 1;
      assert r[a] == s[a'] && r[b] == s[b'];
    }
  }

  /** A strictly sorted sequence is determined by its elements: two of them
      holding the same elements are equal. */
  lemma {:induction false} SortedUnique<T, K(!new)>(s: seq<T>, t: seq<T>, keyOf: T -> K, cmp: (K, K) -> int)
    requires Asymmetric(cmp) && SortedBy(s, keyOf, cmp) && SortedBy(t, keyOf, cmp)
    requires forall x :: x in s <==> x in t
    ensures s == t
  {
    if s != [] {
      assert s[0] in t;
    }
    if t != [] {
      assert t[0] in s;
    }
    if s != [] && t != [] {
      SortedTails(s, t, keyOf, cmp);
      SortedUnique(s[1..], t[1..], keyOf, cmp);
      assert s == [s[0]] + s[1..] && t == [t[0]] + t[1..];
    }
  }

  /** Two non-empty strictly sorted sequences with the same elements share
      their head, and their tails are again sorted with the same elements. */
  lemma SortedTails<T, K(!new)>(s: seq<T>, t: seq<T>, keyOf: T -> K, cmp: (K, K) -> int)
    requires Asymmetric(cmp) && SortedBy(s, keyOf, cmp) && SortedBy(t, keyOf, cmp)
    requires s != [] && t != [] && forall x :: x in s <==> x in t
    ensures s[0] == t[0]
    ensures SortedBy(s[1..], keyOf, cmp) && SortedBy(t[1..], keyOf, cmp)
    ensures forall x :: x in s[1..] <==> x in t[1..]
  {
    var s', t' := s[1..], t[1..];
    assert s[0] in t && t[0] in s;
    SortedSameHead(s, t, keyOf, cmp);
    SortedTail(s, keyOf, cmp);
    SortedTail(t, keyOf, cmp);
    SortedHeadNotInTail(s, keyOf, cmp);
    SortedHeadNotInTail(t, keyOf, cmp);
    forall x ensures x in s' <==> x in t' {
      assert x in s <==> x == s[0] || x in s';
      assert x in t <==> x == t[0] || x in t';
    }
  }

  /** Two non-empty strictly sorted sequences with the same elements start
      with the same element: the least one. */
  lemma SortedSameHead<T, K(!new)>(s: seq<T>, t: seq<T>, keyOf: T -> K, cmp: (K, K) -> int)
    requires Asymmetric(cmp) && SortedBy(s, keyOf, cmp) && SortedBy(t, keyOf, cmp)
    requires s != [] && t != [] && s[0] in t && t[0] in s
    ensures s[0] == t[0]
  {
    var m :| 0 <= m < |t| && t[m] == s[0];
    var n :| 0 <= n < |s| && s[n] == t[0];
    var a, b := keyOf(s[0]), keyOf(t[0]);
    assert m > 0 ==> cmp(b, a) < 0;
    assert n > 0 ==> cmp(a, b) < 0;
    assert cmp(a, a) >= 0;
  }

  lemma SortedTail<T, K>(s: seq<T>, keyOf: T -> K, cmp: (K, K) -> int)
    requires SortedBy(s, keyOf, cmp) && s != []
    ensures SortedBy(s[1..], keyOf, cmp)
  {
    forall i, j | 0 <= i < j < |s| - 1 ensures cmp(keyOf(s[1..][i]), keyOf(s[1..][j])) < 0 {
      assert s[1..][i] == s[i + 1] && s[1..][j] == s[j + 1];
    }
  }

  lemma SortedHeadNotInTail<T, K(!new)>(s: seq<T>, keyOf: T -> K, cmp: (K, K) -> int)
    requires Asymmetric(cmp) && SortedBy(s, keyOf, cmp) && s != []
    ensures s[0] !in s[1..]
  {
    forall k | 1 <= k < |s| ensures s[k] != s[0] {
      assert cmp(keyOf(s[0]), keyOf(s[k])) < 0;
    }
    forall x | x in s[1..] ensures x != s[0] {
      var k :| 0 <= k < |s[1..]| && s[1..][k] == x;
      assert x == s[k + 1];
    }
  }

  /** A contiguous run of a sorted sequence is sorted. */
  lemma SliceIsSorted<T, K>(s: seq<T>, keyOf: T -> K, cmp: (K, K) -> int, i: nat, j: nat)
    requires SortedBy(s, keyOf, cmp) && i <= j <= |s|
    ensures SortedBy(s[i..j], keyOf, cmp)
  {
    forall a, b | 0 <= a < b < j - i ensures cmp(keyOf(s[i..j][a]), keyOf(s[i..j][b])) < 0 {
      assert s[i..j][a] == s[i + a] && s[i..j][b] == s[i + b];
    }
  }

  /** The elements satisfying `P`, in their order in `s`. */
  function Filter<T(!new)>(s: seq<T>, P: T -> bool): (r: seq<T>)
    ensures |r| <= |s|
    ensures forall x :: x in r <==> x in s && P(x)
  {
    if s == [] then []
    else if P(s[0]) then [s[0]] + Filter(s[1..], P)
    else Filter(s[1..], P)
  }

  /** When the elements satisfying `P` are exactly those at positions i..j-1,
      filtering by `P` cuts out that slice. */
  lemma {:induction false} BlockIsFilter<T(!new)>(s: seq<T>, P: T -> bool, i: nat, j: nat)
    requires i <= j <= |s|
    requires forall k :: 0 <= k < |s| ==> (P(s[k]) <==> i <= k < j)
    ensures Filter(s, P) == s[i..j]
  {
    if s != [] {
      var i', j' := if i == 0 then 0 else i - 1, if j == 0 then 0 else j - 1;
      BlockOfTail(s, P, i, j);
      BlockIsFilter(s[1..], P, i', j');
      BlockStep(s, P, i, j);
    }
  }

  /** Dropping the head shifts the run down by one place. */
  lemma BlockOfTail<T>(s: seq<T>, P: T -> bool, i: nat, j: nat)
    requires s != [] && i <= j <= |s|
    requires forall k :: 0 <= k < |s| ==> (P(s[k]) <==> i <= k < j)
    ensures var i', j' := if i == 0 then 0 else i - 1, if j == 0 then 0 else j - 1;
            forall k :: 0 <= k < |s[1..]| ==> (P(s[1..][k]) <==> i' <= k < j')
  {
    var t := s[1..];
    forall k | 0 <= k < |t| ensures t[k] == s[k + 1] {
    }
  }

  /** The run of `s` follows from the run of its tail and whether the head is in it. */
  lemma BlockStep<T(!new)>(s: seq<T>, P: T -> bool, i: nat, j: nat)
    requires s != [] && i <= j <= |s|
    requires P(s[0]) <==> i == 0 < j
    requires var i', j' := if i == 0 then 0 else i - 1, if j == 0 then 0 else j - 1;
             Filter(s[1..], P) == s[1..][i'..j']
    ensures Filter(s, P) == s[i..j]
  {
    if i == 0 && j > 0 {
      FilterUnfold(s, P);
      assert [s[0]] + s[1..][..j - 1] == s[..j];
    } else {
      FilterUnfold(s, P);
      if j == 0 {
        assert s[i..j] == [] == s[1..][0..0];
      } else {
        ShiftedSlice(s, i, j);
      }
    }
  }

  /** One step of `Filter`. */
  lemma FilterUnfold<T(!new)>(s: seq<T>, P: T -> bool)
    requires s != []
    ensures Filter(s, P) == if P(s[0]) then [s[0]] + Filter(s[1..], P) else Filter(s[1..], P)
  {
  }

  lemma ShiftedSlice<T>(s: seq<T>, i: nat, j: nat)
    requires 0 < i <= j <= |s|
    ensures s[1..][i - 1..j - 1] == s[i..j]
  {
    var t := s[1..];
    assert |t[i - 1..j - 1]| == |s[i..j]|;
    forall k | 0 <= k < j - i ensures t[i - 1..j - 1][k] == s[i..j][k] {
      assert t[i - 1 + k] == s[i + k];
    }
  }
}
