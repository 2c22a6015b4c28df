/**
 * String order and sorting by a string key, standing for `sort_unstable` on
 * interned strings and `sort_unstable_by_key` on a string key.
 */
module Sorting {

  /**
   * `a <= b` in Rust's order on `str`: lexicographic, character by character
   * (the byte order of UTF-8 agrees with the order of code points).
   */
  predicate StrLe(a: string, b: string)
    decreases |a|
  {
    |a| == 0 || (|b| > 0 && (a[0] < b[0] || (a[0] == b[0] && StrLe(a[1..], b[1..]))))
  }

  lemma {:induction false} StrLeTotal(a: string, b: string)
    ensures StrLe(a, b) || StrLe(b, a)
    decreases |a|
  {
    if |a| > 0 && |b| > 0 && a[0] == b[0] {
      StrLeTotal(a[1..], b[1..]);
    }
  }

  lemma {:induction false} StrLeReflexive(a: string)
    ensures StrLe(a, a)
    decreases |a|
  {
    if |a| > 0 { StrLeReflexive(a[1..]); }
  }

  lemma {:induction false} StrLeTransitive(a: string, b: string, c: string)
    requires StrLe(a, b) && StrLe(b, c)
    ensures StrLe(a, c)
    decreases |a|
  {
    if |a| > 0 && a[0] == b[0] && b[0] == c[0] {
      StrLeTransitive(a[1..], b[1..], c[1..]);
    }
  }

  lemma {:induction false} StrLeAntisymmetric(a: string, b: string)
    requires StrLe(a, b) && StrLe(b, a)
    ensures a == b
    decreases |a|
  {
    if |a| > 0 {
      StrLeAntisymmetric(a[1..], b[1..]);
      assert a == [a[0]] + a[1..] && b == [b[0]] + b[1..];
    }
  }

  /** The key that sorts strings by themselves. */
  function Id(s: string): string { s }

  /** `s` is non-decreasing by `key`. */
  predicate SortedBy<T>(s: seq<T>, key: T -> string) {
    forall i, j :: 0 <= i < j < |s| ==> StrLe(key(s[i]), key(s[j]))
  }

  /** Inserts `x` into the sorted `s` before the first element whose key is not below `x`'s. */
  function Insert<T>(x: T, s: seq<T>, key: T -> string): (r: seq<T>)
    requires SortedBy(s, key)
    ensures SortedBy(r, key)
    ensures multiset(r) == multiset(s) + multiset{x}
    decreases |s|
  {
    if s == [] then [x]
    else if StrLe(key(x), key(s[0])) then
      LeAllOfSorted(key(x), s, key);
      [x] + s
    else
      StrLeTotal(key(x), key(s[0]));
      var t := Insert(x, s[1..], key);
      assert s == [s[0]] + s[1..];
      assert forall y | y in multiset(t) :: y in multiset(s[1..]) || y == x;
      LeAllOfSorted(key(s[0]), s[1..], key);
      assert forall k | 0 <= k < |t| :: StrLe(key(s[0]), key(t[k])) by {
        forall k | 0 <= k < |t| ensures StrLe(key(s[0]), key(t[k])) {
          assert t[k] in multiset(t);
        }
      }
      [s[0]] + t
  }

  /** A key below the first element of a sorted sequence is below all of them. */
  lemma LeAllOfSorted<T>(k: string, s: seq<T>, key: T -> string)
    requires SortedBy(s, key)
    requires s != [] ==> StrLe(k, key(s[0]))
    ensures forall i | 0 <= i < |s| :: StrLe(k, key(s[i]))
  {
    forall i | 0 <= i < |s| ensures StrLe(k, key(s[i])) {
      if i > 0 { StrLeTransitive(k, key(s[0]), key(s[i])); }
    }
  }

  /** Insertion sort by `key`: the result is sorted by `key` and a permutation of `s`. */
  function SortBy<T>(s: seq<T>, key: T -> string): (r: seq<T>)
    ensures SortedBy(r, key)
    ensures multiset(r) == multiset(s)
    ensures |r| == |s|
    decreases |s|
  {
    if s == [] then []
    else
      assert s == [s[0]] + s[1..];
      Insert(s[0], SortBy(s[1..], key), key)
  }

  /** The tail of a sorted sequence is sorted. */
  lemma SortedTail<T>(s: seq<T>, key: T -> string)
    requires s != [] && SortedBy(s, key)
    ensures SortedBy(s[1..], key)
  {
    forall p, q | 0 <= p < q < |s[1..]| ensures StrLe(key(s[1..][p]), key(s[1..][q])) {
      assert s[1..][p] == s[p + 1] && s[1..][q] == s[q + 1];
    }
  }

  /** The head of a sorted sequence is at or below every element of it. */
  lemma HeadIsLeast(s: seq<string>, x: string)
    requires s != [] && SortedBy(s, Id) && x in multiset(s)
    ensures StrLe(s[0], x)
  {
    var i :| 0 <= i < |s| && s[i] == x;
    if i == 0 { StrLeReflexive(x); } else { assert StrLe(Id(s[0]), Id(s[i])); }
  }

  /**
   * Sorting strings is determined by the multiset: two sorted permutations of
   * the same strings are equal.
   */
  lemma {:induction false} SortedStringsUnique(a: seq<string>, b: seq<string>)
    requires SortedBy(a, Id) && SortedBy(b, Id)
    requires multiset(a) == multiset(b)
    ensures a == b
    decreases |a|
  {
    assert |a| == |multiset(a)| == |multiset(b)| == |b|;
    if a != [] {
      HeadIsLeast(b, a[0]);
      HeadIsLeast(a, b[0]);
      StrLeAntisymmetric(a[0], b[0]);
      assert a == [a[0]] + a[1..] && b == [b[0]] + b[1..];
      assert multiset(a[1..]) == multiset(a) - multiset{a[0]};
      assert multiset(b[1..]) == multiset(b) - multiset{b[0]};
      SortedTail(a, Id);
      SortedTail(b, Id);
      SortedStringsUnique(a[1..], b[1..]);
    }
  }
}
