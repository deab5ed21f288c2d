/** Stable sorting by an integer key, and what it determines. */
module Sorting {

  predicate SortedBy<T>(s: seq<T>, key: T -> int)
  {
    forall i, j :: 0 <= i < j < |s| ==> key(s[i]) <= key(s[j])
  }

  /** `x` after every element that isn't greater. */
  function InsertSorted<T>(x: T, s: seq<T>, key: T -> int): (r: seq<T>)
    ensures multiset(r) == multiset(s) + multiset{x}
  {
    if s == [] then [x]
    else if key(s[0]) <= key(x) then
      assert s == [s[0]] + s[1..];
      [s[0]] + InsertSorted(x, s[1..], key)
    else [x] + s
  }

  /** `sort_by_key`. */
  function SortBy<T>(s: seq<T>, key: T -> int): (r: seq<T>)
    ensures multiset(r) == multiset(s)
  {
    if s == [] then []
    else
      assert s == s[..|s| - 1] + [s[|s| - 1]];
      InsertSorted(s[|s| - 1], SortBy(s[..|s| - 1], key), key)
  }

  lemma SamePlaces<T>(a: seq<T>, b: seq<T>)
    requires multiset(a) == multiset(b)
    ensures |a| == |b| && forall x :: x in a <==> x in b
  {
    assert |multiset(a)| == |a| && |multiset(b)| == |b|;
    forall x ensures x in a <==> x in b {
      assert x in a <==> x in multiset(a);
      assert x in b <==> x in multiset(b);
    }
  }

  lemma {:induction false} InsertKeepsSorted<T>(x: T, s: seq<T>, key: T -> int)
    requires SortedBy(s, key)
    ensures SortedBy(InsertSorted(x, s, key), key)
    decreases |s|
  {
    if s != [] && key(s[0]) <= key(x) {
      var rest := InsertSorted(x, s[1..], key);
      InsertKeepsSorted(x, s[1..], key);
      forall i | 0 <= i < |rest| ensures key(s[0]) <= key(rest[i]) {
        assert rest[i] in multiset(rest);
        assert rest[i] in s[1..] || rest[i] == x;
      }
    }
  }

  lemma {:induction false} SortBySorts<T>(s: seq<T>, key: T -> int)
    ensures SortedBy(SortBy(s, key), key)
    decreases |s|
  {
    if s != [] {
      SortBySorts(s[..|s| - 1], key);
      InsertKeepsSorted(s[|s| - 1], SortBy(s[..|s| - 1], key), key);
    }
  }

  predicate StrictlySortedBy<T>(s: seq<T>, key: T -> int)
  {
    forall i, j :: 0 <= i < j < |s| ==> key(s[i]) < key(s[j])
  }

  /** Sequences of the same elements, one of them strictly sorted and the other sorted, are equal. */
  lemma {:induction false} SortedIsUnique<T>(a: seq<T>, b: seq<T>, key: T -> int)
    requires multiset(a) == multiset(b) && StrictlySortedBy(a, key) && SortedBy(b, key)
    ensures a == b
    decreases |a|
  {
    SamePlaces(a, b);
    if a != [] {
      LeastFirst(a, b, key);
      RestElements(a);
      RestElements(b);
      SortedIsUnique(a[1..], b[1..], key);
      assert a == [a[0]] + a[1..] && b == [b[0]] + b[1..];
    }
  }

  lemma LeastFirst<T>(a: seq<T>, b: seq<T>, key: T -> int)
    requires a != [] && |a| == |b| && (forall x :: x in a <==> x in b) && StrictlySortedBy(a, key) && SortedBy(b, key)
    ensures a[0] == b[0]
  {
    assert a[0] in b && b[0] in a;
    assert key(b[0]) <= key(a[0]) <= key(b[0]);
  }

  lemma RestElements<T>(s: seq<T>)
    requires s != []
    ensures multiset(s[1..]) == multiset(s) - multiset{s[0]}
  {
    assert s == [s[0]] + s[1..];
  }
}
