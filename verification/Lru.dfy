/** One least-recently-used list: the specification the DNS cache and the image memory both refine. */
module Lru {

  predicate Unique<K(==)>(s: seq<K>) { forall i, j :: 0 <= i < j < |s| ==> s[i] != s[j] }

  /** The list without a key. */
  function Without<K(==)>(order: seq<K>, k: K): (r: seq<K>)
    ensures |r| <= |order|
  {
    if order == [] then [] else if order[0] == k then Without(order[1..], k) else [order[0]] + Without(order[1..], k)
  }

  /** The keys that are in `kept`, in their order. */
  function Keep<K(==)>(order: seq<K>, kept: set<K>): seq<K>
  {
    if order == [] then [] else if order[0] in kept then [order[0]] + Keep(order[1..], kept) else Keep(order[1..], kept)
  }

  /** A key answered: it is now the most recent one. */
  function Touch<K(==)>(order: seq<K>, k: K): seq<K> { Without(order, k) + [k] }

  /** A key stored: a new one pushes the least recent one out of a full list. */
  function Store<K(==)>(order: seq<K>, k: K, cap: nat): seq<K>
  {
    if k in order then Touch(order, k)
    else if |order| >= cap && order != [] then order[1..] + [k]
    else order + [k]
  }

  lemma {:induction false} WithoutKeys<K>(order: seq<K>, k: K)
    requires Unique(order)
    ensures var r := Without(order, k);
            Unique(r) && (forall x :: x in r <==> x in order && x != k)
            && |r| == |order| - (if k in order then 1 else 0) && (k !in order ==> r == order)
    decreases |order|
  {
    if order != [] {
      var rest := order[1..];
      assert Unique(rest) && order[0] !in rest;
      WithoutKeys(rest, k);
      assert order == [order[0]] + rest;
    }
  }

  lemma {:induction false} KeepKeys<K>(order: seq<K>, kept: set<K>)
    requires Unique(order)
    ensures var r := Keep(order, kept);
            Unique(r) && |r| <= |order| && forall x :: x in r <==> x in order && x in kept
    decreases |order|
  {
    if order != [] {
      assert order[0] !in order[1..];
      KeepKeys(order[1..], kept);
      assert order == [order[0]] + order[1..];
    }
  }

  lemma WithoutFirst<K>(order: seq<K>)
    requires Unique(order) && order != []
    ensures Without(order, order[0]) == order[1..]
  {
    assert Unique(order[1..]) && order[0] !in order[1..];
    WithoutKeys(order[1..], order[0]);
  }

  lemma TouchKeys<K>(order: seq<K>, k: K)
    requires Unique(order) && k in order
    ensures var r := Touch(order, k); Unique(r) && |r| == |order| && forall x :: x in r <==> x in order
  {
    WithoutKeys(order, k);
  }

  /** Storing keeps keys unique and the list within its bound; what goes is the least recent key, if anything. */
  lemma StoreKeys<K>(order: seq<K>, k: K, cap: nat)
    requires Unique(order) && |order| <= cap && cap >= 1
    ensures var r := Store(order, k, cap);
            Unique(r) && |r| <= cap && r != [] && r[|r| - 1] == k
            && forall x :: x in r <==> x == k || (x in order && (k in order || |order| < cap || x != order[0]))
  {
    if k in order {
      TouchKeys(order, k);
    } else if |order| >= cap {
      assert order == [order[0]] + order[1..];
      assert order[0] !in order[1..];
    }
  }

  // ------------------------------------------------------- what LRU means

  /** The list after a history of stores and answers. */
  function Run<K(==)>(history: seq<K>, cap: nat): seq<K>
  {
    if history == [] then [] else Store(Run(history[..|history| - 1], cap), history[|history| - 1], cap)
  }

  /** The keys of a history. */
  function Keys<K>(history: seq<K>): set<K> { set k | k in history }

  /** The distinct keys of a history, the least recently used first. */
  function ByRecency<K(==)>(history: seq<K>): seq<K>
  {
    if history == [] then [] else Touch(ByRecency(history[..|history| - 1]), history[|history| - 1])
  }

  function Last<K>(s: seq<K>, n: nat): seq<K> { if |s| <= n then s else s[|s| - n..] }

  lemma {:induction false} RecencyKeys<K>(history: seq<K>)
    ensures Unique(ByRecency(history)) && forall x :: x in ByRecency(history) <==> x in history
    decreases |history|
  {
    if history != [] {
      var init, k := history[..|history| - 1], history[|history| - 1];
      RecencyKeys(init);
      WithoutKeys(ByRecency(init), k);
      assert history == init + [k];
    }
  }

  lemma {:induction false} WithoutAppend<K>(a: seq<K>, b: seq<K>, k: K)
    ensures Without(a + b, k) == Without(a, k) + Without(b, k)
    decreases |a|
  {
    if a == [] {
      assert a + b == b;
    } else {
      WithoutAppend(a[1..], b, k);
      assert (a + b)[1..] == a[1..] + b;
    }
  }

  lemma LastOf<K>(a: seq<K>, r: seq<K>, n: nat)
    requires |r| == n || (a == [] && |r| <= n)
    ensures Last(a + r, n) == r
  {
    assert (a + r)[|a|..] == r;
    if a == [] { assert a + r == r; }
  }

  /** Storing into the most recent part `r` of a list `a + r`. */
  lemma StoreTail<K>(a: seq<K>, r: seq<K>, k: K, cap: nat)
    requires Unique(r) && cap >= 1 && (|r| == cap || (a == [] && |r| <= cap)) && (k in r ==> k !in a)
    ensures Store(r, k, cap) == Last(Without(a, k) + Without(r, k) + [k], cap)
  {
    hide Last;
    var a' := Without(a, k);
    WithoutKeys(r, k);
    if k in r {
      assert a' + Without(r, k) + [k] == a' + Touch(r, k);
      LastOf(a', Touch(r, k), cap);
    } else if |r| == cap {
      assert a' + r + [k] == (a' + [r[0]]) + (r[1..] + [k]);
      LastOf(a' + [r[0]], r[1..] + [k], cap);
    } else {
      assert a' + r + [k] == a' + (r + [k]);
      LastOf(a', r + [k], cap);
    }
  }

  /** Storing into the most recent part of a list is storing into the whole and taking the most recent part. */
  lemma StoreLast<K>(d: seq<K>, k: K, cap: nat)
    requires Unique(d) && cap >= 1
    ensures Store(Last(d, cap), k, cap) == Last(Touch(d, k), cap)
  {
    hide Store;
    var r := Last(d, cap);
    var a := d[..|d| - |r|];
    assert d == a + r;
    assert k in r ==> k !in a;
    WithoutAppend(a, r, k);
    StoreTail(a, r, k, cap);
  }

  lemma {:induction false} RunIsRecency<K>(history: seq<K>, cap: nat)
    requires cap >= 1
    ensures Run(history, cap) == Last(ByRecency(history), cap)
    decreases |history|
  {
    if history != [] {
      var init := history[..|history| - 1];
      RunIsRecency(init, cap);
      RecencyKeys(init);
      StoreLast(ByRecency(init), history[|history| - 1], cap);
    }
  }

  lemma TouchAround<K>(a: seq<K>, x: K, b: seq<K>, k: K)
    requires k != x
    ensures Touch(a + [x] + b, k) == Without(a, k) + [x] + Touch(b, k)
  {
    WithoutAppend(a + [x], b, k);
    WithoutAppend(a, [x], k);
    assert Without([x], k) == [x];
  }

  lemma TouchedKeys<K>(b: seq<K>, s: seq<K>, k: K)
    requires Unique(b) && Keys(b) == Keys(s)
    ensures Unique(Touch(b, k)) && Keys(Touch(b, k)) == Keys(s + [k])
  {
    WithoutKeys(b, k);
    assert forall y :: y in b <==> y in Keys(b);
    assert Keys(Touch(b, k)) == Keys(b) + {k};
    assert Keys(s + [k]) == Keys(s) + {k};
  }

  /** The list by recency around a key last used at `at`: the keys after it are those used since. */
  lemma {:induction false} MoreRecent<K>(history: seq<K>, at: nat) returns (a: seq<K>, b: seq<K>)
    requires at < |history| && history[at] !in history[at + 1..]
    ensures ByRecency(history) == a + [history[at]] + b && Unique(b) && Keys(b) == Keys(history[at + 1..])
    decreases |history|
  {
    hide Keys, Unique, Without;
    var n := |history| - 1;
    var init, k, x := history[..n], history[n], history[at];
    if at == n {
      a, b := Without(ByRecency(init), k), [];
      assert history[at + 1..] == [];
      NoKeys<K>();
      assert a + [x] + b == a + [x];
    } else {
      assert history[at + 1..] == init[at + 1..] + [k];
      assert history[at + 1..][n - at - 1] == k;
      a, b := MoreRecent(init, at);
      TouchAround(a, x, b, k);
      TouchedKeys(b, init[at + 1..], k);
      a, b := Without(a, k), Touch(b, k);
    }
  }

  lemma NoKeys<K>()
    ensures Unique<K>([]) && Keys<K>([]) == {}
  {
  }

  lemma {:induction false} UniqueCount<K>(s: seq<K>)
    requires Unique(s)
    ensures |Keys(s)| == |s|
    decreases |s|
  {
    if s != [] {
      UniqueCount(s[1..]);
      assert s == [s[0]] + s[1..];
      assert Keys(s) == {s[0]} + Keys(s[1..]);
    }
  }

  /** A key is still listed exactly when fewer than `cap` other keys were used after its last use. */
  lemma KeptWhileRecent<K>(history: seq<K>, at: nat, cap: nat)
    requires cap >= 1 && at < |history| && history[at] !in history[at + 1..]
    ensures history[at] in Run(history, cap) <==> |Keys(history[at + 1..])| < cap
  {
    var a, b := MoreRecent(history, at);
    UniqueCount(b);
    RunIsRecency(history, cap);
    RecencyKeys(history);
    LastHolds(a, history[at], b, cap);
  }

  lemma LastHolds<K>(a: seq<K>, x: K, b: seq<K>, n: nat)
    requires Unique(a + [x] + b)
    ensures x in Last(a + [x] + b, n) <==> |b| < n
  {
    var d := a + [x] + b;
    assert d[|a|] == x;
    var from := if |d| <= n then 0 else |d| - n;
    assert Last(d, n) == d[from..];
    if from <= |a| {
      assert d[from..][|a| - from] == x;
    } else {
      assert forall i :: from <= i < |d| ==> d[i] != x;
    }
  }
}
