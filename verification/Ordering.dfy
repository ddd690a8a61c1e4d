/** The relative order of two elements, and what filtering and sorting do to it. */
module Ordering {
  import opened Collections

  /** `a` comes before `b` in the list. */
  ghost predicate Before<T(!new)>(xs: seq<T>, a: T, b: T) {
    exists i, j :: 0 <= i < j < |xs| && xs[i] == a && xs[j] == b
  }

  lemma BeforeTail<T(!new)>(x: T, xs: seq<T>, a: T, b: T)
    requires Before(xs, a, b) || (x == a && b in xs)
    ensures Before([x] + xs, a, b)
  {
    var all := [x] + xs;
    if Before(xs, a, b) {
      var i, j :| 0 <= i < j < |xs| && xs[i] == a && xs[j] == b;
      assert all[i + 1] == a && all[j + 1] == b;
    } else {
      var j :| 0 <= j < |xs| && xs[j] == b;
      assert all[0] == a && all[j + 1] == b;
    }
  }

  lemma BeforeCases<T(!new)>(xs: seq<T>, a: T, b: T)
    requires Before(xs, a, b)
    ensures xs != [] && (Before(xs[1..], a, b) || (xs[0] == a && b in xs[1..]))
  {
    var i, j :| 0 <= i < j < |xs| && xs[i] == a && xs[j] == b;
    assert xs[1..][j - 1] == b;
    if i > 0 {
      assert xs[1..][i - 1] == a;
    }
  }

  lemma {:induction false} FilterOrder<T(!new)>(p: T -> bool, xs: seq<T>, a: T, b: T)
    requires Before(xs, a, b) && p(a) && p(b)
    ensures Before(Filter(p, xs), a, b)
  {
    hide Before;
    BeforeCases(xs, a, b);
    var rest := Filter(p, xs[1..]);
    if Before(xs[1..], a, b) {
      FilterOrder(p, xs[1..], a, b);
      if p(xs[0]) {
        BeforeTail(xs[0], rest, a, b);
      } else {
        AppendNilLeft(rest);
      }
    } else {
      BeforeTail(xs[0], rest, a, b);
    }
  }

  lemma {:induction false} WithKeyHas<T(!new)>(xs: seq<T>, key: T -> real, k: real, x: T)
    ensures x in WithKey(xs, key, k) <==> x in xs && key(x) == k
  {
    if xs != [] {
      WithKeyHas(xs[1..], key, k, x);
      HeadTail(xs);
    }
  }

  lemma {:induction false} WithKeyKeeps<T(!new)>(xs: seq<T>, key: T -> real, k: real, a: T, b: T)
    requires Before(xs, a, b) && key(a) == k && key(b) == k
    ensures Before(WithKey(xs, key, k), a, b)
  {
    hide Before;
    BeforeCases(xs, a, b);
    var rest := WithKey(xs[1..], key, k);
    if Before(xs[1..], a, b) {
      WithKeyKeeps(xs[1..], key, k, a, b);
      if key(xs[0]) == k {
        BeforeTail(xs[0], rest, a, b);
      } else {
        AppendNilLeft(rest);
      }
    } else {
      WithKeyHas(xs[1..], key, k, b);
      BeforeTail(xs[0], rest, a, b);
    }
  }

  lemma {:induction false} WithKeyReflects<T(!new)>(xs: seq<T>, key: T -> real, k: real, a: T, b: T)
    requires Before(WithKey(xs, key, k), a, b)
    ensures Before(xs, a, b)
  {
    hide Before;
    BeforeCases(WithKey(xs, key, k), a, b);
    var rest := WithKey(xs[1..], key, k);
    HeadTail(xs);
    if key(xs[0]) == k {
      assert ([xs[0]] + rest)[1..] == rest;
      if Before(rest, a, b) {
        WithKeyReflects(xs[1..], key, k, a, b);
      } else {
        WithKeyHas(xs[1..], key, k, b);
      }
    } else {
      AppendNilLeft(rest);
      WithKeyReflects(xs[1..], key, k, a, b);
    }
    BeforeTail(xs[0], xs[1..], a, b);
  }

  lemma {:induction false} FilterCount<T(!new)>(p: T -> bool, xs: seq<T>, x: T)
    ensures multiset(Filter(p, xs))[x] == if p(x) then multiset(xs)[x] else 0
  {
    if xs != [] {
      FilterCount(p, xs[1..], x);
      HeadTail(xs);
      assert multiset(xs) == multiset([xs[0]]) + multiset(xs[1..]);
      var head := if p(xs[0]) then [xs[0]] else [];
      assert multiset(Filter(p, xs)) == multiset(head) + multiset(Filter(p, xs[1..]));
    }
  }

  /** Sorting keeps the order of elements with one key. */
  lemma SortKeepsOrder<T(!new)>(xs: seq<T>, key: T -> real, a: T, b: T)
    requires Before(xs, a, b) && key(a) == key(b)
    ensures Before(SortBy(xs, key), a, b)
  {
    hide Before;
    var k := key(a);
    WithKeyKeeps(xs, key, k, a, b);
    SortByStable(xs, key, k);
    WithKeyReflects(SortBy(xs, key), key, k, a, b);
  }

  lemma RisingIndex(ps: seq<nat>, m: nat, n: nat)
    requires Rising(ps) && m < |ps| && n < |ps| && ps[m] < ps[n]
    ensures m < n
  {
  }

  /** De-duplication keeps the order of first occurrences. */
  lemma FirstsKeepOrder<T(!new), K>(xs: seq<T>, key: T -> K, i: nat, j: nat)
    requires i < j < |xs| && IsFirst(xs, key, i) && IsFirst(xs, key, j)
    ensures Before(Dedup(xs, key, {}), xs[i], xs[j])
  {
    DedupIsFirsts(xs, key);
    var ps := FirstsAt(xs, key, |xs|);
    assert i in ps && j in ps;
    var m :| 0 <= m < |ps| && ps[m] == i;
    var n :| 0 <= n < |ps| && ps[n] == j;
    RisingIndex(ps, m, n);
  }
}
