/** Sequence helpers shared by every component: list slicing as Python does it,
    order-preserving de-duplication, insertion-ordered dictionaries and the
    stable sort behind `sorted` and `list.sort`. */
module Collections {

  datatype Option<+T> = None | Some(value: T)

  datatype Result<+T, +E> = Ok(value: T) | Err(error: E)

  ghost predicate Distinct<T>(xs: seq<T>) {
    forall i, j :: 0 <= i < j < |xs| ==> xs[i] != xs[j]
  }

  /** Python's `xs[:n]`, a negative `n` counting from the end. */
  function UpTo<T>(xs: seq<T>, n: int): (r: seq<T>)
    ensures r <= xs
    ensures |r| == if n >= |xs| then |xs| else if n >= 0 then n else if |xs| + n >= 0 then |xs| + n else 0
  {
    if n >= |xs| then xs
    else if n >= 0 then xs[..n]
    else if |xs| + n >= 0 then xs[..|xs| + n]
    else []
  }

  function Flatten<T>(xss: seq<seq<T>>): seq<T> {
    if xss == [] then [] else xss[0] + Flatten(xss[1..])
  }

  lemma Assoc<T>(a: seq<T>, b: seq<T>, c: seq<T>)
    ensures (a + b) + c == a + (b + c)
  {
  }

  lemma DropNext<T>(xs: seq<T>, i: nat)
    requires i < |xs|
    ensures xs[i..] != [] && xs[i..][0] == xs[i] && xs[i..][1..] == xs[i + 1..]
  {
  }

  lemma DropEnds<T>(xs: seq<T>)
    ensures xs[0..] == xs && xs[|xs|..] == []
  {
  }

  lemma AppendNil<T>(a: seq<T>, b: seq<T>)
    requires b == []
    ensures a + b == a
  {
  }

  lemma AppendNilLeft<T>(a: seq<T>)
    ensures [] + a == a
  {
  }

  lemma HeadTail<T>(s: seq<T>)
    requires s != []
    ensures s == [s[0]] + s[1..]
  {
  }

  lemma {:induction false} FlattenAppend<T>(a: seq<seq<T>>, b: seq<seq<T>>)
    ensures Flatten(a + b) == Flatten(a) + Flatten(b)
  {
    hide *;
    if a == [] {
      assert a + b == b;
      FlattenNil<T>();
      assert [] + Flatten(b) == Flatten(b);
    } else {
      FlattenCons(a);
      FlattenCons(a + b);
      FlattenAppend(a[1..], b);
      assert (a + b)[1..] == a[1..] + b;
      Assoc(a[0], Flatten(a[1..]), Flatten(b));
    }
  }

  lemma FlattenNil<T>()
    ensures Flatten<T>([]) == []
  {
  }

  lemma FlattenCons<T>(a: seq<seq<T>>)
    requires a != []
    ensures Flatten(a) == a[0] + Flatten(a[1..])
  {
  }

  lemma FlattenSnoc<T>(a: seq<seq<T>>, x: seq<T>)
    ensures Flatten(a + [x]) == Flatten(a) + x
  {
    FlattenAppend(a, [x]);
    assert Flatten([x]) == x + Flatten([]);
  }

  function Map<T, U>(f: T -> U, xs: seq<T>): (r: seq<U>)
    ensures |r| == |xs|
    ensures forall i :: 0 <= i < |xs| ==> r[i] == f(xs[i])
  {
    seq(|xs|, i requires 0 <= i < |xs| => f(xs[i]))
  }

  function Filter<T(!new)>(p: T -> bool, xs: seq<T>): (r: seq<T>)
    ensures forall x :: x in r <==> x in xs && p(x)
  {
    if xs == [] then [] else
      assert xs == [xs[0]] + xs[1..];
      (if p(xs[0]) then [xs[0]] else []) + Filter(p, xs[1..])
  }

  // ---- de-duplication ---------------------------------------------------

  /** The loop `if key not in seen: seen.add(key); out.append(x)`. */
  function Dedup<T, K(==)>(xs: seq<T>, key: T -> K, seen: set<K>): seq<T> {
    if xs == [] then []
    else if key(xs[0]) in seen then Dedup(xs[1..], key, seen)
    else [xs[0]] + Dedup(xs[1..], key, seen + {key(xs[0])})
  }

  /** Position `i` holds the first element carrying its key. */
  ghost predicate IsFirst<T, K>(xs: seq<T>, key: T -> K, i: nat)
    requires i < |xs|
  {
    forall j :: 0 <= j < i ==> key(xs[j]) != key(xs[i])
  }

  /** Declarative meaning: keep precisely the positions that are first. */
  ghost function Firsts<T, K>(xs: seq<T>, key: T -> K, n: nat): seq<T>
    requires n <= |xs|
  {
    if n == 0 then []
    else Firsts(xs, key, n - 1) + (if IsFirst(xs, key, n - 1) then [xs[n - 1]] else [])
  }

  ghost function Keys<T, K>(xs: seq<T>, key: T -> K): set<K> {
    set i | 0 <= i < |xs| :: key(xs[i])
  }

  lemma {:induction false} DedupFrom<T, K>(xs: seq<T>, key: T -> K, n: nat)
    requires n <= |xs|
    ensures Firsts(xs, key, n) + Dedup(xs[n..], key, Keys(xs[..n], key)) == Firsts(xs, key, |xs|)
    decreases |xs| - n
  {
    if n < |xs| {
      assert xs[n..][1..] == xs[n + 1..];
      assert Keys(xs[..n + 1], key) == Keys(xs[..n], key) + {key(xs[n])} by {
        assert forall i :: 0 <= i < n ==> xs[..n][i] == xs[..n + 1][i];
        assert xs[..n + 1][n] == xs[n];
      }
      assert key(xs[n]) in Keys(xs[..n], key) <==> !IsFirst(xs, key, n) by {
        assert forall i :: 0 <= i < n ==> xs[..n][i] == xs[i];
      }
      if key(xs[n]) in Keys(xs[..n], key) {
        assert Keys(xs[..n + 1], key) == Keys(xs[..n], key);
      }
      DedupFrom(xs, key, n + 1);
    }
  }

  /** The seen-set loop computes exactly the first occurrences, in order. */
  lemma DedupIsFirsts<T, K>(xs: seq<T>, key: T -> K)
    ensures Dedup(xs, key, {}) == Firsts(xs, key, |xs|)
  {
    DedupFrom(xs, key, 0);
    assert xs[0..] == xs;
    assert Keys(xs[..0], key) == {};
  }

  ghost predicate Rising(ps: seq<nat>) { forall i, j :: 0 <= i < j < |ps| ==> ps[i] < ps[j] }

  /** `ps` are the positions before `n` where no earlier element carries the same key. */
  ghost predicate FirstPositions<T, K>(xs: seq<T>, key: T -> K, n: nat, ps: seq<nat>)
    requires n <= |xs|
  {
    Rising(ps) && forall i :: i in ps <==> 0 <= i < n && IsFirst(xs, key, i)
  }

  /** Position by position: the first occurrences are the elements at those positions. */
  lemma {:induction false} FirstsAt<T, K>(xs: seq<T>, key: T -> K, n: nat) returns (ps: seq<nat>)
    requires n <= |xs|
    ensures FirstPositions(xs, key, n, ps) && |ps| == |Firsts(xs, key, n)|
    ensures forall k :: 0 <= k < |ps| ==> ps[k] < n && Firsts(xs, key, n)[k] == xs[ps[k]]
  {
    ps := [];
    if n > 0 {
      hide IsFirst;
      ps := FirstsAt(xs, key, n - 1);
      if IsFirst(xs, key, n - 1) {
        ps := NextPosition(xs, key, n - 1, ps);
      }
    }
  }

  lemma NextPosition<T, K>(xs: seq<T>, key: T -> K, n: nat, ps: seq<nat>) returns (more: seq<nat>)
    requires n < |xs| && FirstPositions(xs, key, n, ps) && IsFirst(xs, key, n)
    ensures more == ps + [n] && FirstPositions(xs, key, n + 1, more)
  {
    hide IsFirst;
    more := ps + [n];
    RisingSnoc(ps, n);
  }

  lemma RisingSnoc(ps: seq<nat>, n: nat)
    requires Rising(ps) && forall p :: p in ps ==> p < n
    ensures Rising(ps + [n]) && forall i :: i in ps + [n] <==> i in ps || i == n
  {
    var more := ps + [n];
    forall i ensures i in more <==> i in ps || i == n {
      assert i in [n] <==> i == n;
    }
    forall i, j | 0 <= i < j < |more| ensures more[i] < more[j] {
      assert ps[i] in ps;
    }
  }

  /** Output elements come from the input and carry unseen keys, each key once. */
  lemma {:induction false} DedupSound<T(!new), K>(xs: seq<T>, key: T -> K, seen: set<K>)
    ensures forall x :: x in Dedup(xs, key, seen) ==> x in xs && key(x) !in seen
    ensures forall i, j :: 0 <= i < j < |Dedup(xs, key, seen)| ==>
              key(Dedup(xs, key, seen)[i]) != key(Dedup(xs, key, seen)[j])
  {
    if xs == [] {
    } else if key(xs[0]) in seen {
      DedupSound(xs[1..], key, seen);
    } else {
      DedupSound(xs[1..], key, seen + {key(xs[0])});
      var rest := Dedup(xs[1..], key, seen + {key(xs[0])});
      assert forall j :: 0 <= j < |rest| ==> rest[j] in rest;
    }
  }

  /** Every unseen key of the input is represented in the output. */
  lemma {:induction false} DedupKeeps<T, K>(xs: seq<T>, key: T -> K, seen: set<K>, i: nat)
    requires i < |xs| && key(xs[i]) !in seen
    ensures exists y :: y in Dedup(xs, key, seen) && key(y) == key(xs[i])
  {
    var out := Dedup(xs, key, seen);
    if key(xs[0]) in seen {
      DedupKeeps(xs[1..], key, seen, i - 1);
    } else if key(xs[0]) == key(xs[i]) {
      assert out[0] == xs[0];
    } else {
      var rest := Dedup(xs[1..], key, seen + {key(xs[0])});
      DedupKeeps(xs[1..], key, seen + {key(xs[0])}, i - 1);
      var y :| y in rest && key(y) == key(xs[i]);
      assert y in out;
    }
  }

  /** One round of the loop: `out0` and `seen0` are what earlier rounds left, `rest` is what
      later ones will add. */
  method DedupInto<T, K(==)>(xs: seq<T>, key: T -> K, ghost rest: seq<T>, out0: seq<T>, seen0: set<K>)
    returns (out: seq<T>, seen: set<K>)
    ensures out + Dedup(rest, key, seen) == out0 + Dedup(xs + rest, key, seen0)
  {
    out, seen := out0, seen0;
    assert xs[0..] == xs;
    for i := 0 to |xs|
      invariant out + Dedup(xs[i..] + rest, key, seen) == out0 + Dedup(xs + rest, key, seen0)
    {
      assert (xs[i..] + rest)[1..] == xs[i + 1..] + rest;
      if key(xs[i]) !in seen {
        seen := seen + {key(xs[i])};
        Assoc(out, [xs[i]], Dedup(xs[i + 1..] + rest, key, seen));
        out := out + [xs[i]];
      }
    }
    assert xs[|xs|..] + rest == rest;
  }

  /** The key of an element that is its own key. */
  function Itself<T(!new)>(): (f: T -> T)
    ensures forall x :: f(x) == x
  {
    (x: T) => x
  }

  ghost function Elements<T>(xs: seq<T>): set<T> { set x | x in xs }

  /** Distinct elements nobody has seen all pass. */
  lemma {:induction false} DedupPrefix<T(!new)>(kept: seq<T>, xs: seq<T>, seen: set<T>)
    requires Distinct(kept) && Elements(kept) !! seen
    ensures Dedup(kept + xs, Itself(), seen) == kept + Dedup(xs, Itself(), seen + Elements(kept))
  {
    if kept == [] {
      assert kept + xs == xs && seen + Elements(kept) == seen;
    } else {
      var rest := kept[1..];
      assert (kept + xs)[1..] == rest + xs;
      assert Elements(kept) == {kept[0]} + Elements(rest) by { HeadTail(kept); }
      assert kept[0] !in rest;
      DedupPrefix(rest, xs, seen + {kept[0]});
      assert seen + {kept[0]} + Elements(rest) == seen + Elements(kept);
      HeadTail(kept);
      Assoc([kept[0]], rest, Dedup(xs, Itself(), seen + Elements(kept)));
    }
  }

  /** Appending what is not there yet keeps the first occurrences of the whole. */
  lemma NewOnes<T(!new)>(kept: seq<T>, xs: seq<T>)
    requires Distinct(kept)
    ensures kept + Dedup(xs, Itself(), Elements(kept)) == Firsts(kept + xs, Itself(), |kept| + |xs|)
  {
    hide *;
    var all, seen := kept + xs, Elements(kept);
    DedupPrefix(kept, xs, {});
    assert {} + seen == seen;
    DedupIsFirsts(all, Itself());
    assert |all| == |kept| + |xs|;
  }

  // ---- insertion-ordered dictionaries -----------------------------------

  /** A Python dictionary: `keys` is the insertion order. */
  datatype Dict<K(==, !new), V> = Dict(keys: seq<K>, at: map<K, V>) {
    ghost predicate Valid() {
      && Distinct(keys)
      && (forall k :: k in keys <==> k in at)
    }

    function Put(k: K, v: V): (d: Dict<K, V>)
      ensures d.at == at[k := v]
      ensures Valid() ==> d.Valid()
      ensures keys <= d.keys
    {
      Dict(if k in at then keys else keys + [k], at[k := v])
    }

    function Values(): (r: seq<V>)
      ensures Valid() ==> |r| == |keys| && forall i :: 0 <= i < |keys| ==> r[i] == at[keys[i]]
    {
      assert Valid() ==> forall i :: 0 <= i < |keys| ==> keys[i] in at;
      ValuesAt(keys, at)
    }
  }

  function ValuesAt<K, V>(keys: seq<K>, at: map<K, V>): (r: seq<V>)
    ensures (forall i :: 0 <= i < |keys| ==> keys[i] in at) ==>
              |r| == |keys| && forall i :: 0 <= i < |keys| ==> r[i] == at[keys[i]]
  {
    if keys == [] then []
    else (if keys[0] in at then [at[keys[0]]] else []) + ValuesAt(keys[1..], at)
  }

  // ---- stable sorting ----------------------------------------------------

  function Insert<T>(x: T, xs: seq<T>, key: T -> real): seq<T> {
    if xs == [] || key(x) <= key(xs[0]) then [x] + xs
    else [xs[0]] + Insert(x, xs[1..], key)
  }

  /** `sorted(xs, key=key)`: ascending, equal keys keep their order. */
  function SortBy<T>(xs: seq<T>, key: T -> real): seq<T> {
    if xs == [] then [] else Insert(xs[0], SortBy(xs[1..], key), key)
  }

  ghost predicate Ascending<T>(xs: seq<T>, key: T -> real) {
    forall i, j :: 0 <= i < j < |xs| ==> key(xs[i]) <= key(xs[j])
  }

  lemma {:induction false} InsertPermutes<T(!new)>(x: T, xs: seq<T>, key: T -> real)
    ensures multiset(Insert(x, xs, key)) == multiset([x]) + multiset(xs)
  {
    if xs != [] && key(x) > key(xs[0]) {
      InsertPermutes(x, xs[1..], key);
      assert xs == [xs[0]] + xs[1..];
    }
  }

  lemma {:induction false} InsertAscends<T(!new)>(x: T, xs: seq<T>, key: T -> real)
    requires Ascending(xs, key)
    ensures Ascending(Insert(x, xs, key), key)
  {
    if xs != [] && key(x) > key(xs[0]) {
      InsertAscends(x, xs[1..], key);
      InsertPermutes(x, xs[1..], key);
      var t := Insert(x, xs[1..], key);
      forall i | 0 <= i < |t| ensures key(xs[0]) <= key(t[i]) {
        assert t[i] in multiset(t);
        assert t[i] == x || t[i] in xs[1..];
      }
    }
  }

  lemma {:induction false} SortByFacts<T(!new)>(xs: seq<T>, key: T -> real)
    ensures multiset(SortBy(xs, key)) == multiset(xs)
    ensures |SortBy(xs, key)| == |xs|
    ensures Ascending(SortBy(xs, key), key)
  {
    if xs != [] {
      SortByFacts(xs[1..], key);
      InsertPermutes(xs[0], SortBy(xs[1..], key), key);
      InsertAscends(xs[0], SortBy(xs[1..], key), key);
      assert xs == [xs[0]] + xs[1..];
      assert multiset(SortBy(xs, key)) == multiset(xs);
    }
    assert |multiset(SortBy(xs, key))| == |multiset(xs)|;
  }

  /** The elements of `xs` whose key is `k`. */
  function WithKey<T>(xs: seq<T>, key: T -> real, k: real): seq<T> {
    if xs == [] then []
    else (if key(xs[0]) == k then [xs[0]] else []) + WithKey(xs[1..], key, k)
  }

  lemma {:induction false} InsertStable<T>(x: T, xs: seq<T>, key: T -> real, k: real)
    ensures WithKey(Insert(x, xs, key), key, k) == WithKey([x], key, k) + WithKey(xs, key, k)
  {
    if xs != [] && key(x) > key(xs[0]) {
      InsertStable(x, xs[1..], key, k);
      assert ([xs[0]] + Insert(x, xs[1..], key))[1..] == Insert(x, xs[1..], key);
    } else {
      assert ([x] + xs)[1..] == xs;
    }
  }

  /** Elements with equal keys come out in the order they went in. */
  lemma {:induction false} SortByStable<T>(xs: seq<T>, key: T -> real, k: real)
    ensures WithKey(SortBy(xs, key), key, k) == WithKey(xs, key, k)
  {
    if xs != [] {
      SortByStable(xs[1..], key, k);
      InsertStable(xs[0], SortBy(xs[1..], key), key, k);
    }
  }

  lemma SortByElements<T(!new)>(xs: seq<T>, key: T -> real)
    ensures forall x :: x in SortBy(xs, key) <==> x in xs
    ensures |SortBy(xs, key)| == |xs|
  {
    SortByFacts(xs, key);
    forall x ensures x in SortBy(xs, key) <==> x in xs {
      assert x in SortBy(xs, key) <==> x in multiset(SortBy(xs, key));
      assert x in xs <==> x in multiset(xs);
    }
  }
}
