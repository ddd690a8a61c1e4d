/** Reciprocal Rank Fusion of ranked id lists, over exact reals, and hybrid retrieval. */
module Fusion {
  import opened Collections
  import opened Ordering

  type Id = string

  datatype Scored = Scored(id: Id, score: real)

  datatype FusionError = ZeroDivision

  /** `1.0 / (k + rank)` */
  function Term(k: int, rank: int): real
    requires k + rank != 0
  {
    1.0 / (k + rank) as real
  }

  /** No rank of the list makes the denominator zero. */
  predicate Divides(ranking: seq<Id>, k: int) { !(1 <= -k <= |ranking|) }

  predicate AllDivide(rankings: seq<seq<Id>>, k: int) {
    forall i :: 0 <= i < |rankings| ==> Divides(rankings[i], k)
  }

  // ---- what a score is --------------------------------------------------------

  /** The terms that the first `n` places of one ranking give to `id`. */
  function Share(ranking: seq<Id>, k: int, id: Id, n: nat): real
    requires n <= |ranking| && Divides(ranking, k)
  {
    if n == 0 then 0.0
    else Share(ranking, k, id, n - 1) + (if ranking[n - 1] == id then Term(k, n) else 0.0)
  }

  /** The sum of 1/(k + rank) over all occurrences of `id` in the rankings. */
  function Score(rankings: seq<seq<Id>>, k: int, id: Id): real
    requires AllDivide(rankings, k)
  {
    if rankings == [] then 0.0
    else Share(rankings[0], k, id, |rankings[0]|) + Score(rankings[1..], k, id)
  }

  /** Ids in the order the dictionary first sees them. */
  function Seen(xs: seq<Id>): seq<Id> { Dedup(xs, Itself(), {}) }

  function Items(ids: seq<Id>, rankings: seq<seq<Id>>, k: int): (r: seq<Scored>)
    requires AllDivide(rankings, k)
    ensures |r| == |ids| && forall i :: 0 <= i < |ids| ==> r[i] == Scored(ids[i], Score(rankings, k, ids[i]))
  {
    seq(|ids|, i requires 0 <= i < |ids| => Scored(ids[i], Score(rankings, k, ids[i])))
  }

  function Descending(): (f: Scored -> real)
    ensures forall s :: f(s) == -s.score
  {
    (s: Scored) => -s.score
  }

  /** `sorted(scores.items(), key=score, reverse=True)`: ties keep dictionary order. */
  function Fused(rankings: seq<seq<Id>>, k: int): seq<Scored>
    requires AllDivide(rankings, k)
  {
    SortBy(Items(Seen(Flatten(rankings)), rankings, k), Descending())
  }

  // ---- the dictionary loop ----------------------------------------------------------

  lemma {:induction false} DedupSnoc(xs: seq<Id>, x: Id, seen: set<Id>)
    ensures Dedup(xs + [x], Itself(), seen)
         == Dedup(xs, Itself(), seen) + (if x in seen || x in xs then [] else [x])
  {
    if xs == [] {
      assert xs + [x] == [x];
      assert Dedup([x][1..], Itself(), seen) == [] && Dedup([x][1..], Itself(), seen + {x}) == [];
    } else {
      assert (xs + [x])[1..] == xs[1..] + [x];
      var s' := if xs[0] in seen then seen else seen + {xs[0]};
      DedupSnoc(xs[1..], x, s');
      assert x in xs <==> x == xs[0] || x in xs[1..];
    }
  }

  /** What the dictionary holds after the given ids have been scored. */
  ghost predicate Tallies(scores: Dict<Id, real>, xs: seq<Id>, score: Id -> real) {
    && scores.keys == Seen(xs)
    && (forall id :: id in scores.at <==> id in xs)
    && (forall id :: id in scores.at ==> scores.at[id] == score(id))
  }

  ghost function Partial(rankings: seq<seq<Id>>, k: int, a: nat, b: nat): Id -> real
    requires AllDivide(rankings, k) && a < |rankings| && b <= |rankings[a]|
  {
    (id: Id) => Score(rankings[..a], k, id) + Share(rankings[a], k, id, b)
  }

  ghost function Whole(rankings: seq<seq<Id>>, k: int): Id -> real
    requires AllDivide(rankings, k)
  {
    (id: Id) => Score(rankings, k, id)
  }

  lemma {:induction false} ScoreSnoc(rankings: seq<seq<Id>>, r: seq<Id>, k: int, id: Id)
    requires AllDivide(rankings + [r], k)
    ensures AllDivide(rankings, k) && Divides(r, k)
    ensures Score(rankings + [r], k, id) == Score(rankings, k, id) + Share(r, k, id, |r|)
  {
    assert (rankings + [r])[|rankings|] == r;
    forall i | 0 <= i < |rankings| ensures Divides(rankings[i], k) {
      assert (rankings + [r])[i] == rankings[i];
    }
    if rankings == [] {
      assert rankings + [r] == [r];
      assert Score([r][1..], k, id) == 0.0;
    } else {
      assert (rankings + [r])[1..] == rankings[1..] + [r];
      ScoreSnoc(rankings[1..], r, k, id);
    }
  }

  lemma {:induction false} ShareAbsent(ranking: seq<Id>, k: int, id: Id, n: nat)
    requires n <= |ranking| && Divides(ranking, k) && id !in ranking[..n]
    ensures Share(ranking, k, id, n) == 0.0
  {
    if n > 0 {
      assert ranking[..n][n - 1] == ranking[n - 1];
      assert forall x :: x in ranking[..n - 1] ==> x in ranking[..n];
      ShareAbsent(ranking, k, id, n - 1);
    }
  }

  lemma {:induction false} ScoreAbsent(rankings: seq<seq<Id>>, k: int, id: Id)
    requires AllDivide(rankings, k) && id !in Flatten(rankings)
    ensures Score(rankings, k, id) == 0.0
  {
    if rankings != [] {
      assert forall x :: x in rankings[0] ==> x in Flatten(rankings);
      assert rankings[0][..|rankings[0]|] == rankings[0];
      ShareAbsent(rankings[0], k, id, |rankings[0]|);
      ScoreAbsent(rankings[1..], k, id);
    }
  }

  /** One assignment `scores[id] = scores.get(id, 0.0) + 1.0 / (k + rank)`. */
  lemma TallyStep(scores: Dict<Id, real>, rankings: seq<seq<Id>>, k: int, a: nat, b: nat)
    requires AllDivide(rankings, k) && a < |rankings| && b < |rankings[a]|
    requires Divides(rankings[a], k)
    requires Tallies(scores, Flatten(rankings[..a]) + rankings[a][..b], Partial(rankings, k, a, b))
    ensures var id := rankings[a][b];
            Tallies(scores.Put(id, (if id in scores.at then scores.at[id] else 0.0) + Term(k, b + 1)),
                    Flatten(rankings[..a]) + rankings[a][..b + 1], Partial(rankings, k, a, b + 1))
  {
    var xs := Flatten(rankings[..a]) + rankings[a][..b];
    var x := rankings[a][b];
    assert Flatten(rankings[..a]) + rankings[a][..b + 1] == xs + [x];
    DedupSnoc(xs, x, {});
    if x !in scores.at {
      assert forall y :: y in Flatten(rankings[..a]) || y in rankings[a][..b] ==> y in xs;
      ScoreAbsent(rankings[..a], k, x);
      ShareAbsent(rankings[a], k, x, b);
    }
  }

  lemma TallyNext(scores: Dict<Id, real>, rankings: seq<seq<Id>>, k: int, a: nat)
    requires AllDivide(rankings, k) && a < |rankings|
    requires Tallies(scores, Flatten(rankings[..a]) + rankings[a], Partial(rankings, k, a, |rankings[a]|))
    ensures Tallies(scores, Flatten(rankings[..a + 1]), Whole(rankings[..a + 1], k))
  {
    assert rankings[..a + 1] == rankings[..a] + [rankings[a]];
    FlattenSnoc(rankings[..a], rankings[a]);
    forall id ensures Whole(rankings[..a + 1], k)(id) == Partial(rankings, k, a, |rankings[a]|)(id) {
      ScoreSnoc(rankings[..a], rankings[a], k, id);
    }
  }

  method ReciprocalRankFusion(rankings: seq<seq<Id>>, k: int) returns (r: Result<seq<Scored>, FusionError>)
    ensures r.Ok? <==> AllDivide(rankings, k)
    ensures AllDivide(rankings, k) ==> r == Ok(Fused(rankings, k))
  {
    var scores: Dict<Id, real> := Dict([], map[]);
    for a := 0 to |rankings|
      invariant AllDivide(rankings[..a], k)
      invariant Tallies(scores, Flatten(rankings[..a]), Whole(rankings[..a], k))
    {
      var ok;
      scores, ok := ScoreRanking(scores, rankings, a, k);
      if !ok {
        assert !Divides(rankings[a], k);
        return Err(ZeroDivision);
      }
    }
    assert rankings[..|rankings|] == rankings;
    TalliedItems(scores, rankings, k);
    r := Ok(SortBy(ItemsOf(scores), Descending()));
  }

  /** `scores.items()` */
  function ItemsOf(scores: Dict<Id, real>): seq<Scored> {
    seq(|scores.keys|, i requires 0 <= i < |scores.keys| =>
      Scored(scores.keys[i], if scores.keys[i] in scores.at then scores.at[scores.keys[i]] else 0.0))
  }

  lemma TalliedItems(scores: Dict<Id, real>, rankings: seq<seq<Id>>, k: int)
    requires AllDivide(rankings, k) && Tallies(scores, Flatten(rankings), Whole(rankings, k))
    ensures ItemsOf(scores) == Items(Seen(Flatten(rankings)), rankings, k)
  {
    DedupSound(Flatten(rankings), Itself(), {});
    forall i | 0 <= i < |scores.keys| ensures scores.keys[i] in scores.at {
      assert scores.keys[i] in Seen(Flatten(rankings));
    }
  }

  /** The inner loop; `ok` is false when a denominator is zero. */
  method ScoreRanking(scores0: Dict<Id, real>, rankings: seq<seq<Id>>, a: nat, k: int)
    returns (scores: Dict<Id, real>, ok: bool)
    requires a < |rankings| && AllDivide(rankings[..a], k)
    requires Tallies(scores0, Flatten(rankings[..a]), Whole(rankings[..a], k))
    ensures ok <==> Divides(rankings[a], k)
    ensures ok ==> AllDivide(rankings[..a + 1], k)
                   && Tallies(scores, Flatten(rankings[..a + 1]), Whole(rankings[..a + 1], k))
  {
    hide Tallies, Share, Score, Flatten;
    scores := scores0;
    var ranking := rankings[a];
    if 1 <= -k <= |ranking| {
      return scores, false;
    }
    ghost var now := rankings[..a + 1];
    assert now[..a] == rankings[..a] && now[a] == ranking;
    assert AllDivide(now, k) by {
      forall i | 0 <= i < |now| ensures Divides(now[i], k) {
        if i < a {
          assert now[i] == rankings[..a][i];
        }
      }
    }
    TallyStart(scores, now, k, a);
    for b := 0 to |ranking|
      invariant Tallies(scores, Flatten(now[..a]) + ranking[..b], Partial(now, k, a, b))
    {
      var id := ranking[b];
      TallyStep(scores, now, k, a, b);
      scores := scores.Put(id, (if id in scores.at then scores.at[id] else 0.0) + 1.0 / (k + (b + 1)) as real);
    }
    assert ranking[..|ranking|] == ranking;
    TallyNext(scores, now, k, a);
    assert now[..a + 1] == now;
    ok := true;
  }

  lemma TallyStart(scores: Dict<Id, real>, rankings: seq<seq<Id>>, k: int, a: nat)
    requires AllDivide(rankings, k) && a < |rankings| && AllDivide(rankings[..a], k)
    requires Tallies(scores, Flatten(rankings[..a]), Whole(rankings[..a], k))
    ensures Tallies(scores, Flatten(rankings[..a]) + rankings[a][..0], Partial(rankings, k, a, 0))
  {
    AppendNil(Flatten(rankings[..a]), rankings[a][..0]);
  }

  // ---- the fused list --------------------------------------------------------------------

  ghost predicate DistinctIds(xs: seq<Scored>) {
    forall i, j :: 0 <= i < j < |xs| ==> xs[i].id != xs[j].id
  }

  /** Each id of the rankings once, with its score, best first. */
  lemma FusedFacts(rankings: seq<seq<Id>>, k: int)
    requires AllDivide(rankings, k)
    ensures var f := Fused(rankings, k);
            && (forall x :: x in f <==> x.id in Flatten(rankings) && x.score == Score(rankings, k, x.id))
            && (forall i, j :: 0 <= i < j < |f| ==> f[i].score >= f[j].score)
            && DistinctIds(f)
  {
    hide Score, Flatten, DistinctIds;
    var xs := Flatten(rankings);
    var items := Items(Seen(xs), rankings, k);
    SortByFacts(items, Descending());
    SortByElements(items, Descending());
    ItemsElements(rankings, k);
    ItemsDistinct(rankings, k);
    SortedDistinct(items, SortBy(items, Descending()));
  }

  /** Ids with equal scores stand in the order in which the rankings first name them. */
  lemma TiesKeepOrder(rankings: seq<seq<Id>>, k: int, i: nat, j: nat)
    requires AllDivide(rankings, k) && i < j < |Flatten(rankings)|
    requires forall m :: 0 <= m < i ==> Flatten(rankings)[m] != Flatten(rankings)[i]
    requires forall m :: 0 <= m < j ==> Flatten(rankings)[m] != Flatten(rankings)[j]
    requires Score(rankings, k, Flatten(rankings)[i]) == Score(rankings, k, Flatten(rankings)[j])
    ensures var a, b := Flatten(rankings)[i], Flatten(rankings)[j];
            Before(Fused(rankings, k), Scored(a, Score(rankings, k, a)), Scored(b, Score(rankings, k, b)))
  {
    hide Score, Flatten;
    var xs := Flatten(rankings);
    var ids := Seen(xs);
    FirstsKeepOrder(xs, Itself(), i, j);
    var m, n :| 0 <= m < n < |ids| && ids[m] == xs[i] && ids[n] == xs[j];
    var items := Items(ids, rankings, k);
    assert items[m] == Scored(xs[i], Score(rankings, k, xs[i])) && items[n] == Scored(xs[j], Score(rankings, k, xs[j]));
    SortKeepsOrder(items, Descending(), items[m], items[n]);
  }

  lemma ItemsElements(rankings: seq<seq<Id>>, k: int)
    requires AllDivide(rankings, k)
    ensures forall x :: x in Items(Seen(Flatten(rankings)), rankings, k) <==>
              x.id in Flatten(rankings) && x.score == Score(rankings, k, x.id)
  {
    hide Score, Flatten;
    var xs := Flatten(rankings);
    var ids := Seen(xs);
    var items := Items(ids, rankings, k);
    DedupSound(xs, Itself(), {});
    forall x ensures x in items <==> x.id in xs && x.score == Score(rankings, k, x.id) {
      if x in items {
        var i :| 0 <= i < |items| && items[i] == x;
        assert ids[i] in ids;
      }
      if x.id in xs && x.score == Score(rankings, k, x.id) {
        var i :| 0 <= i < |xs| && xs[i] == x.id;
        DedupKeeps(xs, Itself(), {}, i);
        var j :| 0 <= j < |ids| && ids[j] == x.id;
        assert items[j] == x;
      }
    }
  }

  lemma ItemsDistinct(rankings: seq<seq<Id>>, k: int)
    requires AllDivide(rankings, k)
    ensures DistinctIds(Items(Seen(Flatten(rankings)), rankings, k))
  {
    hide Score, Flatten;
    DedupSound(Flatten(rankings), Itself(), {});
  }

  /** Ids, being distinct in a list of items, are distinct in any rearrangement. */
  lemma SortedDistinct(items: seq<Scored>, sorted: seq<Scored>)
    requires multiset(sorted) == multiset(items)
    requires DistinctIds(items)
    ensures DistinctIds(sorted)
  {
    forall i, j | 0 <= i < j < |sorted| ensures sorted[i].id != sorted[j].id {
      if sorted[i].id == sorted[j].id {
        assert sorted[i] in multiset(sorted) && sorted[j] in multiset(sorted);
        assert sorted[i] in items && sorted[j] in items;
        var x := sorted[i];
        assert sorted[j] == x;
        TwiceCounted(sorted, i, j);
        OnceCounted(items, x);
      }
    }
  }

  lemma TwiceCounted(xs: seq<Scored>, i: nat, j: nat)
    requires i < j < |xs| && xs[i] == xs[j]
    ensures multiset(xs)[xs[i]] >= 2
  {
    var x := xs[i];
    assert xs == xs[..j] + ([x] + xs[j + 1..]);
    assert multiset(xs) == multiset(xs[..j]) + multiset([x] + xs[j + 1..]);
    assert x == xs[..j][i];
    assert x in multiset(xs[..j]);
  }

  lemma {:induction false} OnceCounted(items: seq<Scored>, x: Scored)
    requires DistinctIds(items)
    ensures multiset(items)[x] <= 1
  {
    if items != [] {
      OnceCounted(items[1..], x);
      assert items == [items[0]] + items[1..];
      assert multiset(items) == multiset([items[0]]) + multiset(items[1..]);
      if items[0] == x {
        assert x !in items[1..];
        assert x !in multiset(items[1..]);
      }
    }
  }

  // ---- independence of the order of the rankings ------------------------------------------

  lemma {:induction false} ScoreAppend(a: seq<seq<Id>>, b: seq<seq<Id>>, k: int, id: Id)
    requires AllDivide(a + b, k) && AllDivide(a, k) && AllDivide(b, k)
    ensures Score(a + b, k, id) == Score(a, k, id) + Score(b, k, id)
  {
    if a == [] {
      assert a + b == b;
    } else {
      assert (a + b)[1..] == a[1..] + b;
      ScoreAppend(a[1..], b, k, id);
    }
  }

  /** Scores do not depend on the order in which the rankings are given. */
  lemma {:induction false} ScoreSymmetric(rankings: seq<seq<Id>>, other: seq<seq<Id>>, k: int, id: Id)
    requires multiset(rankings) == multiset(other) && AllDivide(rankings, k)
    ensures AllDivide(other, k)
    ensures Score(rankings, k, id) == Score(other, k, id)
  {
    SameDivide(rankings, other, k);
    if rankings == [] {
      assert |multiset(other)| == 0;
      assert other == [];
    } else {
      var r := rankings[0];
      assert r in multiset(other);
      var i :| 0 <= i < |other| && other[i] == r;
      var a, b := other[..i], other[i + 1..];
      assert other == a + ([r] + b);
      assert rankings == [r] + rankings[1..];
      WithoutOne(rankings, other, i);
      hide Share;
      ScoreSymmetric(rankings[1..], a + b, k, id);
      DividePart(a, b, [r], k, other);
      ScoreAppend(a, b, k, id);
      ScoreAppend(a, [r] + b, k, id);
      assert ([r] + b)[1..] == b;
    }
  }

  lemma WithoutOne<T>(xs: seq<T>, ys: seq<T>, i: nat)
    requires xs != [] && i < |ys| && ys[i] == xs[0] && multiset(xs) == multiset(ys)
    ensures multiset(xs[1..]) == multiset(ys[..i] + ys[i + 1..])
  {
    assert xs == [xs[0]] + xs[1..];
    assert ys == ys[..i] + [ys[i]] + ys[i + 1..];
    assert multiset(xs) == multiset{xs[0]} + multiset(xs[1..]);
    assert multiset(ys) == multiset{ys[i]} + multiset(ys[..i] + ys[i + 1..]);
    assert multiset(xs[1..]) == multiset(xs) - multiset{xs[0]};
  }

  lemma SameDivide(rankings: seq<seq<Id>>, other: seq<seq<Id>>, k: int)
    requires multiset(rankings) == multiset(other) && AllDivide(rankings, k)
    ensures AllDivide(other, k)
  {
    forall i | 0 <= i < |other| ensures Divides(other[i], k) {
      assert other[i] in multiset(other);
      assert other[i] in rankings;
    }
  }

  lemma DividePart(a: seq<seq<Id>>, b: seq<seq<Id>>, r: seq<seq<Id>>, k: int, other: seq<seq<Id>>)
    requires other == a + (r + b) && AllDivide(other, k)
    ensures AllDivide(a, k) && AllDivide(b, k) && AllDivide(r + b, k) && AllDivide(a + b, k)
  {
    assert forall i :: 0 <= i < |a| ==> a[i] == other[i];
    assert forall i :: 0 <= i < |r + b| ==> (r + b)[i] == other[|a| + i];
    assert forall i :: 0 <= i < |b| ==> b[i] == (r + b)[|r| + i];
  }

  // ---- better ranks score no less --------------------------------------------------------

  /** In a list without repetitions the share of an id is the term of its rank. */
  lemma {:induction false} ShareOfRank(ranking: seq<Id>, k: int, i: nat, n: nat)
    requires Distinct(ranking) && Divides(ranking, k) && i < |ranking| && n <= |ranking|
    ensures Share(ranking, k, ranking[i], n) == if i < n then Term(k, i + 1) else 0.0
  {
    if n > 0 {
      ShareOfRank(ranking, k, i, n - 1);
    }
  }

  lemma TermDecreases(k: int, a: int, b: int)
    requires 0 < k + a <= k + b
    ensures Term(k, a) >= Term(k, b) > 0.0
  {
    Reciprocals((k + a) as real, (k + b) as real);
  }

  lemma Reciprocals(x: real, y: real)
    requires 0.0 < x <= y
    ensures 1.0 / x >= 1.0 / y > 0.0
  {
    var p, q := 1.0 / x, 1.0 / y;
    assert p * x == 1.0 && q * y == 1.0;
    var z := x * y;
    assert p * z == y by {
      assert p * z == (p * x) * y;
    }
    assert q * z == x by {
      assert q * z == (q * y) * x;
    }
    ScalePreserves(q, p, z);
  }

  /** `a` stands at least as high as `b` wherever `b` stands. */
  ghost predicate NoWorse(ranking: seq<Id>, a: Id, b: Id) {
    forall j :: 0 <= j < |ranking| && ranking[j] == b ==> exists i :: 0 <= i <= j && ranking[i] == a
  }

  lemma ShareNonNegative(ranking: seq<Id>, k: int, id: Id)
    requires Distinct(ranking) && k >= 0
    ensures Share(ranking, k, id, |ranking|) >= 0.0
  {
    if id in ranking {
      var i :| 0 <= i < |ranking| && ranking[i] == id;
      ShareOfRank(ranking, k, i, |ranking|);
      TermDecreases(k, i + 1, i + 1);
    } else {
      assert ranking[..|ranking|] == ranking;
      ShareAbsent(ranking, k, id, |ranking|);
    }
  }

  lemma ShareMonotone(ranking: seq<Id>, k: int, a: Id, b: Id)
    requires Distinct(ranking) && k >= 0 && NoWorse(ranking, a, b)
    ensures Share(ranking, k, a, |ranking|) >= Share(ranking, k, b, |ranking|)
  {
    hide Term;
    ShareNonNegative(ranking, k, a);
    if b in ranking {
      var j :| 0 <= j < |ranking| && ranking[j] == b;
      var i :| 0 <= i <= j && ranking[i] == a;
      ShareOfRank(ranking, k, i, |ranking|);
      ShareOfRank(ranking, k, j, |ranking|);
      TermDecreases(k, i + 1, j + 1);
    } else {
      assert ranking[..|ranking|] == ranking;
      ShareAbsent(ranking, k, b, |ranking|);
    }
  }

  /** An id ranked at least as well as another in every list holding the other never
      scores less. */
  lemma {:induction false} ScoreMonotone(rankings: seq<seq<Id>>, k: int, a: Id, b: Id)
    requires k >= 0 && forall i :: 0 <= i < |rankings| ==> Distinct(rankings[i]) && NoWorse(rankings[i], a, b)
    ensures Score(rankings, k, a) >= Score(rankings, k, b)
  {
    hide Share;
    if rankings != [] {
      ShareMonotone(rankings[0], k, a, b);
      ScoreMonotone(rankings[1..], k, a, b);
    }
  }

  // ---- both lists beat one -------------------------------------------------------------------

  lemma ScoreOfTwo(x: seq<Id>, y: seq<Id>, k: int, id: Id)
    requires Divides(x, k) && Divides(y, k)
    ensures Score([x, y], k, id) == Share(x, k, id, |x|) + Share(y, k, id, |y|)
  {
    hide Share;
    assert [x, y][1..] == [y];
    assert Score([y], k, id) == Share(y, k, id, |y|) + Score([y][1..], k, id);
    assert Score([y][1..], k, id) == 0.0;
  }

  lemma ShareBounds(ranking: seq<Id>, k: int, n: nat, id: Id)
    requires Distinct(ranking) && k >= 0 && |ranking| <= n && id in ranking
    ensures Term(k, n) <= Share(ranking, k, id, |ranking|) <= Term(k, 1)
  {
    hide Term;
    var i :| 0 <= i < |ranking| && ranking[i] == id;
    ShareOfRank(ranking, k, i, |ranking|);
    TermDecreases(k, 1, i + 1);
    TermDecreases(k, i + 1, n);
  }

  /** Twice the worst term against once the best one. */
  lemma TwoAgainstOne(k: int, n: nat)
    requires k >= 0 && n >= 1
    ensures 2.0 * Term(k, n) > Term(k, 1) <==> n < k + 2
  {
    var x, y := (k + n) as real, (k + 1) as real;
    var p, q := 1.0 / x, 1.0 / y;
    assert p * x == 1.0 && q * y == 1.0;
    CrossMultiply(p, x, q, y);
    assert x < 2.0 * y <==> n < k + 2;
  }

  lemma CrossMultiply(p: real, x: real, q: real, y: real)
    requires x > 0.0 && y > 0.0 && p * x == 1.0 && q * y == 1.0
    ensures 2.0 * p > q <==> x < 2.0 * y
  {
    var z := x * y;
    assert z > 0.0;
    assert (2.0 * p) * z == 2.0 * y by {
      assert (2.0 * p) * z == 2.0 * ((p * x) * y);
    }
    assert q * z == x by {
      assert q * z == (q * y) * x;
    }
    ScalePreserves(2.0 * p, q, z);
  }

  lemma ScalePreserves(a: real, b: real, z: real)
    requires z > 0.0
    ensures a > b <==> a * z > b * z
  {
    if a > b {
      assert (a - b) * z > 0.0;
    } else {
      assert (b - a) * z >= 0.0;
    }
  }

  /** Every id found by both lists scores strictly more than every id found by one. */
  ghost predicate BothBeatOne(dense: seq<Id>, sparse: seq<Id>, k: int)
    requires Divides(dense, k) && Divides(sparse, k)
  {
    forall b, s :: b in dense && b in sparse && (s in dense) != (s in sparse) ==>
      Score([dense, sparse], k, b) > Score([dense, sparse], k, s)
  }

  lemma BothBeatOneHolds(dense: seq<Id>, sparse: seq<Id>, k: int, n: nat)
    requires k >= 0 && Distinct(dense) && Distinct(sparse) && |dense| <= n && |sparse| <= n && n < k + 2
    ensures BothBeatOne(dense, sparse, k)
  {
    hide Term, Score, Share;
    forall b, s | b in dense && b in sparse && (s in dense) != (s in sparse)
      ensures Score([dense, sparse], k, b) > Score([dense, sparse], k, s)
    {
      ScoreOfTwo(dense, sparse, k, b);
      ScoreOfTwo(dense, sparse, k, s);
      ShareBounds(dense, k, n, b);
      ShareBounds(sparse, k, n, b);
      TwoAgainstOne(k, n);
      if s in dense {
        ShareBounds(dense, k, n, s);
        AbsentShare(sparse, k, s);
      } else {
        ShareBounds(sparse, k, n, s);
        AbsentShare(dense, k, s);
      }
    }
  }

  lemma AbsentShare(ranking: seq<Id>, k: int, id: Id)
    requires Divides(ranking, k) && id !in ranking
    ensures Share(ranking, k, id, |ranking|) == 0.0
  {
    assert ranking[..|ranking|] == ranking;
    ShareAbsent(ranking, k, id, |ranking|);
  }

  /** An id of its own for every number. */
  function Named(i: nat): Id { seq(i, _ => 'x') }

  /** `n` ids, the first one `head`, the last one `Named(n - 1)`. */
  function Column(head: Id, n: nat): (r: seq<Id>)
    ensures |r| == n
  {
    seq(n, i requires 0 <= i < n => if i == 0 then head else Named(i))
  }

  lemma ColumnDistinct(head: Id, n: nat)
    requires head != "" && head[0] != 'x'
    ensures Distinct(Column(head, n))
  {
    forall i, j | 0 <= i < j < n ensures Column(head, n)[i] != Column(head, n)[j] {
      assert |Named(j)| == j && Named(j)[0] == 'x';
      if i > 0 {
        assert |Named(i)| == i;
      }
    }
  }

  /** The bound is sharp: from n = k + 2 on there are lists of length n in which an id
      of both lists does not score more than an id of one. */
  lemma BothBeatOneFails(k: int, n: nat) returns (dense: seq<Id>, sparse: seq<Id>)
    requires k >= 0 && n >= k + 2
    ensures Distinct(dense) && Distinct(sparse) && |dense| == n && |sparse| == n
    ensures !BothBeatOne(dense, sparse, k)
  {
    hide Term, Score, Share;
    dense, sparse := Column("a", n), Column("b", n);
    ColumnDistinct("a", n);
    ColumnDistinct("b", n);
    var b, s := Named(n - 1), "a";
    assert dense[n - 1] == b && sparse[n - 1] == b && dense[0] == s;
    assert s !in sparse by {
      forall i | 0 <= i < n ensures sparse[i] != "a" {
        if i > 0 {
          assert |Named(i)| == i && Named(i)[0] == 'x';
        }
      }
    }
    ScoreOfTwo(dense, sparse, k, b);
    ScoreOfTwo(dense, sparse, k, s);
    ShareOfRank(dense, k, n - 1, n);
    ShareOfRank(sparse, k, n - 1, n);
    ShareOfRank(dense, k, 0, n);
    AbsentShare(sparse, k, s);
    TwoAgainstOne(k, n);
  }

  /** For duplicate-free lists of up to `n` ids: ids of both lists beat ids of one, for
      all such lists, exactly when n < k + 2. */
  lemma BothBeatOneIff(k: int, n: nat)
    requires k >= 0
    ensures n < k + 2 <==>
            forall dense, sparse :: Distinct(dense) && Distinct(sparse) && |dense| <= n && |sparse| <= n ==>
              BothBeatOne(dense, sparse, k)
  {
    hide BothBeatOne, Distinct;
    if n < k + 2 {
      forall dense, sparse | Distinct(dense) && Distinct(sparse) && |dense| <= n && |sparse| <= n
        ensures BothBeatOne(dense, sparse, k)
      {
        BothBeatOneHolds(dense, sparse, k, n);
      }
    } else {
      var dense, sparse := BothBeatOneFails(k, n);
    }
  }

  /** In the fused list every id of both lists comes before every id of one. */
  lemma BothComeFirst(dense: seq<Id>, sparse: seq<Id>, k: int, n: nat, i: nat, j: nat)
    requires k >= 0 && Distinct(dense) && Distinct(sparse) && |dense| <= n && |sparse| <= n && n < k + 2
    requires AllDivide([dense, sparse], k)
    requires var f := Fused([dense, sparse], k);
             && i < |f| && j < |f|
             && f[i].id in dense && f[i].id in sparse && (f[j].id in dense) != (f[j].id in sparse)
    ensures i < j
  {
    hide Score, Share, Flatten, SortBy, Items, Seen;
    var f := Fused([dense, sparse], k);
    FusedFacts([dense, sparse], k);
    BothBeatOneHolds(dense, sparse, k, n);
    assert f[i] in f && f[j] in f;
    assert f[i].score > f[j].score;
  }

  // ---- hybrid retrieval -----------------------------------------------------------------------

  type Metadata = map<string, string>

  datatype Hit = Hit(id: Id, text: string, metadata: Metadata)

  datatype RetrievedChunk = RetrievedChunk(id: Id, score: real, text: string, metadata: Metadata)

  function IdsOf(hits: seq<Hit>): (r: seq<Id>)
    ensures |r| == |hits| && forall i :: 0 <= i < |r| ==> r[i] == hits[i].id
  {
    seq(|hits|, i requires 0 <= i < |hits| => hits[i].id)
  }

  /** What the registry holds for an id: the last dense hit, else the first sparse one. */
  ghost predicate Registered(hit: Hit, dense: seq<Hit>, sparse: seq<Hit>) {
    || LastOf(dense, |dense|, hit)
    || ((forall j :: 0 <= j < |dense| ==> dense[j].id != hit.id)
        && exists i :: 0 <= i < |sparse| && sparse[i] == hit && forall j :: 0 <= j < i ==> sparse[j].id != hit.id)
  }

  /** `dense` and `sparse` are the two searches' hits; no lookup in the registry can fail. */
  method Retrieve(dense: seq<Hit>, sparse: seq<Hit>, k: int, limit: int)
    returns (r: Result<seq<RetrievedChunk>, FusionError>)
    ensures r.Ok? <==> AllDivide([IdsOf(dense), IdsOf(sparse)], k)
    ensures r.Ok? ==>
              var f := UpTo(Fused([IdsOf(dense), IdsOf(sparse)], k), limit);
              && |r.value| == |f|
              && forall i :: 0 <= i < |f| ==>
                   && r.value[i].id == f[i].id && r.value[i].score == f[i].score
                   && Registered(Hit(f[i].id, r.value[i].text, r.value[i].metadata), dense, sparse)
  {
    var registry := Register(dense, sparse);
    var fused := ReciprocalRankFusion([IdsOf(dense), IdsOf(sparse)], k);
    if fused.Err? {
      return Err(fused.error);
    }
    hide Fused, AllDivide, Registered, Score;
    FusedFacts([IdsOf(dense), IdsOf(sparse)], k);
    FlattenTwo(IdsOf(dense), IdsOf(sparse));
    var top := UpTo(fused.value, limit);
    forall i | 0 <= i < |top| ensures top[i].id in registry {
      assert fused.value[i] == top[i];
    }
    var out := Rebuild(top, registry);
    r := Ok(out);
  }

  /** `for _id, score in fused[:limit]` */
  method Rebuild(top: seq<Scored>, registry: map<Id, Hit>) returns (out: seq<RetrievedChunk>)
    requires forall i :: 0 <= i < |top| ==> top[i].id in registry
    ensures |out| == |top|
    ensures forall i :: 0 <= i < |top| ==>
              out[i] == RetrievedChunk(top[i].id, top[i].score, registry[top[i].id].text, registry[top[i].id].metadata)
  {
    out := [];
    for i := 0 to |top|
      invariant |out| == i
      invariant forall j :: 0 <= j < i ==>
                  out[j] == RetrievedChunk(top[j].id, top[j].score,
                                           registry[top[j].id].text, registry[top[j].id].metadata)
    {
      var hit := registry[top[i].id];
      out := out + [RetrievedChunk(top[i].id, top[i].score, hit.text, hit.metadata)];
    }
  }

  lemma FlattenTwo<T>(a: seq<T>, b: seq<T>)
    ensures Flatten([a, b]) == a + b
  {
    assert [a, b][1..] == [b];
    assert Flatten([b]) == b + Flatten([b][1..]);
    AppendNil(b, Flatten([b][1..]));
  }

  /** The registry loops. */
  method Register(dense: seq<Hit>, sparse: seq<Hit>) returns (registry: map<Id, Hit>)
    ensures forall id :: id in registry <==> id in IdsOf(dense) || id in IdsOf(sparse)
    ensures forall id :: id in registry ==> registry[id].id == id && Registered(registry[id], dense, sparse)
  {
    registry := RegisterDense(dense);
    ghost var first := registry;
    for i := 0 to |sparse|
      invariant forall id :: id in registry <==> id in IdsOf(dense) || id in IdsOf(sparse)[..i]
      invariant forall id :: id in registry ==> registry[id].id == id && Registered(registry[id], dense, sparse)
    {
      if sparse[i].id !in registry {
        registry := registry[sparse[i].id := sparse[i]];
        FirstSparse(dense, sparse, i);
      }
      assert IdsOf(sparse)[..i + 1] == IdsOf(sparse)[..i] + [sparse[i].id];
    }
    assert IdsOf(sparse)[..|sparse|] == IdsOf(sparse);
  }

  lemma FirstSparse(dense: seq<Hit>, sparse: seq<Hit>, i: nat)
    requires i < |sparse| && sparse[i].id !in IdsOf(dense) && sparse[i].id !in IdsOf(sparse)[..i]
    ensures Registered(sparse[i], dense, sparse)
  {
    forall j | 0 <= j < |dense| ensures dense[j].id != sparse[i].id {
      assert IdsOf(dense)[j] in IdsOf(dense);
    }
    forall j | 0 <= j < i ensures sparse[j].id != sparse[i].id {
      assert IdsOf(sparse)[..i][j] in IdsOf(sparse)[..i];
    }
  }

  method RegisterDense(dense: seq<Hit>) returns (registry: map<Id, Hit>)
    ensures forall id :: id in registry <==> id in IdsOf(dense)
    ensures forall id :: id in registry ==> registry[id].id == id && LastOf(dense, |dense|, registry[id])
  {
    registry := map[];
    for i := 0 to |dense|
      invariant forall id :: id in registry <==> id in IdsOf(dense)[..i]
      invariant forall id :: id in registry ==> registry[id].id == id && LastOf(dense, i, registry[id])
    {
      ghost var before := registry;
      registry := registry[dense[i].id := dense[i]];
      assert IdsOf(dense)[..i + 1] == IdsOf(dense)[..i] + [dense[i].id];
      LastOfNext(dense, i, before, registry);
    }
    assert IdsOf(dense)[..|dense|] == IdsOf(dense);
  }

  /** The last of the first `n` dense hits with its id. */
  ghost predicate LastOf(dense: seq<Hit>, n: nat, hit: Hit)
    requires n <= |dense|
  {
    exists i :: 0 <= i < n && dense[i] == hit && forall j :: i < j < n ==> dense[j].id != hit.id
  }

  lemma LastOfNext(dense: seq<Hit>, n: nat, before: map<Id, Hit>, registry: map<Id, Hit>)
    requires n < |dense| && registry == before[dense[n].id := dense[n]]
    requires forall id :: id in before ==> before[id].id == id && LastOf(dense, n, before[id])
    ensures forall id :: id in registry ==> registry[id].id == id && LastOf(dense, n + 1, registry[id])
  {
    forall id | id in registry ensures LastOf(dense, n + 1, registry[id]) {
      if id == dense[n].id {
        assert dense[n] == registry[id];
      } else {
        var i :| 0 <= i < n && dense[i] == before[id] && forall j :: i < j < n ==> dense[j].id != before[id].id;
        assert dense[i] == registry[id];
      }
    }
  }

  /** Retrieved chunks are distinct, at most `limit` and in non-increasing score. */
  lemma RetrievedOrder(rankings: seq<seq<Id>>, k: int, limit: int)
    requires AllDivide(rankings, k)
    ensures var f := UpTo(Fused(rankings, k), limit);
            && (limit >= 0 ==> |f| <= limit)
            && DistinctIds(f) && (forall i, j :: 0 <= i < j < |f| ==> f[i].score >= f[j].score)
  {
    hide Score, Fused;
    FusedFacts(rankings, k);
    var all := Fused(rankings, k);
    var f := UpTo(all, limit);
    assert forall i :: 0 <= i < |f| ==> f[i] == all[i];
  }
}
