/** GraphRAG: seed entities for a query, the facts around them, and graph building. */
module GraphRetriever {
  import opened Collections
  import opened GraphCore
  import opened GraphOps
  import opened GraphWalk
  import opened GraphStore

  datatype GraphContext = GraphContext(entities: seq<StoredEntity>, facts: seq<GraphFact>)

  function ById(): (f: StoredEntity -> NodeId)
    ensures forall e :: f(e) == e.id
  {
    (e: StoredEntity) => e.id
  }

  /** Candidates for one name: the exact match, or up to three overlapping entities. */
  function Candidates(lower: string -> string, g: Graph, name: string): seq<StoredEntity>
  {
    match Lookup(lower, g, name, None)
    case Some(e) => [e]
    case None => Search(lower, g, name, 3)
  }

  function AllCandidates(lower: string -> string, g: Graph, names: seq<string>): seq<StoredEntity>
  {
    if names == [] then [] else Candidates(lower, g, names[0]) + AllCandidates(lower, g, names[1..])
  }

  lemma CandidatesStep(lower: string -> string, g: Graph, names: seq<string>)
    requires names != []
    ensures AllCandidates(lower, g, names) == Candidates(lower, g, names[0]) + AllCandidates(lower, g, names[1..])
  {
  }

  lemma NoCandidates(lower: string -> string, g: Graph, none: seq<string>, seen: set<NodeId>)
    requires none == []
    ensures Dedup(AllCandidates(lower, g, none), ById(), seen) == []
  {
  }

  function Seeds(lower: string -> string, g: Graph, names: seq<string>, maxEntities: int): seq<StoredEntity>
  {
    UpTo(Dedup(AllCandidates(lower, g, names), ById(), {}), maxEntities)
  }

  /** Everything around the seeds, seed by seed. */
  ghost function Around(g: Graph, seeds: seq<StoredEntity>, hops: int): seq<GraphFact> {
    if seeds == [] then []
    else FactsOf(g, NeighborEdges(g, seeds[0].id, hops)) + Around(g, seeds[1..], hops)
  }

  lemma AroundStep(g: Graph, seeds: seq<StoredEntity>, hops: int)
    requires seeds != []
    ensures Around(g, seeds, hops)
         == FactsOf(g, NeighborEdges(g, seeds[0].id, hops)) + Around(g, seeds[1..], hops)
  {
  }

  lemma NothingAround(g: Graph, none: seq<StoredEntity>, hops: int, seen: set<GraphFact>)
    requires none == []
    ensures Dedup(Around(g, none, hops), Itself(), seen) == []
  {
  }

  class Retriever {
    const store: InMemoryGraphStore
    const maxHops: int
    const maxEntities: int

    constructor (store: InMemoryGraphStore, maxHops: int, maxEntities: int)
      ensures this.store == store && this.maxHops == maxHops && this.maxEntities == maxEntities
    {
      this.store, this.maxHops, this.maxEntities := store, maxHops, maxEntities;
    }

    method CandidatesFor(name: string, t: Tenant) returns (r: seq<StoredEntity>)
      requires store.Valid()
      modifies store
      ensures store.Valid() && forall u :: store.View(u) == old(store.View(u))
      ensures r == Candidates(store.lower, store.View(t), name)
    {
      hide Lookup, Search, WellFormed;
      var exact := store.GetEntity(name, t, None);
      if exact.Some? {
        r := [exact.value];
      } else {
        r := store.SearchEntities(name, t, 3);
      }
    }

    /** `names` is what the extractor spots in the query. */
    method SeedEntities(names: seq<string>, t: Tenant) returns (r: seq<StoredEntity>)
      requires store.Valid()
      modifies store
      ensures store.Valid() && forall u :: store.View(u) == old(store.View(u))
      ensures r == Seeds(store.lower, store.View(t), names, maxEntities)
    {
      hide InMemoryGraphStore.View, InMemoryGraphStore.Valid;
      var seeds: seq<StoredEntity> := [];
      var seen: set<NodeId> := {};
      ghost var g := store.View(t);
      ghost var all := AllCandidates(store.lower, g, names);
      DropEnds(names);
      hide AllCandidates, Candidates, Dedup, WellFormed;
      for i := 0 to |names|
        invariant store.Valid() && forall u :: store.View(u) == old(store.View(u))
        invariant Dedup(all, ById(), {})
               == seeds + Dedup(AllCandidates(store.lower, g, names[i..]), ById(), seen)
      {
        DropNext(names, i);
        CandidatesStep(store.lower, g, names[i..]);
        var candidates := CandidatesFor(names[i], t);
        seeds, seen := DedupInto(candidates, ById(), AllCandidates(store.lower, g, names[i + 1..]), seeds, seen);
      }
      NoCandidates(store.lower, g, names[|names|..], seen);
      AppendNil(seeds, Dedup(AllCandidates(store.lower, g, names[|names|..]), ById(), seen));
      r := UpTo(seeds, maxEntities);
    }

    method Retrieve(names: seq<string>, t: Tenant, depth: Option<int>) returns (r: GraphContext)
      requires store.Valid()
      modifies store
      ensures store.Valid() && forall u :: store.View(u) == old(store.View(u))
      ensures r.entities == Seeds(store.lower, store.View(t), names, maxEntities)
      ensures var hops := if depth.None? then maxHops else depth.value;
              r.facts == Dedup(Around(store.View(t), r.entities, hops), Itself(), {})
    {
      hide InMemoryGraphStore.View, InMemoryGraphStore.Valid;
      var hops := if depth.None? then maxHops else depth.value;
      var seeds := SeedEntities(names, t);
      var facts: seq<GraphFact> := [];
      var seen: set<GraphFact> := {};
      ghost var g := store.View(t);
      assert seeds[0..] == seeds;
      hide Around, Dedup, WellFormed, NeighborEdges, FactsOf;
      for i := 0 to |seeds|
        invariant store.Valid() && forall u :: store.View(u) == old(store.View(u))
        invariant Dedup(Around(g, seeds, hops), Itself(), {})
               == facts + Dedup(Around(g, seeds[i..], hops), Itself(), seen)
      {
        AroundStep(g, seeds[i..], hops);
        var found := store.Neighbors(seeds[i].id, t, hops);
        assert seeds[i..][1..] == seeds[i + 1..];
        facts, seen := DedupInto(found, Itself(), Around(g, seeds[i + 1..], hops), facts, seen);
      }
      NothingAround(g, seeds[|seeds|..], hops, seen);
      r := GraphContext(seeds, facts);
    }
  }

  // ---- what retrieval means -----------------------------------------------------------

  lemma {:induction false} FindIsStored(lower: string -> string, es: seq<StoredEntity>, target: string,
                                        kind: Option<string>)
    ensures FindIn(lower, es, target, kind).Some? ==> FindIn(lower, es, target, kind).value in es
  {
    FindFirst(lower, es, target, kind);
  }

  lemma {:induction false} CandidatesStored(lower: string -> string, g: Graph, names: seq<string>, e: StoredEntity)
    requires e in AllCandidates(lower, g, names)
    ensures e in g.entities.Values()
  {
    var es := g.entities.Values();
    if e in Candidates(lower, g, names[0]) {
      FindIsStored(lower, es, lower(NormalizeName(names[0])), None);
      SearchFinds(lower, es, names[0], 3);
    } else {
      CandidatesStored(lower, g, names[1..], e);
    }
  }

  /** Seeds are stored entities, all different, and no more than asked for. */
  lemma SeedsOk(lower: string -> string, ws: string, g: Graph, names: seq<string>, maxEntities: int)
    requires WellFormed(lower, ws, g)
    ensures var seeds := Seeds(lower, g, names, maxEntities);
            && (forall i :: 0 <= i < |seeds| ==>
                  seeds[i].id in g.entities.at && g.entities.at[seeds[i].id] == seeds[i])
            && (forall i, j :: 0 <= i < j < |seeds| ==> seeds[i].id != seeds[j].id)
            && (maxEntities >= 0 ==> |seeds| <= maxEntities)
  {
    hide OwnId;
    var all := AllCandidates(lower, g, names);
    var d := Dedup(all, ById(), {});
    var seeds := Seeds(lower, g, names, maxEntities);
    DedupSound(all, ById(), {});
    forall i | 0 <= i < |seeds| ensures seeds[i].id in g.entities.at && g.entities.at[seeds[i].id] == seeds[i] {
      assert d[i] in d;
      CandidatesStored(lower, g, names, seeds[i]);
      StoredUnderId(lower, ws, g, seeds[i]);
    }
    assert forall i, j :: 0 <= i < j < |seeds| ==> seeds[i] == d[i] && seeds[j] == d[j];
  }

  lemma StoredUnderId(lower: string -> string, ws: string, g: Graph, e: StoredEntity)
    requires WellFormed(lower, ws, g) && e in g.entities.Values()
    ensures e.id in g.entities.at && g.entities.at[e.id] == e
  {
    hide EntityId, NormalizeName;
    var i :| 0 <= i < |g.entities.keys| && g.entities.Values()[i] == e;
    var id := g.entities.keys[i];
    assert id in g.entities.at && OwnId(lower, ws, id, g.entities.at[id]);
  }

  lemma {:induction false} AroundElements(g: Graph, seeds: seq<StoredEntity>, hops: int, f: GraphFact)
    ensures f in Around(g, seeds, hops) <==>
            exists i, e :: 0 <= i < |seeds| && e in NeighborEdges(g, seeds[i].id, hops) && FactOf(g, e) == f
  {
    hide NeighborEdges, FactOf;
    if seeds != [] {
      var es := NeighborEdges(g, seeds[0].id, hops);
      AroundElements(g, seeds[1..], hops, f);
      if f in FactsOf(g, es) {
        var j :| 0 <= j < |es| && FactsOf(g, es)[j] == f;
        assert es[j] in NeighborEdges(g, seeds[0].id, hops);
      } else if f in Around(g, seeds[1..], hops) {
        var i, e :| 0 <= i < |seeds[1..]| && e in NeighborEdges(g, seeds[1..][i].id, hops) && FactOf(g, e) == f;
        assert seeds[i + 1] == seeds[1..][i];
      }
      if i, e :| 0 <= i < |seeds| && e in NeighborEdges(g, seeds[i].id, hops) && FactOf(g, e) == f {
        if i == 0 {
          var j :| 0 <= j < |es| && es[j] == e;
          assert FactsOf(g, es)[j] == f;
        } else {
          assert seeds[i] == seeds[1..][i - 1];
        }
      }
    }
  }

  /** `e` reads, by the stored names of its ends, as the fact `f`. */
  ghost predicate ReadsAs(g: Graph, e: Edge, f: GraphFact) {
    && e.src in g.entities.at && e.tgt in g.entities.at
    && f.source == g.entities.at[e.src].name && f.relation == e.rel && f.target == g.entities.at[e.tgt].name
  }

  lemma FactReads(g: Graph, e: Edge, f: GraphFact)
    requires EdgesOk(g) && e in g.edges
    ensures FactOf(g, e) == f <==> ReadsAs(g, e, f)
  {
  }

  /** A fact is returned exactly when some edge that reads that way has an endpoint
      fewer than `hops` hops from some seed; facts are listed once, in the order of
      their first occurrence. */
  lemma RetrievedFacts(g: Graph, seeds: seq<StoredEntity>, hops: int, f: GraphFact)
    requires EdgesOk(g) && forall i :: 0 <= i < |seeds| ==> seeds[i].id in g.entities.at
    ensures var facts := Dedup(Around(g, seeds, hops), Itself(), {});
            && Distinct(facts)
            && facts == Firsts(Around(g, seeds, hops), Itself(), |Around(g, seeds, hops)|)
            && (f in facts <==>
                  exists i, e, p, v :: 0 <= i < |seeds| && e in g.edges && ReadsAs(g, e, f)
                    && IsPath(g.edges, p, seeds[i].id, v) && |p| <= hops && Touches(e, v))
  {
    hide NeighborEdges, FactOf, IsPath, ReadsAs, EdgesOk;
    var all := Around(g, seeds, hops);
    DedupIsFirsts(all, Itself());
    DedupSound(all, Itself(), {});
    if f in all {
      var j :| 0 <= j < |all| && all[j] == f;
      DedupKeeps(all, Itself(), {}, j);
    }
    AroundElements(g, seeds, hops, f);
    if f in all {
      var i, e :| 0 <= i < |seeds| && e in NeighborEdges(g, seeds[i].id, hops) && FactOf(g, e) == f;
      NeighborsCorrect(g, seeds[i].id, hops);
      FactReads(g, e, f);
    }
    if i, e, p, v :| (0 <= i < |seeds| && e in g.edges && ReadsAs(g, e, f)
                      && IsPath(g.edges, p, seeds[i].id, v) && |p| <= hops && Touches(e, v)) {
      NeighborsCorrect(g, seeds[i].id, hops);
      FactReads(g, e, f);
    }
  }

  // ---- building ------------------------------------------------------------------------

  datatype Extraction = Extraction(entities: seq<Entity>, relationships: seq<Relationship>)

  datatype BuildResult = BuildResult(entities: nat, relationships: nat)

  /** Each text's entities, then its relationships. */
  function OpsOf(xs: seq<Extraction>): (ops: seq<Op>)
    ensures |ops| == 2 * |xs|
    ensures forall i :: 0 <= i < |xs| ==>
              ops[2 * i] == Op.AddEntities(xs[i].entities) && ops[2 * i + 1] == Op.AddRelationships(xs[i].relationships)
  {
    if xs == [] then []
    else
      assert forall i :: 0 <= i < |xs| - 1 ==> xs[1..][i] == xs[i + 1];
      [Op.AddEntities(xs[0].entities), Op.AddRelationships(xs[0].relationships)] + OpsOf(xs[1..])
  }

  function Totals(xs: seq<Extraction>): BuildResult {
    if xs == [] then BuildResult(0, 0)
    else
      var rest := Totals(xs[1..]);
      BuildResult(|xs[0].entities| + rest.entities, |xs[0].relationships| + rest.relationships)
  }

  lemma {:induction false} TotalsCount(xs: seq<Extraction>)
    ensures Totals(xs).entities == |Flatten(Map((x: Extraction) => x.entities, xs))|
    ensures Totals(xs).relationships == |Flatten(Map((x: Extraction) => x.relationships, xs))|
  {
    var es, rs := Map((x: Extraction) => x.entities, xs), Map((x: Extraction) => x.relationships, xs);
    if xs != [] {
      TotalsCount(xs[1..]);
      assert es[1..] == Map((x: Extraction) => x.entities, xs[1..]);
      assert rs[1..] == Map((x: Extraction) => x.relationships, xs[1..]);
    }
  }

  lemma BuildStep(lower: string -> string, ws: string, g: Graph, xs: seq<Extraction>)
    requires xs != []
    ensures Run(lower, ws, g, OpsOf(xs))
         == Run(lower, ws, Perform(lower, ws, Perform(lower, ws, g, Op.AddEntities(xs[0].entities)),
                                   Op.AddRelationships(xs[0].relationships)), OpsOf(xs[1..]))
  {
    var ops := OpsOf(xs);
    assert ops[1..][1..] == OpsOf(xs[1..]);
  }

  /** `extracted` is the extractor's output, text by text. */
  method BuildGraph(store: InMemoryGraphStore, extracted: seq<Extraction>, t: Tenant) returns (r: BuildResult)
    requires store.Valid()
    modifies store
    ensures store.Valid() && r == Totals(extracted)
    ensures store.View(t) == Run(store.lower, t.ws, old(store.View(t)), OpsOf(extracted))
    ensures forall u :: u != t ==> store.View(u) == old(store.View(u))
  {
    hide InMemoryGraphStore.View, InMemoryGraphStore.Valid, Run, Perform, OpsOf, Firsts;
    var totalEntities: nat, totalRelationships: nat := 0, 0;
    assert extracted[0..] == extracted;
    for i := 0 to |extracted|
      invariant store.Valid() && forall u :: u != t ==> store.View(u) == old(store.View(u))
      invariant Run(store.lower, t.ws, store.View(t), OpsOf(extracted[i..]))
             == Run(store.lower, t.ws, old(store.View(t)), OpsOf(extracted))
      invariant Totals(extracted) == BuildResult(totalEntities + Totals(extracted[i..]).entities,
                                                 totalRelationships + Totals(extracted[i..]).relationships)
    {
      var result := extracted[i];
      BuildStep(store.lower, t.ws, store.View(t), extracted[i..]);
      assert extracted[i..][1..] == extracted[i + 1..];
      NothingToDo(store.lower, t.ws, store.View(t));
      if result.entities != [] {
        var _ := store.AddEntities(result.entities, t);
        totalEntities := totalEntities + |result.entities|;
      }
      NothingToDo(store.lower, t.ws, store.View(t));
      if result.relationships != [] {
        var _ := store.AddRelationships(result.relationships, t);
        totalRelationships := totalRelationships + |result.relationships|;
      }
    }
    RunNothing(store.lower, t.ws, store.View(t), extracted[|extracted|..]);
    r := BuildResult(totalEntities, totalRelationships);
  }

  lemma NothingToDo(lower: string -> string, ws: string, g: Graph)
    ensures Perform(lower, ws, g, Op.AddEntities([])) == g && Perform(lower, ws, g, Op.AddRelationships([])) == g
  {
  }

  lemma RunNothing(lower: string -> string, ws: string, g: Graph, none: seq<Extraction>)
    requires none == []
    ensures Run(lower, ws, g, OpsOf(none)) == g
  {
  }
}
