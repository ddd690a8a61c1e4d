/** The in-process knowledge-graph store: dictionaries keyed by tenant, updated in place. */
module GraphStore {
  import opened Collections
  import opened Text
  import opened GraphCore
  import opened GraphOps
  import opened GraphWalk
  import opened GraphUpserts

  datatype Tenant = Tenant(org: string, ws: string)

  /** The edges touching `n`, in stored order: what the inner `for ... continue` visits. */
  function Incident(edges: seq<Edge>, n: NodeId): seq<Edge> {
    if edges == [] then []
    else (if Touches(edges[0], n) then [edges[0]] else []) + Incident(edges[1..], n)
  }

  function StoredHop(edges: seq<Edge>): Hop { n => Incident(edges, n) }

  lemma {:induction false} IncidentElements(edges: seq<Edge>, n: NodeId, e: Edge)
    ensures e in Incident(edges, n) <==> e in edges && Touches(e, n)
  {
    if edges != [] {
      IncidentElements(edges[1..], n, e);
      assert e in edges <==> e == edges[0] || e in edges[1..];
    }
  }

  lemma StoredHopAnswers(edges: seq<Edge>)
    ensures Answers(StoredHop(edges), edges)
  {
    forall n, e ensures e in StoredHop(edges)(n) <==> e in edges && Touches(e, n) {
      IncidentElements(edges, n, e);
    }
  }

  lemma ScanIncident(edges: seq<Edge>, node: NodeId, dist: nat, st: State)
    requires edges != []
    ensures Scan(Incident(edges, node), node, dist, st)
         == Scan(Incident(edges[1..], node), node, dist,
                 if Touches(edges[0], node) then ScanRow(edges[0], node, dist, st) else st)
  {
    var rest := Incident(edges[1..], node);
    assert ([edges[0]] + rest)[1..] == rest && [] + rest == rest;
  }

  /** The edges the store reports around a stored node. */
  ghost function NeighborEdges(g: Graph, id: NodeId, depth: int): seq<Edge> {
    StoredHopAnswers(g.edges);
    if id in g.entities.at then Reported(StoredHop(g.edges), g.edges, id, depth) else []
  }

  /** Around a stored entity: exactly the stored edges a path of fewer than `depth`
      hops leads to, each once, nearer ones first. */
  lemma NeighborsCorrect(g: Graph, id: NodeId, depth: int)
    requires id in g.entities.at
    ensures forall e :: e in NeighborEdges(g, id, depth) <==>
              e in g.edges && exists p, v :: IsPath(g.edges, p, id, v) && |p| <= depth && Touches(e, v)
    ensures Ordered(g.edges, id, NeighborEdges(g, id, depth))
  {
    StoredHopAnswers(g.edges);
    WalkCorrect(StoredHop(g.edges), g.edges, id, depth);
    hide Reported, IsPath, Ordered;
    forall e ensures e in NeighborEdges(g, id, depth) <==>
        e in g.edges && exists p, v :: IsPath(g.edges, p, id, v) && |p| <= depth && Touches(e, v)
    {
      ReportedIffPath(StoredHop(g.edges), g.edges, id, depth, e);
    }
  }

  lemma NeighborsDeeper(g: Graph, id: NodeId, d: int, d': int)
    requires d <= d'
    ensures NeighborEdges(g, id, d) <= NeighborEdges(g, id, d')
    ensures FactsOf(g, NeighborEdges(g, id, d)) <= FactsOf(g, NeighborEdges(g, id, d'))
  {
    StoredHopAnswers(g.edges);
    DeeperExtends(StoredHop(g.edges), g.edges, id, d, d');
  }

  /** With a depth of at least the number of stored entities: the seed's component. */
  lemma NeighborsComponent(g: Graph, id: NodeId, depth: int)
    requires EdgesOk(g) && id in g.entities.at && depth >= |g.entities.at.Keys|
    ensures forall e :: e in NeighborEdges(g, id, depth) <==> e in g.edges && InComponent(g.edges, id, e)
  {
    StoredHopAnswers(g.edges);
    DeepWalkIsComponent(StoredHop(g.edges), g.edges, id, g.entities.at.Keys, depth);
  }

  // ---- lookups --------------------------------------------------------------------

  function NamedAs(lower: string -> string, target: string, kind: Option<string>, e: StoredEntity): bool {
    lower(e.name) == target && (kind.None? || e.kind == kind.value)
  }

  /** The first stored entity with the given lower-cased name, of the kind if one is asked for. */
  function FindIn(lower: string -> string, es: seq<StoredEntity>, target: string, kind: Option<string>)
    : Option<StoredEntity>
  {
    if es == [] then None
    else if NamedAs(lower, target, kind, es[0]) then Some(es[0])
    else FindIn(lower, es[1..], target, kind)
  }

  function Lookup(lower: string -> string, g: Graph, name: string, kind: Option<string>): Option<StoredEntity>
  {
    FindIn(lower, g.entities.Values(), lower(NormalizeName(name)), kind)
  }

  predicate Overlaps(lower: string -> string, needle: string, e: StoredEntity) {
    Occurs(needle, lower(e.name)) || Occurs(lower(e.name), needle)
  }

  function Overlapping(lower: string -> string, needle: string): StoredEntity -> bool {
    (e: StoredEntity) => Overlaps(lower, needle, e)
  }

  function ByLength(): (f: StoredEntity -> real)
    ensures forall e :: f(e) == |e.name| as real
  {
    (e: StoredEntity) => |e.name| as real
  }

  function SearchIn(lower: string -> string, es: seq<StoredEntity>, text: string, limit: int): seq<StoredEntity> {
    var needle := lower(NormalizeName(text));
    if needle == "" then []
    else UpTo(SortBy(Filter(Overlapping(lower, needle), es), ByLength()), limit)
  }

  function Search(lower: string -> string, g: Graph, text: string, limit: int): seq<StoredEntity>
  {
    SearchIn(lower, g.entities.Values(), text, limit)
  }

  /** Found entities are stored and overlap the query, tighter names first; a large
      enough limit misses none. */
  lemma SearchFinds(lower: string -> string, es: seq<StoredEntity>, text: string, limit: int)
    ensures var needle, r := lower(NormalizeName(text)), SearchIn(lower, es, text, limit);
            && (forall i :: 0 <= i < |r| ==> r[i] in es && Overlaps(lower, needle, r[i]))
            && Ascending(r, ByLength())
            && (limit >= 0 ==> |r| <= limit)
            && (limit >= |es| && needle != "" ==> forall e :: e in es && Overlaps(lower, needle, e) ==> e in r)
  {
    hide Overlaps, NormalizeName;
    var needle := lower(NormalizeName(text));
    if needle != "" {
      var matches := Filter(Overlapping(lower, needle), es);
      SortByFacts(matches, ByLength());
      SortByElements(matches, ByLength());
      FilterShorter(Overlapping(lower, needle), es);
      PrefixAscends(SortBy(matches, ByLength()), UpTo(SortBy(matches, ByLength()), limit), ByLength());
    }
  }

  lemma PrefixAscends<T>(xs: seq<T>, r: seq<T>, key: T -> real)
    requires r <= xs && Ascending(xs, key)
    ensures Ascending(r, key) && forall i :: 0 <= i < |r| ==> r[i] in xs
  {
    assert forall i :: 0 <= i < |r| ==> r[i] == xs[i];
  }

  lemma {:induction false} FilterShorter<T(!new)>(p: T -> bool, xs: seq<T>)
    ensures |Filter(p, xs)| <= |xs|
  {
    if xs != [] {
      FilterShorter(p, xs[1..]);
    }
  }

  /** A lookup answers with the first match, and with nothing only if there is none. */
  lemma {:induction false} FindFirst(lower: string -> string, es: seq<StoredEntity>, target: string,
                                     kind: Option<string>)
    ensures match FindIn(lower, es, target, kind)
            case None => forall i :: 0 <= i < |es| ==> !NamedAs(lower, target, kind, es[i])
            case Some(e) => exists i :: 0 <= i < |es| && es[i] == e && NamedAs(lower, target, kind, e)
                              && forall j :: 0 <= j < i ==> !NamedAs(lower, target, kind, es[j])
  {
    if es != [] && !NamedAs(lower, target, kind, es[0]) {
      FindFirst(lower, es[1..], target, kind);
      match FindIn(lower, es[1..], target, kind)
      case None =>
      case Some(e) =>
        var i :| 0 <= i < |es[1..]| && es[1..][i] == e && NamedAs(lower, target, kind, e)
          && forall j :: 0 <= j < i ==> !NamedAs(lower, target, kind, es[1..][j]);
        assert es[i + 1] == e;
        assert forall j :: 0 < j < i + 1 ==> es[j] == es[1..][j - 1];
    }
  }

  // ---- the store ---------------------------------------------------------------------

  class InMemoryGraphStore {
    /** Python's `str.lower`. */
    const lower: string -> string
    var entityTables: map<Tenant, Dict<NodeId, StoredEntity>>
    var edgeLists: map<Tenant, seq<Edge>>

    /** One tenant's graph; a missing table reads as empty. */
    ghost function View(t: Tenant): Graph
      reads this
    {
      Graph(if t in entityTables then entityTables[t] else EMPTY.entities,
            if t in edgeLists then edgeLists[t] else EMPTY.edges)
    }

    ghost predicate Valid()
      reads this
    {
      forall t: Tenant :: WellFormed(lower, t.ws, View(t))
    }

    constructor (lower: string -> string)
      ensures Valid() && this.lower == lower
      ensures forall t :: View(t) == EMPTY
    {
      this.lower := lower;
      entityTables, edgeLists := map[], map[];
      new;
      forall t: Tenant ensures WellFormed(this.lower, t.ws, View(t)) {
        EmptyWellFormed(this.lower, t.ws);
      }
    }

    /** `self._entities.setdefault((org, ws), {})` */
    method Ents(t: Tenant)
      modifies this
      ensures t in entityTables && edgeLists == old(edgeLists)
      ensures forall u :: View(u) == old(View(u))
    {
      if t !in entityTables {
        entityTables := entityTables[t := EMPTY.entities];
      }
    }

    /** `self._edges.setdefault((org, ws), [])` */
    method Rels(t: Tenant)
      modifies this
      ensures t in edgeLists && entityTables == old(entityTables)
      ensures forall u :: View(u) == old(View(u))
    {
      if t !in edgeLists {
        edgeLists := edgeLists[t := []];
      }
    }

    /** A graph change confined to one tenant keeps the whole store valid. */
    twostate lemma OthersUnchanged(t: Tenant)
      requires old(Valid()) && WellFormed(lower, t.ws, View(t))
      requires forall u :: u != t ==> View(u) == old(View(u))
      ensures Valid()
    {
      forall u: Tenant ensures WellFormed(lower, u.ws, View(u)) {
        if u != t {
          assert WellFormed(lower, u.ws, old(View(u)));
        }
      }
    }

    /** One round of the upsert loop. */
    method Upsert(ent: Entity, t: Tenant)
      requires t in entityTables
      modifies this`entityTables
      ensures t in entityTables
      ensures View(t) == Apply(old(View(t)), Node(Fresh(lower, t.ws, ent)))
      ensures forall u :: u != t ==> View(u) == old(View(u))
    {
      hide EntityId, NormalizeName;
      var eid := EntityId(lower, t.ws, ent.kind, ent.name);
      var store := entityTables[t];
      if eid !in store.at {
        store := store.Put(eid, StoredEntity(eid, NormalizeName(ent.name), ent.kind, ent.metadata));
      } else {
        var existing := store.at[eid];
        store := store.Put(eid, existing.(metadata := existing.metadata + ent.metadata));
      }
      entityTables := entityTables[t := store];
    }

    method AddEntities(entities: seq<Entity>, t: Tenant) returns (n: nat)
      requires Valid()
      modifies this
      ensures Valid() && n == |entities|
      ensures View(t) == Perform(lower, t.ws, old(View(t)), Op.AddEntities(entities))
      ensures View(t).entities.keys
           == Firsts(old(View(t)).entities.keys + Ids(lower, t.ws, entities), Itself(),
                     |old(View(t)).entities.keys| + |entities|)
      ensures forall u :: u != t ==> View(u) == old(View(u))
      ensures edgeLists == old(edgeLists)
    {
      hide WellFormed, EntityAtoms, Apply, ApplyAll, Fresh, Firsts, Ids;
      Ents(t);
      ghost var start := View(t);
      assert entities[0..] == entities;
      for i := 0 to |entities|
        invariant t in entityTables && edgeLists == old(edgeLists)
        invariant forall u :: u != t ==> View(u) == old(View(u))
        invariant ApplyAll(View(t), EntityAtoms(lower, t.ws, entities[i..]))
               == ApplyAll(start, EntityAtoms(lower, t.ws, entities))
      {
        EntityStep(lower, t.ws, View(t), entities[i..]);
        assert entities[i..][1..] == entities[i + 1..];
        Upsert(entities[i], t);
      }
      NoEntities(lower, t.ws, View(t), entities[|entities|..]);
      EntitiesKeep(lower, t.ws, start, entities);
      OthersUnchanged(t);
      EntitiesAdded(lower, t.ws, old(View(t)), entities);
      n := |entities|;
    }

    method AddRelationships(relationships: seq<Relationship>, t: Tenant) returns (n: nat)
      requires Valid()
      modifies this
      ensures Valid() && n == |relationships|
      ensures View(t) == Perform(lower, t.ws, old(View(t)), Op.AddRelationships(relationships))
      ensures View(t).edges
           == Firsts(old(View(t)).edges + Triples(lower, t.ws, relationships), Itself(),
                     |old(View(t)).edges| + |relationships|)
      ensures forall u :: u != t ==> View(u) == old(View(u))
    {
      hide WellFormed, RelationAtoms, RelateAtoms, EntityAtoms, ApplyAll, EdgeOf, Endpoints, Firsts, Triples, Ids;
      Rels(t);
      assert relationships[0..] == relationships;
      for i := 0 to |relationships|
        invariant Valid() && t in edgeLists
        invariant forall u :: u != t ==> View(u) == old(View(u))
        invariant ApplyAll(View(t), RelationAtoms(lower, t.ws, relationships[i..]))
               == ApplyAll(old(View(t)), RelationAtoms(lower, t.ws, relationships))
      {
        label Before:
        var rel := relationships[i];
        RelateStep(lower, t.ws, View(t), rel);
        RelationStep(lower, t.ws, View(t), relationships[i..]);
        RelateKeeps(lower, t.ws, View(t), rel);
        assert relationships[i..][1..] == relationships[i + 1..];
        var _ := AddEntities(Endpoints(rel), t);
        var edge := EdgeOf(lower, t.ws, rel);
        if edge !in edgeLists[t] {
          edgeLists := edgeLists[t := edgeLists[t] + [edge]];
        }
        OthersUnchanged@Before(t);
      }
      NoRelations(lower, t.ws, View(t), relationships[|relationships|..]);
      EdgesFollow(lower, t.ws, old(View(t)), relationships);
      n := |relationships|;
    }

    lemma ViewValid(t: Tenant)
      requires Valid()
      ensures View(t).entities.Valid() && EdgesOk(View(t))
    {
      assert WellFormed(lower, t.ws, View(t));
    }

    method GetEntity(name: string, t: Tenant, kind: Option<string>) returns (r: Option<StoredEntity>)
      requires Valid()
      modifies this
      ensures Valid() && forall u :: View(u) == old(View(u))
      ensures r == Lookup(lower, View(t), name, kind)
    {
      hide WellFormed, NormalizeName;
      Ents(t);
      assert Valid();
      ViewValid(t);
      var target := lower(NormalizeName(name));
      var es := entityTables[t].Values();
      for i := 0 to |es|
        invariant FindIn(lower, es, target, kind) == FindIn(lower, es[i..], target, kind)
      {
        if lower(es[i].name) == target && (kind.None? || es[i].kind == kind.value) {
          return Some(es[i]);
        }
        assert es[i..][1..] == es[i + 1..];
      }
      return None;
    }

    method SearchEntities(text: string, t: Tenant, limit: int) returns (r: seq<StoredEntity>)
      requires Valid()
      modifies this
      ensures Valid() && forall u :: View(u) == old(View(u))
      ensures r == Search(lower, View(t), text, limit)
    {
      Ents(t);
      assert Valid();
      r := SearchIn(lower, entityTables[t].Values(), text, limit);
    }

    method Neighbors(id: NodeId, t: Tenant, depth: int) returns (facts: seq<GraphFact>)
      requires Valid()
      modifies this
      ensures Valid() && forall u :: View(u) == old(View(u))
      ensures facts == FactsOf(View(t), NeighborEdges(View(t), id, depth))
      ensures var g, es := View(t), NeighborEdges(View(t), id, depth);
              |facts| == |es| && forall i :: 0 <= i < |es| ==>
                && es[i].src in g.entities.at && es[i].tgt in g.entities.at
                && facts[i] == GraphFact(g.entities.at[es[i].src].name, es[i].rel, g.entities.at[es[i].tgt].name)
    {
      NeighborsNamed(lower, t.ws, View(t), id, depth);
      hide NeighborEdges, FactOf, FactsOf;
      Ents(t);
      Rels(t);
      assert Valid();
      if id !in entityTables[t].at {
        return [];
      }
      facts := Traverse(Graph(entityTables[t], edgeLists[t]), id, depth);
    }

    method Clear(t: Tenant)
      requires Valid()
      modifies this
      ensures Valid()
      ensures View(t) == Perform(lower, t.ws, old(View(t)), Op.Clear)
      ensures forall u :: u != t ==> View(u) == old(View(u))
    {
      entityTables := entityTables - {t};
      edgeLists := edgeLists - {t};
      EmptyWellFormed(lower, t.ws);
      OthersUnchanged(t);
    }

    /** The whole workspace graph; every endpoint is rendered by its entity's name. */
    method ExportGraph(t: Tenant) returns (entities: seq<StoredEntity>, facts: seq<GraphFact>)
      requires Valid()
      modifies this
      ensures Valid() && forall u :: View(u) == old(View(u))
      ensures entities == View(t).entities.Values()
      ensures facts == FactsOf(View(t), View(t).edges)
      ensures forall i :: 0 <= i < |facts| ==>
                var e := View(t).edges[i];
                && e.src in View(t).entities.at && e.tgt in View(t).entities.at
                && facts[i] == GraphFact(View(t).entities.at[e.src].name, e.rel, View(t).entities.at[e.tgt].name)
    {
      Ents(t);
      Rels(t);
      assert Valid();
      entities := entityTables[t].Values();
      facts := FactsOf(Graph(entityTables[t], edgeLists[t]), edgeLists[t]);
    }
  }

  /** Around a stored entity every end of a fact is stored, so facts show stored names. */
  lemma NeighborsNamed(lower: string -> string, ws: string, g: Graph, id: NodeId, depth: int)
    requires WellFormed(lower, ws, g)
    ensures var es := NeighborEdges(g, id, depth);
            forall i :: 0 <= i < |es| ==>
              && es[i].src in g.entities.at && es[i].tgt in g.entities.at
              && FactOf(g, es[i]) == GraphFact(g.entities.at[es[i].src].name, es[i].rel, g.entities.at[es[i].tgt].name)
    ensures id !in g.entities.at ==> NeighborEdges(g, id, depth) == []
  {
    hide Reported, EntitiesOk;
    var es := NeighborEdges(g, id, depth);
    if id in g.entities.at {
      NeighborsCorrect(g, id, depth);
      forall i | 0 <= i < |es| ensures es[i] in g.edges {
        assert es[i] in es;
      }
    }
  }

  lemma EntitiesAdded(lower: string -> string, ws: string, g: Graph, es: seq<Entity>)
    requires WellFormed(lower, ws, g)
    ensures Perform(lower, ws, g, Op.AddEntities(es)).entities.keys
         == Firsts(g.entities.keys + Ids(lower, ws, es), Itself(), |g.entities.keys| + |es|)
  {
    hide Perform, Firsts, Introduces, EntityId, NormalizeName;
    EntitiesStored(lower, ws, g, es);
  }

  lemma EdgesFollow(lower: string -> string, ws: string, g: Graph, rs: seq<Relationship>)
    requires WellFormed(lower, ws, g)
    ensures Perform(lower, ws, g, Op.AddRelationships(rs)).edges
         == Firsts(g.edges + Triples(lower, ws, rs), Itself(), |g.edges| + |rs|)
  {
    hide Perform, Firsts, EntityId, NormalizeName;
    RelationshipsStored(lower, ws, g, rs);
  }

  // ---- runs over all tenants ----------------------------------------------------------

  /** The operations of a run that concern tenant `t`. */
  function Only(ops: seq<(Tenant, Op)>, t: Tenant): seq<Op> {
    if ops == [] then []
    else (if ops[0].0 == t then [ops[0].1] else []) + Only(ops[1..], t)
  }

  lemma {:induction false} OnlySnoc(ops: seq<(Tenant, Op)>, last: (Tenant, Op), t: Tenant)
    ensures Only(ops + [last], t) == Only(ops, t) + (if last.0 == t then [last.1] else [])
  {
    if ops == [] {
      assert ops + [last] == [last];
      assert Only([last][1..], t) == [];
    } else {
      OnlySnoc(ops[1..], last, t);
      assert (ops + [last])[1..] == ops[1..] + [last];
    }
  }

  lemma RunSnoc(lower: string -> string, ws: string, g: Graph, ops: seq<Op>, op: Op)
    ensures Run(lower, ws, g, ops + [op]) == Perform(lower, ws, Run(lower, ws, g, ops), op)
  {
    hide Perform;
    RunAppend(lower, ws, g, ops, [op]);
    assert Run(lower, ws, Perform(lower, ws, Run(lower, ws, g, ops), op), [op][1..])
        == Perform(lower, ws, Run(lower, ws, g, ops), op);
  }

  /** Any run of adds and clears over any tenants: the store stays valid, and each
      tenant's graph is what its own operations alone make of it. */
  method AnyRun(store: InMemoryGraphStore, ops: seq<(Tenant, Op)>)
    requires store.Valid()
    modifies store
    ensures store.Valid()
    ensures forall t :: store.View(t) == Run(store.lower, t.ws, old(store.View(t)), Only(ops, t))
  {
    hide InMemoryGraphStore.View, InMemoryGraphStore.Valid, Run, Perform, Only;
    RunsOfNothing(store);
    for i := 0 to |ops|
      invariant store.Valid()
      invariant forall t :: store.View(t) == Run(store.lower, t.ws, old(store.View(t)), Only(ops[..i], t))
    {
      label Before:
      var (t, op) := ops[i];
      match op {
        case AddEntities(es) => var _ := store.AddEntities(es, t);
        case AddRelationships(rs) => var _ := store.AddRelationships(rs, t);
        case Clear => store.Clear(t);
      }
      assert ops[..i + 1] == ops[..i] + [ops[i]];
      forall u ensures store.View(u) == Run(store.lower, u.ws, old(store.View(u)), Only(ops[..i + 1], u)) {
        assert old@Before(store.View(u)) == Run(store.lower, u.ws, old(store.View(u)), Only(ops[..i], u));
        OnlySnoc(ops[..i], ops[i], u);
        RunSnoc(store.lower, u.ws, old(store.View(u)), Only(ops[..i], u), op);
        AppendNil(Only(ops[..i], u), []);
      }
    }
    assert ops[..|ops|] == ops;
  }

  lemma RunsOfNothing(store: InMemoryGraphStore)
    ensures forall t :: store.View(t) == Run(store.lower, t.ws, store.View(t), Only([], t))
  {
  }

  /** The breadth-first walk from a stored node. `st` is a ghost: the key set of its
      `level` is `visited`, and `facts` renders its `found`. */
  method Traverse(g: Graph, id: NodeId, depth: int) returns (facts: seq<GraphFact>)
    requires id in g.entities.at
    ensures facts == FactsOf(g, NeighborEdges(g, id, depth))
  {
    facts := [];
    var seenEdges: set<Edge> := {};
    var visited := {id};
    var frontier: seq<(NodeId, nat)> := [(id, 0)];
    ghost var st := Start(id);
    ghost var hop := StoredHop(g.edges);
    StoredHopAnswers(g.edges);
    StartMirrors(g, id);
    hide Answers, Walk, Scan, Ends, Mirrors, FactsOf, Incident;
    while frontier != []
      invariant Mirrors(g, st, frontier, visited, seenEdges, facts)
      invariant Walk(hop, g.edges, depth, st) == Walk(hop, g.edges, depth, Start(id))
      decreases Ends(g.edges) - st.level.Keys, |st.frontier|
    {
      Mirrored(g, st, frontier, visited, seenEdges, facts);
      WalkStep(hop, g.edges, depth, st);
      PopMirrors(g, st, visited, seenEdges, facts);
      var (node, dist) := frontier[0];
      frontier := frontier[1..];
      if dist >= depth {
        st := Pop(st);
        continue;
      }
      frontier, visited, seenEdges, facts := ExpandNode(g, node, dist, frontier, visited, seenEdges, facts, Pop(st));
      st := Scan(hop(node), node, dist, Pop(st));
    }
    Mirrored(g, st, frontier, visited, seenEdges, facts);
    WalkEnds(hop, g.edges, depth, st);
  }

  /** The inner loop: scan every stored edge, skipping those away from `node`. */
  method ExpandNode(g: Graph, node: NodeId, dist: nat, frontier0: seq<(NodeId, nat)>, visited0: set<NodeId>,
                    seenEdges0: set<Edge>, facts0: seq<GraphFact>, ghost st: State)
    returns (frontier: seq<(NodeId, nat)>, visited: set<NodeId>, seenEdges: set<Edge>, facts: seq<GraphFact>)
    requires Mirrors(g, st, frontier0, visited0, seenEdges0, facts0)
    ensures Mirrors(g, Scan(Incident(g.edges, node), node, dist, st), frontier, visited, seenEdges, facts)
  {
    hide Scan, Incident, Mirrors, Touches, Other;
    var store, edges := g.entities, g.edges;
    frontier, visited, seenEdges, facts := frontier0, visited0, seenEdges0, facts0;
    ghost var scanned := st;
    assert edges[0..] == edges;
    for i := 0 to |edges|
      invariant Mirrors(g, scanned, frontier, visited, seenEdges, facts)
      invariant Scan(Incident(edges[i..], node), node, dist, scanned)
             == Scan(Incident(edges, node), node, dist, st)
    {
      var e := edges[i];
      ScanIncident(edges[i..], node, dist, scanned);
      assert edges[i..][1..] == edges[i + 1..];
      Following(e, node);
      if e.src != node && e.tgt != node {
        continue;
      }
      RowMirrors(g, scanned, frontier, visited, seenEdges, facts, e, node, dist);
      scanned := ScanRow(e, node, dist, scanned);
      if e !in seenEdges {
        seenEdges := seenEdges + {e};
        facts := facts + [GraphFact(if e.src in store.at then store.at[e.src].name else e.src, e.rel,
                                    if e.tgt in store.at then store.at[e.tgt].name else e.tgt)];
      }
      var neighbor := if e.src == node then e.tgt else e.src;
      if neighbor !in visited {
        visited := visited + {neighbor};
        frontier := frontier + [(neighbor, dist + 1)];
      }
    }
    NoIncident(edges[|edges|..], node, dist, scanned);
  }

  /** The walk's variables and its specification state say the same. */
  ghost predicate Mirrors(g: Graph, st: State, frontier: seq<(NodeId, nat)>, visited: set<NodeId>,
                          seenEdges: set<Edge>, facts: seq<GraphFact>) {
    && frontier == st.frontier && visited == st.level.Keys
    && (forall e :: e in seenEdges <==> e in st.found)
    && facts == FactsOf(g, st.found)
  }

  lemma StartMirrors(g: Graph, id: NodeId)
    ensures Mirrors(g, Start(id), [(id, 0)], {id}, {}, [])
  {
  }

  lemma RowMirrors(g: Graph, st: State, frontier: seq<(NodeId, nat)>, visited: set<NodeId>,
                   seenEdges: set<Edge>, facts: seq<GraphFact>, e: Edge, node: NodeId, dist: nat)
    requires Mirrors(g, st, frontier, visited, seenEdges, facts)
    ensures Mirrors(g, ScanRow(e, node, dist, st),
                    if Other(e, node) in visited then frontier else frontier + [(Other(e, node), dist + 1)],
                    if Other(e, node) in visited then visited else visited + {Other(e, node)},
                    if e in seenEdges then seenEdges else seenEdges + {e},
                    if e in seenEdges then facts else facts + [FactOf(g, e)])
  {
    if e !in seenEdges {
      assert FactsOf(g, st.found + [e]) == FactsOf(g, st.found) + [FactOf(g, e)];
    }
  }

  lemma NoIncident(none: seq<Edge>, node: NodeId, dist: nat, st: State)
    requires none == []
    ensures Scan(Incident(none, node), node, dist, st) == st
  {
  }

  lemma NoEntities(lower: string -> string, ws: string, g: Graph, none: seq<Entity>)
    requires none == []
    ensures ApplyAll(g, EntityAtoms(lower, ws, none)) == g
  {
  }

  lemma NoRelations(lower: string -> string, ws: string, g: Graph, none: seq<Relationship>)
    requires none == []
    ensures ApplyAll(g, RelationAtoms(lower, ws, none)) == g
  {
  }

  lemma Mirrored(g: Graph, st: State, frontier: seq<(NodeId, nat)>, visited: set<NodeId>,
                 seenEdges: set<Edge>, facts: seq<GraphFact>)
    requires Mirrors(g, st, frontier, visited, seenEdges, facts)
    ensures frontier == st.frontier && facts == FactsOf(g, st.found)
  {
  }

  lemma PopMirrors(g: Graph, st: State, visited: set<NodeId>, seenEdges: set<Edge>, facts: seq<GraphFact>)
    requires st.frontier != [] && Mirrors(g, st, st.frontier, visited, seenEdges, facts)
    ensures Mirrors(g, Pop(st), st.frontier[1..], visited, seenEdges, facts)
  {
  }

  lemma Following(e: Edge, node: NodeId)
    ensures Touches(e, node) <==> e.src == node || e.tgt == node
    ensures Other(e, node) == if e.src == node then e.tgt else e.src
  {
  }

  lemma WalkEnds(hop: Hop, edges: seq<Edge>, depth: int, st: State)
    requires Answers(hop, edges) && st.frontier == []
    ensures Walk(hop, edges, depth, st) == st
  {
  }
}
