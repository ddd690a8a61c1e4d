/** What adding entities and relationships does to a graph, read off the arguments alone. */
module GraphUpserts {
  import opened Collections
  import opened GraphCore
  import opened GraphOps

  // ---- entities ------------------------------------------------------------------------

  /** The ids of a batch, in order. */
  function Ids(lower: string -> string, ws: string, es: seq<Entity>): (r: seq<NodeId>)
    ensures |r| == |es| && forall i :: 0 <= i < |es| ==> r[i] == EntityId(lower, ws, es[i].kind, es[i].name)
  {
    seq(|es|, i requires 0 <= i < |es| => EntityId(lower, ws, es[i].kind, es[i].name))
  }

  /** The i-th entity of the batch writes metadata key `k` of `id`. */
  ghost predicate Writes(lower: string -> string, ws: string, es: seq<Entity>, id: NodeId, k: string, i: int) {
    0 <= i < |es| && EntityId(lower, ws, es[i].kind, es[i].name) == id && k in es[i].metadata
  }

  /** Nobody later in the batch writes it again. */
  ghost predicate WritesLast(lower: string -> string, ws: string, es: seq<Entity>, id: NodeId, k: string, i: int) {
    Writes(lower, ws, es, id, k, i) && forall j :: i < j < |es| ==> !Writes(lower, ws, es, id, k, j)
  }

  /** The i-th entity is the first of its id, and the graph does not hold that id. */
  ghost predicate Introduces(lower: string -> string, ws: string, g: Graph, es: seq<Entity>, i: int) {
    && 0 <= i < |es| && EntityId(lower, ws, es[i].kind, es[i].name) !in g.entities.at
    && forall j :: 0 <= j < i ==>
         EntityId(lower, ws, es[j].kind, es[j].name) != EntityId(lower, ws, es[i].kind, es[i].name)
  }

  function Added(lower: string -> string, ws: string, g: Graph, es: seq<Entity>): Graph {
    Perform(lower, ws, g, Op.AddEntities(es))
  }

  lemma AddedCons(lower: string -> string, ws: string, g: Graph, es: seq<Entity>)
    requires es != []
    ensures Added(lower, ws, g, es) == Added(lower, ws, Apply(g, Node(Fresh(lower, ws, es[0]))), es[1..])
  {
    hide EntityId, NormalizeName;
    EntityStep(lower, ws, g, es);
  }

  lemma UpsertIs(lower: string -> string, ws: string, g: Graph, e: Entity)
    ensures var g1, id := Apply(g, Node(Fresh(lower, ws, e))), EntityId(lower, ws, e.kind, e.name);
            && g1.edges == g.edges
            && g1.entities.at.Keys == g.entities.at.Keys + {id}
            && g1.entities.keys == (if id in g.entities.at then g.entities.keys else g.entities.keys + [id])
            && (forall other :: other in g.entities.at && other != id ==> g1.entities.at[other] == g.entities.at[other])
            && g1.entities.at[id].id == (if id in g.entities.at then g.entities.at[id].id else id)
            && g1.entities.at[id].name
               == (if id in g.entities.at then g.entities.at[id].name else NormalizeName(e.name))
            && g1.entities.at[id].kind == (if id in g.entities.at then g.entities.at[id].kind else e.kind)
  {
    hide EntityId, NormalizeName;
  }

  lemma {:induction false} KeysAdded(lower: string -> string, ws: string, g: Graph, es: seq<Entity>)
    ensures Added(lower, ws, g, es).edges == g.edges
    ensures Added(lower, ws, g, es).entities.keys
         == g.entities.keys + Dedup(Ids(lower, ws, es), Itself(), g.entities.at.Keys)
    decreases |es|
  {
    hide EntityId, NormalizeName;
    var ids := Ids(lower, ws, es);
    if es == [] {
      AppendNil(g.entities.keys, Dedup(ids, Itself(), g.entities.at.Keys));
    } else {
      hide Apply, Fresh;
      var g1 := Apply(g, Node(Fresh(lower, ws, es[0])));
      AddedCons(lower, ws, g, es);
      UpsertIs(lower, ws, g, es[0]);
      KeysAdded(lower, ws, g1, es[1..]);
      assert ids[1..] == Ids(lower, ws, es[1..]);
      if ids[0] !in g.entities.at {
        Assoc(g.entities.keys, [ids[0]], Dedup(ids[1..], Itself(), g1.entities.at.Keys));
      } else {
        assert g1.entities.at.Keys == g.entities.at.Keys;
      }
    }
  }

  /** An entity that is there keeps its id, name and kind. */
  lemma {:induction false} StoredStays(lower: string -> string, ws: string, g: Graph, es: seq<Entity>, id: NodeId)
    requires id in g.entities.at
    ensures var g' := Added(lower, ws, g, es);
            && id in g'.entities.at && g'.entities.at[id].id == g.entities.at[id].id
            && g'.entities.at[id].name == g.entities.at[id].name && g'.entities.at[id].kind == g.entities.at[id].kind
    decreases |es|
  {
    hide EntityId, NormalizeName, Apply, Fresh;
    if es != [] {
      AddedCons(lower, ws, g, es);
      UpsertIs(lower, ws, g, es[0]);
      StoredStays(lower, ws, Apply(g, Node(Fresh(lower, ws, es[0]))), es[1..], id);
    }
  }

  /** The first entity of a new id decides its name and kind. */
  lemma {:induction false} FirstDecides(lower: string -> string, ws: string, g: Graph, es: seq<Entity>, i: nat)
    requires Introduces(lower, ws, g, es, i)
    ensures var g', id := Added(lower, ws, g, es), EntityId(lower, ws, es[i].kind, es[i].name);
            && id in g'.entities.at && g'.entities.at[id].id == id
            && g'.entities.at[id].name == NormalizeName(es[i].name) && g'.entities.at[id].kind == es[i].kind
    decreases |es|
  {
    hide EntityId, NormalizeName, Apply, Fresh;
    var g1 := Apply(g, Node(Fresh(lower, ws, es[0])));
    AddedCons(lower, ws, g, es);
    UpsertIs(lower, ws, g, es[0]);
    if i == 0 {
      StoredStays(lower, ws, g1, es[1..], EntityId(lower, ws, es[0].kind, es[0].name));
    } else {
      var rest := es[1..];
      assert rest[i - 1] == es[i];
      assert forall j :: 0 <= j < i - 1 ==> rest[j] == es[j + 1];
      assert EntityId(lower, ws, es[0].kind, es[0].name) != EntityId(lower, ws, es[i].kind, es[i].name);
      FirstDecides(lower, ws, g1, rest, i - 1);
    }
  }

  lemma WritesTail(lower: string -> string, ws: string, es: seq<Entity>, id: NodeId, k: string, i: int)
    requires es != []
    ensures Writes(lower, ws, es[1..], id, k, i) <==> i >= 0 && Writes(lower, ws, es, id, k, i + 1)
  {
    hide EntityId;
    assert 0 <= i < |es[1..]| ==> es[1..][i] == es[i + 1];
  }

  /** What the batch writes under `k`: the last writer's value. */
  lemma {:induction false} WrittenBy(lower: string -> string, ws: string, es: seq<Entity>, id: NodeId, k: string)
    ensures var w := Written(EntityAtoms(lower, ws, es), id);
            && (forall i :: WritesLast(lower, ws, es, id, k, i) ==> k in w && w[k] == es[i].metadata[k])
            && (k in w ==> exists i :: WritesLast(lower, ws, es, id, k, i))
  {
    hide EntityId, NormalizeName, Writes;
    if es == [] {
      NobodyWrites(lower, ws, es, id, k);
    } else {
      var rest, w := es[1..], Written(EntityAtoms(lower, ws, es), id);
      var v := Written(EntityAtoms(lower, ws, rest), id);
      WrittenBy(lower, ws, rest, id, k);
      WrittenHead(lower, ws, es, id);
      FirstWrites(lower, ws, es, id, k);
      forall i ensures Writes(lower, ws, rest, id, k, i) <==> i >= 0 && Writes(lower, ws, es, id, k, i + 1) {
        WritesTail(lower, ws, es, id, k, i);
      }
      LastTail(lower, ws, es, id, k);
    }
  }

  lemma NobodyWrites(lower: string -> string, ws: string, none: seq<Entity>, id: NodeId, k: string)
    requires none == []
    ensures forall i :: !Writes(lower, ws, none, id, k, i)
  {
  }

  lemma FirstWrites(lower: string -> string, ws: string, es: seq<Entity>, id: NodeId, k: string)
    requires es != []
    ensures Writes(lower, ws, es, id, k, 0)
       <==> EntityId(lower, ws, es[0].kind, es[0].name) == id && k in es[0].metadata
    ensures forall i :: Writes(lower, ws, es, id, k, i) ==> 0 <= i < |es|
  {
    hide EntityId;
  }

  lemma WrittenHead(lower: string -> string, ws: string, es: seq<Entity>, id: NodeId)
    requires es != []
    ensures Written(EntityAtoms(lower, ws, es), id)
         == (if EntityId(lower, ws, es[0].kind, es[0].name) == id then es[0].metadata else map[])
            + Written(EntityAtoms(lower, ws, es[1..]), id)
  {
    hide EntityId, NormalizeName;
    var rest := EntityAtoms(lower, ws, es[1..]);
    assert ([Node(Fresh(lower, ws, es[0]))] + rest)[1..] == rest;
  }

  /** The last writer of the tail is the last writer of the whole; else the head may be. */
  lemma LastTail(lower: string -> string, ws: string, es: seq<Entity>, id: NodeId, k: string)
    requires es != []
    ensures forall i :: i > 0 ==>
              (WritesLast(lower, ws, es, id, k, i) <==> WritesLast(lower, ws, es[1..], id, k, i - 1))
    ensures forall i :: WritesLast(lower, ws, es[1..], id, k, i) ==> WritesLast(lower, ws, es, id, k, i + 1)
    ensures WritesLast(lower, ws, es, id, k, 0) <==>
              Writes(lower, ws, es, id, k, 0) && forall i :: !WritesLast(lower, ws, es[1..], id, k, i)
  {
    hide Writes;
    FirstWrites(lower, ws, es, id, k);
    forall i ensures Writes(lower, ws, es[1..], id, k, i) <==> i >= 0 && Writes(lower, ws, es, id, k, i + 1) {
      WritesTail(lower, ws, es, id, k, i);
    }
    forall i | i > 0
      ensures WritesLast(lower, ws, es, id, k, i) <==> WritesLast(lower, ws, es[1..], id, k, i - 1)
    {
      assert forall j :: Writes(lower, ws, es[1..], id, k, j) <==> j >= 0 && Writes(lower, ws, es, id, k, j + 1);
      if WritesLast(lower, ws, es[1..], id, k, i - 1) {
        forall j | i < j < |es| ensures !Writes(lower, ws, es, id, k, j) {
          assert !Writes(lower, ws, es[1..], id, k, j - 1);
        }
      }
    }
    forall i | WritesLast(lower, ws, es[1..], id, k, i) ensures WritesLast(lower, ws, es, id, k, i + 1) {
      assert Writes(lower, ws, es[1..], id, k, i);
    }
    if Writes(lower, ws, es, id, k, 0) && !WritesLast(lower, ws, es, id, k, 0) {
      var j :| 0 < j < |es| && Writes(lower, ws, es, id, k, j);
      var last := SomeLast(lower, ws, es, id, k, j);
      assert WritesLast(lower, ws, es[1..], id, k, last - 1);
    }
  }

  lemma {:induction false} SomeLast(lower: string -> string, ws: string, es: seq<Entity>, id: NodeId, k: string, i: nat)
    returns (last: nat)
    requires Writes(lower, ws, es, id, k, i)
    ensures last >= i && WritesLast(lower, ws, es, id, k, last)
    decreases |es| - i
  {
    last := i;
    if j :| i < j < |es| && Writes(lower, ws, es, id, k, j) {
      last := SomeLast(lower, ws, es, id, k, j);
    }
  }

  lemma ValidElements<V>(d: Dict<NodeId, V>)
    requires d.Valid()
    ensures Distinct(d.keys) && Elements(d.keys) == d.at.Keys
  {
  }

  lemma FirstKeys<V>(d: Dict<NodeId, V>, ids: seq<NodeId>, n: nat)
    requires d.Valid() && n == |ids|
    ensures d.keys + Dedup(ids, Itself(), d.at.Keys) == Firsts(d.keys + ids, Itself(), |d.keys| + n)
  {
    ValidElements(d);
    hide *;
    NewOnes(d.keys, ids);
  }

  lemma KeysStored(lower: string -> string, ws: string, g: Graph, es: seq<Entity>)
    requires g.entities.Valid()
    ensures Added(lower, ws, g, es).entities.keys
         == Firsts(g.entities.keys + Ids(lower, ws, es), Itself(), |g.entities.keys| + |es|)
  {
    hide *;
    FirstKeys(g.entities, Ids(lower, ws, es), |es|);
    KeysAdded(lower, ws, g, es);
  }

  /** `e` is stored under `id` with this name and kind. */
  predicate StoredAs(g: Graph, id: NodeId, name: string, kind: string) {
    && id in g.entities.at && g.entities.at[id].id == id
    && g.entities.at[id].name == name && g.entities.at[id].kind == kind
  }

  /** The graph after adding entities. Edges stay. New ids are listed behind the old ones in
      the order they first occur; the first entity of a new id gives it its name and kind. */
  lemma EntitiesStored(lower: string -> string, ws: string, g: Graph, es: seq<Entity>)
    requires g.entities.Valid()
    ensures var g' := Perform(lower, ws, g, Op.AddEntities(es));
            && g'.edges == g.edges
            && g'.entities.keys == Firsts(g.entities.keys + Ids(lower, ws, es), Itself(), |g.entities.keys| + |es|)
            && (forall id, name, kind :: StoredAs(g, id, name, kind) ==> StoredAs(g', id, name, kind))
            && (forall i :: Introduces(lower, ws, g, es, i) ==>
                  StoredAs(g', EntityId(lower, ws, es[i].kind, es[i].name), NormalizeName(es[i].name), es[i].kind))
  {
    hide *;
    AddedIs(lower, ws, g, es);
    KeysAdded(lower, ws, g, es);
    KeysStored(lower, ws, g, es);
    forall id, name, kind | StoredAs(g, id, name, kind) ensures StoredAs(Added(lower, ws, g, es), id, name, kind) {
      StaysAs(lower, ws, g, es, id, name, kind);
    }
    forall i | Introduces(lower, ws, g, es, i)
      ensures 0 <= i < |es|
      ensures StoredAs(Added(lower, ws, g, es), EntityId(lower, ws, es[i].kind, es[i].name),
                       NormalizeName(es[i].name), es[i].kind)
    {
      DecidesAs(lower, ws, g, es, i);
    }
  }

  lemma StaysAs(lower: string -> string, ws: string, g: Graph, es: seq<Entity>, id: NodeId, name: string, kind: string)
    requires StoredAs(g, id, name, kind)
    ensures StoredAs(Added(lower, ws, g, es), id, name, kind)
  {
    hide Added;
    StoredStays(lower, ws, g, es, id);
  }

  lemma DecidesAs(lower: string -> string, ws: string, g: Graph, es: seq<Entity>, i: int)
    requires Introduces(lower, ws, g, es, i)
    ensures 0 <= i < |es|
    ensures StoredAs(Added(lower, ws, g, es), EntityId(lower, ws, es[i].kind, es[i].name),
                     NormalizeName(es[i].name), es[i].kind)
  {
    hide Added, EntityId, NormalizeName;
    FirstDecides(lower, ws, g, es, i);
  }

  lemma AddedIs(lower: string -> string, ws: string, g: Graph, es: seq<Entity>)
    ensures Added(lower, ws, g, es) == Perform(lower, ws, g, Op.AddEntities(es))
  {
  }

  /** Metadata after adding entities, key by key. */
  lemma MetadataStored(lower: string -> string, ws: string, g: Graph, es: seq<Entity>, id: NodeId, k: string)
    ensures var now := MetadataOf(Perform(lower, ws, g, Op.AddEntities(es)), id);
            && (forall i :: WritesLast(lower, ws, es, id, k, i) ==> k in now && now[k] == es[i].metadata[k])
            && ((forall i :: !Writes(lower, ws, es, id, k, i)) ==>
                  (k in now <==> k in MetadataOf(g, id)) && (k in now ==> now[k] == MetadataOf(g, id)[k]))
  {
    hide EntityId, NormalizeName, MetadataOf, Writes;
    FinalMetadata(g, EntityAtoms(lower, ws, es), id);
    WrittenBy(lower, ws, es, id, k);
  }

  // ---- relationships -----------------------------------------------------------------------

  /** The stored form of each relationship: from the source's id to the target's id. */
  function Triples(lower: string -> string, ws: string, rs: seq<Relationship>): (r: seq<Edge>)
    ensures |r| == |rs|
    ensures forall i :: 0 <= i < |rs| ==>
              r[i] == Edge(EntityId(lower, ws, rs[i].sourceKind, rs[i].source), rs[i].kind,
                           EntityId(lower, ws, rs[i].targetKind, rs[i].target))
  {
    seq(|rs|, i requires 0 <= i < |rs| =>
      Edge(EntityId(lower, ws, rs[i].sourceKind, rs[i].source), rs[i].kind,
           EntityId(lower, ws, rs[i].targetKind, rs[i].target)))
  }

  /** Source and target of every relationship, as entities without metadata. */
  function EndEntities(rs: seq<Relationship>): (r: seq<Entity>)
    ensures |r| == 2 * |rs|
    ensures forall i :: 0 <= i < |rs| ==>
              && r[2 * i] == Entity(rs[i].source, rs[i].sourceKind, map[])
              && r[2 * i + 1] == Entity(rs[i].target, rs[i].targetKind, map[])
  {
    if rs == [] then []
    else
      var rest := EndEntities(rs[1..]);
      assert forall i :: 0 <= i < |rs| - 1 ==> rs[i + 1] == rs[1..][i];
      [Entity(rs[0].source, rs[0].sourceKind, map[]), Entity(rs[0].target, rs[0].targetKind, map[])] + rest
  }

  lemma OneRelated(lower: string -> string, ws: string, g: Graph, r: Relationship)
    ensures var g1 := ApplyAll(g, RelateAtoms(lower, ws, r));
            var e := Edge(EntityId(lower, ws, r.sourceKind, r.source), r.kind,
                          EntityId(lower, ws, r.targetKind, r.target));
            && g1.edges == (if e in g.edges then g.edges else g.edges + [e])
            && g1.entities == Added(lower, ws, g, Endpoints(r)).entities
  {
    hide EntityId, NormalizeName, EntityAtoms;
    RelateStep(lower, ws, g, r);
    KeysAdded(lower, ws, g, Endpoints(r));
  }

  lemma {:induction false} EdgesAdded(lower: string -> string, ws: string, g: Graph, rs: seq<Relationship>)
    ensures Perform(lower, ws, g, Op.AddRelationships(rs)).edges
         == g.edges + Dedup(Triples(lower, ws, rs), Itself(), Elements(g.edges))
    decreases |rs|
  {
    hide EntityId, NormalizeName;
    var ts := Triples(lower, ws, rs);
    if rs == [] {
      AppendNil(g.edges, Dedup(ts, Itself(), Elements(g.edges)));
    } else {
      hide RelateAtoms, Apply;
      var g1 := ApplyAll(g, RelateAtoms(lower, ws, rs[0]));
      RelationStep(lower, ws, g, rs);
      OneRelated(lower, ws, g, rs[0]);
      EdgesAdded(lower, ws, g1, rs[1..]);
      assert ts[1..] == Triples(lower, ws, rs[1..]);
      if ts[0] !in g.edges {
        assert Elements(g1.edges) == Elements(g.edges) + {ts[0]};
        Assoc(g.edges, [ts[0]], Dedup(ts[1..], Itself(), Elements(g1.edges)));
      }
    }
  }

  lemma EntitiesDependOnEntities(lower: string -> string, ws: string, g: Graph, h: Graph, a: Atom)
    requires g.entities == h.entities && a.Node?
    ensures Apply(g, a).entities == Apply(h, a).entities
  {
  }

  lemma {:induction false} AddedDepends(lower: string -> string, ws: string, g: Graph, h: Graph, es: seq<Entity>)
    requires g.entities == h.entities
    ensures Added(lower, ws, g, es).entities == Added(lower, ws, h, es).entities
    decreases |es|
  {
    hide EntityId, NormalizeName, Fresh;
    if es != [] {
      hide Apply;
      var a := Node(Fresh(lower, ws, es[0]));
      AddedCons(lower, ws, g, es);
      AddedCons(lower, ws, h, es);
      EntitiesDependOnEntities(lower, ws, g, h, a);
      AddedDepends(lower, ws, Apply(g, a), Apply(h, a), es[1..]);
    }
  }

  lemma {:induction false} AddedAppend(lower: string -> string, ws: string, g: Graph, a: seq<Entity>, b: seq<Entity>)
    ensures Added(lower, ws, g, a + b) == Added(lower, ws, Added(lower, ws, g, a), b)
    decreases |a|
  {
    hide EntityId, NormalizeName, Fresh, Apply;
    if a == [] {
      assert a + b == b;
      assert Added(lower, ws, g, a) == g;
    } else {
      assert (a + b)[1..] == a[1..] + b && (a + b)[0] == a[0];
      AddedCons(lower, ws, g, a + b);
      AddedCons(lower, ws, g, a);
      AddedAppend(lower, ws, Apply(g, Node(Fresh(lower, ws, a[0]))), a[1..], b);
    }
  }

  lemma {:induction false} EndsAdded(lower: string -> string, ws: string, g: Graph, rs: seq<Relationship>)
    ensures Perform(lower, ws, g, Op.AddRelationships(rs)).entities == Added(lower, ws, g, EndEntities(rs)).entities
    decreases |rs|
  {
    hide EntityId, NormalizeName;
    if rs != [] {
      hide RelateAtoms, Apply, EntityAtoms, Added;
      var g1 := ApplyAll(g, RelateAtoms(lower, ws, rs[0]));
      RelationStep(lower, ws, g, rs);
      OneRelated(lower, ws, g, rs[0]);
      EndsAdded(lower, ws, g1, rs[1..]);
      assert EndEntities(rs) == Endpoints(rs[0]) + EndEntities(rs[1..]);
      AddedAppend(lower, ws, g, Endpoints(rs[0]), EndEntities(rs[1..]));
      AddedDepends(lower, ws, g1, Added(lower, ws, g, Endpoints(rs[0])), EndEntities(rs[1..]));
    } else {
      assert EndEntities(rs) == [];
    }
  }

  /** The graph after adding relationships. The edges are the old ones and behind them the
      new triples at their first occurrence; the entities are what adding every source
      and target makes of them. */
  lemma RelationshipsStored(lower: string -> string, ws: string, g: Graph, rs: seq<Relationship>)
    requires Distinct(g.edges)
    ensures var g' := Perform(lower, ws, g, Op.AddRelationships(rs));
            && g'.edges == Firsts(g.edges + Triples(lower, ws, rs), Itself(), |g.edges| + |rs|)
            && g'.entities == Perform(lower, ws, g, Op.AddEntities(EndEntities(rs))).entities
  {
    hide *;
    EdgesAdded(lower, ws, g, rs);
    EndsAdded(lower, ws, g, rs);
    NewOnes(g.edges, Triples(lower, ws, rs));
    AddedIs(lower, ws, g, EndEntities(rs));
  }
}
