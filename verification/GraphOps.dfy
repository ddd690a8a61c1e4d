/** What upserts do to one workspace's graph, and what every run of them keeps. */
module GraphOps {
  import opened Collections
  import opened GraphCore

  /** An upsert comes down to these two effects. */
  datatype Atom = Node(entity: StoredEntity) | Link(edge: Edge)

  /** First writer decides name and kind; metadata keys are overwritten by later writers. */
  function Apply(g: Graph, a: Atom): Graph {
    match a
    case Node(s) =>
      if s.id in g.entities.at then
        var was := g.entities.at[s.id];
        g.(entities := g.entities.Put(s.id, was.(metadata := was.metadata + s.metadata)))
      else g.(entities := g.entities.Put(s.id, s))
    case Link(e) =>
      if e in g.edges then g else g.(edges := g.edges + [e])
  }

  function ApplyAll(g: Graph, atoms: seq<Atom>): Graph
    decreases |atoms|
  {
    if atoms == [] then g else ApplyAll(Apply(g, atoms[0]), atoms[1..])
  }

  function Fresh(lower: string -> string, ws: string, e: Entity): StoredEntity {
    StoredEntity(EntityId(lower, ws, e.kind, e.name), NormalizeName(e.name), e.kind, e.metadata)
  }

  function EdgeOf(lower: string -> string, ws: string, r: Relationship): Edge {
    Edge(EntityId(lower, ws, r.sourceKind, r.source), r.kind, EntityId(lower, ws, r.targetKind, r.target))
  }

  function Endpoints(r: Relationship): seq<Entity> {
    [Entity(r.source, r.sourceKind, map[]), Entity(r.target, r.targetKind, map[])]
  }

  function EntityAtoms(lower: string -> string, ws: string, es: seq<Entity>): seq<Atom> {
    if es == [] then [] else [Node(Fresh(lower, ws, es[0]))] + EntityAtoms(lower, ws, es[1..])
  }

  /** Both endpoints are upserted before the edge. */
  function RelateAtoms(lower: string -> string, ws: string, r: Relationship): seq<Atom> {
    EntityAtoms(lower, ws, Endpoints(r)) + [Link(EdgeOf(lower, ws, r))]
  }

  function RelationAtoms(lower: string -> string, ws: string, rs: seq<Relationship>): seq<Atom> {
    if rs == [] then []
    else RelateAtoms(lower, ws, rs[0]) + RelationAtoms(lower, ws, rs[1..])
  }

  /** The operations a caller can perform on one workspace. */
  datatype Op =
    | AddEntities(entities: seq<Entity>)
    | AddRelationships(relationships: seq<Relationship>)
    | Clear

  function Perform(lower: string -> string, ws: string, g: Graph, op: Op): Graph {
    match op
    case AddEntities(es) => ApplyAll(g, EntityAtoms(lower, ws, es))
    case AddRelationships(rs) => ApplyAll(g, RelationAtoms(lower, ws, rs))
    case Clear => EMPTY
  }

  function Run(lower: string -> string, ws: string, g: Graph, ops: seq<Op>): Graph
    decreases |ops|
  {
    if ops == [] then g else Run(lower, ws, Perform(lower, ws, g, ops[0]), ops[1..])
  }

  lemma {:induction false} ApplyAllAppend(g: Graph, a: seq<Atom>, b: seq<Atom>)
    ensures ApplyAll(g, a + b) == ApplyAll(ApplyAll(g, a), b)
    decreases |a|
  {
    if a == [] {
      assert a + b == b;
    } else {
      assert (a + b)[1..] == a[1..] + b;
      ApplyAllAppend(Apply(g, a[0]), a[1..], b);
    }
  }

  lemma {:induction false} RunAppend(lower: string -> string, ws: string, g: Graph, a: seq<Op>, b: seq<Op>)
    ensures Run(lower, ws, g, a + b) == Run(lower, ws, Run(lower, ws, g, a), b)
    decreases |a|
  {
    if a == [] {
      assert a + b == b;
    } else {
      assert (a + b)[1..] == a[1..] + b;
      RunAppend(lower, ws, Perform(lower, ws, g, a[0]), a[1..], b);
    }
  }

  lemma EntityStep(lower: string -> string, ws: string, g: Graph, es: seq<Entity>)
    requires es != []
    ensures ApplyAll(g, EntityAtoms(lower, ws, es))
         == ApplyAll(Apply(g, Node(Fresh(lower, ws, es[0]))), EntityAtoms(lower, ws, es[1..]))
  {
  }

  lemma RelateStep(lower: string -> string, ws: string, g: Graph, r: Relationship)
    ensures ApplyAll(g, RelateAtoms(lower, ws, r))
         == Apply(ApplyAll(g, EntityAtoms(lower, ws, Endpoints(r))), Link(EdgeOf(lower, ws, r)))
  {
    hide EntityAtoms, Apply;
    ApplyAllAppend(g, EntityAtoms(lower, ws, Endpoints(r)), [Link(EdgeOf(lower, ws, r))]);
    ApplyOne(ApplyAll(g, EntityAtoms(lower, ws, Endpoints(r))), Link(EdgeOf(lower, ws, r)));
  }

  lemma RelationStep(lower: string -> string, ws: string, g: Graph, rs: seq<Relationship>)
    requires rs != []
    ensures ApplyAll(g, RelationAtoms(lower, ws, rs))
         == ApplyAll(ApplyAll(g, RelateAtoms(lower, ws, rs[0])), RelationAtoms(lower, ws, rs[1..]))
  {
    ApplyAllAppend(g, RelateAtoms(lower, ws, rs[0]), RelationAtoms(lower, ws, rs[1..]));
  }

  // ---- well-formedness over every run -------------------------------------------

  lemma EmptyWellFormed(lower: string -> string, ws: string)
    ensures WellFormed(lower, ws, EMPTY)
  {
  }

  lemma NodeKeeps(lower: string -> string, ws: string, g: Graph, e: Entity)
    requires WellFormed(lower, ws, g)
    ensures WellFormed(lower, ws, Apply(g, Node(Fresh(lower, ws, e))))
    ensures EntityId(lower, ws, e.kind, e.name) in Apply(g, Node(Fresh(lower, ws, e))).entities.at
    ensures g.entities.at.Keys <= Apply(g, Node(Fresh(lower, ws, e))).entities.at.Keys
  {
    hide OwnId, EntitiesOk, EntityId, NormalizeName;
    var s := Fresh(lower, ws, e);
    FreshOwnId(lower, ws, e);
    if s.id in g.entities.at {
      var was := g.entities.at[s.id];
      EntitiesOkAt(lower, ws, g.entities, s.id);
      MergeOwnId(lower, ws, s.id, was, s.metadata);
      PutOk(lower, ws, g.entities, s.id, was.(metadata := was.metadata + s.metadata));
    } else {
      PutOk(lower, ws, g.entities, s.id, s);
    }
  }

  lemma EntitiesOkAt(lower: string -> string, ws: string, d: Dict<NodeId, StoredEntity>, id: NodeId)
    requires EntitiesOk(lower, ws, d) && id in d.at
    ensures OwnId(lower, ws, id, d.at[id])
  {
  }

  lemma PutOk(lower: string -> string, ws: string, d: Dict<NodeId, StoredEntity>, id: NodeId, v: StoredEntity)
    requires EntitiesOk(lower, ws, d) && OwnId(lower, ws, id, v)
    ensures EntitiesOk(lower, ws, d.Put(id, v))
  {
    hide OwnId;
  }

  lemma FreshOwnId(lower: string -> string, ws: string, e: Entity)
    ensures OwnId(lower, ws, EntityId(lower, ws, e.kind, e.name), Fresh(lower, ws, e))
  {
    hide NormalizeName;
    NormalizeIdempotent(e.name);
  }

  lemma MergeOwnId(lower: string -> string, ws: string, id: NodeId, was: StoredEntity, m: Metadata)
    requires OwnId(lower, ws, id, was)
    ensures OwnId(lower, ws, id, was.(metadata := was.metadata + m))
  {
  }

  lemma LinkKeeps(lower: string -> string, ws: string, g: Graph, e: Edge)
    requires WellFormed(lower, ws, g) && e.src in g.entities.at && e.tgt in g.entities.at
    ensures WellFormed(lower, ws, Apply(g, Link(e)))
  {
    hide EntitiesOk;
  }

  lemma {:induction false} EntitiesKeep(lower: string -> string, ws: string, g: Graph, es: seq<Entity>)
    requires WellFormed(lower, ws, g)
    ensures WellFormed(lower, ws, ApplyAll(g, EntityAtoms(lower, ws, es)))
    ensures g.entities.at.Keys <= ApplyAll(g, EntityAtoms(lower, ws, es)).entities.at.Keys
    ensures forall e :: e in es ==>
              EntityId(lower, ws, e.kind, e.name) in ApplyAll(g, EntityAtoms(lower, ws, es)).entities.at
    decreases |es|
  {
    hide WellFormed;
    if es != [] {
      var a := Node(Fresh(lower, ws, es[0]));
      NodeKeeps(lower, ws, g, es[0]);
      EntitiesKeep(lower, ws, Apply(g, a), es[1..]);
      assert EntityAtoms(lower, ws, es)[1..] == EntityAtoms(lower, ws, es[1..]);
    }
  }

  lemma {:induction false} RelationsKeep(lower: string -> string, ws: string, g: Graph, rs: seq<Relationship>)
    requires WellFormed(lower, ws, g)
    ensures WellFormed(lower, ws, ApplyAll(g, RelationAtoms(lower, ws, rs)))
    decreases |rs|
  {
    hide WellFormed, EntityAtoms;
    if rs != [] {
      RelateKeeps(lower, ws, g, rs[0]);
      RelationStep(lower, ws, g, rs);
      RelationsKeep(lower, ws, ApplyAll(g, RelateAtoms(lower, ws, rs[0])), rs[1..]);
    }
  }

  lemma RelateKeeps(lower: string -> string, ws: string, g: Graph, r: Relationship)
    requires WellFormed(lower, ws, g)
    ensures WellFormed(lower, ws, ApplyAll(g, RelateAtoms(lower, ws, r)))
  {
    hide WellFormed, EntityAtoms;
    var g1 := ApplyAll(g, EntityAtoms(lower, ws, Endpoints(r)));
    EntitiesKeep(lower, ws, g, Endpoints(r));
    assert Endpoints(r)[0] in Endpoints(r) && Endpoints(r)[1] in Endpoints(r);
    LinkKeeps(lower, ws, g1, EdgeOf(lower, ws, r));
    RelateStep(lower, ws, g, r);
  }

  lemma ApplyOne(g: Graph, a: Atom)
    ensures ApplyAll(g, [a]) == Apply(g, a)
  {
  }

  /** Every run of adds and clears, from a well-formed graph, ends in one. */
  lemma {:induction false} RunKeeps(lower: string -> string, ws: string, g: Graph, ops: seq<Op>)
    requires WellFormed(lower, ws, g)
    ensures WellFormed(lower, ws, Run(lower, ws, g, ops))
    decreases |ops|
  {
    hide WellFormed;
    if ops != [] {
      match ops[0] {
        case AddEntities(es) => EntitiesKeep(lower, ws, g, es);
        case AddRelationships(rs) => RelationsKeep(lower, ws, g, rs);
        case Clear => EmptyWellFormed(lower, ws);
      }
      RunKeeps(lower, ws, Perform(lower, ws, g, ops[0]), ops[1..]);
    }
  }

  // ---- what a run of upserts leaves behind ------------------------------------------

  /** Everything the atoms write into the metadata of `id`, later writes winning. */
  function Written(atoms: seq<Atom>, id: NodeId): Metadata {
    if atoms == [] then map[]
    else (match atoms[0]
          case Node(s) => if s.id == id then s.metadata else map[]
          case Link(_) => map[])
         + Written(atoms[1..], id)
  }

  function MetadataOf(g: Graph, id: NodeId): Metadata {
    if id in g.entities.at then g.entities.at[id].metadata else map[]
  }

  lemma MergeAssoc(a: Metadata, b: Metadata, c: Metadata)
    ensures (a + b) + c == a + (b + c)
    ensures a + map[] == a && map[] + a == a
  {
  }

  lemma ApplyMetadata(g: Graph, a: Atom, id: NodeId)
    ensures MetadataOf(Apply(g, a), id) == MetadataOf(g, id) + Written([a], id)
  {
    assert Written([a][1..], id) == map[];
    MergeAssoc(MetadataOf(g, id), map[], map[]);
    if a.Node? {
      MergeAssoc(MetadataOf(g, id), a.entity.metadata, map[]);
      MergeAssoc(a.entity.metadata, map[], map[]);
    }
  }

  lemma WrittenCons(atoms: seq<Atom>, id: NodeId)
    requires atoms != []
    ensures Written(atoms, id) == Written([atoms[0]], id) + Written(atoms[1..], id)
  {
    var a := atoms[0];
    assert Written([a][1..], id) == map[];
    MergeAssoc(if a.Node? && a.entity.id == id then a.entity.metadata else map[], map[], map[]);
  }

  /** After any upserts an entity's metadata is what it was, overwritten by what they wrote. */
  lemma {:induction false} FinalMetadata(g: Graph, atoms: seq<Atom>, id: NodeId)
    ensures MetadataOf(ApplyAll(g, atoms), id) == MetadataOf(g, id) + Written(atoms, id)
    decreases |atoms|
  {
    if atoms == [] {
      MergeAssoc(MetadataOf(g, id), map[], map[]);
    } else {
      hide MetadataOf, Apply, Written;
      FinalMetadata(Apply(g, atoms[0]), atoms[1..], id);
      ApplyMetadata(g, atoms[0], id);
      WrittenCons(atoms, id);
      MergeAssoc(MetadataOf(g, id), Written([atoms[0]], id), Written(atoms[1..], id));
    }
  }

  /** `g` already holds what the atom would create. */
  predicate Known(g: Graph, a: Atom) {
    match a
    case Node(s) => s.id in g.entities.at
    case Link(e) => e in g.edges
  }

  lemma {:induction false} KnownGrows(g: Graph, atoms: seq<Atom>, a: Atom)
    requires Known(g, a)
    ensures Known(ApplyAll(g, atoms), a)
    decreases |atoms|
  {
    if atoms != [] {
      KnownGrows(Apply(g, atoms[0]), atoms[1..], a);
    }
  }

  lemma {:induction false} AllKnown(g: Graph, atoms: seq<Atom>)
    ensures forall a :: a in atoms ==> Known(ApplyAll(g, atoms), a)
    decreases |atoms|
  {
    if atoms != [] {
      var g1 := Apply(g, atoms[0]);
      assert Known(g1, atoms[0]);
      KnownGrows(g1, atoms[1..], atoms[0]);
      AllKnown(g1, atoms[1..]);
      hide Apply, Known, ApplyAll;
      assert ApplyAll(g, atoms) == ApplyAll(g1, atoms[1..]) by { ApplyAllCons(g, atoms); }
      forall a | a in atoms ensures Known(ApplyAll(g1, atoms[1..]), a) {
        assert a == atoms[0] || a in atoms[1..];
      }
    }
  }

  lemma ApplyAllCons(g: Graph, atoms: seq<Atom>)
    requires atoms != []
    ensures ApplyAll(g, atoms) == ApplyAll(Apply(g, atoms[0]), atoms[1..])
  {
  }

  /** `t` is `s` up to metadata that the remaining atoms will write again. */
  ghost predicate Pending(t: Graph, s: Graph, rest: seq<Atom>) {
    && t.edges == s.edges && t.entities.keys == s.entities.keys
    && t.entities.at.Keys == s.entities.at.Keys
    && forall id :: id in s.entities.at ==>
         s.entities.at[id] == t.entities.at[id].(metadata := t.entities.at[id].metadata + Written(rest, id))
  }

  lemma PendingStep(t: Graph, s: Graph, rest: seq<Atom>)
    requires rest != [] && Known(s, rest[0]) && Pending(t, s, rest)
    ensures Pending(Apply(t, rest[0]), s, rest[1..])
  {
    var t1 := Apply(t, rest[0]);
    forall id | id in s.entities.at
      ensures s.entities.at[id] == t1.entities.at[id].(metadata := t1.entities.at[id].metadata + Written(rest[1..], id))
    {
      WrittenCons(rest, id);
      ApplyMetadata(t, rest[0], id);
      MergeAssoc(t.entities.at[id].metadata, Written([rest[0]], id), Written(rest[1..], id));
      assert MetadataOf(t1, id) == t1.entities.at[id].metadata;
    }
  }

  lemma PendingDone(t: Graph, s: Graph)
    requires Pending(t, s, [])
    ensures t == s
  {
    forall id | id in s.entities.at ensures s.entities.at[id] == t.entities.at[id] {
      MergeAssoc(t.entities.at[id].metadata, map[], map[]);
    }
    assert t.entities.at == s.entities.at;
  }

  lemma {:induction false} PendingRuns(t: Graph, s: Graph, rest: seq<Atom>)
    requires Pending(t, s, rest) && forall a :: a in rest ==> Known(s, a)
    ensures ApplyAll(t, rest) == s
    decreases |rest|
  {
    if rest == [] {
      PendingDone(t, s);
    } else {
      PendingStep(t, s, rest);
      PendingRuns(Apply(t, rest[0]), s, rest[1..]);
    }
  }

  /** Applying a batch of upserts a second time changes nothing. */
  lemma ReplayAtoms(g: Graph, atoms: seq<Atom>)
    ensures ApplyAll(ApplyAll(g, atoms), atoms) == ApplyAll(g, atoms)
  {
    var s := ApplyAll(g, atoms);
    AllKnown(g, atoms);
    forall id | id in s.entities.at
      ensures s.entities.at[id].metadata == s.entities.at[id].metadata + Written(atoms, id)
    {
      var m, w := MetadataOf(g, id), Written(atoms, id);
      FinalMetadata(g, atoms, id);
      MergeAssoc(m, w, w);
      assert w + w == w;
    }
    assert Pending(s, s, atoms);
    PendingRuns(s, s, atoms);
  }

  function Atoms(lower: string -> string, ws: string, ops: seq<Op>): seq<Atom> {
    if ops == [] then []
    else (match ops[0]
          case AddEntities(es) => EntityAtoms(lower, ws, es)
          case AddRelationships(rs) => RelationAtoms(lower, ws, rs)
          case Clear => [])
         + Atoms(lower, ws, ops[1..])
  }

  lemma {:induction false} RunIsAtoms(lower: string -> string, ws: string, g: Graph, ops: seq<Op>)
    requires Clear !in ops
    ensures Run(lower, ws, g, ops) == ApplyAll(g, Atoms(lower, ws, ops))
    decreases |ops|
  {
    if ops != [] {
      var head := if ops[0].AddEntities? then EntityAtoms(lower, ws, ops[0].entities)
                  else RelationAtoms(lower, ws, ops[0].relationships);
      RunIsAtoms(lower, ws, Perform(lower, ws, g, ops[0]), ops[1..]);
      ApplyAllAppend(g, head, Atoms(lower, ws, ops[1..]));
    }
  }

  /** After a clear the past is forgotten. */
  lemma {:induction false} ClearForgets(lower: string -> string, ws: string, g: Graph, h: Graph, ops: seq<Op>)
    requires Clear in ops
    ensures Run(lower, ws, g, ops) == Run(lower, ws, h, ops)
    decreases |ops|
  {
    if ops[0] != Clear {
      assert Clear in ops[1..];
      ClearForgets(lower, ws, Perform(lower, ws, g, ops[0]), Perform(lower, ws, h, ops[0]), ops[1..]);
    }
  }

  /** Replaying any run of adds and clears right after it leaves the graph, order
      of entities and edges included, as it is. */
  lemma Replay(lower: string -> string, ws: string, g: Graph, ops: seq<Op>)
    ensures Run(lower, ws, Run(lower, ws, g, ops), ops) == Run(lower, ws, g, ops)
  {
    if Clear in ops {
      ClearForgets(lower, ws, Run(lower, ws, g, ops), g, ops);
    } else {
      RunIsAtoms(lower, ws, g, ops);
      RunIsAtoms(lower, ws, Run(lower, ws, g, ops), ops);
      ReplayAtoms(g, Atoms(lower, ws, ops));
    }
  }
}
