/** Knowledge-graph core types: names, deterministic ids, and one workspace's graph. */
module GraphCore {
  import opened Collections
  import opened Text

  type NodeId = string
  type Metadata = map<string, string>

  datatype Entity = Entity(name: string, kind: string, metadata: Metadata)

  datatype Relationship = Relationship(source: string, target: string, kind: string,
                                       sourceKind: string, targetKind: string)

  datatype StoredEntity = StoredEntity(id: NodeId, name: string, kind: string, metadata: Metadata)

  datatype Edge = Edge(src: NodeId, rel: string, tgt: NodeId)

  datatype GraphFact = GraphFact(source: string, relation: string, target: string)

  /** Collapse white space: `" ".join(name.split()).strip()` */
  function NormalizeName(name: string): string {
    Strip(Join(Words(name), " "))
  }

  /** `lower` stands for Python's `str.lower`. */
  function EntityId(lower: string -> string, ws: string, kind: string, name: string): NodeId {
    ws + ":" + lower(kind) + ":" + lower(NormalizeName(name))
  }

  lemma {:induction false} JoinEnds(ws: seq<string>)
    requires ws != [] && forall i :: 0 <= i < |ws| ==> ws[i] != []
    ensures Join(ws, " ") != []
    ensures Join(ws, " ")[0] == ws[0][0]
    ensures Last(Join(ws, " ")) == Last(Last(ws))
  {
    if |ws| > 1 {
      JoinEnds(ws[1..]);
      LastAppend(ws[0] + " ", Join(ws[1..], " "));
    }
  }

  lemma LastAppend<T>(a: seq<T>, b: seq<T>)
    requires b != []
    ensures Last(a + b) == Last(b)
  {
  }

  lemma WordsNonEmpty(ws: seq<string>)
    requires forall w :: w in ws ==> IsWord(w)
    ensures forall i :: 0 <= i < |ws| ==> ws[i] != []
  {
    forall i | 0 <= i < |ws| ensures ws[i] != [] {
      assert ws[i] in ws;
      assert IsWord(ws[i]);
    }
  }

  /** The trailing `strip()` never has anything to remove. */
  lemma NormalizeIsJoin(name: string)
    ensures NormalizeName(name) == Join(Words(name), " ")
  {
    WordsAreWords(name);
    var ws := Words(name);
    if ws != [] {
      WordsNonEmpty(ws);
      JoinEnds(ws);
      assert IsWord(ws[0]) && IsWord(ws[|ws| - 1]);
      assert !IsSpace(ws[0][0]) && !IsSpace(Last(Last(ws)));
      TrimFixed(Join(ws, " "), IsSpace);
    }
  }

  /** Normalising keeps exactly the words, and normalising twice changes nothing. */
  lemma NormalizeIdempotent(name: string)
    ensures Words(NormalizeName(name)) == Words(name)
    ensures NormalizeName(NormalizeName(name)) == NormalizeName(name)
  {
    NormalizeIsJoin(name);
    WordsAreWords(name);
    WordsJoin(Words(name));
    NormalizeIsJoin(NormalizeName(name));
  }

  /** Two names normalise alike exactly when they have the same words. */
  lemma NormalizeMerges(a: string, b: string)
    ensures NormalizeName(a) == NormalizeName(b) <==> Words(a) == Words(b)
  {
    NormalizeIdempotent(a);
    NormalizeIdempotent(b);
    NormalizeIsJoin(a);
    NormalizeIsJoin(b);
  }

  // ---- one workspace's graph ----------------------------------------------

  /** Entities in insertion order, keyed by id, and the edge list. */
  datatype Graph = Graph(entities: Dict<NodeId, StoredEntity>, edges: seq<Edge>)

  const EMPTY := Graph(Dict([], map[]), [])

  /** An entity sits under the id computed from its kind and normalised name. */
  ghost predicate OwnId(lower: string -> string, ws: string, id: NodeId, e: StoredEntity) {
    e.id == id == EntityId(lower, ws, e.kind, e.name) && e.name == NormalizeName(e.name)
  }

  ghost predicate EntitiesOk(lower: string -> string, ws: string, d: Dict<NodeId, StoredEntity>) {
    d.Valid() && forall id :: id in d.at ==> OwnId(lower, ws, id, d.at[id])
  }

  /** No edge is stored twice and both endpoints are stored entities. */
  ghost predicate EdgesOk(g: Graph) {
    Distinct(g.edges) && forall e :: e in g.edges ==> e.src in g.entities.at && e.tgt in g.entities.at
  }

  /** What every reachable workspace graph satisfies. */
  ghost predicate WellFormed(lower: string -> string, ws: string, g: Graph) {
    EntitiesOk(lower, ws, g.entities) && EdgesOk(g)
  }

  /** The rendered fact of an edge; the raw id stands in for a missing entity. */
  function FactOf(g: Graph, e: Edge): GraphFact {
    GraphFact(if e.src in g.entities.at then g.entities.at[e.src].name else e.src,
              e.rel,
              if e.tgt in g.entities.at then g.entities.at[e.tgt].name else e.tgt)
  }

  function FactsOf(g: Graph, es: seq<Edge>): (r: seq<GraphFact>)
    ensures |r| == |es|
    ensures forall i :: 0 <= i < |es| ==> r[i] == FactOf(g, es[i])
  {
    seq(|es|, i requires 0 <= i < |es| => FactOf(g, es[i]))
  }
}
