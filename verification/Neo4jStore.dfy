/** The Neo4j walk: the same breadth-first search over a one-hop query whose row
    order is the database's business. */
module Neo4jStore {
  import opened Collections
  import opened GraphCore
  import opened GraphWalk
  import GraphStore

  /** A row of the one-hop query, names included. */
  datatype Row = Row(source: string, relation: string, target: string, sourceId: NodeId, targetId: NodeId)

  function EdgeIn(row: Row): Edge { Edge(row.sourceId, row.relation, row.targetId) }

  function FactIn(row: Row): GraphFact { GraphFact(row.source, row.relation, row.target) }

  function EdgesIn(rows: seq<Row>): (r: seq<Edge>)
    ensures |r| == |rows| && forall i :: 0 <= i < |rows| ==> r[i] == EdgeIn(rows[i])
  {
    seq(|rows|, i requires 0 <= i < |rows| => EdgeIn(rows[i]))
  }

  function HopOf(oneHop: NodeId -> seq<Row>): Hop { n => EdgesIn(oneHop(n)) }

  /** The query answers from graph `g`: for each node its incident edges in any order,
      a row possibly repeated, rendered with the stored names. */
  ghost predicate Serves(oneHop: NodeId -> seq<Row>, g: Graph) {
    && Answers(HopOf(oneHop), g.edges)
    && forall n, row :: row in oneHop(n) ==> FactIn(row) == FactOf(g, EdgeIn(row))
  }

  method Neighbors(oneHop: NodeId -> seq<Row>, ghost g: Graph, id: NodeId, depth: int)
    returns (facts: seq<GraphFact>)
    requires Serves(oneHop, g)
    ensures facts == FactsOf(g, Reported(HopOf(oneHop), g.edges, id, depth))
  {
    facts := [];
    var seen: set<Edge> := {};
    var visited := {id};
    var frontier: seq<(NodeId, nat)> := [(id, 0)];
    ghost var st := Start(id);
    ghost var hop := HopOf(oneHop);
    GraphStore.StartMirrors(g, id);
    hide Answers, Walk, Scan, Ends, GraphStore.Mirrors, FactsOf, FactOf;
    while frontier != []
      invariant GraphStore.Mirrors(g, st, frontier, visited, seen, facts)
      invariant Walk(hop, g.edges, depth, st) == Walk(hop, g.edges, depth, Start(id))
      decreases Ends(g.edges) - st.level.Keys, |st.frontier|
    {
      GraphStore.Mirrored(g, st, frontier, visited, seen, facts);
      WalkStep(hop, g.edges, depth, st);
      GraphStore.PopMirrors(g, st, visited, seen, facts);
      var (node, dist) := frontier[0];
      frontier := frontier[1..];
      if dist >= depth {
        st := Pop(st);
        continue;
      }
      frontier, visited, seen, facts :=
        ExpandRows(oneHop(node), g, node, dist, frontier, visited, seen, facts, Pop(st));
      st := Scan(hop(node), node, dist, Pop(st));
    }
    GraphStore.Mirrored(g, st, frontier, visited, seen, facts);
    GraphStore.WalkEnds(hop, g.edges, depth, st);
  }

  /** The inner loop over the rows of one query. */
  method ExpandRows(rows: seq<Row>, ghost g: Graph, node: NodeId, dist: nat, frontier0: seq<(NodeId, nat)>,
                    visited0: set<NodeId>, seen0: set<Edge>, facts0: seq<GraphFact>, ghost st: State)
    returns (frontier: seq<(NodeId, nat)>, visited: set<NodeId>, seen: set<Edge>, facts: seq<GraphFact>)
    requires GraphStore.Mirrors(g, st, frontier0, visited0, seen0, facts0)
    requires forall row :: row in rows ==> FactIn(row) == FactOf(g, EdgeIn(row))
    ensures GraphStore.Mirrors(g, Scan(EdgesIn(rows), node, dist, st), frontier, visited, seen, facts)
  {
    hide GraphStore.Mirrors, FactOf;
    frontier, visited, seen, facts := frontier0, visited0, seen0, facts0;
    ghost var scanned := st;
    assert rows[0..] == rows;
    for i := 0 to |rows|
      invariant GraphStore.Mirrors(g, scanned, frontier, visited, seen, facts)
      invariant Scan(EdgesIn(rows[i..]), node, dist, scanned) == Scan(EdgesIn(rows), node, dist, st)
    {
      var row := rows[i];
      var key := Edge(row.sourceId, row.relation, row.targetId);
      assert EdgesIn(rows[i..])[1..] == EdgesIn(rows[i + 1..]);
      GraphStore.RowMirrors(g, scanned, frontier, visited, seen, facts, key, node, dist);
      scanned := ScanRow(key, node, dist, scanned);
      if key !in seen {
        seen := seen + {key};
        facts := facts + [GraphFact(row.source, row.relation, row.target)];
      }
      var nxt := if row.sourceId == node then row.targetId else row.sourceId;
      if nxt !in visited {
        visited := visited + {nxt};
        frontier := frontier + [(nxt, dist + 1)];
      }
    }
  }

  /** A seed the graph does not hold yields nothing, as in the in-memory store. */
  lemma MissingSeed(hop: Hop, g: Graph, id: NodeId, depth: int)
    requires Answers(hop, g.edges) && EdgesOk(g) && id !in g.entities.at
    ensures Reported(hop, g.edges, id, depth) == []
  {
    WalkCorrect(hop, g.edges, id, depth);
    forall e ensures e !in Reported(hop, g.edges, id, depth) {
      if depth > 0 {
        WithinAlone(g, id, depth - 1);
      }
    }
    if Reported(hop, g.edges, id, depth) != [] {
      SomeElement(Reported(hop, g.edges, id, depth));
      assert false;
    }
  }

  lemma SomeElement<T>(xs: seq<T>)
    requires xs != []
    ensures exists x :: x in xs
  {
    assert xs[0] in xs;
  }

  lemma {:induction false} WithinAlone(g: Graph, id: NodeId, n: nat)
    requires EdgesOk(g) && id !in g.entities.at
    ensures Within(g.edges, id, n) == {id}
  {
    if n > 0 {
      WithinAlone(g, id, n - 1);
    }
  }

  /** Both stores report the same (source id, relation, target id) edges, whatever
      order and repetition the query answers with, a missing seed included. */
  lemma MatchesMemoryStore(oneHop: NodeId -> seq<Row>, g: Graph, id: NodeId, depth: int)
    requires Serves(oneHop, g) && EdgesOk(g)
    ensures forall e :: e in Reported(HopOf(oneHop), g.edges, id, depth)
                   <==> e in GraphStore.NeighborEdges(g, id, depth)
    ensures |Reported(HopOf(oneHop), g.edges, id, depth)| == |GraphStore.NeighborEdges(g, id, depth)|
  {
    GraphStore.StoredHopAnswers(g.edges);
    if id in g.entities.at {
      RowOrderIrrelevant(HopOf(oneHop), GraphStore.StoredHop(g.edges), g.edges, id, depth);
    } else {
      MissingSeed(HopOf(oneHop), g, id, depth);
    }
  }
}
