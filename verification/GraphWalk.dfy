/** The depth-bounded breadth-first walk over an undirected view of the edges,
    written once for any source of one-hop rows, and its correctness. */
module GraphWalk {
  import opened Collections
  import opened GraphCore

  /** The one-hop query: the rows touching a node, in any order, with any repetition. */
  type Hop = NodeId -> seq<Edge>

  predicate Touches(e: Edge, n: NodeId) { e.src == n || e.tgt == n }

  /** The endpoint reached by following `e` from `n`. */
  function Other(e: Edge, n: NodeId): NodeId { if e.src == n then e.tgt else e.src }

  /** `hop` answers from exactly the given edges. */
  ghost predicate Answers(hop: Hop, edges: seq<Edge>) {
    forall n, e :: e in hop(n) <==> e in edges && Touches(e, n)
  }

  /** `visited` of the source is the key set of `level`; `level` remembers the
      distance at which a node was queued. */
  datatype State = State(frontier: seq<(NodeId, nat)>, level: map<NodeId, nat>, found: seq<Edge>)

  function Start(seed: NodeId): State { State([(seed, 0)], map[seed := 0], []) }

  /** One row of the inner loop. */
  function ScanRow(e: Edge, node: NodeId, dist: nat, st: State): State {
    var found := if e in st.found then st.found else st.found + [e];
    var nb := Other(e, node);
    if nb in st.level then State(st.frontier, st.level, found)
    else State(st.frontier + [(nb, dist + 1)], st.level[nb := dist + 1], found)
  }

  function Scan(rows: seq<Edge>, node: NodeId, dist: nat, st: State): State {
    if rows == [] then st else Scan(rows[1..], node, dist, ScanRow(rows[0], node, dist, st))
  }

  function Pop(st: State): State
    requires st.frontier != []
  {
    State(st.frontier[1..], st.level, st.found)
  }

  /** One iteration of `while frontier`. */
  function Step(hop: Hop, depth: int, st: State): State
    requires st.frontier != []
  {
    var (node, dist) := st.frontier[0];
    if dist >= depth then Pop(st) else Scan(hop(node), node, dist, Pop(st))
  }

  ghost function Ends(edges: seq<Edge>): set<NodeId> {
    (set e | e in edges :: e.src) + (set e | e in edges :: e.tgt)
  }

  lemma {:induction false} ScanProgress(rows: seq<Edge>, edges: seq<Edge>, node: NodeId, dist: nat, st: State)
    requires forall e :: e in rows ==> e in edges
    ensures var s := Scan(rows, node, dist, st);
            && st.level.Keys <= s.level.Keys
            && st.frontier <= s.frontier
            && (s.frontier == st.frontier || Ends(edges) - s.level.Keys < Ends(edges) - st.level.Keys)
  {
    if rows != [] {
      var s1 := ScanRow(rows[0], node, dist, st);
      ScanProgress(rows[1..], edges, node, dist, s1);
      assert rows[0] in edges;
      var nb := Other(rows[0], node);
      assert nb in Ends(edges);
      if nb !in st.level {
        assert nb in Ends(edges) - st.level.Keys && nb !in Ends(edges) - s1.level.Keys;
      }
    }
  }

  /** No node is queued twice: an expansion appends distinct nodes never seen before,
      and marks exactly those as seen. */
  lemma {:induction false} ScanQueuesNew(rows: seq<Edge>, node: NodeId, dist: nat, st: State)
    returns (added: seq<NodeId>)
    ensures var s := Scan(rows, node, dist, st);
            && |s.frontier| == |st.frontier| + |added| && st.frontier <= s.frontier
            && (forall i :: 0 <= i < |added| ==> s.frontier[|st.frontier| + i] == (added[i], dist + 1))
            && Distinct(added) && (forall i :: 0 <= i < |added| ==> added[i] !in st.level)
            && s.level.Keys == st.level.Keys + (set v | v in added)
    decreases |rows|
  {
    if rows == [] {
      added := [];
    } else {
      var rest := ScanQueuesNew(rows[1..], node, dist, ScanRow(rows[0], node, dist, st));
      var nb := Other(rows[0], node);
      added := if nb in st.level then rest else [nb] + rest;
    }
  }

  /** The whole walk; it ends because a node is queued only when first seen. */
  ghost function Walk(hop: Hop, edges: seq<Edge>, depth: int, st: State): State
    requires Answers(hop, edges)
    decreases Ends(edges) - st.level.Keys, |st.frontier|
  {
    if st.frontier == [] then st
    else
      var (node, dist) := st.frontier[0];
      ScanProgress(hop(node), edges, node, dist, Pop(st));
      Walk(hop, edges, depth, Step(hop, depth, st))
  }

  lemma WalkStep(hop: Hop, edges: seq<Edge>, depth: int, st: State)
    requires Answers(hop, edges) && st.frontier != []
    ensures Walk(hop, edges, depth, st) == Walk(hop, edges, depth, Step(hop, depth, st))
    ensures Ends(edges) - Step(hop, depth, st).level.Keys < Ends(edges) - st.level.Keys
            || (Ends(edges) - Step(hop, depth, st).level.Keys == Ends(edges) - st.level.Keys
                && |Step(hop, depth, st).frontier| < |st.frontier|)
  {
    var (node, dist) := st.frontier[0];
    ScanProgress(hop(node), edges, node, dist, Pop(st));
  }

  /** The edges reported for a seed, in the order they are reported. */
  ghost function Reported(hop: Hop, edges: seq<Edge>, seed: NodeId, depth: int): seq<Edge>
    requires Answers(hop, edges)
  {
    Walk(hop, edges, depth, Start(seed)).found
  }

  // ---- distance ------------------------------------------------------------

  ghost function Adjacent(edges: seq<Edge>, s: set<NodeId>): set<NodeId> {
    (set e | e in edges && e.src in s :: e.tgt) + (set e | e in edges && e.tgt in s :: e.src)
  }

  /** Nodes at most `n` undirected hops from the seed. */
  ghost function Within(edges: seq<Edge>, seed: NodeId, n: nat): set<NodeId> {
    if n == 0 then {seed}
    else Within(edges, seed, n - 1) + Adjacent(edges, Within(edges, seed, n - 1))
  }

  /** An endpoint of `e` is at most `n` hops from the seed. */
  ghost predicate Near(edges: seq<Edge>, seed: NodeId, e: Edge, n: nat) {
    e.src in Within(edges, seed, n) || e.tgt in Within(edges, seed, n)
  }

  ghost predicate Linked(edges: seq<Edge>, a: NodeId, b: NodeId) {
    exists e :: e in edges && Touches(e, a) && Other(e, a) == b
  }

  /** `p` is a walk along edges, in either direction, from `u` to `v`. */
  ghost predicate IsPath(edges: seq<Edge>, p: seq<NodeId>, u: NodeId, v: NodeId) {
    && |p| > 0 && p[0] == u && p[|p| - 1] == v
    && forall i :: 0 <= i < |p| - 1 ==> Linked(edges, p[i], p[i + 1])
  }

  lemma {:induction false} WithinMono(edges: seq<Edge>, seed: NodeId, m: nat, n: nat)
    requires m <= n
    ensures Within(edges, seed, m) <= Within(edges, seed, n)
  {
    if m < n {
      WithinMono(edges, seed, m, n - 1);
    }
  }

  lemma WithinSucc(edges: seq<Edge>, seed: NodeId, n: nat)
    ensures Within(edges, seed, n + 1) == Within(edges, seed, n) + Adjacent(edges, Within(edges, seed, n))
  {
  }

  /** A node first within `n + 1` hops is linked to one within `n`. */
  lemma Predecessor(edges: seq<Edge>, seed: NodeId, n: nat, v: NodeId) returns (u: NodeId)
    requires v in Within(edges, seed, n + 1) && v !in Within(edges, seed, n)
    ensures u in Within(edges, seed, n) && Linked(edges, u, v)
  {
    hide Within, Linked, Adjacent;
    WithinSucc(edges, seed, n);
    LinkedAdjacent(edges, Within(edges, seed, n), v);
    u :| u in Within(edges, seed, n) && Linked(edges, u, v);
  }

  lemma WithinStep(edges: seq<Edge>, seed: NodeId, n: nat, e: Edge, node: NodeId)
    requires e in edges && Touches(e, node) && node in Within(edges, seed, n)
    ensures Other(e, node) in Within(edges, seed, n + 1)
  {
  }

  lemma LinkedAdjacent(edges: seq<Edge>, s: set<NodeId>, v: NodeId)
    ensures v in Adjacent(edges, s) <==> exists u :: u in s && Linked(edges, u, v)
  {
    if v in Adjacent(edges, s) {
      var e :| e in edges && ((e.src in s && e.tgt == v) || (e.tgt in s && e.src == v));
      var u := if e.src in s && e.tgt == v then e.src else e.tgt;
      assert Touches(e, u);
      assert Other(e, u) == v;
      assert Linked(edges, u, v);
    }
    if u :| u in s && Linked(edges, u, v) {
      var e :| e in edges && Touches(e, u) && Other(e, u) == v;
    }
  }

  /** The layered definition of distance agrees with paths of edges. */
  lemma {:induction false} WithinIffPath(edges: seq<Edge>, seed: NodeId, n: nat, v: NodeId)
    ensures v in Within(edges, seed, n) <==> exists p :: IsPath(edges, p, seed, v) && |p| <= n + 1
  {
    if v in Within(edges, seed, n) {
      PathOfWithin(edges, seed, n, v);
    }
    if p :| IsPath(edges, p, seed, v) && |p| <= n + 1 {
      WithinOfPath(edges, seed, p, v);
      WithinMono(edges, seed, |p| - 1, n);
    }
  }

  lemma {:induction false} PathOfWithin(edges: seq<Edge>, seed: NodeId, n: nat, v: NodeId)
    requires v in Within(edges, seed, n)
    ensures exists p :: IsPath(edges, p, seed, v) && |p| <= n + 1
  {
    hide Linked, Adjacent;
    if n == 0 {
      assert IsPath(edges, [seed], seed, v);
    } else if v in Within(edges, seed, n - 1) {
      PathOfWithin(edges, seed, n - 1, v);
    } else {
      var u := Predecessor(edges, seed, n - 1, v);
      PathOfWithin(edges, seed, n - 1, u);
      var p :| IsPath(edges, p, seed, u) && |p| <= n;
      assert IsPath(edges, p + [v], seed, v);
    }
  }

  lemma {:induction false} WithinOfPath(edges: seq<Edge>, seed: NodeId, p: seq<NodeId>, v: NodeId)
    requires IsPath(edges, p, seed, v)
    ensures v in Within(edges, seed, |p| - 1)
    decreases |p|
  {
    if |p| > 1 {
      var q := p[..|p| - 1];
      var u := q[|q| - 1];
      assert Linked(edges, p[|p| - 2], p[|p| - 1]);
      assert IsPath(edges, q, seed, u) by {
        assert forall i :: 0 <= i < |q| - 1 ==> Linked(edges, p[i], p[i + 1]);
      }
      WithinOfPath(edges, seed, q, u);
      LinkedAdjacent(edges, Within(edges, seed, |q| - 1), v);
    }
  }

  // ---- the loop invariant ---------------------------------------------------

  /** Every label is the length of some path from the seed. */
  ghost predicate Labelled(edges: seq<Edge>, seed: NodeId, st: State) {
    && seed in st.level && st.level[seed] == 0
    && forall v :: v in st.level ==> v in Within(edges, seed, st.level[v])
  }

  /** The queue carries its labels in order, all of them `k` or `k + 1`. */
  ghost predicate Queue(st: State, k: nat) {
    && (forall i :: 0 <= i < |st.frontier| ==>
          && st.frontier[i].0 in st.level && st.level[st.frontier[i].0] == st.frontier[i].1
          && k <= st.frontier[i].1 <= k + 1)
    && Sorted(st.frontier)
  }

  ghost predicate Sorted(q: seq<(NodeId, nat)>) {
    forall i, j :: 0 <= i < j < |q| ==> q[i].1 <= q[j].1
  }

  ghost predicate Queued(st: State, v: NodeId) {
    exists i :: 0 <= i < |st.frontier| && st.frontier[i].0 == v
  }

  ghost predicate Cover(st: State, done: set<NodeId>) {
    && done <= st.level.Keys
    && forall v :: v in st.level ==> v in done || Queued(st, v)
  }

  /** An expanded node within the depth has had all its edges reported and its
      neighbours labelled no more than one further. */
  ghost predicate Expanded(edges: seq<Edge>, st: State, v: NodeId)
    requires v in st.level
  {
    forall e :: e in edges && Touches(e, v) ==>
      e in st.found && Other(e, v) in st.level && st.level[Other(e, v)] <= st.level[v] + 1
  }

  ghost predicate Closed(edges: seq<Edge>, depth: int, st: State, done: set<NodeId>, k: nat)
    requires done <= st.level.Keys
  {
    forall v :: v in done ==> st.level[v] <= k && (st.level[v] < depth ==> Expanded(edges, st, v))
  }

  /** A reported edge is an edge, met from an expanded node. */
  ghost predicate Sound(edges: seq<Edge>, depth: int, st: State, done: set<NodeId>)
    requires done <= st.level.Keys
  {
    forall e :: e in st.found ==>
      e in edges && exists v :: v in done && st.level[v] < depth && Touches(e, v)
  }

  ghost predicate Ordered(edges: seq<Edge>, seed: NodeId, found: seq<Edge>) {
    && Distinct(found)
    && forall i, j, n: nat :: 0 <= i < j < |found| && Near(edges, seed, found[j], n) ==>
         Near(edges, seed, found[i], n)
  }

  ghost predicate Inv(edges: seq<Edge>, seed: NodeId, depth: int, st: State, done: set<NodeId>, k: nat) {
    && Labelled(edges, seed, st) && Queue(st, k) && Cover(st, done)
    && Closed(edges, depth, st, done, k) && Sound(edges, depth, st, done)
    && Ordered(edges, seed, st.found)
  }

  /** Everything closer than `k` has been expanded, with its exact label at most. */
  ghost predicate Behind(edges: seq<Edge>, seed: NodeId, st: State, done: set<NodeId>, k: nat)
    requires done <= st.level.Keys
  {
    forall n: nat, w :: n < k && w in Within(edges, seed, n) ==> w in done && st.level[w] <= n
  }

  /** While `node`, labelled `k`, is being expanded. */
  ghost predicate ScanInv(edges: seq<Edge>, seed: NodeId, depth: int, st: State, done: set<NodeId>,
                          node: NodeId, k: nat) {
    && node in st.level && st.level[node] == k < depth
    && Labelled(edges, seed, st) && Queue(st, k)
    && done <= st.level.Keys && Cover(st, done + {node})
    && Closed(edges, depth, st, done, k) && Sound(edges, depth, st, done + {node})
    && Ordered(edges, seed, st.found) && Behind(edges, seed, st, done, k)
  }

  lemma ExpandedHas(edges: seq<Edge>, st: State, w: NodeId, e: Edge)
    requires w in st.level && Expanded(edges, st, w) && e in edges && Touches(e, w)
    ensures e in st.found && Other(e, w) in st.level && st.level[Other(e, w)] <= st.level[w] + 1
  {
  }

  lemma ExpandedReaches(edges: seq<Edge>, st: State, u: NodeId, w: NodeId)
    requires u in st.level && Expanded(edges, st, u) && Linked(edges, u, w)
    ensures w in st.level && st.level[w] <= st.level[u] + 1
  {
    var e :| e in edges && Touches(e, u) && Other(e, u) == w;
  }

  lemma OrderedSnoc(edges: seq<Edge>, seed: NodeId, depth: int, st: State, done: set<NodeId>,
                    node: NodeId, k: nat, e: Edge)
    requires ScanInv(edges, seed, depth, st, done, node, k)
    requires e in edges && e !in st.found
    ensures Ordered(edges, seed, st.found + [e])
  {
    var found := st.found + [e];
    forall i, n: nat | 0 <= i < |st.found| && Near(edges, seed, e, n)
      ensures Near(edges, seed, st.found[i], n)
    {
      if n < k {
        var w := if e.src in Within(edges, seed, n) then e.src else e.tgt;
        assert w in done && st.level[w] <= n;
        ExpandedHas(edges, st, w, e);
        assert false;
      }
      assert st.found[i] in st.found;
      var v :| v in done + {node} && st.level[v] < depth && Touches(st.found[i], v);
      WithinMono(edges, seed, st.level[v], n);
    }
    forall i, j, n: nat | 0 <= i < j < |found| && Near(edges, seed, found[j], n)
      ensures Near(edges, seed, found[i], n)
    {
      if j < |st.found| {
        assert st.found[i] == found[i] && st.found[j] == found[j];
      }
    }
  }

  lemma ScanRowQueue(st: State, done: set<NodeId>, node: NodeId, k: nat, e: Edge)
    requires Queue(st, k) && Cover(st, done + {node})
    ensures Queue(ScanRow(e, node, k, st), k) && Cover(ScanRow(e, node, k, st), done + {node})
  {
    var s := ScanRow(e, node, k, st);
    forall v | v in s.level ensures v in done + {node} || Queued(s, v) {
      if v in st.level && Queued(st, v) {
        var i :| 0 <= i < |st.frontier| && st.frontier[i].0 == v;
        assert s.frontier[i].0 == v;
      } else if v !in st.level {
        assert s.frontier[|st.frontier|].0 == v;
      }
    }
  }

  lemma ScanRowClosed(edges: seq<Edge>, depth: int, st: State, done: set<NodeId>, node: NodeId, k: nat, e: Edge)
    requires done <= st.level.Keys && Closed(edges, depth, st, done, k)
    ensures Closed(edges, depth, ScanRow(e, node, k, st), done, k)
  {
    var s := ScanRow(e, node, k, st);
    forall v | v in done ensures s.level[v] <= k && (s.level[v] < depth ==> Expanded(edges, s, v)) {
      if st.level[v] < depth {
        assert Expanded(edges, st, v);
      }
    }
  }

  lemma ScanRowSound(edges: seq<Edge>, depth: int, st: State, done: set<NodeId>, node: NodeId, k: nat, e: Edge)
    requires done <= st.level.Keys && Sound(edges, depth, st, done)
    requires e in edges && Touches(e, node) && node in done && st.level[node] < depth
    ensures Sound(edges, depth, ScanRow(e, node, k, st), done)
  {
    var s := ScanRow(e, node, k, st);
    forall d | d in s.found
      ensures d in edges && exists v :: v in done && s.level[v] < depth && Touches(d, v)
    {
      if d in st.found {
        var v :| v in done && st.level[v] < depth && Touches(d, v);
        assert s.level[v] < depth;
      } else {
        assert d == e && s.level[node] < depth;
      }
    }
  }

  lemma ScanRowLabels(edges: seq<Edge>, seed: NodeId, st: State, node: NodeId, k: nat, e: Edge)
    requires Labelled(edges, seed, st) && node in st.level && st.level[node] == k
    requires e in edges && Touches(e, node)
    ensures Labelled(edges, seed, ScanRow(e, node, k, st))
  {
    hide Within;
    WithinStep(edges, seed, k, e, node);
  }

  lemma ScanRowBehind(edges: seq<Edge>, seed: NodeId, st: State, done: set<NodeId>, node: NodeId, k: nat, e: Edge)
    requires done <= st.level.Keys && Behind(edges, seed, st, done, k)
    ensures Behind(edges, seed, ScanRow(e, node, k, st), done, k)
  {
    var s := ScanRow(e, node, k, st);
    forall n: nat, w | n < k && w in Within(edges, seed, n) ensures w in done && s.level[w] <= n {
      assert w in done && st.level[w] <= n;
    }
  }

  lemma ScanRowInv(edges: seq<Edge>, seed: NodeId, depth: int, st: State, done: set<NodeId>,
                   node: NodeId, k: nat, e: Edge)
    requires ScanInv(edges, seed, depth, st, done, node, k)
    requires e in edges && Touches(e, node)
    ensures ScanInv(edges, seed, depth, ScanRow(e, node, k, st), done, node, k)
  {
    hide Labelled, Queue, Cover, Closed, Sound, Ordered, Behind;
    ScanRowQueue(st, done, node, k, e);
    ScanRowLabels(edges, seed, st, node, k, e);
    ScanRowClosed(edges, depth, st, done, node, k, e);
    ScanRowSound(edges, depth, st, done + {node}, node, k, e);
    ScanRowBehind(edges, seed, st, done, node, k, e);
    if e !in st.found {
      OrderedSnoc(edges, seed, depth, st, done, node, k, e);
    }
  }

  lemma {:induction false} ScanKeeps(edges: seq<Edge>, seed: NodeId, depth: int, st: State, done: set<NodeId>,
                                     node: NodeId, k: nat, rows: seq<Edge>)
    requires ScanInv(edges, seed, depth, st, done, node, k)
    requires forall e :: e in rows ==> e in edges && Touches(e, node)
    ensures ScanInv(edges, seed, depth, Scan(rows, node, k, st), done, node, k)
    decreases |rows|
  {
    hide ScanInv;
    if rows != [] {
      ScanRowInv(edges, seed, depth, st, done, node, k, rows[0]);
      ScanKeeps(edges, seed, depth, ScanRow(rows[0], node, k, st), done, node, k, rows[1..]);
    }
  }

  /** Scanning forgets nothing and handles every row. */
  lemma {:induction false} ScanHandles(rows: seq<Edge>, node: NodeId, k: nat, st: State)
    ensures var s := Scan(rows, node, k, st);
            && st.found <= s.found && st.level.Keys <= s.level.Keys
            && forall e :: e in rows ==> e in s.found && Other(e, node) in s.level
  {
    if rows != [] {
      var s1 := ScanRow(rows[0], node, k, st);
      ScanHandles(rows[1..], node, k, s1);
      assert rows[0] in s1.found && Other(rows[0], node) in s1.level;
      assert forall e :: e in rows ==> e == rows[0] || e in rows[1..];
    }
  }

  lemma {:induction false} BehindHolds(edges: seq<Edge>, seed: NodeId, depth: int, st: State, done: set<NodeId>,
                                       k: nat, n: nat, w: NodeId)
    requires Labelled(edges, seed, st) && Cover(st, done) && Closed(edges, depth, st, done, k)
    requires forall i :: 0 <= i < |st.frontier| ==>
               st.frontier[i].0 in st.level && st.level[st.frontier[i].0] >= k
    requires n < k && k <= depth && w in Within(edges, seed, n)
    ensures w in done && st.level[w] <= n
  {
    hide Linked, Adjacent, Expanded;
    if n == 0 {
      assert w == seed;
    } else if w in Within(edges, seed, n - 1) {
      BehindHolds(edges, seed, depth, st, done, k, n - 1, w);
    } else {
      hide Within;
      var u := Predecessor(edges, seed, n - 1, w);
      BehindHolds(edges, seed, depth, st, done, k, n - 1, u);
      ExpandedReaches(edges, st, u, w);
    }
    assert w in st.level && st.level[w] <= n;
    assert !Queued(st, w);
  }

  lemma PopCover(st: State, done: set<NodeId>)
    requires st.frontier != [] && Cover(st, done) && st.frontier[0].0 in st.level
    ensures Cover(Pop(st), done + {st.frontier[0].0})
  {
    var s := Pop(st);
    forall v | v in s.level ensures v in done + {st.frontier[0].0} || Queued(s, v) {
      if v !in done {
        var i :| 0 <= i < |st.frontier| && st.frontier[i].0 == v;
        if i > 0 {
          assert s.frontier[i - 1].0 == v;
        }
      }
    }
  }

  lemma PopQueue(st: State, k: nat)
    requires st.frontier != [] && Queue(st, k)
    ensures Queue(Pop(st), st.frontier[0].1) && k <= st.frontier[0].1
  {
    var q := st.frontier;
    assert forall i :: 0 <= i < |q[1..]| ==> q[1..][i] == q[i + 1];
  }

  lemma PopScans(edges: seq<Edge>, seed: NodeId, depth: int, st: State, done: set<NodeId>, k: nat)
    requires st.frontier != [] && Inv(edges, seed, depth, st, done, k) && st.frontier[0].1 < depth
    ensures ScanInv(edges, seed, depth, Pop(st), done, st.frontier[0].0, st.frontier[0].1)
  {
    hide Cover, Closed, Ordered, Behind, Sorted;
    var (node, dist) := st.frontier[0];
    var p := Pop(st);
    PopCover(st, done);
    PopQueue(st, k);
    SoundMono(edges, depth, p, done, done + {node});
    QueueAhead(st, k);
    AllBehind(edges, seed, depth, st, done, k, dist);
    ClosedPop(edges, depth, st, done, k, dist);
    assert Labelled(edges, seed, p);
  }

  lemma QueueAhead(st: State, k: nat)
    requires st.frontier != [] && Queue(st, k)
    ensures forall i :: 0 <= i < |st.frontier| ==>
              st.frontier[i].0 in st.level && st.level[st.frontier[i].0] >= st.frontier[0].1
    ensures k <= st.frontier[0].1
  {
  }

  lemma AllBehind(edges: seq<Edge>, seed: NodeId, depth: int, st: State, done: set<NodeId>, k: nat, dist: nat)
    requires Labelled(edges, seed, st) && Cover(st, done) && Closed(edges, depth, st, done, k)
    requires forall i :: 0 <= i < |st.frontier| ==>
               st.frontier[i].0 in st.level && st.level[st.frontier[i].0] >= dist
    requires k <= dist < depth && st.frontier != []
    ensures Behind(edges, seed, Pop(st), done, dist)
  {
    hide Within, Labelled;
    assert Closed(edges, depth, st, done, dist);
    forall n: nat, w | n < dist && w in Within(edges, seed, n) ensures w in done && st.level[w] <= n {
      BehindHolds(edges, seed, depth, st, done, dist, n, w);
    }
  }

  lemma ClosedPop(edges: seq<Edge>, depth: int, st: State, done: set<NodeId>, k: nat, dist: nat)
    requires st.frontier != [] && done <= st.level.Keys && Closed(edges, depth, st, done, k) && k <= dist
    ensures Closed(edges, depth, Pop(st), done, dist)
  {
    forall v | v in done && st.level[v] < depth ensures Expanded(edges, Pop(st), v) {
      assert Expanded(edges, st, v);
    }
  }

  lemma PopSkips(edges: seq<Edge>, seed: NodeId, depth: int, st: State, done: set<NodeId>, k: nat)
    requires st.frontier != [] && Inv(edges, seed, depth, st, done, k) && st.frontier[0].1 >= depth
    ensures Inv(edges, seed, depth, Pop(st), done + {st.frontier[0].0}, st.frontier[0].1)
  {
    var (node, dist) := st.frontier[0];
    PopCover(st, done);
    PopQueue(st, k);
    SoundMono(edges, depth, Pop(st), done, done + {node});
    ClosedSkip(edges, depth, st, done, k, node, dist);
  }

  lemma ClosedSkip(edges: seq<Edge>, depth: int, st: State, done: set<NodeId>, k: nat, node: NodeId, dist: nat)
    requires st.frontier != [] && done <= st.level.Keys && Closed(edges, depth, st, done, k) && k <= dist
    requires node in st.level && st.level[node] == dist >= depth
    ensures Closed(edges, depth, Pop(st), done + {node}, dist)
  {
    forall v | v in done && st.level[v] < depth ensures Expanded(edges, Pop(st), v) {
      assert Expanded(edges, st, v);
    }
  }

  /** One iteration of the walk keeps the invariant. */
  lemma StepInv(hop: Hop, edges: seq<Edge>, seed: NodeId, depth: int, st: State, done: set<NodeId>, k: nat)
    requires Answers(hop, edges) && st.frontier != []
    requires Inv(edges, seed, depth, st, done, k)
    ensures Inv(edges, seed, depth, Step(hop, depth, st), done + {st.frontier[0].0}, st.frontier[0].1)
  {
    hide Inv, ScanInv;
    var (node, dist) := st.frontier[0];
    if dist < depth {
      var rows := hop(node);
      var p := Pop(st);
      PopScans(edges, seed, depth, st, done, k);
      ScanKeeps(edges, seed, depth, p, done, node, dist, rows);
      ScanHandles(rows, node, dist, p);
      ScanFinishes(edges, seed, depth, Scan(rows, node, dist, p), done, node, dist, rows);
    } else {
      PopSkips(edges, seed, depth, st, done, k);
    }
  }

  lemma SoundMono(edges: seq<Edge>, depth: int, st: State, done: set<NodeId>, more: set<NodeId>)
    requires done <= more <= st.level.Keys && Sound(edges, depth, st, done)
    ensures Sound(edges, depth, st, more)
  {
  }

  lemma ScanFinishes(edges: seq<Edge>, seed: NodeId, depth: int, s: State, done: set<NodeId>,
                     node: NodeId, k: nat, rows: seq<Edge>)
    requires ScanInv(edges, seed, depth, s, done, node, k)
    requires forall e :: e in edges && Touches(e, node) ==> e in rows
    requires forall e :: e in rows ==> e in s.found && Other(e, node) in s.level
    ensures Inv(edges, seed, depth, s, done + {node}, k)
  {
    assert Expanded(edges, s, node) by {
      forall e | e in edges && Touches(e, node)
        ensures e in s.found && Other(e, node) in s.level && s.level[Other(e, node)] <= k + 1
      {
        var nb := Other(e, node);
        assert nb in done + {node} || Queued(s, nb);
      }
    }
  }

  lemma {:induction false} WalkInv(hop: Hop, edges: seq<Edge>, seed: NodeId, depth: int, st: State,
                                   done: set<NodeId>, k: nat)
    returns (done': set<NodeId>, k': nat)
    requires Answers(hop, edges) && Inv(edges, seed, depth, st, done, k)
    ensures Walk(hop, edges, depth, st).frontier == []
    ensures Inv(edges, seed, depth, Walk(hop, edges, depth, st), done', k')
    decreases Ends(edges) - st.level.Keys, |st.frontier|
  {
    hide Inv;
    if st.frontier == [] {
      done', k' := done, k;
    } else {
      var (node, dist) := st.frontier[0];
      StepInv(hop, edges, seed, depth, st, done, k);
      ScanProgress(hop(node), edges, node, dist, Pop(st));
      done', k' := WalkInv(hop, edges, seed, depth, Step(hop, depth, st), done + {node}, dist);
    }
  }

  /** Once the queue is empty every node within the depth carries a label no
      larger than its distance. */
  lemma {:induction false} Complete(edges: seq<Edge>, seed: NodeId, depth: int, st: State, done: set<NodeId>,
                                    k: nat, n: nat, w: NodeId)
    requires Inv(edges, seed, depth, st, done, k) && st.frontier == []
    requires n < depth && w in Within(edges, seed, n)
    ensures w in done && st.level[w] <= n
  {
    hide Linked, Adjacent, Expanded, Sound, Ordered, Queue;
    if n > 0 {
      if w in Within(edges, seed, n - 1) {
        Complete(edges, seed, depth, st, done, k, n - 1, w);
      } else {
        hide Within;
        var u := Predecessor(edges, seed, n - 1, w);
        Complete(edges, seed, depth, st, done, k, n - 1, u);
        ExpandedReaches(edges, st, u, w);
      }
    }
    assert w in st.level;
    assert !Queued(st, w);
  }

  lemma StartInv(edges: seq<Edge>, seed: NodeId, depth: int)
    ensures Inv(edges, seed, depth, Start(seed), {}, 0)
  {
    assert Queued(Start(seed), seed) by { assert Start(seed).frontier[0].0 == seed; }
  }

  lemma FinishedSound(edges: seq<Edge>, seed: NodeId, depth: int, st: State, done: set<NodeId>, k: nat, e: Edge)
    requires Inv(edges, seed, depth, st, done, k) && e in st.found
    ensures e in edges && depth > 0 && Near(edges, seed, e, depth - 1)
  {
    hide Closed, Queue, Ordered, Within;
    var v :| v in done && st.level[v] < depth && Touches(e, v);
    WithinMono(edges, seed, st.level[v], depth - 1);
  }

  lemma FinishedComplete(edges: seq<Edge>, seed: NodeId, depth: int, st: State, done: set<NodeId>, k: nat, e: Edge)
    requires Inv(edges, seed, depth, st, done, k) && st.frontier == []
    requires e in edges && depth > 0 && Near(edges, seed, e, depth - 1)
    ensures e in st.found
  {
    hide Queue, Ordered, Within, Sound, Labelled;
    var w := if e.src in Within(edges, seed, depth - 1) then e.src else e.tgt;
    Complete(edges, seed, depth, st, done, k, depth - 1, w);
    ExpandedHas(edges, st, w, e);
  }

  /** Exactly the edges with an endpoint fewer than `depth` hops from the seed are
      reported, each once, nearer edges never after farther ones. */
  lemma WalkCorrect(hop: Hop, edges: seq<Edge>, seed: NodeId, depth: int)
    requires Answers(hop, edges)
    ensures var r := Reported(hop, edges, seed, depth);
            && (forall e :: e in r <==> e in edges && depth > 0 && Near(edges, seed, e, depth - 1))
            && Ordered(edges, seed, r)
  {
    StartInv(edges, seed, depth);
    var done, k := WalkInv(hop, edges, seed, depth, Start(seed), {}, 0);
    var st := Walk(hop, edges, depth, Start(seed));
    forall e ensures e in st.found <==> e in edges && depth > 0 && Near(edges, seed, e, depth - 1) {
      if e in st.found {
        FinishedSound(edges, seed, depth, st, done, k, e);
      }
      if e in edges && depth > 0 && Near(edges, seed, e, depth - 1) {
        FinishedComplete(edges, seed, depth, st, done, k, e);
      }
    }
  }

  /** The same in terms of paths: an edge is reported exactly when a path of fewer
      than `depth` hops leads from the seed to one of its endpoints. */
  lemma ReportedIffPath(hop: Hop, edges: seq<Edge>, seed: NodeId, depth: int, e: Edge)
    requires Answers(hop, edges)
    ensures e in Reported(hop, edges, seed, depth) <==>
            e in edges && exists p, v :: IsPath(edges, p, seed, v) && |p| <= depth && Touches(e, v)
  {
    hide Within, IsPath, Reported;
    WalkCorrect(hop, edges, seed, depth);
    if e in Reported(hop, edges, seed, depth) {
      var w := if e.src in Within(edges, seed, depth - 1) then e.src else e.tgt;
      PathOfWithin(edges, seed, depth - 1, w);
      var p :| IsPath(edges, p, seed, w) && |p| <= depth;
      assert Touches(e, w);
    }
    if p, v :| e in edges && IsPath(edges, p, seed, v) && |p| <= depth && Touches(e, v) {
      PathNonEmpty(edges, p, seed, v);
      WithinOfPath(edges, seed, p, v);
      WithinMono(edges, seed, |p| - 1, depth - 1);
    }
  }

  lemma PathNonEmpty(edges: seq<Edge>, p: seq<NodeId>, u: NodeId, v: NodeId)
    requires IsPath(edges, p, u, v)
    ensures |p| > 0
  {
  }

  // ---- two walks with different depths -----------------------------------------

  /** The queue is in order and spans at most two distances. */
  ghost predicate Layered(q: seq<(NodeId, nat)>) {
    Sorted(q) && forall i :: 0 <= i < |q| ==> q[i].1 <= q[0].1 + 1
  }

  lemma {:induction false} ScanLayered(rows: seq<Edge>, node: NodeId, dist: nat, st: State)
    requires Sorted(st.frontier)
    requires forall i :: 0 <= i < |st.frontier| ==> dist <= st.frontier[i].1 <= dist + 1
    ensures Layered(Scan(rows, node, dist, st).frontier)
    decreases |rows|
  {
    if rows != [] {
      ScanLayered(rows[1..], node, dist, ScanRow(rows[0], node, dist, st));
    }
  }

  lemma StepLayered(hop: Hop, depth: int, st: State)
    requires st.frontier != [] && Layered(st.frontier)
    ensures Layered(Step(hop, depth, st).frontier)
  {
    var (node, dist) := st.frontier[0];
    var q := st.frontier[1..];
    assert forall i :: 0 <= i < |q| ==> q[i] == st.frontier[i + 1];
    if dist < depth {
      ScanLayered(hop(node), node, dist, Pop(st));
    }
  }

  lemma {:induction false} WalkExtends(hop: Hop, edges: seq<Edge>, depth: int, st: State)
    requires Answers(hop, edges)
    ensures st.found <= Walk(hop, edges, depth, st).found
    decreases Ends(edges) - st.level.Keys, |st.frontier|
  {
    if st.frontier != [] {
      var (node, dist) := st.frontier[0];
      ScanProgress(hop(node), edges, node, dist, Pop(st));
      ScanHandles(hop(node), node, dist, Pop(st));
      WalkExtends(hop, edges, depth, Step(hop, depth, st));
    }
  }

  lemma {:induction false} WalkDrains(hop: Hop, edges: seq<Edge>, depth: int, st: State)
    requires Answers(hop, edges)
    requires forall i :: 0 <= i < |st.frontier| ==> st.frontier[i].1 >= depth
    ensures Walk(hop, edges, depth, st).found == st.found
    decreases |st.frontier|
  {
    if st.frontier != [] {
      var q := st.frontier[1..];
      assert forall i :: 0 <= i < |q| ==> q[i] == st.frontier[i + 1];
      WalkDrains(hop, edges, depth, Pop(st));
    }
  }

  lemma {:induction false} WalkPrefix(hop: Hop, edges: seq<Edge>, d: int, d': int, st: State)
    requires Answers(hop, edges) && d <= d' && Layered(st.frontier)
    ensures Walk(hop, edges, d, st).found <= Walk(hop, edges, d', st).found
    decreases Ends(edges) - st.level.Keys, |st.frontier|
  {
    if st.frontier != [] {
      var (node, dist) := st.frontier[0];
      if dist >= d {
        assert forall i :: 0 < i < |st.frontier| ==> dist <= st.frontier[i].1;
        WalkDrains(hop, edges, d, st);
        WalkExtends(hop, edges, d', st);
      } else {
        ScanProgress(hop(node), edges, node, dist, Pop(st));
        StepLayered(hop, d, st);
        WalkPrefix(hop, edges, d, d', Step(hop, d, st));
      }
    }
  }

  /** Looking deeper only appends: the shallower answer is a prefix of the deeper one. */
  lemma DeeperExtends(hop: Hop, edges: seq<Edge>, seed: NodeId, d: int, d': int)
    requires Answers(hop, edges) && d <= d'
    ensures Reported(hop, edges, seed, d) <= Reported(hop, edges, seed, d')
  {
    WalkPrefix(hop, edges, d, d', Start(seed));
  }

  // ---- saturation: the whole component ---------------------------------------------

  lemma {:induction false} WithinStable(edges: seq<Edge>, seed: NodeId, m: nat, n: nat)
    requires m <= n && Within(edges, seed, m) == Within(edges, seed, m + 1)
    ensures Within(edges, seed, n) == Within(edges, seed, m)
  {
    hide Within, Adjacent;
    if m < n {
      WithinStable(edges, seed, m, n - 1);
      WithinSucc(edges, seed, n - 1);
      WithinSucc(edges, seed, m);
    }
  }

  /** Each layer adds a node until a layer adds none. */
  lemma {:induction false} WithinGrows(edges: seq<Edge>, seed: NodeId, n: nat)
    ensures |Within(edges, seed, n)| > n
            || exists m: nat :: m < n && Within(edges, seed, m) == Within(edges, seed, m + 1)
  {
    if n > 0 {
      hide Adjacent;
      WithinGrows(edges, seed, n - 1);
      var a, b := Within(edges, seed, n - 1), Within(edges, seed, n);
      if a == b {
        assert Within(edges, seed, n - 1) == Within(edges, seed, (n - 1) + 1);
      } else {
        assert a < b;
        CardinalityGrows(a, b);
      }
    }
  }

  lemma CardinalityGrows<T>(a: set<T>, b: set<T>)
    requires a < b
    ensures |a| < |b|
  {
    assert b == a + (b - a);
    assert b - a != {};
  }

  lemma CardinalityMono<T>(a: set<T>, b: set<T>)
    requires a <= b
    ensures |a| <= |b|
  {
    assert b == a + (b - a);
  }

  lemma {:induction false} WithinStored(edges: seq<Edge>, seed: NodeId, nodes: set<NodeId>, n: nat)
    requires seed in nodes && forall e :: e in edges ==> e.src in nodes && e.tgt in nodes
    ensures Within(edges, seed, n) <= nodes
  {
    if n > 0 {
      WithinStored(edges, seed, nodes, n - 1);
    }
  }

  /** With as many hops as there are nodes the whole component is reached. */
  lemma WithinSaturates(edges: seq<Edge>, seed: NodeId, nodes: set<NodeId>, d: nat, n: nat)
    requires seed in nodes && forall e :: e in edges ==> e.src in nodes && e.tgt in nodes
    requires d >= |nodes|
    ensures Within(edges, seed, n) <= Within(edges, seed, d - 1)
  {
    hide Within;
    CardinalityMono({seed}, nodes);
    WithinGrows(edges, seed, d);
    WithinStored(edges, seed, nodes, d);
    CardinalityMono(Within(edges, seed, d), nodes);
    var m: nat :| m < d && Within(edges, seed, m) == Within(edges, seed, m + 1);
    WithinMono(edges, seed, m, d - 1);
    if n >= m {
      WithinStable(edges, seed, m, n);
    } else {
      WithinMono(edges, seed, n, m);
    }
  }

  /** The edges of the seed's component: some endpoint is joined to it by a path. */
  ghost predicate InComponent(edges: seq<Edge>, seed: NodeId, e: Edge) {
    exists p, v :: IsPath(edges, p, seed, v) && Touches(e, v)
  }

  lemma ComponentIffNear(edges: seq<Edge>, seed: NodeId, nodes: set<NodeId>, d: nat, e: Edge)
    requires seed in nodes && forall e :: e in edges ==> e.src in nodes && e.tgt in nodes
    requires d >= |nodes| > 0
    ensures InComponent(edges, seed, e) <==> Near(edges, seed, e, d - 1)
  {
    if p, v :| IsPath(edges, p, seed, v) && Touches(e, v) {
      WithinOfPath(edges, seed, p, v);
      WithinSaturates(edges, seed, nodes, d, |p| - 1);
    }
    if Near(edges, seed, e, d - 1) {
      var w := if e.src in Within(edges, seed, d - 1) then e.src else e.tgt;
      PathOfWithin(edges, seed, d - 1, w);
      var p :| IsPath(edges, p, seed, w) && |p| <= d;
      assert Touches(e, w);
    }
  }

  /** Once the depth reaches the number of stored nodes the walk reports every edge
      of the seed's connected component and no other. */
  lemma DeepWalkIsComponent(hop: Hop, edges: seq<Edge>, seed: NodeId, nodes: set<NodeId>, depth: int)
    requires Answers(hop, edges)
    requires seed in nodes && forall e :: e in edges ==> e.src in nodes && e.tgt in nodes
    requires depth >= |nodes|
    ensures forall e :: e in Reported(hop, edges, seed, depth) <==> e in edges && InComponent(edges, seed, e)
  {
    WalkCorrect(hop, edges, seed, depth);
    CardinalityMono({seed}, nodes);
    forall e ensures InComponent(edges, seed, e) <==> Near(edges, seed, e, depth - 1) {
      ComponentIffNear(edges, seed, nodes, depth, e);
    }
  }

  /** Two sources of rows over the same edges report the same edges. */
  lemma RowOrderIrrelevant(hop: Hop, hop': Hop, edges: seq<Edge>, seed: NodeId, depth: int)
    requires Answers(hop, edges) && Answers(hop', edges)
    ensures forall e :: e in Reported(hop, edges, seed, depth) <==> e in Reported(hop', edges, seed, depth)
    ensures |Reported(hop, edges, seed, depth)| == |Reported(hop', edges, seed, depth)|
  {
    WalkCorrect(hop, edges, seed, depth);
    WalkCorrect(hop', edges, seed, depth);
    SameElementsSameLength(Reported(hop, edges, seed, depth), Reported(hop', edges, seed, depth));
  }

  lemma {:induction false} SameElementsSameLength<T>(a: seq<T>, b: seq<T>)
    requires Distinct(a) && Distinct(b) && forall x :: x in a <==> x in b
    ensures |a| == |b|
  {
    DistinctCardinality(a);
    DistinctCardinality(b);
    assert (set x | x in a) == (set x | x in b);
  }

  lemma {:induction false} DistinctCardinality<T>(a: seq<T>)
    requires Distinct(a)
    ensures |set x | x in a| == |a|
  {
    if a != [] {
      var s := set x | x in a[1..];
      DistinctCardinality(a[1..]);
      assert a[0] !in a[1..];
      assert forall x :: x in a <==> x == a[0] || x in a[1..];
      assert (set x | x in a) == s + {a[0]};
    }
  }
}
