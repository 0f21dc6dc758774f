/**
 The shortest-path routine of the visualizer (`findShortestPath`): Dijkstra's
 algorithm over an undirected weighted graph, returning the trace of settled
 ("visited") nodes in settling order and the path rebuilt from predecessor
 links.

 Its run state is three local dictionaries of the source: `distances`,
 `previous` and the insertion-ordered `unvisited` set. Each step of the
 routine is a method over that state; the invariants the main loop keeps are
 the ghost predicates below.
 */
module Dijkstra {
  import opened Graph
  import opened InsertionOrderedSet

  datatype Option<T> = None | Some(value: T)

  /** `distances`: node id to best known distance from the start node. */
  type Distances = map<string, Dist>

  /** `previous`: node id to the node it was last improved from, or `null`. */
  type Previous = map<string, Option<string>>

  // ---------------------------------------------------------------------------
  // Initialisation
  // ---------------------------------------------------------------------------

  /**
   Every node starts at `Infinity` with no predecessor and goes into
   `unvisited` in the order of `nodes`; then the start node is set to 0.
   */
  method Initialise(nodes: seq<string>, start: string)
    returns (distances: Distances, previous: Previous, unvisited: seq<string>)
    requires start in nodes
    ensures forall v :: v in distances <==> v in nodes
    ensures forall v :: v in previous <==> v in nodes
    ensures forall v :: v in previous ==> previous[v] == None
    ensures distances[start] == Fin(0)
    ensures forall v :: v in distances && v != start ==> distances[v] == Inf
    ensures Distinct(unvisited) && forall v :: v in unvisited <==> v in nodes
    ensures InOrder(nodes, unvisited)
    ensures |unvisited| <= |nodes|
  {
    distances, previous, unvisited := map[], map[], [];
    for i := 0 to |nodes|
      invariant forall v :: v in distances <==> v in nodes[..i]
      invariant forall v :: v in previous <==> v in nodes[..i]
      invariant forall v :: v in distances ==> distances[v] == Inf
      invariant forall v :: v in previous ==> previous[v] == None
      invariant Distinct(unvisited) && forall v :: v in unvisited <==> v in nodes[..i]
      invariant InOrder(nodes, unvisited)
      invariant |unvisited| <= i
    {
      var id := nodes[i];
      assert nodes[..i + 1] == nodes[..i] + [id];
      distances := distances[id := Inf];
      previous := previous[id := None];
      AddKeepsOrder(nodes, unvisited, i);
      unvisited := Add(unvisited, id);
    }
    assert nodes[..|nodes|] == nodes;
    distances := distances[start := Fin(0)];
  }

  // ---------------------------------------------------------------------------
  // Selection
  // ---------------------------------------------------------------------------

  /**
   `c` is what the selection scan picks: an unvisited node with a finite,
   least distance, and strictly less than that of every node before it in
   `unvisited`.
   */
  predicate IsSelection(unvisited: seq<string>, distances: Distances, c: string)
    requires forall v :: v in unvisited ==> v in distances
  {
    c in unvisited && distances[c].Fin? &&
    (forall v :: v in unvisited ==> distances[c].AtMost(distances[v])) &&
    (forall j :: 0 <= j < IndexOf(unvisited, c) ==> distances[c].Below(distances[unvisited[j]]))
  }

  /**
   The `unvisited.forEach` scan with a strict `<` against a running minimum
   that starts at `Infinity`: ties go to the earliest node, and nothing is
   picked when every remaining distance is infinite.
   */
  method SelectMin(unvisited: seq<string>, distances: Distances) returns (current: Option<string>)
    requires Distinct(unvisited)
    requires forall v :: v in unvisited ==> v in distances
    ensures current.None? <==> forall v :: v in unvisited ==> distances[v] == Inf
    ensures current.Some? ==> IsSelection(unvisited, distances, current.value)
  {
    var minDistance := Inf;
    current := None;
    ghost var k := 0;
    for i := 0 to |unvisited|
      invariant current.None? ==> minDistance == Inf
      invariant current.None? ==> forall j :: 0 <= j < i ==> distances[unvisited[j]] == Inf
      invariant current.Some? ==> 0 <= k < i && unvisited[k] == current.value
      invariant current.Some? ==> minDistance == distances[current.value] && minDistance.Fin?
      invariant current.Some? ==> forall j :: 0 <= j < i ==> minDistance.AtMost(distances[unvisited[j]])
      invariant current.Some? ==> forall j :: 0 <= j < k ==> minDistance.Below(distances[unvisited[j]])
    {
      var nodeId := unvisited[i];
      if distances[nodeId].Below(minDistance) {
        minDistance := distances[nodeId];
        current := Some(nodeId);
        k := i;
      }
    }
    if current.Some? {
      IndexOfDistinct(unvisited, k);
    }
  }

  /**
   Since `unvisited` keeps the order of `nodes`, a tie for the least distance
   goes to the node that comes first in `nodes`.
   */
  lemma TiesGoToEarliestNode(nodes: seq<string>, unvisited: seq<string>, distances: Distances, c: string, v: string)
    requires Distinct(unvisited) && InOrder(nodes, unvisited)
    requires forall u :: u in unvisited ==> u in distances
    requires IsSelection(unvisited, distances, c)
    requires v in unvisited && v != c && distances[v] == distances[c]
    ensures Before(nodes, c, v)
  {
    assert IndexOf(unvisited, c) != IndexOf(unvisited, v);
  }

  // ---------------------------------------------------------------------------
  // Relaxation
  // ---------------------------------------------------------------------------

  /**
   What relaxing the edges of the settled node `c` does to the run state
   (`d`, `p` before; `d'`, `p'` after), with `unvisited` already without `c`:
   nodes outside `unvisited` keep their entries; an unvisited node's distance
   never grows, ends at most `d[c]` plus the weight of every edge joining it to
   `c`, and when it changed it is `d[c]` plus one such weight and its
   predecessor is `c`; an unchanged distance keeps its predecessor.
   */
  ghost predicate IsRelaxation(edges: seq<Edge>, c: string, unvisited: seq<string>,
                               d: Distances, p: Previous, d': Distances, p': Previous)
    requires c in d && forall v :: v in unvisited ==> v in d && v in p
  {
    d'.Keys == d.Keys && p'.Keys == p.Keys &&
    (forall v :: v in d && v !in unvisited ==> d'[v] == d[v]) &&
    (forall v :: v in p && v !in unvisited ==> p'[v] == p[v]) &&
    (forall v :: v in unvisited ==> d'[v].AtMost(d[v])) &&
    (forall e, v :: e in edges && v in unvisited && Joins(e, c, v) ==> d'[v].AtMost(d[c].Plus(e.weight))) &&
    (forall v :: v in unvisited && d'[v] != d[v] ==>
       p'[v] == Some(c) && exists e :: e in edges && Joins(e, c, v) && d'[v] == d[c].Plus(e.weight)) &&
    (forall v :: v in unvisited && d'[v] == d[v] ==> p'[v] == p[v])
  }

  /**
   The `edges.forEach` of the source: each edge is tried from `from` to `to`
   and then from `to` to `from`, and an unvisited endpoint is updated only on
   a strict improvement.
   */
  method RelaxEdges(edges: seq<Edge>, current: string, distances: Distances, previous: Previous,
                    unvisited: seq<string>)
    returns (distances': Distances, previous': Previous)
    requires current in distances && distances[current].Fin? && current !in unvisited
    requires forall v :: v in unvisited ==> v in distances && v in previous
    ensures IsRelaxation(edges, current, unvisited, distances, previous, distances', previous')
  {
    distances', previous' := distances, previous;
    for i := 0 to |edges|
      invariant IsRelaxation(edges[..i], current, unvisited, distances, previous, distances', previous')
    {
      var edge := edges[i];
      ghost var before := (distances', previous');
      if edge.from == current && edge.to in unvisited {
        var newDistance := distances'[current].Plus(edge.weight);
        if newDistance.Below(distances'[edge.to]) {
          distances' := distances'[edge.to := newDistance];
          previous' := previous'[edge.to := Some(current)];
        }
      }
      if edge.to == current && edge.from in unvisited {
        var newDistance := distances'[current].Plus(edge.weight);
        if newDistance.Below(distances'[edge.from]) {
          distances' := distances'[edge.from := newDistance];
          previous' := previous'[edge.from := Some(current)];
        }
      }
      assert (distances', previous') == AfterEdge(edge, current, unvisited, before.0, before.1);
      RelaxEdgeStep(edges[..i], edge, current, unvisited, distances, previous, before.0, before.1);
      assert edges[..i + 1] == edges[..i] + [edge];
    }
    assert edges[..|edges|] == edges;
  }

  /**
   The run state after trying one edge in both directions; only an
   endpoint other than `c` that is still unvisited can change.
   */
  ghost function AfterEdge(e: Edge, c: string, unvisited: seq<string>, d: Distances, p: Previous)
    : (Distances, Previous)
    requires c in d && c !in unvisited && forall v :: v in unvisited ==> v in d
  {
    if e.from == c && e.to in unvisited && d[c].Plus(e.weight).Below(d[e.to]) then
      (d[e.to := d[c].Plus(e.weight)], p[e.to := Some(c)])
    else if e.to == c && e.from in unvisited && d[c].Plus(e.weight).Below(d[e.from]) then
      (d[e.from := d[c].Plus(e.weight)], p[e.from := Some(c)])
    else (d, p)
  }

  /** Trying one more edge extends a relaxation over `es` to one over `es + [e]`. */
  lemma RelaxEdgeStep(es: seq<Edge>, e: Edge, c: string, unvisited: seq<string>,
                      d: Distances, p: Previous, d1: Distances, p1: Previous)
    requires c in d && c !in unvisited && forall v :: v in unvisited ==> v in d && v in p
    requires IsRelaxation(es, c, unvisited, d, p, d1, p1)
    ensures c in d1 && d1[c] == d[c]
    ensures IsRelaxation(es + [e], c, unvisited, d, p, AfterEdge(e, c, unvisited, d1, p1).0,
                         AfterEdge(e, c, unvisited, d1, p1).1)
  {
    assert forall e' :: e' in es + [e] <==> e' in es || e' == e;
    if e.from == c && e.to in unvisited && d[c].Plus(e.weight).Below(d1[e.to]) {
      RelaxImproves(es, e, c, unvisited, d, p, d1, p1, e.to);
    } else if e.to == c && e.from in unvisited && d[c].Plus(e.weight).Below(d1[e.from]) {
      RelaxImproves(es, e, c, unvisited, d, p, d1, p1, e.from);
    } else {
      forall v | v in unvisited && Joins(e, c, v)
        ensures d1[v].AtMost(d[c].Plus(e.weight))
      {
      }
    }
  }

  /** Lowering `v`, joined to `c` by `e`, to `d[c]` plus `e`'s weight extends the relaxation to `e`. */
  lemma RelaxImproves(es: seq<Edge>, e: Edge, c: string, unvisited: seq<string>,
                      d: Distances, p: Previous, d1: Distances, p1: Previous, v: string)
    requires c in d && c !in unvisited && forall x :: x in unvisited ==> x in d && x in p
    requires IsRelaxation(es, c, unvisited, d, p, d1, p1)
    requires v in unvisited && Joins(e, c, v) && d[c].Plus(e.weight).Below(d1[v])
    ensures IsRelaxation(es + [e], c, unvisited, d, p, d1[v := d[c].Plus(e.weight)], p1[v := Some(c)])
  {
    var d2, p2 := d1[v := d[c].Plus(e.weight)], p1[v := Some(c)];
    assert forall e' :: e' in es + [e] <==> e' in es || e' == e;
    forall e', x | e' in es + [e] && x in unvisited && Joins(e', c, x)
      ensures d2[x].AtMost(d[c].Plus(e'.weight))
    {
      if e' in es {
        assert d1[x].AtMost(d[c].Plus(e'.weight));
      }
    }
    forall x | x in unvisited && d2[x] != d[x]
      ensures p2[x] == Some(c) && exists e' :: e' in es + [e] && Joins(e', c, x) && d2[x] == d[c].Plus(e'.weight)
    {
      if x != v {
        var e' :| e' in es && Joins(e', c, x) && d1[x] == d[c].Plus(e'.weight);
        assert e' in es + [e];
      } else {
        assert e in es + [e];
      }
    }
  }

  // ---------------------------------------------------------------------------
  // Invariants of the main loop
  // ---------------------------------------------------------------------------

  /**
   The dictionaries have exactly the node ids as keys; `unvisited` and the
   visited trace are without repetition and split the node ids between them.
   */
  ghost predicate Shape(nodes: seq<string>, d: Distances, p: Previous, unvisited: seq<string>, visited: seq<string>) {
    (forall v :: v in d <==> v in nodes) &&
    (forall v :: v in p <==> v in nodes) &&
    Distinct(unvisited) && Distinct(visited) &&
    (forall v :: v in nodes <==> v in unvisited || v in visited) &&
    (forall v :: v in unvisited ==> v !in visited) &&
    |unvisited| + |visited| <= |nodes|
  }

  /**
   The start node keeps distance 0 and no predecessor; while it is unvisited
   nothing has been settled and every other distance is infinite, and once it
   is settled it heads the trace.
   */
  ghost predicate StartFacts(nodes: seq<string>, start: string, d: Distances, p: Previous,
                             unvisited: seq<string>, visited: seq<string>)
    requires Shape(nodes, d, p, unvisited, visited) && start in nodes
  {
    d[start] == Fin(0) && p[start] == None &&
    (start in unvisited ==> visited == [] && forall v :: v in unvisited && v != start ==> d[v] == Inf) &&
    (start !in unvisited ==> visited != [] && visited[0] == start)
  }

  /** Every settled node has a finite distance that no walk from the start undercuts. */
  ghost predicate Settled(edges: seq<Edge>, start: string, d: Distances, visited: seq<string>)
    requires forall v :: v in visited ==> v in d
  {
    forall v :: v in visited ==> d[v].Fin? && LowerBound(edges, start, v, d[v].n)
  }

  /** Every finite distance is the weight of some walk from the start. */
  ghost predicate Sound(edges: seq<Edge>, start: string, d: Distances) {
    forall v :: v in d && d[v].Fin? ==> HasWalkOfWeight(edges, start, v, d[v].n)
  }

  /** Every edge from a settled node to an unvisited one has been relaxed. */
  ghost predicate Relaxed(edges: seq<Edge>, d: Distances, unvisited: seq<string>, visited: seq<string>)
    requires forall v :: v in visited ==> v in d
    requires forall v :: v in unvisited ==> v in d
  {
    forall u, e, v :: u in visited && e in edges && v in unvisited && Joins(e, u, v) ==>
      d[v].AtMost(d[u].Plus(e.weight))
  }

  /** Nodes are settled in order of distance, and no unvisited node is closer than a settled one. */
  ghost predicate Ordered(d: Distances, unvisited: seq<string>, visited: seq<string>)
    requires forall v :: v in visited ==> v in d
    requires forall v :: v in unvisited ==> v in d
  {
    (forall i, j :: 0 <= i < j < |visited| ==> d[visited[i]].AtMost(d[visited[j]])) &&
    (forall i, v :: 0 <= i < |visited| && v in unvisited ==> d[visited[i]].AtMost(d[v]))
  }

  /**
   `previous[v] == u` records that `u` was settled, some edge joins `u` and
   `v`, and `v`'s distance is `u`'s plus that edge's weight.
   */
  ghost predicate Link(edges: seq<Edge>, d: Distances, visited: seq<string>, u: string, v: string) {
    u in visited && u in d && v in d && d[u].Fin? && d[v].Fin? &&
    exists e :: e in edges && Joins(e, u, v) && d[v].n == d[u].n + e.weight
  }

  ghost predicate Links(edges: seq<Edge>, d: Distances, p: Previous, visited: seq<string>) {
    forall v :: v in p && p[v].Some? ==> Link(edges, d, visited, p[v].value, v)
  }

  /** A node without predecessor is the start node or still at `Infinity`. */
  ghost predicate Unlinked(start: string, d: Distances, p: Previous)
    requires forall v :: v in p ==> v in d
  {
    forall v :: v in p && p[v].None? ==> v == start || d[v] == Inf
  }

  /** A settled node's predecessor was settled before it. */
  ghost predicate SettleOrder(p: Previous, visited: seq<string>) {
    forall i :: 0 <= i < |visited| && visited[i] in p && p[visited[i]].Some? ==>
      p[visited[i]].value in visited[..i]
  }

  ghost predicate Inv(nodes: seq<string>, edges: seq<Edge>, start: string, end: string,
                      d: Distances, p: Previous, unvisited: seq<string>, visited: seq<string>)
  {
    Shape(nodes, d, p, unvisited, visited) && start in nodes && end in unvisited &&
    InOrder(nodes, unvisited) &&
    StartFacts(nodes, start, d, p, unvisited, visited) &&
    Settled(edges, start, d, visited) && Sound(edges, start, d) &&
    Relaxed(edges, d, unvisited, visited) && Ordered(d, unvisited, visited) &&
    Links(edges, d, p, visited) && Unlinked(start, d, p) && SettleOrder(p, visited)
  }

  // ---------------------------------------------------------------------------
  // Proofs about the invariants
  // ---------------------------------------------------------------------------

  /**
   Any walk from the start to an unvisited node passes an unvisited node
   whose distance is at most the walk's weight: the first unvisited node on
   it was reached by relaxing the edge from its settled predecessor on the walk.
   */
  lemma {:induction false} Frontier(nodes: seq<string>, edges: seq<Edge>, start: string,
                                    d: Distances, p: Previous, unvisited: seq<string>, visited: seq<string>,
                                    w: seq<string>, es: seq<Edge>)
    requires Shape(nodes, d, p, unvisited, visited) && EdgesWithin(nodes, edges) && start in nodes
    requires d[start] == Fin(0)
    requires Settled(edges, start, d, visited) && Relaxed(edges, d, unvisited, visited)
    requires IsWalk(edges, w, es) && w[0] == start && w[|w| - 1] in unvisited
    ensures exists y :: y in w && y in unvisited && d[y].Fin? && d[y].n <= Weight(es)
    decreases |es|
  {
    if es == [] {
      assert w[0] in w && start in unvisited && d[start].n <= Weight(es);
    } else {
      var n := |es|;
      var u, t, e := w[n - 1], w[n], es[n - 1];
      WalkPrefix(edges, w, es);
      assert e in edges && Joins(e, u, t);
      assert u in nodes;
      if u in unvisited {
        Frontier(nodes, edges, start, d, p, unvisited, visited, w[..n], es[..n - 1]);
        assert forall y :: y in w[..n] ==> y in w;
      } else {
        assert t in w;
        assert u in visited;
        assert IsWalkFromTo(edges, w[..n], es[..n - 1], start, u);
        assert d[u].n <= Weight(es[..n - 1]);
        assert d[t].AtMost(d[u].Plus(e.weight));
      }
    }
  }

  /** The selected node's distance is the least weight of any walk to it. */
  lemma SelectionIsShortest(nodes: seq<string>, edges: seq<Edge>, start: string, end: string,
                            d: Distances, p: Previous, unvisited: seq<string>, visited: seq<string>, c: string)
    requires Inv(nodes, edges, start, end, d, p, unvisited, visited) && EdgesWithin(nodes, edges)
    requires IsSelection(unvisited, d, c)
    ensures IsShortest(edges, start, c, d[c].n)
  {
    forall w, es | IsWalkFromTo(edges, w, es, start, c)
      ensures d[c].n <= Weight(es)
    {
      Frontier(nodes, edges, start, d, p, unvisited, visited, w, es);
      var y :| y in unvisited && d[y].Fin? && d[y].n <= Weight(es);
      assert d[c].AtMost(d[y]);
    }
  }

  /** When every unvisited distance is infinite, no walk reaches an unvisited node. */
  lemma ExhaustedMeansUnreachable(nodes: seq<string>, edges: seq<Edge>, start: string, end: string,
                                  d: Distances, p: Previous, unvisited: seq<string>, visited: seq<string>)
    requires Inv(nodes, edges, start, end, d, p, unvisited, visited) && EdgesWithin(nodes, edges)
    requires forall v :: v in unvisited ==> d[v] == Inf
    ensures !Reachable(edges, start, end)
    ensures start !in unvisited
  {
    if Reachable(edges, start, end) {
      var w, es :| IsWalkFromTo(edges, w, es, start, end);
      Frontier(nodes, edges, start, d, p, unvisited, visited, w, es);
      assert false;
    }
  }

  /** The invariants hold once the run state is initialised. */
  lemma InitialInv(nodes: seq<string>, edges: seq<Edge>, start: string, end: string,
                   d: Distances, p: Previous, unvisited: seq<string>)
    requires start in nodes && end in nodes
    requires forall v :: v in d <==> v in nodes
    requires forall v :: v in p <==> v in nodes
    requires forall v :: v in p ==> p[v] == None
    requires d[start] == Fin(0)
    requires forall v :: v in d && v != start ==> d[v] == Inf
    requires Distinct(unvisited) && forall v :: v in unvisited <==> v in nodes
    requires InOrder(nodes, unvisited) && |unvisited| <= |nodes|
    ensures Inv(nodes, edges, start, end, d, p, unvisited, [])
  {
    TrivialWalk(edges, start);
  }

  /** Settling the selected node `c` and relaxing its edges keeps the invariants. */
  lemma SettleStep(nodes: seq<string>, edges: seq<Edge>, start: string, end: string,
                   d: Distances, p: Previous, unvisited: seq<string>, visited: seq<string>, c: string,
                   d': Distances, p': Previous)
    requires Inv(nodes, edges, start, end, d, p, unvisited, visited) && EdgesWithin(nodes, edges)
    requires IsSelection(unvisited, d, c) && c != end
    requires IsRelaxation(edges, c, Delete(unvisited, c), d, p, d', p')
    ensures Inv(nodes, edges, start, end, d', p', Delete(unvisited, c), visited + [c])
  {
    DeleteKeepsOrder(nodes, unvisited, c);
    StepShape(nodes, edges, d, p, unvisited, visited, c, d', p');
    StepStart(nodes, edges, start, d, p, unvisited, visited, c, d', p');
    SelectionIsShortest(nodes, edges, start, end, d, p, unvisited, visited, c);
    StepSettled(nodes, edges, start, d, p, unvisited, visited, c, d', p');
    StepSound(nodes, edges, start, d, p, unvisited, visited, c, d', p');
    StepRelaxed(nodes, edges, d, p, unvisited, visited, c, d', p');
    StepOrdered(nodes, d, p, unvisited, visited, edges, c, d', p');
    StepLinks(nodes, edges, d, p, unvisited, visited, c, d', p');
    StepUnlinked(nodes, edges, start, d, p, unvisited, visited, c, d', p');
    StepSettleOrder(nodes, edges, d, p, unvisited, visited, c, d', p');
  }

  lemma StepShape(nodes: seq<string>, edges: seq<Edge>, d: Distances, p: Previous,
                  unvisited: seq<string>, visited: seq<string>, c: string, d': Distances, p': Previous)
    requires Shape(nodes, d, p, unvisited, visited) && c in unvisited
    requires IsRelaxation(edges, c, Delete(unvisited, c), d, p, d', p')
    ensures Shape(nodes, d', p', Delete(unvisited, c), visited + [c])
  {
    var u', v' := Delete(unvisited, c), visited + [c];
    assert Distinct(v') by {
      forall i, j | 0 <= i < j < |v'|
        ensures v'[i] != v'[j]
      {
        assert v'[i] in visited;
      }
    }
  }

  lemma StepSettled(nodes: seq<string>, edges: seq<Edge>, start: string, d: Distances, p: Previous,
                    unvisited: seq<string>, visited: seq<string>, c: string, d': Distances, p': Previous)
    requires Shape(nodes, d, p, unvisited, visited) && Settled(edges, start, d, visited)
    requires c in unvisited && d[c].Fin? && IsShortest(edges, start, c, d[c].n)
    requires IsRelaxation(edges, c, Delete(unvisited, c), d, p, d', p')
    ensures Settled(edges, start, d', visited + [c])
  {
  }

  lemma StepStart(nodes: seq<string>, edges: seq<Edge>, start: string, d: Distances, p: Previous,
                  unvisited: seq<string>, visited: seq<string>, c: string, d': Distances, p': Previous)
    requires Shape(nodes, d, p, unvisited, visited) && start in nodes
    requires StartFacts(nodes, start, d, p, unvisited, visited)
    requires IsSelection(unvisited, d, c)
    requires IsRelaxation(edges, c, Delete(unvisited, c), d, p, d', p')
    requires Shape(nodes, d', p', Delete(unvisited, c), visited + [c])
    ensures StartFacts(nodes, start, d', p', Delete(unvisited, c), visited + [c])
  {
    var u' := Delete(unvisited, c);
    if start in unvisited {
      assert c == start;
    }
    assert start !in u';
  }

  lemma StepSound(nodes: seq<string>, edges: seq<Edge>, start: string, d: Distances, p: Previous,
                  unvisited: seq<string>, visited: seq<string>, c: string, d': Distances, p': Previous)
    requires Shape(nodes, d, p, unvisited, visited) && Sound(edges, start, d)
    requires c in unvisited && d[c].Fin?
    requires IsRelaxation(edges, c, Delete(unvisited, c), d, p, d', p')
    ensures Sound(edges, start, d')
  {
    var u' := Delete(unvisited, c);
    forall v | v in d' && d'[v].Fin?
      ensures HasWalkOfWeight(edges, start, v, d'[v].n)
    {
      if v in u' && d'[v] != d[v] {
        var e :| e in edges && Joins(e, c, v) && d'[v] == d[c].Plus(e.weight);
        ExtendWalk(edges, start, c, v, d[c].n, e);
      }
    }
  }

  lemma StepRelaxed(nodes: seq<string>, edges: seq<Edge>, d: Distances, p: Previous,
                    unvisited: seq<string>, visited: seq<string>, c: string, d': Distances, p': Previous)
    requires Shape(nodes, d, p, unvisited, visited) && Relaxed(edges, d, unvisited, visited)
    requires c in unvisited && d[c].Fin?
    requires IsRelaxation(edges, c, Delete(unvisited, c), d, p, d', p')
    requires Shape(nodes, d', p', Delete(unvisited, c), visited + [c])
    ensures Relaxed(edges, d', Delete(unvisited, c), visited + [c])
  {
    var u', v' := Delete(unvisited, c), visited + [c];
    forall u, e, v | u in v' && e in edges && v in u' && Joins(e, u, v)
      ensures d'[v].AtMost(d'[u].Plus(e.weight))
    {
      if u != c {
        assert u in visited;
        assert d[v].AtMost(d[u].Plus(e.weight));
      }
    }
  }

  lemma StepOrdered(nodes: seq<string>, d: Distances, p: Previous, unvisited: seq<string>,
                    visited: seq<string>, edges: seq<Edge>, c: string, d': Distances, p': Previous)
    requires Shape(nodes, d, p, unvisited, visited) && Ordered(d, unvisited, visited)
    requires IsSelection(unvisited, d, c)
    requires IsRelaxation(edges, c, Delete(unvisited, c), d, p, d', p')
    requires Shape(nodes, d', p', Delete(unvisited, c), visited + [c])
    ensures Ordered(d', Delete(unvisited, c), visited + [c])
  {
    var u' := Delete(unvisited, c);
    forall x | x in u'
      ensures d[c].AtMost(d'[x])
    {
      assert x in unvisited && d[c].AtMost(d[x]);
    }
    forall x | x in visited
      ensures d[x].AtMost(d[c])
    {
      var i :| 0 <= i < |visited| && visited[i] == x;
    }
    OrderedAfterSettling(d, d', visited, c, u');
  }

  /**
   Appending `c` to the trace keeps it ordered when every settled node is no
   farther than `c`, and `c` no farther than any node left unvisited.
   */
  lemma OrderedAfterSettling(d: Distances, d': Distances, visited: seq<string>, c: string, u': seq<string>)
    requires c in d && c in d' && d'[c] == d[c]
    requires forall x :: x in visited ==> x in d && x in d' && d'[x] == d[x] && d[x].AtMost(d[c])
    requires forall x :: x in u' ==> x in d' && d[c].AtMost(d'[x])
    requires forall i, j :: 0 <= i < j < |visited| ==> d[visited[i]].AtMost(d[visited[j]])
    ensures Ordered(d', u', visited + [c])
  {
    var v' := visited + [c];
    forall i, j | 0 <= i < j < |v'|
      ensures d'[v'[i]].AtMost(d'[v'[j]])
    {
      assert v'[i] == visited[i] && v'[i] in visited;
      if j < |visited| {
        assert v'[j] == visited[j];
      }
    }
    forall i, v | 0 <= i < |v'| && v in u'
      ensures d'[v'[i]].AtMost(d'[v])
    {
      if i < |visited| {
        assert v'[i] in visited;
      }
    }
  }

  lemma StepLinks(nodes: seq<string>, edges: seq<Edge>, d: Distances, p: Previous,
                  unvisited: seq<string>, visited: seq<string>, c: string, d': Distances, p': Previous)
    requires Shape(nodes, d, p, unvisited, visited) && Links(edges, d, p, visited)
    requires c in unvisited && d[c].Fin?
    requires IsRelaxation(edges, c, Delete(unvisited, c), d, p, d', p')
    requires Shape(nodes, d', p', Delete(unvisited, c), visited + [c])
    ensures Links(edges, d', p', visited + [c])
  {
    var u', v' := Delete(unvisited, c), visited + [c];
    forall v | v in p' && p'[v].Some?
      ensures Link(edges, d', v', p'[v].value, v)
    {
      if v in u' && d'[v] != d[v] {
        var e :| e in edges && Joins(e, c, v) && d'[v] == d[c].Plus(e.weight);
      } else {
        var u := p[v].value;
        assert Link(edges, d, visited, u, v);
        var e :| e in edges && Joins(e, u, v) && d[v].n == d[u].n + e.weight;
      }
    }
  }

  lemma StepUnlinked(nodes: seq<string>, edges: seq<Edge>, start: string, d: Distances, p: Previous,
                     unvisited: seq<string>, visited: seq<string>, c: string, d': Distances, p': Previous)
    requires Shape(nodes, d, p, unvisited, visited) && Unlinked(start, d, p)
    requires c in unvisited && d[c].Fin?
    requires IsRelaxation(edges, c, Delete(unvisited, c), d, p, d', p')
    requires Shape(nodes, d', p', Delete(unvisited, c), visited + [c])
    ensures Unlinked(start, d', p')
  {
  }

  lemma StepSettleOrder(nodes: seq<string>, edges: seq<Edge>, d: Distances, p: Previous,
                        unvisited: seq<string>, visited: seq<string>, c: string, d': Distances, p': Previous)
    requires Shape(nodes, d, p, unvisited, visited) && SettleOrder(p, visited)
    requires Links(edges, d, p, visited) && c in unvisited
    requires IsRelaxation(edges, c, Delete(unvisited, c), d, p, d', p')
    requires Shape(nodes, d', p', Delete(unvisited, c), visited + [c])
    ensures SettleOrder(p', visited + [c])
  {
    var v' := visited + [c];
    forall i | 0 <= i < |v'| && v'[i] in p' && p'[v'[i]].Some?
      ensures p'[v'[i]].value in v'[..i]
    {
      if i < |visited| {
        assert v'[..i] == visited[..i];
      } else {
        assert v'[..i] == visited;
        assert Link(edges, d, visited, p[c].value, c);
      }
    }
  }

  // ---------------------------------------------------------------------------
  // Path reconstruction
  // ---------------------------------------------------------------------------

  /** Position of `v` in the settling order; nodes never settled come after all others. */
  ghost function Rank(visited: seq<string>, v: string): nat {
    if v in visited then IndexOf(visited, v) + 1 else |visited| + 1
  }

  /** A link of `previous` leads to a node settled before the one it belongs to. */
  lemma LinkRank(edges: seq<Edge>, distances: Distances, previous: Previous, visited: seq<string>,
                 u: string, v: string)
    requires Links(edges, distances, previous, visited) && SettleOrder(previous, visited)
    requires v in previous && previous[v] == Some(u)
    ensures u in visited && Rank(visited, u) < Rank(visited, v)
  {
    assert Link(edges, distances, visited, u, v);
    if v in visited {
      var i := IndexOf(visited, v);
      IndexOfBefore(visited, u, i);
    }
  }

  /**
   `path` is the part of the chain of `previous` links already walked back
   from `end`: each entry is the predecessor of the next, all but the last are
   settled, and they were settled in path order.
   */
  ghost predicate BackChain(previous: Previous, visited: seq<string>, end: string, path: seq<string>) {
    |path| >= 1 && path[|path| - 1] == end &&
    (forall v :: v in path ==> v in previous) &&
    (forall i :: 0 <= i < |path| - 1 ==> previous[path[i + 1]] == Some(path[i])) &&
    (forall i :: 0 <= i < |path| - 1 ==> path[i] in visited) &&
    (forall i, j :: 0 <= i < j < |path| ==> Rank(visited, path[i]) < Rank(visited, path[j]))
  }

  /** `route` takes `path` along edges, and its weight is the distance gained along it. */
  ghost predicate WeighedChain(edges: seq<Edge>, distances: Distances, end: string,
                               path: seq<string>, route: seq<Edge>) {
    |path| >= 1 && IsWalk(edges, path, route) &&
    (end in distances && distances[end].Fin? ==>
       path[0] in distances && distances[path[0]].Fin? &&
       distances[end].n == distances[path[0]].n + Weight(route))
  }

  /** Putting the predecessor of the first entry in front extends the chain. */
  lemma BackChainPrepend(edges: seq<Edge>, distances: Distances, previous: Previous, visited: seq<string>,
                         end: string, path: seq<string>, v: string)
    requires Links(edges, distances, previous, visited) && SettleOrder(previous, visited)
    requires forall x :: x in visited ==> x in previous
    requires BackChain(previous, visited, end, path) && previous[path[0]] == Some(v)
    ensures BackChain(previous, visited, end, [v] + path)
  {
    LinkRank(edges, distances, previous, visited, v, path[0]);
    var path' := [v] + path;
    forall i, j | 0 <= i < j < |path'|
      ensures Rank(visited, path'[i]) < Rank(visited, path'[j])
    {
      if i == 0 && j > 1 {
        assert Rank(visited, path[0]) < Rank(visited, path[j - 1]);
      }
    }
  }

  /** ... and the edge that links them extends the route. */
  lemma WeighedChainPrepend(edges: seq<Edge>, distances: Distances, previous: Previous, visited: seq<string>,
                            end: string, path: seq<string>, route: seq<Edge>, v: string)
    returns (e: Edge)
    requires Links(edges, distances, previous, visited)
    requires WeighedChain(edges, distances, end, path, route)
    requires path[0] in previous && previous[path[0]] == Some(v)
    ensures WeighedChain(edges, distances, end, [v] + path, [e] + route)
  {
    assert Link(edges, distances, visited, v, path[0]);
    e :| e in edges && Joins(e, v, path[0]) && distances[path[0]].n == distances[v].n + e.weight;
    WeightPrepend(e, route);
    var path', route' := [v] + path, [e] + route;
    forall i | 0 <= i < |route'|
      ensures route'[i] in edges && Joins(route'[i], path'[i], path'[i + 1])
    {
      if i > 0 {
        assert route'[i] == route[i - 1] && path'[i] == path[i - 1] && path'[i + 1] == path[i];
      }
    }
  }

  /**
   The second `while` loop of the source: follow `previous` back from the end
   node, putting each node in front, until a node without predecessor. It
   stops because every link leads to a node settled earlier.
   */
  method ReconstructPath(previous: Previous, end: string,
                         ghost edges: seq<Edge>, ghost distances: Distances, ghost visited: seq<string>)
    returns (path: seq<string>, ghost route: seq<Edge>)
    requires end in previous && end !in visited
    requires forall v :: v in visited ==> v in previous
    requires Links(edges, distances, previous, visited) && SettleOrder(previous, visited)
    ensures |path| >= 1 && path[|path| - 1] == end
    ensures forall v :: v in path ==> v in previous
    ensures previous[path[0]].None?
    ensures forall i :: 0 <= i < |path| - 1 ==> previous[path[i + 1]] == Some(path[i])
    ensures forall i :: 0 <= i < |path| - 1 ==> path[i] in visited
    ensures Distinct(path)
    ensures IsWalk(edges, path, route)
    ensures previous[end].None? <==> path == [end]
    ensures end in distances && distances[end].Fin? ==>
              path[0] in distances && distances[path[0]].Fin? &&
              distances[end].n == distances[path[0]].n + Weight(route)
  {
    path, route := [end], [];
    var current := previous[end];
    while current.Some?
      invariant BackChain(previous, visited, end, path)
      invariant WeighedChain(edges, distances, end, path, route)
      invariant current == previous[path[0]]
      decreases if current.Some? then Rank(visited, current.value) else 0
    {
      var v := current.value;
      LinkRank(edges, distances, previous, visited, v, path[0]);
      BackChainPrepend(edges, distances, previous, visited, end, path, v);
      ghost var e := WeighedChainPrepend(edges, distances, previous, visited, end, path, route, v);
      route := [e] + route;
      path := [v] + path;
      current := previous[v];
      if current.Some? {
        LinkRank(edges, distances, previous, visited, current.value, v);
      }
    }
    if |path| >= 2 {
      assert previous[path[|path| - 1]] == Some(path[|path| - 2]);
    }
  }

  // ---------------------------------------------------------------------------
  // The routine
  // ---------------------------------------------------------------------------

  /**
   `findShortestPath`: returns the visited trace (what the source accumulates
   with `setVisitedNodes`) and the path (what it passes to `setPath`). The
   ghost results are the final distances and the edges the path takes.
   */
  method FindShortestPath(nodes: seq<string>, edges: seq<Edge>, start: string, end: string)
    returns (visited: seq<string>, path: seq<string>, ghost distances: Distances, ghost route: seq<Edge>)
    requires start in nodes && end in nodes
    requires EdgesWithin(nodes, edges)
    ensures Returned(nodes, start, end, visited, path)
    ensures Outcome(nodes, edges, start, end, visited, path, distances, route)
  {
    var dist, previous, unvisited := Initialise(nodes, start);
    InitialInv(nodes, edges, start, end, dist, previous, unvisited);
    visited := [];
    while |unvisited| > 0
      invariant Inv(nodes, edges, start, end, dist, previous, unvisited, visited)
      decreases |unvisited|
    {
      var current := SelectMin(unvisited, dist);
      if current.None? {
        ExhaustedMeansUnreachable(nodes, edges, start, end, dist, previous, unvisited, visited);
        break;
      }
      var c := current.value;
      if c == end {
        EndSelected(nodes, edges, start, end, dist, previous, unvisited, visited);
        break;
      }
      var unvisited' := Delete(unvisited, c);
      var dist', previous' := RelaxEdges(edges, c, dist, previous, unvisited');
      SettleStep(nodes, edges, start, end, dist, previous, unvisited, visited, c, dist', previous');
      unvisited, visited := unvisited', visited + [c];
      dist, previous := dist', previous';
    }
    path, route := ReconstructPath(previous, end, edges, dist, visited);
    distances := dist;
    Conclude(nodes, edges, start, end, dist, previous, unvisited, visited, path, route);
  }

  /**
   What the routine promises: what it returns (`Returned`), what the visited
   trace means (`TraceOutcome`) and what the path means (`PathOutcome`).
   */
  ghost predicate Outcome(nodes: seq<string>, edges: seq<Edge>, start: string, end: string,
                          visited: seq<string>, path: seq<string>, distances: Distances, route: seq<Edge>)
  {
    Returned(nodes, start, end, visited, path) &&
    TraceOutcome(nodes, edges, start, end, visited, distances) &&
    PathOutcome(edges, start, end, path, route)
  }

  /**
   The part of the promise that speaks only of what the routine returns: a
   trace of distinct nodes without the end node, headed by the start node,
   and a path without repeats that ends at the end node and otherwise runs
   through visited nodes.
   */
  predicate Returned(nodes: seq<string>, start: string, end: string, visited: seq<string>, path: seq<string>) {
    Distinct(visited) && end !in visited && (forall v :: v in visited ==> v in nodes) &&
    (start != end ==> |visited| >= 1 && visited[0] == start) &&
    |path| >= 1 && path[|path| - 1] == end && Distinct(path) &&
    (forall i :: 0 <= i < |path| - 1 ==> path[i] in visited) &&
    (start == end ==> visited == [] && path == [start])
  }

  /**
   What the trace means: its nodes are settled at their shortest distances,
   in non-decreasing order, and the loop stops at the right moment. When the
   end node is reachable, the trace holds every node closer than the end
   node and none farther; when it is not, the trace holds every node the
   start node reaches.
   */
  ghost predicate TraceOutcome(nodes: seq<string>, edges: seq<Edge>, start: string, end: string,
                               visited: seq<string>, distances: Distances)
  {
    |visited| <= |nodes| &&
    (forall v :: v in visited ==> v in distances && distances[v].Fin? && IsShortest(edges, start, v, distances[v].n)) &&
    (forall i, j :: 0 <= i < j < |visited| ==> distances[visited[i]].n <= distances[visited[j]].n) &&
    (Reachable(edges, start, end) ==>
       end in distances && distances[end].Fin? && IsShortest(edges, start, end, distances[end].n) &&
       (forall v :: v in visited ==> distances[v].n <= distances[end].n) &&
       (forall v :: v in nodes && v !in visited ==> LowerBound(edges, start, v, distances[end].n))) &&
    (!Reachable(edges, start, end) ==> forall v :: v in nodes && Reachable(edges, start, v) ==> v in visited)
  }

  /** What the path means. */
  ghost predicate PathOutcome(edges: seq<Edge>, start: string, end: string, path: seq<string>, route: seq<Edge>)
  {
    IsWalk(edges, path, route) &&
    (Reachable(edges, start, end) ==> path[0] == start && IsShortest(edges, start, end, Weight(route))) &&
    (!Reachable(edges, start, end) ==> path == [end])
  }

  /** The loop stopped because the end node was selected. */
  lemma EndSelected(nodes: seq<string>, edges: seq<Edge>, start: string, end: string,
                    d: Distances, p: Previous, unvisited: seq<string>, visited: seq<string>)
    requires Inv(nodes, edges, start, end, d, p, unvisited, visited) && EdgesWithin(nodes, edges)
    requires IsSelection(unvisited, d, end)
    ensures d[end].Fin? && LowerBound(edges, start, end, d[end].n)
    ensures start != end ==> start !in unvisited
  {
    SelectionIsShortest(nodes, edges, start, end, d, p, unvisited, visited, end);
  }

  /**
   When the loop stops, no unvisited node is closer than the end node, so
   every walk to an unvisited node weighs at least the end node's distance.
   */
  lemma EndIsNearest(nodes: seq<string>, edges: seq<Edge>, start: string, end: string,
                     d: Distances, p: Previous, unvisited: seq<string>, visited: seq<string>,
                     w: seq<string>, es: seq<Edge>)
    requires Inv(nodes, edges, start, end, d, p, unvisited, visited) && EdgesWithin(nodes, edges)
    requires forall v :: v in unvisited ==> d[end].AtMost(d[v])
    requires IsWalk(edges, w, es) && w[0] == start && w[|w| - 1] in unvisited
    ensures d[end].Fin? && d[end].n <= Weight(es)
  {
    Frontier(nodes, edges, start, d, p, unvisited, visited, w, es);
    var y :| y in w && y in unvisited && d[y].Fin? && d[y].n <= Weight(es);
    assert d[end].AtMost(d[y]);
  }

  /**
   The stopping rule: the end node has its shortest distance if it is
   reachable, no unvisited node is closer, and if the end node stayed at
   `Infinity` no unvisited node is reachable at all.
   */
  lemma StopRule(nodes: seq<string>, edges: seq<Edge>, start: string, end: string,
                 d: Distances, p: Previous, unvisited: seq<string>, visited: seq<string>)
    requires Inv(nodes, edges, start, end, d, p, unvisited, visited) && EdgesWithin(nodes, edges)
    requires forall v :: v in unvisited ==> d[end].AtMost(d[v])
    ensures Reachable(edges, start, end) <==> d[end].Fin?
    ensures d[end].Fin? ==> IsShortest(edges, start, end, d[end].n)
    ensures d[end].Fin? ==> forall v :: v in unvisited ==> LowerBound(edges, start, v, d[end].n)
    ensures d[end] == Inf ==> forall v :: v in unvisited ==> !Reachable(edges, start, v)
  {
    forall v, w, es | v in unvisited && IsWalkFromTo(edges, w, es, start, v)
      ensures d[end].Fin? && d[end].n <= Weight(es)
    {
      EndIsNearest(nodes, edges, start, end, d, p, unvisited, visited, w, es);
    }
  }

  /** What the final run state and the rebuilt path say together. */
  lemma Conclude(nodes: seq<string>, edges: seq<Edge>, start: string, end: string,
                 d: Distances, p: Previous, unvisited: seq<string>, visited: seq<string>,
                 path: seq<string>, route: seq<Edge>)
    requires Inv(nodes, edges, start, end, d, p, unvisited, visited) && EdgesWithin(nodes, edges)
    requires forall v :: v in unvisited ==> d[end].AtMost(d[v])
    requires start != end ==> start !in unvisited
    requires |path| >= 1 && path[|path| - 1] == end && Distinct(path)
    requires forall v :: v in path ==> v in p
    requires p[path[0]].None?
    requires forall i :: 0 <= i < |path| - 1 ==> path[i] in visited
    requires IsWalk(edges, path, route)
    requires p[end].None? <==> path == [end]
    requires d[end].Fin? ==> d[path[0]].Fin? && d[end].n == d[path[0]].n + Weight(route)
    ensures Outcome(nodes, edges, start, end, visited, path, d, route)
  {
    StopRule(nodes, edges, start, end, d, p, unvisited, visited);
    ConcludeTrace(nodes, edges, start, end, d, p, unvisited, visited);
    ConcludePath(nodes, edges, start, end, d, p, unvisited, visited, path, route);
    if start == end {
      assert d[start] == Fin(0) && p[start].None?;
    }
  }

  /** The settled nodes make up the promised trace. */
  lemma ConcludeTrace(nodes: seq<string>, edges: seq<Edge>, start: string, end: string,
                      d: Distances, p: Previous, unvisited: seq<string>, visited: seq<string>)
    requires Inv(nodes, edges, start, end, d, p, unvisited, visited)
    requires Reachable(edges, start, end) <==> d[end].Fin?
    requires d[end].Fin? ==> IsShortest(edges, start, end, d[end].n)
    requires d[end].Fin? ==> forall v :: v in unvisited ==> LowerBound(edges, start, v, d[end].n)
    requires d[end] == Inf ==> forall v :: v in unvisited ==> !Reachable(edges, start, v)
    ensures TraceOutcome(nodes, edges, start, end, visited, d)
  {
    forall v | v in visited && d[end].Fin?
      ensures d[v].n <= d[end].n
    {
      var i :| 0 <= i < |visited| && visited[i] == v;
    }
  }

  /** The rebuilt path is the promised path. */
  lemma ConcludePath(nodes: seq<string>, edges: seq<Edge>, start: string, end: string,
                     d: Distances, p: Previous, unvisited: seq<string>, visited: seq<string>,
                     path: seq<string>, route: seq<Edge>)
    requires Shape(nodes, d, p, unvisited, visited) && start in nodes && end in unvisited
    requires StartFacts(nodes, start, d, p, unvisited, visited) && Unlinked(start, d, p)
    requires Links(edges, d, p, visited)
    requires Reachable(edges, start, end) ==> d[end].Fin? && LowerBound(edges, start, end, d[end].n)
    requires |path| >= 1 && path[|path| - 1] == end && Distinct(path)
    requires forall v :: v in path ==> v in p
    requires p[path[0]].None?
    requires forall i :: 0 <= i < |path| - 1 ==> path[i] in visited
    requires IsWalk(edges, path, route)
    requires p[end].None? <==> path == [end]
    requires d[end].Fin? ==> d[path[0]].Fin? && d[end].n == d[path[0]].n + Weight(route)
    ensures PathOutcome(edges, start, end, path, route)
  {
    if d[end].Fin? {
      assert path[0] == start;
      assert IsWalkFromTo(edges, path, route, start, end);
    }
  }
}
