/**
 The six-node city map the visualizer loads on start-up, and what the routine
 returns on it.
 */
module SampleGraph {
  import opened Graph
  import opened InsertionOrderedSet
  import opened Dijkstra

  function Nodes(): seq<string> {
    ["A", "B", "C", "D", "E", "F"]
  }

  function Edges(): seq<Edge> {
    [Edge("A", "B", 5), Edge("A", "C", 4), Edge("A", "D", 6), Edge("B", "C", 8),
     Edge("D", "E", 7), Edge("C", "F", 5), Edge("E", "F", 4)]
  }

  /** Every edge of the map weighs at least 4, so a walk weighs at least 4 per edge. */
  lemma {:induction false} WeightAtLeastFour(es: seq<Edge>)
    requires forall e :: e in es ==> e in Edges()
    ensures Weight(es) >= 4 * |es|
  {
    if es != [] {
      assert es[|es| - 1] in es;
      WeightAtLeastFour(es[..|es| - 1]);
    }
  }

  /** Shortest distances from A: B 5, C 4, D 6, E 13 (A, D, E) and F 9 (A, C, F). */
  function FromA(): map<string, nat> {
    map["A" := 0, "B" := 5, "C" := 4, "D" := 6, "E" := 13, "F" := 9]
  }

  /** Shortest distances from B: A 5, C 8, D 11 (B, A, D), E 17 (B, C, F, E) and F 13. */
  function FromB(): map<string, nat> {
    map["B" := 0, "A" := 5, "C" := 8, "D" := 11, "E" := 17, "F" := 13]
  }

  lemma PotentialFromA()
    ensures Potential(Edges(), FromA())
  {
  }

  lemma PotentialFromB()
    ensures Potential(Edges(), FromB())
  {
  }

  lemma WalksFromA()
    ensures HasWalkOfWeight(Edges(), "A", "B", 5)
    ensures HasWalkOfWeight(Edges(), "A", "C", 4)
    ensures HasWalkOfWeight(Edges(), "A", "D", 6)
    ensures HasWalkOfWeight(Edges(), "A", "E", 13)
    ensures HasWalkOfWeight(Edges(), "A", "F", 9)
  {
    TrivialWalk(Edges(), "A");
    ExtendWalk(Edges(), "A", "A", "B", 0, Edge("A", "B", 5));
    ExtendWalk(Edges(), "A", "A", "C", 0, Edge("A", "C", 4));
    ExtendWalk(Edges(), "A", "A", "D", 0, Edge("A", "D", 6));
    ExtendWalk(Edges(), "A", "D", "E", 6, Edge("D", "E", 7));
    ExtendWalk(Edges(), "A", "C", "F", 4, Edge("C", "F", 5));
  }

  lemma BoundsFromA()
    ensures LowerBound(Edges(), "A", "B", 5)
    ensures LowerBound(Edges(), "A", "C", 4)
    ensures LowerBound(Edges(), "A", "D", 6)
    ensures LowerBound(Edges(), "A", "E", 13)
    ensures LowerBound(Edges(), "A", "F", 9)
  {
    PotentialFromA();
    PotentialLowerBound(Edges(), FromA(), "A", "B");
    PotentialLowerBound(Edges(), FromA(), "A", "C");
    PotentialLowerBound(Edges(), FromA(), "A", "D");
    PotentialLowerBound(Edges(), FromA(), "A", "E");
    PotentialLowerBound(Edges(), FromA(), "A", "F");
  }

  /** The distances of FromA are the shortest ones. */
  lemma ShortestFromA()
    ensures IsShortest(Edges(), "A", "A", 0) && IsShortest(Edges(), "A", "B", 5)
    ensures IsShortest(Edges(), "A", "C", 4) && IsShortest(Edges(), "A", "D", 6)
    ensures IsShortest(Edges(), "A", "E", 13) && IsShortest(Edges(), "A", "F", 9)
  {
    TrivialWalk(Edges(), "A");
    WalksFromA();
    BoundsFromA();
  }

  lemma WalksFromB()
    ensures HasWalkOfWeight(Edges(), "B", "A", 5)
    ensures HasWalkOfWeight(Edges(), "B", "C", 8)
    ensures HasWalkOfWeight(Edges(), "B", "D", 11)
    ensures HasWalkOfWeight(Edges(), "B", "E", 17)
    ensures HasWalkOfWeight(Edges(), "B", "F", 13)
  {
    TrivialWalk(Edges(), "B");
    ExtendWalk(Edges(), "B", "B", "A", 0, Edge("A", "B", 5));
    ExtendWalk(Edges(), "B", "B", "C", 0, Edge("B", "C", 8));
    ExtendWalk(Edges(), "B", "A", "D", 5, Edge("A", "D", 6));
    ExtendWalk(Edges(), "B", "C", "F", 8, Edge("C", "F", 5));
    ExtendWalk(Edges(), "B", "F", "E", 13, Edge("E", "F", 4));
  }

  lemma BoundsFromB()
    ensures LowerBound(Edges(), "B", "A", 5)
    ensures LowerBound(Edges(), "B", "C", 8)
    ensures LowerBound(Edges(), "B", "D", 11)
    ensures LowerBound(Edges(), "B", "E", 17)
    ensures LowerBound(Edges(), "B", "F", 13)
  {
    PotentialFromB();
    PotentialLowerBound(Edges(), FromB(), "B", "A");
    PotentialLowerBound(Edges(), FromB(), "B", "C");
    PotentialLowerBound(Edges(), FromB(), "B", "D");
    PotentialLowerBound(Edges(), FromB(), "B", "E");
    PotentialLowerBound(Edges(), FromB(), "B", "F");
  }

  /** The distances of FromB are the shortest ones. */
  lemma ShortestFromB()
    ensures IsShortest(Edges(), "B", "B", 0) && IsShortest(Edges(), "B", "A", 5)
    ensures IsShortest(Edges(), "B", "C", 8) && IsShortest(Edges(), "B", "D", 11)
    ensures IsShortest(Edges(), "B", "E", 17) && IsShortest(Edges(), "B", "F", 13)
  {
    TrivialWalk(Edges(), "B");
    WalksFromB();
    BoundsFromB();
  }

  /** A non-empty sequence holds its first element. */
  lemma HeadIsMember(s: seq<string>)
    ensures s == [] || s[0] in s
  {
  }

  /** The nearest node of `expected` comes first in the trace. */
  lemma SameHead(visited: seq<string>, expected: seq<string>, d: Distances)
    requires expected != []
    requires forall v :: v in visited <==> v in expected
    requires forall v :: v in expected ==> v in d && d[v].Fin?
    requires forall i, j :: 0 <= i < j < |visited| ==> d[visited[i]].n <= d[visited[j]].n
    requires forall i, j :: 0 <= i < j < |expected| ==> d[expected[i]].n < d[expected[j]].n
    ensures visited != [] && visited[0] == expected[0]
  {
    var x := expected[0];
    assert x in expected;
    var j :| 0 <= j < |visited| && visited[j] == x;
    assert visited[0] in visited;
    var k :| 0 <= k < |expected| && expected[k] == visited[0];
    assert d[visited[0]].n <= d[x].n;
  }

  /** Both sequences without their common head hold the same nodes. */
  lemma SameTailMembers(visited: seq<string>, expected: seq<string>, d: Distances)
    requires Distinct(visited) && visited != [] && expected != [] && visited[0] == expected[0]
    requires forall v :: v in visited <==> v in expected
    requires forall v :: v in expected ==> v in d && d[v].Fin?
    requires forall i, j :: 0 <= i < j < |expected| ==> d[expected[i]].n < d[expected[j]].n
    ensures forall v :: v in visited[1..] <==> v in expected[1..]
  {
    forall v
      ensures v in visited[1..] <==> v in expected[1..]
    {
      if v in visited[1..] {
        var i :| 1 <= i < |visited| && visited[i] == v;
        assert v in expected && v != visited[0];
      }
      if v in expected[1..] {
        var i :| 1 <= i < |expected| && expected[i] == v;
        assert v in visited && v != expected[0];
      }
    }
  }

  /**
   A trace without repeats, ordered by distance, holding exactly the nodes of
   `expected`, whose distances strictly increase, is `expected` itself.
   */
  lemma {:induction false} TraceByDistance(visited: seq<string>, expected: seq<string>, d: Distances)
    requires Distinct(visited)
    requires forall v :: v in visited <==> v in expected
    requires forall v :: v in expected ==> v in d && d[v].Fin?
    requires forall i, j :: 0 <= i < j < |visited| ==> d[visited[i]].n <= d[visited[j]].n
    requires forall i, j :: 0 <= i < j < |expected| ==> d[expected[i]].n < d[expected[j]].n
    ensures visited == expected
    decreases |expected|
  {
    if expected == [] {
      HeadIsMember(visited);
    } else {
      SameHead(visited, expected, d);
      SameTailMembers(visited, expected, d);
      TraceByDistance(visited[1..], expected[1..], d);
    }
  }

  /** The only walk from A to F weighing at most 9 is A, C, F. */
  lemma OnlyLightWalkAToF(p: seq<string>, es: seq<Edge>)
    requires IsWalkFromTo(Edges(), p, es, "A", "F") && Weight(es) <= 9
    ensures p == ["A", "C", "F"]
  {
    WeightAtLeastFour(es);
    assert 1 <= |es| <= 2;
    assert |es| != 1;
    assert Weight(es) == es[0].weight + es[1].weight by {
      assert es[..1][..0] == [];
    }
    assert Joins(es[1], p[1], "F") && Joins(es[0], "A", p[1]);
  }

  /** The only walk from B to D weighing at most 11 is B, A, D. */
  lemma OnlyLightWalkBToD(p: seq<string>, es: seq<Edge>)
    requires IsWalkFromTo(Edges(), p, es, "B", "D") && Weight(es) <= 11
    ensures p == ["B", "A", "D"]
  {
    WeightAtLeastFour(es);
    assert 1 <= |es| <= 2;
    assert |es| != 1;
    assert Weight(es) == es[0].weight + es[1].weight by {
      assert es[..1][..0] == [];
    }
    assert Joins(es[1], p[1], "D") && Joins(es[0], "B", p[1]);
  }

  /** From A to F the path is A, C, F (weight 9, against 17 for A, D, E, F). */
  method RouteAToF() returns (visited: seq<string>, path: seq<string>)
    ensures path == ["A", "C", "F"]
    ensures visited == ["A", "C", "B", "D"]
  {
    ghost var distances, route;
    visited, path, distances, route := FindShortestPath(Nodes(), Edges(), "A", "F");
    OutcomeAToF(visited, path, distances, route);
  }

  lemma OutcomeAToF(visited: seq<string>, path: seq<string>, distances: Distances, route: seq<Edge>)
    requires Outcome(Nodes(), Edges(), "A", "F", visited, path, distances, route)
    ensures path == ["A", "C", "F"]
    ensures visited == ["A", "C", "B", "D"]
  {
    var walk, steps := ["A", "C", "F"], [Edge("A", "C", 4), Edge("C", "F", 5)];
    assert IsWalkFromTo(Edges(), walk, steps, "A", "F");
    assert Weight(steps) == 9 by {
      assert steps[..1] == [Edge("A", "C", 4)] && steps[..1][..0] == [];
    }
    assert IsWalkFromTo(Edges(), path, route, "A", "F");
    OnlyLightWalkAToF(path, route);
    TraceAToF(visited, distances);
  }

  /** A node with a walk lighter than the end's distance is visited. */
  lemma NearerIsVisited(nodes: seq<string>, start: string, end: string, visited: seq<string>,
                        distances: Distances, v: string, n: nat)
    requires TraceOutcome(nodes, Edges(), start, end, visited, distances) && Reachable(Edges(), start, end)
    requires v in nodes && HasWalkOfWeight(Edges(), start, v, n) && n < distances[end].n
    ensures v in visited
  {
  }

  /** A visited node's recorded distance is its shortest distance. */
  lemma VisitedDistance(nodes: seq<string>, start: string, end: string, visited: seq<string>,
                        distances: Distances, v: string, n: nat)
    requires TraceOutcome(nodes, Edges(), start, end, visited, distances)
    requires v in visited && IsShortest(Edges(), start, v, n)
    ensures distances[v] == Fin(n)
  {
  }

  /**
   Visiting stops once F is the nearest unvisited node: A, C, B and D (0, 4,
   5 and 6) are visited in that order, E (13) is not.
   */
  lemma TraceAToF(visited: seq<string>, distances: Distances)
    requires Distinct(visited) && "F" !in visited && forall v :: v in visited ==> v in Nodes()
    requires TraceOutcome(Nodes(), Edges(), "A", "F", visited, distances)
    ensures visited == ["A", "C", "B", "D"]
  {
    var nodes := Nodes();
    ShortestFromA();
    assert Reachable(Edges(), "A", "F");
    assert distances["F"].n == 9;
    NearerIsVisited(nodes, "A", "F", visited, distances, "A", 0);
    NearerIsVisited(nodes, "A", "F", visited, distances, "C", 4);
    NearerIsVisited(nodes, "A", "F", visited, distances, "B", 5);
    NearerIsVisited(nodes, "A", "F", visited, distances, "D", 6);
    VisitedDistance(nodes, "A", "F", visited, distances, "A", 0);
    VisitedDistance(nodes, "A", "F", visited, distances, "C", 4);
    VisitedDistance(nodes, "A", "F", visited, distances, "B", 5);
    VisitedDistance(nodes, "A", "F", visited, distances, "D", 6);
    assert "E" !in visited;
    OrderAToF(visited, distances);
  }

  lemma OrderAToF(visited: seq<string>, d: Distances)
    requires Distinct(visited)
    requires forall v :: v in visited <==> v == "A" || v == "C" || v == "B" || v == "D"
    requires forall v :: v in visited ==> v in d && d[v].Fin?
    requires forall i, j :: 0 <= i < j < |visited| ==> d[visited[i]].n <= d[visited[j]].n
    requires d["A"].n == 0 && d["C"].n == 4 && d["B"].n == 5 && d["D"].n == 6
    ensures visited == ["A", "C", "B", "D"]
  {
    TraceByDistance(visited, ["A", "C", "B", "D"], d);
  }

  /** From B to D, which no edge joins, the path goes through A (weight 11). */
  method RouteBToD() returns (visited: seq<string>, path: seq<string>)
    ensures path == ["B", "A", "D"]
    ensures visited == ["B", "A", "C"]
  {
    ghost var distances, route;
    visited, path, distances, route := FindShortestPath(Nodes(), Edges(), "B", "D");
    OutcomeBToD(visited, path, distances, route);
  }

  lemma OutcomeBToD(visited: seq<string>, path: seq<string>, distances: Distances, route: seq<Edge>)
    requires Outcome(Nodes(), Edges(), "B", "D", visited, path, distances, route)
    ensures path == ["B", "A", "D"]
    ensures visited == ["B", "A", "C"]
  {
    var walk, steps := ["B", "A", "D"], [Edge("A", "B", 5), Edge("A", "D", 6)];
    assert IsWalkFromTo(Edges(), walk, steps, "B", "D");
    assert Weight(steps) == 11 by {
      assert steps[..1] == [Edge("A", "B", 5)] && steps[..1][..0] == [];
    }
    assert IsWalkFromTo(Edges(), path, route, "B", "D");
    OnlyLightWalkBToD(path, route);
    TraceBToD(visited, distances);
  }

  /** B, A and C (0, 5 and 8) are visited before D (11); F (13) and E (17) are not. */
  lemma TraceBToD(visited: seq<string>, distances: Distances)
    requires Distinct(visited) && "D" !in visited && forall v :: v in visited ==> v in Nodes()
    requires TraceOutcome(Nodes(), Edges(), "B", "D", visited, distances)
    ensures visited == ["B", "A", "C"]
  {
    var nodes := Nodes();
    ShortestFromB();
    assert Reachable(Edges(), "B", "D");
    assert distances["D"].n == 11;
    NearerIsVisited(nodes, "B", "D", visited, distances, "B", 0);
    NearerIsVisited(nodes, "B", "D", visited, distances, "A", 5);
    NearerIsVisited(nodes, "B", "D", visited, distances, "C", 8);
    VisitedDistance(nodes, "B", "D", visited, distances, "B", 0);
    VisitedDistance(nodes, "B", "D", visited, distances, "A", 5);
    VisitedDistance(nodes, "B", "D", visited, distances, "C", 8);
    assert "E" !in visited && "F" !in visited;
    OrderBToD(visited, distances);
  }

  lemma OrderBToD(visited: seq<string>, d: Distances)
    requires Distinct(visited)
    requires forall v :: v in visited <==> v == "B" || v == "A" || v == "C"
    requires forall v :: v in visited ==> v in d && d[v].Fin?
    requires forall i, j :: 0 <= i < j < |visited| ==> d[visited[i]].n <= d[visited[j]].n
    requires d["B"].n == 0 && d["A"].n == 5 && d["C"].n == 8
    ensures visited == ["B", "A", "C"]
  {
    TraceByDistance(visited, ["B", "A", "C"], d);
  }

  /** Start and end the same: nothing is visited and the path is that node alone. */
  method RouteCToC() returns (visited: seq<string>, path: seq<string>)
    ensures visited == [] && path == ["C"]
  {
    ghost var distances, route;
    visited, path, distances, route := FindShortestPath(Nodes(), Edges(), "C", "C");
  }

  /** No edge touches G, so a walk that does not start at G does not end there. */
  lemma WalksAvoidG(p: seq<string>, es: seq<Edge>)
    requires IsWalk(Edges(), p, es) && p[0] != "G"
    ensures p[|p| - 1] != "G"
  {
    if es != [] {
      var n := |es|;
      assert es[n - 1] in Edges() && Joins(es[n - 1], p[n - 1], p[n]);
    }
  }

  /**
   The map with an extra node G that no edge touches: the end node cannot be
   reached, so every node of the map is visited, nearest first, and the path is
   G alone rather than empty.
   */
  method RouteToIsolatedNode() returns (visited: seq<string>, path: seq<string>)
    ensures path == ["G"]
    ensures visited == ["A", "C", "B", "D", "F", "E"]
  {
    ghost var distances, route;
    visited, path, distances, route := FindShortestPath(Nodes() + ["G"], Edges(), "A", "G");
    OutcomeToIsolatedNode(visited, path, distances, route);
  }

  lemma OutcomeToIsolatedNode(visited: seq<string>, path: seq<string>, distances: Distances, route: seq<Edge>)
    requires Outcome(Nodes() + ["G"], Edges(), "A", "G", visited, path, distances, route)
    ensures path == ["G"]
    ensures visited == ["A", "C", "B", "D", "F", "E"]
  {
    assert !Reachable(Edges(), "A", "G") by {
      forall p, es | IsWalk(Edges(), p, es) && p[0] == "A"
        ensures p[|p| - 1] != "G"
      {
        WalksAvoidG(p, es);
      }
    }
    TraceToIsolatedNode(visited, distances);
  }

  /** With the end out of reach, A, C, B, D, F and E (0, 4, 5, 6, 9 and 13) are all visited. */
  lemma TraceToIsolatedNode(visited: seq<string>, distances: Distances)
    requires Distinct(visited) && "G" !in visited && forall v :: v in visited ==> v in Nodes() + ["G"]
    requires !Reachable(Edges(), "A", "G")
    requires TraceOutcome(Nodes() + ["G"], Edges(), "A", "G", visited, distances)
    ensures visited == ["A", "C", "B", "D", "F", "E"]
  {
    ShortestFromA();
    assert "A" in visited && "B" in visited && "C" in visited;
    assert "D" in visited && "E" in visited && "F" in visited;
    OrderFromA(visited, distances);
  }

  lemma OrderFromA(visited: seq<string>, d: Distances)
    requires Distinct(visited)
    requires forall v :: v in visited <==> v in Nodes()
    requires forall v :: v in visited ==> v in d && d[v].Fin?
    requires forall i, j :: 0 <= i < j < |visited| ==> d[visited[i]].n <= d[visited[j]].n
    requires d["A"].n == 0 && d["C"].n == 4 && d["B"].n == 5
    requires d["D"].n == 6 && d["F"].n == 9 && d["E"].n == 13
    ensures visited == ["A", "C", "B", "D", "F", "E"]
  {
    TraceByDistance(visited, ["A", "C", "B", "D", "F", "E"], d);
  }
}
