/**
 The graph the path finder works on: weighted undirected edges between node
 ids, tentative distances with an explicit infinity, and walks with their
 total weight, which give "shortest" its meaning.
 */
module Graph {

  /** An edge of the graph; it can be travelled in either direction. */
  datatype Edge = Edge(from: string, to: string, weight: nat)

  /** A tentative distance: JavaScript's `Infinity`, or a finite total weight. */
  datatype Dist = Inf | Fin(n: nat) {

    /** JavaScript's strict `<` on these values (`Infinity < Infinity` is false). */
    predicate Below(other: Dist)
      ensures Below(other) ==> Fin?
      ensures Fin? && other.Inf? ==> Below(other)
      ensures Fin? && other.Fin? ==> (Below(other) <==> n < other.n)
    {
      match (this, other)
      case (Fin(a), Fin(b)) => a < b
      case (Fin(_), Inf) => true
      case (Inf, _) => false
    }

    predicate AtMost(other: Dist) {
      !other.Below(this)
    }

    /** JavaScript's `+` of a weight (`Infinity + w` is `Infinity`). */
    function Plus(w: nat): (r: Dist)
      ensures r.Fin? <==> Fin?
      ensures Fin? ==> r.n == n + w
      ensures !r.Below(this)
    {
      match this
      case Inf => Inf
      case Fin(a) => Fin(a + w)
    }
  }

  /** Edge `e` connects `u` and `v`, read in either direction. */
  predicate Joins(e: Edge, u: string, v: string) {
    (e.from == u && e.to == v) || (e.to == u && e.from == v)
  }

  /** Every edge names two ids of `nodes`. */
  predicate EdgesWithin(nodes: seq<string>, edges: seq<Edge>) {
    forall e :: e in edges ==> e.from in nodes && e.to in nodes
  }

  /** `p` is a walk through the graph and `es[i]` is the edge taken from `p[i]` to `p[i+1]`. */
  ghost predicate IsWalk(edges: seq<Edge>, p: seq<string>, es: seq<Edge>) {
    |p| == |es| + 1 &&
    forall i :: 0 <= i < |es| ==> es[i] in edges && Joins(es[i], p[i], p[i + 1])
  }

  ghost predicate IsWalkFromTo(edges: seq<Edge>, p: seq<string>, es: seq<Edge>, s: string, t: string) {
    IsWalk(edges, p, es) && p[0] == s && p[|p| - 1] == t
  }

  /** Total weight of the edges taken. */
  function Weight(es: seq<Edge>): nat {
    if es == [] then 0 else Weight(es[..|es| - 1]) + es[|es| - 1].weight
  }

  ghost predicate Reachable(edges: seq<Edge>, s: string, t: string) {
    exists p, es :: IsWalkFromTo(edges, p, es, s, t)
  }

  ghost predicate HasWalkOfWeight(edges: seq<Edge>, s: string, t: string, d: nat) {
    exists p, es :: IsWalkFromTo(edges, p, es, s, t) && Weight(es) == d
  }

  /** No walk from `s` to `t` weighs less than `d`. */
  ghost predicate LowerBound(edges: seq<Edge>, s: string, t: string, d: nat) {
    forall p, es :: IsWalkFromTo(edges, p, es, s, t) ==> d <= Weight(es)
  }

  /** `d` is the least total weight over all walks from `s` to `t`. */
  ghost predicate IsShortest(edges: seq<Edge>, s: string, t: string, d: nat) {
    HasWalkOfWeight(edges, s, t, d) && LowerBound(edges, s, t, d)
  }

  /** Prepending an edge adds its weight. */
  /** `Below` is a strict total order on distances with `Inf` on top. */
  lemma BelowIsStrictOrder(a: Dist, b: Dist, c: Dist)
    ensures !a.Below(a) && !Inf.Below(a)
    ensures a.Below(b) && b.Below(c) ==> a.Below(c)
    ensures a.Below(b) || a == b || b.Below(a)
  {
  }

  lemma {:induction false} WeightPrepend(e: Edge, es: seq<Edge>)
    ensures Weight([e] + es) == e.weight + Weight(es)
  {
    if es != [] {
      var n := |es|;
      assert ([e] + es)[..n] == [e] + es[..n - 1];
      WeightPrepend(e, es[..n - 1]);
    }
  }

  /** Every walk can be cut before its last edge. */
  lemma WalkPrefix(edges: seq<Edge>, p: seq<string>, es: seq<Edge>)
    requires IsWalk(edges, p, es) && es != []
    ensures IsWalkFromTo(edges, p[..|p| - 1], es[..|es| - 1], p[0], p[|p| - 2])
    ensures Weight(es) == Weight(es[..|es| - 1]) + es[|es| - 1].weight
  {
  }

  /** A single node is a walk of weight 0 from itself. */
  lemma TrivialWalk(edges: seq<Edge>, s: string)
    ensures IsShortest(edges, s, s, 0) && Reachable(edges, s, s)
  {
    assert IsWalkFromTo(edges, [s], [], s, s);
  }

  /** A walk to `u` followed by an edge from `u` to `v` is a walk to `v`. */
  lemma ExtendWalk(edges: seq<Edge>, s: string, u: string, v: string, d: nat, e: Edge)
    requires HasWalkOfWeight(edges, s, u, d) && e in edges && Joins(e, u, v)
    ensures HasWalkOfWeight(edges, s, v, d + e.weight)
  {
    var p, es :| IsWalkFromTo(edges, p, es, s, u) && Weight(es) == d;
    var p', es' := p + [v], es + [e];
    assert es'[..|es'| - 1] == es;
    assert IsWalkFromTo(edges, p', es', s, v);
  }
  /**
   `pot` labels every edge's ends and no edge is shorter than the difference of
   its ends' labels, in either direction.
   */
  ghost predicate Potential(edges: seq<Edge>, pot: map<string, nat>) {
    forall e :: e in edges ==>
      e.from in pot && e.to in pot &&
      pot[e.to] <= pot[e.from] + e.weight && pot[e.from] <= pot[e.to] + e.weight
  }

  /** Along any walk a potential rises by at most the walk's weight. */
  lemma {:induction false} PotentialBound(edges: seq<Edge>, pot: map<string, nat>, p: seq<string>, es: seq<Edge>)
    requires Potential(edges, pot) && IsWalk(edges, p, es) && p[0] in pot
    ensures p[|p| - 1] in pot && pot[p[|p| - 1]] <= pot[p[0]] + Weight(es)
  {
    if es != [] {
      var n := |es|;
      PotentialBound(edges, pot, p[..n], es[..n - 1]);
      assert es[n - 1] in edges && Joins(es[n - 1], p[n - 1], p[n]);
    }
  }

  /** A walk weighs no less than what its start's potential lacks of its end's. */
  lemma PotentialLowerBound(edges: seq<Edge>, pot: map<string, nat>, s: string, t: string)
    requires Potential(edges, pot) && s in pot && pot[s] == 0 && t in pot
    ensures LowerBound(edges, s, t, pot[t])
  {
    forall p, es | IsWalkFromTo(edges, p, es, s, t)
      ensures pot[t] <= Weight(es)
    {
      PotentialBound(edges, pot, p, es);
    }
  }
}
