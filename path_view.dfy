/**
 The one piece of logic in the drawing code: whether an edge is drawn as part
 of the found path.
 */
module PathView {
  import opened Graph

  /**
   The `path.some((id, i) => ...)` scan from position `i` on: some position
   `j >= i` before the last one has `path[j]` and `path[j + 1]` as the edge's
   endpoints, in either order.
   */
  function SomeStepFrom(path: seq<string>, e: Edge, i: nat): (r: bool)
    decreases |path| - i
    ensures r <==> exists j :: i <= j < |path| - 1 && Joins(e, path[j], path[j + 1])
  {
    if i >= |path| then false
    else (i < |path| - 1 && Joins(e, path[i], path[i + 1])) || SomeStepFrom(path, e, i + 1)
  }

  /**
   `isInPath` of the edge drawing: the path has at least two nodes and two
   consecutive ones are the edge's endpoints, in either order.
   */
  function IsInPath(path: seq<string>, e: Edge): (r: bool)
    ensures r <==> exists i :: 0 <= i < |path| - 1 && Joins(e, path[i], path[i + 1])
    ensures r ==> e.from in path && e.to in path
    ensures |path| < 2 ==> !r
  {
    |path| >= 2 && SomeStepFrom(path, e, 0)
  }

  /**
   Every edge a walk takes is drawn as on the path; an edge not taken is drawn
   so only when some edge taken has the same endpoints.
   */
  lemma RouteIsHighlighted(edges: seq<Edge>, path: seq<string>, route: seq<Edge>, e: Edge)
    requires IsWalk(edges, path, route)
    ensures e in route ==> IsInPath(path, e)
    ensures IsInPath(path, e) ==>
              exists i :: 0 <= i < |route| && Joins(e, path[i], path[i + 1]) &&
                          Joins(route[i], e.from, e.to)
  {
    if e in route {
      var i :| 0 <= i < |route| && route[i] == e;
      assert Joins(e, path[i], path[i + 1]);
    }
    if IsInPath(path, e) {
      var i :| 0 <= i < |path| - 1 && Joins(e, path[i], path[i + 1]);
      assert Joins(route[i], e.from, e.to);
    }
  }
}
