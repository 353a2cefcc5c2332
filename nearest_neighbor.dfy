/**
 * The greedy nearest-neighbour solver: starting from one point, repeatedly
 * move to the closest point not yet visited (the lowest index on ties), then
 * return to the start; the route's length is the sum of its segments.
 */
module NearestNeighbor {
  import opened Common
  import opened Geometry
  import opened Tours

  /** The solver's answer: the closed route of points and its length. */
  datatype Route = Route(path: seq<City>, distance: real)

  /** The length of a path: the distances between consecutive points, summed left to right. */
  function PathDistance(path: seq<City>, norm: (real, real) -> real): (d: real)
    requires IsEuclideanNorm(norm)
    ensures 0.0 <= d
    ensures |path| <= 1 ==> d == 0.0
  {
    if |path| <= 1 then 0.0
    else PathDistance(path[..|path| - 1], norm) + EuclideanDistance(path[|path| - 2], path[|path| - 1], norm)
  }

  /** Adds up the distances between consecutive points of the path. */
  method CalculateTotalDistance(path: seq<City>, norm: (real, real) -> real) returns (totalDistance: real)
    requires IsEuclideanNorm(norm)
    ensures totalDistance == PathDistance(path, norm)
  {
    totalDistance := 0.0;
    var i := 0;
    while i < |path| - 1
      invariant 0 <= i && (0 < |path| ==> i < |path|)
      invariant 0 < |path| ==> totalDistance == PathDistance(path[..i + 1], norm)
      invariant |path| == 0 ==> totalDistance == 0.0
    {
      assert path[..i + 2][..i + 1] == path[..i + 1];
      totalDistance := totalDistance + EuclideanDistance(path[i], path[i + 1], norm);
      i := i + 1;
    }
    if 0 < |path| {
      assert path[..i + 1] == path;
    }
  }

  /** Adding a first point to a path adds the segment from it to the old first point. */
  lemma {:induction false} PathDistancePrepend(a: City, path: seq<City>, norm: (real, real) -> real)
    requires IsEuclideanNorm(norm) && 0 < |path|
    ensures PathDistance([a] + path, norm) == EuclideanDistance(a, path[0], norm) + PathDistance(path, norm)
    decreases |path|
  {
    var p := [a] + path;
    if 1 < |path| {
      PathDistancePrepend(a, path[..|path| - 1], norm);
      assert p[..|p| - 1] == [a] + path[..|path| - 1];
    } else {
      assert p == [a, path[0]];
    }
  }

  function Reverse(path: seq<City>): (r: seq<City>)
    ensures |r| == |path|
    ensures forall k :: 0 <= k < |path| ==> r[k] == path[|path| - 1 - k]
  {
    if path == [] then [] else [path[|path| - 1]] + Reverse(path[..|path| - 1])
  }

  /** A route walked backwards has the same length: every segment is as long in both directions. */
  lemma {:induction false} PathDistanceReversed(path: seq<City>, norm: (real, real) -> real)
    requires IsEuclideanNorm(norm)
    ensures PathDistance(Reverse(path), norm) == PathDistance(path, norm)
    decreases |path|
  {
    if 1 < |path| {
      var init := path[..|path| - 1];
      PathDistanceReversed(init, norm);
      PathDistancePrepend(path[|path| - 1], Reverse(init), norm);
      EuclideanSymmetric(path[|path| - 1], path[|path| - 2], norm);
    }
  }

  /**
   * Among the points below m, c is the unvisited point nearest to `current`:
   * no unvisited point below m is closer, and every unvisited point before c
   * is strictly farther (the first of equally near points wins).
   */
  ghost predicate IsNearestAmong(points: seq<City>, visited: seq<bool>, current: City, c: nat, m: nat,
                                 norm: (real, real) -> real)
    requires |visited| == |points| && m <= |points| && IsEuclideanNorm(norm)
  {
    c < m && !visited[c] &&
    (forall j :: 0 <= j < m && !visited[j] ==>
      EuclideanDistance(current, points[c], norm) <= EuclideanDistance(current, points[j], norm)) &&
    (forall j :: 0 <= j < c && !visited[j] ==>
      EuclideanDistance(current, points[c], norm) < EuclideanDistance(current, points[j], norm))
  }

  ghost predicate IsNearest(points: seq<City>, visited: seq<bool>, current: City, c: nat, norm: (real, real) -> real)
    requires |visited| == |points| && IsEuclideanNorm(norm)
  {
    IsNearestAmong(points, visited, current, c, |points|, norm)
  }

  /** The nearest unvisited point is unique. */
  lemma NearestUnique(points: seq<City>, visited: seq<bool>, current: City, c1: nat, c2: nat,
                      norm: (real, real) -> real)
    requires |visited| == |points| && IsEuclideanNorm(norm)
    requires IsNearest(points, visited, current, c1, norm) && IsNearest(points, visited, current, c2, norm)
    ensures c1 == c2
  {
  }

  /**
   * The scan for the nearest unvisited point: keeps the closest point seen so
   * far and replaces it only by a strictly closer one; -1 when every point
   * is visited. The best distance starts as "none" (the source's Infinity).
   */
  method NearestUnvisited(points: seq<City>, visited: seq<bool>, currentPoint: City, norm: (real, real) -> real)
    returns (nearestIndex: int)
    requires |visited| == |points| && IsEuclideanNorm(norm)
    ensures nearestIndex == -1 <==> forall j :: 0 <= j < |points| ==> visited[j]
    ensures nearestIndex != -1 ==> 0 <= nearestIndex && IsNearest(points, visited, currentPoint, nearestIndex, norm)
  {
    nearestIndex := -1;
    var minDistance: Option<real> := None;
    for i := 0 to |points|
      invariant -1 <= nearestIndex < i
      invariant minDistance.None? <==> nearestIndex == -1
      invariant nearestIndex == -1 ==> forall j :: 0 <= j < i ==> visited[j]
      invariant nearestIndex != -1 ==>
        IsNearestAmong(points, visited, currentPoint, nearestIndex, i, norm) &&
        minDistance.value == EuclideanDistance(currentPoint, points[nearestIndex], norm)
    {
      if !visited[i] {
        var distance := EuclideanDistance(currentPoint, points[i], norm);
        if minDistance.None? || distance < minDistance.value {
          minDistance := Some(distance);
          nearestIndex := i;
        }
      }
    }
  }

  /** The move to order[k] (1 <= k < |order|) went to the nearest point not visited before it. */
  ghost predicate IsGreedyMove(points: seq<City>, order: seq<nat>, k: nat, norm: (real, real) -> real)
    requires IsEuclideanNorm(norm) && Below(order, |points|) && 1 <= k < |order|
  {
    IsNearest(points, VisitedFlags(order[..k], |points|), points[order[k - 1]], order[k], norm)
  }

  /** Every move of the visiting order is a nearest-neighbour move. */
  ghost predicate GreedySteps(points: seq<City>, order: seq<nat>, norm: (real, real) -> real)
    requires IsEuclideanNorm(norm) && Below(order, |points|)
  {
    forall k :: 1 <= k < |order| ==> IsGreedyMove(points, order, k, norm)
  }

  /** Appending the nearest unvisited point to a greedy order keeps it greedy. */
  lemma GreedyExtend(points: seq<City>, order: seq<nat>, visited: seq<bool>, c: nat, norm: (real, real) -> real)
    requires IsEuclideanNorm(norm) && 0 < |order| && Below(order, |points|) && c < |points|
    requires GreedySteps(points, order, norm) && visited == VisitedFlags(order, |points|)
    requires IsNearest(points, visited, points[order[|order| - 1]], c, norm)
    ensures Below(order + [c], |points|) && GreedySteps(points, order + [c], norm)
  {
    GreedyMovesKept(points, order, c, norm);
    var longer := order + [c];
    assert longer[..|order|] == order;
    assert IsGreedyMove(points, longer, |order|, norm);
  }

  /** Appending a point to a visiting order leaves the order's own moves as they were. */
  lemma GreedyMovesKept(points: seq<City>, order: seq<nat>, c: nat, norm: (real, real) -> real)
    requires IsEuclideanNorm(norm) && Below(order, |points|) && c < |points| && GreedySteps(points, order, norm)
    ensures Below(order + [c], |points|)
    ensures forall k :: 1 <= k < |order| ==> IsGreedyMove(points, order + [c], k, norm)
  {
    forall k | 1 <= k < |order|
      ensures IsGreedyMove(points, order + [c], k, norm)
    {
      assert IsGreedyMove(points, order, k, norm);
      assert (order + [c])[..k] == order[..k];
    }
  }

  /** Returning to the start leaves the greedy moves of the visiting order as they were. */
  lemma GreedyClosed(points: seq<City>, walk: seq<nat>, order: seq<nat>, norm: (real, real) -> real)
    requires IsEuclideanNorm(norm) && Below(walk, |points|) && GreedySteps(points, walk, norm)
    requires |walk| == |points| && 0 < |walk| && order == walk + [walk[0]]
    ensures Below(order[..|points|], |points|) && GreedySteps(points, order[..|points|], norm)
  {
    assert order[..|points|] == walk;
  }

  /**
   * The open part of the route: from `points[startingIndex]`, move to the
   * nearest unvisited point until every point is visited. `order` is the
   * walk as point indices.
   */
  method GreedyWalk(points: seq<City>, startingIndex: nat, norm: (real, real) -> real)
    returns (path: seq<City>, ghost order: seq<nat>)
    requires IsEuclideanNorm(norm) && startingIndex < |points|
    ensures |order| == |points| && |path| == |points| && order[0] == startingIndex
    ensures Distinct(order) && Below(order, |points|)
    ensures forall k :: 0 <= k < |order| ==> path[k] == points[order[k]]
    ensures GreedySteps(points, order, norm)
  {
    var n := |points|;
    order := [];
    var visited := seq(n, _ => false);
    path := [];
    var currentPoint := points[startingIndex];
    assert visited == VisitedFlags(order, n);
    Extend(order, n, startingIndex);
    path := path + [currentPoint];
    order := order + [startingIndex];
    visited := visited[startingIndex := true];
    while |path| < n
      invariant |path| == |order| && 1 <= |order| <= n && order[0] == startingIndex
      invariant Distinct(order) && Below(order, n)
      invariant forall k :: 0 <= k < |order| ==> path[k] == points[order[k]]
      invariant visited == VisitedFlags(order, n)
      invariant currentPoint == points[order[|order| - 1]]
      invariant GreedySteps(points, order, norm)
      decreases n - |path|
    {
      SomeUnvisited(order, n);
      var nearestIndex := NearestUnvisited(points, visited, currentPoint, norm);
      if nearestIndex != -1 {
        GreedyExtend(points, order, visited, nearestIndex, norm);
        Extend(order, n, nearestIndex);
        path := path + [points[nearestIndex]];
        order := order + [nearestIndex];
        visited := visited[nearestIndex := true];
        currentPoint := points[nearestIndex];
      } else {
        break;
      }
    }
    Coverage(order, n);
  }

  /**
   * The nearest-neighbour route from `points[startingIndex]`. No points give
   * the empty route of length 0; a starting index out of range is an error;
   * otherwise the route visits every point once in greedy order, returns to
   * the start, and its length is the sum of its segments, the closing one
   * included. `order` is the route as point indices.
   */
  method NearestNeighborTSP(points: seq<City>, startingIndex: int, norm: (real, real) -> real)
    returns (r: Result<Route>, ghost order: seq<nat>)
    requires IsEuclideanNorm(norm)
    ensures |points| == 0 ==> r == Success(Route([], 0.0))
    ensures 0 < |points| && (startingIndex < 0 || startingIndex >= |points|) ==>
      r == Failure("Invalid starting index")
    ensures 0 < |points| && 0 <= startingIndex < |points| ==>
      r.Success? && IsClosedTour(order, |points|, startingIndex) &&
      |r.value.path| == |points| + 1 &&
      (forall k :: 0 <= k < |order| ==> r.value.path[k] == points[order[k]]) &&
      GreedySteps(points, order[..|points|], norm) &&
      r.value.distance == PathDistance(r.value.path, norm)
  {
    order := [];
    if |points| == 0 {
      return Success(Route([], 0.0)), order;
    }
    if startingIndex < 0 || startingIndex >= |points| {
      return Failure("Invalid starting index"), order;
    }
    var n := |points|;
    ghost var walk;
    var path;
    path, walk := GreedyWalk(points, startingIndex, norm);
    Close(walk, n, startingIndex);
    path := path + [path[0]];
    order := walk + [startingIndex];
    GreedyClosed(points, walk, order, norm);
    var distance := CalculateTotalDistance(path, norm);
    return Success(Route(path, distance)), order;
  }
}
