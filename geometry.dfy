/** Cities (points) in the plane and the Euclidean distance between them. */
module Geometry {

  /** A city of the ant colony, or a point of the nearest-neighbour solver. */
  datatype City = City(name: string, x: real, y: real)

  /**
   * `norm(dx, dy)` stands for `Math.sqrt(dx * dx + dy * dy)`, the length of the
   * vector (dx, dy). The model keeps the facts of it that the algorithms rely
   * on: it is non-negative, zero only for the zero vector, and unchanged when
   * the vector is reversed (both squares are unchanged).
   */
  ghost predicate IsEuclideanNorm(norm: (real, real) -> real)
  {
    (forall dx, dy :: 0.0 <= norm(dx, dy) && (norm(dx, dy) == 0.0 <==> dx == 0.0 && dy == 0.0)) &&
    (forall dx, dy :: norm(Negated(dx), Negated(dy)) == norm(dx, dy))
  }

  /** The opposite of a coordinate difference. */
  function Negated(d: real): real
  {
    0.0 - d
  }

  /** No two cities share a position. */
  ghost predicate DistinctPositions(cities: seq<City>)
  {
    forall i, j :: 0 <= i < |cities| && 0 <= j < |cities| && i != j ==>
      cities[i].x != cities[j].x || cities[i].y != cities[j].y
  }

  /**
   * The Euclidean distance between two points: the norm of their coordinate
   * differences. It is non-negative and zero exactly when the points coincide.
   */
  function EuclideanDistance(p1: City, p2: City, norm: (real, real) -> real): (d: real)
    requires IsEuclideanNorm(norm)
    ensures 0.0 <= d
    ensures d == 0.0 <==> p1.x == p2.x && p1.y == p2.y
  {
    var dx := p1.x - p2.x;
    var dy := p1.y - p2.y;
    norm(dx, dy)
  }

  /** The distance does not depend on the order of its arguments. */
  lemma EuclideanSymmetric(p1: City, p2: City, norm: (real, real) -> real)
    requires IsEuclideanNorm(norm)
    ensures EuclideanDistance(p1, p2, norm) == EuclideanDistance(p2, p1, norm)
  {
    var dx := p2.x - p1.x;
    var dy := p2.y - p1.y;
    assert norm(Negated(dx), Negated(dy)) == norm(dx, dy);
    assert p1.x - p2.x == Negated(dx) && p1.y - p2.y == Negated(dy);
  }
}
