/** The distance functions of the `mage` package that rank word and box
    pairs. Each is kept squared (see Geometry). */
module MageFunctions {
  import opened Geometry

  /** `custom_metric`: plain Euclidean distance between two points, squared. */
  function CustomMetricSq(a: Point, b: Point): (r: real)
    ensures r >= 0.0
    ensures a == b ==> r == 0.0
  {
    Square(a.x - b.x) + Square(a.y - b.y)
  }

  lemma CustomMetricSymmetric(a: Point, b: Point)
    ensures CustomMetricSq(a, b) == CustomMetricSq(b, a)
  {
    assert Square(a.x - b.x) == Square(b.x - a.x);
    assert Square(a.y - b.y) == Square(b.y - a.y);
  }

  /** `euclidean_distance` with its package defaults wcoef = 40, hcoef = 1, squared. */
  function EuclideanDistanceSq(p: Point, q: Point, wcoef: real := 40.0, hcoef: real := 1.0): (r: real)
    ensures wcoef >= 0.0 && hcoef >= 0.0 ==> r >= 0.0
    ensures p == q ==> r == 0.0
  {
    WeightedDistSq(p, q, wcoef, hcoef)
  }

  lemma EuclideanDistanceSymmetric(p: Point, q: Point, wcoef: real, hcoef: real)
    ensures EuclideanDistanceSq(p, q, wcoef, hcoef) == EuclideanDistanceSq(q, p, wcoef, hcoef)
  {
    WeightedDistSqSymmetric(p, q, wcoef, hcoef);
  }

  /** The default weights stretch horizontal gaps forty-fold. */
  lemma EuclideanDistanceDefaults(p: Point, q: Point)
    ensures EuclideanDistanceSq(p, q) == 40.0 * Square(p.x - q.x) + Square(p.y - q.y)
  {
  }

  /** `min_bbox_distance`: the corner loop with wcoef = 1, hcoef = 30. */
  method MinBboxDistanceSq(b1: Box, b2: Box) returns (d: real)
    ensures IsMinCornerDistanceSq(b1, b2, 1.0, 30.0, d)
  {
    d := MinCornerDistanceSq(b1, b2, 1.0, 30.0);
  }

  /** Swapping the boxes gives the same minimum. */
  lemma MinBboxDistanceSymmetric(b1: Box, b2: Box, d: real)
    requires IsMinCornerDistanceSq(b1, b2, 1.0, 30.0, d)
    ensures IsMinCornerDistanceSq(b2, b1, 1.0, 30.0, d)
    ensures d >= 0.0
  {
    MinCornerDistanceSymmetric(b1, b2, 1.0, 30.0, d);
    var i: nat, j: nat :| i < 4 && j < 4 && d == PairDistSq(b1, b2, 1.0, 30.0, i, j);
  }

  /** `weighted_metric`: vertical gaps weigh three times as much, squared. */
  function WeightedMetricSq(a: Point, b: Point): (r: real)
    ensures r >= 0.0
    ensures a == b ==> r == 0.0
  {
    var dx := a.x - b.x;
    var dy := a.y - b.y;
    Square(dx) + 3.0 * Square(dy)
  }

  lemma WeightedMetricSymmetric(a: Point, b: Point)
    ensures WeightedMetricSq(a, b) == WeightedMetricSq(b, a)
  {
    assert Square(a.x - b.x) == Square(b.x - a.x);
    assert Square(a.y - b.y) == Square(b.y - a.y);
  }

  /** `bbox_distance`: the distance between the centres of two boxes, squared. */
  function BboxDistanceSq(b1: Box, b2: Box): (r: real)
    ensures r >= 0.0
    ensures b1 == b2 ==> r == 0.0
  {
    var c1 := Point((b1.x0 + b1.x1) / 2.0, (b1.y0 + b1.y1) / 2.0);
    var c2 := Point((b2.x0 + b2.x1) / 2.0, (b2.y0 + b2.y1) / 2.0);
    Square(c1.x - c2.x) + Square(c1.y - c2.y)
  }

  /** The box distance is the point distance between the two centroids, so
      it is symmetric and blind to how the boxes extend about their centres. */
  lemma BboxDistanceCentroids(b1: Box, b2: Box)
    ensures BboxDistanceSq(b1, b2) == CustomMetricSq(Centroid(b1), Centroid(b2))
    ensures BboxDistanceSq(b1, b2) == BboxDistanceSq(b2, b1)
  {
    CustomMetricSymmetric(Centroid(b1), Centroid(b2));
  }
}
