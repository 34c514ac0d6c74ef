/** Bounding-box algebra and the weighted distances shared by the layout scripts.
    Every distance is kept SQUARED: the source takes a square root at the end,
    which is monotone, so minima and comparisons with a squared radius agree. */
module Geometry {

  /** An axis-aligned bounding box (x0, y0, x1, y1) in page coordinates. */
  datatype Box = Box(x0: real, y0: real, x1: real, y1: real)

  datatype Point = Point(x: real, y: real)

  /** A running minimum that starts at `float('inf')`. */
  datatype Dist = Infinity | Finite(value: real)

  /** `d < m` where m may be infinite. */
  predicate Below(d: real, m: Dist)
  {
    m.Infinity? || d < m.value
  }

  function Min(a: real, b: real): real { if b < a then b else a }

  function Max(a: real, b: real): real { if b > a then b else a }

  function Width(b: Box): real { b.x1 - b.x0 }

  function Height(b: Box): real { b.y1 - b.y0 }

  /** Closed-interval overlap: true unless one box lies entirely to the left,
      right, above or below the other (touching edges intersect). */
  predicate Intersects(a: Box, b: Box)
  {
    !(a.x1 < b.x0 || a.x0 > b.x1 || a.y1 < b.y0 || a.y0 > b.y1)
  }

  /** Overlap of the x-intervals alone. */
  predicate XOverlap(a: Box, b: Box)
  {
    !(a.x1 < b.x0 || a.x0 > b.x1)
  }

  predicate Contains(outer: Box, inner: Box)
  {
    outer.x0 <= inner.x0 && outer.y0 <= inner.y0 && inner.x1 <= outer.x1 && inner.y1 <= outer.y1
  }

  lemma IntersectsSymmetric(a: Box, b: Box)
    ensures Intersects(a, b) == Intersects(b, a)
  {
  }

  /** Growing a box never loses an intersection; in particular the x-overlap
      test is implied by intersection with any enlargement of the box. */
  lemma IntersectsGrow(a: Box, a': Box, b: Box)
    requires Intersects(a, b) && Contains(a', a)
    ensures Intersects(a', b) && XOverlap(a', b)
  {
  }

  lemma ContainsTransitive(a: Box, b: Box, c: Box)
    requires Contains(a, b) && Contains(b, c)
    ensures Contains(a, c)
  {
  }

  /** Componentwise min/max of two boxes: the least box containing both. */
  function Join(a: Box, b: Box): (r: Box)
    ensures Contains(r, a) && Contains(r, b)
    ensures forall c: Box :: Contains(c, a) && Contains(c, b) ==> Contains(c, r)
  {
    Box(Min(a.x0, b.x0), Min(a.y0, b.y0), Max(a.x1, b.x1), Max(a.y1, b.y1))
  }

  /** b is the tight union of bs: it encloses every box and each of its four
      coordinates is attained by one of them. */
  ghost predicate IsHullOf(b: Box, bs: seq<Box>)
  {
    && (forall i :: 0 <= i < |bs| ==> Contains(b, bs[i]))
    && (exists i :: 0 <= i < |bs| && bs[i].x0 == b.x0)
    && (exists i :: 0 <= i < |bs| && bs[i].y0 == b.y0)
    && (exists i :: 0 <= i < |bs| && bs[i].x1 == b.x1)
    && (exists i :: 0 <= i < |bs| && bs[i].y1 == b.y1)
  }

  /** The componentwise min/max over a non-empty list of boxes. */
  function Hull(bs: seq<Box>): (r: Box)
    requires |bs| > 0
    ensures IsHullOf(r, bs)
  {
    if |bs| == 1 then bs[0]
    else
      var h := Hull(bs[..|bs| - 1]);
      var last := bs[|bs| - 1];
      assert forall i :: 0 <= i < |bs| - 1 ==> bs[..|bs| - 1][i] == bs[i];
      Join(h, last)
  }

  /** The hull is determined by the boxes it encloses. */
  lemma HullUnique(a: Box, b: Box, bs: seq<Box>)
    requires IsHullOf(a, bs) && IsHullOf(b, bs)
    ensures a == b
  {
    var i :| 0 <= i < |bs| && bs[i].x0 == a.x0;
    var j :| 0 <= j < |bs| && bs[j].x0 == b.x0;
    assert Contains(a, bs[j]) && Contains(b, bs[i]);
    var k :| 0 <= k < |bs| && bs[k].y0 == a.y0;
    var l :| 0 <= l < |bs| && bs[l].y0 == b.y0;
    assert Contains(a, bs[l]) && Contains(b, bs[k]);
    var m :| 0 <= m < |bs| && bs[m].x1 == a.x1;
    var n :| 0 <= n < |bs| && bs[n].x1 == b.x1;
    assert Contains(a, bs[n]) && Contains(b, bs[m]);
    var p :| 0 <= p < |bs| && bs[p].y1 == a.y1;
    var q :| 0 <= q < |bs| && bs[q].y1 == b.y1;
    assert Contains(a, bs[q]) && Contains(b, bs[p]);
  }

  /** The hull depends only on which boxes occur, not on their order or repetition. */
  lemma HullSameMembers(b: Box, bs: seq<Box>, cs: seq<Box>)
    requires IsHullOf(b, bs)
    requires forall x :: x in bs <==> x in cs
    ensures IsHullOf(b, cs)
  {
    forall j | 0 <= j < |cs| ensures Contains(b, cs[j]) {
      assert cs[j] in bs;
    }
    var i0 :| 0 <= i0 < |bs| && bs[i0].x0 == b.x0;
    assert bs[i0] in cs;
    var i1 :| 0 <= i1 < |bs| && bs[i1].y0 == b.y0;
    assert bs[i1] in cs;
    var i2 :| 0 <= i2 < |bs| && bs[i2].x1 == b.x1;
    assert bs[i2] in cs;
    var i3 :| 0 <= i3 < |bs| && bs[i3].y1 == b.y1;
    assert bs[i3] in cs;
  }

  /** Padding about the centre: the width is multiplied by x and the height by y,
      each side moving outward by half the growth. */
  function Scale(b: Box, x: real, y: real): (r: Box)
    ensures Width(r) == Width(b) * x && Height(r) == Height(b) * y
    ensures r.x0 + r.x1 == b.x0 + b.x1 && r.y0 + r.y1 == b.y0 + b.y1
    ensures x == 1.0 && y == 1.0 ==> r == b
  {
    var width := b.x1 - b.x0;
    var height := b.y1 - b.y0;
    var newWidth := width * x;
    var newHeight := height * y;
    Box(b.x0 - (newWidth - width) / 2.0, b.y0 - (newHeight - height) / 2.0,
        b.x1 + (newWidth - width) / 2.0, b.y1 + (newHeight - height) / 2.0)
  }

  /** The four corners, top-left, top-right, bottom-left, bottom-right:
      bit 0 of the index picks x1 over x0, bit 1 picks y1 over y0. */
  function Corners(b: Box): (r: seq<Point>)
    ensures |r| == 4
    ensures forall i :: 0 <= i < 4 ==>
      r[i].x == (if i % 2 == 0 then b.x0 else b.x1) && r[i].y == (if i < 2 then b.y0 else b.y1)
  {
    [Point(b.x0, b.y0), Point(b.x1, b.y0), Point(b.x0, b.y1), Point(b.x1, b.y1)]
  }

  function Square(a: real): (r: real)
    ensures r >= 0.0
  {
    a * a
  }

  /** `wcoef * dx^2 + hcoef * dy^2`, the square of the weighted Euclidean distance. */
  function WeightedDistSq(p: Point, q: Point, wcoef: real, hcoef: real): (r: real)
    ensures wcoef >= 0.0 && hcoef >= 0.0 ==> r >= 0.0
    ensures p == q ==> r == 0.0
  {
    var dx := Square(p.x - q.x);
    var dy := Square(p.y - q.y);
    assert wcoef >= 0.0 ==> wcoef * dx >= 0.0;
    assert hcoef >= 0.0 ==> hcoef * dy >= 0.0;
    wcoef * dx + hcoef * dy
  }

  lemma WeightedDistSqSymmetric(p: Point, q: Point, wcoef: real, hcoef: real)
    ensures WeightedDistSq(p, q, wcoef, hcoef) == WeightedDistSq(q, p, wcoef, hcoef)
  {
    assert Square(p.x - q.x) == Square(q.x - p.x);
    assert Square(p.y - q.y) == Square(q.y - p.y);
  }

  function Centroid(b: Box): Point
  {
    Point((b.x0 + b.x1) / 2.0, (b.y0 + b.y1) / 2.0)
  }

  /** Weighted squared distance from corner i of b1 to corner j of b2. */
  function PairDistSq(b1: Box, b2: Box, wcoef: real, hcoef: real, i: nat, j: nat): real
    requires i < 4 && j < 4
  {
    WeightedDistSq(Corners(b1)[i], Corners(b2)[j], wcoef, hcoef)
  }

  /** d is the least of the 16 corner-pair distances: no pair is closer, and some pair is that close. */
  ghost predicate IsMinCornerDistanceSq(b1: Box, b2: Box, wcoef: real, hcoef: real, d: real)
  {
    && (forall i: nat, j: nat | i < 4 && j < 4 :: d <= PairDistSq(b1, b2, wcoef, hcoef, i, j))
    && (exists i: nat, j: nat | i < 4 && j < 4 :: d == PairDistSq(b1, b2, wcoef, hcoef, i, j))
  }

  /** The nested corner loop shared by the `min_bbox_distance` variants. */
  method MinCornerDistanceSq(b1: Box, b2: Box, wcoef: real, hcoef: real) returns (d: real)
    ensures IsMinCornerDistanceSq(b1, b2, wcoef, hcoef, d)
  {
    var corners1 := Corners(b1);
    var corners2 := Corners(b2);
    var minDistance := Infinity;
    for i := 0 to 4
      invariant minDistance.Infinity? <==> i == 0
      invariant minDistance.Finite? ==>
        forall a: nat, c: nat | a < i && c < 4 :: minDistance.value <= PairDistSq(b1, b2, wcoef, hcoef, a, c)
      invariant minDistance.Finite? ==>
        exists a: nat, c: nat | a < i && c < 4 :: minDistance.value == PairDistSq(b1, b2, wcoef, hcoef, a, c)
    {
      for j := 0 to 4
        invariant minDistance.Infinity? <==> i == 0 && j == 0
        invariant minDistance.Finite? ==>
          forall a: nat, c: nat | (a < i && c < 4) || (a == i && c < j) ::
            minDistance.value <= PairDistSq(b1, b2, wcoef, hcoef, a, c)
        invariant minDistance.Finite? ==>
          exists a: nat, c: nat | (a < i && c < 4) || (a == i && c < j) ::
            minDistance.value == PairDistSq(b1, b2, wcoef, hcoef, a, c)
      {
        var distance := WeightedDistSq(corners1[i], corners2[j], wcoef, hcoef);
        assert distance == PairDistSq(b1, b2, wcoef, hcoef, i, j);
        if Below(distance, minDistance) {
          minDistance := Finite(distance);
        }
      }
    }
    d := minDistance.value;
  }

  /** The minimum corner distance does not depend on the order of the two boxes. */
  lemma MinCornerDistanceSymmetric(b1: Box, b2: Box, wcoef: real, hcoef: real, d: real)
    requires IsMinCornerDistanceSq(b1, b2, wcoef, hcoef, d)
    ensures IsMinCornerDistanceSq(b2, b1, wcoef, hcoef, d)
  {
    forall i: nat, j: nat | i < 4 && j < 4
      ensures PairDistSq(b2, b1, wcoef, hcoef, i, j) == PairDistSq(b1, b2, wcoef, hcoef, j, i)
    {
      WeightedDistSqSymmetric(Corners(b2)[i], Corners(b1)[j], wcoef, hcoef);
    }
    var i: nat, j: nat :| i < 4 && j < 4 && d == PairDistSq(b1, b2, wcoef, hcoef, i, j);
    assert d == PairDistSq(b2, b1, wcoef, hcoef, j, i);
  }

  /** Two characterisations of the minimum agree. */
  lemma MinCornerDistanceUnique(b1: Box, b2: Box, wcoef: real, hcoef: real, d: real, e: real)
    requires IsMinCornerDistanceSq(b1, b2, wcoef, hcoef, d)
    requires IsMinCornerDistanceSq(b1, b2, wcoef, hcoef, e)
    ensures d == e
  {
    var i: nat, j: nat :| i < 4 && j < 4 && d == PairDistSq(b1, b2, wcoef, hcoef, i, j);
    var k: nat, l: nat :| k < 4 && l < 4 && e == PairDistSq(b1, b2, wcoef, hcoef, k, l);
    assert e <= PairDistSq(b1, b2, wcoef, hcoef, i, j);
    assert d <= PairDistSq(b1, b2, wcoef, hcoef, k, l);
  }
}
