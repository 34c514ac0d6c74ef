/** The layout steps of the `main2.py` script. Its clusters carry only a box,
    its padding uses fixed factors, and its merge is the first-fit pass of
    `main.py` on boxes alone. */
module Main2Script {
  import opened Geometry
  import opened Collections
  import opened Labelling
  import opened Words
  import PdfMage

  // ----- extend_coordinates -----

  /** The padded word: the box grows by a fifth in each direction and each
      side then moves 0.075 of the grown size outward, which is 0.09 of the
      original size, so the box is scaled by 1.18 about its centre. */
  function PadWord(w: WordInfo): (r: WordInfo)
    ensures r.text == w.text && r.size == w.size
    ensures BoxOf(r) == Scale(BoxOf(w), 1.18, 1.18)
  {
    var width := (w.x1 - w.x0) * 1.2;
    var height := (w.y1 - w.y0) * 1.2;
    w.(x0 := w.x0 - width * 0.075, y0 := w.y0 - height * 0.075,
       x1 := w.x1 + width * 0.075, y1 := w.y1 + height * 0.075)
  }

  /** Each side moves out by 0.09 of the original width or height; the
      centre stays put. */
  lemma PadWordSides(w: WordInfo)
    ensures var r := PadWord(w);
      && w.x0 - r.x0 == 0.09 * (w.x1 - w.x0) && r.x1 - w.x1 == 0.09 * (w.x1 - w.x0)
      && w.y0 - r.y0 == 0.09 * (w.y1 - w.y0) && r.y1 - w.y1 == 0.09 * (w.y1 - w.y0)
      && r.x0 + r.x1 == w.x0 + w.x1 && r.y0 + r.y1 == w.y0 + w.y1
  {
  }

  /** Rewrites every word's box in place and returns the words in their order. */
  method ExtendCoordinates(words: array<WordInfo>) returns (extended: seq<WordInfo>)
    modifies words
    ensures forall i :: 0 <= i < words.Length ==> words[i] == PadWord(old(words[i]))
    ensures extended == words[..]
  {
    extended := [];
    for i := 0 to words.Length
      invariant forall k :: 0 <= k < i ==> words[k] == PadWord(old(words[k]))
      invariant forall k :: i <= k < words.Length ==> words[k] == old(words[k])
      invariant extended == words[..i]
    {
      var word := words[i];
      var width := word.x1 - word.x0;
      var height := word.y1 - word.y0;
      width := width * 1.2;
      height := height * 1.2;
      words[i] := word.(x0 := word.x0 - width * 0.075, y0 := word.y0 - height * 0.075,
                        x1 := word.x1 + width * 0.075, y1 := word.y1 + height * 0.075);
      extended := extended + [words[i]];
    }
  }

  // ----- weighted_metric -----

  /** `weighted_metric` of this script: 2 dx^2 + 4 dy^2, the square of the distance. */
  function WeightedMetricSq(a: Point, b: Point): (r: real)
    ensures r >= 0.0
    ensures a == b ==> r == 0.0
  {
    var dx := a.x - b.x;
    var dy := a.y - b.y;
    2.0 * Square(dx) + 4.0 * Square(dy)
  }

  lemma WeightedMetricSymmetric(a: Point, b: Point)
    ensures WeightedMetricSq(a, b) == WeightedMetricSq(b, a)
  {
    assert Square(a.x - b.x) == Square(b.x - a.x);
    assert Square(a.y - b.y) == Square(b.y - a.y);
  }

  // ----- cluster_words -----

  /** The post-processing of `cluster_words`: one box per distinct non-noise
      label, the min/max of that label's word coordinates. */
  method ClusterWords(words: seq<WordInfo>, labels: seq<int>, order: seq<int>) returns (boxes: seq<Box>)
    requires |words| == |labels| && IsSetOrder(order, labels)
    ensures |boxes| == |Visited(order)|
    ensures forall k :: 0 <= k < |boxes| ==>
      IsHullOf(boxes[k], PdfMage.WordBoxes(Select(words, labels, Visited(order)[k])))
  {
    boxes := [];
    ghost var visited: seq<int> := [];
    for i := 0 to |order|
      invariant visited == Visited(order[..i])
      invariant forall l :: l in visited ==> l in labels
      invariant HullsFor(boxes, words, labels, visited)
    {
      var clusterLabel := order[i];
      PdfMage.VisitedStep(order, i, labels);
      if clusterLabel != Noise {
        var box := PdfMage.LabelBox(words, labels, clusterLabel);
        AppendHull(boxes, box, words, labels, visited, clusterLabel);
        boxes := boxes + [box];
        visited := visited + [clusterLabel];
      }
    }
    assert order[..|order|] == order;
  }

  /** Each box is the hull of the word boxes of the corresponding label of visit. */
  ghost predicate HullsFor(boxes: seq<Box>, words: seq<WordInfo>, labels: seq<int>, visit: seq<int>)
    requires |words| == |labels|
  {
    |boxes| == |visit| &&
    forall k :: 0 <= k < |boxes| ==> IsHullOf(boxes[k], PdfMage.WordBoxes(Select(words, labels, visit[k])))
  }

  lemma AppendHull(boxes: seq<Box>, box: Box, words: seq<WordInfo>, labels: seq<int>, visit: seq<int>, l: int)
    requires |words| == |labels| && l in labels
    requires HullsFor(boxes, words, labels, visit)
    requires IsHullOf(box, PdfMage.WordBoxes(Select(words, labels, l)))
    ensures HullsFor(boxes + [box], words, labels, visit + [l])
  {
    forall k | 0 <= k < |boxes| + 1
      ensures IsHullOf((boxes + [box])[k], PdfMage.WordBoxes(Select(words, labels, (visit + [l])[k])))
    {
      if k < |boxes| {
        assert (boxes + [box])[k] == boxes[k] && (visit + [l])[k] == visit[k];
      }
    }
  }

  // ----- merge_intersecting_clusters -----

  /** The index of the first emitted box that b intersects. */
  function FirstIntersecting(b: Box, ms: seq<Box>): (r: Option<nat>)
    ensures r.Some? ==> r.value < |ms| && Intersects(b, ms[r.value])
    ensures r.Some? ==> forall k :: 0 <= k < r.value ==> !Intersects(b, ms[k])
    ensures r.None? <==> forall k :: 0 <= k < |ms| ==> !Intersects(b, ms[k])
  {
    if |ms| == 0 then None
    else if Intersects(b, ms[0]) then Some(0)
    else
      var rest := FirstIntersecting(b, ms[1..]);
      assert forall k :: 0 < k < |ms| ==> ms[k] == ms[1..][k - 1];
      if rest.None? then None else Some(rest.value + 1)
  }

  /** One step: grow the first intersecting emitted box to include b, or emit b. */
  function Place(ms: seq<Box>, b: Box): seq<Box>
  {
    match FirstIntersecting(b, ms)
    case Some(i) => ms[i := Join(ms[i], b)]
    case None => ms + [b]
  }

  function FirstFit(bs: seq<Box>): seq<Box>
  {
    if |bs| == 0 then [] else Place(FirstFit(bs[..|bs| - 1]), bs[|bs| - 1])
  }

  method MergeIntersectingClusters(clusters: seq<Box>) returns (merged: seq<Box>)
    ensures merged == FirstFit(clusters)
  {
    merged := [];
    for i := 0 to |clusters|
      invariant merged == FirstFit(clusters[..i])
    {
      var cluster := clusters[i];
      assert clusters[..i + 1][..i] == clusters[..i];
      var found := false;
      var j := 0;
      while j < |merged| && !found
        invariant 0 <= j <= |merged|
        invariant found ==> j < |merged| && FirstIntersecting(cluster, merged) == Some(j)
        invariant !found ==> forall k :: 0 <= k < j ==> !Intersects(cluster, merged[k])
        decreases |merged| - j, !found
      {
        var m := merged[j];
        if !(cluster.x1 < m.x0 || cluster.x0 > m.x1 || cluster.y1 < m.y0 || cluster.y0 > m.y1) {
          found := true;
          var first := FirstIntersecting(cluster, merged);
          assert first.Some? && first.value == j;
        } else {
          j := j + 1;
        }
      }
      if found {
        var m := merged[j];
        merged := merged[j := Box(Min(m.x0, cluster.x0), Min(m.y0, cluster.y0),
                                  Max(m.x1, cluster.x1), Max(m.y1, cluster.y1))];
      } else {
        merged := merged + [cluster];
      }
    }
    assert clusters[..|clusters|] == clusters;
  }

  /** A placement adds at most one box, only grows boxes, and leaves b inside one. */
  lemma PlaceGrows(ms: seq<Box>, b: Box)
    ensures |ms| <= |Place(ms, b)| <= |ms| + 1
    ensures forall k :: 0 <= k < |ms| ==> Contains(Place(ms, b)[k], ms[k])
    ensures exists k :: 0 <= k < |Place(ms, b)| && Contains(Place(ms, b)[k], b)
  {
    var r := Place(ms, b);
    match FirstIntersecting(b, ms)
    case Some(i) =>
      assert Contains(r[i], b);
    case None =>
      assert r[|ms|] == b;
  }

  /** The output is no longer than the input, and every input box lies inside
      some output box. */
  lemma {:induction false} FirstFitCovers(bs: seq<Box>)
    ensures |FirstFit(bs)| <= |bs|
    ensures forall k :: 0 <= k < |bs| ==> exists j :: 0 <= j < |FirstFit(bs)| && Contains(FirstFit(bs)[j], bs[k])
  {
    if |bs| > 0 {
      var front := bs[..|bs| - 1];
      var b := bs[|bs| - 1];
      FirstFitCovers(front);
      assert FirstFit(bs) == Place(FirstFit(front), b);
      PlaceGrows(FirstFit(front), b);
      forall k | 0 <= k < |bs| - 1
        ensures exists j :: 0 <= j < |FirstFit(bs)| && Contains(FirstFit(bs)[j], bs[k])
      {
        var j :| 0 <= j < |FirstFit(front)| && Contains(FirstFit(front)[j], front[k]);
        assert front[k] == bs[k];
        ContainsTransitive(FirstFit(bs)[j], FirstFit(front)[j], bs[k]);
      }
    }
  }
}
