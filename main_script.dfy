/** The layout steps of the earlier `main.py` script. Clusters and columns
    there are plain dictionaries; here they are values. Its merge is a single
    first-fit pass into the emitted list, unlike the worklist merge of PdfMage. */
module MainScript {
  import opened Geometry
  import Sorting
  import opened Collections
  import opened Labelling
  import opened Words
  import MageFunctions
  import PdfMage

  /** `{'coordinates': {...}, 'words': [...]}` */
  datatype Cluster = Cluster(box: Box, words: seq<WordInfo>)

  /** `{'coordinates': {...}, 'clusters': [...]}` */
  datatype Column = Column(box: Box, clusters: seq<Cluster>)

  // ----- euclidean_distance, min_bbox_distance -----

  /** `euclidean_distance` with this script's defaults wcoef = hcoef = 1, squared. */
  function EuclideanDistanceSq(p: Point, q: Point, wcoef: real := 1.0, hcoef: real := 1.0): (r: real)
    ensures wcoef >= 0.0 && hcoef >= 0.0 ==> r >= 0.0
    ensures p == q ==> r == 0.0
  {
    WeightedDistSq(p, q, wcoef, hcoef)
  }

  /** With the default weights this is the plain point metric of the package. */
  lemma EuclideanDistanceUnitWeights(p: Point, q: Point)
    ensures EuclideanDistanceSq(p, q) == MageFunctions.CustomMetricSq(p, q)
    ensures EuclideanDistanceSq(p, q) == EuclideanDistanceSq(q, p)
  {
    WeightedDistSqSymmetric(p, q, 1.0, 1.0);
  }

  /** `min_bbox_distance` of this script: the corner loop with unit weights. */
  method MinBboxDistanceSq(b1: Box, b2: Box) returns (d: real)
    ensures IsMinCornerDistanceSq(b1, b2, 1.0, 1.0, d)
  {
    d := MinCornerDistanceSq(b1, b2, 1.0, 1.0);
  }

  /** Two 10x10 boxes side by side with a gap of 2: the nearest corners are
      (10, 0) and (12, 0), so the distance is 2 and its square 4. */
  lemma MinBboxDistanceExample(d: real)
    requires IsMinCornerDistanceSq(Box(0.0, 0.0, 10.0, 10.0), Box(12.0, 0.0, 22.0, 10.0), 1.0, 1.0, d)
    ensures d == 4.0
  {
    var b1 := Box(0.0, 0.0, 10.0, 10.0);
    var b2 := Box(12.0, 0.0, 22.0, 10.0);
    forall i: nat, j: nat | i < 4 && j < 4 ensures 4.0 <= PairDistSq(b1, b2, 1.0, 1.0, i, j) {
      var p := Corners(b1)[i];
      var q := Corners(b2)[j];
      assert q.x - p.x >= 2.0;
      assert Square(p.x - q.x) == (q.x - p.x) * (q.x - p.x);
      assert (q.x - p.x) * (q.x - p.x) >= 2.0 * (q.x - p.x);
    }
    assert PairDistSq(b1, b2, 1.0, 1.0, 1, 0) == 4.0;
    MinCornerDistanceUnique(b1, b2, 1.0, 1.0, d, 4.0);
  }

  // ----- cluster_words -----

  /** The cluster `cluster_words` builds for label l: the label's min/max
      box and every word inside it. */
  function ClusterFor(words: seq<WordInfo>, labels: seq<int>, l: int): Cluster
    requires |words| == |labels| && l in labels
  {
    var box := PdfMage.LabelBox(words, labels, l);
    Cluster(box, PdfMage.Within(words, box))
  }

  lemma {:induction false} WithinSplit(a: seq<WordInfo>, b: seq<WordInfo>, box: Box)
    ensures PdfMage.Within(a + b, box) == PdfMage.Within(a, box) + PdfMage.Within(b, box)
  {
    if |a| == 0 {
      assert a + b == b;
    } else {
      assert (a + b)[1..] == a[1..] + b;
      WithinSplit(a[1..], b, box);
    }
  }

  /** A single word is kept exactly when it lies in the box. */
  lemma WithinOne(w: WordInfo, box: Box)
    ensures PdfMage.Within([w], box) == if Contains(box, BoxOf(w)) then [w] else []
  {
    assert [w][1..] == [];
  }

  /** The inner loop of `cluster_words`: append each word lying in the box. */
  method WordsInside(words: seq<WordInfo>, box: Box) returns (inside: seq<WordInfo>)
    ensures inside == PdfMage.Within(words, box)
  {
    inside := [];
    for j := 0 to |words|
      invariant inside == PdfMage.Within(words[..j], box)
    {
      var word := words[j];
      WithinSplit(words[..j], [word], box);
      WithinOne(word, box);
      assert words[..j + 1] == words[..j] + [word];
      if word.x0 >= box.x0 && word.x1 <= box.x1 && word.y0 >= box.y0 && word.y1 <= box.y1 {
        inside := inside + [word];
      }
    }
    assert words[..|words|] == words;
  }

  /** The post-processing of `cluster_words` for a given labelling: one
      cluster per distinct non-noise label, in the set's order. */
  method ClusterWords(words: seq<WordInfo>, labels: seq<int>, order: seq<int>) returns (clusters: seq<Cluster>)
    requires |words| == |labels| && IsSetOrder(order, labels)
    ensures |clusters| == |Visited(order)|
    ensures forall k :: 0 <= k < |clusters| ==> clusters[k] == ClusterFor(words, labels, Visited(order)[k])
  {
    clusters := [];
    ghost var visited: seq<int> := [];
    for i := 0 to |order|
      invariant visited == Visited(order[..i])
      invariant forall l :: l in visited ==> l in labels
      invariant ClustersForLabels(clusters, words, labels, visited)
    {
      var clusterLabel := order[i];
      PdfMage.VisitedStep(order, i, labels);
      if clusterLabel != Noise {
        var box := PdfMage.LabelBox(words, labels, clusterLabel);
        var clusterWords := WordsInside(words, box);
        AppendClusterFor(clusters, Cluster(box, clusterWords), words, labels, visited, clusterLabel);
        clusters := clusters + [Cluster(box, clusterWords)];
        visited := visited + [clusterLabel];
      }
    }
    assert order[..|order|] == order;
  }

  /** cs holds, in order, the clusters for the labels of visit. */
  ghost predicate ClustersForLabels(cs: seq<Cluster>, words: seq<WordInfo>, labels: seq<int>, visit: seq<int>)
    requires |words| == |labels| && forall m :: m in visit ==> m in labels
  {
    |cs| == |visit| && forall k :: 0 <= k < |cs| ==> cs[k] == ClusterFor(words, labels, visit[k])
  }

  lemma AppendClusterFor(cs: seq<Cluster>, c: Cluster, words: seq<WordInfo>, labels: seq<int>, visit: seq<int>, l: int)
    requires |words| == |labels| && l in labels && forall m :: m in visit ==> m in labels
    requires ClustersForLabels(cs, words, labels, visit) && c == ClusterFor(words, labels, l)
    ensures ClustersForLabels(cs + [c], words, labels, visit + [l])
  {
    forall k | 0 <= k < |cs| + 1 ensures (cs + [c])[k] == ClusterFor(words, labels, (visit + [l])[k]) {
      if k < |cs| {
        assert (cs + [c])[k] == cs[k] && (visit + [l])[k] == visit[k];
      }
    }
  }

  /** Every word with label l is a member of that label's cluster. */
  lemma ClusterForHoldsLabel(words: seq<WordInfo>, labels: seq<int>, l: int, i: int)
    requires |words| == |labels| && 0 <= i < |words| && labels[i] == l
    ensures l in labels && words[i] in ClusterFor(words, labels, l).words
  {
    PdfMage.LabelWordsWithin(words, labels, l, i);
  }

  // ----- get_clusters_bounding_box -----

  function ClusterBoxes(cs: seq<Cluster>): (r: seq<Box>)
    ensures |r| == |cs| && forall i :: 0 <= i < |cs| ==> r[i] == cs[i].box
  {
    seq(|cs|, i requires 0 <= i < |cs| => cs[i].box)
  }

  /** The min/max over the cluster boxes; `min` fails on an empty list, None here. */
  function GetClustersBoundingBox(cs: seq<Cluster>): (r: Option<Box>)
    ensures r.None? <==> |cs| == 0
    ensures r.Some? ==> IsHullOf(r.value, ClusterBoxes(cs))
  {
    if |cs| == 0 then None else Some(Hull(ClusterBoxes(cs)))
  }

  // ----- extend_coordinates -----

  /** Replaces each word's box by its padded box, in place, and returns the
      words in their order. */
  method ExtendCoordinates(words: array<WordInfo>, x: real := 1.0, y: real := 1.0) returns (extended: seq<WordInfo>)
    modifies words
    ensures forall i :: 0 <= i < words.Length ==> words[i] == PdfMage.ExtendWord(old(words[i]), x, y)
    ensures extended == words[..]
  {
    extended := [];
    for i := 0 to words.Length
      invariant forall k :: 0 <= k < i ==> words[k] == PdfMage.ExtendWord(old(words[k]), x, y)
      invariant forall k :: i <= k < words.Length ==> words[k] == old(words[k])
      invariant extended == words[..i]
    {
      var word := words[i];
      var width := word.x1 - word.x0;
      var height := word.y1 - word.y0;
      var newWidth := width * x;
      var newHeight := height * y;
      words[i] := word.(x0 := word.x0 - (newWidth - width) / 2.0, y0 := word.y0 - (newHeight - height) / 2.0,
                        x1 := word.x1 + (newWidth - width) / 2.0, y1 := word.y1 + (newHeight - height) / 2.0);
      assert words[i] == PdfMage.ExtendWord(word, x, y);
      assert words[..i + 1] == words[..i] + [words[i]];
      extended := extended + [words[i]];
    }
  }

  // ----- merge_intersecting_clusters -----

  /** The index of the first emitted cluster whose current box intersects c. */
  function FirstIntersecting(c: Cluster, ms: seq<Cluster>): (r: Option<nat>)
    ensures r.Some? ==> r.value < |ms| && Intersects(c.box, ms[r.value].box)
    ensures r.Some? ==> forall k :: 0 <= k < r.value ==> !Intersects(c.box, ms[k].box)
    ensures r.None? <==> forall k :: 0 <= k < |ms| ==> !Intersects(c.box, ms[k].box)
  {
    if |ms| == 0 then None
    else if Intersects(c.box, ms[0].box) then Some(0)
    else
      var rest := FirstIntersecting(c, ms[1..]);
      assert forall k :: 0 < k < |ms| ==> ms[k] == ms[1..][k - 1];
      if rest.None? then None else Some(rest.value + 1)
  }

  /** The receiver grows to the min/max of both boxes and gets c's words appended. */
  function Absorb(m: Cluster, c: Cluster): (r: Cluster)
    ensures Contains(r.box, m.box) && Contains(r.box, c.box)
    ensures r.words == m.words + c.words
  {
    Cluster(Join(m.box, c.box), m.words + c.words)
  }

  /** One step of the pass: attach c to the first intersecting emitted cluster,
      or emit it. */
  function Place(ms: seq<Cluster>, c: Cluster): (r: seq<Cluster>)
  {
    match FirstIntersecting(c, ms)
    case Some(i) => ms[i := Absorb(ms[i], c)]
    case None => ms + [c]
  }

  /** The emitted list after the pass has seen all of cs. */
  function FirstFit(cs: seq<Cluster>): (r: seq<Cluster>)
  {
    if |cs| == 0 then [] else Place(FirstFit(cs[..|cs| - 1]), cs[|cs| - 1])
  }

  method MergeIntersectingClusters(clusters: seq<Cluster>) returns (merged: seq<Cluster>)
    ensures merged == FirstFit(clusters)
  {
    merged := [];
    for i := 0 to |clusters|
      invariant merged == FirstFit(clusters[..i])
    {
      var cluster := clusters[i];
      assert clusters[..i + 1][..i] == clusters[..i];
      var found := false;
      var j := 0;
      while j < |merged| && !found
        invariant 0 <= j <= |merged|
        invariant found ==> j < |merged| && FirstIntersecting(cluster, merged) == Some(j)
        invariant !found ==> forall k :: 0 <= k < j ==> !Intersects(cluster.box, merged[k].box)
        decreases |merged| - j, !found
      {
        var m := merged[j];
        if !(cluster.box.x1 < m.box.x0 || cluster.box.x0 > m.box.x1 ||
             cluster.box.y1 < m.box.y0 || cluster.box.y0 > m.box.y1) {
          found := true;
          var first := FirstIntersecting(cluster, merged);
          assert first.Some? && first.value == j;
        } else {
          j := j + 1;
        }
      }
      if found {
        var m := merged[j];
        var box := Box(Min(m.box.x0, cluster.box.x0), Min(m.box.y0, cluster.box.y0),
                       Max(m.box.x1, cluster.box.x1), Max(m.box.y1, cluster.box.y1));
        merged := merged[j := Cluster(box, m.words + cluster.words)];
      } else {
        merged := merged + [cluster];
      }
    }
    assert clusters[..|clusters|] == clusters;
  }

  /** A placement adds at most one emitted cluster, grows at most one box and
      never shrinks one, and leaves c inside some emitted box. */
  lemma PlaceGrows(ms: seq<Cluster>, c: Cluster)
    ensures |ms| <= |Place(ms, c)| <= |ms| + 1
    ensures forall k :: 0 <= k < |ms| ==> Contains(Place(ms, c)[k].box, ms[k].box)
    ensures exists k :: 0 <= k < |Place(ms, c)| && Contains(Place(ms, c)[k].box, c.box)
    ensures |ms| > 0 ==> |ms[0].words| <= |Place(ms, c)[0].words| && Place(ms, c)[0].words[..|ms[0].words|] == ms[0].words
  {
    var r := Place(ms, c);
    match FirstIntersecting(c, ms)
    case Some(i) =>
      assert Contains(r[i].box, c.box);
      assert |ms[0].words| <= |r[0].words| && r[0].words[..|ms[0].words|] == ms[0].words;
    case None =>
      assert r[|ms|] == c;
  }

  /** The pass emits at most as many clusters as it reads, at least one when
      it reads any, and the first input cluster (grown) leads the output. */
  lemma {:induction false} FirstFitShape(cs: seq<Cluster>)
    ensures |FirstFit(cs)| <= |cs|
    ensures |cs| > 0 ==> |FirstFit(cs)| > 0
    ensures |cs| > 0 ==> Contains(FirstFit(cs)[0].box, cs[0].box)
    ensures |cs| > 0 ==> |cs[0].words| <= |FirstFit(cs)[0].words| && FirstFit(cs)[0].words[..|cs[0].words|] == cs[0].words
  {
    if |cs| > 0 {
      var front := cs[..|cs| - 1];
      FirstFitShape(front);
      PlaceGrows(FirstFit(front), cs[|cs| - 1]);
      if |front| > 0 {
        assert front[0] == cs[0];
        var a := FirstFit(front)[0].words;
        var b := FirstFit(cs)[0].words;
        assert b[..|cs[0].words|] == b[..|a|][..|cs[0].words|];
      }
    }
  }

  /** Every input box ends up inside some emitted box. */
  lemma {:induction false} FirstFitCovers(cs: seq<Cluster>, k: int)
    requires 0 <= k < |cs|
    ensures exists j :: 0 <= j < |FirstFit(cs)| && Contains(FirstFit(cs)[j].box, cs[k].box)
  {
    var front := cs[..|cs| - 1];
    var c := cs[|cs| - 1];
    assert FirstFit(cs) == Place(FirstFit(front), c);
    PlaceGrows(FirstFit(front), c);
    if k < |cs| - 1 {
      FirstFitCovers(front, k);
      var j :| 0 <= j < |FirstFit(front)| && Contains(FirstFit(front)[j].box, front[k].box);
      assert front[k] == cs[k];
      ContainsTransitive(FirstFit(cs)[j].box, FirstFit(front)[j].box, cs[k].box);
      assert 0 <= j < |FirstFit(cs)| && Contains(FirstFit(cs)[j].box, cs[k].box);
    }
  }

  /** All words of a cluster list, cluster by cluster. */
  function AllWords(cs: seq<Cluster>): seq<WordInfo>
  {
    if |cs| == 0 then [] else cs[0].words + AllWords(cs[1..])
  }

  lemma {:induction false} AllWordsAppend(a: seq<Cluster>, b: seq<Cluster>)
    ensures AllWords(a + b) == AllWords(a) + AllWords(b)
  {
    if |a| == 0 {
      assert a + b == b;
    } else {
      assert (a + b)[1..] == a[1..] + b;
      AllWordsAppend(a[1..], b);
    }
  }

  lemma {:induction false} AllWordsUpdate(ms: seq<Cluster>, i: nat, c: Cluster)
    requires i < |ms|
    ensures multiset(AllWords(ms[i := Absorb(ms[i], c)])) == multiset(AllWords(ms)) + multiset(c.words)
  {
    var r := ms[i := Absorb(ms[i], c)];
    if i == 0 {
      assert r[1..] == ms[1..];
    } else {
      assert r[1..] == ms[1..][i - 1 := Absorb(ms[1..][i - 1], c)];
      AllWordsUpdate(ms[1..], i - 1, c);
    }
  }

  /** No word is lost or invented: words are appended without any dedup, so
      the output holds exactly the input's words, each as often. */
  lemma {:induction false} FirstFitWords(cs: seq<Cluster>)
    ensures multiset(AllWords(FirstFit(cs))) == multiset(AllWords(cs))
    ensures |AllWords(FirstFit(cs))| == |AllWords(cs)|
  {
    if |cs| > 0 {
      var front := cs[..|cs| - 1];
      var c := cs[|cs| - 1];
      var ms := FirstFit(front);
      FirstFitWords(front);
      assert cs == front + [c];
      AllWordsAppend(front, [c]);
      assert AllWords([c]) == c.words;
      match FirstIntersecting(c, ms)
      case Some(i) =>
        AllWordsUpdate(ms, i, c);
      case None =>
        AllWordsAppend(ms, [c]);
    }
    assert |AllWords(FirstFit(cs))| == |multiset(AllWords(FirstFit(cs)))|;
  }

  // ----- sort_words_in_clusters -----

  /** Each word paired with its key (y0, x0). */
  function KeyedWords(ws: seq<WordInfo>): (r: seq<(Sorting.Key, WordInfo)>)
    ensures |r| == |ws| && forall i :: 0 <= i < |ws| ==> r[i] == (Sorting.Key(ws[i].y0, ws[i].x0), ws[i])
  {
    seq(|ws|, i requires 0 <= i < |ws| => (Sorting.Key(ws[i].y0, ws[i].x0), ws[i]))
  }

  /** `words.sort(key=lambda word: (y0, x0))`. */
  function SortWords(ws: seq<WordInfo>): seq<WordInfo>
  {
    Sorting.Items(Sorting.SortByKey(KeyedWords(ws)))
  }

  /** The words are ordered by y0, ties broken by x0. */
  lemma SortWordsOrdered(ws: seq<WordInfo>)
    ensures var s := SortWords(ws);
      forall i, j :: 0 <= i < j < |s| ==> s[i].y0 < s[j].y0 || (s[i].y0 == s[j].y0 && s[i].x0 <= s[j].x0)
  {
    var kp := KeyedWords(ws);
    var sp := Sorting.SortByKey(kp);
    Sorting.SortSorted(kp);
    Sorting.SortPermutation(kp);
    forall i | 0 <= i < |sp| ensures sp[i].0 == Sorting.Key(sp[i].1.y0, sp[i].1.x0) {
      assert sp[i] in multiset(kp);
      var m :| 0 <= m < |kp| && kp[m] == sp[i];
    }
    var s := Sorting.Items(sp);
    forall i, j | 0 <= i < j < |s| ensures s[i].y0 < s[j].y0 || (s[i].y0 == s[j].y0 && s[i].x0 <= s[j].x0) {
      assert Sorting.KeyLe(sp[i].0, sp[j].0);
    }
  }

  /** The sort rearranges the words and nothing else. */
  lemma SortWordsPermutation(ws: seq<WordInfo>)
    ensures multiset(SortWords(ws)) == multiset(ws)
  {
    Sorting.SortItems(KeyedWords(ws));
    assert Sorting.Items(KeyedWords(ws)) == ws;
  }

  /** Sorts every cluster's words in place and returns the clusters. */
  method SortWordsInClusters(clusters: array<Cluster>) returns (r: array<Cluster>)
    modifies clusters
    ensures r == clusters
    ensures forall i :: 0 <= i < clusters.Length ==>
      clusters[i] == old(clusters[i]).(words := SortWords(old(clusters[i]).words))
  {
    for i := 0 to clusters.Length
      invariant forall k :: 0 <= k < i ==> clusters[k] == old(clusters[k]).(words := SortWords(old(clusters[k]).words))
      invariant forall k :: i <= k < clusters.Length ==> clusters[k] == old(clusters[k])
    {
      clusters[i] := clusters[i].(words := SortWords(clusters[i].words));
    }
    r := clusters;
  }

  // ----- cluster_columns -----

  function KeyedClusters(cs: seq<Cluster>): (r: seq<(Sorting.Key, Cluster)>)
    ensures |r| == |cs| && forall i :: 0 <= i < |cs| ==> r[i] == (Sorting.Key(cs[i].box.y0, 0.0), cs[i])
  {
    seq(|cs|, i requires 0 <= i < |cs| => (Sorting.Key(cs[i].box.y0, 0.0), cs[i]))
  }

  /** The column for label l: the label's clusters sorted by y0, under their min/max box. */
  function ColumnFor(clusters: seq<Cluster>, labels: seq<int>, l: int): Column
    requires |clusters| == |labels| && l in labels
  {
    var group := Select(clusters, labels, l);
    SelectNonEmpty(clusters, labels, l);
    Column(Hull(ClusterBoxes(group)), Sorting.Items(Sorting.SortByKey(KeyedClusters(group))))
  }

  /** The post-processing of `cluster_columns` for a given labelling of the clusters. */
  method ClusterColumns(clusters: seq<Cluster>, labels: seq<int>, order: seq<int>) returns (columns: seq<Column>)
    requires |clusters| == |labels| && IsSetOrder(order, labels)
    ensures |columns| == |Visited(order)|
    ensures forall k :: 0 <= k < |columns| ==> columns[k] == ColumnFor(clusters, labels, Visited(order)[k])
  {
    columns := [];
    ghost var visited: seq<int> := [];
    for i := 0 to |order|
      invariant visited == Visited(order[..i])
      invariant forall l :: l in visited ==> l in labels
      invariant |columns| == |visited|
      invariant forall k :: 0 <= k < |columns| ==> columns[k] == ColumnFor(clusters, labels, visited[k])
    {
      var columnLabel := order[i];
      PdfMage.VisitedStep(order, i, labels);
      if columnLabel != Noise {
        var columnClusters := Select(clusters, labels, columnLabel);
        SelectNonEmpty(clusters, labels, columnLabel);
        var box := Hull(ClusterBoxes(columnClusters));
        var sorted := Sorting.Items(Sorting.SortByKey(KeyedClusters(columnClusters)));
        AppendColumnFor(columns, Column(box, sorted), clusters, labels, visited, columnLabel);
        columns := columns + [Column(box, sorted)];
        visited := visited + [columnLabel];
      }
    }
    assert order[..|order|] == order;
  }

  lemma AppendColumnFor(columns: seq<Column>, column: Column, clusters: seq<Cluster>, labels: seq<int>,
                        visit: seq<int>, l: int)
    requires |clusters| == |labels| && l in labels && forall m :: m in visit ==> m in labels
    requires |columns| == |visit| && forall k :: 0 <= k < |columns| ==> columns[k] == ColumnFor(clusters, labels, visit[k])
    requires column == ColumnFor(clusters, labels, l)
    ensures forall k :: 0 <= k < |columns| + 1 ==>
      (columns + [column])[k] == ColumnFor(clusters, labels, (visit + [l])[k])
  {
    forall k | 0 <= k < |columns| + 1
      ensures (columns + [column])[k] == ColumnFor(clusters, labels, (visit + [l])[k])
    {
      if k < |columns| {
        assert (columns + [column])[k] == columns[k] && (visit + [l])[k] == visit[k];
      }
    }
  }

  /** A column's clusters are in non-decreasing y0 order and are exactly its
      label's clusters; its box is their min/max. */
  lemma ColumnForCorrect(clusters: seq<Cluster>, labels: seq<int>, l: int)
    requires |clusters| == |labels| && l in labels
    ensures var col := ColumnFor(clusters, labels, l);
      && (forall i, j :: 0 <= i < j < |col.clusters| ==> col.clusters[i].box.y0 <= col.clusters[j].box.y0)
      && multiset(col.clusters) == multiset(Select(clusters, labels, l))
      && IsHullOf(col.box, ClusterBoxes(Select(clusters, labels, l)))
  {
    var group := Select(clusters, labels, l);
    SortedByY0(group);
  }

  /** Sorting a group by the key (y0, 0) orders it by y0 and keeps its clusters. */
  lemma SortedByY0(cs: seq<Cluster>)
    ensures var s := Sorting.Items(Sorting.SortByKey(KeyedClusters(cs)));
      && (forall i, j :: 0 <= i < j < |s| ==> s[i].box.y0 <= s[j].box.y0)
      && multiset(s) == multiset(cs)
  {
    var kp := KeyedClusters(cs);
    SortedKeysAreY0(cs);
    Sorting.SortSorted(kp);
    OrderedByY0(Sorting.SortByKey(kp));
    Sorting.SortItems(kp);
    assert Sorting.Items(kp) == cs;
  }

  /** Each entry is keyed by its cluster's (y0, 0). */
  predicate KeysAreY0(sp: seq<(Sorting.Key, Cluster)>)
  {
    forall i :: 0 <= i < |sp| ==> sp[i].0 == Sorting.Key(sp[i].1.box.y0, 0.0)
  }

  /** After sorting, each key is still its cluster's (y0, 0). */
  lemma SortedKeysAreY0(cs: seq<Cluster>)
    ensures KeysAreY0(Sorting.SortByKey(KeyedClusters(cs)))
  {
    var kp := KeyedClusters(cs);
    var sp := Sorting.SortByKey(kp);
    Sorting.SortPermutation(kp);
    forall i | 0 <= i < |sp| ensures sp[i].0 == Sorting.Key(sp[i].1.box.y0, 0.0) {
      assert sp[i] in multiset(kp);
      var m :| 0 <= m < |kp| && kp[m] == sp[i];
    }
  }

  /** Sorted by keys that are the y0 values means sorted by y0. */
  lemma OrderedByY0(sp: seq<(Sorting.Key, Cluster)>)
    requires Sorting.SortedByKey(sp)
    requires KeysAreY0(sp)
    ensures var s := Sorting.Items(sp); forall i, j :: 0 <= i < j < |s| ==> s[i].box.y0 <= s[j].box.y0
  {
    var s := Sorting.Items(sp);
    forall i, j | 0 <= i < j < |s| ensures s[i].box.y0 <= s[j].box.y0 {
      assert Sorting.KeyLe(sp[i].0, sp[j].0);
    }
  }

  ghost function ColumnClusters(columns: seq<Column>): multiset<Cluster>
  {
    if |columns| == 0 then multiset{} else multiset(columns[0].clusters) + ColumnClusters(columns[1..])
  }

  lemma {:induction false} ColumnsGroups(clusters: seq<Cluster>, labels: seq<int>, visit: seq<int>, columns: seq<Column>)
    requires |clusters| == |labels| && forall l :: l in visit ==> l in labels
    requires |columns| == |visit| && forall k :: 0 <= k < |columns| ==> columns[k] == ColumnFor(clusters, labels, visit[k])
    ensures ColumnClusters(columns) == Groups(clusters, labels, visit)
  {
    if |visit| > 0 {
      assert forall k :: 0 <= k < |columns| - 1 ==> columns[1..][k] == columns[k + 1] && visit[1..][k] == visit[k + 1];
      ColumnsGroups(clusters, labels, visit[1..], columns[1..]);
      ColumnForCorrect(clusters, labels, visit[0]);
    }
  }

  /** The columns partition the non-noise clusters: each lands in exactly one
      column, as often as it occurs in the input. */
  lemma ColumnsPartition(clusters: seq<Cluster>, labels: seq<int>, order: seq<int>, columns: seq<Column>)
    requires |clusters| == |labels| && IsSetOrder(order, labels)
    requires |columns| == |Visited(order)|
    requires forall k :: 0 <= k < |columns| ==> columns[k] == ColumnFor(clusters, labels, Visited(order)[k])
    ensures ColumnClusters(columns) == multiset(SelectAny(clusters, labels, set l | l in labels && l != Noise))
  {
    ColumnsGroups(clusters, labels, Visited(order), columns);
    Partition(clusters, labels, order);
  }
}
