/** The page-layout steps of the `PDFMage` extractor: padding the word boxes,
    turning a labelling of the words into clusters, merging intersecting
    clusters, and grouping clusters into columns. The density clustering
    that produces the labels is an input (see Labelling). */
module PdfMage {
  import Geometry
  import Sorting
  import opened Collections
  import opened Labelling
  import opened Words
  import opened Clusters
  import opened ClusterStates

  // ----- __extend_words_coordinates -----

  /** A word whose box is padded about its centre by factors x and y. */
  function ExtendWord(w: WordInfo, x: real, y: real): (r: WordInfo)
    ensures r.text == w.text && r.size == w.size
    ensures BoxOf(r) == Geometry.Scale(BoxOf(w), x, y)
  {
    var width := w.x1 - w.x0;
    var height := w.y1 - w.y0;
    var newWidth := width * x;
    var newHeight := height * y;
    w.(x0 := w.x0 - (newWidth - width) / 2.0, y0 := w.y0 - (newHeight - height) / 2.0,
       x1 := w.x1 + (newWidth - width) / 2.0, y1 := w.y1 + (newHeight - height) / 2.0)
  }

  /** Pads every word in place and hands back the same list. Each box keeps
      its centre; its width is multiplied by x and its height by y. */
  method ExtendWordsCoordinates(words: array<WordInfo>, x: real := 1.0, y: real := 1.0) returns (r: array<WordInfo>)
    modifies words
    ensures r == words
    ensures forall i :: 0 <= i < words.Length ==> words[i] == ExtendWord(old(words[i]), x, y)
  {
    for i := 0 to words.Length
      invariant forall k :: 0 <= k < i ==> words[k] == ExtendWord(old(words[k]), x, y)
      invariant forall k :: i <= k < words.Length ==> words[k] == old(words[k])
    {
      var word := words[i];
      var width := word.x1 - word.x0;
      var height := word.y1 - word.y0;
      var newWidth := width * x;
      var newHeight := height * y;
      words[i] := word.(x0 := word.x0 - (newWidth - width) / 2.0, y0 := word.y0 - (newHeight - height) / 2.0,
                        x1 := word.x1 + (newWidth - width) / 2.0, y1 := word.y1 + (newHeight - height) / 2.0);
      assert words[i] == ExtendWord(word, x, y);
    }
    r := words;
  }

  /** Padding keeps the centre, scales the sides, and with the default
      factors (1.0, 1.0) changes nothing. */
  lemma ExtendWordGeometry(w: WordInfo, x: real, y: real)
    ensures var e := ExtendWord(w, x, y);
      && e.x1 - e.x0 == (w.x1 - w.x0) * x && e.y1 - e.y0 == (w.y1 - w.y0) * y
      && e.x0 + e.x1 == w.x0 + w.x1 && e.y0 + e.y1 == w.y0 + w.y1
      && (x == 1.0 && y == 1.0 ==> e == w)
  {
    var e := ExtendWord(w, x, y);
    assert Geometry.Width(BoxOf(e)) == Geometry.Width(BoxOf(w)) * x;
    assert Geometry.Height(BoxOf(e)) == Geometry.Height(BoxOf(w)) * y;
  }

  // ----- __get_clusters_bounding_box -----

  function Boxes(cs: seq<WordsCluster>): (r: seq<Geometry.Box>)
    reads set c | c in cs
    ensures |r| == |cs| && forall i :: 0 <= i < |cs| ==> r[i] == cs[i].Box()
  {
    seq(|cs|, i reads set c | c in cs requires 0 <= i < |cs| => cs[i].Box())
  }

  /** The componentwise min/max over the clusters' boxes; `min` of an empty
      sequence raises, which is None here. */
  function ClustersBoundingBox(cs: seq<WordsCluster>): (r: Option<Geometry.Box>)
    reads set c | c in cs
    ensures r.None? <==> |cs| == 0
    ensures r.Some? ==> Geometry.IsHullOf(r.value, Boxes(cs))
  {
    if |cs| == 0 then None else Some(Geometry.Hull(Boxes(cs)))
  }

  // ----- __cluster_words -----

  function WordBoxes(ws: seq<WordInfo>): (r: seq<Geometry.Box>)
    ensures |r| == |ws| && forall i :: 0 <= i < |ws| ==> r[i] == BoxOf(ws[i])
  {
    seq(|ws|, i requires 0 <= i < |ws| => BoxOf(ws[i]))
  }

  /** The min/max box over the coordinates of the words labelled l. */
  function LabelBox(words: seq<WordInfo>, labels: seq<int>, l: int): (r: Geometry.Box)
    requires |words| == |labels| && l in labels
    ensures Geometry.IsHullOf(r, WordBoxes(Select(words, labels, l)))
  {
    SelectNonEmpty(words, labels, l);
    Geometry.Hull(WordBoxes(Select(words, labels, l)))
  }

  /** `[w for w in words if w lies inside box]`, in input order. */
  function Within(words: seq<WordInfo>, box: Geometry.Box): (r: seq<WordInfo>)
    ensures forall w :: w in r <==> w in words && Geometry.Contains(box, BoxOf(w))
  {
    if |words| == 0 then []
    else
      assert forall w :: w in words <==> w == words[0] || w in words[1..];
      (if Geometry.Contains(box, BoxOf(words[0])) then [words[0]] else []) + Within(words[1..], box)
  }

  /** Every word carrying label l lies inside its cluster's box, hence is a
      member of that cluster. */
  lemma LabelWordsWithin(words: seq<WordInfo>, labels: seq<int>, l: int, i: int)
    requires |words| == |labels| && 0 <= i < |words| && labels[i] == l
    ensures words[i] in Within(words, LabelBox(words, labels, l))
  {
    var sel := Select(words, labels, l);
    SelectMember(words, labels, l, words[i]);
    var k :| 0 <= k < |sel| && sel[k] == words[i];
    assert WordBoxes(sel)[k] == BoxOf(words[i]);
  }

  /** c is the cluster `__cluster_words` builds for label l. */
  ghost predicate IsClusterFor(c: WordsCluster, words: seq<WordInfo>, labels: seq<int>, l: int)
    requires |words| == |labels| && l in labels
    reads c
  {
    && c.Box() == LabelBox(words, labels, l)
    && c.words == Within(words, LabelBox(words, labels, l))
    && c.Consistent()
  }

  /** One step of `__cluster_words`: the label's min/max box and the words inside it. */
  method BuildCluster(words: seq<WordInfo>, labels: seq<int>, l: int) returns (cluster: WordsCluster)
    requires |words| == |labels| && l in labels
    ensures fresh(cluster) && IsClusterFor(cluster, words, labels, l)
  {
    var box := LabelBox(words, labels, l);
    var clusterWords := Within(words, box);
    cluster := new WordsCluster(clusterWords, box.x0, box.y0, box.x1, box.y1);
  }

  /** The clusters for the labels in `visit`, in that order. */
  ghost predicate ClustersFor(cs: seq<WordsCluster>, words: seq<WordInfo>, labels: seq<int>, visit: seq<int>)
    requires |words| == |labels| && forall l :: l in visit ==> l in labels
    reads set c | c in cs
  {
    |cs| == |visit| && forall k :: 0 <= k < |cs| ==> IsClusterFor(cs[k], words, labels, visit[k])
  }

  lemma AppendCluster(cs: seq<WordsCluster>, c: WordsCluster, words: seq<WordInfo>, labels: seq<int>,
                      visit: seq<int>, l: int)
    requires |words| == |labels| && l in labels && forall m :: m in visit ==> m in labels
    requires ClustersFor(cs, words, labels, visit) && IsClusterFor(c, words, labels, l)
    requires Distinct(cs) && c !in cs
    ensures ClustersFor(cs + [c], words, labels, visit + [l]) && Distinct(cs + [c])
  {
    var extended := cs + [c];
    forall k | 0 <= k < |extended|
      ensures IsClusterFor(extended[k], words, labels, (visit + [l])[k])
    {
      if k < |cs| {
        assert extended[k] == cs[k] && (visit + [l])[k] == visit[k];
      }
    }
    forall a, b | 0 <= a < b < |extended| ensures extended[a] != extended[b] {
      if b < |cs| {
        assert extended[a] == cs[a] && extended[b] == cs[b];
      }
    }
  }

  lemma VisitedStep(order: seq<int>, i: int, labels: seq<int>)
    requires 0 <= i < |order| && IsSetOrder(order, labels)
    ensures order[i] in labels
    ensures Visited(order[..i + 1]) == Visited(order[..i]) + (if order[i] == Noise then [] else [order[i]])
    ensures forall l :: l in Visited(order[..i + 1]) ==> l in labels
  {
    assert order[..i + 1][..i] == order[..i];
    assert order[i] in order;
    forall l | l in Visited(order[..i + 1]) ensures l in labels {
      assert l in order[..i + 1];
      var k :| 0 <= k < i + 1 && order[..i + 1][k] == l;
      assert order[k] == l;
    }
  }

  /** The post-processing of `__cluster_words` for a given labelling: one new
      cluster per distinct non-noise label, whose box is the min/max of that
      label's coordinates and whose words are all words inside that box. */
  method ClusterWords(words: seq<WordInfo>, labels: seq<int>, order: seq<int>) returns (clusters: seq<WordsCluster>)
    requires |words| == |labels| && IsSetOrder(order, labels)
    ensures ClustersFor(clusters, words, labels, Visited(order))
    ensures Distinct(clusters)
  {
    clusters := [];
    ghost var visited: seq<int> := [];
    for i := 0 to |order|
      invariant visited == Visited(order[..i])
      invariant forall l :: l in visited ==> l in labels
      invariant ClustersFor(clusters, words, labels, visited)
      invariant Distinct(clusters)
    {
      var clusterLabel := order[i];
      VisitedStep(order, i, labels);
      if clusterLabel != Noise {
        var cluster := BuildCluster(words, labels, clusterLabel);
        AppendCluster(clusters, cluster, words, labels, visited, clusterLabel);
        clusters := clusters + [cluster];
        visited := visited + [clusterLabel];
      }
    }
    assert order[..|order|] == order;
  }

  // ----- __merge_intersecting_clusters -----

  function StateOf(c: WordsCluster): State
    reads c
  {
    State(c.words, c.Box(), c.ctype)
  }

  /** The clusters' states, in order. */
  function States(cs: seq<WordsCluster>): (r: seq<State>)
    reads set c | c in cs
    ensures |r| == |cs| && forall i :: 0 <= i < |cs| ==> r[i] == StateOf(cs[i])
  {
    seq(|cs|, i reads set c | c in cs requires 0 <= i < |cs| => StateOf(cs[i]))
  }

  /** The clusters' states as recorded in start, in order. */
  ghost function StartStates(start: map<WordsCluster, State>, cs: seq<WordsCluster>): (r: seq<State>)
    requires forall c :: c in cs ==> c in start
    ensures |r| == |cs| && forall i :: 0 <= i < |cs| ==> r[i] == start[cs[i]]
  {
    seq(|cs|, i requires 0 <= i < |cs| => start[cs[i]])
  }

  /** A cluster that has only grown since state s: its box encloses the old
      one, its old words are a prefix of its words, and a stored type that
      was right is still right. */
  ghost predicate Grown(c: WordsCluster, s: State)
    reads c
  {
    && Geometry.Contains(c.Box(), s.box)
    && |s.words| <= |c.words| && c.words[..|s.words|] == s.words
    && (s.ctype == Signature(s.words) ==> c.Consistent())
  }

  /** `[c for c in cs if the box intersects c]`, in order. */
  function IntersectingWith(box: Geometry.Box, cs: seq<WordsCluster>): (r: seq<WordsCluster>)
    reads set c | c in cs
    ensures forall i :: 0 <= i < |r| ==> r[i] in cs && Geometry.Intersects(box, r[i].Box())
    ensures forall i :: 0 <= i < |cs| && Geometry.Intersects(box, cs[i].Box()) ==> cs[i] in r
    ensures Distinct(cs) ==> Distinct(r)
  {
    if |cs| == 0 then []
    else
      var rest := IntersectingWith(box, cs[1..]);
      assert forall i :: 0 < i < |cs| ==> cs[i] == cs[1..][i - 1];
      assert Distinct(cs) ==> Distinct(cs[1..]) && cs[0] !in cs[1..];
      (if Geometry.Intersects(box, cs[0].Box()) then [cs[0]] else []) + rest
  }

  lemma StartStatesAppend(start: map<WordsCluster, State>, a: seq<WordsCluster>, b: seq<WordsCluster>)
    requires forall c :: c in a ==> c in start
    requires forall c :: c in b ==> c in start
    ensures StartStates(start, a + b) == StartStates(start, a) + StartStates(start, b)
  {
    assert forall c :: c in a + b ==> c in a || c in b;
  }

  lemma StartStatesTail(start: map<WordsCluster, State>, cs: seq<WordsCluster>)
    requires cs != [] && forall c :: c in cs ==> c in start
    ensures StartStates(start, cs)[1..] == StartStates(start, cs[1..])
  {
    assert forall c :: c in cs[1..] ==> c in cs;
  }

  /** The start states of the clusters collected by `IntersectingWith` are
      the start states that box b intersects, while the clusters still have
      their start boxes. */
  lemma {:induction false} HitsBridge(start: map<WordsCluster, State>, cs: seq<WordsCluster>, b: Geometry.Box)
    requires forall c :: c in cs ==> c in start && c.Box() == start[c].box
    ensures StartStates(start, IntersectingWith(b, cs)) == Hits(b, StartStates(start, cs))
  {
    if |cs| > 0 {
      assert forall c :: c in cs[1..] ==> c in cs;
      HitsBridge(start, cs[1..], b);
      var ss := StartStates(start, cs);
      assert ss[1..] == StartStates(start, cs[1..]);
      assert cs[0] in cs && ss[0] == start[cs[0]];
      var head := if Geometry.Intersects(b, cs[0].Box()) then [cs[0]] else [];
      assert IntersectingWith(b, cs) == head + IntersectingWith(b, cs[1..]);
      StartStatesAppend(start, head, IntersectingWith(b, cs[1..]));
    }
  }

  /** Leaving out the intersecting clusters leaves the start states that
      box b misses. */
  lemma {:induction false} MissesBridge(start: map<WordsCluster, State>, cs: seq<WordsCluster>,
                                        hit: seq<WordsCluster>, b: Geometry.Box)
    requires forall c :: c in cs ==> c in start && (c in hit <==> Geometry.Intersects(b, start[c].box))
    ensures StartStates(start, Without(cs, hit)) == Misses(b, StartStates(start, cs))
  {
    if |cs| > 0 {
      assert forall c :: c in cs[1..] ==> c in cs;
      MissesBridge(start, cs[1..], hit, b);
      var ss := StartStates(start, cs);
      assert ss[1..] == StartStates(start, cs[1..]);
      assert cs[0] in cs && ss[0] == start[cs[0]];
      var head := if cs[0] in hit then [] else [cs[0]];
      assert Without(cs, hit) == head + Without(cs[1..], hit);
      StartStatesAppend(start, head, Without(cs[1..], hit));
    }
  }

  /** While the pending clusters still have their start states, the clusters
      the head intersects and those it misses have the start states that
      `Hits` and `Misses` select. */
  lemma RoundStates(clusters: seq<WordsCluster>, start: map<WordsCluster, State>, pending: seq<WordsCluster>,
                    emitted: seq<WordsCluster>, owner: map<WordsCluster, WordsCluster>, hit: seq<WordsCluster>)
    requires pending != [] && forall c :: c in clusters ==> c in start
    requires Bookkeeping(clusters, pending, emitted, owner) && Tracked(clusters, start, emitted, owner)
    requires hit == IntersectingWith(pending[0].Box(), pending[1..])
    ensures Distinct(hit) && forall c :: c in hit ==> c in pending[1..] && Geometry.Intersects(pending[0].Box(), start[c].box)
    ensures StartStates(start, hit) == Hits(start[pending[0]].box, StartStates(start, pending[1..]))
    ensures StartStates(start, Without(pending[1..], hit)) == Misses(start[pending[0]].box, StartStates(start, pending[1..]))
  {
    assert forall c :: c in pending ==> c in start && StateOf(c) == start[c];
    var b := pending[0].Box();
    assert b == start[pending[0]].box;
    assert forall c :: c in pending[1..] ==> c in pending;
    assert Distinct(pending[1..]);
    HitsBridge(start, pending[1..], b);
    MissesBridge(start, pending[1..], hit, b);
  }

  /** One absorption step of the merge: the box becomes the union of both
      boxes and the other cluster's words are added without duplicates. */
  method Absorb(cluster: WordsCluster, other: WordsCluster)
    requires cluster != other
    modifies cluster
    ensures cluster.Box() == Geometry.Join(old(cluster.Box()), other.Box())
    ensures cluster.words == AddNew(old(cluster.words), other.words)
    ensures cluster.Consistent()
  {
    cluster.x0 := Geometry.Min(cluster.x0, other.x0);
    cluster.y0 := Geometry.Min(cluster.y0, other.y0);
    cluster.x1 := Geometry.Max(cluster.x1, other.x1);
    cluster.y1 := Geometry.Max(cluster.y1, other.y1);
    cluster.AddWords(other.words);
  }

  /** The list bookkeeping of the merge: every input cluster is either still
      pending or owned by an emitted cluster; emitted clusters own themselves. */
  ghost predicate Bookkeeping(clusters: seq<WordsCluster>, pending: seq<WordsCluster>,
                              emitted: seq<WordsCluster>, owner: map<WordsCluster, WordsCluster>)
  {
    && Distinct(pending) && Distinct(emitted)
    && (forall c :: c in pending ==> c in clusters)
    && (forall c :: c in emitted ==> c in clusters && c !in pending)
    && (forall c :: c in clusters ==> (c in pending <==> c !in owner))
    && (forall c :: c in owner ==> c in clusters && owner[c] in emitted)
    && (forall c :: c in emitted ==> owner[c] == c)
    && |emitted| + |pending| <= |clusters|
    && (|clusters| > 0 ==> if |emitted| == 0 then pending == clusters else emitted[0] == clusters[0])
  }

  lemma BookkeepingStart(clusters: seq<WordsCluster>)
    requires Distinct(clusters)
    ensures Bookkeeping(clusters, clusters, [], map[])
  {
  }

  /** Popping the first pending cluster emits it. */
  lemma BookkeepingPop(clusters: seq<WordsCluster>, pending: seq<WordsCluster>,
                       emitted: seq<WordsCluster>, owner: map<WordsCluster, WordsCluster>)
    requires Bookkeeping(clusters, pending, emitted, owner) && |pending| > 0
    ensures Bookkeeping(clusters, pending[1..], emitted + [pending[0]], owner[pending[0] := pending[0]])
  {
    var c0 := pending[0];
    assert forall c :: c in pending <==> c == c0 || c in pending[1..];
    assert c0 !in pending[1..];
    assert c0 !in emitted;
    var emitted' := emitted + [c0];
    assert forall c :: c in emitted' <==> c in emitted || c == c0;
    assert Distinct(emitted') by {
      forall a, b | 0 <= a < b < |emitted'| ensures emitted'[a] != emitted'[b] {
        if b < |emitted| {
          assert emitted'[a] == emitted[a] && emitted'[b] == emitted[b];
        } else {
          assert emitted'[a] in emitted;
        }
      }
    }
  }

  /** Absorbing a pending cluster into the last emitted one. */
  lemma BookkeepingAbsorb(clusters: seq<WordsCluster>, pending: seq<WordsCluster>,
                          emitted: seq<WordsCluster>, owner: map<WordsCluster, WordsCluster>, x: WordsCluster)
    requires Bookkeeping(clusters, pending, emitted, owner) && x in pending && |emitted| > 0
    ensures Bookkeeping(clusters, Remove(pending, x), emitted, owner[x := emitted[|emitted| - 1]])
  {
    assert emitted[|emitted| - 1] in emitted;
  }

  /** What the merge keeps true of the clusters themselves: a cluster not
      emitted is as it was at the start, every owned cluster's start box and
      words are inside its owner, and emitted clusters have only grown. */
  ghost predicate Tracked(clusters: seq<WordsCluster>, start: map<WordsCluster, State>,
                          emitted: seq<WordsCluster>, owner: map<WordsCluster, WordsCluster>)
    requires forall c :: c in clusters ==> c in start
    requires forall c :: c in owner ==> c in clusters && owner[c] in clusters
    requires forall c :: c in emitted ==> c in clusters
    reads set c | c in clusters
  {
    && (forall c :: c in clusters && c !in emitted ==> StateOf(c) == start[c])
    && (forall c :: c in owner ==>
          Geometry.Contains(owner[c].Box(), start[c].box) && Covers(owner[c].words, start[c].words))
    && (forall m :: m in emitted ==> Grown(m, start[m]))
  }

  /** The inner loop of one merge round: absorb, in order, each cluster of
      `intersectingClusters` into `cluster`, the last emitted cluster. */
  method AbsorbIntersecting(ghost clusters: seq<WordsCluster>, ghost start: map<WordsCluster, State>,
                            cluster: WordsCluster, intersectingClusters: seq<WordsCluster>,
                            pending0: seq<WordsCluster>, ghost emitted: seq<WordsCluster>,
                            ghost owner0: map<WordsCluster, WordsCluster>)
      returns (pending: seq<WordsCluster>, ghost owner: map<WordsCluster, WordsCluster>)
    requires forall c :: c in clusters ==> c in start
    requires Bookkeeping(clusters, pending0, emitted, owner0) && Tracked(clusters, start, emitted, owner0)
    requires |emitted| > 0 && cluster == emitted[|emitted| - 1]
    requires Distinct(intersectingClusters)
    requires forall c :: c in intersectingClusters ==>
      c in pending0 && Geometry.Intersects(cluster.Box(), start[c].box)
    modifies cluster
    ensures pending == Without(pending0, intersectingClusters)
    ensures StateOf(cluster) == AbsorbAll(old(StateOf(cluster)), StartStates(start, intersectingClusters))
    ensures Bookkeeping(clusters, pending, emitted, owner) && Tracked(clusters, start, emitted, owner)
  {
    pending := pending0;
    owner := owner0;
    ghost var startBox := cluster.Box();
    ghost var s0 := StateOf(cluster);
    assert Without(pending0, []) == pending0 by { WithoutNone(pending0); }
    for k := 0 to |intersectingClusters|
      invariant Bookkeeping(clusters, pending, emitted, owner) && Tracked(clusters, start, emitted, owner)
      invariant forall j :: k <= j < |intersectingClusters| ==> intersectingClusters[j] in pending
      invariant Geometry.Contains(cluster.Box(), startBox)
      invariant pending == Without(pending0, intersectingClusters[..k])
      invariant StateOf(cluster) == AbsorbAll(s0, StartStates(start, intersectingClusters[..k]))
    {
      var intersectingCluster := intersectingClusters[k];
      assert intersectingCluster in pending && intersectingCluster != cluster;
      Geometry.IntersectsGrow(startBox, cluster.Box(), intersectingCluster.Box());
      ghost var before := StateOf(cluster);
      // The x-overlap test of the source; the lemma call above shows it always passes.
      if !(cluster.x1 < intersectingCluster.x0 || cluster.x0 > intersectingCluster.x1) {
        pending, owner := AbsorbPending(clusters, start, cluster, intersectingCluster, pending, emitted, owner);
      }
      AbsorbStep(start, intersectingClusters, k, pending0, s0, before, StateOf(cluster));
    }
    assert intersectingClusters[..|intersectingClusters|] == intersectingClusters;
  }

  /** The bookkeeping of one step of that loop: after absorbing cluster k,
      the first k + 1 clusters have left the pending list and been absorbed. */
  lemma AbsorbStep(start: map<WordsCluster, State>, hit: seq<WordsCluster>, k: int,
                   pending0: seq<WordsCluster>, s0: State, before: State, after: State)
    requires 0 <= k < |hit| && forall c :: c in hit ==> c in start
    requires Distinct(pending0)
    requires before == AbsorbAll(s0, StartStates(start, hit[..k]))
    requires after == AbsorbState(before, start[hit[k]])
    ensures Remove(Without(pending0, hit[..k]), hit[k]) == Without(pending0, hit[..k + 1])
    ensures after == AbsorbAll(s0, StartStates(start, hit[..k + 1]))
  {
    assert hit[..k + 1] == hit[..k] + [hit[k]];
    RemoveWithout(pending0, hit[..k], hit[k]);
    var ts := StartStates(start, hit[..k + 1]);
    assert ts[..k] == StartStates(start, hit[..k]);
  }

  /** One absorption of that inner loop: x leaves the pending list and is
      absorbed into (and owned by) `cluster`, the last emitted cluster. */
  method AbsorbPending(ghost clusters: seq<WordsCluster>, ghost start: map<WordsCluster, State>,
                       cluster: WordsCluster, x: WordsCluster, pending0: seq<WordsCluster>,
                       ghost emitted: seq<WordsCluster>, ghost owner0: map<WordsCluster, WordsCluster>)
      returns (pending: seq<WordsCluster>, ghost owner: map<WordsCluster, WordsCluster>)
    requires forall c :: c in clusters ==> c in start
    requires Bookkeeping(clusters, pending0, emitted, owner0) && Tracked(clusters, start, emitted, owner0)
    requires |emitted| > 0 && cluster == emitted[|emitted| - 1] && x in pending0
    modifies cluster
    ensures pending == Remove(pending0, x) && owner == owner0[x := cluster]
    ensures StateOf(cluster) == AbsorbState(old(StateOf(cluster)), start[x])
    ensures Bookkeeping(clusters, pending, emitted, owner) && Tracked(clusters, start, emitted, owner)
  {
    ghost var before := StateOf(cluster);
    assert Grown(cluster, start[cluster]);
    assert StateOf(x) == start[x];
    BookkeepingAbsorb(clusters, pending0, emitted, owner0, x);
    pending := Remove(pending0, x);
    Absorb(cluster, x);
    owner := owner0[x := cluster];
    AddNewCovers(before.words, x.words);
    forall c | c in owner0 && owner0[c] == cluster
      ensures Covers(cluster.words, start[c].words)
    {
      CoversExtend(before.words, cluster.words, start[c].words);
    }
    assert Covers(cluster.words, start[x].words);
    forall c | c in owner
      ensures Geometry.Contains(owner[c].Box(), start[c].box) && Covers(owner[c].words, start[c].words)
    {
      if c != x && owner0[c] == cluster {
        assert Geometry.Contains(before.box, start[c].box);
      }
    }
    PrefixTransitive(cluster.words, before.words, start[cluster].words);
    assert Grown(cluster, start[cluster]);
    assert StateOf(cluster) == AbsorbState(before, start[x]);
  }

  /** Emitting the popped cluster keeps the tracking facts. */
  lemma TrackedEmit(clusters: seq<WordsCluster>, start: map<WordsCluster, State>, pending: seq<WordsCluster>,
                    merged: seq<WordsCluster>, owner: map<WordsCluster, WordsCluster>, cluster: WordsCluster)
    requires Bookkeeping(clusters, pending, merged + [cluster], owner[cluster := cluster])
    requires Bookkeeping(clusters, [cluster] + pending, merged, owner)
    requires forall c :: c in clusters ==> c in start
    requires Tracked(clusters, start, merged, owner)
    ensures Tracked(clusters, start, merged + [cluster], owner[cluster := cluster])
  {
    CoversSelf(cluster.words);
    assert cluster.words[..|cluster.words|] == cluster.words;
    assert cluster in clusters && cluster !in merged;
  }

  /** With nothing pending, the bookkeeping and tracking facts are the merge's promise. */
  lemma MergeDone(clusters: seq<WordsCluster>, start: map<WordsCluster, State>,
                  merged: seq<WordsCluster>, owner: map<WordsCluster, WordsCluster>)
    requires forall c :: c in clusters ==> c in start
    requires Bookkeeping(clusters, [], merged, owner) && Tracked(clusters, start, merged, owner)
    ensures |merged| <= |clusters|
    ensures |clusters| > 0 ==> |merged| > 0 && merged[0] == clusters[0]
    ensures Distinct(merged) && forall m :: m in merged ==> m in clusters
    ensures forall c :: c in clusters ==> c in owner && owner[c] in merged
    ensures forall m :: m in merged ==> owner[m] == m
    ensures forall c :: c in clusters ==>
      Geometry.Contains(owner[c].Box(), start[c].box) && Covers(owner[c].words, start[c].words)
    ensures forall c :: c in clusters && c !in merged ==> StateOf(c) == start[c]
    ensures forall m :: m in merged ==> Grown(m, start[m])
  {
  }

  /** The worklist merge. Each round takes the first pending cluster, collects
      the pending clusters its box intersects at that moment, and absorbs each
      of them (the x-overlap test is then always true): the box grows to the
      union and the words are added without duplicates. The grown cluster is
      emitted and never revisited. `owner` tells for every input cluster the
      emitted cluster it ended up in. */
  method MergeIntersectingClusters(clusters: seq<WordsCluster>) returns (merged: seq<WordsCluster>, ghost owner: map<WordsCluster, WordsCluster>)
    requires Distinct(clusters)
    modifies set c | c in clusters
    ensures |merged| <= |clusters|
    ensures |clusters| > 0 ==> |merged| > 0 && merged[0] == clusters[0]
    ensures Distinct(merged) && forall m :: m in merged ==> m in clusters
    ensures forall c :: c in clusters ==> c in owner && owner[c] in merged
    ensures forall m :: m in merged ==> owner[m] == m
    ensures forall c :: c in clusters ==>
      Geometry.Contains(owner[c].Box(), old(c.Box())) && Covers(owner[c].words, old(c.words))
    ensures forall c :: c in clusters && c !in merged ==> StateOf(c) == old(StateOf(c))
    ensures forall m :: m in merged ==> Grown(m, old(StateOf(m)))
    ensures States(merged) == WorklistMerge(old(States(clusters)))
  {
    ghost var start := StartMap(clusters);
    merged, owner := MergeRounds(clusters, start);
    MergeDone(clusters, start, merged, owner);
  }

  /** Every cluster mapped to its current state. */
  ghost function StartMap(cs: seq<WordsCluster>): (r: map<WordsCluster, State>)
    reads set c | c in cs
    ensures forall c :: c in cs ==> c in r && r[c] == StateOf(c)
    ensures StartStates(r, cs) == States(cs)
  {
    map c | c in cs :: StateOf(c)
  }

  /** The loop of the merge, run until nothing is pending, against the start
      states recorded in `start`. */
  method MergeRounds(clusters: seq<WordsCluster>, ghost start: map<WordsCluster, State>)
      returns (merged: seq<WordsCluster>, ghost owner: map<WordsCluster, WordsCluster>)
    requires Distinct(clusters)
    requires forall c :: c in clusters ==> c in start && start[c] == StateOf(c)
    modifies set c | c in clusters
    ensures Bookkeeping(clusters, [], merged, owner) && Tracked(clusters, start, merged, owner)
    ensures States(merged) == WorklistMerge(StartStates(start, clusters))
  {
    ghost var target := WorklistMerge(StartStates(start, clusters));
    var pending := clusters;
    merged := [];
    owner := map[];
    BookkeepingStart(clusters);
    while pending != []
      invariant forall c :: c in clusters ==> c in start
      invariant Bookkeeping(clusters, pending, merged, owner) && Tracked(clusters, start, merged, owner)
      invariant States(merged) + WorklistMerge(StartStates(start, pending)) == target
      decreases |clusters| - |merged|
    {
      ghost var ss := StartStates(start, pending);
      ghost var done := States(merged);
      ghost var head := pending[0];
      StartStatesTail(start, pending);
      pending, merged, owner := MergeRound(clusters, start, pending, merged, owner);
      WorklistStep(ss, done, StateOf(head), StartStates(start, pending), target);
    }
  }

  /** One round of that loop: pop the head of the pending list, absorb the
      pending clusters intersecting it, and emit it. */
  method MergeRound(ghost clusters: seq<WordsCluster>, ghost start: map<WordsCluster, State>,
                    pending0: seq<WordsCluster>, merged0: seq<WordsCluster>,
                    ghost owner0: map<WordsCluster, WordsCluster>)
      returns (pending: seq<WordsCluster>, merged: seq<WordsCluster>, ghost owner: map<WordsCluster, WordsCluster>)
    requires pending0 != [] && forall c :: c in clusters ==> c in start
    requires Bookkeeping(clusters, pending0, merged0, owner0) && Tracked(clusters, start, merged0, owner0)
    modifies pending0[0]
    ensures merged == merged0 + [pending0[0]]
    ensures pending == Without(pending0[1..], old(IntersectingWith(pending0[0].Box(), pending0[1..])))
    ensures StateOf(pending0[0]) ==
      AbsorbAll(start[pending0[0]], Hits(start[pending0[0]].box, StartStates(start, pending0[1..])))
    ensures StartStates(start, pending) == Misses(start[pending0[0]].box, StartStates(start, pending0[1..]))
    ensures States(merged) == old(States(merged0)) + [StateOf(pending0[0])]
    ensures Bookkeeping(clusters, pending, merged, owner) && Tracked(clusters, start, merged, owner)
  {
    var cluster := pending0[0];
    pending := pending0[1..];
    var intersectingClusters := IntersectingWith(cluster.Box(), pending);
    merged := merged0 + [cluster];
    owner := owner0[cluster := cluster];
    PopHead(clusters, start, pending0, merged0, owner0, intersectingClusters);
    ghost var done := States(merged0);
    pending, owner := AbsorbIntersecting(clusters, start, cluster, intersectingClusters, pending, merged, owner);
    forall i | 0 <= i < |merged0| ensures StateOf(merged0[i]) == done[i] {
      assert merged0[i] != cluster;
    }
    StatesSnoc(merged0, cluster, done);
  }

  /** Popping the head and emitting it: the invariants hold for the rest, and
      the clusters the head intersects are pending, with their start states
      selected by `Hits` and the others by `Misses`. */
  lemma PopHead(clusters: seq<WordsCluster>, start: map<WordsCluster, State>, pending0: seq<WordsCluster>,
                merged0: seq<WordsCluster>, owner0: map<WordsCluster, WordsCluster>, hit: seq<WordsCluster>)
    requires pending0 != [] && forall c :: c in clusters ==> c in start
    requires Bookkeeping(clusters, pending0, merged0, owner0) && Tracked(clusters, start, merged0, owner0)
    requires hit == IntersectingWith(pending0[0].Box(), pending0[1..])
    ensures Bookkeeping(clusters, pending0[1..], merged0 + [pending0[0]], owner0[pending0[0] := pending0[0]])
    ensures Tracked(clusters, start, merged0 + [pending0[0]], owner0[pending0[0] := pending0[0]])
    ensures StateOf(pending0[0]) == start[pending0[0]] && pending0[0] !in merged0
    ensures Distinct(hit) && forall c :: c in hit ==> c in pending0[1..] && Geometry.Intersects(pending0[0].Box(), start[c].box)
    ensures StartStates(start, hit) == Hits(start[pending0[0]].box, StartStates(start, pending0[1..]))
    ensures StartStates(start, Without(pending0[1..], hit)) == Misses(start[pending0[0]].box, StartStates(start, pending0[1..]))
  {
    BookkeepingPop(clusters, pending0, merged0, owner0);
    RoundStates(clusters, start, pending0, merged0, owner0, hit);
    TrackedEmit(clusters, start, pending0[1..], merged0, owner0, pending0[0]);
  }

  /** Emitting a cluster appends its state to those of the clusters emitted before. */
  lemma StatesSnoc(merged0: seq<WordsCluster>, cluster: WordsCluster, done: seq<State>)
    requires |done| == |merged0| && forall i :: 0 <= i < |merged0| ==> StateOf(merged0[i]) == done[i]
    ensures States(merged0 + [cluster]) == done + [StateOf(cluster)]
  {
  }

  // ----- __cluster_columns -----

  /** Each cluster paired with its sort key `cluster.y0`. */
  function Keyed(cs: seq<WordsCluster>): (r: seq<(Sorting.Key, WordsCluster)>)
    reads set c | c in cs
    ensures |r| == |cs| && forall i :: 0 <= i < |cs| ==> r[i] == (Sorting.Key(cs[i].y0, 0.0), cs[i])
  {
    seq(|cs|, i reads set c | c in cs requires 0 <= i < |cs| => (Sorting.Key(cs[i].y0, 0.0), cs[i]))
  }

  /** `sorted(cs, key=lambda cluster: cluster.y0)`. */
  function SortByY0(cs: seq<WordsCluster>): seq<WordsCluster>
    reads set c | c in cs
  {
    Sorting.Items(Sorting.SortByKey(Keyed(cs)))
  }

  /** The column built for label l: its clusters sorted by y0 and the
      min/max box over them. */
  function Column(clusters: seq<WordsCluster>, labels: seq<int>, l: int): WordsColumn
    requires |clusters| == |labels| && l in labels
    reads set c | c in clusters
  {
    var group := Select(clusters, labels, l);
    SelectNonEmpty(clusters, labels, l);
    SelectMembers(clusters, labels, l);
    var box := Geometry.Hull(Boxes(group));
    WordsColumn(SortByY0(group), box.x0, box.y0, box.x1, box.y1)
  }

  lemma SelectMembers<T>(items: seq<T>, labels: seq<int>, l: int)
    requires |items| == |labels|
    ensures forall x :: x in Select(items, labels, l) ==> x in items
  {
    forall x | x in Select(items, labels, l) ensures x in items {
      SelectMember(items, labels, l, x);
    }
  }

  /** The columns for the labels of `visit`, in that order. */
  ghost predicate ColumnsFor(columns: seq<WordsColumn>, clusters: seq<WordsCluster>, labels: seq<int>, visit: seq<int>)
    requires |clusters| == |labels| && forall l :: l in visit ==> l in labels
    reads set c | c in clusters
  {
    |columns| == |visit| && forall k :: 0 <= k < |columns| ==> columns[k] == Column(clusters, labels, visit[k])
  }

  lemma AppendColumn(columns: seq<WordsColumn>, column: WordsColumn, clusters: seq<WordsCluster>, labels: seq<int>,
                     visit: seq<int>, l: int)
    requires |clusters| == |labels| && l in labels && forall m :: m in visit ==> m in labels
    requires ColumnsFor(columns, clusters, labels, visit) && column == Column(clusters, labels, l)
    ensures ColumnsFor(columns + [column], clusters, labels, visit + [l])
  {
    var extended := columns + [column];
    forall k | 0 <= k < |extended|
      ensures extended[k] == Column(clusters, labels, (visit + [l])[k])
    {
      if k < |columns| {
        assert extended[k] == columns[k] && (visit + [l])[k] == visit[k];
      }
    }
  }

  /** The post-processing of `__cluster_columns` for a given labelling of
      the clusters: one column per distinct non-noise label. */
  method ClusterColumns(clusters: seq<WordsCluster>, labels: seq<int>, order: seq<int>) returns (columns: seq<WordsColumn>)
    requires |clusters| == |labels| && IsSetOrder(order, labels)
    ensures ColumnsFor(columns, clusters, labels, Visited(order))
  {
    columns := [];
    ghost var visited: seq<int> := [];
    for i := 0 to |order|
      invariant visited == Visited(order[..i])
      invariant forall l :: l in visited ==> l in labels
      invariant ColumnsFor(columns, clusters, labels, visited)
    {
      var columnLabel := order[i];
      VisitedStep(order, i, labels);
      if columnLabel != Noise {
        var columnClusters := Select(clusters, labels, columnLabel);
        SelectNonEmpty(clusters, labels, columnLabel);
        SelectMembers(clusters, labels, columnLabel);
        // the four min/max generator expressions: the componentwise hull
        var box := Geometry.Hull(Boxes(columnClusters));
        var column := WordsColumn(SortByY0(columnClusters), box.x0, box.y0, box.x1, box.y1);
        assert column == Column(clusters, labels, columnLabel);
        AppendColumn(columns, column, clusters, labels, visited, columnLabel);
        columns := columns + [column];
        visited := visited + [columnLabel];
      }
    }
    assert order[..|order|] == order;
  }

  lemma KeyedItems(cs: seq<WordsCluster>)
    ensures Sorting.Items(Keyed(cs)) == cs
  {
  }

  /** A column's clusters are in non-decreasing y0 order. */
  lemma ColumnSorted(clusters: seq<WordsCluster>, labels: seq<int>, l: int)
    requires |clusters| == |labels| && l in labels
    ensures var cs := Column(clusters, labels, l).clusters;
      forall i, j :: 0 <= i < j < |cs| ==> cs[i].y0 <= cs[j].y0
  {
    var kp := Keyed(Select(clusters, labels, l));
    var sp := Sorting.SortByKey(kp);
    Sorting.SortSorted(kp);
    Sorting.SortPermutation(kp);
    var cs := Sorting.Items(sp);
    forall i | 0 <= i < |sp| ensures sp[i].0 == Sorting.Key(sp[i].1.y0, 0.0) {
      assert sp[i] in multiset(kp);
      var m :| 0 <= m < |kp| && kp[m] == sp[i];
    }
    forall i, j | 0 <= i < j < |cs| ensures cs[i].y0 <= cs[j].y0 {
      assert Sorting.KeyLe(sp[i].0, sp[j].0);
    }
  }

  /** A column holds exactly its label's clusters, each as often as there. */
  lemma ColumnPermutation(clusters: seq<WordsCluster>, labels: seq<int>, l: int)
    requires |clusters| == |labels| && l in labels
    ensures multiset(Column(clusters, labels, l).clusters) == multiset(Select(clusters, labels, l))
  {
    var group := Select(clusters, labels, l);
    Sorting.SortItems(Keyed(group));
    KeyedItems(group);
  }

  /** The sort is stable: clusters with equal y0 keep the order they had
      among the label's clusters. */
  lemma ColumnStable(clusters: seq<WordsCluster>, labels: seq<int>, l: int, y: real)
    requires |clusters| == |labels| && l in labels
    ensures var kp := Keyed(Select(clusters, labels, l));
      Sorting.WithKey(Sorting.SortByKey(kp), Sorting.Key(y, 0.0)) == Sorting.WithKey(kp, Sorting.Key(y, 0.0))
  {
    Sorting.SortStable(Keyed(Select(clusters, labels, l)), Sorting.Key(y, 0.0));
  }

  /** The column box is the min/max over its clusters, the rule of
      `__get_clusters_bounding_box`, computed on the sorted clusters or not. */
  lemma ColumnBox(clusters: seq<WordsCluster>, labels: seq<int>, l: int)
    requires |clusters| == |labels| && l in labels
    ensures var col := Column(clusters, labels, l);
      && Geometry.IsHullOf(Geometry.Box(col.x0, col.y0, col.x1, col.y1), Boxes(Select(clusters, labels, l)))
      && ClustersBoundingBox(col.clusters) == Some(Geometry.Box(col.x0, col.y0, col.x1, col.y1))
  {
    var group := Select(clusters, labels, l);
    var col := Column(clusters, labels, l);
    var b := Geometry.Box(col.x0, col.y0, col.x1, col.y1);
    ColumnPermutation(clusters, labels, l);
    assert forall c :: c in group <==> c in col.clusters by {
      forall c ensures c in group <==> c in col.clusters {
        assert c in group <==> c in multiset(group);
      }
    }
    var bs := Boxes(group);
    var cs := Boxes(col.clusters);
    forall x ensures x in bs <==> x in cs {
      if x in bs {
        var i :| 0 <= i < |bs| && bs[i] == x;
        assert group[i] in col.clusters;
        var j :| 0 <= j < |col.clusters| && col.clusters[j] == group[i];
        assert cs[j] == x;
      }
      if x in cs {
        var j :| 0 <= j < |cs| && cs[j] == x;
        assert col.clusters[j] in group;
        var i :| 0 <= i < |group| && group[i] == col.clusters[j];
        assert bs[i] == x;
      }
    }
    Geometry.HullSameMembers(b, bs, cs);
    Geometry.HullUnique(b, Geometry.Hull(cs), cs);
  }

  /** All clusters of a list of columns, with multiplicity. */
  ghost function AllClusters(columns: seq<WordsColumn>): multiset<WordsCluster>
  {
    if |columns| == 0 then multiset{} else multiset(columns[0].clusters) + AllClusters(columns[1..])
  }

  lemma {:induction false} ColumnsGroups(columns: seq<WordsColumn>, clusters: seq<WordsCluster>, labels: seq<int>, visit: seq<int>)
    requires |clusters| == |labels| && forall l :: l in visit ==> l in labels
    requires ColumnsFor(columns, clusters, labels, visit)
    ensures AllClusters(columns) == Groups(clusters, labels, visit)
  {
    if |visit| > 0 {
      assert ColumnsFor(columns[1..], clusters, labels, visit[1..]) by {
        forall k | 0 <= k < |columns| - 1 ensures columns[1..][k] == Column(clusters, labels, visit[1..][k]) {
          assert columns[1..][k] == columns[k + 1];
        }
      }
      ColumnsGroups(columns[1..], clusters, labels, visit[1..]);
      ColumnPermutation(clusters, labels, visit[0]);
    }
  }

  /** The columns partition the clustered input: every cluster with a
      non-noise label is in the columns exactly as often as in the input,
      and noise clusters are in none. */
  lemma ColumnsPartition(columns: seq<WordsColumn>, clusters: seq<WordsCluster>, labels: seq<int>, order: seq<int>)
    requires |clusters| == |labels| && IsSetOrder(order, labels)
    requires ColumnsFor(columns, clusters, labels, Visited(order))
    ensures AllClusters(columns) == multiset(SelectAny(clusters, labels, set l | l in labels && l != Noise))
  {
    ColumnsGroups(columns, clusters, labels, Visited(order));
    Partition(clusters, labels, order);
  }
}
