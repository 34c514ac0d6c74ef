/** The package's worklist merge on cluster states, as a reference for
    `PdfMage.MergeIntersectingClusters`: the first state absorbs, in order,
    the remaining states its box intersects at that moment, is emitted, and
    the merge goes on with the states it missed. */
module ClusterStates {
  import Geometry
  import opened Collections
  import opened Words

  /** The part of a cluster the merge may change. */
  datatype State = State(words: seq<WordInfo>, box: Geometry.Box, ctype: int)

  /** Every word of vs has an equal word in ws. */
  ghost predicate Covers(ws: seq<WordInfo>, vs: seq<WordInfo>)
  {
    forall k :: 0 <= k < |vs| ==> Occurs(vs[k], ws)
  }

  lemma CoversSelf(ws: seq<WordInfo>)
    ensures Covers(ws, ws)
  {
    forall k | 0 <= k < |ws| ensures Occurs(ws[k], ws) {
      assert SameWord(ws[k], ws[k]);
    }
  }

  lemma CoversExtend(ws: seq<WordInfo>, ws': seq<WordInfo>, vs: seq<WordInfo>)
    requires Covers(ws, vs) && |ws| <= |ws'| && ws'[..|ws|] == ws
    ensures Covers(ws', vs)
  {
    forall k | 0 <= k < |vs| ensures Occurs(vs[k], ws') {
      var i :| 0 <= i < |ws| && SameWord(ws[i], vs[k]);
      assert ws'[i] == ws[i];
    }
  }

  /** One absorption: the box becomes the union of both boxes, the absorbed
      words are appended unless already present, and the type is recomputed
      from the words. */
  ghost function AbsorbState(s: State, t: State): (r: State)
    ensures Geometry.Contains(r.box, s.box) && Geometry.Contains(r.box, t.box)
    ensures |s.words| <= |r.words| && r.words[..|s.words|] == s.words
    ensures Covers(r.words, t.words)
    ensures r.ctype == Signature(r.words)
  {
    var ws := AddNew(s.words, t.words);
    AddNewCovers(s.words, t.words);
    State(ws, Geometry.Join(s.box, t.box), Signature(ws))
  }

  /** The states ts absorbed into s one after another. */
  ghost function AbsorbAll(s: State, ts: seq<State>): State
    decreases |ts|
  {
    if |ts| == 0 then s else AbsorbState(AbsorbAll(s, ts[..|ts| - 1]), ts[|ts| - 1])
  }

  /** The result of absorbing encloses the start box and every absorbed box,
      keeps the start words as a prefix, and covers every absorbed word. */
  lemma {:induction false} AbsorbAllGrows(s: State, ts: seq<State>)
    ensures Geometry.Contains(AbsorbAll(s, ts).box, s.box)
    ensures |s.words| <= |AbsorbAll(s, ts).words| && AbsorbAll(s, ts).words[..|s.words|] == s.words
    ensures forall k :: 0 <= k < |ts| ==>
      Geometry.Contains(AbsorbAll(s, ts).box, ts[k].box) && Covers(AbsorbAll(s, ts).words, ts[k].words)
    decreases |ts|
  {
    if |ts| > 0 {
      var front := ts[..|ts| - 1];
      AbsorbAllGrows(s, front);
      var f := AbsorbAll(s, front);
      var r := AbsorbAll(s, ts);
      assert r == AbsorbState(f, ts[|ts| - 1]);
      PrefixTransitive(r.words, f.words, s.words);
      forall k | 0 <= k < |ts| - 1
        ensures Geometry.Contains(r.box, ts[k].box) && Covers(r.words, ts[k].words)
      {
        assert ts[k] == front[k];
        CoversExtend(f.words, r.words, ts[k].words);
      }
    }
  }

  /** The states whose box intersects b, in order. */
  function Hits(b: Geometry.Box, ps: seq<State>): (r: seq<State>)
    ensures |r| <= |ps|
    ensures forall t :: t in r ==> t in ps && Geometry.Intersects(b, t.box)
    ensures forall t :: t in ps && Geometry.Intersects(b, t.box) ==> t in r
  {
    if |ps| == 0 then []
    else
      assert forall t :: t in ps ==> t == ps[0] || t in ps[1..];
      (if Geometry.Intersects(b, ps[0].box) then [ps[0]] else []) + Hits(b, ps[1..])
  }

  /** The states whose box does not intersect b, in order. */
  function Misses(b: Geometry.Box, ps: seq<State>): (r: seq<State>)
    ensures |r| <= |ps|
    ensures forall t :: t in r ==> t in ps && !Geometry.Intersects(b, t.box)
    ensures forall t :: t in ps && !Geometry.Intersects(b, t.box) ==> t in r
  {
    if |ps| == 0 then []
    else
      assert forall t :: t in ps ==> t == ps[0] || t in ps[1..];
      (if Geometry.Intersects(b, ps[0].box) then [] else [ps[0]]) + Misses(b, ps[1..])
  }

  /** Every state is either hit or missed, and none is lost or repeated. */
  lemma {:induction false} HitsMisses(b: Geometry.Box, ps: seq<State>)
    ensures multiset(Hits(b, ps)) + multiset(Misses(b, ps)) == multiset(ps)
  {
    if |ps| > 0 {
      HitsMisses(b, ps[1..]);
      assert ps == [ps[0]] + ps[1..];
    }
  }

  /** The merge: each round the head absorbs the remaining states it
      intersects and is emitted; the states it misses form the next worklist. */
  ghost function WorklistMerge(ps: seq<State>): (r: seq<State>)
    ensures |r| <= |ps|
    ensures |ps| > 0 ==> |r| > 0
    decreases |ps|
  {
    if |ps| == 0 then []
    else
      var b := ps[0].box;
      [AbsorbAll(ps[0], Hits(b, ps[1..]))] + WorklistMerge(Misses(b, ps[1..]))
  }

  /** Some state of r encloses t's box and covers t's words. */
  ghost predicate Absorbed(r: seq<State>, t: State)
  {
    exists j :: 0 <= j < |r| && Geometry.Contains(r[j].box, t.box) && Covers(r[j].words, t.words)
  }

  /** Every input box lies inside some output box, and every input word has
      an equal word in that output. */
  lemma {:induction false} WorklistMergeCovers(ps: seq<State>)
    ensures forall t :: t in ps ==> Absorbed(WorklistMerge(ps), t)
    decreases |ps|
  {
    if |ps| > 0 {
      var b := ps[0].box;
      var hits := Hits(b, ps[1..]);
      var misses := Misses(b, ps[1..]);
      var r := WorklistMerge(ps);
      var tail := WorklistMerge(misses);
      assert r == [AbsorbAll(ps[0], hits)] + tail;
      AbsorbAllGrows(ps[0], hits);
      WorklistMergeCovers(misses);
      forall t | t in ps ensures Absorbed(r, t) {
        if t == ps[0] {
          CoversSelf(t.words);
          CoversExtend(t.words, r[0].words, t.words);
          assert Geometry.Contains(r[0].box, t.box) && Covers(r[0].words, t.words);
        } else {
          assert t in ps[1..];
          if Geometry.Intersects(b, t.box) {
            var m :| 0 <= m < |hits| && hits[m] == t;
            assert Geometry.Contains(r[0].box, t.box) && Covers(r[0].words, t.words);
          } else {
            assert Absorbed(tail, t);
            var j :| 0 <= j < |tail| && Geometry.Contains(tail[j].box, t.box) && Covers(tail[j].words, t.words);
            assert r[j + 1] == tail[j];
          }
        }
      }
    }
  }

  /** A wordless state with the given box, for the examples below. */
  function Empty(x0: real, y0: real, x1: real, y1: real): State
  {
    State([], Geometry.Box(x0, y0, x1, y1), 0)
  }

  /** Two overlapping clusters become one whose box is their union. */
  lemma OverlappingMerge()
    ensures var r := WorklistMerge([Empty(0.0, 0.0, 50.0, 20.0), Empty(10.0, 15.0, 60.0, 40.0)]);
      |r| == 1 && r[0].box == Geometry.Box(0.0, 0.0, 60.0, 40.0)
  {
    var a, c := Empty(0.0, 0.0, 50.0, 20.0), Empty(10.0, 15.0, 60.0, 40.0);
    var ps := [a, c];
    assert ps[1..] == [c];
    assert Hits(a.box, [c]) == [c];
    assert Misses(a.box, [c]) == [];
    assert [c][..0] == [];
    assert AbsorbAll(a, [c]) == AbsorbState(a, c);
  }

  /** Clusters far apart are emitted unchanged, in order. */
  lemma SeparateStay()
    ensures var r := WorklistMerge([Empty(0.0, 0.0, 1.0, 1.0), Empty(5.0, 5.0, 6.0, 6.0)]);
      |r| == 2 && r[0].box == Geometry.Box(0.0, 0.0, 1.0, 1.0) && r[1].box == Geometry.Box(5.0, 5.0, 6.0, 6.0)
  {
    var a, c := Empty(0.0, 0.0, 1.0, 1.0), Empty(5.0, 5.0, 6.0, 6.0);
    var ps := [a, c];
    assert ps[1..] == [c];
    assert Hits(a.box, [c]) == [];
    assert Misses(a.box, [c]) == [c];
    assert WorklistMerge([c]) == [AbsorbAll(c, [])] by {
      assert [c][1..] == [];
    }
  }

  /** One round does not reach a fixed point: the first box grows to touch
      the third only after the third was passed over, so two emitted boxes
      still intersect. */
  lemma WorklistMergeNotFixedPoint()
    ensures var r := WorklistMerge([Empty(0.0, 0.0, 1.0, 1.0), Empty(1.0, 0.0, 3.0, 1.0), Empty(3.0, 0.0, 4.0, 1.0)]);
      && |r| == 2
      && r[0].box == Geometry.Box(0.0, 0.0, 3.0, 1.0) && r[1].box == Geometry.Box(3.0, 0.0, 4.0, 1.0)
      && Geometry.Intersects(r[0].box, r[1].box)
  {
    var a, c, d := Empty(0.0, 0.0, 1.0, 1.0), Empty(1.0, 0.0, 3.0, 1.0), Empty(3.0, 0.0, 4.0, 1.0);
    var ps := [a, c, d];
    assert ps[1..] == [c, d];
    assert Hits(a.box, [c, d]) == [c] by {
      assert [c, d][1..] == [d];
      assert Hits(a.box, [d]) == [] by { assert [d][1..] == []; }
    }
    assert Misses(a.box, [c, d]) == [d] by {
      assert [c, d][1..] == [d];
      assert Misses(a.box, [d]) == [d] by { assert [d][1..] == []; }
    }
    assert [c][..0] == [];
    assert AbsorbAll(a, [c]).box == Geometry.Box(0.0, 0.0, 3.0, 1.0) by {
      assert AbsorbAll(a, [c]) == AbsorbState(a, c);
    }
    assert WorklistMerge([d]) == [AbsorbAll(d, [])] by {
      assert [d][1..] == [];
    }
    assert WorklistMerge(ps) == [AbsorbAll(a, [c])] + WorklistMerge([d]);
  }

  /** One round of the merge, as the object loop takes it: the emitted
      states so far, then the absorbed head, then the merge of what is left. */
  lemma WorklistStep(ps: seq<State>, done: seq<State>, head: State, rest: seq<State>, target: seq<State>)
    requires ps != [] && done + WorklistMerge(ps) == target
    requires head == AbsorbAll(ps[0], Hits(ps[0].box, ps[1..]))
    requires rest == Misses(ps[0].box, ps[1..])
    ensures (done + [head]) + WorklistMerge(rest) == target
  {
    assert WorklistMerge(ps) == [head] + WorklistMerge(rest);
  }
}
