/** The script variants side by side: where they agree, and where a single
    merge pass leaves work undone. */
module Variants {
  import opened Geometry
  import Words
  import PdfMage
  import MainScript
  import Main2Script
  import opened Collections

  /** Both first-fit passes pick the same receiver. */
  lemma {:induction false} FirstIntersectingAgree(c: MainScript.Cluster, ms: seq<MainScript.Cluster>)
    ensures MainScript.FirstIntersecting(c, ms) == Main2Script.FirstIntersecting(c.box, MainScript.ClusterBoxes(ms))
  {
    var bs := MainScript.ClusterBoxes(ms);
    if |ms| > 0 && !Intersects(c.box, ms[0].box) {
      assert bs[0] == ms[0].box && bs[1..] == MainScript.ClusterBoxes(ms[1..]);
      FirstIntersectingAgree(c, ms[1..]);
    }
  }

  /** One placement step agrees on boxes. */
  lemma PlaceAgree(ms: seq<MainScript.Cluster>, c: MainScript.Cluster)
    ensures MainScript.ClusterBoxes(MainScript.Place(ms, c)) == Main2Script.Place(MainScript.ClusterBoxes(ms), c.box)
  {
    FirstIntersectingAgree(c, ms);
    match MainScript.FirstIntersecting(c, ms)
    case Some(i) =>
      assert MainScript.ClusterBoxes(ms[i := MainScript.Absorb(ms[i], c)])
          == MainScript.ClusterBoxes(ms)[i := Join(MainScript.ClusterBoxes(ms)[i], c.box)];
    case None =>
      assert MainScript.ClusterBoxes(ms + [c]) == MainScript.ClusterBoxes(ms) + [c.box];
  }

  /** On boxes the two scripts' merges are the same computation: `main.py`
      additionally carries the words along. */
  lemma {:induction false} MergesAgreeOnBoxes(cs: seq<MainScript.Cluster>)
    ensures MainScript.ClusterBoxes(MainScript.FirstFit(cs)) == Main2Script.FirstFit(MainScript.ClusterBoxes(cs))
  {
    if |cs| > 0 {
      var front := cs[..|cs| - 1];
      var c := cs[|cs| - 1];
      var bs := MainScript.ClusterBoxes(cs);
      MergesAgreeOnBoxes(front);
      assert bs[..|bs| - 1] == MainScript.ClusterBoxes(front);
      assert bs[|bs| - 1] == c.box;
      PlaceAgree(MainScript.FirstFit(front), c);
    }
  }

  /** The fixed factors of `main2.py` are the centre padding of `PDFMage`
      with factor 1.18 in both directions. */
  lemma PadWordIsExtendWord(w: Words.WordInfo)
    ensures Main2Script.PadWord(w) == PdfMage.ExtendWord(w, 1.18, 1.18)
  {
    var a := Main2Script.PadWord(w);
    var b := PdfMage.ExtendWord(w, 1.18, 1.18);
    assert Words.BoxOf(a) == Words.BoxOf(b);
  }

  /** A single pass is not a fixed point: the third box bridges the first two
      after the second has already been emitted, so the (touching) output
      boxes still intersect. */
  lemma FirstFitNotFixedPoint()
    ensures var out := Main2Script.FirstFit([Box(0.0, 0.0, 1.0, 1.0), Box(3.0, 0.0, 4.0, 1.0), Box(1.0, 0.0, 3.0, 1.0)]);
      && out == [Box(0.0, 0.0, 3.0, 1.0), Box(3.0, 0.0, 4.0, 1.0)]
      && Intersects(out[0], out[1])
  {
    var a := Box(0.0, 0.0, 1.0, 1.0);
    var b := Box(3.0, 0.0, 4.0, 1.0);
    var c := Box(1.0, 0.0, 3.0, 1.0);
    var bs := [a, b, c];
    assert Main2Script.FirstFit([a]) == [a] by {
      assert [a][..0] == [];
    }
    assert Main2Script.FirstFit([a, b]) == [a, b] by {
      assert [a, b][..1] == [a];
      assert !Intersects(b, a);
      assert Main2Script.FirstIntersecting(b, [a]) == None;
    }
    assert Main2Script.FirstFit(bs) == [Join(a, c), b] by {
      assert bs[..2] == [a, b];
      assert Intersects(c, a);
      assert Main2Script.FirstIntersecting(c, [a, b]) == Some(0);
    }
    assert Join(a, c) == Box(0.0, 0.0, 3.0, 1.0);
  }
}
