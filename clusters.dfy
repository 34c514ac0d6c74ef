/** The cluster and column records of the layout engine. A cluster is an
    object whose word list, box and stored type are updated in place; a
    column is never changed after it is built and is kept as a value. */
module Clusters {
  import Geometry
  import Text
  import opened Words

  class WordsCluster {
    var words: seq<WordInfo>
    var x0: real
    var y0: real
    var x1: real
    var y1: real
    /** The stored content signature (`self.type`). */
    var ctype: int

    function Box(): Geometry.Box
      reads this
    {
      Geometry.Box(x0, y0, x1, y1)
    }

    /** The stored type is the signature of the current words. */
    ghost predicate Consistent()
      reads this
    {
      ctype == Signature(words)
    }

    constructor (words: seq<WordInfo>, x0: real, y0: real, x1: real, y1: real)
      ensures this.words == words && Box() == Geometry.Box(x0, y0, x1, y1)
      ensures Consistent()
    {
      this.words := words;
      this.x0 := x0;
      this.y0 := y0;
      this.x1 := x1;
      this.y1 := y1;
      new;
      ctype := AnalyzeWords();
    }

    /** `analyze_words`: OR together the bit of every word. The result is the
        3-bit code whose bit 1 says some word is numeric, bit 2 that some
        non-numeric word is alphabetic, and bit 4 that some word is none of
        numeric, alphabetic or alphanumeric. */
    method AnalyzeWords() returns (t: int)
      ensures t == Signature(words)
      ensures t % 2 == 1 <==> HasBit(words, 1)
      ensures (t / 2) % 2 == 1 <==> HasBit(words, 2)
      ensures t / 4 == 1 <==> HasBit(words, 4)
    {
      var clusterType: bv8 := 0;
      for i := 0 to |words|
        invariant clusterType as int == Code(HasBit(words[..i], 1), HasBit(words[..i], 2), HasBit(words[..i], 4))
      {
        var word := words[i];
        if Text.IsNumeric(word.text) {
          clusterType := clusterType | 1;
        } else if Text.IsAlpha(word.text) {
          clusterType := clusterType | 2;
        } else if !Text.IsAlnum(word.text) {
          clusterType := clusterType | 4;
        }
        HasBitSnoc(words[..i + 1], Kind(word.text));
        assert words[..i + 1][..i] == words[..i];
      }
      assert words[..|words|] == words;
      t := clusterType as int;
    }

    /** `add_words`: append each incoming word that has no equal in the list
        as it stands, then recompute the type. */
    method AddWords(ws: seq<WordInfo>)
      modifies this
      ensures words == AddNew(old(words), ws)
      ensures Box() == old(Box())
      ensures Consistent()
    {
      for i := 0 to |ws|
        invariant words == AddNew(old(words), ws[..i])
        invariant Box() == old(Box())
      {
        var word := ws[i];
        assert ws[..i + 1][..i] == ws[..i];
        if !Occurs(word, words) {
          words := words + [word];
        }
      }
      assert ws[..|ws|] == ws;
      ctype := AnalyzeWords();
    }

    /** `get_type`: the label of the stored type; for a consistent cluster
        "Unknown" means that no word set a bit. */
    function GetType(): (r: string)
      reads this
      ensures r == "Unknown" <==> !(1 <= ctype <= 7)
      ensures Consistent() ==> (r == "Unknown" <==> Signature(words) == 0)
    {
      Label(ctype)
    }

    /** `remove_duplicate_words`: keep the first of each group of equal words.
        The stored type is not recomputed, and need not be. */
    method RemoveDuplicateWords()
      modifies this
      ensures words == Dedup(old(words))
      ensures ctype == old(ctype) && Box() == old(Box())
      ensures old(Consistent()) ==> Consistent()
    {
      var uniqueWords: seq<WordInfo> := [];
      for i := 0 to |words|
        invariant uniqueWords == AddNew([], words[..i])
      {
        var word := words[i];
        assert words[..i + 1][..i] == words[..i];
        if !Occurs(word, uniqueWords) {
          uniqueWords := uniqueWords + [word];
        }
      }
      assert words[..|words|] == words;
      DedupSignature(words);
      words := uniqueWords;
    }
  }

  lemma HasBitSnoc(ws: seq<WordInfo>, bit: int)
    requires |ws| > 0 && bit == Kind(ws[|ws| - 1].text)
    ensures forall b :: HasBit(ws, b) <==> HasBit(ws[..|ws| - 1], b) || b == bit
  {
    forall b ensures HasBit(ws, b) <==> HasBit(ws[..|ws| - 1], b) || b == bit {
      if HasBit(ws[..|ws| - 1], b) {
        var i :| 0 <= i < |ws| - 1 && Kind(ws[..|ws| - 1][i].text) == b;
        assert ws[i] == ws[..|ws| - 1][i];
      }
      if HasBit(ws, b) {
        var i :| 0 <= i < |ws| && Kind(ws[i].text) == b;
        if i < |ws| - 1 {
          assert ws[i] == ws[..|ws| - 1][i];
        }
      }
    }
  }

  /** A column: its clusters in reading order and the box around them. */
  datatype WordsColumn = WordsColumn(clusters: seq<WordsCluster>, x0: real, y0: real, x1: real, y1: real)

  function TextsOf(ws: seq<WordInfo>): (r: seq<string>)
    ensures |r| == |ws| && forall i :: 0 <= i < |ws| ==> r[i] == ws[i].text
  {
    seq(|ws|, i requires 0 <= i < |ws| => ws[i].text)
  }

  /** The pieces `collect_text` joins: each cluster's word texts, then "\n". */
  ghost function Tokens(cs: seq<WordsCluster>): seq<string>
    reads set c | c in cs
  {
    if |cs| == 0 then []
    else Tokens(cs[..|cs| - 1]) + TextsOf(cs[|cs| - 1].words) + ["\n"]
  }

  /** `collect_text`: the column's words in cluster order, with a newline
      piece after each cluster, joined by single spaces. */
  method CollectText(column: WordsColumn) returns (s: string)
    ensures s == Text.Join(Tokens(column.clusters), ' ')
  {
    var text: seq<string> := [];
    for i := 0 to |column.clusters|
      invariant text == Tokens(column.clusters[..i])
    {
      var cluster := column.clusters[i];
      for j := 0 to |cluster.words|
        invariant text == Tokens(column.clusters[..i]) + TextsOf(cluster.words[..j])
      {
        assert TextsOf(cluster.words[..j + 1]) == TextsOf(cluster.words[..j]) + [cluster.words[j].text];
        text := text + [cluster.words[j].text];
      }
      assert cluster.words[..|cluster.words|] == cluster.words;
      assert column.clusters[..i + 1][..i] == column.clusters[..i];
      text := text + ["\n"];
    }
    assert column.clusters[..|column.clusters|] == column.clusters;
    s := Text.Join(text, ' ');
  }

  /** Word texts carry no blanks (the extractor splits at them), so splitting
      the collected text at blanks gives the pieces back. */
  lemma {:induction false} CollectedTextSplits(cs: seq<WordsCluster>)
    requires |cs| > 0
    requires forall c, w :: c in cs && w in c.words ==> Text.Free(w.text, ' ')
    ensures Text.Split(Text.Join(Tokens(cs), ' '), ' ') == Tokens(cs)
  {
    TokensFree(cs);
    Text.SplitJoin(Tokens(cs), ' ');
  }

  lemma {:induction false} TokensFree(cs: seq<WordsCluster>)
    requires forall c, w :: c in cs && w in c.words ==> Text.Free(w.text, ' ')
    ensures |cs| > 0 ==> |Tokens(cs)| > 0
    ensures forall k :: 0 <= k < |Tokens(cs)| ==> Text.Free(Tokens(cs)[k], ' ')
  {
    if |cs| > 0 {
      var front := cs[..|cs| - 1];
      var last := cs[|cs| - 1];
      TokensFree(front);
      var t := Tokens(cs);
      forall k | 0 <= k < |t| ensures Text.Free(t[k], ' ') {
        var a := Tokens(front);
        var b := TextsOf(last.words);
        if k < |a| {
          assert t[k] == a[k];
        } else if k < |a| + |b| {
          assert t[k] == b[k - |a|] == last.words[k - |a|].text;
          assert last.words[k - |a|] in last.words;
        } else {
          assert t[k] == "\n";
        }
      }
    }
  }
}
