/** The word record of the layout engine and the two word-list rules of a
    cluster: the duplicate-aware append of `add_words` and
    `remove_duplicate_words`, and the 3-bit content signature of
    `analyze_words` with its label table `get_type`. */
module Words {
  import Text
  import Geometry

  /** One extracted word: its text, its width as `size`, and its box. */
  datatype WordInfo = WordInfo(text: string, size: real, x0: real, y0: real, x1: real, y1: real)

  function BoxOf(w: WordInfo): Geometry.Box
  {
    Geometry.Box(w.x0, w.y0, w.x1, w.y1)
  }

  /** The duplicate test: equal text and equal coordinates; `size` is not compared. */
  predicate SameWord(a: WordInfo, b: WordInfo)
  {
    a.text == b.text && a.x0 == b.x0 && a.y0 == b.y0 && a.x1 == b.x1 && a.y1 == b.y1
  }

  /** `any(SameWord(e, w) for e in ws)`. */
  predicate Occurs(w: WordInfo, ws: seq<WordInfo>)
  {
    exists i :: 0 <= i < |ws| && SameWord(ws[i], w)
  }

  predicate NoDuplicates(ws: seq<WordInfo>)
  {
    forall i, j :: 0 <= i < j < |ws| ==> !SameWord(ws[i], ws[j])
  }

  /** The list after the `add_words` loop: each incoming word is appended
      unless an equal word is already in the list as it has grown so far. */
  function AddNew(existing: seq<WordInfo>, incoming: seq<WordInfo>): (r: seq<WordInfo>)
    ensures |existing| <= |r| <= |existing| + |incoming|
    ensures r[..|existing|] == existing
  {
    if |incoming| == 0 then existing
    else
      var r := AddNew(existing, incoming[..|incoming| - 1]);
      var w := incoming[|incoming| - 1];
      assert (r + [w])[..|existing|] == r[..|existing|];
      if Occurs(w, r) then r else r + [w]
  }

  /** After the loop every incoming word has an equal in the list. */
  lemma {:induction false} AddNewCovers(existing: seq<WordInfo>, incoming: seq<WordInfo>)
    ensures forall k :: 0 <= k < |incoming| ==> Occurs(incoming[k], AddNew(existing, incoming))
  {
    if |incoming| > 0 {
      var front := incoming[..|incoming| - 1];
      var r := AddNew(existing, front);
      var w := incoming[|incoming| - 1];
      AddNewCovers(existing, front);
      forall k | 0 <= k < |incoming| ensures Occurs(incoming[k], AddNew(existing, incoming)) {
        if k < |incoming| - 1 {
          assert incoming[k] == front[k];
          var i :| 0 <= i < |r| && SameWord(r[i], incoming[k]);
          assert (r + [w])[i] == r[i];
        } else if !Occurs(w, r) {
          assert (r + [w])[|r|] == w;
        }
      }
    }
  }

  /** Every appended word is an incoming word with no equal earlier in the list. */
  lemma {:induction false} AddNewAppends(existing: seq<WordInfo>, incoming: seq<WordInfo>)
    ensures forall i :: |existing| <= i < |AddNew(existing, incoming)| ==>
      AddNew(existing, incoming)[i] in incoming && !Occurs(AddNew(existing, incoming)[i], AddNew(existing, incoming)[..i])
  {
    if |incoming| > 0 {
      var front := incoming[..|incoming| - 1];
      var r := AddNew(existing, front);
      var w := incoming[|incoming| - 1];
      AddNewAppends(existing, front);
      var r' := AddNew(existing, incoming);
      forall i | |existing| <= i < |r'| ensures r'[i] in incoming && !Occurs(r'[i], r'[..i]) {
        if i < |r| {
          assert r'[i] == r[i] && r'[..i] == r[..i];
          assert r[i] in front;
          var k :| 0 <= k < |front| && front[k] == r[i];
          assert incoming[k] == r[i];
        } else {
          assert r' == r + [w] && r'[..i] == r;
        }
      }
    }
  }

  /** A duplicate-free list stays duplicate-free, even when the incoming list repeats a word. */
  lemma AddNewNoDuplicates(existing: seq<WordInfo>, incoming: seq<WordInfo>)
    requires NoDuplicates(existing)
    ensures NoDuplicates(AddNew(existing, incoming))
  {
    var r := AddNew(existing, incoming);
    AddNewAppends(existing, incoming);
    forall i, j | 0 <= i < j < |r| ensures !SameWord(r[i], r[j]) {
      if j >= |existing| {
        assert !Occurs(r[j], r[..j]);
        assert r[..j][i] == r[i];
      } else {
        assert r[i] == existing[i] && r[j] == existing[j];
      }
    }
  }

  /** The `remove_duplicate_words` loop: the same rule starting from an empty list. */
  function Dedup(ws: seq<WordInfo>): seq<WordInfo>
  {
    AddNew([], ws)
  }

  /** An independent description of the result: the words with no equal
      word before them in the input, in input order. */
  function FirstOccurrences(ws: seq<WordInfo>): seq<WordInfo>
  {
    if |ws| == 0 then []
    else
      var front := ws[..|ws| - 1];
      FirstOccurrences(front) + (if Occurs(ws[|ws| - 1], front) then [] else [ws[|ws| - 1]])
  }

  /** The deduplicated list and the input have the same words up to equality. */
  lemma DedupOccurs(ws: seq<WordInfo>, w: WordInfo)
    ensures Occurs(w, Dedup(ws)) <==> Occurs(w, ws)
  {
    var r := Dedup(ws);
    AddNewCovers([], ws);
    AddNewAppends([], ws);
    if Occurs(w, r) {
      var i :| 0 <= i < |r| && SameWord(r[i], w);
      var k :| 0 <= k < |ws| && ws[k] == r[i];
      assert SameWord(ws[k], w);
    }
    if Occurs(w, ws) {
      var k :| 0 <= k < |ws| && SameWord(ws[k], w);
      assert Occurs(ws[k], r);
      var i :| 0 <= i < |r| && SameWord(r[i], ws[k]);
      assert SameWord(r[i], w);
    }
  }

  /** `remove_duplicate_words` keeps exactly the first occurrences, in order. */
  lemma {:induction false} DedupFirstOccurrences(ws: seq<WordInfo>)
    ensures Dedup(ws) == FirstOccurrences(ws)
  {
    if |ws| > 0 {
      var front := ws[..|ws| - 1];
      DedupFirstOccurrences(front);
      DedupOccurs(front, ws[|ws| - 1]);
    }
  }

  /** Remove-duplicates results have no duplicates and lose no word. */
  lemma DedupSound(ws: seq<WordInfo>)
    ensures NoDuplicates(Dedup(ws))
    ensures forall k :: 0 <= k < |ws| ==> Occurs(ws[k], Dedup(ws))
  {
    AddNewNoDuplicates([], ws);
    AddNewCovers([], ws);
  }

  /** A duplicate-free list is left as it is. */
  lemma {:induction false} DedupFixed(ws: seq<WordInfo>)
    requires NoDuplicates(ws)
    ensures Dedup(ws) == ws
  {
    if |ws| > 0 {
      var front := ws[..|ws| - 1];
      assert NoDuplicates(front) by {
        forall i, j | 0 <= i < j < |front| ensures !SameWord(front[i], front[j]) {
          assert front[i] == ws[i] && front[j] == ws[j];
        }
      }
      DedupFixed(front);
      assert !Occurs(ws[|ws| - 1], front) by {
        forall i | 0 <= i < |front| ensures !SameWord(front[i], ws[|ws| - 1]) {
          assert front[i] == ws[i];
        }
      }
      assert front + [ws[|ws| - 1]] == ws;
    }
  }

  /** Removing duplicates twice is removing them once. */
  lemma DedupIdempotent(ws: seq<WordInfo>)
    ensures Dedup(Dedup(ws)) == Dedup(ws)
  {
    DedupSound(ws);
    DedupFixed(Dedup(ws));
  }

  // ----- content signature -----

  /** The bit one word contributes, tested in the source's order: numeric,
      else alphabetic, else not alphanumeric; a mixed alphanumeric word gives 0. */
  function Kind(text: string): (r: int)
    ensures r == 0 || r == 1 || r == 2 || r == 4
  {
    if Text.IsNumeric(text) then 1
    else if Text.IsAlpha(text) then 2
    else if !Text.IsAlnum(text) then 4
    else 0
  }

  /** Some word of ws contributes the given bit. */
  ghost predicate HasBit(ws: seq<WordInfo>, bit: int)
  {
    exists i :: 0 <= i < |ws| && Kind(ws[i].text) == bit
  }

  /** Bit 1 for numeric, bit 2 for alphabetic, bit 4 for special. */
  function Code(numeric: bool, alpha: bool, special: bool): (r: int)
    ensures 0 <= r < 8
    ensures r % 2 == 1 <==> numeric
    ensures (r / 2) % 2 == 1 <==> alpha
    ensures r / 4 == 1 <==> special
  {
    (if numeric then 1 else 0) + (if alpha then 2 else 0) + (if special then 4 else 0)
  }

  /** The value `analyze_words` computes for a word list. */
  ghost function Signature(ws: seq<WordInfo>): int
  {
    Code(HasBit(ws, 1), HasBit(ws, 2), HasBit(ws, 4))
  }

  /** Whether a bit is set depends only on which texts occur: a list whose
      every text occurs in another sets no bit the other does not. */
  lemma TextsCover(a: seq<WordInfo>, b: seq<WordInfo>)
    requires forall i :: 0 <= i < |a| ==> exists j :: 0 <= j < |b| && b[j].text == a[i].text
    ensures forall bit :: HasBit(a, bit) ==> HasBit(b, bit)
  {
    forall bit | HasBit(a, bit) ensures HasBit(b, bit) {
      var i :| 0 <= i < |a| && Kind(a[i].text) == bit;
      var j :| 0 <= j < |b| && b[j].text == a[i].text;
      assert Kind(b[j].text) == bit;
    }
  }

  /** Removing duplicates leaves the signature as it was, so a cluster's
      stored type stays right although `remove_duplicate_words` does not recompute it. */
  lemma DedupSignature(ws: seq<WordInfo>)
    ensures Signature(Dedup(ws)) == Signature(ws)
  {
    var r := Dedup(ws);
    assert forall bit :: HasBit(r, bit) ==> HasBit(ws, bit) by {
      AddNewAppends([], ws);
      forall i | 0 <= i < |r| ensures exists j :: 0 <= j < |ws| && ws[j].text == r[i].text {
        var j :| 0 <= j < |ws| && ws[j] == r[i];
      }
      TextsCover(r, ws);
    }
    assert forall bit :: HasBit(ws, bit) ==> HasBit(r, bit) by {
      AddNewCovers([], ws);
      forall j | 0 <= j < |ws| ensures exists i :: 0 <= i < |r| && r[i].text == ws[j].text {
        var i :| 0 <= i < |r| && SameWord(r[i], ws[j]);
      }
      TextsCover(ws, r);
    }
  }

  /** The label table of `get_type`. */
  function Label(t: int): (r: string)
    ensures r == "Unknown" <==> !(1 <= t <= 7)
  {
    if t == 1 then "Numeric"
    else if t == 2 then "Alpha"
    else if t == 4 then "Special Characters"
    else if t == 3 then "Alpha and Numeric"
    else if t == 5 then "Numeric and Special Characters"
    else if t == 6 then "Alpha and Special Characters"
    else if t == 7 then "Alpha, Numeric and Special Characters"
    else "Unknown"
  }

  /** The seven signatures 1..7 get seven different labels. */
  lemma LabelInjective(a: int, b: int)
    requires 1 <= a <= 7 && 1 <= b <= 7 && Label(a) == Label(b)
    ensures a == b
  {
    assert Label(a)[0] == Label(b)[0] && |Label(a)| == |Label(b)|;
  }

  /** A cluster of alphanumeric words that are neither purely numeric nor
      purely alphabetic sets no bit and is labelled "Unknown". */
  lemma MixedWordsUnknown(ws: seq<WordInfo>)
    requires forall i :: 0 <= i < |ws| ==>
      Text.IsAlnum(ws[i].text) && !Text.IsNumeric(ws[i].text) && !Text.IsAlpha(ws[i].text)
    ensures Signature(ws) == 0 && Label(Signature(ws)) == "Unknown"
  {
  }

  /** "ab12" is such a word. */
  lemma Ab12Unknown(w: WordInfo)
    requires w.text == "ab12"
    ensures Signature([w]) == 0 && Label(Signature([w])) == "Unknown"
  {
    assert Text.IsAlnum(w.text);
    assert !Text.IsNumeric(w.text) by { assert !Text.IsDigit(w.text[0]); }
    assert !Text.IsAlpha(w.text) by { assert !Text.IsLetter(w.text[2]); }
    MixedWordsUnknown([w]);
  }

  /** One word of each kind gives all three bits. */
  lemma AllKinds(a: WordInfo, b: WordInfo, c: WordInfo)
    requires a.text == "12" && b.text == "ab" && c.text == "%"
    ensures Signature([a, b, c]) == 7
    ensures Label(Signature([a, b, c])) == "Alpha, Numeric and Special Characters"
  {
    var ws := [a, b, c];
    assert Kind(ws[0].text) == 1;
    assert !Text.IsDigit(b.text[0]);
    assert Kind(ws[1].text) == 2;
    assert !Text.IsDigit(c.text[0]) && !Text.IsLetter(c.text[0]);
    assert Kind(ws[2].text) == 4;
  }
}
