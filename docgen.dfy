/** The test-document generator: a circular word feed over a buffer of
    words, sections that serialise to JSON-like dictionaries and back, and
    the pre-order flattening of a section tree into styled paragraphs. */
module DocGen {
  import Text
  import opened Collections

  // ----- TextFile.get_words -----

  /** The pointer step: advance, and go back to the start at the end. */
  function Step(p: int, len: int): (r: int)
    requires 0 <= p < len
    ensures 0 <= r < len
    ensures r == 0 <==> p == len - 1
  {
    if p + 1 >= len then 0 else p + 1
  }

  /** The pointer after n steps from p. */
  function Pos(p: int, n: int, len: int): (r: int)
    requires 0 <= p < len
    ensures 0 <= r < len
    decreases n
  {
    if n <= 0 then p else Pos(Step(p, len), n - 1, len)
  }

  /** The n words read from position p onward, wrapping around. */
  function Window(buffer: seq<string>, p: int, n: int): (r: seq<string>)
    requires 0 <= p < |buffer|
    ensures |r| == if n <= 0 then 0 else n
    decreases n
  {
    if n <= 0 then [] else [buffer[p]] + Window(buffer, Step(p, |buffer|), n - 1)
  }

  lemma {:induction false} PosSnoc(p: int, n: int, len: int)
    requires 0 <= p < len && n >= 0
    ensures Pos(p, n + 1, len) == Step(Pos(p, n, len), len)
    decreases n
  {
    if n > 0 {
      PosSnoc(Step(p, len), n - 1, len);
    }
  }

  lemma {:induction false} WindowSnoc(buffer: seq<string>, p: int, n: int)
    requires 0 <= p < |buffer| && n >= 0
    ensures Window(buffer, p, n + 1) == Window(buffer, p, n) + [buffer[Pos(p, n, |buffer|)]]
    decreases n
  {
    if n > 0 {
      WindowSnoc(buffer, Step(p, |buffer|), n - 1);
    }
  }

  /** Word i of the window is the buffer entry i steps after p, which is
      entry (p + i) mod len. */
  lemma {:induction false} WindowAt(buffer: seq<string>, p: int, n: int, i: int)
    requires 0 <= p < |buffer| && 0 <= i < n
    ensures Window(buffer, p, n)[i] == buffer[Pos(p, i, |buffer|)]
    ensures Window(buffer, p, n)[i] == buffer[(p + i) % |buffer|]
    decreases n
  {
    if i > 0 {
      WindowAt(buffer, Step(p, |buffer|), n - 1, i - 1);
    }
    PosMod(p, i, |buffer|);
  }

  /** The remainder is the r of any a = q * len + r with 0 <= r < len. */
  lemma ModUnique(a: int, len: int, q: int, r: int)
    requires 0 < len && 0 <= r < len && a == q * len + r
    ensures a % len == r
  {
    var q', r' := a / len, a % len;
    assert a == q' * len + r';
    assert q * len - q' * len == (q - q') * len;
    if q' < q {
      MulAtLeast(q - q', len);
    } else if q' > q {
      MulAtLeast(q' - q, len);
    }
  }

  lemma MulAtLeast(k: int, len: int)
    requires 1 <= k && 0 < len
    ensures k * len >= len
  {
    assert k * len == len + (k - 1) * len;
  }

  /** Adding one to a number adds one to its remainder, wrapping to 0 at len. */
  lemma ModStep(a: int, len: int)
    requires 0 <= a && 0 < len
    ensures (a + 1) % len == if a % len + 1 == len then 0 else a % len + 1
  {
    var d, m := a / len, a % len;
    assert a == d * len + m;
    if m + 1 == len {
      assert a + 1 == (d + 1) * len;
      ModUnique(a + 1, len, d + 1, 0);
    } else {
      ModUnique(a + 1, len, d, m + 1);
    }
  }

  /** The pointer after n steps from p is (p + n) mod len. */
  lemma {:induction false} PosMod(p: int, n: int, len: int)
    requires 0 <= p < len && 0 <= n
    ensures Pos(p, n, len) == (p + n) % len
    decreases n
  {
    if n == 0 {
      ModUnique(p, len, 0, p);
    } else {
      PosMod(p, n - 1, len);
      PosSnoc(p, n - 1, len);
      ModStep(p + n - 1, len);
    }
  }

  /** Until the end of the buffer is reached the pointer just counts up. */
  lemma {:induction false} PosNoWrap(p: int, n: int, len: int)
    requires 0 <= p < len && 0 <= n && p + n < len
    ensures Pos(p, n, len) == p + n
    decreases n
  {
    if n > 0 {
      PosNoWrap(p + 1, n - 1, len);
    }
  }

  lemma {:induction false} PosCompose(p: int, a: int, b: int, len: int)
    requires 0 <= p < len && 0 <= a && 0 <= b
    ensures Pos(p, a + b, len) == Pos(Pos(p, a, len), b, len)
    decreases a
  {
    if a > 0 {
      PosCompose(Step(p, len), a - 1, b, len);
    }
  }

  /** A full turn of len steps brings the pointer back where it was, so the
      pointer after n steps is (p + n) mod len. */
  lemma PosFullTurn(p: int, len: int)
    requires 0 <= p < len
    ensures Pos(p, len, len) == p
  {
    PosNoWrap(p, len - 1 - p, len);
    PosSnoc(p, len - 1 - p, len);
    PosCompose(p, len - p, p, len);
    PosNoWrap(0, p, len);
  }

  /** Consecutive reads continue where the previous one stopped. */
  lemma {:induction false} WindowConcat(buffer: seq<string>, p: int, a: int, b: int)
    requires 0 <= p < |buffer| && 0 <= a && 0 <= b
    ensures Window(buffer, p, a + b) == Window(buffer, p, a) + Window(buffer, Pos(p, a, |buffer|), b)
    decreases a
  {
    if a > 0 {
      WindowConcat(buffer, Step(p, |buffer|), a - 1, b);
    }
  }

  /** The word source: the whitespace-split words of a file, read in a circle. */
  class TextFile {
    var buffer: seq<string>
    var pointer: int

    ghost predicate Valid()
      reads this
    {
      0 <= pointer && (|buffer| == 0 ==> pointer == 0) && (|buffer| > 0 ==> pointer < |buffer|)
    }

    /** The file's contents, already split into words. */
    constructor(words: seq<string>)
      ensures buffer == words && pointer == 0 && Valid()
    {
      buffer := words;
      pointer := 0;
    }

    /** `get_words(n)`: the next n words joined by single spaces. On an empty
        buffer any n > 0 fails on the index, which is None here. */
    method GetWords(n: int) returns (r: Option<string>)
      requires Valid()
      modifies this
      ensures buffer == old(buffer) && Valid()
      ensures n <= 0 ==> r == Some("") && pointer == old(pointer)
      ensures |buffer| == 0 && n > 0 ==> r.None? && pointer == old(pointer)
      ensures |buffer| > 0 ==>
        r == Some(Text.Join(Window(buffer, old(pointer), n), ' ')) && pointer == Pos(old(pointer), n, |buffer|)
      ensures |buffer| > 0 && n >= 0 ==> pointer == (old(pointer) + n) % |buffer|
    {
      var words: seq<string> := [];
      var i := 0;
      while i < n
        invariant Valid() && buffer == old(buffer) && 0 <= i && (n > 0 ==> i <= n) && (n <= 0 ==> i == 0)
        invariant |buffer| == 0 ==> i == 0 && pointer == old(pointer)
        invariant |buffer| > 0 ==>
          words == Window(buffer, old(pointer), i) && pointer == Pos(old(pointer), i, |buffer|)
        invariant i == 0 ==> words == [] && pointer == old(pointer)
        decreases n - i
      {
        if |buffer| == 0 {
          return None;
        }
        WindowSnoc(buffer, old(pointer), i);
        PosSnoc(old(pointer), i, |buffer|);
        words := words + [buffer[pointer]];
        pointer := pointer + 1;
        if pointer >= |buffer| {
          pointer := 0;
        }
        i := i + 1;
      }
      r := Some(Text.Join(words, ' '));
      if |buffer| > 0 && n >= 0 {
        PosMod(old(pointer), n, |buffer|);
      }
    }
  }

  /** The words rejoined by `get_words` split back into exactly the words
      read, since the buffer's words hold no spaces. */
  lemma GetWordsSplits(buffer: seq<string>, p: int, n: int)
    requires 0 <= p < |buffer| && n > 0
    requires forall k :: 0 <= k < |buffer| ==> Text.Free(buffer[k], ' ')
    ensures Text.Split(Text.Join(Window(buffer, p, n), ' '), ' ') == Window(buffer, p, n)
  {
    var w := Window(buffer, p, n);
    forall k | 0 <= k < |w| ensures Text.Free(w[k], ' ') {
      WindowAt(buffer, p, n, k);
    }
    Text.SplitJoin(w, ' ');
  }

  // ----- Section.to_dict / Section.from_dict -----

  datatype Section = Section(id: int, number: string, subsections: seq<Section>, text: string)

  /** The JSON-like values `to_dict` produces; a dictionary keeps its keys in order. */
  datatype Value = Int(i: int) | Str(s: string) | List(items: seq<Value>) | Dict(entries: seq<(string, Value)>)

  function ToDict(s: Section): Value
  {
    Dict([("id", Int(s.id)), ("section_number", Str(s.number)),
          ("subsections", List(seq(|s.subsections|, i requires 0 <= i < |s.subsections| => ToDict(s.subsections[i])))),
          ("section_text", Str(s.text))])
  }

  /** The position of key in the dictionary, if present. */
  function Find(es: seq<(string, Value)>, key: string): (r: Option<nat>)
    ensures r.Some? ==> r.value < |es| && es[r.value].0 == key
    ensures r.None? <==> forall k :: 0 <= k < |es| ==> es[k].0 != key
  {
    if |es| == 0 then None
    else if es[0].0 == key then Some(0)
    else
      assert forall k :: 0 < k < |es| ==> es[k] == es[1..][k - 1];
      match Find(es[1..], key)
      case None => None
      case Some(i) => Some(i + 1)
  }

  /** `Section.from_dict`; a missing key or a field of the wrong kind is None. */
  function FromDict(v: Value): Option<Section>
    decreases v
  {
    if !v.Dict? then None
    else
      var es := v.entries;
      var iid := Find(es, "id");
      var inum := Find(es, "section_number");
      var isubs := Find(es, "subsections");
      var itext := Find(es, "section_text");
      if iid.None? || inum.None? || isubs.None? || itext.None? then None
      else
        var vid := es[iid.value].1;
        var vnum := es[inum.value].1;
        var vsubs := es[isubs.value].1;
        var vtext := es[itext.value].1;
        if !vid.Int? || !vnum.Str? || !vsubs.List? || !vtext.Str? then None
        else
          assert es[isubs.value] in es;
          match FromList(vsubs.items)
          case None => None
          case Some(subs) => Some(Section(vid.i, vnum.s, subs, vtext.s))
  }

  /** `[from_dict(sub) for sub in items]`, failing if any item fails. */
  function FromList(vs: seq<Value>): (r: Option<seq<Section>>)
    ensures r.Some? ==> |r.value| == |vs|
    decreases vs
  {
    if |vs| == 0 then Some([])
    else match FromDict(vs[0])
      case None => None
      case Some(s) =>
        match FromList(vs[1..])
        case None => None
        case Some(rest) => Some([s] + rest)
  }

  lemma {:induction false} FromListAll(items: seq<Value>, ss: seq<Section>)
    requires |items| == |ss| && forall k :: 0 <= k < |ss| ==> FromDict(items[k]) == Some(ss[k])
    ensures FromList(items) == Some(ss)
  {
    if |ss| > 0 {
      FromListAll(items[1..], ss[1..]);
      assert [ss[0]] + ss[1..] == ss;
    }
  }

  /** `from_dict(s.to_dict())` gives s back: id, number and text are kept and
      the subsections, recursively, in number and order. */
  lemma RoundTrip(s: Section)
    ensures FromDict(ToDict(s)) == Some(s)
    decreases s
  {
    var subs := s.subsections;
    var es := ToDict(s).entries;
    var items := es[2].1.items;
    assert FromList(items) == Some(subs) by {
      forall k | 0 <= k < |subs| ensures FromDict(items[k]) == Some(subs[k]) {
        RoundTrip(subs[k]);
      }
      FromListAll(items, subs);
    }
    assert Find(es, "id") == Some(0) && Find(es, "section_number") == Some(1)
        && Find(es, "subsections") == Some(2) && Find(es, "section_text") == Some(3) by {
      FindAt(es, "id", 0);
      FindAt(es, "section_number", 1);
      FindAt(es, "subsections", 2);
      FindAt(es, "section_text", 3);
    }
  }

  /** Find returns the first position holding the key. */
  lemma {:induction false} FindAt(es: seq<(string, Value)>, key: string, i: nat)
    requires i < |es| && es[i].0 == key && forall k :: 0 <= k < i ==> es[k].0 != key
    ensures Find(es, key) == Some(i)
  {
    if i > 0 {
      FindAt(es[1..], key, i - 1);
    }
  }

  // ----- add_section_to_elements -----

  datatype Style = BodyText | Title | Heading(level: int)

  /** A paragraph as the text and the style it is rendered with. */
  datatype Paragraph = Paragraph(text: string, style: Style)

  /** The paragraph for one section at the given depth. */
  function ParagraphFor(s: Section, depth: int): (r: Paragraph)
    ensures r.text == if s.number != "" then "<b>" + s.number + "</b> " + s.text else s.text
    ensures r.style == BodyText <==> s.number == "" && |s.subsections| == 0
    ensures r.style == Title <==> s.number == "" && |s.subsections| > 0
    ensures r.style.Heading? <==> s.number != ""
    ensures r.style.Heading? ==> r.style.level == (if depth + 1 < 5 then depth + 1 else 5)
    ensures depth >= 0 && r.style.Heading? ==> 1 <= r.style.level <= 5
  {
    var text := if s.number != "" then "<b>" + s.number + "</b> " + s.text else s.text;
    if s.number == "" && |s.subsections| == 0 then Paragraph(text, BodyText)
    else if s.number == "" then Paragraph(text, Title)
    else
      var headingLevel := if 5 < depth + 1 then 5 else depth + 1;
      Paragraph(text, Heading(headingLevel))
  }

  /** The sections of the tree in pre-order, each with its depth. */
  function PreOrder(s: Section, depth: int): (r: seq<(Section, int)>)
    ensures |r| > 0 && r[0] == (s, depth)
    decreases s, 1
  {
    [(s, depth)] + PreOrderList(s, s.subsections, depth + 1)
  }

  function PreOrderList(parent: Section, ss: seq<Section>, depth: int): seq<(Section, int)>
    requires forall k :: 0 <= k < |ss| ==> ss[k] < parent
    decreases parent, 0, |ss|
  {
    if |ss| == 0 then [] else PreOrder(ss[0], depth) + PreOrderList(parent, ss[1..], depth)
  }

  /** The number of sections in the tree. */
  function Count(s: Section): nat
    decreases s, 1
  {
    1 + CountList(s, s.subsections)
  }

  function CountList(parent: Section, ss: seq<Section>): nat
    requires forall k :: 0 <= k < |ss| ==> ss[k] < parent
    decreases parent, 0, |ss|
  {
    if |ss| == 0 then 0 else Count(ss[0]) + CountList(parent, ss[1..])
  }

  /** The paragraphs for a list of (section, depth) entries. */
  function Paragraphs(entries: seq<(Section, int)>): (r: seq<Paragraph>)
    ensures |r| == |entries|
  {
    if |entries| == 0 then [] else [ParagraphFor(entries[0].0, entries[0].1)] + Paragraphs(entries[1..])
  }

  /** Paragraph k is the one for entry k. */
  lemma {:induction false} ParagraphsAt(entries: seq<(Section, int)>, k: int)
    requires 0 <= k < |entries|
    ensures Paragraphs(entries)[k] == ParagraphFor(entries[k].0, entries[k].1)
  {
    if k > 0 {
      ParagraphsAt(entries[1..], k - 1);
    }
  }

  lemma {:induction false} ParagraphsAppend(a: seq<(Section, int)>, b: seq<(Section, int)>)
    ensures Paragraphs(a + b) == Paragraphs(a) + Paragraphs(b)
  {
    if |a| == 0 {
      assert a + b == b;
    } else {
      assert (a + b)[1..] == a[1..] + b;
      ParagraphsAppend(a[1..], b);
    }
  }

  lemma {:induction false} PreOrderListSnoc(parent: Section, ss: seq<Section>, k: int, depth: int)
    requires forall j :: 0 <= j < |ss| ==> ss[j] < parent
    requires 0 <= k < |ss|
    ensures PreOrderList(parent, ss[..k + 1], depth) == PreOrderList(parent, ss[..k], depth) + PreOrder(ss[k], depth)
    decreases k
  {
    if k == 0 {
      assert ss[..1][1..] == [];
    } else {
      assert ss[..k + 1][1..] == ss[1..][..k];
      assert ss[..k][1..] == ss[1..][..k - 1];
      PreOrderListSnoc(parent, ss[1..], k - 1, depth);
    }
  }

  /** There is one entry per section of the tree. */
  lemma PreOrderCount(s: Section, depth: int)
    ensures |PreOrder(s, depth)| == Count(s)
    decreases s, 1
  {
    PreOrderListCount(s, s.subsections, depth + 1);
  }

  lemma PreOrderListCount(parent: Section, ss: seq<Section>, depth: int)
    requires forall k :: 0 <= k < |ss| ==> ss[k] < parent
    ensures |PreOrderList(parent, ss, depth)| == CountList(parent, ss)
    decreases parent, 0, |ss|
  {
    if |ss| > 0 {
      PreOrderCount(ss[0], depth);
      PreOrderListCount(parent, ss[1..], depth);
    }
  }

  /** No entry of the pre-order sits above the depth it started at. */
  lemma PreOrderDepths(s: Section, depth: int)
    ensures forall k :: 0 <= k < |PreOrder(s, depth)| ==> PreOrder(s, depth)[k].1 >= depth
    decreases s, 1
  {
    PreOrderListDepths(s, s.subsections, depth + 1);
  }

  lemma PreOrderListDepths(parent: Section, ss: seq<Section>, depth: int)
    requires forall k :: 0 <= k < |ss| ==> ss[k] < parent
    ensures forall k :: 0 <= k < |PreOrderList(parent, ss, depth)| ==> PreOrderList(parent, ss, depth)[k].1 >= depth
    decreases parent, 0, |ss|
  {
    if |ss| > 0 {
      PreOrderDepths(ss[0], depth);
      PreOrderListDepths(parent, ss[1..], depth);
      var a := PreOrder(ss[0], depth);
      var b := PreOrderList(parent, ss[1..], depth);
      assert forall k :: 0 <= k < |a + b| ==> (a + b)[k] == (if k < |a| then a[k] else b[k - |a|]);
    }
  }

  /** Every heading in the output of a tree flattened from depth 0 or deeper
      has a level between 1 and 5. */
  lemma HeadingLevels(s: Section, depth: int)
    requires depth >= 0
    ensures var ps := Paragraphs(PreOrder(s, depth));
      forall k :: 0 <= k < |ps| && ps[k].style.Heading? ==> 1 <= ps[k].style.level <= 5
  {
    var e := PreOrder(s, depth);
    PreOrderDepths(s, depth);
    forall k | 0 <= k < |e| ensures Paragraphs(e)[k] == ParagraphFor(e[k].0, e[k].1) {
      ParagraphsAt(e, k);
    }
  }

  /** The shared `elements` list the paragraphs are appended to. */
  class Elements {
    var items: seq<Paragraph>

    constructor()
      ensures items == []
    {
      items := [];
    }
  }

  /** `add_section_to_elements`: appends the paragraph of the section, then
      those of its subsections one level deeper, in pre-order. */
  method AddSectionToElements(section: Section, elements: Elements, depth: int := 0)
    modifies elements
    ensures elements.items == old(elements.items) + Paragraphs(PreOrder(section, depth))
    decreases section
  {
    var paragraph := ParagraphFor(section, depth);
    elements.items := elements.items + [paragraph];
    ghost var base := elements.items;
    var subs := section.subsections;
    for k := 0 to |subs|
      invariant elements.items == base + Paragraphs(PreOrderList(section, subs[..k], depth + 1))
    {
      ghost var before := elements.items;
      AddSectionToElements(subs[k], elements, depth + 1);
      FlattenStep(base, before, elements.items, section, k, depth + 1);
    }
    FlattenDone(old(elements.items), section, depth);
  }

  lemma FlattenStep(base: seq<Paragraph>, before: seq<Paragraph>, after: seq<Paragraph>, section: Section, k: int, depth: int)
    requires 0 <= k < |section.subsections|
    requires before == base + Paragraphs(PreOrderList(section, section.subsections[..k], depth))
    requires after == before + Paragraphs(PreOrder(section.subsections[k], depth))
    ensures after == base + Paragraphs(PreOrderList(section, section.subsections[..k + 1], depth))
  {
    var subs := section.subsections;
    var a := PreOrderList(section, subs[..k], depth);
    var b := PreOrder(subs[k], depth);
    var whole := PreOrderList(section, subs[..k + 1], depth);
    PreOrderListSnoc(section, subs, k, depth);
    ParagraphsAppend(a, b);
    Regroup(base, Paragraphs(a), Paragraphs(b), Paragraphs(whole));
  }

  /** Appending two runs of paragraphs one after the other is appending
      their concatenation. */
  lemma Regroup<T>(base: seq<T>, x: seq<T>, y: seq<T>, xy: seq<T>)
    requires xy == x + y
    ensures base + x + y == base + xy
  {
  }

  lemma FlattenDone(start: seq<Paragraph>, section: Section, depth: int)
    ensures start + [ParagraphFor(section, depth)]
              + Paragraphs(PreOrderList(section, section.subsections[..|section.subsections|], depth + 1))
         == start + Paragraphs(PreOrder(section, depth))
  {
    var subs := section.subsections;
    assert subs[..|subs|] == subs;
    ParagraphsAppend([(section, depth)], PreOrderList(section, subs, depth + 1));
  }
}
