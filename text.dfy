/**
 * Text files as paragraphs of sentences (src/text.py): a file is grouped
 * into paragraphs at blank lines, a paragraph is split into sentences at a
 * sentence end followed by a space, a newline or the end of the text, and
 * every sentence is keyed by the SHA-1 of its simplified form, so that
 * sentences differing only in case, whitespace or punctuation share a key.
 */
module Text {
  import opened PyStr
  import opened Hashing
  import opened Optional
  import opened Signals

  // ---------------------------------------------------------------------
  // Simplification

  /** What `Text.simplify` is meant to produce from a line: the line without
      trailing whitespace, every whitespace and punctuation character
      dropped, in lower case. */
  function Simplified(line: string): string
  {
    Lower(Remove(RStrip(line), SeparatorClass))
  }

  /** `Text.simplify`: the simplified form, and the line without trailing
      whitespace. Splitting on the separators and joining the non-empty
      pieces drops exactly the separator characters. */
  function Simplify(line: string): (r: (string, string))
    ensures r.1 == RStrip(line)
    ensures r.0 == Simplified(line)
    ensures '\\' !in line ==> r == SimplifyAsWritten(line)
  {
    var l := RStrip(line);
    WordsConcat(l, SeparatorClass);
    assert '\\' !in line ==> '\\' !in l by {
      if '\\' in l {
        var i :| 0 <= i < |l| && l[i] == '\\';
        assert line[i] == '\\';
      }
    }
    WordsWithoutBackslash(l);
    (Lower(Concat(Words(l, SeparatorClass))), l)
  }

  /** `simplify` with the pattern as the source builds it, which leaves
      backslashes in (see `SeparatorClassAsWritten`). */
  function SimplifyAsWritten(line: string): (string, string)
  {
    var l := RStrip(line);
    (Lower(Concat(Words(l, SeparatorClassAsWritten))), l)
  }

  /** As written, `a\b` keeps its backslash, so it does not simplify like
      `ab`; as intended the two agree. */
  lemma SimplifyBackslashAsWritten()
    ensures SimplifyAsWritten("a\\b").0 == "a\\b"
    ensures Simplify("a\\b").0 == Simplify("ab").0 == "ab"
  {
    BackslashLineAsWritten();
    BackslashLineIntended();
  }

  lemma BackslashLineAsWritten()
    ensures SimplifyAsWritten("a\\b").0 == "a\\b"
  {
    var s := "a\\b";
    BackslashLineStripped();
    BackslashLineIsWord();
    ConcatPlainWord(s, SeparatorClassAsWritten);
    BackslashLineLower();
  }

  lemma BackslashLineStripped()
    ensures RStrip("a\\b") == "a\\b"
  {
    var s := "a\\b";
    assert s[2] == 'b' && |s| == 3;
    assert s[2] !in Space;
  }

  lemma BackslashLineIsWord()
    ensures IsWord("a\\b", SeparatorClassAsWritten)
  {
    var s := "a\\b";
    assert s[0] == 'a' && s[1] == '\\' && s[2] == 'b' && |s| == 3;
    assert 'a' !in SeparatorClassAsWritten && '\\' !in SeparatorClassAsWritten && 'b' !in SeparatorClassAsWritten;
  }

  lemma BackslashLineLower()
    ensures Lower("a\\b") == "a\\b"
  {
    var s := "a\\b";
    assert s[0] == 'a' && s[1] == '\\' && s[2] == 'b' && |s| == 3;
  }

  /** A word free of the class comes back whole from splitting and joining. */
  lemma ConcatPlainWord(s: string, cls: set<char>)
    requires IsWord(s, cls)
    ensures Concat(Words(s, cls)) == s
  {
    WordsOfPlain(s, cls);
    assert Concat([s]) == s;
  }

  lemma BackslashLineIntended()
    ensures Simplified("a\\b") == Simplified("ab") == "ab"
  {
    BackslashRemoved();
    assert Lower("ab") == "ab";
  }

  lemma BackslashRemoved()
    ensures Remove(RStrip("a\\b"), SeparatorClass) == "ab"
    ensures Remove(RStrip("ab"), SeparatorClass) == "ab"
  {
    var s := "a\\b";
    assert RStrip(s) == s by {
      assert s[2] == 'b' && |s| == 3;
      assert s[2] !in Space;
    }
    assert RStrip("ab") == "ab" by {
      assert "ab"[1] !in Space;
    }
    RemoveBackslash();
    RemovePlain("ab", SeparatorClass);
  }

  lemma RemoveBackslash()
    ensures Remove("a\\b", SeparatorClass) == "ab"
  {
    assert 'a' !in SeparatorClass && 'b' !in SeparatorClass;
    RemoveOneBackslash();
    RemoveOneKept('a');
    RemoveOneKept('b');
    RemoveAppend(['a'], ['\\', 'b'], SeparatorClass);
    RemoveAppend(['\\'], ['b'], SeparatorClass);
    assert "a\\b" == ['a'] + (['\\'] + ['b']);
  }

  lemma RemoveOneBackslash()
    ensures Remove("\\", SeparatorClass) == []
  {
    assert '\\' in SeparatorClass;
  }

  lemma RemoveOneKept(c: char)
    requires c !in SeparatorClass
    ensures Remove([c], SeparatorClass) == [c]
  {
  }

  /** Case does not matter to the simplified form. */
  lemma SimplifyIgnoresCase(a: string, b: string)
    requires Lower(a) == Lower(b)
    ensures Simplify(a).0 == Simplify(b).0
  {
    LowerSimplified(a);
    LowerSimplified(b);
  }

  /** The simplified form depends on the lower-cased line only. */
  lemma LowerSimplified(a: string)
    ensures Simplified(a) == Remove(RStrip(Lower(a)), SeparatorClass)
  {
    LowerRStrip(a);
    LowerRemove(RStrip(a));
  }

  /** Nor does a whitespace or punctuation character anywhere before the
      last visible character. */
  lemma SimplifyIgnoresSeparator(x: string, d: char, y: string)
    requires d in SeparatorClass
    requires RStrip(y) != []
    ensures Simplify(x + [d] + y).0 == Simplify(x + y).0
  {
    RemoveIgnoresSeparator(x, d, y);
  }

  lemma RemoveIgnoresSeparator(x: string, d: char, y: string)
    requires d in SeparatorClass
    requires RStrip(y) != []
    ensures Remove(RStrip(x + [d] + y), SeparatorClass) == Remove(RStrip(x + y), SeparatorClass)
  {
    assert x + [d] + y == (x + [d]) + y;
    RStripPrefix(x + [d], y);
    RStripPrefix(x, y);
    RemoveDropsOne(x, d, RStrip(y), SeparatorClass);
  }

  /** Removing a class drops a character of that class wherever it stands. */
  lemma RemoveDropsOne(x: string, d: char, t: string, cls: set<char>)
    requires d in cls
    ensures Remove(x + [d] + t, cls) == Remove(x + t, cls)
  {
    RemoveAppend(x + [d], t, cls);
    RemoveAppend(x, [d], cls);
    RemoveAppend(x, t, cls);
    assert Remove([d], cls) == [];
  }

  // ---------------------------------------------------------------------
  // Sentences

  /** `Text.Marks.sentence_end` */
  const SentenceEnd: set<char> := {'.', '!', '?'}
  /** The characters of `Text.Marks.sentence_sep`; its third entry, `$`,
      is the end-of-text anchor. */
  const SentenceSep: set<char> := {' ', '\n'}

  /** The length of the pattern's match at `p`: a sentence end followed by
      a separator (2), a sentence end at the end of the text (1), or none
      (0). A sentence end followed by a final newline matches both `[.]\n`
      and `[.]$`; the two-character match is taken. */
  function MarkLength(s: string, p: nat): (n: nat)
    requires p < |s|
    ensures n <= 2 && p + n <= |s|
  {
    if s[p] !in SentenceEnd then 0
    else if p + 1 < |s| && s[p + 1] in SentenceSep then 2
    else if p + 1 == |s| then 1
    else 0
  }

  /** The first position at or after `p` where the pattern matches, or `|s|`. */
  function FirstMark(s: string, p: nat): (q: nat)
    requires p <= |s|
    ensures p <= q <= |s|
    ensures q < |s| ==> MarkLength(s, q) > 0
    ensures forall i :: p <= i < q ==> MarkLength(s, i) == 0
    decreases |s| - p
  {
    if p == |s| then |s|
    else if MarkLength(s, p) > 0 then p
    else FirstMark(s, p + 1)
  }

  /** `re.split(pattern, s)`: the pieces between successive matches. */
  function Pieces(s: string): (r: seq<string>)
    ensures |r| > 0
    decreases |s|
  {
    var q := FirstMark(s, 0);
    if q == |s| then [s]
    else [s[..q]] + Pieces(s[q + MarkLength(s, q)..])
  }

  /** The non-empty strings of `ps`, in order. */
  function NonEmpty(ps: seq<string>): (r: seq<string>)
    ensures forall i :: 0 <= i < |r| ==> r[i] != []
    ensures |r| <= |ps|
  {
    if ps == [] then []
    else (if ps[0] == [] then [] else [ps[0]]) + NonEmpty(ps[1..])
  }

  /** `Text.split_at_token` with the sentence marks. */
  function SplitAtToken(paragraph: string): seq<string>
  {
    NonEmpty(Pieces(paragraph))
  }

  /** No end mark followed by a separator inside the text. */
  predicate NoSentenceBreak(f: string)
  {
    forall i :: 0 <= i < |f| - 1 ==> !(f[i] in SentenceEnd && f[i + 1] in SentenceSep)
  }

  lemma {:induction false} PiecesHaveNoBreak(s: string)
    ensures forall f :: f in Pieces(s) ==> NoSentenceBreak(f)
    decreases |s|
  {
    var q := FirstMark(s, 0);
    if q < |s| {
      PiecesHaveNoBreak(s[q + MarkLength(s, q)..]);
      var f := s[..q];
      forall i | 0 <= i < |f| - 1 ensures !(f[i] in SentenceEnd && f[i + 1] in SentenceSep) {
        assert MarkLength(s, i) == 0;
      }
    } else {
      forall i | 0 <= i < |s| - 1 ensures !(s[i] in SentenceEnd && s[i + 1] in SentenceSep) {
        assert MarkLength(s, i) == 0;
      }
    }
  }

  lemma {:induction false} NonEmptyKeeps(ps: seq<string>, P: string -> bool)
    requires forall f :: f in ps ==> P(f)
    ensures forall f :: f in NonEmpty(ps) ==> P(f)
    decreases |ps|
  {
    if ps != [] {
      NonEmptyKeeps(ps[1..], P);
    }
  }

  /** Every sentence is non-empty and holds no end mark followed by a
      separator. */
  lemma SentencesAreUnbroken(paragraph: string)
    ensures forall f :: f in SplitAtToken(paragraph) ==> f != [] && NoSentenceBreak(f)
  {
    PiecesHaveNoBreak(paragraph);
    NonEmptyKeeps(Pieces(paragraph), NoSentenceBreak);
    var r := SplitAtToken(paragraph);
    forall f | f in r ensures f != [] {
      var i :| 0 <= i < |r| && r[i] == f;
    }
  }

  /** The pattern cannot match before the first end mark. */
  lemma {:induction false} FirstMarkAfterPlain(w: string, t: string, p: nat)
    requires p <= |w|
    requires forall i :: 0 <= i < |w| ==> w[i] !in SentenceEnd
    ensures FirstMark(w + t, p) == FirstMark(w + t, |w|)
    decreases |w| - p
  {
    if p < |w| {
      assert (w + t)[p] == w[p];
      FirstMarkAfterPlain(w, t, p + 1);
    }
  }

  /** Sentences without end marks, joined by an end mark and a separator,
      are split back into those sentences. */
  lemma {:induction false} SplitAtTokenJoin(ws: seq<string>, m: char, c: char)
    requires m in SentenceEnd && c in SentenceSep
    requires forall w :: w in ws ==> IsWord(w, SentenceEnd)
    ensures SplitAtToken(Join(ws, [m, c])) == ws
    decreases |ws|
  {
    if ws == [] {
      assert Pieces([]) == [[]];
    } else {
      var w := ws[0];
      assert IsWord(w, SentenceEnd);
      if |ws| == 1 {
        FirstMarkAfterPlain(w, [], 0);
        assert w + [] == w;
        assert Pieces(w) == [w];
      } else {
        var rest := Join(ws[1..], [m, c]);
        var s := Join(ws, [m, c]);
        assert s == w + ([m, c] + rest);
        FirstMarkAfterPlain(w, [m, c] + rest, 0);
        assert s[|w|] == m && s[|w| + 1] == c;
        assert MarkLength(s, |w|) == 2;
        assert s[..|w|] == w;
        assert s[|w| + 2..] == rest;
        assert Pieces(s) == [w] + Pieces(rest);
        SplitAtTokenJoin(ws[1..], m, c);
        assert ([w] + Pieces(rest))[1..] == Pieces(rest);
        assert ws == [w] + ws[1..];
      }
    }
  }

  // ---------------------------------------------------------------------
  // Fragments and paragraphs

  /** `TextFragment`: a sentence, its simplified form and the key of that form. */
  datatype Fragment = Fragment(simplified: string, text: string, signature: string)

  /** `TextFragment(line, Text.simplify)` */
  function MakeFragment(line: string, sha1: Sha1): (f: Fragment)
    ensures f.text == RStrip(line)
    ensures f.simplified == Simplified(line)
    ensures IsHexDigest(f.signature)
    ensures '\\' !in line ==> f.simplified == SimplifyAsWritten(line).0
  {
    var (simplified, text) := Simplify(line);
    Fragment(simplified, text, sha1(simplified))
  }

  /** Sentences that differ only in case share their key. */
  lemma FragmentSignatureIgnoresCase(a: string, b: string, sha1: Sha1)
    requires Lower(a) == Lower(b)
    ensures MakeFragment(a, sha1).signature == MakeFragment(b, sha1).signature
  {
    SimplifyIgnoresCase(a, b);
  }

  /** The sentences of a paragraph: Python's `OrderedDict` from key to
      fragment, as the order its keys were first inserted in and the mapping. */
  datatype Paragraph = Paragraph(order: seq<string>, sentences: map<string, Fragment>)
  {
    /** Keys distinct, exactly the mapping's keys, each fragment under its own key. */
    ghost predicate Valid()
    {
      && (forall i, j :: 0 <= i < j < |order| ==> order[i] != order[j])
      && (forall k :: k in sentences <==> k in order)
      && (forall k :: k in sentences ==> sentences[k].signature == k)
    }

    /** `Paragraph.__len__` */
    function Len(): (n: nat)
      requires Valid()
      ensures n == |sentences|
    {
      DistinctCard(order, sentences.Keys);
      |order|
    }

    /** `Paragraph.__getitem__` */
    function Get(signature: string): (r: Option<Fragment>)
      ensures r.Some? <==> signature in sentences
      ensures r.Some? ==> r.value == sentences[signature]
    {
      if signature in sentences then Some(sentences[signature]) else None
    }

    /** `Paragraph.find`: the whole mapping when the key is one of its keys. */
    method Find(targetSignature: string) returns (r: Option<map<string, Fragment>>)
      requires Valid()
      ensures r.Some? <==> targetSignature in sentences
      ensures r.Some? ==> r.value == sentences
    {
      var i := 0;
      while i < |order|
        invariant 0 <= i <= |order|
        invariant targetSignature !in order[..i]
      {
        if targetSignature == order[i] {
          return Some(sentences);
        }
        i := i + 1;
      }
      assert order[..|order|] == order;
      return None;
    }

    /** `Paragraph.signature`: the digest of the concatenated keys. */
    function Signature(sha1: Sha1): (s: string)
      ensures IsHexDigest(s)
    {
      sha1(Concat(order))
    }
  }

  lemma {:induction false} DistinctCard(order: seq<string>, keys: set<string>)
    requires forall i, j :: 0 <= i < j < |order| ==> order[i] != order[j]
    requires forall k :: k in keys <==> k in order
    ensures |keys| == |order|
    decreases |order|
  {
    if order != [] {
      var n := |order| - 1;
      var init := order[..n];
      forall k ensures k in keys - {order[n]} <==> k in init {
        if k in init {
          var i :| 0 <= i < n && init[i] == k;
          assert order[i] == k;
        }
        if k in order && k != order[n] {
          var i :| 0 <= i < |order| && order[i] == k;
          assert init[i] == k;
        }
      }
      DistinctCard(init, keys - {order[n]});
    }
  }

  const EmptyParagraph := Paragraph([], map[])

  /** Storing one fragment: a new key goes last, a known key keeps its place
      and gets the new fragment. */
  function Put(p: Paragraph, f: Fragment): (r: Paragraph)
  {
    if f.signature in p.sentences then Paragraph(p.order, p.sentences[f.signature := f])
    else Paragraph(p.order + [f.signature], p.sentences[f.signature := f])
  }

  /** Storing fragments one after another. */
  function PutAll(fs: seq<Fragment>): Paragraph
    decreases |fs|
  {
    if fs == [] then EmptyParagraph else Put(PutAll(fs[..|fs| - 1]), fs[|fs| - 1])
  }

  /** The fragments of the sentences of a paragraph's lines. */
  function Fragments(lines: seq<string>, sha1: Sha1): (fs: seq<Fragment>)
  {
    var ss := SplitAtToken(Join(lines, " "));
    seq(|ss|, i requires 0 <= i < |ss| => MakeFragment(ss[i], sha1))
  }

  /** `Paragraph(lines)` */
  function ParagraphOf(lines: seq<string>, sha1: Sha1): Paragraph
  {
    PutAll(Fragments(lines, sha1))
  }

  /** Building a paragraph keeps its invariant. */
  lemma {:induction false} PutAllValid(fs: seq<Fragment>)
    ensures PutAll(fs).Valid()
    decreases |fs|
  {
    if fs != [] {
      PutAllValid(fs[..|fs| - 1]);
    }
  }

  /** `i` is the last position among `fs` of a fragment with key `k`. */
  predicate LastWith(fs: seq<Fragment>, k: string, i: int)
  {
    0 <= i < |fs| && fs[i].signature == k && forall j :: i < j < |fs| ==> fs[j].signature != k
  }

  /** A key is in the paragraph exactly when some fragment has it, and it
      holds the LAST fragment with that key. */
  lemma {:induction false} PutAllContents(fs: seq<Fragment>, k: string)
    ensures k in PutAll(fs).sentences <==> exists i :: 0 <= i < |fs| && fs[i].signature == k
    ensures k in PutAll(fs).sentences ==> exists i :: LastWith(fs, k, i) && PutAll(fs).sentences[k] == fs[i]
    decreases |fs|
  {
    if fs != [] {
      var n := |fs| - 1;
      var init := fs[..n];
      PutAllContents(init, k);
      assert forall j :: 0 <= j < n ==> init[j] == fs[j];
      if exists i :: 0 <= i < |fs| && fs[i].signature == k {
        var i :| 0 <= i < |fs| && fs[i].signature == k;
        if i < n {
          assert init[i].signature == k;
        }
      }
      if fs[n].signature == k {
        assert LastWith(fs, k, n);
      } else if k in PutAll(fs).sentences {
        var i :| LastWith(init, k, i) && PutAll(init).sentences[k] == init[i];
        assert LastWith(fs, k, i);
      }
    }
  }

  /** `i` is the first position among `fs` of a fragment with key `k`. */
  predicate FirstWith(fs: seq<Fragment>, k: string, i: int)
  {
    0 <= i < |fs| && fs[i].signature == k && forall j :: 0 <= j < i ==> fs[j].signature != k
  }

  /** The keys come in the order of their first fragments. */
  lemma {:induction false} PutAllOrder(fs: seq<Fragment>, a: nat, b: nat)
    requires a < b < |PutAll(fs).order|
    ensures exists i, j :: FirstWith(fs, PutAll(fs).order[a], i) && FirstWith(fs, PutAll(fs).order[b], j) && i < j
    decreases |fs|
  {
    var n := |fs| - 1;
    var init := fs[..n];
    assert forall j :: 0 <= j < n ==> init[j] == fs[j];
    var order := PutAll(fs).order;
    PutAllValid(init);
    if b < |PutAll(init).order| {
      assert order[..|PutAll(init).order|] == PutAll(init).order;
      PutAllOrder(init, a, b);
      var i, j :| FirstWith(init, order[a], i) && FirstWith(init, order[b], j) && i < j;
      assert FirstWith(fs, order[a], i) && FirstWith(fs, order[b], j);
    } else {
      var pa := PutAll(init);
      assert order[a] == pa.order[a];
      assert order[b] == fs[n].signature && fs[n].signature !in pa.sentences;
      PutAllContents(init, order[a]);
      PutAllContents(init, order[b]);
      FirstExists(init, order[a]);
      var i :| FirstWith(init, order[a], i);
      assert FirstWith(fs, order[a], i);
      assert FirstWith(fs, order[b], n);
    }
  }

  lemma FirstExists(fs: seq<Fragment>, k: string)
    requires exists i :: 0 <= i < |fs| && fs[i].signature == k
    ensures exists i :: FirstWith(fs, k, i)
  {
    var i :| 0 <= i < |fs| && fs[i].signature == k;
    while exists j :: 0 <= j < i && fs[j].signature == k
      invariant 0 <= i < |fs| && fs[i].signature == k
      decreases i
    {
      var j :| 0 <= j < i && fs[j].signature == k;
      i := j;
    }
    assert FirstWith(fs, k, i);
  }

  /** `Paragraph.__init__`: the fragments of the sentences are made first
      and then stored one by one. */
  method NewParagraph(lines: seq<string>, sha1: Sha1) returns (p: Paragraph)
    ensures p == ParagraphOf(lines, sha1)
    ensures p.Valid()
  {
    var fragments := Fragments(lines, sha1);
    p := PutFragments(fragments);
    PutAllValid(fragments);
  }

  /** The loop of `Paragraph(lines)`: each fragment stored in turn. */
  method PutFragments(fragments: seq<Fragment>) returns (p: Paragraph)
    ensures p == PutAll(fragments)
  {
    p := EmptyParagraph;
    var i := 0;
    while i < |fragments|
      invariant 0 <= i <= |fragments|
      invariant p == PutAll(fragments[..i])
    {
      var f := fragments[i];
      PutAllSnoc(fragments, i);
      if f.signature in p.sentences {
        p := Paragraph(p.order, p.sentences[f.signature := f]);
      } else {
        p := Paragraph(p.order + [f.signature], p.sentences[f.signature := f]);
      }
      i := i + 1;
    }
    assert fragments[..i] == fragments;
  }

  lemma PutAllSnoc(fs: seq<Fragment>, i: int)
    requires 0 <= i < |fs|
    ensures PutAll(fs[..i + 1]) == Put(PutAll(fs[..i]), fs[i])
  {
    assert fs[..i + 1][..i] == fs[..i];
  }

  // ---------------------------------------------------------------------
  // Paragraph collections

  /** `Paragraphs`: the paragraphs of a file, in file order. */
  class Paragraphs {
    var contents: seq<Paragraph>

    constructor ()
      ensures contents == []
    {
      contents := [];
    }

    /** `Paragraphs.add` */
    method Add(paragraph: Paragraph)
      modifies this
      ensures contents == old(contents) + [paragraph]
    {
      contents := contents + [paragraph];
    }

    /** `Paragraphs.__getitem__`: the first paragraph with the same signature. */
    method GetItem(paragraph: Paragraph, sha1: Sha1) returns (r: Option<Paragraph>)
      ensures r.Some? <==> paragraph.Signature(sha1) in Signatures(contents, sha1)
      ensures r.Some? ==> exists i :: FirstWithSignature(contents, paragraph.Signature(sha1), sha1, i) && r.value == contents[i]
    {
      var target := paragraph.Signature(sha1);
      var i := 0;
      while i < |contents|
        invariant 0 <= i <= |contents|
        invariant forall j :: 0 <= j < i ==> contents[j].Signature(sha1) != target
      {
        if target == contents[i].Signature(sha1) {
          assert FirstWithSignature(contents, target, sha1, i);
          assert Signatures(contents, sha1)[i] == target;
          return Some(contents[i]);
        }
        i := i + 1;
      }
      return None;
    }

    /** `Paragraphs.find`: in sentence context, the fragment with the key
        from every paragraph that has it, in order; in paragraph context,
        nothing. */
    method Find(targetSentence: string, context: ContextMark) returns (result: seq<Fragment>)
      requires forall i :: 0 <= i < |contents| ==> contents[i].Valid()
      ensures context == ParagraphContext ==> result == []
      ensures context == SentenceContext ==> result == Occurrences(contents, targetSentence)
    {
      result := [];
      if context == SentenceContext {
        var i := 0;
        while i < |contents|
          invariant 0 <= i <= |contents|
          invariant result == Occurrences(contents[..i], targetSentence)
        {
          assert contents[..i + 1][..i] == contents[..i];
          var found := contents[i].Find(targetSentence);
          if found.Some? {
            result := result + [contents[i].sentences[targetSentence]];
          }
          i := i + 1;
        }
        assert contents[..|contents|] == contents;
      }
    }

    /** `Paragraphs.compare`: the signatures of `paragraphs`, in their order
        and with their repetitions, that are also signatures of this one. */
    function Compare(paragraphs: Paragraphs, sha1: Sha1): (r: seq<string>)
      reads this, paragraphs
      ensures forall x :: multiset(r)[x] ==
                if x in Signatures(contents, sha1) then multiset(Signatures(paragraphs.contents, sha1))[x] else 0
      ensures IsSubsequence(r, Signatures(paragraphs.contents, sha1))
    {
      var own := Signatures(contents, sha1);
      var received := Signatures(paragraphs.contents, sha1);
      FilterCount(received, own);
      FilterSubsequence(received, own);
      Filter(received, own)
    }
  }

  /** The fragment keyed `target` of every paragraph that has one. */
  function Occurrences(ps: seq<Paragraph>, target: string): seq<Fragment>
    decreases |ps|
  {
    if ps == [] then []
    else
      var n := |ps| - 1;
      Occurrences(ps[..n], target) + (if target in ps[n].sentences then [ps[n].sentences[target]] else [])
  }

  /** The fragments found carry the key looked for, and there is one per
      paragraph holding the key. */
  lemma {:induction false} OccurrencesKeyed(ps: seq<Paragraph>, target: string)
    requires forall i :: 0 <= i < |ps| ==> ps[i].Valid()
    ensures forall f :: f in Occurrences(ps, target) ==> f.signature == target
    ensures |Occurrences(ps, target)| == |Holding(ps, target)|
    decreases |ps|
  {
    if ps != [] {
      var n := |ps| - 1;
      OccurrencesKeyed(ps[..n], target);
      assert ps[..n][..|ps[..n]|] == ps[..n];
    }
  }

  /** The positions of the paragraphs holding key `target`. */
  function Holding(ps: seq<Paragraph>, target: string): seq<nat>
    decreases |ps|
  {
    if ps == [] then []
    else
      var n := |ps| - 1;
      Holding(ps[..n], target) + (if target in ps[n].sentences then [n] else [])
  }

  /** Each paragraph's signature. */
  function Signatures(ps: seq<Paragraph>, sha1: Sha1): (r: seq<string>)
    ensures |r| == |ps|
    ensures forall i :: 0 <= i < |ps| ==> r[i] == ps[i].Signature(sha1)
  {
    seq(|ps|, i requires 0 <= i < |ps| => ps[i].Signature(sha1))
  }

  /** `i` is the position of the first paragraph among `ps` whose signature is `sig`. */
  predicate FirstWithSignature(ps: seq<Paragraph>, sig: string, sha1: Sha1, i: int)
  {
    && 0 <= i < |ps| && ps[i].Signature(sha1) == sig
    && forall j :: 0 <= j < i ==> ps[j].Signature(sha1) != sig
  }

  /** The elements of `xs` that occur in `keep`, in order. */
  function Filter(xs: seq<string>, keep: seq<string>): seq<string>
    decreases |xs|
  {
    if xs == [] then [] else (if xs[0] in keep then [xs[0]] else []) + Filter(xs[1..], keep)
  }

  lemma {:induction false} FilterCount(xs: seq<string>, keep: seq<string>)
    ensures forall x :: multiset(Filter(xs, keep))[x] == if x in keep then multiset(xs)[x] else 0
    decreases |xs|
  {
    if xs != [] {
      FilterCount(xs[1..], keep);
      assert xs == [xs[0]] + xs[1..];
      assert multiset(xs) == multiset([xs[0]]) + multiset(xs[1..]);
    }
  }

  /** `idx` picks the elements of `r` out of `xs`, in increasing positions. */
  ghost predicate Embeds(r: seq<string>, xs: seq<string>, idx: seq<int>)
  {
    && |idx| == |r|
    && (forall i :: 0 <= i < |idx| ==> 0 <= idx[i] < |xs| && r[i] == xs[idx[i]])
    && (forall i, j :: 0 <= i < j < |idx| ==> idx[i] < idx[j])
  }

  /** `r` is `xs` with some elements left out, the rest kept in order. */
  ghost predicate IsSubsequence(r: seq<string>, xs: seq<string>)
  {
    exists idx :: Embeds(r, xs, idx)
  }

  /** Filtering keeps the order of what it keeps. */
  lemma {:induction false} FilterSubsequence(xs: seq<string>, keep: seq<string>)
    ensures IsSubsequence(Filter(xs, keep), xs)
    decreases |xs|
  {
    if xs == [] {
      assert Embeds([], xs, []);
    } else {
      FilterSubsequence(xs[1..], keep);
      var rest := Filter(xs[1..], keep);
      var idx :| Embeds(rest, xs[1..], idx);
      EmbedsTail(rest, xs, idx);
      if xs[0] in keep {
        EmbedsCons(rest, xs, Shift(idx));
      } else {
        assert Filter(xs, keep) == rest;
      }
    }
  }

  function Shift(idx: seq<int>): (s: seq<int>)
    ensures |s| == |idx| && forall i :: 0 <= i < |idx| ==> s[i] == idx[i] + 1
  {
    seq(|idx|, i requires 0 <= i < |idx| => idx[i] + 1)
  }

  lemma EmbedsTail(r: seq<string>, xs: seq<string>, idx: seq<int>)
    requires xs != [] && Embeds(r, xs[1..], idx)
    ensures Embeds(r, xs, Shift(idx))
  {
    var s := Shift(idx);
    forall i | 0 <= i < |s| ensures 0 <= s[i] < |xs| && r[i] == xs[s[i]] {
      assert r[i] == xs[1..][idx[i]];
    }
  }

  lemma EmbedsCons(r: seq<string>, xs: seq<string>, idx: seq<int>)
    requires xs != [] && Embeds(r, xs, idx)
    requires forall i :: 0 <= i < |idx| ==> idx[i] > 0
    ensures Embeds([xs[0]] + r, xs, [0] + idx)
  {
    var r', idx' := [xs[0]] + r, [0] + idx;
    forall i | 0 <= i < |idx'| ensures 0 <= idx'[i] < |xs| && r'[i] == xs[idx'[i]] {
      if i > 0 {
        assert r'[i] == r[i - 1] && idx'[i] == idx[i - 1];
      }
    }
    forall i, j | 0 <= i < j < |idx'| ensures idx'[i] < idx'[j] {
      if i > 0 {
        assert idx'[i] == idx[i - 1] && idx'[j] == idx[j - 1];
      }
    }
  }

  // ---------------------------------------------------------------------
  // Files

  /** The paragraphs `read_lines` forms: runs of non-blank lines, each ended
      by a blank line; `current` is the run being collected. A run still
      open at the end of the file is not kept. */
  function Groups(lines: seq<string>, current: seq<string>): seq<seq<string>>
    decreases |lines|
  {
    if lines == [] then []
    else if !IsBlank(lines[0]) then Groups(lines[1..], current + [lines[0]])
    else (if current != [] then [current] else []) + Groups(lines[1..], [])
  }

  /** Every paragraph is a non-empty run of non-blank lines. */
  lemma {:induction false} GroupsAreRuns(lines: seq<string>, current: seq<string>)
    requires forall l :: l in current ==> !IsBlank(l)
    ensures forall g :: g in Groups(lines, current) ==> g != [] && forall l :: l in g ==> !IsBlank(l)
    decreases |lines|
  {
    if lines != [] {
      if !IsBlank(lines[0]) {
        GroupsAreRuns(lines[1..], current + [lines[0]]);
      } else {
        GroupsAreRuns(lines[1..], []);
      }
    }
  }

  /** `g` is the run `lines[a..b]`: non-blank lines that start the file or
      follow a blank line, and end at a blank line. */
  ghost predicate RunAt(lines: seq<string>, g: seq<string>, a: int, b: int)
  {
    && 0 <= a < b < |lines| && g == lines[a..b]
    && IsBlank(lines[b]) && (a == 0 || IsBlank(lines[a - 1]))
    && forall k :: a <= k < b ==> !IsBlank(lines[k])
  }

  /** `g` is a whole run of non-blank lines of `lines`, closed by a blank line. */
  ghost predicate MaximalRun(lines: seq<string>, g: seq<string>)
  {
    exists a, b :: RunAt(lines, g, a, b)
  }

  /** A paragraph is never cut short: each one is a maximal run of
      non-blank lines, starting after a blank line (or at the top of the
      file) and ending at a blank line. */
  lemma GroupsAreMaximalRuns(lines: seq<string>)
    ensures forall g :: g in Groups(lines, []) ==> MaximalRun(lines, g)
  {
    GroupsAreMaximalFrom(lines, 0, 0);
    assert lines[0..] == lines;
    assert lines[0..0] == [];
  }

  /** The same, from line `i` on, with `lines[a..i]` the run being collected. */
  lemma {:induction false} GroupsAreMaximalFrom(lines: seq<string>, i: nat, a: nat)
    requires a <= i <= |lines|
    requires a == 0 || IsBlank(lines[a - 1])
    requires forall k :: a <= k < i ==> !IsBlank(lines[k])
    ensures forall g :: g in Groups(lines[i..], lines[a..i]) ==> MaximalRun(lines, g)
    decreases |lines| - i
  {
    if i < |lines| {
      GroupsStep(lines, i, lines[a..i]);
      if !IsBlank(lines[i]) {
        assert lines[a..i] + [lines[i]] == lines[a..i + 1];
        GroupsAreMaximalFrom(lines, i + 1, a);
      } else {
        assert lines[i + 1..i + 1] == [];
        GroupsAreMaximalFrom(lines, i + 1, i + 1);
        if a < i {
          assert RunAt(lines, lines[a..i], a, i);
        }
      }
    } else {
      assert lines[i..] == [];
    }
  }

  /** The lines of all paragraphs, in order. */
  function Flatten(gs: seq<seq<string>>): seq<string>
  {
    if gs == [] then [] else gs[0] + Flatten(gs[1..])
  }

  /** The non-blank lines of `lines`, in order. */
  function NonBlank(lines: seq<string>): seq<string>
  {
    if lines == [] then [] else (if !IsBlank(lines[0]) then [lines[0]] else []) + NonBlank(lines[1..])
  }

  /** Some line of `lines` is blank. */
  predicate HasBlank(lines: seq<string>)
  {
    exists i :: 0 <= i < |lines| && IsBlank(lines[i])
  }

  /** Position of the last blank line (the file has one). */
  function LastBlank(lines: seq<string>): (k: nat)
    requires HasBlank(lines)
    ensures k < |lines| && IsBlank(lines[k])
    ensures forall i :: k < i < |lines| ==> !IsBlank(lines[i])
    decreases |lines|
  {
    var n := |lines| - 1;
    if IsBlank(lines[n]) then n
    else
      assert HasBlank(lines[..n]) by {
        var i :| 0 <= i < |lines| && IsBlank(lines[i]);
        assert lines[..n][i] == lines[i];
      }
      LastBlank(lines[..n])
  }

  /** The paragraphs hold, in order, exactly the non-blank lines before the
      last blank line: every line of the file except the final run. */
  lemma {:induction false} GroupsKeepLinesBeforeLastBlank(lines: seq<string>, current: seq<string>)
    ensures Flatten(Groups(lines, current)) ==
              if HasBlank(lines) then current + NonBlank(lines[..LastBlank(lines)]) else []
    decreases |lines|
  {
    if lines != [] {
      var l, rest := lines[0], lines[1..];
      assert HasBlank(lines) <==> IsBlank(l) || HasBlank(rest) by {
        if HasBlank(rest) {
          var i :| 0 <= i < |rest| && IsBlank(rest[i]);
          assert lines[i + 1] == rest[i];
        }
        if HasBlank(lines) && !IsBlank(l) {
          var i :| 0 <= i < |lines| && IsBlank(lines[i]);
          assert rest[i - 1] == lines[i];
        }
      }
      if HasBlank(rest) {
        var k := LastBlank(rest);
        assert LastBlank(lines) == k + 1 by {
          LastBlankShift(lines);
        }
        assert lines[..k + 1] == [l] + rest[..k];
        assert NonBlank(lines[..k + 1]) == (if !IsBlank(l) then [l] else []) + NonBlank(rest[..k]);
      }
      if !IsBlank(l) {
        GroupsKeepLinesBeforeLastBlank(rest, current + [l]);
      } else {
        GroupsKeepLinesBeforeLastBlank(rest, []);
        if !HasBlank(rest) {
          assert LastBlank(lines) == 0 by {
            LastBlankShift(lines);
          }
          assert lines[..0] == [];
        }
        FlattenCons(current, Groups(rest, []));
      }
    }
  }

  lemma FlattenCons(g: seq<string>, gs: seq<seq<string>>)
    ensures Flatten((if g != [] then [g] else []) + gs) == g + Flatten(gs)
  {
    if g != [] {
      assert ([g] + gs)[0] == g;
      assert ([g] + gs)[1..] == gs;
    } else {
      assert [] + gs == gs;
    }
  }

  /** The last blank line of `l :: rest` is that of `rest`, shifted by one,
      or the first line when `rest` has none. */
  lemma LastBlankShift(lines: seq<string>)
    requires lines != [] && HasBlank(lines)
    ensures HasBlank(lines[1..]) ==> LastBlank(lines) == LastBlank(lines[1..]) + 1
    ensures !HasBlank(lines[1..]) ==> LastBlank(lines) == 0
  {
    var k := LastBlank(lines);
    var rest := lines[1..];
    if HasBlank(rest) {
      var k' := LastBlank(rest);
      assert lines[k' + 1] == rest[k'];
      if k > 0 {
        assert rest[k - 1] == lines[k];
      }
    }
  }

  /** `Text`: a file and its paragraphs. */
  class TextFile {
    const filePath: string
    const paragraphs: Paragraphs

    /** `Text(file_path)`, given the file's lines (each with its terminator). */
    constructor (filePath: string, lines: seq<string>, sha1: Sha1)
      ensures this.filePath == filePath
      ensures fresh(paragraphs)
      ensures paragraphs.contents == ParagraphsOf(Groups(lines, []), sha1)
    {
      this.filePath := filePath;
      var ps := new Paragraphs();
      this.paragraphs := ps;
      new;
      ReadLines(lines, sha1);
    }

    /** `Text.read_lines` */
    method ReadLines(lines: seq<string>, sha1: Sha1)
      modifies paragraphs
      ensures paragraphs.contents == old(paragraphs.contents) + ParagraphsOf(Groups(lines, []), sha1)
    {
      var collectedLines: seq<string> := [];
      var i := 0;
      assert lines[0..] == lines;
      while i < |lines|
        invariant 0 <= i <= |lines|
        invariant ReadProgress(old(paragraphs.contents), lines, sha1, paragraphs.contents, i, collectedLines)
      {
        collectedLines := ReadLine(lines, i, collectedLines, sha1, old(paragraphs.contents));
        i := i + 1;
      }
      assert lines[i..] == [];
    }

    /** One line of `read_lines`: a line with a visible character joins the
        run; a blank line closes the run, making its paragraph if it has
        lines. */
    method ReadLine(lines: seq<string>, i: nat, collectedLines: seq<string>, sha1: Sha1, ghost start: seq<Paragraph>)
      returns (collected: seq<string>)
      requires i < |lines|
      requires ReadProgress(start, lines, sha1, paragraphs.contents, i, collectedLines)
      modifies paragraphs
      ensures ReadProgress(start, lines, sha1, paragraphs.contents, i + 1, collected)
    {
      var line := lines[i];
      GroupsStep(lines, i, collectedLines);
      StripEmptyIffBlank(line);
      if Strip(line) != [] {
        collected := collectedLines + [line];
      } else {
        ghost var before := paragraphs.contents;
        if collectedLines != [] {
          var p := NewParagraph(collectedLines, sha1);
          paragraphs.Add(p);
          ParagraphsOfCons(collectedLines, Groups(lines[i + 1..], []), sha1);
          CloseRun(before, p, paragraphs.contents, ParagraphsOf(Groups(lines[i + 1..], []), sha1));
        } else {
          assert [] + Groups(lines[i + 1..], []) == Groups(lines[i + 1..], []);
        }
        collected := [];
      }
    }
  }

  /** Part way through `read_lines`: the paragraphs made so far, followed by
      those still to come from the rest of the lines and the current run,
      are those of all the lines after `start`. */
  ghost predicate ReadProgress(start: seq<Paragraph>, lines: seq<string>, sha1: Sha1, contents: seq<Paragraph>, i: nat,
                               current: seq<string>)
  {
    i <= |lines| &&
    start + ParagraphsOf(Groups(lines, []), sha1) == contents + ParagraphsOf(Groups(lines[i..], current), sha1)
  }

  /** Closing a run of lines at a blank line adds its paragraph. */
  lemma CloseRun<T>(before: seq<T>, p: T, after: seq<T>, rest: seq<T>)
    requires after == before + [p]
    ensures before + ([p] + rest) == after + rest
  {
    assert before + ([p] + rest) == (before + [p]) + rest;
  }

  /** One step of the grouping: the next line either joins the current run
      or, blank, closes it. */
  lemma GroupsStep(lines: seq<string>, i: nat, current: seq<string>)
    requires i < |lines|
    ensures Groups(lines[i..], current) ==
              if !IsBlank(lines[i]) then Groups(lines[i + 1..], current + [lines[i]])
              else (if current != [] then [current] else []) + Groups(lines[i + 1..], [])
  {
    assert lines[i..][0] == lines[i];
    assert lines[i..][1..] == lines[i + 1..];
  }

  /** The paragraph of every group of lines. */
  function ParagraphsOf(gs: seq<seq<string>>, sha1: Sha1): seq<Paragraph>
  {
    if gs == [] then [] else [ParagraphOf(gs[0], sha1)] + ParagraphsOf(gs[1..], sha1)
  }

  lemma ParagraphsOfCons(g: seq<string>, gs: seq<seq<string>>, sha1: Sha1)
    ensures ParagraphsOf([g] + gs, sha1) == [ParagraphOf(g, sha1)] + ParagraphsOf(gs, sha1)
  {
    var s := [g] + gs;
    assert s[0] == g && s[1..] == gs;
  }
}
