/**
 * Fixed names of the tool (src/constants.py): the directive name spaces and
 * the factory that turns attribute names into separator-delimited names.
 */
module Constants {
  import opened PyStr

  /** `DirectiveNameSpace.Only._` */
  const OnlyNameSpace: string := "only"
  /** `DirectiveNameSpace.Default._`; note the upper-case `L`. */
  const DefaultNameSpace: string := "dL"
  /** `DirectiveNameSpace.Default.version` */
  const VersionAttribute: string := "version"
  /** `DirectiveNameSpace.Default.product` */
  const ProductAttribute: string := "product"

  /** `NameFactory._normalize`: the pieces of `text` between whitespace and
      punctuation characters, empty pieces dropped, joined by `sepChar`. */
  function Normalize(sepChar: char, text: string): string
  {
    Join(Words(text, SeparatorClass), [sepChar])
  }

  /** `_normalize` as the source builds its pattern: the backslash is not a
      separator (see `SeparatorClassAsWritten`). */
  function NormalizeAsWritten(sepChar: char, text: string): string
  {
    Join(Words(text, SeparatorClassAsWritten), [sepChar])
  }

  /** The two differ only on text holding a backslash. */
  lemma NormalizeWithoutBackslash(sepChar: char, text: string)
    ensures '\\' !in text ==> Normalize(sepChar, text) == NormalizeAsWritten(sepChar, text)
  {
    WordsWithoutBackslash(text);
  }

  /** The result keeps every other character of `text`, in order, and puts
      exactly one `sepChar` between consecutive pieces: never two in a row,
      never one at either end, and no other whitespace or punctuation. */
  lemma NormalizeShape(sepChar: char, text: string)
    requires sepChar in SeparatorClass
    ensures Collapsed(Normalize(sepChar, text), sepChar)
    ensures Remove(Normalize(sepChar, text), SeparatorClass) == Remove(text, SeparatorClass)
    ensures forall i :: 0 <= i < |Normalize(sepChar, text)| && Normalize(sepChar, text)[i] in SeparatorClass
                 ==> Normalize(sepChar, text)[i] == sepChar
  {
    var ws := Words(text, SeparatorClass);
    WordsAreWords(text, SeparatorClass);
    JoinWordsCollapsed(ws, sepChar, SeparatorClass);
    RemoveJoin(ws, sepChar, SeparatorClass);
    WordsConcat(text, SeparatorClass);
    JoinOnlySeparator(ws, sepChar);
  }

  /** The only class characters in joined words are the separators put there. */
  lemma {:induction false} JoinOnlySeparator(ws: seq<string>, c: char)
    requires forall w :: w in ws ==> IsWord(w, SeparatorClass)
    ensures forall i :: 0 <= i < |Join(ws, [c])| && Join(ws, [c])[i] in SeparatorClass
                 ==> Join(ws, [c])[i] == c
    decreases |ws|
  {
    if |ws| == 1 {
      assert IsWord(ws[0], SeparatorClass);
    } else if |ws| >= 2 {
      assert IsWord(ws[0], SeparatorClass);
      JoinOnlySeparator(ws[1..], c);
      var w, rest := ws[0], Join(ws[1..], [c]);
      var r := w + [c] + rest;
      assert forall i :: 0 <= i < |w| ==> r[i] == w[i] && r[i] !in SeparatorClass;
      assert r[|w|] == c;
      forall i | |w| < i < |r| && r[i] in SeparatorClass ensures r[i] == c {
        assert r[i] == rest[i - |w| - 1];
      }
    }
  }

  /** A run of two separators normalises like a single one. */
  lemma NormalizeCollapsesRuns(sepChar: char, x: string, d: char, e: char, y: string)
    requires d in SeparatorClass && e in SeparatorClass
    ensures Normalize(sepChar, x + [d, e] + y) == Normalize(sepChar, x + [d] + y)
  {
    WordsAroundSeparator(x, d, [e] + y, SeparatorClass);
    WordsAroundSeparator([], e, y, SeparatorClass);
    WordsAroundSeparator(x, d, y, SeparatorClass);
    assert x + [d, e] + y == x + [d] + ([e] + y);
    assert [] + [e] + y == [e] + y;
  }

  /** Leading and trailing separators leave no trace. */
  lemma NormalizeTrims(sepChar: char, d: char, text: string)
    requires d in SeparatorClass
    ensures Normalize(sepChar, [d] + text) == Normalize(sepChar, text)
    ensures Normalize(sepChar, text + [d]) == Normalize(sepChar, text)
  {
    WordsAroundSeparator([], d, text, SeparatorClass);
    assert [] + [d] + text == [d] + text;
    WordsAroundSeparator(text, d, [], SeparatorClass);
    assert text + [d] + [] == text + [d];
    assert Words(text, SeparatorClass) + [] == Words(text, SeparatorClass);
  }

  /** Text without whitespace or punctuation comes back unchanged. */
  lemma NormalizePlain(sepChar: char, text: string)
    requires forall i :: 0 <= i < |text| ==> text[i] !in SeparatorClass
    ensures Normalize(sepChar, text) == text
  {
    if text != [] {
      WordsOfPlain(text, SeparatorClass);
    }
  }

  /** As written, a backslash survives normalisation although it is
      punctuation: "a\b" keeps its backslash instead of becoming "a_b". */
  lemma BackslashKeptAsWritten()
    ensures NormalizeAsWritten('_', "a\\b") == "a\\b"
    ensures Normalize('_', "a\\b") == "a_b"
  {
    BackslashKept();
    BackslashReplaced();
  }

  lemma BackslashKept()
    ensures NormalizeAsWritten('_', "a\\b") == "a\\b"
  {
    var s := "a\\b";
    assert s[0] == 'a' && s[1] == '\\' && s[2] == 'b' && |s| == 3;
    assert 'a' !in SeparatorClassAsWritten && '\\' !in SeparatorClassAsWritten && 'b' !in SeparatorClassAsWritten;
    PlainWord(s, SeparatorClassAsWritten, '_');
  }

  lemma BackslashReplaced()
    ensures Normalize('_', "a\\b") == "a_b"
  {
    assert '\\' in SeparatorClass;
    assert 'a' !in SeparatorClass && 'b' !in SeparatorClass;
    JoinTwoWords("a", '\\', "b", SeparatorClass, '_');
    assert "a" + ['\\'] + "b" == "a\\b";
    assert "a" + ['_'] + "b" == "a_b";
  }

  /** A single word joins to itself. */
  lemma PlainWord(s: string, cls: set<char>, sepChar: char)
    requires IsWord(s, cls)
    ensures Join(Words(s, cls), [sepChar]) == s
  {
    WordsOfPlain(s, cls);
  }

  /** Two words around one separator join around the new separator. */
  lemma JoinTwoWords(x: string, d: char, y: string, cls: set<char>, sepChar: char)
    requires d in cls && IsWord(x, cls) && IsWord(y, cls)
    ensures Join(Words(x + [d] + y, cls), [sepChar]) == x + [sepChar] + y
  {
    WordsAroundSeparator(x, d, y, cls);
    WordsOfPlain(x, cls);
    WordsOfPlain(y, cls);
    assert [x] + [y] == [x, y];
    JoinPair(x, y, [sepChar]);
  }

  /** The object `NameFactory.make` returns. */
  datatype Argument = Argument(name: string)

  /** `NameFactory`: only the first character of the configured separator is kept. */
  datatype NameFactory = NameFactory(nameSep: char)
  {
    /** `NameFactory.make` */
    function Make(attrName: string): (a: Argument)
      ensures nameSep in SeparatorClass ==>
                Collapsed(a.name, nameSep) && Remove(a.name, SeparatorClass) == Remove(attrName, SeparatorClass)
      ensures '\\' !in attrName ==> a.name == NormalizeAsWritten(nameSep, attrName)
    {
      NormalizeWithoutBackslash(nameSep, attrName);
      if nameSep in SeparatorClass then
        NormalizeShape(nameSep, attrName);
        Argument(Normalize(nameSep, attrName))
      else
        Argument(Normalize(nameSep, attrName))
    }
  }

  /** `NameFactory(name_sep_char)`: Python indexes the string, so it may not be empty. */
  function NewNameFactory(nameSepChar: string): (f: NameFactory)
    requires nameSepChar != []
  {
    NameFactory(nameSepChar[0])
  }

  /** Two separator strings that start alike make the same names. */
  lemma NameFactoryUsesFirstChar(a: string, b: string, attrName: string)
    requires a != [] && b != [] && a[0] == b[0]
    ensures NewNameFactory(a).Make(attrName) == NewNameFactory(b).Make(attrName)
  {
  }
}
