/**
 * The pure parts of the command-line front end (src/ui.py): the factory that
 * derives an argument's option name from its attribute name, and the
 * framed prompt shown before asking for input.
 */
module Ui {
  import opened PyStr
  import opened Constants

  // ---------------------------------------------------------------------
  // Arguments

  /** The object `CLIArgumentFactory.make` returns. */
  datatype CliArgument = CliArgument(name: string, option: string)

  /** `CLIArgumentFactory`: a `NameFactory` plus the first character of the
      option separator. */
  datatype ArgumentFactory = ArgumentFactory(names: NameFactory, optSep: char)
  {
    /** `CLIArgumentFactory.make`: the option is `--` and the attribute name
        normalised with the option separator; the name is the attribute name
        itself (the normalised name the factory computes is not used). */
    function Make(attrName: string): (a: CliArgument)
      ensures a.name == attrName
      ensures StartsWith(a.option, "--")
      ensures optSep in SeparatorClass ==>
                && Collapsed(a.option[2..], optSep)
                && Remove(a.option[2..], SeparatorClass) == Remove(attrName, SeparatorClass)
                && forall i :: 2 <= i < |a.option| && a.option[i] in SeparatorClass ==> a.option[i] == optSep
      ensures '\\' !in attrName ==> a.option == "--" + NormalizeAsWritten(optSep, attrName)
    {
      NormalizeWithoutBackslash(optSep, attrName);
      var option := "--" + Normalize(optSep, attrName);
      assert option[2..] == Normalize(optSep, attrName);
      if optSep in SeparatorClass then
        NormalizeShape(optSep, attrName);
        CliArgument(attrName, option)
      else
        CliArgument(attrName, option)
    }
  }

  /** `CLIArgumentFactory(opt_sep_char, name_sep_char)`: both strings are
      indexed, so neither may be empty. */
  function NewArgumentFactory(optSepChar: string, nameSepChar: string): (f: ArgumentFactory)
    requires optSepChar != [] && nameSepChar != []
    ensures f.optSep == optSepChar[0] && f.names == NewNameFactory(nameSepChar)
  {
    ArgumentFactory(NewNameFactory(nameSepChar), optSepChar[0])
  }

  /** Attribute names without whitespace or punctuation become `--` and the
      name, whatever the separators. */
  lemma PlainAttributeOption(f: ArgumentFactory, attrName: string)
    requires forall i :: 0 <= i < |attrName| ==> attrName[i] !in SeparatorClass
    ensures f.Make(attrName) == CliArgument(attrName, "--" + attrName)
  {
    NormalizePlain(f.optSep, attrName);
  }

  // ---------------------------------------------------------------------
  // Title case

  /** `str.title()` keeps every character that is not a letter. */
  lemma TitleKeepsNonLetters(s: string)
    ensures forall i :: 0 <= i < |s| && !IsLetter(s[i]) ==> Title(s)[i] == s[i]
    ensures forall i :: 0 <= i < |s| ==> (IsLetter(Title(s)[i]) <==> IsLetter(s[i]))
  {
  }

  /** A title-cased text is its own title case. */
  lemma TitleIdempotent(s: string)
    ensures Title(Title(s)) == Title(s)
  {
    var t := Title(s);
    TitleKeepsNonLetters(s);
    forall i | 0 <= i < |s| ensures Title(t)[i] == t[i] {
      if IsLetter(s[i]) {
        if i > 0 && IsLetter(s[i - 1]) {
          assert t[i] == LowerChar(s[i]);
          assert LowerChar(LowerChar(s[i])) == LowerChar(s[i]);
        } else {
          assert t[i] == UpperChar(s[i]);
          assert UpperChar(UpperChar(s[i])) == UpperChar(s[i]);
        }
      }
    }
  }

  // ---------------------------------------------------------------------
  // Messages

  /** `CLIMessage`: the fields its constructor sets once. */
  datatype Message = Message(title: string, textWidth: int, decoration: string, prompt: string, legend: string)
  {
    /** `CLIMessage.make`: the lines of the prompt; the legend and the
        second decoration appear only when the legend is not empty. */
    function Make(): (text: string)
      ensures StartsWith(text, "\n") && EndsWith(text, ": ")
      ensures legend != [] ==> |text| == 7 + |title| + 2 * |decoration| + |legend| + |prompt|
      ensures legend == [] ==> |text| == 5 + |title| + |decoration| + |prompt|
    {
      if legend != [] then
        "\n" + title + "\n" + decoration + "\n" + legend + "\n" + decoration + "\n" + prompt + ": "
      else
        "\n" + title + "\n" + decoration + "\n" + prompt + ": "
    }
  }

  /** `CLIMessage(title, prompt, text_width, legend, decoration_token)`; an
      absent legend is the empty string, which Python treats alike. */
  function NewMessage(title: string, prompt: string, textWidth: int, legend: string, decorationToken: string): (m: Message)
    requires decorationToken != []
    ensures m.title == Title(title) && m.prompt == prompt && m.textWidth == textWidth
    ensures |m.decoration| == (if textWidth <= 0 then 0 else textWidth)
    ensures forall i :: 0 <= i < |m.decoration| ==> m.decoration[i] == decorationToken[0]
    ensures StartsWith(legend, m.legend)
    ensures 0 <= textWidth ==> |m.legend| == (if textWidth <= |legend| then textWidth else |legend|)
  {
    Message(Title(title), textWidth, Repeat(decorationToken[0], textWidth), prompt,
            if legend != [] then Slice(legend, textWidth) else "")
  }

  /** Splitting a message at its line breaks gives back its parts, when
      none of them holds a line break. */
  lemma MessageLines(m: Message)
    requires '\n' !in m.title && '\n' !in m.decoration && '\n' !in m.legend && '\n' !in m.prompt
    ensures m.legend != [] ==>
              SplitChar(m.Make(), '\n') == ["", m.title, m.decoration, m.legend, m.decoration, m.prompt + ": "]
    ensures m.legend == [] ==>
              SplitChar(m.Make(), '\n') == ["", m.title, m.decoration, m.prompt + ": "]
  {
    if m.legend != [] {
      LinesWithLegend(m);
    } else {
      LinesWithoutLegend(m);
    }
  }

  lemma LinesWithLegend(m: Message)
    requires '\n' !in m.title && '\n' !in m.decoration && '\n' !in m.legend && '\n' !in m.prompt
    requires m.legend != []
    ensures SplitChar(m.Make(), '\n') == ["", m.title, m.decoration, m.legend, m.decoration, m.prompt + ": "]
  {
    PromptLine(m.prompt);
    var parts := ["", m.title, m.decoration, m.legend, m.decoration, m.prompt + ": "];
    JoinSix(parts, "\n");
    assert Join(parts, "\n") == m.Make();
    SplitJoin(parts, '\n');
  }

  lemma LinesWithoutLegend(m: Message)
    requires '\n' !in m.title && '\n' !in m.decoration && '\n' !in m.prompt
    requires m.legend == []
    ensures SplitChar(m.Make(), '\n') == ["", m.title, m.decoration, m.prompt + ": "]
  {
    PromptLine(m.prompt);
    var parts := ["", m.title, m.decoration, m.prompt + ": "];
    JoinFour(parts, "\n");
    assert Join(parts, "\n") == m.Make();
    SplitJoin(parts, '\n');
  }

  /** The closing `: ` adds no line break to the prompt. */
  lemma PromptLine(prompt: string)
    requires '\n' !in prompt
    ensures '\n' !in prompt + ": "
  {
    var end := prompt + ": ";
    assert forall i :: 0 <= i < |prompt| ==> end[i] == prompt[i];
    assert end[|prompt|] == ':' && end[|prompt| + 1] == ' ';
  }

  lemma JoinFour(parts: seq<string>, sep: string)
    requires |parts| == 4
    ensures Join(parts, sep) == parts[0] + sep + parts[1] + sep + parts[2] + sep + parts[3]
  {
    JoinTriple(parts[1], parts[2], parts[3], sep);
    assert parts[1..] == [parts[1], parts[2], parts[3]];
  }

  lemma JoinSix(parts: seq<string>, sep: string)
    requires |parts| == 6
    ensures Join(parts, sep) == parts[0] + sep + parts[1] + sep + parts[2] + sep + parts[3] + sep + parts[4] + sep + parts[5]
  {
    JoinFour(parts[2..], sep);
    assert parts[1..][1..] == parts[2..];
  }
}
