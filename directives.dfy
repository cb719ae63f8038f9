/**
 * Directives embedded in documentation files (src/directives.py): a line
 * such as `.. only:: ps pxc` is read as a prefix, a name space, an
 * attribute and a list of values; a buffer indexes all the directive lines
 * of a file; an agent acts on the values of one directive.
 */
module Directives {
  import opened PyStr
  import opened FileSystem
  import opened Constants

  /** The three configured settings a directive line is read with. */
  datatype RuleSet = RuleSet(prefix: string, nameSpaceSep: string, valueSep: string)

  /** `Directive`: what a valid directive line holds. */
  datatype Directive = Directive(prefix: string, nameSpace: string, attribute: string, value: seq<string>)

  /** The exceptions reading a line can raise. */
  datatype PyError = IndexError | ValueError

  /** The outcome of `DirectiveLine(line, rule_set)`: not a directive, a
      directive, or an exception out of the constructor. */
  datatype LineParse = NotDirective | Parsed(d: Directive) | Raises(e: PyError)

  /** The tokens a line is read as: stripped, lower-cased, split at whitespace. */
  function Tokens(line: string): (t: seq<string>)
    ensures forall w :: w in t ==> IsWord(w, Space) && NoUpper(w)
  {
    var s := Lower(Strip(line));
    WordsAreWords(s, Space);
    WordsCharsFromText(s, Space);
    Words(s, Space)
  }

  /** A line whose first token is the prefix. */
  predicate Prefixed(line: string, rs: RuleSet)
  {
    var t := Tokens(line);
    |t| > 0 && t[0] == rs.prefix
  }

  /** `DirectiveLine._make`: with two tokens the line is not a directive;
      with one, the second token is read anyway and Python raises
      `IndexError`; `str.partition` raises `ValueError` on an empty
      separator. */
  function ParseLine(line: string, rs: RuleSet): LineParse
  {
    var t := Tokens(line);
    if |t| == 0 || t[0] != rs.prefix then NotDirective
    else if |t| == 1 then Raises(IndexError)
    else if rs.nameSpaceSep == [] then Raises(ValueError)
    else
      var directive := Partition(t[1], rs.nameSpaceSep);
      if |t| < 3 then NotDirective
      else if rs.valueSep == [] then Raises(ValueError)
      else Parsed(Directive(t[0], directive.head, Partition(directive.tail, rs.valueSep).head, t[2..]))
  }

  /** Which lines are directives and which raise `IndexError`. */
  lemma ParseLineCases(line: string, rs: RuleSet)
    ensures ParseLine(line, rs) == Raises(IndexError) <==> Prefixed(line, rs) && |Tokens(line)| == 1
    ensures ParseLine(line, rs).Parsed? <==>
              Prefixed(line, rs) && |Tokens(line)| >= 3 && rs.nameSpaceSep != [] && rs.valueSep != []
  {
  }

  /** What a directive holds: the prefix, the values (the tokens after the
      second, at least one), a name space that starts the second token and
      holds no name-space separator, an attribute without value separator,
      both in lower case. */
  lemma ParsedShape(line: string, rs: RuleSet)
    requires ParseLine(line, rs).Parsed?
    ensures var d := ParseLine(line, rs).d;
              && d.prefix == rs.prefix
              && d.value == Tokens(line)[2..] && d.value != []
              && StartsWith(Tokens(line)[1], d.nameSpace)
              && (forall j :: !OccursAt(d.nameSpace, rs.nameSpaceSep, j))
              && (forall j :: !OccursAt(d.attribute, rs.valueSep, j))
              && NoUpper(d.nameSpace) && NoUpper(d.attribute)
  {
    var t := Tokens(line);
    assert t[1] in t;
    PartsOfWord(t[1], rs.nameSpaceSep, rs.valueSep);
  }

  /** The name space and attribute read from a token without upper-case
      letters: the name space starts it and holds no name-space separator,
      the attribute holds no value separator, and neither has upper case. */
  lemma PartsOfWord(w: string, nameSpaceSep: string, valueSep: string)
    requires NoUpper(w) && nameSpaceSep != [] && valueSep != []
    ensures var directive := Partition(w, nameSpaceSep);
              var attribute := Partition(directive.tail, valueSep).head;
              && StartsWith(w, directive.head)
              && (forall j :: !OccursAt(directive.head, nameSpaceSep, j))
              && (forall j :: !OccursAt(attribute, valueSep, j))
              && NoUpper(directive.head) && NoUpper(attribute)
  {
    var directive := Partition(w, nameSpaceSep);
    var attribute := Partition(directive.tail, valueSep).head;
    PartitionFirst(w, nameSpaceSep);
    PartitionFirst(directive.tail, valueSep);
    assert directive.head == w[..|directive.head|];
    assert forall i :: 0 <= i < |directive.tail| ==>
             directive.tail[i] == w[|directive.head| + |directive.sep| + i];
    assert NoUpper(directive.tail);
    assert attribute == directive.tail[..|attribute|];
  }

  /** The name space and attribute of a directive hold no upper-case letter. */
  lemma ParsedNoUpper(line: string, rs: RuleSet)
    requires ParseLine(line, rs).Parsed?
    ensures NoUpper(ParseLine(line, rs).d.nameSpace) && NoUpper(ParseLine(line, rs).d.attribute)
  {
    ParsedShape(line, rs);
  }

  /** `DirectiveBuffer.doc_property`: the key a directive is indexed under. */
  function DocProperty(nameSpace: string, attribute: string, sep: string): (k: string)
    ensures k == nameSpace + sep + attribute
  {
    JoinPair(nameSpace, attribute, sep);
    Join([nameSpace, attribute], sep)
  }

  /** The index of a file's directives, or the exception that aborted it. */
  datatype Index = Collected(m: map<string, set<string>>) | Failed(e: PyError)

  /** Adding `v` to the value set under `k`, creating the set if needed. */
  function AddValue(m: map<string, set<string>>, k: string, v: string): (r: map<string, set<string>>)
    ensures r.Keys == m.Keys + {k}
    ensures r[k] == (if k in m then m[k] else {}) + {v}
    ensures forall k' :: k' in m && k' != k ==> r[k'] == m[k']
  {
    m[k := (if k in m then m[k] else {}) + {v}]
  }

  /** The parse of every line of a file. */
  function Parses(lines: seq<string>, rs: RuleSet): (ps: seq<LineParse>)
    ensures |ps| == |lines|
    ensures forall i :: 0 <= i < |lines| ==> ps[i] == ParseLine(lines[i], rs)
  {
    seq(|lines|, i requires 0 <= i < |lines| => ParseLine(lines[i], rs))
  }

  /** Indexing one more parsed line into an index that has not failed. */
  function Step(m: map<string, set<string>>, p: LineParse, sep: string): Index
  {
    match p
    case NotDirective => Collected(m)
    case Raises(e) => Failed(e)
    case Parsed(d) => Collected(AddValue(m, DocProperty(d.nameSpace, d.attribute, sep), Join(d.value, " ")))
  }

  /** Indexing parsed lines one after another, stopping at the first exception. */
  function Fold(ps: seq<LineParse>, sep: string): Index
    decreases |ps|
  {
    if ps == [] then Collected(map[])
    else
      var before := Fold(ps[..|ps| - 1], sep);
      if before.Failed? then before else Step(before.m, ps[|ps| - 1], sep)
  }

  /** What `DirectiveBuffer._inspect` computes for the lines of a file. */
  function IndexOf(lines: seq<string>, rs: RuleSet): Index
  {
    Fold(Parses(lines, rs), rs.nameSpaceSep)
  }

  /** Indexing one line more. */
  lemma IndexSnoc(lines: seq<string>, i: nat, rs: RuleSet)
    requires i < |lines|
    ensures IndexOf(lines[..i + 1], rs) ==
              if IndexOf(lines[..i], rs).Failed? then IndexOf(lines[..i], rs)
              else Step(IndexOf(lines[..i], rs).m, ParseLine(lines[i], rs), rs.nameSpaceSep)
  {
    var ps := Parses(lines[..i + 1], rs);
    assert ps[..i] == Parses(lines[..i], rs);
    assert ps[i] == ParseLine(lines[i], rs);
  }

  /** The parse is a directive indexed under `k` with value string `v`. */
  predicate Yields(p: LineParse, sep: string, k: string, v: string)
  {
    p.Parsed? && DocProperty(p.d.nameSpace, p.d.attribute, sep) == k && Join(p.d.value, " ") == v
  }

  /** Once a prefix has raised, the index is that exception. */
  lemma {:induction false} FoldFailedPrefix(ps: seq<LineParse>, n: nat, sep: string)
    requires n <= |ps| && Fold(ps[..n], sep).Failed?
    ensures Fold(ps, sep) == Fold(ps[..n], sep)
    decreases |ps| - n
  {
    if n < |ps| {
      assert ps[..n + 1][..n] == ps[..n];
      FoldFailedPrefix(ps, n + 1, sep);
    } else {
      assert ps[..n] == ps;
    }
  }

  /** Once a prefix of the file has raised, the index is that exception. */
  lemma IndexFailedPrefix(lines: seq<string>, n: nat, rs: RuleSet)
    requires n <= |lines| && IndexOf(lines[..n], rs).Failed?
    ensures IndexOf(lines, rs) == IndexOf(lines[..n], rs)
  {
    var ps := Parses(lines, rs);
    assert ps[..n] == Parses(lines[..n], rs);
    FoldFailedPrefix(ps, n, rs.nameSpaceSep);
  }

  /** `DirectiveBuffer._inspect`, line by line. */
  method Inspect(lines: seq<string>, rs: RuleSet) returns (r: Index)
    ensures r == IndexOf(lines, rs)
  {
    var collected: map<string, set<string>> := map[];
    var i := 0;
    while i < |lines|
      invariant 0 <= i <= |lines|
      invariant IndexOf(lines[..i], rs) == Collected(collected)
    {
      IndexSnoc(lines, i, rs);
      var d := ParseLine(lines[i], rs);
      match d {
        case NotDirective =>
        case Raises(e) =>
          IndexFailedPrefix(lines, i + 1, rs);
          return Failed(e);
        case Parsed(directive) =>
          var docProperty := DocProperty(directive.nameSpace, directive.attribute, rs.nameSpaceSep);
          var value := Join(directive.value, " ");
          if docProperty in collected {
            collected := collected[docProperty := collected[docProperty] + {value}];
          } else {
            collected := collected[docProperty := {} + {value}];
          }
      }
      i := i + 1;
    }
    assert lines[..|lines|] == lines;
    return Collected(collected);
  }

  lemma {:induction false} FoldRaises(ps: seq<LineParse>, sep: string)
    ensures Fold(ps, sep).Failed? <==> exists i :: 0 <= i < |ps| && ps[i].Raises?
    ensures Fold(ps, sep).Failed? ==>
              exists i :: && 0 <= i < |ps| && ps[i] == Raises(Fold(ps, sep).e)
                          && forall j :: 0 <= j < i ==> !ps[j].Raises?
    decreases |ps|
  {
    if ps != [] {
      var n := |ps| - 1;
      var init := ps[..n];
      FoldRaises(init, sep);
      assert forall j :: 0 <= j < n ==> init[j] == ps[j];
      if exists i :: 0 <= i < |ps| && ps[i].Raises? {
        var i :| 0 <= i < |ps| && ps[i].Raises?;
        if i < n {
          assert init[i].Raises?;
        }
      }
      if Fold(init, sep).Failed? {
        var i :| && 0 <= i < |init| && init[i] == Raises(Fold(init, sep).e)
                 && forall j :: 0 <= j < i ==> !init[j].Raises?;
        assert ps[i] == Raises(Fold(ps, sep).e);
      } else if Fold(ps, sep).Failed? {
        assert ps[n] == Raises(Fold(ps, sep).e);
      }
    }
  }

  /** Reading a file raises exactly when one of its lines does, and the
      exception is that of the first such line. */
  lemma IndexRaises(lines: seq<string>, rs: RuleSet)
    ensures IndexOf(lines, rs).Failed? <==> exists i :: 0 <= i < |lines| && ParseLine(lines[i], rs).Raises?
    ensures IndexOf(lines, rs).Failed? ==>
              exists i :: && 0 <= i < |lines| && ParseLine(lines[i], rs) == Raises(IndexOf(lines, rs).e)
                          && forall j :: 0 <= j < i ==> !ParseLine(lines[j], rs).Raises?
  {
    FoldRaises(Parses(lines, rs), rs.nameSpaceSep);
  }

  lemma {:induction false} FoldEntries(ps: seq<LineParse>, sep: string, k: string, v: string)
    requires Fold(ps, sep).Collected?
    ensures k in Fold(ps, sep).m && v in Fold(ps, sep).m[k] <==>
              exists i :: 0 <= i < |ps| && Yields(ps[i], sep, k, v)
    decreases |ps|
  {
    if ps != [] {
      var n := |ps| - 1;
      var init := ps[..n];
      assert Fold(init, sep).Collected?;
      FoldEntries(init, sep, k, v);
      assert forall j :: 0 <= j < n ==> init[j] == ps[j];
      if exists i :: 0 <= i < |ps| && Yields(ps[i], sep, k, v) {
        var i :| 0 <= i < |ps| && Yields(ps[i], sep, k, v);
        if i < n {
          assert Yields(init[i], sep, k, v);
        }
      }
    }
  }

  /** The index holds value `v` under key `k` exactly when some line of the
      file is a directive with that key and that value. */
  lemma IndexEntries(lines: seq<string>, rs: RuleSet, k: string, v: string)
    requires IndexOf(lines, rs).Collected?
    ensures k in IndexOf(lines, rs).m && v in IndexOf(lines, rs).m[k] <==>
              exists i :: 0 <= i < |lines| && Yields(ParseLine(lines[i], rs), rs.nameSpaceSep, k, v)
  {
    FoldEntries(Parses(lines, rs), rs.nameSpaceSep, k, v);
  }

  /** Every key of the index has at least one value. */
  lemma {:induction false} FoldValuesNonEmpty(ps: seq<LineParse>, sep: string)
    requires Fold(ps, sep).Collected?
    ensures forall k :: k in Fold(ps, sep).m ==> Fold(ps, sep).m[k] != {}
    decreases |ps|
  {
    if ps != [] {
      FoldValuesNonEmpty(ps[..|ps| - 1], sep);
    }
  }

  lemma NoUpperConcat(a: string, b: string, c: string)
    requires NoUpper(a) && NoUpper(b) && NoUpper(c)
    ensures NoUpper(a + b + c)
  {
    var s := a + b + c;
    forall i | 0 <= i < |s| ensures !IsUpper(s[i]) {
      if i < |a| {
        assert s[i] == a[i];
      } else if i < |a| + |b| {
        assert s[i] == b[i - |a|];
      } else {
        assert s[i] == c[i - |a| - |b|];
      }
    }
  }

  /** The keys of the index hold no upper-case letter when the separator
      holds none. */
  lemma IndexKeysNoUpper(lines: seq<string>, rs: RuleSet, k: string)
    requires IndexOf(lines, rs).Collected?
    requires NoUpper(rs.nameSpaceSep)
    ensures k in IndexOf(lines, rs).m ==> NoUpper(k)
  {
    if k in IndexOf(lines, rs).m {
      FoldValuesNonEmpty(Parses(lines, rs), rs.nameSpaceSep);
      var v :| v in IndexOf(lines, rs).m[k];
      IndexEntries(lines, rs, k, v);
      var j :| 0 <= j < |lines| && Yields(ParseLine(lines[j], rs), rs.nameSpaceSep, k, v);
      ParsedNoUpper(lines[j], rs);
      var d := ParseLine(lines[j], rs).d;
      NoUpperConcat(d.nameSpace, rs.nameSpaceSep, d.attribute);
    }
  }

  /** So a key spelt with an upper-case letter, such as any key in the
      `dL` name space, is never in the index. */
  lemma KeyWithUpperNeverIndexed(lines: seq<string>, rs: RuleSet, k: string, i: int)
    requires IndexOf(lines, rs).Collected?
    requires NoUpper(rs.nameSpaceSep)
    requires 0 <= i < |k| && IsUpper(k[i])
    ensures k !in IndexOf(lines, rs).m
  {
    IndexKeysNoUpper(lines, rs, k);
  }

  /** A separator holding an upper-case letter never occurs in a word without one. */
  lemma UpperSepNeverOccurs(w: string, sep: string, i: int)
    requires NoUpper(w)
    requires 0 <= i < |sep| && IsUpper(sep[i])
    ensures forall j :: !OccursAt(w, sep, j)
  {
    forall j | OccursAt(w, sep, j) ensures false {
      assert false;
    }
  }

  /** With a name-space separator holding an upper-case letter, a parsed
      directive has no attribute, and its name space is the whole second
      token: the separator cannot occur in a lower-cased token. */
  lemma ParsedWithUpperSep(line: string, rs: RuleSet, i: int)
    requires ParseLine(line, rs).Parsed?
    requires 0 <= i < |rs.nameSpaceSep| && IsUpper(rs.nameSpaceSep[i])
    ensures ParseLine(line, rs).d.nameSpace == Tokens(line)[1]
    ensures ParseLine(line, rs).d.attribute == []
  {
    var t := Tokens(line);
    assert t[1] in t;
    UpperSepNeverOccurs(t[1], rs.nameSpaceSep, i);
    PartitionFirst(t[1], rs.nameSpaceSep);
    var directive := Partition(t[1], rs.nameSpaceSep);
    assert directive.tail == [];
    var rest := Partition(directive.tail, rs.valueSep);
    assert rest.head + rest.sep + rest.tail == [];
  }

  /** With a name-space separator holding an upper-case letter, the key a
      parsed line yields is its lower-cased second token followed by the
      separator, so it is never a key of the `dL` name space. */
  lemma YieldedKeyNotDefault(line: string, rs: RuleSet, i: int, k: string, v: string, attribute: string)
    requires 0 <= i < |rs.nameSpaceSep| && IsUpper(rs.nameSpaceSep[i])
    requires Yields(ParseLine(line, rs), rs.nameSpaceSep, k, v)
    ensures k != DocProperty(DefaultNameSpace, attribute, rs.nameSpaceSep)
  {
    ParsedWithUpperSep(line, rs, i);
    var t := Tokens(line);
    assert t[1] in t;
    assert k == t[1] + rs.nameSpaceSep;
    if |k| == |DocProperty(DefaultNameSpace, attribute, rs.nameSpaceSep)| {
      assert k[1] == t[1][1];
    }
  }

  /** No key of the `dL` name space is ever in an index, whatever the
      separators. With a separator free of upper-case letters every key is
      lower case; with any other separator a key is a lower-cased token
      followed by the separator, and its second character is that token's,
      never the `L` of `dL`. */
  lemma DefaultNameSpaceNeverIndexed(lines: seq<string>, rs: RuleSet, attribute: string)
    requires IndexOf(lines, rs).Collected?
    ensures DocProperty(DefaultNameSpace, attribute, rs.nameSpaceSep) !in IndexOf(lines, rs).m
  {
    var k := DocProperty(DefaultNameSpace, attribute, rs.nameSpaceSep);
    if NoUpper(rs.nameSpaceSep) {
      assert k[1] == 'L';
      KeyWithUpperNeverIndexed(lines, rs, k, 1);
    } else if k in IndexOf(lines, rs).m {
      var i :| 0 <= i < |rs.nameSpaceSep| && IsUpper(rs.nameSpaceSep[i]);
      FoldValuesNonEmpty(Parses(lines, rs), rs.nameSpaceSep);
      var v :| v in IndexOf(lines, rs).m[k];
      IndexEntries(lines, rs, k, v);
      var j :| 0 <= j < |lines| && Yields(ParseLine(lines[j], rs), rs.nameSpaceSep, k, v);
      YieldedKeyNotDefault(lines[j], rs, i, k, v, attribute);
      assert false;
    }
  }

  /** The three agents a merge can dispatch to. */
  datatype AgentKind = Auto | Product | Version

  /** Where `AutoAgent.run` copies a document for value `v`: the last
      occurrence of the project code in the path is replaced by `V`, and the
      rest of the path is kept from its first separator on. */
  function TargetPath(docPath: string, projectCode: string, v: string): string
    requires projectCode != []
  {
    var targetPath := RPartition(docPath, projectCode);
    var targetProject := PathJoin(targetPath.head, Upper(v));
    PathJoin(targetProject, Partition(targetPath.tail, "/").tail)
  }

  /** An occurrence of `code` starting inside it would have to cover the
      separator that follows, and `t` holds none. */
  lemma NoOccurrenceAcrossSlash(h: string, code: string, t: string, j: int)
    requires code != [] && '/' !in code
    requires t != [] && t[0] == '/'
    requires forall i :: !OccursAt(t, code, i)
    requires |h| < j
    ensures !OccursAt(h + code + t, code, j)
  {
    var s := h + code + t;
    var q := |h| + |code|;
    if j + |code| <= |s| {
      if j <= q {
        assert s[j..j + |code|][q - j] == '/';
      } else {
        assert s[j..j + |code|] == t[j - q..j - q + |code|];
        assert !OccursAt(t, code, j - q);
      }
    }
  }

  /** `rpartition` finds the occurrence of `code` just before a
      separator when `code` holds no separator and does not occur later. */
  lemma RPartitionAtLast(h: string, code: string, t: string)
    requires code != [] && '/' !in code
    requires t != [] && t[0] == '/'
    requires forall j :: !OccursAt(t, code, j)
    ensures RPartition(h + code + t, code) == Parts(h, code, t)
  {
    var s := h + code + t;
    assert s[|h|..|h| + |code|] == code;
    assert OccursAt(s, code, |h|);
    forall j | |h| < j ensures !OccursAt(s, code, j) {
      NoOccurrenceAcrossSlash(h, code, t, j);
    }
    var p := RPartition(s, code);
    RPartitionLast(s, code);
    assert |p.head| == |h|;
    assert p.head == s[..|h|];
    assert s[..|h|] == h;
  }

  /** `partition("/")` of a text that starts with a separator. */
  lemma PartitionLeadingSlash(rest: string)
    ensures Partition("/" + rest, "/").tail == rest
  {
    var t := "/" + rest;
    var r := Partition(t, "/");
    PartitionFirst(t, "/");
    assert OccursAt(t, "/", 0);
  }

  /** For a path `h + code + "/" + rest` in which `code` is the last
      directory named like the project, the target is the same path with
      that directory renamed to the value in upper case. */
  lemma TargetPathReplacesProduct(h: string, projectCode: string, rest: string, v: string)
    requires projectCode != [] && '/' !in projectCode
    requires h == [] || h[|h| - 1] == '/'
    requires IsPlainSegment(Upper(v))
    requires rest == [] || rest[0] != '/'
    requires forall j :: !OccursAt("/" + rest, projectCode, j)
    ensures TargetPath(h + projectCode + "/" + rest, projectCode, v) == h + Upper(v) + "/" + rest
  {
    assert h + projectCode + "/" + rest == h + projectCode + ("/" + rest);
    RPartitionAtLast(h, projectCode, "/" + rest);
    PartitionLeadingSlash(rest);
    var u := Upper(v);
    assert PathJoin(h, u) == h + u;
    assert (h + u)[|h + u| - 1] == u[|u| - 1];
  }

  /** `AutoAgent.run`: one copy of the document per value whose upper-case
      form is not the project code itself. The values come as a set, so
      the order of the copies is not specified. */
  method RunAuto(docPath: string, projectCode: string, values: set<string>) returns (copies: seq<Copy>)
    requires projectCode != []
    ensures forall c :: c in copies <==>
              exists v :: v in values && Upper(v) != projectCode && c == Copy(docPath, TargetPath(docPath, projectCode, v))
    ensures |copies| == |Copied(values, projectCode)| <= |values|
  {
    copies := [];
    var left := values;
    ghost var done: set<string> := {};
    while left != {}
      invariant left + done == values && left !! done
      invariant |copies| == |Copied(done, projectCode)|
      invariant forall c :: c in copies <==>
                  exists v :: v in done && Upper(v) != projectCode && c == Copy(docPath, TargetPath(docPath, projectCode, v))
      decreases |left|
    {
      var eachV :| eachV in left;
      var target := TargetPath(docPath, projectCode, eachV);
      CopiedAdd(done, eachV, projectCode);
      if projectCode != Upper(eachV) {
        copies := copies + [Copy(docPath, target)];
      }
      left := left - {eachV};
      done := done + {eachV};
    }
    CopiedBound(values, projectCode);
  }

  /** The values the auto agent copies for: those whose upper-case form is
      not the project code. */
  function Copied(values: set<string>, projectCode: string): set<string>
  {
    set v | v in values && Upper(v) != projectCode
  }

  lemma CopiedAdd(done: set<string>, v: string, projectCode: string)
    requires v !in done
    ensures |Copied(done + {v}, projectCode)| == |Copied(done, projectCode)| + if Upper(v) != projectCode then 1 else 0
  {
    if Upper(v) != projectCode {
      assert Copied(done + {v}, projectCode) == Copied(done, projectCode) + {v};
    } else {
      assert Copied(done + {v}, projectCode) == Copied(done, projectCode);
    }
  }

  lemma CopiedBound(values: set<string>, projectCode: string)
    ensures |Copied(values, projectCode)| <= |values|
  {
    assert Copied(values, projectCode) <= values;
    SubsetCard(Copied(values, projectCode), values);
  }

  lemma SubsetCard<T>(a: set<T>, b: set<T>)
    requires a <= b
    ensures |a| <= |b|
  {
    assert b == a + (b - a);
  }
}
