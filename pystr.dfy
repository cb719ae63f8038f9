/**
 * The Python string primitives the documentation library relies on, stated
 * over `string` (= seq<char>): whitespace stripping and splitting, regular
 * expression splitting on a one-character class, `partition`/`rpartition`,
 * `join`, slicing, repetition, `os.path.join` on POSIX and `str.title`.
 * Case mapping covers ASCII letters only.
 */
module PyStr {

  /** The characters for which Python's `str.isspace()` holds: what `strip()`,
      `rstrip()` and `split()` without an argument treat as whitespace. */
  const Space: set<char> := {
    ' ', '\t', '\n', '\U{B}', '\U{C}', '\r', '\U{1C}', '\U{1D}', '\U{1E}', '\U{1F}',
    '\U{85}', '\U{A0}', '\U{1680}', '\U{2000}', '\U{2001}', '\U{2002}', '\U{2003}',
    '\U{2004}', '\U{2005}', '\U{2006}', '\U{2007}', '\U{2008}', '\U{2009}', '\U{200A}',
    '\U{2028}', '\U{2029}', '\U{202F}', '\U{205F}', '\U{3000}'}

  /** Python's `string.whitespace`. */
  const AsciiWhitespace: set<char> := {' ', '\t', '\n', '\r', '\U{B}', '\U{C}'}

  /** Python's `string.punctuation`. */
  const Punctuation: set<char> := {
    '!', '\"', '#', '$', '%', '&', '\'', '(', ')', '*', '+', ',', '-', '.', '/', ':',
    ';', '<', '=', '>', '?', '@', '[', '\\', ']', '^', '_', '`', '{', '|', '}', '~'}

  /** The characters that the pattern "[{whitespace}{punctuation}]" is meant to
      match: every whitespace and every punctuation character. */
  const SeparatorClass: set<char> := AsciiWhitespace + Punctuation

  /** The characters that pattern matches as the source builds it: inside the
      brackets the backslash of `string.punctuation` escapes the `]` after it,
      so the backslash itself is not in the class. */
  const SeparatorClassAsWritten: set<char> := SeparatorClass - {'\\'}

  predicate IsUpper(c: char) { 'A' <= c <= 'Z' }
  predicate IsLower(c: char) { 'a' <= c <= 'z' }
  predicate IsLetter(c: char) { IsUpper(c) || IsLower(c) }
  predicate IsDigit(c: char) { '0' <= c <= '9' }

  /** `str.isalnum()` on one character (ASCII letters and digits). */
  predicate IsAlnum(c: char) { IsLetter(c) || IsDigit(c) }

  function LowerChar(c: char): char { if IsUpper(c) then (c as int + 32) as char else c }
  function UpperChar(c: char): char { if IsLower(c) then (c as int - 32) as char else c }

  /** `str.lower()` */
  function Lower(s: string): (r: string)
    ensures |r| == |s|
    ensures forall i :: 0 <= i < |s| ==> r[i] == LowerChar(s[i])
  {
    seq(|s|, i requires 0 <= i < |s| => LowerChar(s[i]))
  }

  /** `str.upper()` */
  function Upper(s: string): (r: string)
    ensures |r| == |s|
    ensures forall i :: 0 <= i < |s| ==> r[i] == UpperChar(s[i])
  {
    seq(|s|, i requires 0 <= i < |s| => UpperChar(s[i]))
  }

  /** No upper-case letter occurs in `s`. */
  predicate NoUpper(s: string) { forall i :: 0 <= i < |s| ==> !IsUpper(s[i]) }

  /** `str.rstrip(chars)`, the characters given as a set. */
  function RStripClass(s: string, cls: set<char>): (r: string)
    ensures |r| <= |s| && r == s[..|r|]
    ensures r == [] || r[|r| - 1] !in cls
    ensures forall i :: |r| <= i < |s| ==> s[i] in cls
  {
    if s != [] && s[|s| - 1] in cls then RStripClass(s[..|s| - 1], cls) else s
  }

  /** `str.lstrip(chars)`, the characters given as a set. */
  function LStripClass(s: string, cls: set<char>): (r: string)
    ensures |r| <= |s| && r == s[|s| - |r|..]
    ensures r == [] || r[0] !in cls
    ensures forall i :: 0 <= i < |s| - |r| ==> s[i] in cls
  {
    if s != [] && s[0] in cls then LStripClass(s[1..], cls) else s
  }

  /** `str.rstrip()` */
  function RStrip(s: string): (r: string)
    ensures |r| <= |s| && r == s[..|r|]
    ensures r == [] || r[|r| - 1] !in Space
    ensures forall i :: |r| <= i < |s| ==> s[i] in Space
  {
    RStripClass(s, Space)
  }

  /** `str.lstrip()` */
  function LStrip(s: string): (r: string)
    ensures |r| <= |s| && r == s[|s| - |r|..]
    ensures r == [] || r[0] !in Space
    ensures forall i :: 0 <= i < |s| - |r| ==> s[i] in Space
  {
    LStripClass(s, Space)
  }

  /** `str.strip()` */
  function Strip(s: string): string { LStrip(RStrip(s)) }

  /** Python's truthiness of `s.strip()`: some character of `s` is not whitespace. */
  predicate IsBlank(s: string) { forall i :: 0 <= i < |s| ==> s[i] in Space }

  lemma StripEmptyIffBlank(s: string)
    ensures Strip(s) == [] <==> IsBlank(s)
  {
    var r := RStrip(s);
    if Strip(s) == [] {
      forall i | 0 <= i < |s| ensures s[i] in Space {
        if i >= |r| {
        } else {
          assert r[i] == s[i];
        }
      }
    } else {
      var l := Strip(s);
      assert l[0] in r;
    }
  }

  /** Length of the leading run of `s` made of characters outside `cls`. */
  function RunLength(s: string, cls: set<char>): (n: nat)
    ensures n <= |s|
    ensures forall i :: 0 <= i < n ==> s[i] !in cls
    ensures n == |s| || s[n] in cls
    ensures s != [] && s[0] !in cls ==> n > 0
  {
    if s == [] || s[0] in cls then 0 else 1 + RunLength(s[1..], cls)
  }

  /** The non-empty pieces of `s` between characters of `cls`: both
      `[p for p in re.split("[...]", s) if p]` for a one-character class and,
      with `cls == Space`, `s.split()`. */
  function Words(s: string, cls: set<char>): seq<string>
    decreases |s|
  {
    if s == [] then []
    else if s[0] in cls then Words(s[1..], cls)
    else
      var n := RunLength(s, cls);
      [s[..n]] + Words(s[n..], cls)
  }

  /** A word: non-empty and free of the class's characters. */
  predicate IsWord(w: string, cls: set<char>)
  {
    w != [] && forall i :: 0 <= i < |w| ==> w[i] !in cls
  }

  lemma {:induction false} WordsAreWords(s: string, cls: set<char>)
    ensures forall w :: w in Words(s, cls) ==> IsWord(w, cls)
    decreases |s|
  {
    if s == [] {
    } else if s[0] in cls {
      WordsAreWords(s[1..], cls);
    } else {
      var n := RunLength(s, cls);
      WordsAreWords(s[n..], cls);
    }
  }

  /** Every character of every word occurs in the text. */
  lemma {:induction false} WordsCharsFromText(s: string, cls: set<char>)
    ensures forall w, i :: w in Words(s, cls) && 0 <= i < |w| ==> w[i] in s
    decreases |s|
  {
    if s == [] {
    } else if s[0] in cls {
      WordsCharsFromText(s[1..], cls);
    } else {
      var n := RunLength(s, cls);
      WordsCharsFromText(s[n..], cls);
      forall w, i | w in Words(s, cls) && 0 <= i < |w| ensures w[i] in s {
        if w == s[..n] {
          assert w[i] == s[i];
        } else {
          assert w in Words(s[n..], cls);
          assert w[i] in s[n..];
        }
      }
    }
  }

  lemma RunLengthAppend(x: string, z: string, cls: set<char>)
    requires z != [] && z[0] in cls
    ensures RunLength(x + z, cls) == RunLength(x, cls)
    decreases |x|
  {
    if x != [] && x[0] !in cls {
      assert (x + z)[1..] == x[1..] + z;
      RunLengthAppend(x[1..], z, cls);
    }
  }

  /** A separator splits the text into the words before it and those after it:
      runs of separators collapse, and leading or trailing ones vanish. */
  lemma {:induction false} WordsAroundSeparator(x: string, d: char, y: string, cls: set<char>)
    requires d in cls
    ensures Words(x + [d] + y, cls) == Words(x, cls) + Words(y, cls)
    decreases |x|
  {
    var s := x + [d] + y;
    if x == [] {
      assert s[1..] == y;
    } else if x[0] in cls {
      assert s[1..] == x[1..] + [d] + y;
      WordsAroundSeparator(x[1..], d, y, cls);
    } else {
      RunLengthAppend(x, [d] + y, cls);
      var n := RunLength(x, cls);
      assert s == x + ([d] + y);
      assert s[..n] == x[..n];
      if n == |x| {
        assert s[n..] == [d] + y;
        assert Words([d] + y, cls) == Words(y, cls) by {
          assert ([d] + y)[1..] == y;
        }
        assert Words(x, cls) == [x[..n]] + Words(x[n..], cls);
        assert x[n..] == [];
      } else {
        assert s[n..] == x[n..] + [d] + y;
        WordsAroundSeparator(x[n..], d, y, cls);
      }
    }
  }

  lemma WordsOfPlain(s: string, cls: set<char>)
    requires IsWord(s, cls)
    ensures Words(s, cls) == [s]
  {
    RunLengthPlain(s, cls);
    assert s[..|s|] == s && s[|s|..] == [];
    assert Words(s, cls) == [s[..|s|]] + Words(s[|s|..], cls);
  }

  /** Two classes that classify every character of `s` alike cut it alike. */
  lemma {:induction false} RunLengthAgree(s: string, a: set<char>, b: set<char>)
    requires forall i :: 0 <= i < |s| ==> (s[i] in a <==> s[i] in b)
    ensures RunLength(s, a) == RunLength(s, b)
    decreases |s|
  {
    if s != [] && s[0] !in a {
      RunLengthAgree(s[1..], a, b);
    }
  }

  lemma {:induction false} WordsAgree(s: string, a: set<char>, b: set<char>)
    requires forall i :: 0 <= i < |s| ==> (s[i] in a <==> s[i] in b)
    ensures Words(s, a) == Words(s, b)
    decreases |s|
  {
    if s == [] {
    } else if s[0] in a {
      WordsAgree(s[1..], a, b);
    } else {
      RunLengthAgree(s, a, b);
      var n := RunLength(s, a);
      WordsAgree(s[n..], a, b);
    }
  }

  /** Text without a backslash is cut alike by the separator class as
      intended and as the source builds it. */
  lemma WordsWithoutBackslash(s: string)
    ensures '\\' !in s ==> Words(s, SeparatorClass) == Words(s, SeparatorClassAsWritten)
  {
    if '\\' !in s {
      forall i | 0 <= i < |s| ensures s[i] in SeparatorClass <==> s[i] in SeparatorClassAsWritten {
        assert s[i] in s;
      }
      WordsAgree(s, SeparatorClass, SeparatorClassAsWritten);
    }
  }

  /** `"".join(parts)` */
  function Concat(parts: seq<string>): string
  {
    if parts == [] then [] else parts[0] + Concat(parts[1..])
  }

  /** `s` with every character of `cls` removed. */
  function Remove(s: string, cls: set<char>): (r: string)
    ensures forall i :: 0 <= i < |r| ==> r[i] !in cls
  {
    if s == [] then []
    else (if s[0] in cls then [] else [s[0]]) + Remove(s[1..], cls)
  }

  lemma {:induction false} RemoveAppend(a: string, b: string, cls: set<char>)
    ensures Remove(a + b, cls) == Remove(a, cls) + Remove(b, cls)
    decreases |a|
  {
    if a != [] {
      assert (a + b)[1..] == a[1..] + b;
      RemoveAppend(a[1..], b, cls);
    } else {
      assert a + b == b;
    }
  }

  lemma {:induction false} RemovePlain(s: string, cls: set<char>)
    requires forall i :: 0 <= i < |s| ==> s[i] !in cls
    ensures Remove(s, cls) == s
    decreases |s|
  {
    if s != [] {
      RemovePlain(s[1..], cls);
    }
  }

  /** Concatenating the words gives the text with the class's characters removed. */
  lemma {:induction false} WordsConcat(s: string, cls: set<char>)
    ensures Concat(Words(s, cls)) == Remove(s, cls)
    decreases |s|
  {
    if s == [] {
    } else if s[0] in cls {
      WordsConcat(s[1..], cls);
    } else {
      var n := RunLength(s, cls);
      WordsConcat(s[n..], cls);
      assert s == s[..n] + s[n..];
      RemoveAppend(s[..n], s[n..], cls);
      RemovePlain(s[..n], cls);
      assert Concat([s[..n]] + Words(s[n..], cls)) == s[..n] + Concat(Words(s[n..], cls)) by {
        assert ([s[..n]] + Words(s[n..], cls))[1..] == Words(s[n..], cls);
      }
    }
  }

  /** `sep.join(parts)` */
  function Join(parts: seq<string>, sep: string): string
  {
    if |parts| == 0 then []
    else if |parts| == 1 then parts[0]
    else parts[0] + sep + Join(parts[1..], sep)
  }

  lemma JoinPair(a: string, b: string, sep: string)
    ensures Join([a, b], sep) == a + sep + b
  {
    assert [a, b][1..] == [b];
  }

  lemma JoinTriple(a: string, b: string, c: string, sep: string)
    ensures Join([a, b, c], sep) == a + sep + b + sep + c
  {
    assert [a, b, c][1..] == [b, c];
    JoinPair(b, c, sep);
  }

  /** No leading, no trailing and no doubled `c`. */
  predicate Collapsed(r: string, c: char)
  {
    && (r == [] || (r[0] != c && r[|r| - 1] != c))
    && forall i :: 0 <= i < |r| - 1 && r[i] == c ==> r[i + 1] != c
  }

  /** Joining words with a one-character separator that cannot occur inside a
      word yields a string with no leading, trailing or doubled separator. */
  lemma {:induction false} JoinWordsCollapsed(ws: seq<string>, c: char, cls: set<char>)
    requires c in cls
    requires forall w :: w in ws ==> IsWord(w, cls)
    ensures Collapsed(Join(ws, [c]), c)
    ensures ws != [] ==> Join(ws, [c]) != []
    decreases |ws|
  {
    if |ws| >= 2 {
      var rest := Join(ws[1..], [c]);
      JoinWordsCollapsed(ws[1..], c, cls);
      var w := ws[0];
      assert IsWord(w, cls);
      var r := w + [c] + rest;
      assert r == Join(ws, [c]);
      assert r[0] == w[0];
      assert r[|r| - 1] == rest[|rest| - 1];
      assert forall i :: 0 <= i < |w| ==> r[i] == w[i] && r[i] != c;
      forall i | |w| <= i < |r| - 1 && r[i] == c ensures r[i + 1] != c {
        if i == |w| {
          assert r[i + 1] == rest[0];
        } else {
          assert r[i] == rest[i - |w| - 1];
          assert r[i + 1] == rest[i - |w|];
        }
      }
    } else if |ws| == 1 {
      assert IsWord(ws[0], cls);
    }
  }

  /** Removing the separator from joined words gives their concatenation. */
  lemma {:induction false} RemoveJoin(ws: seq<string>, c: char, cls: set<char>)
    requires c in cls
    requires forall w :: w in ws ==> IsWord(w, cls)
    ensures Remove(Join(ws, [c]), cls) == Concat(ws)
    decreases |ws|
  {
    if |ws| > 0 {
      assert IsWord(ws[0], cls);
    }
    if |ws| == 1 {
      RemovePlain(ws[0], cls);
      assert Concat(ws) == ws[0] + Concat(ws[1..]);
    } else if |ws| >= 2 {
      RemoveJoin(ws[1..], c, cls);
      RemovePlain(ws[0], cls);
      RemoveAppend(ws[0], [c] + Join(ws[1..], [c]), cls);
      RemoveAppend([c], Join(ws[1..], [c]), cls);
      assert ws[0] + [c] + Join(ws[1..], [c]) == ws[0] + ([c] + Join(ws[1..], [c]));
    }
  }

  /** `s.split(c)` for one character: the pieces between occurrences of `c`,
      empty pieces included. */
  function SplitChar(s: string, c: char): (r: seq<string>)
    ensures |r| > 0
    decreases |s|
  {
    var n := RunLength(s, {c});
    if n == |s| then [s] else [s[..n]] + SplitChar(s[n + 1..], c)
  }

  /** Splitting on a character undoes joining with it, when no part contains it. */
  lemma {:induction false} SplitJoin(parts: seq<string>, c: char)
    requires |parts| > 0
    requires forall p :: p in parts ==> c !in p
    ensures SplitChar(Join(parts, [c]), c) == parts
    decreases |parts|
  {
    var p := parts[0];
    assert c !in p;
    if |parts| == 1 {
      SplitPlain(p, c);
    } else {
      var rest := Join(parts[1..], [c]);
      assert Join(parts, [c]) == p + ([c] + rest);
      SplitStep(p, c, rest);
      SplitJoin(parts[1..], c);
      assert parts == [p] + parts[1..];
    }
  }

  /** A string without the character splits into itself. */
  lemma SplitPlain(p: string, c: char)
    requires c !in p
    ensures SplitChar(p, c) == [p]
  {
    assert forall i :: 0 <= i < |p| ==> p[i] in p;
    RunLengthPlain(p, {c});
  }

  /** Splitting stops at the first occurrence of the character. */
  lemma SplitStep(p: string, c: char, rest: string)
    requires c !in p
    ensures SplitChar(p + ([c] + rest), c) == [p] + SplitChar(rest, c)
  {
    var s := p + ([c] + rest);
    assert forall i :: 0 <= i < |p| ==> p[i] in p;
    RunLengthPlain(p, {c});
    RunLengthAppend(p, [c] + rest, {c});
    assert s[..|p|] == p;
    assert s[|p| + 1..] == rest;
  }

  lemma RunLengthPlain(s: string, cls: set<char>)
    requires forall i :: 0 <= i < |s| ==> s[i] !in cls
    ensures RunLength(s, cls) == |s|
  {
  }

  /** Some occurrence of `sep` starts at index `j` of `s`. */
  predicate OccursAt(s: string, sep: string, j: int)
  {
    0 <= j && j + |sep| <= |s| && s[j..j + |sep|] == sep
  }

  /** Index of the first occurrence of `sep` at or after `i`, or -1. */
  function FindFrom(s: string, sep: string, i: nat): (k: int)
    requires i <= |s|
    ensures k == -1 || (i <= k && OccursAt(s, sep, k))
    ensures forall j :: i <= j && (k == -1 || j < k) ==> !OccursAt(s, sep, j)
    decreases |s| - i
  {
    if i + |sep| > |s| then -1
    else if s[i..i + |sep|] == sep then i
    else FindFrom(s, sep, i + 1)
  }

  /** Index of the last occurrence of `sep` starting at or before `i`, or -1. */
  function RFindFrom(s: string, sep: string, i: int): (k: int)
    ensures k == -1 || (k <= i && OccursAt(s, sep, k))
    ensures forall j :: k < j <= i ==> !OccursAt(s, sep, j)
    decreases i + 1
  {
    if i < 0 then -1
    else if OccursAt(s, sep, i) then i
    else RFindFrom(s, sep, i - 1)
  }

  /** The three parts `str.partition` and `str.rpartition` return. */
  datatype Parts = Parts(head: string, sep: string, tail: string)

  /** `s.partition(sep)`: split at the first occurrence; `(s, "", "")` when
      there is none. Python rejects an empty separator. */
  function Partition(s: string, sep: string): (p: Parts)
    requires sep != []
    ensures p.head + p.sep + p.tail == s
    ensures p.sep == [] || p.sep == sep
  {
    var k := FindFrom(s, sep, 0);
    if k < 0 then Parts(s, [], [])
    else
      assert s == s[..k] + s[k..k + |sep|] + s[k + |sep|..];
      Parts(s[..k], sep, s[k + |sep|..])
  }

  /** `partition` splits at the first occurrence: none in the head. */
  lemma PartitionFirst(s: string, sep: string)
    requires sep != []
    ensures Partition(s, sep).sep == [] <==> forall j :: !OccursAt(s, sep, j)
    ensures Partition(s, sep).sep == [] ==> Partition(s, sep).tail == []
    ensures forall j :: !OccursAt(Partition(s, sep).head, sep, j)
  {
    var p := Partition(s, sep);
    forall j | OccursAt(p.head, sep, j) ensures false {
      assert p.head[j..j + |sep|] == s[j..j + |sep|];
      assert OccursAt(s, sep, j);
    }
  }

  /** `s.rpartition(sep)`: split at the last occurrence; `("", "", s)` when
      there is none. */
  function RPartition(s: string, sep: string): (p: Parts)
    requires sep != []
    ensures p.head + p.sep + p.tail == s
    ensures p.sep == [] || p.sep == sep
  {
    var k := RFindFrom(s, sep, |s|);
    if k < 0 then Parts([], [], s)
    else
      assert s == s[..k] + s[k..k + |sep|] + s[k + |sep|..];
      Parts(s[..k], sep, s[k + |sep|..])
  }

  /** `rpartition` splits at the last occurrence: none in the tail, none
      starting after the head. */
  lemma RPartitionLast(s: string, sep: string)
    requires sep != []
    ensures RPartition(s, sep).sep == [] <==> forall j :: !OccursAt(s, sep, j)
    ensures RPartition(s, sep).sep == [] ==> RPartition(s, sep).head == []
    ensures forall j :: !OccursAt(RPartition(s, sep).tail, sep, j)
    ensures RPartition(s, sep).sep != [] ==>
              OccursAt(s, sep, |RPartition(s, sep).head|) &&
              forall j :: |RPartition(s, sep).head| < j ==> !OccursAt(s, sep, j)
  {
    var p := RPartition(s, sep);
    var k := |p.head|;
    forall j | OccursAt(p.tail, sep, j) ensures false {
      var t := k + |sep| + j;
      assert p.tail[j..j + |sep|] == s[t..t + |sep|];
      assert OccursAt(s, sep, t);
    }
  }

  /** `rpartition` on a one-character separator returns what follows its
      last occurrence. */
  lemma RPartitionAfterLastChar(x: string, c: char, v: string)
    requires c !in v
    ensures RPartition(x + [c] + v, [c]).tail == v
  {
    var s := x + [c] + v;
    var p := RPartition(s, [c]);
    RPartitionLast(s, [c]);
    assert OccursAt(s, [c], |x|);
    forall j | |x| < j ensures !OccursAt(s, [c], j) {
      if j < |s| {
        assert s[j] == v[j - |x| - 1];
        assert s[j..j + 1] == [s[j]];
      }
    }
    assert |p.head| == |x|;
    assert p.tail == s[|x| + 1..];
    assert s[|x| + 1..] == v;
  }

  /** `s.startswith(prefix)` */
  predicate StartsWith(s: string, prefix: string)
  {
    |prefix| <= |s| && s[..|prefix|] == prefix
  }

  /** `s.endswith(suffix)` */
  predicate EndsWith(s: string, suffix: string)
  {
    |suffix| <= |s| && s[|s| - |suffix|..] == suffix
  }

  /** `s[:n]`, negative `n` counting from the end. */
  function Slice(s: string, n: int): (r: string)
    ensures |r| <= |s| && r == s[..|r|]
    ensures 0 <= n ==> |r| == if n <= |s| then n else |s|
    ensures n < 0 ==> |r| == if |s| + n >= 0 then |s| + n else 0
  {
    if 0 <= n then (if n <= |s| then s[..n] else s)
    else if |s| + n >= 0 then s[..|s| + n]
    else []
  }

  /** `c * n` for a one-character string `c`. */
  function Repeat(c: char, n: int): (r: string)
    ensures |r| == if n <= 0 then 0 else n
    ensures forall i :: 0 <= i < |r| ==> r[i] == c
  {
    if n <= 0 then [] else seq(n, _ => c)
  }

  /** `str.title()`: a letter is upper-cased when the character before it is
      not a letter, lower-cased otherwise; other characters are kept. */
  function Title(s: string): (r: string)
    ensures |r| == |s|
  {
    seq(|s|, i requires 0 <= i < |s| =>
      if !IsLetter(s[i]) then s[i]
      else if i > 0 && IsLetter(s[i - 1]) then LowerChar(s[i])
      else UpperChar(s[i]))
  }

  /** POSIX `os.path.join(a, b)`: an absolute `b` replaces `a`; otherwise a
      slash is inserted unless `a` is empty or already ends with one. */
  function PathJoin(a: string, b: string): string
  {
    if b != [] && b[0] == '/' then b
    else if a == [] || a[|a| - 1] == '/' then a + b
    else a + "/" + b
  }

  /** A path segment that `os.path.join` appends with exactly one slash. */
  predicate IsPlainSegment(s: string)
  {
    s != [] && s[0] != '/' && s[|s| - 1] != '/'
  }

  lemma PathJoinPlain(a: string, b: string)
    requires IsPlainSegment(a) && IsPlainSegment(b)
    ensures PathJoin(a, b) == a + "/" + b
    ensures IsPlainSegment(PathJoin(a, b))
  {
  }

  // ---------------------------------------------------------------------
  // Case mapping and stripping commute.

  /** Letters are neither whitespace nor punctuation. */
  lemma LetterNotSeparator(c: char)
    requires IsLetter(c)
    ensures c !in Space && c !in SeparatorClass
  {
  }

  lemma LowerKeepsClass(c: char)
    ensures LowerChar(c) in Space <==> c in Space
    ensures LowerChar(c) in SeparatorClass <==> c in SeparatorClass
  {
    if IsUpper(c) {
      assert IsLower(LowerChar(c));
      LetterNotSeparator(c);
      LetterNotSeparator(LowerChar(c));
    }
  }

  lemma LowerIdempotent(s: string)
    ensures Lower(Lower(s)) == Lower(s)
  {
  }

  lemma {:induction false} LowerRStrip(s: string)
    ensures Lower(RStrip(s)) == RStrip(Lower(s))
    decreases |s|
  {
    if s != [] {
      LowerKeepsClass(s[|s| - 1]);
      if s[|s| - 1] in Space {
        assert Lower(s)[..|s| - 1] == Lower(s[..|s| - 1]);
        LowerRStrip(s[..|s| - 1]);
      }
    }
  }

  lemma LowerRemove(s: string)
    ensures Lower(Remove(s, SeparatorClass)) == Remove(Lower(s), SeparatorClass)
  {
    forall c: char ensures LowerChar(c) in SeparatorClass <==> c in SeparatorClass {
      LowerKeepsClass(c);
    }
    LowerRemoveClass(s, SeparatorClass);
  }

  lemma {:induction false} LowerRemoveClass(s: string, cls: set<char>)
    requires forall c: char :: LowerChar(c) in cls <==> c in cls
    ensures Lower(Remove(s, cls)) == Remove(Lower(s), cls)
    decreases |s|
  {
    if s != [] {
      assert Lower(s)[1..] == Lower(s[1..]);
      LowerRemoveClass(s[1..], cls);
      var h := if s[0] in cls then [] else [s[0]];
      assert Lower(h + Remove(s[1..], cls)) == Lower(h) + Lower(Remove(s[1..], cls));
    }
  }

  lemma UpperKeepsClass(c: char)
    ensures UpperChar(c) in SeparatorClass <==> c in SeparatorClass
    ensures UpperChar(c) == c || IsLower(c)
    ensures !IsLower(UpperChar(c))
  {
    if IsLower(c) {
      assert IsUpper(UpperChar(c));
      LetterNotSeparator(c);
      LetterNotSeparator(UpperChar(c));
    }
  }

  lemma UpperRemove(s: string)
    ensures Upper(Remove(s, SeparatorClass)) == Remove(Upper(s), SeparatorClass)
  {
    forall c: char ensures UpperChar(c) in SeparatorClass <==> c in SeparatorClass {
      UpperKeepsClass(c);
    }
    UpperRemoveClass(s, SeparatorClass);
  }

  lemma {:induction false} UpperRemoveClass(s: string, cls: set<char>)
    requires forall c: char :: UpperChar(c) in cls <==> c in cls
    ensures Upper(Remove(s, cls)) == Remove(Upper(s), cls)
    decreases |s|
  {
    if s != [] {
      assert Upper(s)[1..] == Upper(s[1..]);
      UpperRemoveClass(s[1..], cls);
      var h := if s[0] in cls then [] else [s[0]];
      assert Upper(h + Remove(s[1..], cls)) == Upper(h) + Upper(Remove(s[1..], cls));
    }
  }

  /** Upper-casing keeps a separator character where it was and puts none
      anywhere else. */
  lemma UpperCollapsed(r: string, c: char)
    requires c in SeparatorClass
    requires Collapsed(r, c)
    ensures Collapsed(Upper(r), c)
  {
    forall i | 0 <= i < |r| ensures Upper(r)[i] == c <==> r[i] == c {
      UpperKeepsClass(r[i]);
    }
  }

  /** Right-stripping is not affected by text in front of a non-blank tail. */
  lemma {:induction false} RStripPrefix(p: string, y: string)
    requires RStrip(y) != []
    ensures RStrip(p + y) == p + RStrip(y)
    decreases |y|
  {
    if y[|y| - 1] in Space {
      assert (p + y)[..|p + y| - 1] == p + y[..|y| - 1];
      RStripPrefix(p, y[..|y| - 1]);
    }
  }
}
