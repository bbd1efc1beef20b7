/** The parts of Python's `str` and `posixpath` semantics that the scraper
    relies on: `split` on one separator character, `join`, `strip` and
    `rstrip(chars)`, `replace` (every non-overlapping occurrence, scanned
    from the left), `posixpath.join`, the newline translation and
    `readlines()` of a file opened in text mode, and code-point order on
    strings (what `sorted` uses). */
module PyStr {

  /** The characters for which Python's `str.isspace` holds; `strip()` with
      no argument removes exactly these from both ends. */
  const Whitespace: set<char> := {
    '\t', '\n', '\U{0B}', '\U{0C}', '\r', '\U{1C}', '\U{1D}', '\U{1E}', '\U{1F}', ' ',
    '\U{85}', '\U{A0}', '\U{1680}',
    '\U{2000}', '\U{2001}', '\U{2002}', '\U{2003}', '\U{2004}', '\U{2005}',
    '\U{2006}', '\U{2007}', '\U{2008}', '\U{2009}', '\U{200A}',
    '\U{2028}', '\U{2029}', '\U{202F}', '\U{205F}', '\U{3000}'
  }

  predicate StartsWith(s: string, prefix: string) {
    |prefix| <= |s| && s[..|prefix|] == prefix
  }

  predicate EndsWith(s: string, suffix: string) {
    |suffix| <= |s| && s[|s| - |suffix|..] == suffix
  }

  /** `pat in s` for a non-empty pattern. */
  predicate Occurs(s: string, pat: string) {
    exists i :: 0 <= i <= |s| && StartsWith(s[i..], pat)
  }

  // ---------------------------------------------------------------- split / join

  /** `s.split(sep)` for a one-character separator: the fields between
      separators, empty fields included. */
  function Split(s: string, sep: char): (parts: seq<string>)
    ensures |parts| >= 1
    ensures forall i :: 0 <= i < |parts| ==> sep !in parts[i]
    ensures |parts| == 1 <==> sep !in s
    decreases |s|
  {
    if s == [] then [""]
    else
      var rest := Split(s[1..], sep);
      if s[0] == sep then [""] + rest
      else [[s[0]] + rest[0]] + rest[1..]
  }

  /** `sep.join(parts)`. */
  function Join(parts: seq<string>, sep: string): string
    decreases |parts|
  {
    if |parts| == 0 then ""
    else if |parts| == 1 then parts[0]
    else parts[0] + sep + Join(parts[1..], sep)
  }

  /** Joining the fields of a split with its separator gives back the string. */
  lemma {:induction false} JoinSplit(s: string, sep: char)
    ensures Join(Split(s, sep), [sep]) == s
    decreases |s|
  {
    if s != [] {
      var c, t := s[0], s[1..];
      assert s == [c] + t;
      var rest := Split(t, sep);
      JoinSplit(t, sep);
      SplitCons(c, t, sep);
      if c == sep {
        JoinEmptyFirst(rest, [sep]);
      } else {
        JoinGrowFirst(c, rest, [sep]);
      }
    }
  }

  lemma JoinEmptyFirst(parts: seq<string>, sep: string)
    requires parts != []
    ensures Join([""] + parts, sep) == sep + Join(parts, sep)
  {
    assert ([""] + parts)[1..] == parts;
  }

  lemma JoinGrowFirst(c: char, parts: seq<string>, sep: string)
    requires parts != []
    ensures Join([[c] + parts[0]] + parts[1..], sep) == [c] + Join(parts, sep)
  {
    var grown := [[c] + parts[0]] + parts[1..];
    if |parts| == 1 {
      assert grown == [[c] + parts[0]];
    } else {
      assert grown[1..] == parts[1..];
    }
  }

  lemma SplitNoSep(s: string, sep: char)
    requires sep !in s
    ensures Split(s, sep) == [s]
  {
    JoinSplit(s, sep);
  }

  /** A separator splits the string into the fields on its left followed by
      the fields on its right. */
  lemma {:induction false} SplitConcat(a: string, b: string, sep: char)
    ensures Split(a + [sep] + b, sep) == Split(a, sep) + Split(b, sep)
    decreases |a|
  {
    var s := a + [sep] + b;
    if a == [] {
      assert s == [sep] + b;
      SplitCons(sep, b, sep);
    } else {
      var t := a[1..] + [sep] + b;
      assert s == [a[0]] + t && a == [a[0]] + a[1..];
      SplitConcat(a[1..], b, sep);
      SplitCons(a[0], t, sep);
      SplitCons(a[0], a[1..], sep);
      FieldsCons(a[0], sep, Split(a[1..], sep), Split(b, sep));
    }
  }

  /** The step of `SplitCons` commutes with appending further fields. */
  lemma FieldsCons(c: char, sep: char, ra: seq<string>, rb: seq<string>)
    requires ra != []
    ensures (if c == sep then [""] + (ra + rb) else [[c] + (ra + rb)[0]] + (ra + rb)[1..])
         == (if c == sep then [""] + ra else [[c] + ra[0]] + ra[1..]) + rb
  {
    if c != sep {
      assert (ra + rb)[1..] == ra[1..] + rb;
    }
  }

  /** One step of `split`: a leading separator opens an empty field, any
      other character joins the first field. */
  lemma SplitCons(c: char, t: string, sep: char)
    ensures var rest := Split(t, sep);
      Split([c] + t, sep) == if c == sep then [""] + rest else [[c] + rest[0]] + rest[1..]
  {
    assert ([c] + t)[1..] == t;
  }

  /** Splitting a join of separator-free fields gives back the fields. */
  lemma {:induction false} SplitJoin(parts: seq<string>, sep: char)
    requires |parts| >= 1
    requires forall i :: 0 <= i < |parts| ==> sep !in parts[i]
    ensures Split(Join(parts, [sep]), sep) == parts
    decreases |parts|
  {
    SplitNoSep(parts[0], sep);
    if |parts| > 1 {
      SplitJoin(parts[1..], sep);
      SplitConcat(parts[0], Join(parts[1..], [sep]), sep);
      assert parts == [parts[0]] + parts[1..];
    }
  }

  lemma {:induction false} JoinSnoc(parts: seq<string>, x: string, sep: string)
    requires |parts| >= 1
    ensures Join(parts + [x], sep) == Join(parts, sep) + sep + x
    decreases |parts|
  {
    if |parts| == 1 {
      assert parts + [x] == [parts[0], x];
      assert [parts[0], x][1..] == [x];
    } else {
      assert (parts + [x])[1..] == parts[1..] + [x];
      JoinSnoc(parts[1..], x, sep);
    }
  }

  /** The first field of a split is the text before the first separator. */
  lemma {:induction false} SplitFirst(s: string, sep: char)
    ensures var f := Split(s, sep)[0];
      |f| <= |s| && s[..|f|] == f && (|f| < |s| ==> s[|f|] == sep)
    decreases |s|
  {
    if s != [] && s[0] != sep {
      SplitFirst(s[1..], sep);
      var rest := Split(s[1..], sep);
      var f := [s[0]] + rest[0];
      assert Split(s, sep)[0] == f;
      assert s[..|f|] == [s[0]] + s[1..][..|rest[0]|];
    }
  }

  /** The last field of a split is the text after the last separator. */
  lemma SplitLast(s: string, sep: char)
    ensures var parts := Split(s, sep); var l := parts[|parts| - 1];
      |l| <= |s| && s[|s| - |l|..] == l && (|l| < |s| ==> s[|s| - |l| - 1] == sep)
  {
    var parts := Split(s, sep);
    var l := parts[|parts| - 1];
    if |parts| >= 2 {
      SplitDropLast(s, sep);
      SuffixAfter(Join(parts[..|parts| - 1], [sep]), sep, l, s);
    } else {
      JoinSplit(s, sep);
      assert parts == [l];
    }
  }

  lemma SuffixAfter(front: string, c: char, l: string, s: string)
    requires s == front + [c] + l
    ensures |l| < |s| && s[|s| - |l|..] == l && s[|s| - |l| - 1] == c
  {
  }

  lemma Join3(a: string, b: string, c: string, sep: string)
    ensures Join([a, b, c], sep) == a + sep + b + sep + c
  {
    assert [a, b, c][1..] == [b, c];
    assert [b, c][1..] == [c];
    assert Join([b, c], sep) == b + sep + c;
    assert Join([a, b, c], sep) == a + sep + (b + sep + c);
  }

  /** When a split has at least two fields, the string is the join of all
      but the last field, the separator, and the last field. */
  lemma SplitDropLast(s: string, sep: char)
    ensures var parts := Split(s, sep);
      |parts| >= 2 ==> s == Join(parts[..|parts| - 1], [sep]) + [sep] + parts[|parts| - 1]
  {
    var parts := Split(s, sep);
    JoinSplit(s, sep);
    if |parts| >= 2 {
      JoinDropLast(parts, [sep]);
    }
  }

  lemma JoinDropLast(parts: seq<string>, sep: string)
    requires |parts| >= 2
    ensures Join(parts, sep) == Join(parts[..|parts| - 1], sep) + sep + parts[|parts| - 1]
  {
    JoinSnoc(parts[..|parts| - 1], parts[|parts| - 1], sep);
    assert parts[..|parts| - 1] + [parts[|parts| - 1]] == parts;
  }

  lemma {:induction false} JoinNoChar(parts: seq<string>, sep: string, c: char)
    requires c !in sep
    requires forall i :: 0 <= i < |parts| ==> c !in parts[i]
    ensures c !in Join(parts, sep)
    decreases |parts|
  {
    if |parts| > 1 {
      JoinNoChar(parts[1..], sep, c);
    }
  }

  /** Writing two joins back to back fuses the last field of the first with
      the first field of the second. */
  lemma {:induction false} JoinGlue(xs: seq<string>, ys: seq<string>, sep: string)
    requires |xs| >= 1 && |ys| >= 1
    ensures Join(xs, sep) + Join(ys, sep)
         == Join(xs[..|xs| - 1] + [xs[|xs| - 1] + ys[0]] + ys[1..], sep)
    decreases |xs|
  {
    var glued := xs[..|xs| - 1] + [xs[|xs| - 1] + ys[0]] + ys[1..];
    if |xs| == 1 {
      assert glued == [xs[0] + ys[0]] + ys[1..];
      if |ys| > 1 {
        assert glued[1..] == ys[1..];
      }
    } else {
      var tail := xs[1..];
      JoinGlue(tail, ys, sep);
      var rest := tail[..|tail| - 1] + [tail[|tail| - 1] + ys[0]] + ys[1..];
      assert glued == [xs[0]] + rest;
      assert glued[1..] == rest;
    }
  }

  // ---------------------------------------------------------------- strip

  /** `s.rstrip(chars)`: drops trailing characters that belong to the set
      (a character set, not a suffix). */
  function RStripChars(s: string, chars: set<char>): (r: string)
    ensures |r| <= |s| && r == s[..|r|]
    ensures r == [] || r[|r| - 1] !in chars
    ensures forall i :: |r| <= i < |s| ==> s[i] in chars
    decreases |s|
  {
    if s != [] && s[|s| - 1] in chars then RStripChars(s[..|s| - 1], chars) else s
  }

  /** `s.lstrip(chars)`. */
  function LStripChars(s: string, chars: set<char>): (r: string)
    ensures |r| <= |s| && r == s[|s| - |r|..]
    ensures r == [] || r[0] !in chars
    ensures forall i :: 0 <= i < |s| - |r| ==> s[i] in chars
    decreases |s|
  {
    if s != [] && s[0] in chars then LStripChars(s[1..], chars) else s
  }

  /** `s.strip()`. */
  function Strip(s: string): string {
    LStripChars(RStripChars(s, Whitespace), Whitespace)
  }

  predicate Stripped(s: string) {
    s == [] || (s[0] !in Whitespace && s[|s| - 1] !in Whitespace)
  }

  lemma StripIsStripped(s: string)
    ensures Stripped(Strip(s))
  {
    var m := RStripChars(s, Whitespace);
    var r := LStripChars(m, Whitespace);
    if r != [] {
      assert r[|r| - 1] == m[|m| - 1];
    }
  }

  lemma StrippedFixed(s: string)
    requires Stripped(s)
    ensures Strip(s) == s
  {
  }

  /** The line terminator that `readlines()` keeps is removed by `strip()`. */
  lemma StripNewline(x: string)
    ensures Strip(x + "\n") == Strip(x)
  {
    assert (x + "\n")[..|x|] == x;
  }

  /** `strip()` returns a slice of its input, so it adds no character. */
  lemma StripKeepsOut(s: string, c: char)
    requires c !in s
    ensures c !in Strip(s)
  {
    var m := RStripChars(s, Whitespace);
    var r := LStripChars(m, Whitespace);
    forall k | 0 <= k < |r| ensures r[k] != c {
      assert r[k] == m[|m| - |r| + k] == s[|m| - |r| + k];
    }
  }

  // ---------------------------------------------------------------- replace

  /** `s.replace("", rep)`: `rep` before every character and at the end. */
  function InsertAround(s: string, rep: string): string
    decreases |s|
  {
    if s == [] then rep else rep + [s[0]] + InsertAround(s[1..], rep)
  }

  /** `s.replace(pat, rep)`: every non-overlapping occurrence of `pat`,
      found scanning from the left, becomes `rep`. */
  function Replace(s: string, pat: string, rep: string): string
    decreases |s|
  {
    if pat == [] then InsertAround(s, rep)
    else if |s| < |pat| then s
    else if s[..|pat|] == pat then rep + Replace(s[|pat|..], pat, rep)
    else [s[0]] + Replace(s[1..], pat, rep)
  }

  /** A pattern holding a character the string lacks does not occur in it. */
  lemma NoOccurByChar(s: string, pat: string, c: char)
    requires c in pat && c !in s
    ensures !Occurs(s, pat)
  {
    var k :| 0 <= k < |pat| && pat[k] == c;
    forall i | 0 <= i <= |s| ensures !StartsWith(s[i..], pat) {
      if |pat| <= |s| - i {
        assert s[i..][..|pat|][k] == s[i + k] != c;
      }
    }
  }

  /** A pattern that does not occur leaves the string unchanged. */
  lemma {:induction false} ReplaceAbsent(s: string, pat: string, rep: string)
    requires pat != [] && !Occurs(s, pat)
    ensures Replace(s, pat, rep) == s
    decreases |s|
  {
    if |s| >= |pat| {
      assert s[0..] == s;
      assert !StartsWith(s[0..], pat);
      forall i | 0 <= i <= |s[1..]| ensures !StartsWith(s[1..][i..], pat) {
        assert s[1..][i..] == s[i + 1..];
      }
      ReplaceAbsent(s[1..], pat, rep);
      assert s == [s[0]] + s[1..];
    }
  }

  /** A leading occurrence is replaced and the scan resumes after it. */
  lemma ReplaceFront(pat: string, t: string, rep: string)
    requires pat != []
    ensures Replace(pat + t, pat, rep) == rep + Replace(t, pat, rep)
  {
    assert (pat + t)[..|pat|] == pat;
    assert (pat + t)[|pat|..] == t;
  }

  /** An occurrence at the very end, with no occurrence starting earlier, is
      the only one replaced. */
  lemma {:induction false} ReplaceAtEnd(p: string, pat: string, rep: string)
    requires pat != []
    requires forall i :: 0 <= i < |p| ==> !StartsWith((p + pat)[i..], pat)
    ensures Replace(p + pat, pat, rep) == p + rep
    decreases |p|
  {
    var s := p + pat;
    if p == [] {
      assert s == pat;
      ReplaceFront(pat, [], rep);
      assert pat + [] == pat;
    } else {
      NoEarlyTail(p, pat);
      ReplaceSkip(s, pat, rep);
      ReplaceAtEnd(p[1..], pat, rep);
      ConsOnto(p, rep, Replace(s, pat, rep), Replace(p[1..] + pat, pat, rep));
    }
  }

  lemma ConsOnto(p: string, rep: string, a: string, b: string)
    requires p != [] && a == [p[0]] + b && b == p[1..] + rep
    ensures a == p + rep
  {
    assert p == [p[0]] + p[1..];
  }

  /** No occurrence before the final one: neither at the front, nor in the
      rest after the first character. */
  lemma NoEarlyTail(p: string, pat: string)
    requires p != []
    requires forall i :: 0 <= i < |p| ==> !StartsWith((p + pat)[i..], pat)
    ensures !StartsWith(p + pat, pat) && (p + pat)[1..] == p[1..] + pat
    ensures forall i :: 0 <= i < |p[1..]| ==> !StartsWith((p[1..] + pat)[i..], pat)
  {
    var s := p + pat;
    assert s[0..] == s;
    forall i | 0 <= i < |p[1..]| ensures !StartsWith((p[1..] + pat)[i..], pat) {
      assert (p[1..] + pat)[i..] == s[i + 1..];
    }
  }

  /** Without an occurrence at the front, `replace` keeps the first
      character and goes on with the rest. */
  lemma ReplaceSkip(s: string, pat: string, rep: string)
    requires pat != [] && |s| >= |pat| && !StartsWith(s, pat)
    ensures Replace(s, pat, rep) == [s[0]] + Replace(s[1..], pat, rep)
  {
  }

  // ---------------------------------------------------------------- posixpath.join

  /** One step of `posixpath.join(a, b)`. */
  function PathJoin2(a: string, b: string): string {
    if StartsWith(b, "/") then b
    else if a == [] || EndsWith(a, "/") then a + b
    else a + "/" + b
  }

  /** `posixpath.join(a, *rest)`. */
  function PathJoin(a: string, rest: seq<string>): string
    decreases |rest|
  {
    if rest == [] then a else PathJoin(PathJoin2(a, rest[0]), rest[1..])
  }

  predicate NoTrailingSlash(s: string) {
    s != [] && s[|s| - 1] != '/'
  }

  /** A non-empty path component with no slash at either end. */
  predicate PlainSegment(s: string) {
    NoTrailingSlash(s) && s[0] != '/'
  }

  lemma JoinSlashStep(a: string, b: string, tail: seq<string>)
    ensures Join([a + "/" + b] + tail, "/") == Join([a, b] + tail, "/")
  {
    assert ([a, b] + tail)[1..] == [b] + tail;
    if tail != [] {
      assert ([a + "/" + b] + tail)[1..] == tail;
      assert ([b] + tail)[1..] == tail;
    }
  }

  /** Joining plain components puts exactly one '/' between neighbours. */
  lemma {:induction false} PathJoinPlain(a: string, rest: seq<string>)
    requires NoTrailingSlash(a)
    requires forall i :: 0 <= i < |rest| ==> PlainSegment(rest[i])
    ensures PathJoin(a, rest) == Join([a] + rest, "/")
    decreases |rest|
  {
    if rest != [] {
      var b, tail := rest[0], rest[1..];
      assert !StartsWith(b, "/") by {
        assert PlainSegment(b);
      }
      assert !EndsWith(a, "/") by {
        assert a[|a| - 1..] == [a[|a| - 1]];
      }
      assert PathJoin(a, rest) == PathJoin(a + "/" + b, tail);
      PathJoinPlain(a + "/" + b, tail);
      JoinSlashStep(a, b, tail);
      assert [a] + rest == [a, b] + tail;
    }
  }

  // ---------------------------------------------------------------- text files

  /** Universal-newline reading: "\r\n" and a lone "\r" both become "\n". */
  function TranslateNewlines(s: string): (t: string)
    ensures '\r' !in t
    ensures '\r' !in s ==> t == s
    decreases |s|
  {
    if s == [] then []
    else if s[0] == '\r' then
      if |s| >= 2 && s[1] == '\n' then "\n" + TranslateNewlines(s[2..])
      else "\n" + TranslateNewlines(s[1..])
    else [s[0]] + TranslateNewlines(s[1..])
  }

  /** `readlines()` on translated text: each line keeps its "\n"; the last
      line lacks it when the text does not end in one. */
  function ReadLines(t: string): (lines: seq<string>)
    ensures t == [] <==> lines == []
    decreases |t|
  {
    if t == [] then []
    else
      var rest := ReadLines(t[1..]);
      if t[0] == '\n' || rest == [] then [[t[0]]] + rest
      else [[t[0]] + rest[0]] + rest[1..]
  }

  lemma {:induction false} ReadLinesLine(a: string, b: string)
    requires '\n' !in a
    ensures ReadLines(a + "\n" + b) == [a + "\n"] + ReadLines(b)
    decreases |a|
  {
    var t := a + "\n" + b;
    if a == [] {
      assert t == "\n" + b;
      assert t[1..] == b;
    } else {
      assert t[0] == a[0];
      assert t[1..] == a[1..] + "\n" + b;
      ReadLinesLine(a[1..], b);
      assert [a[0]] + (a[1..] + "\n") == a + "\n";
    }
  }

  lemma {:induction false} ReadLinesSingle(a: string)
    requires a != [] && '\n' !in a
    ensures ReadLines(a) == [a]
    decreases |a|
  {
    assert a == [a[0]] + a[1..];
    if |a| == 1 {
      assert a[1..] == [];
      assert ReadLines(a[1..]) == [];
      assert a == [a[0]];
    } else {
      ReadLinesSingle(a[1..]);
      assert ReadLines(a) == [[a[0]] + a[1..]];
    }
  }

  /** Every line ends at its first "\n": only the last character can be one. */
  lemma {:induction false} ReadLinesShape(t: string)
    ensures forall i :: 0 <= i < |ReadLines(t)| ==>
      ReadLines(t)[i] != [] && '\n' !in ReadLines(t)[i][..|ReadLines(t)[i]| - 1]
    decreases |t|
  {
    if t != [] {
      ReadLinesShape(t[1..]);
      var rest := ReadLines(t[1..]);
      if t[0] != '\n' && rest != [] {
        assert ([t[0]] + rest[0])[..|rest[0]|] == [t[0]] + rest[0][..|rest[0]| - 1];
      }
    }
  }

  /** Lines hold only characters of the text. */
  lemma {:induction false} ReadLinesNoChar(t: string, c: char)
    requires c !in t
    ensures forall i :: 0 <= i < |ReadLines(t)| ==> c !in ReadLines(t)[i]
    decreases |t|
  {
    if t != [] {
      ReadLinesNoChar(t[1..], c);
    }
  }

  // ---------------------------------------------------------------- ordering

  /** Python's `<=` on strings: code-point lexicographic order. */
  predicate LexLe(a: string, b: string)
    decreases |a|
  {
    a == [] || (b != [] && (a[0] < b[0] || (a[0] == b[0] && LexLe(a[1..], b[1..]))))
  }

  lemma {:induction false} LexLeTotal(a: string, b: string)
    ensures LexLe(a, b) || LexLe(b, a)
    decreases |a|
  {
    if a != [] && b != [] && a[0] == b[0] {
      LexLeTotal(a[1..], b[1..]);
    }
  }

  lemma {:induction false} LexLeTrans(a: string, b: string, c: string)
    requires LexLe(a, b) && LexLe(b, c)
    ensures LexLe(a, c)
    decreases |a|
  {
    if a != [] && a[0] == b[0] && b[0] == c[0] {
      LexLeTrans(a[1..], b[1..], c[1..]);
    }
  }

  lemma {:induction false} LexLeAntisym(a: string, b: string)
    requires LexLe(a, b) && LexLe(b, a)
    ensures a == b
    decreases |a|
  {
    if a != [] {
      LexLeAntisym(a[1..], b[1..]);
      assert a == [a[0]] + a[1..];
      assert b == [b[0]] + b[1..];
    }
  }
}
