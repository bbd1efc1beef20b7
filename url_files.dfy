/** The local URL files: one file per category and run, grown by appending
    each page's URLs and deduplicated once the run is over. A file is its
    whole text, not a list of lines, because `append_urls_to_file` writes
    `"\n".join(batch)` with no trailing newline and so fuses the last URL of
    one batch with the first URL of the next. */
module UrlFiles {
  import opened Results
  import opened PyStr
  import opened Sets

  /** What `read_urls_from_file` returns for a file holding `text`: the
      file's lines in universal-newline mode, each stripped. */
  function ReadUrls(text: string): seq<string> {
    StripEach(ReadLines(TranslateNewlines(text)))
  }

  function StripEach(lines: seq<string>): seq<string> {
    seq(|lines|, i requires 0 <= i < |lines| => Strip(lines[i]))
  }

  /** A line as `read_urls_from_file` can return it. */
  predicate Clean(x: string) {
    Stripped(x) && '\n' !in x && '\r' !in x
  }

  /** The distinct non-blank URLs a file shows. */
  function NonBlank(text: string): set<string> {
    Elems(ReadUrls(text)) - {""}
  }

  /** Every line read back is stripped and holds no line break. */
  lemma ReadUrlsClean(text: string)
    ensures forall i :: 0 <= i < |ReadUrls(text)| ==> Clean(ReadUrls(text)[i])
  {
    var t := TranslateNewlines(text);
    var lines := ReadLines(t);
    ReadLinesShape(t);
    ReadLinesNoChar(t, '\r');
    forall i | 0 <= i < |lines| ensures Clean(Strip(lines[i])) {
      StripLineClean(lines[i]);
    }
  }

  /** A line as `readlines` returns it, without "\r", strips to a clean one. */
  lemma StripLineClean(line: string)
    requires line != [] && '\n' !in line[..|line| - 1] && '\r' !in line
    ensures Clean(Strip(line))
  {
    var body := line[..|line| - 1];
    if line[|line| - 1] == '\n' {
      assert line == body + "\n";
      assert '\r' !in body by {
        assert forall k :: 0 <= k < |body| ==> body[k] == line[k];
      }
      StripNewline(body);
      StripClean(body);
    } else {
      assert '\n' !in line by {
        assert forall k :: 0 <= k < |body| ==> body[k] == line[k];
      }
      StripClean(line);
    }
  }

  /** Text without line breaks strips to a clean line. */
  lemma StripClean(s: string)
    requires '\n' !in s && '\r' !in s
    ensures Clean(Strip(s))
  {
    StripIsStripped(s);
    StripKeepsOut(s, '\n');
    StripKeepsOut(s, '\r');
  }

  /** Each entry followed by its line terminator. */
  function Terminated(xs: seq<string>): seq<string> {
    seq(|xs|, i requires 0 <= i < |xs| => xs[i] + "\n")
  }

  lemma {:induction false} ReadLinesJoin(xs: seq<string>)
    requires |xs| >= 1
    requires forall i :: 0 <= i < |xs| ==> '\n' !in xs[i]
    ensures ReadLines(Join(xs, "\n"))
         == Terminated(xs[..|xs| - 1]) + (if xs[|xs| - 1] == "" then [] else [xs[|xs| - 1]])
    decreases |xs|
  {
    if |xs| == 1 {
      if xs[0] != "" {
        ReadLinesSingle(xs[0]);
      }
      assert Terminated(xs[..0]) == [];
    } else {
      var ys := xs[1..];
      assert ys[|ys| - 1] == xs[|xs| - 1];
      ReadLinesJoin(ys);
      assert Join(xs, "\n") == xs[0] + "\n" + Join(ys, "\n");
      ReadLinesLine(xs[0], Join(ys, "\n"));
      TerminatedCons(xs[..|xs| - 1], ys[..|ys| - 1]);
    }
  }

  lemma TerminatedCons(xs: seq<string>, rest: seq<string>)
    requires xs != [] && rest == xs[1..]
    ensures Terminated(xs) == [xs[0] + "\n"] + Terminated(rest)
  {
  }

  /** The entries a file shows after `"\n".join(xs)`: a trailing empty
      entry leaves no line of its own. */
  function UrlLines(xs: seq<string>): seq<string> {
    if xs != [] && xs[|xs| - 1] == "" then xs[..|xs| - 1] else xs
  }

  /** Reading back a join of clean entries gives the entries, except that an
      empty last entry vanishes. */
  lemma ReadUrlsJoin(xs: seq<string>)
    requires forall i :: 0 <= i < |xs| ==> Clean(xs[i])
    ensures ReadUrls(Join(xs, "\n")) == UrlLines(xs)
  {
    var text := Join(xs, "\n");
    assert TranslateNewlines(text) == text by {
      JoinNoChar(xs, "\n", '\r');
    }
    if xs != [] {
      ReadLinesJoin(xs);
      ReadUrlsOfLines(text, xs);
    }
  }

  /** Text whose lines are the clean entries, each terminated but the last,
      reads back as the entries. */
  lemma ReadUrlsOfLines(text: string, xs: seq<string>)
    requires xs != [] && forall i :: 0 <= i < |xs| ==> Clean(xs[i])
    requires TranslateNewlines(text) == text
    requires ReadLines(text)
         == Terminated(xs[..|xs| - 1]) + (if xs[|xs| - 1] == "" then [] else [xs[|xs| - 1]])
    ensures ReadUrls(text) == UrlLines(xs)
  {
    var lines := ReadLines(text);
    LinesOfEntries(xs, lines);
    StripEachClean(lines, UrlLines(xs));
  }

  /** Stripping lines that are clean entries, with or without a newline,
      gives the entries. */
  lemma StripEachClean(lines: seq<string>, ys: seq<string>)
    requires |lines| == |ys|
    requires forall i :: 0 <= i < |ys| ==> Clean(ys[i]) && (lines[i] == ys[i] + "\n" || lines[i] == ys[i])
    ensures StripEach(lines) == ys
  {
    var r := StripEach(lines);
    forall i | 0 <= i < |ys| ensures r[i] == ys[i] {
      StripEntry(lines[i], ys[i]);
    }
  }

  lemma StripEntry(line: string, y: string)
    requires Clean(y) && (line == y + "\n" || line == y)
    ensures Strip(line) == y
  {
    CleanLineReadBack(y);
  }

  /** The lines of such text: entry `i` with or without its newline. */
  lemma LinesOfEntries(xs: seq<string>, lines: seq<string>)
    requires xs != []
    requires lines == Terminated(xs[..|xs| - 1]) + (if xs[|xs| - 1] == "" then [] else [xs[|xs| - 1]])
    ensures |lines| == |UrlLines(xs)| <= |xs|
    ensures forall i :: 0 <= i < |lines| ==> UrlLines(xs)[i] == xs[i] && (lines[i] == xs[i] + "\n" || lines[i] == xs[i])
  {
  }

  /** A clean entry reads back as itself, with or without its newline. */
  lemma CleanLineReadBack(x: string)
    requires Clean(x)
    ensures Strip(x) == x && Strip(x + "\n") == x
  {
    StrippedFixed(x);
    StripNewline(x);
  }

  /** Dropping a trailing blank entry changes neither repetition nor the
      non-blank entries. */
  lemma UrlLinesElems(xs: seq<string>)
    requires Distinct(xs)
    ensures Distinct(UrlLines(xs))
    ensures Elems(UrlLines(xs)) <= Elems(xs)
    ensures Elems(UrlLines(xs)) - {""} == Elems(xs) - {""}
  {
    if xs != [] && xs[|xs| - 1] == "" {
      var init := xs[..|xs| - 1];
      assert xs == init + [""];
      assert Elems(xs) == Elems(init) + {""};
    }
  }

  /** Rewriting a file with an enumeration of its distinct lines leaves no
      repeated line and keeps every non-blank line; only a blank line that
      happens to be written last can disappear. */
  lemma DedupSpec(before: string, order: seq<string>)
    requires IsEnumeration(order, Elems(ReadUrls(before)))
    ensures Distinct(ReadUrls(Join(order, "\n")))
    ensures Elems(ReadUrls(Join(order, "\n"))) <= Elems(ReadUrls(before))
    ensures NonBlank(Join(order, "\n")) == NonBlank(before)
  {
    var urls := ReadUrls(before);
    ReadUrlsClean(before);
    forall i | 0 <= i < |order| ensures Clean(order[i]) {
      assert order[i] in Elems(order);
      var j :| 0 <= j < |urls| && urls[j] == order[i];
    }
    ReadUrlsJoin(order);
    UrlLinesElems(order);
  }

  /** A second deduplication finds nothing to remove: it reads as many
      lines as it keeps, and the non-blank lines are those of the original. */
  lemma DedupTwice(before: string, first: seq<string>, second: seq<string>)
    requires IsEnumeration(first, Elems(ReadUrls(before)))
    requires IsEnumeration(second, Elems(ReadUrls(Join(first, "\n"))))
    ensures |ReadUrls(Join(first, "\n"))| == |Elems(ReadUrls(Join(first, "\n")))|
    ensures NonBlank(Join(second, "\n")) == NonBlank(before)
  {
    DedupSpec(before, first);
    DistinctCard(ReadUrls(Join(first, "\n")));
    DedupSpec(Join(first, "\n"), second);
  }

  lemma CleanConcat(x: string, y: string)
    requires Clean(x) && Clean(y) && x != [] && y != []
    ensures Clean(x + y) && x + y != []
  {
    var xy := x + y;
    assert xy[0] == x[0];
    assert xy[|xy| - 1] == y[|y| - 1];
    assert '\n' !in xy && '\r' !in xy;
  }

  /** Two successive appends to an empty file: the last URL of the first
      batch and the first URL of the second come back as one line. */
  lemma AppendTwiceGlues(xs: seq<string>, ys: seq<string>)
    requires |xs| >= 1 && |ys| >= 1
    requires forall i :: 0 <= i < |xs| ==> Clean(xs[i]) && xs[i] != ""
    requires forall i :: 0 <= i < |ys| ==> Clean(ys[i]) && ys[i] != ""
    ensures ReadUrls(Join(xs, "\n") + Join(ys, "\n"))
         == xs[..|xs| - 1] + [xs[|xs| - 1] + ys[0]] + ys[1..]
    ensures |ReadUrls(Join(xs, "\n") + Join(ys, "\n"))| == |xs| + |ys| - 1
  {
    var glued := xs[..|xs| - 1] + [xs[|xs| - 1] + ys[0]] + ys[1..];
    JoinGlue(xs, ys, "\n");
    CleanConcat(xs[|xs| - 1], ys[0]);
    forall i | 0 <= i < |glued| ensures Clean(glued[i]) && glued[i] != "" {
      if i < |xs| - 1 {
        assert glued[i] == xs[i];
      } else if i > |xs| - 1 {
        assert glued[i] == ys[i - |xs| + 1];
      }
    }
    ReadUrlsJoin(glued);
  }

  // ---------------------------------------------------------------- file system

  function TextIn(files: map<string, string>, path: string): string {
    if path in files then files[path] else ""
  }

  /** What a sequence of appends adds to a file, batch after batch. */
  function Batches(bs: seq<seq<string>>): string
    decreases |bs|
  {
    if bs == [] then "" else Batches(bs[..|bs| - 1]) + Join(bs[|bs| - 1], "\n")
  }

  /** The files after appending each batch of `bs` to `path` (the file is
      created by the first append, even an empty one). */
  function AfterAppends(files: map<string, string>, path: string, bs: seq<seq<string>>): map<string, string> {
    if bs == [] then files else files[path := TextIn(files, path) + Batches(bs)]
  }

  /** Every file that existed still exists and has only grown at its end. */
  predicate AppendOnly(before: map<string, string>, after: map<string, string>) {
    forall p :: p in before ==> p in after && StartsWith(after[p], before[p])
  }

  /** One more append extends the fold by that batch. */
  lemma AfterAppendsSnoc(files: map<string, string>, path: string, bs: seq<seq<string>>, b: seq<string>)
    ensures var before := AfterAppends(files, path, bs);
      AfterAppends(files, path, bs + [b]) == before[path := TextIn(before, path) + Join(b, "\n")]
  {
    assert (bs + [b])[..|bs|] == bs;
    if bs == [] {
      assert bs + [b] == [b];
      assert [b][..0] == [];
      assert Batches([b]) == Join(b, "\n");
    } else {
      assert (bs + [b])[|bs|] == b;
      assert Batches(bs + [b]) == Batches(bs) + Join(b, "\n");
      var before := AfterAppends(files, path, bs);
      assert TextIn(before, path) == TextIn(files, path) + Batches(bs);
      var t := TextIn(files, path) + Batches(bs) + Join(b, "\n");
      assert bs + [b] != [];
      assert AfterAppends(files, path, bs + [b]) == files[path := TextIn(files, path) + Batches(bs + [b])];
      assert TextIn(files, path) + Batches(bs + [b]) == t;
      assert before[path := TextIn(before, path) + Join(b, "\n")] == files[path := t];
    }
  }

  /** Appending changes only the appended file: it gains the batches at its
      end, and every other file keeps its presence and its text. */
  lemma AfterAppendsEffect(files: map<string, string>, path: string, bs: seq<seq<string>>)
    ensures var after := AfterAppends(files, path, bs);
      AppendOnly(files, after) &&
      TextIn(after, path) == TextIn(files, path) + Batches(bs) &&
      (bs != [] ==> path in after) &&
      forall p :: p != path ==> (p in after <==> p in files) && (p in files ==> after[p] == files[p])
  {
    var after := AfterAppends(files, path, bs);
    if bs != [] {
      assert StartsWith(after[path], TextIn(files, path));
    } else {
      assert TextIn(files, path) + "" == TextIn(files, path);
    }
    forall p | p in files ensures p in after && StartsWith(after[p], files[p]) {
      if p == path && bs != [] {
        assert after[p] == files[p] + Batches(bs);
      } else {
        assert after[p] == files[p];
        assert files[p][..|files[p]|] == files[p];
      }
    }
  }

  /** Writing the batches back to back: the last URL of each batch and the
      first URL of the next become one line. */
  function GluedLines(bs: seq<seq<string>>): seq<string>
    requires forall i :: 0 <= i < |bs| ==> bs[i] != []
    decreases |bs|
  {
    if bs == [] then []
    else if |bs| == 1 then bs[0]
    else
      var xs := GluedLines(bs[..|bs| - 1]);
      var ys := bs[|bs| - 1];
      if xs == [] then ys else xs[..|xs| - 1] + [xs[|xs| - 1] + ys[0]] + ys[1..]
  }

  function TotalLength(bs: seq<seq<string>>): nat
    decreases |bs|
  {
    if bs == [] then 0 else TotalLength(bs[..|bs| - 1]) + |bs[|bs| - 1]|
  }

  predicate CleanBatches(bs: seq<seq<string>>) {
    forall i, j :: 0 <= i < |bs| && 0 <= j < |bs[i]| ==> Clean(bs[i][j]) && bs[i][j] != ""
  }

  /** Gluing two non-empty lists of clean, non-empty lines keeps them so
      and loses one line. */
  lemma GlueStep(xs: seq<string>, ys: seq<string>)
    requires xs != [] && ys != []
    requires forall i :: 0 <= i < |xs| ==> Clean(xs[i]) && xs[i] != ""
    requires forall j :: 0 <= j < |ys| ==> Clean(ys[j]) && ys[j] != ""
    ensures var glued := xs[..|xs| - 1] + [xs[|xs| - 1] + ys[0]] + ys[1..];
      Join(xs, "\n") + Join(ys, "\n") == Join(glued, "\n") &&
      |glued| == |xs| + |ys| - 1 &&
      forall i :: 0 <= i < |glued| ==> Clean(glued[i]) && glued[i] != ""
  {
    JoinGlue(xs, ys, "\n");
    var glued := xs[..|xs| - 1] + [xs[|xs| - 1] + ys[0]] + ys[1..];
    CleanConcat(xs[|xs| - 1], ys[0]);
    forall i | 0 <= i < |glued| ensures Clean(glued[i]) && glued[i] != "" {
      if i < |xs| - 1 {
        assert glued[i] == xs[i];
      } else if i > |xs| - 1 {
        assert glued[i] == ys[i - |xs| + 1];
      }
    }
  }

  /** Batches grown into a file are the glued lines, joined. */
  lemma {:induction false} BatchesGlued(bs: seq<seq<string>>)
    requires forall i :: 0 <= i < |bs| ==> bs[i] != []
    requires CleanBatches(bs)
    ensures Batches(bs) == Join(GluedLines(bs), "\n")
    ensures forall i :: 0 <= i < |GluedLines(bs)| ==> Clean(GluedLines(bs)[i]) && GluedLines(bs)[i] != ""
    ensures |bs| >= 1 ==> |GluedLines(bs)| == TotalLength(bs) - (|bs| - 1)
    decreases |bs|
  {
    if bs != [] {
      var init := bs[..|bs| - 1];
      var ys := bs[|bs| - 1];
      CleanBatchesInit(bs);
      BatchesGlued(init);
      if |bs| == 1 {
        assert init == [];
        assert Batches(bs) == "" + Join(ys, "\n");
      } else {
        var g := GluedLines(init);
        GluedSnoc(bs);
        GlueStep(g, ys);
      }
    }
  }

  lemma CleanBatchesInit(bs: seq<seq<string>>)
    requires bs != [] && CleanBatches(bs)
    ensures CleanBatches(bs[..|bs| - 1])
  {
    var init := bs[..|bs| - 1];
    forall i, j | 0 <= i < |init| && 0 <= j < |init[i]| ensures Clean(init[i][j]) && init[i][j] != "" {
      assert init[i] == bs[i];
    }
  }

  /** One more batch: the definitions of the glued lines, the file text and
      the URL count, one step each. */
  lemma GluedSnoc(bs: seq<seq<string>>)
    requires |bs| >= 2 && forall i :: 0 <= i < |bs| ==> bs[i] != []
    ensures var g := GluedLines(bs[..|bs| - 1]); var ys := bs[|bs| - 1];
      g != [] &&
      GluedLines(bs) == g[..|g| - 1] + [g[|g| - 1] + ys[0]] + ys[1..] &&
      Batches(bs) == Batches(bs[..|bs| - 1]) + Join(ys, "\n") &&
      TotalLength(bs) == TotalLength(bs[..|bs| - 1]) + |ys|
  {
    var init := bs[..|bs| - 1];
    if |init| >= 2 {
      assert init[..|init| - 1] == bs[..|bs| - 2];
    }
  }

  /** A file grown by n non-empty batches of clean URLs reads back as the
      glued lines: n - 1 fewer lines than URLs were written. */
  lemma BatchesReadBack(bs: seq<seq<string>>)
    requires forall i :: 0 <= i < |bs| ==> bs[i] != []
    requires CleanBatches(bs)
    ensures ReadUrls(Batches(bs)) == GluedLines(bs)
    ensures |bs| >= 1 ==> |ReadUrls(Batches(bs))| == TotalLength(bs) - (|bs| - 1)
  {
    BatchesGlued(bs);
    var g := GluedLines(bs);
    ReadUrlsJoin(g);
    if g != [] {
      assert g[|g| - 1] != "";
    }
  }

  /** The batches that write something: an empty batch appends `""`. */
  function NonEmptyBatches(bs: seq<seq<string>>): (ne: seq<seq<string>>)
    ensures forall i :: 0 <= i < |ne| ==> ne[i] != []
    ensures |ne| <= |bs|
    decreases |bs|
  {
    if bs == [] then []
    else
      var init := NonEmptyBatches(bs[..|bs| - 1]);
      if bs[|bs| - 1] == [] then init else init + [bs[|bs| - 1]]
  }

  /** Dropping the empty batches changes neither the file text nor the URL
      count, and keeps the batches clean. */
  lemma {:induction false} NonEmptyBatchesSame(bs: seq<seq<string>>)
    requires CleanBatches(bs)
    ensures var ne := NonEmptyBatches(bs);
      Batches(ne) == Batches(bs) && TotalLength(ne) == TotalLength(bs) && CleanBatches(ne)
    decreases |bs|
  {
    if bs != [] {
      var init := bs[..|bs| - 1];
      var last := bs[|bs| - 1];
      CleanBatchesInit(bs);
      NonEmptyBatchesSame(init);
      var ni := NonEmptyBatches(init);
      if last != [] {
        var ne := ni + [last];
        assert ne[..|ne| - 1] == ni;
        forall i, j | 0 <= i < |ne| && 0 <= j < |ne[i]| ensures Clean(ne[i][j]) && ne[i][j] != "" {
          if i == |ne| - 1 {
            assert ne[i] == bs[|bs| - 1];
          }
        }
      }
    }
  }

  /** Any run of appends, empty batches included, reads back as the glued
      lines of the batches that wrote something. */
  lemma BatchesReadBackAny(bs: seq<seq<string>>)
    requires CleanBatches(bs)
    ensures ReadUrls(Batches(bs)) == GluedLines(NonEmptyBatches(bs))
    ensures NonEmptyBatches(bs) != [] ==>
      |ReadUrls(Batches(bs))| == TotalLength(bs) - (|NonEmptyBatches(bs)| - 1)
  {
    NonEmptyBatchesSame(bs);
    BatchesReadBack(NonEmptyBatches(bs));
  }

  datatype DedupReport = DedupReport(before: nat, after: nat, written: seq<string>)

  /** The run's local file system, path to text. */
  class FileStore {
    var files: map<string, string>

    constructor (initial: map<string, string>)
      ensures files == initial
    {
      files := initial;
    }

    /** `append_urls_to_file`: opens in append mode, creating the file, and
        writes the batch joined by "\n" with no trailing newline. */
    method AppendUrlsToFile(path: string, content: seq<string>)
      modifies this
      ensures files == old(files)[path := TextIn(old(files), path) + Join(content, "\n")]
    {
      files := files[path := TextIn(files, path) + Join(content, "\n")];
    }

    /** `read_urls_from_file`. */
    method ReadUrlsFromFile(path: string) returns (r: Result<seq<string>>)
      ensures path in files ==> r == Ok(ReadUrls(files[path]))
      ensures path !in files ==> r == Err(FileNotFoundError)
      ensures r.Ok? ==> forall i :: 0 <= i < |r.value| ==> Clean(r.value[i])
    {
      if path in files {
        ReadUrlsClean(files[path]);
        r := Ok(ReadUrls(files[path]));
      } else {
        r := Err(FileNotFoundError);
      }
    }

    /** `remove_duplicate_urls_from_file`: read, make a set, rewrite the
        file as the set joined by "\n" in the set's iteration order, and
        report the counts before and after. */
    method RemoveDuplicateUrlsFromFile(path: string) returns (r: Result<DedupReport>)
      modifies this
      ensures path !in old(files) ==> r == Err(FileNotFoundError) && files == old(files)
      ensures path in old(files) ==>
        var urls := ReadUrls(old(files)[path]);
        r.Ok? && r.value.before == |urls| && r.value.after == |Elems(urls)| &&
        IsEnumeration(r.value.written, Elems(urls)) &&
        files == old(files)[path := Join(r.value.written, "\n")]
      ensures path in old(files) ==>
        Distinct(ReadUrls(files[path])) && NonBlank(files[path]) == NonBlank(old(files)[path])
      ensures path in old(files) && old(files)[path] == "" ==>
        r == Ok(DedupReport(0, 0, [])) && files[path] == ""
    {
      var read := ReadUrlsFromFile(path);
      match read
      case Err(e) =>
        r := Err(e);
      case Ok(urls) =>
        var unique := Elems(urls);
        var order := Enumerate(unique);
        DedupSpec(files[path], order);
        files := files[path := Join(order, "\n")];
        r := Ok(DedupReport(|urls|, |unique|, order));
    }
  }
}
