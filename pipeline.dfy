/** The URL-harvesting run: the argument checks of `main`, the per-category
    pagination walk of `scrape_item_urls` that appends each page's URLs to
    the category's file, and the deduplication of every category file once
    the browser work is over. The browser is a parameter: for each start
    URL, the pages reached from it by clicking "next", or `Absent` when
    navigating there raises. */
module Pipeline {
  import opened Results
  import opened PyStr
  import opened Sets
  import opened Scraping
  import opened UrlFiles
  import opened ItemUrls

  const DefaultPageCap: int := 1000
  const DebugPageCap: int := 3

  /** The parsed command line, as far as the run uses it. */
  datatype Args = Args(
    categories: seq<Category>,
    maxPages: Lookup<int>,
    outputDir: string,
    outputFile: string,
    debug: bool)

  // ---------------------------------------------------------------- arguments

  /** The page cap of `scrape_item_urls`: the given `max_pages` unless it
      is missing or falsy (0), in which case 1000. */
  function PageCap(maxPages: Lookup<int>): (cap: int)
    ensures maxPages.Absent? ==> cap == DefaultPageCap
    ensures maxPages.Found? && maxPages.value == 0 ==> cap == DefaultPageCap
    ensures maxPages.Found? && maxPages.value != 0 ==> cap == maxPages.value
  {
    match maxPages
    case Absent => DefaultPageCap
    case Found(n) => if n != 0 then n else DefaultPageCap
  }

  /** The checks at the top of `main`: `--debug` overrides the page cap with
      3, then an output file name not ending in ".txt" fails the assert. */
  function CheckedArgs(args: Args): (r: Result<Args>)
    ensures r.Err? <==> !EndsWith(args.outputFile, ".txt")
    ensures r.Err? ==> r.error == AssertionError
    ensures r.Ok? ==> r.value.categories == args.categories && r.value.outputDir == args.outputDir &&
                      r.value.outputFile == args.outputFile && r.value.debug == args.debug
    ensures r.Ok? && args.debug ==> PageCap(r.value.maxPages) == DebugPageCap
    ensures r.Ok? && !args.debug ==> r.value.maxPages == args.maxPages
  {
    var checked := if args.debug then args.(maxPages := Found(DebugPageCap)) else args;
    if EndsWith(checked.outputFile, ".txt") then Ok(checked) else Err(AssertionError)
  }

  /** The file of a category: `os.path.join(output_dir, "item_urls",
      SITE_NAME, category, output_file)`. */
  function OutputPath(outputDir: string, category: Category, outputFile: string): string {
    PathJoin(outputDir, ["item_urls", SiteName, CategoryName(category), outputFile])
  }

  /** With a directory and a file name that carry no stray slashes, the
      category file sits at `<dir>/item_urls/vinted/<category>/<file>`. */
  lemma OutputPathLayout(outputDir: string, c: Category, outputFile: string)
    requires NoTrailingSlash(outputDir) && PlainSegment(outputFile)
    ensures OutputPath(outputDir, c, outputFile)
      == outputDir + "/" + "item_urls" + "/" + SiteName + "/" + CategoryName(c) + "/" + outputFile
  {
    var parts := ["item_urls", SiteName, CategoryName(c), outputFile];
    var p1 := outputDir + "/" + "item_urls";
    var p2 := p1 + "/" + SiteName;
    var p3 := p2 + "/" + CategoryName(c);
    SlashStep(outputDir, "item_urls");
    SlashStep(p1, SiteName);
    SlashStep(p2, CategoryName(c));
    SlashStep(p3, outputFile);
    assert parts[1..] == [SiteName, CategoryName(c), outputFile];
    assert parts[1..][1..] == [CategoryName(c), outputFile];
    assert parts[1..][1..][1..] == [outputFile];
    calc {
      PathJoin(outputDir, parts);
      PathJoin(p1, [SiteName, CategoryName(c), outputFile]);
      PathJoin(p2, [CategoryName(c), outputFile]);
      PathJoin(p3, [outputFile]);
      p3 + "/" + outputFile;
    }
  }

  /** One `posixpath.join` step between slash-free ends inserts one "/". */
  lemma SlashStep(a: string, b: string)
    requires NoTrailingSlash(a) && PlainSegment(b)
    ensures PathJoin2(a, b) == a + "/" + b
    ensures NoTrailingSlash(a + "/" + b)
  {
    assert !StartsWith(b, "/") by { assert b[..1][0] == b[0]; }
    assert (a + "/" + b)[|a + "/" + b| - 1] == b[|b| - 1];
  }

  /** Under that layout the two categories never share a file. */
  lemma CategoryPathsDiffer(outputDir: string, outputFile: string)
    requires NoTrailingSlash(outputDir) && PlainSegment(outputFile)
    ensures OutputPath(outputDir, Zeny, outputFile) != OutputPath(outputDir, Muzi, outputFile)
  {
    OutputPathLayout(outputDir, Zeny, outputFile);
    OutputPathLayout(outputDir, Muzi, outputFile);
    var front := outputDir + "/" + "item_urls" + "/" + SiteName + "/";
    MiddleDiffers(front, CategoryName(Zeny), CategoryName(Muzi), outputFile);
  }

  lemma MiddleDiffers(front: string, x: string, y: string, file: string)
    requires x != [] && y != [] && x[0] != y[0]
    ensures front + x + "/" + file != front + y + "/" + file
  {
    assert (front + x + "/" + file)[|front|] == x[0];
    assert (front + y + "/" + file)[|front|] == y[0];
  }

  /** An absolute output file name discards the directory parts, so every
      category appends to that one file. */
  lemma AbsoluteOutputFileShared(outputDir: string, outputFile: string, c: Category)
    requires StartsWith(outputFile, "/")
    ensures OutputPath(outputDir, c, outputFile) == outputFile
  {
    var parts := ["item_urls", SiteName, CategoryName(c), outputFile];
    var p1 := PathJoin2(outputDir, "item_urls");
    var p2 := PathJoin2(p1, SiteName);
    var p3 := PathJoin2(p2, CategoryName(c));
    assert parts[1..] == [SiteName, CategoryName(c), outputFile];
    assert parts[1..][1..] == [CategoryName(c), outputFile];
    assert parts[1..][1..][1..] == [outputFile];
    calc {
      PathJoin(outputDir, parts);
      PathJoin(p1, [SiteName, CategoryName(c), outputFile]);
      PathJoin(p2, [CategoryName(c), outputFile]);
      PathJoin(p3, [outputFile]);
      PathJoin2(p3, outputFile);
    }
  }

  /** The category files of a run, in category order. */
  function CategoryPaths(args: Args): (paths: seq<string>)
    ensures |paths| == |args.categories|
  {
    seq(|args.categories|, i requires 0 <= i < |args.categories| =>
      OutputPath(args.outputDir, args.categories[i], args.outputFile))
  }

  // ---------------------------------------------------------------- the walk

  /** What the browser shows beyond the modelled pages: no item links and
      no "next" control. */
  const BlankPage: Dom := Dom(map[], {})

  /** Page `k` (1-based, as `current_page` counts) of a category. */
  function PageAt(pages: seq<Dom>, k: int): Dom {
    if 1 <= k <= |pages| then pages[k - 1] else BlankPage
  }

  predicate HasNextAt(pages: seq<Dom>, k: int) {
    GetNextPageButton(PageAt(pages, k)).Found?
  }

  /** The URLs the walk takes from page `k`. */
  function PageUrls(pages: seq<Dom>, k: int): set<string> {
    GetItemUrlsFromPage(PageAt(pages, k))
  }

  /** How many pages a walk standing at page `k` still scrapes. */
  function ScrapedFrom(pages: seq<Dom>, cap: int, k: int): nat
    decreases cap - k
  {
    if k > cap then 0
    else if HasNextAt(pages, k) then 1 + ScrapedFrom(pages, cap, k + 1)
    else 1
  }

  /** The value of `current_page` when a walk standing at page `k` ends. */
  function FinalFrom(pages: seq<Dom>, cap: int, k: int): int
    decreases cap - k
  {
    if k > cap then k
    else if HasNextAt(pages, k) then FinalFrom(pages, cap, k + 1)
    else k
  }

  function PagesScraped(pages: seq<Dom>, cap: int): nat {
    ScrapedFrom(pages, cap, 1)
  }

  function FinalPage(pages: seq<Dom>, cap: int): int {
    FinalFrom(pages, cap, 1)
  }

  /** A walk scrapes at most `cap` pages, and none when the cap is below 1. */
  lemma {:induction false} ScrapedFromBound(pages: seq<Dom>, cap: int, k: int)
    ensures k <= cap ==> ScrapedFrom(pages, cap, k) <= cap - k + 1
    ensures k > cap ==> ScrapedFrom(pages, cap, k) == 0
    ensures k <= cap ==> ScrapedFrom(pages, cap, k) >= 1
    decreases cap - k
  {
    if k <= cap && HasNextAt(pages, k) {
      ScrapedFromBound(pages, cap, k + 1);
    }
  }

  /** A "next" control on every page up to the cap: the walk scrapes `cap`
      pages, clicks "next" `cap` times and ends with `current_page` one past
      the cap. */
  lemma {:induction false} WalkHitsCap(pages: seq<Dom>, cap: int, k: int)
    requires 1 <= k <= cap + 1
    requires forall j :: k <= j <= cap ==> HasNextAt(pages, j)
    ensures ScrapedFrom(pages, cap, k) == cap - k + 1
    ensures FinalFrom(pages, cap, k) == cap + 1
    decreases cap - k
  {
    if k <= cap {
      WalkHitsCap(pages, cap, k + 1);
    }
  }

  /** The first page without a "next" control, within the cap, ends the
      walk there: `current_page` equals the number of pages scraped. */
  lemma {:induction false} WalkStopsAt(pages: seq<Dom>, cap: int, k: int, stop: int)
    requires 1 <= k <= stop <= cap
    requires forall j :: k <= j < stop ==> HasNextAt(pages, j)
    requires !HasNextAt(pages, stop)
    ensures ScrapedFrom(pages, cap, k) == stop - k + 1
    ensures FinalFrom(pages, cap, k) == stop
    decreases stop - k
  {
    if k < stop {
      WalkStopsAt(pages, cap, k + 1, stop);
    }
  }

  /** The walk never runs past the blank page after the modelled ones. */
  lemma WalkEndsByBlankPage(pages: seq<Dom>, cap: int)
    ensures PagesScraped(pages, cap) <= |pages| + 1
  {
    BlankHasNoNext();
    PagesScrapedAtMost(pages, cap, 1);
  }

  lemma BlankHasNoNext()
    ensures GetNextPageButton(BlankPage).Absent?
  {
    assert FindElements(BlankPage, NextPageSelector).Absent? || FindElements(BlankPage, NextPageSelector).value == [];
  }

  lemma {:induction false} PagesScrapedAtMost(pages: seq<Dom>, cap: int, k: int)
    requires 1 <= k
    requires GetNextPageButton(BlankPage).Absent?
    ensures k <= |pages| + 1 ==> ScrapedFrom(pages, cap, k) <= |pages| + 2 - k
    ensures k > |pages| ==> ScrapedFrom(pages, cap, k) <= 1
    decreases cap - k
  {
    if k <= cap && HasNextAt(pages, k) {
      PagesScrapedAtMost(pages, cap, k + 1);
    }
  }

  /** What a walk did: where it ended and, in order, the batch written for
      each scraped page (in the iteration order of that page's set). */
  datatype CategoryRun = CategoryRun(finalPage: int, batches: seq<seq<string>>)

  predicate RunOf(run: CategoryRun, pages: seq<Dom>, cap: int) {
    run.finalPage == FinalPage(pages, cap) &&
    |run.batches| == PagesScraped(pages, cap) &&
    forall k :: 0 <= k < |run.batches| ==> IsEnumeration(run.batches[k], PageUrls(pages, k + 1))
  }

  /** The while loop of `scrape_item_urls` for one category: scrape the
      page, append its URLs to the file, then click "next" or stop; at most
      `cap` pages. */
  method WalkCategory(fs: FileStore, path: string, pages: seq<Dom>, cap: int)
    returns (currentPage: int, written: seq<seq<string>>)
    modifies fs
    ensures RunOf(CategoryRun(currentPage, written), pages, cap)
    ensures fs.files == AfterAppends(old(fs.files), path, written)
  {
    ghost var start := fs.files;
    var nextPageButton := true;
    currentPage := 1;
    written := [];
    while nextPageButton && currentPage <= cap
      invariant nextPageButton
      invariant WalkSoFar(pages, cap, currentPage, written)
      invariant fs.files == AfterAppends(start, path, written)
      decreases cap + 1 - currentPage
    {
      var page := PageAt(pages, currentPage);
      var pageUrls := GetItemUrlsFromPage(page);
      var batch := Enumerate(pageUrls);
      AfterAppendsSnoc(start, path, written, batch);
      fs.AppendUrlsToFile(path, batch);
      var button := GetNextPageButton(page);
      WalkAdvance(pages, cap, currentPage, written, batch);
      written := written + [batch];
      nextPageButton := button.Found?;
      if !nextPageButton {
        break;
      }
      currentPage := currentPage + 1;
    }
    if nextPageButton {
      WalkPastCap(pages, cap, currentPage, written);
    }
  }

  /** The state of a walk standing at page `k` with `written` appended: one
      enumerated batch per page before `k`, and the rest of the walk still
      to come. */
  ghost predicate WalkSoFar(pages: seq<Dom>, cap: int, k: int, written: seq<seq<string>>) {
    1 <= k && |written| == k - 1 &&
    (forall j :: 0 <= j < |written| ==> IsEnumeration(written[j], PageUrls(pages, j + 1))) &&
    PagesScraped(pages, cap) == k - 1 + ScrapedFrom(pages, cap, k) &&
    FinalPage(pages, cap) == FinalFrom(pages, cap, k)
  }

  /** Scraping page `k` within the cap: with a "next" control the walk moves
      on to page `k + 1`; without one it is over. */
  lemma WalkAdvance(pages: seq<Dom>, cap: int, k: int, written: seq<seq<string>>, batch: seq<string>)
    requires WalkSoFar(pages, cap, k, written) && k <= cap
    requires IsEnumeration(batch, PageUrls(pages, k))
    ensures HasNextAt(pages, k) ==> WalkSoFar(pages, cap, k + 1, written + [batch])
    ensures !HasNextAt(pages, k) ==> RunOf(CategoryRun(k, written + [batch]), pages, cap)
  {
    WalkStep(pages, cap, k);
    BatchesSnoc(pages, written, batch);
  }

  lemma BatchesSnoc(pages: seq<Dom>, written: seq<seq<string>>, batch: seq<string>)
    requires forall j :: 0 <= j < |written| ==> IsEnumeration(written[j], PageUrls(pages, j + 1))
    requires IsEnumeration(batch, PageUrls(pages, |written| + 1))
    ensures forall j :: 0 <= j < |written| + 1 ==> IsEnumeration((written + [batch])[j], PageUrls(pages, j + 1))
  {
    var w := written + [batch];
    forall j | 0 <= j < |w| ensures IsEnumeration(w[j], PageUrls(pages, j + 1)) {
      if j < |written| {
        assert w[j] == written[j];
      }
    }
  }

  /** Past the cap the walk is over. */
  lemma WalkPastCap(pages: seq<Dom>, cap: int, k: int, written: seq<seq<string>>)
    requires WalkSoFar(pages, cap, k, written) && k > cap
    ensures RunOf(CategoryRun(k, written), pages, cap)
  {
    WalkStep(pages, cap, k);
  }

  /** One turn of the walk at page `k`: past the cap nothing more is
      scraped; otherwise page `k` is, and the walk goes on iff it has a
      "next" control. */
  lemma WalkStep(pages: seq<Dom>, cap: int, k: int)
    ensures k > cap ==> ScrapedFrom(pages, cap, k) == 0 && FinalFrom(pages, cap, k) == k
    ensures k <= cap && HasNextAt(pages, k) ==>
      ScrapedFrom(pages, cap, k) == 1 + ScrapedFrom(pages, cap, k + 1) &&
      FinalFrom(pages, cap, k) == FinalFrom(pages, cap, k + 1)
    ensures k <= cap && !HasNextAt(pages, k) ==> ScrapedFrom(pages, cap, k) == 1 && FinalFrom(pages, cap, k) == k
  {
  }

  /** A category of two pages, three items on the first (which has a "next"
      control) and two on the second (which has none): the walk scrapes both
      pages, and because each append adds no line break at its end, reading
      the file back gives four lines, not five. */
  lemma TwoPageWalkReadsBackFourLines(pages: seq<Dom>, cap: int, run: CategoryRun)
    requires cap >= 2 && RunOf(run, pages, cap)
    requires HasNextAt(pages, 1) && !HasNextAt(pages, 2)
    requires |PageUrls(pages, 1)| == 3 && |PageUrls(pages, 2)| == 2
    requires forall u :: u in PageUrls(pages, 1) + PageUrls(pages, 2) ==> Clean(u) && u != ""
    ensures |run.batches| == 2
    ensures |ReadUrls(Batches(run.batches))| == 4
  {
    WalkStopsAt(pages, cap, 1, 2);
    var bs := run.batches;
    assert |bs| == 2;
    DistinctCard(bs[0]);
    DistinctCard(bs[1]);
    assert |bs[0]| == 3 && |bs[1]| == 2;
    assert bs == [bs[0], bs[1]];
    CleanEnumerations(bs[0], bs[1], PageUrls(pages, 1), PageUrls(pages, 2));
    BatchesReadBack(bs);
    assert bs[..1][..0] == [];
    assert TotalLength(bs) == 5;
  }

  lemma CleanEnumerations(b1: seq<string>, b2: seq<string>, s1: set<string>, s2: set<string>)
    requires IsEnumeration(b1, s1) && IsEnumeration(b2, s2)
    requires forall u :: u in s1 + s2 ==> Clean(u) && u != ""
    ensures CleanBatches([b1, b2])
  {
    var bs := [b1, b2];
    forall i, j | 0 <= i < |bs| && 0 <= j < |bs[i]| ensures Clean(bs[i][j]) && bs[i][j] != "" {
      assert bs[i][j] in Elems(bs[i]);
    }
  }

  /** The files outside `paths` are exactly as they were. */
  ghost predicate Untouched(before: map<string, string>, after: map<string, string>, paths: seq<string>) {
    forall p :: p !in paths ==> (p in after <==> p in before) && (p in before ==> after[p] == before[p])
  }

  /** The runs so far are the walks of the first categories, each from the
      pages its start URL leads to. */
  ghost predicate RunsFollow(runs: seq<CategoryRun>, categories: seq<Category>,
                             browse: string -> Lookup<seq<Dom>>, cap: int) {
    |runs| <= |categories| &&
    forall j :: 0 <= j < |runs| ==> WalkOf(runs[j], categories[j], browse, cap)
  }

  /** `run` is the walk of category `c` over the pages its start URL leads to. */
  ghost predicate WalkOf(run: CategoryRun, c: Category, browse: string -> Lookup<seq<Dom>>, cap: int) {
    browse(StartingUrl(c)).Found? && RunOf(run, browse(StartingUrl(c)).value, cap)
  }

  /** The files after the walks so far: only the category files changed,
      each only by growing; each walked category's file exists once a page
      was scraped; and, when the category files are distinct, each holds
      its old text followed by its own batches. */
  ghost predicate FilesFollow(start: map<string, string>, files: map<string, string>,
                              paths: seq<string>, runs: seq<CategoryRun>, cap: int) {
    |runs| <= |paths| &&
    AppendOnly(start, files) && Untouched(start, files, paths) &&
    (cap >= 1 ==> forall j :: 0 <= j < |runs| ==> paths[j] in files) &&
    (Distinct(paths) ==>
      (forall j :: 0 <= j < |runs| ==>
        TextIn(files, paths[j]) == TextIn(start, paths[j]) + Batches(runs[j].batches)) &&
      (forall j :: |runs| <= j < |paths| ==> TextIn(files, paths[j]) == TextIn(start, paths[j])))
  }

  lemma RunsFollowStep(runs: seq<CategoryRun>, categories: seq<Category>,
                       browse: string -> Lookup<seq<Dom>>, cap: int, pages: seq<Dom>, run: CategoryRun)
    requires RunsFollow(runs, categories, browse, cap) && |runs| < |categories|
    requires browse(StartingUrl(categories[|runs|])) == Found(pages) && RunOf(run, pages, cap)
    ensures RunsFollow(runs + [run], categories, browse, cap)
  {
    var rs := runs + [run];
    forall j | 0 <= j < |rs| ensures WalkOf(rs[j], categories[j], browse, cap) {
      if j < |runs| {
        assert rs[j] == runs[j];
      } else {
        WalkOfFound(run, categories[j], browse, cap, pages);
      }
    }
  }

  lemma WalkOfFound(run: CategoryRun, c: Category, browse: string -> Lookup<seq<Dom>>, cap: int, pages: seq<Dom>)
    requires browse(StartingUrl(c)) == Found(pages) && RunOf(run, pages, cap)
    ensures WalkOf(run, c, browse, cap)
  {
  }

  /** Walking the next category appends to its file only. */
  lemma FilesFollowStep(start: map<string, string>, before: map<string, string>, after: map<string, string>,
                        paths: seq<string>, runs: seq<CategoryRun>, run: CategoryRun, cap: int)
    requires FilesFollow(start, before, paths, runs, cap) && |runs| < |paths|
    requires after == AfterAppends(before, paths[|runs|], run.batches)
    requires cap >= 1 ==> run.batches != []
    ensures FilesFollow(start, after, paths, runs + [run], cap)
  {
    var i := |runs|;
    AfterAppendsEffect(before, paths[i], run.batches);
    AppendOnlyTrans(start, before, after);
    UntouchedStep(start, before, after, paths, i);
    if Distinct(paths) {
      TextsStep(start, before, after, paths, runs, run);
    }
  }

  lemma AppendOnlyTrans(a: map<string, string>, b: map<string, string>, c: map<string, string>)
    requires AppendOnly(a, b) && AppendOnly(b, c)
    ensures AppendOnly(a, c)
  {
    forall p | p in a ensures p in c && StartsWith(c[p], a[p]) {
      assert c[p][..|a[p]|] == b[p][..|a[p]|];
    }
  }

  lemma UntouchedStep(start: map<string, string>, before: map<string, string>, after: map<string, string>,
                      paths: seq<string>, i: nat)
    requires i < |paths| && Untouched(start, before, paths)
    requires forall p :: p != paths[i] ==> (p in after <==> p in before) && (p in before ==> after[p] == before[p])
    ensures Untouched(start, after, paths)
  {
    forall p | p !in paths ensures (p in after <==> p in start) && (p in start ==> after[p] == start[p]) {
      assert p != paths[i];
    }
  }

  lemma TextsStep(start: map<string, string>, before: map<string, string>, after: map<string, string>,
                  paths: seq<string>, runs: seq<CategoryRun>, run: CategoryRun)
    requires |runs| < |paths| && Distinct(paths)
    requires forall j :: 0 <= j < |runs| ==>
      TextIn(before, paths[j]) == TextIn(start, paths[j]) + Batches(runs[j].batches)
    requires forall j :: |runs| <= j < |paths| ==> TextIn(before, paths[j]) == TextIn(start, paths[j])
    requires TextIn(after, paths[|runs|]) == TextIn(before, paths[|runs|]) + Batches(run.batches)
    requires forall p :: p != paths[|runs|] ==> TextIn(after, p) == TextIn(before, p)
    ensures forall j :: 0 <= j < |runs| + 1 ==>
      TextIn(after, paths[j]) == TextIn(start, paths[j]) + Batches((runs + [run])[j].batches)
    ensures forall j :: |runs| + 1 <= j < |paths| ==> TextIn(after, paths[j]) == TextIn(start, paths[j])
  {
    var i := |runs|;
    forall j | 0 <= j < i + 1
      ensures TextIn(after, paths[j]) == TextIn(start, paths[j]) + Batches((runs + [run])[j].batches)
    {
      if j < i {
        assert paths[j] != paths[i];
      }
    }
    forall j | i + 1 <= j < |paths| ensures TextIn(after, paths[j]) == TextIn(start, paths[j]) {
      assert paths[j] != paths[i];
    }
  }

  /** `scrape_item_urls`: every category in order, each from its start page
      and into its own file. Navigating to a start page can raise; the walk
      itself cannot. */
  method ScrapeItemUrls(fs: FileStore, args: Args, browse: string -> Lookup<seq<Dom>>)
    returns (r: Result<seq<CategoryRun>>)
    modifies fs
    ensures r.Err? ==> (r.error == DriverError &&
      exists i :: 0 <= i < |args.categories| && browse(StartingUrl(args.categories[i])).Absent?)
    ensures r.Err? ==> AppendOnly(old(fs.files), fs.files) && Untouched(old(fs.files), fs.files, CategoryPaths(args))
    ensures r.Err? ==> exists i: nat, runs: seq<CategoryRun> :: (i < |args.categories| && |runs| == i &&
      browse(StartingUrl(args.categories[i])).Absent? &&
      RunsFollow(runs, args.categories, browse, PageCap(args.maxPages)) &&
      FilesFollow(old(fs.files), fs.files, CategoryPaths(args), runs, PageCap(args.maxPages)))
    ensures r.Ok? ==> (|r.value| == |args.categories| &&
      RunsFollow(r.value, args.categories, browse, PageCap(args.maxPages)) &&
      FilesFollow(old(fs.files), fs.files, CategoryPaths(args), r.value, PageCap(args.maxPages)))
  {
    ghost var start := fs.files;
    var maxPages := PageCap(args.maxPages);
    var startingUrls := ConstructStartingUrls(args.categories);
    var paths := CategoryPaths(args);
    var runs: seq<CategoryRun> := [];
    var i := 0;
    while i < |args.categories|
      invariant 0 <= i <= |args.categories|
      invariant |runs| == i
      invariant RunsFollow(runs, args.categories, browse, maxPages)
      invariant FilesFollow(start, fs.files, paths, runs, maxPages)
    {
      var category := args.categories[i];
      assert startingUrls[i] == StartingUrl(category);
      var pages;
      match browse(startingUrls[i]) {
        case Absent =>
          assert browse(StartingUrl(args.categories[i])).Absent?;
          r := Err(DriverError);
          return;
        case Found(ps) =>
          pages := ps;
      }
      ghost var before := fs.files;
      var currentPage, written := WalkCategory(fs, paths[i], pages, maxPages);
      var run := CategoryRun(currentPage, written);
      ScrapedFromBound(pages, maxPages, 1);
      RunsFollowStep(runs, args.categories, browse, maxPages, pages, run);
      FilesFollowStep(start, before, fs.files, paths, runs, run, maxPages);
      runs := runs + [run];
      i := i + 1;
    }
    r := Ok(runs);
  }

  // ---------------------------------------------------------------- main

  /** The deduplication loop of `main`: every category file in category
      order, stopping at the first one that does not exist. Each file ends
      with no repeated line and the same non-blank lines it had; nothing
      else changes. */
  method DedupCategoryFiles(fs: FileStore, paths: seq<string>) returns (r: Result<seq<DedupReport>>)
    modifies fs
    ensures r.Err? <==> exists j :: 0 <= j < |paths| && paths[j] !in old(fs.files)
    ensures r.Err? ==> r.error == FileNotFoundError
    ensures forall p :: p in fs.files <==> p in old(fs.files)
    ensures forall p :: p in old(fs.files) && p !in paths ==> fs.files[p] == old(fs.files)[p]
    ensures forall p :: p in old(fs.files) ==> NonBlank(fs.files[p]) == NonBlank(old(fs.files)[p])
    ensures r.Ok? ==> (|r.value| == |paths| &&
      forall j :: 0 <= j < |paths| ==> Distinct(ReadUrls(fs.files[paths[j]])))
  {
    ghost var start := fs.files;
    var reports: seq<DedupReport> := [];
    var i := 0;
    while i < |paths|
      invariant 0 <= i <= |paths|
      invariant |reports| == i
      invariant DedupSoFar(start, fs.files, paths, i)
    {
      ghost var before := fs.files;
      var report := fs.RemoveDuplicateUrlsFromFile(paths[i]);
      if report.Err? {
        r := Err(report.error);
        return;
      }
      DedupStep(start, before, fs.files[paths[i]], paths, i);
      reports := reports + [report.value];
      i := i + 1;
    }
    r := Ok(reports);
  }

  /** The state of `main`'s deduplication loop after the first `i` category
      files: those exist and are deduplicated, only category files changed,
      and no file gained or lost a non-blank line. */
  ghost predicate DedupSoFar(start: map<string, string>, files: map<string, string>, paths: seq<string>, i: int)
    requires 0 <= i <= |paths|
  {
    (forall j :: 0 <= j < i ==> paths[j] in start) &&
    (forall p :: p in files <==> p in start) &&
    (forall p :: p in start && p !in paths ==> files[p] == start[p]) &&
    (forall p :: p in start ==> NonBlank(files[p]) == NonBlank(start[p])) &&
    (forall j :: 0 <= j < i ==> Distinct(ReadUrls(files[paths[j]])))
  }

  lemma DedupStep(start: map<string, string>, before: map<string, string>, t: string,
                  paths: seq<string>, i: int)
    requires 0 <= i < |paths| && DedupSoFar(start, before, paths, i) && paths[i] in before
    requires Distinct(ReadUrls(t)) && NonBlank(t) == NonBlank(before[paths[i]])
    ensures DedupSoFar(start, before[paths[i] := t], paths, i + 1)
  {
    UpdateKeepsOthers(start, before, paths, paths[i], t);
    UpdateKeepsNonBlank(start, before, paths[i], t);
    UpdateKeepsDistinct(before, paths, i, t);
  }

  lemma UpdateKeepsOthers(start: map<string, string>, before: map<string, string>, paths: seq<string>,
                          key: string, t: string)
    requires key in before && key in paths
    requires forall p :: p in before <==> p in start
    requires forall p :: p in start && p !in paths ==> before[p] == start[p]
    ensures forall p :: p in before[key := t] <==> p in start
    ensures forall p :: p in start && p !in paths ==> before[key := t][p] == start[p]
  {
  }

  lemma UpdateKeepsNonBlank(start: map<string, string>, before: map<string, string>, key: string, t: string)
    requires key in before && NonBlank(t) == NonBlank(before[key])
    requires forall p :: p in start ==> p in before && NonBlank(before[p]) == NonBlank(start[p])
    ensures forall p :: p in start ==> NonBlank(before[key := t][p]) == NonBlank(start[p])
  {
    forall p | p in start ensures NonBlank(before[key := t][p]) == NonBlank(start[p]) {
      if p != key {
        assert before[key := t][p] == before[p];
      }
    }
  }

  lemma UpdateKeepsDistinct(before: map<string, string>, paths: seq<string>, i: int, t: string)
    requires 0 <= i < |paths| && Distinct(ReadUrls(t))
    requires forall j :: 0 <= j < i ==> paths[j] in before && Distinct(ReadUrls(before[paths[j]]))
    ensures forall j :: 0 <= j <= i ==> Distinct(ReadUrls(before[paths[i] := t][paths[j]]))
  {
    var after := before[paths[i] := t];
    forall j | 0 <= j <= i ensures Distinct(ReadUrls(after[paths[j]])) {
      if paths[j] != paths[i] {
        assert after[paths[j]] == before[paths[j]];
      }
    }
  }

  /** How a run of `main` ends. */
  datatype Outcome =
    | Rejected(error: Error)         // an argument check failed; nothing was done
    | Aborted(error: Error)          // the browser work raised; the files were not deduplicated
    | DedupFailed(error: Error)      // a category file to deduplicate does not exist
    | Finished(runs: seq<CategoryRun>, reports: seq<DedupReport>)

  /** The home page does not load, or one of its presence checks raises. */
  predicate HomeDialogsFail(home: Lookup<Dom>) {
    home.Absent? || CountryButtonPresent(home.value).Err? ||
    (CountryButtonPresent(home.value).Ok? && CookiesButtonPresent(home.value).Err?)
  }

  /** The home-page steps of `main`'s browser session: open the home page,
      choose the country if its selector is shown, reject cookies if that
      dialog is shown. The session fails if the page does not load or
      either presence check raises. */
  method PassHomeDialogs(home: Lookup<Dom>) returns (r: Result<()>)
    ensures r.Err? <==> HomeDialogsFail(home)
    ensures r.Err? ==> r.error == DriverError
  {
    if home.Absent? {
      return Err(DriverError);
    }
    var countryPresent := CountryButtonPresent(home.value);
    if countryPresent.Err? {
      return Err(countryPresent.error);
    }
    if countryPresent.value {
      var _ := ClickToCountryButton(home.value, DefaultCountry);
    }
    var cookiesPresent := CookiesButtonPresent(home.value);
    if cookiesPresent.Err? {
      return Err(cookiesPresent.error);
    }
    if cookiesPresent.value {
      var _ := RejectCookiesTarget(home.value);
    }
    r := Ok(());
  }

  /** `main` up to the uploads: check the arguments, pass the country and
      cookie dialogs on the home page, scrape every category, and only after
      the browser is closed deduplicate each category file in turn. */
  method RunScraper(fs: FileStore, args: Args, home: Lookup<Dom>, browse: string -> Lookup<seq<Dom>>)
    returns (outcome: Outcome)
    modifies fs
    ensures outcome.Rejected? <==> CheckedArgs(args).Err?
    ensures outcome.Rejected? ==> outcome.error == AssertionError && fs.files == old(fs.files)
    ensures outcome.Aborted? ==> (outcome.error == DriverError && AppendOnly(old(fs.files), fs.files) &&
                                  Untouched(old(fs.files), fs.files, CategoryPaths(args)))
    ensures outcome.Aborted? ==>
      (CheckedArgs(args).Ok? &&
       ((fs.files == old(fs.files) && HomeDialogsFail(home)) ||
        (!HomeDialogsFail(home) &&
         exists i: nat, runs: seq<CategoryRun> :: (i < |args.categories| && |runs| == i &&
           browse(StartingUrl(args.categories[i])).Absent? &&
           RunsFollow(runs, args.categories, browse, PageCap(CheckedArgs(args).value.maxPages)) &&
           FilesFollow(old(fs.files), fs.files, CategoryPaths(args), runs, PageCap(CheckedArgs(args).value.maxPages))))))
    ensures outcome.DedupFailed? ==> (outcome.error == FileNotFoundError &&
      CheckedArgs(args).Ok? && PageCap(CheckedArgs(args).value.maxPages) < 1)
    ensures outcome.Finished? ==> (CheckedArgs(args).Ok? &&
      |outcome.runs| == |outcome.reports| == |args.categories| &&
      RunsFollow(outcome.runs, args.categories, browse, PageCap(CheckedArgs(args).value.maxPages)) &&
      forall i :: 0 <= i < |args.categories| ==>
        (CategoryPaths(args)[i] in fs.files && Distinct(ReadUrls(fs.files[CategoryPaths(args)[i]]))))
    ensures outcome.Finished? && Distinct(CategoryPaths(args)) ==>
      forall i :: 0 <= i < |args.categories| ==>
        NonBlank(fs.files[CategoryPaths(args)[i]])
          == NonBlank(TextIn(old(fs.files), CategoryPaths(args)[i]) + Batches(outcome.runs[i].batches))
  {
    var checked := CheckedArgs(args);
    if checked.Err? {
      outcome := Rejected(checked.error);
      return;
    }
    var a := checked.value;
    assert CategoryPaths(a) == CategoryPaths(args);
    var passed := PassHomeDialogs(home);
    if passed.Err? {
      outcome := Aborted(passed.error);
      return;
    }
    ghost var start := fs.files;
    var scraped := ScrapeItemUrls(fs, a, browse);
    if scraped.Err? {
      outcome := Aborted(scraped.error);
      return;
    }
    var paths := CategoryPaths(a);
    ghost var mid := fs.files;
    var deduped := DedupCategoryFiles(fs, paths);
    if deduped.Err? {
      outcome := DedupFailed(deduped.error);
      return;
    }
    outcome := Finished(scraped.value, deduped.value);
    if Distinct(paths) {
      DedupKeepsRuns(start, mid, fs.files, paths, scraped.value, PageCap(a.maxPages));
    }
  }

  /** Deduplicating the category files after the walks keeps, line for line
      up to blank lines, each file's old text followed by its own batches. */
  lemma DedupKeepsRuns(start: map<string, string>, mid: map<string, string>, final: map<string, string>,
                       paths: seq<string>, runs: seq<CategoryRun>, cap: int)
    requires FilesFollow(start, mid, paths, runs, cap) && |runs| == |paths| && Distinct(paths)
    requires forall j :: 0 <= j < |paths| ==> paths[j] in mid
    requires forall p :: p in mid ==> p in final && NonBlank(final[p]) == NonBlank(mid[p])
    ensures forall i :: 0 <= i < |paths| ==>
      NonBlank(final[paths[i]]) == NonBlank(TextIn(start, paths[i]) + Batches(runs[i].batches))
  {
    forall i | 0 <= i < |paths|
      ensures NonBlank(final[paths[i]]) == NonBlank(TextIn(start, paths[i]) + Batches(runs[i].batches))
    {
      assert TextIn(mid, paths[i]) == mid[paths[i]];
    }
  }
}
