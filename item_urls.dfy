/** Item URLs and the names derived from them: the category path of an item,
    its numeric id, the file its image is stored under, and the category
    start pages the scraper opens. */
module ItemUrls {
  import opened Results
  import opened PyStr

  /** The marketplace's home page; every item URL starts with it. */
  const HomeUrl: string := "https://www.vinted.cz/"
  const SiteName: string := "vinted"
  const ImagePrefix: string := "data/item_data/images"

  // ---------------------------------------------------------------- categories

  /** The categories the command line accepts, in their listed order. */
  datatype Category = Zeny | Muzi

  function CategoryName(c: Category): string {
    match c
    case Zeny => "zeny"
    case Muzi => "muzi"
  }

  const CategoryChoices: seq<string> := ["zeny", "muzi"]

  /** The `choices` check on `--categories`: a name is accepted exactly
      when it is one of the listed categories. */
  function ParseCategory(s: string): (r: Lookup<Category>)
    ensures r.Found? <==> s in CategoryChoices
    ensures r.Found? ==> CategoryName(r.value) == s
  {
    if s == "zeny" then Found(Zeny)
    else if s == "muzi" then Found(Muzi)
    else Absent
  }

  /** The start page of a category: `urljoin(HOME_URL, posixpath.join(category,
      "obleceni"))`. The base ends in '/' and has no query, and the joined
      path has no scheme, dot segment, query or fragment, so the reference
      resolution of RFC 3986 section 5.2 reduces to appending the path to
      the base (the merge of section 5.2.3). */
  function StartingUrl(c: Category): (url: string)
    ensures url == HomeUrl + CategoryName(c) + "/obleceni"
  {
    var rel := PathJoin(CategoryName(c), ["obleceni"]);
    PathJoinPlain(CategoryName(c), ["obleceni"]);
    HomeUrl + rel
  }

  /** `construct_starting_urls`: one start page per requested category,
      in the requested order. */
  function ConstructStartingUrls(cats: seq<Category>): (urls: seq<string>)
    ensures |urls| == |cats|
    ensures forall i :: 0 <= i < |cats| ==>
      StartsWith(urls[i], HomeUrl) && urls[i][|HomeUrl|..] == CategoryName(cats[i]) + "/obleceni"
  {
    seq(|cats|, i requires 0 <= i < |cats| => StartingUrl(cats[i]))
  }

  // ---------------------------------------------------------------- item paths

  /** The fields before the last '/', joined back: the text before the last
      '/', or "" when there is none. */
  lemma DropLastField(rest: string)
    ensures var parts := Split(rest, '/'); var path := Join(parts[..|parts| - 1], "/");
      ('/' !in rest ==> path == "") &&
      ('/' in rest ==> |path| < |rest| && rest[..|path|] == path && rest[|path|] == '/' &&
                       '/' !in rest[|path| + 1..])
  {
    var parts := Split(rest, '/');
    var path := Join(parts[..|parts| - 1], "/");
    SplitDropLast(rest, '/');
    if '/' in rest {
      var last := parts[|parts| - 1];
      assert rest == path + "/" + last;
      assert rest[|path| + 1..] == last;
    }
  }

  /** `item_url_to_path`: every occurrence of the home URL is removed, then
      everything from the last '/' on. */
  function ItemUrlToPath(url: string, home: string): (path: string)
    ensures var rest := Replace(url, home, "");
      ('/' !in rest ==> path == "") &&
      ('/' in rest ==> |path| < |rest| && rest[..|path|] == path && rest[|path|] == '/' &&
                       '/' !in rest[|path| + 1..])
  {
    var rest := Replace(url, home, "");
    var parts := Split(rest, '/');
    DropLastField(rest);
    Join(parts[..|parts| - 1], "/")
  }

  /** An item URL built from the home URL, a category path and a final
      slug maps back to that category path. */
  lemma ItemUrlToPathOf(home: string, path: string, slug: string)
    requires home != [] && !Occurs(path + "/" + slug, home)
    requires '/' !in slug
    ensures ItemUrlToPath(home + path + "/" + slug, home) == path
  {
    var rest := path + "/" + slug;
    assert home + path + "/" + slug == home + rest;
    ReplaceFront(home, rest, "");
    ReplaceAbsent(rest, home, "");
    assert Replace(home + rest, home, "") == rest;
    SplitConcat(path, slug, '/');
    SplitNoSep(slug, '/');
    var parts := Split(rest, '/');
    assert parts == Split(path, '/') + [slug];
    assert parts[..|parts| - 1] == Split(path, '/');
    JoinSplit(path, '/');
  }

  /** For URLs under the home page whose remainder has no ':' (so the home
      URL cannot occur in it again). */
  lemma ItemUrlToPathUnderHome(path: string, slug: string)
    requires ':' !in path && ':' !in slug && '/' !in slug
    ensures ItemUrlToPath(HomeUrl + path + "/" + slug, HomeUrl) == path
  {
    assert HomeUrl[5] == ':';
    assert ':' !in path + "/" + slug;
    NoOccurByChar(path + "/" + slug, HomeUrl, ':');
    ItemUrlToPathOf(HomeUrl, path, slug);
  }

  /** The category path of the item in the function's docstring. */
  const ExamplePath: string := "zeny/obleceni/saty/mini-saty"
  /** The slug of the item in the function's docstring. */
  const ExampleSlug: string := "2353299058-deezee-bezove-saty"

  /** The example of the function's docstring: the item URL maps to its
      category path. */
  lemma ItemUrlToPathExample()
    ensures ItemUrlToPath(HomeUrl + ExamplePath + "/" + ExampleSlug, HomeUrl) == ExamplePath
  {
    assert ':' !in ExamplePath;
    assert ':' !in ExampleSlug && '/' !in ExampleSlug;
    ItemUrlToPathUnderHome(ExamplePath, ExampleSlug);
  }

  /** The text after the last '/' of a URL. */
  function LastSegment(url: string): (seg: string)
    ensures '/' !in seg
    ensures |seg| <= |url| && url[|url| - |seg|..] == seg
    ensures |seg| < |url| ==> url[|url| - |seg| - 1] == '/'
  {
    var parts := Split(url, '/');
    SplitLast(url, '/');
    parts[|parts| - 1]
  }

  /** The item id: the last path segment up to its first '-'. */
  function ItemId(url: string): (id: string)
    ensures '/' !in id && '-' !in id
    ensures var seg := LastSegment(url);
      |id| <= |seg| && seg[..|id|] == id && (|id| < |seg| ==> seg[|id|] == '-')
  {
    var seg := LastSegment(url);
    SplitFirst(seg, '-');
    Split(seg, '-')[0]
  }

  /** An item URL whose last segment is `<id>-<name>` has id `<id>`. */
  lemma ItemIdOf(front: string, id: string, name: string)
    requires '/' !in id && '/' !in name && '-' !in id
    ensures ItemId(front + "/" + id + "-" + name) == id
  {
    var seg := id + "-" + name;
    assert front + "/" + id + "-" + name == front + "/" + seg;
    SplitConcat(front, seg, '/');
    SplitNoSep(seg, '/');
    SplitConcat(id, name, '-');
    SplitNoSep(id, '-');
  }

  /** `item_url_to_img_path`: prefix, category path and `<id>.png` joined
      as file-system paths; the numbered form replaces every ".png" of the
      whole path by "_0.png". */
  function ItemUrlToImgPath(url: string, prefix: string, numbered: bool): (r: string)
    ensures !numbered ==> EndsWith(r, ItemId(url) + ".png")
  {
    var dir := ItemUrlToPath(url, HomeUrl);
    var file := PathJoin(prefix, [dir, ItemId(url) + ".png"]);
    PathJoinLast(prefix, dir, ItemId(url) + ".png");
    if numbered then Replace(file, ".png", "_0.png") else file
  }

  /** Joining two components onto a prefix ends with the last component. */
  lemma PathJoinLast(prefix: string, dir: string, name: string)
    ensures EndsWith(PathJoin(prefix, [dir, name]), name)
  {
    var a := PathJoin2(prefix, dir);
    assert [dir, name][1..] == [name];
    assert PathJoin(prefix, [dir, name]) == PathJoin(a, [name]);
    assert PathJoin(a, [name]) == PathJoin2(a, name);
    var j := PathJoin2(a, name);
    if !StartsWith(name, "/") {
      if a == [] || EndsWith(a, "/") {
        assert j == a + name;
      } else {
        assert j == (a + "/") + name;
      }
      assert j[|j| - |name|..] == name;
    }
  }

  /** `.replace(".png", "_0.png")` on a path whose only '.' is the one of
      its final ".png". */
  lemma NumberPng(stem: string)
    requires '.' !in stem
    ensures Replace(stem + ".png", ".png", "_0.png") == stem + "_0.png"
  {
    forall i | 0 <= i < |stem| ensures !StartsWith((stem + ".png")[i..], ".png") {
      assert (stem + ".png")[i..][0] == stem[i];
    }
    ReplaceAtEnd(stem, ".png", "_0.png");
  }

  lemma PngPlain(id: string)
    requires '/' !in id
    ensures PlainSegment(id + ".png")
  {
    var file := id + ".png";
    assert file[|file| - 1] == 'g';
    if id == [] {
      assert file[0] == '.';
    } else {
      assert file[0] == id[0];
    }
  }

  /** The two names the image path is built from, for an item URL under
      the home page. */
  lemma ItemUrlParts(path: string, id: string, name: string)
    requires '/' !in id && '/' !in name && '-' !in id
    requires ':' !in path && ':' !in id && ':' !in name
    ensures var url := HomeUrl + path + "/" + id + "-" + name;
      ItemUrlToPath(url, HomeUrl) == path && ItemId(url) == id
  {
    var slug := id + "-" + name;
    assert HomeUrl + path + "/" + id + "-" + name == HomeUrl + path + "/" + slug;
    assert ':' !in slug;
    ItemUrlToPathUnderHome(path, slug);
    assert HomeUrl + path + "/" + id + "-" + name == (HomeUrl + path) + "/" + id + "-" + name;
    ItemIdOf(HomeUrl + path, id, name);
  }

  lemma ImgPathOfParts(url: string, prefix: string, path: string, id: string)
    requires ItemUrlToPath(url, HomeUrl) == path && ItemId(url) == id
    requires PlainSegment(prefix) && PlainSegment(path)
    requires '.' !in prefix && '.' !in path && '.' !in id
    ensures ItemUrlToImgPath(url, prefix, false) == prefix + "/" + path + "/" + id + ".png"
    ensures ItemUrlToImgPath(url, prefix, true) == prefix + "/" + path + "/" + id + "_0.png"
  {
    PngPathJoin(prefix, path, id);
    NumberPng(prefix + "/" + path + "/" + id);
  }

  lemma PngPathJoin(prefix: string, path: string, id: string)
    requires PlainSegment(prefix) && PlainSegment(path)
    requires '.' !in prefix && '.' !in path && '.' !in id && '/' !in id
    ensures PathJoin(prefix, [path, id + ".png"]) == prefix + "/" + path + "/" + id + ".png"
    ensures '.' !in prefix + "/" + path + "/" + id
  {
    PngPlain(id);
    PathJoinPlain(prefix, [path, id + ".png"]);
    assert [prefix] + [path, id + ".png"] == [prefix, path, id + ".png"];
    Join3(prefix, path, id + ".png", "/");
  }

  /** The image of an item with a category path lives in that path's
      directory under the prefix, named after the item id; the numbered
      variant names its first image. */
  lemma ItemUrlToImgPathLayout(prefix: string, path: string, id: string, name: string)
    requires PlainSegment(prefix) && PlainSegment(path)
    requires '/' !in id && '/' !in name && '-' !in id
    requires '.' !in prefix && '.' !in path && '.' !in id
    requires ':' !in path && ':' !in id && ':' !in name
    ensures var url := HomeUrl + path + "/" + id + "-" + name;
      ItemUrlToImgPath(url, prefix, false) == prefix + "/" + path + "/" + id + ".png" &&
      ItemUrlToImgPath(url, prefix, true) == prefix + "/" + path + "/" + id + "_0.png"
  {
    ItemUrlParts(path, id, name);
    ImgPathOfParts(HomeUrl + path + "/" + id + "-" + name, prefix, path, id);
  }

  /** The start page of a category followed by one more segment maps back
      to the category's clothing path. */
  lemma StartingUrlPath(c: Category, slug: string)
    requires '/' !in slug && ':' !in slug
    ensures ItemUrlToPath(StartingUrl(c) + "/" + slug, HomeUrl) == CategoryName(c) + "/obleceni"
  {
    var name := CategoryName(c);
    var path := name + "/obleceni";
    assert ':' !in path;
    ItemUrlToPathUnderHome(path, slug);
    assert HomeUrl + (name + "/obleceni") == HomeUrl + name + "/obleceni";
  }
}

module ScrapedFilter {
  import opened ItemUrls

  /** An item counts as scraped when its image exists and its id is in the
      ledger of scraped items; either one missing sends it back. */
  predicate AlreadyScraped(url: string, scrapedIds: set<string>, imageExists: string -> bool) {
    imageExists(url) && ItemId(url) in scrapedIds
  }

  /** The URLs `filter_already_scraped_item_urls` keeps, in input order. */
  function Unscraped(urls: seq<string>, scrapedIds: set<string>, imageExists: string -> bool): seq<string>
    decreases |urls|
  {
    if urls == [] then []
    else
      var kept := Unscraped(urls[..|urls| - 1], scrapedIds, imageExists);
      var u := urls[|urls| - 1];
      if AlreadyScraped(u, scrapedIds, imageExists) then kept else kept + [u]
  }

  /** `filter_already_scraped_item_urls`, with the ledger read beforehand
      and the image check passed in. */
  method FilterAlreadyScrapedItemUrls(urls: seq<string>, scrapedIds: set<string>, imageExists: string -> bool)
    returns (kept: seq<string>)
    ensures kept == Unscraped(urls, scrapedIds, imageExists)
  {
    kept := [];
    var i := 0;
    while i < |urls|
      invariant 0 <= i <= |urls|
      invariant kept == Unscraped(urls[..i], scrapedIds, imageExists)
    {
      var u := urls[i];
      if !imageExists(u) || ItemId(u) !in scrapedIds {
        kept := kept + [u];
      }
      assert urls[..i + 1][..i] == urls[..i];
      i := i + 1;
    }
    assert urls[..|urls|] == urls;
  }

  /** A URL is kept exactly when it is in the input and not already scraped:
      its image is missing or its id is not in the ledger. */
  lemma {:induction false} UnscrapedMembers(urls: seq<string>, scrapedIds: set<string>, imageExists: string -> bool)
    ensures forall x :: x in Unscraped(urls, scrapedIds, imageExists) <==>
      x in urls && (!imageExists(x) || ItemId(x) !in scrapedIds)
    decreases |urls|
  {
    if urls != [] {
      var init := urls[..|urls| - 1];
      UnscrapedMembers(init, scrapedIds, imageExists);
      assert urls == init + [urls[|urls| - 1]];
    }
  }

  /** `idx` picks `kept` out of `xs` at strictly increasing positions. */
  predicate Picks(idx: seq<nat>, xs: seq<string>, kept: seq<string>) {
    |idx| == |kept| &&
    (forall k :: 0 <= k < |idx| ==> idx[k] < |xs| && xs[idx[k]] == kept[k]) &&
    (forall k, l :: 0 <= k < l < |idx| ==> idx[k] < idx[l])
  }

  /** The kept URLs are a subsequence of the input: `idx` picks them out
      at strictly increasing positions. */
  lemma {:induction false} UnscrapedSubsequence(urls: seq<string>, scrapedIds: set<string>, imageExists: string -> bool)
    returns (idx: seq<nat>)
    ensures Picks(idx, urls, Unscraped(urls, scrapedIds, imageExists))
    decreases |urls|
  {
    if urls == [] {
      idx := [];
    } else {
      var n := |urls| - 1;
      idx := UnscrapedSubsequence(urls[..n], scrapedIds, imageExists);
      PicksExtend(idx, urls, Unscraped(urls[..n], scrapedIds, imageExists));
      if !AlreadyScraped(urls[n], scrapedIds, imageExists) {
        idx := idx + [n];
      }
    }
  }

  /** Picks from all but the last element are picks from the whole, and
      remain so with the last element picked as well. */
  lemma PicksExtend(idx: seq<nat>, xs: seq<string>, kept: seq<string>)
    requires xs != [] && Picks(idx, xs[..|xs| - 1], kept)
    ensures Picks(idx, xs, kept)
    ensures Picks(idx + [|xs| - 1], xs, kept + [xs[|xs| - 1]])
  {
    var n := |xs| - 1;
    assert forall k :: 0 <= k < |idx| ==> idx[k] < n && xs[idx[k]] == xs[..n][idx[k]];
    var idx2, kept2 := idx + [n], kept + [xs[n]];
    assert forall k :: 0 <= k < |idx| ==> idx2[k] == idx[k] && kept2[k] == kept[k];
  }

  /** Each URL on its own: the four cases of image present or missing and
      id listed or not, of which only "present and listed" drops it. */
  lemma FilterTruthTable(u: string, scrapedIds: set<string>, imageExists: string -> bool)
    ensures imageExists(u) && ItemId(u) in scrapedIds ==> Unscraped([u], scrapedIds, imageExists) == []
    ensures !imageExists(u) ==> Unscraped([u], scrapedIds, imageExists) == [u]
    ensures ItemId(u) !in scrapedIds ==> Unscraped([u], scrapedIds, imageExists) == [u]
  {
    assert [u][..0] == [];
  }
}
