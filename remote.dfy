/** The object-store side of the pipeline, written once for Google Cloud
    Storage and Amazon S3: a bucket is the listing of its objects, and each
    helper is the string logic around a listing, an existence check or a
    download. Where the two clients behave differently the `Backend`
    parameter says so. */
module Remote {
  import opened Results
  import opened PyStr
  import opened Sets
  import opened ItemUrls
  import opened ScrapedFilter

  datatype Backend = Gcs | S3

  datatype StoredObject = StoredObject(key: string, text: string)

  /** A bucket: its objects in the order a listing returns them. */
  type Bucket = seq<StoredObject>

  /** The most keys one S3 `list_objects` call returns. */
  const S3PageSize: nat := 1000

  function UrlFilesPrefix(site: string): string {
    "data/item_urls/" + site + "/"
  }

  function CategoryPrefix(site: string, category: string): string {
    UrlFilesPrefix(site) + category + "/"
  }

  predicate HasKey(bucket: Bucket, key: string) {
    exists i :: 0 <= i < |bucket| && bucket[i].key == key
  }

  // ---------------------------------------------------------------- listing

  /** The keys starting with `prefix`, in listing order. */
  function KeysWithPrefix(bucket: Bucket, prefix: string): seq<string>
    decreases |bucket|
  {
    if bucket == [] then []
    else
      var rest := KeysWithPrefix(bucket[1..], prefix);
      if StartsWith(bucket[0].key, prefix) then [bucket[0].key] + rest else rest
  }

  /** A listing holds exactly the keys of the bucket that start with the
      prefix. */
  lemma {:induction false} KeysWithPrefixMembers(bucket: Bucket, prefix: string)
    ensures forall k :: k in KeysWithPrefix(bucket, prefix) <==> HasKey(bucket, k) && StartsWith(k, prefix)
    decreases |bucket|
  {
    if bucket != [] {
      KeysWithPrefixMembers(bucket[1..], prefix);
      forall k | HasKey(bucket, k) && k != bucket[0].key ensures HasKey(bucket[1..], k) {
        var i :| 0 <= i < |bucket| && bucket[i].key == k;
        assert bucket[1..][i - 1].key == k;
      }
      forall k | HasKey(bucket[1..], k) ensures HasKey(bucket, k) {
        var i :| 0 <= i < |bucket[1..]| && bucket[1..][i].key == k;
        assert bucket[i + 1].key == k;
      }
    }
  }

  /** One listing call. GCS's `list_blobs` pages through every match. S3's
      `list_objects` returns the first 1000 matches, and a response without
      matches has no "Contents" entry, so reading it raises KeyError. */
  function ListKeys(backend: Backend, bucket: Bucket, prefix: string): (r: Result<seq<string>>)
    ensures var all := KeysWithPrefix(bucket, prefix);
      match backend
      case Gcs => r == Ok(all)
      case S3 => (all == [] ==> r == Err(KeyError)) &&
                 (all != [] ==> r.Ok? && |r.value| == Min(|all|, S3PageSize) && r.value == all[..|r.value|])
  {
    var all := KeysWithPrefix(bucket, prefix);
    match backend
    case Gcs => Ok(all)
    case S3 => if all == [] then Err(KeyError) else Ok(all[..Min(|all|, S3PageSize)])
  }

  function Min(a: nat, b: nat): nat {
    if a <= b then a else b
  }

  /** Every listed key is a key of the bucket with the prefix; with GCS
      every such key is listed. */
  lemma ListKeysMembers(backend: Backend, bucket: Bucket, prefix: string)
    ensures var r := ListKeys(backend, bucket, prefix);
      r.Ok? ==> forall k :: k in r.value ==> HasKey(bucket, k) && StartsWith(k, prefix)
    ensures var r := ListKeys(backend, bucket, prefix);
      backend == Gcs ==> forall k :: k in r.value <==> HasKey(bucket, k) && StartsWith(k, prefix)
  {
    KeysWithPrefixMembers(bucket, prefix);
    var all := KeysWithPrefix(bucket, prefix);
    var r := ListKeys(backend, bucket, prefix);
    if r.Ok? {
      forall k | k in r.value ensures k in all {
        var i :| 0 <= i < |r.value| && r.value[i] == k;
        assert all[i] == k;
      }
    }
  }

  // ---------------------------------------------------------------- existence

  /** `*_file_exists`: GCS asks for an object of exactly that name; S3 lists
      with the name as a prefix and one key at most, and asks whether
      anything came back. */
  predicate FileExists(backend: Backend, bucket: Bucket, name: string) {
    match backend
    case Gcs => HasKey(bucket, name)
    case S3 => exists i :: 0 <= i < |bucket| && StartsWith(bucket[i].key, name)
  }

  /** `*_item_url_img_exists`: the existence of the item's first image. */
  predicate ItemImageExists(backend: Backend, bucket: Bucket, url: string) {
    FileExists(backend, bucket, ItemUrlToImgPath(url, ImagePrefix, true))
  }

  /** `filter_already_scraped_item_urls` as the scraper runs it, with the
      GCS image check: a URL is kept exactly when its first image is not a
      stored key or its id is not in the ledger. */
  lemma FilterWithGcsImages(bucket: Bucket, urls: seq<string>, scrapedIds: set<string>)
    ensures forall x :: x in Unscraped(urls, scrapedIds, u => ItemImageExists(Gcs, bucket, u)) <==>
      x in urls && (!HasKey(bucket, ItemUrlToImgPath(x, ImagePrefix, true)) || ItemId(x) !in scrapedIds)
  {
    UnscrapedMembers(urls, scrapedIds, u => ItemImageExists(Gcs, bucket, u));
  }

  /** The two existence checks differ: an S3 "hit" only says that some key
      starts with the name. Every GCS hit is an S3 hit, and a bucket holding
      only a longer key is an S3 hit but not a GCS one. */
  lemma ExistenceChecksDiffer(bucket: Bucket, name: string, longer: string)
    requires StartsWith(longer, name) && longer != name
    ensures FileExists(Gcs, bucket, name) ==> FileExists(S3, bucket, name)
    ensures FileExists(S3, [StoredObject(longer, "")], name)
    ensures !FileExists(Gcs, [StoredObject(longer, "")], name)
  {
    if FileExists(Gcs, bucket, name) {
      var i :| 0 <= i < |bucket| && bucket[i].key == name;
      assert name[..|name|] == name;
      assert StartsWith(bucket[i].key, name);
    }
    assert [StoredObject(longer, "")][0].key == longer;
  }

  // ---------------------------------------------------------------- categories

  /** The first '/'-field of a key. */
  function FirstField(s: string): string {
    Split(s, '/')[0]
  }

  /** The category a listed key names: its first field once the prefix has
      been removed (everywhere in the key, as `replace` does). */
  function CategoryOfKey(key: string, prefix: string): string {
    FirstField(Replace(key, prefix, ""))
  }

  /** `*_get_categories_from_item_url_files`: the distinct categories under
      the site's URL-file prefix. */
  function CategoriesFromItemUrlFiles(backend: Backend, bucket: Bucket, site: string): (r: Result<set<string>>)
    ensures r.Err? <==> backend == S3 && KeysWithPrefix(bucket, UrlFilesPrefix(site)) == []
    ensures r.Ok? ==> |r.value| <= |KeysWithPrefix(bucket, UrlFilesPrefix(site))|
    ensures r.Ok? ==> var listing := ListKeys(backend, bucket, UrlFilesPrefix(site));
      listing.Ok? && r.value == CategoriesOf(listing.value, UrlFilesPrefix(site))
  {
    var prefix := UrlFilesPrefix(site);
    match ListKeys(backend, bucket, prefix)
    case Err(e) => Err(e)
    case Ok(keys) =>
      var cats := CategoriesOf(keys, prefix);
      Ok(cats)
  }

  /** The set of categories of a list of keys. */
  function CategoriesOf(keys: seq<string>, prefix: string): (cats: set<string>)
    ensures |cats| <= |keys|
    decreases |keys|
  {
    if keys == [] then {}
    else CategoriesOf(keys[..|keys| - 1], prefix) + {CategoryOfKey(keys[|keys| - 1], prefix)}
  }

  /** A category is listed exactly when some key names it. */
  lemma {:induction false} CategoriesOfMembers(keys: seq<string>, prefix: string)
    ensures forall c :: c in CategoriesOf(keys, prefix) <==>
      exists i :: 0 <= i < |keys| && CategoryOfKey(keys[i], prefix) == c
    decreases |keys|
  {
    if keys != [] {
      var init := keys[..|keys| - 1];
      var last := CategoryOfKey(keys[|keys| - 1], prefix);
      var before := CategoriesOf(init, prefix);
      assert CategoriesOf(keys, prefix) == before + {last};
      CategoriesOfMembers(init, prefix);
      forall c | c in before + {last}
        ensures exists i :: 0 <= i < |keys| && CategoryOfKey(keys[i], prefix) == c
      {
        if c in before {
          var i :| 0 <= i < |init| && CategoryOfKey(init[i], prefix) == c;
          assert keys[i] == init[i];
        }
      }
      forall i | 0 <= i < |keys| ensures CategoryOfKey(keys[i], prefix) in before + {last} {
        if i < |keys| - 1 {
          assert init[i] == keys[i];
        }
      }
    }
  }

  /** A reported category is the category of a stored key under the site's
      prefix; with GCS every such key's category is reported. */
  lemma CategoriesFromStoredKeys(backend: Backend, bucket: Bucket, site: string)
    ensures var r := CategoriesFromItemUrlFiles(backend, bucket, site);
      r.Ok? ==> forall c :: c in r.value ==> exists k :: (HasKey(bucket, k) && StartsWith(k, UrlFilesPrefix(site)) &&
                                                        CategoryOfKey(k, UrlFilesPrefix(site)) == c)
    ensures var r := CategoriesFromItemUrlFiles(backend, bucket, site);
      backend == Gcs ==> r.Ok? && forall c :: c in r.value <==> exists k :: (HasKey(bucket, k) &&
        StartsWith(k, UrlFilesPrefix(site)) && CategoryOfKey(k, UrlFilesPrefix(site)) == c)
  {
    var prefix := UrlFilesPrefix(site);
    var listing := ListKeys(backend, bucket, prefix);
    ListKeysMembers(backend, bucket, prefix);
    if listing.Ok? {
      var keys := listing.value;
      CategoriesOfMembers(keys, prefix);
      forall c | c in CategoriesOf(keys, prefix)
        ensures exists k :: (HasKey(bucket, k) && StartsWith(k, prefix) && CategoryOfKey(k, prefix) == c)
      {
        var i :| 0 <= i < |keys| && CategoryOfKey(keys[i], prefix) == c;
        assert keys[i] in keys;
      }
      if backend == Gcs {
        forall c, k | HasKey(bucket, k) && StartsWith(k, prefix) && CategoryOfKey(k, prefix) == c
          ensures c in CategoriesOf(keys, prefix)
        {
          var i :| 0 <= i < |keys| && keys[i] == k;
        }
      }
    }
  }

  /** Keys laid out as prefix, category, '/', file name yield exactly their
      categories. */
  lemma CategoriesOfLayout(prefix: string, cats: seq<string>, files: seq<string>, keys: seq<string>)
    requires prefix != [] && |cats| == |files| == |keys|
    requires forall i :: 0 <= i < |keys| ==>
      keys[i] == prefix + cats[i] + "/" + files[i] && '/' !in cats[i] && !Occurs(cats[i] + "/" + files[i], prefix)
    ensures CategoriesOf(keys, prefix) == Elems(cats)
  {
    CategoriesOfMembers(keys, prefix);
    forall i | 0 <= i < |keys| ensures CategoryOfKey(keys[i], prefix) == cats[i] {
      CategoryOfKeyOf(prefix, cats[i], files[i]);
    }
  }

  /** A key laid out as prefix, category, '/', file name names its category. */
  lemma CategoryOfKeyOf(prefix: string, category: string, file: string)
    requires prefix != [] && !Occurs(category + "/" + file, prefix)
    requires '/' !in category
    ensures CategoryOfKey(prefix + category + "/" + file, prefix) == category
  {
    var rest := category + "/" + file;
    assert prefix + category + "/" + file == prefix + rest;
    ReplaceFront(prefix, rest, "");
    ReplaceAbsent(rest, prefix, "");
    assert Replace(prefix + rest, prefix, "") == rest;
    SplitConcat(category, file, '/');
    SplitNoSep(category, '/');
    assert Split(rest, '/') == [category] + Split(file, '/');
  }

  // ---------------------------------------------------------------- file paths

  /** `*_get_all_item_url_filepaths`: the listings of the categories'
      prefixes, one after the other. */
  function AllItemUrlFilepaths(backend: Backend, bucket: Bucket, site: string, categories: seq<string>)
    : (r: Result<seq<string>>)
    ensures r.Err? <==> (backend == S3 &&
      exists i :: 0 <= i < |categories| && KeysWithPrefix(bucket, CategoryPrefix(site, categories[i])) == [])
    ensures r.Err? ==> r.error == KeyError
    ensures r.Ok? ==> forall k :: k in r.value ==> (HasKey(bucket, k) &&
      exists i :: 0 <= i < |categories| && StartsWith(k, CategoryPrefix(site, categories[i])))
    ensures r.Ok? ==> var ls := MapResults(categories, Listing(backend, bucket, site));
      ls.Ok? && r.value == ConcatAll(ls.value)
    decreases |categories|
  {
    if categories == [] then Ok([])
    else
      var first := ListKeys(backend, bucket, CategoryPrefix(site, categories[0]));
      var rest := AllItemUrlFilepaths(backend, bucket, site, categories[1..]);
      ListKeysMembers(backend, bucket, CategoryPrefix(site, categories[0]));
      if first.Err? then Err(first.error)
      else if rest.Err? then Err(rest.error)
      else
        assert Listing(backend, bucket, site)(categories[0]) == first;
        Ok(first.value + rest.value)
  }

  /** The listing of one category's prefix, as a function of the category. */
  function Listing(backend: Backend, bucket: Bucket, site: string): string -> Result<seq<string>> {
    c => ListKeys(backend, bucket, CategoryPrefix(site, c))
  }

  /** The listings one after the other, as repeated `extend` builds them. */
  function ConcatAll(ls: seq<seq<string>>): (r: seq<string>)
    ensures forall k :: k in r <==> exists i :: 0 <= i < |ls| && k in ls[i]
    decreases |ls|
  {
    if ls == [] then []
    else
      var rest := ConcatAll(ls[1..]);
      assert forall k :: (exists i :: 0 <= i < |ls| && k in ls[i]) <==> k in ls[0] || k in rest by {
        forall k | k in rest ensures exists i :: 0 <= i < |ls| && k in ls[i] {
          var i :| 0 <= i < |ls[1..]| && k in ls[1..][i];
          assert ls[i + 1] == ls[1..][i];
        }
        forall k, i | 0 < i < |ls| && k in ls[i] ensures k in rest {
          assert ls[1..][i - 1] == ls[i];
        }
      }
      ls[0] + rest
  }

  /** With GCS nothing fails, and the file paths are exactly the stored keys
      under some category's prefix. */
  lemma {:induction false} GcsAllFilepaths(bucket: Bucket, site: string, categories: seq<string>)
    ensures var r := AllItemUrlFilepaths(Gcs, bucket, site, categories);
      r.Ok? && forall k :: k in r.value <==> (HasKey(bucket, k) &&
        exists i :: 0 <= i < |categories| && StartsWith(k, CategoryPrefix(site, categories[i])))
    decreases |categories|
  {
    if categories != [] {
      GcsAllFilepaths(bucket, site, categories[1..]);
      ListKeysMembers(Gcs, bucket, CategoryPrefix(site, categories[0]));
      var tail := categories[1..];
      forall k, i | HasKey(bucket, k) && 0 < i < |categories| && StartsWith(k, CategoryPrefix(site, categories[i]))
        ensures exists j :: 0 <= j < |tail| && StartsWith(k, CategoryPrefix(site, tail[j]))
      {
        assert tail[i - 1] == categories[i];
      }
      forall k, j | 0 <= j < |tail| && StartsWith(k, CategoryPrefix(site, tail[j]))
        ensures exists i :: 0 <= i < |categories| && StartsWith(k, CategoryPrefix(site, categories[i]))
      {
        assert categories[j + 1] == tail[j];
      }
    }
  }

  /** With GCS, the file paths of a category are exactly the bucket's keys
      under its prefix. */
  lemma GcsFilepathsOfCategory(bucket: Bucket, site: string, category: string)
    ensures var r := AllItemUrlFilepaths(Gcs, bucket, site, [category]);
      r.Ok? && forall k :: k in r.value <==> HasKey(bucket, k) && StartsWith(k, CategoryPrefix(site, category))
  {
    ListKeysMembers(Gcs, bucket, CategoryPrefix(site, category));
    assert [category][1..] == [];
    assert KeysWithPrefix(bucket, CategoryPrefix(site, category)) + [] == KeysWithPrefix(bucket, CategoryPrefix(site, category));
  }

  // ---------------------------------------------------------------- latest file

  /** The characters `rstrip(".txt")` removes: a set, not a suffix. */
  const TxtChars: set<char> := {'.', 't', 'x'}

  /** The timestamp token of a URL-file key: the third '_'-field of its base
      name, with trailing '.', 't' and 'x' removed. */
  function TimestampToken(key: string): (r: Result<string>)
    ensures r.Err? <==> |Split(LastSegment(key), '_')| < 3
    ensures r.Err? ==> r.error == IndexError
    ensures r.Ok? ==> '_' !in r.value && '/' !in r.value &&
                      (r.value == [] || r.value[|r.value| - 1] !in TxtChars)
  {
    var fields := Split(LastSegment(key), '_');
    if |fields| < 3 then Err(IndexError)
    else
      var t := RStripChars(fields[2], TxtChars);
      assert '/' !in fields[2] by {
        assert '/' !in LastSegment(key);
        SplitFieldsFrom(LastSegment(key), '_', '/');
      }
      Ok(t)
  }

  /** The fields of a split hold only characters of the split string. */
  lemma {:induction false} SplitFieldsFrom(s: string, sep: char, c: char)
    requires c !in s
    ensures forall i :: 0 <= i < |Split(s, sep)| ==> c !in Split(s, sep)[i]
    decreases |s|
  {
    if s != [] {
      SplitFieldsFrom(s[1..], sep, c);
    }
  }

  /** A token ending in a character other than '.', 't' or 'x' survives
      the `rstrip` of its ".txt" suffix. */
  lemma RStripTxt(tok: string)
    requires tok != [] && tok[|tok| - 1] !in TxtChars
    ensures RStripChars(tok + ".txt", TxtChars) == tok
  {
    var s := tok + ".txt";
    var r := RStripChars(s, TxtChars);
    assert s[|tok| - 1] !in TxtChars;
    assert forall i :: |tok| <= i < |s| ==> s[i] in TxtChars;
    assert |r| == |tok|;
    assert r == s[..|tok|] == tok;
  }

  /** The name the scraper gives a URL file. */
  function UrlFileName(tok: string): string {
    "item_urls_" + tok + ".txt"
  }

  lemma LastSegmentOf(dir: string, name: string)
    requires '/' !in name
    ensures LastSegment(dir + "/" + name) == name
  {
    SplitConcat(dir, name, '/');
    SplitNoSep(name, '/');
  }

  lemma UrlFileNameFields(tok: string)
    requires '_' !in tok
    ensures Split(UrlFileName(tok), '_') == ["item", "urls", tok + ".txt"]
  {
    Join3("item", "urls", tok + ".txt", "_");
    assert UrlFileName(tok) == Join(["item", "urls", tok + ".txt"], "_");
    assert '_' !in tok + ".txt";
    SplitJoin(["item", "urls", tok + ".txt"], '_');
  }

  /** A URL file named after a timestamp yields that timestamp back. */
  lemma TimestampTokenOf(dir: string, tok: string)
    requires '/' !in tok && '_' !in tok && tok != [] && tok[|tok| - 1] !in TxtChars
    ensures TimestampToken(dir + "/" + UrlFileName(tok)) == Ok(tok)
  {
    assert '/' !in UrlFileName(tok);
    LastSegmentOf(dir, UrlFileName(tok));
    UrlFileNameFields(tok);
    RStripTxt(tok);
  }

  /** The tokens of all keys, or the IndexError of the first key without
      three '_'-fields. */
  function Tokens(keys: seq<string>): (r: Result<seq<string>>)
    ensures r.Ok? <==> forall i :: 0 <= i < |keys| ==> TimestampToken(keys[i]).Ok?
    ensures r.Err? ==> r.error == IndexError
    ensures r.Ok? ==> (|r.value| == |keys| &&
      forall i :: 0 <= i < |keys| ==> TimestampToken(keys[i]) == Ok(r.value[i]))
  {
    MapResults(keys, TimestampToken)
  }

  /** `sorted(tokens)[-1]`: the greatest token in code-point order. */
  function MaxToken(tokens: seq<string>): (m: string)
    requires tokens != []
    ensures m in tokens
    ensures forall i :: 0 <= i < |tokens| ==> LexLe(tokens[i], m)
    decreases |tokens|
  {
    if |tokens| == 1 then
      assert LexLe(tokens[0], tokens[0]) by { LexLeTotal(tokens[0], tokens[0]); }
      tokens[0]
    else
      var m := MaxToken(tokens[1..]);
      LexLeTotal(tokens[0], m);
      if LexLe(tokens[0], m) then m
      else
        assert forall i :: 1 <= i < |tokens| ==> LexLe(tokens[i], tokens[0]) by {
          forall i | 1 <= i < |tokens| ensures LexLe(tokens[i], tokens[0]) {
            assert tokens[1..][i - 1] == tokens[i];
            LexLeTrans(tokens[i], m, tokens[0]);
          }
        }
        assert LexLe(tokens[0], tokens[0]) by { LexLeTotal(tokens[0], tokens[0]); }
        tokens[0]
  }

  /** The file paths of a single category are its listing. */
  lemma OneCategoryFilepaths(backend: Backend, bucket: Bucket, site: string, category: string)
    ensures AllItemUrlFilepaths(backend, bucket, site, [category])
         == ListKeys(backend, bucket, CategoryPrefix(site, category))
  {
    assert [category][1..] == [];
    var first := ListKeys(backend, bucket, CategoryPrefix(site, category));
    if first.Ok? {
      assert first.value + [] == first.value;
    }
  }

  /** `posixpath.join` of a directory ending in '/' and a relative name. */
  lemma PathJoinIntoDir(dir: string, name: string)
    requires name != [] && name[0] != '/'
    ensures PathJoin(dir + "/", [name]) == dir + "/" + name
  {
    var d := dir + "/";
    assert d[|d| - 1..] == "/";
    assert !StartsWith(name, "/") by {
      assert name[..1] == [name[0]];
    }
  }

  /** One category of `*_get_last_item_url_filepath`: list the category's
      files, take the greatest token, rebuild the file name under the
      category prefix. An empty listing raises IndexError with GCS and
      KeyError (from the listing) with S3. */
  function LatestFilepath(backend: Backend, bucket: Bucket, site: string, category: string): (r: Result<string>)
    ensures KeysWithPrefix(bucket, CategoryPrefix(site, category)) == [] ==>
      r == Err(if backend == Gcs then IndexError else KeyError)
    ensures var listing := ListKeys(backend, bucket, CategoryPrefix(site, category));
      r.Ok? <==> listing.Ok? && listing.value != [] && Tokens(listing.value).Ok?
    ensures var listing := ListKeys(backend, bucket, CategoryPrefix(site, category));
      r.Ok? ==> (listing.Ok? && Tokens(listing.value).Ok? && Tokens(listing.value).value != [] &&
                 r.value == CategoryPrefix(site, category) + UrlFileName(MaxToken(Tokens(listing.value).value)))
    ensures r.Err? ==> r.error == IndexError || (backend == S3 && r.error == KeyError)
  {
    var prefix := CategoryPrefix(site, category);
    OneCategoryFilepaths(backend, bucket, site, category);
    match AllItemUrlFilepaths(backend, bucket, site, [category])
    case Err(e) => Err(e)
    case Ok(keys) =>
      match Tokens(keys)
      case Err(e) => Err(e)
      case Ok(toks) =>
        if toks == [] then Err(IndexError)
        else
          var t := MaxToken(toks);
          FileUnderCategory(site, category, UrlFileName(t));
          Ok(PathJoin(prefix, [UrlFileName(t)]))
  }

  /** `os.path.join(prefix, name)` for a category prefix, which ends in '/'. */
  lemma FileUnderCategory(site: string, category: string, name: string)
    requires name != [] && name[0] != '/'
    ensures PathJoin(CategoryPrefix(site, category), [name]) == CategoryPrefix(site, category) + name
  {
    PathJoinIntoDir(UrlFilesPrefix(site) + category, name);
    assert CategoryPrefix(site, category) == UrlFilesPrefix(site) + category + "/";
  }

  /** When every file under a category prefix is named after a timestamp
      (and, with S3, the files fit in one listing page), the latest file
      path is the listed file with the greatest timestamp: it exists, and
      every listed file's timestamp is at most its own. */
  lemma LatestIsListed(backend: Backend, bucket: Bucket, site: string, category: string, toks: seq<string>)
    requires var keys := KeysWithPrefix(bucket, CategoryPrefix(site, category));
      keys != [] && |keys| == |toks| &&
      forall i :: 0 <= i < |keys| ==> keys[i] == CategoryPrefix(site, category) + UrlFileName(toks[i])
    requires backend == S3 ==> |KeysWithPrefix(bucket, CategoryPrefix(site, category))| <= S3PageSize
    requires forall i :: 0 <= i < |toks| ==>
      '/' !in toks[i] && '_' !in toks[i] && toks[i] != [] && toks[i][|toks[i]| - 1] !in TxtChars
    ensures var r := LatestFilepath(backend, bucket, site, category);
      r == Ok(CategoryPrefix(site, category) + UrlFileName(MaxToken(toks))) &&
      HasKey(bucket, r.value) &&
      forall i :: 0 <= i < |toks| ==> LexLe(toks[i], MaxToken(toks))
  {
    var prefix := CategoryPrefix(site, category);
    var keys := KeysWithPrefix(bucket, prefix);
    var dir := UrlFilesPrefix(site) + category;
    assert prefix == dir + "/";
    ListKeysWhole(backend, bucket, prefix);
    TokensOfLayout(dir, keys, toks);
    LatestOfTokens(backend, bucket, site, category, toks);
    LayoutKeyStored(bucket, prefix, toks, MaxToken(toks));
  }

  /** A listing whose tokens are `toks` yields the file of the greatest one. */
  lemma LatestOfTokens(backend: Backend, bucket: Bucket, site: string, category: string, toks: seq<string>)
    requires var listing := ListKeys(backend, bucket, CategoryPrefix(site, category));
      listing.Ok? && listing.value != [] && Tokens(listing.value) == Ok(toks)
    ensures toks != []
    ensures LatestFilepath(backend, bucket, site, category) == Ok(CategoryPrefix(site, category) + UrlFileName(MaxToken(toks)))
  {
  }

  /** The file named after a listed token is a stored key. */
  lemma LayoutKeyStored(bucket: Bucket, prefix: string, toks: seq<string>, m: string)
    requires var keys := KeysWithPrefix(bucket, prefix);
      |keys| == |toks| && forall i :: 0 <= i < |keys| ==> keys[i] == prefix + UrlFileName(toks[i])
    requires m in toks
    ensures HasKey(bucket, prefix + UrlFileName(m))
  {
    var keys := KeysWithPrefix(bucket, prefix);
    var j :| 0 <= j < |toks| && toks[j] == m;
    KeysWithPrefixMembers(bucket, prefix);
    assert keys[j] in keys;
  }

  /** A non-empty listing that fits in one page is listed whole. */
  lemma ListKeysWhole(backend: Backend, bucket: Bucket, prefix: string)
    requires KeysWithPrefix(bucket, prefix) != []
    requires backend == S3 ==> |KeysWithPrefix(bucket, prefix)| <= S3PageSize
    ensures ListKeys(backend, bucket, prefix) == Ok(KeysWithPrefix(bucket, prefix))
  {
    var keys := KeysWithPrefix(bucket, prefix);
    assert keys[..|keys|] == keys;
  }

  /** Files named after timestamps yield their timestamps, in order. */
  lemma TokensOfLayout(dir: string, keys: seq<string>, toks: seq<string>)
    requires |keys| == |toks|
    requires forall i :: 0 <= i < |keys| ==> keys[i] == dir + "/" + UrlFileName(toks[i])
    requires forall i :: 0 <= i < |toks| ==>
      '/' !in toks[i] && '_' !in toks[i] && toks[i] != [] && toks[i][|toks[i]| - 1] !in TxtChars
    ensures Tokens(keys) == Ok(toks)
  {
    forall i | 0 <= i < |keys| ensures TimestampToken(keys[i]) == Ok(toks[i]) {
      TokenOfKey(dir, keys[i], toks[i]);
    }
    TokensOfEach(keys, toks);
  }

  lemma TokenOfKey(dir: string, key: string, tok: string)
    requires key == dir + "/" + UrlFileName(tok)
    requires '/' !in tok && '_' !in tok && tok != [] && tok[|tok| - 1] !in TxtChars
    ensures TimestampToken(key) == Ok(tok)
  {
    TimestampTokenOf(dir, tok);
  }

  /** Keys whose tokens are `toks`, one by one, have tokens `toks`. */
  lemma TokensOfEach(keys: seq<string>, toks: seq<string>)
    requires |keys| == |toks|
    requires forall i :: 0 <= i < |keys| ==> TimestampToken(keys[i]) == Ok(toks[i])
    ensures Tokens(keys) == Ok(toks)
  {
    var r := Tokens(keys);
    assert r.Ok?;
    assert |r.value| == |toks|;
    forall i | 0 <= i < |keys| ensures r.value[i] == toks[i] {
      assert TimestampToken(keys[i]) == Ok(r.value[i]);
    }
    assert r.value == toks;
  }

  /** `*_get_last_item_url_filepath`: the latest file path of each category,
      in order; the first failing category's error otherwise. */
  function LastItemUrlFilepaths(backend: Backend, bucket: Bucket, site: string, categories: seq<string>)
    : (r: Result<seq<string>>)
    ensures r.Ok? <==> forall i :: 0 <= i < |categories| ==> LatestFilepath(backend, bucket, site, categories[i]).Ok?
    ensures r.Ok? ==> (|r.value| == |categories| &&
      forall i :: 0 <= i < |categories| ==> LatestFilepath(backend, bucket, site, categories[i]) == Ok(r.value[i]))
    ensures r.Err? ==> exists i :: (0 <= i < |categories| &&
                                    LatestFilepath(backend, bucket, site, categories[i]) == Err(r.error) &&
                                    forall j :: 0 <= j < i ==> LatestFilepath(backend, bucket, site, categories[j]).Ok?)
  {
    MapResults(categories, c => LatestFilepath(backend, bucket, site, c))
  }

  // ---------------------------------------------------------------- merging

  /** The error a download of a missing object raises. */
  function MissingError(backend: Backend): Error {
    match backend
    case Gcs => AttributeError
    case S3 => NoSuchKey
  }

  /** Downloading an object's text (the first object of that key). */
  function GetText(backend: Backend, bucket: Bucket, key: string): (r: Result<string>)
    ensures r.Ok? <==> HasKey(bucket, key)
    ensures r.Err? ==> r.error == MissingError(backend)
    ensures r.Ok? ==> exists i :: 0 <= i < |bucket| && bucket[i].key == key && bucket[i].text == r.value
    decreases |bucket|
  {
    if bucket == [] then Err(MissingError(backend))
    else if bucket[0].key == key then Ok(bucket[0].text)
    else
      var r := GetText(backend, bucket[1..], key);
      assert HasKey(bucket, key) <==> HasKey(bucket[1..], key) by {
        if HasKey(bucket, key) {
          var i :| 0 <= i < |bucket| && bucket[i].key == key;
          assert bucket[1..][i - 1].key == key;
        }
        if HasKey(bucket[1..], key) {
          var i :| 0 <= i < |bucket[1..]| && bucket[1..][i].key == key;
          assert bucket[i + 1].key == key;
        }
      }
      if r.Ok? then
        assert exists i :: 0 <= i < |bucket| && bucket[i].key == key && bucket[i].text == r.value by {
          var i :| 0 <= i < |bucket[1..]| && bucket[1..][i].key == key && bucket[1..][i].text == r.value;
          assert bucket[i + 1] == bucket[1..][i];
        }
        r
      else r
  }

  /** The texts of the given paths, or the error of the first missing one. */
  function FileTexts(backend: Backend, bucket: Bucket, paths: seq<string>): (r: Result<seq<string>>)
    ensures r.Ok? <==> forall i :: 0 <= i < |paths| ==> HasKey(bucket, paths[i])
    ensures r.Err? ==> r.error == MissingError(backend)
    ensures r.Ok? ==> (|r.value| == |paths| &&
      forall i :: 0 <= i < |paths| ==> GetText(backend, bucket, paths[i]) == Ok(r.value[i]))
    decreases |paths|
  {
    if paths == [] then Ok([])
    else
      var init := FileTexts(backend, bucket, paths[..|paths| - 1]);
      var last := GetText(backend, bucket, paths[|paths| - 1]);
      if init.Err? then Err(init.error)
      else if last.Err? then Err(last.error)
      else Ok(init.value + [last.value])
  }

  /** The union of the "\n"-separated entries of the texts. */
  function MergeTexts(texts: seq<string>): set<string>
    decreases |texts|
  {
    if texts == [] then {}
    else MergeTexts(texts[..|texts| - 1]) + Elems(Split(texts[|texts| - 1], '\n'))
  }

  /** An entry is merged exactly when it is a line of one of the texts. */
  lemma {:induction false} MergeTextsMembers(texts: seq<string>)
    ensures forall u :: u in MergeTexts(texts) <==>
      exists i :: 0 <= i < |texts| && u in Split(texts[i], '\n')
    decreases |texts|
  {
    if texts != [] {
      var init := texts[..|texts| - 1];
      MergeTextsMembers(init);
      forall u | u in MergeTexts(texts) ensures exists i :: 0 <= i < |texts| && u in Split(texts[i], '\n') {
        if u in MergeTexts(init) {
          var i :| 0 <= i < |init| && u in Split(init[i], '\n');
          assert texts[i] == init[i];
        }
      }
      forall u, i | 0 <= i < |texts| && u in Split(texts[i], '\n') ensures u in MergeTexts(texts) {
        if i < |texts| - 1 {
          assert init[i] == texts[i];
        }
      }
    }
  }

  /** `*_get_item_urls_from_filepaths`: download each path in turn, add its
      "\n"-separated entries to a set, and return the set as a list. */
  method ItemUrlsFromFilepaths(backend: Backend, bucket: Bucket, paths: seq<string>)
    returns (r: Result<seq<string>>)
    ensures FileTexts(backend, bucket, paths).Err? ==> r == Err(MissingError(backend))
    ensures FileTexts(backend, bucket, paths).Ok? ==>
      r.Ok? && IsEnumeration(r.value, MergeTexts(FileTexts(backend, bucket, paths).value))
  {
    var merged: set<string> := {};
    var i := 0;
    while i < |paths|
      invariant 0 <= i <= |paths|
      invariant FileTexts(backend, bucket, paths[..i]).Ok?
      invariant merged == MergeTexts(FileTexts(backend, bucket, paths[..i]).value)
    {
      var text := GetText(backend, bucket, paths[i]);
      FileTextsStep(backend, bucket, paths, i);
      if text.Err? {
        return Err(MissingError(backend));
      }
      merged := merged + Elems(Split(text.value, '\n'));
      i := i + 1;
    }
    assert paths[..i] == paths;
    var order := Enumerate(merged);
    r := Ok(order);
  }

  /** One more download: a missing file makes the whole list fail, a
      present one adds its entries to the merge. */
  lemma FileTextsStep(backend: Backend, bucket: Bucket, paths: seq<string>, i: int)
    requires 0 <= i < |paths| && FileTexts(backend, bucket, paths[..i]).Ok?
    ensures GetText(backend, bucket, paths[i]).Err? ==> FileTexts(backend, bucket, paths).Err?
    ensures GetText(backend, bucket, paths[i]).Ok? ==>
      FileTexts(backend, bucket, paths[..i + 1]).Ok? &&
      MergeTexts(FileTexts(backend, bucket, paths[..i + 1]).value)
        == MergeTexts(FileTexts(backend, bucket, paths[..i]).value) + Elems(Split(GetText(backend, bucket, paths[i]).value, '\n'))
  {
    assert paths[..i + 1][..i] == paths[..i];
    var texts := FileTexts(backend, bucket, paths[..i + 1]);
    if texts.Ok? {
      assert texts.value[..i] == FileTexts(backend, bucket, paths[..i]).value;
    }
  }

  /** Merging files written by the scraper (each a "\n"-join of entries
      without line breaks) gives the union of their entries; an empty file
      contributes the empty entry "". */
  lemma {:induction false} MergeOfJoinedFiles(batches: seq<seq<string>>)
    requires forall i, j :: 0 <= i < |batches| && 0 <= j < |batches[i]| ==> '\n' !in batches[i][j]
    ensures var texts := seq(|batches|, i requires 0 <= i < |batches| => Join(batches[i], "\n"));
      forall u :: u in MergeTexts(texts) <==>
        exists i :: 0 <= i < |batches| && (u in batches[i] || (batches[i] == [] && u == ""))
    decreases |batches|
  {
    var texts := seq(|batches|, i requires 0 <= i < |batches| => Join(batches[i], "\n"));
    MergeTextsMembers(texts);
    forall i | 0 <= i < |batches|
      ensures forall u :: u in Split(texts[i], '\n') <==> (u in batches[i] || (batches[i] == [] && u == ""))
    {
      if batches[i] != [] {
        SplitJoin(batches[i], '\n');
      }
    }
  }
}
