# A model of the item-URL harvester of serverless-aws-lambda-scraper

The scraper collects item URLs from a second-hand fashion marketplace (vinted.cz).
For each requested category (`zeny`, `muzi`) it opens the category's start page.
On every listing page it takes the item links from the grid and appends them to a
local text file, one file per category and run. It then clicks "next" until the
last page or the page cap is reached. When the browser work is over, each category
file is deduplicated. A second family of helpers works against an object store,
Google Cloud Storage or Amazon S3:
- finding the newest URL file of a category;
- listing the categories that have URL files;
- merging several URL files into one set;
- deciding which items were already scraped, which needs both an entry in the
  item ledger and a stored image.

The Dafny project models that core:

- `results.dfy` (`Results`): `Lookup` (a value or nothing), the Python errors the
  core can raise, and `Result`.
- `pystr.dfy` (`PyStr`): the Python string behaviour the core relies on. This
  covers `split` on one character, `join`, `strip`, `rstrip` of a character set,
  `replace` (including an empty pattern), `posixpath.join`, universal-newline
  reading with `readlines`, and code-point order for `sorted`.
- `sets.dfy` (`Sets`): the iteration order of a Python `set`, modelled as an
  enumeration that lists every member once. Operations that write a set out
  return the order they used.
- `scraping.dfy` (`Scraping`): a rendered page is a value. It maps each CSS
  selector to the elements it matches, and records the selectors whose lookup
  raises. The module covers the link-extraction heuristic, the "next" button,
  the presence checks, the country picker and the text scrapers.
- `url_files.dfy` (`UrlFiles`): the local URL files as a `FileStore` class whose
  `files` map is updated in place. A file is its whole text, so the effect of
  appending without a trailing newline is kept.
- `item_urls.dfy` (`ItemUrls`, `ScrapedFilter`):
  - URL-to-path, id and image-path derivation;
  - the category start URLs;
  - the already-scraped filter.
- `remote.dfy` (`Remote`): the GCS and S3 twins, written once over a bucket given
  as its listing. A `Backend` parameter marks where the two clients differ.
- `pipeline.dfy` (`Pipeline`):
  - the argument checks of `main`;
  - the pagination walk of `scrape_item_urls`, as a method over a `FileStore`;
  - the scrape of every category;
  - the deduplication that follows it.

The browser is a parameter. For each start URL it gives the pages that clicking
"next" leads through, or `Absent` when navigation raises. Pages past the given
ones are blank: no links and no "next" control.

One might expect a walk over a page of 3 items with a "next" control, then a
page of 2 items, to give 5 lines. The code writes each page as
`"\n".join(urls)` with no final newline, so the last URL of page 1 and the first
URL of page 2 share a line and the file reads back as 4 lines.
`Pipeline.TwoPageWalkReadsBackFourLines` proves the 4.

The GCS and S3 helpers look interchangeable but differ:
- S3's existence check is a prefix match, while GCS checks the exact name.
- An empty S3 listing raises `KeyError`, while an empty GCS listing is an empty list.
- S3 returns at most 1000 keys per listing.

## Model

| member | source | states |
|---|---|---|
| Scraping.OddIndexed | src/scraping.py:83 | the slice `links[1::2]` has `len/2` entries, entry k being link 2k+1 |
| Scraping.PairedItemLinks | src/scraping.py:80-83 | an odd link count gives the empty set; an even one gives exactly the hrefs at odd 0-based indices; never more than half the count |
| Scraping.ItemLinks | src/scraping.py:71-79 | links are read only when the wait finds at least one anchor; then entry i is the `href` of anchor i, one per anchor found |
| Scraping.GetItemUrlsFromPage | src/scraping.py:67-87 | a failed wait or lookup yields the empty set; otherwise the paired-link set of the anchors found |
| Scraping.WaitForPresence | src/scraping.py:71-73 | the wait succeeds iff the lookup succeeds with at least one element |
| Scraping.WaitClickable | src/scraping.py:94-95 | found iff the first match exists and is clickable, and then it is that element |
| Scraping.GetNextPageButton | src/scraping.py:90-99 | the pagination control when present and clickable, nothing otherwise; never an error |
| Scraping.RejectCookiesTarget | src/scraping.py:109-117 | the reject-cookies button is clicked iff it is present and clickable; failures are swallowed |
| Scraping.ElementsPresent | src/scraping.py:104-106 | true iff the lookup returns a non-empty list; a failing lookup is an error, as the check is not wrapped |
| Scraping.CookiesButtonPresent | src/scraping.py:102-106 | the presence check on the reject-cookies selector |
| Scraping.CountryButtonPresent | src/scraping.py:120-126 | the presence check on the country-cell selector |
| Scraping.ClickToCountryButton | src/scraping.py:129-141 | clicks the first cell, in list order, whose text equals the country, at most once; nothing is clicked when no cell matches or the lookup fails |
| Scraping.FirstElement | src/scraping.py:148-149 | the first match once the wait succeeds |
| Scraping.ScrapeElement | src/scraping.py:144-153 | the first match's text, or "" on any failure |
| Scraping.ScrapeElements | src/scraping.py:156-165 | the texts of all matches in order, or [] on any failure |
| Sets.Enumerate | src/utils.py:84-86 | a set is written in some order that lists every member exactly once |
| Sets.DistinctCard | src/utils.py:87 | a list without repeats has as many distinct members as entries |
| Sets.ElemsCard | src/utils.py:84 | a set built from a list is never larger than the list |
| PyStr.Split | src/utils.py:67 | `split(sep)` gives at least one field, no field holds the separator, and a single field iff the separator is absent |
| PyStr.JoinSplit | src/utils.py:67 | joining the fields of a split with the separator gives back the string |
| PyStr.SplitJoin | src/utils.py:67 | splitting a join of separator-free fields gives back the fields |
| PyStr.SplitConcat | src/utils.py:67 | a split across a separator is the two halves' splits concatenated |
| PyStr.SplitFirst | src/utils.py:128 | the first field is a prefix of the string, followed by the separator if shorter |
| PyStr.SplitLast | src/utils.py:72 | the last field is a suffix of the string, preceded by the separator if shorter |
| PyStr.SplitDropLast | src/utils.py:67 | dropping the last field and re-joining gives the text before the last separator |
| PyStr.JoinSnoc | src/utils.py:26 | joining one more item adds the separator and the item at the end |
| PyStr.JoinGlue | src/utils.py:26 | two joins written back to back fuse the last item of the first with the first item of the second |
| PyStr.JoinNoChar | src/utils.py:26 | a character in neither the items nor the separator is absent from the join |
| PyStr.RStripChars | src/utils.py:152 | `rstrip(chars)` keeps a prefix, removes only characters of the set, and stops at the first character outside it |
| PyStr.LStripChars | src/utils.py:33 | the left strip keeps a suffix and removes only characters of the set |
| PyStr.StripIsStripped | src/utils.py:33 | a stripped line has no whitespace at either end |
| PyStr.StrippedFixed | src/utils.py:33 | stripping an already stripped line changes nothing |
| PyStr.StripNewline | src/utils.py:33 | the newline kept by `readlines` disappears under `strip` |
| PyStr.StripKeepsOut | src/utils.py:33 | stripping introduces no character |
| PyStr.ReplaceAbsent | src/utils.py:67 | `replace` of a pattern that does not occur leaves the string unchanged |
| PyStr.ReplaceFront | src/utils.py:67 | `replace` of a pattern at the front puts the replacement there and continues after it |
| PyStr.ReplaceAtEnd | src/utils.py:74 | a single trailing occurrence is the only one replaced |
| PyStr.NoOccurByChar | src/utils.py:67 | a pattern cannot occur in a string lacking one of its characters |
| PyStr.PathJoinPlain | src/scrape_item_urls.py:35 | `os.path.join` of slash-free parts is the parts joined by "/" |
| PyStr.TranslateNewlines | src/utils.py:32 | universal-newline mode leaves no "\r" and changes nothing in text without one |
| PyStr.ReadLines | src/utils.py:33 | `readlines` of empty text is empty and of non-empty text non-empty |
| PyStr.ReadLinesLine | src/utils.py:33 | a line ending in "\n" is read as one entry, newline included |
| PyStr.ReadLinesSingle | src/utils.py:33 | text without a newline is one line |
| PyStr.ReadLinesShape | src/utils.py:33 | every line read is non-empty and has a newline only as its last character |
| PyStr.ReadLinesNoChar | src/utils.py:33 | reading lines introduces no character |
| PyStr.LexLeTotal | src/utils.py:152 | code-point order is total |
| PyStr.LexLeTrans | src/utils.py:152 | code-point order is transitive |
| PyStr.LexLeAntisym | src/utils.py:152 | code-point order is antisymmetric |
| UrlFiles.ReadUrlsClean | src/utils.py:29-33 | every URL read back is stripped and holds no line break |
| UrlFiles.ReadLinesJoin | src/utils.py:26 | lines joined by "\n" are read back one per entry, each with its newline except the last |
| UrlFiles.ReadUrlsJoin | src/utils.py:26-33 | a file written as a join of clean lines reads back as those lines, less a trailing empty one |
| UrlFiles.UrlLinesElems | src/utils.py:84-86 | dropping a trailing empty line keeps the lines distinct and the non-blank members equal |
| UrlFiles.DedupSpec | src/utils.py:82-87 | the rewritten file has no repeated line, shows only lines the old file had, and keeps every non-blank line of it |
| UrlFiles.DedupTwice | src/utils.py:82-87 | after one deduplication a second one finds nothing to remove and leaves the same non-blank lines |
| UrlFiles.AppendTwiceGlues | src/utils.py:23-26 | two appends read back as the first batch, then the first batch's last URL fused with the second batch's first URL, then the rest: one line fewer than the URLs written |
| UrlFiles.AfterAppendsSnoc | src/utils.py:23-26 | one more append extends the file by exactly that batch joined by "\n" |
| UrlFiles.AfterAppendsEffect | src/utils.py:23-26 | appends only grow the appended file at its end, create it if missing, and change no other file |
| UrlFiles.BatchesGlued | src/utils.py:23-26 | any number of appends equals one join of the glued lines; with k batches the file holds k-1 fewer lines than URLs written |
| UrlFiles.BatchesReadBack | src/utils.py:23-33 | reading back a file built by appends of non-empty batches gives exactly the glued lines, their count being the URL count less the batches less one |
| UrlFiles.NonEmptyBatchesSame | src/utils.py:21-24 | an empty batch appends nothing: dropping the empty batches keeps the file text and the URL count |
| UrlFiles.BatchesReadBackAny | src/utils.py:23-33 | any run of appends, empty batches included, reads back as the glued lines of the non-empty batches, one line fewer per extra non-empty batch |
| UrlFiles.FileStore.constructor | src/utils.py:23 | a store starts with the given files |
| UrlFiles.FileStore.AppendUrlsToFile | src/utils.py:23-26 | the file gains `"\n".join(batch)` at its end, created if missing; nothing else changes |
| UrlFiles.FileStore.ReadUrlsFromFile | src/utils.py:29-33 | the file's stripped lines, or FileNotFoundError when there is no file |
| UrlFiles.FileStore.RemoveDuplicateUrlsFromFile | src/utils.py:82-87 | FileNotFoundError and no change when missing; otherwise the file becomes an enumeration of its distinct lines, with before/after counts; no line repeats and no non-blank line is lost; an empty file stays empty with counts 0 and 0 |
| ItemUrls.ParseCategory | src/scrape_item_urls.py:70-72 | a category is accepted iff it is one of the choices, and names itself |
| ItemUrls.StartingUrl | src/utils.py:77-79 | the start page is the home URL followed by `<category>/obleceni` |
| ItemUrls.ConstructStartingUrls | src/utils.py:77-79 | one start URL per category, in category order |
| ItemUrls.DropLastField | src/utils.py:67 | dropping the last "/" field leaves the text before the last "/", or "" when there is none |
| ItemUrls.ItemUrlToPath | src/utils.py:60-67 | every occurrence of the home URL is removed, then the text up to the last "/" is kept |
| ItemUrls.ItemUrlToPathOf | src/utils.py:60-67 | a URL made of the home URL, a path and a slug maps to the path |
| ItemUrls.ItemUrlToPathUnderHome | src/utils.py:60-67 | the same for the marketplace's own home URL |
| ItemUrls.ItemUrlToPathExample | src/utils.py:63-65 | the docstring example URL (home page, `zeny/obleceni/saty/mini-saty`, slug) maps to `zeny/obleceni/saty/mini-saty` |
| ItemUrls.LastSegment | src/utils.py:72 | the last "/" segment is a slash-free suffix, preceded by "/" when shorter than the URL |
| ItemUrls.ItemId | src/utils.py:72 | the id is the part of the last segment before its first "-" |
| ItemUrls.ItemIdOf | src/utils.py:72 | an item URL ending in `/<id>-<name>` has id `<id>` |
| ItemUrls.NumberPng | src/utils.py:74 | with a single ".png" at the end, numbering turns it into "_0.png" |
| ItemUrls.PngPlain | src/utils.py:73 | the image file name is a plain path segment |
| ItemUrls.ItemUrlParts | src/utils.py:72-73 | an item URL yields its category path and its id |
| ItemUrls.ItemUrlToImgPath | src/utils.py:70-74 | the unnumbered path always ends in `<id>.png`; the full layout of both forms is given by `ItemUrls.ImgPathOfParts` and `ItemUrls.ItemUrlToImgPathLayout` |
| ItemUrls.ImgPathOfParts | src/utils.py:70-74 | the image path is `prefix/<path>/<id>.png`, or `_0.png` when numbered |
| ItemUrls.ItemUrlToImgPathLayout | src/utils.py:70-74 | for an item URL built from path, id and name, both image-path forms in full |
| ItemUrls.StartingUrlPath | src/utils.py:60-79 | an item under a start page maps back to `<category>/obleceni` |
| ScrapedFilter.FilterAlreadyScrapedItemUrls | src/utils.py:90-101 | the loop keeps exactly the URLs the filter specification keeps |
| ScrapedFilter.UnscrapedMembers | src/utils.py:95-101 | a URL is kept iff it is in the input and its image is missing or its id is not in the ledger |
| Remote.FilterWithGcsImages | src/utils.py:90-101 | with the GCS image check the filter keeps a URL iff its first image is not stored or its id is not in the ledger |
| ScrapedFilter.UnscrapedSubsequence | src/utils.py:95-101 | the kept URLs are the input at strictly increasing positions, so order is preserved |
| ScrapedFilter.FilterTruthTable | src/utils.py:99 | a URL is dropped only when both its image exists and its id is in the ledger |
| Remote.KeysWithPrefixMembers | src/utils.py:140 | a listing by prefix holds exactly the stored keys with that prefix |
| Remote.ListKeys | src/utils.py:140 | GCS lists all matches; S3 raises KeyError on none and returns at most 1000; same code at line 224 for the other client |
| Remote.ListKeysMembers | src/utils.py:140 | every listed key is a stored key with the prefix; GCS lists them all; same code at line 224 for the other client |
| Remote.ExistenceChecksDiffer | src/utils.py:180-184 | a GCS hit is an S3 hit, but S3 also finds a name that is only a prefix of a key; same code at lines 262-266 for the other client |
| Remote.CategoriesFromItemUrlFiles | src/utils.py:123-129 | an error only for S3 with no URL files; otherwise the set of categories of the listed keys, never more than there are keys; same code at lines 207-213 for the other client |
| Remote.CategoriesFromStoredKeys | src/utils.py:123-129 | every reported category is that of a stored key under the site prefix; with GCS the categories are exactly those of all such keys |
| Remote.CategoriesOf | src/utils.py:127-128 | the category set has no more members than there are keys; same code at lines 211-212 for the other client |
| Remote.CategoriesOfMembers | src/utils.py:127-128 | a category is reported iff it is the first field of some key with the prefix removed; same code at lines 211-212 for the other client |
| Remote.CategoriesOfLayout | src/utils.py:123-129 | keys laid out as `prefix<category>/<file>` report exactly their categories |
| Remote.CategoryOfKeyOf | src/utils.py:127-128 | one such key reports its category |
| Remote.AllItemUrlFilepaths | src/utils.py:132-142 | an error (KeyError) iff S3 finds no key for some category; otherwise the categories' listings concatenated in category order, holding only stored keys under a category prefix; same code at lines 216-226 for the other client |
| Remote.ConcatAll | src/utils.py:138-141 | repeated `extend`: a key is in the result iff it is in one of the listings |
| Remote.GcsAllFilepaths | src/utils.py:132-142 | with GCS the call never fails and returns exactly the stored keys under some category's prefix |
| Remote.GcsFilepathsOfCategory | src/utils.py:132-142 | with GCS one category lists exactly its keys |
| Remote.TimestampToken | src/utils.py:152 | the third "_" field of the basename with trailing '.', 't', 'x' removed; IndexError when there are fewer than three fields; same code at line 236 for the other client |
| Remote.SplitFieldsFrom | src/utils.py:152 | a character absent from the string is absent from its fields |
| Remote.RStripTxt | src/utils.py:152 | stripping the ".txt" characters from `<token>.txt` restores a token that ends in none of them |
| Remote.LastSegmentOf | src/utils.py:152 | the basename of `dir/name` is `name` |
| Remote.UrlFileNameFields | src/utils.py:153 | `item_urls_<token>.txt` splits into `item`, `urls`, `<token>.txt` |
| Remote.TimestampTokenOf | src/utils.py:152-153 | the token of a file written as `dir/item_urls_<token>.txt` is the token |
| Remote.Tokens | src/utils.py:152 | tokens of all keys, or IndexError if one key has too few fields |
| Remote.MaxToken | src/utils.py:152 | the last of the sorted tokens is a token that no other token exceeds in code-point order |
| Remote.OneCategoryFilepaths | src/utils.py:151 | listing one category is listing its prefix; same code at line 235 for the other client |
| Remote.PathJoinIntoDir | src/utils.py:153 | joining a name onto a directory ending in "/" appends the name |
| Remote.LatestFilepath | src/utils.py:145-155 | a result exists iff the listing succeeds, is non-empty and every key has a token; it is `prefix/item_urls_<t>.txt` with `t` the greatest token of the listing (by `MaxToken`); an empty listing is IndexError (GCS) or KeyError (S3), and every error is one of those; same code at lines 229-239 for the other client |
| Remote.LatestIsListed | src/utils.py:145-155 | with files laid out by token (for S3, at most one listing page of them), either backend picks the stored file of the greatest token |
| Remote.TokensOfLayout | src/utils.py:152 | files named by tokens yield exactly those tokens |
| Results.MapResults | src/utils.py:148-154 | a loop over the inputs that stops at the first exception: it succeeds iff every step does, and then holds each step's value in input order; an error is that of the first failing step |
| Remote.LastItemUrlFilepaths | src/utils.py:145-155 | one latest file per category in order; an error is the error of the first failing category, all earlier ones succeeding; same code at lines 229-239 for the other client |
| Remote.GetText | src/utils.py:165-166 | a stored key's text; a missing one raises the client's error; same code at lines 247-248 for the other client |
| Remote.FileTexts | src/utils.py:164-166 | the texts of all paths in order, or the missing-object error; same code at lines 246-248 for the other client |
| Remote.MergeTextsMembers | src/utils.py:163-169 | a line is in the merge iff it is a "\n" field of some file; same code at lines 245-251 for the other client |
| Remote.ItemUrlsFromFilepaths | src/utils.py:158-169 | the loop's union equals the merge of all texts, listed once each, or the error of a missing file; same code at lines 242-251 for the other client |
| Remote.MergeOfJoinedFiles | src/utils.py:163-169 | files written by joins merge to their URLs, plus "" for an empty file |
| Pipeline.PageCap | src/scrape_item_urls.py:29 | the cap is `max_pages`, or 1000 when it is missing or 0 |
| Pipeline.CheckedArgs | src/scrape_item_urls.py:127-129 | `--debug` sets the cap to 3; an output file not ending in ".txt" is an AssertionError; nothing else changes |
| Pipeline.OutputPathLayout | src/scrape_item_urls.py:35 | the category file is `<dir>/item_urls/vinted/<category>/<file>` |
| Pipeline.CategoryPathsDiffer | src/scrape_item_urls.py:35 | under that layout the two categories get different files |
| Pipeline.AbsoluteOutputFileShared | src/scrape_item_urls.py:35 | an absolute output file name makes every category share that file |
| Pipeline.ScrapedFromBound | src/scrape_item_urls.py:41-42 | a walk scrapes at least one and at most `cap` pages, none when the cap is below 1 |
| Pipeline.WalkHitsCap | src/scrape_item_urls.py:41-42 | with a "next" control on every page the walk scrapes `cap` pages and ends at page `cap + 1`; also lines 58-59 |
| Pipeline.WalkStopsAt | src/scrape_item_urls.py:52-57 | the first page without "next" ends the walk there, and the page number equals the pages scraped |
| Pipeline.WalkEndsByBlankPage | src/scrape_item_urls.py:41-57 | the walk never goes past the blank page after the given ones |
| Pipeline.WalkCategory | src/scrape_item_urls.py:40-59 | ends at the final page of the specification and writes one enumeration of each scraped page's URL set, in page order, each appended to the category file |
| Pipeline.TwoPageWalkReadsBackFourLines | src/scrape_item_urls.py:41-57 | pages of 3 and 2 items, the first with "next", are both scraped and read back as 4 lines |
| Pipeline.FilesFollowStep | src/scrape_item_urls.py:32-54 | walking one category appends to its own file and to no other |
| Pipeline.ScrapeItemUrls | src/scrape_item_urls.py:27-64 | categories are walked in order from their start URLs; only the category files grow; with distinct files each gains its old text plus its batches; a failed navigation is DriverError at the first category whose start URL fails, after every earlier category was walked and appended to its file |
| Pipeline.DedupCategoryFiles | src/scrape_item_urls.py:164-168 | every category file ends without repeated lines and with the same non-blank lines; a missing file is FileNotFoundError; no other file changes |
| Pipeline.PassHomeDialogs | src/scrape_item_urls.py:150-162 | the session fails, with a driver error, exactly when the home page does not load or a presence check of the country selector or of the cookie dialog raises |
| Pipeline.RunScraper | src/scrape_item_urls.py:126-168 | a bad argument changes nothing; a failed home page leaves the files unchanged; a failed start URL aborts at the first such category, after the earlier categories were walked and written, and skips deduplication; on success every category file exists, has no repeated line and keeps the non-blank lines of its old text plus its batches |

## Left out

- Selenium setup, Chrome options and the user agent (`src/scraping.py:20-54`): environment only. The page is a value, and clicks are not modelled. The page seen after a dialog click is the same value.
- Sleeps and random delays: throttling with no effect on results.
- Image download and `scrape_image_urls` (`src/utils.py:42-49`, `src/scraping.py:168-178`): network and image codec.
- `append_json_to_jsonl_file` and the ledger readers `*_read_item_ids_from_jsonl`: JSON decoding. The ledger is a set of ids given as a parameter.
- Uploads (`gcs_upload_file`, `gcs_upload_file_from_variale`, `s3_upload_file`), and the upload, cleanup and logging steps of `main` (`src/scrape_item_urls.py:131-148, 170-205`): I/O only.
- `args.save_to_s3` is read although the parser never defines it: a defect of the upload step, which is left out.
- If driver setup raises, `driver` is unbound in the `finally` block: setup is not modelled.
- The creation of parent directories: the file store is a map from path to text, with no directories.
- `close_cookies_and_country_button` (`src/scraping.py:57-64`): it repeats the steps `Pipeline.RunScraper` models in `main`, and `main` does not call it.
- `src/handlers.py`: Lambda glue repeating `main` with fixed arguments.
- `src/config.py` is not part of this model beyond its constants: the home URL, the site name and the category choices.
- ItemUrls.StartingUrl: `urljoin` is modelled only for a base ending in "/" joined with a relative path with no scheme, leading "/" or dot segments (section 5.2.3 of RFC 3986). That is the only case the core uses.
- Scraping.GetItemUrlsFromPage: a missing `href` turns into the string "None" in the source. The model's elements always carry an href string.
- Remote.ListKeys: only the first page of an S3 listing is modelled, because the source never asks for the next page.
- Pipeline.ScrapeItemUrls: `next_page_button.click()` and the start-page `driver.get` are assumed to move to the next given page. A raising `driver.get` is modelled as `Absent`; a raising click is not modelled.
