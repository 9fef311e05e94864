# Top-anime catalog pipeline, modelled in Dafny

The modelled system builds a catalog of the top anime listed by the Jikan API, a public mirror of
MyAnimeList, in two programs that share the working directory:

- **Acquisition** (`get_anime_data.py`, with the record schema in `schema.py`):
  - It asks the API how many pages of top anime there are.
  - It requests pages 1 … `min(total + 1, 30000 // 25) - 1`, 25 records each. Every page is retried
    without bound. A 429 reply whose body decodes as JSON waits 3 s. Any other failure waits 10 s,
    including a 429 reply whose body is not JSON, because the body is decoded before the status is
    tested.
  - Records are appended in the order their pages complete. The list is saved to the snapshot
    `animes.pkl`.
  - It then means to download one image per record to `images/{mal_id}.jpg`, skipping files that
    already exist. As written, it never downloads a missing image (see Findings). The model
    follows the evidently intended call. An existing snapshot replaces the whole fetch.
- **Export** (`create_csv.py`): it loads the snapshot. A missing snapshot exits with code 2. A value
  that is not a list, or a list whose first element is not a record, exits with code 3. An empty
  list raises IndexError, because only `animes[0]` is tested. Otherwise it writes one row per record:
  - the title, lower-cased;
  - the image path, by the same `images/{mal_id}.jpg` rule;
  - the tag names, sorted and joined with `|`.

A record's tags are the union of four raw lists (`themes`, `genres`, `explicit_genres`,
`demographics`). The union is a Python set of `Genre` dataclasses.

The Dafny modules follow the source files:

| module | file | models |
|---|---|---|
| `Wrappers` | `wrappers.dfy` | `Option` and `Result` |
| `Schema` | `schema.dfy` | `schema.py`: tag and record parsing, tag-set union, image URL resolution |
| `AssetPath` | `asset_path.dfy` | the `images/{mal_id}.jpg` rule both programs use, with decimal printing of ids |
| `Retry` | `retry.dfy` | retry-until-success as a loop over a script of classified attempts |
| `FileSystem` | `file_system.dfy` | the working directory as a `Disk` object over a path map, and the snapshot's load and dump |
| `GetAnimeData` | `get_anime_data.dfy` | `get_anime_data.py`: page and image fetching, orchestration, downloads, the cache gate |
| `CreateCsv` | `create_csv.dfy` | `create_csv.py`: snapshot validation, exit codes, row projection |

### How the environment is represented

- **Raw JSON** is a datatype with `Option` fields: `None` means the key is absent.
- **The network** is two function parameters. `pageNet(p)` is the sequence of replies that
  successive requests for page `p` receive; `imageNet(url)` is the same for an image.
- **Retries** run over that script. When the script ends before an attempt succeeds, the call has
  not returned within the attempts modelled (`NotReturned`, `FetchHung`, `Hung`).
- **Completion order** is a parameter: any permutation of the requested pages.
- **The filesystem** is a `Disk` whose `files` field maps paths to raw bytes or a pickled value.
  The acquisition methods update it in place.
- **Export** is pure, and is modelled as ghost functions. `sorted` over a set of tags is defined
  through a choice of a least element; `SortedUnique` shows that the result does not depend on
  that choice.

### Behaviour of the code worth knowing

- **Tag deduplication is structural, not by id.** `Genre` overrides only `__hash__`; `__eq__` is
  the dataclass's field-wise equality. So two tags with the same id and different names are both
  kept (`SameIdDifferentNameBothKept`).
- **The image retry waits `random.randint(3, 7)` s** (`IMAGE_WAIT_MIN`, `IMAGE_WAIT_MAX`).
- **The acquisition's `main` has no exit code for a bad snapshot.** `pickle.load` either raises or
  returns whatever value was stored. Only the export exits with codes 2 and 3.
- **`image_url` is used only when the `large_image_url` key is absent.** The code is
  `jpg.get("large_image_url", jpg.get("image_url"))`, so a present but null or empty
  `large_image_url` raises `ValueError` (`GetImageUrl`).
- **The page bound stops one page short when `limit // 25` is the smaller bound.** Page
  `min(total + 1, limit // 25)` is never requested. When `total + 1` is the smaller bound, every page
  1 … `total` is requested (`RequestedPagesExamples`). When pages hold at most 25 records, the
  catalog has at most `limit - 25` records, so it stays below `limit` (`CatalogStaysBelowLimit`).

## Model

| member | source | states |
|---|---|---|
| Schema.GenreHash | schema.py:15-16 | the overridden `__hash__`, the tag's id; `EqualGenresHashEqual` states its contract |
| Schema.EqualGenresHashEqual | schema.py:15-16 | tags that compare equal hash equal: the hash is the id |
| Schema.ParseGenre | schema.py:18-24 | succeeds exactly when `mal_id`, `url` and `name` are all present, copying them into the tag; otherwise a KeyError names the first missing key, in that order |
| Schema.ParseUnparseGenre | schema.py:18-24 | parsing the raw object a tag is served as gives that tag back |
| Schema.ParseEach | schema.py:57-60 | a list parses exactly when every element parses, into a list of the same length holding each element's parse at its position; a failure carries the exception of the first element that fails |
| Schema.ParseEachErrPersists | schema.py:57-60 | once a prefix fails, the whole list fails with the same exception (the first failure decides) |
| Schema.UpdateGenres | schema.py:56-60 | the `set.update` loop returns the set plus every parsed tag, or the first parse error |
| Schema.GetImageUrl | schema.py:39-46 | no `jpg` key raises KeyError; a present `large_image_url` is selected even when null or empty (then ValueError); `image_url` is used only when `large_image_url` is absent, and when it is then missing, null or empty, ValueError is raised; an empty `jpg` map raises ValueError; a URL returned is never empty |
| Schema.FallbackExample | schema.py:40-43 | with only `image_url` present, that URL is returned |
| Schema.ParseAnime | schema.py:48-69 | four successive updates of an empty set, then the record fields, as the specification function `ParseAnimeSpec` |
| Schema.ParseGenreListConcat | schema.py:56-60 | parsing a concatenation succeeds exactly when both parts do, and yields both results in order |
| Schema.ParsedTagsAreParsedEntries | schema.py:56-60 | a tag is in the parsed set exactly when some raw entry parses to it |
| Schema.BuildAnimeOkIndependent | schema.py:62-69 | whether the record's scalar keys are present does not depend on the tag set, which is stored unchanged |
| Schema.BuildAnime | schema.py:62-69 | the record is built exactly when `mal_id`, `url`, a non-empty `titles` whose first entry has `title`, and `images` are present; each missing key raises KeyError naming it, in the order `mal_id`, `url`, `titles`, `title`, `images`; an empty `titles` raises IndexError, after `url` and before `title`; the tag set is stored unchanged and `source` defaults to "" |
| Schema.ParseAnimeGenresAreUnion | schema.py:56-69 | a record parses exactly when every entry of the four lists parses and the scalar keys are present; its tag set is then the set of all parsed entries of the four lists |
| Schema.ParseAnimeGenresBounded | schema.py:56-60 | the tag set has at most as many tags as the four lists have entries |
| Schema.ParseAnimeIgnoresRepetition | schema.py:56-69 | raw records that agree on their scalar keys and hold the same tag entries, in any order and with any repetition, parse to the same record |
| Schema.SameIdDifferentNameBothKept | schema.py:9-16 | two tags with id 7 and different names both stay in the set, though both hash to 7 |
| Schema.ParseAnimeFields | schema.py:62-69 | id, URL, first title and images come from the raw object unchanged; `source` defaults to the empty string |
| AssetPath.IntToDecimal | get_anime_data.py:91 | `str` of an int; `IntToDecimalSign` and `IntToDecimalInjective` state its properties |
| AssetPath.ImagePath | create_csv.py:27 | `f"images/{mal_id}.jpg"`, the rule get_anime_data.py:91 also uses; `ImagePathInImageDir` and `ImagePathInjective` state its properties |
| AssetPath.NatToDecimal | get_anime_data.py:91 | the printed id is non-empty and made of decimal digits |
| AssetPath.DecimalRoundTrip | get_anime_data.py:91 | reading the printed digits back gives the id |
| AssetPath.NatToDecimalInjective | get_anime_data.py:91 | distinct natural ids print differently |
| AssetPath.IntToDecimalSign | get_anime_data.py:91 | a printed id starts with `-` exactly when it is negative, followed by the digits of its magnitude |
| AssetPath.IntToDecimalInjective | get_anime_data.py:91 | distinct ids print differently |
| AssetPath.ImagePathInImageDir | get_anime_data.py:91 | every image path starts with `images/` and is longer than `images/` plus `.jpg` |
| AssetPath.ImagePathInjective | get_anime_data.py:91 | distinct records never share an image file |
| AssetPath.ImagePathExample | create_csv.py:27 | id 5114 maps to `images/5114.jpg` and id -3 to `images/-3.jpg` |
| Retry.RetryConverges | get_anime_data.py:41-47 | failing n times and then succeeding returns exactly the successful attempt's value, after one wait per failure, and makes no further attempt |
| Retry.RetrySucceedsIff | get_anime_data.py:41-47 | a retried call returns exactly when some attempt succeeds, with the value of the first success; it waits at most once per attempt |
| Retry.RunRetry | get_anime_data.py:41-47 | the retry loop returns what `RetryOutcome` defines: the first success and the waits before it |
| FileSystem.Unpickle | get_anime_data.py:118-119 | loading succeeds exactly when the file holds a pickle |
| FileSystem.AsCatalog | create_csv.py:13 | the model's notion of a catalog, the `list[Anime]` that `main` expects: a loaded value is one exactly when it is a list whose every element is a record, and the catalog holds those records in order |
| FileSystem.PickleRoundTrip | get_anime_data.py:125-126 | a dumped catalog loads back as the same catalog |
| FileSystem.Disk.Exists | get_anime_data.py:93 | true exactly when the path is present |
| FileSystem.Disk.Read | get_anime_data.py:118-119 | returns the file's contents |
| FileSystem.Disk.Write | get_anime_data.py:100-101 | afterwards the path holds exactly the data written, and no other file changes |
| GetAnimeData.ParseAnimeList | get_anime_data.py:40 | the page's record list parses exactly when every record does, into the records in order |
| GetAnimeData.ClassifyPageReply | get_anime_data.py:35-47 | a 429 reply whose body decodes as JSON waits 3 s, and only such a reply does; every other failure waits 10 s, a 429 reply whose body is not JSON included; an attempt succeeds exactly when the status is not 429, `data` is present and every record parses, returning those records |
| GetAnimeData.FetchTopAnimePage | get_anime_data.py:28-47 | the page request retried until it parses, as `PageOutcome` defines |
| GetAnimeData.PageResultIsSomeReply | get_anime_data.py:40-47 | a page returns only the full parse of one non-429 reply, never a partial or empty fallback |
| GetAnimeData.RateLimitThenErrorThenServed | get_anime_data.py:37-47 | a 429 reply, then a connection failure, then a good reply gives that reply's records after a 3 s and a 10 s wait |
| GetAnimeData.Range | get_anime_data.py:63-69 | `range(lo, hi)`: exactly the integers in `[lo, hi)`, ascending, `max(0, hi - lo)` of them |
| GetAnimeData.PageRangeEnd | get_anime_data.py:65-68 | the range end is the smaller of `total_pages + 1` and `limit // 25` |
| GetAnimeData.RequestedPages | get_anime_data.py:63-69 | exactly the pages from 1 up to, but excluding, the range end, so the range end itself is never requested; `max(0, end - 1)` pages |
| GetAnimeData.RequestedPagesExamples | get_anime_data.py:63-69 | 10 pages with target 100 request pages 1–3; 3 pages with target 1000 request pages 1–3; a target below 50 requests nothing |
| GetAnimeData.PagesConcat | get_anime_data.py:60-72 | the records of two page lists, and their counts, add up |
| GetAnimeData.PagesPermutation | get_anime_data.py:60-72 | the records collected, and their count, do not depend on the order in which pages complete |
| GetAnimeData.Accumulate | get_anime_data.py:60-73 | draining pages in completion order either returns a catalog or hangs; `AccumulateContents` states what the catalog holds |
| GetAnimeData.AccumulateContents | get_anime_data.py:60-76 | the drained list is complete exactly when every page returns; it then holds every page's records (as a multiset sum) and its length is the sum of the page lengths; otherwise the fetch hangs |
| GetAnimeData.FetchedCatalogIsAllPages | get_anime_data.py:50-76 | a returned catalog holds exactly the requested pages' records, in whatever completion order, with no dedup across records and no truncation, and only once every page has returned; a hung fetch has a requested page that never returns |
| GetAnimeData.FetchTopAnime | get_anime_data.py:50-76 | the metadata request, then draining pages in completion order, as `FetchSpec` defines |
| GetAnimeData.CatalogStaysBelowLimit | get_anime_data.py:63-76 | when no page holds more than 25 records, a returned catalog has at most `max(0, limit - 25)` records |
| GetAnimeData.ClassifyImageReply | get_anime_data.py:79-87 | any body is accepted with no status check; only an exception retries, after `randint(3, 7)` s |
| GetAnimeData.GetImage | get_anime_data.py:79-87 | the image request retried until a body arrives, as `ImageFetch` defines |
| GetAnimeData.DownloadStep | get_anime_data.py:90-105 | an existing file is skipped with nothing fetched; the file is written exactly when it was absent, the URL resolves and the bytes arrive, and then holds those bytes; otherwise no file changes |
| GetAnimeData.DownloadAnimeImage | get_anime_data.py:90-105 | the download updates the disk and returns as `DownloadStep` defines |
| GetAnimeData.DownloadStepIdempotent | get_anime_data.py:90-94 | after a download returns, the record's file exists and a second download skips it |
| GetAnimeData.DownloadStepFrame | get_anime_data.py:90-105 | one download adds at most its own image file, only if absent, and keeps every existing file |
| GetAnimeData.DownloadAllPreserves | get_anime_data.py:108-109 | files present before the batch are unchanged by it |
| GetAnimeData.DownloadAllCreatesOnlyImages | get_anime_data.py:108-109 | every file the batch creates is the image path of one of its records |
| GetAnimeData.DownloadAllCovers | get_anime_data.py:108-109 | a batch that returns leaves every record's image on disk |
| GetAnimeData.DownloadAllPresent | get_anime_data.py:108-109 | when every record's image is present, the batch fetches nothing and changes nothing |
| GetAnimeData.DownloadAllIdempotent | get_anime_data.py:108-109 | a second batch after one that returned changes nothing and returns, whatever the network does |
| GetAnimeData.DownloadAnimeImages | get_anime_data.py:108-109 | the batch loop updates the disk and returns as `DownloadAll` defines |
| GetAnimeData.AsWrittenNeverDownloads | get_anime_data.py:96-105 | as written, a missing image is never downloaded, however many retries |
| GetAnimeData.DownloadAsWritten | get_anime_data.py:90-105 | the handler as written, where the attribute read on line 99 always raises; its properties are `AsWrittenFrame`, `AsWrittenHangsIffMissing` and `AsWrittenNeverDownloads` |
| GetAnimeData.AsWrittenFrame | get_anime_data.py:96-105 | as written, one record's handler leaves every file as it was |
| GetAnimeData.AsWrittenHangsIffMissing | get_anime_data.py:90-105 | as written, one record's handler returns exactly when its image is already present |
| GetAnimeData.DownloadAllAsWritten | get_anime_data.py:108-109 | the batch over the handler as written; `AsWrittenBatchNeverCompletes` states its behaviour |
| GetAnimeData.AsWrittenBatchFrame | get_anime_data.py:108-109 | as written, the batch writes no file |
| GetAnimeData.AsWrittenBatchNeverCompletes | get_anime_data.py:96-109 | as written, the batch writes no file and returns exactly when every record's image was already present, so `main` never completes once an image is missing |
| GetAnimeData.IntendedCallDownloads | get_anime_data.py:96-105 | with the intended URL call, a missing image whose request is answered is written with the bytes received |
| GetAnimeData.Run | get_anime_data.py:112-131 | `main` updates the disk and returns as `RunSpec` defines: snapshot first, fetch and persist only on a miss, then downloads |
| GetAnimeData.CacheHitNeverFetches | get_anime_data.py:116-119 | with a snapshot present, the metadata, page replies and completion order do not affect the run, and the catalog is not from the API |
| GetAnimeData.CacheMissPersistsBeforeDownloads | get_anime_data.py:120-131 | on a miss, a fetched catalog is in the snapshot whether or not the downloads return; a fetch that fails or hangs writes nothing |
| GetAnimeData.RunIdempotent | get_anime_data.py:112-131 | after a completed run, a second run loads the same catalog from the snapshot, contacts nothing and changes no file |
| CreateCsv.ErrorCodes | create_csv.py:8-10 | the missing and invalid snapshot codes are 2 and 3, adjacent and above the base 1 |
| CreateCsv.Lower | create_csv.py:24 | `str.lower` on ASCII letters; `LowerProperties` states its properties |
| CreateCsv.LowerProperties | create_csv.py:23-24 | lower-casing keeps the length, leaves no upper-case letter, changes exactly the upper-case letters and is idempotent |
| CreateCsv.LexLe | create_csv.py:29 | Python's string `<=`, which `sorted` uses: lexicographic by code point, a prefix first; the four lemmas below make it a total order |
| CreateCsv.LexLeRefl | create_csv.py:29 | string order is reflexive |
| CreateCsv.LexLeTotal | create_csv.py:29 | any two strings are ordered one way or the other |
| CreateCsv.LexLeTrans | create_csv.py:29 | string order is transitive |
| CreateCsv.LexLeAntisym | create_csv.py:29 | strings ordered both ways are equal |
| CreateCsv.SortedNames | create_csv.py:29 | `sorted(map(lambda g: g.name, s))`; `SortedNamesCorrect` and `SortedUnique` state its properties |
| CreateCsv.Join | create_csv.py:29 | `"\|".join`; `SplitJoin` states its inverse |
| CreateCsv.GenresColumn | create_csv.py:28-30 | the genres column; `GenresColumnContents` states its contents |
| CreateCsv.SortedNamesCorrect | create_csv.py:28-30 | the sorted names are ascending, one per tag, each name occurring once per tag that carries it |
| CreateCsv.SortedUnique | create_csv.py:29 | two ascending sequences with the same elements are equal, so the sort is determined by its input |
| CreateCsv.SplitJoin | create_csv.py:29 | splitting a joined list of names that contain no `\|` gives the names back |
| CreateCsv.GenresColumnContents | create_csv.py:28-30 | no tags give the empty string; otherwise, with no `\|` in names, the column splits into the ascending names, one per tag |
| CreateCsv.ToRow | create_csv.py:21-27 | one record's row; `RowColumns` states its columns |
| CreateCsv.ToRows | create_csv.py:21-32 | one row per record, in list order, each the record's projection |
| CreateCsv.RowColumns | create_csv.py:21-27 | a row keeps id and URL, lower-cases the title, and points at the file the downloader writes; distinct records point at distinct files |
| CreateCsv.RunCreateCsv | create_csv.py:36-49 | exit 2 exactly when the snapshot is missing; exit 3 exactly when the loaded value is not a list or its first element is not a record; an empty list raises IndexError; rows are exported exactly for a non-empty list of records, projecting it row for row |
| CreateCsv.ExportsWrittenSnapshot | create_csv.py:36-49 | a non-empty snapshot written by the acquisition is exported row for row |

## Left out

- HTTP and JSON decoding through aiohttp are not modelled. A reply arrives already classified as a
  connection failure, a body that is not JSON, or decoded JSON with a status.
- Concurrency (`asyncio.as_completed`, `asyncio.gather`, uvloop) is not modelled. Page completion
  order is a parameter. Image downloads run one after another in list order; their paths are
  distinct unless two records share an id.
- GetAnimeData.DownloadAnimeImages: does not model two concurrent downloads of records with the same
  id both fetching before either writes. Run in list order, the second skips.
- GetAnimeData.DownloadAnimeImages: does not model a hung record being rescued by a later record
  with the same id. Take records a and b with id 5, where a has no `jpg` key and b's image arrives.
  In the source, a's handler (get_anime_data.py:102-105) retries, finds b's file at line 93 and
  returns, so `gather` returns. In the model, a's step hangs and the batch, and `Run`, end in
  `DownloadsHung`.
- Retry.RunRetry: retries have no bound in the source. The model retries over a finite script of
  replies, and a script that runs out stands for a call that never returns.
- Sleeping, the random choice within `randint(3, 7)` and the progress messages are not modelled.
  Waits are recorded as `Backoff` values, and the messages are dropped.
- GetAnimeData.FetchTopAnime: the pagination metadata request is not retried in the source. Its
  failure is one `MetadataFailed` outcome rather than the particular exception.
- Schema.ParseAnime: the raw datatypes cannot hold a JSON `null` where the source reads a list,
  an object or a string:
  - a tag list key present as `null` raises TypeError in the source; the model's missing key
    stands for `[]`;
  - `"jpg": null` raises AttributeError at schema.py:40;
  - `"titles": null` raises TypeError at schema.py:65;
  - `"source": null` is stored as None, and `str.lower` then fails at create_csv.py:24.
- Pickle's byte format is not modelled. A file holds raw bytes or a Python value seen structurally.
- GetAnimeData.Run: a snapshot holding a value that is not a list of records is one
  `SnapshotNotACatalog` crash. The source may complete where the model crashes. A pickled tuple of
  records, or an empty dict or tuple, passes `len` and `gather` at get_anime_data.py:130-131, and
  `main` finishes.
- CreateCsv.RunCreateCsv: a list whose first element is a record but whose later elements are not
  is modelled as a crash (`NotAllRecords`). What pandas makes of such a list is not modelled.
- pandas' `DataFrame` and `to_csv` (quoting, header, the file `animes.csv`) are not modelled. A row
  is a datatype holding the output columns in file order.
- CreateCsv.Lower: lower-cases ASCII letters only; Python's `str.lower` follows Unicode. The
  `source` column is lower-cased and then dropped in the source, so it is not modelled.
- `jikan_get_genres` (get_anime_data.py:21-25) is not called by either program.
- Timing (`timeit`), `print`, `os.makedirs("images")` and the directory itself are not modelled.
  The disk is a flat map from path strings to contents.
- GetAnimeData.DownloadStep: write failures (an OS error on `open`) are not modelled, nor is the
  retry that the handler's `except` would then make. The same holds for the interpreter's recursion
  limit on unbounded retries.
- GetAnimeData.DownloadStep: models the evidently intended `anime.get_image_url()` call, not the
  line as written (see Findings). `GetAnimeData.Run` uses this corrected step.

## Findings

| source | as written | input that shows it | evidently intended | confidence | as-written member | corrected member |
|---|---|---|---|---|---|---|
| get_anime_data.py:99 | `get_image(anime.image_url)` reads an attribute that `Anime` does not have. The AttributeError is caught by the handler's `except Exception`, which waits and retries the same call forever. | any record whose `images/{mal_id}.jpg` is absent | `get_image(anime.get_image_url())`: resolve the URL, fetch and write the file; `IntendedCallDownloads` proves that an answered request then writes the bytes received | high; not executed | GetAnimeData.AsWrittenBatchNeverCompletes | GetAnimeData.DownloadStep |
