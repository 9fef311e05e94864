/**
 * Acquisition: the top-anime catalog is fetched page by page from the remote
 * API (each page retried until it parses), cached in a snapshot file, and
 * one image per record is then downloaded unless its file already exists.
 *
 * The network is a parameter: `pageNet(p)` is the sequence of replies that
 * successive requests for page `p` receive, `imageNet(u)` the same for an
 * image URL. The order in which pages complete is a parameter too: any
 * permutation of the pages requested.
 */
module GetAnimeData {
  import opened Wrappers
  import opened Schema
  import opened AssetPath
  import opened Retry
  import opened FileSystem

  /** Records per page ("limit" in the request parameters; the API's maximum). */
  const PAGE_SIZE: int := 25
  /** The target count `main` passes to the orchestrator. */
  const LIMIT: int := 30000
  const RATE_LIMIT_STATUS: int := 429
  const RATE_LIMIT_WAIT: nat := 3
  const ERROR_WAIT: nat := 10
  const IMAGE_WAIT_MIN: nat := 3
  const IMAGE_WAIT_MAX: nat := 7

  // ---------------------------------------------------------------- pages

  /** What one request for a page yields: no response, a body that is not JSON, or decoded JSON. */
  datatype PageReply =
    | ConnectionFailed
    | BodyNotJson
    | Json(status: int, data: Option<seq<RawAnime>>)  // data: the "data" key, None when absent

  /** `[Anime.parse(anime) for anime in data]`. */
  function ParseAnimeList(raws: seq<RawAnime>): (r: Result<seq<Anime>, PyError>)
    ensures r.Ok? <==> forall i :: 0 <= i < |raws| ==> ParseAnimeSpec(raws[i]).Ok?
    ensures r.Ok? ==> |r.value| == |raws| && forall i :: 0 <= i < |raws| ==> Ok(r.value[i]) == ParseAnimeSpec(raws[i])
  {
    ParseEach(ParseAnimeSpec, raws)
  }

  /**
   * One attempt of `jikan_get_top_anime_page`: status 429 raises the rate-limit
   * error (wait 3 s); every other failure — no connection, a body that is not
   * JSON, a missing "data" key, a record that does not parse — waits 10 s. No
   * other status is checked. Nothing but a fully parsed page is ever returned.
   */
  function ClassifyPageReply(reply: PageReply): (s: Step<seq<Anime>>)
    ensures s.Again? ==> s.backoff == Fixed(RATE_LIMIT_WAIT) || s.backoff == Fixed(ERROR_WAIT)
    ensures s == Again(Fixed(RATE_LIMIT_WAIT)) <==> reply.Json? && reply.status == RATE_LIMIT_STATUS
    ensures s.Done? <==>
      reply.Json? && reply.status != RATE_LIMIT_STATUS && reply.data.Some? && ParseAnimeList(reply.data.value).Ok?
    ensures s.Done? ==> s.value == ParseAnimeList(reply.data.value).value
  {
    match reply
    case ConnectionFailed => Again(Fixed(ERROR_WAIT))
    case BodyNotJson => Again(Fixed(ERROR_WAIT))
    case Json(status, data) =>
      if status == RATE_LIMIT_STATUS then Again(Fixed(RATE_LIMIT_WAIT))
      else if data.None? then Again(Fixed(ERROR_WAIT))
      else
        match ParseAnimeList(data.value)
        case Ok(records) => Done(records)
        case Err(_) => Again(Fixed(ERROR_WAIT))
  }

  function PageSteps(replies: seq<PageReply>): seq<Step<seq<Anime>>> {
    seq(|replies|, i requires 0 <= i < |replies| => ClassifyPageReply(replies[i]))
  }

  /** The outcome of requesting one page again and again until it parses. It only names the retry
      over this page's classified replies; the retry's properties are proved in `Retry`. */
  function PageOutcome(page: int, pageNet: int -> seq<PageReply>): Outcome<seq<Anime>> {
    RetryOutcome(PageSteps(pageNet(page)))
  }

  /** `jikan_get_top_anime_page`, with its recursion as a retry loop. */
  method FetchTopAnimePage(page: int, pageNet: int -> seq<PageReply>) returns (r: Outcome<seq<Anime>>)
    ensures r == PageOutcome(page, pageNet)
  {
    r := RunRetry(PageSteps(pageNet(page)));
  }

  /** A page returns only the parse of one complete reply, never a partial or empty fallback. */
  lemma PageResultIsSomeReply(page: int, pageNet: int -> seq<PageReply>)
    requires PageOutcome(page, pageNet).Succeeded?
    ensures exists k :: (0 <= k < |pageNet(page)| && pageNet(page)[k].Json? && pageNet(page)[k].data.Some?
      && pageNet(page)[k].status != RATE_LIMIT_STATUS
      && ParseAnimeList(pageNet(page)[k].data.value) == Ok(PageOutcome(page, pageNet).value))
  {
    var steps := PageSteps(pageNet(page));
    RetrySucceedsIff(steps);
    var k :| 0 <= k < |steps| && steps[k].Done? && RetryOutcome(steps).value == steps[k].value;
    assert steps[k] == ClassifyPageReply(pageNet(page)[k]);
  }

  /** Being rate-limited and then losing the connection costs a 3 s and a 10 s wait, then the page parses. */
  lemma RateLimitThenErrorThenServed(raws: seq<RawAnime>, status: int)
    requires ParseAnimeList(raws).Ok? && status != RATE_LIMIT_STATUS
    ensures RetryOutcome(PageSteps([Json(RATE_LIMIT_STATUS, Some(raws)), ConnectionFailed, Json(status, Some(raws))]))
         == Succeeded(ParseAnimeList(raws).value, [Fixed(RATE_LIMIT_WAIT), Fixed(ERROR_WAIT)])
  {
    var steps := PageSteps([Json(RATE_LIMIT_STATUS, Some(raws)), ConnectionFailed, Json(status, Some(raws))]);
    var failures := steps[..2];
    assert steps == failures + [Done(ParseAnimeList(raws).value)] + [];
    RetryConverges(failures, ParseAnimeList(raws).value, []);
    assert Waits(failures) == [Fixed(RATE_LIMIT_WAIT), Fixed(ERROR_WAIT)];
  }

  // ---------------------------------------------------------- page range

  function Min(a: int, b: int): int {
    if a <= b then a else b
  }

  function Max(a: int, b: int): int {
    if a >= b then a else b
  }

  /**
   * The exclusive end of `range(1, min(total_pages + 1, limit // 25))`.
   * Python's `//` floors; for the positive divisor 25 Dafny's `/` agrees.
   */
  function PageRangeEnd(totalPages: int, limit: int): (e: int)
    ensures e <= totalPages + 1 && e <= limit / PAGE_SIZE
    ensures e == totalPages + 1 || e == limit / PAGE_SIZE
  {
    Min(totalPages + 1, limit / PAGE_SIZE)
  }

  /** Python's `range(lo, hi)`: the integers from `lo` up to but excluding `hi`. */
  function Range(lo: int, hi: int): (r: seq<int>)
    ensures forall p :: p in r <==> lo <= p < hi
    ensures forall i, j :: 0 <= i < j < |r| ==> r[i] < r[j]
    ensures |r| == Max(0, hi - lo)
    ensures forall i :: 0 <= i < |r| ==> r[i] == lo + i
    decreases hi - lo
  {
    if lo >= hi then [] else [lo] + Range(lo + 1, hi)
  }

  /** The pages requested, in submission order. */
  function RequestedPages(totalPages: int, limit: int): (pages: seq<int>)
    ensures forall p :: p in pages <==> 1 <= p < PageRangeEnd(totalPages, limit)
    ensures PageRangeEnd(totalPages, limit) !in pages
    ensures |pages| == Max(0, PageRangeEnd(totalPages, limit) - 1)
  {
    Range(1, PageRangeEnd(totalPages, limit))
  }

  lemma RequestedPagesExamples()
    ensures RequestedPages(10, 100) == [1, 2, 3]
    ensures RequestedPages(3, 1000) == [1, 2, 3]
    ensures forall total, limit :: limit < 2 * PAGE_SIZE ==> RequestedPages(total, limit) == []
  {
    assert PageRangeEnd(10, 100) == 4;
    assert PageRangeEnd(3, 1000) == 4;
    var r := RequestedPages(10, 100);
    assert |r| == 3 && r[0] == 1 && r[1] == 2 && r[2] == 3;
  }

  // ------------------------------------------------------- orchestration

  /** The pagination metadata request, which is not retried: on failure the exception escapes. */
  datatype MetaReply = MetaOk(lastVisiblePage: int) | MetaFailed

  datatype FetchOutcome = Fetched(catalog: seq<Anime>) | FetchHung | MetadataFailed

  predicate IsCompletionOrder(order: seq<int>, pages: seq<int>) {
    multiset(order) == multiset(pages)
  }

  function Prefixed(prefix: seq<Anime>, o: FetchOutcome): FetchOutcome {
    if o.Fetched? then Fetched(prefix + o.catalog) else o
  }

  /** Draining the pages in completion order: each page's records are appended as it completes. */
  function Accumulate(order: seq<int>, pageNet: int -> seq<PageReply>): (o: FetchOutcome)
    ensures o.Fetched? || o == FetchHung
    decreases |order|
  {
    if |order| == 0 then Fetched([])
    else
      match PageOutcome(order[0], pageNet)
      case NotReturned(_) => FetchHung
      case Succeeded(records, _) => Prefixed(records, Accumulate(order[1..], pageNet))
  }

  /** What `jikan_get_top_anime` returns, given the metadata reply and the completion order. */
  function FetchSpec(meta: MetaReply, pageNet: int -> seq<PageReply>, order: seq<int>): FetchOutcome {
    match meta
    case MetaFailed => MetadataFailed
    case MetaOk(_) => Accumulate(order, pageNet)
  }

  /** The records a page contributes, and how many. */
  function PageRecords(page: int, pageNet: int -> seq<PageReply>): multiset<Anime> {
    var o := PageOutcome(page, pageNet);
    if o.Succeeded? then multiset(o.value) else multiset{}
  }

  function PagesMultiset(pages: seq<int>, pageNet: int -> seq<PageReply>): multiset<Anime>
    decreases |pages|
  {
    if |pages| == 0 then multiset{} else PageRecords(pages[0], pageNet) + PagesMultiset(pages[1..], pageNet)
  }

  function SumPageLengths(pages: seq<int>, pageNet: int -> seq<PageReply>): nat
    decreases |pages|
  {
    if |pages| == 0 then 0 else |PageRecords(pages[0], pageNet)| + SumPageLengths(pages[1..], pageNet)
  }

  lemma {:induction false} PagesConcat(a: seq<int>, b: seq<int>, pageNet: int -> seq<PageReply>)
    ensures PagesMultiset(a + b, pageNet) == PagesMultiset(a, pageNet) + PagesMultiset(b, pageNet)
    ensures SumPageLengths(a + b, pageNet) == SumPageLengths(a, pageNet) + SumPageLengths(b, pageNet)
    decreases |a|
  {
    if |a| > 0 {
      assert (a + b)[1..] == a[1..] + b;
      PagesConcat(a[1..], b, pageNet);
    } else {
      assert a + b == b;
    }
  }

  /** The first page of one order can be taken out of any other order of the same pages. */
  lemma RemoveFirst(a: seq<int>, b: seq<int>) returns (k: int)
    requires multiset(a) == multiset(b) && |a| > 0
    ensures 0 <= k < |b| && b[k] == a[0]
    ensures multiset(a[1..]) == multiset(b[..k] + b[k + 1..])
  {
    var x := a[0];
    assert x in multiset(b);
    k :| 0 <= k < |b| && b[k] == x;
    assert b == b[..k] + [x] + b[k + 1..];
    assert a == [x] + a[1..];
    assert multiset(a[1..]) == multiset(a) - multiset{x};
    assert multiset(b[..k] + b[k + 1..]) == multiset(b) - multiset{x};
  }

  /** The records collected do not depend on the order the pages complete in. */
  lemma {:induction false} PagesPermutation(a: seq<int>, b: seq<int>, pageNet: int -> seq<PageReply>)
    requires multiset(a) == multiset(b)
    ensures PagesMultiset(a, pageNet) == PagesMultiset(b, pageNet)
    ensures SumPageLengths(a, pageNet) == SumPageLengths(b, pageNet)
    decreases |a|
  {
    if |a| == 0 {
      assert |multiset(b)| == 0;
      assert b == [];
    } else {
      var x := a[0];
      var k := RemoveFirst(a, b);
      var front, back := b[..k], b[k + 1..];
      assert b == front + [x] + back;
      PagesPermutation(a[1..], front + back, pageNet);
      PagesConcat(front + [x], back, pageNet);
      PagesConcat(front, [x], pageNet);
      PagesConcat(front, back, pageNet);
      assert PagesMultiset([x], pageNet) == PageRecords(x, pageNet);
      assert SumPageLengths([x], pageNet) == |PageRecords(x, pageNet)|;
    }
  }

  /**
   * The drained list is the concatenation of the pages' records: as a multiset
   * it is their sum (no dedup across records), and its length is the sum of
   * the page lengths (no truncation). It is complete exactly when every page returns.
   */
  lemma {:induction false} AccumulateContents(order: seq<int>, pageNet: int -> seq<PageReply>)
    ensures Accumulate(order, pageNet).Fetched? <==>
      forall i :: 0 <= i < |order| ==> PageOutcome(order[i], pageNet).Succeeded?
    ensures Accumulate(order, pageNet).Fetched? ==>
      multiset(Accumulate(order, pageNet).catalog) == PagesMultiset(order, pageNet)
      && |Accumulate(order, pageNet).catalog| == SumPageLengths(order, pageNet)
    ensures !Accumulate(order, pageNet).Fetched? ==> Accumulate(order, pageNet) == FetchHung
    decreases |order|
  {
    if |order| > 0 {
      var rest := order[1..];
      AccumulateContents(rest, pageNet);
      assert forall i :: 1 <= i < |order| ==> order[i] == rest[i - 1];
      var o := PageOutcome(order[0], pageNet);
      if o.Succeeded? {
        var tail := Accumulate(rest, pageNet);
        assert Accumulate(order, pageNet) == Prefixed(o.value, tail);
        assert PagesMultiset(order, pageNet) == multiset(o.value) + PagesMultiset(rest, pageNet);
        assert SumPageLengths(order, pageNet) == |o.value| + SumPageLengths(rest, pageNet);
      } else {
        assert Accumulate(order, pageNet) == FetchHung;
      }
    }
  }

  /**
   * The catalog is every requested page's records, whatever the completion
   * order: as a multiset it is their sum (no dedup across records), its length
   * is the sum of the page lengths (no truncation to the target), and it is
   * returned only when every requested page has returned.
   */
  lemma FetchedCatalogIsAllPages(limit: int, meta: MetaReply, pageNet: int -> seq<PageReply>, order: seq<int>)
    requires meta.MetaOk? ==> IsCompletionOrder(order, RequestedPages(meta.lastVisiblePage, limit))
    ensures var r := FetchSpec(meta, pageNet, order);
      r.Fetched? ==> (meta.MetaOk?
      && var pages := RequestedPages(meta.lastVisiblePage, limit);
      && (forall p :: p in pages ==> PageOutcome(p, pageNet).Succeeded?)
      && multiset(r.catalog) == PagesMultiset(pages, pageNet)
      && |r.catalog| == SumPageLengths(pages, pageNet))
    ensures var r := FetchSpec(meta, pageNet, order);
      r == FetchHung ==> (meta.MetaOk?
      && exists p :: p in RequestedPages(meta.lastVisiblePage, limit) && PageOutcome(p, pageNet).NotReturned?)
  {
    if meta.MetaOk? {
      var pages := RequestedPages(meta.lastVisiblePage, limit);
      AccumulateContents(order, pageNet);
      PagesPermutation(order, pages, pageNet);
      forall p ensures p in pages <==> p in order {
        assert p in pages <==> p in multiset(pages);
        assert p in order <==> p in multiset(order);
      }
      if FetchSpec(meta, pageNet, order) == FetchHung {
        var i :| 0 <= i < |order| && !PageOutcome(order[i], pageNet).Succeeded?;
        assert order[i] in pages;
      }
    }
  }

  /** Draining from position `i` takes that page's records, or hangs on it. */
  lemma AccumulateStep(order: seq<int>, i: int, pageNet: int -> seq<PageReply>)
    requires 0 <= i < |order|
    ensures var o := PageOutcome(order[i], pageNet);
      o.Succeeded? ==> Accumulate(order[i..], pageNet) == Prefixed(o.value, Accumulate(order[i + 1..], pageNet))
    ensures PageOutcome(order[i], pageNet).NotReturned? ==> Accumulate(order[i..], pageNet) == FetchHung
  {
    assert order[i..][0] == order[i];
    assert order[i..][1..] == order[i + 1..];
  }

  lemma PrefixedAppend(a: seq<Anime>, b: seq<Anime>, o: FetchOutcome)
    ensures Prefixed(a, Prefixed(b, o)) == Prefixed(a + b, o)
  {
    if o.Fetched? {
      assert a + (b + o.catalog) == (a + b) + o.catalog;
    }
  }

  /** `jikan_get_top_anime`: request the metadata, then drain every page in completion order. */
  method FetchTopAnime(limit: int, meta: MetaReply, pageNet: int -> seq<PageReply>, order: seq<int>)
    returns (r: FetchOutcome)
    requires meta.MetaOk? ==> IsCompletionOrder(order, RequestedPages(meta.lastVisiblePage, limit))
    ensures r == FetchSpec(meta, pageNet, order)
  {
    if meta.MetaFailed? {
      return MetadataFailed;
    }
    var animes: seq<Anime> := [];
    var i := 0;
    while i < |order|
      invariant 0 <= i <= |order|
      invariant Accumulate(order, pageNet) == Prefixed(animes, Accumulate(order[i..], pageNet))
    {
      var page := FetchTopAnimePage(order[i], pageNet);
      AccumulateStep(order, i, pageNet);
      if page.NotReturned? {
        return FetchHung;
      }
      PrefixedAppend(animes, page.value, Accumulate(order[i + 1..], pageNet));
      animes := animes + page.value;
      i := i + 1;
    }
    assert animes + [] == animes;
    r := Fetched(animes);
  }

  lemma {:induction false} SumBoundedByPageSize(pages: seq<int>, pageNet: int -> seq<PageReply>)
    requires forall p :: p in pages ==> |PageRecords(p, pageNet)| <= PAGE_SIZE
    ensures SumPageLengths(pages, pageNet) <= PAGE_SIZE * |pages|
    decreases |pages|
  {
    if |pages| > 0 {
      SumBoundedByPageSize(pages[1..], pageNet);
    }
  }

  /**
   * The page bound as written stops one page short of the target: when no page
   * holds more than 25 records, the catalog has at most `limit - 25` of them
   * (none when `limit < 50`), so it never reaches the target count.
   */
  lemma CatalogStaysBelowLimit(limit: int, meta: MetaReply, pageNet: int -> seq<PageReply>, order: seq<int>)
    requires meta.MetaOk? ==> IsCompletionOrder(order, RequestedPages(meta.lastVisiblePage, limit))
    requires meta.MetaOk? ==> forall p :: p in RequestedPages(meta.lastVisiblePage, limit) ==>
      |PageRecords(p, pageNet)| <= PAGE_SIZE
    ensures FetchSpec(meta, pageNet, order).Fetched? ==>
      |FetchSpec(meta, pageNet, order).catalog| <= Max(0, limit - PAGE_SIZE)
  {
    if meta.MetaOk? {
      var pages := RequestedPages(meta.lastVisiblePage, limit);
      FetchedCatalogIsAllPages(limit, meta, pageNet, order);
      SumBoundedByPageSize(pages, pageNet);
      var q := limit / PAGE_SIZE;
      assert PAGE_SIZE * q <= limit;
      assert |pages| <= Max(0, q - 1);
      if q - 1 > 0 {
        assert PAGE_SIZE * |pages| <= PAGE_SIZE * (q - 1);
      }
    }
  }

  // --------------------------------------------------------------- images

  /** What one image request yields: a body (of any status: none is checked), or an exception. */
  datatype ImageReply = ImageBody(status: int, bytes: seq<bv8>) | ImageFailed

  /** One attempt of `get_image`: any exception waits `randint(3, 7)` seconds; any body is accepted. */
  function ClassifyImageReply(reply: ImageReply): (s: Step<seq<bv8>>)
    ensures s.Again? <==> reply.ImageFailed?
    ensures s.Again? ==> s.backoff == Uniform(IMAGE_WAIT_MIN, IMAGE_WAIT_MAX)
    ensures s.Done? ==> s.value == reply.bytes
  {
    match reply
    case ImageBody(_, bytes) => Done(bytes)
    case ImageFailed => Again(Uniform(IMAGE_WAIT_MIN, IMAGE_WAIT_MAX))
  }

  function ImageSteps(replies: seq<ImageReply>): seq<Step<seq<bv8>>> {
    seq(|replies|, i requires 0 <= i < |replies| => ClassifyImageReply(replies[i]))
  }

  /** The outcome of requesting one image until a body arrives. It only names the retry over this
      URL's classified replies; the retry's properties are proved in `Retry`. */
  function ImageFetch(url: string, imageNet: string -> seq<ImageReply>): Outcome<seq<bv8>> {
    RetryOutcome(ImageSteps(imageNet(url)))
  }

  /** `get_image`, with its recursion as a retry loop. */
  method GetImage(url: string, imageNet: string -> seq<ImageReply>) returns (r: Outcome<seq<bv8>>)
    ensures r == ImageFetch(url, imageNet)
  {
    r := RunRetry(ImageSteps(imageNet(url)));
  }

  datatype DownloadOutcome = Skipped | Written(bytes: seq<bv8>) | Hung

  /**
   * `download_anime_image` for one record. An existing file is left alone and
   * nothing is fetched. Otherwise the URL is resolved and the bytes fetched,
   * and only then is the file written. A URL that does not resolve raises
   * inside the handler's `try`, which retries the same resolution forever.
   */
  function DownloadStep(files: Files, a: Anime, imageNet: string -> seq<ImageReply>): (r: (Files, DownloadOutcome))
    ensures ImagePath(a.malId) in files ==> r == (files, Skipped)
    ensures r.1.Written? <==>
      ImagePath(a.malId) !in files && GetImageUrl(a).Ok? && ImageFetch(GetImageUrl(a).value, imageNet).Succeeded?
    ensures r.1.Written? ==>
      r.1.bytes == ImageFetch(GetImageUrl(a).value, imageNet).value
      && r.0 == files[ImagePath(a.malId) := Bytes(r.1.bytes)]
    ensures !r.1.Written? ==> r.0 == files
  {
    var path := ImagePath(a.malId);
    if path in files then (files, Skipped)
    else
      match GetImageUrl(a)
      case Err(_) => (files, Hung)
      case Ok(url) =>
        match ImageFetch(url, imageNet)
        case NotReturned(_) => (files, Hung)
        case Succeeded(bytes, _) => (files[path := Bytes(bytes)], Written(bytes))
  }

  method DownloadAnimeImage(disk: Disk, a: Anime, imageNet: string -> seq<ImageReply>) returns (o: DownloadOutcome)
    modifies disk
    ensures (disk.files, o) == DownloadStep(old(disk.files), a, imageNet)
  {
    var path := ImagePath(a.malId);
    var present := disk.Exists(path);
    if present {
      return Skipped;
    }
    var url := GetImageUrl(a);
    if url.Err? {
      return Hung;
    }
    var image := GetImage(url.value, imageNet);
    if image.NotReturned? {
      return Hung;
    }
    disk.Write(path, Bytes(image.value));
    o := Written(image.value);
  }

  /** A record's download, once it has returned, is never repeated: the second run skips without fetching. */
  lemma DownloadStepIdempotent(files: Files, a: Anime, imageNet: string -> seq<ImageReply>, imageNet': string -> seq<ImageReply>)
    requires !DownloadStep(files, a, imageNet).1.Hung?
    ensures var files' := DownloadStep(files, a, imageNet).0;
      ImagePath(a.malId) in files' && DownloadStep(files', a, imageNet') == (files', Skipped)
  {
  }

  /**
   * `download_anime_images`: every record's download, here taken in list
   * order. A record whose download hangs writes nothing and does not stop the
   * others; the batch returns only if none hangs.
   */
  function DownloadAll(files: Files, animes: seq<Anime>, imageNet: string -> seq<ImageReply>): (Files, bool)
    decreases |animes|
  {
    if |animes| == 0 then (files, true)
    else
      var before := DownloadAll(files, animes[..|animes| - 1], imageNet);
      var after := DownloadStep(before.0, animes[|animes| - 1], imageNet);
      (after.0, before.1 && !after.1.Hung?)
  }

  /** One record's download changes at most its own image file, and only if it was absent. */
  lemma DownloadStepFrame(files: Files, a: Anime, imageNet: string -> seq<ImageReply>)
    ensures var r := DownloadStep(files, a, imageNet);
      r.0.Keys == files.Keys || (ImagePath(a.malId) !in files && r.0.Keys == files.Keys + {ImagePath(a.malId)})
    ensures var r := DownloadStep(files, a, imageNet);
      forall p :: p in files ==> p in r.0 && r.0[p] == files[p]
    ensures var r := DownloadStep(files, a, imageNet);
      !r.1.Hung? ==> ImagePath(a.malId) in r.0
  {
  }

  /** Files present before the batch are untouched by it. */
  lemma {:induction false} DownloadAllPreserves(files: Files, animes: seq<Anime>, imageNet: string -> seq<ImageReply>)
    ensures var r := DownloadAll(files, animes, imageNet);
      forall p :: p in files ==> p in r.0 && r.0[p] == files[p]
    decreases |animes|
  {
    if |animes| > 0 {
      var init := animes[..|animes| - 1];
      DownloadAllPreserves(files, init, imageNet);
      DownloadStepFrame(DownloadAll(files, init, imageNet).0, animes[|animes| - 1], imageNet);
    }
  }

  /** Every file the batch creates is the image of one of its records. */
  lemma {:induction false} DownloadAllCreatesOnlyImages(files: Files, animes: seq<Anime>, imageNet: string -> seq<ImageReply>)
    ensures var r := DownloadAll(files, animes, imageNet);
      forall p :: p in r.0 && p !in files ==> exists i :: 0 <= i < |animes| && p == ImagePath(animes[i].malId)
    decreases |animes|
  {
    if |animes| > 0 {
      var init := animes[..|animes| - 1];
      var last := animes[|animes| - 1];
      DownloadAllCreatesOnlyImages(files, init, imageNet);
      var before := DownloadAll(files, init, imageNet).0;
      DownloadStepFrame(before, last, imageNet);
      var after := DownloadAll(files, animes, imageNet).0;
      forall p | p in after && p !in files
        ensures exists i :: 0 <= i < |animes| && p == ImagePath(animes[i].malId)
      {
        if p in before {
          var i :| 0 <= i < |init| && p == ImagePath(init[i].malId);
          assert animes[i] == init[i];
        } else {
          assert p == ImagePath(animes[|animes| - 1].malId);
        }
      }
    }
  }

  /** Images present before a step stay present after it; with the last record's image, all are present. */
  lemma CoversExtend(init: seq<Anime>, last: Anime, before: Files, after: Files)
    requires forall i :: 0 <= i < |init| ==> ImagePath(init[i].malId) in before
    requires forall q :: q in before ==> q in after
    requires ImagePath(last.malId) in after
    ensures forall i :: 0 <= i < |init + [last]| ==> ImagePath((init + [last])[i].malId) in after
  {
    forall i | 0 <= i < |init + [last]| ensures ImagePath((init + [last])[i].malId) in after {
      if i < |init| {
        assert (init + [last])[i] == init[i];
      }
    }
  }

  /** A batch that returns leaves every record's image on disk. */
  lemma {:induction false} DownloadAllCovers(files: Files, animes: seq<Anime>, imageNet: string -> seq<ImageReply>)
    ensures var r := DownloadAll(files, animes, imageNet);
      r.1 ==> forall i :: 0 <= i < |animes| ==> ImagePath(animes[i].malId) in r.0
    decreases |animes|
  {
    if |animes| > 0 {
      var init, last := animes[..|animes| - 1], animes[|animes| - 1];
      assert animes == init + [last];
      DownloadAllCovers(files, init, imageNet);
      var before := DownloadAll(files, init, imageNet);
      var step := DownloadStep(before.0, last, imageNet);
      DownloadStepFrame(before.0, last, imageNet);
      var r := DownloadAll(files, animes, imageNet);
      assert r == (step.0, before.1 && !step.1.Hung?);
      if r.1 {
        CoversExtend(init, last, before.0, step.0);
      }
    }
  }

  /** When every record's file is present, the batch fetches nothing and changes nothing. */
  lemma {:induction false} DownloadAllPresent(files: Files, animes: seq<Anime>, imageNet: string -> seq<ImageReply>)
    requires forall i :: 0 <= i < |animes| ==> ImagePath(animes[i].malId) in files
    ensures DownloadAll(files, animes, imageNet) == (files, true)
    decreases |animes|
  {
    if |animes| > 0 {
      DownloadAllPresent(files, animes[..|animes| - 1], imageNet);
    }
  }

  /** A second run of the batch after one that returned performs no fetch and no write. */
  lemma DownloadAllIdempotent(files: Files, animes: seq<Anime>, imageNet: string -> seq<ImageReply>, imageNet': string -> seq<ImageReply>)
    requires DownloadAll(files, animes, imageNet).1
    ensures var files' := DownloadAll(files, animes, imageNet).0;
      DownloadAll(files', animes, imageNet') == (files', true)
  {
    DownloadAllCovers(files, animes, imageNet);
    DownloadAllPresent(DownloadAll(files, animes, imageNet).0, animes, imageNet');
  }

  method DownloadAnimeImages(disk: Disk, animes: seq<Anime>, imageNet: string -> seq<ImageReply>) returns (allDone: bool)
    modifies disk
    ensures (disk.files, allDone) == DownloadAll(old(disk.files), animes, imageNet)
  {
    allDone := true;
    var i := 0;
    while i < |animes|
      invariant 0 <= i <= |animes|
      invariant (disk.files, allDone) == DownloadAll(old(disk.files), animes[..i], imageNet)
    {
      ghost var prefix := animes[..i + 1];
      assert prefix[..i] == animes[..i] && prefix[i] == animes[i];
      ghost var before := DownloadAll(old(disk.files), animes[..i], imageNet);
      var o := DownloadAnimeImage(disk, animes[i], imageNet);
      ghost var step := DownloadStep(before.0, animes[i], imageNet);
      assert disk.files == step.0 && o == step.1;
      allDone := allDone && !o.Hung?;
      assert DownloadAll(old(disk.files), prefix, imageNet) == (step.0, before.1 && !step.1.Hung?);
      i := i + 1;
    }
    assert animes[..i] == animes;
  }

  /**
   * The handler as written: line 99 reads the attribute `anime.image_url`,
   * which `Anime` does not have, so every attempt raises AttributeError, which
   * the handler catches, waits for and retries. `retries` bounds the attempts modelled.
   */
  function DownloadAsWritten(files: Files, a: Anime, retries: nat): (Files, DownloadOutcome)
    decreases retries
  {
    if ImagePath(a.malId) in files then (files, Skipped)
    else if retries == 0 then (files, Hung)
    else DownloadAsWritten(files, a, retries - 1)
  }

  /** As written, no missing image is ever downloaded, however many retries are allowed. */
  lemma {:induction false} AsWrittenNeverDownloads(files: Files, a: Anime, retries: nat)
    requires ImagePath(a.malId) !in files
    ensures DownloadAsWritten(files, a, retries) == (files, Hung)
    decreases retries
  {
    if retries > 0 {
      AsWrittenNeverDownloads(files, a, retries - 1);
    }
  }

  /** One record's handler as written leaves the files as they were. */
  lemma {:induction false} AsWrittenFrame(files: Files, a: Anime, retries: nat)
    ensures DownloadAsWritten(files, a, retries).0 == files
    decreases retries
  {
    if retries > 0 && ImagePath(a.malId) !in files {
      AsWrittenFrame(files, a, retries - 1);
    }
  }

  /** As written, one record's handler hangs exactly when its image is missing. */
  lemma AsWrittenHangsIffMissing(files: Files, a: Anime, retries: nat)
    ensures DownloadAsWritten(files, a, retries).1.Hung? <==> ImagePath(a.malId) !in files
  {
    if ImagePath(a.malId) !in files {
      AsWrittenNeverDownloads(files, a, retries);
    }
  }

  /** `download_anime_images` over the handler as written, each record allowed `retries` attempts. */
  function DownloadAllAsWritten(files: Files, animes: seq<Anime>, retries: nat): (Files, bool)
    decreases |animes|
  {
    if |animes| == 0 then (files, true)
    else
      var before := DownloadAllAsWritten(files, animes[..|animes| - 1], retries);
      var after := DownloadAsWritten(before.0, animes[|animes| - 1], retries);
      (after.0, before.1 && !after.1.Hung?)
  }

  /** As written, the batch writes no file. */
  lemma {:induction false} AsWrittenBatchFrame(files: Files, animes: seq<Anime>, retries: nat)
    ensures DownloadAllAsWritten(files, animes, retries).0 == files
    decreases |animes|
  {
    if |animes| > 0 {
      AsWrittenBatchFrame(files, animes[..|animes| - 1], retries);
      AsWrittenFrame(files, animes[|animes| - 1], retries);
    }
  }

  /** All images of `init + [last]` are present exactly when those of `init` and that of `last` are. */
  lemma AllPresentExtend(init: seq<Anime>, last: Anime, files: Files)
    ensures (forall i :: 0 <= i < |init + [last]| ==> ImagePath((init + [last])[i].malId) in files) <==>
      (forall i :: 0 <= i < |init| ==> ImagePath(init[i].malId) in files) && ImagePath(last.malId) in files
  {
    var all := init + [last];
    assert all[|init|] == last;
    assert forall i :: 0 <= i < |init| ==> all[i] == init[i];
  }

  /**
   * As written, the batch writes no file and returns only if every record's
   * image was already present: once any image is missing, `main` never completes.
   */
  lemma {:induction false} AsWrittenBatchNeverCompletes(files: Files, animes: seq<Anime>, retries: nat)
    ensures DownloadAllAsWritten(files, animes, retries).0 == files
    ensures DownloadAllAsWritten(files, animes, retries).1 <==>
      forall i :: 0 <= i < |animes| ==> ImagePath(animes[i].malId) in files
    decreases |animes|
  {
    AsWrittenBatchFrame(files, animes, retries);
    if |animes| > 0 {
      var init, last := animes[..|animes| - 1], animes[|animes| - 1];
      assert animes == init + [last];
      AsWrittenBatchNeverCompletes(files, init, retries);
      AsWrittenBatchFrame(files, init, retries);
      var step := DownloadAsWritten(files, last, retries);
      AsWrittenHangsIffMissing(files, last, retries);
      assert DownloadAllAsWritten(files, animes, retries).1 == (DownloadAllAsWritten(files, init, retries).1 && !step.1.Hung?);
      AllPresentExtend(init, last, files);
    }
  }

  /** With the intended `get_image_url()` call, the same record's file is written once its bytes arrive. */
  lemma IntendedCallDownloads(files: Files, a: Anime, imageNet: string -> seq<ImageReply>, bytes: seq<bv8>)
    requires ImagePath(a.malId) !in files && GetImageUrl(a).Ok?
    requires imageNet(GetImageUrl(a).value) == [ImageBody(200, bytes)]
    ensures DownloadStep(files, a, imageNet) == (files[ImagePath(a.malId) := Bytes(bytes)], Written(bytes))
  {
    var url := GetImageUrl(a).value;
    assert ImageSteps(imageNet(url)) == [Done(bytes)];
  }

  // ------------------------------------------------------------ cache gate

  datatype MainError = SnapshotUnreadable | SnapshotNotACatalog | MetadataUnavailable

  datatype RunOutcome =
    | Completed(catalog: seq<Anime>, fromApi: bool)
    | DownloadsHung(catalog: seq<Anime>, fromApi: bool)
    | FetchNeverReturned
    | Crashed(error: MainError)

  function DownloadPhase(files: Files, catalog: seq<Anime>, fromApi: bool, imageNet: string -> seq<ImageReply>): (Files, RunOutcome) {
    var d := DownloadAll(files, catalog, imageNet);
    (d.0, if d.1 then Completed(catalog, fromApi) else DownloadsHung(catalog, fromApi))
  }

  /**
   * `main`: an existing snapshot is loaded and the API is not contacted;
   * otherwise the catalog is fetched and written to the snapshot, and only
   * then are the images downloaded.
   */
  function RunSpec(files: Files, meta: MetaReply, pageNet: int -> seq<PageReply>, order: seq<int>,
                   imageNet: string -> seq<ImageReply>): (Files, RunOutcome)
  {
    if SNAPSHOT_PATH in files then
      match Unpickle(files[SNAPSHOT_PATH])
      case Err(_) => (files, Crashed(SnapshotUnreadable))
      case Ok(v) =>
        match AsCatalog(v)
        case None => (files, Crashed(SnapshotNotACatalog))
        case Some(catalog) => DownloadPhase(files, catalog, false, imageNet)
    else
      match FetchSpec(meta, pageNet, order)
      case MetadataFailed => (files, Crashed(MetadataUnavailable))
      case FetchHung => (files, FetchNeverReturned)
      case Fetched(catalog) => DownloadPhase(files[SNAPSHOT_PATH := Pickle(catalog)], catalog, true, imageNet)
  }

  method Run(disk: Disk, meta: MetaReply, pageNet: int -> seq<PageReply>, order: seq<int>,
             imageNet: string -> seq<ImageReply>) returns (o: RunOutcome)
    requires meta.MetaOk? ==> IsCompletionOrder(order, RequestedPages(meta.lastVisiblePage, LIMIT))
    modifies disk
    ensures (disk.files, o) == RunSpec(old(disk.files), meta, pageNet, order, imageNet)
  {
    var cached := disk.Exists(SNAPSHOT_PATH);
    var catalog: seq<Anime>;
    if cached {
      var data := disk.Read(SNAPSHOT_PATH);
      var loaded := Unpickle(data);
      if loaded.Err? {
        return Crashed(SnapshotUnreadable);
      }
      var c := AsCatalog(loaded.value);
      if c.None? {
        return Crashed(SnapshotNotACatalog);
      }
      catalog := c.value;
    } else {
      var fetched := FetchTopAnime(LIMIT, meta, pageNet, order);
      match fetched {
        case MetadataFailed => return Crashed(MetadataUnavailable);
        case FetchHung => return FetchNeverReturned;
        case Fetched(c) =>
          disk.Write(SNAPSHOT_PATH, Pickle(c));
          catalog := c;
      }
    }
    var allDone := DownloadAnimeImages(disk, catalog, imageNet);
    o := if allDone then Completed(catalog, !cached) else DownloadsHung(catalog, !cached);
  }

  /** A present snapshot decides the run: no metadata, page reply or completion order matters. */
  lemma CacheHitNeverFetches(files: Files, meta: MetaReply, pageNet: int -> seq<PageReply>, order: seq<int>,
                             meta': MetaReply, pageNet': int -> seq<PageReply>, order': seq<int>,
                             imageNet: string -> seq<ImageReply>)
    requires SNAPSHOT_PATH in files
    ensures RunSpec(files, meta, pageNet, order, imageNet) == RunSpec(files, meta', pageNet', order', imageNet)
    ensures var o := RunSpec(files, meta, pageNet, order, imageNet).1;
      (o.Completed? || o.DownloadsHung?) ==> !o.fromApi
  {
  }

  /**
   * On a cache miss the fetched catalog is in the snapshot whether or not the
   * downloads return, and a fetch that fails or hangs writes nothing.
   */
  lemma CacheMissPersistsBeforeDownloads(files: Files, meta: MetaReply, pageNet: int -> seq<PageReply>, order: seq<int>,
                                         imageNet: string -> seq<ImageReply>)
    requires SNAPSHOT_PATH !in files
    ensures var r := RunSpec(files, meta, pageNet, order, imageNet);
      FetchSpec(meta, pageNet, order).Fetched? ==>
        SNAPSHOT_PATH in r.0 && r.0[SNAPSHOT_PATH] == Pickle(FetchSpec(meta, pageNet, order).catalog)
        && (r.1.Completed? || r.1.DownloadsHung?) && r.1.fromApi && r.1.catalog == FetchSpec(meta, pageNet, order).catalog
    ensures !FetchSpec(meta, pageNet, order).Fetched? ==> RunSpec(files, meta, pageNet, order, imageNet).0 == files
  {
    var f := FetchSpec(meta, pageNet, order);
    if f.Fetched? {
      var start := files[SNAPSHOT_PATH := Pickle(f.catalog)];
      DownloadAllPreserves(start, f.catalog, imageNet);
      assert RunSpec(files, meta, pageNet, order, imageNet) == DownloadPhase(start, f.catalog, true, imageNet);
    }
  }

  /**
   * Running again after a run that completed contacts nothing: the snapshot
   * loads the same catalog, every image is present, and the files are unchanged.
   */
  lemma RunIdempotent(files: Files, meta: MetaReply, pageNet: int -> seq<PageReply>, order: seq<int>,
                      imageNet: string -> seq<ImageReply>,
                      meta': MetaReply, pageNet': int -> seq<PageReply>, order': seq<int>,
                      imageNet': string -> seq<ImageReply>)
    requires RunSpec(files, meta, pageNet, order, imageNet).1.Completed?
    ensures var first := RunSpec(files, meta, pageNet, order, imageNet);
      RunSpec(first.0, meta', pageNet', order', imageNet') == (first.0, Completed(first.1.catalog, false))
  {
    var first := RunSpec(files, meta, pageNet, order, imageNet);
    var catalog := first.1.catalog;
    var start := if SNAPSHOT_PATH in files then files else files[SNAPSHOT_PATH := Pickle(catalog)];
    assert first == DownloadPhase(start, catalog, SNAPSHOT_PATH !in files, imageNet);
    DownloadAllPreserves(start, catalog, imageNet);
    if SNAPSHOT_PATH !in files {
      PickleRoundTrip(catalog);
    }
    assert Unpickle(first.0[SNAPSHOT_PATH]).Ok? && AsCatalog(Unpickle(first.0[SNAPSHOT_PATH]).value) == Some(catalog);
    DownloadAllIdempotent(start, catalog, imageNet, imageNet');
  }
}
