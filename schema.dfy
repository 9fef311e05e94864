/**
 * The record and tag schema: tags ("genres") parsed from raw JSON objects,
 * anime records whose tag set is the union of four raw lists, and the
 * resolution of a record's image URL.
 *
 * A raw JSON object is modelled as a datatype whose fields are `Option`s:
 * `None` stands for a key that is absent from the dictionary.
 */
module Schema {
  import opened Wrappers

  /** The Python exceptions that parsing and URL resolution can raise. */
  datatype PyError = KeyError(key: string) | IndexError | ValueError(animeId: int)

  /** A decoded tag object: keys "mal_id", "url" and "name". */
  datatype RawGenre = RawGenre(malId: Option<int>, url: Option<string>, name: Option<string>)

  /**
   * A tag. The source declares it as a dataclass, whose generated equality is
   * field-wise; Dafny's structural equality on this datatype is the same
   * relation, so a `set<Genre>` deduplicates exactly as the Python set does.
   */
  datatype Genre = Genre(malId: int, malUrl: string, name: string)

  /** The overridden `__hash__`: a tag hashes to its id. */
  function GenreHash(g: Genre): int {
    g.malId
  }

  /** Python's hashing contract: values that compare equal hash equal. This holds for any function;
      the converse fails, since equal hashes do not make tags equal (`SameIdDifferentNameBothKept`). */
  lemma EqualGenresHashEqual(g: Genre, h: Genre)
    requires g == h
    ensures GenreHash(g) == GenreHash(h)
  {
  }

  /** `Genre.parse`: reads "mal_id", "url", "name" in that order; a missing key raises. */
  function ParseGenre(raw: RawGenre): (r: Result<Genre, PyError>)
    ensures r.Ok? <==> raw.malId.Some? && raw.url.Some? && raw.name.Some?
    ensures r.Ok? ==>
      r.value.malId == raw.malId.value && r.value.malUrl == raw.url.value && r.value.name == raw.name.value
    ensures raw.malId.None? ==> r == Err(KeyError("mal_id"))
    ensures raw.malId.Some? && raw.url.None? ==> r == Err(KeyError("url"))
    ensures raw.malId.Some? && raw.url.Some? && raw.name.None? ==> r == Err(KeyError("name"))
  {
    if raw.malId.None? then Err(KeyError("mal_id"))
    else if raw.url.None? then Err(KeyError("url"))
    else if raw.name.None? then Err(KeyError("name"))
    else Ok(Genre(raw.malId.value, raw.url.value, raw.name.value))
  }

  /** The raw object a tag is parsed from, as the remote API serves it. */
  function UnparseGenre(g: Genre): RawGenre {
    RawGenre(Some(g.malId), Some(g.malUrl), Some(g.name))
  }

  lemma ParseUnparseGenre(g: Genre)
    ensures ParseGenre(UnparseGenre(g)) == Ok(g)
  {
  }

  /** The elements of a sequence, as a set. */
  function Elems<T>(s: seq<T>): set<T> {
    set x | x in s
  }

  lemma {:induction false} ElemsCardinality<T>(s: seq<T>)
    ensures |Elems(s)| <= |s|
  {
    if |s| > 0 {
      var init := s[..|s| - 1];
      ElemsCardinality(init);
      assert s == init + [s[|s| - 1]];
      assert Elems(s) == Elems(init) + {s[|s| - 1]};
    }
  }

  /**
   * Parsing every element of a list, in order, as a comprehension or a
   * generator consumed by `set.update` does: the first element that fails
   * decides the exception.
   */
  function ParseEach<A, B>(parse: A -> Result<B, PyError>, raws: seq<A>): (r: Result<seq<B>, PyError>)
    ensures r.Ok? <==> forall i :: 0 <= i < |raws| ==> parse(raws[i]).Ok?
    ensures r.Ok? ==> |r.value| == |raws| && forall i :: 0 <= i < |raws| ==> r.value[i] == parse(raws[i]).value
    ensures r.Err? ==> exists i :: 0 <= i < |raws| && parse(raws[i]) == Err(r.error)
                                && forall j :: 0 <= j < i ==> parse(raws[j]).Ok?
    decreases |raws|
  {
    if |raws| == 0 then Ok([])
    else
      var init := raws[..|raws| - 1];
      match ParseEach(parse, init)
      case Err(e) =>
        var i :| 0 <= i < |init| && parse(init[i]) == Err(e) && forall j :: 0 <= j < i ==> parse(init[j]).Ok?;
        assert raws[i] == init[i] && forall j :: 0 <= j < i ==> raws[j] == init[j];
        Err(e)
      case Ok(parsed) =>
        match parse(raws[|raws| - 1])
        case Err(e) =>
          assert forall j :: 0 <= j < |raws| - 1 ==> raws[j] == init[j];
          Err(e)
        case Ok(x) => Ok(parsed + [x])
  }

  /** Once a prefix of the list fails, the whole list fails with the same exception. */
  lemma {:induction false} ParseEachErrPersists<A, B>(parse: A -> Result<B, PyError>, raws: seq<A>, k: nat)
    requires k <= |raws| && ParseEach(parse, raws[..k]).Err?
    ensures ParseEach(parse, raws) == ParseEach(parse, raws[..k])
    decreases |raws|
  {
    if k < |raws| {
      var init := raws[..|raws| - 1];
      assert init[..k] == raws[..k];
      ParseEachErrPersists(parse, init, k);
    } else {
      assert raws[..k] == raws;
    }
  }

  /** The generator `Genre.parse(genre) for genre in raws`. */
  function ParseGenreList(raws: seq<RawGenre>): Result<seq<Genre>, PyError> {
    ParseEach(ParseGenre, raws)
  }

  /** The effect of one `genres.update(...)` call on the accumulated set. */
  function UpdateSpec(acc: set<Genre>, raws: seq<RawGenre>): Result<set<Genre>, PyError> {
    match ParseGenreList(raws)
    case Err(e) => Err(e)
    case Ok(gs) => Ok(acc + Elems(gs))
  }

  /** `set.update` over the generator: adds the parsed tags one at a time. */
  method UpdateGenres(acc: set<Genre>, raws: seq<RawGenre>) returns (r: Result<set<Genre>, PyError>)
    ensures r == UpdateSpec(acc, raws)
  {
    var genres := acc;
    var i := 0;
    while i < |raws|
      invariant 0 <= i <= |raws|
      invariant ParseGenreList(raws[..i]).Ok?
      invariant genres == acc + Elems(ParseGenreList(raws[..i]).value)
    {
      assert raws[..i + 1][..i] == raws[..i];
      var g := ParseGenre(raws[i]);
      if g.Err? {
        ParseEachErrPersists(ParseGenre, raws, i + 1);
        return Err(g.error);
      }
      genres := genres + {g.value};
      i := i + 1;
    }
    assert raws[..i] == raws;
    r := Ok(genres);
  }

  type ImageVariants = map<string, Option<string>>

  /** The "images" object: format ("jpg", "webp") to size variant to URL; `None` is JSON null. */
  type Images = map<string, ImageVariants>

  /** An entry of the "titles" list; only its "title" key is read. */
  datatype RawTitle = RawTitle(title: Option<string>)

  /** A decoded anime object, restricted to the keys `Anime.parse` reads. */
  datatype RawAnime = RawAnime(
    malId: Option<int>,
    url: Option<string>,
    titles: Option<seq<RawTitle>>,
    images: Option<Images>,
    themes: Option<seq<RawGenre>>,
    genres: Option<seq<RawGenre>>,
    explicitGenres: Option<seq<RawGenre>>,
    demographics: Option<seq<RawGenre>>,
    source: Option<string>)

  datatype Anime = Anime(
    malId: int,
    malUrl: string,
    title: string,
    images: Images,
    genres: set<Genre>,
    source: string)

  /** Python truthiness of an optional string: present, not null and not empty. */
  predicate Truthy(v: Option<string>) {
    v.Some? && v.value != ""
  }

  /**
   * `Anime.get_image_url`: `jpg.get("large_image_url", jpg.get("image_url"))`.
   * The fallback is used only when the "large_image_url" key is absent; a
   * present but null or empty value is selected as it is and then rejected.
   */
  function GetImageUrl(a: Anime): (r: Result<string, PyError>)
    ensures "jpg" !in a.images <==> r == Err(KeyError("jpg"))
    ensures "jpg" in a.images && "large_image_url" in a.images["jpg"] && Truthy(a.images["jpg"]["large_image_url"]) ==>
      r == Ok(a.images["jpg"]["large_image_url"].value)
    ensures "jpg" in a.images && "large_image_url" in a.images["jpg"] && !Truthy(a.images["jpg"]["large_image_url"]) ==>
      r == Err(ValueError(a.malId))
    ensures "jpg" in a.images && "large_image_url" !in a.images["jpg"] ==>
      (r.Ok? <==> "image_url" in a.images["jpg"] && Truthy(a.images["jpg"]["image_url"]))
    ensures "jpg" in a.images && "large_image_url" !in a.images["jpg"] && r.Ok? ==>
      r.value == a.images["jpg"]["image_url"].value
    ensures ("jpg" in a.images && "large_image_url" !in a.images["jpg"]
             && !("image_url" in a.images["jpg"] && Truthy(a.images["jpg"]["image_url"]))) ==>
      r == Err(ValueError(a.malId))
    ensures "jpg" in a.images && a.images["jpg"] == map[] ==> r == Err(ValueError(a.malId))
    ensures r.Ok? ==> r.value != ""
  {
    if "jpg" !in a.images then Err(KeyError("jpg"))
    else
      var jpg := a.images["jpg"];
      var fallback := if "image_url" in jpg then jpg["image_url"] else None;
      var selected := if "large_image_url" in jpg then jpg["large_image_url"] else fallback;
      if Truthy(selected) then Ok(selected.value) else Err(ValueError(a.malId))
  }

  lemma FallbackExample()
    ensures GetImageUrl(Anime(1, "", "", map["jpg" := map["image_url" := Some("https://x/y.jpg")]], {}, ""))
         == Ok("https://x/y.jpg")
  {
  }

  function ListOrEmpty(l: Option<seq<RawGenre>>): seq<RawGenre> {
    l.GetOr([])
  }

  /** The four raw tag lists in the order `Anime.parse` consumes them; a missing key is `[]`. */
  function AllRawGenres(raw: RawAnime): seq<RawGenre> {
    ListOrEmpty(raw.themes) + ListOrEmpty(raw.genres) + ListOrEmpty(raw.explicitGenres) + ListOrEmpty(raw.demographics)
  }

  /** The scalar fields of `Anime(...)`, read after the tag set is built. */
  function BuildAnime(raw: RawAnime, genres: set<Genre>): (r: Result<Anime, PyError>)
    ensures r.Ok? <==>
      raw.malId.Some? && raw.url.Some? && raw.titles.Some? && |raw.titles.value| > 0
      && raw.titles.value[0].title.Some? && raw.images.Some?
    ensures raw.malId.None? ==> r == Err(KeyError("mal_id"))
    ensures raw.malId.Some? && raw.url.None? ==> r == Err(KeyError("url"))
    ensures raw.malId.Some? && raw.url.Some? && raw.titles.None? ==> r == Err(KeyError("titles"))
    ensures raw.malId.Some? && raw.url.Some? && raw.titles.Some? && |raw.titles.value| == 0 ==> r == Err(IndexError)
    ensures (raw.malId.Some? && raw.url.Some? && raw.titles.Some? && |raw.titles.value| > 0
             && raw.titles.value[0].title.None?) ==>
      r == Err(KeyError("title"))
    ensures (raw.malId.Some? && raw.url.Some? && raw.titles.Some? && |raw.titles.value| > 0
             && raw.titles.value[0].title.Some? && raw.images.None?) ==>
      r == Err(KeyError("images"))
    ensures r.Ok? ==> r.value.genres == genres && r.value.source == raw.source.GetOr("")
  {
    if raw.malId.None? then Err(KeyError("mal_id"))
    else if raw.url.None? then Err(KeyError("url"))
    else if raw.titles.None? then Err(KeyError("titles"))
    else if |raw.titles.value| == 0 then Err(IndexError)
    else if raw.titles.value[0].title.None? then Err(KeyError("title"))
    else if raw.images.None? then Err(KeyError("images"))
    else Ok(Anime(raw.malId.value, raw.url.value, raw.titles.value[0].title.value,
                  raw.images.value, genres, raw.source.GetOr("")))
  }

  /** What `Anime.parse` computes: four updates of an empty set, then the record. */
  function ParseAnimeSpec(raw: RawAnime): Result<Anime, PyError> {
    var s1 := UpdateSpec({}, ListOrEmpty(raw.themes));
    if s1.Err? then Err(s1.error) else
    var s2 := UpdateSpec(s1.value, ListOrEmpty(raw.genres));
    if s2.Err? then Err(s2.error) else
    var s3 := UpdateSpec(s2.value, ListOrEmpty(raw.explicitGenres));
    if s3.Err? then Err(s3.error) else
    var s4 := UpdateSpec(s3.value, ListOrEmpty(raw.demographics));
    if s4.Err? then Err(s4.error) else
    BuildAnime(raw, s4.value)
  }

  /** `Anime.parse`, with its local set updated by four successive calls. */
  method ParseAnime(raw: RawAnime) returns (r: Result<Anime, PyError>)
    ensures r == ParseAnimeSpec(raw)
  {
    var genres: set<Genre> := {};
    var u := UpdateGenres(genres, ListOrEmpty(raw.themes));
    if u.Err? { return Err(u.error); }
    u := UpdateGenres(u.value, ListOrEmpty(raw.genres));
    if u.Err? { return Err(u.error); }
    u := UpdateGenres(u.value, ListOrEmpty(raw.explicitGenres));
    if u.Err? { return Err(u.error); }
    u := UpdateGenres(u.value, ListOrEmpty(raw.demographics));
    if u.Err? { return Err(u.error); }
    r := BuildAnime(raw, u.value);
  }

  /** Parsing a concatenation succeeds exactly when both parts do, and yields both results in order. */
  lemma ParseGenreListConcat(a: seq<RawGenre>, b: seq<RawGenre>)
    ensures ParseGenreList(a + b).Ok? <==> ParseGenreList(a).Ok? && ParseGenreList(b).Ok?
    ensures ParseGenreList(a + b).Ok? ==>
      ParseGenreList(a + b).value == ParseGenreList(a).value + ParseGenreList(b).value
  {
    var ab := a + b;
    if ParseGenreList(ab).Ok? {
      forall i | 0 <= i < |a| ensures ParseGenre(a[i]).Ok? {
        assert ab[i] == a[i];
      }
      forall i | 0 <= i < |b| ensures ParseGenre(b[i]).Ok? {
        assert ab[|a| + i] == b[i];
      }
    }
    if ParseGenreList(a).Ok? && ParseGenreList(b).Ok? {
      forall i | 0 <= i < |ab| ensures ParseGenre(ab[i]).Ok? {
        if i < |a| { assert ab[i] == a[i]; } else { assert ab[i] == b[i - |a|]; }
      }
      var gab, ga, gb := ParseGenreList(ab).value, ParseGenreList(a).value, ParseGenreList(b).value;
      assert |gab| == |ga + gb|;
      forall i | 0 <= i < |gab| ensures gab[i] == (ga + gb)[i] {
        if i < |a| { assert ab[i] == a[i]; } else { assert ab[i] == b[i - |a|]; }
      }
    }
  }

  /** Every parsed tag comes from some raw entry, and every raw entry yields a tag. */
  lemma ParsedTagsAreParsedEntries(raws: seq<RawGenre>, g: Genre)
    requires ParseGenreList(raws).Ok?
    ensures g in Elems(ParseGenreList(raws).value) <==> exists e :: e in raws && ParseGenre(e) == Ok(g)
  {
    var gs := ParseGenreList(raws).value;
    if g in Elems(gs) {
      var i :| 0 <= i < |gs| && gs[i] == g;
      assert raws[i] in raws && ParseGenre(raws[i]) == Ok(g);
    }
    if e :| e in raws && ParseGenre(e) == Ok(g) {
      var i :| 0 <= i < |raws| && raws[i] == e;
      assert gs[i] == g;
    }
  }

  /** Whether the scalar keys are present does not depend on the tag set. */
  lemma BuildAnimeOkIndependent(raw: RawAnime, gs: set<Genre>)
    ensures BuildAnime(raw, gs).Ok? == BuildAnime(raw, {}).Ok?
    ensures BuildAnime(raw, gs).Ok? ==> BuildAnime(raw, gs).value.genres == gs
  {
  }

  /**
   * The result of `Anime.parse`: it succeeds exactly when every entry of the
   * four lists parses and the scalar keys are present; its tag set is then
   * the union of the four parsed lists.
   */
  lemma ParseAnimeGenresAreUnion(raw: RawAnime)
    ensures ParseAnimeSpec(raw).Ok? <==>
      ParseGenreList(AllRawGenres(raw)).Ok? && BuildAnime(raw, {}).Ok?
    ensures ParseAnimeSpec(raw).Ok? ==>
      ParseAnimeSpec(raw).value.genres == Elems(ParseGenreList(AllRawGenres(raw)).value)
  {
    var t, g, x, d := ListOrEmpty(raw.themes), ListOrEmpty(raw.genres), ListOrEmpty(raw.explicitGenres), ListOrEmpty(raw.demographics);
    ParseGenreListConcat(t, g);
    ParseGenreListConcat(t + g, x);
    ParseGenreListConcat(t + g + x, d);
    assert AllRawGenres(raw) == t + g + x + d;
    var allOk := ParseGenreList(t).Ok? && ParseGenreList(g).Ok? && ParseGenreList(x).Ok? && ParseGenreList(d).Ok?;
    if allOk {
      var vt, vg, vx, vd := ParseGenreList(t).value, ParseGenreList(g).value, ParseGenreList(x).value, ParseGenreList(d).value;
      var union := Elems(vt) + Elems(vg) + Elems(vx) + Elems(vd);
      assert Elems(vt + vg + vx + vd) == union;
      assert {} + Elems(vt) == Elems(vt);
      assert UpdateSpec({}, t) == Ok(Elems(vt));
      assert UpdateSpec(Elems(vt), g) == Ok(Elems(vt) + Elems(vg));
      assert UpdateSpec(Elems(vt) + Elems(vg), x) == Ok(Elems(vt) + Elems(vg) + Elems(vx));
      assert UpdateSpec(Elems(vt) + Elems(vg) + Elems(vx), d) == Ok(union);
      assert ParseAnimeSpec(raw) == BuildAnime(raw, union);
      BuildAnimeOkIndependent(raw, union);
    } else {
      assert ParseAnimeSpec(raw).Err?;
    }
  }

  /** The tag set has at most one element per raw entry, however the lists overlap. */
  lemma ParseAnimeGenresBounded(raw: RawAnime)
    requires ParseAnimeSpec(raw).Ok?
    ensures |ParseAnimeSpec(raw).value.genres| <= |AllRawGenres(raw)|
  {
    ParseAnimeGenresAreUnion(raw);
    ElemsCardinality(ParseGenreList(AllRawGenres(raw)).value);
  }

  /**
   * Repeating entries does not change the record: two raw objects with the same
   * scalar keys whose tag lists hold the same entries (in any order, with any
   * repetition) parse to the same record.
   */
  lemma ParseAnimeIgnoresRepetition(raw: RawAnime, raw': RawAnime)
    requires ParseAnimeSpec(raw).Ok?
    requires raw'.malId == raw.malId && raw'.url == raw.url && raw'.titles == raw.titles
    requires raw'.images == raw.images && raw'.source == raw.source
    requires Elems(AllRawGenres(raw')) == Elems(AllRawGenres(raw))
    ensures ParseAnimeSpec(raw') == ParseAnimeSpec(raw)
  {
    var all, all' := AllRawGenres(raw), AllRawGenres(raw');
    ParseAnimeGenresAreUnion(raw);
    assert ParseGenreList(all').Ok? by {
      forall i | 0 <= i < |all'| ensures ParseGenre(all'[i]).Ok? {
        assert all'[i] in Elems(all);
        var j :| 0 <= j < |all| && all[j] == all'[i];
      }
    }
    ParseAnimeGenresAreUnion(raw');
    var gs, gs' := ParseGenreList(all).value, ParseGenreList(all').value;
    forall g ensures g in Elems(gs') <==> g in Elems(gs) {
      ParsedTagsAreParsedEntries(all, g);
      ParsedTagsAreParsedEntries(all', g);
      assert forall e :: e in all <==> e in all' by {
        forall e ensures e in all <==> e in all' {
          assert e in all <==> e in Elems(all);
          assert e in all' <==> e in Elems(all');
        }
      }
    }
    assert Elems(gs') == Elems(gs);
  }

  /** Updating with one entry that parses adds its tag; updating with no entries changes nothing. */
  lemma UpdateSingle(acc: set<Genre>, raw: RawGenre)
    requires ParseGenre(raw).Ok?
    ensures UpdateSpec(acc, [raw]) == Ok(acc + {ParseGenre(raw).value})
    ensures UpdateSpec(acc, []) == Ok(acc)
  {
    var g := ParseGenre(raw).value;
    assert [raw][..0] == [];
    assert ParseGenreList([]) == Ok([]);
    assert ParseGenreList([raw]) == Ok([] + [g]);
    assert [] + [g] == [g];
    assert Elems([g]) == {g};
    assert Elems<Genre>([]) == {};
    assert acc + {} == acc;
  }

  /**
   * Deduplication is structural, not by id: two tags with the same id and
   * different names both stay in the set, though they hash equal.
   */
  lemma SameIdDifferentNameBothKept()
    ensures var raw := RawAnime(Some(1), Some("u"), Some([RawTitle(Some("t"))]), Some(map[]),
                                Some([RawGenre(Some(7), Some("a"), Some("Action"))]),
                                Some([RawGenre(Some(7), Some("a"), Some("Adventure"))]),
                                None, None, None);
            ParseAnimeSpec(raw).Ok? && |ParseAnimeSpec(raw).value.genres| == 2
            && forall g :: g in ParseAnimeSpec(raw).value.genres ==> GenreHash(g) == 7
  {
    var raw := RawAnime(Some(1), Some("u"), Some([RawTitle(Some("t"))]), Some(map[]),
                        Some([RawGenre(Some(7), Some("a"), Some("Action"))]),
                        Some([RawGenre(Some(7), Some("a"), Some("Adventure"))]),
                        None, None, None);
    var a, b := Genre(7, "a", "Action"), Genre(7, "a", "Adventure");
    UpdateSingle({}, RawGenre(Some(7), Some("a"), Some("Action")));
    UpdateSingle({a}, RawGenre(Some(7), Some("a"), Some("Adventure")));
    UpdateSingle({a, b}, RawGenre(Some(7), Some("a"), Some("Adventure")));
    assert ParseAnimeSpec(raw).value.genres == {a, b};
    assert a != b by { assert a.name[1] != b.name[1]; }
  }

  /** The scalar fields of a parsed record come from the raw object unchanged. */
  lemma ParseAnimeFields(raw: RawAnime)
    requires ParseAnimeSpec(raw).Ok?
    ensures var a := ParseAnimeSpec(raw).value;
      && raw.malId == Some(a.malId) && raw.url == Some(a.malUrl)
      && raw.titles.Some? && |raw.titles.value| > 0 && raw.titles.value[0].title == Some(a.title)
      && raw.images == Some(a.images)
      && a.source == (if raw.source.Some? then raw.source.value else "")
  {
  }
}
