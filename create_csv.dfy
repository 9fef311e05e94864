/**
 * The CSV export: the snapshot is validated (missing, or not a list of
 * records, exits with a distinguished code), and each record becomes one row
 * with a lower-cased title, its local image path and its tag names sorted and
 * joined with '|'. Pandas and the CSV text format are not modelled; a row is
 * a datatype whose fields are the output columns in order.
 */
module CreateCsv {
  import opened Wrappers
  import opened Schema
  import opened AssetPath
  import opened FileSystem

  const ERR_BASE: int := 1
  const ERR_NO_PICKLE: int := ERR_BASE + 1
  const ERR_INVALID_PICKLE: int := ERR_NO_PICKLE + 1

  const GENRE_SEPARATOR: char := '|'

  /** The two snapshot error codes are 2 and 3, adjacent and above the base. */
  lemma ErrorCodes()
    ensures ERR_NO_PICKLE == 2 && ERR_INVALID_PICKLE == 3
    ensures ERR_BASE < ERR_NO_PICKLE && ERR_INVALID_PICKLE == ERR_NO_PICKLE + 1
  {
  }

  // ------------------------------------------------------------ lower case

  function LowerChar(c: char): char {
    if 'A' <= c <= 'Z' then (c as int - 'A' as int + 'a' as int) as char else c
  }

  /** `str.lower`, on the ASCII letters. */
  function Lower(s: string): string {
    seq(|s|, i requires 0 <= i < |s| => LowerChar(s[i]))
  }

  /** Lower-casing keeps the length, leaves no upper-case letter, changes only letters and is idempotent. */
  lemma LowerProperties(s: string)
    ensures |Lower(s)| == |s|
    ensures forall i :: 0 <= i < |s| ==> !('A' <= Lower(s)[i] <= 'Z')
    ensures forall i :: 0 <= i < |s| ==> (Lower(s)[i] == s[i] <==> !('A' <= s[i] <= 'Z'))
    ensures Lower(Lower(s)) == Lower(s)
  {
  }

  // ------------------------------------------------------- string order

  /** Python's `<=` on strings: lexicographic by code point, a prefix first. */
  predicate LexLe(a: string, b: string)
    decreases |a|
  {
    |a| == 0 || (|b| > 0 && (a[0] < b[0] || (a[0] == b[0] && LexLe(a[1..], b[1..]))))
  }

  lemma {:induction false} LexLeRefl(a: string)
    ensures LexLe(a, a)
    decreases |a|
  {
    if |a| > 0 {
      LexLeRefl(a[1..]);
    }
  }

  lemma {:induction false} LexLeTotal(a: string, b: string)
    ensures LexLe(a, b) || LexLe(b, a)
    decreases |a|
  {
    if |a| > 0 && |b| > 0 && a[0] == b[0] {
      LexLeTotal(a[1..], b[1..]);
    }
  }

  lemma {:induction false} LexLeTrans(a: string, b: string, c: string)
    requires LexLe(a, b) && LexLe(b, c)
    ensures LexLe(a, c)
    decreases |a|
  {
    if |a| > 0 && |b| > 0 && |c| > 0 && a[0] == b[0] && b[0] == c[0] {
      LexLeTrans(a[1..], b[1..], c[1..]);
    }
  }

  lemma {:induction false} LexLeAntisym(a: string, b: string)
    requires LexLe(a, b) && LexLe(b, a)
    ensures a == b
    decreases |a|
  {
    if |a| > 0 && |b| > 0 {
      LexLeAntisym(a[1..], b[1..]);
      assert a == [a[0]] + a[1..] && b == [b[0]] + b[1..];
    }
  }

  predicate SortedStrings(s: seq<string>) {
    forall i, j :: 0 <= i < j < |s| ==> LexLe(s[i], s[j])
  }

  // ------------------------------------------------------- sorted names

  /** The tags of a set that carry a given name. */
  ghost function NamedAs(gs: set<Genre>, n: string): set<Genre> {
    set g | g in gs && g.name == n
  }

  /** `g` is a tag of `gs` whose name no other tag's name precedes. */
  ghost predicate IsLeast(g: Genre, gs: set<Genre>) {
    g in gs && forall h :: h in gs ==> LexLe(g.name, h.name)
  }

  /** Adding a tag to a set with a least element keeps a least element. */
  lemma LeastOfInsert(x: Genre, m: Genre, rest: set<Genre>)
    requires IsLeast(m, rest)
    ensures IsLeast(x, rest + {x}) || IsLeast(m, rest + {x})
  {
    LexLeTotal(x.name, m.name);
    if LexLe(x.name, m.name) {
      forall h | h in rest + {x} ensures LexLe(x.name, h.name) {
        if h == x {
          LexLeRefl(x.name);
        } else {
          LexLeTrans(x.name, m.name, h.name);
        }
      }
    }
  }

  lemma {:induction false} ExistsMinName(gs: set<Genre>)
    requires gs != {}
    ensures exists g :: IsLeast(g, gs)
    decreases |gs|
  {
    var x :| x in gs;
    var rest := gs - {x};
    assert gs == rest + {x};
    if rest == {} {
      LexLeRefl(x.name);
      assert IsLeast(x, gs);
    } else {
      ExistsMinName(rest);
      var m :| IsLeast(m, rest);
      LeastOfInsert(x, m, rest);
    }
  }

  /** A tag whose name no other tag's name precedes. */
  ghost function MinName(gs: set<Genre>): (g: Genre)
    requires gs != {}
    ensures IsLeast(g, gs)
  {
    ExistsMinName(gs);
    var g :| IsLeast(g, gs);
    g
  }

  /** `sorted(map(lambda g: g.name, s))`. */
  ghost function SortedNames(gs: set<Genre>): seq<string>
    decreases gs
  {
    if gs == {} then []
    else
      var g := MinName(gs);
      [g.name] + SortedNames(gs - {g})
  }

  /** Removing one tag removes one occurrence of its name. */
  lemma NamedAsRemove(gs: set<Genre>, g: Genre, n: string)
    requires g in gs
    ensures |NamedAs(gs, n)| == |NamedAs(gs - {g}, n)| + (if g.name == n then 1 else 0)
  {
    if g.name == n {
      assert NamedAs(gs, n) == NamedAs(gs - {g}, n) + {g};
    } else {
      assert NamedAs(gs, n) == NamedAs(gs - {g}, n);
    }
  }

  /** A name counted for a set is the name of one of its tags. */
  lemma CountedNameIsTagName(gs: set<Genre>, names: seq<string>, j: int)
    requires forall n :: multiset(names)[n] == |NamedAs(gs, n)|
    requires 0 <= j < |names|
    ensures exists h :: h in gs && h.name == names[j]
  {
    assert names[j] in multiset(names);
    var h :| h in NamedAs(gs, names[j]);
  }

  lemma {:induction false} SortedNamesLength(gs: set<Genre>)
    ensures |SortedNames(gs)| == |gs|
    decreases gs
  {
    if gs != {} {
      SortedNamesLength(gs - {MinName(gs)});
    }
  }

  lemma {:induction false} SortedNamesCounts(gs: set<Genre>)
    ensures forall n :: multiset(SortedNames(gs))[n] == |NamedAs(gs, n)|
    decreases gs
  {
    if gs == {} {
      forall n ensures multiset(SortedNames(gs))[n] == |NamedAs(gs, n)| {
        assert NamedAs(gs, n) == {};
      }
    } else {
      var g := MinName(gs);
      SortedNamesCounts(gs - {g});
      assert SortedNames(gs) == [g.name] + SortedNames(gs - {g});
      forall n ensures multiset(SortedNames(gs))[n] == |NamedAs(gs, n)| {
        NamedAsRemove(gs, g, n);
      }
    }
  }

  /** A string that precedes every element of an ascending sequence can be put in front of it. */
  lemma PrependSorted(x: string, tail: seq<string>)
    requires SortedStrings(tail)
    requires forall j :: 0 <= j < |tail| ==> LexLe(x, tail[j])
    ensures SortedStrings([x] + tail)
  {
    var r := [x] + tail;
    forall i, j | 0 <= i < j < |r| ensures LexLe(r[i], r[j]) {
      assert r[j] == tail[j - 1];
      if i > 0 {
        assert r[i] == tail[i - 1];
      }
    }
  }

  lemma {:induction false} SortedNamesSorted(gs: set<Genre>)
    ensures SortedStrings(SortedNames(gs))
    decreases gs
  {
    if gs != {} {
      var g := MinName(gs);
      var rest := gs - {g};
      SortedNamesSorted(rest);
      SortedNamesCounts(rest);
      var tail := SortedNames(rest);
      forall j | 0 <= j < |tail| ensures LexLe(g.name, tail[j]) {
        CountedNameIsTagName(rest, tail, j);
      }
      PrependSorted(g.name, tail);
    }
  }

  /**
   * The sorted names are in ascending order and hold each tag's name once per
   * tag: tags that share a name contribute it as many times as there are such tags.
   */
  lemma SortedNamesCorrect(gs: set<Genre>)
    ensures |SortedNames(gs)| == |gs|
    ensures SortedStrings(SortedNames(gs))
    ensures forall n :: multiset(SortedNames(gs))[n] == |NamedAs(gs, n)|
  {
    SortedNamesLength(gs);
    SortedNamesSorted(gs);
    SortedNamesCounts(gs);
  }

  /** The head of an ascending sequence precedes every element. */
  lemma SortedHeadLeast(a: seq<string>, x: string)
    requires SortedStrings(a) && x in multiset(a)
    ensures LexLe(a[0], x)
  {
    var i :| 0 <= i < |a| && a[i] == x;
    if i == 0 {
      LexLeRefl(x);
    }
  }

  lemma TailMultiset(a: seq<string>)
    requires |a| > 0
    ensures multiset(a[1..]) == multiset(a) - multiset{a[0]}
  {
    assert a == [a[0]] + a[1..];
  }

  /**
   * Sorting is determined by its input: two ascending sequences with the same
   * elements are equal, so the result does not depend on which of several
   * equally-named tags is taken first.
   */
  lemma {:induction false} SortedUnique(a: seq<string>, b: seq<string>)
    requires SortedStrings(a) && SortedStrings(b) && multiset(a) == multiset(b)
    ensures a == b
    decreases |a|
  {
    assert |a| == |multiset(a)| == |multiset(b)| == |b|;
    if |a| > 0 {
      assert a[0] in multiset(b) && b[0] in multiset(a);
      SortedHeadLeast(b, a[0]);
      SortedHeadLeast(a, b[0]);
      LexLeAntisym(a[0], b[0]);
      TailMultiset(a);
      TailMultiset(b);
      SortedUnique(a[1..], b[1..]);
      assert a == [a[0]] + a[1..] && b == [b[0]] + b[1..];
    }
  }

  // ------------------------------------------------------ joined names

  /** `"|".join(names)`. */
  function Join(names: seq<string>): string
    decreases |names|
  {
    if |names| == 0 then ""
    else if |names| == 1 then names[0]
    else names[0] + [GENRE_SEPARATOR] + Join(names[1..])
  }

  function IndexOf(s: string, c: char): (i: nat)
    requires c in s
    ensures i < |s| && s[i] == c && forall j :: 0 <= j < i ==> s[j] != c
  {
    if s[0] == c then 0 else 1 + IndexOf(s[1..], c)
  }

  /** `s.split("|")`, the inverse reading of the genres column. */
  function Split(s: string): (parts: seq<string>)
    ensures |parts| > 0
    decreases |s|
  {
    if GENRE_SEPARATOR !in s then [s]
    else
      var i := IndexOf(s, GENRE_SEPARATOR);
      [s[..i]] + Split(s[i + 1..])
  }

  /** Splitting stops at the first separator. */
  lemma SplitAfterHead(head: string, tail: string)
    requires GENRE_SEPARATOR !in head
    ensures Split(head + [GENRE_SEPARATOR] + tail) == [head] + Split(tail)
  {
    var s := head + [GENRE_SEPARATOR] + tail;
    assert s[|head|] == GENRE_SEPARATOR;
    var i := IndexOf(s, GENRE_SEPARATOR);
    assert i == |head| by {
      assert forall j :: 0 <= j < |head| ==> s[j] == head[j];
    }
    assert s[..i] == head;
    assert s[i + 1..] == tail;
  }

  /** Names that contain no separator are recovered from the joined column. */
  lemma {:induction false} SplitJoin(names: seq<string>)
    requires |names| > 0
    requires forall i :: 0 <= i < |names| ==> GENRE_SEPARATOR !in names[i]
    ensures Split(Join(names)) == names
    decreases |names|
  {
    if |names| > 1 {
      SplitAfterHead(names[0], Join(names[1..]));
      SplitJoin(names[1..]);
      assert names == [names[0]] + names[1..];
    }
  }

  /** The genres column: the tag names sorted ascending and joined with '|'. */
  ghost function GenresColumn(gs: set<Genre>): string {
    Join(SortedNames(gs))
  }

  /**
   * An empty tag set gives the empty string; otherwise, when no name contains
   * '|', splitting the column gives back an ascending sequence holding each
   * tag's name once per tag.
   */
  lemma GenresColumnContents(gs: set<Genre>)
    ensures gs == {} ==> GenresColumn(gs) == ""
    ensures gs != {} && (forall g :: g in gs ==> GENRE_SEPARATOR !in g.name) ==>
      var names := Split(GenresColumn(gs));
      && SortedStrings(names)
      && |names| == |gs|
      && forall n :: multiset(names)[n] == |NamedAs(gs, n)|
  {
    SortedNamesCorrect(gs);
    var sorted := SortedNames(gs);
    if gs != {} && (forall g :: g in gs ==> GENRE_SEPARATOR !in g.name) {
      forall i | 0 <= i < |sorted| ensures GENRE_SEPARATOR !in sorted[i] {
        CountedNameIsTagName(gs, sorted, i);
      }
      SplitJoin(sorted);
    }
  }

  // --------------------------------------------------------------- rows

  /** One output row; columns in file order: mal_id, mal_url, title, genres, img_path. */
  datatype Row = Row(malId: int, malUrl: string, title: string, genres: string, imgPath: string)

  /** The projection of one record; `images` and `source` are not output. */
  ghost function ToRow(a: Anime): Row {
    Row(a.malId, a.malUrl, Lower(a.title), GenresColumn(a.genres), ImagePath(a.malId))
  }

  /** One row per record, in list order. */
  ghost function ToRows(animes: seq<Anime>): (rows: seq<Row>)
    ensures |rows| == |animes|
    ensures forall i :: 0 <= i < |animes| ==> rows[i] == ToRow(animes[i])
  {
    seq(|animes|, i requires 0 <= i < |animes| => ToRow(animes[i]))
  }

  /**
   * A row keeps the record's id and URL, lower-cases its title, and points at
   * the very file the downloader writes for that record; rows of distinct
   * records point at distinct files.
   */
  lemma RowColumns(a: Anime, b: Anime)
    ensures ToRow(a).malId == a.malId && ToRow(a).malUrl == a.malUrl
    ensures ToRow(a).title == Lower(a.title)
    ensures ToRow(a).imgPath == ImagePath(a.malId)
    ensures a.malId != b.malId ==> ToRow(a).imgPath != ToRow(b).imgPath
  {
    if ToRow(a).imgPath == ToRow(b).imgPath {
      ImagePathInjective(a.malId, b.malId);
    }
  }

  // --------------------------------------------------------- validation

  /** Uncaught exceptions of the script, which end it with a traceback instead of an exit code. */
  datatype CsvCrash = UnpicklingFailed | EmptyList | NotAllRecords

  datatype CsvRun = Exit(code: int) | Crash(reason: CsvCrash) | Export(rows: seq<Row>)

  /**
   * The script's top level: a missing snapshot exits with 2 before anything is
   * loaded; a loaded value that is not a list, or whose first element is not a
   * record, exits with 3; an empty list raises IndexError at `animes[0]`.
   */
  ghost function RunCreateCsv(files: Files): (r: CsvRun)
    ensures r == Exit(ERR_NO_PICKLE) <==> SNAPSHOT_PATH !in files
    ensures r == Exit(ERR_INVALID_PICKLE) <==>
      SNAPSHOT_PATH in files && files[SNAPSHOT_PATH].Pickled?
      && var v := files[SNAPSHOT_PATH].value;
         !v.PyList? || (|v.items| > 0 && !v.items[0].PyAnime?)
    ensures r == Crash(EmptyList) <==>
      SNAPSHOT_PATH in files && files[SNAPSHOT_PATH] == Pickled(PyList([]))
    ensures r.Export? <==>
      SNAPSHOT_PATH in files && files[SNAPSHOT_PATH].Pickled? && AsCatalog(files[SNAPSHOT_PATH].value).Some?
      && |files[SNAPSHOT_PATH].value.items| > 0
    ensures r.Export? ==> r.rows == ToRows(AsCatalog(files[SNAPSHOT_PATH].value).value)
    ensures r.Exit? ==> r.code == ERR_NO_PICKLE || r.code == ERR_INVALID_PICKLE
  {
    if SNAPSHOT_PATH !in files then Exit(ERR_NO_PICKLE)
    else
      match Unpickle(files[SNAPSHOT_PATH])
      case Err(_) => Crash(UnpicklingFailed)
      case Ok(v) =>
        if !v.PyList? then Exit(ERR_INVALID_PICKLE)
        else if |v.items| == 0 then Crash(EmptyList)
        else if !v.items[0].PyAnime? then Exit(ERR_INVALID_PICKLE)
        else
          match AsCatalog(v)
          case None => Crash(NotAllRecords)
          case Some(animes) => Export(ToRows(animes))
  }

  /** The snapshot the acquisition writes is exported row for row. */
  lemma ExportsWrittenSnapshot(files: Files, catalog: seq<Anime>)
    requires SNAPSHOT_PATH in files && files[SNAPSHOT_PATH] == Pickle(catalog) && |catalog| > 0
    ensures RunCreateCsv(files) == Export(ToRows(catalog))
  {
    PickleRoundTrip(catalog);
  }
}
