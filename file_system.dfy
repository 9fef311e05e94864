/**
 * The local filesystem, as a map from path to contents, and the snapshot
 * file's serialization. Pickle's byte format is not modelled: a file either
 * holds raw bytes (an image) or a pickled Python value, seen structurally.
 */
module FileSystem {
  import opened Wrappers
  import opened Schema

  /** The snapshot file both programs use, relative to the working directory. */
  const SNAPSHOT_PATH: string := "animes.pkl"

  /** The Python values a snapshot can hold, as far as the loaders inspect them. */
  datatype PyValue = PyList(items: seq<PyValue>) | PyAnime(anime: Anime) | PyOther

  datatype FileData = Bytes(data: seq<bv8>) | Pickled(value: PyValue)

  type Files = map<string, FileData>

  datatype LoadError = UnpicklingError

  /** `pickle.load`: a file that is not a pickle raises. */
  function Unpickle(d: FileData): (r: Result<PyValue, LoadError>)
    ensures r.Ok? <==> d.Pickled?
  {
    match d
    case Pickled(v) => Ok(v)
    case Bytes(_) => Err(UnpicklingError)
  }

  /** `pickle.dump` of a list of records. */
  function Pickle(catalog: seq<Anime>): FileData {
    Pickled(PyList(seq(|catalog|, i requires 0 <= i < |catalog| => PyAnime(catalog[i]))))
  }

  /** The catalog a loaded value denotes, when it is a list of records. */
  function AsCatalog(v: PyValue): (r: Option<seq<Anime>>)
    ensures r.Some? <==> v.PyList? && forall i :: 0 <= i < |v.items| ==> v.items[i].PyAnime?
    ensures r.Some? ==> |r.value| == |v.items| && forall i :: 0 <= i < |v.items| ==> v.items[i] == PyAnime(r.value[i])
  {
    if v.PyList? && forall i :: 0 <= i < |v.items| ==> v.items[i].PyAnime? then
      Some(seq(|v.items|, i requires 0 <= i < |v.items| && v.items[i].PyAnime? => v.items[i].anime))
    else None
  }

  /** A snapshot loads back as the catalog that was dumped. */
  lemma PickleRoundTrip(catalog: seq<Anime>)
    ensures Unpickle(Pickle(catalog)).Ok?
    ensures AsCatalog(Unpickle(Pickle(catalog)).value) == Some(catalog)
  {
    var v := Unpickle(Pickle(catalog)).value;
    assert AsCatalog(v).Some?;
    assert AsCatalog(v).value == catalog;
  }

  /** The working directory's files; the only state the pipeline shares. */
  class Disk {
    var files: Files

    constructor (initial: Files)
      ensures files == initial
    {
      files := initial;
    }

    /** `os.path.exists`. */
    method Exists(path: string) returns (b: bool)
      ensures b <==> path in files
    {
      b := path in files;
    }

    /** Reading a file the caller has just seen exist. */
    method Read(path: string) returns (d: FileData)
      requires path in files
      ensures d == files[path]
    {
      d := files[path];
    }

    /** `open(path, "wb")` followed by a write: the file holds exactly `d` and nothing else changes. */
    method Write(path: string, d: FileData)
      modifies this
      ensures files == old(files)[path := d]
    {
      files := files[path := d];
    }
  }
}
