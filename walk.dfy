/**
 * The directory walk that every scanner performs.
 *
 * `os.walk`, `Path.stat()` and `os.access` are filesystem I/O, so the walk is
 * an input: the sequence of `(dirpath, filenames)` listings the traversal
 * yields, each file name carrying what the filesystem answers about it.
 */
module DirWalk {

  datatype Option<T> = None | Some(value: T)

  /** The two fields of a successful `stat()` that the scanners read. */
  datatype Stat = Stat(size: nat, mode: nat)

  /**
   * One name from a directory listing. `stat` is `None` when `stat()` raises
   * (permission denied, file removed mid-scan, broken link); `executable` is
   * the answer of `os.access(path, os.X_OK)`.
   */
  datatype FileInfo = FileInfo(name: string, stat: Option<Stat>, executable: bool)

  /** One `(dirpath, _, filenames)` triple yielded by `os.walk`. */
  datatype DirListing = DirListing(dirpath: string, files: seq<FileInfo>)

  /** A visited file: the path `Path(dirpath) / name` and its file information. */
  datatype Entry = Entry(path: string, file: FileInfo)

  /** `str(Path(dir) / name)`, without pathlib's normalisation of separators. */
  function JoinPath(dir: string, name: string): string
  {
    dir + "/" + name
  }

  /** The files of one listing, in listing order, with their full paths. */
  function Entries(d: DirListing): (es: seq<Entry>)
    ensures |es| == |d.files|
    ensures forall j :: 0 <= j < |es| ==>
      es[j] == Entry(JoinPath(d.dirpath, d.files[j].name), d.files[j])
  {
    seq(|d.files|, j requires 0 <= j < |d.files| =>
      Entry(JoinPath(d.dirpath, d.files[j].name), d.files[j]))
  }

  /** Every file the nested loops over the walk visit, in visiting order. */
  function Flatten(walk: seq<DirListing>): seq<Entry>
  {
    if walk == [] then [] else Flatten(walk[..|walk| - 1]) + Entries(walk[|walk| - 1])
  }

  lemma FlattenStep(walk: seq<DirListing>, i: nat)
    requires i < |walk|
    ensures Flatten(walk[..i + 1]) == Flatten(walk[..i]) + Entries(walk[i])
  {
    assert walk[..i + 1][..i] == walk[..i];
  }

  lemma EntriesStep(d: DirListing, j: nat)
    requires j < |d.files|
    ensures Entries(d)[..j + 1] ==
      Entries(d)[..j] + [Entry(JoinPath(d.dirpath, d.files[j].name), d.files[j])]
  {
  }
}
