/**
 * The collaborators the orchestration core talks to, reduced to what it observes:
 * the local disk, the CSV library, HTTP responses, and the errors they raise.
 */
module Environment {
  import opened Wrappers
  import opened PathLib

  newtype byte = x: int | 0 <= x < 0x100

  /** The local file system: file contents by path. */
  type Files = map<Path, seq<byte>>

  /** A data frame read with every field as text: the header row and the data rows. */
  datatype Table = Table(header: seq<string>, rows: seq<seq<string>>)

  /** polars' CSV reader and writer, used by the transform: parsing may fail; rendering a frame always produces bytes. */
  datatype CsvCodec = CsvCodec(parse: seq<byte> -> Option<Table>, render: Table -> seq<byte>)

  /** An HTTP response: its status code and the bytes of its body. */
  datatype Response = Response(status: int, body: seq<byte>)

  /**
   * The run's fixed directories and its external services. The transform reads and
   * writes with polars (`codec`); the load reads with pandas (`loadParse`), a
   * different library, so a file one of them accepts the other may reject.
   */
  datatype Config = Config(rawDir: Path, transformedDir: Path, fetch: string -> Response,
                           codec: CsvCodec, loadParse: seq<byte> -> Option<Table>)

  /** The exceptions that end a run. */
  datatype EtlError =
    | MissingTheme(title: string)           // `"Hospitals" in None` raises `TypeError`
    | MalformedDate(text: string)           // `strptime` raises `ValueError`
    | DownloadFailed(fileName: string, url: string) // `HTTPError` for a status other than 200
    | TransformFailed(path: Path)           // the CSV read in the worker raises
    | DuplicateColumns(path: Path)          // polars' `rename` raises `DuplicateError`
    | OpenFailed(path: Path)                // `open("wb")` raises `FileNotFoundError` or `ValueError`

  /**
   * A file name `open("wb")` can create inside one of the run's directories. Only
   * the raw and transformed directories are created, so a name holding `/` leads
   * into a sub-directory that does not exist; a NUL character is refused outright.
   */
  predicate CreatableName(name: string) {
    '/' !in name && '\0' !in name
  }

  /** Appending `.csv` adds neither a `/` nor a NUL. */
  lemma CreatableCsvName(t: string)
    ensures CreatableName(t + ".csv") <==> CreatableName(t)
  {
    var n := t + ".csv";
    assert forall k :: 0 <= k < |t| ==> n[k] == t[k];
    assert forall k :: |t| <= k < |n| ==> n[k] in ".csv";
  }

  /** The local disk, updated in place by downloads and transforms. */
  class LocalDisk {
    var files: Files

    constructor (initial: Files)
      ensures files == initial
    {
      files := initial;
    }

    /**
     * `(dir / name).open("wb")`: creates the file or truncates it; a name that
     * cannot be created raises and the disk is left as it was.
     */
    method OpenForWrite(dir: Path, name: string) returns (ok: bool)
      modifies this
      ensures ok == CreatableName(name)
      ensures files == if ok then old(files)[Join(dir, name) := []] else old(files)
    {
      if !CreatableName(name) {
        return false;
      }
      files := files[Join(dir, name) := []];
      return true;
    }

    /** `file.write(chunk)` on a file opened for writing. */
    method Append(p: Path, chunk: seq<byte>)
      requires p in files
      modifies this
      ensures files == old(files)[p := old(files)[p] + chunk]
    {
      files := files[p := files[p] + chunk];
    }

    /** Writes a whole file, replacing what was there. */
    method WriteFile(p: Path, content: seq<byte>)
      modifies this
      ensures files == old(files)[p := content]
    {
      files := files[p := content];
    }
  }
}
