/** The metadata repository: the `metadata` table of last-run dates, keyed by file name. */
module MetadataProcessing {
  import opened Wrappers
  import opened PathLib
  import opened Dates

  /** The `metadata` table: `file_name` (its primary key) to the `last_modified` text. */
  type Records = map<string, string>

  /** The row `fetchone()` gives for a key: the stored text, or nothing. */
  function Lookup(records: Records, fileName: string): (r: Option<string>)
    ensures r.Some? <==> fileName in records
    ensures r.Some? ==> r.value == records[fileName]
  {
    if fileName in records then Some(records[fileName]) else None
  }

  class MetadataDb {
    var records: Records

    constructor(initial: Records)
      ensures records == initial
    {
      records := initial;
    }

    /** `SELECT last_modified FROM metadata WHERE file_name = ?` followed by `fetchone()`; the table is left as it is. */
    method SelectLastModified(fileName: string) returns (row: Option<string>)
      ensures row.Some? <==> fileName in records
      ensures row.Some? ==> row.value == records[fileName]
      ensures row == Lookup(records, fileName)
    {
      if fileName in records {
        row := Some(records[fileName]);
      } else {
        row := None;
      }
    }

    /** `INSERT OR REPLACE INTO metadata (file_name, last_modified)`: the row under the key is written, whether or not it existed. */
    method InsertOrReplace(fileName: string, lastModified: string)
      modifies this
      ensures records == old(records)[fileName := lastModified]
    {
      records := records[fileName := lastModified];
    }
  }

  /** `update_sqlite_metadata`: the row for `fileName` records today's date as `%Y-%m-%d` text. */
  method UpdateSqliteMetadata(db: MetadataDb, fileName: string, today: CalendarDate)
    modifies db
    ensures db.records == old(db.records)[fileName := FormatDate(today)]
  {
    db.InsertOrReplace(fileName, FormatDate(today));
  }

  /** The table after one upsert per file, in list order, each keyed by the file's stem. */
  function CommitFiles(m: Records, files: seq<Path>, today: CalendarDate): Records
    decreases |files|
  {
    if files == [] then m
    else CommitFiles(m, files[..|files| - 1], today)[Stem(files[|files| - 1]) := FormatDate(today)]
  }

  /** `update_metadata_for_files`: one upsert per processed file, keyed by its stem. */
  method UpdateMetadataForFiles(db: MetadataDb, files: seq<Path>, today: CalendarDate)
    modifies db
    ensures db.records == CommitFiles(old(db.records), files, today)
  {
    for i := 0 to |files|
      invariant db.records == CommitFiles(old(db.records), files[..i], today)
    {
      assert files[..i + 1][..i] == files[..i];
      UpdateSqliteMetadata(db, Stem(files[i]), today);
    }
    assert files[..|files|] == files;
  }

  // ---- properties of the commit ----

  /** The keys a list of processed files commits. */
  function Stems(files: seq<Path>): set<string> {
    set f | f in files :: Stem(f)
  }

  /** Reference definition: the committed stems map to today, every other row is as it was. */
  function Committed(m: Records, stems: set<string>, today: CalendarDate): (r: Records)
    ensures r.Keys == m.Keys + stems
    ensures forall k :: k in stems ==> r[k] == FormatDate(today)
    ensures forall k :: k in m && k !in stems ==> r[k] == m[k]
  {
    map k | k in m.Keys + stems :: if k in stems then FormatDate(today) else m[k]
  }

  /** One more upsert of today's date adds its key to the committed set. */
  lemma CommittedAddStem(m: Records, stems: set<string>, s: string, today: CalendarDate)
    ensures Committed(m, stems, today)[s := FormatDate(today)] == Committed(m, stems + {s}, today)
  {
    var l := Committed(m, stems, today)[s := FormatDate(today)];
    var r := Committed(m, stems + {s}, today);
    assert l.Keys == r.Keys;
    forall k | k in l.Keys ensures l[k] == r[k] {
    }
  }

  /** The upserts in list order give exactly the reference table. */
  lemma {:induction false} CommitFilesIsCommitted(m: Records, files: seq<Path>, today: CalendarDate)
    ensures CommitFiles(m, files, today) == Committed(m, Stems(files), today)
    decreases |files|
  {
    if files == [] {
      assert Stems(files) == {};
      assert Committed(m, {}, today) == m;
    } else {
      var init := files[..|files| - 1];
      var last := files[|files| - 1];
      CommitFilesIsCommitted(m, init, today);
      StemsOfPrefix(files);
      CommittedAddStem(m, Stems(init), Stem(last), today);
    }
  }

  /** Committing one file upserts its stem with today's date. */
  lemma CommitOneFile(m: Records, p: Path, today: CalendarDate)
    ensures CommitFiles(m, [p], today) == m[Stem(p) := FormatDate(today)]
  {
    var files := [p];
    assert files[..0] == [] && files[0] == p;
  }

  /** The stems of a list are those of all but its last file, plus the last one's. */
  lemma StemsOfPrefix(files: seq<Path>)
    requires files != []
    ensures Stems(files) == Stems(files[..|files| - 1]) + {Stem(files[|files| - 1])}
  {
    assert files == files[..|files| - 1] + [files[|files| - 1]];
  }

  /**
   * After the update every processed file's stem holds today's date, every other
   * row is unchanged and nothing else is added.
   */
  lemma CommitClosedForm(m: Records, files: seq<Path>, today: CalendarDate)
    ensures var r := CommitFiles(m, files, today);
      (forall k :: k in r <==> k in m || k in Stems(files)) &&
      (forall f :: f in files ==> r[Stem(f)] == FormatDate(today)) &&
      (forall k :: k in m && k !in Stems(files) ==> r[k] == m[k])
  {
    CommitFilesIsCommitted(m, files, today);
  }

  /** The order of the upserts does not matter: the same set of stems gives the same table. */
  lemma CommitOrderIndependent(m: Records, a: seq<Path>, b: seq<Path>, today: CalendarDate)
    requires Stems(a) == Stems(b)
    ensures CommitFiles(m, a, today) == CommitFiles(m, b, today)
  {
    CommitFilesIsCommitted(m, a, today);
    CommitFilesIsCommitted(m, b, today);
  }

  /** Repeating the update on the same files, on the same day, changes nothing. */
  lemma CommitIdempotent(m: Records, files: seq<Path>, today: CalendarDate)
    ensures CommitFiles(CommitFiles(m, files, today), files, today) == CommitFiles(m, files, today)
  {
    var once := CommitFiles(m, files, today);
    CommitFilesIsCommitted(m, files, today);
    CommitFilesIsCommitted(once, files, today);
  }

  /** The text committed for a file parses back, with the scheduler's format, to the day of the run. */
  lemma CommittedDateParses(m: Records, files: seq<Path>, today: CalendarDate, f: Path)
    requires f in files
    ensures Stem(f) in CommitFiles(m, files, today)
    ensures ParseDate(CommitFiles(m, files, today)[Stem(f)]) == Some(today)
  {
    CommitClosedForm(m, files, today);
    ParseFormatted(today);
  }
}
