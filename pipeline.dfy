/**
 * `main`: the whole run as a sequence of steps — theme filter, schedule, extract and
 * transform, metadata commit, then the load of every readable `.csv` result.
 */
module Pipeline {
  import opened Wrappers
  import opened Seqs
  import opened PathLib
  import opened Dates
  import opened Environment
  import opened FileProcessing
  import opened FileLoad
  import opened MetadataProcessing
  import opened AsynchronousProcessing

  // ---- the theme filter ----

  /** A dataset whose theme list names `"Hospitals"`. */
  predicate HospitalTheme(d: Dataset) {
    d.theme.Some? && "Hospitals" in d.theme.value
  }

  /**
   * `[d for d in all_datasets if "Hospitals" in d.get("theme")]`; a dataset without a
   * theme raises. What is kept lists `"Hospitals"`; a failure names a dataset without a theme.
   */
  function ThemeFilter(all: seq<Dataset>): (r: Result<seq<Dataset>, EtlError>)
    ensures r.Success? ==> |r.value| <= |all| && forall d :: d in r.value ==> d in all && HospitalTheme(d)
    ensures r.Failure? ==> exists d :: d in all && d.theme.None? && r.error == MissingTheme(d.title)
    decreases |all|
  {
    if all == [] then Success([])
    else match all[0].theme
      case None => Failure(MissingTheme(all[0].title))
      case Some(themes) =>
        assert forall d :: d in all[1..] ==> d in all;
        Prepend(if "Hospitals" in themes then [all[0]] else [], ThemeFilter(all[1..]))
  }

  /**
   * The filter fails exactly when some dataset has no theme; otherwise it keeps
   * the datasets listing `"Hospitals"`, and only those, in their catalog order.
   */
  lemma {:induction false} ThemeFilterSpec(all: seq<Dataset>)
    ensures ThemeFilter(all).Success? <==> forall i :: 0 <= i < |all| ==> all[i].theme.Some?
    ensures ThemeFilter(all).Success? ==> IsSubsequence(ThemeFilter(all).value, all)
    ensures ThemeFilter(all).Success? ==> forall d :: d in ThemeFilter(all).value <==> d in all && HospitalTheme(d)
    decreases |all|
  {
    if all != [] {
      var tail := all[1..];
      assert forall i :: 0 <= i < |tail| ==> tail[i] == all[i + 1];
      ThemeFilterSpec(tail);
      if all[0].theme.None? {
        assert !all[0].theme.Some?;
      } else if ThemeFilter(tail).Success? {
        var rest := ThemeFilter(tail).value;
        assert all == [all[0]] + tail;
        SubsequenceCons(all[0], rest, tail);
        if "Hospitals" in all[0].theme.value {
          assert ThemeFilter(all).value == [all[0]] + rest;
        } else {
          assert ThemeFilter(all).value == rest;
        }
      }
    }
  }

  /** A repeated dataset listing `"Hospitals"` is kept as often as the catalog holds it. */
  lemma {:induction false} ThemeFilterCounts(all: seq<Dataset>)
    ensures ThemeFilter(all).Success? ==>
      forall d :: multiset(ThemeFilter(all).value)[d] == if HospitalTheme(d) then multiset(all)[d] else 0
    decreases |all|
  {
    if all != [] && all[0].theme.Some? {
      var tail := all[1..];
      ThemeFilterCounts(tail);
      if ThemeFilter(tail).Success? {
        var rest := ThemeFilter(tail).value;
        var kept := if HospitalTheme(all[0]) then [all[0]] else [];
        assert all == [all[0]] + tail;
        assert multiset(all) == multiset{all[0]} + multiset(tail);
        assert ThemeFilter(all).value == kept + rest;
        assert multiset(ThemeFilter(all).value) == multiset(kept) + multiset(rest);
      }
    }
  }

  // ---- the load ----

  /** `[file for file in updated_files if file.suffix == ".csv"]`: only `.csv` paths are kept. */
  function CsvPaths(paths: seq<Path>): (r: seq<Path>)
    ensures |r| <= |paths|
    ensures forall p :: p in r ==> p in paths && Suffix(p) == ".csv"
    decreases |paths|
  {
    if paths == [] then []
    else
      assert forall p :: p in paths[1..] ==> p in paths;
      (if Suffix(paths[0]) == ".csv" then [paths[0]] else []) + CsvPaths(paths[1..])
  }

  /** The `.csv` filter keeps the paths with suffix `.csv`, and only those, in their order. */
  lemma {:induction false} CsvPathsSpec(paths: seq<Path>)
    ensures forall p :: p in CsvPaths(paths) <==> p in paths && Suffix(p) == ".csv"
    ensures IsSubsequence(CsvPaths(paths), paths)
    decreases |paths|
  {
    if paths != [] {
      var rest := CsvPaths(paths[1..]);
      CsvPathsSpec(paths[1..]);
      assert paths == [paths[0]] + paths[1..];
      SubsequenceCons(paths[0], rest, paths[1..]);
      if Suffix(paths[0]) == ".csv" {
        assert CsvPaths(paths) == [paths[0]] + rest;
      } else {
        assert CsvPaths(paths) == rest;
      }
    }
  }

  /** A repeated `.csv` path is kept as often as it occurs. */
  lemma {:induction false} CsvPathsCounts(paths: seq<Path>)
    ensures forall p :: multiset(CsvPaths(paths))[p] == if Suffix(p) == ".csv" then multiset(paths)[p] else 0
    decreases |paths|
  {
    if paths != [] {
      var rest := CsvPaths(paths[1..]);
      var kept := if Suffix(paths[0]) == ".csv" then [paths[0]] else [];
      CsvPathsCounts(paths[1..]);
      assert paths == [paths[0]] + paths[1..];
      assert multiset(paths) == multiset{paths[0]} + multiset(paths[1..]);
      assert CsvPaths(paths) == kept + rest;
      assert multiset(CsvPaths(paths)) == multiset(kept) + multiset(rest);
    }
  }

  /**
   * The transform and the load read with different libraries: a raw file polars
   * parses and transforms can still be one pandas rejects, and the load then skips it.
   */
  lemma TransformedFileMayFailToLoad(files: Files, p: Path, transformedDir: Path, codec: CsvCodec, loadParse: seq<byte> -> Option<Table>)
    requires p in files && codec.parse(files[p]) == Some(Table([], [])) && loadParse(files[p]) == None
    requires TransformedPath(transformedDir, p) != p
    ensures Transformed(files, p, transformedDir, codec).1 == Success(p)
    ensures ReadCsv(Transformed(files, p, transformedDir, codec).0, p, loadParse) == None
  {
    assert Distinct(RenamedFrame(Table([], [])).header);
  }

  /** The read tasks gathered: one `read_csv` result per path, in path order. */
  function ReadAll(files: Files, paths: seq<Path>, parse: seq<byte> -> Option<Table>): (r: seq<Option<(string, Table)>>)
    ensures |r| == |paths|
    ensures forall k :: 0 <= k < |paths| ==> r[k] == ReadCsv(files, paths[k], parse)
  {
    seq(|paths|, k requires 0 <= k < |paths| => ReadCsv(files, paths[k], parse))
  }

  /** The store after `write_to_sqlite` for every non-`None` result, in result order. */
  function WriteAll(tables: map<string, Table>, results: seq<Option<(string, Table)>>): map<string, Table>
    decreases |results|
  {
    if results == [] then tables
    else
      var before := WriteAll(tables, results[..|results| - 1]);
      match results[|results| - 1]
        case None => before
        case Some((name, df)) => before[SanitizeTableName(name) := df]
  }

  /** What the run did to the two databases, in order. */
  datatype Effect = MetadataCommitted(keys: seq<string>) | TableReplaced(name: string)

  /** The write tasks submitted: one per non-`None` result, in result order. */
  function WriteEffects(results: seq<Option<(string, Table)>>): seq<Effect>
    decreases |results|
  {
    if results == [] then []
    else
      var before := WriteEffects(results[..|results| - 1]);
      match results[|results| - 1]
        case None => before
        case Some((name, _)) => before + [TableReplaced(SanitizeTableName(name))]
  }

  /** The number of non-`None` results. */
  function CountSome<T>(results: seq<Option<T>>): nat
    decreases |results|
  {
    if results == [] then 0
    else CountSome(results[..|results| - 1]) + (if results[|results| - 1].Some? then 1 else 0)
  }

  /** The stem of each processed file: the keys the metadata commit writes, in order. */
  function StemList(files: seq<Path>): (r: seq<string>)
    ensures |r| == |files| && forall k :: 0 <= k < |files| ==> r[k] == Stem(files[k])
  {
    seq(|files|, k requires 0 <= k < |files| => Stem(files[k]))
  }

  // ---- the run ----

  /** The three stores the run changes. */
  datatype State = State(files: Files, records: Records, tables: map<string, Table>)

  datatype Outcome = Completed | NoNewFiles | Aborted(error: EtlError)

  /** The run on a catalog, as a function of the state before it. */
  function Run(s: State, catalog: seq<Dataset>, cfg: Config, today: CalendarDate): (State, Outcome, seq<Effect>) {
    match ThemeFilter(catalog)
      case Failure(e) => (s, Aborted(e), [])
      case Success(datasets) => RunFiltered(s, datasets, cfg, today)
  }

  /** The run from the filtered datasets on: schedule, and stop early when there is nothing to download. */
  function RunFiltered(s: State, datasets: seq<Dataset>, cfg: Config, today: CalendarDate): (State, Outcome, seq<Effect>) {
    match Schedule(s.records, datasets)
      case Failure(e) => (s, Aborted(e), [])
      case Success(tasks) =>
        if tasks == [] then (s, NoNewFiles, []) else RunScheduled(s, tasks, cfg, today)
  }

  /** The run from a non-empty schedule on: extract and transform, then commit and load. */
  function RunScheduled(s: State, tasks: seq<DownloadTask>, cfg: Config, today: CalendarDate): (State, Outcome, seq<Effect>) {
    var run := ExtractAll(s.files, tasks, cfg);
    match run.1
      case Failure(e) => (State(run.0, s.records, s.tables), Aborted(e), [])
      case Success(updated) => Load(s, run.0, updated, cfg, today)
  }

  /** The metadata commit for the processed files, then the load of the `.csv` ones. */
  function Load(s: State, files: Files, updated: seq<Path>, cfg: Config, today: CalendarDate): (State, Outcome, seq<Effect>) {
    var results := ReadAll(files, CsvPaths(updated), cfg.loadParse);
    (State(files, CommitFiles(s.records, updated, today), WriteAll(s.tables, results)),
     Completed,
     [MetadataCommitted(StemList(updated))] + WriteEffects(results))
  }

  /** The write loop of `main`: one `write_to_sqlite` per non-`None` read result. */
  method WriteReadResults(hospital: HospitalDb, readResults: seq<Option<(string, Table)>>) returns (effects: seq<Effect>)
    modifies hospital
    ensures hospital.tables == WriteAll(old(hospital.tables), readResults)
    ensures effects == WriteEffects(readResults)
  {
    effects := [];
    for k := 0 to |readResults|
      invariant hospital.tables == WriteAll(old(hospital.tables), readResults[..k])
      invariant effects == WriteEffects(readResults[..k])
    {
      assert readResults[..k + 1][..k] == readResults[..k];
      var result := readResults[k];
      if result.Some? {
        var (tableName, df) := result.value;
        WriteToSqlite(tableName, df, hospital);
        effects := effects + [TableReplaced(SanitizeTableName(tableName))];
      }
    }
    assert readResults[..|readResults|] == readResults;
  }

  /** `main`, with the catalog, the HTTP responses and today's date given. */
  method RunPipeline(disk: LocalDisk, metaDb: MetadataDb, hospital: HospitalDb, catalog: seq<Dataset>, cfg: Config, today: CalendarDate)
    returns (outcome: Outcome, effects: seq<Effect>)
    modifies disk, metaDb, hospital
    ensures (State(disk.files, metaDb.records, hospital.tables), outcome, effects) ==
      Run(State(old(disk.files), old(metaDb.records), old(hospital.tables)), catalog, cfg, today)
  {
    var datasets := ThemeFilter(catalog);
    if datasets.Failure? {
      return Aborted(datasets.error), [];
    }
    var downloadTasks := AssembleConcurrentAwaitables(metaDb, datasets.value);
    if downloadTasks.Failure? {
      return Aborted(downloadTasks.error), [];
    }
    if downloadTasks.value == [] {
      return NoNewFiles, [];
    }
    var updatedFiles := ProcessFilesInParallel(disk, downloadTasks.value, cfg);
    if updatedFiles.Failure? {
      return Aborted(updatedFiles.error), [];
    }
    UpdateMetadataForFiles(metaDb, updatedFiles.value, today);
    var csvFilePaths := CsvPaths(updatedFiles.value);
    var readResults := ReadAll(disk.files, csvFilePaths, cfg.loadParse);
    var writes := WriteReadResults(hospital, readResults);
    return Completed, [MetadataCommitted(StemList(updatedFiles.value))] + writes;
  }

  // ---- properties of the load ----

  /** One write task per non-`None` result, and nothing else. */
  lemma {:induction false} WriteEffectsCount(results: seq<Option<(string, Table)>>)
    ensures |WriteEffects(results)| == CountSome(results)
    ensures forall e :: e in WriteEffects(results) ==> e.TableReplaced?
    decreases |results|
  {
    if results != [] {
      WriteEffectsCount(results[..|results| - 1]);
    }
  }

  /** The table names the writes target. */
  function WrittenNames(results: seq<Option<(string, Table)>>): set<string> {
    set r | r in results && r.Some? :: SanitizeTableName(r.value.0)
  }

  /** No two written results share a sanitised table name. */
  predicate DistinctWrites(results: seq<Option<(string, Table)>>) {
    forall i, j :: 0 <= i < j < |results| && results[i].Some? && results[j].Some? ==>
      SanitizeTableName(results[i].value.0) != SanitizeTableName(results[j].value.0)
  }

  lemma WrittenNamesOfPrefix(results: seq<Option<(string, Table)>>)
    requires results != []
    ensures var init := results[..|results| - 1];
      var last := results[|results| - 1];
      WrittenNames(results) == WrittenNames(init) + (if last.Some? then {SanitizeTableName(last.value.0)} else {})
  {
    var init := results[..|results| - 1];
    assert results == init + [results[|results| - 1]];
  }

  /** The store keeps every table it had and gains exactly the written names; a table not written is as it was. */
  lemma {:induction false} WriteAllKeys(tables: map<string, Table>, results: seq<Option<(string, Table)>>)
    ensures forall n :: n in WriteAll(tables, results) <==> n in tables || n in WrittenNames(results)
    ensures forall n :: n in tables && n !in WrittenNames(results) ==> WriteAll(tables, results)[n] == tables[n]
    decreases |results|
  {
    if results != [] {
      WriteAllKeys(tables, results[..|results| - 1]);
      WrittenNamesOfPrefix(results);
    }
  }

  /** With distinct names, each written result's table is in the store under its sanitised name. */
  lemma {:induction false} WriteAllValues(tables: map<string, Table>, results: seq<Option<(string, Table)>>)
    requires DistinctWrites(results)
    ensures forall r :: r in results && r.Some? ==>
      SanitizeTableName(r.value.0) in WriteAll(tables, results) &&
      WriteAll(tables, results)[SanitizeTableName(r.value.0)] == r.value.1
    decreases |results|
  {
    if results != [] {
      var init := results[..|results| - 1];
      var last := results[|results| - 1];
      assert DistinctWrites(init) by {
        assert forall i :: 0 <= i < |init| ==> init[i] == results[i];
      }
      WriteAllValues(tables, init);
      forall r | r in results && r.Some?
        ensures SanitizeTableName(r.value.0) in WriteAll(tables, results) &&
          WriteAll(tables, results)[SanitizeTableName(r.value.0)] == r.value.1
      {
        if r != last {
          var i :| 0 <= i < |results| && results[i] == r;
          assert i < |results| - 1;
          assert init[i] == r;
          if last.Some? {
            assert SanitizeTableName(results[i].value.0) != SanitizeTableName(results[|results| - 1].value.0);
          }
        }
      }
    }
  }

  /** With distinct names the final store does not depend on the order of the writes. */
  lemma WriteOrderIndependent(tables: map<string, Table>, a: seq<Option<(string, Table)>>, b: seq<Option<(string, Table)>>)
    requires DistinctWrites(a) && DistinctWrites(b)
    requires forall r :: r in a <==> r in b
    ensures WriteAll(tables, a) == WriteAll(tables, b)
  {
    WriteAllKeys(tables, a);
    WriteAllKeys(tables, b);
    WriteAllValues(tables, a);
    WriteAllValues(tables, b);
    assert WrittenNames(a) == WrittenNames(b);
    var wa, wb := WriteAll(tables, a), WriteAll(tables, b);
    forall n | n in wa ensures wa[n] == wb[n] {
      if n in WrittenNames(a) {
        var r :| r in a && r.Some? && SanitizeTableName(r.value.0) == n;
        assert r in b;
      }
    }
  }

  /** Dropping the last result keeps the names distinct, and the last name is new to the rest. */
  lemma DistinctWritesOfPrefix(results: seq<Option<(string, Table)>>)
    requires results != [] && DistinctWrites(results)
    ensures DistinctWrites(results[..|results| - 1])
    ensures var last := results[|results| - 1];
      last.Some? ==> SanitizeTableName(last.value.0) !in WrittenNames(results[..|results| - 1])
  {
    var init := results[..|results| - 1];
    var last := results[|results| - 1];
    assert forall i :: 0 <= i < |init| ==> init[i] == results[i];
    if last.Some? {
      forall r | r in init && r.Some? ensures SanitizeTableName(r.value.0) != SanitizeTableName(last.value.0) {
        var i :| 0 <= i < |init| && init[i] == r;
        assert results[i] == r;
      }
    }
  }

  /** With distinct names there is one table name per written result. */
  lemma {:induction false} OneTablePerWrite(results: seq<Option<(string, Table)>>)
    requires DistinctWrites(results)
    ensures |WrittenNames(results)| == CountSome(results)
    decreases |results|
  {
    if results != [] {
      DistinctWritesOfPrefix(results);
      OneTablePerWrite(results[..|results| - 1]);
      WrittenNamesOfPrefix(results);
    } else {
      assert WrittenNames(results) == {};
    }
  }

  /** Raw paths of well-formed titles all end in `.csv`, so the load reads every one of them. */
  lemma CsvPathsKeepRawPaths(rawDir: Path, tasks: seq<DownloadTask>)
    requires forall k :: 0 <= k < |tasks| ==> tasks[k].fileName != [] && '/' !in tasks[k].fileName
    ensures forall p :: p in CsvPaths(RawPaths(rawDir, tasks)) <==> p in RawPaths(rawDir, tasks)
  {
    CsvPathsSpec(RawPaths(rawDir, tasks));
    forall k | 0 <= k < |tasks| ensures Suffix(RawPaths(rawDir, tasks)[k]) == ".csv" {
      StemOfCsvFile(rawDir, tasks[k].fileName);
    }
  }

  // ---- properties of the run ----

  /** A run stops without touching anything exactly when there is nothing to download. */
  lemma EmptyScheduleChangesNothing(s: State, catalog: seq<Dataset>, cfg: Config, today: CalendarDate)
    ensures Run(s, catalog, cfg, today).1 == NoNewFiles <==>
      ThemeFilter(catalog).Success? && Schedule(s.records, ThemeFilter(catalog).value) == Success([])
    ensures Run(s, catalog, cfg, today).1 == NoNewFiles ==> Run(s, catalog, cfg, today).0 == s && Run(s, catalog, cfg, today).2 == []
  {
  }

  /** A run that aborts leaves the metadata and the hospital store as they were, and records no effect. */
  lemma AbortKeepsDatabases(s: State, catalog: seq<Dataset>, cfg: Config, today: CalendarDate)
    ensures Run(s, catalog, cfg, today).1.Aborted? ==>
      Run(s, catalog, cfg, today).0.records == s.records && Run(s, catalog, cfg, today).0.tables == s.tables &&
      Run(s, catalog, cfg, today).2 == []
  {
  }

  /** An effect log that opens with a commit followed only by table writes. */
  predicate CommitThenWrites(effects: seq<Effect>) {
    effects != [] && effects[0].MetadataCommitted? && forall k :: 1 <= k < |effects| ==> effects[k].TableReplaced?
  }

  lemma CommitThenWritesOf(keys: seq<string>, writes: seq<Effect>)
    requires forall e :: e in writes ==> e.TableReplaced?
    ensures CommitThenWrites([MetadataCommitted(keys)] + writes)
  {
    var effects := [MetadataCommitted(keys)] + writes;
    forall k | 1 <= k < |effects| ensures effects[k].TableReplaced? {
      assert effects[k] == writes[k - 1];
    }
  }

  /** The load's effects: the commit, then one write per readable result. */
  lemma LoadEffects(s: State, files: Files, updated: seq<Path>, cfg: Config, today: CalendarDate)
    ensures CommitThenWrites(Load(s, files, updated, cfg, today).2)
  {
    var results := ReadAll(files, CsvPaths(updated), cfg.loadParse);
    WriteEffectsCount(results);
    CommitThenWritesOf(StemList(updated), WriteEffects(results));
  }

  /** The metadata commit comes first; every later effect is a table write, one per readable result. */
  lemma CommitPrecedesWrites(s: State, catalog: seq<Dataset>, cfg: Config, today: CalendarDate)
    ensures Run(s, catalog, cfg, today).2 != [] <==> Run(s, catalog, cfg, today).1 == Completed
    ensures Run(s, catalog, cfg, today).2 != [] ==> CommitThenWrites(Run(s, catalog, cfg, today).2)
  {
    if ThemeFilter(catalog).Success? {
      var datasets := ThemeFilter(catalog).value;
      if Schedule(s.records, datasets).Success? && Schedule(s.records, datasets).value != [] {
        var run := ExtractAll(s.files, Schedule(s.records, datasets).value, cfg);
        if run.1.Success? {
          LoadEffects(s, run.0, run.1.value, cfg, today);
        }
      }
    }
  }

  /** Titles a task list downloads. */
  function Titles(tasks: seq<DownloadTask>): set<string> {
    set t | t in tasks :: t.fileName
  }

  /** The stems of the raw paths are the titles: the key committed is the key looked up. */
  lemma StemsOfRawPaths(rawDir: Path, tasks: seq<DownloadTask>)
    requires forall k :: 0 <= k < |tasks| ==> tasks[k].fileName != [] && '/' !in tasks[k].fileName
    ensures Stems(RawPaths(rawDir, tasks)) == Titles(tasks)
  {
    var ps := RawPaths(rawDir, tasks);
    forall k | 0 <= k < |tasks| ensures Stem(ps[k]) == tasks[k].fileName {
      StemOfCsvFile(rawDir, tasks[k].fileName);
    }
    forall x | x in Titles(tasks) ensures x in Stems(ps) {
      var t :| t in tasks && t.fileName == x;
      var k :| 0 <= k < |tasks| && tasks[k] == t;
      assert Stem(ps[k]) == x;
    }
  }

  /**
   * A completed run records today's date under every title it downloaded, and the
   * text parses back to today.
   */
  lemma CompletedRunCommitsTitles(s: State, catalog: seq<Dataset>, cfg: Config, today: CalendarDate, t: DownloadTask)
    requires forall d :: d in catalog ==> d.title != []
    requires Run(s, catalog, cfg, today).1 == Completed
    requires t in Schedule(s.records, ThemeFilter(catalog).value).value
    ensures t.fileName in Run(s, catalog, cfg, today).0.records
    ensures ParseDate(Run(s, catalog, cfg, today).0.records[t.fileName]) == Some(today)
  {
    var datasets := ThemeFilter(catalog).value;
    var tasks := Schedule(s.records, datasets).value;
    var run := ExtractAll(s.files, tasks, cfg);
    assert Run(s, catalog, cfg, today) == Load(s, run.0, run.1.value, cfg, today);
    ScheduleTitlesWellFormed(s.records, catalog, datasets, tasks);
    ExtractReturnsRawPaths(s.files, tasks, cfg);
    assert forall k :: 0 <= k < |tasks| ==> tasks[k].fileName != [] && '/' !in tasks[k].fileName;
    StemsOfRawPaths(cfg.rawDir, tasks);
    CommitFilesIsCommitted(s.records, run.1.value, today);
    ParseFormatted(today);
  }

  /** Every task of a schedule of filtered datasets carries one of the catalog's titles. */
  lemma ScheduleTitlesWellFormed(records: Records, catalog: seq<Dataset>, datasets: seq<Dataset>, tasks: seq<DownloadTask>)
    requires forall d :: d in catalog ==> d.title != []
    requires ThemeFilter(catalog) == Success(datasets)
    requires Schedule(records, datasets) == Success(tasks)
    ensures forall k :: 0 <= k < |tasks| ==> tasks[k].fileName != []
  {
    ThemeFilterSpec(catalog);
    ScheduleIsFreshTasks(records, datasets);
    forall k | 0 <= k < |tasks| ensures tasks[k].fileName != [] {
      FreshTasksMembers(records, datasets, tasks[k]);
    }
  }

  /**
   * After a commit of today's date for some titles, a catalog all modified on or
   * before today schedules nothing, provided every title that has distributions
   * was committed or already had a record on or after its `modified` date.
   */
  lemma {:induction false} RescheduleAfterCommit(records: Records, datasets: seq<Dataset>, titles: set<string>, today: CalendarDate)
    requires forall i :: 0 <= i < |datasets| ==>
      ParseDate(datasets[i].modified).Some? && AtOrBefore(ParseDate(datasets[i].modified).value, today)
    requires forall i :: 0 <= i < |datasets| && datasets[i].distribution != [] ==>
      datasets[i].title in titles ||
      (datasets[i].title in records && ParseDate(records[datasets[i].title]).Some? &&
       AtOrBefore(ParseDate(datasets[i].modified).value, ParseDate(records[datasets[i].title]).value))
    ensures Schedule(Committed(records, titles, today), datasets) == Success([])
    decreases |datasets|
  {
    if datasets != [] {
      var d := datasets[0];
      var tail := datasets[1..];
      assert forall i :: 0 <= i < |tail| ==> tail[i] == datasets[i + 1];
      RescheduleAfterCommit(records, tail, titles, today);
      var after := Committed(records, titles, today);
      var modified := ParseDate(d.modified).value;
      SkipAfterCommit(records, titles, today, d, modified);
      assert Schedule(after, datasets) == Then(ScheduleUrls(after, d.title, modified, d.distribution), Schedule(after, tail));
      var none: seq<DownloadTask> := [];
      assert none + none == none;
    }
  }

  /** One dataset's step of the rerun: its distributions are all skipped. */
  lemma SkipAfterCommit(records: Records, titles: set<string>, today: CalendarDate, d: Dataset, modified: Date)
    requires AtOrBefore(modified, today)
    requires d.distribution != [] ==>
      (d.title in titles ||
       (d.title in records && ParseDate(records[d.title]).Some? && AtOrBefore(modified, ParseDate(records[d.title]).value)))
    ensures ScheduleUrls(Committed(records, titles, today), d.title, modified, d.distribution) == Success([])
  {
    var after := Committed(records, titles, today);
    ScheduleUrlsUniform(after, d.title, modified, d.distribution);
    if d.distribution != [] {
      if d.title in titles {
        ParseFormatted(today);
      }
      assert Decide(after, d.title, modified) == Success(false);
    }
  }

  /**
   * The first run's schedule leaves every dataset either downloaded or already up
   * to date, so each title with distributions is committed or has a late-enough record.
   */
  lemma ScheduledOrUpToDate(records: Records, datasets: seq<Dataset>, tasks: seq<DownloadTask>, i: int)
    requires Schedule(records, datasets) == Success(tasks)
    requires 0 <= i < |datasets| && datasets[i].distribution != []
    ensures ParseDate(datasets[i].modified).Some?
    ensures datasets[i].title in Titles(tasks) ||
      (datasets[i].title in records && ParseDate(records[datasets[i].title]).Some? &&
       AtOrBefore(ParseDate(datasets[i].modified).value, ParseDate(records[datasets[i].title]).value))
  {
    ScheduleIsFreshTasks(records, datasets);
    assert DatasetReadable(records, datasets[i]);
    var d := datasets[i];
    var modified := ParseDate(d.modified).value;
    if NeedsFetch(records, d.title, modified) {
      var t := DownloadTask(d.title, d.distribution[0]);
      FreshTasksMembers(records, datasets, t);
      assert t in tasks;
    }
  }

  /**
   * The schedule a completed run leaves behind is empty: every title it downloaded
   * is committed with today's date, every other one was already up to date.
   */
  lemma RescheduleAfterRun(records: Records, catalog: seq<Dataset>, datasets: seq<Dataset>, tasks: seq<DownloadTask>, rawDir: Path, today: CalendarDate)
    requires forall d :: d in catalog ==> d.title != []
    requires forall k :: 0 <= k < |tasks| ==> '/' !in tasks[k].fileName
    requires forall d :: d in catalog && ParseDate(d.modified).Some? ==> AtOrBefore(ParseDate(d.modified).value, today)
    requires ThemeFilter(catalog) == Success(datasets)
    requires Schedule(records, datasets) == Success(tasks)
    ensures Schedule(CommitFiles(records, RawPaths(rawDir, tasks), today), datasets) == Success([])
  {
    ThemeFilterSpec(catalog);
    ScheduleIsFreshTasks(records, datasets);
    ScheduleTitlesWellFormed(records, catalog, datasets, tasks);
    StemsOfRawPaths(rawDir, tasks);
    CommitFilesIsCommitted(records, RawPaths(rawDir, tasks), today);
    forall i | 0 <= i < |datasets| && datasets[i].distribution != []
      ensures datasets[i].title in Titles(tasks) ||
        (datasets[i].title in records && ParseDate(records[datasets[i].title]).Some? &&
         AtOrBefore(ParseDate(datasets[i].modified).value, ParseDate(records[datasets[i].title]).value))
    {
      ScheduledOrUpToDate(records, datasets, tasks, i);
    }
    forall i | 0 <= i < |datasets|
      ensures ParseDate(datasets[i].modified).Some? && AtOrBefore(ParseDate(datasets[i].modified).value, today)
    {
      assert DatasetReadable(records, datasets[i]);
      assert datasets[i] in catalog;
    }
    RescheduleAfterCommit(records, datasets, Titles(tasks), today);
  }

  /**
   * Idempotent rerun: after a completed run, running again on the same catalog the
   * same day, with every `modified` on or before today, downloads nothing and
   * changes nothing.
   */
  lemma IdempotentRerun(s: State, catalog: seq<Dataset>, cfg: Config, today: CalendarDate)
    requires forall d :: d in catalog ==> d.title != []
    requires forall d :: d in catalog && ParseDate(d.modified).Some? ==> AtOrBefore(ParseDate(d.modified).value, today)
    requires Run(s, catalog, cfg, today).1 == Completed
    ensures var after := Run(s, catalog, cfg, today).0;
      Run(after, catalog, cfg, today) == (after, NoNewFiles, [])
  {
    var datasets := ThemeFilter(catalog).value;
    var tasks := Schedule(s.records, datasets).value;
    var run := ExtractAll(s.files, tasks, cfg);
    ExtractReturnsRawPaths(s.files, tasks, cfg);
    assert forall k :: 0 <= k < |tasks| ==> '/' !in tasks[k].fileName;
    var after := Load(s, run.0, run.1.value, cfg, today).0;
    assert Run(s, catalog, cfg, today).0 == after;
    RescheduleAfterRun(s.records, catalog, datasets, tasks, cfg.rawDir, today);
    assert RunFiltered(after, datasets, cfg, today) == (after, NoNewFiles, []);
  }
}
