/**
 * The extract stage: the incremental skip-or-fetch schedule, the streamed download
 * of one file, and the download-then-transform loop over the schedule.
 */
module AsynchronousProcessing {
  import opened Wrappers
  import opened Seqs
  import opened PathLib
  import opened Dates
  import opened Environment
  import opened MetadataProcessing
  import opened FileProcessing

  /**
   * One catalog entry: its `title`, its `modified` text, its `theme` list (absent
   * when the key is missing) and the `downloadURL` of each distribution.
   */
  datatype Dataset = Dataset(title: string, modified: string, theme: Option<seq<string>>, distribution: seq<string>)

  /** A scheduled download: the file name (the dataset's title) and one URL. */
  datatype DownloadTask = DownloadTask(fileName: string, url: string)

  /** `acc` in front of a successful list; a failure stays the failure. */
  function Prepend<T>(acc: seq<T>, r: Result<seq<T>, EtlError>): Result<seq<T>, EtlError> {
    match r
      case Failure(e) => Failure(e)
      case Success(xs) => Success(acc + xs)
  }

  /** Two lists computed one after the other: the first failure ends the run. */
  function Then<T>(a: Result<seq<T>, EtlError>, b: Result<seq<T>, EtlError>): Result<seq<T>, EtlError> {
    match a
      case Failure(e) => Failure(e)
      case Success(xs) => Prepend(xs, b)
  }

  lemma PrependEmpty<T>(r: Result<seq<T>, EtlError>)
    ensures Prepend([], r) == r
  {
    if r.Success? {
      assert [] + r.value == r.value;
    }
  }

  lemma PrependAssoc<T>(a: seq<T>, b: seq<T>, r: Result<seq<T>, EtlError>)
    ensures Prepend(a, Prepend(b, r)) == Prepend(a + b, r)
  {
    if r.Success? {
      assert a + (b + r.value) == (a + b) + r.value;
    }
  }

  lemma ThenPrepend<T>(a: seq<T>, x: Result<seq<T>, EtlError>, y: Result<seq<T>, EtlError>)
    ensures Then(Prepend(a, x), y) == Prepend(a, Then(x, y))
  {
    if x.Success? {
      PrependAssoc(a, x.value, y);
    }
  }

  lemma ThenAssoc<T>(x: Result<seq<T>, EtlError>, y: Result<seq<T>, EtlError>, z: Result<seq<T>, EtlError>)
    ensures Then(Then(x, y), z) == Then(x, Then(y, z))
  {
    if x.Success? {
      ThenPrepend(x.value, y, z);
    }
  }

  // ---- the schedule ----

  /**
   * The check for one distribution of dataset `fileName`, modified on `modified`:
   * `true` schedules a download, `false` skips it; a stored text `strptime` rejects raises.
   */
  function Decide(records: Records, fileName: string, modified: Date): (r: Result<bool, EtlError>)
    ensures fileName !in records ==> r == Success(true)
    ensures r.Failure? ==> fileName in records && r.error == MalformedDate(records[fileName])
  {
    match Lookup(records, fileName)
      case None => Success(true)
      case Some(text) =>
        match ParseDate(text)
          case None => Failure(MalformedDate(text))
          case Some(last) => Success(!AtOrBefore(modified, last))
  }

  /** The inner loop over the distributions of one dataset. */
  function ScheduleUrls(records: Records, fileName: string, modified: Date, urls: seq<string>): Result<seq<DownloadTask>, EtlError>
    decreases |urls|
  {
    if urls == [] then Success([])
    else match Decide(records, fileName, modified)
      case Failure(e) => Failure(e)
      case Success(fetch) =>
        Prepend(if fetch then [DownloadTask(fileName, urls[0])] else [], ScheduleUrls(records, fileName, modified, urls[1..]))
  }

  /** The outer loop over the datasets: `modified` is parsed first, then every distribution is checked. */
  function Schedule(records: Records, datasets: seq<Dataset>): Result<seq<DownloadTask>, EtlError>
    decreases |datasets|
  {
    if datasets == [] then Success([])
    else match ParseDate(datasets[0].modified)
      case None => Failure(MalformedDate(datasets[0].modified))
      case Some(modified) =>
        Then(ScheduleUrls(records, datasets[0].title, modified, datasets[0].distribution), Schedule(records, datasets[1..]))
  }

  /** The outer loop's step: dataset `i` either stops the run on its `modified` text or has its distributions checked. */
  lemma ScheduleAt(records: Records, datasets: seq<Dataset>, i: nat)
    requires i < |datasets|
    ensures Schedule(records, datasets[i..]) ==
      match ParseDate(datasets[i].modified)
        case None => Failure(MalformedDate(datasets[i].modified))
        case Some(modified) =>
          Then(ScheduleUrls(records, datasets[i].title, modified, datasets[i].distribution), Schedule(records, datasets[i + 1..]))
  {
    assert datasets[i..][0] == datasets[i] && datasets[i..][1..] == datasets[i + 1..];
  }

  /** The inner loop's step: distribution `j` is decided, then the rest follow. */
  lemma ScheduleUrlsAt(records: Records, fileName: string, modified: Date, urls: seq<string>, j: nat)
    requires j < |urls|
    ensures ScheduleUrls(records, fileName, modified, urls[j..]) ==
      match Decide(records, fileName, modified)
        case Failure(e) => Failure(e)
        case Success(fetch) =>
          Prepend(if fetch then [DownloadTask(fileName, urls[j])] else [], ScheduleUrls(records, fileName, modified, urls[j + 1..]))
  {
    assert urls[j..][0] == urls[j] && urls[j..][1..] == urls[j + 1..];
  }

  /**
   * `assemble_concurrent_awaitables`: one `SELECT` per distribution, a task appended
   * unless the stored date is on or after `modified`. The table is only read.
   */
  method AssembleConcurrentAwaitables(db: MetadataDb, datasets: seq<Dataset>) returns (r: Result<seq<DownloadTask>, EtlError>)
    ensures r == Schedule(db.records, datasets)
  {
    var downloadTasks: seq<DownloadTask> := [];
    var i := 0;
    assert datasets[0..] == datasets;
    PrependEmpty(Schedule(db.records, datasets));
    while i < |datasets|
      invariant 0 <= i <= |datasets|
      invariant Schedule(db.records, datasets) == Prepend(downloadTasks, Schedule(db.records, datasets[i..]))
    {
      var dataset := datasets[i];
      var fileName := dataset.title;
      ScheduleAt(db.records, datasets, i);
      var csvLastModified := ParseDate(dataset.modified);
      if csvLastModified.None? {
        return Failure(MalformedDate(dataset.modified));
      }
      var modified := csvLastModified.value;
      var urls := dataset.distribution;
      ghost var later := Schedule(db.records, datasets[i + 1..]);
      assert urls[0..] == urls;
      var j := 0;
      while j < |urls|
        invariant 0 <= j <= |urls|
        invariant Schedule(db.records, datasets) ==
          Prepend(downloadTasks, Then(ScheduleUrls(db.records, fileName, modified, urls[j..]), later))
      {
        var fileUrl := urls[j];
        ScheduleUrlsAt(db.records, fileName, modified, urls, j);
        ghost var rest := ScheduleUrls(db.records, fileName, modified, urls[j + 1..]);
        var result := db.SelectLastModified(fileName);
        if result.Some? {
          var lastModified := ParseDate(result.value);
          if lastModified.None? {
            return Failure(MalformedDate(result.value));
          }
          if AtOrBefore(modified, lastModified.value) {
            PrependEmpty(rest);
            j := j + 1;
            continue;
          }
        }
        var task := DownloadTask(fileName, fileUrl);
        ThenPrepend([task], rest, later);
        PrependAssoc(downloadTasks, [task], Then(rest, later));
        downloadTasks := downloadTasks + [task];
        j := j + 1;
      }
      assert urls[j..] == [];
      PrependEmpty(later);
      i := i + 1;
    }
    assert datasets[i..] == [];
    assert downloadTasks + [] == downloadTasks;
    return Success(downloadTasks);
  }

  // ---- reference definitions of the schedule ----

  /** The rule as stated: fetch when there is no record, or the record is strictly earlier than `modified`. */
  predicate NeedsFetch(records: Records, fileName: string, modified: Date) {
    fileName !in records || (ParseDate(records[fileName]).Some? && Before(ParseDate(records[fileName]).value, modified))
  }

  /** The stored text for a title, if any, is one `strptime` accepts. */
  predicate RecordReadable(records: Records, fileName: string) {
    fileName !in records || ParseDate(records[fileName]).Some?
  }

  /** A dataset the scheduler gets through: its `modified` parses, and its record parses whenever it is looked up. */
  predicate DatasetReadable(records: Records, d: Dataset) {
    ParseDate(d.modified).Some? && (d.distribution == [] || RecordReadable(records, d.title))
  }

  /** Every distribution of one dataset, as a task. */
  function AllUrlTasks(fileName: string, urls: seq<string>): (r: seq<DownloadTask>)
    ensures |r| == |urls| && forall k :: 0 <= k < |urls| ==> r[k] == DownloadTask(fileName, urls[k])
  {
    seq(|urls|, k requires 0 <= k < |urls| => DownloadTask(fileName, urls[k]))
  }

  /** The tasks of one readable dataset: all of its distributions or none. */
  function TasksFor(records: Records, d: Dataset): seq<DownloadTask>
    requires ParseDate(d.modified).Some?
  {
    if NeedsFetch(records, d.title, ParseDate(d.modified).value) then AllUrlTasks(d.title, d.distribution) else []
  }

  /** The expected schedule of a catalog whose every `modified` parses. */
  function FreshTasks(records: Records, datasets: seq<Dataset>): seq<DownloadTask>
    requires forall i :: 0 <= i < |datasets| ==> ParseDate(datasets[i].modified).Some?
    decreases |datasets|
  {
    if datasets == [] then [] else TasksFor(records, datasets[0]) + FreshTasks(records, datasets[1..])
  }

  /** Every (title, URL) pair of the catalog, in catalog order. */
  function AllTasks(datasets: seq<Dataset>): seq<DownloadTask>
    decreases |datasets|
  {
    if datasets == [] then [] else AllUrlTasks(datasets[0].title, datasets[0].distribution) + AllTasks(datasets[1..])
  }

  /** The number of distributions in the catalog. */
  function TotalDistributions(datasets: seq<Dataset>): nat
    decreases |datasets|
  {
    if datasets == [] then 0 else |datasets[0].distribution| + TotalDistributions(datasets[1..])
  }

  // ---- properties of the schedule ----

  /**
   * A pair is fetched exactly when the rule says so; a record on the same day as
   * `modified`, or later, is a skip; only an unreadable record raises.
   */
  lemma DecideIff(records: Records, fileName: string, modified: Date)
    ensures Decide(records, fileName, modified).Success? <==> RecordReadable(records, fileName)
    ensures Decide(records, fileName, modified) == Success(true) <==> NeedsFetch(records, fileName, modified)
    ensures Decide(records, fileName, modified) == Success(false) <==>
      fileName in records && ParseDate(records[fileName]).Some? && AtOrBefore(modified, ParseDate(records[fileName]).value)
  {
  }

  /** Every distribution of one dataset gets the same decision, because the key is the title. */
  lemma {:induction false} ScheduleUrlsUniform(records: Records, fileName: string, modified: Date, urls: seq<string>)
    ensures ScheduleUrls(records, fileName, modified, urls) ==
      if urls == [] then Success([])
      else match Decide(records, fileName, modified)
        case Failure(e) => Failure(e)
        case Success(fetch) => Success(if fetch then AllUrlTasks(fileName, urls) else [])
    decreases |urls|
  {
    if urls != [] {
      ScheduleUrlsUniform(records, fileName, modified, urls[1..]);
      if Decide(records, fileName, modified) == Success(true) {
        assert AllUrlTasks(fileName, urls) == [DownloadTask(fileName, urls[0])] + AllUrlTasks(fileName, urls[1..]);
        if urls[1..] == [] {
          assert AllUrlTasks(fileName, urls[1..]) == [];
        }
      } else if Decide(records, fileName, modified) == Success(false) {
        assert ScheduleUrls(records, fileName, modified, urls) == Prepend([], ScheduleUrls(records, fileName, modified, urls[1..]));
        PrependEmpty(ScheduleUrls(records, fileName, modified, urls[1..]));
      }
    }
  }

  /**
   * The schedule succeeds exactly when every dataset is readable, and it is then
   * the expected schedule.
   */
  lemma {:induction false} ScheduleIsFreshTasks(records: Records, datasets: seq<Dataset>)
    ensures Schedule(records, datasets).Success? <==> forall i :: 0 <= i < |datasets| ==> DatasetReadable(records, datasets[i])
    ensures (forall i :: 0 <= i < |datasets| ==> DatasetReadable(records, datasets[i])) ==>
      Schedule(records, datasets) == Success(FreshTasks(records, datasets))
    decreases |datasets|
  {
    if datasets != [] {
      var d := datasets[0];
      var tail := datasets[1..];
      assert forall i :: 0 <= i < |tail| ==> tail[i] == datasets[i + 1];
      ScheduleIsFreshTasks(records, tail);
      if ParseDate(d.modified).Some? {
        var modified := ParseDate(d.modified).value;
        ScheduleUrlsUniform(records, d.title, modified, d.distribution);
        DecideIff(records, d.title, modified);
        if !DatasetReadable(records, d) {
          assert !(forall i :: 0 <= i < |datasets| ==> DatasetReadable(records, datasets[i])) by {
            assert datasets[0] == d;
          }
        }
      } else {
        assert !DatasetReadable(records, datasets[0]);
      }
    }
  }

  /**
   * A pair is in the expected schedule exactly when some dataset with that title
   * lists that URL and that dataset needs a fetch.
   */
  lemma {:induction false} FreshTasksMembers(records: Records, datasets: seq<Dataset>, t: DownloadTask)
    requires forall i :: 0 <= i < |datasets| ==> ParseDate(datasets[i].modified).Some?
    ensures t in FreshTasks(records, datasets) <==>
      exists i :: 0 <= i < |datasets| && datasets[i].title == t.fileName && t.url in datasets[i].distribution &&
        NeedsFetch(records, datasets[i].title, ParseDate(datasets[i].modified).value)
    decreases |datasets|
  {
    if datasets != [] {
      var tail := datasets[1..];
      assert forall i :: 0 <= i < |tail| ==> tail[i] == datasets[i + 1];
      FreshTasksMembers(records, tail, t);
      var d := datasets[0];
      var urls := AllUrlTasks(d.title, d.distribution);
      assert t in urls <==> d.title == t.fileName && t.url in d.distribution by {
        if t.url in d.distribution && d.title == t.fileName {
          var k :| 0 <= k < |d.distribution| && d.distribution[k] == t.url;
          assert urls[k] == t;
        }
      }
      if exists i :: (0 <= i < |datasets| && datasets[i].title == t.fileName && t.url in datasets[i].distribution &&
        NeedsFetch(records, datasets[i].title, ParseDate(datasets[i].modified).value))
      {
        var i :| 0 <= i < |datasets| && datasets[i].title == t.fileName && t.url in datasets[i].distribution &&
          NeedsFetch(records, datasets[i].title, ParseDate(datasets[i].modified).value);
        if i > 0 {
          assert tail[i - 1] == datasets[i];
        }
      }
    }
  }

  /**
   * Scheduled pairs keep catalog order (dataset, then distribution) and are at most
   * as many as the distributions in the catalog.
   */
  lemma {:induction false} FreshTasksInCatalogOrder(records: Records, datasets: seq<Dataset>)
    requires forall i :: 0 <= i < |datasets| ==> ParseDate(datasets[i].modified).Some?
    ensures IsSubsequence(FreshTasks(records, datasets), AllTasks(datasets))
    ensures |FreshTasks(records, datasets)| <= |AllTasks(datasets)| == TotalDistributions(datasets)
    decreases |datasets|
  {
    if datasets != [] {
      var d := datasets[0];
      var tail := datasets[1..];
      assert forall i :: 0 <= i < |tail| ==> tail[i] == datasets[i + 1];
      FreshTasksInCatalogOrder(records, tail);
      var all := AllUrlTasks(d.title, d.distribution);
      SubsequenceReflexive(all);
      SubsequenceConcat(TasksFor(records, d), all, FreshTasks(records, tail), AllTasks(tail));
      SubsequenceLength(FreshTasks(records, datasets), AllTasks(datasets));
    }
  }

  /**
   * The decisions for one part of the catalog do not depend on the rest: scheduling
   * a concatenation is scheduling each part, the first failure winning.
   */
  lemma {:induction false} ScheduleSplit(records: Records, a: seq<Dataset>, b: seq<Dataset>)
    ensures Schedule(records, a + b) == Then(Schedule(records, a), Schedule(records, b))
    decreases |a|
  {
    if a == [] {
      assert a + b == b;
      assert Then(Success([]), Schedule(records, b)) == Schedule(records, b) by {
        if Schedule(records, b).Success? {
          assert [] + Schedule(records, b).value == Schedule(records, b).value;
        }
      }
    } else {
      assert (a + b)[0] == a[0] && (a + b)[1..] == a[1..] + b;
      ScheduleSplit(records, a[1..], b);
      match ParseDate(a[0].modified)
      case None =>
      case Some(modified) =>
        ThenAssoc(ScheduleUrls(records, a[0].title, modified, a[0].distribution), Schedule(records, a[1..]), Schedule(records, b));
    }
  }

  /** The two date examples: a record on 2024-01-01 and a dataset modified on 2024-01-02 or on 2024-01-01. */
  lemma SameDaySkipsNextDayFetches(records: Records, title: string)
    requires title in records && records[title] == "2024-01-01"
    ensures Decide(records, title, Date(2024, 1, 2)) == Success(true)
    ensures Decide(records, title, Date(2024, 1, 1)) == Success(false)
  {
    ParseFormatted(Date(2024, 1, 1));
    assert FormatDate(Date(2024, 1, 1)) == "2024-01-01";
  }

  // ---- the download ----

  /** `iter_chunked(n=1024)`. */
  const ChunkSize: nat := 1024

  /** `raw_directory / (file_name + ".csv")`. */
  function RawPath(rawDir: Path, fileName: string): Path {
    Join(rawDir, fileName + ".csv")
  }

  /** The body cut into pieces of `n` bytes, the last one possibly shorter. */
  function Chunks(body: seq<byte>, n: nat): (cs: seq<seq<byte>>)
    requires n > 0
    ensures Flatten(cs) == body
    ensures forall k :: 0 <= k < |cs| ==> 0 < |cs[k]| <= n
    decreases |body|
  {
    if body == [] then []
    else if |body| <= n then
      assert [body][1..] == [];
      [body]
    else
      var cs := [body[..n]] + Chunks(body[n..], n);
      assert cs[1..] == Chunks(body[n..], n);
      assert body[..n] + body[n..] == body;
      cs
  }

  /**
   * `download_and_save_file` on a given response: on status 200 the raw file holds
   * the body and its path is returned; any other status raises, and so does an
   * `open` of a name that cannot be created; neither writes anything.
   */
  function Downloaded(files: Files, response: Response, task: DownloadTask, rawDir: Path): (Files, Result<Path, EtlError>) {
    if response.status != 200 then (files, Failure(DownloadFailed(task.fileName, task.url)))
    else if !CreatableName(task.fileName) then (files, Failure(OpenFailed(RawPath(rawDir, task.fileName))))
    else
      var path := RawPath(rawDir, task.fileName);
      (files[path := response.body], Success(path))
  }

  /**
   * A download succeeds exactly on status 200 for a name that can be created, and
   * then only the raw file of the title changes; on any failure the disk is as it was.
   */
  lemma DownloadedSpec(files: Files, response: Response, task: DownloadTask, rawDir: Path)
    ensures Downloaded(files, response, task, rawDir).1.Success? <==>
      response.status == 200 && CreatableName(task.fileName)
    ensures Downloaded(files, response, task, rawDir).1.Success? ==>
      Downloaded(files, response, task, rawDir).1.value == RawPath(rawDir, task.fileName) &&
      RawPath(rawDir, task.fileName) in Downloaded(files, response, task, rawDir).0 &&
      Downloaded(files, response, task, rawDir).0[RawPath(rawDir, task.fileName)] == response.body
    ensures forall p :: p in files && p != RawPath(rawDir, task.fileName) ==>
      p in Downloaded(files, response, task, rawDir).0 && Downloaded(files, response, task, rawDir).0[p] == files[p]
    ensures response.status != 200 ==>
      Downloaded(files, response, task, rawDir).1 == Failure(DownloadFailed(task.fileName, task.url))
    ensures response.status == 200 && !CreatableName(task.fileName) ==>
      Downloaded(files, response, task, rawDir).1 == Failure(OpenFailed(RawPath(rawDir, task.fileName)))
    ensures Downloaded(files, response, task, rawDir).1.Failure? ==> Downloaded(files, response, task, rawDir).0 == files
  {
  }

  /** The title `"A/B"` names a sub-directory of the raw directory, which the run never creates. */
  lemma SubdirectoryTitleFails(files: Files, body: seq<byte>, url: string, rawDir: Path)
    ensures Downloaded(files, Response(200, body), DownloadTask("A/B", url), rawDir) ==
      (files, Failure(OpenFailed(RawPath(rawDir, "A/B"))))
  {
    assert "A/B"[1] == '/';
  }

  /**
   * Two distributions of one title are saved to the same path, so the later
   * download replaces the earlier one's file.
   */
  lemma SameTitleSameFile(files: Files, first: Response, second: Response, a: DownloadTask, b: DownloadTask, rawDir: Path)
    requires a.fileName == b.fileName && first.status == 200 && second.status == 200
    ensures Downloaded(files, first, a, rawDir).1 == Downloaded(files, second, b, rawDir).1
    ensures Downloaded(Downloaded(files, first, a, rawDir).0, second, b, rawDir).0 == Downloaded(files, second, b, rawDir).0
  {
    var path := RawPath(rawDir, a.fileName);
    assert files[path := first.body][path := second.body] == files[path := second.body];
  }

  method DownloadAndSaveFile(disk: LocalDisk, response: Response, task: DownloadTask, rawDir: Path)
    returns (r: Result<Path, EtlError>)
    modifies disk
    ensures (disk.files, r) == Downloaded(old(disk.files), response, task, rawDir)
  {
    if response.status == 200 {
      var filePath := RawPath(rawDir, task.fileName);
      CreatableCsvName(task.fileName);
      var ok := disk.OpenForWrite(rawDir, task.fileName + ".csv");
      if !ok {
        return Failure(OpenFailed(filePath));
      }
      var chunks := Chunks(response.body, ChunkSize);
      assert chunks[..0] == [];
      for k := 0 to |chunks|
        invariant disk.files == old(disk.files)[filePath := Flatten(chunks[..k])]
      {
        assert chunks[..k + 1] == chunks[..k] + [chunks[k]];
        FlattenAppend(chunks[..k], chunks[k]);
        disk.Append(filePath, chunks[k]);
      }
      assert chunks[..|chunks|] == chunks;
      return Success(filePath);
    }
    return Failure(DownloadFailed(task.fileName, task.url));
  }

  // ---- every download, then every transform ----

  /** `acc` in front of the result list of a later part of the run. */
  function WithPrefix(acc: seq<Path>, run: (Files, Result<seq<Path>, EtlError>)): (Files, Result<seq<Path>, EtlError>) {
    (run.0, Prepend(acc, run.1))
  }

  /** The `as_completed` loop: each download awaited in schedule order; the first that raises ends it. */
  function DownloadAll(files: Files, tasks: seq<DownloadTask>, cfg: Config): (Files, Result<seq<Path>, EtlError>)
    decreases |tasks|
  {
    if tasks == [] then (files, Success([]))
    else
      var (f1, d) := Downloaded(files, cfg.fetch(tasks[0].url), tasks[0], cfg.rawDir);
      match d
        case Failure(e) => (f1, Failure(e))
        case Success(path) => WithPrefix([path], DownloadAll(f1, tasks[1..], cfg))
  }

  /** The `task.get()` list: each submitted transform collected in order; the first that raises ends it. */
  function TransformAll(files: Files, paths: seq<Path>, cfg: Config): (Files, Result<seq<Path>, EtlError>)
    decreases |paths|
  {
    if paths == [] then (files, Success([]))
    else
      var (f1, t) := Transformed(files, paths[0], cfg.transformedDir, cfg.codec);
      match t
        case Failure(e) => (f1, Failure(e))
        case Success(p) => WithPrefix([p], TransformAll(f1, paths[1..], cfg))
  }

  /**
   * The extract stage: a transform's result is collected only after every download
   * has been awaited, so any failed download ends the run before a transform error can.
   */
  function ExtractAll(files: Files, tasks: seq<DownloadTask>, cfg: Config): (Files, Result<seq<Path>, EtlError>) {
    var (f1, d) := DownloadAll(files, tasks, cfg);
    match d
      case Failure(e) => (f1, Failure(e))
      case Success(paths) => TransformAll(f1, paths, cfg)
  }

  /** `process_files_in_parallel`, one task at a time: the downloads in schedule order, then the transforms. */
  method ProcessFilesInParallel(disk: LocalDisk, downloadTasks: seq<DownloadTask>, cfg: Config)
    returns (r: Result<seq<Path>, EtlError>)
    modifies disk
    ensures (disk.files, r) == ExtractAll(old(disk.files), downloadTasks, cfg)
  {
    // the path handed to the pool for each completed download
    var processingTasks: seq<Path> := [];
    var i := 0;
    assert downloadTasks[0..] == downloadTasks;
    PrependEmpty(DownloadAll(disk.files, downloadTasks, cfg).1);
    while i < |downloadTasks|
      invariant 0 <= i <= |downloadTasks|
      invariant DownloadAll(old(disk.files), downloadTasks, cfg) ==
        WithPrefix(processingTasks, DownloadAll(disk.files, downloadTasks[i..], cfg))
    {
      var task := downloadTasks[i];
      assert downloadTasks[i..][0] == task && downloadTasks[i..][1..] == downloadTasks[i + 1..];
      var filePath := DownloadAndSaveFile(disk, cfg.fetch(task.url), task, cfg.rawDir);
      if filePath.Failure? {
        return Failure(filePath.error);
      }
      PrependAssoc(processingTasks, [filePath.value], DownloadAll(disk.files, downloadTasks[i + 1..], cfg).1);
      processingTasks := processingTasks + [filePath.value];
      i := i + 1;
    }
    assert downloadTasks[i..] == [];
    assert processingTasks + [] == processingTasks;
    ghost var downloaded := disk.files;
    var metadataUpdateFiles: seq<Path> := [];
    var j := 0;
    assert processingTasks[0..] == processingTasks;
    PrependEmpty(TransformAll(disk.files, processingTasks, cfg).1);
    while j < |processingTasks|
      invariant 0 <= j <= |processingTasks|
      invariant TransformAll(downloaded, processingTasks, cfg) ==
        WithPrefix(metadataUpdateFiles, TransformAll(disk.files, processingTasks[j..], cfg))
    {
      var path := processingTasks[j];
      assert processingTasks[j..][0] == path && processingTasks[j..][1..] == processingTasks[j + 1..];
      var processed := ProcessAndWriteFile(disk, path, cfg.transformedDir, cfg.codec);
      if processed.Failure? {
        return Failure(processed.error);
      }
      PrependAssoc(metadataUpdateFiles, [processed.value], TransformAll(disk.files, processingTasks[j + 1..], cfg).1);
      metadataUpdateFiles := metadataUpdateFiles + [processed.value];
      j := j + 1;
    }
    assert processingTasks[j..] == [];
    assert metadataUpdateFiles + [] == metadataUpdateFiles;
    return Success(metadataUpdateFiles);
  }

  /** The raw path of each task, in order. */
  function RawPaths(rawDir: Path, tasks: seq<DownloadTask>): (ps: seq<Path>)
    ensures |ps| == |tasks| && forall k :: 0 <= k < |tasks| ==> ps[k] == RawPath(rawDir, tasks[k].fileName)
  {
    seq(|tasks|, k requires 0 <= k < |tasks| => RawPath(rawDir, tasks[k].fileName))
  }

  lemma RawPathsCons(rawDir: Path, tasks: seq<DownloadTask>)
    requires tasks != []
    ensures RawPaths(rawDir, tasks) == [RawPath(rawDir, tasks[0].fileName)] + RawPaths(rawDir, tasks[1..])
  {
  }

  /**
   * The downloads get through only when every title can be created, and they then
   * return each task's raw path, in order.
   */
  lemma {:induction false} DownloadAllReturnsRawPaths(files: Files, tasks: seq<DownloadTask>, cfg: Config)
    ensures DownloadAll(files, tasks, cfg).1.Success? ==>
      DownloadAll(files, tasks, cfg).1.value == RawPaths(cfg.rawDir, tasks) &&
      forall k :: 0 <= k < |tasks| ==> CreatableName(tasks[k].fileName)
    decreases |tasks|
  {
    if tasks != [] {
      var (f1, d) := Downloaded(files, cfg.fetch(tasks[0].url), tasks[0], cfg.rawDir);
      if d.Success? {
        DownloadAllReturnsRawPaths(f1, tasks[1..], cfg);
        RawPathsCons(cfg.rawDir, tasks);
        if DownloadAll(files, tasks, cfg).1.Success? {
          assert forall k :: 1 <= k < |tasks| ==> tasks[k] == tasks[1..][k - 1];
        }
      }
    }
  }

  /** The transforms that get through hand back the paths they were given. */
  lemma {:induction false} TransformAllReturnsInput(files: Files, paths: seq<Path>, cfg: Config)
    ensures TransformAll(files, paths, cfg).1.Success? ==> TransformAll(files, paths, cfg).1.value == paths
    decreases |paths|
  {
    if paths != [] {
      var (f1, t) := Transformed(files, paths[0], cfg.transformedDir, cfg.codec);
      TransformReturnsInput(files, paths[0], cfg.transformedDir, cfg.codec);
      if t.Success? {
        TransformAllReturnsInput(f1, paths[1..], cfg);
        assert paths == [paths[0]] + paths[1..];
      }
    }
  }

  /**
   * A run that gets through returns, for each task in order, the RAW path its
   * download wrote (the transform hands its input path back); every title was one
   * `open` could create.
   */
  lemma ExtractReturnsRawPaths(files: Files, tasks: seq<DownloadTask>, cfg: Config)
    ensures ExtractAll(files, tasks, cfg).1.Success? ==>
      ExtractAll(files, tasks, cfg).1.value == RawPaths(cfg.rawDir, tasks) &&
      forall k :: 0 <= k < |tasks| ==> CreatableName(tasks[k].fileName)
  {
    DownloadAllReturnsRawPaths(files, tasks, cfg);
    var (f1, d) := DownloadAll(files, tasks, cfg);
    if d.Success? {
      TransformAllReturnsInput(f1, d.value, cfg);
    }
  }

  /**
   * A failed download ends the run even when an earlier file's transform would
   * fail: the transform's error is collected only after every download.
   */
  lemma DownloadErrorWins(files: Files, tasks: seq<DownloadTask>, cfg: Config)
    requires DownloadAll(files, tasks, cfg).1.Failure?
    ensures ExtractAll(files, tasks, cfg) == DownloadAll(files, tasks, cfg)
  {
  }

  /** An empty title's download is committed under the key `.csv`. */
  lemma CommitEmptyTitle(records: Records, rawDir: Path, today: CalendarDate)
    ensures CommitFiles(records, [RawPath(rawDir, "")], today) == records[".csv" := FormatDate(today)]
  {
    var p := RawPath(rawDir, "");
    assert "" + ".csv" == ".csv";
    assert p == Join(rawDir, ".csv");
    EmptyTitleFile(rawDir);
    CommitOneFile(records, p, today);
  }

  /**
   * The commit of an empty title's download records the key `.csv`, not `""`, so the
   * schedule's decision for that title is the same as before the commit.
   */
  lemma EmptyTitleNotRecorded(records: Records, rawDir: Path, modified: Date, today: CalendarDate)
    ensures Decide(CommitFiles(records, [RawPath(rawDir, "")], today), "", modified) == Decide(records, "", modified)
  {
    CommitEmptyTitle(records, rawDir, today);
    var after := records[".csv" := FormatDate(today)];
    assert "" != ".csv";
    assert Lookup(after, "") == Lookup(records, "");
  }
}
