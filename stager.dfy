/**
 * The stager (crec_stager/crec_stager.py): it downloads one day's zip from
 * GPO, unpacks the zip's HTML files and uploads each one to S3 under a dated
 * key. The command line's log-level lookup is modelled too.
 *
 * GPO's site is a parameter: the entry names of the day's zip, or None when
 * the download answers 404. S3 is a predicate saying which keys a put
 * succeeds for.
 */
module Stager {
  import opened Wrappers
  import opened Text
  import opened Calendar
  import opened Paths
  import opened ZipEntries
  import opened Uploads

  // ---------------------------------------------------------------- log levels

  /** `LOGLEVELS`: the names the command line accepts, with the `logging` module's numeric levels. */
  const LogLevels: map<string, int> := map["CRITICAL" := 50, "DEBUG" := 10, "WARN" := 30, "INFO" := 20, "ERROR" := 40]

  /** The level set for `--loglevel name`: the name is looked up upper-cased, and an unknown one gives INFO. */
  function LogLevelFor(name: string): int {
    var upper := Upper(name);
    if upper in LogLevels then LogLevels[upper] else LogLevels["INFO"]
  }

  /** Every name gives one of the five levels, and a name that upper-cases to none of the five gives INFO (20). */
  lemma LogLevelFallback(name: string)
    ensures LogLevelFor(name) in LogLevels.Values
    ensures LogLevelFor(name) in {10, 20, 30, 40, 50}
    ensures Upper(name) !in LogLevels ==> LogLevelFor(name) == 20
  {
    assert LogLevels["INFO"] == 20;
  }

  /** The lookup ignores case: a name and its upper-cased form select the same level. */
  lemma LogLevelCaseInsensitive(name: string)
    ensures LogLevelFor(Upper(name)) == LogLevelFor(name)
  {
    UpperIdempotent(name);
  }

  /** Lower-case names are accepted; `WARNING`, a level `logging` knows, is not in the table and gives INFO. */
  lemma LogLevelExamples()
    ensures LogLevelFor("debug") == 10
    ensures LogLevelFor("WARNING") == 20
  {
    UpperDebug();
    UpperFixed("WARNING");
  }

  lemma UpperDebug()
    ensures Upper("debug") == "DEBUG"
  {
    var u := Upper("debug");
    assert u[0] == 'D' && u[1] == 'E' && u[2] == 'B' && u[3] == 'U' && u[4] == 'G';
  }

  // ---------------------------------------------------------------- keys

  /** `upload_to_s3`'s key: the date as `YYYY/MM/DD` and the file's base name, joined onto the key prefix. */
  function StageKey(prefix: string, d: Day, filePath: string): string {
    PathJoinAll(prefix, [SlashDate(d), Basename(filePath)])
  }

  /** The key is the prefix as a directory, then `YYYY/MM/DD/`, then the file's base name. */
  lemma StageKeyShape(prefix: string, d: Day, filePath: string)
    ensures StageKey(prefix, d, filePath) == DirPrefix(prefix) + SlashDate(d) + "/" + Basename(filePath)
  {
    var base := Basename(filePath);
    assert base == [] || base[0] in base;
    DatedKey(prefix, d, [base]);
    assert Join("/", [base]) == base;
  }

  /** Two files get the same key exactly when they have the same base name. */
  lemma StageKeyInjective(prefix: string, d: Day, a: string, b: string)
    ensures StageKey(prefix, d, a) == StageKey(prefix, d, b) <==> Basename(a) == Basename(b)
  {
    StageKeyShape(prefix, d, a);
    StageKeyShape(prefix, d, b);
    var dir := DirPrefix(prefix) + SlashDate(d) + "/";
    if StageKey(prefix, d, a) == StageKey(prefix, d, b) {
      assert (dir + Basename(a))[|dir|..] == Basename(a);
      assert (dir + Basename(b))[|dir|..] == Basename(b);
    }
  }

  // ---------------------------------------------------------------- staging

  /** The day's zip as GPO serves it: its entry names, or None when the download answers 404. */
  type Site = Option<seq<string>>

  /** What staging a day reports (None, False or True) and the files it put, in order. */
  datatype StageRun = StageRun(result: Option<bool>, uploaded: seq<string>)

  /**
   * `stage_html_files`, as intended: None when there is no zip; otherwise the
   * HTML files unpacked from it are put in zip order, stopping at the first
   * failure, which gives False; True when all succeed.
   */
  function Stage(downloadDir: string, d: Day, site: Site, succeeds: string -> bool): StageRun {
    if site.None? then StageRun(None, [])
    else
      var paths := HtmlPaths(downloadDir, d, site.value);
      var done := Uploaded(paths, succeeds);
      StageRun(Some(done == paths), done)
  }

  /**
   * What staging reports: None exactly when there is no zip, and then nothing
   * is put; True exactly when every put succeeded, and then every HTML file
   * was put; False when a put failed, and then the files before it were put
   * and none after it.
   */
  lemma StageOutcome(downloadDir: string, d: Day, site: Site, succeeds: string -> bool)
    ensures var run := Stage(downloadDir, d, site, succeeds);
      && (run.result.None? <==> site.None?)
      && (run.result.None? ==> run.uploaded == [])
      && (run.result.Some? ==>
            var paths := HtmlPaths(downloadDir, d, site.value);
            && |run.uploaded| <= |paths| && run.uploaded == paths[..|run.uploaded|]
            && (run.result == Some(true) <==> forall j :: 0 <= j < |paths| ==> succeeds(paths[j]))
            && (run.result == Some(true) ==> run.uploaded == paths)
            && (run.result == Some(false) ==> |run.uploaded| < |paths| && !succeeds(paths[|run.uploaded|])))
  {
    if site.Some? {
      var paths := HtmlPaths(downloadDir, d, site.value);
      UploadedAll(paths, succeeds);
      UploadedPrefix(paths, succeeds);
    }
  }

  /**
   * Every file staging puts was unpacked from an entry of the zip under
   * `CREC-YYYY-MM-DD/html`, and its key is `prefix/YYYY/MM/DD/` and the
   * entry's file name.
   */
  lemma StagedKeysFromZip(prefix: string, downloadDir: string, d: Day, site: Site, succeeds: string -> bool)
    ensures forall p :: p in Stage(downloadDir, d, site, succeeds).uploaded ==>
      site.Some? && exists e :: (e in site.value && StartsWith(e, DayHtmlPrefix(d)) && p == PathJoin(downloadDir, e)
        && StageKey(prefix, d, p) == DirPrefix(prefix) + SlashDate(d) + "/" + Basename(e))
  {
    var run := Stage(downloadDir, d, site, succeeds);
    if site.Some? {
      var entries := HtmlEntries(DayHtmlPrefix(d), site.value);
      var paths := JoinedPaths(downloadDir, entries);
      UploadedPrefix(paths, succeeds);
      HtmlEntriesMembers(DayHtmlPrefix(d), site.value);
      forall p | p in run.uploaded
        ensures exists e :: (e in site.value && StartsWith(e, DayHtmlPrefix(d)) && p == PathJoin(downloadDir, e)
          && StageKey(prefix, d, p) == DirPrefix(prefix) + SlashDate(d) + "/" + Basename(e))
      {
        var j :| 0 <= j < |run.uploaded| && run.uploaded[j] == p;
        var e := entries[j];
        assert p == paths[j] && e in entries;
        StageKeyShape(prefix, d, p);
        EntryBasename(downloadDir, d, e);
      }
    }
  }

  /** An entry under the day's HTML prefix keeps its file name when unpacked into any directory. */
  lemma EntryBasename(downloadDir: string, d: Day, e: string)
    requires StartsWith(e, DayHtmlPrefix(d))
    ensures Basename(PathJoin(downloadDir, e)) == Basename(e)
  {
    var prefix := DayHtmlPrefix(d);
    assert e[0] == prefix[0] == 'C';
    assert e[|prefix| - 5] == prefix[|prefix| - 5] == '/';
    assert '/' in e;
    if downloadDir == [] || downloadDir[|downloadDir| - 1] == '/' {
      BasenameOfSuffix(downloadDir, e);
    } else {
      AppendAssoc(downloadDir, "/", e);
      BasenameOfSuffix(downloadDir + "/", e);
    }
  }

  /**
   * `stage_html_files` as written: on a missing zip the log message reads
   * `self.dt`, which the stager does not have, so the call raises
   * AttributeError instead of returning None.
   */
  datatype StageAsWrittenRun = Returned(result: bool, uploaded: seq<string>) | NoAttributeDt

  function StageAsWritten(downloadDir: string, d: Day, site: Site, succeeds: string -> bool): StageAsWrittenRun {
    if site.None? then NoAttributeDt
    else
      var paths := HtmlPaths(downloadDir, d, site.value);
      var done := Uploaded(paths, succeeds);
      Returned(done == paths, done)
  }

  /**
   * As written, the `return None` the code intends is never reached: the call raises exactly
   * when the intended one returns None, and agrees with it otherwise.
   */
  lemma StageAsWrittenRaises(downloadDir: string, d: Day, site: Site, succeeds: string -> bool)
    ensures var written := StageAsWritten(downloadDir, d, site, succeeds);
      var run := Stage(downloadDir, d, site, succeeds);
      && (written.NoAttributeDt? <==> run.result.None?)
      && (written.Returned? ==> run == StageRun(Some(written.result), written.uploaded))
  {
  }

  /** The stager (`CRECStager`) for one day, with the record of what it requested and what it wrote. */
  class CRECStager {
    const date: Day
    const zipDownloadDir: string
    const s3Bucket: string
    const s3KeyPrefix: string
    /** The URLs requested from GPO, in order. */
    var requested: seq<string>
    /** The files put to the bucket, in order; each went to `StageKey(s3KeyPrefix, date, file)`. */
    var uploaded: seq<string>

    constructor(date: Day, zipDownloadDir: string, s3Bucket: string, s3KeyPrefix: string)
      ensures this.date == date && this.zipDownloadDir == zipDownloadDir
      ensures this.s3Bucket == s3Bucket && this.s3KeyPrefix == s3KeyPrefix
      ensures requested == [] && uploaded == []
    {
      this.date := date;
      this.zipDownloadDir := zipDownloadDir;
      this.s3Bucket := s3Bucket;
      this.s3KeyPrefix := s3KeyPrefix;
      requested := [];
      uploaded := [];
    }

    /** `download_crec_zip`: the day's URL is requested; the zip is saved under the name the URL ends with, or None on a 404. */
    method DownloadCrecZip(site: Site) returns (zipPath: Option<string>)
      modifies this
      ensures requested == old(requested) + [CrecZipUrl(date)] && uploaded == old(uploaded)
      ensures zipPath == if site.Some? then Some(ZipPath(zipDownloadDir, date)) else None
    {
      var url := CrecZipUrl(date);
      requested := requested + [url];
      if site.None? {
        return None;
      }
      ZipUrlFileName(date);
      zipPath := Some(PathJoin(zipDownloadDir, UrlFileName(url)));
    }

    /** `extract_html_files`: the unpacked HTML files, under the download directory, in zip order. */
    method ExtractHtmlFiles(zipPath: string, names: seq<string>) returns (paths: seq<string>)
      ensures paths == JoinedPaths(zipDownloadDir, HtmlEntries(HtmlPrefix(zipPath), names))
      ensures forall p :: p in paths ==> exists n :: n in names && StartsWith(n, HtmlPrefix(zipPath)) && p == PathJoin(zipDownloadDir, n)
    {
      paths := ZipEntries.ExtractHtmlFiles(zipPath, names, zipDownloadDir);
      HtmlEntriesMembers(HtmlPrefix(zipPath), names);
      forall p | p in paths
        ensures exists n :: n in names && StartsWith(n, HtmlPrefix(zipPath)) && p == PathJoin(zipDownloadDir, n)
      {
        var entries := HtmlEntries(HtmlPrefix(zipPath), names);
        var j :| 0 <= j < |paths| && paths[j] == p;
        assert entries[j] in entries;
      }
    }

    /** `upload_to_s3`: the key the file goes to and whether the put succeeded (a failure is the `ClientError` it raises). */
    method UploadToS3(filePath: string, succeeds: string -> bool) returns (ok: bool, s3Key: string)
      modifies this
      ensures s3Key == StageKey(s3KeyPrefix, date, filePath) && ok == succeeds(filePath)
      ensures requested == old(requested)
      ensures uploaded == old(uploaded) + (if ok then [filePath] else [])
    {
      s3Key := PathJoinAll(s3KeyPrefix, [SlashDate(date), Basename(filePath)]);
      ok := succeeds(filePath);
      if ok {
        uploaded := uploaded + [filePath];
      }
    }

    /** `stage_html_files`, with the `return None` the code intends on a missing zip. */
    method StageHtmlFiles(site: Site, succeeds: string -> bool) returns (result: Option<bool>)
      modifies this
      ensures var run := Stage(zipDownloadDir, date, site, succeeds);
        && result == run.result
        && requested == old(requested) + [CrecZipUrl(date)]
        && uploaded == old(uploaded) + run.uploaded
    {
      var zipPath := DownloadCrecZip(site);
      if zipPath.None? {
        assert uploaded == old(uploaded) + [];
        return None;
      }
      var htmlFilePaths := ExtractHtmlFiles(zipPath.value, site.value);
      ZipPathPrefix(zipDownloadDir, date);
      var ok := UploadHtmlFiles(htmlFilePaths, succeeds);
      return Some(ok);
    }

    /** The loop of `stage_html_files` over the unpacked files, which returns False at the first failed upload. */
    method UploadHtmlFiles(htmlFilePaths: seq<string>, succeeds: string -> bool) returns (ok: bool)
      modifies this
      ensures requested == old(requested)
      ensures uploaded == old(uploaded) + Uploaded(htmlFilePaths, succeeds)
      ensures ok == (Uploaded(htmlFilePaths, succeeds) == htmlFilePaths)
    {
      var i := 0;
      while i < |htmlFilePaths|
        invariant 0 <= i <= |htmlFilePaths|
        invariant requested == old(requested)
        invariant uploaded == old(uploaded) + htmlFilePaths[..i]
        invariant forall j :: 0 <= j < i ==> succeeds(htmlFilePaths[j])
      {
        var putOk, _ := UploadToS3(htmlFilePaths[i], succeeds);
        if !putOk {
          UploadedUnique(htmlFilePaths, succeeds, i);
          return false;
        }
        assert htmlFilePaths[..i + 1] == htmlFilePaths[..i] + [htmlFilePaths[i]];
        i := i + 1;
      }
      assert htmlFilePaths[..i] == htmlFilePaths;
      UploadedUnique(htmlFilePaths, succeeds, i);
      return true;
    }
  }
}
