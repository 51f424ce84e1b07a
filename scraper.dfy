/**
 * The daily scraper (scrapers/crec.py): which days a run covers, where each
 * day's files come from and go to, and what a day's scrape reports.
 *
 * GPO's site is a parameter: for each day, the entry names of the day's zip
 * (None when the zip cannot be downloaded) and whether its mods.xml can be
 * downloaded. S3 is a predicate saying which keys a put succeeds for.
 */
module Scraper {
  import opened Wrappers
  import opened Text
  import opened Calendar
  import opened Paths
  import opened ZipEntries
  import opened Uploads

  // ---------------------------------------------------------------- days

  /** The midnights `s, s + 1 day, ...` strictly before `e`. */
  function DaysBetween(s: Timestamp, e: Timestamp): seq<Timestamp>
    requires s % SecondsPerDay == 0 && e % SecondsPerDay == 0
    decreases e - s
  {
    if s >= e then [] else [s] + DaysBetween(s + SecondsPerDay, e)
  }

  /** The midnight a day before a midnight is one too. */
  lemma MidnightBefore(e: Timestamp)
    requires e % SecondsPerDay == 0 && e >= SecondsPerDay
    ensures (e - SecondsPerDay) % SecondsPerDay == 0
  {
  }

  /** The day after a midnight before `e` is a midnight no later than `e`, and the days from it follow the first. */
  lemma DaysBetweenNext(s: Timestamp, e: Timestamp)
    requires s % SecondsPerDay == 0 && e % SecondsPerDay == 0 && s < e
    ensures s + SecondsPerDay <= e && (s + SecondsPerDay) % SecondsPerDay == 0
    ensures DaysBetween(s, e) == [s] + DaysBetween(s + SecondsPerDay, e)
  {
  }

  /** The days run from `s` in steps of exactly one day, all before `e`, as many as fit. */
  lemma {:induction false} DaysBetweenSteps(s: Timestamp, e: Timestamp)
    requires s % SecondsPerDay == 0 && e % SecondsPerDay == 0
    ensures var r := DaysBetween(s, e);
      && (r == [] <==> s >= e)
      && |r| == (if s < e then (e - s) / SecondsPerDay else 0)
      && (forall i :: 0 <= i < |r| ==> r[i] == s + i * SecondsPerDay && r[i] < e && DayOf(r[i]) == DayOf(s) + i)
    decreases e - s
  {
    if s < e {
      var next := s + SecondsPerDay;
      DaysBetweenSteps(next, e);
      var r := DaysBetween(s, e);
      assert r[1..] == DaysBetween(next, e);
      forall i | 1 <= i < |r|
        ensures r[i] == s + i * SecondsPerDay && DayOf(r[i]) == DayOf(s) + i
      {
        assert r[i] == DaysBetween(next, e)[i - 1];
      }
    }
  }

  /**
   * `get_dates(start_dt, end_dt)` with `now` for `utcnow()`: the midnights from
   * the start's day up to, not including, the end's day. A missing end is now;
   * a missing start is the day before the end. None when that day would fall
   * before 0001-01-01, where `timedelta` subtraction overflows.
   */
  function DayStarts(start: Option<Timestamp>, end: Option<Timestamp>, now: Timestamp): Option<seq<Timestamp>> {
    var e := Midnight(end.GetOr(now));
    if start.None? && e < SecondsPerDay then None
    else
      var s := if start.Some? then Midnight(start.value) else e - SecondsPerDay;
      Some(DaysBetween(s, e))
  }

  /** `get_dates`: the loop that appends one midnight per day. */
  method GetDates(start: Option<Timestamp>, end: Option<Timestamp>, now: Timestamp) returns (dates: Option<seq<Timestamp>>)
    ensures dates == DayStarts(start, end, now)
  {
    var e := Midnight(if end.Some? then end.value else now);
    var dt: Timestamp;
    if start.None? {
      if e < SecondsPerDay {
        return None;
      }
      dt := e - SecondsPerDay;
    } else {
      dt := Midnight(start.value);
    }
    ghost var first := dt;
    var ds: seq<Timestamp> := [];
    while dt < e
      invariant dt % SecondsPerDay == 0
      invariant ds + DaysBetween(dt, e) == DaysBetween(first, e)
      decreases e - dt
    {
      DaysBetweenNext(dt, e);
      assert ds + DaysBetween(dt, e) == (ds + [dt]) + DaysBetween(dt + SecondsPerDay, e);
      ds := ds + [dt];
      dt := dt + SecondsPerDay;
    }
    assert DaysBetween(dt, e) == [];
    assert ds + DaysBetween(dt, e) == ds;
    dates := Some(ds);
  }

  /** With neither bound given, exactly one day is covered: yesterday, at midnight. */
  lemma DefaultDayIsYesterday(now: Timestamp)
    requires Midnight(now) >= SecondsPerDay
    ensures DayStarts(None, None, now) == Some([Midnight(now) - SecondsPerDay])
  {
    var e := Midnight(now);
    var day: Timestamp := e - SecondsPerDay;
    assert DaysBetween(e, e) == [];
    assert DaysBetween(day, e) == [day] + DaysBetween(e, e) == [day];
  }

  /**
   * What `get_dates` returns: every date is a midnight, the first is the start's
   * day, each is one day after the one before, all fall before the end's day,
   * and there are none when the start is not before the end.
   */
  lemma DayStartsMeaning(start: Timestamp, end: Option<Timestamp>, now: Timestamp)
    ensures var e := Midnight(end.GetOr(now));
      var s := Midnight(start);
      DayStarts(Some(start), end, now).Some?
      && var r := DayStarts(Some(start), end, now).value;
      && (r == [] <==> DayOf(start) >= DayOf(e))
      && (forall i :: 0 <= i < |r| ==> r[i] % SecondsPerDay == 0 && r[i] < e && DayOf(r[i]) == DayOf(start) + i)
      && |r| == (if s < e then DayOf(e) - DayOf(start) else 0)
  {
    var e := Midnight(end.GetOr(now));
    var s := Midnight(start);
    DaysBetweenSteps(s, e);
    var r := DaysBetween(s, e);
    forall i | 0 <= i < |r|
      ensures r[i] % SecondsPerDay == 0
    {
      assert r[i] == s + i * SecondsPerDay;
    }
  }

  // ---------------------------------------------------------------- files and keys

  /** `MODS_ZIP_TEMPLATE` applied to a day. */
  function ModsUrl(d: Day): string {
    GpoPackages + "/CREC-" + IsoDate(d) + "/mods.xml"
  }

  /** Where `download_mods_xml` saves a day's mods.xml. */
  function ModsPath(downloadDir: string): string {
    PathJoin(downloadDir, "mods.xml")
  }

  /** One call of `upload_to_s3`: the file, the data type (`crec` or `mods`) and the day it is filed under. */
  datatype Put = Put(filePath: string, dataType: string, day: Day)

  /** `upload_to_s3`'s key: `prefix/YYYY/MM/DD/data_type/basename(path)`. */
  function UploadKey(prefix: string, put: Put): string {
    PathJoinAll(prefix, [SlashDate(put.day), put.dataType, Basename(put.filePath)])
  }

  /** The key is the prefix as a directory, the date, the data type and the file's base name. */
  lemma UploadKeyShape(prefix: string, put: Put)
    requires put.dataType != [] && '/' !in put.dataType
    ensures UploadKey(prefix, put)
      == DirPrefix(prefix) + SlashDate(put.day) + "/" + put.dataType + "/" + Basename(put.filePath)
  {
    var date := SlashDate(put.day);
    assert IsDigit(date[9]) && IsDigit(date[0]);
    TypedKey(prefix, date, put.dataType, Basename(put.filePath));
  }

  /** The puts of a day's HTML files, under data type `crec`. */
  function CrecPuts(d: Day, paths: seq<string>): (r: seq<Put>)
    ensures |r| == |paths|
    ensures forall i :: 0 <= i < |paths| ==> r[i] == Put(paths[i], "crec", d)
  {
    if paths == [] then []
    else CrecPuts(d, paths[..|paths| - 1]) + [Put(paths[|paths| - 1], "crec", d)]
  }

  /** The puts a day's scrape attempts, in order: the mods.xml first, then each HTML file. */
  function DayPuts(downloadDir: string, d: Day, entries: seq<string>): seq<Put> {
    [Put(ModsPath(downloadDir), "mods", d)] + CrecPuts(d, HtmlPaths(downloadDir, d, entries))
  }

  /**
   * The keys of a day's puts: `prefix/YYYY/MM/DD/mods/mods.xml`, then for each
   * HTML file unpacked from the day's zip, in zip order, `prefix/YYYY/MM/DD/crec/`
   * and the file's base name.
   */
  lemma DayPutKeys(downloadDir: string, prefix: string, d: Day, entries: seq<string>)
    ensures var puts := DayPuts(downloadDir, d, entries);
      var paths := HtmlPaths(downloadDir, d, entries);
      && |puts| == 1 + |paths|
      && UploadKey(prefix, puts[0]) == DirPrefix(prefix) + SlashDate(d) + "/mods/mods.xml"
      && forall i :: 0 <= i < |paths| ==>
           UploadKey(prefix, puts[i + 1]) == DirPrefix(prefix) + SlashDate(d) + "/crec/" + Basename(paths[i])
  {
    var paths := HtmlPaths(downloadDir, d, entries);
    var puts := DayPuts(downloadDir, d, entries);
    assert puts[0] == Put(ModsPath(downloadDir), "mods", d);
    ModsKey(downloadDir, prefix, d);
    assert puts[1..] == CrecPuts(d, paths);
    CrecPutKeys(prefix, d, paths);
  }

  /** The keys of a day's HTML puts, one per file, in order. */
  lemma CrecPutKeys(prefix: string, d: Day, paths: seq<string>)
    ensures forall i :: 0 <= i < |paths| ==>
      UploadKey(prefix, CrecPuts(d, paths)[i]) == DirPrefix(prefix) + SlashDate(d) + "/crec/" + Basename(paths[i])
  {
    forall i | 0 <= i < |paths|
      ensures UploadKey(prefix, CrecPuts(d, paths)[i]) == DirPrefix(prefix) + SlashDate(d) + "/crec/" + Basename(paths[i])
    {
      CrecKey(prefix, paths[i], d);
    }
  }

  /** The key of a day's mods.xml: `prefix/YYYY/MM/DD/mods/mods.xml`. */
  lemma ModsKey(downloadDir: string, prefix: string, d: Day)
    ensures UploadKey(prefix, Put(ModsPath(downloadDir), "mods", d)) == DirPrefix(prefix) + SlashDate(d) + "/mods/mods.xml"
  {
    var dir := DirPrefix(prefix) + SlashDate(d);
    UploadKeyShape(prefix, Put(ModsPath(downloadDir), "mods", d));
    BasenameOfJoin(downloadDir, "mods.xml");
    ModsTail(dir);
  }

  lemma ModsTail(dir: string)
    ensures dir + "/" + "mods" + "/" + "mods.xml" == dir + "/mods/mods.xml"
  {
  }

  /** The key of one of a day's HTML files: `prefix/YYYY/MM/DD/crec/` and its base name. */
  lemma CrecKey(prefix: string, path: string, d: Day)
    ensures UploadKey(prefix, Put(path, "crec", d)) == DirPrefix(prefix) + SlashDate(d) + "/crec/" + Basename(path)
  {
    UploadKeyShape(prefix, Put(path, "crec", d));
    CrecTail(DirPrefix(prefix) + SlashDate(d), Basename(path));
  }

  lemma CrecTail(dir: string, base: string)
    ensures dir + "/" + "crec" + "/" + base == dir + "/crec/" + base
  {
  }

  // ---------------------------------------------------------------- a day's scrape

  /** GPO's site as the scraper sees it. */
  datatype Gpo = Gpo(zipEntries: Day -> Option<seq<string>>, modsPublished: Day -> bool)

  /** A download from GPO: a day's zip or a day's mods.xml. */
  datatype Fetch = ZipFetch(day: Day) | ModsFetch(day: Day)

  /** The URL a download requests. */
  function Url(f: Fetch): string {
    match f
    case ZipFetch(d) => CrecZipUrl(d)
    case ModsFetch(d) => ModsUrl(d)
  }

  /** The downloads a day's scrape attempts: the zip, then the mods.xml. */
  function DayRequests(d: Day): seq<Fetch> {
    [ZipFetch(d), ModsFetch(d)]
  }

  /** A day's scrape: its result (None, False or True) and the puts it completed. */
  datatype DayRun = DayRun(result: Option<bool>, uploaded: seq<Put>)

  /**
   * `scrape_files_for_date`: both downloads are attempted; None when either
   * file is missing; otherwise the uploads run, mods.xml first, and stop at
   * the first failure, which gives False; True when all succeed.
   */
  function ScrapeDay(downloadDir: string, d: Day, gpo: Gpo, succeeds: Put -> bool): DayRun {
    if gpo.zipEntries(d).None? || !gpo.modsPublished(d) then DayRun(None, [])
    else
      var puts := DayPuts(downloadDir, d, gpo.zipEntries(d).value);
      var done := Uploaded(puts, succeeds);
      DayRun(Some(done == puts), done)
  }

  /**
   * A day's outcome: nothing is uploaded unless both files are there; a
   * failed mods.xml put uploads no HTML; True means every HTML file of the
   * day's zip went up after the mods.xml, False that the put after the last
   * one completed failed.
   */
  lemma ScrapeDayOutcome(downloadDir: string, d: Day, gpo: Gpo, succeeds: Put -> bool)
    ensures var run := ScrapeDay(downloadDir, d, gpo, succeeds);
      && (run.result.None? <==> gpo.zipEntries(d).None? || !gpo.modsPublished(d))
      && (run.result.None? ==> run.uploaded == [])
      && (run.result.Some? ==>
            var puts := DayPuts(downloadDir, d, gpo.zipEntries(d).value);
            && (!succeeds(puts[0]) ==> run.uploaded == [] && run.result == Some(false))
            && (run.result == Some(true) <==> forall j :: 0 <= j < |puts| ==> succeeds(puts[j]))
            && (run.result == Some(true) ==> run.uploaded == puts)
            && (run.result == Some(false) ==> |run.uploaded| < |puts| && !succeeds(puts[|run.uploaded|])))
  {
    if gpo.zipEntries(d).Some? && gpo.modsPublished(d) {
      var puts := DayPuts(downloadDir, d, gpo.zipEntries(d).value);
      UploadedAll(puts, succeeds);
      UploadedPrefix(puts, succeeds);
    }
  }

  /**
   * A day whose files are both there, in terms of what `extract_html_files`
   * returned for the saved zip: the mods.xml put, then the HTML puts up to
   * the first failure.
   */
  lemma ScrapeDayFromExtracted(downloadDir: string, d: Day, gpo: Gpo, succeeds: Put -> bool, htmlFilePaths: seq<string>)
    requires gpo.zipEntries(d).Some? && gpo.modsPublished(d)
    requires htmlFilePaths == JoinedPaths(downloadDir, HtmlEntries(HtmlPrefix(ZipPath(downloadDir, d)), gpo.zipEntries(d).value))
    ensures var modsPut := Put(ModsPath(downloadDir), "mods", d);
      var htmlPuts := CrecPuts(d, htmlFilePaths);
      ScrapeDay(downloadDir, d, gpo, succeeds)
        == if succeeds(modsPut) then DayRun(Some(Uploaded(htmlPuts, succeeds) == htmlPuts), [modsPut] + Uploaded(htmlPuts, succeeds))
           else DayRun(Some(false), [])
  {
    var modsPut := Put(ModsPath(downloadDir), "mods", d);
    var htmlPuts := CrecPuts(d, htmlFilePaths);
    DayPutsOfExtracted(downloadDir, d, gpo.zipEntries(d).value, htmlFilePaths);
    UploadedCons(modsPut, htmlPuts, succeeds);
    ConsInjective(modsPut, Uploaded(htmlPuts, succeeds), htmlPuts);
  }

  /** The puts of a day whose zip has `entries`: mods.xml, then one per path `extract_html_files` returned. */
  lemma DayPutsOfExtracted(downloadDir: string, d: Day, entries: seq<string>, htmlFilePaths: seq<string>)
    requires htmlFilePaths == JoinedPaths(downloadDir, HtmlEntries(HtmlPrefix(ZipPath(downloadDir, d)), entries))
    ensures DayPuts(downloadDir, d, entries) == [Put(ModsPath(downloadDir), "mods", d)] + CrecPuts(d, htmlFilePaths)
  {
    ZipPathPrefix(downloadDir, d);
  }

  // ---------------------------------------------------------------- a range of days

  /** The downloads requested over a run of days. */
  function RangeRequests(days: seq<Timestamp>): seq<Fetch> {
    if days == [] then [] else DayRequests(DayOf(days[0])) + RangeRequests(days[1..])
  }

  /** The puts completed over a run of days. */
  function RangeUploads(downloadDir: string, days: seq<Timestamp>, gpo: Gpo, succeeds: Put -> bool): seq<Put> {
    if days == [] then []
    else ScrapeDay(downloadDir, DayOf(days[0]), gpo, succeeds).uploaded + RangeUploads(downloadDir, days[1..], gpo, succeeds)
  }

  /** The puts over a run of days, given the puts each day completes. */
  function ConcatDays(days: seq<Timestamp>, perDay: Day -> seq<Put>): seq<Put> {
    if days == [] then [] else perDay(DayOf(days[0])) + ConcatDays(days[1..], perDay)
  }

  /** `RangeUploads` is the concatenation of what each day's scrape puts. */
  lemma {:induction false} RangeUploadsConcat(downloadDir: string, days: seq<Timestamp>, gpo: Gpo, succeeds: Put -> bool, perDay: Day -> seq<Put>)
    requires forall d: Day :: perDay(d) == ScrapeDay(downloadDir, d, gpo, succeeds).uploaded
    ensures RangeUploads(downloadDir, days, gpo, succeeds) == ConcatDays(days, perDay)
  {
    if days != [] {
      RangeUploadsConcat(downloadDir, days[1..], gpo, succeeds, perDay);
    }
  }

  /** A range that starts with `dt`: that day's downloads and puts come first. */
  lemma RangeCons(dt: Timestamp, rest: seq<Timestamp>, perDay: Day -> seq<Put>)
    ensures RangeRequests([dt] + rest) == DayRequests(DayOf(dt)) + RangeRequests(rest)
    ensures ConcatDays([dt] + rest, perDay) == perDay(DayOf(dt)) + ConcatDays(rest, perDay)
  {
    assert ([dt] + rest)[1..] == rest;
  }

  /** One day of a range: scraping its first day leaves the rest of the range to do. */
  lemma RangeStep(perDay: Day -> seq<Put>, t: Timestamp, e: Timestamp,
                  requestedBefore: seq<Fetch>, requestedAfter: seq<Fetch>, uploadedBefore: seq<Put>, uploadedAfter: seq<Put>,
                  allRequested: seq<Fetch>, allUploaded: seq<Put>)
    requires t % SecondsPerDay == 0 && e % SecondsPerDay == 0 && t < e
    requires requestedBefore + RangeRequests(DaysBetween(t, e)) == allRequested
    requires uploadedBefore + ConcatDays(DaysBetween(t, e), perDay) == allUploaded
    requires requestedAfter == requestedBefore + DayRequests(DayOf(t))
    requires uploadedAfter == uploadedBefore + perDay(DayOf(t))
    ensures t + SecondsPerDay <= e && (t + SecondsPerDay) % SecondsPerDay == 0
    ensures requestedAfter + RangeRequests(DaysBetween(t + SecondsPerDay, e)) == allRequested
    ensures uploadedAfter + ConcatDays(DaysBetween(t + SecondsPerDay, e), perDay) == allUploaded
  {
    DaysBetweenNext(t, e);
    var rest := DaysBetween(t + SecondsPerDay, e);
    RangeCons(t, rest, perDay);
    AppendAssoc(requestedBefore, DayRequests(DayOf(t)), RangeRequests(rest));
    AppendAssoc(uploadedBefore, perDay(DayOf(t)), ConcatDays(rest, perDay));
  }

  /** A range asks GPO for each day's zip and then its mods.xml, day after day, in date order. */
  lemma {:induction false} RangeRequestsInOrder(days: seq<Timestamp>)
    ensures var r := RangeRequests(days);
      && |r| == 2 * |days|
      && forall i :: 0 <= i < |days| ==> r[2 * i] == ZipFetch(DayOf(days[i])) && r[2 * i + 1] == ModsFetch(DayOf(days[i]))
  {
    if days != [] {
      var rest := days[1..];
      RangeRequestsInOrder(rest);
      var r := RangeRequests(days);
      forall i | 0 <= i < |days|
        ensures r[2 * i] == ZipFetch(DayOf(days[i])) && r[2 * i + 1] == ModsFetch(DayOf(days[i]))
      {
        if i > 0 {
          assert days[i] == rest[i - 1];
          assert r[2 * i] == RangeRequests(rest)[2 * (i - 1)];
        }
      }
    }
  }

  /** Every put of a range succeeded and is filed under one of the range's days. */
  lemma {:induction false} RangeUploadsWithinDays(downloadDir: string, days: seq<Timestamp>, gpo: Gpo, succeeds: Put -> bool)
    ensures forall p :: p in RangeUploads(downloadDir, days, gpo, succeeds) ==>
      succeeds(p) && exists i :: 0 <= i < |days| && p.day == DayOf(days[i])
  {
    if days != [] {
      var rest := days[1..];
      var d := DayOf(days[0]);
      RangeUploadsWithinDays(downloadDir, rest, gpo, succeeds);
      forall p | p in RangeUploads(downloadDir, days, gpo, succeeds)
        ensures succeeds(p) && exists i :: 0 <= i < |days| && p.day == DayOf(days[i])
      {
        if p in RangeUploads(downloadDir, rest, gpo, succeeds) {
          var i :| 0 <= i < |rest| && p.day == DayOf(rest[i]);
          assert days[i + 1] == rest[i];
        } else {
          var run := ScrapeDay(downloadDir, d, gpo, succeeds);
          assert p in run.uploaded;
          if run.result.Some? {
            var puts := DayPuts(downloadDir, d, gpo.zipEntries(d).value);
            UploadedPrefix(puts, succeeds);
            var j :| 0 <= j < |run.uploaded| && run.uploaded[j] == p;
            assert p == puts[j];
            assert p.day == d;
          }
          assert p.day == DayOf(days[0]);
        }
      }
    }
  }

  /**
   * The scraper (`CRECScraper`): where it unpacks files and where it uploads
   * them, with the record of what it requested and what it put.
   */
  class CRECScraper {
    const downloadDir: string
    const s3Bucket: string
    const s3KeyPrefix: string
    /** The downloads requested from GPO, in order. */
    var requested: seq<Fetch>
    /** The puts that succeeded, in order; each wrote `UploadKey(s3KeyPrefix, put)` in the bucket. */
    var uploaded: seq<Put>

    constructor(downloadDir: string, s3Bucket: string, s3KeyPrefix: string)
      ensures this.downloadDir == downloadDir && this.s3Bucket == s3Bucket && this.s3KeyPrefix == s3KeyPrefix
      ensures requested == [] && uploaded == []
    {
      this.downloadDir := downloadDir;
      this.s3Bucket := s3Bucket;
      this.s3KeyPrefix := s3KeyPrefix;
      requested := [];
      uploaded := [];
    }

    /** `download_crec_zip`: the path the zip is saved to (under the name its URL ends with), or None when GPO has none. */
    method DownloadCrecZip(d: Day, gpo: Gpo) returns (zipPath: Option<string>)
      modifies this
      ensures requested == old(requested) + [ZipFetch(d)] && uploaded == old(uploaded)
      ensures zipPath == if gpo.zipEntries(d).Some? then Some(ZipPath(downloadDir, d)) else None
    {
      var fetch := ZipFetch(d);
      requested := requested + [fetch];
      if gpo.zipEntries(d).None? {
        return None;
      }
      ZipUrlFileName(d);
      zipPath := Some(PathJoin(downloadDir, UrlFileName(Url(fetch))));
    }

    /** `download_mods_xml`: the path mods.xml is saved to, or None when GPO has none. */
    method DownloadModsXml(d: Day, gpo: Gpo) returns (modsPath: Option<string>)
      modifies this
      ensures requested == old(requested) + [ModsFetch(d)] && uploaded == old(uploaded)
      ensures modsPath == if gpo.modsPublished(d) then Some(ModsPath(downloadDir)) else None
    {
      requested := requested + [ModsFetch(d)];
      if !gpo.modsPublished(d) {
        return None;
      }
      modsPath := Some(PathJoin(downloadDir, "mods.xml"));
    }

    /** `upload_to_s3`: whether the put succeeded (a failure is the `ClientError` it raises); a failed put writes nothing. */
    method UploadToS3(filePath: string, dataType: string, d: Day, succeeds: Put -> bool) returns (ok: bool)
      modifies this
      ensures ok == succeeds(Put(filePath, dataType, d))
      ensures requested == old(requested)
      ensures uploaded == old(uploaded) + (if ok then [Put(filePath, dataType, d)] else [])
    {
      var put := Put(filePath, dataType, d);
      ok := succeeds(put);
      if ok {
        uploaded := uploaded + [put];
      }
    }

    /** `scrape_files_for_date`. */
    method ScrapeFilesForDate(date: Timestamp, gpo: Gpo, succeeds: Put -> bool) returns (result: Option<bool>)
      modifies this
      ensures var run := ScrapeDay(downloadDir, DayOf(date), gpo, succeeds);
        && result == run.result
        && requested == old(requested) + DayRequests(DayOf(date))
        && uploaded == old(uploaded) + run.uploaded
    {
      var d := DayOf(date);
      ghost var before := uploaded;
      assert before + [] == before;
      var zipPath := DownloadCrecZip(d, gpo);
      var modsPath := DownloadModsXml(d, gpo);
      if zipPath.None? {
        return None;
      }
      if modsPath.None? {
        return None;
      }
      var htmlFilePaths := ExtractHtmlFiles(zipPath.value, gpo.zipEntries(d).value, downloadDir);
      ScrapeDayFromExtracted(downloadDir, d, gpo, succeeds, htmlFilePaths);
      var ok := UploadToS3(modsPath.value, "mods", d, succeeds);
      if !ok {
        return Some(false);
      }
      ok := UploadHtmlFiles(htmlFilePaths, d, succeeds);
      AppendAssoc(before, [Put(modsPath.value, "mods", d)], Uploaded(CrecPuts(d, htmlFilePaths), succeeds));
      return Some(ok);
    }

    /** The loop of `scrape_files_for_date` over the unpacked HTML files, which stops at the first failed upload. */
    method UploadHtmlFiles(htmlFilePaths: seq<string>, d: Day, succeeds: Put -> bool) returns (ok: bool)
      modifies this
      ensures var puts := CrecPuts(d, htmlFilePaths);
        && requested == old(requested)
        && uploaded == old(uploaded) + Uploaded(puts, succeeds)
        && ok == (Uploaded(puts, succeeds) == puts)
    {
      ghost var puts := CrecPuts(d, htmlFilePaths);
      var i := 0;
      while i < |htmlFilePaths|
        invariant 0 <= i <= |htmlFilePaths|
        invariant requested == old(requested)
        invariant uploaded == old(uploaded) + puts[..i]
        invariant forall j :: 0 <= j < i ==> succeeds(puts[j])
      {
        ok := UploadToS3(htmlFilePaths[i], "crec", d, succeeds);
        if !ok {
          UploadedUnique(puts, succeeds, i);
          return false;
        }
        assert puts[..i + 1] == puts[..i] + [puts[i]];
        i := i + 1;
      }
      assert puts[..i] == puts;
      UploadedUnique(puts, succeeds, i);
      return true;
    }

    /**
     * `scrape_files_in_range`: every day `get_dates` gives, in order. When the
     * default start falls before 0001-01-01, `timedelta` subtraction raises
     * OverflowError (`overflowed`) before any day is scraped.
     */
    method ScrapeFilesInRange(start: Option<Timestamp>, end: Option<Timestamp>, now: Timestamp, gpo: Gpo, succeeds: Put -> bool)
      returns (overflowed: bool)
      modifies this
      ensures overflowed <==> DayStarts(start, end, now).None?
      ensures overflowed ==> requested == old(requested) && uploaded == old(uploaded)
      ensures DayStarts(start, end, now).Some? ==>
        var days := DayStarts(start, end, now).value;
        && requested == old(requested) + RangeRequests(days)
        && uploaded == old(uploaded) + RangeUploads(downloadDir, days, gpo, succeeds)
    {
      var e := Midnight(if end.Some? then end.value else now);
      var dt: Timestamp;
      if start.None? {
        if e < SecondsPerDay {
          return true;
        }
        MidnightBefore(e);
        dt := e - SecondsPerDay;
      } else {
        dt := Midnight(start.value);
      }
      ScrapeRange(dt, e, gpo, succeeds, DayStarts(start, end, now).value);
      overflowed := false;
    }

    /** The days from the midnight `dt` up to the midnight `e`, in order. */
    method ScrapeRange(dt: Timestamp, e: Timestamp, gpo: Gpo, succeeds: Put -> bool, ghost days: seq<Timestamp>)
      requires dt % SecondsPerDay == 0 && e % SecondsPerDay == 0 && days == DaysBetween(dt, e)
      modifies this
      ensures requested == old(requested) + RangeRequests(days)
      ensures uploaded == old(uploaded) + RangeUploads(downloadDir, days, gpo, succeeds)
    {
      ghost var perDay := (d: Day) => ScrapeDay(downloadDir, d, gpo, succeeds).uploaded;
      ScrapeDays(dt, e, gpo, succeeds, perDay);
      RangeUploadsConcat(downloadDir, days, gpo, succeeds, perDay);
    }

    /** One day of the range: `scrape_files_for_date`, with its puts named by `perDay`. */
    method ScrapeDayOf(t: Timestamp, gpo: Gpo, succeeds: Put -> bool, ghost perDay: Day -> seq<Put>)
      requires forall d: Day {:trigger ScrapeDay(downloadDir, d, gpo, succeeds)} :: perDay(d) == ScrapeDay(downloadDir, d, gpo, succeeds).uploaded
      modifies this
      ensures requested == old(requested) + DayRequests(DayOf(t))
      ensures uploaded == old(uploaded) + perDay(DayOf(t))
    {
      var _ := ScrapeFilesForDate(t, gpo, succeeds);
    }

    /**
     * The loop of `scrape_files_in_range`: one day at a time from the midnight
     * `dt` up to the midnight `e`; `perDay` names what a day's scrape puts.
     */
    method ScrapeDays(dt: Timestamp, e: Timestamp, gpo: Gpo, succeeds: Put -> bool, ghost perDay: Day -> seq<Put>)
      requires dt % SecondsPerDay == 0 && e % SecondsPerDay == 0
      requires forall d: Day {:trigger ScrapeDay(downloadDir, d, gpo, succeeds)} :: perDay(d) == ScrapeDay(downloadDir, d, gpo, succeeds).uploaded
      modifies this
      ensures requested == old(requested) + RangeRequests(DaysBetween(dt, e))
      ensures uploaded == old(uploaded) + ConcatDays(DaysBetween(dt, e), perDay)
    {
      var t: Timestamp := dt;
      while t < e
        invariant t % SecondsPerDay == 0
        invariant requested + RangeRequests(DaysBetween(t, e)) == old(requested) + RangeRequests(DaysBetween(dt, e))
        invariant uploaded + ConcatDays(DaysBetween(t, e), perDay) == old(uploaded) + ConcatDays(DaysBetween(dt, e), perDay)
        decreases e - t
      {
        ghost var requestedBefore, uploadedBefore := requested, uploaded;
        ScrapeDayOf(t, gpo, succeeds, perDay);
        RangeStep(perDay, t, e, requestedBefore, requested, uploadedBefore, uploaded,
          old(requested) + RangeRequests(DaysBetween(dt, e)), old(uploaded) + ConcatDays(DaysBetween(dt, e), perDay));
        t := t + SecondsPerDay;
      }
      assert DaysBetween(t, e) == [];
    }
  }
}
