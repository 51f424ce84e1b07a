/**
 * The daily Congressional Record zip published by GPO and the selection of
 * its HTML entries, shared by the scraper (scrapers/crec.py) and the stager
 * (crec_stager/crec_stager.py), which implement it identically.
 */
module ZipEntries {
  import opened Text
  import opened Calendar
  import opened Paths

  /** `'CREC-%Y-%m-%d.zip'`: the name of a day's zip. */
  function ZipName(d: Day): string {
    "CREC-" + IsoDate(d) + ".zip"
  }

  /** Where GPO publishes the daily packages. */
  const GpoPackages := "https://www.gpo.gov/fdsys/pkg"

  /** `CREC_ZIP_TEMPLATE` applied to a day. */
  function CrecZipUrl(d: Day): string {
    GpoPackages + "/" + ZipName(d)
  }

  /**
   * `url.split('/')[-1]`: the text after the last `/` of the URL, all of it
   * when there is none, which is what `os.path.basename` gives.
   */
  function UrlFileName(url: string): string {
    Basename(url)
  }

  /** The zip is saved under the name the URL ends with, `CREC-YYYY-MM-DD.zip`. */
  lemma ZipUrlFileName(d: Day)
    ensures UrlFileName(CrecZipUrl(d)) == ZipName(d)
  {
    var iso := IsoDate(d);
    assert forall i :: 0 <= i < |iso| ==> iso[i] != '/';
    var name := ZipName(d);
    assert '/' !in name;
    LastOccurrence(GpoPackages, '/', name);
    var url := GpoPackages + ['/'] + name;
    assert url[|GpoPackages| + 1..] == name;
  }

  /** The prefix an entry needs to be extracted: the zip's base name without extension, then `html`. */
  function HtmlPrefix(zipPath: string): string {
    PathJoin(SplitextRoot(Basename(zipPath)), "html")
  }

  /** A zip `stem.zip` keeps the entries under `stem/html`, wherever it was saved. */
  lemma HtmlPrefixOfZip(dir: string, stem: string)
    requires stem != [] && stem[0] != '.' && '.' !in stem && '/' !in stem
    ensures HtmlPrefix(PathJoin(dir, stem + ".zip")) == stem + "/html"
  {
    var name := stem + ".zip";
    ZipNameHasNoSeparator(stem);
    BasenameOfJoin(dir, name);
    ZipStemRoot(stem);
    StemUnderHtml(stem);
  }

  lemma ZipNameHasNoSeparator(stem: string)
    requires '/' !in stem
    ensures stem + ".zip" != [] && '/' !in stem + ".zip"
  {
    var name := stem + ".zip";
    assert forall i :: 0 <= i < |name| ==> name[i] == if i < |stem| then stem[i] else ".zip"[i - |stem|];
  }

  lemma ZipStemRoot(stem: string)
    requires stem != [] && stem[0] != '.' && '.' !in stem && '/' !in stem
    ensures SplitextRoot(stem + ".zip") == stem
  {
    assert stem + ".zip" == stem + "." + "zip";
    SplitextRootOfExtension(stem, "zip");
  }

  lemma StemUnderHtml(stem: string)
    requires stem != [] && '/' !in stem
    ensures PathJoin(stem, "html") == stem + "/html"
  {
    assert stem[|stem| - 1] in stem;
  }

  /** The zip downloaded for a day keeps the entries under `CREC-YYYY-MM-DD/html`. */
  lemma HtmlPrefixOfDailyZip(dir: string, d: Day)
    ensures HtmlPrefix(PathJoin(dir, ZipName(d))) == "CREC-" + IsoDate(d) + "/html"
  {
    var iso := IsoDate(d);
    var stem := "CREC-" + iso;
    assert forall i :: 0 <= i < |iso| ==> iso[i] != '/' && iso[i] != '.';
    assert '.' !in stem && '/' !in stem;
    assert ZipName(d) == stem + ".zip";
    HtmlPrefixOfZip(dir, stem);
  }

  /** The entry names that start with the prefix, in zip order. */
  function HtmlEntries(prefix: string, names: seq<string>): (r: seq<string>)
    ensures |r| <= |names|
  {
    if names == [] then []
    else
      var last := names[|names| - 1];
      HtmlEntries(prefix, names[..|names| - 1]) + (if StartsWith(last, prefix) then [last] else [])
  }

  /** Exactly the entries under the prefix are kept. */
  lemma {:induction false} HtmlEntriesMembers(prefix: string, names: seq<string>)
    ensures forall n :: n in HtmlEntries(prefix, names) <==> n in names && StartsWith(n, prefix)
  {
    if names != [] {
      var init := names[..|names| - 1];
      HtmlEntriesMembers(prefix, init);
      assert names == init + [names[|names| - 1]];
    }
  }

  /** Selecting from two runs of entries selects from each in turn: the zip order is kept. */
  lemma {:induction false} HtmlEntriesAppend(prefix: string, a: seq<string>, b: seq<string>)
    ensures HtmlEntries(prefix, a + b) == HtmlEntries(prefix, a) + HtmlEntries(prefix, b)
  {
    if b != [] {
      var init := b[..|b| - 1];
      assert (a + b)[..|a + b| - 1] == a + init;
      HtmlEntriesAppend(prefix, a, init);
    } else {
      assert a + b == a;
    }
  }

  /** Each name joined onto the directory. */
  function JoinedPaths(dir: string, names: seq<string>): (r: seq<string>)
    ensures |r| == |names|
    ensures forall i :: 0 <= i < |names| ==> r[i] == PathJoin(dir, names[i])
  {
    if names == [] then [] else JoinedPaths(dir, names[..|names| - 1]) + [PathJoin(dir, names[|names| - 1])]
  }

  /**
   * `extract_html_files`: the paths, under the download directory, of the
   * zip's entries under the HTML prefix, in zip order. The extraction itself
   * writes files and is not modelled.
   */
  method ExtractHtmlFiles(zipPath: string, names: seq<string>, downloadDir: string) returns (paths: seq<string>)
    ensures paths == JoinedPaths(downloadDir, HtmlEntries(HtmlPrefix(zipPath), names))
  {
    var prefix := HtmlPrefix(zipPath);
    var htmlFilenames: seq<string> := [];
    var i := 0;
    while i < |names|
      invariant 0 <= i <= |names|
      invariant htmlFilenames == HtmlEntries(prefix, names[..i])
    {
      assert names[..i + 1][..i] == names[..i];
      if StartsWith(names[i], prefix) {
        htmlFilenames := htmlFilenames + [names[i]];
      }
      i := i + 1;
    }
    assert names[..i] == names;
    paths := JoinedPaths(downloadDir, htmlFilenames);
  }

  /** Where `download_crec_zip` saves a day's zip. */
  function ZipPath(downloadDir: string, d: Day): string {
    PathJoin(downloadDir, ZipName(d))
  }

  /** `CREC-YYYY-MM-DD/html`: where a day's HTML lies in its zip. */
  function DayHtmlPrefix(d: Day): string {
    "CREC-" + IsoDate(d) + "/html"
  }

  /** The prefix `extract_html_files` derives from where the day's zip was saved is the day's HTML prefix. */
  lemma ZipPathPrefix(downloadDir: string, d: Day)
    ensures HtmlPrefix(ZipPath(downloadDir, d)) == DayHtmlPrefix(d)
  {
    HtmlPrefixOfDailyZip(downloadDir, d);
  }

  /** The HTML files `extract_html_files` unpacks for a day, under the download directory. */
  function HtmlPaths(downloadDir: string, d: Day, entries: seq<string>): seq<string> {
    JoinedPaths(downloadDir, HtmlEntries(DayHtmlPrefix(d), entries))
  }
}
