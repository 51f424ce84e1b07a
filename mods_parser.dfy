/**
 * The MODS reader (parser/new_parser.py): a `CRECParser` holds the day's
 * mods.xml, already parsed, and the text of one record, each loaded from S3
 * or from disk, and looks up a record's description entries by ID.
 *
 * XML parsing is not modelled: a loaded mods.xml is its list of
 * `relatedItem` entries. S3 and the disk are maps from key or path to
 * contents, and a missing key or file is the exception reading it raises.
 */
module ModsParser {
  import opened Wrappers
  import opened Text
  import opened Calendar
  import opened Paths
  import opened Uploads
  import Scraper

  // ---------------------------------------------------------------- the mods key

  /** `%Y`, `%m`, `%d` and `%%` as `strftime` expands them for a day; any other directive is kept as written. */
  function Directive(c: char, d: Day): string {
    var civil := CivilOf(d);
    CivilOfValid(d);
    if c == 'Y' then PadDigits(civil.year, 4)
    else if c == 'm' then PadDigits(civil.month, 2)
    else if c == 'd' then PadDigits(civil.day, 2)
    else if c == '%' then "%"
    else ['%', c]
  }

  /** `d.strftime(fmt)` for the directives `Directive` knows; a lone `%` at the end is kept. */
  function Strftime(fmt: string, d: Day): string
    decreases |fmt|
  {
    if fmt == [] then []
    else if fmt[0] == '%' && |fmt| >= 2 then Directive(fmt[1], d) + Strftime(fmt[2..], d)
    else [fmt[0]] + Strftime(fmt[1..], d)
  }

  /** A format that `strftime` reads to its end in whole pieces: no `%` is left without its letter. */
  predicate Complete(fmt: string)
    decreases |fmt|
  {
    fmt == [] || (fmt[0] == '%' && |fmt| >= 2 && Complete(fmt[2..])) || (fmt[0] != '%' && Complete(fmt[1..]))
  }

  /** Text without `%` is complete. */
  lemma {:induction false} NoDirectiveComplete(s: string)
    requires '%' !in s
    ensures Complete(s)
    decreases |s|
  {
    if s != [] {
      assert '%' !in s[1..] by {
        forall k | 0 <= k < |s[1..]| ensures s[1..][k] != '%' { assert s[1..][k] == s[k + 1]; }
      }
      NoDirectiveComplete(s[1..]);
    }
  }

  /** Text without `%` is printed as it is. */
  lemma {:induction false} StrftimeLiteral(s: string, d: Day)
    requires '%' !in s
    ensures Strftime(s, d) == s
    decreases |s|
  {
    if s != [] {
      assert '%' !in s[1..] by {
        forall k | 0 <= k < |s[1..]| ensures s[1..][k] != '%' { assert s[1..][k] == s[k + 1]; }
      }
      StrftimeLiteral(s[1..], d);
    }
  }

  /** A complete format followed by another is printed piece by piece. */
  lemma {:induction false} StrftimeAppend(a: string, b: string, d: Day)
    requires Complete(a)
    ensures Strftime(a + b, d) == Strftime(a, d) + Strftime(b, d)
    decreases |a|
  {
    if a == [] {
      assert a + b == b;
    } else if a[0] == '%' {
      assert (a + b)[2..] == a[2..] + b;
      StrftimeAppend(a[2..], b, d);
      AppendAssoc(Directive(a[1], d), Strftime(a[2..], d), Strftime(b, d));
    } else {
      assert (a + b)[1..] == a[1..] + b;
      StrftimeAppend(a[1..], b, d);
      AppendAssoc([a[0]], Strftime(a[1..], d), Strftime(b, d));
    }
  }

  /** A directive on its own is complete and prints as the directive. */
  lemma DirectivePrints(c: char, d: Day)
    ensures Complete(['%', c]) && Strftime(['%', c], d) == Directive(c, d)
  {
    assert ['%', c][2..] == [];
  }

  /** `%Y/%m/%d`. */
  const DatePath: string := "%Y" + "/" + "%m" + "/" + "%d"

  /** Appending a complete piece that prints as `tail` to a complete format that prints as `head`. */
  lemma PrintPiece(a: string, b: string, d: Day, head: string, tail: string)
    requires Complete(a) && Complete(b) && Strftime(a, d) == head && Strftime(b, d) == tail
    ensures Complete(a + b) && Strftime(a + b, d) == head + tail
  {
    StrftimeAppend(a, b, d);
    CompleteAppend(a, b);
  }

  /** `%Y/%m/%d` prints the day as `YYYY/MM/DD`. */
  lemma DatePathPrints(d: Day)
    ensures Complete(DatePath) && Strftime(DatePath, d) == SlashDate(d)
  {
    var civil := CivilOf(d);
    CivilOfValid(d);
    var y, m, dd := PadDigits(civil.year, 4), PadDigits(civil.month, 2), PadDigits(civil.day, 2);
    DirectivePrints('Y', d);
    DirectivePrints('m', d);
    DirectivePrints('d', d);
    StrftimeLiteral("/", d);
    NoDirectiveComplete("/");
    PrintPiece("%Y", "/", d, y, "/");
    PrintPiece("%Y" + "/", "%m", d, y + "/", m);
    PrintPiece("%Y" + "/" + "%m", "/", d, y + "/" + m, "/");
    PrintPiece("%Y" + "/" + "%m" + "/", "%d", d, y + "/" + m + "/", dd);
  }

  /** The tail of `MODS_S3_KEY_BASE_TEMPLATE` after the date. */
  const ModsFileTail: string := "/mods/mods.xml"

  /** `MODS_S3_KEY_BASE_TEMPLATE.format(prefix=s3_prefix)`: `{prefix}/%Y/%m/%d/mods/mods.xml` with the prefix in place. */
  function ModsKeyTemplate(s3Prefix: string): string {
    s3Prefix + "/" + DatePath + ModsFileTail
  }

  /** `dt.strftime(self.mods_s3_key_template)`: the key a day's mods.xml is read from. */
  function ModsKey(s3Prefix: string, d: Day): string {
    Strftime(ModsKeyTemplate(s3Prefix), d)
  }

  /**
   * For a prefix without `%`, the key is the prefix, `/YYYY/MM/DD`, and
   * `/mods/mods.xml`. (A `%` in the prefix would be read as a directive,
   * since the prefix is put into the template before `strftime` runs.)
   */
  lemma ModsKeyShape(s3Prefix: string, d: Day)
    requires '%' !in s3Prefix
    ensures ModsKey(s3Prefix, d) == s3Prefix + "/" + SlashDate(d) + ModsFileTail
  {
    var head := s3Prefix + "/";
    assert '%' !in head;
    assert '%' !in ModsFileTail;
    NoDirectiveComplete(head);
    DatePathPrints(d);
    StrftimeAppend(head, DatePath, d);
    assert Complete(head + DatePath) by { CompleteAppend(head, DatePath); }
    StrftimeAppend(head + DatePath, ModsFileTail, d);
    StrftimeLiteral(head, d);
    StrftimeLiteral(ModsFileTail, d);
  }

  /** Two complete formats make a complete one. */
  lemma {:induction false} CompleteAppend(a: string, b: string)
    requires Complete(a) && Complete(b)
    ensures Complete(a + b)
    decreases |a|
  {
    if a == [] {
      assert a + b == b;
    } else if a[0] == '%' {
      assert (a + b)[2..] == a[2..] + b;
      CompleteAppend(a[2..], b);
    } else {
      assert (a + b)[1..] == a[1..] + b;
      CompleteAppend(a[1..], b);
    }
  }

  /**
   * The reader finds the mods.xml where the scraper put it: for a prefix
   * without `%` that does not end in `/`, the key read is the key the scraper
   * writes under the same prefix, or under the prefix with a trailing `/`.
   */
  lemma ReadsScrapedMods(s3Prefix: string, downloadDir: string, d: Day)
    requires s3Prefix != [] && '%' !in s3Prefix && s3Prefix[|s3Prefix| - 1] != '/'
    ensures ModsKey(s3Prefix, d) == Scraper.UploadKey(s3Prefix, Scraper.Put(Scraper.ModsPath(downloadDir), "mods", d))
    ensures ModsKey(s3Prefix, d) == Scraper.UploadKey(s3Prefix + "/", Scraper.Put(Scraper.ModsPath(downloadDir), "mods", d))
  {
    ModsKeyShape(s3Prefix, d);
    Scraper.ModsKey(downloadDir, s3Prefix, d);
    Scraper.ModsKey(downloadDir, s3Prefix + "/", d);
    var slashed := s3Prefix + "/";
    assert DirPrefix(slashed) == slashed;
    assert DirPrefix(s3Prefix) == slashed;
    AppendAssoc(slashed + SlashDate(d), "/mods", "/mods.xml");
  }

  // ---------------------------------------------------------------- descriptions

  /** A `relatedItem` entry of a mods.xml: its `@ID` and its other fields. */
  datatype RelatedItem = RelatedItem(id: string, fields: map<string, string>)

  /** A parsed mods.xml: the `mods` element's `relatedItem` entries, in document order. */
  datatype Mods = Mods(relatedItems: seq<RelatedItem>)

  /** The entries whose `@ID` is `crecId`, in document order. */
  function RelatedWithId(items: seq<RelatedItem>, crecId: string): seq<RelatedItem> {
    if items == [] then []
    else
      var init := RelatedWithId(items[..|items| - 1], crecId);
      var last := items[|items| - 1];
      if last.id == crecId then init + [last] else init
  }

  /** Exactly the entries with the ID are kept, and no more of them than there are entries. */
  lemma {:induction false} RelatedWithIdMembers(items: seq<RelatedItem>, crecId: string)
    ensures var r := RelatedWithId(items, crecId);
      && |r| <= |items|
      && (forall i :: 0 <= i < |r| ==> r[i].id == crecId)
      && (forall x :: x in r <==> x in items && x.id == crecId)
  {
    if items != [] {
      var init := items[..|items| - 1];
      RelatedWithIdMembers(init, crecId);
      assert items == init + [items[|items| - 1]];
    }
  }

  /** Filtering two runs of entries filters each in turn: document order is kept. */
  lemma {:induction false} RelatedWithIdAppend(a: seq<RelatedItem>, b: seq<RelatedItem>, crecId: string)
    ensures RelatedWithId(a + b, crecId) == RelatedWithId(a, crecId) + RelatedWithId(b, crecId)
    decreases |b|
  {
    if b == [] {
      assert a + b == a;
    } else {
      var init := b[..|b| - 1];
      assert (a + b)[..|a + b| - 1] == a + init;
      RelatedWithIdAppend(a, init, crecId);
    }
  }

  /** The filter leaves a list as it is exactly when every entry has the ID. */
  lemma {:induction false} RelatedWithIdKeepsAll(items: seq<RelatedItem>, crecId: string)
    ensures (forall i :: 0 <= i < |items| ==> items[i].id == crecId) <==> RelatedWithId(items, crecId) == items
  {
    RelatedWithIdMembers(items, crecId);
    if items != [] && forall i :: 0 <= i < |items| ==> items[i].id == crecId {
      var init := items[..|items| - 1];
      RelatedWithIdKeepsAll(init, crecId);
      assert items == init + [items[|items| - 1]];
    }
  }

  /** Filtering twice is filtering once. */
  lemma RelatedWithIdIdempotent(items: seq<RelatedItem>, crecId: string)
    ensures RelatedWithId(RelatedWithId(items, crecId), crecId) == RelatedWithId(items, crecId)
  {
    var r := RelatedWithId(items, crecId);
    RelatedWithIdMembers(items, crecId);
    RelatedWithIdKeepsAll(r, crecId);
  }

  /** The reader: where it reads from, and the mods.xml and record text it has loaded. */
  class CRECParser {
    const s3Bucket: string
    const s3Prefix: string
    const modsS3KeyTemplate: string
    /** The parsed mods.xml last loaded, None before any. */
    var mods: Option<Mods>
    /** The record text last loaded, None before any. */
    var crec: Option<string>
    /** The keys read from S3, in order. */
    var keysRead: seq<string>

    /** `CRECParser(s3_bucket, s3_prefix)`: the key template takes the prefix at once; nothing is loaded. */
    constructor(s3Bucket: string, s3Prefix: string)
      ensures this.s3Bucket == s3Bucket && this.s3Prefix == s3Prefix
      ensures modsS3KeyTemplate == s3Prefix + "/" + DatePath + ModsFileTail
      ensures mods.None? && crec.None? && keysRead == []
    {
      this.s3Bucket := s3Bucket;
      this.s3Prefix := s3Prefix;
      modsS3KeyTemplate := ModsKeyTemplate(s3Prefix);
      mods := None;
      crec := None;
      keysRead := [];
    }

    /** The prefix the command line and `main` use. */
    static const DefaultPrefix: string := "capitolwords"

    /**
     * `load_mods_from_s3`: the day's mods.xml, read from the key the template
     * gives for `dt`, or for the moment a day before `now` when no date is
     * given. None when the key is missing (`get_object` raises) or when the
     * default date would fall before 0001-01-01; then nothing is loaded.
     */
    method LoadModsFromS3(dt: Option<Timestamp>, now: Timestamp, objects: map<string, Mods>) returns (r: Option<Mods>)
      modifies this
      ensures dt.None? && now < SecondsPerDay ==> r.None? && mods == old(mods) && keysRead == old(keysRead)
      ensures dt.Some? || now >= SecondsPerDay ==>
        var day := DayOf(if dt.Some? then dt.value else now - SecondsPerDay);
        var key := Strftime(modsS3KeyTemplate, day);
        && keysRead == old(keysRead) + [key]
        && (key in objects ==> r == Some(objects[key]) && mods == r)
        && (key !in objects ==> r.None? && mods == old(mods))
      ensures crec == old(crec)
    {
      var t: Timestamp;
      if dt.Some? {
        t := dt.value;
      } else if now >= SecondsPerDay {
        t := now - SecondsPerDay;
      } else {
        return None;
      }
      var modsS3Key := Strftime(modsS3KeyTemplate, DayOf(t));
      keysRead := keysRead + [modsS3Key];
      if modsS3Key !in objects {
        return None;
      }
      mods := Some(objects[modsS3Key]);
      return mods;
    }

    /** `load_mods_from_disk`: the mods.xml at the path, or None when there is no such file; the loaded value is returned. */
    method LoadModsFromDisk(filepath: string, files: map<string, Mods>) returns (r: Option<Mods>)
      modifies this
      ensures filepath in files ==> r == Some(files[filepath]) && mods == r
      ensures filepath !in files ==> r.None? && mods == old(mods)
      ensures crec == old(crec) && keysRead == old(keysRead)
    {
      if filepath !in files {
        return None;
      }
      mods := Some(files[filepath]);
      return mods;
    }

    /** `load_crec_from_s3`: the record text at the key, or None when the key is missing; the loaded value is returned. */
    method LoadCrecFromS3(crecS3Key: string, objects: map<string, string>) returns (r: Option<string>)
      modifies this
      ensures keysRead == old(keysRead) + [crecS3Key]
      ensures crecS3Key in objects ==> r == Some(objects[crecS3Key]) && crec == r
      ensures crecS3Key !in objects ==> r.None? && crec == old(crec)
      ensures mods == old(mods)
    {
      keysRead := keysRead + [crecS3Key];
      if crecS3Key !in objects {
        return None;
      }
      crec := Some(objects[crecS3Key]);
      return crec;
    }

    /** `load_crec_from_disk`: the record text at the path, or None when there is no such file; the loaded value is returned. */
    method LoadCrecFromDisk(crecPath: string, files: map<string, string>) returns (r: Option<string>)
      modifies this
      ensures crecPath in files ==> r == Some(files[crecPath]) && crec == r
      ensures crecPath !in files ==> r.None? && crec == old(crec)
      ensures mods == old(mods) && keysRead == old(keysRead)
    {
      if crecPath !in files {
        return None;
      }
      crec := Some(files[crecPath]);
      return crec;
    }

    /**
     * `get_crec_description`: None when no mods.xml is loaded (the method
     * raises); otherwise the entries whose `@ID` is `crecId`, in document
     * order, possibly none. Nothing is changed.
     */
    method GetCrecDescription(crecId: string) returns (r: Option<seq<RelatedItem>>)
      ensures mods.None? <==> r.None?
      ensures mods.Some? ==> r == Some(RelatedWithId(mods.value.relatedItems, crecId))
    {
      if mods.None? {
        return None;
      }
      var items := mods.value.relatedItems;
      var relateds: seq<RelatedItem> := [];
      var i := 0;
      while i < |items|
        invariant 0 <= i <= |items|
        invariant relateds == RelatedWithId(items[..i], crecId)
      {
        assert items[..i + 1][..i] == items[..i];
        if items[i].id == crecId {
          relateds := relateds + [items[i]];
        }
        i := i + 1;
      }
      assert items[..i] == items;
      return Some(relateds);
    }
  }
}
