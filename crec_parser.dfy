/**
 * The record-level rules of the CREC parser worker (workers/crec_parser.py):
 * which records are skipped, where a record's HTML lives in the bucket, how
 * speaker names are cleaned, which congress members are recorded as a
 * record's speakers, and which retrievals are reported as failed.
 */
module CrecParser {
  import opened Wrappers
  import opened Text
  import opened Calendar

  // ---------------------------------------------------------------- skip rules

  /** Why a record is or is not processed. */
  datatype RecordKind =
    | DailyDigest
    | FrontMatter
    | NoContent
    /** Processed: segmented and analysed. */
    | Article

  /** An ID part naming a Daily Digest page. */
  predicate DigestPart(part: string) {
    StartsWith(part, "PgD")
  }

  predicate FrontMatterPart(part: string) {
    StartsWith(part, "FrontMatter")
  }

  /**
   * The skip rules, checked in the source's order: a `PgD` page in the last
   * or second-to-last `-` part of the ID, a `FrontMatter` last part, a
   * missing content. None is the IndexError raised when the ID has a single
   * part that does not start with `PgD` (the second-to-last part is read).
   */
  function ClassifyRecord(id: string, content: Option<string>): Option<RecordKind> {
    ClassifyParts(Split(id, '-'), content)
  }

  /** The skip rules on the `-` parts of an ID. */
  function ClassifyParts(parts: seq<string>, content: Option<string>): Option<RecordKind>
    requires parts != []
  {
    var last := parts[|parts| - 1];
    if DigestPart(last) then Some(DailyDigest)
    else if |parts| < 2 then None
    else if DigestPart(parts[|parts| - 2]) then Some(DailyDigest)
    else if FrontMatterPart(last) then Some(FrontMatter)
    else if content.None? then Some(NoContent)
    else Some(Article)
  }

  /**
   * A record is a Daily Digest page exactly when its last or second-to-last
   * part starts with `PgD`, and only a record with content is processed.
   */
  lemma ClassifyDigest(id: string, content: Option<string>)
    ensures var parts := Split(id, '-');
      var r := ClassifyRecord(id, content);
      && (r == Some(DailyDigest) <==>
            DigestPart(parts[|parts| - 1]) || (|parts| >= 2 && DigestPart(parts[|parts| - 2])))
      && (r == Some(Article) ==> content.Some?)
  {
    var parts := Split(id, '-');
    ClassifyPartsDigest(parts, content);
  }

  lemma ClassifyPartsDigest(parts: seq<string>, content: Option<string>)
    requires parts != []
    ensures var r := ClassifyParts(parts, content);
      && (r == Some(DailyDigest) <==>
            DigestPart(parts[|parts| - 1]) || (|parts| >= 2 && DigestPart(parts[|parts| - 2])))
      && (r == Some(Article) ==> content.Some?)
  {
  }

  /** Only an ID without `-` and without a leading `PgD` makes the rules raise. */
  lemma ClassifyRecordRaises(id: string, content: Option<string>)
    ensures ClassifyRecord(id, content).None? <==> '-' !in id && !DigestPart(id)
  {
    var parts := Split(id, '-');
    if '-' !in id {
      assert parts == [id];
    } else {
      assert |parts| >= 2;
    }
  }

  /**
   * For an ID made of `-`-free parts, the rules look at its last two parts:
   * it is processed exactly when it has content, at least two parts, no
   * `PgD` page in the last two and no `FrontMatter` last part.
   */
  lemma ClassifyByParts(parts: seq<string>, content: Option<string>)
    requires parts != []
    requires forall i :: 0 <= i < |parts| ==> '-' !in parts[i]
    ensures var last := parts[|parts| - 1];
      ClassifyRecord(Join("-", parts), content) == Some(Article) <==>
        && |parts| >= 2
        && !DigestPart(last) && !DigestPart(parts[|parts| - 2])
        && !FrontMatterPart(last)
        && content.Some?
  {
    SplitJoin(parts, '-');
    ClassifySplit(Join("-", parts), parts, content);
  }

  /** The rules in terms of the parts `split('-')` gives. */
  lemma ClassifySplit(id: string, parts: seq<string>, content: Option<string>)
    requires Split(id, '-') == parts
    ensures var last := parts[|parts| - 1];
      ClassifyRecord(id, content) == Some(Article) <==>
        && |parts| >= 2
        && !DigestPart(last) && !DigestPart(parts[|parts| - 2])
        && !FrontMatterPart(last)
        && content.Some?
  {
  }

  // ---------------------------------------------------------------- keys

  /** The characters `strip('id-')` removes from both ends of an ID. */
  const IdStripChars: set<char> := {'i', 'd', '-'}

  /** `date_issued.strftime('crec/%Y/%m/%d/crec')`. */
  function CrecPrefix(date: Day): string {
    "crec/" + SlashDate(date) + "/crec"
  }

  /** A record with its key and what the bucket returned for that key. */
  function Fetched(date: Day, id: string, fetch: string -> Option<string>): FetchedRecord {
    var key := CrecKey(date, id);
    FetchedRecord(id, key, fetch(key))
  }

  /** The S3 key of a record's HTML: `{prefix}/{id}.htm` with the ID stripped. */
  function CrecKey(date: Day, id: string): string {
    CrecPrefix(date) + "/" + Strip(id, IdStripChars) + ".htm"
  }

  /**
   * Every key lies under the day's `crec/YYYY/MM/DD/crec/` prefix, ends in
   * `.htm`, and carries the ID with no `i`, `d` or `-` left at either end.
   */
  lemma CrecKeyShape(date: Day, id: string)
    ensures var key := CrecKey(date, id);
      && StartsWith(key, "crec/" + SlashDate(date) + "/crec/")
      && key[|key| - 4..] == ".htm"
      && key[21..|key| - 4] == Strip(id, IdStripChars)
  {
    var stripped := Strip(id, IdStripChars);
    var dir := "crec/" + SlashDate(date) + "/crec";
    AppendAssoc(dir, "/", stripped);
    AppendAssoc(dir + "/", stripped, ".htm");
    AppendAssoc("crec/" + SlashDate(date), "/crec", "/");
  }

  /**
   * An ID written `id-<body>`, whose body neither starts nor ends with `i`,
   * `d` or `-`, is stored under `crec/YYYY/MM/DD/crec/<body>.htm`.
   */
  lemma CrecKeyOfId(date: Day, body: string)
    requires body != [] && body[0] !in IdStripChars && body[|body| - 1] !in IdStripChars
    ensures CrecKey(date, "id-" + body) == "crec/" + SlashDate(date) + "/crec/" + body + ".htm"
  {
    var pre := "id-";
    assert forall i :: 0 <= i < |pre| ==> pre[i] in IdStripChars;
    StripPrefix(pre, body, IdStripChars);
    var dir := CrecPrefix(date) + "/";
    AppendAssoc(dir, body, ".htm");
  }

  // ---------------------------------------------------------------- names

  /** The text the name-cleaning pattern ` of .*$` starts matching at. */
  const OfMarker: string := " of "

  /**
   * From `j` on there is no line break, except possibly as the very last
   * character: where `.*$` can reach the end of the text.
   */
  predicate LineRunsToEnd(s: string, j: nat) {
    forall k :: j <= k < |s| && s[k] == '\n' ==> k == |s| - 1
  }

  /** `re.sub(' of .*$', '', s)`, searching for the match from position `i`. */
  function SanitizeFrom(s: string, i: nat): (r: string)
    ensures |r| <= |s|
    ensures '\n' !in s ==> r == match IndexFrom(s, OfMarker, i) case Some(k) => s[..k] case None => s
    decreases |s| - i
  {
    if i + |OfMarker| > |s| then s
    else if OccursAt(s, OfMarker, i) && LineRunsToEnd(s, i + |OfMarker|) then
      s[..i] + (if s[|s| - 1] == '\n' then "\n" else "")
    else SanitizeFrom(s, i + 1)
  }

  /**
   * The parsed name with everything from the first ` of ` on removed (the
   * pattern cannot cross a line break other than a final one).
   */
  function SanitizeName(s: string): (r: string)
    ensures |r| <= |s|
    ensures '\n' !in s && Contains(s, OfMarker) ==> r == s[..IndexFrom(s, OfMarker, 0).value]
    ensures '\n' !in s && !Contains(s, OfMarker) ==> r == s
  {
    SanitizeFrom(s, 0)
  }

  /** A cleaned one-line name no longer contains ` of `, so cleaning it again changes nothing. */
  lemma SanitizeNameIdempotent(s: string)
    requires '\n' !in s
    ensures !Contains(SanitizeName(s), OfMarker)
    ensures SanitizeName(SanitizeName(s)) == SanitizeName(s)
  {
    var r := SanitizeName(s);
    if Contains(s, OfMarker) {
      var k := IndexFrom(s, OfMarker, 0).value;
      assert r == s[..k];
      if Contains(r, OfMarker) {
        var j := IndexFrom(r, OfMarker, 0).value;
        assert OccursAt(s, OfMarker, j) by {
          assert s[j..j + |OfMarker|] == r[j..j + |OfMarker|];
        }
        assert false;
      }
    }
    assert forall c :: c in r ==> c in s;
  }

  // ---------------------------------------------------------------- speakers

  /** The attributes recorded for a speaker. */
  datatype SpeakerInfo = SpeakerInfo(
    bioGuideId: Option<string>,
    chamber: Option<string>,
    congress: Option<string>,
    party: Option<string>,
    state: Option<string>,
    name: string)

  /** A `congMember` element: its attributes, its parsed name and its authority-fnf name. */
  datatype CongMember = CongMember(
    role: Option<string>,
    bioGuideId: Option<string>,
    chamber: Option<string>,
    congress: Option<string>,
    party: Option<string>,
    state: Option<string>,
    parsedName: string,
    authorityName: string)

  /** A constituent `relatedItem`: its `ID` and its congress members. */
  datatype Constituent = Constituent(id: string, members: seq<CongMember>)

  function InfoOf(m: CongMember): SpeakerInfo {
    SpeakerInfo(m.bioGuideId, m.chamber, m.congress, m.party, m.state, m.authorityName)
  }

  /** A dict from speaker name to attributes, remembering insertion order. */
  datatype NameTable = NameTable(names: seq<string>, info: map<string, SpeakerInfo>)

  predicate ValidTable(t: NameTable) {
    && (forall i, j :: 0 <= i < j < |t.names| ==> t.names[i] != t.names[j])
    && (forall i :: 0 <= i < |t.names| ==> t.names[i] in t.info)
    && (forall n :: n in t.info ==> n in t.names)
  }

  /** `t[name] = info`: a new name goes last, an existing one keeps its place. */
  function Put(t: NameTable, name: string, info: SpeakerInfo): (r: NameTable)
    requires ValidTable(t)
    ensures ValidTable(r)
    ensures r.info == t.info[name := info]
    ensures name in t.info ==> r.names == t.names
    ensures name !in t.info ==> r.names == t.names + [name]
  {
    if name in t.info then NameTable(t.names, t.info[name := info])
    else NameTable(t.names + [name], t.info[name := info])
  }

  const EmptyTable: NameTable := NameTable([], map[])

  /** The defaultdict lookup: a constituent without recorded speakers has an empty table. */
  function TableAt(speakers: map<string, NameTable>, id: string): NameTable {
    if id in speakers then speakers[id] else EmptyTable
  }

  predicate ValidSpeakers(speakers: map<string, NameTable>) {
    forall id :: id in speakers ==> ValidTable(speakers[id])
  }

  /** A member the role filter admits. */
  predicate Speaking(m: CongMember) {
    m.role == Some("SPEAKING")
  }

  /**
   * One iteration of the inner loop: a speaking member is recorded under the
   * constituent's ID with its cleaned name, unless that name is already a
   * key of the outer table (the guard tests the outer dict).
   */
  function RecordMember(speakers: map<string, NameTable>, id: string, m: CongMember): map<string, NameTable>
    requires ValidSpeakers(speakers)
  {
    var name := SanitizeName(m.parsedName);
    if name !in speakers && Speaking(m) then speakers[id := Put(TableAt(speakers, id), name, InfoOf(m))]
    else speakers
  }

  function RecordMembers(speakers: map<string, NameTable>, id: string, ms: seq<CongMember>): (r: map<string, NameTable>)
    requires ValidSpeakers(speakers)
    ensures ValidSpeakers(r)
  {
    if ms == [] then speakers
    else RecordMember(RecordMembers(speakers, id, ms[..|ms| - 1]), id, ms[|ms| - 1])
  }

  /** The speakers table `parse_mods_file` builds from the constituents, in document order. */
  function SpeakersOf(cs: seq<Constituent>): (r: map<string, NameTable>)
    ensures ValidSpeakers(r)
  {
    if cs == [] then map[]
    else RecordMembers(SpeakersOf(cs[..|cs| - 1]), cs[|cs| - 1].id, cs[|cs| - 1].members)
  }

  /** The speaker loop of `parse_mods_file`. */
  method CollectSpeakers(cs: seq<Constituent>) returns (speakers: map<string, NameTable>)
    ensures speakers == SpeakersOf(cs)
  {
    speakers := map[];
    var i := 0;
    while i < |cs|
      invariant 0 <= i <= |cs|
      invariant speakers == SpeakersOf(cs[..i])
    {
      assert cs[..i + 1][..i] == cs[..i];
      speakers := RecordSpeakingMembers(speakers, cs[i].id, cs[i].members);
      i := i + 1;
    }
    assert cs[..i] == cs;
  }

  /** The inner loop of `parse_mods_file`, over one constituent's members. */
  method RecordSpeakingMembers(speakers0: map<string, NameTable>, id: string, ms: seq<CongMember>) returns (speakers: map<string, NameTable>)
    requires ValidSpeakers(speakers0)
    ensures speakers == RecordMembers(speakers0, id, ms)
  {
    speakers := speakers0;
    var j := 0;
    while j < |ms|
      invariant 0 <= j <= |ms|
      invariant speakers == RecordMembers(speakers0, id, ms[..j])
    {
      assert ms[..j + 1][..j] == ms[..j];
      assert RecordMembers(speakers0, id, ms[..j + 1]) == RecordMember(speakers, id, ms[j]);
      var m := ms[j];
      var name := SanitizeName(m.parsedName);
      if name !in speakers && m.role == Some("SPEAKING") {
        var table := if id in speakers then speakers[id] else EmptyTable;
        speakers := speakers[id := Put(table, name, InfoOf(m))];
      }
      j := j + 1;
    }
    assert ms[..j] == ms;
  }

  /** `name` is recorded under `id` with `info` because of a speaking member of a constituent with that ID. */
  predicate RecordedFrom(cs: seq<Constituent>, id: string, name: string, info: SpeakerInfo) {
    exists i, j :: 0 <= i < |cs| && 0 <= j < |cs[i].members| && cs[i].id == id
      && Speaking(cs[i].members[j]) && SanitizeName(cs[i].members[j].parsedName) == name
      && InfoOf(cs[i].members[j]) == info
  }

  /** Every table entry comes from a speaking member of its constituent, under its cleaned name. */
  predicate Sound(speakers: map<string, NameTable>, cs: seq<Constituent>) {
    forall id, name :: id in speakers && name in speakers[id].info ==> RecordedFrom(cs, id, name, speakers[id].info[name])
  }

  lemma {:induction false} RecordMembersSound(speakers: map<string, NameTable>, cs: seq<Constituent>, c: Constituent, ms: seq<CongMember>)
    requires ValidSpeakers(speakers) && Sound(speakers, cs)
    requires forall j :: 0 <= j < |ms| ==> ms[j] in c.members
    ensures Sound(RecordMembers(speakers, c.id, ms), cs + [c])
  {
    var cs' := cs + [c];
    if ms == [] {
      SoundExtends(speakers, cs, c);
    } else {
      var init := ms[..|ms| - 1];
      var m := ms[|ms| - 1];
      RecordMembersSound(speakers, cs, c, init);
      var before := RecordMembers(speakers, c.id, init);
      var after := RecordMember(before, c.id, m);
      forall id, name | id in after && name in after[id].info
        ensures RecordedFrom(cs', id, name, after[id].info[name])
      {
        var n := SanitizeName(m.parsedName);
        if n !in before && Speaking(m) && id == c.id && name == n {
          var j :| 0 <= j < |c.members| && c.members[j] == m;
          assert cs'[|cs|] == c;
        }
      }
    }
  }

  lemma SoundExtends(speakers: map<string, NameTable>, cs: seq<Constituent>, c: Constituent)
    requires Sound(speakers, cs)
    ensures Sound(speakers, cs + [c])
  {
    forall id, name | id in speakers && name in speakers[id].info
      ensures RecordedFrom(cs + [c], id, name, speakers[id].info[name])
    {
      var i, j :| 0 <= i < |cs| && 0 <= j < |cs[i].members| && cs[i].id == id
        && Speaking(cs[i].members[j]) && SanitizeName(cs[i].members[j].parsedName) == name
        && InfoOf(cs[i].members[j]) == speakers[id].info[name];
      assert (cs + [c])[i] == cs[i];
    }
  }

  /**
   * The role filter: every recorded speaker is a `SPEAKING` member of a
   * constituent with that ID, under its cleaned parsed name and with its own
   * attributes; each table lists its names once.
   */
  lemma {:induction false} SpeakersAreSpeaking(cs: seq<Constituent>)
    ensures Sound(SpeakersOf(cs), cs)
    ensures ValidSpeakers(SpeakersOf(cs))
  {
    if cs != [] {
      var init := cs[..|cs| - 1];
      var c := cs[|cs| - 1];
      SpeakersAreSpeaking(init);
      assert cs == init + [c];
      RecordMembersSound(SpeakersOf(init), init, c, c.members);
    }
  }

  /** No cleaned speaker name is also a constituent ID (the outer-key guard never fires). */
  predicate NamesAreNotIds(cs: seq<Constituent>) {
    forall i, k, j :: 0 <= i < |cs| && 0 <= k < |cs| && 0 <= j < |cs[k].members| ==>
      SanitizeName(cs[k].members[j].parsedName) != cs[i].id
  }

  /** Keys and names already present stay present. */
  predicate Grows(before: map<string, NameTable>, after: map<string, NameTable>) {
    forall id :: id in before ==> id in after && before[id].info.Keys <= after[id].info.Keys
  }

  lemma {:induction false} RecordMembersComplete(speakers: map<string, NameTable>, ids: set<string>, id: string, ms: seq<CongMember>)
    requires ValidSpeakers(speakers)
    requires speakers.Keys <= ids && id in ids
    requires forall j :: 0 <= j < |ms| ==> SanitizeName(ms[j].parsedName) !in ids
    ensures var r := RecordMembers(speakers, id, ms);
      && r.Keys <= ids
      && Grows(speakers, r)
      && forall j :: 0 <= j < |ms| && Speaking(ms[j]) ==> id in r && SanitizeName(ms[j].parsedName) in r[id].info
  {
    if ms != [] {
      var init := ms[..|ms| - 1];
      RecordMembersComplete(speakers, ids, id, init);
      var before := RecordMembers(speakers, id, init);
      var after := RecordMember(before, id, ms[|ms| - 1]);
      forall j | 0 <= j < |ms| && Speaking(ms[j])
        ensures id in after && SanitizeName(ms[j].parsedName) in after[id].info
      {
        if j < |init| {
          assert ms[j] == init[j];
        }
      }
    }
  }

  /**
   * When no cleaned name coincides with a constituent ID, every `SPEAKING`
   * member is recorded under its constituent.
   */
  lemma {:induction false} SpeakingMembersRecorded(cs: seq<Constituent>)
    requires NamesAreNotIds(cs)
    ensures forall i, j :: 0 <= i < |cs| && 0 <= j < |cs[i].members| && Speaking(cs[i].members[j]) ==>
      cs[i].id in SpeakersOf(cs) && SanitizeName(cs[i].members[j].parsedName) in SpeakersOf(cs)[cs[i].id].info
  {
    var ids := set i | 0 <= i < |cs| :: cs[i].id;
    SpeakersOfComplete(cs, ids);
  }

  lemma {:induction false} SpeakersOfComplete(cs: seq<Constituent>, ids: set<string>)
    requires forall i :: 0 <= i < |cs| ==> cs[i].id in ids
    requires forall k, j :: 0 <= k < |cs| && 0 <= j < |cs[k].members| ==> SanitizeName(cs[k].members[j].parsedName) !in ids
    ensures SpeakersOf(cs).Keys <= ids
    ensures forall i, j :: 0 <= i < |cs| && 0 <= j < |cs[i].members| && Speaking(cs[i].members[j]) ==>
      cs[i].id in SpeakersOf(cs) && SanitizeName(cs[i].members[j].parsedName) in SpeakersOf(cs)[cs[i].id].info
  {
    if cs != [] {
      var init := cs[..|cs| - 1];
      var c := cs[|cs| - 1];
      SpeakersOfComplete(init, ids);
      var before := SpeakersOf(init);
      assert forall j :: 0 <= j < |c.members| ==> SanitizeName(c.members[j].parsedName) !in ids;
      RecordMembersComplete(before, ids, c.id, c.members);
      forall i, j | 0 <= i < |cs| && 0 <= j < |cs[i].members| && Speaking(cs[i].members[j])
        ensures cs[i].id in SpeakersOf(cs) && SanitizeName(cs[i].members[j].parsedName) in SpeakersOf(cs)[cs[i].id].info
      {
        if i < |init| {
          assert cs[i] == init[i];
        }
      }
    }
  }

  // ---------------------------------------------------------------- retrievals

  /** A record after the retrieval loop: its ID, its key and the content fetched, if any. */
  datatype FetchedRecord = FetchedRecord(id: string, key: string, content: Option<string>)

  /** Every record with its key and content, in document order. */
  function FetchAll(date: Day, ids: seq<string>, fetch: string -> Option<string>): (records: seq<FetchedRecord>)
    ensures |records| == |ids|
    ensures forall i :: 0 <= i < |ids| ==> records[i] == Fetched(date, ids[i], fetch)
  {
    if ids == [] then []
    else FetchAll(date, ids[..|ids| - 1], fetch) + [Fetched(date, ids[|ids| - 1], fetch)]
  }

  /** The keys whose retrieval failed, over all records. */
  function FailedKeys(records: seq<FetchedRecord>): (failed: seq<string>)
    ensures |failed| <= |records|
  {
    if records == [] then []
    else
      var last := records[|records| - 1];
      FailedKeys(records[..|records| - 1]) + (if last.content.None? then [last.key] else [])
  }

  lemma FailedKeysSnoc(records: seq<FetchedRecord>, r: FetchedRecord)
    ensures FailedKeys(records + [r]) == FailedKeys(records) + (if r.content.None? then [r.key] else [])
  {
    assert (records + [r])[..|records|] == records;
  }

  /** A key is reported exactly when some record with that key got no content. */
  lemma {:induction false} FailedKeysMeaning(records: seq<FetchedRecord>)
    ensures forall k :: k in FailedKeys(records) <==>
      exists i :: 0 <= i < |records| && records[i].key == k && records[i].content.None?
  {
    if records != [] {
      var init := records[..|records| - 1];
      FailedKeysMeaning(init);
      assert forall i :: 0 <= i < |init| ==> records[i] == init[i];
    }
  }

  /**
   * The retrieval loop with the failure list kept across records: each record
   * gets its key and the content the bucket returns for it (None when the
   * fetch fails), and every failed key is reported.
   */
  method RetrieveRecords(date: Day, ids: seq<string>, fetch: string -> Option<string>)
    returns (records: seq<FetchedRecord>, failed: seq<string>)
    ensures records == FetchAll(date, ids, fetch)
    ensures failed == FailedKeys(records)
  {
    records := [];
    failed := [];
    var i := 0;
    while i < |ids|
      invariant 0 <= i <= |ids|
      invariant records == FetchAll(date, ids[..i], fetch)
      invariant failed == FailedKeys(records)
    {
      assert ids[..i + 1][..i] == ids[..i];
      var record := Fetched(date, ids[i], fetch);
      FailedKeysSnoc(records, record);
      records := records + [record];
      if record.content.None? {
        failed := failed + [record.key];
      }
      i := i + 1;
    }
    assert ids[..i] == ids;
  }

  /**
   * The failure list as written: it is emptied at the start of every record,
   * so after the loop it holds at most the last record's key; with no
   * records it was never bound (None: the report raises).
   */
  function FailedKeysAsWritten(records: seq<FetchedRecord>): (failed: Option<seq<string>>)
    ensures failed.None? <==> records == []
    ensures failed.Some? ==> |failed.value| <= 1
  {
    if records == [] then None
    else
      var last := records[|records| - 1];
      Some(if last.content.None? then [last.key] else [])
  }

  /**
   * A failed retrieval followed by a successful one is reported as "All crec
   * retrievals succeeded" as written, while the failure list over all
   * records names the failed key.
   */
  lemma EarlierFailureUnreported(failedRecord: FetchedRecord, okRecord: FetchedRecord)
    requires failedRecord.content.None? && okRecord.content.Some?
    ensures FailedKeysAsWritten([failedRecord, okRecord]) == Some([])
    ensures FailedKeys([failedRecord, okRecord]) == [failedRecord.key]
  {
    assert [failedRecord, okRecord][..1] == [failedRecord];
  }
}
