/**
 * The topic monitor (interesting/lib.py): the query that finds a saved topic's
 * documents over a span of days, the lookup of a speaker by full name, and the
 * recording of one search hit as `FoundResult` rows, one per resolved speaker.
 */
module Monitor {
  import opened Wrappers
  import opened Text
  import opened Calendar
  import opened Search
  import opened Views
  import opened Topics

  /** The highlight fragment size the monitor asks for. */
  const MonitorFragmentSize: nat := 500

  /** One `content` clause (`get_content`) per tracked entity, in the topic's order. */
  function EntityClauses(entities: seq<NamedEntity>): (cs: seq<Clause>)
    ensures |cs| == |entities|
    ensures forall i :: 0 <= i < |cs| ==> cs[i] == GetContent(entities[i].entity)
  {
    if entities == [] then [] else EntityClauses(entities[..|entities| - 1]) + [GetContent(entities[|entities| - 1].entity)]
  }

  /**
   * `find_interesting`: documents issued from `start` (inclusive) to
   * `start + daysForward` (exclusive) whose content has all the words of at
   * least one tracked entity, highlighted on `content`, unsorted. None when
   * the end date falls outside the calendar (the source's OverflowError).
   */
  function FindInteresting(topic: Topic, start: Day, daysForward: int): (r: Option<Request>)
    ensures r.Some? <==> 1 <= start + daysForward <= MaxOrdinal
    ensures r.Some? ==> r.value.sort == [] && r.value.highlight == Some(Highlight("content", MonitorFragmentSize))
    ensures r.Some? ==> r.value.query.Bool? && r.value.query.minimumShouldMatch == Some(1)
    ensures r.Some? ==> r.value.query.must == [Range("date_issued", IsoDate(start), IsoDate(start + daysForward))]
    ensures r.Some? ==> r.value.query.should == EntityClauses(topic.entities)
  {
    var end := start + daysForward;
    if 1 <= end <= MaxOrdinal then
      var range := Range("date_issued", IsoDate(start), IsoDate(end));
      Some(Request([], Bool([range], EntityClauses(topic.entities), Some(1)), Some(Highlight("content", MonitorFragmentSize))))
    else None
  }

  /** The monitor's date range holds exactly on the days of the span. */
  lemma DateRangeHolds(start: Day, end: Day, doc: Document, analyze: Analyzer)
    ensures ClauseHolds(Range("date_issued", IsoDate(start), IsoDate(end)), doc, analyze)
        <==> start <= doc.dateIssued < end
  {
    ParseIsoRoundTrip(start);
    ParseIsoRoundTrip(end);
  }

  /** The document's content has every word of at least one of the entities. */
  predicate MentionsEntity(doc: Document, entities: seq<NamedEntity>, analyze: Analyzer) {
    exists i :: 0 <= i < |entities| && MatchHolds(doc, "content", entities[i].entity, And, analyze)
  }

  /** Some entity clause holds exactly when some entity's words all occur in the content. */
  lemma EntityClausesHold(entities: seq<NamedEntity>, doc: Document, analyze: Analyzer)
    ensures CountHolding(EntityClauses(entities), doc, analyze) >= 1 <==> MentionsEntity(doc, entities, analyze)
  {
    var cs := EntityClauses(entities);
    CountHoldingPositive(cs, doc, analyze);
    if exists i :: 0 <= i < |entities| && MatchHolds(doc, "content", entities[i].entity, And, analyze) {
      var i :| 0 <= i < |entities| && MatchHolds(doc, "content", entities[i].entity, And, analyze);
      assert ClauseHolds(cs[i], doc, analyze);
    }
    if exists i :: 0 <= i < |cs| && ClauseHolds(cs[i], doc, analyze) {
      var i :| 0 <= i < |cs| && ClauseHolds(cs[i], doc, analyze);
      assert MatchHolds(doc, "content", entities[i].entity, And, analyze);
    }
  }

  /** A `bool` with one filter and `minimum_should_match` 1 needs the filter and one optional clause. */
  lemma FilteredBoolHolds(filter: Clause, should: seq<Clause>, doc: Document, analyze: Analyzer)
    ensures Matches(Bool([filter], should, Some(1)), doc, analyze)
        <==> ClauseHolds(filter, doc, analyze) && CountHolding(should, doc, analyze) >= 1
  {
    var q := Bool([filter], should, Some(1));
    assert q.must[0] == filter;
    assert EffectiveMinimum(q) == 1;
  }

  /**
   * What the monitor query selects: a document is found exactly when it was
   * issued within the span and its content contains every token of some
   * tracked entity.
   */
  lemma TopicQuerySelects(topic: Topic, start: Day, daysForward: int, doc: Document, analyze: Analyzer)
    requires 1 <= start + daysForward <= MaxOrdinal
    ensures Matches(FindInteresting(topic, start, daysForward).value.query, doc, analyze)
        <==> start <= doc.dateIssued < start + daysForward && MentionsEntity(doc, topic.entities, analyze)
  {
    ParseIsoRoundTrip(start);
    ParseIsoRoundTrip(start + daysForward);
    DatedEntitiesHold(IsoDate(start), IsoDate(start + daysForward), start, start + daysForward, topic.entities, doc, analyze);
  }

  /** A date range between the texts of two days, then one optional clause per entity, one of which must hold. */
  lemma DatedEntitiesHold(gte: string, lt: string, from: Day, to: Day, entities: seq<NamedEntity>, doc: Document, analyze: Analyzer)
    requires ParseIso(gte) == Some(from) && ParseIso(lt) == Some(to)
    ensures Matches(Bool([Range("date_issued", gte, lt)], EntityClauses(entities), Some(1)), doc, analyze)
        <==> from <= doc.dateIssued < to && MentionsEntity(doc, entities, analyze)
  {
    var range := Range("date_issued", gte, lt);
    FilteredBoolHolds(range, EntityClauses(entities), doc, analyze);
    EntityClausesHold(entities, doc, analyze);
  }

  /** A topic with no tracked entities (the tables allow one: `TopicWithoutEntitiesAllowed`) finds nothing. */
  lemma TopicWithoutEntitiesFindsNothing(topic: Topic, start: Day, daysForward: int, doc: Document, analyze: Analyzer)
    requires topic.entities == []
    requires 1 <= start + daysForward <= MaxOrdinal
    ensures !Matches(FindInteresting(topic, start, daysForward).value.query, doc, analyze)
  {
    TopicQuerySelects(topic, start, daysForward, doc, analyze);
  }

  /** The people whose full name is `name`, in table order. */
  function Named(people: seq<CongressPerson>, name: string): (r: seq<CongressPerson>)
    ensures forall p :: p in r <==> p in people && p.officialFull == name
    ensures |r| <= |people|
    ensures (forall p :: p in people ==> p.officialFull != name) ==> r == []
  {
    if people == [] then []
    else
      var rest := Named(people[..|people| - 1], name);
      var last := people[|people| - 1];
      assert people == people[..|people| - 1] + [last];
      if last.officialFull == name then rest + [last] else rest
  }

  /** Full names are unique in the legislators table. */
  predicate UniqueNames(people: seq<CongressPerson>) {
    forall i, j :: 0 <= i < j < |people| ==> people[i].officialFull != people[j].officialFull
  }

  /**
   * `get_speaker_for_name`: the one person with that full name; any failure
   * of the lookup (no such person, or several) gives None.
   */
  function GetSpeakerForName(name: string, people: seq<CongressPerson>): (r: Option<CongressPerson>)
    ensures r.Some? ==> r.value in people && r.value.officialFull == name
    ensures r.Some? ==> forall p :: p in people && p.officialFull == name ==> p == r.value
    ensures (forall p :: p in people ==> p.officialFull != name) ==> r.None?
  {
    var found := Named(people, name);
    if |found| == 1 then Some(found[0]) else None
  }

  /** With unique names, the lookup finds a person exactly when one carries the name. */
  lemma {:induction false} SpeakerLookupTotal(name: string, people: seq<CongressPerson>)
    requires UniqueNames(people)
    ensures GetSpeakerForName(name, people).Some? <==> exists p :: p in people && p.officialFull == name
  {
    NamedUnique(people, name);
  }

  lemma {:induction false} NamedUnique(people: seq<CongressPerson>, name: string)
    requires UniqueNames(people)
    ensures |Named(people, name)| <= 1
  {
    if people != [] {
      var init := people[..|people| - 1];
      var last := people[|people| - 1];
      assert people == init + [last];
      NamedUnique(init, name);
      if last.officialFull == name {
        forall p | p in init
          ensures p.officialFull != name
        {
          var j :| 0 <= j < |init| && init[j] == p;
          assert people[j] == p;
        }
      }
    }
  }

  /** A search hit as the monitor reads it. `highlight` is the highlighted content, when the hit has one. */
  datatype Hit = Hit(id: string, title: string, dateIssued: string, speakers: seq<string>, highlight: Option<string>)

  /**
   * `format_result_date`: the day of a `YYYY-MM-DDTHH:MM:SS` timestamp, or
   * None when the text is not one (the source's ValueError).
   */
  function FormatResultDate(s: string): (r: Option<Day>)
    ensures r.Some? ==> |s| == 19 && r == ParseIso(s[..10])
  {
    if && |s| == 19 && s[10] == 'T' && s[13] == ':' && s[16] == ':'
       && AllDigits(s[11..13]) && AllDigits(s[14..16]) && AllDigits(s[17..])
       && DigitsValue(s[11..13]) < 24 && DigitsValue(s[14..16]) < 60 && DigitsValue(s[17..]) < 60
    then ParseIso(s[..10])
    else None
  }

  /** A midnight timestamp parses to the day of its date part. */
  lemma MidnightResultDate(iso: string)
    requires |iso| == 10
    ensures FormatResultDate(iso + "T00:00:00") == ParseIso(iso)
  {
    var s := iso + "T00:00:00";
    assert s[..10] == iso;
    assert s[10] == 'T' && s[13] == ':' && s[16] == ':';
    assert DigitsValue("00") == 0 by {
      assert "00"[..1] == "0";
    }
    assert s[11..13] == "00" && s[14..16] == "00" && s[17..] == "00";
  }

  /** The timestamp the index stores for a day parses back to that day. */
  lemma ResultDateRoundTrip(d: Day)
    ensures FormatResultDate(IsoDate(d) + "T00:00:00") == Some(d)
  {
    MidnightResultDate(IsoDate(d));
    ParseIsoRoundTrip(d);
  }

  /** How processing a hit ended. */
  datatype HitOutcome =
    | Processed
    /** The hit's date did not parse; nothing was recorded. */
    | InvalidDate
    /** A row did not fit its columns; the database error ended the hit. */
    | RowRejected

  /** The row recorded for one resolved speaker of a hit. */
  function RowFor(topic: Topic, speaker: CongressPerson, hit: Hit, date: Day): (r: FoundResult)
    ensures KeyOf(r) == ResultKey(topic.id, speaker.id, hit.id)
    ensures r.fragment == hit.highlight.GetOr("") && r.score.None?
    ensures r.documentDate == date && r.documentTitle == hit.title
  {
    var row := NewFoundResult(topic, speaker, hit.id, date, hit.title);
    if hit.highlight.Some? then row.(fragment := hit.highlight.value) else row
  }

  /**
   * The `for speaker in hit.speakers` loop as a function of the table: an
   * unknown speaker is skipped, a duplicate row is ignored (IntegrityError),
   * a row too wide for its columns ends the hit, anything else is inserted.
   */
  function SaveSpeakers(rows: map<ResultKey, FoundResult>, topic: Topic, hit: Hit, date: Day,
                        people: seq<CongressPerson>, speakers: seq<string>): (map<ResultKey, FoundResult>, HitOutcome)
    decreases |speakers|
  {
    if speakers == [] then (rows, Processed)
    else match GetSpeakerForName(speakers[0], people)
      case None => SaveSpeakers(rows, topic, hit, date, people, speakers[1..])
      case Some(p) =>
        var row := RowFor(topic, p, hit, date);
        if !FitsColumns(row) then (rows, RowRejected)
        else if KeyOf(row) in rows then SaveSpeakers(rows, topic, hit, date, people, speakers[1..])
        else SaveSpeakers(rows[KeyOf(row) := row], topic, hit, date, people, speakers[1..])
  }

  /** `process_hit` as a function of the table. */
  function HitEffect(rows: map<ResultKey, FoundResult>, topic: Topic, hit: Hit, people: seq<CongressPerson>): (map<ResultKey, FoundResult>, HitOutcome) {
    match FormatResultDate(hit.dateIssued)
    case None => (rows, InvalidDate)
    case Some(date) => SaveSpeakers(rows, topic, hit, date, people, hit.speakers)
  }

  /** The row is the one recorded for some resolved speaker among `speakers`. */
  predicate RowOfSpeaker(row: FoundResult, topic: Topic, hit: Hit, date: Day, people: seq<CongressPerson>, speakers: seq<string>) {
    exists j :: 0 <= j < |speakers| && GetSpeakerForName(speakers[j], people).Some?
             && row == RowFor(topic, GetSpeakerForName(speakers[j], people).value, hit, date)
  }

  lemma RowOfSpeakerShift(row: FoundResult, topic: Topic, hit: Hit, date: Day, people: seq<CongressPerson>, speakers: seq<string>)
    requires speakers != []
    requires RowOfSpeaker(row, topic, hit, date, people, speakers[1..])
    ensures RowOfSpeaker(row, topic, hit, date, people, speakers)
  {
    var j :| 0 <= j < |speakers[1..]| && GetSpeakerForName(speakers[1..][j], people).Some?
             && row == RowFor(topic, GetSpeakerForName(speakers[1..][j], people).value, hit, date);
    assert speakers[1..][j] == speakers[j + 1];
  }

  /**
   * The table only grows: it keeps the rows it had, gains at most one row
   * per listed speaker, and stays valid.
   */
  lemma {:induction false} SaveSpeakersGrows(rows: map<ResultKey, FoundResult>, topic: Topic, hit: Hit, date: Day,
                                             people: seq<CongressPerson>, speakers: seq<string>)
    ensures var r := SaveSpeakers(rows, topic, hit, date, people, speakers).0;
      && rows.Keys <= r.Keys
      && (forall k :: k in rows ==> r[k] == rows[k])
      && |r.Keys| <= |rows.Keys| + |speakers|
      && (ValidResults(rows) ==> ValidResults(r))
    decreases |speakers|
  {
    if speakers != [] {
      var rest := speakers[1..];
      match GetSpeakerForName(speakers[0], people)
      case None =>
        SaveSpeakersGrows(rows, topic, hit, date, people, rest);
      case Some(p) =>
        var row := RowFor(topic, p, hit, date);
        if FitsColumns(row) {
          if KeyOf(row) in rows {
            SaveSpeakersGrows(rows, topic, hit, date, people, rest);
          } else {
            var next := rows[KeyOf(row) := row];
            InsertRow(rows, row);
            SaveSpeakersGrows(next, topic, hit, date, people, rest);
          }
        }
    }
  }

  /** Inserting a fitting row under a new key adds exactly that key and keeps the table valid. */
  lemma InsertRow(rows: map<ResultKey, FoundResult>, row: FoundResult)
    requires FitsColumns(row) && KeyOf(row) !in rows
    ensures var next := rows[KeyOf(row) := row];
      && next.Keys == rows.Keys + {KeyOf(row)}
      && |next.Keys| == |rows.Keys| + 1
      && (forall k :: k in rows ==> next[k] == rows[k])
      && (ValidResults(rows) ==> ValidResults(next))
  {
  }

  /** Every row the hit adds is the row of one of its resolved speakers. */
  lemma {:induction false} SaveSpeakersNewRows(rows: map<ResultKey, FoundResult>, topic: Topic, hit: Hit, date: Day,
                                               people: seq<CongressPerson>, speakers: seq<string>)
    ensures var r := SaveSpeakers(rows, topic, hit, date, people, speakers).0;
      forall k :: k in r && k !in rows ==> RowOfSpeaker(r[k], topic, hit, date, people, speakers)
    decreases |speakers|
  {
    if speakers != [] {
      var rest := speakers[1..];
      var r := SaveSpeakers(rows, topic, hit, date, people, speakers).0;
      match GetSpeakerForName(speakers[0], people)
      case None =>
        SaveSpeakersNewRows(rows, topic, hit, date, people, rest);
        forall k | k in r && k !in rows
          ensures RowOfSpeaker(r[k], topic, hit, date, people, speakers)
        {
          RowOfSpeakerShift(r[k], topic, hit, date, people, speakers);
        }
      case Some(p) =>
        var row := RowFor(topic, p, hit, date);
        if FitsColumns(row) {
          var next := if KeyOf(row) in rows then rows else rows[KeyOf(row) := row];
          SaveSpeakersNewRows(next, topic, hit, date, people, rest);
          SaveSpeakersGrows(next, topic, hit, date, people, rest);
          forall k | k in r && k !in rows
            ensures RowOfSpeaker(r[k], topic, hit, date, people, speakers)
          {
            if k in next {
              assert r[k] == row;
              assert GetSpeakerForName(speakers[0], people).value == p;
            } else {
              RowOfSpeakerShift(r[k], topic, hit, date, people, speakers);
            }
          }
        }
    }
  }

  /** The hit's id and title fit the `FoundResult` columns; every row of the hit fits exactly then. */
  predicate HitFits(hit: Hit) {
    |hit.id| <= DocumentIdMaxLength && |hit.title| <= DocumentTitleMaxLength
  }

  /** Some listed speaker resolves to a congress person. */
  predicate AnyResolved(people: seq<CongressPerson>, speakers: seq<string>) {
    exists j :: 0 <= j < |speakers| && GetSpeakerForName(speakers[j], people).Some?
  }

  /**
   * A hit is rejected exactly when some speaker resolves and its id or title
   * is too wide, and then nothing is recorded; otherwise every resolved
   * speaker ends up with a row for this topic and document.
   */
  lemma {:induction false} SaveSpeakersComplete(rows: map<ResultKey, FoundResult>, topic: Topic, hit: Hit, date: Day,
                                                people: seq<CongressPerson>, speakers: seq<string>)
    ensures var (r, o) := SaveSpeakers(rows, topic, hit, date, people, speakers);
      && o != InvalidDate
      && (o == RowRejected <==> !HitFits(hit) && AnyResolved(people, speakers))
      && (o == RowRejected ==> r == rows)
      && (o == Processed ==> forall j :: 0 <= j < |speakers| && GetSpeakerForName(speakers[j], people).Some? ==>
            ResultKey(topic.id, GetSpeakerForName(speakers[j], people).value.id, hit.id) in r)
    decreases |speakers|
  {
    if speakers != [] {
      var rest := speakers[1..];
      var (r, o) := SaveSpeakers(rows, topic, hit, date, people, speakers);
      assert forall j :: 0 <= j < |rest| ==> rest[j] == speakers[j + 1];
      match GetSpeakerForName(speakers[0], people)
      case None =>
        SaveSpeakersComplete(rows, topic, hit, date, people, rest);
        assert AnyResolved(people, speakers) <==> AnyResolved(people, rest) by {
          if AnyResolved(people, speakers) {
            var j :| 0 <= j < |speakers| && GetSpeakerForName(speakers[j], people).Some?;
            assert rest[j - 1] == speakers[j];
          }
        }
      case Some(p) =>
        var row := RowFor(topic, p, hit, date);
        assert GetSpeakerForName(speakers[0], people).Some?;
        if FitsColumns(row) {
          var next := if KeyOf(row) in rows then rows else rows[KeyOf(row) := row];
          SaveSpeakersComplete(next, topic, hit, date, people, rest);
          SaveSpeakersGrows(next, topic, hit, date, people, rest);
          assert KeyOf(row) in r;
        }
    }
  }

  /**
   * Once a table holds every row a hit would add, processing the hit again
   * changes nothing and ends the same way: a re-run of the monitor over the
   * same day records no duplicates.
   */
  lemma {:induction false} SaveSpeakersAbsorbed(rows: map<ResultKey, FoundResult>, later: map<ResultKey, FoundResult>,
                                                topic: Topic, hit: Hit, date: Day,
                                                people: seq<CongressPerson>, speakers: seq<string>)
    requires SaveSpeakers(rows, topic, hit, date, people, speakers).0.Keys <= later.Keys
    ensures SaveSpeakers(later, topic, hit, date, people, speakers) == (later, SaveSpeakers(rows, topic, hit, date, people, speakers).1)
    decreases |speakers|
  {
    if speakers != [] {
      var rest := speakers[1..];
      match GetSpeakerForName(speakers[0], people)
      case None =>
        SaveSpeakersAbsorbed(rows, later, topic, hit, date, people, rest);
      case Some(p) =>
        var row := RowFor(topic, p, hit, date);
        if FitsColumns(row) {
          var next := if KeyOf(row) in rows then rows else rows[KeyOf(row) := row];
          SaveSpeakersGrows(next, topic, hit, date, people, rest);
          assert KeyOf(row) in later;
          SaveSpeakersAbsorbed(next, later, topic, hit, date, people, rest);
        }
    }
  }

  /** Processing the same hit twice is the same as processing it once. */
  lemma HitEffectIdempotent(rows: map<ResultKey, FoundResult>, topic: Topic, hit: Hit, people: seq<CongressPerson>)
    ensures var (r, o) := HitEffect(rows, topic, hit, people);
      HitEffect(r, topic, hit, people) == (r, o)
  {
    if FormatResultDate(hit.dateIssued).Some? {
      var date := FormatResultDate(hit.dateIssued).value;
      var r := SaveSpeakers(rows, topic, hit, date, people, hit.speakers).0;
      SaveSpeakersAbsorbed(rows, r, topic, hit, date, people, hit.speakers);
    }
  }

  /**
   * A processed hit with a highlight stores the highlighted text as the
   * fragment of every row it adds, and every resolved speaker has a row.
   */
  lemma HitEffectKeepsHighlight(rows: map<ResultKey, FoundResult>, topic: Topic, hit: Hit, people: seq<CongressPerson>)
    requires FormatResultDate(hit.dateIssued).Some? && HitFits(hit) && hit.highlight.Some?
    ensures var (r, o) := HitEffect(rows, topic, hit, people);
      && o == Processed
      && (forall k :: k in r && k !in rows ==> r[k].fragment == hit.highlight.value && r[k].score.None?)
      && (forall j :: 0 <= j < |hit.speakers| && GetSpeakerForName(hit.speakers[j], people).Some? ==>
            ResultKey(topic.id, GetSpeakerForName(hit.speakers[j], people).value.id, hit.id) in r)
  {
    var date := FormatResultDate(hit.dateIssued).value;
    SaveSpeakersComplete(rows, topic, hit, date, people, hit.speakers);
    SaveSpeakersNewRows(rows, topic, hit, date, people, hit.speakers);
  }

  /** How `process_hit` as written ends. */
  datatype AsWrittenOutcome =
    | Finished
    /** `hit.hightlight` is not an attribute of a hit. */
    | MissingAttribute
    | ColumnOverflow

  /**
   * The speaker loop as written. `highlightTested` is whether the test
   * `'highlight' in hit` holds. For an elasticsearch_dsl hit, `in` looks among
   * the indexed document's own fields, and the search's highlight is kept
   * apart from them, so the test is false unless the document itself has a
   * `highlight` field. When the test holds, a resolved speaker reaches the
   * misspelt `hit.hightlight` before its row is saved; when it does not, the
   * row keeps the default fragment.
   */
  function SaveSpeakersAsWritten(rows: map<ResultKey, FoundResult>, topic: Topic, hit: Hit, date: Day,
                                 people: seq<CongressPerson>, speakers: seq<string>, highlightTested: bool): (map<ResultKey, FoundResult>, AsWrittenOutcome)
    decreases |speakers|
  {
    if speakers == [] then (rows, Finished)
    else match GetSpeakerForName(speakers[0], people)
      case None => SaveSpeakersAsWritten(rows, topic, hit, date, people, speakers[1..], highlightTested)
      case Some(p) =>
        if highlightTested then (rows, MissingAttribute)
        else
          var row := NewFoundResult(topic, p, hit.id, date, hit.title);
          if !FitsColumns(row) then (rows, ColumnOverflow)
          else if KeyOf(row) in rows then SaveSpeakersAsWritten(rows, topic, hit, date, people, speakers[1..], highlightTested)
          else SaveSpeakersAsWritten(rows[KeyOf(row) := row], topic, hit, date, people, speakers[1..], highlightTested)
  }

  /** When the `'highlight' in hit` test holds, the hit records nothing, and fails whenever one of its speakers resolves. */
  lemma {:induction false} HighlightedHitLostAsWritten(rows: map<ResultKey, FoundResult>, topic: Topic, hit: Hit, date: Day,
                                                       people: seq<CongressPerson>, speakers: seq<string>)
    ensures var (r, o) := SaveSpeakersAsWritten(rows, topic, hit, date, people, speakers, true);
      r == rows && (o == MissingAttribute <==> AnyResolved(people, speakers))
    decreases |speakers|
  {
    if speakers != [] && GetSpeakerForName(speakers[0], people).None? {
      var rest := speakers[1..];
      HighlightedHitLostAsWritten(rows, topic, hit, date, people, rest);
      assert AnyResolved(people, speakers) <==> AnyResolved(people, rest) by {
        if AnyResolved(people, speakers) {
          var j :| 0 <= j < |speakers| && GetSpeakerForName(speakers[j], people).Some?;
          assert rest[j - 1] == speakers[j];
        }
        if AnyResolved(people, rest) {
          var j :| 0 <= j < |rest| && GetSpeakerForName(rest[j], people).Some?;
          assert speakers[j + 1] == rest[j];
        }
      }
    } else if speakers != [] {
      assert GetSpeakerForName(speakers[0], people).Some?;
    }
  }

  /**
   * When the `'highlight' in hit` test fails, the code as written records the
   * rows the corrected loop records for the same hit without its highlight.
   */
  lemma {:induction false} AsWrittenIgnoresHighlight(rows: map<ResultKey, FoundResult>, topic: Topic, hit: Hit, date: Day,
                                                     people: seq<CongressPerson>, speakers: seq<string>)
    ensures SaveSpeakersAsWritten(rows, topic, hit, date, people, speakers, false).0
         == SaveSpeakers(rows, topic, hit.(highlight := None), date, people, speakers).0
    decreases |speakers|
  {
    if speakers != [] {
      var rest := speakers[1..];
      var plain := hit.(highlight := None);
      match GetSpeakerForName(speakers[0], people)
      case None =>
        AsWrittenIgnoresHighlight(rows, topic, hit, date, people, rest);
      case Some(p) =>
        var row := RowFor(topic, p, plain, date);
        assert row == NewFoundResult(topic, p, hit.id, date, hit.title);
        if FitsColumns(row) {
          var next := if KeyOf(row) in rows then rows else rows[KeyOf(row) := row];
          AsWrittenIgnoresHighlight(next, topic, hit, date, people, rest);
        }
    }
  }

  /**
   * The likely effect as written: the test fails, so every row the hit adds
   * keeps the empty default fragment, and a non-empty highlight is never stored.
   */
  lemma HighlightDroppedAsWritten(rows: map<ResultKey, FoundResult>, topic: Topic, hit: Hit, date: Day,
                                  people: seq<CongressPerson>, speakers: seq<string>)
    ensures var r := SaveSpeakersAsWritten(rows, topic, hit, date, people, speakers, false).0;
      forall k :: k in r && k !in rows ==>
        && r[k].fragment == ""
        && (hit.highlight.Some? && hit.highlight.value != "" ==> r[k].fragment != hit.highlight.value)
  {
    var plain := hit.(highlight := None);
    AsWrittenIgnoresHighlight(rows, topic, hit, date, people, speakers);
    SaveSpeakersNewRows(rows, topic, plain, date, people, speakers);
  }

  /** How `FoundResult.save()` ended. */
  datatype SaveOutcome =
    | Saved
    /** IntegrityError: a row with the same key exists. */
    | Duplicate
    /** The database refused a value too wide for its column. */
    | Rejected

  /** The `FoundResult` table. */
  class ResultStore {
    var rows: map<ResultKey, FoundResult>

    ghost predicate Valid()
      reads this
    {
      ValidResults(rows)
    }

    constructor ()
      ensures Valid() && rows == map[]
    {
      rows := map[];
    }

    /** `result.save()` for a new row. */
    method Save(row: FoundResult) returns (outcome: SaveOutcome)
      requires Valid()
      modifies this
      ensures Valid()
      ensures outcome == Saved <==> FitsColumns(row) && KeyOf(row) !in old(rows)
      ensures outcome == Rejected <==> !FitsColumns(row)
      ensures rows == if outcome == Saved then old(rows)[KeyOf(row) := row] else old(rows)
    {
      if !FitsColumns(row) {
        outcome := Rejected;
      } else if KeyOf(row) in rows {
        outcome := Duplicate;
      } else {
        rows := rows[KeyOf(row) := row];
        outcome := Saved;
      }
    }

    /** `process_hit`: record one row per resolved speaker of the hit. */
    method ProcessHit(topic: Topic, hit: Hit, people: seq<CongressPerson>) returns (outcome: HitOutcome)
      requires Valid()
      modifies this
      ensures Valid()
      ensures (rows, outcome) == HitEffect(old(rows), topic, hit, people)
    {
      var date := FormatResultDate(hit.dateIssued);
      if date.None? {
        return InvalidDate;
      }
      var i := 0;
      while i < |hit.speakers|
        invariant 0 <= i <= |hit.speakers|
        invariant Valid()
        invariant SaveSpeakers(rows, topic, hit, date.value, people, hit.speakers[i..])
               == SaveSpeakers(old(rows), topic, hit, date.value, people, hit.speakers)
      {
        assert hit.speakers[i..][1..] == hit.speakers[i + 1..];
        var speaker := GetSpeakerForName(hit.speakers[i], people);
        if speaker.Some? {
          var row := RowFor(topic, speaker.value, hit, date.value);
          var saved := Save(row);
          if saved == Rejected {
            return RowRejected;
          }
        }
        i := i + 1;
      }
      return Processed;
    }

    /** Deleting a topic removes its rows (`on_delete=CASCADE`). */
    method DeleteTopic(topicId: nat)
      requires Valid()
      modifies this
      ensures Valid()
      ensures rows == Cascade(old(rows), TopicRef, topicId)
    {
      rows := Cascade(rows, TopicRef, topicId);
    }

    /** Deleting a congress person removes their rows (`on_delete=CASCADE`). */
    method DeleteSpeaker(speakerId: nat)
      requires Valid()
      modifies this
      ensures Valid()
      ensures rows == Cascade(old(rows), SpeakerRef, speakerId)
    {
      rows := Cascade(rows, SpeakerRef, speakerId);
    }
  }
}
