# Capitol Words: a verified model of the query, monitoring and staging core

Capitol Words collects the Congressional Record (CREC) from GPO, stages its
HTML and MODS metadata in S3, parses the records and indexes them in
Elasticsearch. A small Django API searches that index, and a topic monitor
records which congress people mentioned a saved topic. This project models
the parts of that pipeline that are logic, not plumbing, and proves what they
promise:

- **Search API** (`Views`, over the query DSL in `Search`). It covers the
  per-field clause builders, `execute_search`, and the `bool` query and
  highlight that `search_by_params` composes from request parameters. A query
  also has a meaning against an indexed document (analysed terms per field,
  plus an issue date), so the proofs can say which documents a composed query
  selects.
- **Topic monitor** (`Topics` for the tables, `Monitor` for the logic). It
  covers the date-ranged entity query of `find_interesting`, the exact-name
  speaker lookup, and `process_hit`, which records one `FoundResult` per
  resolved speaker in a table unique on (topic, speaker, document id).
  `ResultStore` is that table as a class.
- **CREC parser worker** (`CrecParser`, `CrecSegments`). It covers the
  record-skip rules, the S3 key built with `strip('id-')`, speaker-name
  cleaning, the `SPEAKING` role filter, the failed-retrieval report, and the
  `find_segments` state machine that groups sentences by speaker.
- **Daily scraper** (`Scraper`, with `ZipEntries` and `Uploads`). It covers
  `get_dates`, the upload keys, the `html` entry filter of
  `extract_html_files`, and the early-exit results of `scrape_files_for_date`
  and `scrape_files_in_range`. `CRECScraper` is a class that records what it
  requested from GPO and what it put in S3.
- **Stager** (`Stager`). It covers the same download, unpack and upload steps
  for one date, its dated keys, and the log-level fallback of its command line.
- **MODS reader** (`ModsParser`). It covers the `strftime` key template and the
  `CRECParser` object, which must load a mods.xml before
  `get_crec_description` can filter `relatedItem` entries by `@ID`.

The helper modules hold what the source borrows from Python and is needed
to state the properties:

- `Text`: `split`, `join`, `strip` and `upper`, plus digit strings.
- `Calendar`: proleptic Gregorian days numbered like `date.toordinal()`, with
  ISO formatting and parsing proved to round-trip.
- `Paths`: `posixpath.join`, `basename` and `splitext`.
- `Wrappers`: `Option`.

Days are day numbers (0001-01-01 is 1). A timestamp counts seconds from
0001-01-01T00:00, and midnights are its multiples of 86400.

The following are parameters of the model, not modelled behaviour:

- GPO's site: for each day, the entries of its zip and whether its mods.xml
  exists;
- S3 puts: a predicate on what is put;
- S3 gets: a map or function from key to contents;
- the index: a success oracle on requests;
- the fuzzy scorer and the text analyser: functions;
- the clock: a `now` argument.

What the search API filters on:

- The parameter search filters on title, speaker and content only
  (`cwapi/views.py:16-20`); it has no other filter and no date range.
- Title and speaker are plain (`or`) match queries (`cwapi/views.py:37-42`).
- Content is a match that needs every token (`cwapi/views.py:45-46`).

## Model

| member | source | states |
|---|---|---|
| Views.ComposeMust | capitolwords_ng/capitolweb/cwapi/views.py:96-101 | The loop over `QUERIES` yields exactly one clause per present key, in the order title, speaker, content. |
| Views.ClausesForQueryFields | capitolwords_ng/capitolweb/cwapi/views.py:16-20 | Looking up the builder that `QUERIES` names for each key gives the same `must` list as the title/speaker/content rule. |
| Views.UnknownParamsIgnored | capitolwords_ng/capitolweb/cwapi/views.py:96-101 | Parameters that are not `QUERIES` keys leave the `must` list unchanged. |
| Views.NoFiltersMatchesEverything | capitolwords_ng/capitolweb/cwapi/views.py:96-101 | With no recognised parameter the query is a `bool` with an empty `must` list, and every document satisfies it (nothing is rejected). |
| Views.ParamsQueryMeaning | capitolwords_ng/capitolweb/cwapi/views.py:37-46 | A document matches the composed query exactly when each given filter holds: an `or` match of the title and of the speaker, and an `and` match of the content, with the text passed verbatim. |
| Views.FragmentSize | capitolwords_ng/capitolweb/cwapi/views.py:104-106 | A `highlight` value of ASCII digits is used as its number; anything else, the empty string included, becomes 200. |
| Views.FragmentSizeOfNumber | capitolwords_ng/capitolweb/cwapi/views.py:104-106 | A number written in decimal comes back unchanged as the fragment size. |
| Views.HighlightFor | capitolwords_ng/capitolweb/cwapi/views.py:103-109 | A highlight is requested exactly when both `highlight` and `content` are given, and then it is on `content` with that fragment size. |
| Views.SearchByParams | capitolwords_ng/capitolweb/cwapi/views.py:110-112 | The answer is "Found nothing" exactly when executing the composed request fails; otherwise it carries that request's results. |
| Views.ExecuteSearch | capitolwords_ng/capitolweb/cwapi/views.py:27-34 | Results come back only for a successful request with the given query and no highlight. The request is sorted by the given key when there is one, and not sorted otherwise. Failure returns nothing. |
| Search.CountHoldingPositive | capitolwords_ng/capitolweb/interesting/lib.py:40 | With `minimum_should_match` 1, the count of holding `should` clauses is positive exactly when some clause holds. |
| Search.AndMatchImpliesOrMatch | capitolwords_ng/capitolweb/cwapi/views.py:37-46 | The content match (`and`) is at least as strict as the plain match of the same text. |
| Monitor.EntityClauses | capitolwords_ng/capitolweb/interesting/lib.py:37 | There is one `get_content` clause per tracked entity, in the topic's order. |
| Monitor.FindInteresting | capitolwords_ng/capitolweb/interesting/lib.py:20-43 | The query has a date range from `start` to `start + days_forward`, written YYYY-MM-DD, as its only `must` clause. Its `should` clauses are the entities' content clauses, one per entity and in order, with `minimum_should_match` 1, a `content` highlight of 500 and no sort. It fails exactly when the end day leaves the calendar. |
| Monitor.DateRangeHolds | capitolwords_ng/capitolweb/interesting/lib.py:12-13 | The range is half-open: it holds on a document exactly when `start <= date_issued < end`. |
| Monitor.EntityClausesHold | capitolwords_ng/capitolweb/interesting/lib.py:37 | Some entity clause holds exactly when the content has every token of some entity. |
| Monitor.TopicQuerySelects | capitolwords_ng/capitolweb/interesting/lib.py:33-42 | A document is found exactly when it was issued within the span and mentions some tracked entity in full. |
| Monitor.TopicWithoutEntitiesFindsNothing | capitolwords_ng/capitolweb/interesting/lib.py:37-40 | A topic with no entities finds no document. |
| Monitor.Named | capitolwords_ng/capitolweb/interesting/lib.py:48 | The candidates are exactly the people whose `official_full` equals the name. |
| Monitor.GetSpeakerForName | capitolwords_ng/capitolweb/interesting/lib.py:46-51 | A result is the only person carrying that exact name. No match, or several matches, gives None; the lookup never fails otherwise. |
| Monitor.SpeakerLookupTotal | capitolwords_ng/capitolweb/interesting/lib.py:46-51 | When full names are unique, the lookup succeeds exactly when someone carries the name. |
| Monitor.FormatResultDate | capitolwords_ng/capitolweb/interesting/lib.py:16-17 | A parsed hit date is the day of the `YYYY-MM-DD` part of a 19-character `YYYY-MM-DDTHH:MM:SS` text. |
| Monitor.ResultDateRoundTrip | capitolwords_ng/capitolweb/interesting/lib.py:16-17 | A day's midnight timestamp parses back to that day. |
| Monitor.RowFor | capitolwords_ng/capitolweb/interesting/lib.py:66-69 | A row has the key (topic, speaker, hit id), the hit's date and title, the highlight (or `''`) as its fragment, and no score. |
| Monitor.SaveSpeakersGrows | capitolwords_ng/capitolweb/interesting/lib.py:63-73 | A hit keeps every existing row unchanged, adds at most one row per listed speaker, and keeps the table valid. |
| Monitor.SaveSpeakersNewRows | capitolwords_ng/capitolweb/interesting/lib.py:63-67 | Every added row is the row of one of the hit's resolved speakers. |
| Monitor.SaveSpeakersComplete | capitolwords_ng/capitolweb/interesting/lib.py:63-73 | An unresolved speaker is skipped on its own, and every resolved speaker gets a row. A row too wide for its columns ends the hit with nothing recorded, which happens exactly when some speaker resolves and the id or title is too long. |
| Monitor.SaveSpeakersAbsorbed | capitolwords_ng/capitolweb/interesting/lib.py:70-73 | Once a table holds every row a hit would add, the duplicates are swallowed: processing the hit changes nothing and ends the same way. |
| Monitor.HitEffectIdempotent | capitolwords_ng/capitolweb/interesting/lib.py:54-73 | Processing the same hit twice leaves the same table, with the same outcome, as processing it once. |
| Monitor.HighlightedHitLostAsWritten | capitolwords_ng/capitolweb/interesting/lib.py:63-69 | As written, when `'highlight' in hit` holds, the hit records nothing, and it fails exactly when some speaker resolves. |
| Monitor.AsWrittenIgnoresHighlight | capitolwords_ng/capitolweb/interesting/lib.py:63-73 | As written, when `'highlight' in hit` fails, the loop records what the corrected loop records for the hit without its highlight. |
| Monitor.HighlightDroppedAsWritten | capitolwords_ng/capitolweb/interesting/lib.py:66-69 | As written, when `'highlight' in hit` fails, every added row has the empty fragment, so a non-empty highlight is never stored. |
| Monitor.HitEffectKeepsHighlight | capitolwords_ng/capitolweb/interesting/lib.py:66-69 | For a fitting hit with a highlight, each added row carries the highlighted text as its fragment and no score, and each resolved speaker has a row. |
| Monitor.ResultStore.Save | capitolwords_ng/capitolweb/interesting/models.py:35-40 | A row is saved exactly when it fits its columns and its key is new. Otherwise the outcome is the duplicate error or the width error, and the table is unchanged. |
| Monitor.ResultStore.ProcessHit | capitolwords_ng/capitolweb/interesting/lib.py:54-73 | The loop over the hit's speakers leaves the table and outcome that `HitEffect` specifies. The table stays unique on its key. |
| Monitor.ResultStore.DeleteTopic | capitolwords_ng/capitolweb/interesting/models.py:36 | Deleting a topic removes exactly that topic's rows. |
| Monitor.ResultStore.DeleteSpeaker | capitolwords_ng/capitolweb/interesting/models.py:37 | Deleting a congress person removes exactly that person's rows. |
| Topics.NewFoundResult | capitolwords_ng/capitolweb/interesting/models.py:35-42 | A new row's key is (topic, speaker, document id), it carries the given date and title, its fragment defaults to `''` and its score to null. |
| Topics.Cascade | capitolwords_ng/capitolweb/interesting/models.py:36-37 | Deleting a topic or a congress person keeps exactly the rows that refer to another one, unchanged, and keeps the table valid. |
| Topics.TopicWithoutEntitiesAllowed | capitolwords_ng/capitolweb/interesting/models.py:13-30 | Adding a topic with a fresh id, a unique name of at most 30 characters and no entities or terms keeps the catalog valid. |
| CrecSegments.FirstContained | capitolwords_ng/capitolweb/workers/crec_parser.py:79-80 | The result is the first speaker, in collection order, whose name occurs in the sentence, or None when no name does. |
| CrecSegments.BestMatch | capitolwords_ng/capitolweb/workers/crec_parser.py:86 | The result is the first speaker with the highest fuzzy score. |
| CrecSegments.NextSpeaker | capitolwords_ng/capitolweb/workers/crec_parser.py:79-91 | A named speaker wins. When none is named, the first best fuzzy match becomes the speaker exactly when its score is above 90; otherwise the speaker stays. |
| CrecSegments.FindSegments | capitolwords_ng/capitolweb/workers/crec_parser.py:69-108 | The loop emits `SegmentsOf`: the groups flushed at each change of speaker, attributed to the previous speaker and joined with spaces. The sentence that changes the speaker is dropped. There are no segments without speakers. |
| CrecSegments.RunInvariant | capitolwords_ng/capitolweb/workers/crec_parser.py:73-101 | The loop keeps `previous == current` equal to the speaker found so far. The flushed and pending sentences are exactly the sentences that did not change the speaker, and each group is non-empty. |
| CrecSegments.RunAttribution | capitolwords_ng/capitolweb/workers/crec_parser.py:93-101 | Inside the loop, the flushed segments, followed by the pending sentences under `previous`, are the kept sentences so far, each paired with the speaker current when it was read. |
| CrecSegments.GroupsAttributed | capitolwords_ng/capitolweb/workers/crec_parser.py:93-106 | On a change of speaker, the pending sentences go out as one segment under the previous speaker. Listing every segment's sentences under its speaker gives the kept sentences, in input order, each under the speaker current when it was read. |
| CrecSegments.SegmentsProperties | capitolwords_ng/capitolweb/workers/crec_parser.py:70-106 | With no speakers, nothing is emitted. Otherwise the segments hold the kept sentences in input order, each once. There are at most as many segments as sentences, and every segment's speaker is None or one of the speakers. |
| CrecSegments.SegmentTextsNonEmpty | capitolwords_ng/capitolweb/workers/crec_parser.py:94-106 | When no sentence is empty, every segment has non-empty text. |
| CrecParser.ClassifyDigest | capitolwords_ng/capitolweb/workers/crec_parser.py:170-185 | A record is a Daily Digest exactly when its last or second-to-last `-` part starts with `PgD`. Only a record with content is processed. |
| CrecParser.ClassifySplit | capitolwords_ng/capitolweb/workers/crec_parser.py:170-185 | A record is processed exactly when it has content, at least two parts, no `PgD` part among the last two, and no `FrontMatter` last part. |
| CrecParser.ClassifyRecordRaises | capitolwords_ng/capitolweb/workers/crec_parser.py:171-172 | The rules raise IndexError exactly for an ID that has no `-` and does not start with `PgD`. |
| CrecParser.CrecKeyShape | capitolwords_ng/capitolweb/workers/crec_parser.py:33-34 | A key lies under `crec/YYYY/MM/DD/crec/` and ends in `.htm`. The ID inside it has no `i`, `d` or `-` at either end. |
| CrecParser.CrecKeyOfId | capitolwords_ng/capitolweb/workers/crec_parser.py:147-150 | The ID `id-<body>` is stored under `crec/YYYY/MM/DD/crec/<body>.htm` when the body neither starts nor ends with `i`, `d` or `-`. |
| CrecParser.SanitizeName | capitolwords_ng/capitolweb/workers/crec_parser.py:133 | A one-line name is cut before its first ` of `, or kept whole when it has none. |
| CrecParser.SanitizeNameIdempotent | capitolwords_ng/capitolweb/workers/crec_parser.py:133 | A cleaned name has no ` of ` left, so cleaning it again changes nothing. |
| CrecParser.CollectSpeakers | capitolwords_ng/capitolweb/workers/crec_parser.py:128-143 | The nested loop builds the `SpeakersOf` table, constituent by constituent, member by member. |
| CrecParser.SpeakersAreSpeaking | capitolwords_ng/capitolweb/workers/crec_parser.py:135-143 | Every recorded speaker is a `SPEAKING` member of a constituent with that ID. It is recorded under its cleaned parsed name, with its own attributes and its authority-fnf name. |
| CrecParser.SpeakingMembersRecorded | capitolwords_ng/capitolweb/workers/crec_parser.py:135-136 | When no cleaned name coincides with a constituent ID, every `SPEAKING` member is recorded under its constituent. |
| CrecParser.RetrieveRecords | capitolwords_ng/capitolweb/workers/crec_parser.py:145-157 | Each record gets its key and the fetched content, or none. The failure list keeps every failed key. |
| CrecParser.FailedKeysMeaning | capitolwords_ng/capitolweb/workers/crec_parser.py:159-166 | A key is reported exactly when some record with that key got no content. |
| CrecParser.EarlierFailureUnreported | capitolwords_ng/capitolweb/workers/crec_parser.py:152 | As written, a failure followed by a success is reported as "all succeeded". |
| Scraper.GetDates | capitolwords_ng/scrapers/crec.py:39-50 | The loop returns `DayStarts`. A missing end is now, a missing start is the day before the end, and both are floored to midnight. |
| Scraper.DayStartsMeaning | capitolwords_ng/scrapers/crec.py:42-50 | The dates are midnights. They start at the start's day, step by exactly one day and end before the end's day; there are none when the start is not before the end. |
| Scraper.DaysBetweenSteps | capitolwords_ng/scrapers/crec.py:46-50 | Date `i` is the start plus `i` days, and the count is the number of days up to the end. |
| Scraper.DefaultDayIsYesterday | capitolwords_ng/scrapers/crec.py:40-50 | With both bounds missing, the only date is yesterday at midnight. |
| Scraper.UploadKeyShape | capitolwords_ng/scrapers/crec.py:159-164 | The key is the prefix as a directory, then `YYYY/MM/DD/`, the data type, `/` and the file's base name. |
| Scraper.DayPutKeys | capitolwords_ng/scrapers/crec.py:159-164 | A day's keys are `…/mods/mods.xml` first, then `…/crec/<basename>` for each unpacked HTML file, in zip order. |
| Scraper.ScrapeDayOutcome | capitolwords_ng/scrapers/crec.py:176-206 | The result is None exactly when the zip or mods.xml is missing, and then nothing is put. A failed mods.xml put uploads no HTML. True means every put succeeded. False means the put after the last one completed failed. |
| Scraper.CRECScraper.DownloadCrecZip | capitolwords_ng/scrapers/crec.py:84-98 | The day's zip URL is requested, and the zip is saved under the URL's last component, or None when GPO has none. |
| Scraper.CRECScraper.UploadToS3 | capitolwords_ng/scrapers/crec.py:148-174 | The put is recorded exactly when it succeeds; nothing else changes. |
| Scraper.CRECScraper.ScrapeFilesForDate | capitolwords_ng/scrapers/crec.py:176-206 | The zip and then the mods.xml are requested. The result and the puts are those of `ScrapeDay`. |
| Scraper.CRECScraper.UploadHtmlFiles | capitolwords_ng/scrapers/crec.py:197-206 | The HTML puts stop at the first failure. The result is true exactly when all of them went up. |
| Scraper.CRECScraper.ScrapeFilesInRange | capitolwords_ng/scrapers/crec.py:208-218 | The method visits exactly the days `get_dates` gives, in order. Its requests and puts are each day's, concatenated. It reports OverflowError, with nothing requested, exactly when the default start falls before 0001-01-01. |
| Scraper.RangeRequestsInOrder | capitolwords_ng/scrapers/crec.py:216-218 | A range asks for each day's zip and then its mods.xml, day after day. |
| Scraper.RangeUploadsWithinDays | capitolwords_ng/scrapers/crec.py:216-218 | Every put of a range succeeded and is filed under one of the range's days. |
| ZipEntries.HtmlEntriesMembers | capitolwords_ng/scrapers/crec.py:139-141 | Exactly the entries whose name starts with the prefix are kept. |
| ZipEntries.HtmlEntriesAppend | capitolwords_ng/scrapers/crec.py:139-141 | The filter keeps zip order. |
| ZipEntries.HtmlPrefixOfDailyZip | capitolwords_ng/scrapers/crec.py:135-136 | A day's zip, saved anywhere, keeps the entries under `CREC-YYYY-MM-DD/html`. |
| ZipEntries.ZipUrlFileName | capitolwords_ng/scrapers/crec.py:94 | The zip is saved as `CREC-YYYY-MM-DD.zip`, the last component of its URL. |
| ZipEntries.ExtractHtmlFiles | capitolwords_ng/scrapers/crec.py:135-146 | The unpacked files are the kept entries, in zip order, each joined onto the download directory. |
| Uploads.UploadedPrefix | crec_stager/crec_stager.py:161-170 | An upload loop completes a prefix of its puts. Each completed put succeeded, and the put after them failed. |
| Uploads.UploadedAll | crec_stager/crec_stager.py:161-170 | A loop completes all its puts exactly when every put succeeds. |
| Stager.LogLevelFallback | crec_stager/crec_stager.py:41-47 | Every name selects one of the five levels, and an unknown name selects INFO (20). |
| Stager.LogLevelCaseInsensitive | crec_stager/crec_stager.py:236 | A name and its upper-cased form select the same level. |
| Stager.LogLevelExamples | crec_stager/crec_stager.py:236-238 | `debug` selects DEBUG. `WARNING` is not in the table and selects INFO. |
| Stager.StageKeyShape | crec_stager/crec_stager.py:129-133 | The key is the prefix as a directory, then `YYYY/MM/DD/`, then the file's base name. |
| Stager.StageKeyInjective | crec_stager/crec_stager.py:129-133 | Two files get the same key exactly when they have the same base name. |
| Stager.StageOutcome | crec_stager/crec_stager.py:145-170 | The result is None exactly when there is no zip, and then nothing is put. True exactly when every put succeeded, and then every file went up. False means the files before the failed one went up and none after. |
| Stager.StagedKeysFromZip | crec_stager/crec_stager.py:106-117 | Every staged file was unpacked from a zip entry under `CREC-YYYY-MM-DD/html`. Its key is `prefix/YYYY/MM/DD/` and the entry's file name. |
| Stager.CRECStager.DownloadCrecZip | crec_stager/crec_stager.py:82-94 | The `CREC-%Y-%m-%d.zip` URL of the stager's date is requested. The zip path is the download directory joined with the URL's last component, or None on a 404. |
| Stager.CRECStager.ExtractHtmlFiles | crec_stager/crec_stager.py:106-117 | The unpacked files are the entries under `<zip stem>/html`, in zip order, each joined onto the download directory. |
| Stager.CRECStager.UploadToS3 | crec_stager/crec_stager.py:119-143 | The returned key is the dated key, and the put is recorded exactly when it succeeds. |
| Stager.CRECStager.StageHtmlFiles | crec_stager/crec_stager.py:145-170 | The method requests the day's zip; its result and puts are those of `Stage`. |
| Stager.CRECStager.UploadHtmlFiles | crec_stager/crec_stager.py:161-170 | The puts stop at the first failure. The result is true exactly when all went up. |
| Stager.StageAsWrittenRaises | crec_stager/crec_stager.py:153-155 | As written, a missing zip raises instead of returning None. Otherwise it agrees with the `return None` the code intends. |
| ModsParser.StrftimeAppend | parser/new_parser.py:37 | `strftime` prints a format piece by piece. |
| ModsParser.DatePathPrints | parser/new_parser.py:22 | `%Y/%m/%d` prints a day as `YYYY/MM/DD`. |
| ModsParser.ModsKeyShape | parser/new_parser.py:22-29 | For a prefix without `%`, the key is the prefix, `/YYYY/MM/DD`, and `/mods/mods.xml`. |
| ModsParser.ReadsScrapedMods | parser/new_parser.py:37 | The key the reader reads is the key under which the scraper uploads that day's mods.xml, for the same prefix. |
| ModsParser.RelatedWithIdMembers | parser/new_parser.py:71-73 | The description is exactly the entries whose `@ID` equals the ID, and never more than there are entries. |
| ModsParser.RelatedWithIdAppend | parser/new_parser.py:71-73 | The filter keeps document order. |
| ModsParser.RelatedWithIdKeepsAll | parser/new_parser.py:71-73 | The filter keeps a list whole exactly when every entry has the ID. |
| ModsParser.RelatedWithIdIdempotent | parser/new_parser.py:71-73 | Filtering twice is filtering once. |
| ModsParser.CRECParser.constructor | parser/new_parser.py:24-32 | The prefix is put into the key template at construction, and nothing is loaded. |
| ModsParser.CRECParser.LoadModsFromS3 | parser/new_parser.py:34-44 | A missing date means now minus one day. The key read is the template printed for that day. When the key exists, the mods are stored and returned; otherwise nothing changes. |
| ModsParser.CRECParser.LoadModsFromDisk | parser/new_parser.py:46-52 | The file's mods are stored and returned. A missing file changes nothing. |
| ModsParser.CRECParser.LoadCrecFromS3 | parser/new_parser.py:54-60 | The record text is stored and returned. A missing key changes nothing. |
| ModsParser.CRECParser.LoadCrecFromDisk | parser/new_parser.py:62-65 | The record text is stored and returned. A missing file changes nothing. |
| ModsParser.CRECParser.GetCrecDescription | parser/new_parser.py:67-74 | The method fails exactly when no mods.xml is loaded. Otherwise it returns the entries with that `@ID`, in order and possibly none. Nothing is modified. |

## Left out

- Network, S3 and file I/O are parameters. Downloads, `put_object`, `get_object`, ZipFile reads, file writes and `boto3` clients are abstract.
- Elasticsearch execution is left out. `.execute()` is a success oracle, and `.scan()` is the request that `find_interesting` builds.
- `search_by_speaker` and `search_by_title` are not modelled. They are thin wrappers of `get_speaker`/`get_title` and `execute_search`.
- Django's HTTP and ORM layers are left out: `JsonResponse`, `api_view`, admin, and the `CongressPerson` table, which is a sequence of people.
- Database errors other than a duplicate key or an over-long value are left out. `ResultStore.Save` models those two refusals; a refused value ends the hit, as an uncaught error would.
- Text analysis and the spaCy sentence splitter are left out. The analyser is a function, and `find_segments` takes the sentences as given.
- The fuzzywuzzy score is an uninterpreted function of (sentence, speaker).
- `text_utils.preprocess`, the named-entity and noun-chunk extraction, and the rest of `parse_mods_file` after the skip rules are left out.
- XML parsing is left out: lxml `xpath_parse` and xmltodict. A constituent is its ID and its congress members; a mods.xml is its list of `relatedItem` entries. The xmltodict case where a single `relatedItem` is a dict, not a list, is not modelled.
- `Views.FragmentSize`: only ASCII digits count as numeric. Python's `str.isnumeric()` also accepts other numerals, such as superscripts, vulgar fractions and Arabic-Indic digits, and the source sends such a value unchanged as the fragment size, where the model uses 200.
- interesting/lib.py imports `get_entity` from the search API module (`interesting/lib.py:5`), which defines no such function, so as given the module fails to import. The model assumes the import succeeds.
- Floating-point `score` is left out: it is only ever null.
- Microseconds are dropped: timestamps are whole seconds.
- `Calendar.FormatDate`: every day from 0001-01-01 is formatted with a four-digit year. The scraper and the stager run under Python 2 (`import urllib2`), whose `strftime` raises ValueError for years before 1900. The model therefore has `Scraper.CRECScraper.ScrapeFilesForDate`, `Scraper.CRECScraper.UploadToS3` and the `Stager.CRECStager` methods request and file such a day, where the source raises before any request (capitolwords_ng/scrapers/crec.py:84, 106, 161; crec_stager/crec_stager.py:82, 131).
- `strptime` and `strftime` leniency is not modelled. `FormatResultDate` accepts exactly 19 characters with a zero-padded `YYYY-MM-DD` date and a valid `HH:MM:SS` time.
- `Strftime` expands only `%Y`, `%m`, `%d` and `%%` and keeps any other directive as written.
- `Text.Upper` upper-cases ASCII letters only.
- `Paths` models POSIX paths only.
- `ZipEntries.UrlFileName` is the part after the last `/`, as `url.split('/')[-1]`; it is not URL parsing.
- `Stager.CRECStager.DownloadCrecZip`: a download error other than a 404 is not modelled. As written it falls through to an unbound `response`; the model treats the site as either serving the zip or answering 404.
- `Scraper.CRECScraper.DownloadCrecZip`: HTTP errors other than 404 also return None in the source. The model does not distinguish them from a missing file.
- `Scraper.CRECScraper.UploadToS3`: a failed put is a predicate on the put (file, data type, day), not on the bucket's state. The returned key is stated by `Scraper.UploadKeyShape`, not recorded by the method.
- `Stager.CRECStager.UploadToS3`: a failed put is a predicate on the file path.
- The `lambda_handler` functions and the argparse `__main__` blocks are left out, except for the log-level lookup. The stager's `__main__` refers to names that are never defined.
- Logging output is not modelled.

## Findings

| source | as written | input that shows it | evidently intended | confidence | as-written member | corrected member |
|---|---|---|---|---|---|---|
| capitolwords_ng/capitolweb/interesting/lib.py:68-69 | The branch tests `'highlight' in hit`, which for an elasticsearch_dsl hit looks among the document's own fields, not the search's highlight, so the branch most likely never runs and rows keep the fragment `''`. Were the test true, the misspelt `hit.hightlight` would raise AttributeError and nothing would be recorded. | A hit with a non-empty highlight and a speaker whose full name is in the legislators table. | The row's fragment is the hit's highlighted content. | not executed | Monitor.HighlightDroppedAsWritten | Monitor.HitEffectKeepsHighlight |
| capitolwords_ng/capitolweb/workers/crec_parser.py:152 | `failed_retrievals = []` runs inside the per-record loop, so only the last record's failure can be reported. | Two records where the first fetch fails and the second succeeds: "All crec retrievals succeeded." | Every failed key is reported. | not executed | CrecParser.EarlierFailureUnreported | CrecParser.FailedKeysMeaning |
| crec_stager/crec_stager.py:154 | The missing-zip log message reads `self.dt`, which a stager does not have. | Any date for which GPO answers 404. | `stage_html_files` returns None when there is no zip. | not executed | Stager.StageAsWrittenRaises | Stager.StageOutcome |
