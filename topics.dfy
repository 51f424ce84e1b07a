/**
 * The topic-monitor tables (interesting/models.py): saved topics with their
 * tracked named entities and search terms, and the `FoundResult` rows the
 * monitor records, unique on (topic, speaker, document id). Column widths and
 * defaults are those of the Django field definitions.
 */
module Topics {
  import opened Wrappers
  import opened Calendar

  const TopicNameMaxLength: nat := 30
  const EntityMaxLength: nat := 25
  const TermMaxLength: nat := 25
  const DocumentIdMaxLength: nat := 100
  const DocumentTitleMaxLength: nat := 255

  datatype NamedEntity = NamedEntity(entity: string)

  datatype SearchTerm = SearchTerm(term: string)

  /** An `InterestingSearch` row with its many-to-many entities and terms (either may be empty). */
  datatype Topic = Topic(id: nat, name: string, entities: seq<NamedEntity>, searchTerms: seq<SearchTerm>)

  /** A `CongressPerson` as far as the monitor needs it: its key and its unique full name. */
  datatype CongressPerson = CongressPerson(id: nat, officialFull: string)

  /** The `unique_together` key of `FoundResult`. */
  datatype ResultKey = ResultKey(topicId: nat, speakerId: nat, documentId: string)

  /** A `FoundResult` row; `score` is a nullable float the monitor never sets. */
  datatype FoundResult = FoundResult(
    topicId: nat,
    speakerId: nat,
    documentId: string,
    documentDate: Day,
    documentTitle: string,
    fragment: string,
    score: Option<real>)

  function KeyOf(r: FoundResult): ResultKey {
    ResultKey(r.topicId, r.speakerId, r.documentId)
  }

  /** A new row as the model's constructor makes it: `fragment` defaults to '' and `score` to null. */
  function NewFoundResult(topic: Topic, speaker: CongressPerson, documentId: string, date: Day, title: string): (r: FoundResult)
    ensures KeyOf(r) == ResultKey(topic.id, speaker.id, documentId)
    ensures r.documentDate == date && r.documentTitle == title
    ensures r.fragment == "" && r.score.None?
  {
    FoundResult(topic.id, speaker.id, documentId, date, title, "", None)
  }

  /** The row fits the widths of its `CharField` columns. */
  predicate FitsColumns(r: FoundResult) {
    |r.documentId| <= DocumentIdMaxLength && |r.documentTitle| <= DocumentTitleMaxLength
  }

  /** The topic tables' constraints: unique short names, unique short entity and term strings. */
  predicate ValidCatalog(topics: seq<Topic>, entities: seq<NamedEntity>, terms: seq<SearchTerm>) {
    && (forall i :: 0 <= i < |topics| ==> |topics[i].name| <= TopicNameMaxLength)
    && (forall i, j :: 0 <= i < j < |topics| ==> topics[i].name != topics[j].name && topics[i].id != topics[j].id)
    && (forall i :: 0 <= i < |entities| ==> |entities[i].entity| <= EntityMaxLength)
    && (forall i, j :: 0 <= i < j < |entities| ==> entities[i].entity != entities[j].entity)
    && (forall i :: 0 <= i < |terms| ==> |terms[i].term| <= TermMaxLength)
    && (forall i, j :: 0 <= i < j < |terms| ==> terms[i].term != terms[j].term)
    && (forall i, e :: 0 <= i < |topics| && e in topics[i].entities ==> e in entities)
    && (forall i, t :: 0 <= i < |topics| && t in topics[i].searchTerms ==> t in terms)
  }

  /**
   * The `FoundResult` table, indexed by its unique key: every row sits under
   * its own key (so no key has two rows) and fits its columns.
   */
  predicate ValidResults(rows: map<ResultKey, FoundResult>) {
    forall k :: k in rows ==> KeyOf(rows[k]) == k && FitsColumns(rows[k])
  }

  /** The two `FoundResult` columns that refer to another table, each with `on_delete=CASCADE`. */
  datatype Reference = TopicRef | SpeakerRef

  /** The id a key refers to through the column. */
  function Referenced(k: ResultKey, column: Reference): nat {
    match column
    case TopicRef => k.topicId
    case SpeakerRef => k.speakerId
  }

  /** Deleting a topic or a congress person cascades to exactly the rows that refer to it. */
  function Cascade(rows: map<ResultKey, FoundResult>, column: Reference, id: nat): (r: map<ResultKey, FoundResult>)
    ensures forall k :: k in r ==> k in rows && r[k] == rows[k] && Referenced(k, column) != id
    ensures forall k :: k in rows && Referenced(k, column) != id ==> k in r
    ensures ValidResults(rows) ==> ValidResults(r)
  {
    map k | k in rows && Referenced(k, column) != id :: rows[k]
  }

  /**
   * A new topic with a fresh id, a unique name of at most 30 characters and no
   * entities or search terms keeps the catalog valid: the tables allow a topic
   * that tracks nothing.
   */
  lemma {:induction false} TopicWithoutEntitiesAllowed(topics: seq<Topic>, entities: seq<NamedEntity>, terms: seq<SearchTerm>, t: Topic)
    requires ValidCatalog(topics, entities, terms)
    requires |t.name| <= TopicNameMaxLength && t.entities == [] && t.searchTerms == []
    requires forall i :: 0 <= i < |topics| ==> topics[i].name != t.name && topics[i].id != t.id
    ensures ValidCatalog(topics + [t], entities, terms)
  {
    var all := topics + [t];
    forall i | 0 <= i < |all|
      ensures |all[i].name| <= TopicNameMaxLength
      ensures forall e :: e in all[i].entities ==> e in entities
      ensures forall x :: x in all[i].searchTerms ==> x in terms
    {
      if i < |topics| {
        assert all[i] == topics[i];
      }
    }
    forall i, j | 0 <= i < j < |all|
      ensures all[i].name != all[j].name && all[i].id != all[j].id
    {
      assert all[i] == topics[i];
      if j < |topics| {
        assert all[j] == topics[j];
      }
    }
  }
}
