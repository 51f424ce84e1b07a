/**
 * The part of the Elasticsearch query DSL the search code builds, and what a
 * query means against one indexed document. Text analysis is abstract: an
 * analyzer turns query text into tokens, and a document carries the set of
 * terms indexed for each text field plus its issue date.
 */
module Search {
  import opened Wrappers
  import opened Calendar

  /** The `operator` of a match query; Elasticsearch defaults to `or`. */
  datatype Operator = Or | And

  datatype Clause =
    | Match(field: string, text: string, operator: Operator)
    /** A half-open range `gte <= field < lt`; the bounds are the text sent to the index. */
    | Range(field: string, gte: string, lt: string)

  /** A single clause, or a `bool` query over clauses (the code never nests `bool`s). */
  datatype Query =
    | Leaf(clause: Clause)
    | Bool(must: seq<Clause>, should: seq<Clause>, minimumShouldMatch: Option<nat>)

  datatype Highlight = Highlight(field: string, fragmentSize: nat)

  /** Everything a `Search` object sends: sort keys, the query and the highlight request. */
  datatype Request = Request(sort: seq<string>, query: Query, highlight: Option<Highlight>)

  /** An indexed document: the analysed terms of each text field, and `date_issued`. */
  datatype Document = Document(terms: map<string, set<string>>, dateIssued: Day)

  /** The index's text analysis, turning query text into tokens. */
  type Analyzer = string -> seq<string>

  function FieldTerms(doc: Document, field: string): set<string> {
    if field in doc.terms then doc.terms[field] else {}
  }

  /**
   * A match query: some (`or`) or all (`and`) of the query's tokens are terms
   * of the field; query text with no tokens matches nothing.
   */
  predicate MatchHolds(doc: Document, field: string, text: string, op: Operator, analyze: Analyzer) {
    var tokens := analyze(text);
    && |tokens| > 0
    && match op
       case And => forall i :: 0 <= i < |tokens| ==> tokens[i] in FieldTerms(doc, field)
       case Or => exists i :: 0 <= i < |tokens| && tokens[i] in FieldTerms(doc, field)
  }

  predicate ClauseHolds(c: Clause, doc: Document, analyze: Analyzer) {
    match c
    case Match(field, text, op) => MatchHolds(doc, field, text, op, analyze)
    case Range(field, gte, lt) =>
      && field == "date_issued"
      && ParseIso(gte).Some? && ParseIso(lt).Some?
      && ParseIso(gte).value <= doc.dateIssued < ParseIso(lt).value
  }

  /** How many of the clauses hold of the document. */
  function CountHolding(cs: seq<Clause>, doc: Document, analyze: Analyzer): nat {
    if cs == [] then 0
    else CountHolding(cs[..|cs| - 1], doc, analyze) + (if ClauseHolds(cs[|cs| - 1], doc, analyze) then 1 else 0)
  }

  /** The `should` clauses that must hold: as given, else one when `bool` has only `should` clauses. */
  function EffectiveMinimum(q: Query): nat
    requires q.Bool?
  {
    match q.minimumShouldMatch
    case Some(n) => n
    case None => if |q.must| == 0 && |q.should| > 0 then 1 else 0
  }

  predicate Matches(q: Query, doc: Document, analyze: Analyzer) {
    match q
    case Leaf(c) => ClauseHolds(c, doc, analyze)
    case Bool(must, should, _) =>
      && (forall i :: 0 <= i < |must| ==> ClauseHolds(must[i], doc, analyze))
      && CountHolding(should, doc, analyze) >= EffectiveMinimum(q)
  }

  /** At least one clause holds exactly when the count of holding clauses is positive. */
  lemma {:induction false} CountHoldingPositive(cs: seq<Clause>, doc: Document, analyze: Analyzer)
    ensures CountHolding(cs, doc, analyze) >= 1 <==> exists i :: 0 <= i < |cs| && ClauseHolds(cs[i], doc, analyze)
  {
    if cs != [] {
      var init := cs[..|cs| - 1];
      CountHoldingPositive(init, doc, analyze);
      if exists i :: 0 <= i < |init| && ClauseHolds(init[i], doc, analyze) {
        var i :| 0 <= i < |init| && ClauseHolds(init[i], doc, analyze);
        assert cs[i] == init[i];
      }
      if exists i :: 0 <= i < |cs| && ClauseHolds(cs[i], doc, analyze) {
        var i :| 0 <= i < |cs| && ClauseHolds(cs[i], doc, analyze);
        if i < |init| {
          assert init[i] == cs[i];
        }
      }
    }
  }

  /** An `and` match is at least as strict as an `or` match of the same text. */
  lemma AndMatchImpliesOrMatch(doc: Document, field: string, text: string, analyze: Analyzer)
    requires MatchHolds(doc, field, text, And, analyze)
    ensures MatchHolds(doc, field, text, Or, analyze)
  {
    assert analyze(text)[0] in FieldTerms(doc, field);
  }
}
