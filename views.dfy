/**
 * The search API's query composition (cwapi/views.py): one clause builder per
 * searchable field, `execute_search`, and `search_by_params`, which turns the
 * request's query parameters into one `bool` query with an optional content
 * highlight. Running a request is an oracle that reports success or failure.
 */
module Views {
  import opened Wrappers
  import opened Text
  import opened Search

  /** The keys of `QUERIES`, in the order the dictionary iterates them. */
  const QueryFields: seq<string> := ["title", "speaker", "content"]

  /** Fragment size used when the `highlight` parameter is not a number. */
  const DefaultFragmentSize: nat := 200

  /** The sort every parameter search applies: newest first. */
  const DateDescending: string := "-date_issued"

  /** `get_speaker`: a plain match on the `speakers` field. */
  function GetSpeaker(name: string): Clause {
    Match("speakers", name, Or)
  }

  /** `get_title`: a plain match on the `title` field. */
  function GetTitle(title: string): Clause {
    Match("title", title, Or)
  }

  /** `get_content`: a match on `content` requiring every token. */
  function GetContent(content: string): Clause {
    Match("content", content, And)
  }

  /** `globals()[QUERIES[f]]`: the builder `QUERIES` names for field `f`. */
  function ClauseFor(f: string, value: string): Clause
    requires f in QueryFields
  {
    if f == "title" then GetTitle(value)
    else if f == "speaker" then GetSpeaker(value)
    else GetContent(value)
  }

  /** The clauses the loop over `fields` appends, one per field present in `params`. */
  function ClausesFor(params: map<string, string>, fields: seq<string>): seq<Clause>
    requires forall i :: 0 <= i < |fields| ==> fields[i] in QueryFields
  {
    if fields == [] then []
    else
      var f := fields[|fields| - 1];
      ClausesFor(params, fields[..|fields| - 1]) + (if f in params then [ClauseFor(f, params[f])] else [])
  }

  /**
   * The `must` list of a parameter search: a title clause, a speaker clause
   * and a content clause, each exactly when its key is present, in that order.
   */
  function MustClauses(params: map<string, string>): seq<Clause> {
    (if "title" in params then [GetTitle(params["title"])] else [])
    + (if "speaker" in params then [GetSpeaker(params["speaker"])] else [])
    + (if "content" in params then [GetContent(params["content"])] else [])
  }

  /** The loop of `search_by_params` over `QUERIES`, appending one clause per present key. */
  method ComposeMust(params: map<string, string>) returns (queries: seq<Clause>)
    ensures queries == MustClauses(params)
  {
    queries := [];
    var i := 0;
    while i < |QueryFields|
      invariant 0 <= i <= |QueryFields|
      invariant queries == ClausesFor(params, QueryFields[..i])
    {
      var f := QueryFields[i];
      assert QueryFields[..i + 1][..i] == QueryFields[..i];
      if f in params {
        queries := queries + [ClauseFor(f, params[f])];
      }
      i := i + 1;
    }
    ClausesForQueryFields(params);
  }

  lemma ClausesForQueryFields(params: map<string, string>)
    ensures ClausesFor(params, QueryFields[..|QueryFields|]) == MustClauses(params)
  {
    var fs := QueryFields[..|QueryFields|];
    assert fs[..2] == ["title", "speaker"] && fs[..2][..1] == ["title"] && fs[..2][..1][..0] == [];
    assert ClausesFor(params, ["title"]) == (if "title" in params then [GetTitle(params["title"])] else []);
  }

  /** The fragment size of a `highlight` parameter: its number, or 200 when it is not numeric. */
  function FragmentSize(value: string): (n: nat)
    ensures IsNumeric(value) ==> n == DigitsValue(value)
    ensures !IsNumeric(value) ==> n == DefaultFragmentSize
  {
    if IsNumeric(value) then DigitsValue(value) else DefaultFragmentSize
  }

  /** The highlight request: on `content`, only when both `highlight` and `content` are given. */
  function HighlightFor(params: map<string, string>): (h: Option<Highlight>)
    ensures h.Some? <==> "highlight" in params && "content" in params
    ensures h.Some? ==> h.value.field == "content" && h.value.fragmentSize == FragmentSize(params["highlight"])
  {
    if "highlight" in params && "content" in params
    then Some(Highlight("content", FragmentSize(params["highlight"])))
    else None
  }

  /** The request `search_by_params` sends for `params`. */
  function ParamsRequest(params: map<string, string>): Request {
    Request([DateDescending], Bool(MustClauses(params), [], None), HighlightFor(params))
  }

  /** The body of an HTTP response of the search API. */
  datatype Response = Found(results: Request) | FoundNothing

  /** `search_by_params`: compose, execute once, and answer "Found nothing" on failure. */
  method SearchByParams(params: map<string, string>, succeeds: Request -> bool) returns (response: Response)
    ensures response.FoundNothing? <==> !succeeds(ParamsRequest(params))
    ensures response.Found? ==> response.results == ParamsRequest(params)
  {
    var queries := ComposeMust(params);
    var q := Bool(queries, [], None);
    var request;
    if "highlight" in params && "content" in params {
      var fragSize := params["highlight"];
      var size: nat;
      if !IsNumeric(fragSize) {
        size := DefaultFragmentSize;
      } else {
        size := DigitsValue(fragSize);
      }
      request := Request([DateDescending], q, Some(Highlight("content", size)));
    } else {
      request := Request([DateDescending], q, None);
    }
    if succeeds(request) {
      response := Found(request);
    } else {
      response := FoundNothing;
    }
  }

  /** What a successful `execute` returns: the response to one request. */
  datatype SearchResults = SearchResults(request: Request)

  /**
   * `execute_search`: sort only when a non-empty sort key is given, run the
   * query, and return the results on success or nothing (the code's `False`).
   */
  function ExecuteSearch(query: Query, sorting: Option<string>, succeeds: Request -> bool): (r: Option<SearchResults>)
    ensures r.Some? ==> succeeds(r.value.request) && r.value.request.query == query
    ensures r.Some? ==> r.value.request.highlight.None?
    ensures r.Some? ==> r.value.request.sort == (if sorting.Some? && sorting.value != "" then [sorting.value] else [])
    ensures r.None? ==> forall req: Request :: req.query == query && req.highlight.None?
                          && req.sort == (if sorting.Some? && sorting.value != "" then [sorting.value] else [])
                          ==> !succeeds(req)
  {
    var sort := if sorting.Some? && sorting.value != "" then [sorting.value] else [];
    var request := Request(sort, query, None);
    if succeeds(request) then Some(SearchResults(request)) else None
  }

  // ---------------------------------------------------------------- properties

  /** The composed query holds of a document exactly when every given filter's match holds. */
  lemma ParamsQueryMeaning(params: map<string, string>, doc: Document, analyze: Analyzer)
    ensures Matches(ParamsRequest(params).query, doc, analyze) <==>
      && ("title" in params ==> MatchHolds(doc, "title", params["title"], Or, analyze))
      && ("speaker" in params ==> MatchHolds(doc, "speakers", params["speaker"], Or, analyze))
      && ("content" in params ==> MatchHolds(doc, "content", params["content"], And, analyze))
  {
    var must := MustClauses(params);
    var t := if "title" in params then [GetTitle(params["title"])] else [];
    var s := if "speaker" in params then [GetSpeaker(params["speaker"])] else [];
    var c := if "content" in params then [GetContent(params["content"])] else [];
    assert must == t + s + c;
    if "title" in params { assert must[0] == t[0]; }
    if "speaker" in params { assert must[|t|] == s[0]; }
    if "content" in params { assert must[|t| + |s|] == c[0]; }
  }

  /** With no recognised parameter the query is an empty `bool`, which every document satisfies. */
  lemma NoFiltersMatchesEverything(params: map<string, string>, doc: Document, analyze: Analyzer)
    requires forall f :: f in QueryFields ==> f !in params
    ensures ParamsRequest(params).query == Bool([], [], None)
    ensures Matches(ParamsRequest(params).query, doc, analyze)
  {
    assert "title" in QueryFields && "speaker" in QueryFields && "content" in QueryFields;
  }

  /** Parameters other than the `QUERIES` keys leave the `must` list unchanged. */
  lemma UnknownParamsIgnored(params: map<string, string>, extra: map<string, string>)
    requires forall k :: k in extra ==> k !in QueryFields
    ensures MustClauses(params + extra) == MustClauses(params - extra.Keys)
  {
    assert "title" in QueryFields && "speaker" in QueryFields && "content" in QueryFields;
  }

  /** A number written in decimal is used as the fragment size unchanged. */
  lemma {:induction false} FragmentSizeOfNumber(n: nat)
    ensures FragmentSize(DecimalString(n)) == n
  {
    DecimalStringRoundTrip(n);
  }
}
