/** The `/chat` handler of the web server as a function from the request
    and the answers of its collaborators to the reply.

    The collaborators (query rewriting, vector search, summarising and
    suggesting, all backed by a language model or the vector store) are
    outside the model: `Oracles` gives, for each argument, what each would
    return or that it raises. The reply records which of them the handler
    called, in order, so that what it does NOT call can be stated too. */
module Chat {
  import opened Exceptions
  import opened PyStr

  /** A parsed JSON value; `JNull` is what Python sees as `None`. Numbers are
      integers here. */
  datatype Json =
    | JNull
    | JBool(b: bool)
    | JNumber(n: int)
    | JString(s: string)
    | JArray(items: seq<Json>)
    | JObject(fields: map<string, Json>)

  /** Python truthiness of the value `json.loads` makes of `j`. */
  predicate Truthy(j: Json) {
    match j
    case JNull => false
    case JBool(b) => b
    case JNumber(n) => n != 0
    case JString(s) => s != ""
    case JArray(items) => items != []
    case JObject(fields) => fields != map[]
  }

  /** `dict.get(key, default)`. */
  function Get(fields: map<string, Json>, key: string, default: Json): Json {
    if key in fields then fields[key] else default
  }

  /** One search hit. The score and metadata reach the reply only as text,
      so they are kept in their rendered form. */
  datatype SearchResult = SearchResult(content: string, metadata: string, score: string)

  /** What each collaborator returns, or that it raises, for given arguments. */
  datatype Oracles = Oracles(
    enhance: string -> Fallible<string>,
    retrieve: (string, nat) -> Fallible<seq<SearchResult>>,
    summarize: (string, string) -> Fallible<string>,
    suggest: (string, string) -> Fallible<seq<string>>)

  /** A call the handler made: `enhance_query(llm, query)`,
      `query_chroma_db(vector_store, query, num_results)`,
      `generate_content_summary(llm, content, query)` or
      `suggest_next_queries(llm, content, query)`. */
  datatype Call =
    | Enhance(query: string)
    | Retrieve(query: string, numResults: nat)
    | Summarize(content: string, query: string)
    | Suggest(content: string, query: string)

  predicate Threw(c: Call, o: Oracles) {
    match c
    case Enhance(q) => o.enhance(q).Throws?
    case Retrieve(q, k) => o.retrieve(q, k).Throws?
    case Summarize(content, q) => o.summarize(content, q).Throws?
    case Suggest(content, q) => o.suggest(content, q).Throws?
  }

  /** The JSON body of the reply: `{'error': ...}` or `{'response': ..., 'suggestions': ...}`. */
  datatype Body = Error(message: string) | Answer(response: string, suggestions: seq<string>)

  datatype Reply = Reply(status: nat, body: Body, calls: seq<Call>)

  const InvalidJson := "Invalid JSON data."
  const InvalidQuery := "Please enter a valid query."
  const NoResults := "No matching results found."
  const GenericError := "An error occurred while processing your request."

  /** The content preview keeps at most this many characters of the content. */
  const PreviewLimit: nat := 500

  /** The content preview of the enhanced reply. */
  function Preview(content: string): (p: string)
    ensures |p| <= PreviewLimit + 3
    ensures |content| <= PreviewLimit ==> p == content
    ensures |content| > PreviewLimit ==>
              |p| == PreviewLimit + 3 && p[..PreviewLimit] == content[..PreviewLimit] && p[PreviewLimit..] == "..."
  {
    if |content| > PreviewLimit then content[..PreviewLimit] + "..." else content
  }

  /** Sanity check on the definition, not a behaviour of the handler: a
      preview is its own preview. */
  lemma PreviewIdempotent(content: string)
    ensures Preview(Preview(content)) == Preview(content)
  {
  }

  function RawResponse(userQuery: string, result: SearchResult): string {
    "**Raw Results for: '" + userQuery + "'**\n\n**Score:** " + result.score
    + "\n\n**Content:** " + result.content + "\n\n**Metadata:** " + result.metadata
  }

  function EnhancedResponse(summary: string, result: SearchResult): string {
    "**Summary:**\n" + summary + "\n\n**Relevance Score:** " + result.score
    + "\n\n**Content Preview:**\n" + Preview(result.content) + "\n\n**Metadata:** " + result.metadata
  }

  /** Raw mode shows the user's query and the whole content, however long. */
  lemma RawResponseShows(userQuery: string, result: SearchResult)
    ensures var text := RawResponse(userQuery, result);
            var q := |"**Raw Results for: '"|;
            var c := q + |userQuery| + |"'**\n\n**Score:** "| + |result.score| + |"\n\n**Content:** "|;
            && c + |result.content| <= |text|
            && text[q..q + |userQuery|] == userQuery
            && text[c..c + |result.content|] == result.content
  {
    var head := "**Raw Results for: '";
    var mid := "'**\n\n**Score:** " + result.score + "\n\n**Content:** ";
    var tail := "\n\n**Metadata:** " + result.metadata;
    var text := RawResponse(userQuery, result);
    assert text == head + userQuery + mid + result.content + tail;
    assert text[|head|..|head| + |userQuery|] == userQuery;
    assert text[|head + userQuery + mid|..|head + userQuery + mid| + |result.content|] == result.content;
  }

  /** Enhanced mode shows the summary and only a preview of the content, so
      its length does not grow with the content past 500 characters. */
  lemma EnhancedResponseShows(summary: string, result: SearchResult)
    ensures var text := EnhancedResponse(summary, result);
            var h := |"**Summary:**\n"|;
            var c := h + |summary| + |"\n\n**Relevance Score:** "| + |result.score| + |"\n\n**Content Preview:**\n"|;
            && c + |Preview(result.content)| <= |text|
            && text[h..h + |summary|] == summary
            && text[c..c + |Preview(result.content)|] == Preview(result.content)
            && |text| <= c + 503 + |"\n\n**Metadata:** "| + |result.metadata|
  {
    var head := "**Summary:**\n";
    var mid := "\n\n**Relevance Score:** " + result.score + "\n\n**Content Preview:**\n";
    var tail := "\n\n**Metadata:** " + result.metadata;
    var p := Preview(result.content);
    var text := EnhancedResponse(summary, result);
    assert text == head + summary + mid + p + tail;
    assert text[|head|..|head| + |summary|] == summary;
    assert text[|head + summary + mid|..|head + summary + mid| + |p|] == p;
  }

  /** Any exception inside the handler becomes this reply. */
  function Failed(calls: seq<Call>): Reply {
    Reply(500, Error(GenericError), calls)
  }

  /** The request body is a truthy JSON value that is not an object: the
      handler's `data.get` raises. */
  predicate NotADict(request: Fallible<Json>) {
    request.Returns? && Truthy(request.value) && !request.value.JObject?
  }

  /** The request is a non-empty object whose "query" is present but not a
      string: the handler's `.strip()` raises. */
  predicate QueryNotAString(request: Fallible<Json>) {
    && request.Returns? && Truthy(request.value) && request.value.JObject?
    && "query" in request.value.fields && !request.value.fields["query"].JString?
  }

  /** The request is a non-empty object whose "query" is absent or a string. */
  predicate WellFormedRequest(request: Fallible<Json>) {
    && request.Returns? && Truthy(request.value) && request.value.JObject?
    && Get(request.value.fields, "query", JString("")).JString?
  }

  /** The query text as sent, before stripping. */
  function QueryText(request: Fallible<Json>): string
    requires WellFormedRequest(request)
  {
    Get(request.value.fields, "query", JString("")).s
  }

  /** The request asks for raw mode: its "raw_mode" is truthy. */
  predicate RawMode(request: Fallible<Json>) {
    request.Returns? && request.value.JObject? && Truthy(Get(request.value.fields, "raw_mode", JBool(false)))
  }

  /** The handler: validate the request, pick the search query (verbatim in
      raw mode, rewritten otherwise), search for one result and answer from
      it. Every exception, from parsing the body or from a collaborator,
      ends in the generic 500 reply. */
  function HandleChat(request: Fallible<Json>, o: Oracles): (r: Reply)
    ensures r.status == 200 || r.status == 400 || r.status == 500
    ensures r.status == 200 <==> r.body.Answer?
    ensures r.status == 500 <==> r.body == Error(GenericError)
    // validation: the two client errors, and no collaborator is called for them
    ensures r.body == Error(InvalidJson) <==> request.Returns? && !Truthy(request.value)
    ensures r.body == Error(InvalidQuery) <==> WellFormedRequest(request) && AllSpace(QueryText(request))
    ensures r.status == 400 ==> r.calls == []
    // mode selection and the single search result
    ensures RawMode(request) ==> forall c | c in r.calls :: !c.Enhance?
    ensures forall c | c in r.calls :: c.Retrieve? ==> c.numResults == 1
    ensures r.status == 200 && RawMode(request) ==> r.body.suggestions == []
    // error mapping: a reply other than 500 means nothing raised; a 500 is
    // either a malformed request or the last call having raised
    ensures r.status != 500 ==> forall c | c in r.calls :: !Threw(c, o)
    ensures r.status == 500 <==>
              || request.Throws? || NotADict(request) || QueryNotAString(request)
              || (r.calls != [] && Threw(r.calls[|r.calls| - 1], o))
    ensures forall j | 0 <= j < |r.calls| - 1 :: !Threw(r.calls[j], o)
  {
    match request
    case Throws => Failed([])
    case Returns(data) =>
      if !Truthy(data) then Reply(400, Error(InvalidJson), [])
      else if !data.JObject? then Failed([])
      else
        var query := Get(data.fields, "query", JString(""));
        if !query.JString? then Failed([])
        else
          var userQuery := Strip(query.s);
          var rawMode := Truthy(Get(data.fields, "raw_mode", JBool(false)));
          StripEmpty(query.s);
          if userQuery == "" then Reply(400, Error(InvalidQuery), [])
          else Respond(userQuery, rawMode, o)
  }

  /** The part of the handler after validation, for a non-empty query. */
  function Respond(userQuery: string, rawMode: bool, o: Oracles): (r: Reply)
    ensures r.status == 200 || r.status == 500
    ensures r.status == 200 <==> r.body.Answer?
    ensures r.status == 500 <==> r.body == Error(GenericError)
    ensures r.calls != []
    ensures rawMode ==> forall c | c in r.calls :: !c.Enhance?
    ensures forall c | c in r.calls :: c.Retrieve? ==> c.numResults == 1
    ensures r.status == 200 && rawMode ==> r.body.suggestions == []
    ensures r.status == 200 ==> forall c | c in r.calls :: !Threw(c, o)
    ensures r.status == 500 <==> Threw(r.calls[|r.calls| - 1], o)
    ensures forall j | 0 <= j < |r.calls| - 1 :: !Threw(r.calls[j], o)
    // raw mode: the search on the user's query is the only call, and any
    // search that returns gives 200
    ensures rawMode ==> r.calls == [Retrieve(userQuery, 1)]
    ensures rawMode ==> (r.status == 200 <==> o.retrieve(userQuery, 1).Returns?)
    // enhanced mode: rewrite first, then search on the rewritten query
    ensures !rawMode ==> r.calls[0] == Enhance(userQuery)
    ensures !rawMode && o.enhance(userQuery).Returns? ==>
              |r.calls| >= 2 && r.calls[1] == Retrieve(o.enhance(userQuery).value, 1)
    // with a result: summarise, then suggest, both on the first result's content
    ensures !rawMode && o.enhance(userQuery).Returns? ==>
              var found := o.retrieve(o.enhance(userQuery).value, 1);
              found.Returns? && |found.value| > 0 ==>
                var top := found.value[0];
                && |r.calls| >= 3 && r.calls[2] == Summarize(top.content, userQuery)
                && (o.summarize(top.content, userQuery).Throws? ==> r.status == 500 && |r.calls| == 3)
                && (o.summarize(top.content, userQuery).Returns? ==>
                      && r.calls == [Enhance(userQuery), Retrieve(o.enhance(userQuery).value, 1),
                                     Summarize(top.content, userQuery), Suggest(top.content, userQuery)]
                      && (r.status == 500 <==> o.suggest(top.content, userQuery).Throws?))
  {
    var enhanced := if rawMode then Returns(userQuery) else o.enhance(userQuery);
    var asked := if rawMode then [] else [Enhance(userQuery)];
    match enhanced
    case Throws => Failed(asked)
    case Returns(searchQuery) =>
      var searched := asked + [Retrieve(searchQuery, 1)];
      match o.retrieve(searchQuery, 1)
      case Throws => Failed(searched)
      case Returns(results) =>
        if |results| == 0 then Reply(200, Answer(NoResults, []), searched)
        else
          var result := results[0];
          if rawMode then Reply(200, Answer(RawResponse(userQuery, result), []), searched)
          else
            var summarized := searched + [Summarize(result.content, userQuery)];
            match o.summarize(result.content, userQuery)
            case Throws => Failed(summarized)
            case Returns(summary) =>
              var suggested := summarized + [Suggest(result.content, userQuery)];
              match o.suggest(result.content, userQuery)
              case Throws => Failed(suggested)
              case Returns(suggestions) =>
                Reply(200, Answer(EnhancedResponse(summary, result), suggestions), suggested)
  }

  /** The stripped query of a request that passes validation. */
  function UserQuery(request: Fallible<Json>): string
    requires WellFormedRequest(request)
  {
    Strip(QueryText(request))
  }

  predicate Valid(request: Fallible<Json>) {
    WellFormedRequest(request) && !AllSpace(QueryText(request))
  }

  /** In raw mode the search uses the user's query verbatim (stripped) and
      is the first call; otherwise the query is rewritten first and the
      search uses the rewritten query. */
  lemma SearchQueryChoice(request: Fallible<Json>, o: Oracles)
    requires Valid(request)
    ensures var r := HandleChat(request, o);
            var q := UserQuery(request);
            && (RawMode(request) ==> r.calls[0] == Retrieve(q, 1))
            && (!RawMode(request) ==> r.calls[0] == Enhance(q))
            && (!RawMode(request) && o.enhance(q).Returns? ==>
                  |r.calls| >= 2 && r.calls[1] == Retrieve(o.enhance(q).value, 1))
  {
  }

  /** The query the search runs on for a valid request, when it gets that far. */
  function SearchQuery(request: Fallible<Json>, o: Oracles): Fallible<string>
    requires Valid(request)
  {
    if RawMode(request) then Returns(UserQuery(request)) else o.enhance(UserQuery(request))
  }

  /** A search that finds nothing gives the fixed 200 reply with no suggestions. */
  lemma EmptyResults(request: Fallible<Json>, o: Oracles)
    requires Valid(request)
    requires SearchQuery(request, o).Returns?
    requires o.retrieve(SearchQuery(request, o).value, 1) == Returns([])
    ensures HandleChat(request, o).status == 200
    ensures HandleChat(request, o).body == Answer(NoResults, [])
  {
  }

  /** With a result in hand, raw mode answers 200 after the search alone;
      enhanced mode summarises and then suggests on the first result's
      content, and an exception from either gives the 500 reply. */
  lemma ResultPaths(request: Fallible<Json>, o: Oracles)
    requires Valid(request)
    requires SearchQuery(request, o).Returns?
    requires var found := o.retrieve(SearchQuery(request, o).value, 1);
             found.Returns? && |found.value| > 0
    ensures var q := UserQuery(request);
            var sq := SearchQuery(request, o).value;
            var top := o.retrieve(sq, 1).value[0];
            var r := HandleChat(request, o);
            && (RawMode(request) ==> r.status == 200 && r.calls == [Retrieve(q, 1)])
            && (!RawMode(request) ==> |r.calls| >= 3 && r.calls[2] == Summarize(top.content, q))
            && (!RawMode(request) && o.summarize(top.content, q).Throws? ==> r.status == 500)
            && (!RawMode(request) && o.summarize(top.content, q).Returns? ==>
                  && r.calls == [Enhance(q), Retrieve(sq, 1), Summarize(top.content, q), Suggest(top.content, q)]
                  && (r.status == 500 <==> o.suggest(top.content, q).Throws?))
  {
  }

  /** Only the first search result matters: two searches that agree on their
      first result give the same reply. */
  lemma FirstResultOnly(request: Fallible<Json>, o: Oracles, rs: seq<SearchResult>, rs': seq<SearchResult>)
    requires |rs| > 0 && |rs'| > 0 && rs[0] == rs'[0]
    ensures HandleChat(request, o.(retrieve := (q: string, k: nat) => Returns(rs)))
         == HandleChat(request, o.(retrieve := (q: string, k: nat) => Returns(rs')))
  {
  }

  /** A complete enhanced-mode answer: the four collaborators are called in
      order, summary and suggestions are about the first result's content and
      the user's query, and the suggestions are the suggester's. */
  lemma EnhancedAnswer(request: Fallible<Json>, o: Oracles)
    requires Valid(request) && !RawMode(request)
    requires o.enhance(UserQuery(request)).Returns?
    requires var e := o.enhance(UserQuery(request)).value;
             o.retrieve(e, 1).Returns? && |o.retrieve(e, 1).value| > 0
    requires var top := o.retrieve(o.enhance(UserQuery(request)).value, 1).value[0];
             o.summarize(top.content, UserQuery(request)).Returns?
             && o.suggest(top.content, UserQuery(request)).Returns?
    ensures var q := UserQuery(request);
            var e := o.enhance(q).value;
            var top := o.retrieve(e, 1).value[0];
            var r := HandleChat(request, o);
            && r.status == 200
            && r.calls == [Enhance(q), Retrieve(e, 1), Summarize(top.content, q), Suggest(top.content, q)]
            && r.body.suggestions == o.suggest(top.content, q).value
  {
  }
}
