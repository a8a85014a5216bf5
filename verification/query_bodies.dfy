/** The Elasticsearch request bodies the search tools send: keyword search,
    semantic search, hybrid (reciprocal rank fusion) search and document
    count. Each builder depends on its arguments only.

    A dict display `{k1: v1, k2: v2}` is the map `map[k1 := v1, k2 := v2]`;
    an assignment `d[k] = v` is the update `d[k := v]`. */
module QueryBodies {
  import opened JsonValues
  import Highlights

  /** Fields a keyword or count query searches. */
  const KeywordFields: seq<string> := ["content", "file.filename"]
  /** Fields searched by the keyword retriever of hybrid search and by the
      keyword clause of highlighted semantic search: the content only. */
  const ContentOnly: seq<string> := ["content"]
  /** Fields returned when the content comes back as highlight fragments. */
  const HighlightSourceFields: seq<string> := ["file.filename", "path.virtual"]
  /** Fields returned when there is no highlighting: the content itself too. */
  const PlainSourceFields: seq<string> := ["content", "file.filename", "path.virtual"]
  /** Fields a pure semantic search returns. */
  const SemanticSourceFields: seq<string> := ["content", "content_semantic", "file.filename", "path.virtual"]
  /** The field holding the semantic embedding of the content. */
  const SemanticField: string := "content_semantic"

  /** The boosts of the two clauses of a highlighted semantic search:
      constants of the source, never computed. */
  const SemanticBoost: real := 2.0
  const KeywordBoost: real := 0.5

  /** `{"multi_match": {"query": query, "fields": fields}}` */
  function MultiMatch(query: string, fields: seq<string>): Json
  {
    JObj(map["multi_match" := JObj(map["query" := JStr(query), "fields" := StrList(fields)])])
  }

  /** `{"semantic": {"field": "content_semantic", "query": query}}` */
  function Semantic(query: string): Json
  {
    JObj(map["semantic" := JObj(map["field" := JStr(SemanticField), "query" := JStr(query)])])
  }

  /** The semantic clause of a highlighted semantic search: boosted by 2.0. */
  function BoostedSemantic(query: string): Json
  {
    JObj(map["semantic" := JObj(map[
      "field" := JStr(SemanticField), "query" := JStr(query), "boost" := JFloat(SemanticBoost)])])
  }

  /** The keyword clause of a highlighted semantic search: the content only,
      boosted by 0.5. */
  function BoostedContentMatch(query: string): Json
  {
    JObj(map["multi_match" := JObj(map[
      "query" := JStr(query), "fields" := StrList(ContentOnly), "boost" := JFloat(KeywordBoost)])])
  }

  /** A retriever of the fusion: `{"standard": {"query": query}}`. */
  function Standard(query: Json): Json
  {
    JObj(map["standard" := JObj(map["query" := query])])
  }

  /** The highlight request: fragments of the `content` field of the given
      size and number, matches wrapped in `<mark>`/`</mark>`. */
  function HighlightRequest(fragmentSize: int, numFragments: int): Json
  {
    JObj(map["fields" := JObj(map["content" := JObj(map[
      "fragment_size" := JInt(fragmentSize),
      "number_of_fragments" := JInt(numFragments),
      "pre_tags" := StrList([Highlights.OpenTag]),
      "post_tags" := StrList([Highlights.CloseTag])])])])
  }

  /** The body `search` sends (keyword search): a `multi_match` over the
      content and the file name, the size, then the highlighting. */
  function KeywordBody(query: string, size: int, highlight: bool, fragmentSize: int, numFragments: int): (r: Json)
    ensures r.JObj?
    ensures Lookup(r, "query") == Some(MultiMatch(query, KeywordFields))
    ensures Lookup(r, "size") == Some(JInt(size))
    ensures Lookup(r, "highlight") == if highlight then Some(HighlightRequest(fragmentSize, numFragments)) else None
    ensures Lookup(r, "_source") == Some(StrList(if highlight then HighlightSourceFields else PlainSourceFields))
    ensures r.fields.Keys == if highlight then {"query", "size", "highlight", "_source"} else {"query", "size", "_source"}
  {
    var body := map["query" := MultiMatch(query, KeywordFields), "size" := JInt(size)];
    if highlight then
      JObj(body["highlight" := HighlightRequest(fragmentSize, numFragments)]["_source" := StrList(HighlightSourceFields)])
    else
      JObj(body["_source" := StrList(PlainSourceFields)])
  }

  /** The query of a highlighted semantic search: a `bool.should` of the
      boosted semantic clause and the boosted keyword clause, in that order. */
  function EitherClause(query: string): Json
  {
    JObj(map["bool" := JObj(map["should" := JArr([BoostedSemantic(query), BoostedContentMatch(query)])])])
  }

  /** The body `semantic_search` sends. With highlighting it is a
      `bool.should` of a boosted semantic query and a boosted keyword query
      on the content, so that the engine has terms to highlight; without, a
      single semantic query. */
  function SemanticBody(query: string, size: int, highlight: bool, fragmentSize: int, numFragments: int): (r: Json)
    ensures r.JObj?
    ensures Lookup(r, "size") == Some(JInt(size))
    ensures Lookup(r, "highlight") == if highlight then Some(HighlightRequest(fragmentSize, numFragments)) else None
    ensures Lookup(r, "_source") == Some(StrList(if highlight then HighlightSourceFields else SemanticSourceFields))
    ensures !highlight ==> Lookup(r, "query") == Some(Semantic(query))
    ensures highlight ==> Lookup(r, "query") == Some(EitherClause(query))
    ensures r.fields.Keys == if highlight then {"query", "highlight", "_source", "size"} else {"query", "_source", "size"}
  {
    if highlight then
      JObj(map[
        "query" := EitherClause(query),
        "highlight" := HighlightRequest(fragmentSize, numFragments),
        "_source" := StrList(HighlightSourceFields),
        "size" := JInt(size)])
    else
      JObj(map[
        "query" := Semantic(query),
        "_source" := StrList(SemanticSourceFields),
        "size" := JInt(size)])
  }

  /** The reciprocal-rank-fusion retriever of hybrid search: exactly two
      retrievers, a keyword one on the content first and a semantic one
      second, with the rank window and rank constant passed through. */
  function Fusion(query: string, rankWindowSize: int, rankConstant: int): Json
  {
    JObj(map["rrf" := JObj(map[
      "retrievers" := JArr([Standard(MultiMatch(query, ContentOnly)), Standard(Semantic(query))]),
      "rank_window_size" := JInt(rankWindowSize),
      "rank_constant" := JInt(rankConstant)])])
  }

  /** The body `hybrid_search` sends: the fusion retriever and the size, then
      the highlighting as for keyword search. */
  function HybridBody(query: string, size: int, highlight: bool, fragmentSize: int, numFragments: int,
                      rankWindowSize: int, rankConstant: int): (r: Json)
    ensures r.JObj?
    ensures Lookup(r, "retriever") == Some(Fusion(query, rankWindowSize, rankConstant))
    ensures Lookup(r, "size") == Some(JInt(size))
    ensures Lookup(r, "highlight") == if highlight then Some(HighlightRequest(fragmentSize, numFragments)) else None
    ensures Lookup(r, "_source") == Some(StrList(if highlight then HighlightSourceFields else PlainSourceFields))
    ensures r.fields.Keys == if highlight then {"retriever", "size", "highlight", "_source"} else {"retriever", "size", "_source"}
  {
    var body := map["retriever" := Fusion(query, rankWindowSize, rankConstant), "size" := JInt(size)];
    if highlight then
      JObj(body["highlight" := HighlightRequest(fragmentSize, numFragments)]["_source" := StrList(HighlightSourceFields)])
    else
      JObj(body["_source" := StrList(PlainSourceFields)])
  }

  /** The body `count_documents` sends: `{}` unless the query is truthy (a
      non-empty string), then a keyword query over the content and the file
      name. */
  function CountBody(query: Option<string>): (r: Json)
    ensures r.JObj?
    ensures r.fields == map[] <==> (query == None || query == Some([]))
    ensures query.Some? && query.value != [] ==>
      r.fields.Keys == {"query"} && Lookup(r, "query") == Some(MultiMatch(query.value, KeywordFields))
  {
    if query.Some? && query.value != [] then
      var fields := map["query" := MultiMatch(query.value, KeywordFields)];
      assert "query" in fields;
      JObj(fields)
    else JObj(map[])
  }

  // ---------------------------------------------------------------------
  // The pieces

  /** The keyword and semantic clauses: which fields they search, for which
      query, with which boost (none for the plain clauses). */
  lemma ClauseShapes(query: string, fields: seq<string>)
    ensures Sub(Lookup(MultiMatch(query, fields), "multi_match"), "query") == Some(JStr(query))
    ensures Sub(Lookup(MultiMatch(query, fields), "multi_match"), "fields") == Some(StrList(fields))
    ensures Sub(Lookup(MultiMatch(query, fields), "multi_match"), "boost") == None
    ensures Sub(Lookup(Semantic(query), "semantic"), "field") == Some(JStr(SemanticField))
    ensures Sub(Lookup(Semantic(query), "semantic"), "query") == Some(JStr(query))
    ensures Sub(Lookup(Semantic(query), "semantic"), "boost") == None
    ensures Sub(Lookup(BoostedSemantic(query), "semantic"), "field") == Some(JStr(SemanticField))
    ensures Sub(Lookup(BoostedSemantic(query), "semantic"), "query") == Some(JStr(query))
    ensures Sub(Lookup(BoostedSemantic(query), "semantic"), "boost") == Some(JFloat(SemanticBoost))
    ensures Sub(Lookup(BoostedContentMatch(query), "multi_match"), "query") == Some(JStr(query))
    ensures Sub(Lookup(BoostedContentMatch(query), "multi_match"), "fields") == Some(StrList(ContentOnly))
    ensures Sub(Lookup(BoostedContentMatch(query), "multi_match"), "boost") == Some(JFloat(KeywordBoost))
  {
  }

  /** The highlight request asks for fragments of the content of the given
      size and number, wrapped in exactly the tags the deduplication
      removes. */
  lemma HighlightRequestShape(fragmentSize: int, numFragments: int)
    ensures var content := Sub(Lookup(HighlightRequest(fragmentSize, numFragments), "fields"), "content");
      && Sub(content, "fragment_size") == Some(JInt(fragmentSize))
      && Sub(content, "number_of_fragments") == Some(JInt(numFragments))
      && Sub(content, "pre_tags") == Some(StrList([Highlights.OpenTag]))
      && Sub(content, "post_tags") == Some(StrList([Highlights.CloseTag]))
  {
  }

  /** The fusion has exactly two retrievers, keyword on the content first
      and semantic second, both for the same query, and passes the rank
      window and rank constant through unchanged. */
  lemma FusionShape(query: string, rankWindowSize: int, rankConstant: int)
    ensures var rrf := Lookup(Fusion(query, rankWindowSize, rankConstant), "rrf");
      && Sub(rrf, "retrievers") == Some(JArr([Standard(MultiMatch(query, ContentOnly)), Standard(Semantic(query))]))
      && Sub(rrf, "rank_window_size") == Some(JInt(rankWindowSize))
      && Sub(rrf, "rank_constant") == Some(JInt(rankConstant))
    ensures Sub(Lookup(Standard(MultiMatch(query, ContentOnly)), "standard"), "query") == Some(MultiMatch(query, ContentOnly))
    ensures Sub(Lookup(Standard(Semantic(query)), "standard"), "query") == Some(Semantic(query))
  {
  }

  /** The highlighted semantic query is a two-clause `bool.should`: the
      boosted semantic clause, then the boosted keyword clause. */
  lemma EitherClauseShape(query: string)
    ensures Sub(Lookup(EitherClause(query), "bool"), "should") == Some(JArr([BoostedSemantic(query), BoostedContentMatch(query)]))
  {
  }

  // ---------------------------------------------------------------------
  // Relations between the bodies

  /** Whichever search sends it, a body returns the `content` field in
      `_source` exactly when it does not ask for highlighting: the content
      then comes back as fragments instead. */
  lemma ContentReturnedExactlyWithoutHighlight(query: string, size: int, highlight: bool, fragmentSize: int,
                                               numFragments: int, rankWindowSize: int, rankConstant: int)
    ensures forall body :: body in {KeywordBody(query, size, highlight, fragmentSize, numFragments),
                                    SemanticBody(query, size, highlight, fragmentSize, numFragments),
                                    HybridBody(query, size, highlight, fragmentSize, numFragments, rankWindowSize, rankConstant)} ==>
      (Lookup(body, "highlight").Some? <==> highlight) &&
      exists fields :: Lookup(body, "_source") == Some(StrList(fields)) && ("content" in fields <==> !highlight)
  {
    var hs := HighlightSourceFields;
    assert hs[0] != "content" && hs[1] != "content";
    assert PlainSourceFields[0] == "content" && SemanticSourceFields[0] == "content";
  }

  /** Keyword and hybrid search treat highlighting alike: the same
      highlight request and the same `_source`, for any query. */
  lemma KeywordAndHybridHighlightAlike(query: string, other: string, size: int, otherSize: int, highlight: bool,
                                       fragmentSize: int, numFragments: int, rankWindowSize: int, rankConstant: int)
    ensures var k := KeywordBody(query, size, highlight, fragmentSize, numFragments);
      var h := HybridBody(other, otherSize, highlight, fragmentSize, numFragments, rankWindowSize, rankConstant);
      Lookup(k, "highlight") == Lookup(h, "highlight") && Lookup(k, "_source") == Lookup(h, "_source")
  {
  }

  /** A truthy count query is the very query keyword search sends; the
      keyword retriever of hybrid search differs only in searching the
      content alone. */
  lemma CountQueryIsKeywordQuery(query: string, size: int, highlight: bool, fragmentSize: int, numFragments: int,
                                 rankWindowSize: int, rankConstant: int)
    requires query != []
    ensures Lookup(CountBody(Some(query)), "query") == Lookup(KeywordBody(query, size, highlight, fragmentSize, numFragments), "query")
    ensures Sub(Sub(Lookup(HybridBody(query, size, highlight, fragmentSize, numFragments, rankWindowSize, rankConstant), "retriever"), "rrf"), "retrievers")
      == Some(JArr([Standard(MultiMatch(query, ContentOnly)), Standard(Semantic(query))]))
  {
  }
}
