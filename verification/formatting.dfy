/** `format_search_results`: the search server's normalisation of a raw
    search response into `{total_hits, max_score, documents}`, with every
    list of highlight fragments deduplicated.

    Where the source would raise (a missing key, a value of the wrong
    type), the model returns the Python exception's class instead. */
module Formatting {
  import opened JsonValues
  import opened Highlights

  /** The exceptions the formatting can raise. */
  datatype PyError = KeyError | TypeError | AttributeError

  datatype Result<T> = Ok(value: T) | Err(error: PyError)

  /** `v[key]`: a dict without the key raises KeyError; a value that is not
      a dict cannot be subscripted by a string and raises TypeError. */
  function Index(v: Json, key: string): Result<Json>
  {
    if !v.JObj? then Err(TypeError)
    else if key in v.fields then Ok(v.fields[key])
    else Err(KeyError)
  }

  /** The elements `for hit in v` visits, as far as they can be hits. A
      list gives its items. A dict or a string gives strings (its keys, its
      characters), and the first `hit.get` on a string raises
      AttributeError, so only an empty one gets through. Other values are
      not iterable (TypeError). */
  function HitList(v: Json): Result<seq<Json>>
  {
    match v
    case JArr(items) => Ok(items)
    case JObj(fields) => if fields == map[] then Ok([]) else Err(AttributeError)
    case JStr(s) => if s == [] then Ok([]) else Err(AttributeError)
    case _ => Err(TypeError)
  }

  /** The strings `deduplicate_highlights` compares when given the list
      `items`: falsy items are skipped; a truthy item that is not a string
      makes the tag removal raise TypeError (`None` here). */
  function FragmentStrings(items: seq<Json>): Option<seq<string>>
    decreases |items|
  {
    if items == [] then Some([])
    else
      var n := |items| - 1;
      match FragmentStrings(items[..n])
      case None => None
      case Some(ss) =>
        if Falsy(items[n]) then Some(ss)
        else if items[n].JStr? then Some(ss + [items[n].s])
        else None
  }

  /** A truthy item that is not a string. */
  predicate Unusable(v: Json)
  {
    !Falsy(v) && !v.JStr?
  }

  /** What one highlight field becomes: a list is deduplicated, any other
      value is copied. */
  function FieldValue(v: Json): Result<Json>
  {
    if v.JArr? then
      match FragmentStrings(v.items)
      case None => Err(TypeError)
      case Some(ss) => Ok(StrList(Dedup(ss)))
    else Ok(v)
  }

  /** The deduplicated highlight map (reference definition): every field
      with its value deduplicated, or TypeError when some list cannot be. */
  function HighlightSpec(highlight: map<string, Json>): Result<map<string, Json>>
  {
    if exists k :: k in highlight && FieldValue(highlight[k]).Err? then Err(TypeError)
    else Ok(map k | k in highlight :: FieldValue(highlight[k]).value)
  }

  /** One formatted hit (reference definition): the id (None when absent),
      the score (0 when absent), the source (`{}` when absent) and, when the
      hit has a highlight, the deduplicated highlight. */
  function FormatHit(hit: Json): Result<Json>
  {
    if !hit.JObj? then Err(AttributeError)
    else
      var f := hit.fields;
      var base := map[
        "document_id" := GetOr(f, "_id", JNull),
        "score" := GetOr(f, "_score", JInt(0)),
        "source" := GetOr(f, "_source", JObj(map[]))];
      if "highlight" !in f then Ok(JObj(base))
      else if !f["highlight"].JObj? then Err(AttributeError)
      else match HighlightSpec(f["highlight"].fields)
        case Err(e) => Err(e)
        case Ok(d) => Ok(JObj(base["highlighted_content" := JObj(d)]))
  }

  /** Every hit formatted, in order; the first hit that fails decides the
      error. */
  function FormatHits(hits: seq<Json>): Result<seq<Json>>
    decreases |hits|
  {
    if hits == [] then Ok([])
    else
      var n := |hits| - 1;
      match FormatHits(hits[..n])
      case Err(e) => Err(e)
      case Ok(docs) =>
        match FormatHit(hits[n])
        case Err(e) => Err(e)
        case Ok(doc) => Ok(docs + [doc])
  }

  /** The formatted response (reference definition). */
  function FormatSpec(results: map<string, Json>): Result<Json>
  {
    if "hits" !in results then Ok(JObj(results))
    else
      var hits := results["hits"];
      match Index(hits, "hits")
      case Err(e) => Err(e)
      case Ok(raw) =>
        match HitList(raw)
        case Err(e) => Err(e)
        case Ok(items) =>
          match FormatHits(items)
          case Err(e) => Err(e)
          case Ok(docs) =>
            match Index(hits, "total")
            case Err(e) => Err(e)
            case Ok(total) =>
              match Index(total, "value")
              case Err(e) => Err(e)
              case Ok(totalHits) =>
                match Index(hits, "max_score")
                case Err(e) => Err(e)
                case Ok(maxScore) =>
                  Ok(JObj(map["total_hits" := totalHits, "max_score" := maxScore, "documents" := JArr(docs)]))
  }

  /** Once a prefix of the hits fails, the whole list fails the same way. */
  lemma {:induction false} FormatHitsFirstError(hits: seq<Json>, i: nat)
    requires i <= |hits| && FormatHits(hits[..i]).Err?
    ensures FormatHits(hits) == FormatHits(hits[..i])
    decreases |hits| - i
  {
    if i < |hits| {
      assert hits[..i + 1][..i] == hits[..i];
      FormatHitsFirstError(hits, i + 1);
    } else {
      assert hits[..i] == hits;
    }
  }

  /** The inner loop of `format_search_results`: each highlight field gets
      its list deduplicated, or is copied. Fields are visited in any order;
      the result does not depend on it. */
  method DeduplicateHighlightFields(highlight: map<string, Json>) returns (r: Result<map<string, Json>>)
    ensures r == HighlightSpec(highlight)
  {
    var deduplicated: map<string, Json> := map[];
    var todo := highlight.Keys;
    while todo != {}
      invariant todo <= highlight.Keys
      invariant deduplicated.Keys == highlight.Keys - todo
      invariant forall k :: k in deduplicated ==> FieldValue(highlight[k]) == Ok(deduplicated[k])
      decreases todo
    {
      var field :| field in todo;
      var fragments := highlight[field];
      if fragments.JArr? {
        var strings := FragmentStrings(fragments.items);
        if strings.None? {
          assert FieldValue(highlight[field]).Err?;
          return Err(TypeError);
        }
        var kept := DeduplicateHighlights(strings.value);
        deduplicated := deduplicated[field := StrList(kept)];
      } else {
        deduplicated := deduplicated[field := fragments];
      }
      todo := todo - {field};
    }
    assert deduplicated == map k | k in highlight :: FieldValue(highlight[k]).value;
    return Ok(deduplicated);
  }

  /** `format_search_results`, as the source runs it: one pass over the
      hits that builds each formatted hit and appends it. */
  method FormatSearchResults(results: map<string, Json>) returns (r: Result<Json>)
    ensures r == FormatSpec(results)
  {
    if "hits" !in results {
      return Ok(JObj(results));
    }
    var raw := Index(results["hits"], "hits");
    if raw.Err? {
      return Err(raw.error);
    }
    var iterated := HitList(raw.value);
    if iterated.Err? {
      return Err(iterated.error);
    }
    var hits := iterated.value;
    var formattedHits: seq<Json> := [];
    for i := 0 to |hits|
      invariant FormatHits(hits[..i]) == Ok(formattedHits)
    {
      assert hits[..i + 1][..i] == hits[..i];
      var hit := hits[i];
      if !hit.JObj? {
        FormatHitsFirstError(hits, i + 1);
        return Err(AttributeError);
      }
      var formattedHit := map[
        "document_id" := GetOr(hit.fields, "_id", JNull),
        "score" := GetOr(hit.fields, "_score", JInt(0)),
        "source" := GetOr(hit.fields, "_source", JObj(map[]))];
      if "highlight" in hit.fields {
        var highlight := hit.fields["highlight"];
        if !highlight.JObj? {
          FormatHitsFirstError(hits, i + 1);
          return Err(AttributeError);
        }
        var deduplicated := DeduplicateHighlightFields(highlight.fields);
        if deduplicated.Err? {
          FormatHitsFirstError(hits, i + 1);
          return Err(deduplicated.error);
        }
        formattedHit := formattedHit["highlighted_content" := JObj(deduplicated.value)];
      }
      formattedHits := formattedHits + [JObj(formattedHit)];
    }
    assert hits[..|hits|] == hits;
    var total := Index(results["hits"], "total");
    if total.Err? {
      return Err(total.error);
    }
    var totalHits := Index(total.value, "value");
    if totalHits.Err? {
      return Err(totalHits.error);
    }
    var maxScore := Index(results["hits"], "max_score");
    if maxScore.Err? {
      return Err(maxScore.error);
    }
    return Ok(JObj(map["total_hits" := totalHits.value, "max_score" := maxScore.value, "documents" := JArr(formattedHits)]));
  }
}
