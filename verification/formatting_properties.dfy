/** What `format_search_results` promises, proved about the reference
    definitions in module Formatting. */
module FormattingProperties {
  import opened JsonValues
  import opened Highlights
  import opened HighlightProperties
  import opened Formatting

  // ---------------------------------------------------------------------
  // Fragment lists

  /** `idx` lists, in increasing order, exactly the positions of the
      non-empty strings of `items`, and `ss` holds those strings. */
  ghost predicate StringPositions(items: seq<Json>, ss: seq<string>, idx: seq<int>)
  {
    && |idx| == |ss|
    && (forall j :: 0 <= j < |idx| ==> 0 <= idx[j] < |items| && items[idx[j]] == JStr(ss[j]) && ss[j] != [])
    && (forall a, b :: 0 <= a < b < |idx| ==> idx[a] < idx[b])
    && (forall i :: 0 <= i < |items| && items[i].JStr? && items[i].s != [] ==> i in idx)
  }

  /** The positions from which the strings of a usable list are taken. */
  lemma {:induction false} FragmentPositions(items: seq<Json>) returns (idx: seq<int>)
    requires FragmentStrings(items).Some?
    ensures StringPositions(items, FragmentStrings(items).value, idx)
    decreases |items|
  {
    if items == [] {
      idx := [];
    } else {
      var n := |items| - 1;
      var pre := items[..n];
      var ss := FragmentStrings(pre).value;
      var pidx := FragmentPositions(pre);
      assert forall i :: 0 <= i < n ==> items[i] == pre[i];
      if Falsy(items[n]) {
        idx := pidx;
      } else {
        idx := pidx + [n];
        assert FragmentStrings(items).value == ss + [items[n].s];
      }
    }
  }

  /** The strings taken from a highlight list: the list fails exactly when
      it holds a truthy non-string; otherwise the strings are the non-empty
      strings of the list, each once per position and in list order. */
  lemma {:induction false} FragmentStringsSpec(items: seq<Json>)
    ensures FragmentStrings(items).None? <==> exists i :: 0 <= i < |items| && Unusable(items[i])
    ensures FragmentStrings(items).Some? ==>
      var ss := FragmentStrings(items).value;
      && |ss| <= |items|
      && (forall j :: 0 <= j < |ss| ==> ss[j] != [] && JStr(ss[j]) in items)
      && (forall i :: 0 <= i < |items| && items[i].JStr? && items[i].s != [] ==> items[i].s in ss)
      && exists idx :: StringPositions(items, ss, idx)
    decreases |items|
  {
    if items != [] {
      var n := |items| - 1;
      var pre := items[..n];
      FragmentStringsSpec(pre);
      assert items == pre + [items[n]];
      if FragmentStrings(pre).None? {
        var i :| 0 <= i < |pre| && Unusable(pre[i]);
        assert Unusable(items[i]);
      } else if FragmentStrings(items).None? {
        assert Unusable(items[n]);
      } else {
        assert forall i :: 0 <= i < n ==> items[i] == pre[i];
        assert !Unusable(items[n]);
      }
    }
    if FragmentStrings(items).Some? {
      var idx := FragmentPositions(items);
    }
  }

  /** A list with no truthy non-string is deduplicated as the list of its
      strings: the result is a deduplicated list of fragments of the hit. */
  lemma ListFieldDeduplicated(v: Json)
    requires v.JArr? && forall i :: 0 <= i < |v.items| ==> !Unusable(v.items[i])
    ensures FieldValue(v).Ok?
    ensures var ss := FragmentStrings(v.items).value;
      && FieldValue(v) == Ok(StrList(Dedup(ss)))
      && Deduplicated(Dedup(ss))
      && forall j :: 0 <= j < |Dedup(ss)| ==> JStr(Dedup(ss)[j]) in v.items
  {
    FragmentStringsSpec(v.items);
    var ss := FragmentStrings(v.items).value;
    DedupSpec(ss);
    forall j | 0 <= j < |Dedup(ss)| ensures JStr(Dedup(ss)[j]) in v.items {
      var s := Dedup(ss)[j];
      assert s in ss;
      var t :| 0 <= t < |ss| && ss[t] == s;
    }
  }

  // ---------------------------------------------------------------------
  // The highlight map

  /** The deduplicated highlight has the same fields as the hit's
      highlight; list values are deduplicated and every other value is
      copied unchanged. It fails exactly when some list holds a truthy
      non-string. */
  lemma HighlightSpecFields(highlight: map<string, Json>)
    ensures HighlightSpec(highlight).Err? <==>
      exists k :: k in highlight && highlight[k].JArr? &&
        exists i :: 0 <= i < |highlight[k].items| && Unusable(highlight[k].items[i])
    ensures HighlightSpec(highlight).Ok? ==>
      var d := HighlightSpec(highlight).value;
      && d.Keys == highlight.Keys
      && (forall k :: k in highlight && !highlight[k].JArr? ==> d[k] == highlight[k])
      && (forall k :: k in highlight && highlight[k].JArr? ==>
            d[k] == StrList(Dedup(FragmentStrings(highlight[k].items).value)))
  {
    forall k | k in highlight && highlight[k].JArr?
      ensures FieldValue(highlight[k]).Err? <==>
        exists i :: 0 <= i < |highlight[k].items| && Unusable(highlight[k].items[i])
    {
      FragmentStringsSpec(highlight[k].items);
    }
  }

  // ---------------------------------------------------------------------
  // One hit

  /** A formatted hit has the id (None when absent), the score (0 when
      absent) and the source (`{}` when absent), and has
      `highlighted_content` exactly when the raw hit has `highlight`. */
  lemma FormatHitDefaults(hit: Json)
    requires FormatHit(hit).Ok?
    ensures hit.JObj?
    ensures var f := hit.fields; var doc := FormatHit(hit).value;
      && doc.JObj?
      && Lookup(doc, "document_id") == Some(if "_id" in f then f["_id"] else JNull)
      && Lookup(doc, "score") == Some(if "_score" in f then f["_score"] else JInt(0))
      && Lookup(doc, "source") == Some(if "_source" in f then f["_source"] else JObj(map[]))
      && ("highlighted_content" in doc.fields <==> "highlight" in f)
      && doc.fields.Keys <= {"document_id", "score", "source", "highlighted_content"}
  {
  }

  /** When the raw hit has a highlight, the formatted hit carries it
      deduplicated: same fields, lists deduplicated, other values copied. */
  lemma FormatHitHighlight(hit: Json)
    requires FormatHit(hit).Ok? && hit.JObj? && "highlight" in hit.fields
    ensures hit.fields["highlight"].JObj?
    ensures Lookup(FormatHit(hit).value, "highlighted_content") == Some(JObj(HighlightSpec(hit.fields["highlight"].fields).value))
  {
  }

  /** A hit fails to format exactly when it is not a dict, or its highlight
      is not a dict, or a highlight list holds a truthy non-string. */
  lemma FormatHitFails(hit: Json)
    ensures FormatHit(hit).Err? <==>
      || !hit.JObj?
      || ("highlight" in hit.fields && !hit.fields["highlight"].JObj?)
      || ("highlight" in hit.fields && hit.fields["highlight"].JObj? &&
          HighlightSpec(hit.fields["highlight"].fields).Err?)
  {
  }

  // ---------------------------------------------------------------------
  // All hits

  /** Formatting the hits keeps one document per hit, in the same order,
      and fails exactly when one hit fails. */
  lemma {:induction false} FormatHitsOnePerHit(hits: seq<Json>)
    ensures FormatHits(hits).Ok? <==> forall i :: 0 <= i < |hits| ==> FormatHit(hits[i]).Ok?
    ensures FormatHits(hits).Ok? ==>
      |FormatHits(hits).value| == |hits| &&
      forall i :: 0 <= i < |hits| ==> FormatHit(hits[i]) == Ok(FormatHits(hits).value[i])
    decreases |hits|
  {
    if hits != [] {
      var n := |hits| - 1;
      var pre := hits[..n];
      FormatHitsOnePerHit(pre);
      assert forall i :: 0 <= i < n ==> hits[i] == pre[i];
    }
  }

  /** The formatted response. Without `hits` the response comes back
      unchanged. Otherwise it has exactly `total_hits`, `max_score` and
      `documents`; the first two are copied from `hits.total.value` and
      `hits.max_score`, and `documents` has one formatted document per raw
      hit, in order. */
  lemma FormatSpecShape(results: map<string, Json>)
    ensures "hits" !in results ==> FormatSpec(results) == Ok(JObj(results))
    ensures "hits" in results && FormatSpec(results).Ok? ==>
      var hits := results["hits"];
      var out := FormatSpec(results).value;
      && hits.JObj? && "hits" in hits.fields && "max_score" in hits.fields
      && "total" in hits.fields && hits.fields["total"].JObj? && "value" in hits.fields["total"].fields
      && HitList(hits.fields["hits"]).Ok?
      && out.JObj? && out.fields.Keys == {"total_hits", "max_score", "documents"}
      && out.fields["total_hits"] == hits.fields["total"].fields["value"]
      && out.fields["max_score"] == hits.fields["max_score"]
      && var items := HitList(hits.fields["hits"]).value;
         && out.fields["documents"].JArr?
         && |out.fields["documents"].items| == |items|
         && forall i :: 0 <= i < |items| ==> FormatHit(items[i]) == Ok(out.fields["documents"].items[i])
  {
    if "hits" in results && FormatSpec(results).Ok? {
      var hits := results["hits"];
      FormatHitsOnePerHit(HitList(hits.fields["hits"]).value);
    }
  }

  /** A hit as the engine returns it: a dict whose highlight, when there
      is one, maps each field to a list of strings or to another value. */
  predicate EngineHit(hit: Json)
  {
    && hit.JObj?
    && ("highlight" in hit.fields ==>
          && hit.fields["highlight"].JObj?
          && forall k :: k in hit.fields["highlight"].fields && hit.fields["highlight"].fields[k].JArr? ==>
               forall i :: 0 <= i < |hit.fields["highlight"].fields[k].items| ==>
                 hit.fields["highlight"].fields[k].items[i].JStr?)
  }

  /** A response as the engine returns it (a list of engine hits, a total
      with a value, a maximum score) always formats, with one document per
      hit. */
  lemma EngineResponseFormats(results: map<string, Json>)
    requires "hits" in results && results["hits"].JObj?
    requires var hits := results["hits"].fields;
      && "hits" in hits && hits["hits"].JArr?
      && (forall i :: 0 <= i < |hits["hits"].items| ==> EngineHit(hits["hits"].items[i]))
      && "total" in hits && hits["total"].JObj? && "value" in hits["total"].fields
      && "max_score" in hits
    ensures FormatSpec(results).Ok?
    ensures |FormatSpec(results).value.fields["documents"].items| == |results["hits"].fields["hits"].items|
  {
    var items := results["hits"].fields["hits"].items;
    forall i | 0 <= i < |items| ensures FormatHit(items[i]).Ok? {
      var hit := items[i];
      assert EngineHit(hit);
      if "highlight" in hit.fields {
        HighlightSpecFields(hit.fields["highlight"].fields);
      }
    }
    FormatHitsOnePerHit(items);
    FormatSpecShape(results);
  }
}
