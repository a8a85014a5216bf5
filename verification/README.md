# Verified model of the search server's result handling and query bodies

The search server (`mcp-server/server.py`) sits between an assistant's
tool calls and an Elasticsearch cluster. This project models its
request-independent logic in Dafny and proves properties of the model:

- **Highlight deduplication** (`highlights.dfy`, `highlight_properties.dfy`).
  `remove_html_tags` strips the `<mark>`/`</mark>` tags the engine wraps
  matches in. `deduplicate_highlights` groups fragments by their canonical
  text: the fragment with its tags removed, then trimmed. It keeps the first
  fragment of greatest `<mark>` count in each group, and emits the groups in
  the order their texts first appear. The source's dictionary-and-list pass
  is a method with loop invariants. It is proved equal to a reference
  definition, and uniqueness, order, maximality, the tie rule and
  idempotence are proved about that definition.
- **Response normalisation** (`formatting.dfy`, `formatting_properties.dfy`).
  `format_search_results` turns a raw search response into
  `{total_hits, max_score, documents}`, deduplicating list-valued highlight
  fields. The source's loops are methods proved equal to reference
  definitions. Where Python would raise (a missing key, a value of the
  wrong type), the model returns the exception's class.
- **Query bodies** (`query_bodies.dfy`). These are the Query DSL bodies that
  keyword, semantic, hybrid (reciprocal rank fusion) and count requests
  send. Each is a pure function of the tool's arguments, with its shape
  stated as postconditions and lemmas.

JSON values (`json_values.dfy`) use one datatype. An object is a map from
keys to values, following section 4 of RFC 8259, where an object is an
unordered collection. Python truthiness (`if x:`) is the predicate `Falsy`.

## Model

| member | source | states |
|---|---|---|
| Highlights.StripMarks | mcp-server/server.py:74 | definition of `re.sub(r'</?mark>', '', text)` as one left-to-right pass deleting `<mark>` and `</mark>`; its properties are in `HighlightProperties.StripMarksOnlyDeletes` through `HighlightProperties.StripMarksLeavesMark` |
| Highlights.RemoveHtmlTags | mcp-server/server.py:69-75 | definition: "" for an empty text, else the tag removal; its properties are in `HighlightProperties.RemoveHtmlTagsSpec` |
| Highlights.IsSpace | mcp-server/server.py:99 | definition of the characters Python's `str.isspace` accepts, which `strip()` removes |
| Highlights.TrimStart | mcp-server/server.py:99 | definition of leading-whitespace removal; its properties are in `HighlightProperties.TrimStartSpec` |
| Highlights.TrimEnd | mcp-server/server.py:99 | definition of trailing-whitespace removal; its properties are in `HighlightProperties.TrimEndSpec` |
| Highlights.Strip | mcp-server/server.py:99 | definition of `strip()`; its properties are in `HighlightProperties.StripSpec` |
| Highlights.MarkCount | mcp-server/server.py:106 | definition of `fragment.count('<mark>')`, non-overlapping matches from the left; its properties are in `HighlightProperties.MarkCountSpec`, `HighlightProperties.MarkCountIsOccurrences` and the tag lemmas |
| Highlights.Canonical | mcp-server/server.py:99 | definition of the compared text: tags removed, then stripped |
| Highlights.Kept | mcp-server/server.py:95-103 | definition: a fragment takes part exactly when it is non-empty and its compared text is non-empty |
| Highlights.ScanOf | mcp-server/server.py:95-106 | definition of one loop step's reading of a fragment; its cases are in `Highlights.ScanOfCases` |
| JsonValues.Falsy | mcp-server/server.py:95 | definition of Python truthiness for `if not fragment` (None, False, 0, 0.0, "", [] and {} are falsy) |
| JsonValues.GetOr | mcp-server/server.py:130-132 | definition of `hit.get(key, default)`; its use is stated in `FormattingProperties.FormatHitDefaults` |
| Highlights.Dedup | mcp-server/server.py:77-120 | the result's fragments are input fragments, none empty or empty once stripped; the i-th has the i-th distinct canonical text; no two share a canonical text |
| Highlights.DeduplicateHighlights | mcp-server/server.py:77-120 | the one-pass dictionary-and-list algorithm, then the comprehension over the order list, returns exactly `Dedup` of its input (an empty input gives `[]`) |
| Highlights.ScanOfCases | mcp-server/server.py:95-106 | a fragment is skipped when empty or when its stripped, trimmed text is empty; otherwise it is keyed by that text with its opening-tag count |
| Highlights.ScanAll | mcp-server/server.py:94-106 | one scan per fragment, in input order |
| Highlights.WinnerAt | mcp-server/server.py:109-117 | the index retained for a canonical text is -1 or a kept fragment with that text; a later one replaces it only on strictly greater coverage |
| Highlights.Keys | mcp-server/server.py:113-117 | the order list has no repeats, and holds a text exactly when some fragment is retained for it |
| Highlights.Picks | mcp-server/server.py:120 | one retained fragment per listed text |
| Highlights.TracksSkip | mcp-server/server.py:95-103 | a skipped fragment leaves the dictionary and the order list as they were |
| Highlights.TracksNew | mcp-server/server.py:114-117 | a new text is recorded with its fragment and appended to the order list |
| Highlights.TracksBetter | mcp-server/server.py:109-113 | a seen text with strictly greater coverage replaces the retained fragment and keeps its position |
| Highlights.TracksNotBetter | mcp-server/server.py:109-113 | a seen text with equal or smaller coverage changes nothing (ties keep the earlier fragment) |
| Highlights.TracksPicks | mcp-server/server.py:120 | after the pass every listed text is in the dictionary, so the comprehension's filter drops nothing and it reads the retained fragments in order |
| HighlightProperties.StripMarksOnlyDeletes | mcp-server/server.py:74 | tag removal only deletes: the result is no longer than the input and each character comes from it |
| HighlightProperties.StripMarksKeepsPlainText | mcp-server/server.py:74 | text without '<' comes back unchanged |
| HighlightProperties.StripMarksRemovesEveryTag | mcp-server/server.py:74 | when every '<' starts a `<mark>` or `</mark>` tag, the result has no '<' and so no tag |
| HighlightProperties.StripMarksOpenTag | mcp-server/server.py:74 | a leading `<mark>` is removed |
| HighlightProperties.StripMarksCloseTag | mcp-server/server.py:74 | a leading `</mark>` is removed |
| HighlightProperties.StripMarksPlainPrefix | mcp-server/server.py:74 | a leading stretch without '<' is kept verbatim |
| HighlightProperties.StripMarksIsOnePass | mcp-server/server.py:74 | the substitution is a single left-to-right pass: `<` + `<mark>x</mark>` + `>` becomes `<x>` |
| HighlightProperties.StripMarksLeavesMark | mcp-server/server.py:69-75 | `<<mark>mark</mark>>` comes out as `<mark>`, so the output can hold a tag |
| HighlightProperties.RemoveHtmlTagsSpec | mcp-server/server.py:69-75 | an empty input gives ""; the output is never longer; plain text is unchanged; with '<' only in tags, no '<' remains |
| HighlightProperties.TrimStartSpec | mcp-server/server.py:99 | leading trimming removes whitespace only and stops at the first non-whitespace character |
| HighlightProperties.TrimEndSpec | mcp-server/server.py:99 | trailing trimming removes whitespace only and stops at the last non-whitespace character |
| HighlightProperties.StripSpec | mcp-server/server.py:99 | `strip()` returns the stretch between leading and trailing whitespace; it is empty exactly when the text is all whitespace |
| HighlightProperties.MarkCountSpec | mcp-server/server.py:106 | each counted `<mark>` takes six characters of its own; text without '<' counts 0 |
| HighlightProperties.MarkCountOpenTag | mcp-server/server.py:106 | a leading `<mark>` adds exactly one |
| HighlightProperties.MarkCountCloseTag | mcp-server/server.py:106 | a leading `</mark>` adds nothing: closing tags are not counted |
| HighlightProperties.Occurrences | mcp-server/server.py:106 | reference definition: the number of positions at which `<mark>` starts, overlapping ones included |
| HighlightProperties.MarkCountPlainStretch | mcp-server/server.py:106 | a leading stretch without '<' adds nothing to the count |
| HighlightProperties.MarkCountIsOccurrences | mcp-server/server.py:106 | the non-overlapping count from the left equals the number of positions at which `<mark>` starts, so it misses no occurrence |
| HighlightProperties.FirstAt | mcp-server/server.py:116-117 | the first kept fragment with a given text, or -1: nothing before it has that text |
| HighlightProperties.WinnerExactlyWhenPresent | mcp-server/server.py:109-117 | a fragment is retained for a text, and the text is in the order list, exactly when the text occurs |
| HighlightProperties.DedupEmptyExactlyWhenNothingKept | mcp-server/server.py:88-103 | the result is `[]` exactly when every fragment is empty or empty once stripped (an empty input included) |
| HighlightProperties.DedupCoversEveryText | mcp-server/server.py:94-120 | every kept fragment's canonical text appears in the result |
| HighlightProperties.KeysInFirstOccurrenceOrder | mcp-server/server.py:113-117 | the order list follows first occurrences: strictly increasing first positions |
| HighlightProperties.WinnerIsFirstMaximum | mcp-server/server.py:106-113 | the retained fragment has the greatest coverage in its group, and every earlier member has strictly less |
| HighlightProperties.DedupSpec | mcp-server/server.py:77-120 | whole statement: fragments verbatim from the input, deduplicated, in first-occurrence order of their texts, each the first of greatest coverage in its group, even when that is a later occurrence |
| HighlightProperties.KeysOfDistinctScans | mcp-server/server.py:109-117 | when every fragment is kept with its own text, the order list is all the texts in order |
| HighlightProperties.KeysOfDeduplicated | mcp-server/server.py:109-117 | a deduplicated list's distinct texts are its canonical texts, one per fragment |
| HighlightProperties.DedupOfDeduplicated | mcp-server/server.py:77-120 | a deduplicated list comes back unchanged |
| HighlightProperties.DedupIdempotent | mcp-server/server.py:77-120 | deduplicating twice equals deduplicating once |
| Formatting.Index | mcp-server/server.py:149-150 | definition of `d[k]`: the value, KeyError for a missing key, TypeError when `d` is not a dict; its use is stated in `FormattingProperties.FormatSpecShape` |
| Formatting.HitList | mcp-server/server.py:128 | definition of iterating `results["hits"]["hits"]`: a list gives its items; a dict or a string gives strings (its keys, its characters), on which the first `.get` raises AttributeError, so only an empty one yields nothing and succeeds; anything else raises TypeError; its use is stated in `FormattingProperties.FormatSpecShape` |
| Formatting.FragmentStrings | mcp-server/server.py:95-96 | definition of the strings the loop compares: falsy items are skipped, a truthy non-string raises TypeError in `re.sub` (line 74); its properties are in `FormattingProperties.FragmentStringsSpec` |
| Formatting.Unusable | mcp-server/server.py:95-99 | definition: a truthy item that is not a string, the one item `re.sub` rejects |
| Formatting.FieldValue | mcp-server/server.py:140-143 | definition: a list is deduplicated, any other value copied; its properties are in `FormattingProperties.ListFieldDeduplicated` |
| Formatting.HighlightSpec | mcp-server/server.py:138-144 | definition of the deduplicated highlight map; its properties are in `FormattingProperties.HighlightSpecFields` |
| Formatting.FormatHit | mcp-server/server.py:129-144 | definition of one formatted hit; its properties are in `FormattingProperties.FormatHitDefaults`, `FormattingProperties.FormatHitHighlight` and `FormattingProperties.FormatHitFails` |
| Formatting.FormatHits | mcp-server/server.py:127-146 | definition of the formatted hit list; its properties are in `FormattingProperties.FormatHitsOnePerHit` and `Formatting.FormatHitsFirstError` |
| Formatting.FormatSpec | mcp-server/server.py:122-153 | definition of the formatted response; its properties are in `FormattingProperties.FormatSpecShape` and `FormattingProperties.EngineResponseFormats` |
| Formatting.DeduplicateHighlightFields | mcp-server/server.py:138-143 | the loop over highlight fields builds exactly the reference map (each list deduplicated, other values copied), or fails as the reference does |
| Formatting.FormatSearchResults | mcp-server/server.py:122-153 | the loop over hits computes exactly the reference `FormatSpec`, error cases included |
| Formatting.FormatHitsFirstError | mcp-server/server.py:128-146 | once a prefix of the hits fails, the whole list fails with the same error |
| FormattingProperties.FragmentPositions | mcp-server/server.py:94-96 | the compared strings are taken from strictly increasing positions of the list, which are exactly the positions of its non-empty strings |
| FormattingProperties.FragmentStringsSpec | mcp-server/server.py:95-99 | a fragment list fails exactly when it holds a truthy non-string; otherwise the compared strings are its non-empty strings, all of them, one per position and in list order |
| FormattingProperties.ListFieldDeduplicated | mcp-server/server.py:140-141 | a list of strings is replaced by a deduplicated list of its own fragments |
| FormattingProperties.HighlightSpecFields | mcp-server/server.py:136-144 | the deduplicated highlight has the same fields; lists are deduplicated, other values copied; it fails exactly when a list holds a truthy non-string |
| FormattingProperties.FormatHitDefaults | mcp-server/server.py:129-136 | the id defaults to None, the score to 0 and the source to `{}`; `highlighted_content` is present exactly when the hit has `highlight` |
| FormattingProperties.FormatHitHighlight | mcp-server/server.py:136-144 | `highlighted_content` is the deduplicated highlight map |
| FormattingProperties.FormatHitFails | mcp-server/server.py:128-144 | a hit fails exactly when it is not a dict, its highlight is not a dict, or a highlight list holds a truthy non-string |
| FormattingProperties.FormatHitsOnePerHit | mcp-server/server.py:127-146 | one document per hit in the same order; the list fails exactly when some hit fails |
| FormattingProperties.FormatSpecShape | mcp-server/server.py:122-153 | without `hits` the response is returned unchanged; otherwise exactly `total_hits`, `max_score` and `documents`, copied from the response, one document per hit in order |
| FormattingProperties.EngineResponseFormats | mcp-server/server.py:122-153 | a well-formed engine response (list of dict hits, total with a value, max score, string fragments) always formats, one document per hit |
| QueryBodies.KeywordBody | mcp-server/server.py:182-205 | `multi_match` over content and file name, the size, and either the highlight request with `_source` without content or no highlight with content in `_source`; exactly those keys |
| QueryBodies.SemanticBody | mcp-server/server.py:247-294 | with highlight: the two-clause `bool.should`, highlight request and restricted `_source`; without: a single `semantic` query, no highlight and content in `_source`; exactly those keys |
| QueryBodies.HybridBody | mcp-server/server.py:340-385 | the `rrf` retriever, the size copied, and highlight and `_source` as in keyword search; exactly those keys |
| QueryBodies.CountBody | mcp-server/server.py:419-428 | `{}` exactly when the query is absent or empty; otherwise only a `multi_match` over content and file name |
| QueryBodies.ClauseShapes | mcp-server/server.py:247-294 | each clause searches its fields for the query (the plain clauses are also those of keyword, hybrid and count requests); only the clauses of highlighted semantic search carry a boost, 2.0 on the semantic one and 0.5 on the keyword one |
| QueryBodies.HighlightRequestShape | mcp-server/server.py:193-202 | the highlight asks for content fragments of the given size and number, wrapped in `<mark>`/`</mark>` |
| QueryBodies.FusionShape | mcp-server/server.py:341-368 | exactly two retrievers, keyword on content first, semantic second, for the same query; rank window and constant copied |
| QueryBodies.EitherClauseShape | mcp-server/server.py:250-269 | the highlighted semantic query is `bool.should` of the boosted semantic clause, then the boosted keyword clause |
| QueryBodies.ContentReturnedExactlyWithoutHighlight | mcp-server/server.py:192-205 | for keyword search and likewise semantic (lines 270-292) and hybrid search (lines 372-385): a highlight key exactly when asked for, and `content` in `_source` exactly when not |
| QueryBodies.KeywordAndHybridHighlightAlike | mcp-server/server.py:372-385 | hybrid search sends the highlight and `_source` of keyword search (lines 192-205): keyword and hybrid search send the same highlight and `_source`, whatever the query and size |
| QueryBodies.CountQueryIsKeywordQuery | mcp-server/server.py:419-428 | a non-empty count query is the query keyword search sends (lines 182-188); the keyword retriever of hybrid search (lines 344-352) searches the content only |

## Left out

- `elasticsearch_request` and `get_elasticsearch_client` (the HTTP client, the method whitelist and its `ValueError`): network I/O.
- The async tool wrappers, `ctx.info`/`ctx.error` logging, the `try`/`except` re-raise paths and the MCP decorators: framework plumbing. A builder's body is sent and the response formatted; the model keeps the two steps as separate functions.
- The result of `count_documents` (`{"index", "count", "query"}`) copies the engine's `count`: a pass-through of an engine response.
- `list_indices`, `health_check`, `get_document`, `get_index_info`: pass-throughs of engine responses.
- `get_search_stats`: float division and rounding. `server_health`: reads the event-loop clock. `cleanup` and the `__main__` block: process lifecycle.
- `test_mcp_server.py` is not part of this model: it drives a live server and checks nothing.
- Dictionary key order: objects are maps, so the insertion order Python keeps (and the order of keys in a serialised body) is not modelled. Iterating a highlight map is modelled as visiting the fields in any order; the result does not depend on it.
- Scores and boosts are `real` values that are only copied, never computed with. Integer arguments (`size`, `fragment_size`, ...) are unbounded integers copied into the body.
- Regular expressions in general: `re.sub(r'</?mark>', '', text)` is modelled as one left-to-right pass removing the two literal tags.
- RemoveHtmlTagsSpec: states "no `<mark>` or `</mark>` left" only when every '<' of the input belongs to a tag. In general the one-pass substitution can leave a tag, because `<<mark>mark</mark>>` becomes `<mark>` (StripMarksLeavesMark). That text's tag-like characters are the document's own.
- `format_search_results` when `hits.hits` is a dict or a string: Python iterates its keys or characters and the first `.get` raises. The model returns AttributeError for a non-empty one and an empty document list for an empty one.
- `format_search_results` when `hits.max_score` is absent: the code raises KeyError, which the model follows.
- Whitespace for `strip()` is a fixed set of characters (`IsSpace`): the ASCII whitespace and the Unicode space separators, line and paragraph separators that `str.isspace()` accepts.
