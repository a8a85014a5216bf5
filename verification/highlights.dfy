/** Highlight-fragment deduplication: `remove_html_tags` and
    `deduplicate_highlights` of the search server.

    A fragment's canonical text is the fragment with its `<mark>`/`</mark>`
    tags removed and surrounding whitespace trimmed; its coverage is the
    number of opening `<mark>` tags. Deduplication keeps, for each canonical
    text, the first fragment of greatest coverage, in the order in which the
    canonical texts first appear. */
module Highlights {

  /** The tags the search requests ask the engine to wrap matches in; the
      deduplication counts and removes exactly these. */
  const OpenTag: string := "<mark>"
  const CloseTag: string := "</mark>"

  /** One pass of `re.sub(r'</?mark>', '', s)`: scanning from the left, each
      tag that starts at the current position is skipped, every other
      character is kept. Text that only forms a tag once an inner tag is gone
      stays (see StripMarksIsOnePass). */
  function StripMarks(s: string): string
    decreases |s|
  {
    if |s| >= 6 && s[..6] == OpenTag then StripMarks(s[6..])
    else if |s| >= 7 && s[..7] == CloseTag then StripMarks(s[7..])
    else if s == [] then []
    else [s[0]] + StripMarks(s[1..])
  }

  /** `remove_html_tags`: the empty string for an empty input, otherwise
      the tags removed. */
  function RemoveHtmlTags(text: string): string
  {
    if text == [] then [] else StripMarks(text)
  }

  /** The characters Python's `str.strip()` removes: those for which
      `str.isspace()` holds. */
  predicate IsSpace(c: char)
  {
    c == ' ' || c == '\t' || c == '\n' || c == '\r' || c == '\U{000B}' || c == '\U{000C}'
    || c == '\U{001C}' || c == '\U{001D}' || c == '\U{001E}' || c == '\U{001F}'
    || c == '\U{0085}' || c == '\U{00A0}' || c == '\U{1680}'
    || ('\U{2000}' <= c <= '\U{200A}')
    || c == '\U{2028}' || c == '\U{2029}' || c == '\U{202F}' || c == '\U{205F}' || c == '\U{3000}'
  }

  /** Leading whitespace removed. */
  function TrimStart(s: string): string
  {
    if s != [] && IsSpace(s[0]) then TrimStart(s[1..]) else s
  }

  /** Trailing whitespace removed. */
  function TrimEnd(s: string): string
  {
    if s != [] && IsSpace(s[|s| - 1]) then TrimEnd(s[..|s| - 1]) else s
  }

  /** `str.strip()`. */
  function Strip(s: string): string
  {
    TrimEnd(TrimStart(s))
  }

  /** `fragment.count('<mark>')`: non-overlapping occurrences of the opening
      tag, counted from the left. Closing tags are not counted. */
  function MarkCount(s: string): nat
    decreases |s|
  {
    if |s| < 6 then 0
    else if s[..6] == OpenTag then 1 + MarkCount(s[6..])
    else MarkCount(s[1..])
  }

  /** The deduplication key: `remove_html_tags(fragment).strip()`. */
  function Canonical(fragment: string): string
  {
    Strip(RemoveHtmlTags(fragment))
  }

  /** A fragment the deduplication does not skip: non-empty, and non-empty
      once its tags are removed and it is trimmed. */
  predicate Kept(fragment: string)
  {
    fragment != [] && Canonical(fragment) != []
  }

  /** How the scan sees one fragment: skipped, or kept with its canonical
      text and its coverage. */
  datatype Scan = Skipped | Scanned(fragment: string, text: string, marks: nat)

  function ScanOf(fragment: string): Scan
  {
    if Kept(fragment) then Scanned(fragment, Canonical(fragment), MarkCount(fragment)) else Skipped
  }

  /** The three ways a fragment can be scanned, in the order the source
      tests them. */
  lemma ScanOfCases(fragment: string)
    ensures fragment == [] ==> ScanOf(fragment) == Skipped
    ensures fragment != [] && Strip(RemoveHtmlTags(fragment)) == [] ==> ScanOf(fragment) == Skipped
    ensures fragment != [] && Strip(RemoveHtmlTags(fragment)) != [] ==>
      ScanOf(fragment) == Scanned(fragment, Strip(RemoveHtmlTags(fragment)), MarkCount(fragment))
  {
  }

  /** The scan of every fragment, in order. */
  function ScanAll(fs: seq<string>): (es: seq<Scan>)
    ensures |es| == |fs|
    ensures forall i :: 0 <= i < |fs| ==> es[i] == ScanOf(fs[i])
  {
    seq(|fs|, i requires 0 <= i < |fs| => ScanOf(fs[i]))
  }

  /** Scan `e` is a kept fragment with canonical text `k`. */
  predicate Has(e: Scan, k: string)
  {
    e.Scanned? && e.text == k
  }

  /** The index of the fragment the scan retains for canonical text `k`, or
      -1 when no kept fragment has that text: a later fragment of the group
      replaces the retained one only when its coverage is strictly greater. */
  function WinnerAt(es: seq<Scan>, k: string): (w: int)
    ensures -1 <= w < |es|
    ensures w >= 0 ==> Has(es[w], k)
    decreases |es|
  {
    if es == [] then -1
    else
      var n := |es| - 1;
      var w := WinnerAt(es[..n], k);
      assert w >= 0 ==> es[..n][w] == es[w];
      if Has(es[n], k) && (w < 0 || es[n].marks > es[w].marks) then n else w
  }

  /** One more scan: how the fragment retained for `k` changes when `es[i]`
      is seen. */
  lemma WinnerStep(es: seq<Scan>, i: nat, k: string)
    requires i < |es|
    ensures var w := WinnerAt(es[..i], k);
      WinnerAt(es[..i + 1], k) ==
        if Has(es[i], k) && (w < 0 || es[i].marks > es[w].marks) then i else w
  {
    assert es[..i + 1][..i] == es[..i];
    var w := WinnerAt(es[..i], k);
    assert w >= 0 ==> es[..i][w] == es[w];
  }

  /** The distinct canonical texts of the kept fragments, in the order of
      their first occurrence: exactly the texts for which the scan retains
      a fragment. */
  function Keys(es: seq<Scan>): (ks: seq<string>)
    ensures forall a, b :: 0 <= a < b < |ks| ==> ks[a] != ks[b]
    ensures forall k :: k in ks <==> WinnerAt(es, k) >= 0
    decreases |es|
  {
    if es == [] then []
    else
      var n := |es| - 1;
      var prev := Keys(es[..n]);
      assert es[..n + 1] == es;
      assert forall k :: WinnerAt(es, k) >= 0 <==> WinnerAt(es[..n], k) >= 0 || Has(es[n], k) by {
        forall k { WinnerStep(es, n, k); }
      }
      if es[n].Scanned? && es[n].text !in prev then prev + [es[n].text] else prev
  }

  /** One more scan: how the canonical texts change when `es[i]` is seen. */
  lemma KeysStep(es: seq<Scan>, i: nat)
    requires i < |es|
    ensures Keys(es[..i + 1]) ==
      if es[i].Scanned? && es[i].text !in Keys(es[..i]) then Keys(es[..i]) + [es[i].text]
      else Keys(es[..i])
  {
    assert es[..i + 1][..i] == es[..i];
  }

  /** For each distinct canonical text, in order of first occurrence, the
      fragment retained for it. */
  function Picks(es: seq<Scan>): (r: seq<string>)
    ensures |r| == |Keys(es)|
  {
    var ks := Keys(es);
    seq(|ks|, i requires 0 <= i < |ks| => (assert ks[i] in ks; es[WinnerAt(es, ks[i])].fragment))
  }

  /** The deduplicated fragments (reference definition): for each distinct
      canonical text, in order of first occurrence, its retained fragment. */
  function Dedup(fs: seq<string>): (r: seq<string>)
    ensures |r| == |Keys(ScanAll(fs))|
    ensures forall i :: 0 <= i < |r| ==> r[i] in fs && Kept(r[i])
    ensures forall i :: 0 <= i < |r| ==> Canonical(r[i]) == Keys(ScanAll(fs))[i]
    ensures forall a, b :: 0 <= a < b < |r| ==> Canonical(r[a]) != Canonical(r[b])
  {
    var es := ScanAll(fs);
    var ks := Keys(es);
    var r := Picks(es);
    assert forall i :: 0 <= i < |r| ==> r[i] in fs && Kept(r[i]) && Canonical(r[i]) == ks[i] by {
      forall i | 0 <= i < |r| ensures r[i] in fs && Kept(r[i]) && Canonical(r[i]) == ks[i] {
        assert ks[i] in ks;
        var w := WinnerAt(es, ks[i]);
        assert r[i] == es[w].fragment;
        assert es[w] == ScanOf(fs[w]);
      }
    }
    r
  }

  /** The dictionary entry `(fragment, markCount)` for `k` after scanning
      `es[..i]` holds the fragment the scan retains and its coverage. */
  ghost predicate Retains(es: seq<Scan>, i: nat, k: string, fragment: string, markCount: nat)
    requires i <= |es|
  {
    var w := WinnerAt(es[..i], k);
    w >= 0 && fragment == es[w].fragment && markCount == es[w].marks
  }

  /** The state of the first pass after `i` fragments: `order` lists the
      canonical texts seen so far, `seen` has exactly those texts as keys,
      each with its retained fragment and coverage. */
  ghost predicate Tracks(es: seq<Scan>, i: nat, seen: map<string, (string, nat, nat)>, order: seq<string>)
    requires i <= |es|
  {
    && order == Keys(es[..i])
    && (forall k :: k in seen <==> k in order)
    && (forall k :: k in seen ==> Retains(es, i, k, seen[k].0, seen[k].1))
  }

  /** A skipped fragment changes nothing. */
  lemma TracksSkip(es: seq<Scan>, i: nat, seen: map<string, (string, nat, nat)>, order: seq<string>)
    requires i < |es| && es[i] == Skipped
    requires Tracks(es, i, seen, order)
    ensures Tracks(es, i + 1, seen, order)
  {
    KeysStep(es, i);
    forall k | k in seen ensures Retains(es, i + 1, k, seen[k].0, seen[k].1) {
      WinnerStep(es, i, k);
    }
  }

  /** A kept fragment whose text is new is recorded and its text appended. */
  lemma TracksNew(es: seq<Scan>, i: nat, seen: map<string, (string, nat, nat)>, order: seq<string>)
    requires i < |es| && es[i].Scanned? && es[i].text !in seen
    requires Tracks(es, i, seen, order)
    ensures Tracks(es, i + 1, seen[es[i].text := (es[i].fragment, es[i].marks, i)], order + [es[i].text])
  {
    KeysStep(es, i);
    var seen' := seen[es[i].text := (es[i].fragment, es[i].marks, i)];
    forall k | k in seen' ensures Retains(es, i + 1, k, seen'[k].0, seen'[k].1) {
      WinnerStep(es, i, k);
    }
  }

  /** A kept fragment whose text was seen with a smaller coverage replaces
      the retained fragment. */
  lemma TracksBetter(es: seq<Scan>, i: nat, seen: map<string, (string, nat, nat)>, order: seq<string>)
    requires i < |es| && es[i].Scanned? && es[i].text in seen && es[i].marks > seen[es[i].text].1
    requires Tracks(es, i, seen, order)
    ensures Tracks(es, i + 1, seen[es[i].text := (es[i].fragment, es[i].marks, seen[es[i].text].2)], order)
  {
    KeysStep(es, i);
    var t := es[i].text;
    assert t in order;
    var seen' := seen[t := (es[i].fragment, es[i].marks, seen[t].2)];
    forall k | k in seen' ensures Retains(es, i + 1, k, seen'[k].0, seen'[k].1) {
      WinnerStep(es, i, k);
      if k == t {
        assert Retains(es, i, t, seen[t].0, seen[t].1);
        assert WinnerAt(es[..i + 1], t) == i;
      } else {
        assert !Has(es[i], k) && seen'[k] == seen[k];
      }
    }
  }

  /** A kept fragment whose text was seen with at least its coverage
      changes nothing: ties keep the earlier fragment. */
  lemma TracksNotBetter(es: seq<Scan>, i: nat, seen: map<string, (string, nat, nat)>, order: seq<string>)
    requires i < |es| && es[i].Scanned? && es[i].text in seen && es[i].marks <= seen[es[i].text].1
    requires Tracks(es, i, seen, order)
    ensures Tracks(es, i + 1, seen, order)
  {
    KeysStep(es, i);
    assert es[i].text in order;
    forall k | k in seen ensures Retains(es, i + 1, k, seen[k].0, seen[k].1) {
      WinnerStep(es, i, k);
      assert k == es[i].text ==> Retains(es, i, k, seen[k].0, seen[k].1);
    }
  }

  /** After the whole first pass, reading `seen` in the order of `order`
      gives the retained fragments. */
  lemma TracksPicks(es: seq<Scan>, seen: map<string, (string, nat, nat)>, order: seq<string>, j: nat)
    requires Tracks(es, |es|, seen, order) && j < |order|
    ensures |Picks(es)| == |order|
    ensures order[j] in seen && seen[order[j]].0 == Picks(es)[j]
  {
    assert es[..|es|] == es;
    assert order[j] in Keys(es);
  }

  /** `deduplicate_highlights`, as the source runs it: one pass that records
      each canonical text's best fragment in a dictionary and the order of
      first sight in a list, then a comprehension that reads the dictionary
      in that order. */
  method DeduplicateHighlights(fragments: seq<string>) returns (result: seq<string>)
    ensures result == Dedup(fragments)
  {
    if fragments == [] {
      return [];
    }
    ghost var es := ScanAll(fragments);
    // canonical text -> (retained fragment, its mark count, index of first sight)
    var seen: map<string, (string, nat, nat)> := map[];
    var order: seq<string> := [];
    for i := 0 to |fragments|
      invariant Tracks(es, i, seen, order)
    {
      var fragment := fragments[i];
      assert es[i] == ScanOf(fragment);
      ScanOfCases(fragment);
      if fragment == [] {
        TracksSkip(es, i, seen, order);
        continue;
      }
      var plainText := Strip(RemoveHtmlTags(fragment));
      if plainText == [] {
        TracksSkip(es, i, seen, order);
        continue;
      }
      var markCount := MarkCount(fragment);
      if plainText in seen {
        if markCount > seen[plainText].1 {
          TracksBetter(es, i, seen, order);
          seen := seen[plainText := (fragment, markCount, seen[plainText].2)];
        } else {
          TracksNotBetter(es, i, seen, order);
        }
      } else {
        TracksNew(es, i, seen, order);
        seen := seen[plainText := (fragment, markCount, i)];
        order := order + [plainText];
      }
    }
    assert es[..|es|] == es;
    assert |Picks(es)| == |order|;
    // The comprehension's filter `plain_text in seen_texts` holds for
    // every text of the order, so it drops nothing.
    forall j | 0 <= j < |order| ensures order[j] in seen && seen[order[j]].0 == Picks(es)[j] {
      TracksPicks(es, seen, order, j);
    }
    result := seq(|order|, j requires 0 <= j < |order| && order[j] in seen => seen[order[j]].0);
    ghost var picks := Picks(es);
    assert |result| == |picks|;
    assert forall j :: 0 <= j < |result| ==> result[j] == picks[j];
    assert result == picks;
  }
}
