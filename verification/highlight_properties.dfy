/** What `remove_html_tags`, `str.strip`, the mark count and
    `deduplicate_highlights` promise, proved about the definitions in
    module Highlights. */
module HighlightProperties {
  import opened Highlights

  // ---------------------------------------------------------------------
  // Tag removal

  /** Tag removal only deletes characters: the result is no longer than the
      input and every character of it comes from the input. */
  lemma {:induction false} StripMarksOnlyDeletes(s: string)
    ensures |StripMarks(s)| <= |s|
    ensures forall i :: 0 <= i < |StripMarks(s)| ==> StripMarks(s)[i] in s
    decreases |s|
  {
    if |s| >= 6 && s[..6] == OpenTag {
      StripMarksOnlyDeletes(s[6..]);
      assert forall c :: c in s[6..] ==> c in s;
    } else if |s| >= 7 && s[..7] == CloseTag {
      StripMarksOnlyDeletes(s[7..]);
      assert forall c :: c in s[7..] ==> c in s;
    } else if s != [] {
      StripMarksOnlyDeletes(s[1..]);
      assert forall c :: c in s[1..] ==> c in s;
    }
  }

  /** Text without any '<' holds no tag and is returned unchanged. */
  lemma {:induction false} StripMarksKeepsPlainText(s: string)
    requires forall i :: 0 <= i < |s| ==> s[i] != '<'
    ensures StripMarks(s) == s
    decreases |s|
  {
    if s != [] {
      assert s[0] != '<';
      assert |s| >= 6 ==> s[..6][0] == s[0];
      assert |s| >= 7 ==> s[..7][0] == s[0];
      StripMarksKeepsPlainText(s[1..]);
      assert s == [s[0]] + s[1..];
    }
  }

  /** Every '<' of `s` opens a `<mark>` or `</mark>` tag at that position:
      the engine's own markup, with no '<' of the document's text. */
  predicate AngleOnlyInTags(s: string)
  {
    forall i :: 0 <= i < |s| && s[i] == '<' ==>
      (i + 6 <= |s| && s[i..i + 6] == OpenTag) || (i + 7 <= |s| && s[i..i + 7] == CloseTag)
  }

  lemma AngleOnlyInTagsSuffix(s: string, d: nat)
    requires d <= |s| && AngleOnlyInTags(s)
    ensures AngleOnlyInTags(s[d..])
  {
    var t := s[d..];
    forall i | 0 <= i < |t| && t[i] == '<'
      ensures (i + 6 <= |t| && t[i..i + 6] == OpenTag) || (i + 7 <= |t| && t[i..i + 7] == CloseTag)
    {
      assert s[d + i] == '<';
      if d + i + 6 <= |s| && s[d + i..d + i + 6] == OpenTag {
        assert t[i..i + 6] == s[d + i..d + i + 6];
      } else {
        assert t[i..i + 7] == s[d + i..d + i + 7];
      }
    }
  }

  /** When the only '<' of a fragment are those of its tags, removing the
      tags leaves no '<' at all, so in particular no `<mark>` or `</mark>`. */
  lemma {:induction false} StripMarksRemovesEveryTag(s: string)
    requires AngleOnlyInTags(s)
    ensures forall i :: 0 <= i < |StripMarks(s)| ==> StripMarks(s)[i] != '<'
    decreases |s|
  {
    if |s| >= 6 && s[..6] == OpenTag {
      AngleOnlyInTagsSuffix(s, 6);
      StripMarksRemovesEveryTag(s[6..]);
    } else if |s| >= 7 && s[..7] == CloseTag {
      AngleOnlyInTagsSuffix(s, 7);
      StripMarksRemovesEveryTag(s[7..]);
    } else if s != [] {
      assert |s| >= 6 ==> s[0..6] == s[..6];
      assert |s| >= 7 ==> s[0..7] == s[..7];
      assert s[0] != '<';
      AngleOnlyInTagsSuffix(s, 1);
      StripMarksRemovesEveryTag(s[1..]);
    }
  }

  /** A leading opening tag is removed. */
  lemma StripMarksOpenTag(s: string)
    ensures StripMarks(OpenTag + s) == StripMarks(s)
  {
    assert (OpenTag + s)[..6] == OpenTag;
    assert (OpenTag + s)[6..] == s;
  }

  /** A leading closing tag is removed. */
  lemma StripMarksCloseTag(s: string)
    ensures StripMarks(CloseTag + s) == StripMarks(s)
  {
    var t := CloseTag + s;
    assert t[..6][1] == '/' != OpenTag[1];
    assert t[..7] == CloseTag;
    assert t[7..] == s;
  }

  /** A leading character other than '<' is kept. */
  lemma StripMarksPlainHead(t: string)
    requires t != [] && t[0] != '<'
    ensures StripMarks(t) == [t[0]] + StripMarks(t[1..])
  {
    assert t[0] != OpenTag[0] && t[0] != CloseTag[0];
    assert |t| >= 6 ==> t[..6][0] == t[0];
    assert |t| >= 7 ==> t[..7][0] == t[0];
  }

  /** Moving one element across a concatenation. */
  lemma ShiftOne(a: string, p: string, c: char, b: string, r: string)
    requires a == p + b && b == [c] + r
    ensures a == (p + [c]) + r
  {
  }

  /** One more character of a plain stretch: it is kept. */
  lemma StripMarksStretchStep(t: string, k: nat)
    requires 0 < k <= |t| && t[k - 1] != '<'
    requires StripMarks(t) == t[..k - 1] + StripMarks(t[k - 1..])
    ensures StripMarks(t) == t[..k] + StripMarks(t[k..])
  {
    var u := t[k - 1..];
    assert u[1..] == t[k..];
    StripMarksPlainHead(u);
    assert t[..k] == t[..k - 1] + [t[k - 1]];
    ShiftOne(StripMarks(t), t[..k - 1], t[k - 1], StripMarks(u), StripMarks(t[k..]));
  }

  /** A leading stretch of `t` without '<' is kept as it is. */
  lemma {:induction false} StripMarksPlainStretch(t: string, k: nat)
    requires k <= |t| && '<' !in t[..k]
    ensures StripMarks(t) == t[..k] + StripMarks(t[k..])
    decreases k
  {
    if k == 0 {
      assert t[0..] == t;
    } else {
      assert t[..k] == t[..k - 1] + [t[k - 1]];
      StripMarksPlainStretch(t, k - 1);
      StripMarksStretchStep(t, k);
    }
  }

  /** A leading stretch without '<' is kept as it is. */
  lemma StripMarksPlainPrefix(x: string, s: string)
    requires '<' !in x
    ensures StripMarks(x + s) == x + StripMarks(s)
  {
    var t := x + s;
    assert t[..|x|] == x && t[|x|..] == s;
    StripMarksPlainStretch(t, |x|);
  }

  /** The removal is a single left-to-right pass: a tag whose letters only
      meet once an inner tag is removed stays in the result. A '<' directly
      before `<mark>x</mark>>` survives, and so does the '>', so the result
      of `remove_html_tags` holds `<x>`, which is `<mark>` itself when x is
      "mark". */
  lemma StripMarksIsOnePass(x: string)
    requires '<' !in x
    ensures RemoveHtmlTags(['<'] + OpenTag + x + CloseTag + ['>']) == ['<'] + x + ['>']
  {
    var tail := CloseTag + ['>'];
    var rest := OpenTag + (x + tail);
    assert ['<'] + OpenTag + x + CloseTag + ['>'] == ['<'] + rest;
    calc {
      RemoveHtmlTags(['<'] + rest);
      StripMarks(['<'] + rest);
      { StripMarksDoubleAngle(rest); }
      ['<'] + StripMarks(rest);
      { StripMarksOpenTag(x + tail); }
      ['<'] + StripMarks(x + tail);
      { StripMarksPlainPrefix(x, tail); }
      ['<'] + (x + StripMarks(tail));
      { StripMarksCloseTag(['>']); StripMarksKeepsPlainText(['>']); }
      ['<'] + (x + ['>']);
      ['<'] + x + ['>'];
    }
  }

  /** A '<' directly followed by another '<' starts no tag and is kept. */
  lemma StripMarksDoubleAngle(rest: string)
    requires rest != [] && rest[0] == '<'
    ensures StripMarks(['<'] + rest) == ['<'] + StripMarks(rest)
  {
    var s := ['<'] + rest;
    assert |s| >= 6 ==> s[..6][1] == '<' != OpenTag[1];
    assert |s| >= 7 ==> s[..7][1] == '<' != CloseTag[1];
    assert s[1..] == rest;
  }

  /** The instance that matters: `<<mark>mark</mark>>` loses its tags and
      leaves `<mark>`. */
  lemma StripMarksLeavesMark()
    ensures RemoveHtmlTags(['<'] + OpenTag + "mark" + CloseTag + ['>']) == OpenTag
  {
    StripMarksIsOnePass("mark");
  }

  /** `remove_html_tags`: an empty input gives ""; the result is never
      longer than the input; text without '<' comes back unchanged; when the
      only '<' are the engine's tags, no '<' (and so no tag) is left. */
  lemma RemoveHtmlTagsSpec(text: string)
    ensures text == [] ==> RemoveHtmlTags(text) == []
    ensures |RemoveHtmlTags(text)| <= |text|
    ensures (forall i :: 0 <= i < |text| ==> text[i] != '<') ==> RemoveHtmlTags(text) == text
    ensures AngleOnlyInTags(text) ==>
      forall i :: 0 <= i < |RemoveHtmlTags(text)| ==> RemoveHtmlTags(text)[i] != '<'
  {
    StripMarksOnlyDeletes(text);
    if forall i :: 0 <= i < |text| ==> text[i] != '<' {
      StripMarksKeepsPlainText(text);
    }
    if AngleOnlyInTags(text) {
      StripMarksRemovesEveryTag(text);
    }
  }

  // ---------------------------------------------------------------------
  // Trimming

  /** `TrimStart` cuts whitespace only, and stops at the first character
      that is not whitespace. */
  lemma {:induction false} TrimStartSpec(s: string)
    ensures |TrimStart(s)| <= |s| && TrimStart(s) == s[|s| - |TrimStart(s)|..]
    ensures forall i :: 0 <= i < |s| - |TrimStart(s)| ==> IsSpace(s[i])
    ensures TrimStart(s) == [] || !IsSpace(TrimStart(s)[0])
  {
    if s != [] && IsSpace(s[0]) {
      var rest := s[1..];
      TrimStartSpec(rest);
      assert TrimStart(s) == TrimStart(rest);
      assert rest[|rest| - |TrimStart(rest)|..] == s[|s| - |TrimStart(rest)|..];
      forall i | 1 <= i < |s| - |TrimStart(s)| ensures IsSpace(s[i]) {
        assert s[i] == rest[i - 1];
      }
    }
  }

  /** `TrimEnd` cuts whitespace only, and stops at the last character that
      is not whitespace. */
  lemma {:induction false} TrimEndSpec(s: string)
    ensures |TrimEnd(s)| <= |s| && TrimEnd(s) == s[..|TrimEnd(s)|]
    ensures forall i :: |TrimEnd(s)| <= i < |s| ==> IsSpace(s[i])
    ensures TrimEnd(s) == [] || !IsSpace(TrimEnd(s)[|TrimEnd(s)| - 1])
  {
    if s != [] && IsSpace(s[|s| - 1]) {
      var rest := s[..|s| - 1];
      TrimEndSpec(rest);
      assert TrimEnd(s) == TrimEnd(rest);
      assert rest[..|TrimEnd(rest)|] == s[..|TrimEnd(rest)|];
      forall i | |TrimEnd(s)| <= i < |s| - 1 ensures IsSpace(s[i]) {
        assert s[i] == rest[i];
      }
    }
  }

  /** `str.strip()`: the result is the stretch of `s` between its leading
      and its trailing whitespace; it neither starts nor ends with
      whitespace, and it is empty exactly when `s` is all whitespace. */
  lemma StripSpec(s: string)
    ensures |TrimStart(s)| <= |s|
    ensures var r := Strip(s); var lead := |s| - |TrimStart(s)|;
      && lead + |r| <= |s|
      && r == s[lead..lead + |r|]
      && (forall i :: 0 <= i < lead ==> IsSpace(s[i]))
      && (forall i :: lead + |r| <= i < |s| ==> IsSpace(s[i]))
      && (r != [] ==> !IsSpace(r[0]) && !IsSpace(r[|r| - 1]))
    ensures Strip(s) == [] <==> forall i :: 0 <= i < |s| ==> IsSpace(s[i])
  {
    var t := TrimStart(s);
    TrimStartSpec(s);
    TrimEndSpec(t);
    var r := Strip(s);
    var lead := |s| - |t|;
    assert r == t[..|r|];
    forall i | lead + |r| <= i < |s| ensures IsSpace(s[i]) {
      assert s[i] == t[i - lead];
    }
    assert r == s[lead..lead + |r|];
  }

  // ---------------------------------------------------------------------
  // Coverage

  /** Each counted `<mark>` occupies six characters of its own, and text
      without '<' has coverage 0. */
  lemma {:induction false} MarkCountSpec(s: string)
    ensures 6 * MarkCount(s) <= |s|
    ensures (forall i :: 0 <= i < |s| ==> s[i] != '<') ==> MarkCount(s) == 0
    decreases |s|
  {
    if |s| >= 6 {
      if s[..6] == OpenTag {
        assert s[0] == OpenTag[0];
        MarkCountSpec(s[6..]);
      } else {
        MarkCountSpec(s[1..]);
      }
    }
  }

  /** A leading opening tag adds exactly one to the coverage. */
  lemma MarkCountOpenTag(s: string)
    ensures MarkCount(OpenTag + s) == 1 + MarkCount(s)
  {
    assert (OpenTag + s)[..6] == OpenTag;
    assert (OpenTag + s)[6..] == s;
  }

  /** The number of positions at which `<mark>` starts, overlapping
      occurrences included. */
  function Occurrences(s: string): nat
    decreases |s|
  {
    if |s| < 6 then 0
    else (if s[..6] == OpenTag then 1 else 0) + Occurrences(s[1..])
  }

  /** A position holding a character other than '<' starts no tag. */
  lemma MarkCountPlainHead(t: string)
    requires t != [] && t[0] != '<'
    ensures MarkCount(t) == MarkCount(t[1..])
    ensures Occurrences(t) == Occurrences(t[1..])
  {
    if |t| >= 6 {
      assert t[..6][0] == t[0];
    }
  }

  /** A stretch without '<' starts no tag. */
  lemma {:induction false} MarkCountPlainStretch(t: string, k: nat)
    requires k <= |t| && '<' !in t[..k]
    ensures MarkCount(t) == MarkCount(t[k..])
    ensures Occurrences(t) == Occurrences(t[k..])
    decreases k
  {
    if k > 0 {
      assert t[0] == t[..k][0];
      MarkCountPlainHead(t);
      var u := t[1..];
      assert u[..k - 1] == t[1..k];
      assert forall c :: c in u[..k - 1] ==> c in t[..k];
      MarkCountPlainStretch(u, k - 1);
      assert u[k - 1..] == t[k..];
    }
  }

  /** The coverage is the number of positions at which `<mark>` starts:
      counting from the left without overlap misses none, since a
      `<mark>` cannot start inside another. */
  lemma {:induction false} MarkCountIsOccurrences(s: string)
    ensures MarkCount(s) == Occurrences(s)
    decreases |s|
  {
    if |s| >= 6 {
      if s[..6] == OpenTag {
        MarkCountIsOccurrences(s[6..]);
        var u := s[1..];
        assert u[..5] == s[1..6] == "mark>";
        MarkCountPlainStretch(u, 5);
        assert u[5..] == s[6..];
      } else {
        MarkCountIsOccurrences(s[1..]);
      }
    }
  }

  /** A leading closing tag adds nothing to the coverage. */
  lemma MarkCountCloseTag(s: string)
    ensures MarkCount(CloseTag + s) == MarkCount(s)
  {
    var t := CloseTag + s;
    assert t[..6] != OpenTag by { assert t[1] == '/'; }
    var u := t[1..];
    assert u[..6] == "/mark>";
    MarkCountPlainStretch(u, 6);
    assert u[6..] == s;
  }


  // ---------------------------------------------------------------------
  // Deduplication

  /** The index of the first kept fragment among `es` with canonical text
      `k`, or -1 when there is none. */
  function FirstAt(es: seq<Scan>, k: string): (f: int)
    ensures -1 <= f < |es|
    ensures f >= 0 ==> Has(es[f], k)
    ensures forall j :: 0 <= j < |es| && (f < 0 || j < f) ==> !Has(es[j], k)
    decreases |es|
  {
    if es == [] then -1
    else
      var n := |es| - 1;
      var f := FirstAt(es[..n], k);
      assert forall j :: 0 <= j < n ==> es[..n][j] == es[j];
      if f >= 0 then f else if Has(es[n], k) then n else -1
  }

  /** Fragment `es[j]` scanned to `k`: the scan retains some fragment for
      `k`. */
  lemma {:induction false} WinnerWhenPresent(es: seq<Scan>, j: nat, k: string)
    requires j < |es| && Has(es[j], k)
    ensures WinnerAt(es, k) >= 0
    decreases |es|
  {
    var n := |es| - 1;
    WinnerStep(es, n, k);
    assert es[..n + 1] == es;
    if j < n {
      assert es[..n][j] == es[j];
      WinnerWhenPresent(es[..n], j, k);
    }
  }

  /** The scan retains a fragment for `k` exactly when some kept fragment
      has canonical text `k`, that is, when `k` has a first occurrence. */
  lemma WinnerExactlyWhenPresent(es: seq<Scan>, k: string)
    ensures WinnerAt(es, k) >= 0 <==> FirstAt(es, k) >= 0
    ensures k in Keys(es) <==> FirstAt(es, k) >= 0
  {
    var f := FirstAt(es, k);
    if f >= 0 {
      WinnerWhenPresent(es, f, k);
    }
  }

  /** In terms of fragments: a scan holds text `k` exactly when its fragment
      is kept and has canonical text `k`, with the fragment's own coverage. */
  lemma ScanAllHas(fs: seq<string>, j: nat, k: string)
    requires j < |fs|
    ensures Has(ScanAll(fs)[j], k) <==> Kept(fs[j]) && Canonical(fs[j]) == k
    ensures Has(ScanAll(fs)[j], k) ==> ScanAll(fs)[j].fragment == fs[j] && ScanAll(fs)[j].marks == MarkCount(fs[j])
  {
    assert ScanAll(fs)[j] == ScanOf(fs[j]);
  }

  /** Deduplication drops every fragment that is empty or empty once its
      tags are removed and it is trimmed: the result is [] exactly when
      every fragment is of that kind, in particular for an empty input. */
  lemma DedupEmptyExactlyWhenNothingKept(fs: seq<string>)
    ensures Dedup(fs) == [] <==> forall j :: 0 <= j < |fs| ==> !Kept(fs[j])
  {
    var es := ScanAll(fs);
    if Dedup(fs) == [] {
      forall j | 0 <= j < |fs| ensures !Kept(fs[j]) {
        ScanAllHas(fs, j, Canonical(fs[j]));
        if Kept(fs[j]) {
          WinnerWhenPresent(es, j, Canonical(fs[j]));
        }
      }
    } else {
      assert Keys(es)[0] in Keys(es);
      var w := WinnerAt(es, Keys(es)[0]);
      ScanAllHas(fs, w, Keys(es)[0]);
    }
  }

  /** Every kept fragment's canonical text is represented in the result. */
  lemma DedupCoversEveryText(fs: seq<string>, j: nat)
    requires j < |fs| && Kept(fs[j])
    ensures exists i :: 0 <= i < |Dedup(fs)| && Canonical(Dedup(fs)[i]) == Canonical(fs[j])
  {
    var es := ScanAll(fs);
    var k := Canonical(fs[j]);
    ScanAllHas(fs, j, k);
    WinnerWhenPresent(es, j, k);
    var i :| 0 <= i < |Keys(es)| && Keys(es)[i] == k;
    assert Canonical(Dedup(fs)[i]) == k;
  }

  /** One more scan: the first occurrence of `k` is unchanged once it
      exists, and is the new scan when that is the first to hold `k`. */
  lemma FirstAtStep(es: seq<Scan>, k: string)
    requires es != []
    ensures var n := |es| - 1; var f := FirstAt(es[..n], k);
      FirstAt(es, k) == if f >= 0 then f else if Has(es[n], k) then n else -1
  {
  }

  /** The canonical texts come out in the order of their first occurrence. */
  lemma {:induction false} KeysInFirstOccurrenceOrder(es: seq<Scan>)
    ensures forall k :: k in Keys(es) ==> FirstAt(es, k) >= 0
    ensures forall a, b :: 0 <= a < b < |Keys(es)| ==> FirstAt(es, Keys(es)[a]) < FirstAt(es, Keys(es)[b])
    decreases |es|
  {
    forall k | k in Keys(es) ensures FirstAt(es, k) >= 0 {
      WinnerExactlyWhenPresent(es, k);
    }
    if es != [] {
      var n := |es| - 1;
      var pre := es[..n];
      KeysInFirstOccurrenceOrder(pre);
      KeysStep(es, n);
      assert es[..n + 1] == es;
      var ks := Keys(es);
      var kp := Keys(pre);
      assert |ks| <= |kp| + 1;
      assert forall a :: 0 <= a < |kp| ==> ks[a] == kp[a];
      forall a, b | 0 <= a < b < |ks| ensures FirstAt(es, ks[a]) < FirstAt(es, ks[b]) {
        assert kp[a] in kp;
        FirstAtStep(es, ks[a]);
        FirstAtStep(es, ks[b]);
        if b < |kp| {
          assert kp[b] in kp;
        } else {
          assert ks[b] == es[n].text && ks[b] !in kp;
          WinnerExactlyWhenPresent(pre, ks[b]);
        }
      }
    }
  }

  /** `es[w]` has the greatest coverage in the group of `k`, and every
      member of the group before it has strictly smaller coverage. */
  predicate FirstMaximum(es: seq<Scan>, k: string, w: nat)
    requires w < |es|
  {
    Has(es[w], k) &&
    forall j :: 0 <= j < |es| && Has(es[j], k) ==>
      es[j].marks <= es[w].marks && (j < w ==> es[j].marks < es[w].marks)
  }

  /** Within a group, the retained fragment has the greatest coverage, and
      every fragment before it has strictly smaller coverage: replacement
      happens only on a strictly greater count, so ties keep the first. */
  lemma {:induction false} WinnerIsFirstMaximum(es: seq<Scan>, k: string)
    requires WinnerAt(es, k) >= 0
    ensures FirstMaximum(es, k, WinnerAt(es, k))
    decreases |es|
  {
    var n := |es| - 1;
    var pre := es[..n];
    WinnerStep(es, n, k);
    assert es[..n + 1] == es;
    var w := WinnerAt(es, k);
    var v := WinnerAt(pre, k);
    if v >= 0 {
      WinnerIsFirstMaximum(pre, k);
      assert pre[v] == es[v];
      forall j | 0 <= j < n && Has(es[j], k)
        ensures es[j].marks <= es[v].marks && (j < v ==> es[j].marks < es[v].marks)
      {
        assert pre[j] == es[j];
      }
    } else {
      forall j | 0 <= j < n ensures !Has(es[j], k) {
        assert pre[j] == es[j];
        if Has(pre[j], k) {
          WinnerWhenPresent(pre, j, k);
        }
      }
    }
  }

  /** The canonical texts of a list of fragments, one per fragment. */
  function Canonicals(fs: seq<string>): (cs: seq<string>)
    ensures |cs| == |fs|
    ensures forall i :: 0 <= i < |fs| ==> cs[i] == Canonical(fs[i])
  {
    seq(|fs|, i requires 0 <= i < |fs| => Canonical(fs[i]))
  }

  /** What a deduplicated list looks like: every fragment kept, no two with
      the same canonical text. */
  predicate Deduplicated(fs: seq<string>)
  {
    && (forall i :: 0 <= i < |fs| ==> Kept(fs[i]))
    && (forall a, b :: 0 <= a < b < |fs| ==> Canonical(fs[a]) != Canonical(fs[b]))
  }

  /** The result of `deduplicate_highlights`, stated whole: its fragments
      come verbatim from the input; none is empty or empty once stripped; no
      two share a canonical text; their canonical texts are the input's
      distinct canonical texts in order of first occurrence; and each is the
      first fragment of greatest coverage in its group, even when that is a
      later occurrence than the one that fixed the group's position. */
  lemma DedupSpec(fs: seq<string>)
    ensures var r := Dedup(fs); var es := ScanAll(fs);
      && Deduplicated(r)
      && (forall i :: 0 <= i < |r| ==> r[i] in fs)
      && Canonicals(r) == Keys(es)
      && (forall a, b :: 0 <= a < b < |r| ==>
            0 <= FirstAt(es, Canonical(r[a])) < FirstAt(es, Canonical(r[b])))
      && (forall i :: 0 <= i < |r| ==>
            var w := WinnerAt(es, Canonical(r[i]));
            && 0 <= w < |fs| && r[i] == fs[w]
            && forall j :: 0 <= j < |fs| && Kept(fs[j]) && Canonical(fs[j]) == Canonical(r[i]) ==>
                 MarkCount(fs[j]) <= MarkCount(r[i]) && (j < w ==> MarkCount(fs[j]) < MarkCount(r[i])))
  {
    var r := Dedup(fs);
    var es := ScanAll(fs);
    var ks := Keys(es);
    KeysInFirstOccurrenceOrder(es);
    forall a, b | 0 <= a < b < |r| ensures 0 <= FirstAt(es, Canonical(r[a])) < FirstAt(es, Canonical(r[b])) {
      assert ks[a] in ks;
    }
    forall i | 0 <= i < |r| ensures
      var w := WinnerAt(es, Canonical(r[i]));
      && 0 <= w < |fs| && r[i] == fs[w]
      && forall j :: 0 <= j < |fs| && Kept(fs[j]) && Canonical(fs[j]) == Canonical(r[i]) ==>
           MarkCount(fs[j]) <= MarkCount(r[i]) && (j < w ==> MarkCount(fs[j]) < MarkCount(r[i]))
    {
      var k := ks[i];
      assert k in ks;
      var w := WinnerAt(es, k);
      WinnerIsFirstMaximum(es, k);
      ScanAllHas(fs, w, k);
      assert r[i] == es[w].fragment;
      forall j | 0 <= j < |fs| && Kept(fs[j]) && Canonical(fs[j]) == k
        ensures MarkCount(fs[j]) <= MarkCount(r[i]) && (j < w ==> MarkCount(fs[j]) < MarkCount(r[i]))
      {
        ScanAllHas(fs, j, k);
      }
    }
  }

  /** Scans that are all kept, with pairwise distinct texts. */
  predicate DistinctScans(es: seq<Scan>)
  {
    && (forall i :: 0 <= i < |es| ==> es[i].Scanned?)
    && (forall a, b :: 0 <= a < b < |es| ==> es[a].text != es[b].text)
  }

  /** When every scan is kept with a text of its own, the distinct texts
      are all the texts, in order. */
  lemma {:induction false} KeysOfDistinctScans(es: seq<Scan>)
    requires DistinctScans(es)
    ensures |Keys(es)| == |es|
    ensures forall i :: 0 <= i < |es| ==> Keys(es)[i] == es[i].text
    decreases |es|
  {
    if es != [] {
      var n := |es| - 1;
      var pre := es[..n];
      assert DistinctScans(pre);
      KeysOfDistinctScans(pre);
      KeysStep(es, n);
      assert es[..n + 1] == es;
      assert es[n].text !in Keys(pre) by {
        forall a | 0 <= a < n ensures Keys(pre)[a] != es[n].text {
          assert pre[a] == es[a];
        }
      }
      forall i | 0 <= i < n ensures Keys(es)[i] == es[i].text {
        assert pre[i] == es[i];
      }
    }
  }

  /** A list that is already deduplicated has its canonical texts, one per
      fragment in order, as the distinct texts. */
  lemma KeysOfDeduplicated(fs: seq<string>)
    requires Deduplicated(fs)
    ensures Keys(ScanAll(fs)) == Canonicals(fs)
  {
    var es := ScanAll(fs);
    forall i | 0 <= i < |fs| ensures es[i].Scanned? && es[i].text == Canonical(fs[i]) {
      ScanAllHas(fs, i, Canonical(fs[i]));
    }
    KeysOfDistinctScans(es);
  }

  /** In a deduplicated list, a canonical text determines its fragment's
      position. */
  lemma DeduplicatedPosition(fs: seq<string>, a: nat, b: nat)
    requires Deduplicated(fs) && a < |fs| && b < |fs| && Canonical(fs[a]) == Canonical(fs[b])
    ensures a == b
  {
  }

  /** The `i`-th deduplicated fragment is the fragment retained for the
      `i`-th distinct text. */
  lemma DedupAt(fs: seq<string>, i: nat)
    requires i < |Keys(ScanAll(fs))|
    ensures Keys(ScanAll(fs))[i] in Keys(ScanAll(fs))
    ensures Dedup(fs)[i] == ScanAll(fs)[WinnerAt(ScanAll(fs), Keys(ScanAll(fs))[i])].fragment
  {
  }

  /** Deduplication leaves a deduplicated list unchanged. */
  lemma DedupOfDeduplicated(fs: seq<string>)
    requires Deduplicated(fs)
    ensures Dedup(fs) == fs
  {
    var es := ScanAll(fs);
    KeysOfDeduplicated(fs);
    forall i | 0 <= i < |fs| ensures Dedup(fs)[i] == fs[i] {
      var k := Canonical(fs[i]);
      assert Keys(es)[i] == k;
      DedupAt(fs, i);
      var w := WinnerAt(es, k);
      ScanAllHas(fs, w, k);
      DeduplicatedPosition(fs, w, i);
    }
  }

  /** Deduplication is idempotent. */
  lemma DedupIdempotent(fs: seq<string>)
    ensures Dedup(Dedup(fs)) == Dedup(fs)
  {
    DedupOfDeduplicated(Dedup(fs));
  }
}
