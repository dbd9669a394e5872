/**
  The image-link pattern of the JPEG command,

      (http(s?):)([/|.|\w|\s|-])*\.(?:jpg|jpeg|png|JPG|JPEG|PNG)

  first as a language (which spans of a text are words of the pattern), then as the
  search Go's regexp package performs: leftmost start, `s?` and `*` greedy, the
  extension alternatives tried in order, and `FindAllString` resuming after each match.
*/
module UrlPattern {
  import opened Wrappers

  /* === Character classes === */

  /** `\w`: ASCII letters, digits and '_'. */
  predicate IsWordChar(c: char) {
    '0' <= c <= '9' || 'a' <= c <= 'z' || 'A' <= c <= 'Z' || c == '_'
  }

  /** `\s`: tab, newline, form feed, carriage return and space. */
  predicate IsSpaceChar(c: char) {
    c == '\t' || c == '\n' || c as int == 12 || c == '\r' || c == ' '
  }

  /** `[/|.|\w|\s|-]`; inside brackets '|' and '.' are literal characters. */
  predicate IsPathChar(c: char) {
    c == '/' || c == '|' || c == '.' || IsWordChar(c) || IsSpaceChar(c) || c == '-'
  }

  const Extensions: seq<string> := ["jpg", "jpeg", "png", "JPG", "JPEG", "PNG"]

  /* === The language === */

  /** `s[p..j]` is the scheme `http:` or `https:`. */
  predicate SchemeSpan(s: string, p: nat, j: nat) {
    p <= j <= |s| && (s[p..j] == "http:" || s[p..j] == "https:")
  }

  predicate AllPath(s: string, i: nat, j: nat) {
    j <= |s| && forall k :: i <= k < j ==> IsPathChar(s[k])
  }

  /** `s[p..e]` is a word of the pattern: a scheme ending at `j`, path characters up to `d`, '.', an extension. */
  ghost predicate SpanMatches(s: string, p: nat, e: nat) {
    p <= e <= |s| &&
    exists j: nat, d: nat :: SchemeSpan(s, p, j) && j <= d < e && AllPath(s, j, d)
                             && s[d] == '.' && s[d + 1..e] in Extensions
  }

  /** The whole of `t` is a word of the pattern. */
  ghost predicate InLanguage(t: string) {
    SpanMatches(t, 0, |t|)
  }

  /** Some span of `s` is a word of the pattern (the pattern is not anchored). */
  ghost predicate Matches(s: string) {
    exists p: nat, e: nat :: SpanMatches(s, p, e)
  }

  /** A word of the pattern matches it. */
  lemma InLanguageMatches(t: string)
    requires InLanguage(t)
    ensures Matches(t)
  {
  }

  /** A span that is a word, cut out of its text, is a word on its own. */
  lemma SpanIsWord(s: string, p: nat, e: nat)
    requires SpanMatches(s, p, e)
    ensures InLanguage(s[p..e])
  {
    var t := s[p..e];
    var j: nat, d: nat :| SchemeSpan(s, p, j) && j <= d < e && AllPath(s, j, d)
                          && s[d] == '.' && s[d + 1..e] in Extensions;
    assert t[0..j - p] == s[p..j];
    assert SchemeSpan(t, 0, j - p);
    assert forall k :: j - p <= k < d - p ==> t[k] == s[k + p];
    assert AllPath(t, j - p, d - p);
    assert t[d - p] == s[d];
    assert t[d - p + 1..|t|] == s[d + 1..e];
  }

  /* === The search === */

  /** Where the scheme that starts at `p` ends; `s?` is greedy, so `https:` is read whole. */
  function SchemeEnd(s: string, p: nat): Option<nat> {
    if p + 6 <= |s| && s[p..p + 6] == "https:" then Some(p + 6)
    else if p + 5 <= |s| && s[p..p + 5] == "http:" then Some(p + 5)
    else None
  }

  /** `SchemeEnd` reports a scheme only where there is one, and whenever there is one it reports that one. */
  lemma SchemeEndSpec(s: string, p: nat)
    ensures SchemeEnd(s, p).Some? ==> SchemeSpan(s, p, SchemeEnd(s, p).value)
    ensures forall j: nat :: SchemeSpan(s, p, j) ==> SchemeEnd(s, p) == Some(j)
  {
    if p + 6 <= |s| && s[p..p + 6] == "https:" {
      assert s[p + 4] == 's';
    } else if p + 5 <= |s| && s[p..p + 5] == "http:" {
      assert s[p + 4] == ':';
    }
  }

  /** The text `t` occurs in `s` at position `i`. */
  predicate OccursAt(s: string, i: nat, t: string) {
    i + |t| <= |s| && s[i..i + |t|] == t
  }

  /** The alternatives `exts`, tried in order at position `i`: where the first one that occurs there ends. */
  function FirstAlternative(s: string, i: nat, exts: seq<string>): (r: Option<nat>)
    ensures r.Some? ==> i <= r.value <= |s|
  {
    if exts == [] then None
    else if OccursAt(s, i, exts[0]) then Some(i + |exts[0]|)
    else FirstAlternative(s, i, exts[1..])
  }

  /** The choice is ordered: the alternative taken is the first in the list that occurs at `i`. */
  lemma {:induction false} FirstAlternativeInOrder(s: string, i: nat, exts: seq<string>)
    ensures FirstAlternative(s, i, exts).Some? ==>
              exists k :: 0 <= k < |exts| && OccursAt(s, i, exts[k])
                          && FirstAlternative(s, i, exts).value == i + |exts[k]|
                          && forall j :: 0 <= j < k ==> !OccursAt(s, i, exts[j])
    ensures FirstAlternative(s, i, exts).None? ==> forall k :: 0 <= k < |exts| ==> !OccursAt(s, i, exts[k])
  {
    if exts != [] && !OccursAt(s, i, exts[0]) {
      var rest := exts[1..];
      FirstAlternativeInOrder(s, i, rest);
      if FirstAlternative(s, i, rest).Some? {
        var k :| 0 <= k < |rest| && OccursAt(s, i, rest[k])
                 && FirstAlternative(s, i, rest).value == i + |rest[k]|
                 && forall j :: 0 <= j < k ==> !OccursAt(s, i, rest[j]);
        assert exts[k + 1] == rest[k];
        forall j | 0 <= j < k + 1
          ensures !OccursAt(s, i, exts[j])
        {
          if j > 0 {
            assert exts[j] == rest[j - 1];
          }
        }
      } else {
        forall k | 0 <= k < |exts|
          ensures !OccursAt(s, i, exts[k])
        {
          if k > 0 {
            assert exts[k] == rest[k - 1];
          }
        }
      }
    }
  }

  /** An alternative is reported only where it occurs, and none is reported only when none of them occurs. */
  lemma {:induction false} FirstAlternativeSpec(s: string, i: nat, exts: seq<string>)
    ensures FirstAlternative(s, i, exts).Some? ==> s[i..FirstAlternative(s, i, exts).value] in exts
    ensures FirstAlternative(s, i, exts).None? ==> forall e :: i <= e <= |s| ==> s[i..e] !in exts
  {
    if exts != [] {
      FirstAlternativeSpec(s, i, exts[1..]);
      assert forall t :: t in exts <==> t == exts[0] || t in exts[1..];
    }
  }

  /** Where the extension that starts at `i` ends, if one does. */
  function ExtEnd(s: string, i: nat): (r: Option<nat>)
    ensures r.Some? ==> i < r.value <= |s|
  {
    FirstAlternativeSpec(s, i, Extensions);
    assert "" !in Extensions;
    FirstAlternative(s, i, Extensions)
  }

  /** `ExtEnd` finds an extension at `i` exactly when one starts there. */
  lemma ExtEndSpec(s: string, i: nat)
    ensures ExtEnd(s, i).Some? ==> s[i..ExtEnd(s, i).value] in Extensions
    ensures ExtEnd(s, i).None? ==> forall e :: i <= e <= |s| ==> s[i..e] !in Extensions
  {
    FirstAlternativeSpec(s, i, Extensions);
  }

  /** The end of the run of path characters that starts at `i`. */
  function RunEnd(s: string, i: nat): (m: nat)
    requires i <= |s|
    decreases |s| - i
    ensures i <= m <= |s| && AllPath(s, i, m)
    ensures m == |s| || !IsPathChar(s[m])
  {
    if i < |s| && IsPathChar(s[i]) then RunEnd(s, i + 1) else i
  }

  /** A '.' followed by an extension sits at `d`. */
  predicate DotExtAt(s: string, d: nat) {
    d < |s| && s[d] == '.' && ExtEnd(s, d + 1).Some?
  }

  /** The last position in `[j, m)` holding a '.' and an extension: where greedy `*` backtracks to. */
  function LastDotExt(s: string, j: nat, m: nat): (r: Option<nat>)
    decreases m
    ensures r.Some? ==> j <= r.value < m && DotExtAt(s, r.value)
    ensures r.Some? ==> forall d :: r.value < d < m ==> !DotExtAt(s, d)
    ensures r.None? ==> forall d :: j <= d < m ==> !DotExtAt(s, d)
  {
    if m <= j then None
    else if DotExtAt(s, m - 1) then Some(m - 1)
    else LastDotExt(s, j, m - 1)
  }

  /** The end of the match the search reports when it tries position `p`, if one starts there. */
  function MatchEndAt(s: string, p: nat): (r: Option<nat>)
    ensures r.Some? ==> p < r.value <= |s|
  {
    match SchemeEnd(s, p)
    case None => None
    case Some(j) =>
      match LastDotExt(s, j, RunEnd(s, j))
      case None => None
      case Some(d) => ExtEnd(s, d + 1)
  }

  /** The search only reports words of the pattern. */
  lemma MatchEndSound(s: string, p: nat)
    requires MatchEndAt(s, p).Some?
    ensures SpanMatches(s, p, MatchEndAt(s, p).value)
  {
    SchemeEndSpec(s, p);
    var j := SchemeEnd(s, p).value;
    var m := RunEnd(s, j);
    var d := LastDotExt(s, j, m).value;
    ExtEndSpec(s, d + 1);
    var e := MatchEndAt(s, p).value;
    assert AllPath(s, j, d);
    assert SchemeSpan(s, p, j) && j <= d < e && s[d] == '.' && s[d + 1..e] in Extensions;
  }

  /** Whenever a word of the pattern starts at `p`, the search reports a match at `p`. */
  lemma MatchEndComplete(s: string, p: nat, e: nat)
    requires SpanMatches(s, p, e)
    ensures MatchEndAt(s, p).Some?
  {
    var j: nat, d: nat :| SchemeSpan(s, p, j) && j <= d < e && AllPath(s, j, d)
                          && s[d] == '.' && s[d + 1..e] in Extensions;
    SchemeEndSpec(s, p);
    assert SchemeEnd(s, p) == Some(j);
    var m := RunEnd(s, j);
    assert forall k :: j <= k <= d ==> IsPathChar(s[k]);
    assert d < m;
    ExtEndSpec(s, d + 1);
    assert DotExtAt(s, d);
  }

  /** The leftmost position at or after `from` where the search finds a match, with that match's end. */
  function FirstMatchFrom(s: string, from: nat): (r: Option<(nat, nat)>)
    decreases |s| - from
    ensures r.Some? ==> from <= r.value.0 && MatchEndAt(s, r.value.0) == Some(r.value.1)
    ensures r.Some? ==> forall q :: from <= q < r.value.0 ==> MatchEndAt(s, q).None?
    ensures r.None? ==> forall q: nat :: from <= q ==> MatchEndAt(s, q).None?
  {
    if from >= |s| then None
    else match MatchEndAt(s, from)
      case Some(e) => Some((from, e))
      case None => FirstMatchFrom(s, from + 1)
  }

  /** `urlRE.MatchString`: true exactly when some span of the text is a word of the pattern. */
  function MatchString(s: string): (r: bool)
    ensures r <==> Matches(s)
  {
    var first := FirstMatchFrom(s, 0);
    if first.Some? then
      MatchEndSound(s, first.value.0);
      true
    else
      NoMatchAnywhere(s);
      false
  }

  lemma NoMatchAnywhere(s: string)
    requires FirstMatchFrom(s, 0).None?
    ensures !Matches(s)
  {
    forall p: nat, e: nat | SpanMatches(s, p, e)
      ensures false
    {
      MatchEndComplete(s, p, e);
    }
  }

  /** `FindAllString(s, -1)` from position `from` on: each match, then the search again after it. */
  function FindAllFrom(s: string, from: nat): (r: seq<string>)
    decreases |s| - from
    ensures forall t :: t in r ==> InLanguage(t)
    ensures r == [] <==> forall q: nat :: from <= q ==> MatchEndAt(s, q).None?
  {
    match FirstMatchFrom(s, from)
    case None => []
    case Some((p, e)) =>
      MatchEndSound(s, p);
      SpanIsWord(s, p, e);
      [s[p..e]] + FindAllFrom(s, e)
  }

  /**
    The scan of `FindAllString`: the first string found is the match at the leftmost position
    where a word of the pattern starts, and the search resumes where that match ends.
  */
  lemma FindAllLeftmostFirst(s: string, p: nat, e: nat)
    requires FirstMatchFrom(s, 0) == Some((p, e))
    ensures FindAll(s) == [s[p..e]] + FindAllFrom(s, e)
    ensures SpanMatches(s, p, e)
    ensures forall q: nat, f: nat :: q < p ==> !SpanMatches(s, q, f)
  {
    MatchEndSound(s, p);
    forall q: nat, f: nat | q < p && SpanMatches(s, q, f)
      ensures false
    {
      MatchEndComplete(s, q, f);
    }
  }

  /** `urlRE.FindAllString(s, -1)`: every result is a word of the pattern, and there is one exactly when the text matches. */
  function FindAll(s: string): (r: seq<string>)
    ensures forall t :: t in r ==> InLanguage(t) && Matches(t)
    ensures r == [] <==> !Matches(s)
  {
    var r := FindAllFrom(s, 0);
    assert r == [] <==> !MatchString(s);
    r
  }
}
