/** `extractJobURL` (src/background.js:17-20): the background page's
    de-duplication key, the job URL pattern-matched out of an entry's text
    with `/URL\s*:?\s*(https?:\/\/www\.linkedin\.com\/jobs\/view\/[\w\d\-_%/?=]*)/`.
    The regex is written out as a dedicated scanner: an anchored matcher
    tried at every position from the left. */
module UrlExtract {
  import opened Text
  import opened Maybe
  import opened Entries

  const HttpsView: string := "https://www.linkedin.com/jobs/view/"
  const HttpView: string := "http://www.linkedin.com/jobs/view/"
  const Label: string := "URL"

  /** The character class `[\w\d\-_%/?=]`. */
  predicate UrlChar(c: char) {
    'A' <= c <= 'Z' || 'a' <= c <= 'z' || IsDigit(c) || c == '_' || c == '-' || c == '%' || c == '/' || c == '?' || c == '='
  }

  /** The longest prefix of `s` made of URL characters (the greedy `*`). */
  function TakeUrlChars(s: string): (r: string)
    ensures r <= s
    ensures forall i :: 0 <= i < |r| ==> UrlChar(r[i])
    ensures |r| == |s| || !UrlChar(s[|r|])
  {
    if |s| > 0 && UrlChar(s[0]) then [s[0]] + TakeUrlChars(s[1..]) else ""
  }

  /** `https?://www.linkedin.com/jobs/view/[...]*` anchored at the start of
      `s`; `https` is tried first, and the two cannot both apply. */
  function ViewRunAt(s: string): Option<string> {
    if HttpsView <= s then Some(HttpsView + TakeUrlChars(s[|HttpsView|..]))
    else if HttpView <= s then Some(HttpView + TakeUrlChars(s[|HttpView|..]))
    else None
  }

  /** A view run is a prefix of the text it was read from. */
  lemma ViewRunShape(c: string)
    requires ViewRunAt(c).Some?
    ensures var u := ViewRunAt(c).value; u <= c && (HttpsView <= u || HttpView <= u)
  {
    if HttpsView <= c {
      PrefixConcat(HttpsView, TakeUrlChars(c[|HttpsView|..]), c);
    } else {
      PrefixConcat(HttpView, TakeUrlChars(c[|HttpView|..]), c);
    }
  }

  /** `\s*:?\s*`: skip whitespace, an optional colon, whitespace again.
      `\s*` is greedy and neither whitespace nor `:` can start the URL, so
      no backtracking is needed. */
  function SkipGap(t: string): string {
    var a := TrimStart(t);
    var b := if |a| > 0 && a[0] == ':' then a[1..] else a;
    TrimStart(b)
  }

  /** The whole pattern anchored at the start of `s`. */
  function MatchAt(s: string): Option<string> {
    if Label <= s then ViewRunAt(SkipGap(s[3..])) else None
  }

  /** `extractJobURL(entry)`: the capture of the leftmost match, or `null`. */
  function ExtractJobUrl(entry: string): Option<string> {
    FirstMatch(entry, MatchAt)
  }

  /** Nothing is found exactly when the anchored pattern fails at every
      position. */
  lemma ExtractNoneAt(entry: string)
    ensures ExtractJobUrl(entry).None? <==> forall i :: 0 <= i <= |entry| ==> MatchAt(entry[i..]).None?
  {
    FirstMatchSpec(entry, MatchAt);
  }

  /** `extractJobURL` in the regex's own terms: nothing is found exactly
      when the pattern captures nothing at any position, and what is found
      is the capture at a position before which the pattern captures
      nothing (the leftmost match). */
  lemma ExtractJobUrlFound(entry: string)
    ensures ExtractJobUrl(entry).None? <==>
      forall i, k, u :: 0 <= i <= |entry| ==> !CapturedAt(entry[i..], k, u)
    ensures ExtractJobUrl(entry).Some? ==>
      exists i, k :: 0 <= i <= |entry| && CapturedAt(entry[i..], k, ExtractJobUrl(entry).value) &&
        forall j, k', u' :: 0 <= j < i ==> !CapturedAt(entry[j..], k', u')
  {
    FirstMatchSpec(entry, MatchAt);
    var r := ExtractJobUrl(entry);
    if r.None? {
      forall i, k, u | 0 <= i <= |entry| ensures !CapturedAt(entry[i..], k, u) {
        if CapturedAt(entry[i..], k, u) {
          MatchAtOfCapture(entry[i..], k, u);
        }
      }
    } else {
      var i :| 0 <= i <= |entry| && MatchAt(entry[i..]) == r && NoMatchBefore(entry, MatchAt, i);
      MatchAtCaptures(entry[i..]);
      forall j, k', u' | 0 <= j < i ensures !CapturedAt(entry[j..], k', u') {
        if CapturedAt(entry[j..], k', u') {
          MatchAtOfCapture(entry[j..], k', u');
        }
      }
      assert CapturedAt(entry[i..], UrlStart(entry[i..]), r.value);
    }
  }

  /** The same in the entry's own positions: a `URL` label occurs at `i`,
      only whitespace and at most one colon lie between it and position
      `k`, the job-view link occurs at `k`, and the entry does not go on
      with another URL character after it. */
  lemma ExtractedOccurs(entry: string)
    requires ExtractJobUrl(entry).Some?
    ensures var u := ExtractJobUrl(entry).value;
      exists i: nat, k: nat :: OccursAt(entry, Label, i) && i + 3 <= k <= |entry| && LabelGap(entry[i + 3..k]) &&
        OccursAt(entry, u, k) && ViewRun(u) && (k + |u| == |entry| || !UrlChar(entry[k + |u|]))
  {
    ExtractJobUrlFound(entry);
    var u := ExtractJobUrl(entry).value;
    var i, k :| 0 <= i <= |entry| && CapturedAt(entry[i..], k, u);
    CaptureInEntry(entry, i, k, u);
  }

  /** A capture at the start of a suffix, in the positions of the whole
      text. */
  lemma CaptureInEntry(entry: string, i: nat, k: int, u: string)
    requires i <= |entry| && CapturedAt(entry[i..], k, u)
    ensures OccursAt(entry, Label, i) && i + 3 <= i + k <= |entry| && LabelGap(entry[i + 3..i + k])
    ensures OccursAt(entry, u, i + k) && (i + k + |u| == |entry| || !UrlChar(entry[i + k + |u|]))
  {
    var t := entry[i..];
    PrefixOfSuffix(entry, Label, i);
    assert t[3..k] == entry[i + 3..i + k];
    assert t[k..k + |u|] == entry[i + k..i + k + |u|];
    if i + k + |u| < |entry| {
      assert t[k + |u|] == entry[i + k + |u|];
    }
  }

  /** Where the captured URL starts in a text the anchored pattern matches. */
  function UrlStart(s: string): (k: nat)
    requires Label <= s
    ensures k <= |s|
  {
    |s| - |SkipGap(s[3..])|
  }

  // ---------------------------------------------------------------------------
  // The pattern in plain terms
  // ---------------------------------------------------------------------------

  /** What `\s*:?\s*` lets through between the label and the URL:
      whitespace with at most one colon. */
  predicate LabelGap(g: string) {
    (forall j :: 0 <= j < |g| ==> IsSpace(g[j]) || g[j] == ':') &&
    (forall j, l :: 0 <= j < l < |g| && g[j] == ':' ==> g[l] != ':')
  }

  /** What the capture group can hold: one of the two literal starts
      followed by URL characters only. */
  predicate ViewRun(u: string) {
    (HttpsView <= u && forall j :: |HttpsView| <= j < |u| ==> UrlChar(u[j])) ||
    (HttpView <= u && forall j :: |HttpView| <= j < |u| ==> UrlChar(u[j]))
  }

  /** The pattern matches at the very start of `s` and captures `u` from
      index `k` on: the label, a gap up to `k`, then `u`, which the
      character after it (if any) could not have extended. */
  predicate CapturedAt(s: string, k: int, u: string) {
    3 <= k && k + |u| <= |s| && Label <= s && LabelGap(s[3..k]) && s[k..k + |u|] == u && ViewRun(u) &&
    (k + |u| == |s| || !UrlChar(s[k + |u|]))
  }

  /** A view run read from `c` is a capture the greedy run cannot extend. */
  lemma ViewRunCaptures(c: string)
    requires ViewRunAt(c).Some?
    ensures var u := ViewRunAt(c).value; u <= c && ViewRun(u) && (|u| == |c| || !UrlChar(c[|u|]))
  {
    if HttpsView <= c {
      LiteralRunCaptures(c, HttpsView);
    } else {
      LiteralRunCaptures(c, HttpView);
    }
  }

  /** A literal start followed by the greedy run of URL characters is a
      prefix of the text that the text does not continue. */
  lemma LiteralRunCaptures(c: string, lit: string)
    requires lit <= c
    ensures var u := lit + TakeUrlChars(c[|lit|..]);
      u <= c && lit <= u && (forall j :: |lit| <= j < |u| ==> UrlChar(u[j])) &&
      (|u| == |c| || !UrlChar(c[|u|]))
  {
    var w := TakeUrlChars(c[|lit|..]);
    var u := lit + w;
    PrefixConcat(lit, w, c);
    forall j | |lit| <= j < |u| ensures UrlChar(u[j]) {
      assert u[j] == w[j - |lit|];
    }
    if |u| < |c| {
      assert c[|u|] == c[|lit|..][|w|];
    }
  }

  /** Whitespace up to `n` followed by a non-space is exactly what
      `TrimStart` drops. */
  lemma {:induction false} TrimStartSkips(x: string, n: nat)
    requires n <= |x| && (n == |x| || !IsSpace(x[n]))
    requires forall j :: 0 <= j < n ==> IsSpace(x[j])
    ensures TrimStart(x) == x[n..]
  {
    if n > 0 {
      TrimStartSkips(x[1..], n - 1);
      assert x[1..][n - 1..] == x[n..];
    }
  }

  /** What `SkipGap` skips is a gap the pattern allows. */
  lemma SkipGapShape(t: string) returns (g: string)
    ensures t == g + SkipGap(t) && LabelGap(g)
  {
    var d1 := SpacesDropped(t);
    var col, b := OptionalColon(TrimStart(t));
    var d2 := SpacesDropped(b);
    g := d1 + col + d2;
    Regroup(d1, col, d2, TrimStart(b));
    GapOfParts(d1, col, d2);
  }

  /** The optional colon of `:?`, split off the front of `a`. */
  lemma OptionalColon(a: string) returns (col: string, b: string)
    ensures a == col + b && (col == "" || col == ":")
    ensures b == if |a| > 0 && a[0] == ':' then a[1..] else a
  {
    if |a| > 0 && a[0] == ':' {
      col, b := ":", a[1..];
    } else {
      col, b := "", a;
    }
  }

  /** Concatenation regroups freely. */
  lemma Regroup(p: string, q: string, r: string, x: string)
    ensures p + (q + (r + x)) == (p + q + r) + x
  {
  }

  /** The characters between the label and `UrlStart` form a gap the
      pattern allows, and the URL is read from `UrlStart` on. */
  lemma UrlStartAfterGap(s: string)
    requires Label <= s
    ensures 3 <= UrlStart(s) && SkipGap(s[3..]) == s[UrlStart(s)..] && LabelGap(s[3..UrlStart(s)])
  {
    var t := s[3..];
    var g := SkipGapShape(t);
    assert UrlStart(s) == 3 + |g|;
    assert s[3..3 + |g|] == t[..|g|] == g;
    assert s[3 + |g|..] == t[|g|..];
  }

  /** Whitespace, at most one colon, whitespace. */
  lemma GapOfParts(d1: string, col: string, d2: string)
    requires forall j :: 0 <= j < |d1| ==> IsSpace(d1[j])
    requires forall j :: 0 <= j < |d2| ==> IsSpace(d2[j])
    requires col == "" || col == ":"
    ensures LabelGap(d1 + col + d2)
  {
    var g := d1 + col + d2;
    forall j | 0 <= j < |g| ensures IsSpace(g[j]) || (g[j] == ':' && j == |d1|) {
      if j < |d1| {
        assert g[j] == d1[j];
      } else if j >= |d1| + |col| {
        assert g[j] == d2[j - |d1| - |col|];
      }
    }
  }

  /** The anchored pattern's result meets `CapturedAt`, with the URL
      starting at `UrlStart`. */
  lemma MatchAtCaptures(s: string)
    requires MatchAt(s).Some?
    ensures CapturedAt(s, UrlStart(s), MatchAt(s).value)
  {
    UrlStartAfterGap(s);
    var k := UrlStart(s);
    ViewRunCaptures(s[k..]);
    CaptureInSuffix(s, k, MatchAt(s).value);
  }

  /** A capture the greedy run cannot extend, read from a suffix, sits at
      the suffix's position. */
  lemma CaptureInSuffix(s: string, k: nat, u: string)
    requires k <= |s| && u <= s[k..] && (|u| == |s| - k || !UrlChar(s[k..][|u|]))
    ensures k + |u| <= |s| && s[k..k + |u|] == u
    ensures k + |u| == |s| || !UrlChar(s[k + |u|])
  {
    assert s[k..k + |u|] == s[k..][..|u|];
    if k + |u| < |s| {
      assert s[k + |u|] == s[k..][|u|];
    }
  }

  /** A run of URL characters after a literal start, which the text does
      not continue, is what the greedy run reads after that start. */
  lemma ViewRunTail(c: string, u: string, lit: string)
    requires lit <= u && u <= c
    requires forall j :: |lit| <= j < |u| ==> UrlChar(u[j])
    requires |u| == |c| || !UrlChar(c[|u|])
    ensures lit <= c && lit + TakeUrlChars(c[|lit|..]) == u
  {
    var w := u[|lit|..];
    var tail := c[|u|..];
    assert c[|lit|..] == w + tail;
    forall j | 0 <= j < |w| ensures UrlChar(w[j]) {
      assert w[j] == u[|lit| + j];
    }
    TakeUrlCharsExact(w, tail);
    assert u == lit + w;
  }

  /** A view run that the text continues with no URL character is what
      `ViewRunAt` reads. */
  lemma ViewRunOfCapture(c: string, u: string)
    requires ViewRun(u) && u <= c && (|u| == |c| || !UrlChar(c[|u|]))
    ensures ViewRunAt(c) == Some(u)
  {
    if HttpsView <= u {
      assert !(HttpView <= u) by {
        assert u[4] == 's';
      }
      ViewRunTail(c, u, HttpsView);
    } else {
      assert !(HttpsView <= c) by {
        assert c[4] == u[4] == ':';
      }
      ViewRunTail(c, u, HttpView);
    }
  }

  /** A gap the pattern allows, in front of a character that is neither
      whitespace nor a colon, is exactly what `SkipGap` skips. */
  lemma SkipGapOfGap(g: string, c: string)
    requires LabelGap(g) && |c| > 0 && !IsSpace(c[0]) && c[0] != ':'
    ensures SkipGap(g + c) == c
  {
    var x := g + c;
    assert x[|g|] == c[0];
    assert x[|g|..] == c;
    if p :| 0 <= p < |g| && g[p] == ':' {
      forall j | 0 <= j < p ensures IsSpace(x[j]) {
        assert x[j] == g[j] && g[j] != ':';
      }
      assert x[p] == ':';
      TrimStartSkips(x, p);
      var b := x[p + 1..];
      forall j | 0 <= j < |g| - p - 1 ensures IsSpace(b[j]) {
        assert b[j] == g[p + 1 + j];
      }
      assert b[|g| - p - 1] == c[0];
      TrimStartSkips(b, |g| - p - 1);
      assert b[|g| - p - 1..] == c;
    } else {
      forall j | 0 <= j < |g| ensures IsSpace(x[j]) {
        assert x[j] == g[j];
      }
      TrimStartSkips(x, |g|);
      TrimStartSkips(c, 0);
    }
  }

  /** Conversely, a capture is what the anchored pattern returns. */
  lemma MatchAtOfCapture(s: string, k: int, u: string)
    requires CapturedAt(s, k, u)
    ensures MatchAt(s) == Some(u)
  {
    var c := s[k..];
    assert u[0] == 'h';
    assert c[0] == u[0];
    assert s[3..] == s[3..k] + c;
    SkipGapOfGap(s[3..k], c);
    assert c[..|u|] == s[k..k + |u|] == u;
    if |u| < |c| {
      assert c[|u|] == s[k + |u|];
    }
    ViewRunOfCapture(c, u);
  }

  // ---------------------------------------------------------------------------
  // Gluing texts together
  // ---------------------------------------------------------------------------

  /** A separator that can end no match of the pattern: whitespace followed
      by a character that is neither whitespace, nor `:`, nor `h`. */
  predicate Boundary(r: string) {
    |r| >= 2 && IsSpace(r[0]) && !IsSpace(r[1]) && r[1] != ':' && r[1] != 'h'
  }

  lemma NoSpaceInLiterals()
    ensures forall j :: 0 <= j < |HttpsView| ==> !IsSpace(HttpsView[j])
    ensures forall j :: 0 <= j < |HttpView| ==> !IsSpace(HttpView[j])
    ensures forall j :: 0 <= j < |Label| ==> !IsSpace(Label[j])
  {
  }

  /** A literal without whitespace cannot be a prefix of a text that has
      whitespace where the literal still has characters left. */
  lemma LiteralStopsAtSpace(lit: string, w: string, r: string)
    requires forall j :: 0 <= j < |lit| ==> !IsSpace(lit[j])
    requires |r| > 0 && IsSpace(r[0]) && !(lit <= w)
    ensures !(lit <= w + r)
  {
    if |w| < |lit| {
      assert (w + r)[|w|] == r[0];
    } else {
      assert (w + r)[..|lit|] == w[..|lit|];
    }
  }

  lemma TrimStartGlue(v: string, r: string)
    requires Boundary(r)
    ensures TrimStart(v) == "" ==> TrimStart(v + r) == r[1..]
    ensures TrimStart(v) != "" ==> TrimStart(v + r) == TrimStart(v) + r
  {
    if |v| == 0 {
      assert v + r == r;
      assert TrimStart(r[1..]) == r[1..];
    } else if IsSpace(v[0]) {
      TrimStartGlue(v[1..], r);
      assert (v + r)[1..] == v[1..] + r;
    } else {
      assert (v + r)[0] == v[0];
    }
  }

  lemma ViewRunGlue(w: string, r: string)
    requires Boundary(r) && ViewRunAt(w).None?
    ensures ViewRunAt(w + r).None?
  {
    NoSpaceInLiterals();
    LiteralStopsAtSpace(HttpsView, w, r);
    LiteralStopsAtSpace(HttpView, w, r);
  }

  /** What follows a boundary cannot start the URL. */
  lemma ViewRunAfterBoundary(r: string)
    requires Boundary(r)
    ensures ViewRunAt(r[1..]).None?
  {
    assert r[1..][0] == r[1];
  }

  /** Appending a boundary-led text to a place where the pattern does not
      match keeps it from matching there. */
  lemma MatchAtGlue(u: string, r: string)
    requires Boundary(r) && MatchAt(u).None?
    ensures MatchAt(u + r).None?
  {
    if !(Label <= u) {
      NoSpaceInLiterals();
      LiteralStopsAtSpace(Label, u, r);
    } else {
      assert (u + r)[3..] == u[3..] + r;
      SkipGapGlue(u[3..], r);
    }
  }

  /** A gap-led text that does not start a view run still does not with a
      boundary-led text appended. */
  lemma SkipGapGlue(v: string, r: string)
    requires Boundary(r) && ViewRunAt(SkipGap(v)).None?
    ensures ViewRunAt(SkipGap(v + r)).None?
  {
    TrimStartGlue(v, r);
    var a := TrimStart(v);
    if a == "" {
      ViewRunAfterBoundary(r);
    } else {
      var b := if a[0] == ':' then a[1..] else a;
      assert (a + r)[0] == a[0];
      if a[0] == ':' {
        assert (a + r)[1..] == b + r;
      }
      ViewRunGlueTrimmed(b, r);
    }
  }

  /** A text whose trimmed form does not start a view run still does not
      with a boundary-led text appended. */
  lemma ViewRunGlueTrimmed(b: string, r: string)
    requires Boundary(r) && ViewRunAt(TrimStart(b)).None?
    ensures ViewRunAt(TrimStart(b + r)).None?
  {
    TrimStartGlue(b, r);
    if TrimStart(b) == "" {
      ViewRunAfterBoundary(r);
    } else {
      ViewRunGlue(TrimStart(b), r);
    }
  }

  /** The pattern finds nothing across a boundary it finds nothing on either
      side of. */
  lemma ExtractNoneConcat(a: string, r: string)
    requires Boundary(r)
    requires ExtractJobUrl(a).None? && ExtractJobUrl(r).None?
    ensures ExtractJobUrl(a + r).None?
  {
    ExtractSkipsPrefix(a, r);
  }

  /** Text that is boundary-free on the left keeps the leftmost match of the
      right-hand side. */
  lemma ExtractSkipsPrefix(a: string, r: string)
    requires Boundary(r) && ExtractJobUrl(a).None?
    ensures ExtractJobUrl(a + r) == ExtractJobUrl(r)
  {
    ExtractNoneAt(a);
    forall i | 0 <= i < |a| ensures MatchAt((a + r)[i..]).None? {
      assert (a + r)[i..] == a[i..] + r;
      MatchAtGlue(a[i..], r);
    }
    FirstMatchSkip(a + r, MatchAt, |a|);
    assert (a + r)[|a|..] == r;
  }

  /** The pattern needs an upper-case `U`. */
  lemma NoLabelNoMatch(s: string)
    requires forall i :: 0 <= i < |s| ==> s[i] != 'U'
    ensures ExtractJobUrl(s).None?
  {
    forall i | 0 <= i <= |s| ensures MatchAt(s[i..]).None? {
      if i < |s| {
        assert s[i..][0] == s[i];
      }
    }
    ExtractNoneAt(s);
  }

  /** Text without a `U` in front of another text changes nothing. */
  lemma SkipLabelFree(p: string, t: string)
    requires forall i :: 0 <= i < |p| ==> p[i] != 'U'
    ensures ExtractJobUrl(p + t) == ExtractJobUrl(t)
  {
    forall i | 0 <= i < |p| ensures MatchAt((p + t)[i..]).None? {
      assert (p + t)[i..][0] == p[i];
    }
    FirstMatchSkip(p + t, MatchAt, |p|);
    assert (p + t)[|p|..] == t;
  }

  /** The greedy run stops exactly where the URL characters stop. */
  lemma {:induction false} TakeUrlCharsExact(w: string, tail: string)
    requires forall i :: 0 <= i < |w| ==> UrlChar(w[i])
    requires |tail| == 0 || !UrlChar(tail[0])
    ensures TakeUrlChars(w + tail) == w
  {
    if |w| == 0 {
      assert w + tail == tail;
    } else {
      TakeUrlCharsExact(w[1..], tail);
      assert (w + tail)[1..] == w[1..] + tail;
      assert [w[0]] + w[1..] == w;
    }
  }

  /** The line `URL: <canonical url>` followed by a line break yields that URL. */
  lemma UrlLineMatches(id: string, tail: string)
    requires |id| > 0 && AllDigits(id)
    requires |tail| > 0 && tail[0] == '\n'
    ensures MatchAt("URL: " + ViewUrl(id) + tail) == Some(ViewUrl(id))
  {
    var url := ViewUrl(id);
    var s := "URL: " + url + tail;
    var x := url + tail;
    assert Label <= s;
    assert s[3..] == ": " + x;
    assert x[0] == 'h';
    ColonSpaceGap(x);
    ViewRunOfUrl(id, tail);
  }

  /** `: ` before a text that starts with a non-space is exactly the gap the
      pattern skips. */
  lemma ColonSpaceGap(x: string)
    requires |x| > 0 && !IsSpace(x[0])
    ensures SkipGap(": " + x) == x
  {
    assert TrimStart(": " + x) == ": " + x;
    assert (": " + x)[1..] == [' '] + x;
    assert TrimStart([' '] + x) == TrimStart(x) == x;
  }

  /** The canonical URL followed by a line break is read as a whole. */
  lemma ViewRunOfUrl(id: string, tail: string)
    requires |id| > 0 && AllDigits(id)
    requires |tail| > 0 && tail[0] == '\n'
    ensures ViewRunAt(ViewUrl(id) + tail) == Some(ViewUrl(id))
  {
    var x := ViewUrl(id) + tail;
    assert HttpsView <= x;
    assert x[|HttpsView|..] == (id + "/") + tail;
    assert forall i :: 0 <= i < |id + "/"| ==> UrlChar((id + "/")[i]);
    TakeUrlCharsExact(id + "/", tail);
    assert HttpsView + (id + "/") == ViewUrl(id);
  }

  /** `extractJobURL` reads back the canonical URL the list page records in
      an entry, provided the title holds no `URL` job link of its own. */
  lemma EntryUrlRoundTrip(title: string, id: string, found: seq<string>, stamp: string)
    requires |id| > 0 && AllDigits(id)
    requires ExtractJobUrl(title).None?
    ensures ExtractJobUrl(EntryText(title, ViewUrl(id), found, stamp)) == Some(ViewUrl(id))
  {
    var url := ViewUrl(id);
    var tail := "\nKeywords: " + Join(found, ", ") + "\nDate: " + stamp + "\n";
    var line := "URL: " + url + tail;
    var rest := "\n" + line;
    var head := "Job Title: " + title;
    assert Boundary(rest);
    calc {
      ExtractJobUrl(EntryText(title, url, found, stamp));
      { EntryTextShape(title, url, found, stamp); }
      ExtractJobUrl(head + rest);
      { SkipLabelFree("Job Title: ", title); ExtractSkipsPrefix(head, rest); }
      ExtractJobUrl(rest);
      { SkipLabelFree("\n", line); }
      ExtractJobUrl(line);
      { UrlLineMatches(id, tail); }
      Some(url);
    }
  }

  /** An entry is its title line, then a line break and the `URL` line with
      everything after it. */
  lemma EntryTextShape(title: string, url: string, found: seq<string>, stamp: string)
    ensures EntryText(title, url, found, stamp) ==
      ("Job Title: " + title) + ("\n" + ("URL: " + url + ("\nKeywords: " + Join(found, ", ") + "\nDate: " + stamp + "\n")))
  {
  }

  /** Text without an upper-case `U`, which the label needs. */
  predicate WithoutU(s: string) {
    forall i :: 0 <= i < |s| ==> s[i] != 'U'
  }

  lemma WithoutUConcat(a: string, b: string)
    requires WithoutU(a) && WithoutU(b)
    ensures WithoutU(a + b)
  {
    forall i | 0 <= i < |a + b| ensures (a + b)[i] != 'U' {
      if i < |a| {
        assert (a + b)[i] == a[i];
      } else {
        assert (a + b)[i] == b[i - |a|];
      }
    }
  }

  lemma DigitsWithoutU(s: string)
    requires AllDigits(s)
    ensures WithoutU(s)
  {
  }

  /** Every character of a timestamp is a digit, `/`, a space or `:`. */
  lemma DateHasNoLabel(d: DateTime)
    ensures forall i :: 0 <= i < |FormatDate(d)| ==> FormatDate(d)[i] != 'U'
  {
    var day, month, year, hour, minute := Pad2(d.day), Pad2(d.month), Decimal(d.year), Pad2(d.hour), Pad2(d.minute);
    DigitsWithoutU(day);
    DigitsWithoutU(month);
    DigitsWithoutU(year);
    DigitsWithoutU(hour);
    DigitsWithoutU(minute);
    assert WithoutU("/") && WithoutU(" ") && WithoutU(":");
    WithoutUConcat(day, "/");
    WithoutUConcat(day + "/", month);
    WithoutUConcat(day + "/" + month, "/");
    WithoutUConcat(day + "/" + month + "/", year);
    WithoutUConcat(day + "/" + month + "/" + year, " ");
    WithoutUConcat(day + "/" + month + "/" + year + " ", hour);
    WithoutUConcat(day + "/" + month + "/" + year + " " + hour, ":");
    WithoutUConcat(day + "/" + month + "/" + year + " " + hour + ":", minute);
    assert FormatDate(d) == day + "/" + month + "/" + year + " " + hour + ":" + minute;
  }

  /** An entry whose title, URL line and keyword line each hold no job link
      yields no key at all (for instance one built from a search-page
      address that names no job id). */
  lemma EntryWithoutViewUrl(title: string, url: string, found: seq<string>, stamp: string)
    requires ExtractJobUrl(title).None?
    requires ExtractJobUrl("URL: " + url).None?
    requires ExtractJobUrl(Join(found, ", ")).None?
    requires forall i :: 0 <= i < |stamp| ==> stamp[i] != 'U'
    ensures ExtractJobUrl(EntryText(title, url, found, stamp)).None?
  {
    var x3 := DateLine(stamp);
    var r2 := KeywordsLine(Join(found, ", "), x3);
    var r1 := "\n" + ("URL: " + url + r2);
    LineThen("URL: " + url, r2);
    var a0 := "Job Title: " + title;
    TitleLine(title);
    BoundaryAt("URL: " + url + r2);
    ExtractNoneConcat(a0, r1);
    EntryLines(title, url, found, stamp);
  }

  /** The title label adds no link of its own. */
  lemma TitleLine(title: string)
    ensures ExtractJobUrl("Job Title: " + title) == ExtractJobUrl(title)
  {
    SkipLabelFree("Job Title: ", title);
  }

  /** An entry read as its title line followed by the nested rest. */
  lemma EntryLines(title: string, url: string, found: seq<string>, stamp: string)
    ensures EntryText(title, url, found, stamp)
         == "Job Title: " + title + ("\n" + ("URL: " + url + ("\n" + ("Keywords: " + Join(found, ", ") + ("\nDate: " + stamp + "\n")))))
  {
  }

  /** The closing `Date` line of an entry holds no job link. */
  lemma DateLine(stamp: string) returns (x: string)
    requires forall i :: 0 <= i < |stamp| ==> stamp[i] != 'U'
    ensures x == "\nDate: " + stamp + "\n"
    ensures ExtractJobUrl(x).None? && Boundary(x)
  {
    x := "\nDate: " + stamp + "\n";
    forall i | 0 <= i < |x| ensures x[i] != 'U' {
      if 7 <= i < 7 + |stamp| {
        assert x[i] == stamp[i - 7];
      }
    }
    NoLabelNoMatch(x);
  }

  /** The `Keywords` line in front of the `Date` line holds no job link. */
  lemma KeywordsLine(k: string, x: string) returns (r: string)
    requires ExtractJobUrl(k).None?
    requires ExtractJobUrl(x).None? && Boundary(x)
    ensures r == "\n" + ("Keywords: " + k + x)
    ensures ExtractJobUrl(r).None? && Boundary(r)
  {
    SkipLabelFree("Keywords: ", k);
    LineThen("Keywords: " + k, x);
    r := "\n" + ("Keywords: " + k + x);
    BoundaryAt("Keywords: " + k + x);
  }

  /** A line break followed by a letter other than `h` is a boundary. */
  lemma BoundaryAt(w: string)
    requires |w| > 0 && !IsSpace(w[0]) && w[0] != ':' && w[0] != 'h'
    ensures Boundary("\n" + w)
  {
    var r := "\n" + w;
    assert r[0] == '\n' && r[1] == w[0];
  }

  /** A line that holds no job link and ends before a boundary keeps the
      whole text free of links. */
  lemma LineThen(a: string, x: string)
    requires ExtractJobUrl(a).None? && ExtractJobUrl(x).None? && Boundary(x)
    ensures ExtractJobUrl("\n" + (a + x)).None?
  {
    ExtractNoneConcat(a, x);
    SkipLabelFree("\n", a + x);
  }

  /** The URL line of an address that holds no job link itself, is not a
      job-view link and does not start with whitespace yields nothing. */
  lemma UrlLineWithoutViewLink(url: string)
    requires |url| > 0 && !IsSpace(url[0])
    requires ExtractJobUrl(url).None?
    requires !(HttpsView <= url) && !(HttpView <= url)
    ensures ExtractJobUrl("URL: " + url).None?
  {
    var s := "URL: " + url;
    assert s[3..] == ": " + url;
    ColonSpaceGap(url);
    assert MatchAt(s).None?;
    assert s[1..] == "RL: " + url;
    SkipLabelFree("RL: ", url);
    assert s[0..] == s;
  }
}
