/** The text record the content script posts for a matching job, and the
    pieces it is built from: the canonical job URL (taken from the page
    address when it names a job id) and the `DD/MM/YYYY HH:MM` timestamp
    (src/content.js). */
module Entries {
  import opened Text
  import opened Maybe

  /** Every canonical job page starts with this. */
  const ViewPrefix: string := "https://www.linkedin.com/jobs/view/"

  /** The canonical page of job `jobId`. */
  function ViewUrl(jobId: string): string {
    ViewPrefix + jobId + "/"
  }

  /** A canonical job page whose id is a run of decimal digits. */
  predicate CanonicalUrl(u: string) {
    |u| > |ViewPrefix| + 1 && ViewPrefix <= u && u[|u| - 1] == '/' && AllDigits(u[|ViewPrefix|..|u| - 1])
  }

  /** The canonical pages are exactly the view URLs of non-empty digit ids. */
  lemma CanonicalUrlIsViewUrl(u: string, id: string)
    ensures (|id| > 0 && AllDigits(id) && u == ViewUrl(id)) ==> CanonicalUrl(u)
    ensures CanonicalUrl(u) && id == u[|ViewPrefix|..|u| - 1] ==> u == ViewUrl(id)
  {
    if |id| > 0 && AllDigits(id) && u == ViewUrl(id) {
      assert u[|ViewPrefix|..|u| - 1] == id;
    }
  }

  // ---------------------------------------------------------------------------
  // Job ids in the page address
  // ---------------------------------------------------------------------------

  /** The longest prefix of `s` made of digits. */
  function LeadingDigits(s: string): (d: string)
    ensures d <= s && AllDigits(d)
    ensures |d| == |s| || !IsDigit(s[|d|])
  {
    if |s| > 0 && IsDigit(s[0]) then [s[0]] + LeadingDigits(s[1..]) else ""
  }

  /** The anchored matcher for `marker(\d+)closer` (closer optional): the
      digit run after `marker`, when there is at least one digit and, if
      given, the closer follows the run. Backtracking into a shorter run can
      never help because the character after a shorter run is a digit. */
  function DigitsAt(s: string, marker: string, closer: Option<char>): (r: Option<string>)
    ensures r.Some? ==> |r.value| > 0 && AllDigits(r.value) && marker + r.value <= s
    ensures r.Some? ==> |marker| + |r.value| == |s| || !IsDigit(s[|marker| + |r.value|])
    ensures r.Some? && closer.Some? ==> |marker| + |r.value| < |s| && s[|marker| + |r.value|] == closer.value
    ensures r.None? && marker <= s ==>
      var d := LeadingDigits(s[|marker|..]);
      |d| == 0 || (closer.Some? && (|marker| + |d| == |s| || s[|marker| + |d|] != closer.value))
  {
    if marker <= s then
      var d := LeadingDigits(s[|marker|..]);
      assert marker + d <= s by {
        assert s == marker + s[|marker|..];
      }
      if |d| > 0 && (closer.None? || (|marker| + |d| < |s| && s[|marker| + |d|] == closer.value)) then
        Some(d)
      else
        None
    else
      None
  }

  function CurrentJobIdAt(t: string): Option<string> {
    DigitsAt(t, "currentJobId=", None)
  }

  function DetailIdAt(t: string): Option<string> {
    DigitsAt(t, ViewPrefix, Some('/'))
  }

  /** `href.match(/currentJobId=(\d+)/)[1]`: the job id the list page shows
      in its detail pane, if the address names one. */
  function ListPageJobId(href: string): Option<string> {
    FirstMatch(href, CurrentJobIdAt)
  }

  /** A job id read from the address is the whole digit run that follows
      the first `currentJobId=` a digit follows; none is read exactly when
      no `currentJobId=` is followed by a digit. */
  lemma ListPageJobIdFound(href: string)
    ensures ListPageJobId(href).Some? ==>
      var id := ListPageJobId(href).value;
      |id| > 0 && AllDigits(id) && Contains(href, "currentJobId=" + id)
    ensures ListPageJobId(href).Some? ==>
      var id := ListPageJobId(href).value;
      exists i: nat :: OccursAt(href, "currentJobId=" + id, i) &&
        (i + 13 + |id| == |href| || !IsDigit(href[i + 13 + |id|])) &&
        forall j :: 0 <= j < i && j + 13 < |href| ==> !(OccursAt(href, "currentJobId=", j) && IsDigit(href[j + 13]))
    ensures ListPageJobId(href).None? <==>
      forall i :: 0 <= i < |href| - 13 ==> !(OccursAt(href, "currentJobId=", i) && IsDigit(href[i + 13]))
  {
    if ListPageJobId(href).Some? {
      ListPageJobIdSome(href);
    } else {
      ListPageJobIdNone(href);
    }
  }

  /** The read id sits after the first marker a digit follows. */
  lemma ListPageJobIdSome(href: string)
    requires ListPageJobId(href).Some?
    ensures var id := ListPageJobId(href).value;
      exists i: nat :: i + 13 < |href| && OccursAt(href, "currentJobId=" + id, i) &&
        (i + 13 + |id| == |href| || !IsDigit(href[i + 13 + |id|])) &&
        (forall j :: 0 <= j < i && j + 13 < |href| ==> !(OccursAt(href, "currentJobId=", j) && IsDigit(href[j + 13]))) &&
        OccursAt(href, "currentJobId=", i) && IsDigit(href[i + 13]) && |id| > 0 && AllDigits(id)
  {
    FirstMatchSpec(href, CurrentJobIdAt);
    var r := ListPageJobId(href);
    var i :| 0 <= i <= |href| && CurrentJobIdAt(href[i..]) == r && NoMatchBefore(href, CurrentJobIdAt, i);
    ListPageJobIdAt(href, i, r.value);
  }

  /** Without a read id, no marker is followed by a digit. */
  lemma ListPageJobIdNone(href: string)
    requires ListPageJobId(href).None?
    ensures forall i :: 0 <= i < |href| - 13 ==> !(OccursAt(href, "currentJobId=", i) && IsDigit(href[i + 13]))
  {
    FirstMatchSpec(href, CurrentJobIdAt);
    forall i | 0 <= i < |href| - 13 && OccursAt(href, "currentJobId=", i)
      ensures !IsDigit(href[i + 13])
    {
      CurrentJobIdAtDigit(href, i);
    }
  }

  /** The id read at the first position the matcher accepts: the marker and
      the whole digit run sit there, and no marker followed by a digit comes
      before it. */
  lemma ListPageJobIdAt(href: string, i: nat, id: string)
    requires i <= |href| && CurrentJobIdAt(href[i..]) == Some(id)
    requires NoMatchBefore(href, CurrentJobIdAt, i)
    ensures |id| > 0 && AllDigits(id) && OccursAt(href, "currentJobId=" + id, i)
    ensures i + 13 + |id| == |href| || !IsDigit(href[i + 13 + |id|])
    ensures i + 13 < |href| && OccursAt(href, "currentJobId=", i) && IsDigit(href[i + 13])
    ensures forall j :: 0 <= j < i && j + 13 < |href| ==> !(OccursAt(href, "currentJobId=", j) && IsDigit(href[j + 13]))
  {
    CurrentJobIdAtRead(href, i, id);
    forall j | 0 <= j < i && j + 13 < |href|
      ensures !(OccursAt(href, "currentJobId=", j) && IsDigit(href[j + 13]))
    {
      assert CurrentJobIdAt(href[j..]).None?;
      if OccursAt(href, "currentJobId=", j) {
        CurrentJobIdAtDigit(href, j);
      }
    }
  }

  /** Where `currentJobId=` occurs, the anchored matcher reads an id exactly
      when a digit follows the marker. */
  lemma CurrentJobIdAtDigit(href: string, i: nat)
    requires i + 13 < |href| && OccursAt(href, "currentJobId=", i)
    ensures CurrentJobIdAt(href[i..]).Some? <==> IsDigit(href[i + 13])
  {
    assert "currentJobId=" <= href[i..];
    assert href[i..][13..][0] == href[i + 13];
  }

  /** An id the anchored matcher reads at `i` is the whole digit run after
      the marker there. */
  lemma CurrentJobIdAtRead(href: string, i: nat, id: string)
    requires i <= |href| && CurrentJobIdAt(href[i..]) == Some(id)
    ensures |id| > 0 && AllDigits(id) && OccursAt(href, "currentJobId=" + id, i)
    ensures OccursAt(href, "currentJobId=", i) && i + 13 < |href| && IsDigit(href[i + 13])
    ensures i + 13 + |id| == |href| || !IsDigit(href[i + 13 + |id|])
  {
    PrefixOfSuffix(href, "currentJobId=" + id, i);
    assert href[i..][13] == href[i + 13] == id[0];
    assert "currentJobId=" <= href[i..];
    PrefixOfSuffix(href, "currentJobId=", i);
    if i + 13 + |id| < |href| {
      assert href[i..][13 + |id|] == href[i + 13 + |id|];
    }
  }

  /** `href.match(/https:\/\/www\.linkedin\.com\/jobs\/view\/(\d+)\//)[1]`:
      the job id of a job detail page, if the address is one. */
  function DetailPageJobId(href: string): Option<string> {
    FirstMatch(href, DetailIdAt)
  }

  /** A detail page's id is a non-empty digit run whose canonical page
      occurs in the address, and no canonical page of a digit id occurs
      before it; none is read exactly when no such page occurs at all. */
  lemma DetailPageJobIdFound(href: string)
    ensures DetailPageJobId(href).Some? ==>
      var id := DetailPageJobId(href).value;
      |id| > 0 && AllDigits(id) && Contains(href, ViewUrl(id))
    ensures DetailPageJobId(href).Some? ==>
      exists i: nat :: OccursAt(href, ViewUrl(DetailPageJobId(href).value), i) &&
        forall j: nat, d :: j < i && |d| > 0 && AllDigits(d) ==> !OccursAt(href, ViewUrl(d), j)
    ensures DetailPageJobId(href).None? <==>
      forall i: nat, d :: i <= |href| && |d| > 0 && AllDigits(d) ==> !OccursAt(href, ViewUrl(d), i)
  {
    FirstMatchSpec(href, DetailIdAt);
    var r := DetailPageJobId(href);
    if r.Some? {
      var i :| 0 <= i <= |href| && DetailIdAt(href[i..]) == r && NoMatchBefore(href, DetailIdAt, i);
      var t := href[i..];
      PrefixExtend(ViewPrefix + r.value, t, '/');
      PrefixOfSuffix(href, ViewUrl(r.value), i);
      forall j: nat, d | j < i && |d| > 0 && AllDigits(d) ensures !OccursAt(href, ViewUrl(d), j) {
        DetailIdOccurs(href, j, d);
      }
    } else {
      forall i: nat, d | i <= |href| && |d| > 0 && AllDigits(d) ensures !OccursAt(href, ViewUrl(d), i) {
        DetailIdOccurs(href, i, d);
      }
    }
  }

  /** Where the canonical page of a digit id occurs, the anchored matcher
      reads that id. */
  lemma DetailIdOccurs(href: string, i: nat, d: string)
    requires i <= |href| && |d| > 0 && AllDigits(d)
    ensures OccursAt(href, ViewUrl(d), i) ==> DetailIdAt(href[i..]) == Some(d)
  {
    if OccursAt(href, ViewUrl(d), i) {
      assert href[i..][..|ViewUrl(d)|] == href[i..i + |ViewUrl(d)|];
      ViewUrlRead(href[i..], d);
    }
  }

  /** The digit run that fills a text up to a non-digit is its leading
      digit run. */
  lemma {:induction false} LeadingDigitsExact(d: string, tail: string)
    requires AllDigits(d) && (|tail| == 0 || !IsDigit(tail[0]))
    ensures LeadingDigits(d + tail) == d
  {
    if |d| == 0 {
      assert d + tail == tail;
    } else {
      LeadingDigitsExact(d[1..], tail);
      assert (d + tail)[1..] == d[1..] + tail;
      assert [d[0]] + d[1..] == d;
    }
  }

  /** A text that starts with the canonical page of a digit id is read as
      that id. */
  lemma ViewUrlRead(t: string, d: string)
    requires |d| > 0 && AllDigits(d) && ViewUrl(d) <= t
    ensures DetailIdAt(t) == Some(d)
  {
    var n := |ViewPrefix|;
    assert ViewPrefix <= t;
    assert t[n..] == d + t[n + |d|..];
    assert t[n + |d|] == '/';
    LeadingDigitsExact(d, t[n + |d|..]);
  }

  /** The URL a list-page entry records: the canonical page of the job id in
      the address, or the raw address when it names none. */
  function ListPageJobUrl(href: string): (u: string)
    ensures ListPageJobId(href).Some? ==> CanonicalUrl(u) && u == ViewUrl(ListPageJobId(href).value)
    ensures ListPageJobId(href).None? ==> u == href
  {
    match ListPageJobId(href)
    case Some(id) =>
      ListPageJobIdFound(href);
      CanonicalUrlIsViewUrl(ViewUrl(id), id);
      ViewUrl(id)
    case None => href
  }

  // ---------------------------------------------------------------------------
  // Timestamp
  // ---------------------------------------------------------------------------

  /** The local date and time fields read from `Date` (month counted from 1). */
  datatype DateTime = DateTime(day: nat, month: nat, year: nat, hour: nat, minute: nat)

  /** The ranges `Date` guarantees, with a four-digit year. */
  predicate ValidDateTime(d: DateTime) {
    1 <= d.day <= 31 && 1 <= d.month <= 12 && 1000 <= d.year <= 9999 && d.hour < 24 && d.minute < 60
  }

  /** `String(n).padStart(2, '0')`. */
  function Pad2(n: nat): (r: string)
    ensures AllDigits(r) && DecimalValue(r) == n
    ensures n < 100 ==> |r| == 2
  {
    if n < 10 then "0" + Decimal(n)
    else
      assert n < 100 ==> |Decimal(n / 10)| == 1;
      Decimal(n)
  }

  /** `DD/MM/YYYY HH:MM`. */
  function FormatDate(d: DateTime): string {
    Pad2(d.day) + "/" + Pad2(d.month) + "/" + Decimal(d.year) + " " + Pad2(d.hour) + ":" + Pad2(d.minute)
  }

  /** Reads a `DD/MM/YYYY HH:MM` timestamp back. */
  function ParseDate(s: string): Option<DateTime> {
    if |s| == 16 && s[2] == '/' && s[5] == '/' && s[10] == ' ' && s[13] == ':'
       && AllDigits(s[0..2]) && AllDigits(s[3..5]) && AllDigits(s[6..10])
       && AllDigits(s[11..13]) && AllDigits(s[14..16])
    then
      Some(DateTime(DecimalValue(s[0..2]), DecimalValue(s[3..5]), DecimalValue(s[6..10]),
                    DecimalValue(s[11..13]), DecimalValue(s[14..16])))
    else
      None
  }

  lemma FourDigits(n: nat)
    requires 1000 <= n <= 9999
    ensures |Decimal(n)| == 4
  {
    assert |Decimal(n / 1000)| == 1;
    assert |Decimal(n / 100)| == 2;
    assert |Decimal(n / 10)| == 3;
  }

  /** The timestamp is fixed-width and every field reads back. */
  lemma FormatDateRoundTrip(d: DateTime)
    requires ValidDateTime(d)
    ensures |FormatDate(d)| == 16
    ensures ParseDate(FormatDate(d)) == Some(d)
  {
    FourDigits(d.year);
    StampFields(Pad2(d.day), Pad2(d.month), Decimal(d.year), Pad2(d.hour), Pad2(d.minute));
  }

  /** Where each field and separator of a stamp built from fields of width
      2, 2, 4, 2 and 2 sits. */
  lemma StampFields(dd: string, mm: string, yy: string, hh: string, mi: string)
    requires |dd| == 2 && |mm| == 2 && |yy| == 4 && |hh| == 2 && |mi| == 2
    ensures var s := dd + "/" + mm + "/" + yy + " " + hh + ":" + mi;
      |s| == 16 && s[2] == '/' && s[5] == '/' && s[10] == ' ' && s[13] == ':'
      && s[0..2] == dd && s[3..5] == mm && s[6..10] == yy && s[11..13] == hh && s[14..16] == mi
  {
  }

  // ---------------------------------------------------------------------------
  // The match record
  // ---------------------------------------------------------------------------

  /** The record posted with `add_match`: four labelled lines, each ending in
      a line feed; `stamp` is the formatted timestamp. */
  function EntryText(title: string, url: string, found: seq<string>, stamp: string): string {
    "Job Title: " + title + "\nURL: " + url + "\nKeywords: " + Join(found, ", ") + "\nDate: " + stamp + "\n"
  }
}
