// The job detail page scanner: once the description is there, it scores
// it against the keywords, reports a match with the page's canonical
// address and marks the title heading once; a poll retries the scan every
// half second for ten seconds.

module DetailPage {
  import opened Maybe
  import opened Text
  import opened Keywords
  import opened Entries
  import opened UrlExtract
  import opened MatchStore

  const IsMatch: string := "is-match"
  const IsNotMatch: string := "is-not-match"

  /** Milliseconds the poll keeps trying, and its step. */
  const MaxWait: nat := 10000
  const Interval: nat := 500

  /** The title used when the page has no heading. */
  const UnknownTitle: string := "Unknown"

  /** The page's first `h1`: its text, classes and whether it was styled
      already (the `keywordStyled` data attribute). */
  datatype Heading = Heading(text: string, classes: set<string>, styled: bool)

  /** The result of one scan: whether the description was there, the entry
      sent, if any, and the heading afterwards. */
  datatype Scan = Scan(ready: bool, sent: Option<string>, heading: Option<Heading>)

  /** `applyH1Styling(isMatch)`: a heading not styled before loses both
      markers, gains the one for `isMatch` and is flagged as styled. */
  function ApplyHeading(h: Option<Heading>, isMatch: bool): (r: Option<Heading>)
    ensures h.None? ==> r.None?
    ensures h.Some? && h.value.styled ==> r == h
    ensures h.Some? && !h.value.styled ==>
      && r.Some? && r.value.styled && r.value.text == h.value.text
      && (IsMatch in r.value.classes <==> isMatch)
      && (IsNotMatch in r.value.classes <==> !isMatch)
      && r.value.classes - {IsMatch, IsNotMatch} == h.value.classes - {IsMatch, IsNotMatch}
  {
    match h
    case None => None
    case Some(x) =>
      if x.styled then h
      else Some(Heading(x.text, x.classes - {IsMatch, IsNotMatch} + {if isMatch then IsMatch else IsNotMatch}, true))
  }

  /** The heading is styled at most once: later scans leave it as the first
      one left it. */
  lemma HeadingStyledOnce(h: Option<Heading>, first: bool, later: bool)
    ensures ApplyHeading(ApplyHeading(h, first), later) == ApplyHeading(h, first)
  {
  }

  /** The title written into the entry: the heading's untrimmed text. */
  function TitleText(h: Option<Heading>): string {
    if h.Some? then h.value.text else UnknownTitle
  }

  /** `scanForMatches` on the page of job `jobId`. */
  function ScanForMatches(paragraphs: seq<string>, heading: Option<Heading>, keywords: seq<string>,
                          jobId: string, now: DateTime): (r: Scan)
    ensures r.ready <==> |paragraphs| > 0
    ensures !r.ready ==> r.heading == heading && r.sent.None?
    ensures r.heading.Some? <==> heading.Some?
  {
    if |paragraphs| == 0 then Scan(false, None, heading)
    else
      var found := FindKeywords(CombinedText(paragraphs), keywords);
      if |found| > 0 then
        var entry := EntryText(TitleText(heading), ViewUrl(jobId), found, FormatDate(now));
        Scan(true, Some(entry), ApplyHeading(heading, true))
      else
        Scan(true, None, ApplyHeading(heading, false))
  }

  /** A scan sends an entry exactly when the description mentions some
      keyword; the entry lists exactly the mentioned keywords and the
      heading, if fresh, gets the matching marker. */
  lemma ScanSendsOnMatch(paragraphs: seq<string>, heading: Option<Heading>, keywords: seq<string>,
                         jobId: string, now: DateTime)
    ensures var r := ScanForMatches(paragraphs, heading, keywords, jobId, now);
      var text := CombinedText(paragraphs);
      && (r.sent.Some? <==> |paragraphs| > 0 && exists k :: k in keywords && Mentions(text, k))
      && (r.sent.Some? ==>
            r.sent.value == EntryText(TitleText(heading), ViewUrl(jobId), FindKeywords(text, keywords), FormatDate(now)))
      && (r.ready && heading.Some? && !heading.value.styled ==>
            (IsMatch in r.heading.value.classes <==> r.sent.Some?))
  {
    var text := CombinedText(paragraphs);
    var found := FindKeywords(text, keywords);
    if |found| > 0 {
      assert found[0] in found;
    }
  }

  /** The background script stores what a detail page sends, keyed by the
      page's canonical address, unless that job is stored already, as long
      as the heading text holds no job link of its own. */
  lemma ScanEntryStored(store: seq<string>, paragraphs: seq<string>, heading: Option<Heading>,
                        keywords: seq<string>, href: string, now: DateTime)
    requires DetailPageJobId(href).Some?
    requires ExtractJobUrl(TitleText(heading)).None?
    ensures var id := DetailPageJobId(href).value;
      var r := ScanForMatches(paragraphs, heading, keywords, id, now);
      r.sent.Some? ==>
        && ExtractJobUrl(r.sent.value) == Some(ViewUrl(id))
        && (AddMatch(Key, store, r.sent.value) == store + [r.sent.value] <==> ViewUrl(id) !in Keys(Key, store))
  {
    var id := DetailPageJobId(href).value;
    DetailPageJobIdFound(href);
    var r := ScanForMatches(paragraphs, heading, keywords, id, now);
    if r.sent.Some? {
      var found := FindKeywords(CombinedText(paragraphs), keywords);
      EntryUrlRoundTrip(TitleText(heading), id, found, FormatDate(now));
      ListEntryStored(store, TitleText(heading), id, found, FormatDate(now));
    }
  }

  /** The detail page script once storage has answered with the radar
      switch and the saved keywords: with the radar switched off it stops at
      once and scans nothing; otherwise it scans with the keywords in use. */
  function RadarScan(enabled: Option<bool>, saved: Option<seq<string>>, paragraphs: seq<string>,
                     heading: Option<Heading>, jobId: string, now: DateTime): (r: Option<Scan>)
    ensures r.None? <==> enabled == Some(false)
    ensures r.Some? ==> (r.value.ready <==> |paragraphs| > 0)
    ensures r.Some? ==> (r.value.sent.Some? <==>
      |paragraphs| > 0 && exists k :: k in KeywordsInUse(saved) && Mentions(CombinedText(paragraphs), k))
  {
    if !RadarOn(enabled) then None
    else
      ScanSendsOnMatch(paragraphs, heading, KeywordsInUse(saved), jobId, now);
      Some(ScanForMatches(paragraphs, heading, KeywordsInUse(saved), jobId, now))
  }

  // ---------------------------------------------------------------------------
  // Polling
  // ---------------------------------------------------------------------------

  /** `pollForMatches` started with `elapsed` already waited: the number of
      scans it makes when the scan at `elapsed` milliseconds reports
      `ok(elapsed / Interval)`. */
  function PollFrom(ok: nat -> bool, elapsed: nat): (scans: nat)
    requires elapsed % Interval == 0 && elapsed <= MaxWait
    decreases MaxWait - elapsed
  {
    if ok(elapsed / Interval) then 1
    else if elapsed < MaxWait then 1 + PollFrom(ok, elapsed + Interval)
    else 1
  }

  /** The poll scans until a scan succeeds, at most 21 times: every scan
      before the last failed, and the last succeeded or came at the ten
      second mark. */
  lemma {:induction false} PollBound(ok: nat -> bool, k: nat)
    requires k <= MaxWait / Interval
    ensures var n := PollFrom(ok, k * Interval);
      && 1 <= n <= MaxWait / Interval + 1 - k
      && (forall j :: k <= j < k + n - 1 ==> !ok(j))
      && (ok(k + n - 1) || k + n - 1 == MaxWait / Interval)
    decreases MaxWait / Interval - k
  {
    var e := k * Interval;
    assert e / Interval == k;
    if !ok(k) && e < MaxWait {
      PollBound(ok, k + 1);
      assert (k + 1) * Interval == e + Interval;
    }
  }

  /** From the start, the poll makes between 1 and 21 scans. */
  lemma PollAtMost21(ok: nat -> bool)
    ensures 1 <= PollFrom(ok, 0) <= 21
    ensures forall j :: 0 <= j < PollFrom(ok, 0) - 1 ==> !ok(j)
  {
    PollBound(ok, 0);
  }
}
