// The popup: the radar switch, the job counter, the download and flush
// buttons, the open-jobs button with its page check and its reaction to
// the opener's status notices.

module Popup {
  import opened Maybe
  import opened Text
  import opened Keywords
  import opened JobIds
  import opened TabOpener
  import opened Background

  // ---------------------------------------------------------------------------
  // Radar switch
  // ---------------------------------------------------------------------------

  const RadarOnLabel: string := "Keyword Radar ON"
  const RadarOffLabel: string := "Keyword Radar OFF"

  /** The switch's text and whether it carries the `active` class. */
  datatype RadarButton = RadarButton(caption: string, active: bool)

  /** `updateRadarButton(enabled)`. */
  function RadarButtonFor(enabled: bool): (b: RadarButton)
    ensures b.active == enabled
    ensures b.caption == RadarOnLabel <==> enabled
    ensures b.caption == RadarOffLabel <==> !enabled
  {
    RadarButton(if enabled then RadarOnLabel else RadarOffLabel, enabled)
  }

  /** A click on the switch: the stored setting, the state sent with
      `updateIcon` and the switch as shown afterwards. */
  datatype RadarClick = RadarClick(stored: bool, icon: bool, button: RadarButton)

  function ClickRadar(stored: Option<bool>): (r: RadarClick)
    ensures RadarOn(Some(r.stored)) == !RadarOn(stored)
    ensures r.icon == RadarOn(Some(r.stored)) == r.button.active
    ensures r.button == RadarButtonFor(r.stored)
  {
    var next := !RadarOn(stored);
    RadarClick(next, next, RadarButtonFor(next))
  }

  /** Two clicks give back the state the content scripts saw before. */
  lemma ClickTwiceRestores(stored: Option<bool>)
    ensures RadarOn(Some(ClickRadar(Some(ClickRadar(stored).stored)).stored)) == RadarOn(stored)
  {
  }

  // ---------------------------------------------------------------------------
  // Job counter
  // ---------------------------------------------------------------------------

  const CounterSuffix: string := " Job(s) Found"

  /** `updateJobCounter(count)`. */
  function CounterText(count: nat): (t: string)
    ensures |t| > |CounterSuffix| && t[|t| - |CounterSuffix|..] == CounterSuffix
  {
    Decimal(count) + CounterSuffix
  }

  /** The counter's text gives the count back: its digits, before the fixed
      suffix, denote it. */
  lemma CounterTextReadsBack(count: nat)
    ensures var t := CounterText(count);
      var d := t[..|t| - |CounterSuffix|];
      AllDigits(d) && DecimalValue(d) == count
  {
    var t := CounterText(count);
    assert t[..|t| - |CounterSuffix|] == Decimal(count);
  }

  /** Different counts show different texts. */
  lemma CounterTextInjective(a: nat, b: nat)
    requires CounterText(a) == CounterText(b)
    ensures a == b
  {
    CounterTextReadsBack(a);
    CounterTextReadsBack(b);
  }

  /** After the list page reported its count once, the popup opened later
      shows that same count. */
  lemma CounterShowsReportedCount(counts: seq<nat>)
    requires |RunCounts(CounterStart, counts).reported| == 1
    ensures CounterText(JobCountReply(RunCounts(CounterStart, counts).last))
         == CounterText(RunCounts(CounterStart, counts).reported[0])
  {
    CountReportedOnce(CounterStart, counts);
  }

  // ---------------------------------------------------------------------------
  // Download and flush
  // ---------------------------------------------------------------------------

  /** The download button's text and whether the download and flush buttons
      are disabled. */
  datatype Buttons = Buttons(caption: string, downloadDisabled: bool, flushDisabled: bool)

  const DownloadPrefix: string := "Download ("
  const DownloadSuffix: string := ") Matches"

  /** `updateDownloadButton` on a reply whose `count` field is `countField`;
      a missing or zero count both read as zero. The label is the count
      between a fixed prefix and suffix. */
  function ButtonsFor(countField: Option<nat>): (b: Buttons)
    ensures b.flushDisabled == b.downloadDisabled
    ensures b.downloadDisabled <==> countField.None? || countField.value == 0
    ensures |b.caption| > |DownloadPrefix| + |DownloadSuffix|
    ensures b.caption[..|DownloadPrefix|] == DownloadPrefix
    ensures b.caption[|b.caption| - |DownloadSuffix|..] == DownloadSuffix
  {
    var n := countField.GetOr(0);
    var c := DownloadPrefix + Decimal(n) + DownloadSuffix;
    assert c[..|DownloadPrefix|] == DownloadPrefix;
    assert c[|c| - |DownloadSuffix|..] == DownloadSuffix;
    Buttons(c, n == 0, n == 0)
  }

  /** The label gives the count back: the text between its prefix and its
      suffix is the digits of the count, a missing count reading as 0. */
  lemma ButtonLabelReadsBack(countField: Option<nat>)
    ensures var c := ButtonsFor(countField).caption;
      var d := c[|DownloadPrefix|..|c| - |DownloadSuffix|];
      AllDigits(d) && DecimalValue(d) == countField.GetOr(0)
  {
    var c := ButtonsFor(countField).caption;
    assert c[|DownloadPrefix|..|c| - |DownloadSuffix|] == Decimal(countField.GetOr(0));
  }

  /** No reply leaves the buttons as they were. */
  function UpdateButtons(current: Buttons, reply: Option<Reply>): (b: Buttons)
    ensures reply.None? ==> b == current
    ensures reply.Some? && reply.value.CountReply? ==> b == ButtonsFor(Some(reply.value.count))
  {
    match reply
    case None => current
    case Some(CountReply(n)) => ButtonsFor(Some(n))
    case Some(_) => ButtonsFor(None)
  }

  /** Different counts give different labels. */
  lemma ButtonLabelInjective(a: nat, b: nat)
    requires ButtonsFor(Some(a)).caption == ButtonsFor(Some(b)).caption
    ensures a == b
  {
    ButtonLabelReadsBack(Some(a));
    ButtonLabelReadsBack(Some(b));
  }

  /** Answered from the background's store, the buttons are disabled exactly
      when the store is empty, and after the clear that follows a download
      or a flush they are disabled. */
  lemma ButtonsTrackStore(store: seq<string>)
    ensures ButtonsFor(Some(|store|)).downloadDisabled <==> store == []
    ensures ButtonsFor(Some(|StoreAfter(store, ClearMatches)|)).downloadDisabled
    ensures ButtonsFor(Some(|StoreAfter(store, ClearMatches)|)).flushDisabled
  {
  }

  // ---------------------------------------------------------------------------
  // Export
  // ---------------------------------------------------------------------------

  /** The block for the match at position `i`: its number from one, a line
      break and the entry. */
  function Block(i: nat, m: string): string {
    "#" + Decimal(i + 1) + "\n" + m
  }

  /** The blocks of `matches`, numbered from position `start`. */
  function Blocks(matches: seq<string>, start: nat): (r: seq<string>)
    ensures |r| == |matches|
  {
    seq(|matches|, i requires 0 <= i < |matches| => Block(start + i, matches[i]))
  }

  /** The file's content: the numbered blocks separated by line breaks. */
  function ExportText(matches: seq<string>): (t: string)
    ensures matches == [] <==> t == ""
  {
    var bs := Blocks(matches, 0);
    if |bs| > 0 then
      JoinStartsWithFirst(bs, "\n");
      assert bs[0] == Block(0, matches[0]);
      Join(bs, "\n")
    else
      Join(bs, "\n")
  }

  /** Every match appears in the file under its own number. */
  lemma ExportListsEach(matches: seq<string>, i: nat)
    requires i < |matches|
    ensures Contains(ExportText(matches), Block(i, matches[i]))
  {
    JoinContainsPart(Blocks(matches, 0), "\n", i);
  }

  /** The file starts with the first match numbered one. */
  lemma ExportStartsWithFirst(matches: seq<string>)
    requires |matches| > 0
    ensures "#1\n" + matches[0] <= ExportText(matches)
  {
    JoinStartsWithFirst(Blocks(matches, 0), "\n");
    assert Decimal(1) == "1";
  }

  /** Exporting more matches extends the file: the new matches follow on a
      new line, numbered on from the old ones. */
  lemma ExportConcat(a: seq<string>, b: seq<string>)
    requires |a| > 0 && |b| > 0
    ensures ExportText(a + b) == ExportText(a) + "\n" + Join(Blocks(b, |a|), "\n")
  {
    assert Blocks(a + b, 0) == Blocks(a, 0) + Blocks(b, |a|);
    JoinConcat(Blocks(a, 0), Blocks(b, |a|), "\n");
  }

  // ---------------------------------------------------------------------------
  // Open jobs
  // ---------------------------------------------------------------------------

  const JobsSearchPrefix: string := "https://www.linkedin.com/jobs/search/"
  const JobsCollectionsPrefix: string := "https://www.linkedin.com/jobs/collections/"
  const NotAListPage: string :=
    "Error: This feature works only on a webpage with a list of jobs.\nMake a search and try it again."

  /** What the open-jobs click sends to the page. */
  datatype TabMessage = ShowErrorAlert(message: string) | ExtractJobIds

  /** The open-jobs click on the active tab at `url`. */
  function OpenJobsClick(url: string): (m: TabMessage)
    ensures m.ExtractJobIds? <==> JobsSearchPrefix <= url || JobsCollectionsPrefix <= url
    ensures m.ShowErrorAlert? ==> m.message == NotAListPage
  {
    if JobsSearchPrefix <= url || JobsCollectionsPrefix <= url then ExtractJobIds
    else ShowErrorAlert(NotAListPage)
  }

  /** Every page the list features run on passes the click's check. */
  lemma ListPagePassesClick(href: string)
    requires IsJobListPage(href)
    ensures OpenJobsClick(href) == ExtractJobIds
  {
    if PageUnder(href, RecommendedPrefix) {
      CollectionsCoverRecommended();
      PrefixChain(JobsCollectionsPrefix, RecommendedPrefix, href);
    } else {
      assert SearchPrefix <= href;
    }
  }

  lemma CollectionsCoverRecommended()
    ensures JobsCollectionsPrefix <= RecommendedPrefix
  {
    assert RecommendedPrefix == JobsCollectionsPrefix + "recommended/";
  }

  lemma PrefixChain(p: string, q: string, s: string)
    requires p <= q && q <= s
    ensures p <= s
  {
    assert s[..|p|] == q[..|p|];
  }

  /** The click's check is wider: another collection passes it although the
      list features do not run there. */
  lemma ClickAcceptsOtherCollections()
    ensures var href := "https://www.linkedin.com/jobs/collections/top-applicant/";
      OpenJobsClick(href) == ExtractJobIds && !IsJobListPage(href)
  {
    var href := "https://www.linkedin.com/jobs/collections/top-applicant/";
    assert href[..|JobsCollectionsPrefix|] == JobsCollectionsPrefix;
    assert href[..|RecommendedPrefix|][42] != RecommendedPrefix[42];
    assert href[..|SearchPrefix|][30] != SearchPrefix[30];
  }

  /** The open-jobs button's disabled state after one status notice: a start
      disables it, the finish enables it, progress leaves it. */
  function OnStatus(disabled: bool, s: Status): (d: bool)
    ensures s.Progress? ==> d == disabled
    ensures !s.Progress? ==> (d <==> s.Started?)
  {
    match s
    case Started(_) => true
    case Progress(_, _) => disabled
    case Finished(_) => false
  }

  /** The disabled state after a run of notices. */
  function AfterStatuses(disabled: bool, ss: seq<Status>): bool
    decreases |ss|
  {
    if |ss| == 0 then disabled else OnStatus(AfterStatuses(disabled, ss[..|ss| - 1]), ss[|ss| - 1])
  }

  /** Progress notices never change the button. */
  lemma {:induction false} ProgressKeepsButton(disabled: bool, j: nat, k: nat, total: nat)
    requires j <= k
    ensures AfterStatuses(disabled, Progresses(k, total)[..j]) == disabled
    decreases j
  {
    if j > 0 {
      var ps := Progresses(k, total)[..j];
      assert ps[..j - 1] == Progresses(k, total)[..j - 1];
      ProgressKeepsButton(disabled, j - 1, k, total);
    }
  }

  /** Over the notices the opener sends for a non-empty list, the button is
      disabled from the start notice until the finish notice, which enables
      it again. */
  lemma {:induction false} OpenButtonDuringRun(disabled: bool, n: nat, count: nat)
    ensures var ns := [Started(n)] + Progresses(count, n) + [Finished(count)];
      && (forall j :: 1 <= j < |ns| ==> AfterStatuses(disabled, ns[..j]))
      && !AfterStatuses(disabled, ns)
  {
    var ns := [Started(n)] + Progresses(count, n) + [Finished(count)];
    forall j | 1 <= j < |ns| ensures AfterStatuses(disabled, ns[..j]) {
      StartedThenProgress(disabled, n, count, j - 1);
      assert ns[..j] == [Started(n)] + Progresses(count, n)[..j - 1];
    }
  }

  /** The start notice followed by any prefix of the progress notices leaves
      the button disabled. */
  lemma {:induction false} StartedThenProgress(disabled: bool, n: nat, count: nat, j: nat)
    requires j <= count
    ensures AfterStatuses(disabled, [Started(n)] + Progresses(count, n)[..j])
    decreases j
  {
    var ps := Progresses(count, n)[..j];
    var ss := [Started(n)] + ps;
    if j > 0 {
      StartedThenProgress(disabled, n, count, j - 1);
      assert ss[..|ss| - 1] == [Started(n)] + Progresses(count, n)[..j - 1];
      assert ss[|ss| - 1] == Progress(j, n);
    } else {
      assert ss[..0] == [];
    }
  }
}
