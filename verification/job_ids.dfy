// The job list page's bookkeeping: which list items count as jobs, the
// one-time job count report, and the extraction of job addresses for the
// open-all workflow.

module JobIds {
  import opened Maybe
  import opened Text
  import opened Entries

  const RecommendedPrefix: string := "https://www.linkedin.com/jobs/collections/recommended/"
  const SearchPrefix: string := "https://www.linkedin.com/jobs/search/"
  const EmberPrefix: string := "ember"

  /** The characters a regular expression's `.` refuses. */
  predicate LineTerminator(c: char) {
    c == '\n' || c == '\r' || c == '\U{2028}' || c == '\U{2029}'
  }

  /** `href` starts with `p` followed by at least one more character that
      `.` accepts. */
  predicate PageUnder(href: string, p: string) {
    |href| > |p| && href[..|p|] == p && !LineTerminator(href[|p|])
  }

  /** The anchored pattern that enables the list page features: the
      recommended collection or a search, with something after the slash. */
  predicate IsJobListPage(href: string) {
    PageUnder(href, RecommendedPrefix) || PageUnder(href, SearchPrefix)
  }

  /** A list item as the page offers it: its `id` and, when present, the
      value of its `data-occludable-job-id` attribute. */
  datatype ListItem = ListItem(id: string, jobId: Option<string>)

  /** `/^ember\d+$/`: the prefix and at least one ASCII digit, nothing else. */
  predicate IsEmberId(id: string) {
    |id| > |EmberPrefix| && id[..|EmberPrefix|] == EmberPrefix && AllDigits(id[|EmberPrefix|..])
  }

  /** An item `countJobs` counts: an ember id and the attribute present,
      whatever its value. */
  predicate Counts(item: ListItem) {
    IsEmberId(item.id) && item.jobId.Some?
  }

  /** An item the extraction keeps: an ember id and an attribute value that
      is not blank after trimming. */
  predicate Keeps(item: ListItem) {
    IsEmberId(item.id) && item.jobId.Some? && Trim(item.jobId.value) != ""
  }

  /** `countJobs`. */
  function CountJobs(items: seq<ListItem>): (n: nat)
    ensures n <= |items|
    ensures n == 0 <==> forall i :: 0 <= i < |items| ==> !Counts(items[i])
    decreases |items|
  {
    if |items| == 0 then 0
    else
      var rest := CountJobs(items[1..]);
      assert forall i :: 1 <= i < |items| ==> items[i] == items[1..][i - 1];
      (if Counts(items[0]) then 1 else 0) + rest
  }

  /** The addresses built from the kept items' raw attribute values, in page
      order. */
  function JobUrls(items: seq<ListItem>): (urls: seq<string>)
    decreases |items|
  {
    if |items| == 0 then []
    else (if Keeps(items[0]) then [ViewUrl(items[0].jobId.value)] else []) + JobUrls(items[1..])
  }

  /** Extraction distributes over the page: the addresses of two runs of
      items are those of each, in order. */
  lemma {:induction false} JobUrlsConcat(a: seq<ListItem>, b: seq<ListItem>)
    ensures JobUrls(a + b) == JobUrls(a) + JobUrls(b)
    decreases |a|
  {
    if |a| > 0 {
      assert (a + b)[0] == a[0];
      assert (a + b)[1..] == a[1..] + b;
      JobUrlsConcat(a[1..], b);
      var head := if Keeps(a[0]) then [ViewUrl(a[0].jobId.value)] else [];
      assert JobUrls(a + b) == head + (JobUrls(a[1..]) + JobUrls(b));
      assert JobUrls(a) == head + JobUrls(a[1..]);
      assert head + (JobUrls(a[1..]) + JobUrls(b)) == (head + JobUrls(a[1..])) + JobUrls(b);
    } else {
      assert a + b == b;
    }
  }

  /** An address is extracted exactly when some kept item carries its id. */
  lemma {:induction false} JobUrlsMembers(items: seq<ListItem>, u: string)
    ensures u in JobUrls(items) <==>
      exists i :: 0 <= i < |items| && Keeps(items[i]) && u == ViewUrl(items[i].jobId.value)
    decreases |items|
  {
    if |items| > 0 {
      JobUrlsMembers(items[1..], u);
      if u in JobUrls(items[1..]) {
        var i :| 0 <= i < |items[1..]| && Keeps(items[1..][i]) && u == ViewUrl(items[1..][i].jobId.value);
        assert items[i + 1] == items[1..][i];
      }
      if exists i :: 0 <= i < |items| && Keeps(items[i]) && u == ViewUrl(items[i].jobId.value) {
        var i :| 0 <= i < |items| && Keeps(items[i]) && u == ViewUrl(items[i].jobId.value);
        if i > 0 {
          assert items[1..][i - 1] == items[i];
        }
      }
    }
  }

  /** Every extracted item is also counted, so the confirmation never offers
      more tabs than the counter reported jobs. */
  lemma {:induction false} JobUrlsWithinCount(items: seq<ListItem>)
    ensures |JobUrls(items)| <= CountJobs(items)
    decreases |items|
  {
    if |items| > 0 {
      JobUrlsWithinCount(items[1..]);
    }
  }

  /** Every extracted address is a job view address. */
  lemma JobUrlsAreViews(items: seq<ListItem>, u: string)
    requires u in JobUrls(items)
    ensures |u| > |ViewPrefix| && u[..|ViewPrefix|] == ViewPrefix && u[|u| - 1] == '/'
  {
    JobUrlsMembers(items, u);
  }

  /** What `EXTRACT_JOB_IDS` leads to: the number the confirmation offers,
      and the addresses sent with `OPEN_JOB_TABS`, if any. */
  datatype Extraction = Extraction(offered: nat, sent: Option<seq<string>>)

  /** The `EXTRACT_JOB_IDS` handler; `confirmed` is the user's answer. The
      confirmation offers every extracted address, and on a yes the
      addresses are sent as extracted, in page order. */
  function HandleExtract(items: seq<ListItem>, confirmed: bool): (r: Extraction)
    ensures r.offered == |JobUrls(items)| <= CountJobs(items)
    ensures r.sent.Some? ==> r.sent.value == JobUrls(items)
    ensures r.sent.Some? <==> confirmed && exists i :: 0 <= i < |items| && Keeps(items[i])
    ensures r.sent.Some? ==> |r.sent.value| == r.offered > 0
    ensures r.sent.Some? ==> forall u :: u in r.sent.value <==>
      exists i :: 0 <= i < |items| && Keeps(items[i]) && u == ViewUrl(items[i].jobId.value)
  {
    JobUrlsWithinCount(items);
    JobUrlsExactly(items);
    var urls := JobUrls(items);
    Extraction(|urls|, if confirmed && |urls| > 0 then Some(urls) else None)
  }

  /** `JobUrlsMembers` for every address at once, and its consequence that
      some address is extracted exactly when some item is kept. */
  lemma JobUrlsExactly(items: seq<ListItem>)
    ensures forall u :: u in JobUrls(items) <==>
      exists i :: 0 <= i < |items| && Keeps(items[i]) && u == ViewUrl(items[i].jobId.value)
    ensures |JobUrls(items)| > 0 <==> exists i :: 0 <= i < |items| && Keeps(items[i])
  {
    var urls := JobUrls(items);
    forall u ensures u in urls <==> exists i :: 0 <= i < |items| && Keeps(items[i]) && u == ViewUrl(items[i].jobId.value) {
      JobUrlsMembers(items, u);
    }
    if exists i :: 0 <= i < |items| && Keeps(items[i]) {
      var i :| 0 <= i < |items| && Keeps(items[i]);
      assert ViewUrl(items[i].jobId.value) in urls;
    }
    if |urls| > 0 {
      assert urls[0] in urls;
    }
  }

  // ---------------------------------------------------------------------------
  // The one-time count report
  // ---------------------------------------------------------------------------

  /** `countSent` and `savedJobCount`. */
  datatype Counter = Counter(sent: bool, saved: nat)

  const CounterStart: Counter := Counter(false, 0)

  /** A counter after a call, and the `UPDATE_JOB_COUNT` it sends, if any. */
  datatype CountStep = CountStep(next: Counter, message: Option<nat>)

  /** `sendJobCountOnce` when `countJobs()` yields `count`. */
  function SendJobCountOnce(c: Counter, count: nat): (r: CountStep)
    ensures c.sent ==> r == CountStep(c, None)
    ensures !c.sent ==> r.next.saved == count && (r.next.sent <==> count > 0)
    ensures r.message.Some? <==> !c.sent && count > 0
    ensures r.message.Some? ==> r.message.value == count
  {
    if c.sent then CountStep(c, None)
    else CountStep(Counter(count > 0, count), if count > 0 then Some(count) else None)
  }

  /** The `GET_JOB_COUNT` answer. */
  function JobCountReply(c: Counter): nat {
    c.saved
  }

  /** The counter after a run of calls and the counts it reported. */
  datatype CountRun = CountRun(last: Counter, reported: seq<nat>)

  function RunCounts(c: Counter, counts: seq<nat>): CountRun
    decreases |counts|
  {
    if |counts| == 0 then CountRun(c, [])
    else
      var step := SendJobCountOnce(c, counts[0]);
      var rest := RunCounts(step.next, counts[1..]);
      CountRun(rest.last, (if step.message.Some? then [step.message.value] else []) + rest.reported)
  }

  /** However often the report is attempted, at most one count is sent, it
      is positive, one is sent exactly when some attempt saw a job, and the
      count the popup is told afterwards is the one sent. */
  lemma {:induction false} CountReportedOnce(c: Counter, counts: seq<nat>)
    ensures var r := RunCounts(c, counts);
      && |r.reported| <= 1
      && (c.sent ==> r == CountRun(c, []))
      && (!c.sent ==> (|r.reported| == 1 <==> exists i :: 0 <= i < |counts| && counts[i] > 0))
      && (|r.reported| == 1 ==> r.reported[0] > 0 && r.last.sent && JobCountReply(r.last) == r.reported[0])
      && (!c.sent && |counts| > 0 && |r.reported| == 0 ==> JobCountReply(r.last) == 0)
    decreases |counts|
  {
    if |counts| > 0 {
      var step := SendJobCountOnce(c, counts[0]);
      CountReportedOnce(step.next, counts[1..]);
      if !c.sent && counts[0] == 0 {
        if exists i :: 0 <= i < |counts| && counts[i] > 0 {
          var i :| 0 <= i < |counts| && counts[i] > 0;
          assert counts[1..][i - 1] == counts[i];
        }
        forall i | 0 <= i < |counts[1..]| && counts[1..][i] > 0
          ensures exists j :: 0 <= j < |counts| && counts[j] > 0
        {
          assert counts[i + 1] == counts[1..][i];
        }
      }
    }
  }
}
