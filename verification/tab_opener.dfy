// The background script's tab opener: opens a list of job pages one after
// another with a random pause between them and reports its progress. The
// outcomes of the browser's tab creation and the random draws are inputs;
// the observable behaviour is a trace of attempts, pauses and notices.

module TabOpener {
  import opened Maybe

  /** The pause bounds the opener passes, in seconds. */
  const MinDelaySeconds: nat := 3
  const MaxDelaySeconds: nat := 5

  /** The largest integer draw the pause bounds allow. */
  const MaxDraw: nat := MaxDelaySeconds * 1000 - MinDelaySeconds * 1000

  /** `randomDelayMs(min, max)` with whole seconds: `draw` stands for
      `floor(Math.random() * (max - min + 1))` in milliseconds. */
  function RandomDelayMs(minSeconds: nat, maxSeconds: nat, draw: nat): (ms: nat)
    requires minSeconds <= maxSeconds
    requires draw <= maxSeconds * 1000 - minSeconds * 1000
    ensures minSeconds * 1000 <= ms <= maxSeconds * 1000
  {
    minSeconds * 1000 + draw
  }

  /** Every whole number of milliseconds between the bounds is the pause of
      exactly one draw. */
  lemma DelayCoversRange(minSeconds: nat, maxSeconds: nat, ms: nat)
    requires minSeconds <= maxSeconds
    requires minSeconds * 1000 <= ms <= maxSeconds * 1000
    ensures RandomDelayMs(minSeconds, maxSeconds, ms - minSeconds * 1000) == ms
    ensures forall d: nat ::
      (d <= maxSeconds * 1000 - minSeconds * 1000 && RandomDelayMs(minSeconds, maxSeconds, d) == ms)
      ==> d == ms - minSeconds * 1000
  {
  }

  /** The notices the opener broadcasts as `OPEN_JOB_TABS_STATUS`. */
  datatype Status = Started(total: nat) | Progress(count: nat, total: nat) | Finished(count: nat)

  /** One observable step of the opener. */
  datatype Event =
    | Attempt(url: string, created: bool)
    | Wait(ms: nat)
    | Notify(status: Status)

  /** The attempts of a trace, in order. */
  function Attempts(t: seq<Event>): seq<Event>
    decreases |t|
  {
    if |t| == 0 then []
    else (if t[0].Attempt? then [t[0]] else []) + Attempts(t[1..])
  }

  /** The pauses of a trace, in order. */
  function Waits(t: seq<Event>): seq<nat>
    decreases |t|
  {
    if |t| == 0 then []
    else (if t[0].Wait? then [t[0].ms] else []) + Waits(t[1..])
  }

  /** The notices of a trace, in order. */
  function Notices(t: seq<Event>): seq<Status>
    decreases |t|
  {
    if |t| == 0 then []
    else (if t[0].Notify? then [t[0].status] else []) + Notices(t[1..])
  }

  /** The three projections distribute over concatenation. */
  lemma ProjectConcat(a: seq<Event>, b: seq<Event>)
    ensures Attempts(a + b) == Attempts(a) + Attempts(b)
    ensures Waits(a + b) == Waits(a) + Waits(b)
    ensures Notices(a + b) == Notices(a) + Notices(b)
  {
    AttemptsConcat(a, b);
    WaitsConcat(a, b);
    NoticesConcat(a, b);
  }

  lemma {:induction false} AttemptsConcat(a: seq<Event>, b: seq<Event>)
    ensures Attempts(a + b) == Attempts(a) + Attempts(b)
    decreases |a|
  {
    if |a| == 0 {
      assert a + b == b;
    } else {
      var e, x := a[0], a[1..];
      var head := if e.Attempt? then [e] else [];
      calc {
        Attempts(a + b);
        { assert a + b == [e] + (x + b); }
        Attempts([e] + (x + b));
        { ProjectCons(e, x + b); }
        head + Attempts(x + b);
        { AttemptsConcat(x, b); }
        head + (Attempts(x) + Attempts(b));
        (head + Attempts(x)) + Attempts(b);
        { ProjectCons(e, x); assert a == [e] + x; }
        Attempts(a) + Attempts(b);
      }
    }
  }

  lemma {:induction false} WaitsConcat(a: seq<Event>, b: seq<Event>)
    ensures Waits(a + b) == Waits(a) + Waits(b)
    decreases |a|
  {
    if |a| == 0 {
      assert a + b == b;
    } else {
      var e, x := a[0], a[1..];
      var head := if e.Wait? then [e.ms] else [];
      calc {
        Waits(a + b);
        { assert a + b == [e] + (x + b); }
        Waits([e] + (x + b));
        { ProjectCons(e, x + b); }
        head + Waits(x + b);
        { WaitsConcat(x, b); }
        head + (Waits(x) + Waits(b));
        (head + Waits(x)) + Waits(b);
        { ProjectCons(e, x); assert a == [e] + x; }
        Waits(a) + Waits(b);
      }
    }
  }

  lemma {:induction false} NoticesConcat(a: seq<Event>, b: seq<Event>)
    ensures Notices(a + b) == Notices(a) + Notices(b)
    decreases |a|
  {
    if |a| == 0 {
      assert a + b == b;
    } else {
      var e, x := a[0], a[1..];
      var head := if e.Notify? then [e.status] else [];
      calc {
        Notices(a + b);
        { assert a + b == [e] + (x + b); }
        Notices([e] + (x + b));
        { ProjectCons(e, x + b); }
        head + Notices(x + b);
        { NoticesConcat(x, b); }
        head + (Notices(x) + Notices(b));
        (head + Notices(x)) + Notices(b);
        { ProjectCons(e, x); assert a == [e] + x; }
        Notices(a) + Notices(b);
      }
    }
  }

  /** The projections of a trace that starts with `e`. */
  lemma ProjectCons(e: Event, t: seq<Event>)
    ensures Attempts([e] + t) == (if e.Attempt? then [e] else []) + Attempts(t)
    ensures Waits([e] + t) == (if e.Wait? then [e.ms] else []) + Waits(t)
    ensures Notices([e] + t) == (if e.Notify? then [e.status] else []) + Notices(t)
  {
    assert ([e] + t)[0] == e;
    assert ([e] + t)[1..] == t;
  }

  /** The attempts the opener should make: every address once, in order,
      with its creation outcome. */
  function Tried(urls: seq<string>, creates: seq<bool>): (r: seq<Event>)
    requires |urls| == |creates|
    ensures |r| == |urls|
  {
    seq(|urls|, i requires 0 <= i < |urls| => Attempt(urls[i], creates[i]))
  }

  /** The number of successful creations. */
  function CountTrue(bs: seq<bool>): (n: nat)
    ensures n <= |bs|
    decreases |bs|
  {
    if |bs| == 0 then 0 else CountTrue(bs[..|bs| - 1]) + (if bs[|bs| - 1] then 1 else 0)
  }

  /** The progress notices after `k` successes out of `total`. */
  function Progresses(k: nat, total: nat): (r: seq<Status>)
    ensures |r| == k
  {
    seq(k, j requires 0 <= j < k => Progress(j + 1, total))
  }

  /** The pauses drawn by `draws`, each in the opener's bounds. */
  function Delays(draws: seq<nat>): (r: seq<nat>)
    requires forall k :: 0 <= k < |draws| ==> draws[k] <= MaxDraw
    ensures |r| == |draws|
    ensures forall k :: 0 <= k < |r| ==> 3000 <= r[k] <= 5000
  {
    seq(|draws|, k requires 0 <= k < |draws| => RandomDelayMs(MinDelaySeconds, MaxDelaySeconds, draws[k]))
  }

  /** Every successful attempt is directly followed by a progress notice. */
  predicate ProgressFollowsSuccess(t: seq<Event>) {
    forall j :: 0 <= j < |t| && t[j].Attempt? && t[j].created ==>
      j + 1 < |t| && t[j + 1].Notify? && t[j + 1].status.Progress?
  }

  /** Every pause, unless it ends the trace, is directly followed by an
      attempt. */
  predicate PauseBeforeAttempt(t: seq<Event>) {
    forall j :: 0 <= j < |t| - 1 && t[j].Wait? ==> t[j + 1].Attempt?
  }

  /** Every attempt after the first is directly preceded by a pause. */
  predicate PauseAfterAttempt(t: seq<Event>) {
    forall k, j :: 0 <= k < j < |t| && t[k].Attempt? && t[j].Attempt? ==> t[j - 1].Wait?
  }

  /** What the opener records for the address at one position: the attempt,
      a progress notice on success and, unless it is the last, a pause. */
  function Chunk(url: string, created: bool, countAfter: nat, total: nat, pause: Option<nat>): seq<Event> {
    [Attempt(url, created)]
      + (if created then [Notify(Progress(countAfter, total))] else [])
      + (if pause.Some? then [Wait(pause.value)] else [])
  }

  /** `handleOpenJobTabs(urls)`. `urls` is `None` when the message carries
      no array; `creates[i]` is whether opening the i-th tab succeeded and
      `draws[i]` is the pause drawn after it. */
  method HandleOpenJobTabs(urls: Option<seq<string>>, creates: seq<bool>, draws: seq<nat>)
    returns (count: nat, trace: seq<Event>)
    requires urls.Some? ==> |creates| == |urls.value| && |draws| + 1 >= |urls.value|
    requires forall k :: 0 <= k < |draws| ==> draws[k] <= MaxDraw
    ensures urls.None? || |urls.value| == 0 ==> count == 0 && trace == []
    ensures urls.Some? && |urls.value| > 0 ==>
      var n := |urls.value|;
      && count == CountTrue(creates)
      && Attempts(trace) == Tried(urls.value, creates)
      && Waits(trace) == Delays(draws[..n - 1])
      && Notices(trace) == [Started(n)] + Progresses(count, n) + [Finished(count)]
      && trace[0] == Notify(Started(n))
      && ProgressFollowsSuccess(trace)
      && |trace| >= 2
      && trace[|trace| - 1] == Notify(Finished(count))
      && !trace[|trace| - 2].Wait?
      && trace[1] == Attempt(urls.value[0], creates[0])
      && (forall j :: 0 <= j < |trace| && trace[j].Wait? ==> j + 1 < |trace| && trace[j + 1].Attempt?)
      && PauseAfterAttempt(trace)
  {
    if urls.None? || |urls.value| == 0 {
      return 0, [];
    }
    var us := urls.value;
    var n := |us|;
    count := 0;
    trace := [Notify(Started(n))];
    var i := 0;
    assert us[..0] == [] && creates[..0] == [] && draws[..0] == [];
    while i < n
      invariant 0 <= i <= n
      invariant Opening(trace, us, creates, draws, i, count)
    {
      var pause := if i < n - 1 then Some(RandomDelayMs(MinDelaySeconds, MaxDelaySeconds, draws[i])) else None;
      var after := if creates[i] then count + 1 else count;
      var chunk := Chunk(us[i], creates[i], after, n, pause);
      OpeningStep(trace, us, creates, draws, i, count);
      trace := trace + chunk;
      count := after;
      i := i + 1;
    }
    OpeningDone(trace, us, creates, draws, count);
    trace := trace + [Notify(Finished(count))];
  }

  /** The opener's state after the first `i` addresses: the projections of
      the trace so far, where the last event sits, and where the pauses
      sit. */
  predicate Opening(trace: seq<Event>, us: seq<string>, creates: seq<bool>, draws: seq<nat>, i: nat, count: nat) {
    var n := |us|;
    && 0 < n == |creates| && |draws| + 1 >= n && i <= n
    && (forall k :: 0 <= k < |draws| ==> draws[k] <= MaxDraw)
    && count == CountTrue(creates[..i])
    && |trace| > 0 && trace[0] == Notify(Started(n))
    && Attempts(trace) == Tried(us[..i], creates[..i])
    && Waits(trace) == Delays(draws[..if i < n then i else n - 1])
    && Notices(trace) == [Started(n)] + Progresses(count, n)
    && ProgressFollowsSuccess(trace)
    && (!trace[|trace| - 1].Attempt? || !trace[|trace| - 1].created)
    && (i == n ==> !trace[|trace| - 1].Wait?)
    && (i == 0 ==> trace == [Notify(Started(n))])
    && (i > 0 ==> |trace| > 1 && trace[1] == Attempt(us[0], creates[0]))
    && (0 < i < n ==> trace[|trace| - 1].Wait?)
    && PauseBeforeAttempt(trace) && PauseAfterAttempt(trace)
  }

  /** One pass of the loop keeps `Opening`, one address further on. */
  lemma OpeningStep(trace: seq<Event>, us: seq<string>, creates: seq<bool>, draws: seq<nat>, i: nat, count: nat)
    requires Opening(trace, us, creates, draws, i, count) && i < |us|
    ensures var n := |us|;
      var pause := if i < n - 1 then Some(RandomDelayMs(MinDelaySeconds, MaxDelaySeconds, draws[i])) else None;
      var after := if creates[i] then count + 1 else count;
      Opening(trace + Chunk(us[i], creates[i], after, n, pause), us, creates, draws, i + 1, after)
  {
    var n := |us|;
    var pause := if i < n - 1 then Some(RandomDelayMs(MinDelaySeconds, MaxDelaySeconds, draws[i])) else None;
    var after := if creates[i] then count + 1 else count;
    var chunk := Chunk(us[i], creates[i], after, n, pause);
    StepProjections(trace, us, creates, draws, i, count, chunk, pause);
    ChunkKeepsPauses(trace, us[i], creates[i], after, n, pause, i == 0);
  }

  /** After the last address, the closing notice completes the trace the
      opener promises. */
  lemma OpeningDone(trace: seq<Event>, us: seq<string>, creates: seq<bool>, draws: seq<nat>, count: nat)
    requires Opening(trace, us, creates, draws, |us|, count)
    ensures var t := trace + [Notify(Finished(count))]; var n := |us|;
      && count == CountTrue(creates)
      && Attempts(t) == Tried(us, creates)
      && Waits(t) == Delays(draws[..n - 1])
      && Notices(t) == [Started(n)] + Progresses(count, n) + [Finished(count)]
      && t[0] == Notify(Started(n))
      && ProgressFollowsSuccess(t)
      && |t| >= 2
      && t[|t| - 1] == Notify(Finished(count))
      && !t[|t| - 2].Wait?
      && t[1] == Attempt(us[0], creates[0])
      && (forall j :: 0 <= j < |t| && t[j].Wait? ==> j + 1 < |t| && t[j + 1].Attempt?)
      && PauseAfterAttempt(t)
  {
    assert us[..|us|] == us && creates[..|us|] == creates;
    FinishKeepsPauses(trace, count);
  }

  /** What one pass of the loop adds to each projection. */
  lemma StepProjections(trace: seq<Event>, us: seq<string>, creates: seq<bool>, draws: seq<nat>,
                        i: nat, count: nat, chunk: seq<Event>, pause: Option<nat>)
    requires i < |us| == |creates| && |draws| + 1 >= |us|
    requires forall k :: 0 <= k < |draws| ==> draws[k] <= MaxDraw
    requires pause == if i < |us| - 1 then Some(RandomDelayMs(MinDelaySeconds, MaxDelaySeconds, draws[i])) else None
    requires chunk == Chunk(us[i], creates[i], if creates[i] then count + 1 else count, |us|, pause)
    requires count == CountTrue(creates[..i])
    requires |trace| > 0
    requires Attempts(trace) == Tried(us[..i], creates[..i])
    requires Waits(trace) == Delays(draws[..i])
    requires Notices(trace) == [Started(|us|)] + Progresses(count, |us|)
    requires ProgressFollowsSuccess(trace)
    requires !trace[|trace| - 1].Attempt? || !trace[|trace| - 1].created
    ensures var t := trace + chunk; var n := |us|; var after := if creates[i] then count + 1 else count;
      && after == CountTrue(creates[..i + 1])
      && Attempts(t) == Tried(us[..i + 1], creates[..i + 1])
      && Waits(t) == Delays(draws[..if i + 1 < n then i + 1 else n - 1])
      && Notices(t) == [Started(n)] + Progresses(after, n)
      && ProgressFollowsSuccess(t)
      && (!t[|t| - 1].Attempt? || !t[|t| - 1].created)
      && (i + 1 == n ==> !t[|t| - 1].Wait?)
  {
    var n := |us|;
    var after := if creates[i] then count + 1 else count;
    ProjectConcat(trace, chunk);
    ChunkProjections(us[i], creates[i], after, n, pause);
    CountTrueSnoc(creates, i);
    TriedSnoc(us, creates, i);
    ProgressesSnoc(count, n, creates[i]);
    if i < n - 1 {
      assert draws[..i + 1] == draws[..i] + [draws[i]];
      DelaysSnoc(draws[..i], draws[i]);
    }
    ChunkKeepsProgress(trace, us[i], creates[i], after, n, pause);
  }

  /** One more position adds its success, if any, to the count. */
  lemma CountTrueSnoc(bs: seq<bool>, i: nat)
    requires i < |bs|
    ensures CountTrue(bs[..i + 1]) == CountTrue(bs[..i]) + if bs[i] then 1 else 0
  {
    assert bs[..i + 1][..i] == bs[..i];
  }

  /** One more position adds its attempt at the end. */
  lemma TriedSnoc(us: seq<string>, creates: seq<bool>, i: nat)
    requires i < |us| == |creates|
    ensures Tried(us[..i + 1], creates[..i + 1]) == Tried(us[..i], creates[..i]) + [Attempt(us[i], creates[i])]
  {
    var l := Tried(us[..i + 1], creates[..i + 1]);
    var r := Tried(us[..i], creates[..i]) + [Attempt(us[i], creates[i])];
    forall k | 0 <= k < |l| ensures l[k] == r[k] {
      if k < i {
        assert l[k] == Attempt(us[k], creates[k]);
      }
    }
  }

  /** One more success adds its progress notice at the end. */
  lemma ProgressesSnoc(count: nat, n: nat, created: bool)
    ensures Progresses(if created then count + 1 else count, n) ==
      Progresses(count, n) + if created then [Progress(count + 1, n)] else []
  {
    if created {
      var l := Progresses(count + 1, n);
      var r := Progresses(count, n) + [Progress(count + 1, n)];
      assert |l| == |r|;
      forall k | 0 <= k < |l| ensures l[k] == r[k] {
      }
    }
  }

  /** One more draw adds its pause at the end. */
  lemma DelaysSnoc(ds: seq<nat>, d: nat)
    requires forall k :: 0 <= k < |ds| ==> ds[k] <= MaxDraw
    requires d <= MaxDraw
    ensures Delays(ds + [d]) == Delays(ds) + [RandomDelayMs(MinDelaySeconds, MaxDelaySeconds, d)]
  {
    var l := Delays(ds + [d]);
    var r := Delays(ds) + [RandomDelayMs(MinDelaySeconds, MaxDelaySeconds, d)];
    assert |l| == |r|;
    forall k | 0 <= k < |l| ensures l[k] == r[k] {
      assert (ds + [d])[k] == if k < |ds| then ds[k] else d;
    }
  }

  /** The projections of one position's records. */
  lemma ChunkProjections(url: string, created: bool, countAfter: nat, total: nat, pause: Option<nat>)
    ensures Attempts(Chunk(url, created, countAfter, total, pause)) == [Attempt(url, created)]
    ensures Waits(Chunk(url, created, countAfter, total, pause)) == if pause.Some? then [pause.value] else []
    ensures Notices(Chunk(url, created, countAfter, total, pause)) == if created then [Progress(countAfter, total)] else []
  {
    var a := [Attempt(url, created)];
    var p := if created then [Notify(Progress(countAfter, total))] else [];
    var w := if pause.Some? then [Wait(pause.value)] else [];
    assert Chunk(url, created, countAfter, total, pause) == a + p + w;
    ProjectConcat(a + p, w);
    ProjectConcat(a, p);
    assert Attempts(a) == a;
    assert Waits(a) == [] && Notices(a) == [];
  }

  /** Appending one position's records keeps every success followed by its
      progress notice, and ends the trace on something other than a
      successful attempt. */
  lemma ChunkKeepsProgress(trace: seq<Event>, url: string, created: bool, countAfter: nat, total: nat, pause: Option<nat>)
    requires |trace| > 0 && ProgressFollowsSuccess(trace)
    requires !trace[|trace| - 1].Attempt? || !trace[|trace| - 1].created
    ensures var t := trace + Chunk(url, created, countAfter, total, pause);
      && ProgressFollowsSuccess(t)
      && (!t[|t| - 1].Attempt? || !t[|t| - 1].created)
      && (pause.None? ==> !t[|t| - 1].Wait?)
  {
    var chunk := Chunk(url, created, countAfter, total, pause);
    var t := trace + chunk;
    forall j | 0 <= j < |t| && t[j].Attempt? && t[j].created
      ensures j + 1 < |t| && t[j + 1].Notify? && t[j + 1].status.Progress?
    {
      if j < |trace| - 1 {
        assert t[j] == trace[j] && t[j + 1] == trace[j + 1];
      } else if j >= |trace| {
        assert j == |trace| && t[j] == chunk[0];
        assert t[j + 1] == chunk[1];
      }
    }
  }

  /** Appending one position's records keeps the pauses between the
      attempts: the new attempt follows the pause that ended the trace,
      unless it is the first, and only the last record can be a pause. */
  lemma ChunkKeepsPauses(trace: seq<Event>, url: string, created: bool, countAfter: nat, total: nat,
                         pause: Option<nat>, first: bool)
    requires |trace| > 0 && PauseBeforeAttempt(trace) && PauseAfterAttempt(trace)
    requires first ==> forall k :: 0 <= k < |trace| ==> !trace[k].Attempt?
    requires !first ==> trace[|trace| - 1].Wait?
    ensures var t := trace + Chunk(url, created, countAfter, total, pause);
      && PauseBeforeAttempt(t) && PauseAfterAttempt(t)
      && (pause.Some? ==> t[|t| - 1].Wait?)
      && t[|trace|] == Attempt(url, created)
      && (forall k :: 0 <= k < |trace| ==> t[k] == trace[k])
  {
    var chunk := Chunk(url, created, countAfter, total, pause);
    var t := trace + chunk;
    assert forall m :: 0 <= m < |chunk| && chunk[m].Wait? ==> m == |chunk| - 1;
    assert forall m :: 0 < m < |chunk| ==> !chunk[m].Attempt?;
    forall j | 0 <= j < |t| - 1 && t[j].Wait? ensures t[j + 1].Attempt? {
      if j < |trace| - 1 {
        assert t[j] == trace[j] && t[j + 1] == trace[j + 1];
      } else if j == |trace| - 1 {
        assert t[j + 1] == chunk[0];
      } else {
        assert false;
      }
    }
    forall k, j | 0 <= k < j < |t| && t[k].Attempt? && t[j].Attempt? ensures t[j - 1].Wait? {
      if j < |trace| {
        assert t[k] == trace[k] && t[j] == trace[j] && t[j - 1] == trace[j - 1];
      } else {
        assert t[j] == chunk[j - |trace|];
        assert j == |trace|;
        if k >= |trace| {
          assert false;
        } else {
          assert t[k] == trace[k];
        }
      }
    }
  }

  /** The closing notice keeps the pauses between the attempts. */
  lemma FinishKeepsPauses(trace: seq<Event>, count: nat)
    requires |trace| > 1 && PauseBeforeAttempt(trace) && PauseAfterAttempt(trace)
    requires !trace[|trace| - 1].Wait?
    requires ProgressFollowsSuccess(trace)
    requires !trace[|trace| - 1].Attempt? || !trace[|trace| - 1].created
    ensures var t := trace + [Notify(Finished(count))];
      && Attempts(t) == Attempts(trace) && Waits(t) == Waits(trace)
      && Notices(t) == Notices(trace) + [Finished(count)]
      && t[0] == trace[0] && t[1] == trace[1]
      && t[|t| - 1] == Notify(Finished(count)) && !t[|t| - 2].Wait?
      && ProgressFollowsSuccess(t)
      && (forall j :: 0 <= j < |t| && t[j].Wait? ==> j + 1 < |t| && t[j + 1].Attempt?)
      && PauseAfterAttempt(t)
  {
    var t := trace + [Notify(Finished(count))];
    ProjectConcat(trace, [Notify(Finished(count))]);
    forall j | 0 <= j < |t| && t[j].Attempt? && t[j].created
      ensures j + 1 < |t| && t[j + 1].Notify? && t[j + 1].status.Progress?
    {
      assert j < |trace| - 1;
      assert t[j] == trace[j] && t[j + 1] == trace[j + 1];
    }
    forall j | 0 <= j < |t| && t[j].Wait? ensures j + 1 < |t| && t[j + 1].Attempt? {
      assert j < |trace| - 1;
      assert t[j] == trace[j] && t[j + 1] == trace[j + 1];
    }
    forall k, j | 0 <= k < j < |t| && t[k].Attempt? && t[j].Attempt? ensures t[j - 1].Wait? {
      assert j < |trace|;
      assert t[k] == trace[k] && t[j] == trace[j] && t[j - 1] == trace[j - 1];
    }
  }
}
