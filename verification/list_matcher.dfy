// The job-list page matcher: each evaluation looks at the job shown in the
// detail pane, finds its card in the list, scores its description against
// the keywords once per title, reports matches to the background script
// and marks the card, its title and every other known card.

module ListMatcher {
  import opened Maybe
  import opened Text
  import opened Keywords
  import opened Entries
  import opened Dom

  const StrongTag: string := "STRONG"
  const DivTag: string := "DIV"
  const H1Tag: string := "H1"

  /** How many levels above a card title its card container sits. */
  const LevelsUp: nat := 7

  const IsMatch: string := "is-match"
  const IsNotMatch: string := "is-not-match"
  const CardMatch: string := "job-card-match"
  const CardNoMatch: string := "job-card-no-match"
  const StrongMatch: string := "strong-match"
  const StrongNoMatch: string := "strong-no-match"

  datatype MatchStatus = Match | NoMatch

  /** What the matcher remembers about a title it has scored. */
  datatype Cached = Cached(status: MatchStatus, found: seq<string>)

  /** An `add_match` message the matcher sent, with the title it was for. */
  datatype Emission = Emission(title: string, entry: string)

  /** The matcher's state: the last title handled, the scored titles and
      the messages sent so far. */
  datatype Watcher = Watcher(lastTitle: string, processed: map<string, Cached>, emitted: seq<Emission>)

  const Initial: Watcher := Watcher("", map[], [])

  /** The marker a card container gets for a status, and the one it loses. */
  function CardOn(s: MatchStatus): string { if s == Match then CardMatch else CardNoMatch }
  function CardOff(s: MatchStatus): string { if s == Match then CardNoMatch else CardMatch }
  function StrongOn(s: MatchStatus): string { if s == Match then StrongMatch else StrongNoMatch }
  function StrongOff(s: MatchStatus): string { if s == Match then StrongNoMatch else StrongMatch }
  function TitleOn(s: MatchStatus): string { if s == Match then IsMatch else IsNotMatch }

  /** The class names the card styling writes. */
  const Markers: set<string> := {CardMatch, CardNoMatch, StrongMatch, StrongNoMatch}

  // ---------------------------------------------------------------------------
  // Cards
  // ---------------------------------------------------------------------------

  /** The element the seven-level walk from `s` ends on. */
  function Container(doc: Doc, s: nat): nat
    requires WellFormed(doc) && s < |doc|
  {
    Walk(doc, s, LevelsUp)
  }

  /** `s` is a `strong` whose walk ends on a `div`. */
  predicate OnCard(doc: Doc, s: nat)
    requires WellFormed(doc)
  {
    s < |doc| && doc[s].tag == StrongTag && doc[Container(doc, s)].tag == DivTag
  }

  /** The styling of one card title and its container for a status. */
  function Paint(doc: Doc, s: nat, status: MatchStatus): (r: Doc)
    requires WellFormed(doc) && OnCard(doc, s)
    ensures SameShape(doc, r)
    ensures StrongOn(status) in r[s].classes && StrongOff(status) !in r[s].classes
    ensures CardOn(status) in r[Container(doc, s)].classes && CardOff(status) !in r[Container(doc, s)].classes
    ensures forall i :: 0 <= i < |doc| && i != s && i != Container(doc, s) ==> r[i] == doc[i]
  {
    var c := Container(doc, s);
    Mark(Mark(doc, c, CardOn(status), CardOff(status)), s, StrongOn(status), StrongOff(status))
  }

  /** A `strong` the restyling pass acts on: its trimmed text is a scored
      title and it sits on a card. */
  predicate Known(doc: Doc, p: map<string, Cached>, s: nat)
    requires WellFormed(doc)
  {
    OnCard(doc, s) && Trim(doc[s].text) in p
  }

  /** `reapplyAllStyling`, from document position `j` on. */
  function ReapplyFrom(doc: Doc, p: map<string, Cached>, j: nat): (r: Doc)
    requires WellFormed(doc) && j <= |doc|
    ensures SameShape(doc, r)
    decreases |doc| - j
  {
    if j == |doc| then doc
    else if Known(doc, p, j) then
      var next := Paint(doc, j, p[Trim(doc[j].text)].status);
      WalkSameShape(doc, next, j, LevelsUp);
      ReapplyFrom(next, p, j + 1)
    else ReapplyFrom(doc, p, j + 1)
  }

  function ReapplyAll(doc: Doc, p: map<string, Cached>): (r: Doc)
    requires WellFormed(doc)
    ensures SameShape(doc, r)
  {
    ReapplyFrom(doc, p, 0)
  }

  /** Pages of the same shape agree on containers and on which titles the
      restyling acts on. */
  lemma ShapeKnown(a: Doc, b: Doc, p: map<string, Cached>, j: nat)
    requires WellFormed(a) && SameShape(a, b) && j < |a|
    ensures WellFormed(b)
    ensures Container(a, j) == Container(b, j)
    ensures Known(a, p, j) <==> Known(b, p, j)
  {
    WalkSameShape(a, b, j, LevelsUp);
  }

  /** Element `i` is a title the pass from `k` on acts on, or the container
      of one. */
  predicate Touched(doc: Doc, p: map<string, Cached>, k: nat, i: nat)
    requires WellFormed(doc)
  {
    exists j :: k <= j < |doc| && Known(doc, p, j) && (i == j || i == Container(doc, j))
  }

  /** The page after the pass's step at position `k`. */
  function StepAt(doc: Doc, p: map<string, Cached>, k: nat): (r: Doc)
    requires WellFormed(doc) && k < |doc|
    ensures SameShape(doc, r) && WellFormed(r)
    ensures ReapplyFrom(doc, p, k) == ReapplyFrom(r, p, k + 1)
  {
    var r := if Known(doc, p, k) then Paint(doc, k, p[Trim(doc[k].text)].status) else doc;
    WalkSameShape(doc, r, k, LevelsUp);
    r
  }

  /** Nothing the pass does not act on changes. */
  lemma {:induction false} ReapplyUntouched(doc: Doc, p: map<string, Cached>, k: nat)
    requires WellFormed(doc) && k <= |doc|
    ensures forall i :: 0 <= i < |doc| && !Touched(doc, p, k, i) ==> ReapplyFrom(doc, p, k)[i] == doc[i]
    decreases |doc| - k
  {
    if k < |doc| {
      var next := StepAt(doc, p, k);
      ReapplyUntouched(next, p, k + 1);
      forall i | 0 <= i < |doc| && !Touched(doc, p, k, i)
        ensures ReapplyFrom(doc, p, k)[i] == doc[i]
      {
        UntouchedStep(doc, p, k, i);
      }
    }
  }

  /** An element the pass from `k` does not act on is left alone by the
      step at `k` and not acted on by the rest of the pass. */
  lemma UntouchedStep(doc: Doc, p: map<string, Cached>, k: nat, i: nat)
    requires WellFormed(doc) && k < |doc| && i < |doc| && !Touched(doc, p, k, i)
    ensures StepAt(doc, p, k)[i] == doc[i]
    ensures !Touched(StepAt(doc, p, k), p, k + 1, i)
  {
    var next := StepAt(doc, p, k);
    forall j | k + 1 <= j < |doc| && Known(next, p, j)
      ensures i != j && i != Container(next, j)
    {
      ShapeKnown(doc, next, p, j);
    }
    if Known(doc, p, k) {
      assert i != k && i != Container(doc, k);
    }
  }

  /** The pass only ever changes the card marker classes. */
  lemma {:induction false} ReapplyKeepsClasses(doc: Doc, p: map<string, Cached>, k: nat)
    requires WellFormed(doc) && k <= |doc|
    ensures forall i :: 0 <= i < |doc| ==> ReapplyFrom(doc, p, k)[i].classes - Markers == doc[i].classes - Markers
    decreases |doc| - k
  {
    if k < |doc| {
      var next := StepAt(doc, p, k);
      ReapplyKeepsClasses(next, p, k + 1);
      if Known(doc, p, k) {
        PaintKeepsClasses(doc, k, p[Trim(doc[k].text)].status);
      }
    }
  }

  lemma PaintKeepsClasses(doc: Doc, s: nat, status: MatchStatus)
    requires WellFormed(doc) && OnCard(doc, s)
    ensures forall i :: 0 <= i < |doc| ==> Paint(doc, s, status)[i].classes - Markers == doc[i].classes - Markers
  {
    var c := Container(doc, s);
    var d1 := Mark(doc, c, CardOn(status), CardOff(status));
    assert {CardOn(status), CardOff(status)} <= Markers;
    assert {StrongOn(status), StrongOff(status)} <= Markers;
    forall i | 0 <= i < |doc| ensures d1[i].classes - Markers == doc[i].classes - Markers {
      if i == c {
        assert d1[i].classes - {CardOn(status), CardOff(status)} == doc[i].classes - {CardOn(status), CardOff(status)};
      }
    }
  }

  /** The status the scored titles give the title at `j`. */
  function StatusOf(doc: Doc, p: map<string, Cached>, j: nat): MatchStatus
    requires WellFormed(doc) && Known(doc, p, j)
  {
    p[Trim(doc[j].text)].status
  }

  /** A card title is never acted on again later in the pass. */
  lemma TitleNotTouchedLater(doc: Doc, p: map<string, Cached>, k: nat)
    requires WellFormed(doc) && k < |doc| && doc[k].tag == StrongTag
    ensures !Touched(doc, p, k + 1, k)
  {
  }

  /** Every title the pass acts on ends with exactly the marker of its
      scored status. */
  lemma {:induction false} ReapplyMarksTitles(doc: Doc, p: map<string, Cached>, k: nat)
    requires WellFormed(doc) && k <= |doc|
    ensures forall j :: k <= j < |doc| && Known(doc, p, j) ==>
      StrongOn(StatusOf(doc, p, j)) in ReapplyFrom(doc, p, k)[j].classes &&
      StrongOff(StatusOf(doc, p, j)) !in ReapplyFrom(doc, p, k)[j].classes
    decreases |doc| - k
  {
    if k < |doc| {
      var next := StepAt(doc, p, k);
      ReapplyMarksTitles(next, p, k + 1);
      forall j | k + 1 <= j < |doc| && Known(doc, p, j)
        ensures Known(next, p, j) && StatusOf(next, p, j) == StatusOf(doc, p, j)
      {
        ShapeKnown(doc, next, p, j);
      }
      if Known(doc, p, k) {
        TitleNotTouchedLater(next, p, k);
        ReapplyUntouched(next, p, k + 1);
      }
    }
  }

  /** Every container the pass acts on ends with exactly one of the two
      card markers. */
  lemma {:induction false} ReapplyCardsExclusive(doc: Doc, p: map<string, Cached>, k: nat)
    requires WellFormed(doc) && k <= |doc|
    ensures forall j :: k <= j < |doc| && Known(doc, p, j) ==>
      ExactlyOne(ReapplyFrom(doc, p, k)[Container(doc, j)], CardMatch, CardNoMatch)
    decreases |doc| - k
  {
    if k < |doc| {
      var next := StepAt(doc, p, k);
      ReapplyCardsExclusive(next, p, k + 1);
      assert ReapplyFrom(doc, p, k) == ReapplyFrom(next, p, k + 1);
      forall j | k <= j < |doc| && Known(doc, p, j)
        ensures ExactlyOne(ReapplyFrom(doc, p, k)[Container(doc, j)], CardMatch, CardNoMatch)
      {
        if j == k {
          CardExclusiveAtStep(doc, p, k);
        } else {
          ShapeKnown(doc, next, p, j);
        }
      }
    }
  }

  /** The container of the title at `k` ends with one card marker: the
      step's own when the rest of the pass leaves it alone, otherwise that
      of the later title that shares it. */
  lemma CardExclusiveAtStep(doc: Doc, p: map<string, Cached>, k: nat)
    requires WellFormed(doc) && k < |doc| && Known(doc, p, k)
    requires var next := StepAt(doc, p, k);
      forall j :: k + 1 <= j < |doc| && Known(next, p, j) ==>
        ExactlyOne(ReapplyFrom(next, p, k + 1)[Container(next, j)], CardMatch, CardNoMatch)
    ensures ExactlyOne(ReapplyFrom(doc, p, k)[Container(doc, k)], CardMatch, CardNoMatch)
  {
    var next := StepAt(doc, p, k);
    ShapeKnown(doc, next, p, k);
    var c := Container(doc, k);
    if Touched(next, p, k + 1, c) {
      var j :| k + 1 <= j < |doc| && Known(next, p, j) && (c == j || c == Container(next, j));
      assert next[c].tag == DivTag && next[j].tag == StrongTag;
    } else {
      PaintedCardKept(doc, p, k);
    }
  }

  /** A container the rest of the pass leaves alone keeps the one card
      marker the step at `k` gave it. */
  lemma PaintedCardKept(doc: Doc, p: map<string, Cached>, k: nat)
    requires WellFormed(doc) && k < |doc| && Known(doc, p, k)
    requires !Touched(StepAt(doc, p, k), p, k + 1, Container(doc, k))
    ensures ExactlyOne(ReapplyFrom(doc, p, k)[Container(doc, k)], CardMatch, CardNoMatch)
  {
    var next := StepAt(doc, p, k);
    var c := Container(doc, k);
    ReapplyUntouchedAt(next, p, k + 1, c);
    var status := StatusOf(doc, p, k);
    assert next == Paint(doc, k, status);
    assert CardOn(status) in next[c].classes && CardOff(status) !in next[c].classes;
  }

  /** `ReapplyUntouched` for one element. */
  lemma ReapplyUntouchedAt(doc: Doc, p: map<string, Cached>, k: nat, i: nat)
    requires WellFormed(doc) && k <= |doc| && i < |doc| && !Touched(doc, p, k, i)
    ensures ReapplyFrom(doc, p, k)[i] == doc[i]
  {
    ReapplyUntouched(doc, p, k);
  }

  /** No other title the pass acts on shares the container of `s`. */
  predicate SoleTitle(doc: Doc, p: map<string, Cached>, s: nat)
    requires WellFormed(doc) && Known(doc, p, s)
  {
    forall j :: 0 <= j < |doc| && j != s && Known(doc, p, j) ==> Container(doc, j) != Container(doc, s)
  }

  /** A container with a single known title ends with that title's card
      marker. */
  lemma {:induction false} ReapplyCardsAgree(doc: Doc, p: map<string, Cached>, k: nat)
    requires WellFormed(doc) && k <= |doc|
    ensures forall j :: k <= j < |doc| && Known(doc, p, j) && SoleTitle(doc, p, j) ==>
      CardOn(StatusOf(doc, p, j)) in ReapplyFrom(doc, p, k)[Container(doc, j)].classes &&
      CardOff(StatusOf(doc, p, j)) !in ReapplyFrom(doc, p, k)[Container(doc, j)].classes
    decreases |doc| - k
  {
    if k < |doc| {
      var next := StepAt(doc, p, k);
      ReapplyCardsAgree(next, p, k + 1);
      var r := ReapplyFrom(doc, p, k);
      assert r == ReapplyFrom(next, p, k + 1);
      forall j | k <= j < |doc| && Known(doc, p, j) && SoleTitle(doc, p, j)
        ensures CardOn(StatusOf(doc, p, j)) in r[Container(doc, j)].classes
        ensures CardOff(StatusOf(doc, p, j)) !in r[Container(doc, j)].classes
      {
        if j == k {
          CardAgreesAtStep(doc, p, k);
        } else {
          SoleTitleSameShape(doc, next, p, j);
        }
      }
    }
  }

  /** The step at a sole known title marks its container, and the rest of
      the pass leaves that container alone. */
  lemma CardAgreesAtStep(doc: Doc, p: map<string, Cached>, k: nat)
    requires WellFormed(doc) && k < |doc| && Known(doc, p, k) && SoleTitle(doc, p, k)
    ensures CardOn(StatusOf(doc, p, k)) in ReapplyFrom(doc, p, k)[Container(doc, k)].classes
    ensures CardOff(StatusOf(doc, p, k)) !in ReapplyFrom(doc, p, k)[Container(doc, k)].classes
  {
    var next := StepAt(doc, p, k);
    var c := Container(doc, k);
    assert next == Paint(doc, k, StatusOf(doc, p, k));
    ShapeKnown(doc, next, p, k);
    SoleTitleUntouched(doc, next, p, k);
    ReapplyUntouchedAt(next, p, k + 1, c);
  }

  /** A sole known title stays one, with the same container and status, on
      a page of the same shape. */
  lemma SoleTitleSameShape(a: Doc, b: Doc, p: map<string, Cached>, j: nat)
    requires WellFormed(a) && SameShape(a, b) && j < |a|
    requires Known(a, p, j) && SoleTitle(a, p, j)
    ensures WellFormed(b) && Known(b, p, j) && SoleTitle(b, p, j)
    ensures Container(b, j) == Container(a, j) && StatusOf(b, p, j) == StatusOf(a, p, j)
  {
    ShapeKnown(a, b, p, j);
    forall i | 0 <= i < |b| && i != j && Known(b, p, i)
      ensures Container(b, i) != Container(b, j)
    {
      ShapeKnown(a, b, p, i);
    }
  }

  /** The container of a sole known title is not acted on by the rest of
      the pass. */
  lemma SoleTitleUntouched(a: Doc, b: Doc, p: map<string, Cached>, k: nat)
    requires WellFormed(a) && SameShape(a, b) && k < |a|
    requires Known(a, p, k) && SoleTitle(a, p, k)
    ensures WellFormed(b) && !Touched(b, p, k + 1, Container(a, k))
  {
    ShapeKnown(a, b, p, k);
    var c := Container(a, k);
    forall j | k + 1 <= j < |b| && Known(b, p, j)
      ensures c != j && c != Container(b, j)
    {
      ShapeKnown(a, b, p, j);
    }
  }

  // ---------------------------------------------------------------------------
  // One evaluation
  // ---------------------------------------------------------------------------

  /** `s` is a `strong` whose trimmed text is `title` and which sits on a
      card. */
  predicate CardFor(doc: Doc, title: string, s: nat)
    requires WellFormed(doc)
  {
    OnCard(doc, s) && Trim(doc[s].text) == title
  }

  /** The search loop over all `strong` elements: the first one, in
      document order from `i`, that carries the title and sits on a card. */
  function FindCard(doc: Doc, title: string, i: nat): (r: Option<nat>)
    requires WellFormed(doc) && i <= |doc|
    ensures r.Some? ==> i <= r.value < |doc| && CardFor(doc, title, r.value)
    ensures r.Some? ==> forall j :: i <= j < r.value ==> !CardFor(doc, title, j)
    ensures r.None? ==> forall j :: i <= j < |doc| ==> !CardFor(doc, title, j)
    decreases |doc| - i
  {
    if i == |doc| then None
    else if CardFor(doc, title, i) then Some(i)
    else FindCard(doc, title, i + 1)
  }

  /** Scoring a description: the keywords it mentions and the status. */
  function Score(paragraphs: seq<string>, keywords: seq<string>): (c: Cached)
    ensures c.found == FindKeywords(CombinedText(paragraphs), keywords)
    ensures c.status == Match <==> |c.found| > 0
  {
    var found := FindKeywords(CombinedText(paragraphs), keywords);
    Cached(if |found| > 0 then Match else NoMatch, found)
  }

  /** What the page shows when the matcher runs: its elements, the texts of
      the description paragraphs, its address and the local time. */
  datatype Page = Page(doc: Doc, paragraphs: seq<string>, href: string, now: DateTime)

  /** The result of one evaluation: whether the description was there, the
      next state and the restyled page. */
  datatype Outcome = Outcome(ready: bool, watcher: Watcher, doc: Doc)

  /** The entry posted for a newly matched title. */
  function MatchEntry(title: string, page: Page, found: seq<string>): string {
    EntryText(title, ListPageJobUrl(page.href), found, FormatDate(page.now))
  }

  /** The title an evaluation looks at: the trimmed text of the first `h1`,
      once the description paragraphs are there. */
  function TitleOf(page: Page): Option<string> {
    if |page.paragraphs| == 0 then None
    else match First(page.doc, H1Tag)
      case None => None
      case Some(h) => Some(Trim(page.doc[h].text))
  }

  /** The state after handling a new title whose card was found: a scored
      title only becomes the last title; a new one is stored with its
      score and, on a match, its entry is sent. */
  function Remember(w: Watcher, title: string, score: Cached, entry: string): Watcher {
    if title in w.processed then w.(lastTitle := title)
    else Watcher(
      title,
      w.processed[title := score],
      if score.status == Match then w.emitted + [Emission(title, entry)] else w.emitted)
  }

  /** The state after `checkForMatches`. */
  function NextWatcher(w: Watcher, page: Page, keywords: seq<string>): (r: Watcher)
    requires WellFormed(page.doc)
    ensures TitleOf(page).Some? ==> r.lastTitle == TitleOf(page).value
    ensures TitleOf(page).Some? && TitleOf(page).value != w.lastTitle && FindCard(page.doc, TitleOf(page).value, 0).Some?
      ==> TitleOf(page).value in r.processed
    ensures TitleOf(page).None? ==> r == w
  {
    match TitleOf(page)
    case None => w
    case Some(title) =>
      if title == w.lastTitle then w
      else if FindCard(page.doc, title, 0).None? then w.(lastTitle := title)
      else
        var score := Score(page.paragraphs, keywords);
        Remember(w, title, score, MatchEntry(title, page, score.found))
  }

  /** The page after `checkForMatches`: the heading loses both markers; if
      the card is found, heading, card title and container are marked with
      the title's status and every known card is restyled. */
  function NextDoc(w: Watcher, page: Page, keywords: seq<string>): (r: Doc)
    requires WellFormed(page.doc)
    ensures SameShape(page.doc, r)
  {
    var doc := page.doc;
    match TitleOf(page)
    case None => doc
    case Some(title) =>
      if title == w.lastTitle then doc
      else
        var h := First(doc, H1Tag).value;
        var d1 := Unmark(doc, h, IsMatch, IsNotMatch);
        match FindCard(doc, title, 0)
        case None => d1
        case Some(s) =>
          var processed := NextWatcher(w, page, keywords).processed;
          MarkFound(doc, d1, h, s, processed[title].status, processed)
  }

  /** The styling once the card is found: the heading gets the title's
      marker, the card its status, and every known card is restyled. */
  function MarkFound(doc: Doc, d1: Doc, h: nat, s: nat, status: MatchStatus, processed: map<string, Cached>): (r: Doc)
    requires WellFormed(doc) && SameShape(doc, d1) && h < |doc| && OnCard(doc, s)
    ensures SameShape(d1, r)
  {
    var d2 := AddClass(d1, h, TitleOn(status));
    WalkSameShape(doc, d2, s, LevelsUp);
    var d3 := Paint(d2, s, status);
    WalkSameShape(d2, d3, s, LevelsUp);
    ReapplyAll(d3, processed)
  }

  /** `checkForMatches`: whether the description was there, with the next
      state and page. */
  function Evaluate(w: Watcher, page: Page, keywords: seq<string>): (o: Outcome)
    requires WellFormed(page.doc)
  {
    Outcome(|page.paragraphs| > 0, NextWatcher(w, page, keywords), NextDoc(w, page, keywords))
  }

  /** The list page script once storage has answered with the radar switch
      and the saved keywords: with the radar switched off it stops before
      setting up any observer, so no evaluation happens; otherwise the
      keywords in use are evaluated, and at most one entry is sent. */
  function RadarEvaluate(enabled: Option<bool>, saved: Option<seq<string>>, w: Watcher, page: Page): (o: Option<Outcome>)
    requires WellFormed(page.doc)
    ensures o.None? <==> enabled == Some(false)
    ensures o.Some? ==> (o.value.ready <==> |page.paragraphs| > 0)
    ensures o.Some? && |page.paragraphs| == 0 ==> o.value == Outcome(false, w, page.doc)
    ensures o.Some? ==> w.emitted <= o.value.watcher.emitted && |o.value.watcher.emitted| <= |w.emitted| + 1
  {
    if !RadarOn(enabled) then None
    else Some(Evaluate(w, page, KeywordsInUse(saved)))
  }

  // ---------------------------------------------------------------------------
  // Properties of one evaluation
  // ---------------------------------------------------------------------------

  /** Evaluating the page it just produced again changes nothing: the title
      is the last one handled. */
  lemma EvaluateTwiceNoOp(w: Watcher, page: Page, keywords: seq<string>)
    requires WellFormed(page.doc)
    ensures var o := Evaluate(w, page, keywords);
      WellFormed(o.doc) &&
      Evaluate(o.watcher, page.(doc := o.doc), keywords) == Outcome(o.ready, o.watcher, o.doc)
  {
    var o := Evaluate(w, page, keywords);
    var page' := page.(doc := o.doc);
    ShapeWellFormed(page.doc, o.doc);
    FirstSameShape(page.doc, o.doc, H1Tag);
    if TitleOf(page).Some? {
      var h := First(page.doc, H1Tag).value;
      assert o.doc[h].text == page.doc[h].text;
    }
  }

  lemma FirstSameShape(a: Doc, b: Doc, tag: string)
    requires SameShape(a, b)
    ensures First(a, tag) == First(b, tag)
  {
    var ra := First(a, tag);
    var rb := First(b, tag);
    if ra.Some? && rb.Some? {
      assert ra.value <= rb.value && rb.value <= ra.value;
    }
  }

  /** Without the description the matcher reports "not ready" and changes
      nothing; without a title heading, or with the title handled last, it
      reports "ready" and changes nothing. */
  lemma EvaluateGuards(w: Watcher, page: Page, keywords: seq<string>)
    requires WellFormed(page.doc)
    ensures |page.paragraphs| == 0 ==> Evaluate(w, page, keywords) == Outcome(false, w, page.doc)
    ensures |page.paragraphs| > 0 && (TitleOf(page).None? || TitleOf(page) == Some(w.lastTitle)) ==>
      Evaluate(w, page, keywords) == Outcome(true, w, page.doc)
  {
  }

  /** When no card carries the new title, the matcher only remembers the
      title and clears both markers from the heading. */
  lemma SkipButMarkSeen(w: Watcher, page: Page, keywords: seq<string>, title: string)
    requires WellFormed(page.doc)
    requires TitleOf(page) == Some(title) && title != w.lastTitle
    requires forall j :: 0 <= j < |page.doc| ==> !CardFor(page.doc, title, j)
    ensures var o := Evaluate(w, page, keywords); var h := First(page.doc, H1Tag).value;
      && o.ready
      && o.watcher == w.(lastTitle := title)
      && IsMatch !in o.doc[h].classes && IsNotMatch !in o.doc[h].classes
      && (forall i :: 0 <= i < |page.doc| && i != h ==> o.doc[i] == page.doc[i])
  {
  }

  /** With a card for the new title: a scored title reuses its status and
      sends nothing; a new title is scored once, stored, and sent exactly
      when some keyword was found. */
  lemma CacheRules(w: Watcher, page: Page, keywords: seq<string>, title: string, s: nat)
    requires WellFormed(page.doc)
    requires TitleOf(page) == Some(title) && title != w.lastTitle
    requires s < |page.doc| && CardFor(page.doc, title, s)
    ensures var o := Evaluate(w, page, keywords);
      && o.ready && o.watcher.lastTitle == title
      && (title in w.processed ==>
            o.watcher.processed == w.processed && o.watcher.emitted == w.emitted)
      && (title !in w.processed ==>
            var c := Score(page.paragraphs, keywords);
            && o.watcher.processed == w.processed[title := c]
            && (|c.found| > 0 ==> o.watcher.emitted == w.emitted + [Emission(title, MatchEntry(title, page, c.found))])
            && (|c.found| == 0 ==> o.watcher.emitted == w.emitted))
  {
    NextOnCard(w, page, keywords, title, s);
  }

  /** With a card for a new title, the next state is `Remember` of its
      score and entry. */
  lemma NextOnCard(w: Watcher, page: Page, keywords: seq<string>, title: string, s: nat)
    requires WellFormed(page.doc)
    requires TitleOf(page) == Some(title) && title != w.lastTitle
    requires s < |page.doc| && CardFor(page.doc, title, s)
    ensures var score := Score(page.paragraphs, keywords);
      Evaluate(w, page, keywords).watcher == Remember(w, title, score, MatchEntry(title, page, score.found))
  {
    assert FindCard(page.doc, title, 0).Some?;
  }

  // ---------------------------------------------------------------------------
  // Runs of evaluations
  // ---------------------------------------------------------------------------

  /** The matcher's invariant: every sent title is scored as a match, no
      title is sent twice, and a title scores as a match exactly when some
      keyword was found for it. */
  predicate Inv(w: Watcher) {
    && (forall i :: 0 <= i < |w.emitted| ==>
          w.emitted[i].title in w.processed && w.processed[w.emitted[i].title].status == Match)
    && (forall i, j :: 0 <= i < j < |w.emitted| ==> w.emitted[i].title != w.emitted[j].title)
    && (forall t :: t in w.processed ==> (w.processed[t].status == Match <==> |w.processed[t].found| > 0))
  }

  /** Handling a new title keeps the invariant, never forgets or rescores a
      title and appends at most one message. */
  lemma RememberStep(w: Watcher, title: string, score: Cached, entry: string)
    requires Inv(w)
    requires score.status == Match <==> |score.found| > 0
    ensures var w' := Remember(w, title, score, entry);
      && Inv(w')
      && (forall t :: t in w.processed ==> t in w'.processed && w'.processed[t] == w.processed[t])
      && w.emitted <= w'.emitted && |w'.emitted| <= |w.emitted| + 1
  {
    var w' := Remember(w, title, score, entry);
    if title !in w.processed {
      forall i | 0 <= i < |w'.emitted|
        ensures w'.emitted[i].title in w'.processed && w'.processed[w'.emitted[i].title].status == Match
      {
        if i < |w.emitted| {
          assert w'.emitted[i] == w.emitted[i];
        }
      }
      forall i, j | 0 <= i < j < |w'.emitted|
        ensures w'.emitted[i].title != w'.emitted[j].title
      {
        assert w'.emitted[i] == w.emitted[i];
        if j == |w.emitted| {
          assert w.emitted[i].title in w.processed;
        } else {
          assert w'.emitted[j] == w.emitted[j];
        }
      }
    }
  }

  /** One evaluation keeps the invariant, never forgets or rescores a title
      and only appends to the sent messages, at most one at a time. */
  lemma EvaluateStep(w: Watcher, page: Page, keywords: seq<string>)
    requires WellFormed(page.doc) && Inv(w)
    ensures var w' := Evaluate(w, page, keywords).watcher;
      && Inv(w')
      && (forall t :: t in w.processed ==> t in w'.processed && w'.processed[t] == w.processed[t])
      && w.emitted <= w'.emitted && |w'.emitted| <= |w.emitted| + 1
  {
    assert Evaluate(w, page, keywords).watcher == NextWatcher(w, page, keywords);
    match TitleOf(page)
    case None =>
    case Some(title) =>
      if title != w.lastTitle && FindCard(page.doc, title, 0).Some? {
        var score := Score(page.paragraphs, keywords);
        RememberStep(w, title, score, MatchEntry(title, page, score.found));
      }
  }

  /** The states after each of a run of page snapshots. */
  function Run(w: Watcher, pages: seq<Page>, keywords: seq<string>): Watcher
    requires forall k :: 0 <= k < |pages| ==> WellFormed(pages[k].doc)
    decreases |pages|
  {
    if |pages| == 0 then w else Run(Evaluate(w, pages[0], keywords).watcher, pages[1..], keywords)
  }

  /** Over any run from the initial state, each title is sent at most once,
      only titles scored as matches are sent, and a scored title keeps its
      first score. */
  lemma {:induction false} RunSendsEachTitleOnce(w: Watcher, pages: seq<Page>, keywords: seq<string>)
    requires forall k :: 0 <= k < |pages| ==> WellFormed(pages[k].doc)
    requires Inv(w)
    ensures var w' := Run(w, pages, keywords);
      && Inv(w')
      && (forall i, j :: 0 <= i < j < |w'.emitted| ==> w'.emitted[i].title != w'.emitted[j].title)
      && (forall t :: t in w.processed ==> t in w'.processed && w'.processed[t] == w.processed[t])
      && w.emitted <= w'.emitted
      && |w'.emitted| <= |w.emitted| + |pages|
    decreases |pages|
  {
    if |pages| > 0 {
      EvaluateStep(w, pages[0], keywords);
      RunSendsEachTitleOnce(Evaluate(w, pages[0], keywords).watcher, pages[1..], keywords);
    }
  }

  lemma InitialInv()
    ensures Inv(Initial)
  {
  }

  // ---------------------------------------------------------------------------
  // Styling after one evaluation
  // ---------------------------------------------------------------------------

  /** The page before the restyling pass, once the new title's card was
      found: heading and card marked with `status`. */
  function Styled(doc: Doc, h: nat, s: nat, status: MatchStatus): (r: Doc)
    requires WellFormed(doc) && h < |doc| && doc[h].tag == H1Tag && OnCard(doc, s)
    ensures SameShape(doc, r) && WellFormed(r) && OnCard(r, s) && Container(r, s) == Container(doc, s)
    ensures r[h].classes == doc[h].classes - {IsMatch, IsNotMatch} + {TitleOn(status)}
    ensures forall i :: 0 <= i < |doc| && i != h && i != s && i != Container(doc, s) ==> r[i] == doc[i]
  {
    var d1 := Unmark(doc, h, IsMatch, IsNotMatch);
    var d2 := AddClass(d1, h, TitleOn(status));
    WalkSameShape(doc, d2, s, LevelsUp);
    var d3 := Paint(d2, s, status);
    WalkSameShape(d2, d3, s, LevelsUp);
    d3
  }

  /** With a card for a new title, the next page is the restyling pass
      over the styled page. */
  lemma NextDocOnCard(w: Watcher, page: Page, keywords: seq<string>, title: string, s: nat)
    requires WellFormed(page.doc)
    requires TitleOf(page) == Some(title) && title != w.lastTitle
    requires FindCard(page.doc, title, 0) == Some(s)
    ensures var p := Evaluate(w, page, keywords).watcher.processed;
      && title in p
      && Evaluate(w, page, keywords).doc
         == ReapplyAll(Styled(page.doc, First(page.doc, H1Tag).value, s, p[title].status), p)
  {
  }

  /** Pages of the same shape agree on what the pass acts on. */
  lemma TouchedShape(a: Doc, b: Doc, p: map<string, Cached>, k: nat, i: nat)
    requires WellFormed(a) && SameShape(a, b)
    ensures WellFormed(b)
    ensures Touched(a, p, k, i) <==> Touched(b, p, k, i)
  {
    ShapeWellFormed(a, b);
    forall j | k <= j < |a|
      ensures Known(a, p, j) == Known(b, p, j) && Container(a, j) == Container(b, j)
    {
      ShapeKnown(a, b, p, j);
    }
  }

  /** Styling a heading and card for a known title and then running the
      restyling pass: the heading carries exactly the title marker, the card
      title its strong marker, the container exactly one card marker (the
      right one when no other known title shares it), and nothing else
      changes outside what the pass acts on. */
  lemma StyleThenReapply(doc: Doc, h: nat, s: nat, p: map<string, Cached>, status: MatchStatus)
    requires WellFormed(doc) && h < |doc| && doc[h].tag == H1Tag && OnCard(doc, s)
    requires Trim(doc[s].text) in p && p[Trim(doc[s].text)].status == status
    ensures var r := ReapplyAll(Styled(doc, h, s, status), p);
      var c := Container(doc, s);
      && TitleOn(status) in r[h].classes && ExactlyOne(r[h], IsMatch, IsNotMatch)
      && StrongOn(status) in r[s].classes && StrongOff(status) !in r[s].classes
      && ExactlyOne(r[c], CardMatch, CardNoMatch)
      && (SoleTitle(doc, p, s) ==> CardOn(status) in r[c].classes)
      && (forall i :: 0 <= i < |doc| && i != h && i != s && i != c && !Touched(doc, p, 0, i) ==> r[i] == doc[i])
  {
    StyledHeading(doc, h, s, p, status);
    StyledCard(doc, h, s, p, status);
    StyledElsewhere(doc, h, s, p, status);
  }

  lemma StyledHeading(doc: Doc, h: nat, s: nat, p: map<string, Cached>, status: MatchStatus)
    requires WellFormed(doc) && h < |doc| && doc[h].tag == H1Tag && OnCard(doc, s)
    ensures var r := ReapplyAll(Styled(doc, h, s, status), p);
      TitleOn(status) in r[h].classes && ExactlyOne(r[h], IsMatch, IsNotMatch)
  {
    var d3 := Styled(doc, h, s, status);
    ReapplyUntouched(d3, p, 0);
    OnlyCardsTouched(d3, p, 0, h);
  }

  /** The pass acts on card titles and containers only. */
  lemma OnlyCardsTouched(doc: Doc, p: map<string, Cached>, k: nat, i: nat)
    requires WellFormed(doc) && i < |doc| && doc[i].tag != StrongTag && doc[i].tag != DivTag
    ensures !Touched(doc, p, k, i)
  {
  }

  lemma StyledCard(doc: Doc, h: nat, s: nat, p: map<string, Cached>, status: MatchStatus)
    requires WellFormed(doc) && h < |doc| && doc[h].tag == H1Tag && OnCard(doc, s)
    requires Trim(doc[s].text) in p && p[Trim(doc[s].text)].status == status
    ensures var r := ReapplyAll(Styled(doc, h, s, status), p);
      var c := Container(doc, s);
      && StrongOn(status) in r[s].classes && StrongOff(status) !in r[s].classes
      && ExactlyOne(r[c], CardMatch, CardNoMatch)
      && (SoleTitle(doc, p, s) ==> CardOn(status) in r[c].classes)
  {
    var d3 := Styled(doc, h, s, status);
    ReapplyMarksTitles(d3, p, 0);
    ReapplyCardsExclusive(d3, p, 0);
    ReapplyCardsAgree(d3, p, 0);
    assert Known(d3, p, s);
    if SoleTitle(doc, p, s) {
      assert SoleTitle(d3, p, s) by {
        forall j | 0 <= j < |d3| && j != s && Known(d3, p, j)
          ensures Container(d3, j) != Container(d3, s)
        {
          ShapeKnown(doc, d3, p, j);
        }
      }
    }
  }

  lemma StyledElsewhere(doc: Doc, h: nat, s: nat, p: map<string, Cached>, status: MatchStatus)
    requires WellFormed(doc) && h < |doc| && doc[h].tag == H1Tag && OnCard(doc, s)
    ensures var r := ReapplyAll(Styled(doc, h, s, status), p);
      var c := Container(doc, s);
      forall i :: 0 <= i < |doc| && i != h && i != s && i != c && !Touched(doc, p, 0, i) ==> r[i] == doc[i]
  {
    var d3 := Styled(doc, h, s, status);
    var c := Container(doc, s);
    ReapplyUntouched(d3, p, 0);
    forall i | 0 <= i < |doc| && i != h && i != s && i != c && !Touched(doc, p, 0, i)
      ensures ReapplyAll(d3, p)[i] == doc[i]
    {
      TouchedShape(doc, d3, p, 0, i);
    }
  }

  /** After handling a new title whose card was found: the heading carries
      exactly the marker of the title's status; the card title carries
      exactly its strong marker; its container exactly one card marker,
      the right one when no other known title shares it; and no element
      other than these and the ones the restyling pass acts on changes. */
  lemma EvaluateStyling(w: Watcher, page: Page, keywords: seq<string>, title: string, s: nat)
    requires WellFormed(page.doc)
    requires TitleOf(page) == Some(title) && title != w.lastTitle
    requires FindCard(page.doc, title, 0) == Some(s)
    ensures var o := Evaluate(w, page, keywords);
      var doc := page.doc;
      var h := First(doc, H1Tag).value;
      var p := o.watcher.processed;
      var status := p[title].status;
      var c := Container(doc, s);
      && TitleOn(status) in o.doc[h].classes && ExactlyOne(o.doc[h], IsMatch, IsNotMatch)
      && StrongOn(status) in o.doc[s].classes && StrongOff(status) !in o.doc[s].classes
      && ExactlyOne(o.doc[c], CardMatch, CardNoMatch)
      && (SoleTitle(doc, p, s) ==> CardOn(status) in o.doc[c].classes)
      && (forall i :: 0 <= i < |doc| && i != h && i != s && i != c && !Touched(doc, p, 0, i) ==> o.doc[i] == doc[i])
  {
    NextDocOnCard(w, page, keywords, title, s);
    var p := Evaluate(w, page, keywords).watcher.processed;
    StyleThenReapply(page.doc, First(page.doc, H1Tag).value, s, p, p[title].status);
  }
}
