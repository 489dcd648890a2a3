# Job tracker extension, modelled in Dafny

This project models the core of a browser extension that helps someone
search for jobs on LinkedIn. The extension has three scripts.

- **The content script** runs on LinkedIn pages.
  - On a job's detail page (`/jobs/view/<id>/`), once the description paragraphs are there, it scores them against a keyword list. On a match it reports an entry (`Job Title:`, `URL:`, `Keywords:`, `Date:`) and marks the title heading exactly once. A poll retries the scan every 500 ms for ten seconds.
  - On a job list page (recommended collection or search), it watches the job in the detail pane. It finds that job's card in the list by the card title (a `strong` element seven levels below the card container). It scores each title once, reports matches and styles the heading, the card title and the card container. It then restyles every known card.
  - It also counts the jobs in the list and reports the count once. When asked, it extracts the job ids for the open-all workflow.
- **The background script** keeps an in-memory store of reported entries. Entries are de-duplicated by the job link found after `URL` in the entry. It answers count, list and clear requests. It opens a list of job pages one after another, with a random 3–5 s pause between them, and broadcasts start, progress and finish notices.
- **The popup** offers:
  - the radar on/off switch;
  - the job counter;
  - the keyword editor (a comma-separated list);
  - the download and flush buttons, with the numbered export text;
  - the open-jobs button, which checks the page first and follows the opener's notices.

The model is purely functional. A page is a list of element records: each has a tag, a text, a class set and the position of its parent. Browser facilities become inputs:

- the local time, as integer date fields;
- the random draw, as an integer in `[0, 2000]`;
- the outcome of each tab creation;
- the user's answer to the confirmation;
- what each scan of the page saw.

Message passing is modelled as the message values and the replies.

Files, one module each:

- `maybe.dfy`: `Option`.
- `text.dfy`: ASCII trim and lower-casing, substring search, `join` and `split`, decimal numbers, and a leftmost regular-expression match.
- `keywords.dfy`: the default keywords, the description text, keyword filtering, and the keyword editor's parse and prefill.
- `entries.dfy`: job ids read from addresses, the date stamp, and the entry text.
- `url_extract.dfy`: the background script's job-link extraction.
- `match_store.dfy`: the match store. Its rules are stated for any way of reading an entry's key (`KeyOf`); the background script reads the key with `extractJobURL` (`MatchStore.Key`), and every use outside the store's own lemmas passes that reading.
- `tab_opener.dfy`: the tab opener.
- `background.dfy`: the message listener.
- `dom.dfy`: element records and the parent walk.
- `list_matcher.dfy`: the list-page matcher and its restyling pass.
- `detail_page.dfy`: the detail-page scan and poll.
- `job_ids.dfy`: the list-page job counting, count report and id extraction.
- `popup.dfy`: the popup.

## Model

| member | source | states |
|---|---|---|
| Keywords.KeywordsInUse | src/content.js:14-16 | The stored keyword list is used unless it is missing or empty; then the four built-in keywords are used. The result is never empty. |
| Keywords.CombinedText | src/content.js:45-48 | The description text is trimmed at both ends. It is empty exactly when every paragraph is blank. |
| Keywords.FindKeywords | src/content.js:50-52 | A keyword is reported exactly when it is in the list and appears in the text, ignoring case. No more keywords are reported than were given. |
| Keywords.FindKeywordsCounts | src/content.js:50-52 | Filtering keeps every copy of a mentioned keyword and drops every copy of the others. |
| Keywords.FindKeywordsConcat | src/content.js:50-52 | Filtering keeps the keywords' order: filtering two lists one after the other gives the two results one after the other. |
| Keywords.KeywordInParagraphIsFound | src/content.js:242-252 | A keyword that appears in any single trimmed paragraph is found in the combined description. |
| Keywords.ParseKeywords | src/popup/popup.js:164-168 | Every keyword the editor saves is non-empty and trimmed, and contains no comma. |
| Keywords.ParseKeywordsConcat | src/popup/popup.js:164-168 | Parsing text around a comma gives the keywords of each side, in order. |
| Keywords.ParsePiece | src/popup/popup.js:164-168 | Text without a comma gives its trimmed self as the only keyword, or nothing when it is blank. |
| Keywords.ParsePrefill | src/popup/popup.js:155-174 | Opening the editor on a saved list and saving it unchanged gives back the same list. |
| Keywords.EditorRoundTrip | src/popup/popup.js:155-174 | Saving, reopening and saving again is the same as saving once. |
| Entries.DetailPageJobIdFound | src/content.js:5 | The id read from a detail page's address is a non-empty run of digits, and its canonical page address occurs in the address. No canonical page address of a digit id occurs earlier. No id is read exactly when no such page address occurs at all. |
| Entries.ListPageJobIdFound | src/content.js:269 | The id read is the whole digit run after the first `currentJobId=` that a digit follows. No id is read exactly when no occurrence of `currentJobId=` is followed by a digit. |
| Entries.ListPageJobUrl | src/content.js:268-273 | A list-page entry records the canonical page address of exactly the job id read from the address bar. The raw address is kept when the address names no job. |
| Entries.CanonicalUrlIsViewUrl | src/content.js:272 | The canonical page address and the digit id determine each other. |
| Entries.FormatDateRoundTrip | src/content.js:57 | The date stamp is 16 characters long, and the date and time fields can be read back from it. |
| UrlExtract.ExtractJobUrlFound | src/background.js:17-20 | There is no link exactly when the pattern captures nothing at any position. Otherwise the link is the capture at the leftmost position where the pattern matches. The pattern's `\s` is read as ASCII whitespace (see "## Left out"). |
| UrlExtract.ExtractedOccurs | src/background.js:17-20 | A found link occurs in the entry after a `URL` label, with only whitespace and at most one colon in between. It starts with `http(s)://www.linkedin.com/jobs/view/`, holds only URL characters after that, and the entry does not continue it with another URL character. |
| UrlExtract.MatchAtCaptures | src/background.js:17-20 | What the anchored pattern returns is a capture: the label, an allowed gap, a view link, and no URL character after it. |
| UrlExtract.MatchAtOfCapture | src/background.js:17-20 | Every capture is what the anchored pattern returns, so the greedy reading misses no match. |
| UrlExtract.EntryUrlRoundTrip | src/content.js:58 | An entry built with the canonical address of a digit id yields exactly that address to the background script, provided its title holds no job link of its own. |
| UrlExtract.EntryWithoutViewUrl | src/content.js:275 | An entry yields no link when none of its title, address, keyword and date lines carries one. |
| UrlExtract.UrlLineWithoutViewLink | src/content.js:268-275 | A `URL:` line yields no link when its address holds no job link itself, is not a job view page and does not start with whitespace. |
| MatchStore.AlreadyStored | src/background.js:70 | The duplicate test holds exactly when some stored entry's link equals the new entry's link. |
| MatchStore.Keys | src/background.js:70 | The set of stored links holds exactly the links of stored entries. |
| MatchStore.AddMatch | src/background.js:68-77 | An entry is appended exactly when it carries a link that no stored entry carries; otherwise the store is unchanged. The store stays duplicate-free. |
| MatchStore.AddMatchKeys | src/background.js:68-77 | After adding an entry, the stored links are the old links plus the entry's link. |
| MatchStore.AddMatchIdempotent | src/background.js:68-77 | Sending the same entry twice stores it at most once. |
| MatchStore.DuplicateKeyIgnored | src/background.js:70-74 | An entry for a job that is already stored is ignored, whatever its other text says. |
| MatchStore.CountIsDistinctJobs | src/background.js:47-48 | In a duplicate-free store, the count the background reports equals the number of distinct jobs. |
| MatchStore.ListEntryStored | src/content.js:263-277 | A list-page entry for a named job is stored exactly when that job is not already stored. |
| MatchStore.LinklessEntryDropped | src/content.js:268-277 | An entry is dropped by the store when it is built from an address that holds no job link, such as a search-page address. Its title and keywords must hold none either. |
| MatchStore.AddAll | src/background.js:68-77 | A run of additions keeps the store duplicate-free. It keeps the old entries in front, and grows by at most one entry per addition. |
| TabOpener.RandomDelayMs | src/background.js:32-36 | Each pause lies between the two bounds, inclusive. |
| TabOpener.DelayCoversRange | src/background.js:32-36 | Every whole number of milliseconds in the range is the pause of exactly one draw. |
| TabOpener.HandleOpenJobTabs | src/background.js:82-124 | A missing or empty list does nothing and reports 0. Otherwise:<br>- every address is tried once, in order;<br>- the count is the number of successful creations;<br>- the first attempt comes right after the start notice; every later attempt comes right after exactly one pause within the bounds, and every pause comes right before an attempt, so there is none before the first attempt or after the last;<br>- the notices are the start, one progress notice per success counting up, and the finish with the count;<br>- each success is followed directly by its progress notice. |
| Background.StoreAfter | src/background.js:42-63 | `add_match` acts as the store addition and `clear_matches` empties the store. Every other message leaves the store unchanged. The store stays duplicate-free. |
| Background.Dispatch | src/background.js:42-63 | Each message type gets its reply: `ok`, the count, the list, `cleared`, the opener's count, or `unknown_message_type`. `OPEN_JOB_TABS` runs the opener. |
| Background.Adds | src/background.js:42-63 | The count of `add_match` messages is zero exactly when no message is one, and equals the run's length exactly when every message is one. |
| Background.SessionInvariant | src/background.js:42-77 | Any run of messages keeps the store duplicate-free. A run without `clear_matches` only appends, at most one entry per `add_match`. |
| Dom.WalkSpec | src/content.js:204-213 | The parent walk climbs exactly seven levels when the page is that deep there. Otherwise it stops at the root it reaches first. |
| Dom.WalkSameShape | src/content.js:326-334 | Class changes never move the walk's end. |
| ListMatcher.FindCard | src/content.js:193-222 | The card found is the first `strong` in document order that carries the title and whose walk ends on a `DIV`. No card is found exactly when no `strong` qualifies. |
| ListMatcher.Score | src/content.js:241-252 | A description is a match exactly when some keyword was found. The found keywords are the keywords the description mentions. |
| ListMatcher.Paint | src/content.js:336-351 | Restyling one card title gives it the strong marker of its status and its container the card marker of its status. It removes the opposite markers and touches nothing else. |
| ListMatcher.ReapplyKeepsClasses | src/content.js:315-354 | The restyling pass changes no class other than the four card markers. |
| ListMatcher.ReapplyUntouched | src/content.js:315-354 | The pass leaves every element that is neither a known card title nor the container of one as it was. |
| ListMatcher.ReapplyMarksTitles | src/content.js:315-354 | After the pass, each known card title carries exactly the strong marker of its cached status. |
| ListMatcher.ReapplyCardsExclusive | src/content.js:315-354 | After the pass, each known card's container carries exactly one of the two card markers. |
| ListMatcher.ReapplyCardsAgree | src/content.js:315-354 | A container that holds only one known title ends with that title's card marker. |
| ListMatcher.NextWatcher | src/content.js:181-229 | The heading's title becomes the last title handled. A new title whose card is found is cached. Without a description or a heading, the state is unchanged. |
| ListMatcher.NextDoc | src/content.js:190-310 | An evaluation changes classes only, never tags, texts or parents. |
| ListMatcher.RadarEvaluate | src/content.js:148-155 | With the radar switched off the list page evaluates nothing. Otherwise an evaluation uses the keywords in use. It reports "ready" exactly when the description is there, and it sends at most one new entry. |
| ListMatcher.EvaluateGuards | src/content.js:166-186 | Without the description, the result is "not ready" and nothing changes. Without a heading, or when the title is the one handled last, the result is "ready" and nothing changes. |
| ListMatcher.SkipButMarkSeen | src/content.js:190-229 | When no card carries a new title, only the title is remembered and the heading loses both markers. |
| ListMatcher.CacheRules | src/content.js:231-279 | A title scored before reuses its status and sends nothing. A new title is scored, cached and sent exactly when some keyword was found. |
| ListMatcher.EvaluateTwiceNoOp | src/content.js:183-186 | Evaluating the page just produced again changes nothing. |
| ListMatcher.EvaluateStep | src/content.js:164-313 | One evaluation keeps the invariant: sent titles are matches, no title is sent twice, and the status agrees with the found keywords. It never forgets or rescores a title, and sends at most one entry. |
| ListMatcher.RunSendsEachTitleOnce | src/content.js:164-313 | Over any run of evaluations, each title is sent at most once. Cached scores never change, and sent entries are only appended. |
| ListMatcher.InitialInv | src/content.js:161-162 | The empty start state satisfies the invariant. |
| ListMatcher.Styled | src/content.js:281-304 | Styling gives the heading exactly the marker of the status, keeps the page's shape and the card's container, and changes no element other than the heading, the card title and its container. |
| ListMatcher.StyleThenReapply | src/content.js:281-310 | After styling and the restyling pass:<br>- the heading carries exactly one title marker, the right one;<br>- the card title carries its strong marker;<br>- the container carries exactly one card marker, and the right one when no other known title shares it;<br>- nothing else changes beyond what the pass acts on. |
| ListMatcher.EvaluateStyling | src/content.js:164-313 | A whole evaluation for a new title whose card is found leaves the page styled as `StyleThenReapply` states. |
| DetailPage.ApplyHeading | src/content.js:24-37 | A heading not yet styled loses both markers and gains exactly the one for the outcome, and is flagged as styled. A styled or missing heading is left alone. |
| DetailPage.HeadingStyledOnce | src/content.js:24-37 | Later scans never restyle the heading. |
| DetailPage.ScanForMatches | src/content.js:39-69 | The scan is ready exactly when the description paragraphs are there. Before that it sends nothing and leaves the heading alone. A heading is never added or removed. |
| DetailPage.ScanSendsOnMatch | src/content.js:39-69 | An entry is sent exactly when the description mentions some keyword. It lists exactly the mentioned keywords and names the canonical page address. A fresh heading is marked as a match exactly when an entry was sent. |
| DetailPage.RadarScan | src/content.js:10-16 | With the radar switched off (`scraperEnabled` stored as `false`) the detail page scans nothing. Otherwise a scan uses the keywords in use. It sends an entry exactly when the description mentions one of those keywords. |
| DetailPage.ScanEntryStored | src/content.js:5-60 | A detail page's entry yields its own canonical address to the background script. It is stored exactly when that job is not stored yet. |
| DetailPage.PollBound | src/content.js:71-79 | The poll scans until a scan succeeds, and stops after the scan at the ten-second mark. Every scan before the last one failed. |
| DetailPage.PollAtMost21 | src/content.js:18-20 | The poll makes between 1 and 21 scans. |
| JobIds.CountJobs | src/content.js:98-105 | The count is 0 exactly when no item has an `ember<digits>` id and the job id attribute. |
| JobIds.JobUrlsConcat | src/content.js:427-432 | Extraction keeps page order. |
| JobIds.JobUrlsMembers | src/content.js:427-432 | An address is extracted exactly when an `ember<digits>` item carries a non-blank job id that builds it. |
| JobIds.JobUrlsWithinCount | src/content.js:98-105 | The extraction never offers more tabs than the counter counted jobs. |
| JobIds.JobUrlsAreViews | src/content.js:432 | Every extracted address is a job view address ending in `/`. |
| JobIds.JobUrlsExactly | src/content.js:427-435 | Some address is extracted exactly when some item qualifies. |
| JobIds.HandleExtract | src/content.js:419-443 | `OPEN_JOB_TABS` is sent exactly when the user confirms and some item qualifies. The confirmation offers the number of extracted addresses, and the message carries exactly that list, in page order. |
| JobIds.SendJobCountOnce | src/content.js:112-123 | Once the count is sent, a call does nothing. Before that, each call saves the count, and it sends the count exactly when the count is positive. |
| JobIds.CountReportedOnce | src/content.js:107-146 | However often the report is attempted:<br>- at most one count is sent, and it is positive;<br>- one is sent exactly when some attempt saw a job;<br>- `GET_JOB_COUNT` answers the count that was sent, or 0 if none was. |
| Popup.RadarButtonFor | src/popup/popup.js:53-61 | The switch reads ON and is active exactly when the radar is enabled. |
| Popup.ClickRadar | src/popup/popup.js:37-48 | A click stores the opposite of the state the content scripts used. The icon and the switch's `active` class show that new state, and the switch is exactly the one `updateRadarButton` draws for it, caption included. |
| Popup.ClickTwiceRestores | src/popup/popup.js:37-48 | Two clicks give back the original state. |
| Popup.CounterText | src/popup/popup.js:70-74 | The counter text ends in ` Job(s) Found`. |
| Popup.CounterTextReadsBack | src/popup/popup.js:70-74 | The digits before the suffix denote the count. |
| Popup.CounterTextInjective | src/popup/popup.js:70-74 | Different counts show different texts. |
| Popup.CounterShowsReportedCount | src/content.js:142-146 | A popup opened after the count was reported shows that count. |
| Popup.ButtonsFor | src/popup/popup.js:224-249 | The download and flush buttons are disabled together, exactly when the reported count is missing or 0. The label starts with `Download (` and ends with `) Matches`. |
| Popup.ButtonLabelReadsBack | src/popup/popup.js:228-229 | The text between `Download (` and `) Matches` is the digits of the count, a missing count reading as 0. |
| Popup.UpdateButtons | src/popup/popup.js:224-229 | No reply leaves the buttons as they were. A count reply sets them from that count. |
| Popup.ButtonLabelInjective | src/popup/popup.js:229 | Different counts give different labels. |
| Popup.ButtonsTrackStore | src/popup/popup.js:185-249 | Answered from the store, the buttons are disabled exactly when the store is empty. They are disabled after the clear that follows a download or flush. |
| Popup.ExportText | src/popup/popup.js:196 | The export is empty exactly when there are no matches. |
| Popup.ExportListsEach | src/popup/popup.js:196 | Every match appears in the export under its own number. |
| Popup.ExportStartsWithFirst | src/popup/popup.js:196 | The export starts with `#1` and the first match. |
| Popup.ExportConcat | src/popup/popup.js:196 | Exporting more matches extends the file: the new blocks follow on a new line, numbered on from the old ones. |
| Popup.OpenJobsClick | src/popup/popup.js:130-141 | The click asks for extraction exactly when the address starts with the search or collections prefix. Otherwise it shows the fixed error message. |
| Popup.ListPagePassesClick | src/popup/popup.js:130-141 | Every page the list features run on passes the click's check. |
| Popup.ClickAcceptsOtherCollections | src/popup/popup.js:131 | The click's check is wider: another collection passes it, although the list features do not run there. |
| Popup.OnStatus | src/popup/popup.js:81-93 | A start notice disables the open button and a finish notice enables it. A progress notice leaves it as it is. |
| Popup.ProgressKeepsButton | src/popup/popup.js:87-89 | Progress notices never change the button. |
| Popup.StartedThenProgress | src/popup/popup.js:81-89 | After the start notice, progress notices keep the button disabled. |
| Popup.OpenButtonDuringRun | src/popup/popup.js:81-93 | Over the notices the opener sends for a non-empty list, the button is disabled from the start notice until the finish notice, which enables it again. |

## Left out

- Timers and DOM observers: the `MutationObserver`s, the content watcher, `setTimeout` scheduling and the ten-second safety disconnect are not modelled. A run of evaluations over page snapshots, and the poll's per-scan outcomes, stand for them.
- The detail page's observer calls the same scan as the poll, so a page can send its entry more than once. The model does not include the observer, and the store de-duplicates such repeats (`MatchStore.AddMatchIdempotent`).
- Messaging and storage: `runtime.sendMessage`, `tabs.sendMessage`, `tabs.query` and `storage.local` are not modelled; their values and replies are. The install handler's default settings and the toolbar icon changes are not modelled either.
- `alert`, `confirm`, the popup's modal alert, the keyword dialog's show and hide, and the file download (blob, link click) are not modelled. The confirmation's answer is an input, and the export's text is modelled.
- The `catch` branch of the open-jobs click is not modelled: it shows a fixed alert when the tab cannot be reached.
- `Math.random` is an integer draw in `[0, 2000]`: the floor of the random float times 2001, which is every value the source can produce.
- `Date` is given as local date and time fields. Time zones and the clock are not modelled.
- Trimming, lower-casing and `\s` in the URL pattern cover ASCII only. JavaScript's `trim` and `\s` also match Unicode spaces such as U+00A0, and `toLowerCase` also maps non-ASCII letters. An entry whose `URL` label is followed by a non-breaking space yields a link in the source and none in the model.
- `textContent` is each element's given text field.
- The list matcher's cache also keeps the matched `strong` element. The source never reads that element back, so the model does not keep it.
- The comment at the seven-level walk speaks of checking that the walk climbed seven levels. The code only checks that the walk ends on a `DIV`, so a root `DIV` reached early is accepted. The model follows the code.
- Console logging is not modelled.
- JobIds.CountJobs: the contract bounds the count and says when it is zero. The exact count is the definition itself.
- ListMatcher.NextDoc: the contract only states that the page keeps its shape. What it does to the classes is stated by `ListMatcher.EvaluateStyling`.
- Popup.ExportText: the contract only states when the export is empty. Its content is stated by `Popup.ExportListsEach`, `Popup.ExportStartsWithFirst` and `Popup.ExportConcat`.
- DetailPage.ScanForMatches: the contract only covers readiness and the heading's presence. The entry and the heading are stated by `DetailPage.ScanSendsOnMatch`.
- Popup.CounterText: the contract only fixes the suffix. The number is stated by `Popup.CounterTextReadsBack`.
- Keywords.ParseKeywords: the contract only says what each saved keyword looks like. Which keywords are saved is stated by `Keywords.ParsePiece` and `Keywords.ParseKeywordsConcat`, which together fix the result for every text.

One consequence of the source shows up in `MatchStore.LinklessEntryDropped`. When the list page's address names no job, the list matcher records the raw page address, for example `https://www.linkedin.com/jobs/search/?keywords=Go`. That address carries no job link, so the background script silently drops the entry.
