// The background script's in-memory match store: an append-only list of
// entry texts keyed by the job link each one carries.

module MatchStore {
  import opened Maybe
  import opened Text
  import opened Entries
  import opened UrlExtract

  /** The key of an entry in the background script: its first job link, or
      none. */
  function Key(entry: string): Option<string> {
    ExtractJobUrl(entry)
  }

  /** How the store reads an entry's key. The store's rules below hold for
      any such reading; the background script uses `Key`. */
  type KeyOf = string -> Option<string>

  /** Whether some stored entry carries exactly `k` (a missing key
      included, as the strict comparison in the source allows). */
  function AlreadyStored(key: KeyOf, store: seq<string>, k: Option<string>): (r: bool)
    ensures r <==> exists i :: 0 <= i < |store| && key(store[i]) == k
  {
    if |store| == 0 then false
    else key(store[0]) == k || AlreadyStored(key, store[1..], k)
  }

  /** The store invariant: every entry has a key and no two share one. */
  predicate Valid(key: KeyOf, store: seq<string>) {
    (forall i :: 0 <= i < |store| ==> key(store[i]).Some?) &&
    (forall i, j :: 0 <= i < j < |store| ==> key(store[i]) != key(store[j]))
  }

  /** The set of job links in the store. */
  function Keys(key: KeyOf, store: seq<string>): (ks: set<string>)
    ensures forall u :: u in ks <==> AlreadyStored(key, store, Some(u))
  {
    if |store| == 0 then {}
    else (if key(store[0]).Some? then {key(store[0]).value} else {}) + Keys(key, store[1..])
  }

  /** `add_match`: append the entry when it has a key that no stored entry
      has; otherwise leave the store as it is. */
  function AddMatch(key: KeyOf, store: seq<string>, data: string): (r: seq<string>)
    ensures Valid(key, store) ==> Valid(key, r)
    ensures r == store || r == store + [data]
    ensures r == store + [data] <==> key(data).Some? && key(data).value !in Keys(key, store)
  {
    var k := key(data);
    if k.Some? && !AlreadyStored(key, store, k) then store + [data] else store
  }

  /** After `add_match`, the stored keys are the old ones plus the new
      entry's key, if it has one. */
  lemma AddMatchKeys(key: KeyOf, store: seq<string>, data: string)
    ensures Keys(key, AddMatch(key, store, data))
         == Keys(key, store) + (if key(data).Some? then {key(data).value} else {})
  {
    var r := AddMatch(key, store, data);
    forall u ensures u in Keys(key, r) <==> u in Keys(key, store) || key(data) == Some(u) {
      if r == store + [data] {
        assert AlreadyStored(key, r, Some(u)) <==> AlreadyStored(key, store, Some(u)) || key(data) == Some(u) by {
          if key(data) == Some(u) {
            assert r[|store|] == data;
          }
          if AlreadyStored(key, r, Some(u)) {
            var i :| 0 <= i < |r| && key(r[i]) == Some(u);
            if i < |store| {
              assert r[i] == store[i];
            }
          }
          if AlreadyStored(key, store, Some(u)) {
            var i :| 0 <= i < |store| && key(store[i]) == Some(u);
            assert r[i] == store[i];
          }
        }
      }
    }
  }

  /** Adding the same entry twice is the same as adding it once. */
  lemma AddMatchIdempotent(key: KeyOf, store: seq<string>, data: string)
    ensures AddMatch(key, AddMatch(key, store, data), data) == AddMatch(key, store, data)
  {
    AddMatchKeys(key, store, data);
  }

  /** Any entry with a key already in the store is dropped, whatever else
      its text says. */
  lemma DuplicateKeyIgnored(key: KeyOf, store: seq<string>, data: string, other: string)
    requires key(other).Some? && key(other) == key(data)
    ensures AddMatch(key, AddMatch(key, store, other), data) == AddMatch(key, store, other)
  {
    AddMatchKeys(key, store, other);
  }

  /** In a valid store the number of entries is the number of distinct job
      links. */
  lemma {:induction false} CountIsDistinctJobs(key: KeyOf, store: seq<string>)
    requires Valid(key, store)
    ensures |Keys(key, store)| == |store|
  {
    if |store| > 0 {
      var rest := store[1..];
      assert Valid(key, rest) by {
        forall i, j | 0 <= i < j < |rest| ensures key(rest[i]) != key(rest[j]) {
          assert rest[i] == store[i + 1] && rest[j] == store[j + 1];
        }
        forall i | 0 <= i < |rest| ensures key(rest[i]).Some? {
          assert rest[i] == store[i + 1];
        }
      }
      CountIsDistinctJobs(key, rest);
      var k := key(store[0]).value;
      forall i | 0 <= i < |rest| ensures key(rest[i]) != Some(k) {
        assert rest[i] == store[i + 1];
      }
      assert k !in Keys(key, rest);
    }
  }

  /** An entry built by the list page from an address that names a job is
      stored exactly when no stored entry already has that job's link. */
  lemma ListEntryStored(store: seq<string>, title: string, id: string, found: seq<string>, stamp: string)
    requires |id| > 0 && AllDigits(id)
    requires ExtractJobUrl(title).None?
    ensures AddMatch(Key, store, EntryText(title, ViewUrl(id), found, stamp)) == store + [EntryText(title, ViewUrl(id), found, stamp)]
        <==> ViewUrl(id) !in Keys(Key, store)
  {
    EntryUrlRoundTrip(title, id, found, stamp);
  }

  /** An entry whose lines carry no job link, such as one built from a
      search-page address (`https://www.linkedin.com/jobs/search/?...`),
      leaves the store unchanged. */
  lemma LinklessEntryDropped(store: seq<string>, title: string, url: string, found: seq<string>, date: DateTime)
    requires ExtractJobUrl(title).None?
    requires ExtractJobUrl(Join(found, ", ")).None?
    requires |url| > 0 && !IsSpace(url[0])
    requires ExtractJobUrl(url).None?
    requires !(HttpsView <= url) && !(HttpView <= url)
    ensures AddMatch(Key, store, EntryText(title, url, found, FormatDate(date))) == store
  {
    UrlLineWithoutViewLink(url);
    DateHasNoLabel(date);
    EntryWithoutViewUrl(title, url, found, FormatDate(date));
  }

  /** Adding entries one after another keeps the invariant from the empty
      store on. */
  function AddAll(key: KeyOf, store: seq<string>, data: seq<string>): (r: seq<string>)
    ensures Valid(key, store) ==> Valid(key, r)
    ensures |r| <= |store| + |data|
    ensures store <= r
    decreases |data|
  {
    if |data| == 0 then store else AddAll(key, AddMatch(key, store, data[0]), data[1..])
  }
}
