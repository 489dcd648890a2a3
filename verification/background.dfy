// The background script's message listener: the store queries and updates
// and the hand-off to the tab opener.

module Background {
  import opened Maybe
  import opened MatchStore
  import opened TabOpener

  /** The messages the listener distinguishes by their `type`. */
  datatype Message =
    | AddMatchMsg(data: string)
    | GetMatchCount
    | GetAllMatches
    | ClearMatches
    | OpenJobTabs(urls: Option<seq<string>>)
    | OtherMessage(kind: string)

  /** The replies the listener resolves its promise with. */
  datatype Reply =
    | StatusReply(status: string)
    | CountReply(count: nat)
    | MatchesReply(matches: seq<string>)
    | TabsReply(status: string, tabs: nat)

  /** The store after a message. */
  function StoreAfter(store: seq<string>, msg: Message): (r: seq<string>)
    ensures Valid(Key, store) ==> Valid(Key, r)
    ensures |r| <= |store| + 1
    ensures msg.AddMatchMsg? ==> r == AddMatch(Key, store, msg.data)
    ensures msg.ClearMatches? ==> r == []
    ensures !msg.AddMatchMsg? && !msg.ClearMatches? ==> r == store
  {
    match msg
    case AddMatchMsg(data) => AddMatch(Key, store, data)
    case ClearMatches => []
    case _ => store
  }

  /** The listener: the next store, the reply and, for `OPEN_JOB_TABS`, the
      opener's trace. `creates` and `draws` feed the tab opener. */
  method Dispatch(store: seq<string>, msg: Message, creates: seq<bool>, draws: seq<nat>)
    returns (next: seq<string>, reply: Reply, trace: seq<Event>)
    requires msg.OpenJobTabs? && msg.urls.Some? ==>
      |creates| == |msg.urls.value| && |draws| + 1 >= |msg.urls.value|
    requires forall k :: 0 <= k < |draws| ==> draws[k] <= MaxDraw
    ensures next == StoreAfter(store, msg)
    ensures msg.AddMatchMsg? ==> reply == StatusReply("ok")
    ensures msg.GetMatchCount? ==> reply == CountReply(|store|)
    ensures msg.GetAllMatches? ==> reply == MatchesReply(store)
    ensures msg.ClearMatches? ==> reply == StatusReply("cleared")
    ensures msg.OtherMessage? ==> reply == StatusReply("unknown_message_type")
    ensures msg.OpenJobTabs? ==> reply.TabsReply? && reply.status == "ok" && reply.tabs <= |msg.urls.GetOr([])|
    ensures msg.OpenJobTabs? && msg.urls.Some? && |msg.urls.value| > 0 ==>
      reply.tabs == CountTrue(creates) && Attempts(trace) == Tried(msg.urls.value, creates)
    ensures !msg.OpenJobTabs? || msg.urls.None? || |msg.urls.value| == 0 ==> trace == []
  {
    next := StoreAfter(store, msg);
    trace := [];
    match msg {
      case AddMatchMsg(_) =>
        reply := StatusReply("ok");
      case GetMatchCount =>
        reply := CountReply(|store|);
      case GetAllMatches =>
        reply := MatchesReply(store);
      case ClearMatches =>
        reply := StatusReply("cleared");
      case OpenJobTabs(urls) =>
        var count;
        count, trace := HandleOpenJobTabs(urls, creates, draws);
        reply := TabsReply("ok", count);
      case OtherMessage(_) =>
        reply := StatusReply("unknown_message_type");
    }
  }

  /** The store after a run of messages. */
  function StoreAfterAll(store: seq<string>, msgs: seq<Message>): (r: seq<string>)
    decreases |msgs|
  {
    if |msgs| == 0 then store else StoreAfterAll(StoreAfter(store, msgs[0]), msgs[1..])
  }

  /** The number of `add_match` messages in a run: none exactly when no
      message is one, all exactly when every message is one. */
  function Adds(msgs: seq<Message>): (n: nat)
    ensures n <= |msgs|
    ensures n == 0 <==> forall k :: 0 <= k < |msgs| ==> !msgs[k].AddMatchMsg?
    ensures n == |msgs| <==> forall k :: 0 <= k < |msgs| ==> msgs[k].AddMatchMsg?
    decreases |msgs|
  {
    if |msgs| == 0 then 0
    else
      assert forall k :: 1 <= k < |msgs| ==> msgs[k] == msgs[1..][k - 1];
      (if msgs[0].AddMatchMsg? then 1 else 0) + Adds(msgs[1..])
  }

  /** From a valid store, every run of messages keeps the store valid, and
      without a `clear_matches` it grows by at most one entry per
      `add_match` and keeps its old entries in front. */
  lemma {:induction false} SessionInvariant(store: seq<string>, msgs: seq<Message>)
    requires Valid(Key, store)
    ensures Valid(Key, StoreAfterAll(store, msgs))
    ensures (forall k :: 0 <= k < |msgs| ==> !msgs[k].ClearMatches?) ==>
      store <= StoreAfterAll(store, msgs) && |StoreAfterAll(store, msgs)| <= |store| + Adds(msgs)
    decreases |msgs|
  {
    if |msgs| > 0 {
      var next := StoreAfter(store, msgs[0]);
      SessionInvariant(next, msgs[1..]);
      if forall k :: 0 <= k < |msgs| ==> !msgs[k].ClearMatches? {
        assert forall k :: 0 <= k < |msgs[1..]| ==> !msgs[1..][k].ClearMatches? by {
          forall k | 0 <= k < |msgs[1..]| ensures !msgs[1..][k].ClearMatches? {
            assert msgs[1..][k] == msgs[k + 1];
          }
        }
        assert !msgs[0].ClearMatches?;
        if msgs[0].AddMatchMsg? {
          assert store <= next;
        }
      }
    }
  }
}
