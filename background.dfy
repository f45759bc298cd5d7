/** The background script: the bounded failure log kept in the storage slot
    `failedRequests` (newest first), the per-tab badge rule, admission of
    network-error events, and the message and tab handlers that mutate the
    log and refresh badges. The storage slot and the per-tab badge state are
    fields of `Background`; each handler is one atomic step. */
module Background {
  import opened Sequences
  import opened Text
  import opened FailureRecords

  /** Capacity of the stored log. */
  const MAX_RECORDS: nat := 500

  /** `if (a.length > MAX_RECORDS) a.length = MAX_RECORDS`: the first
      `MAX_RECORDS` entries of a longer sequence, a shorter one unchanged. */
  function Truncated(s: seq<FailureRecord>): (r: seq<FailureRecord>)
    ensures |r| == if |s| <= MAX_RECORDS then |s| else MAX_RECORDS
    ensures r == s[..|r|]
  {
    if |s| > MAX_RECORDS then s[..MAX_RECORDS] else s
  }

  /** The log after `pushFailure(r)`: `r` at the front, then the old log in
      its order, cut back to capacity. Below capacity nothing is lost and the
      log grows by one; at capacity the length stays `MAX_RECORDS` and only
      the oldest entries are dropped. */
  function Pushed(log: seq<FailureRecord>, r: FailureRecord): (result: seq<FailureRecord>)
    ensures |result| == if |log| < MAX_RECORDS then |log| + 1 else MAX_RECORDS
    ensures result[0] == r
    ensures result[1..] == log[..|result| - 1]
    ensures |log| < MAX_RECORDS ==> result == [r] + log
    ensures |log| >= MAX_RECORDS ==> |result| == MAX_RECORDS
  {
    Truncated([r] + log)
  }

  /** The log after pushing `rs` one by one, first element first. */
  function PushAll(log: seq<FailureRecord>, rs: seq<FailureRecord>): seq<FailureRecord>
    decreases |rs|
  {
    if rs == [] then log else PushAll(Pushed(log, rs[0]), rs[1..])
  }

  /** Cutting back early does not change what a later cut keeps. */
  lemma TruncatedAbsorbs(a: seq<FailureRecord>, b: seq<FailureRecord>)
    ensures Truncated(a + Truncated(b)) == Truncated(a + b)
  {
    var t := Truncated(b);
    var n := |Truncated(a + b)|;
    assert |Truncated(a + t)| == n;
    forall k | 0 <= k < n ensures Truncated(a + t)[k] == Truncated(a + b)[k] {
      if k >= |a| {
        assert (a + t)[k] == t[k - |a|] == b[k - |a|] == (a + b)[k];
      }
    }
  }

  /** Moving the first push from the pushes to the log keeps the
      newest-first order. */
  lemma ReversedPushes(log: seq<FailureRecord>, rs: seq<FailureRecord>)
    requires rs != []
    ensures Reverse(rs[1..]) + ([rs[0]] + log) == Reverse(rs) + log
  {
    assert [rs[0]] + rs[1..] == rs;
    ReverseCons(rs[0], rs[1..]);
  }

  /** One push in front of the later pushes is the same as pushing them
      all onto the old log at once, newest first. */
  lemma PushStep(log: seq<FailureRecord>, rs: seq<FailureRecord>)
    requires rs != []
    ensures Truncated(Reverse(rs[1..]) + Pushed(log, rs[0])) == Truncated(Reverse(rs) + log)
  {
    TruncatedAbsorbs(Reverse(rs[1..]), [rs[0]] + log);
    ReversedPushes(log, rs);
  }

  /** Whatever sequence of pushes happens, the log holds exactly the most
      recent `MAX_RECORDS` records of the pushes and the old log, newest
      first. */
  lemma {:induction false} PushAllKeepsNewest(log: seq<FailureRecord>, rs: seq<FailureRecord>)
    requires |log| <= MAX_RECORDS
    ensures PushAll(log, rs) == Truncated(Reverse(rs) + log)
    decreases |rs|
  {
    if rs == [] {
      assert Reverse(rs) + log == log;
    } else {
      assert PushAll(log, rs) == PushAll(Pushed(log, rs[0]), rs[1..]);
      PushAllKeepsNewest(Pushed(log, rs[0]), rs[1..]);
      PushStep(log, rs);
    }
  }

  /** The test `r => r.id !== id`. */
  function IdIsNot(id: string): FailureRecord -> bool
  {
    (r: FailureRecord) => r.id != id
  }

  /** The log after the `remove-failure` handler: no record with `id` is
      left, every copy of every other record stays, in the same relative
      order; when no record has `id` the log is unchanged. */
  function WithoutId(log: seq<FailureRecord>, id: string): (result: seq<FailureRecord>)
    ensures forall i :: 0 <= i < |result| ==> result[i].id != id && result[i] in log
    ensures forall i :: 0 <= i < |log| && log[i].id != id ==> log[i] in result
    ensures forall x :: Occurrences(result, x) == if x.id != id then Occurrences(log, x) else 0
    ensures Subsequence(result, log)
    ensures (forall i :: 0 <= i < |log| ==> log[i].id != id) ==> result == log
  {
    FilterAllPass(log, IdIsNot(id));
    FilterCounts(log, IdIsNot(id));
    Filter(log, IdIsNot(id))
  }

  /** Removing an id twice is removing it once. */
  lemma WithoutIdIdempotent(log: seq<FailureRecord>, id: string)
    ensures WithoutId(WithoutId(log, id), id) == WithoutId(log, id)
  {
  }

  /** A tab's records are as many as the log positions holding one. */
  lemma TabPositions(log: seq<FailureRecord>, tabId: int)
    ensures |TabRecords(log, tabId)| == |set i | 0 <= i < |log| && log[i].tabId == tabId|
  {
    var p := HasTabId(tabId);
    FilterLength(log, p);
    var b := set i | 0 <= i < |log| && log[i].tabId == tabId;
    forall i ensures i in Passing(log, p) <==> i in b {
    }
    assert Passing(log, p) == b;
  }

  /** `failedRequests.filter(r => r.tabId === tabId).length`: the number of
      positions of the log holding a record of the tab, so zero exactly when
      no record belongs to the tab. */
  function CountForTab(log: seq<FailureRecord>, tabId: int): (n: nat)
    ensures n == |set i | 0 <= i < |log| && log[i].tabId == tabId|
    ensures n <= |log|
    ensures n == 0 <==> forall i :: 0 <= i < |log| ==> log[i].tabId != tabId
  {
    TabPositions(log, tabId);
    var rs := TabRecords(log, tabId);
    assert rs != [] ==> rs[0].tabId == tabId && rs[0] in log;
    |rs|
  }

  /** What `chrome.action` shows for one tab: text, background colour, icon. */
  datatype Badge = Badge(text: string, color: string, icon: string)

  /** The badge of a tab without failures. */
  const GOOD_BADGE: Badge := Badge("0", "#0a0", "icon_good.png")

  /** The badge rule: no failures shows the good badge; a positive count
      shows its decimal numeral (never "0") on red with the bad icon. The
      text always reads back as the count. */
  function BadgeFor(count: nat): (b: Badge)
    ensures count == 0 ==> b == GOOD_BADGE
    ensures count > 0 ==> b.text == DecimalString(count) && b.color == "#a00" && b.icon == "icon_bad.png"
    ensures b.text == "0" <==> count == 0
    ensures (forall i :: 0 <= i < |b.text| ==> '0' <= b.text[i] <= '9') && DecimalValue(b.text) == count
  {
    DecimalRoundTrip(count);
    if count == 0 then GOOD_BADGE
    else Badge(DecimalString(count), "#a00", "icon_bad.png")
  }

  /** An empty log gives every tab the good badge. */
  lemma EmptyLogGoodBadge(tabId: int)
    ensures BadgeFor(CountForTab([], tabId)) == GOOD_BADGE
  {
  }

  /** The example of three failures, two on tab 1 and one on tab 2: tab 1
      lists the second before the first and shows "2", tab 2 shows "1",
      and any other tab shows the good badge. */
  lemma ThreeFailuresExample(a: FailureRecord, b: FailureRecord, c: FailureRecord, other: int)
    requires a.tabId == 1 && b.tabId == 1 && c.tabId == 2
    requires other != 1 && other != 2
    ensures TabRecords(PushAll([], [a, b, c]), 1) == [b, a]
    ensures BadgeFor(CountForTab(PushAll([], [a, b, c]), 1)).text == "2"
    ensures BadgeFor(CountForTab(PushAll([], [a, b, c]), 2)).text == "1"
    ensures BadgeFor(CountForTab(PushAll([], [a, b, c]), other)) == GOOD_BADGE
  {
    assert [a, b, c][1..] == [b, c] && [b, c][1..] == [c] && [c][1..] == [];
    assert Pushed([], a) == [a];
    assert Pushed([a], b) == [b, a];
    assert Pushed([b, a], c) == [c, b, a];
    assert PushAll([], [a, b, c]) == PushAll([a], [b, c]);
    assert PushAll([a], [b, c]) == PushAll([b, a], [c]);
    assert PushAll([b, a], [c]) == PushAll([c, b, a], []);
    var log := PushAll([], [a, b, c]);
    assert log == [c, b, a];
    assert [c, b, a][1..] == [b, a] && [b, a][1..] == [a] && [a][1..] == [];
    assert Filter([a], HasTabId(1)) == [a];
    assert Filter([b, a], HasTabId(1)) == [b, a];
    assert TabRecords(log, 1) == [b, a];
    assert TabRecords(log, 2) == [c];
    assert TabRecords(log, other) == [];
    assert DecimalString(2) == "2" && DecimalString(1) == "1";
  }

  /** The `details` of a `webRequest.onErrorOccurred` event, as far as the
      listener reads them; absent optional fields are `None`. */
  datatype ErrorDetails = ErrorDetails(
    url: string,
    requestMethod: string,
    resourceType: string,
    tabId: int,
    frameId: int,
    initiator: Option<string>,
    documentUrl: Option<string>,
    error: string,
    fromCache: bool,
    ip: Option<string>,
    statusLine: Option<string>)

  /** JavaScript's `x || null` on an optional string: an empty string is
      falsy and also gives `null`. */
  function OrNull(x: Option<string>): (r: Option<string>)
    ensures r.Some? <==> x.Some? && x.value != ""
    ensures r.Some? ==> r == x
  {
    if x.Some? && x.value != "" then x else None
  }

  /** `a || b || null`: the first non-empty one of two optional strings. */
  function FirstPresent(a: Option<string>, b: Option<string>): (r: Option<string>)
    ensures r.Some? ==> r.value != "" && (r == a || r == b)
    ensures OrNull(a).Some? ==> r == a
    ensures OrNull(a).None? ==> r == OrNull(b)
  {
    if OrNull(a).Some? then a else OrNull(b)
  }

  /** The record the listener builds from an event, given the generated
      id and timestamp: the plain fields are copied, `initiator` falls
      back to `documentUrl` and then to null, and `ip` and `statusLine`
      are null when missing or empty. */
  function NewRecord(d: ErrorDetails, id: string, time: int): (r: FailureRecord)
    ensures r.id == id && r.time == time
    ensures r.url == d.url && r.requestMethod == d.requestMethod && r.resourceType == d.resourceType
    ensures r.tabId == d.tabId && r.frameId == d.frameId
    ensures r.error == d.error && r.fromCache == d.fromCache
    ensures r.initiator == FirstPresent(d.initiator, d.documentUrl)
    ensures r.ip == OrNull(d.ip) && r.statusLine == OrNull(d.statusLine)
  {
    FailureRecord(
      id, time, d.url, d.requestMethod, d.resourceType, d.tabId, d.frameId,
      FirstPresent(d.initiator, d.documentUrl), d.error, d.fromCache,
      OrNull(d.ip), OrNull(d.statusLine))
  }

  /** The listener's admission rule: an event is recorded exactly when its
      tab id is non-negative, and then as `NewRecord`. */
  function Admit(d: ErrorDetails, id: string, time: int): (o: Option<FailureRecord>)
    ensures o.None? <==> d.tabId < 0
    ensures o.Some? ==> o.value == NewRecord(d, id, time) && o.value.tabId >= 0
  {
    if d.tabId >= 0 then Some(NewRecord(d, id, time)) else None
  }

  /** The background script's state: the storage slot `failedRequests` and
      the badge currently set for each tab. */
  class Background {
    var failedRequests: seq<FailureRecord>
    var badges: map<int, Badge>

    /** The log is within capacity. */
    ghost predicate Valid()
      reads this
    {
      |failedRequests| <= MAX_RECORDS
    }

    /** Every stored record is attributed to a tab. */
    ghost predicate Attributed()
      reads this
    {
      forall i :: 0 <= i < |failedRequests| ==> failedRequests[i].tabId >= 0
    }

    /** The badge set for `tabId` is the one the stored log calls for. */
    ghost predicate BadgeCurrent(tabId: int)
      reads this
    {
      tabId in badges && badges[tabId] == BadgeFor(CountForTab(failedRequests, tabId))
    }

    /** A slot that was never written reads as the empty log. */
    constructor ()
      ensures Valid() && Attributed()
      ensures failedRequests == [] && badges == map[]
    {
      failedRequests := [];
      badges := map[];
    }

    /** `updateBadgeForTab`: a null tab id changes nothing; otherwise the
      tab's badge is set from its record count. */
    method UpdateBadgeForTab(tabId: Option<int>)
      modifies this`badges
      ensures tabId.None? ==> badges == old(badges)
      ensures tabId.Some? ==>
        badges == old(badges)[tabId.value := BadgeFor(CountForTab(failedRequests, tabId.value))]
      ensures tabId.Some? ==> BadgeCurrent(tabId.value)
    {
      if tabId.None? {
        return;
      }
      var t := tabId.value;
      var count := |TabRecords(failedRequests, t)|;
      if count == 0 {
        badges := badges[t := Badge("0", "#0a0", "icon_good.png")];
      } else {
        badges := badges[t := Badge(DecimalString(count), "#a00", "icon_bad.png")];
      }
    }

    /** `pushFailure`: put the record in front, cut back to capacity, write
      the slot, refresh the active tab's badge, and return the
      `new-failure` notification sent to the popup. */
    method PushFailure(record: FailureRecord, activeTab: Option<int>) returns (notice: Message)
      modifies this
      ensures Valid()
      ensures old(Attributed()) && record.tabId >= 0 ==> Attributed()
      ensures failedRequests == Pushed(old(failedRequests), record)
      ensures activeTab.None? ==> badges == old(badges)
      ensures activeTab.Some? ==>
        badges == old(badges)[activeTab.value := BadgeFor(CountForTab(failedRequests, activeTab.value))]
      ensures notice == NewFailure(record)
    {
      var log := failedRequests;
      log := [record] + log;
      if |log| > MAX_RECORDS {
        log := log[..MAX_RECORDS];
      }
      failedRequests := log;
      UpdateBadgeForTab(activeTab);
      notice := NewFailure(record);
    }

    /** The `onErrorOccurred` listener, with the generated id and time and
      the active tab as inputs: an event without a tab changes nothing and
      notifies no one; any other event is pushed as its record. */
    method OnErrorOccurred(d: ErrorDetails, id: string, time: int, activeTab: Option<int>)
      returns (notice: Option<Message>)
      modifies this
      ensures old(Valid()) ==> Valid()
      ensures old(Attributed()) ==> Attributed()
      ensures d.tabId < 0 ==> unchanged(this) && notice == None
      ensures d.tabId >= 0 ==>
        && failedRequests == Pushed(old(failedRequests), NewRecord(d, id, time))
        && notice == Some(NewFailure(NewRecord(d, id, time)))
      ensures d.tabId >= 0 && activeTab.Some? ==>
        badges == old(badges)[activeTab.value := BadgeFor(CountForTab(failedRequests, activeTab.value))]
      ensures activeTab.None? ==> badges == old(badges)
    {
      var admitted := Admit(d, id, time);
      if admitted.None? {
        return None;
      }
      var n := PushFailure(admitted.value, activeTab);
      notice := Some(n);
    }

    /** The `clear-failures` handler: write the empty log and refresh the
      active tab's badge. Afterwards every tab's count is zero. */
    method ClearFailures(activeTab: Option<int>)
      modifies this
      ensures Valid() && Attributed()
      ensures failedRequests == []
      ensures forall t :: BadgeFor(CountForTab(failedRequests, t)) == GOOD_BADGE
      ensures activeTab.None? ==> badges == old(badges)
      ensures activeTab.Some? ==> badges == old(badges)[activeTab.value := GOOD_BADGE]
    {
      failedRequests := [];
      UpdateBadgeForTab(activeTab);
    }

    /** The `remove-failure` handler: drop the records with `id` and refresh
      the active tab's badge. */
    method RemoveFailure(id: string, activeTab: Option<int>)
      modifies this
      ensures old(Valid()) ==> Valid()
      ensures old(Attributed()) ==> Attributed()
      ensures failedRequests == WithoutId(old(failedRequests), id)
      ensures activeTab.None? ==> badges == old(badges)
      ensures activeTab.Some? ==>
        badges == old(badges)[activeTab.value := BadgeFor(CountForTab(failedRequests, activeTab.value))]
    {
      failedRequests := WithoutId(failedRequests, id);
      UpdateBadgeForTab(activeTab);
    }

    /** The `runtime.onMessage` listener: it answers `{ok: true}` to the two
      requests it knows and ignores every other message. */
    method HandleMessage(msg: Message, activeTab: Option<int>) returns (replied: bool)
      modifies this
      ensures old(Valid()) ==> Valid()
      ensures old(Attributed()) ==> Attributed()
      ensures replied <==> msg.ClearFailures? || msg.RemoveFailure?
      ensures msg.ClearFailures? ==> failedRequests == []
      ensures msg.RemoveFailure? ==> failedRequests == WithoutId(old(failedRequests), msg.id)
      ensures !replied ==> unchanged(this)
      ensures replied && activeTab.Some? ==>
        badges == old(badges)[activeTab.value := BadgeFor(CountForTab(failedRequests, activeTab.value))]
      ensures activeTab.None? ==> badges == old(badges)
    {
      match msg
      case ClearFailures =>
        ClearFailures(activeTab);
        replied := true;
      case RemoveFailure(id) =>
        RemoveFailure(id, activeTab);
        replied := true;
      case _ =>
        replied := false;
    }

    /** `tabs.onActivated`: refresh the badge of the newly active tab. */
    method OnActivated(tabId: int)
      modifies this`badges
      ensures badges == old(badges)[tabId := BadgeFor(CountForTab(failedRequests, tabId))]
    {
      UpdateBadgeForTab(Some(tabId));
    }

    /** `tabs.onUpdated`: refresh the tab's badge only when the tab is active
      and its load status has become 'complete'. */
    method OnUpdated(tabId: int, status: Option<string>, active: bool)
      modifies this`badges
      ensures active && status == Some("complete") ==>
        badges == old(badges)[tabId := BadgeFor(CountForTab(failedRequests, tabId))]
      ensures !(active && status == Some("complete")) ==> badges == old(badges)
    {
      if active && status == Some("complete") {
        UpdateBadgeForTab(Some(tabId));
      }
    }
  }
}
