/** The failure record both scripts share, the messages they exchange, and
    the per-tab query both of them run over the stored log. */
module FailureRecords {
  import opened Sequences

  /** One observed network failure, as the background script stores it.
      `initiator`, `ip` and `statusLine` are `None` where the stored object
      holds `null`. */
  datatype FailureRecord = FailureRecord(
    id: string,
    time: int,
    url: string,
    requestMethod: string,
    resourceType: string,
    tabId: int,
    frameId: int,
    initiator: Option<string>,
    error: string,
    fromCache: bool,
    ip: Option<string>,
    statusLine: Option<string>)

  /** The runtime messages exchanged between the popup and the background
      script, by their `type` field; anything else is `Unrecognised`. */
  datatype Message =
    | ClearFailures
    | RemoveFailure(id: string)
    | NewFailure(record: FailureRecord)
    | Unrecognised

  /** The test `r => r.tabId === tabId`. */
  function HasTabId(tabId: int): FailureRecord -> bool
  {
    (r: FailureRecord) => r.tabId == tabId
  }

  /** The records of one tab, newest first as in the log: exactly the log's
      records with that tab id, every copy of each, in their original order. */
  function TabRecords(log: seq<FailureRecord>, tabId: int): (rs: seq<FailureRecord>)
    ensures forall i :: 0 <= i < |rs| ==> rs[i].tabId == tabId && rs[i] in log
    ensures forall i :: 0 <= i < |log| && log[i].tabId == tabId ==> log[i] in rs
    ensures forall x :: Occurrences(rs, x) == if x.tabId == tabId then Occurrences(log, x) else 0
    ensures Subsequence(rs, log)
  {
    FilterCounts(log, HasTabId(tabId));
    Filter(log, HasTabId(tabId))
  }
}
