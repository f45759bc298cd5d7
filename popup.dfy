/** The popup: grouping of the current tab's records by domain, the record
    and domain filters, the elided/full URL display of one list row, and the
    popup's own state (`currentTabId`, `currentView`, `selectedDomain`,
    `allRecords` and the filter box) as moved by its handlers. The URL
    parser behind `getDomain` is a function parameter. */
module Popup {
  import opened Sequences
  import opened Text
  import opened FailureRecords
  import opened PopupStrings

  /** The test `r => getDomain(r.url) === domain`; a null domain matches
      no record, since `getDomain` always returns a string. */
  function InDomain(getDomain: string -> string, domain: Option<string>): FailureRecord -> bool
  {
    (r: FailureRecord) => domain == Some(getDomain(r.url))
  }

  /** The domains of the records, one per record, added from the last. */
  function DomainsOf(records: seq<FailureRecord>, getDomain: string -> string): set<string>
    decreases |records|
  {
    if records == [] then {}
    else DomainsOf(records[..|records| - 1], getDomain) + {getDomain(records[|records| - 1].url)}
  }

  /** `DomainsOf` is exactly the set of the records' domains. */
  lemma {:induction false} DomainsOfIff(records: seq<FailureRecord>, getDomain: string -> string, d: string)
    ensures d in DomainsOf(records, getDomain) <==>
      exists i :: 0 <= i < |records| && getDomain(records[i].url) == d
    decreases |records|
  {
    if records != [] {
      var init := records[..|records| - 1];
      DomainsOfIff(init, getDomain, d);
      if exists i :: 0 <= i < |init| && getDomain(init[i].url) == d {
        var i :| 0 <= i < |init| && getDomain(init[i].url) == d;
        assert records[i] == init[i];
      }
      if exists i :: 0 <= i < |records| && getDomain(records[i].url) == d {
        var i :| 0 <= i < |records| && getDomain(records[i].url) == d;
        if i < |init| {
          assert records[i] == init[i];
        }
      }
    }
  }

  /** A domain none of the records has selects none of them. */
  lemma NoneInDomain(records: seq<FailureRecord>, getDomain: string -> string, d: string)
    requires d !in DomainsOf(records, getDomain)
    ensures Filter(records, InDomain(getDomain, Some(d))) == []
  {
    var rs := Filter(records, InDomain(getDomain, Some(d)));
    if rs != [] {
      var j :| 0 <= j < |records| && records[j] == rs[0];
      DomainsOfIff(records, getDomain, d);
    }
  }

  /** What `groupByDomain` holds after the records of `prefix`. */
  ghost predicate GroupsOf(groups: map<string, seq<FailureRecord>>, prefix: seq<FailureRecord>,
                           getDomain: string -> string)
  {
    && groups.Keys == DomainsOf(prefix, getDomain)
    && forall k :: k in groups ==> groups[k] == Filter(prefix, InDomain(getDomain, Some(k)))
  }

  /** The domains after one more record. */
  lemma DomainsOfSnoc(prefix: seq<FailureRecord>, r: FailureRecord, next: seq<FailureRecord>,
                      getDomain: string -> string)
    requires next == prefix + [r]
    ensures DomainsOf(next, getDomain) == DomainsOf(prefix, getDomain) + {getDomain(r.url)}
  {
    assert next[..|next| - 1] == prefix;
  }

  /** One group after one more record: its domain's group gains the
      record, every other group stays as it was. */
  lemma GroupEntryStep(prefix: seq<FailureRecord>, r: FailureRecord, next: seq<FailureRecord>,
                       getDomain: string -> string, k: string, before: seq<FailureRecord>)
    requires next == prefix + [r]
    requires before == Filter(prefix, InDomain(getDomain, Some(k)))
    ensures Filter(next, InDomain(getDomain, Some(k)))
         == if k == getDomain(r.url) then before + [r] else before
  {
    FilterSnoc(prefix, r, InDomain(getDomain, Some(k)));
  }

  /** Appending a record to its domain's group (made empty first when the
      domain is new) keeps the groups exact. */
  lemma GroupStep(groups: map<string, seq<FailureRecord>>, prefix: seq<FailureRecord>,
                  r: FailureRecord, next: seq<FailureRecord>, getDomain: string -> string,
                  after: map<string, seq<FailureRecord>>)
    requires next == prefix + [r]
    requires GroupsOf(groups, prefix, getDomain)
    requires after == groups[getDomain(r.url) := (if getDomain(r.url) in groups then groups[getDomain(r.url)] else []) + [r]]
    ensures GroupsOf(after, next, getDomain)
  {
    var d := getDomain(r.url);
    DomainsOfSnoc(prefix, r, next, getDomain);
    forall k | k in after
      ensures after[k] == Filter(next, InDomain(getDomain, Some(k)))
    {
      if k in groups {
        GroupEntryStep(prefix, r, next, getDomain, k, groups[k]);
      } else {
        NoneInDomain(prefix, getDomain, d);
        GroupEntryStep(prefix, r, next, getDomain, k, []);
      }
    }
  }

  /** A grouping as `groupByDomain` returns it puts every record in the
      group of its own domain, and only records of that domain in each
      group. */
  lemma GroupsCover(groups: map<string, seq<FailureRecord>>, records: seq<FailureRecord>,
                    getDomain: string -> string)
    requires GroupsOf(groups, records, getDomain)
    ensures forall i :: 0 <= i < |records| ==>
      getDomain(records[i].url) in groups && records[i] in groups[getDomain(records[i].url)]
    ensures forall k, j :: k in groups && 0 <= j < |groups[k]| ==> getDomain(groups[k][j].url) == k
  {
    forall i | 0 <= i < |records|
      ensures getDomain(records[i].url) in groups && records[i] in groups[getDomain(records[i].url)]
    {
      DomainsOfIff(records, getDomain, getDomain(records[i].url));
      assert InDomain(getDomain, Some(getDomain(records[i].url)))(records[i]);
    }
    forall k, j | k in groups && 0 <= j < |groups[k]|
      ensures getDomain(groups[k][j].url) == k
    {
      assert InDomain(getDomain, Some(k))(groups[k][j]);
    }
  }

  /** `groupByDomain`: one group per domain that occurs, each holding
      exactly that domain's records in input order. */
  method GroupByDomain(records: seq<FailureRecord>, getDomain: string -> string)
    returns (groups: map<string, seq<FailureRecord>>)
    ensures groups.Keys == DomainsOf(records, getDomain)
    ensures forall k :: k in groups ==> groups[k] == Filter(records, InDomain(getDomain, Some(k)))
  {
    groups := map[];
    for i := 0 to |records|
      invariant GroupsOf(groups, records[..i], getDomain)
    {
      var r := records[i];
      var domain := getDomain(r.url);
      var after := groups[domain := (if domain in groups then groups[domain] else []) + [r]];
      PrefixSnoc(records, i);
      GroupStep(groups, records[..i], r, records[..i + 1], getDomain, after);
      groups := after;
    }
    assert records[..|records|] == records;
  }

  /** The names under which a fresh object literal `{}` already holds a
      truthy value, inherited from `Object.prototype`: the properties of
      section 20.1.3 of ECMAScript and the accessors of its Annex B.2.2. */
  const INHERITED_KEYS: set<string> := {
    "constructor", "hasOwnProperty", "isPrototypeOf", "propertyIsEnumerable",
    "toLocaleString", "toString", "valueOf", "__proto__",
    "__defineGetter__", "__defineSetter__", "__lookupGetter__", "__lookupSetter__"
  }

  /** Some record's domain is one of those names; looked at from the last
      record. */
  predicate HitsInheritedKey(records: seq<FailureRecord>, getDomain: string -> string)
    decreases |records|
  {
    && records != []
    && (HitsInheritedKey(records[..|records| - 1], getDomain)
        || getDomain(records[|records| - 1].url) in INHERITED_KEYS)
  }

  /** `HitsInheritedKey` holds exactly when some record's domain is an
      inherited name. */
  lemma {:induction false} HitsInheritedKeyIff(records: seq<FailureRecord>, getDomain: string -> string)
    ensures HitsInheritedKey(records, getDomain) <==>
      exists i :: 0 <= i < |records| && getDomain(records[i].url) in INHERITED_KEYS
    decreases |records|
  {
    if records != [] {
      var init := records[..|records| - 1];
      HitsInheritedKeyIff(init, getDomain);
      if exists i :: 0 <= i < |init| && getDomain(init[i].url) in INHERITED_KEYS {
        var i :| 0 <= i < |init| && getDomain(init[i].url) in INHERITED_KEYS;
        assert records[i] == init[i];
      }
      if exists i :: 0 <= i < |records| && getDomain(records[i].url) in INHERITED_KEYS {
        var i :| 0 <= i < |records| && getDomain(records[i].url) in INHERITED_KEYS;
        if i < |init| {
          assert records[i] == init[i];
        }
      }
    }
  }

  /** The hits after one more record. */
  lemma HitsInheritedKeySnoc(prefix: seq<FailureRecord>, r: FailureRecord, next: seq<FailureRecord>,
                             getDomain: string -> string)
    requires next == prefix + [r]
    ensures HitsInheritedKey(next, getDomain) == (HitsInheritedKey(prefix, getDomain) || getDomain(r.url) in INHERITED_KEYS)
  {
    assert next[..|next| - 1] == prefix;
  }

  /** `groupByDomain` as written, over the plain object `{}`. For a domain
      that names an inherited property, `groups[domain]` is already truthy,
      so no group is made, and `push` on the inherited value throws a
      `TypeError` (`None`). Any other input is grouped as `GroupByDomain`
      groups it. */
  method GroupByDomainAsWritten(records: seq<FailureRecord>, getDomain: string -> string)
    returns (groups: Option<map<string, seq<FailureRecord>>>)
    ensures groups.None? <==> HitsInheritedKey(records, getDomain)
    ensures groups.Some? ==> groups.value.Keys == DomainsOf(records, getDomain)
    ensures groups.Some? ==>
      forall k :: k in groups.value ==> groups.value[k] == Filter(records, InDomain(getDomain, Some(k)))
  {
    var acc := map[];
    for i := 0 to |records|
      invariant GroupsOf(acc, records[..i], getDomain)
      invariant !HitsInheritedKey(records[..i], getDomain)
    {
      var r := records[i];
      var domain := getDomain(r.url);
      PrefixSnoc(records, i);
      HitsInheritedKeySnoc(records[..i], r, records[..i + 1], getDomain);
      if domain in INHERITED_KEYS {
        HitsInheritedKeyIff(records, getDomain);
        return None;
      }
      var after := acc[domain := (if domain in acc then acc[domain] else []) + [r]];
      GroupStep(acc, records[..i], r, records[..i + 1], getDomain, after);
      acc := after;
    }
    assert records[..|records|] == records;
    return Some(acc);
  }

  /** The sum, over `keys`, of the number of records in each key's domain. */
  function GroupSizes(records: seq<FailureRecord>, getDomain: string -> string, keys: seq<string>): nat
    decreases |keys|
  {
    if keys == [] then 0
    else |Filter(records, InDomain(getDomain, Some(keys[0])))| + GroupSizes(records, getDomain, keys[1..])
  }

  /** Taking one record off the front lowers the sum by the number of keys
      naming its domain. */
  lemma {:induction false} GroupSizesCons(r: FailureRecord, rest: seq<FailureRecord>,
                                          getDomain: string -> string, keys: seq<string>)
    ensures GroupSizes([r] + rest, getDomain, keys)
         == GroupSizes(rest, getDomain, keys) + Occurrences(keys, getDomain(r.url))
    decreases |keys|
  {
    if keys != [] {
      GroupSizesCons(r, rest, getDomain, keys[1..]);
      assert ([r] + rest)[1..] == rest;
    }
  }

  /** A key listed once among distinct keys occurs exactly once. */
  lemma {:induction false} OccursOnce(keys: seq<string>, k: string)
    requires forall i, j :: 0 <= i < j < |keys| ==> keys[i] != keys[j]
    requires k in keys
    ensures Occurrences(keys, k) == 1
    decreases |keys|
  {
    if keys[0] != k {
      OccursOnce(keys[1..], k);
    } else {
      assert k !in keys[1..];
    }
  }

  /** The groups partition the records: over any duplicate-free list of
      keys that names every record's domain, the group sizes add up to the
      number of records. */
  lemma {:induction false} GroupSizesPartition(records: seq<FailureRecord>, getDomain: string -> string,
                                               keys: seq<string>)
    requires forall i, j :: 0 <= i < j < |keys| ==> keys[i] != keys[j]
    requires forall i :: 0 <= i < |records| ==> getDomain(records[i].url) in keys
    ensures GroupSizes(records, getDomain, keys) == |records|
    decreases |records|
  {
    if records == [] {
      GroupSizesEmpty(getDomain, keys);
    } else {
      var r, rest := records[0], records[1..];
      assert records == [r] + rest;
      GroupSizesPartition(rest, getDomain, keys);
      GroupSizesCons(r, rest, getDomain, keys);
      OccursOnce(keys, getDomain(r.url));
    }
  }

  /** No records, no group members. */
  lemma {:induction false} GroupSizesEmpty(getDomain: string -> string, keys: seq<string>)
    ensures GroupSizes([], getDomain, keys) == 0
    decreases |keys|
  {
    if keys != [] {
      GroupSizesEmpty(getDomain, keys[1..]);
    }
  }

  /** The filter in `loadData`: the stored records of the current tab, in
      stored order and every copy kept, or none at all when there is no
      current tab. */
  function VisibleRecords(stored: seq<FailureRecord>, currentTabId: Option<int>): (rs: seq<FailureRecord>)
    ensures forall i :: 0 <= i < |rs| ==> Some(rs[i].tabId) == currentTabId && rs[i] in stored
    ensures forall i :: 0 <= i < |stored| && Some(stored[i].tabId) == currentTabId ==> stored[i] in rs
    ensures forall x :: Occurrences(rs, x) == if Some(x.tabId) == currentTabId then Occurrences(stored, x) else 0
    ensures Subsequence(rs, stored)
    ensures currentTabId.None? ==> rs == []
  {
    if currentTabId.None? then [] else TabRecords(stored, currentTabId.value)
  }

  /** `filterInput.value.trim().toLowerCase()`: empty exactly when the
      box holds only whitespace, and never longer than what was typed. */
  function NormalizedQuery(raw: string): (q: string)
    ensures |q| <= |raw|
    ensures q == "" <==> forall i :: 0 <= i < |raw| ==> IsJsWhitespace(raw[i])
  {
    Lower(Trim(raw))
  }

  /** The query test of `renderDetailList`: a record matches when the query
      occurs somewhere in its lower-cased URL or in its lower-cased error
      text. */
  predicate Matches(r: FailureRecord, q: string)
  {
    Contains(Lower(r.url), q) || Contains(Lower(r.error), q)
  }

  /** `Matches(r, q)` holds exactly when `q` occurs at some position of the
      lower-cased URL or of the lower-cased error text. */
  lemma MatchesIff(r: FailureRecord, q: string)
    ensures Matches(r, q) <==>
      (exists i: nat :: OccursAt(Lower(r.url), q, i)) || (exists i: nat :: OccursAt(Lower(r.error), q, i))
  {
    ContainsIff(Lower(r.url), q);
    ContainsIff(Lower(r.error), q);
    if Contains(Lower(r.url), q) {
      assert exists i: nat :: OccursAt(Lower(r.url), q, i);
    } else if Contains(Lower(r.error), q) {
      assert exists i: nat :: OccursAt(Lower(r.error), q, i);
    }
  }

  /** The test `Matches(r, q)` as a filter argument. */
  function MatchesQuery(q: string): FailureRecord -> bool
  {
    (r: FailureRecord) => Matches(r, q)
  }

  /** The records `renderDetailList` lists: those of the selected domain
      and, when the normalised query is not empty, only those matching it;
      in their original order, with every copy of each kept. */
  function DetailRecords(all: seq<FailureRecord>, getDomain: string -> string,
                         selected: Option<string>, raw: string): (rs: seq<FailureRecord>)
    ensures forall i :: 0 <= i < |rs| ==>
      rs[i] in all && selected == Some(getDomain(rs[i].url))
      && (NormalizedQuery(raw) != "" ==> Matches(rs[i], NormalizedQuery(raw)))
    ensures forall i :: 0 <= i < |all| ==>
      selected == Some(getDomain(all[i].url))
      && (NormalizedQuery(raw) != "" ==> Matches(all[i], NormalizedQuery(raw)))
      ==> all[i] in rs
    ensures forall x ::
              Occurrences(rs, x) ==
              if selected == Some(getDomain(x.url)) && (NormalizedQuery(raw) != "" ==> Matches(x, NormalizedQuery(raw)))
              then Occurrences(all, x) else 0
    ensures Subsequence(rs, all)
  {
    var byDomain := Filter(all, InDomain(getDomain, selected));
    var q := NormalizedQuery(raw);
    if q == "" then
      FilterCounts(all, InDomain(getDomain, selected));
      byDomain
    else
      FilterFilter(all, InDomain(getDomain, selected), MatchesQuery(q));
      FilterCounts(all, Both(InDomain(getDomain, selected), MatchesQuery(q)));
      Filter(byDomain, MatchesQuery(q))
  }

  /** The domain-list filter of `renderDomainList`: with an empty normalised
      query every domain is listed, otherwise exactly those whose
      lower-cased name contains it, in the given order. */
  function ShownDomains(domains: seq<string>, raw: string): (shown: seq<string>)
    ensures NormalizedQuery(raw) == "" ==> shown == domains
    ensures forall i :: 0 <= i < |shown| ==>
      shown[i] in domains && Contains(Lower(shown[i]), NormalizedQuery(raw))
    ensures forall i :: 0 <= i < |domains| && Contains(Lower(domains[i]), NormalizedQuery(raw)) ==>
      domains[i] in shown
    ensures Subsequence(shown, domains)
  {
    var q := NormalizedQuery(raw);
    if q == "" then
      (ContainsEmpty(domains);
       FilterAllPass(domains, (d: string) => Contains(Lower(d), q));
       domains)
    else Filter(domains, (d: string) => Contains(Lower(d), q))
  }

  /** Every string contains the empty string. */
  lemma ContainsEmpty(domains: seq<string>)
    ensures forall d :: d in domains ==> Contains(Lower(d), "")
  {
    forall d | d in domains ensures Contains(Lower(d), "") {
      assert OccursAt(Lower(d), "", 0);
      ContainsIff(Lower(d), "");
    }
  }

  /** What one list row shows of its URL: the link text, whether the link
      has the `elided` class, its `dataset.isElided` flag, whether the
      toggle button is displayed, and the toggle's label. */
  datatype UrlDisplay = UrlDisplay(
    text: string,
    elidedClass: bool,
    isElided: bool,
    toggleShown: bool,
    toggleLabel: string)

  /** `setUrlDisplay`: a URL that fits is shown whole, not elided, with the
      toggle hidden and its label untouched, whatever `showFull` says; a
      longer one shows the toggle and is shown whole ("Show less") or
      elided ("Show more") as `showFull` says. The text differs from the
      URL exactly when the row is marked elided. */
  function ShowUrl(fullUrl: string, showFull: bool, before: UrlDisplay): (d: UrlDisplay)
    ensures |fullUrl| <= MAX_URL_LENGTH ==>
      d.text == fullUrl && !d.isElided && !d.toggleShown && d.toggleLabel == before.toggleLabel
    ensures |fullUrl| > MAX_URL_LENGTH ==>
      d.toggleShown && d.isElided == !showFull
      && d.toggleLabel == (if showFull then "Show less" else "Show more")
    ensures d.isElided <==> d.text != fullUrl
    ensures d.isElided ==> d.text == ElideUrl(fullUrl)
    ensures d.elidedClass == d.isElided
  {
    if |fullUrl| <= MAX_URL_LENGTH then
      UrlDisplay(fullUrl, false, false, false, before.toggleLabel)
    else if showFull then
      UrlDisplay(fullUrl, false, false, true, "Show less")
    else
      UrlDisplay(ElideUrl(fullUrl), true, true, true, "Show more")
  }

  /** The toggle's click handler: show in full what was elided, and elide
      what was shown in full. A URL that fits stays shown in full. */
  function Toggle(fullUrl: string, d: UrlDisplay): (e: UrlDisplay)
    ensures |fullUrl| > MAX_URL_LENGTH ==> e.isElided == !d.isElided && e.toggleShown
    ensures |fullUrl| <= MAX_URL_LENGTH ==> e.text == fullUrl && !e.isElided && !e.toggleShown
  {
    ShowUrl(fullUrl, d.isElided, d)
  }

  /** For a long URL a click flips between elided and full; for a short one
      it changes nothing. Two clicks always restore the row. */
  lemma ToggleTwice(fullUrl: string, showFull: bool, before: UrlDisplay)
    ensures var d := ShowUrl(fullUrl, showFull, before);
      && (|fullUrl| > MAX_URL_LENGTH ==> Toggle(fullUrl, d).isElided == !d.isElided)
      && (|fullUrl| <= MAX_URL_LENGTH ==> Toggle(fullUrl, d) == d)
      && Toggle(fullUrl, Toggle(fullUrl, d)) == d
  {
  }

  /** One row's link and toggle button, with the fields `setUrlDisplay`
      writes. */
  class UrlRow {
    const fullUrl: string
    var text: string
    var elidedClass: bool
    var isElided: bool
    var toggleShown: bool
    var toggleLabel: string

    /** The row's current display. */
    function Display(): UrlDisplay
      reads this
    {
      UrlDisplay(text, elidedClass, isElided, toggleShown, toggleLabel)
    }

    /** A row as `renderDetailList` creates it: the template's link gets
      `dataset.fullUrl = r.url` and is then shown with `showFull` false,
      in full when it fits and elided otherwise. */
    constructor (url: string, templateText: string, templateLabel: string)
      ensures fullUrl == url
      ensures Display() == ShowUrl(url, false, UrlDisplay(templateText, false, false, true, templateLabel))
    {
      fullUrl := url;
      text, elidedClass, isElided, toggleShown, toggleLabel := templateText, false, false, true, templateLabel;
      new;
      SetUrlDisplay(false);
    }

    /** `setUrlDisplay(linkEl, toggleBtn, showFull)`. */
    method SetUrlDisplay(showFull: bool)
      modifies this
      ensures Display() == ShowUrl(fullUrl, showFull, old(Display()))
    {
      if |fullUrl| <= MAX_URL_LENGTH {
        text := fullUrl;
        elidedClass := false;
        toggleShown := false;
        isElided := false;
        return;
      }
      toggleShown := true;
      if showFull {
        text := fullUrl;
        elidedClass := false;
        toggleLabel := "Show less";
        isElided := false;
      } else {
        text := ElideUrl(fullUrl);
        elidedClass := true;
        toggleLabel := "Show more";
        isElided := true;
      }
    }

    /** The toggle's click handler. */
    method OnToggleClick()
      modifies this
      ensures Display() == Toggle(fullUrl, old(Display()))
    {
      SetUrlDisplay(isElided);
    }
  }

  /** The two views of the popup. */
  datatype View = DomainView | DetailView

  /** The popup's module-level state. */
  class PopupState {
    var currentTabId: Option<int>
    var currentView: View
    var selectedDomain: Option<string>
    var allRecords: seq<FailureRecord>
    var filter: string

    /** The loaded records all belong to the current tab. */
    ghost predicate Valid()
      reads this
    {
      forall i :: 0 <= i < |allRecords| ==> Some(allRecords[i].tabId) == currentTabId
    }

    /** Start-up: take the active tab's id, then load the stored records. */
    constructor (activeTab: Option<int>, stored: seq<FailureRecord>)
      ensures Valid()
      ensures currentTabId == activeTab && currentView == DomainView && selectedDomain == None
      ensures allRecords == VisibleRecords(stored, activeTab) && filter == ""
    {
      currentTabId := activeTab;
      currentView := DomainView;
      selectedDomain := None;
      filter := "";
      allRecords := VisibleRecords(stored, activeTab);
    }

    /** `loadData`, given what the storage slot holds. */
    method LoadData(stored: seq<FailureRecord>)
      modifies this`allRecords
      ensures Valid()
      ensures allRecords == VisibleRecords(stored, currentTabId)
    {
      if currentTabId.None? {
        allRecords := [];
      } else {
        allRecords := TabRecords(stored, currentTabId.value);
      }
    }

    /** A click on a domain item or on its "view details" button: open that
      domain's detail view with the filter cleared. */
    method SelectDomain(domain: string)
      modifies this
      requires Valid()
      ensures Valid()
      ensures currentView == DetailView && selectedDomain == Some(domain) && filter == ""
      ensures currentTabId == old(currentTabId) && allRecords == old(allRecords)
    {
      selectedDomain := Some(domain);
      currentView := DetailView;
      filter := "";
    }

    /** The back button: return to the domain view, forget the selected
      domain and clear the filter. */
    method Back()
      modifies this
      requires Valid()
      ensures Valid()
      ensures currentView == DomainView && selectedDomain == None && filter == ""
      ensures currentTabId == old(currentTabId) && allRecords == old(allRecords)
    {
      currentView := DomainView;
      selectedDomain := None;
      filter := "";
    }

    /** Typing in the filter box. */
    method OnFilterInput(value: string)
      modifies this`filter
      ensures filter == value
    {
      filter := value;
    }

    /** The reply to a confirmed clear request: back to the domain view and
      reload from the slot. */
    method OnClearDone(stored: seq<FailureRecord>)
      modifies this
      ensures Valid()
      ensures currentView == DomainView && allRecords == VisibleRecords(stored, currentTabId)
      ensures currentTabId == old(currentTabId) && selectedDomain == old(selectedDomain)
      ensures filter == old(filter)
    {
      currentView := DomainView;
      LoadData(stored);
    }

    /** The popup's `runtime.onMessage` listener: it reloads exactly when a
      `new-failure` message carries a record of the current tab. */
    method OnMessage(msg: Message, stored: seq<FailureRecord>) returns (reloaded: bool)
      modifies this`allRecords
      requires Valid()
      ensures Valid()
      ensures reloaded <==> msg.NewFailure? && Some(msg.record.tabId) == currentTabId
      ensures reloaded ==> allRecords == VisibleRecords(stored, currentTabId)
      ensures !reloaded ==> allRecords == old(allRecords)
    {
      reloaded := false;
      if msg.NewFailure? && Some(msg.record.tabId) == currentTabId {
        LoadData(stored);
        reloaded := true;
      }
    }

    /** The records the detail view lists in the current state: those of
      `DetailRecords` for the loaded records, the selected domain and the
      filter box. */
    function DetailList(getDomain: string -> string): (rs: seq<FailureRecord>)
      reads this
      ensures Subsequence(rs, allRecords)
      ensures forall i :: 0 <= i < |rs| ==> selectedDomain == Some(getDomain(rs[i].url))
      ensures forall i :: 0 <= i < |rs| ==>
        NormalizedQuery(filter) != "" ==> Matches(rs[i], NormalizedQuery(filter))
      ensures forall i :: 0 <= i < |allRecords| ==>
        selectedDomain == Some(getDomain(allRecords[i].url))
        && (NormalizedQuery(filter) != "" ==> Matches(allRecords[i], NormalizedQuery(filter)))
        ==> allRecords[i] in rs
    {
      DetailRecords(allRecords, getDomain, selectedDomain, filter)
    }
  }
}
