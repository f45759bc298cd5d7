# Failed Requests Monitor, modelled in Dafny

A model of the Chrome extension that records failed network requests. It has two parts:

- The background script:
  - keeps a newest-first log of failures, capped at 500 entries, in the storage slot `failedRequests`;
  - admits only `webRequest.onErrorOccurred` events that belong to a tab;
  - sets each tab's badge from the number of failures on that tab;
  - handles the `clear-failures` and `remove-failure` messages.
- The popup:
  - loads the current tab's failures;
  - groups them by domain and filters them by a typed query;
  - shows long URLs elided, with a toggle;
  - builds a `curl` command line for a request;
  - moves between its domain view and its detail view.

Files:

- `sequences.dfy`, module `Sequences`: `Option`, an order-preserving `Filter` (`Array.prototype.filter`) with the subsequence relation, `Reverse`, and `Occurrences`.
- `text.dfy`, module `Text`: the string built-ins the code relies on:
  - ASCII `toLowerCase`;
  - `trim` over ECMAScript white space;
  - `includes`;
  - `Number.prototype.toString`;
  - `split`/`join` on one separator character.
- `records.dfy`, module `FailureRecords`: the stored failure record, the runtime messages, and the per-tab filter both scripts share.
- `background.dfy`, module `Background`:
  - the pure rules: push and truncate, remove by id, count, badge choice, event admission and the record built from an event;
  - class `Background`, whose fields are the storage slot and the badge set for each tab, and whose methods are the listeners.
- `popup_strings.dfy`, module `PopupStrings`:
  - URL elision;
  - shell escaping, with a reader for POSIX single-quote syntax that proves the escaping round-trips;
  - the `curl` command;
  - the domain sort key.
- `popup.dfy`, module `Popup`:
  - `groupByDomain` as a loop over a map;
  - the tab, domain and query filters;
  - class `UrlRow`, one list row's link and toggle button;
  - class `PopupState`, the popup's module-level state, and its handlers.

Calls into Chrome are not modelled:

- The storage slot is a field or a method argument.
- The active tab id (`tabs.query`) is a parameter.
- A badge set with `chrome.action` is an entry in a map field.
- A `runtime.sendMessage` notification is a returned value.
- The URL parser behind `getDomain` is a function parameter `getDomain: string -> string`.
- The generated record id and time (`Date.now`, `Math.random`) are parameters.

## Model

| member | source | states |
|---|---|---|
| Background.Truncated | background.js:7 | `length = MAX_RECORDS` keeps exactly the first 500 entries of a longer log and leaves a shorter one alone |
| Background.Pushed | background.js:5-8 | after a push the new record is at index 0 and the rest is the old log in order, cut to 500; below capacity the log grows by exactly one and loses nothing; at capacity the length stays 500 |
| Background.TruncatedAbsorbs | background.js:7 | truncating early never changes what a later truncation keeps |
| Background.ReversedPushes | background.js:6 | moving the first of several pushes onto the log keeps the newest-first order |
| Background.PushStep | background.js:5-8 | one push followed by the rest equals all the pushes cut back at once |
| Background.PushAllKeepsNewest | background.js:4-8 | after any run of pushes onto a log within capacity, the log is the most recent 500 records, newest first |
| Background.WithoutId | background.js:79-81 | removing by id leaves no record with that id, keeps every copy of every other record in the same relative order, and leaves the log unchanged when the id is absent |
| Background.WithoutIdIdempotent | background.js:80 | removing an id twice is removing it once |
| Background.CountForTab | background.js:28 | the tab's count is the number of log positions holding a record of that tab; it is at most the log length and zero exactly when no record belongs to the tab |
| Background.TabPositions | background.js:28 | the tab's records are as many as the log positions with that tab id |
| Background.BadgeFor | background.js:30-38 | count 0 gives "0", `#0a0`, `icon_good.png`; a positive count gives its decimal string (never "0"), `#a00`, `icon_bad.png`; the text always reads back as the count |
| Background.EmptyLogGoodBadge | background.js:28-33 | an empty log gives every tab the good badge |
| Background.ThreeFailuresExample | background.js:4-8 | three pushes, two on tab 1 and one on tab 2: tab 1 lists the later one first and shows "2", tab 2 shows "1", any other tab shows the good badge |
| Background.OrNull | background.js:61-62 | `x \|\| null` keeps a non-empty string and gives null for a missing or empty one |
| Background.FirstPresent | background.js:58 | `initiator \|\| documentUrl \|\| null` picks the first non-empty of the two |
| Background.NewRecord | background.js:50-63 | the built record copies url, method, type, tabId, frameId, error and fromCache; it takes the given id and time; it sets the fallbacks for initiator, ip and statusLine |
| Background.Admit | background.js:49-50 | an event is recorded exactly when its tab id is non-negative |
| Background.Background.constructor | background.js:5 | an unwritten slot reads as the empty log |
| Background.Background.UpdateBadgeForTab | background.js:25-39 | a null tab id changes no badge; otherwise exactly that tab's badge is set from its count |
| Background.Background.PushFailure | background.js:4-15 | the slot becomes the pushed log; the log stays within capacity and attributed to tabs; the active tab's badge is refreshed; the `new-failure` notice carries the record |
| Background.Background.OnErrorOccurred | background.js:47-68 | an event with a negative tab id changes nothing and notifies nobody; any other event is pushed as its built record |
| Background.Background.ClearFailures | background.js:72-77 | the slot becomes empty and afterwards every tab's count maps to "0", `#0a0`, `icon_good.png`; the active tab's badge is set to that |
| Background.Background.RemoveFailure | background.js:78-86 | the slot becomes the log without the id, and the active tab's badge is refreshed |
| Background.Background.HandleMessage | background.js:71-88 | exactly the two known requests are answered and change state; any other message changes nothing |
| Background.Background.OnActivated | background.js:91-93 | activating a tab refreshes exactly that tab's badge |
| Background.Background.OnUpdated | background.js:96-100 | a tab update refreshes that tab's badge only when the tab is active and its status is 'complete' |
| FailureRecords.TabRecords | background.js:28 | the records of a tab are exactly the log's records with that tab id, every copy kept, in log order |
| Text.Lower | popup.js:82 | lower-casing keeps the length and maps each character through the ASCII case map |
| Text.LowerFacts | popup.js:82 | the lower-cased string is lower case and lower-casing it again changes nothing |
| Text.Trim | popup.js:127 | `trim` removes exactly leading and trailing white space and is empty exactly when the input is all white space |
| Text.ContainsIff | popup.js:131 | `includes` holds exactly when the needle occurs at some index |
| Text.DecimalString | background.js:35 | `count.toString()` is a non-empty string of digits without a leading zero |
| Text.DecimalRoundTrip | background.js:35 | the decimal string reads back as the number |
| Text.Split | popup.js:82 | `split('.')` gives one more part than there are dots, and no part holds a dot |
| Text.JoinSplit | popup.js:82 | joining the parts of a split with the same separator restores the string |
| Text.SplitJoin | popup.js:82 | splitting a join of one or more dot-free parts restores the parts |
| PopupStrings.ElideUrl | popup.js:33-37 | an empty URL gives ""; a URL of at most 80 characters is unchanged; a longer one is its first 79 characters and the ellipsis; the result never exceeds 80 characters |
| PopupStrings.ElideWith | popup.js:33-37 | the elision rule for any suffix, as the source writes it |
| PopupStrings.ElideUrlAsWritten | popup.js:33-37 | with the suffix as spelled in the file: an empty URL gives ""; a URL of at most 80 characters is unchanged; a longer one is its first 79 characters and the three-character suffix, 82 in all |
| PopupStrings.AsWrittenElisionOverflows | popup.js:36 | with the suffix as spelled in the file, an elided URL is 82 characters long and does not end in "…" |
| PopupStrings.ElideUrlIdempotent | popup.js:33-37 | eliding an elided URL changes nothing |
| PopupStrings.QuoteBody | popup.js:70 | replacing each quote by `'\''` adds three characters per quote |
| PopupStrings.EscapeShell | popup.js:68-71 | the result has length |s| + 2 + 3·(quotes in s) and is wrapped in single quotes |
| PopupStrings.EscapeShellRoundTrip | popup.js:68-71 | a POSIX shell reads the escaped string back as exactly the input, as one word |
| PopupStrings.CurlMethod | popup.js:64 | the method is the record's method when non-empty, otherwise "GET" |
| PopupStrings.CreateCurl | popup.js:63-66 | the command is "curl -X ", the method, a space and an argument the shell reads as exactly the record's URL |
| PopupStrings.DomainSortKey | popup.js:81-83 | splitting the key at its dots gives the lower-cased domain's labels in reverse order |
| PopupStrings.SortKeyTwice | popup.js:81-83 | taking the key twice gives the lower-cased domain |
| PopupStrings.SortKeyShape | popup.js:81-83 | the key has the domain's length and its number of dots |
| Popup.DomainsOfIff | popup.js:88-91 | a domain has a group exactly when some record has that domain |
| Popup.GroupByDomain | popup.js:85-95 | one group per domain that occurs; each group is exactly that domain's records, in input order |
| Popup.HitsInheritedKeyIff | popup.js:89 | a record list hits an inherited name exactly when some record's domain is one of the names a fresh `{}` inherits |
| Popup.GroupByDomainAsWritten | popup.js:85-95 | over a plain object: throws exactly when some record's domain is an inherited name; otherwise the groups of `GroupByDomain` |
| Popup.GroupsCover | popup.js:85-95 | every record lies in its own domain's group, and each group only holds records of its domain, so each record is in exactly one group |
| Popup.GroupSizesPartition | popup.js:85-95 | over duplicate-free keys covering every record's domain, the group sizes add up to the number of records |
| Popup.VisibleRecords | popup.js:231-235 | exactly the stored records of the current tab, every copy kept, in stored order, and none when there is no current tab |
| Popup.NormalizedQuery | popup.js:174 | the trimmed, lower-cased query is empty exactly when the box holds only white space |
| Popup.MatchesIff | popup.js:176 | a record matches a query exactly when the query occurs at some index of its lower-cased url or of its lower-cased error |
| Popup.DetailRecords | popup.js:172-177 | exactly the selected domain's records and, for a non-empty query, only those whose url or error contains it; every copy of each kept; a subsequence of the input |
| Popup.ShownDomains | popup.js:127-131 | with an empty query every domain is listed, otherwise exactly those whose lower-cased name contains it, in the given order |
| Popup.ShowUrl | popup.js:39-60 | a URL that fits shows in full, not elided, toggle hidden, whatever `showFull` is; a longer one shows the toggle, full with "Show less" or elided with "Show more"; the text differs from the URL exactly when marked elided |
| Popup.Toggle | popup.js:191-196 | a click on a long URL's toggle flips elided and full and keeps the toggle shown; a URL that fits stays in full with the toggle hidden |
| Popup.ToggleTwice | popup.js:191-196 | for a long URL one click flips elided and full, for a short one it changes nothing, and two clicks restore the row |
| Popup.UrlRow.constructor | popup.js:183-185 | a new row holds the record's URL, shown as `setUrlDisplay` with `showFull` false shows it: in full when it fits, elided otherwise |
| Popup.UrlRow.SetUrlDisplay | popup.js:39-60 | the row's five displayed fields become `ShowUrl` of its URL |
| Popup.UrlRow.OnToggleClick | popup.js:191-196 | a click asks for the full URL exactly when the row is elided |
| Popup.PopupState.constructor | popup.js:271-273 | start-up takes the active tab and loads its records, in the domain view with nothing selected |
| Popup.PopupState.LoadData | popup.js:229-238 | the loaded records become the stored records of the current tab |
| Popup.PopupState.SelectDomain | popup.js:141-155 | selecting a domain opens the detail view with that domain and the filter cleared, and nothing else changes |
| Popup.PopupState.Back | popup.js:252-257 | back opens the domain view with no domain and the filter cleared |
| Popup.PopupState.OnFilterInput | popup.js:241 | typing sets the filter text |
| Popup.PopupState.OnClearDone | popup.js:245-248 | after a clear the popup is in the domain view and reloaded |
| Popup.PopupState.OnMessage | popup.js:260-268 | a reload happens exactly when a `new-failure` record belongs to the current tab; otherwise the records stay |
| Popup.PopupState.DetailList | popup.js:172-177 | the detail list is a subsequence of the loaded records; it holds exactly the loaded records of the selected domain that, for a non-empty filter, match the filter |

## Left out

- Chrome APIs are not modelled. `chrome.storage.local`, `tabs.query`, `chrome.action.*`, `runtime.sendMessage` and `runtime.onMessage` are outside calls. The model uses fields, parameters and returned values in their place.
- Asynchronous interleaving is not modelled. Each handler is one atomic step. A lost update between the read and the write in `pushFailure` (background.js:5-8) or in the remove handler (background.js:79-85) cannot happen in the model.
- Id generation is not modelled. `Date.now()` and `Math.random()` (background.js:51-52) are nondeterministic, so the id and the time are inputs, and ids are not proved unique.
- `getDomain` is not modelled. It depends on the browser's `URL` parser (popup.js:73-79), so it is an arbitrary function parameter.
- The domain sort (popup.js:117-125) is not modelled, because it uses the locale-dependent `localeCompare`. `ShownDomains` takes the domains in whatever order it is given. `formatTime` (popup.js:28-31) is left out for the same reason.
- `getActiveTabId`, `updateBadgeForCurrentTab` and the install and startup hooks (background.js:17-22, 42-44, 103-104) are not separate members. Each is `UpdateBadgeForTab` applied to the active tab id, which is a parameter.
- The popup's `updateCurrentTabId` (popup.js:20-25) is the active-tab argument of `PopupState.constructor`.
- The remove button (popup.js:216-218) is not a separate member. Its reply callback is `PopupState.LoadData`.
- Rendering is not modelled: the DOM, templates, `innerHTML`, the per-domain count badge, the empty-list messages, clipboard writes, `flashButton`, the `confirm` dialog and `chrome.tabs.create`.
- Text.Lower: maps only ASCII letters. Other case mappings of `toLowerCase` are not modelled.
- PopupStrings.ElideUrl: covers `null` and `undefined` only as the empty string. Record fields are always strings here.
- PopupStrings.ReadWord: reads only a single word. It rejects unquoted characters that would split or expand the word, rather than modelling the shell's full grammar.
- Popup.GroupByDomain: returns a map, so the insertion order of the JavaScript object's keys is not modelled. The sort that follows does not depend on that order. It is the corrected grouping: as written, a domain named like an inherited property throws (see Findings and `GroupByDomainAsWritten`).
- Popup.ShowUrl: shows the corrected one-character ellipsis of `ElideUrl`, not the three-character suffix as written, so an elided text is 80 characters rather than 82. Its clause that the text differs from the URL exactly when elided relies on the corrected suffix: with the suffix as written, the 82-character URL made of 79 `a`s and "â€¦" elides to itself.
- Popup.UrlRow.SetUrlDisplay: shows `ShowUrl`, so the same corrected ellipsis.
- Popup.UrlRow.constructor: shows `ShowUrl`, so the same corrected ellipsis.
- `render` and `renderDomainList` as procedures are not modelled. Their data is modelled by `DetailRecords`, `ShownDomains` and `GroupByDomain`.

## Findings

| source | as written | input that shows it | evidently intended | confidence | as-written member | corrected member |
|---|---|---|---|---|---|---|
| popup.js:36 | the ellipsis literal holds the three code points U+00E2 U+20AC U+00A6 ("â€¦"), the UTF-8 bytes of "…" read as Windows-1252, so an elided URL has 79 + 3 = 82 characters and ends in "â€¦" | any URL longer than 80 characters | the one-character "…" (U+2026), so that an elided URL is exactly 80 characters long and never longer than the limit | not executed | PopupStrings.AsWrittenElisionOverflows | PopupStrings.ElideUrl |
| popup.js:86-92 | `groups` is the plain object `{}`, so `groups[domain]` is already truthy for a domain that names a property inherited from `Object.prototype`; the group is never created and `groups[domain].push(r)` throws a `TypeError` in `renderDomainList` (popup.js:116) after the list was cleared, so the domain list stays empty | a record for `http://constructor/` or `http://__proto__/`, whose hostname is `constructor` or `__proto__` | every domain gets its own group, as with `Object.create(null)` or a `Map` | not executed | Popup.GroupByDomainAsWritten | Popup.GroupByDomain |
