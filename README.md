# htswap in Dafny

htswap is a small browser library. It swaps fragments of server-rendered HTML into the live page. It has two parts.

- **The fragment swapper**, in src/htswap.ts:
  - `htswapUpdate(target, url, hist, body, preload)` parses a target specification such as `#a->#b@innerHTML, #c` into `(from, to, merge)` clauses. It then looks up each clause's client element and marks it `aria-busy`.
  - It obtains the response html, from the preload cache or from `fetch`. It merges the server element of each clause into the client element.
  - It pushes or replaces a history entry. Errors are logged and never rethrown, and the busy markers are cleared in all cases.
  - `htswapBind()` stamps `data-htbound` on the links, forms and `data-htswap` elements it selects. It attaches click and submit handlers and starts the preloads.
- **The earlier swapper**, in src/index.ts. It swaps a single target, remembers it as `lastTarget`, pushes `{ target, fromUrl }`, and registers the anchors that have a `target` attribute.

The browser is taken as oracles:
- the live document is a map from selector to element reference, plus its body;
- a parsed response is a map from selector to element value, plus its body;
- `DOMParser` is a function parameter;
- `fetch` is a given outcome, either the response text or a failure.

What the engines change in the live document is recorded as a trace of DOM operations. What one merge operation means for the children of a parent is given separately, as a function on node sequences.

Modules:

- `Options`: the optional value.
- `Dom`: nodes and elements, the two document views, the fetch outcome, and `textContent`.
- `Targets`: JavaScript's `String.prototype.split`, modelled exactly (no trimming; `"".split(",")` is `[""]`), and the target-specification parser.
- `Merge`: the merge modes, and their effect on a parent's children.
- `SessionHistory`: the session history as entries plus an index, with `pushState`, `replaceState` and `go`.
- `Htswap`: `htswapUpdate` as the class `Session`. The class holds the preload cache, the history, and the DOM, console and network traces. Its methods are proved against small specification functions. The popstate listener is `Session.OnPopState`.
- `HtswapBind`: `htswapBind` as the class `Document` over its bindable elements, with the handlers' calls and the form URL.
- `LegacySwap`: src/index.ts as the class `LegacyPage`, proved against the state-transition function `UpdateSpec`.

Back navigation in the earlier swapper: the popstate listener reads `fromUrl` from the entry it arrives at. That is the location from which that entry was pushed. So going back from `/b` to `/a` fetches the URL before `/a`, not `/a` itself (`LegacySwap.BackFetchesFromUrl`). The model keeps this behaviour as written.

A blank client selector (empty or whitespace only, as in `"#a,"` or `"#a->"`) makes `querySelector` throw before the `try`, so the call does nothing at all (`Htswap.Session.Update`). A blank server selector throws inside the loop and is logged like a bad position.

An insertion position the DOM does not know makes `insertAdjacentHTML` throw a SyntaxError. The position is matched ASCII case-insensitively. The throw leaves the target loop, so the history step is skipped. The error is logged and the busy markers are cleared, and the model does the same.

## Model

| member | source | states |
|---|---|---|
| Targets.Split | src/htswap.ts:10-12 | `split` always yields at least one part |
| Targets.JoinSplit | src/htswap.ts:10-12 | joining the parts of a split with its separator gives back the string |
| Targets.SplitJoin | src/htswap.ts:10-12 | splitting a join of separator-free parts gives back the parts |
| Targets.SplitConcat | src/htswap.ts:10-12 | a first separator cuts off exactly the text before it |
| Targets.SplitNone | src/htswap.ts:10-12 | a string without the separator is one part |
| Targets.ParseAll | src/htswap.ts:10-19 | one clause per part, the i-th clause parsed from the i-th part |
| Targets.ParseClause | src/htswap.ts:11-12 | the server selector begins the clause text; a client selector that differs follows it after `->`; a merge mode other than the default follows the selector part after `@` |
| Targets.ParseTargets | src/htswap.ts:10 | at least one clause, one per comma-separated part, the i-th parsed from the i-th part; a specification without a comma is a single clause |
| Targets.TargetsCoverSpec | src/htswap.ts:10 | as many clauses as comma-separated parts, and the parts re-joined are the specification |
| Targets.ParseTargetsOfJoin | src/htswap.ts:10-19 | comma-free clause texts joined by commas parse to exactly those clauses, in order |
| Targets.ClauseWithoutMerge | src/htswap.ts:11 | a clause without `@` gets merge mode `outerHTML` |
| Targets.ClauseWithoutAlias | src/htswap.ts:12 | a selector part without `->` (hyphens allowed) is both the server and the client selector |
| Targets.ClauseAliasMerge | src/htswap.ts:11-12 | `a->b@m` yields `(a, b, m)` |
| Targets.ClauseMerge | src/htswap.ts:11-12 | `a@m` yields `(a, a, m)` |
| Targets.ClauseAlias | src/htswap.ts:11-12 | `a->b` yields `(a, b, outerHTML)` |
| Targets.ClauseBare | src/htswap.ts:11-12 | a bare selector `a` yields `(a, a, outerHTML)` |
| Merge.PositionOf | src/htswap.ts:48 | a recognised position is the one whose keyword equals the ASCII-lower-cased merge string; any other string names no position |
| Merge.MergeOf | src/htswap.ts:45-48 | the three named modes match exactly; any other string is an insertion at the position it names, ignoring ASCII case, and otherwise throws |
| Merge.MergeNameRoundTrip | src/htswap.ts:45-48 | every merge operation is selected by its canonical name |
| Merge.PositionName | src/htswap.ts:48 | each lower-case position keyword selects its position |
| Merge.LowerFixed | src/htswap.ts:48 | lower-case keywords are unchanged by case folding |
| Merge.AsciiLowerIdempotent | src/htswap.ts:48 | case folding twice is case folding once |
| Merge.PositionIgnoresCase | src/htswap.ts:48 | positions are matched case-insensitively |
| Merge.ApplyMerge | src/htswap.ts:45-48 | `outerHTML` puts the server element in the client element's slot, or, for a server `<body>`, whose wrapper the fragment parser drops, its children; `innerHTML` keeps the wrapper and takes the server children; `remove` deletes the element; insertions place the server children before, first inside, last inside or after; every other sibling is unchanged |
| Merge.ReplaceIdempotent | src/htswap.ts:45-46 | swapping the same content in twice by `innerHTML`, or by `outerHTML` of a server element other than `<body>`, changes nothing more |
| Merge.InsertAccumulates | src/htswap.ts:48 | inserting twice at the client element puts two copies of the server children side by side: `before + c + c + after` beside the element, `c + c + old` or `old + c + c` inside it |
| Merge.OuterKeepsSlot | src/htswap.ts:45-47 | an outer replacement by a server element other than `<body>` keeps the element's slot, so removing afterwards removes the same node position |
| Merge.OuterText | src/htswap.ts:45 | after an outer merge the parent reads the text before, the server element's text, then the text after, whether or not the wrapper survives |
| Merge.BeforeBeginIsAfterEndOfPrevious | src/htswap.ts:48 | `beforebegin` on an element is `afterend` on its previous sibling |
| Merge.AfterBeginIsPrependingInner | src/htswap.ts:46-48 | `afterbegin` is an inner replacement by the server children followed by the old children |
| Merge.InsertBesideText | src/htswap.ts:48 | the parent's text content after `beforebegin`/`afterend` is the text before, the server text, then the text after |
| Merge.MergeModesExample | test/htswap.test.ts:235-268 | `afterend` "Second" after "First", then `beforebegin` "Third" before "Fourth", reads `FirstSecondThirdFourth` |
| Dom.BlankSelector | src/htswap.ts:15 | the selectors recognised as rejected by `querySelector` with a SyntaxError: exactly those made only of CSS whitespace, the empty one included |
| Dom.TextContentAppend | test/htswap.test.ts:262-267 | the text content of a split sibling list is the concatenation of the parts' text |
| SessionHistory.Initial | src/htswap.ts:123-131 | a loaded page has exactly one entry, stateless at its URL, at index 0, and it is current |
| SessionHistory.PushState | src/htswap.ts:60 | a push drops the forward entries, appends the new entry and makes it current |
| SessionHistory.ReplaceState | src/htswap.ts:61 | a replace rewrites only the current entry |
| SessionHistory.Go | src/htswap.ts:129-131 | a traversal moves the current index inside the list, or does nothing |
| SessionHistory.PushAtEndGrowsByOne | src/htswap.ts:60 | a push from the newest entry makes the history one entry longer |
| SessionHistory.PushThenBack | src/htswap.ts:60 | back after a push returns to the previous entry, and forward returns to the pushed one |
| Htswap.ClientElement | src/htswap.ts:15 | the client element is what the client selector matches, else `document.body` |
| Htswap.Rejects | src/htswap.ts:10-15 | the call rejects when some clause's client selector is blank; a specification without a comma rejects exactly when its one client selector is blank, and the empty specification always rejects |
| Htswap.TrailingCommaRejects | src/htswap.ts:10-15 | a trailing comma leaves an empty clause whose client lookup throws, so the call rejects |
| Htswap.ArrowWithoutClientRejects | src/htswap.ts:12-15 | `a->` leaves the client selector empty, so the call rejects |
| Htswap.BusyOps | src/htswap.ts:21 | at most one marker per target, one for each when all have a client element, all with the given value |
| Htswap.CacheGet | src/htswap.ts:25 | an absent URL reads as the empty string, a present one as its stored body |
| Htswap.RequestsOf | src/htswap.ts:24-31 | no request exactly when the cache holds a non-empty body for the URL; otherwise the one `RequestFor` request |
| Htswap.HtmlOf | src/htswap.ts:24-31 | a cache hit yields the cached body; a miss yields the response text, or nothing exactly when the fetch rejects |
| Htswap.CacheAfter | src/htswap.ts:32-34 | other URLs keep their entries; a preload stores the html; a swap removes a non-empty body's URL and keeps the cache for an empty one; a failed fetch changes nothing |
| Htswap.Resolve | src/htswap.ts:10-19 | one target per clause, in order, with its client element looked up |
| Htswap.RequestFor | src/htswap.ts:26-31 | the request goes to the call's URL with the raw specification as its `x-htswap` header, the body given, a 5000 ms timeout, and POST exactly when a body is given |
| Htswap.SourceOf | src/htswap.ts:42 | the source is what the server selector matches in the response, else the response body |
| Htswap.TargetStep | src/htswap.ts:41-48 | a target without a client element, or with a valid server selector and no source, is skipped without error; a blank server selector throws; otherwise its merge is applied, or an unknown position throws |
| Htswap.SwapOps | src/htswap.ts:40-58 | the loop only merges, at most once per target; it fails exactly when some target throws, with the error of the first one |
| Htswap.Merges | src/htswap.ts:33-48 | the DOM changes a call makes after the busy markers: none without html or for a preload, else only merges, at most one per target |
| Htswap.Errors | src/htswap.ts:24-63 | at most one logged error; the fetch failure exactly when no html was obtained; none for a preload; otherwise none exactly when no target throws |
| Htswap.Completed | src/htswap.ts:33-61 | a call reaches the history step exactly when it obtained html, is no preload, and no target throws |
| Htswap.ModeOf | src/htswap.ts:60-61 | push exactly for no mode, `""` or `push`; replace exactly for `replace` |
| Htswap.HistoryAfter | src/htswap.ts:60-61 | a completed swap keeps the history valid |
| Htswap.PopStateCall | src/htswap.ts:129-131 | popstate swaps the current entry's target, or `body`, from the current URL in mode `none` |
| Htswap.Session.constructor | src/htswap.ts:1 | a fresh page has an empty cache, one history entry and empty traces |
| Htswap.Session.Update | src/htswap.ts:3-67 | a call with a blank client selector, which `querySelector` rejects, changes nothing; otherwise requests, cache, DOM trace (busy on, merges, busy off), errors and history after one call, each as a function of the state before it |
| Htswap.Session.Proceed | src/htswap.ts:21-66 | with the targets resolved: the same five results, in terms of those targets |
| Htswap.Session.Settle | src/htswap.ts:32-63 | with the html in hand: consume or store the cache entry, then preload-return, or merge and record history, or log the thrown error |
| Htswap.Session.ObtainHtml | src/htswap.ts:24-31 | a non-empty cached body is used without a request; otherwise one request is sent and its outcome used |
| Htswap.Session.RecordHistory | src/htswap.ts:60-61 | the history becomes `HistoryAfter` of the history before |
| Htswap.Session.MarkBusy | src/htswap.ts:21 | appends one busy marker per target that has a client element, in order |
| Htswap.Session.SwapTargets | src/htswap.ts:40-58 | the loop appends the merges of `SwapOps` and returns its thrown error |
| Htswap.Session.SwapOne | src/htswap.ts:41-48 | one pass of the loop appends that target's merge, or returns the error it throws, as `TargetStep` says |
| Htswap.Session.OnPopState | src/htswap.ts:129-131 | a popstate runs `Update` on `PopStateCall` and leaves the history as it was |
| Htswap.Session.Traverse | src/htswap.ts:129-131 | the traversal before a popstate moves the history as `Go` does, and changes nothing else |
| Htswap.SwapOpsStopsAtError | src/htswap.ts:40-48 | once a target throws, later targets change nothing |
| Htswap.AppliedAppend | src/htswap.ts:40-48 | the merges of two runs of targets are the merges of each, concatenated |
| Htswap.SwapOpsWithoutThrow | src/htswap.ts:40-58 | when no target throws, the loop visits every target and yields the front-to-back merges, without error |
| Htswap.SwapOpsFirstThrow | src/htswap.ts:40-62 | the first throwing target ends the loop: the merges before it stay applied and its error (rejected server selector, else unknown position) is the loop's |
| Htswap.SkippedTargetDoesNotStop | src/htswap.ts:41-43 | a target without a client element, or with a valid server selector and no source, is skipped and the others merge as if it were absent |
| Htswap.AppliedAllResolved | src/htswap.ts:40-48 | when all targets resolve to known merges, the i-th merge is the i-th target's merge on its client element |
| Htswap.LastBusyAppend | src/htswap.ts:21 | the last marker in a concatenated trace comes from the later part when it has one |
| Htswap.LastBusyOfMerges | src/htswap.ts:45-48 | merges carry no busy marker |
| Htswap.BusyOpsMarkTargets | src/htswap.ts:21 | marking gives every target element the marker last, and no other element any |
| Htswap.EveryTargetEndsNotBusy | src/htswap.ts:62-66 | every target element is busy before the request and not busy afterwards, on success, preload and failure; other elements keep their marker |
| Htswap.CachedBodyIsNotFetched | src/htswap.ts:24-25 | a non-empty cached body is used and no request is sent |
| Htswap.MissIsFetched | src/htswap.ts:25-31 | without a non-empty cached body exactly one request is sent, POST exactly when a body is given, and its outcome is used |
| Htswap.UsedBodyIsConsumed | src/htswap.ts:32 | a swap with a non-empty body removes its URL from the cache and changes no other entry |
| Htswap.EmptyBodyKeepsCache | src/htswap.ts:32 | an empty body leaves the cache as it was |
| Htswap.PreloadOnlyCaches | src/htswap.ts:33-36 | a preload stores what it obtained under its URL and makes no merge, logs nothing and does not reach the history step |
| Htswap.PreloadedUrlFetchedOnce | cypress/e2e/htswap.cy.ts:266-304 | preload then click sends one request in total, the click uses the preloaded body and consumes it, and a further call fetches again |
| Htswap.EmptyPreloadIsRefetched | src/htswap.ts:24-36 | a preloaded empty body stays in the cache but reads as a miss, so the next call fetches |
| Htswap.FetchFailureChangesNothing | src/htswap.ts:62-66 | a failed fetch logs one error and changes neither cache nor DOM nor history |
| Htswap.CompletedIffNoError | src/htswap.ts:59-63 | a call reaches the history step exactly when it is no preload and logs nothing |
| Htswap.PushModeAddsOneEntry | src/htswap.ts:60 | no mode, `""` or `push` adds one entry `{ target }` at the URL |
| Htswap.ReplaceModeKeepsLength | src/htswap.ts:61 | `replace` rewrites the current entry and keeps the length |
| Htswap.OtherModesLeaveHistory | src/htswap.ts:60-61 | any other mode leaves the history unchanged |
| Htswap.PopStateLeavesHistory | src/htswap.ts:129-131 | back and forward never write history |
| Htswap.HistoryModesScenario | cypress/e2e/history-modes.cy.ts:47-74 | push, default and replace make the history 1, 2 and 2 entries longer; back and back again reach `/page1` (target `#content`) and the original entry (target `body`) |
| HtswapBind.Selected | src/htswap.ts:72-74 | an already bound element is never selected; any unbound element with `data-htswap` is; an element other than an anchor or form needs `data-htswap` |
| HtswapBind.BoundUrl | src/htswap.ts:78-81 | the form's action, else the anchor's href, else the location |
| HtswapBind.TargetOf | src/htswap.ts:90 | `data-htswap` when non-empty, else `body` |
| HtswapBind.BindOne | src/htswap.ts:76-119 | an unselected element is untouched; a selected one is marked, leaves the selection, and gets a submit handler if a form or a click handler otherwise, capturing its URL |
| HtswapBind.PreloadOf | src/htswap.ts:101-109 | one preload exactly for a selected non-form element with `data-htpreload`, at its bound URL with its target and history mode, with no body |
| HtswapBind.BindAll | src/htswap.ts:70-120 | same number of elements, none left selected, the unselected ones untouched |
| HtswapBind.Preloads | src/htswap.ts:101-109 | at most one call per element, each a preload without body |
| HtswapBind.FormUrl | src/htswap.ts:93-95 | the URL, then `&` when it already has a `?` and `?` otherwise, then the parameters |
| HtswapBind.SplitQuery | src/htswap.ts:93-95 | the part before the first `?` and the rest recompose the URL |
| HtswapBind.Click | src/htswap.ts:111-118 | a click runs a swap of the element's target at the captured URL with its history mode |
| HtswapBind.Submit | src/htswap.ts:84-98 | a POST form sends its data to the captured URL; any other method sends no body and puts the serialised data in the URL |
| HtswapBind.Document.BindElement | src/htswap.ts:76-119 | the `forEach` callback on one element: that element becomes `BindOne` of it, no other changes, and the preload it starts is `PreloadOf` it |
| HtswapBind.Document.constructor | src/htswap.ts:70-75 | the document holds the given elements |
| HtswapBind.Document.Bind | src/htswap.ts:69-121 | the elements become `BindAll` of the elements before, and the returned preloads are `Preloads` of them |
| HtswapBind.NoPreloadsWithoutSelection | src/htswap.ts:101-109 | elements that are all unselected start no preload |
| HtswapBind.BindIdempotent | src/htswap.ts:70-77 | binding again, at any location, changes nothing and starts no preload |
| HtswapBind.BindTouchesSelected | src/htswap.ts:76-119 | binding changes exactly the selected elements, each marked and given a handler with its URL |
| HtswapBind.PreloadCount | src/htswap.ts:101-109 | one preload per selected non-form element with `data-htpreload` |
| HtswapBind.PreloadMatchesClick | src/htswap.ts:101-117 | a preload fetches the URL and target of the element's later click |
| HtswapBind.SplitQueryOfPlain | src/htswap.ts:93-95 | a URL without a query followed by `?` splits back into both parts |
| HtswapBind.FormUrlQuery | src/htswap.ts:93-95 | a GET form keeps the URL's path; its data becomes the whole query, or follows the existing query after `&` |
| HtswapBind.SearchFormExample | src/htswap.ts:89-98 | a GET form for `/search` submitting `q=test` asks for `/search?q=test` without body |
| HtswapBind.OptInFormsExample | cypress/e2e/core.cy.ts:415-450 | a form without `data-htswap` outside a bind region is not bound; the POST newsletter form sends its data to `/newsletter` |
| HtswapBind.LockedLinkExample | test/htswap.test.ts:62-86 | the locked anchor, without `data-htswap` or a `data-htbind` ancestor, is not bound and gets no handler |
| LegacySwap.ResolveArgs | src/index.ts:3-7 | defaults `href = location.href`, `target = "body"`, `noHistory = false` apply exactly to the absent arguments |
| LegacySwap.NotFound | src/index.ts:19 | the message is `HTSWAP: Target "`, the selector whole, then `" not found` |
| LegacySwap.Selected | src/index.ts:33 | a selected element is an unregistered anchor; every unregistered anchor with a `target` attribute is selected |
| LegacySwap.RegisterOne | src/index.ts:34-45 | an anchor with `target` and no `data-registered` is marked and given a handler; anything else is untouched |
| LegacySwap.RegisterAll | src/index.ts:32-45 | same number of links, none left selected, the unselected ones untouched |
| LegacySwap.Found | src/index.ts:15-18 | both lookups succeed only for a response, a non-blank selector, and a selector both documents hold |
| LegacySwap.ClickArgs | src/index.ts:37-43 | a click passes the href, the `target` attribute or `body`, and whether `no-history` is present |
| LegacySwap.PopStateArgs | src/index.ts:54-56 | popstate passes the entry's `fromUrl` or `/`, its target or `lastTarget`, and `noHistory = true` |
| LegacySwap.UpdateSpec | src/index.ts:3-29 | one call keeps the history valid |
| LegacySwap.LegacyPage.constructor | src/index.ts:1 | `lastTarget` starts as `body`, with one history entry |
| LegacySwap.LegacyPage.Update | src/index.ts:3-29 | the page state becomes `UpdateSpec` of the state before |
| LegacySwap.LegacyPage.Commit | src/index.ts:23-28 | a found target is replaced by the server element, becomes `lastTarget`, a `{ target, fromUrl }` entry is pushed unless `noHistory`, and the links are re-registered; nothing else changes |
| LegacySwap.LegacyPage.Register | src/index.ts:31-46 | the links become `RegisterAll` of the links before |
| LegacySwap.LegacyPage.OnClick | src/index.ts:37-44 | a click runs `Update` with the anchor's click arguments |
| LegacySwap.LegacyPage.OnPopState | src/index.ts:54-56 | a popstate runs `Update` with `PopStateArgs` |
| LegacySwap.LegacyPage.Traverse | src/index.ts:54-56 | the traversal before a popstate moves the history as `Go` does, and changes nothing else |
| LegacySwap.FailureChangesNothing | src/index.ts:8-21 | a rejected fetch, a rejected selector or a missing element records the request, logs `HTSWAP: Target "<t>" not found` only for a missing element, and changes DOM, `lastTarget`, history and handlers not at all |
| LegacySwap.SuccessSwapsAndRecords | src/index.ts:23-28 | a found target is replaced by outer HTML, becomes `lastTarget`, is registered, and pushes `{ target, fromUrl }` exactly when `noHistory` is false |
| LegacySwap.PopStateNeverWritesHistory | src/index.ts:54-56 | back and forward never change the history |
| LegacySwap.RegisterIdempotent | src/index.ts:31-36 | registering twice is registering once |
| LegacySwap.RegisterTouchesSelected | src/index.ts:31-45 | registering changes exactly the selected anchors, each marked with a handler |
| LegacySwap.ClickOfRegisteredAnchor | src/index.ts:37-43 | a registered anchor's click targets its href, its `target` or `body`, with history unless `no-history` |
| LegacySwap.BackFetchesFromUrl | src/index.ts:54-56 | after two navigations, back fetches the stored `fromUrl` (the location before the entry), and back once more fetches `/` into `lastTarget` |

## Left out

- `fetch`, `AbortSignal.timeout`, `DOMParser` and HTML serialisation are browser APIs. A fetch is an input outcome and parsing is a function parameter. The response status is not looked at.
- Merge.ApplyMerge: re-parsing serialised markup is taken as exact except for the dropped `<body>` wrapper. A server `<html>` or `<head>` also loses its wrapper in the fragment parser, but the model puts it in the slot. Parents that change how the fragment parser works (a table, a `select`, or the `html` element when the client element is `document.body` itself) are not modelled.
- Htswap.ClientElement: of the selectors that `querySelector` rejects with a SyntaxError, only blank ones (empty or CSS whitespace) are recognised. Any other invalid selector, such as `#` or `a[`, is treated as matching nothing. For such a client selector the model falls back to `document.body`. The source's lookup at src/htswap.ts:15 throws outside the `try`, so the call's promise rejects before any busy marker, request, cache change, merge or history step.
- Htswap.TargetStep: a server selector that is invalid but not blank is likewise treated as matching nothing, and the response body is used. In the source, the lookup at src/htswap.ts:42 throws inside the `try`; the error is logged and the history step is skipped.
- LegacySwap.UpdateSpec: a target selector that is invalid but not blank is treated as matching nothing, and `NotFound` is logged. In the source, the lookup at src/index.ts:15 throws after the request; the promise rejects without a log.
- Script re-execution (src/htswap.ts:50-57) is left out: it clones script nodes so that the browser runs them.
- The `MutationObserver` and the `addEventListener`/`onclick`/`onsubmit` wiring are left out (src/htswap.ts:123-132, src/index.ts:48-57). Bind, click, submit and popstate are plain calls. Event bubbling is not modelled: a click on an unbound element inside a bound one does not reach the outer handler.
- Concurrency is left out: one swap runs to completion before the next. A preload that `htswapBind` starts is returned as a call, not run.
- DOM-state exceptions are not modelled. The `outerHTML` setter does nothing on an element without a parent and throws a NoModificationAllowedError when the parent is the Document. `insertAdjacentHTML` with `beforebegin` or `afterend` throws the same error when the parent is missing or is the Document. The model assumes an ordinary element parent, since it works on the parent's children.
- URL resolution is not modelled. `href` is taken as the browser reports it, `""` when absent. A form without an `action` attribute reports the document URL; the model writes `""` for it, which `BoundUrl` maps to the location, the same URL. Elements other than anchors and forms are taken to have neither.
- `URLSearchParams` serialisation of the form data is an opaque input string. `form.method` is one of its three keywords.
- Htswap.HistoryAfter: a history write never fails in the model. In the source, `pushState` and `replaceState` (src/htswap.ts:60-61) throw a SecurityError when the URL's origin differs from the document's; that throw happens after the merges, is logged by the catch at lines 62-63, and leaves the history unchanged. The model has no document origin, so it always writes the entry and logs nothing. `Htswap.Session.RecordHistory` inherits this.
- Htswap.CompletedIffNoError: for the same reason, a cross-origin call that reaches the history step and then logs the SecurityError is not covered; the lemma's "reaches the history step exactly when nothing is logged" holds only for URLs of the document's origin.
- LegacySwap.UpdateSpec: a cross-origin `href` whose `pushState` (src/index.ts:26) throws is not modelled either. There the promise rejects after the `outerHTML` merge and the `lastTarget` update, and `htswapRegister()` (line 28) does not run.
- LegacySwap.SuccessSwapsAndRecords: states the outcome for an `href` of the document's origin only, for the reason on the line above.
- Htswap.Session.Update: a client selector that is invalid but not blank (`#`, `a[`) marks the body busy and goes on, where the source rejects; see the `Htswap.ClientElement` line above.
- Htswap.Session.Update: after an `outerHTML` merge the final `aria-busy="false"` lands on the replaced original element. The trace records it against the element reference without modelling that the element is no longer in the document.
- LegacySwap.LegacyPage.Update: `htswapRegister` after a swap sees the element list as it was. Anchors that arrive with the swapped-in markup are not added.
- Head reconciliation, auto-targeting, scroll restoration, the ctrl-click bypass and submit-button disabling appear only in the end-to-end suites, not in src/htswap.ts or src/index.ts. They are not part of this model, and neither is `data-htfrom`.
- `data-htlocked` appears in the end-to-end suites and in test/htswap.test.ts:62-86, but neither source file reads it. That test's locked anchor is simply not selected by the binder (`HtswapBind.LockedLinkExample`).
- The generated bundles under `dist/`, `dist-compat/` and `dist-es2020/` duplicate older revisions of src and are not modelled.
