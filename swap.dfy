/**
 * `htswapUpdate` and the popstate handler of src/htswap.ts.
 *
 * The engine's state is the module-level preload cache plus what it changes in the
 * browser: the session history, the live DOM (recorded as the sequence of DOM
 * operations it performs, each a `DomOp`), the console (the errors it logs) and the
 * network (the requests it sends). One call runs to completion before the next starts.
 */
module Htswap {
  import opened Options
  import opened Dom
  import opened Targets
  import opened Merge
  import opened SessionHistory

  /** The state object of an entry the engine writes: `{ target }`. */
  datatype SwapState = SwapState(target: string)

  /** The `FormData` a POST submission sends as its body. */
  datatype FormBody = FormBody(entries: seq<(string, string)>)

  /** The arguments of `htswapUpdate(target, url, hist?, body?, preload?)`. */
  datatype SwapCall = SwapCall(target: string, url: string, hist: Option<string>, body: Option<FormBody>, preload: bool)

  datatype Method = Get | Post

  /** The request timeout, `AbortSignal.timeout(5000)`. */
  const TimeoutMs: nat := 5000

  /** A `fetch` the engine issues, with its `x-htswap` header carrying the raw target specification. */
  datatype Request = Request(url: string, verb: Method, swapHeader: string, body: Option<FormBody>, timeoutMs: nat)

  /** A clause whose client element has been looked up: `{ from, toEl, to, merge }`. */
  datatype Target = Target(from: string, to: string, merge: string, toEl: Option<ElemRef>)

  /** A change the engine makes to the live DOM. */
  datatype DomOp = SetBusy(el: ElemRef, busy: bool) | Apply(el: ElemRef, op: MergeOp, source: Element)

  /**
   * What the engine logs with `console.error` instead of throwing: a rejected fetch, an
   * unknown insertion position, or a server selector `querySelector` rejects.
   */
  datatype SwapError = FetchFailed | BadPosition(merge: string) | BadSelector(selector: string)

  /** What happens to the session history after a swap. */
  datatype HistoryMode = PushMode | ReplaceMode | Untouched

  // ---------------------------------------------------------------------------
  // Specification functions
  // ---------------------------------------------------------------------------

  /** The client element of a clause: what its client selector matches, else `document.body`. */
  function ClientElement(to: string, page: ClientView): (e: Option<ElemRef>)
    ensures to in page.query ==> e == Some(page.query[to])
    ensures to !in page.query ==> e == page.body
  {
    match page.Find(to)
    case Some(r) => Some(r)
    case None => page.body
  }

  /** The targets of a call: its parsed clauses, in order, each with its client element. */
  function Resolve(clauses: seq<Clause>, page: ClientView): (ts: seq<Target>)
    ensures |ts| == |clauses|
    ensures forall i :: 0 <= i < |ts| ==>
      ts[i] == Target(clauses[i].from, clauses[i].to, clauses[i].merge, ClientElement(clauses[i].to, page))
  {
    if clauses == [] then []
    else
      var c := clauses[0];
      [Target(c.from, c.to, c.merge, ClientElement(c.to, page))] + Resolve(clauses[1..], page)
  }

  function TargetsOf(call: SwapCall, page: ClientView): seq<Target> {
    Resolve(ParseTargets(call.target), page)
  }

  /**
   * Whether resolving the targets throws: some clause's client selector is one
   * `document.querySelector` rejects. The lookup (line 15) runs before the `try`, so the
   * call's promise rejects before any busy marker, request, merge or history step.
   */
  predicate Rejects(call: SwapCall)
    ensures ',' !in call.target ==> (Rejects(call) <==> BlankSelector(ParseClause(call.target).to))
    ensures call.target == "" ==> Rejects(call)
  {
    ClauseBare("");
    var cs := ParseTargets(call.target);
    exists i :: 0 <= i < |cs| && BlankSelector(cs[i].to)
  }

  /**
   * `targets.forEach(t => t.toEl?.setAttribute("aria-busy", busy))`: one marker per target
   * that has a client element, all with the value `busy`.
   */
  function BusyOps(ts: seq<Target>, busy: bool): (r: seq<DomOp>)
    ensures |r| <= |ts|
    ensures (forall j :: 0 <= j < |ts| ==> ts[j].toEl.Some?) ==> |r| == |ts|
    ensures forall i :: 0 <= i < |r| ==> r[i].SetBusy? && r[i].busy == busy
    decreases |ts|
  {
    if ts == [] then []
    else
      var last := ts[|ts| - 1];
      BusyOps(ts[..|ts| - 1], busy) + (if last.toEl.Some? then [SetBusy(last.toEl.value, busy)] else [])
  }

  /** `cache.get(url)`, where an absent entry reads as the empty (falsy) string. */
  function CacheGet(cache: map<string, string>, url: string): (r: string)
    ensures url !in cache ==> r == ""
    ensures url in cache ==> r == cache[url]
  {
    if url in cache then cache[url] else ""
  }

  /** The request a cache miss sends. */
  function RequestFor(call: SwapCall): (r: Request)
    ensures r.url == call.url && r.swapHeader == call.target && r.body == call.body
    ensures r.verb == Post <==> call.body.Some?
    ensures r.timeoutMs == 5000
  {
    Request(call.url, if call.body.Some? then Post else Get, call.target, call.body, TimeoutMs)
  }

  /** The requests a call sends: none when the cache holds a non-empty body for its URL. */
  function RequestsOf(cache: map<string, string>, call: SwapCall): (r: seq<Request>)
    ensures r == [] <==> call.url in cache && cache[call.url] != ""
    ensures r != [] ==> r == [RequestFor(call)]
  {
    if CacheGet(cache, call.url) != "" then [] else [RequestFor(call)]
  }

  /** The html a call works on; `None` when the fetch it needed failed. */
  function HtmlOf(cache: map<string, string>, call: SwapCall, fetched: FetchOutcome): (r: Option<string>)
    ensures RequestsOf(cache, call) == [] ==> r == Some(cache[call.url])
    ensures RequestsOf(cache, call) != [] ==> (r.None? <==> fetched.NetworkError?)
    ensures RequestsOf(cache, call) != [] && fetched.Response? ==> r == Some(fetched.text)
  {
    var cached := CacheGet(cache, call.url);
    if cached != "" then Some(cached)
    else match fetched
      case Response(t) => Some(t)
      case NetworkError => None
  }

  /** The cache after a call that obtained `html`: a non-empty body is consumed, a preload stores it. */
  function CacheAfter(cache: map<string, string>, call: SwapCall, html: Option<string>): (r: map<string, string>)
    ensures html.None? ==> r == cache
    ensures forall u :: u != call.url ==> (u in r <==> u in cache)
    ensures forall u :: u != call.url && u in r ==> r[u] == cache[u]
    ensures html.Some? && call.preload ==> call.url in r && r[call.url] == html.value
    ensures html.Some? && !call.preload ==>
      if html.value != "" then call.url !in r else r == cache
  {
    match html
    case None => cache
    case Some(h) =>
      var kept := if h != "" then cache - {call.url} else cache;
      if call.preload then kept[call.url := h] else kept
  }

  /** The element a target takes from the response: what its server selector matches, else the body. */
  function SourceOf(t: Target, doc: ParsedDoc): (e: Option<Element>)
    ensures t.from in doc.query ==> e == Some(doc.query[t.from])
    ensures t.from !in doc.query ==> e == doc.body
  {
    match doc.Find(t.from)
    case Some(e) => Some(e)
    case None => doc.body
  }

  /**
   * One pass of the target loop: skip, apply a merge, or throw, either in the response
   * lookup (line 42) or on an unknown position.
   */
  function TargetStep(t: Target, doc: ParsedDoc): (r: (seq<DomOp>, Option<SwapError>))
    ensures t.toEl.None? || (!BlankSelector(t.from) && SourceOf(t, doc).None?) ==> r == ([], None)
    ensures t.toEl.Some? && !BlankSelector(t.from) && SourceOf(t, doc).Some? && MergeOf(t.merge).Some? ==>
      r == ([Apply(t.toEl.value, MergeOf(t.merge).value, SourceOf(t, doc).value)], None)
    ensures r.1.Some? <==> Throws(t, doc)
    ensures r.1.Some? ==> r == ([], Some(Thrown(t)))
  {
    if t.toEl.None? then ([], None)
    else if BlankSelector(t.from) then ([], Some(BadSelector(t.from)))
    else if SourceOf(t, doc).None? then ([], None)
    else match MergeOf(t.merge)
      case Some(op) => ([Apply(t.toEl.value, op, SourceOf(t, doc).value)], None)
      case None => ([], Some(BadPosition(t.merge)))
  }

  /**
   * A target whose pass throws: it has a client element, and either its server selector is
   * rejected or it has a source but no known merge.
   */
  predicate Throws(t: Target, doc: ParsedDoc) {
    t.toEl.Some? && (BlankSelector(t.from) || (SourceOf(t, doc).Some? && MergeOf(t.merge).None?))
  }

  /** The error a throwing target's pass raises: the lookup's comes first. */
  function Thrown(t: Target): SwapError {
    if BlankSelector(t.from) then BadSelector(t.from) else BadPosition(t.merge)
  }

  /**
   * The target loop, stopping at the first thrown error: it only merges, at most once per
   * target, and it fails exactly when some target throws, with the first such target's error.
   */
  function SwapOps(ts: seq<Target>, doc: ParsedDoc): (r: (seq<DomOp>, Option<SwapError>))
    ensures |r.0| <= |ts|
    ensures forall i :: 0 <= i < |r.0| ==> r.0[i].Apply?
    ensures r.1.None? <==> forall i :: 0 <= i < |ts| ==> !Throws(ts[i], doc)
    ensures r.1.Some? ==> exists k :: 0 <= k < |ts| && Throws(ts[k], doc) && r.1 == Some(Thrown(ts[k])) &&
                                      forall i :: 0 <= i < k ==> !Throws(ts[i], doc)
    decreases |ts|
  {
    if ts == [] then ([], None)
    else
      assert forall i :: 0 <= i < |ts| - 1 ==> ts[..|ts| - 1][i] == ts[i];
      var (ops, err) := SwapOps(ts[..|ts| - 1], doc);
      if err.Some? then (ops, err)
      else
        var (more, err') := TargetStep(ts[|ts| - 1], doc);
        (ops + more, err')
  }

  /** `if (!hist || hist === "push") ... else if (hist === "replace") ...`. */
  function ModeOf(hist: Option<string>): (m: HistoryMode)
    ensures m == PushMode <==> hist == None || hist == Some("") || hist == Some("push")
    ensures m == ReplaceMode <==> hist == Some("replace")
  {
    match hist
    case None => PushMode
    case Some(h) => if h == "" || h == "push" then PushMode else if h == "replace" then ReplaceMode else Untouched
  }

  /** The history after a completed swap. */
  function HistoryAfter(h: History<SwapState>, call: SwapCall): (r: History<SwapState>)
    requires h.Valid()
    ensures r.Valid()
  {
    match ModeOf(call.hist)
    case PushMode => PushState(h, SwapState(call.target), call.url)
    case ReplaceMode => ReplaceState(h, SwapState(call.target), call.url)
    case Untouched => h
  }

  /** The merges a call that obtained `html` applies to the targets `ts`. */
  function Merges(call: SwapCall, ts: seq<Target>, html: Option<string>, parse: string -> ParsedDoc): (r: seq<DomOp>)
    ensures html.None? || call.preload ==> r == []
    ensures |r| <= |ts|
    ensures forall i :: 0 <= i < |r| ==> r[i].Apply?
  {
    match html
    case None => []
    case Some(h) => if call.preload then [] else SwapOps(ts, parse(h)).0
  }

  /** The errors a call that obtained `html` logs: the failed fetch, or the position that threw. */
  function Errors(call: SwapCall, ts: seq<Target>, html: Option<string>, parse: string -> ParsedDoc): (r: seq<SwapError>)
    ensures |r| <= 1
    ensures r == [FetchFailed] <==> html.None?
    ensures html.Some? && call.preload ==> r == []
    ensures html.Some? && !call.preload ==>
      (r == [] <==> forall i :: 0 <= i < |ts| ==> !Throws(ts[i], parse(html.value)))
  {
    match html
    case None => [FetchFailed]
    case Some(h) =>
      if call.preload then []
      else
        var err := SwapOps(ts, parse(h)).1;
        if err.Some? then [err.value] else []
  }

  /** Whether a call reaches its history step: it obtained html, is no preload, and no merge threw. */
  predicate Completed(call: SwapCall, ts: seq<Target>, html: Option<string>, parse: string -> ParsedDoc)
    ensures Completed(call, ts, html, parse) <==>
      html.Some? && !call.preload && forall i :: 0 <= i < |ts| ==> !Throws(ts[i], parse(html.value))
  {
    html.Some? && !call.preload && SwapOps(ts, parse(html.value)).1.None?
  }

  /** The call the popstate listener makes: the entry's target, or `body`, in history mode `none`. */
  function PopStateCall(h: History<SwapState>): (c: SwapCall)
    requires h.Valid()
    ensures c.url == h.Current().url && c.hist == Some("none") && c.body.None? && !c.preload
    ensures h.Current().state.Some? && h.Current().state.value.target != "" ==>
      c.target == h.Current().state.value.target
    ensures h.Current().state.None? || h.Current().state.value.target == "" ==> c.target == "body"
  {
    var target := match h.Current().state
      case Some(s) => if s.target != "" then s.target else "body"
      case None => "body";
    SwapCall(target, h.Current().url, Some("none"), None, false)
  }

  // ---------------------------------------------------------------------------
  // The engine
  // ---------------------------------------------------------------------------

  class Session {
    var cache: map<string, string>
    var history: History<SwapState>
    var domLog: seq<DomOp>
    var errors: seq<SwapError>
    var requests: seq<Request>

    ghost predicate Valid()
      reads this
    {
      history.Valid()
    }

    /** A page just loaded at `location`, with an empty cache. */
    constructor (location: string)
      ensures Valid()
      ensures cache == map[] && history == Initial(location)
      ensures domLog == [] && errors == [] && requests == []
    {
      cache := map[];
      history := Initial(location);
      domLog := [];
      errors := [];
      requests := [];
    }

    /**
     * `htswapUpdate(target, url, hist, body, preload)`, against the live document `page`,
     * the outcome `fetched` of the fetch (used only on a cache miss) and the parser `parse`.
     */
    method Update(call: SwapCall, page: ClientView, fetched: FetchOutcome, parse: string -> ParsedDoc)
      requires Valid()
      modifies this
      ensures Valid()
      ensures Rejects(call) ==>
        requests == old(requests) && cache == old(cache) && domLog == old(domLog) &&
        errors == old(errors) && history == old(history)
      ensures !Rejects(call) ==> requests == old(requests) + RequestsOf(old(cache), call)
      ensures !Rejects(call) ==> cache == CacheAfter(old(cache), call, HtmlOf(old(cache), call, fetched))
      ensures !Rejects(call) ==>
        domLog == old(domLog) + BusyOps(TargetsOf(call, page), true)
                  + Merges(call, TargetsOf(call, page), HtmlOf(old(cache), call, fetched), parse)
                  + BusyOps(TargetsOf(call, page), false)
      ensures !Rejects(call) ==>
        errors == old(errors) + Errors(call, TargetsOf(call, page), HtmlOf(old(cache), call, fetched), parse)
      ensures !Rejects(call) ==>
        history == if Completed(call, TargetsOf(call, page), HtmlOf(old(cache), call, fetched), parse)
                   then HistoryAfter(old(history), call) else old(history)
    {
      if !Rejects(call) {
        Proceed(call, TargetsOf(call, page), fetched, parse);
      }
    }

    /** Lines 21-66, once the targets `ts` are resolved: mark, obtain, swap, record, unmark. */
    method Proceed(call: SwapCall, ts: seq<Target>, fetched: FetchOutcome, parse: string -> ParsedDoc)
      requires Valid()
      modifies this
      ensures Valid()
      ensures requests == old(requests) + RequestsOf(old(cache), call)
      ensures cache == CacheAfter(old(cache), call, HtmlOf(old(cache), call, fetched))
      ensures domLog == old(domLog) + BusyOps(ts, true)
                        + Merges(call, ts, HtmlOf(old(cache), call, fetched), parse)
                        + BusyOps(ts, false)
      ensures errors == old(errors) + Errors(call, ts, HtmlOf(old(cache), call, fetched), parse)
      ensures history == if Completed(call, ts, HtmlOf(old(cache), call, fetched), parse)
                         then HistoryAfter(old(history), call) else old(history)
    {
      MarkBusy(ts, true);
      // try
      var html := ObtainHtml(call, fetched);
      Settle(call, ts, html, parse);
      // finally
      MarkBusy(ts, false);
    }

    /** The body of the `try` after the html is in hand, with its `catch`. */
    method Settle(call: SwapCall, ts: seq<Target>, html: Option<string>, parse: string -> ParsedDoc)
      requires Valid()
      modifies this`cache, this`domLog, this`errors, this`history
      ensures Valid()
      ensures cache == CacheAfter(old(cache), call, html)
      ensures domLog == old(domLog) + Merges(call, ts, html, parse)
      ensures errors == old(errors) + Errors(call, ts, html, parse)
      ensures history == if Completed(call, ts, html, parse) then HistoryAfter(old(history), call) else old(history)
    {
      match html
      case None =>
        // catch
        errors := errors + [FetchFailed];
      case Some(h) =>
        if h != "" {
          cache := cache - {call.url};
        }
        if call.preload {
          cache := cache[call.url := h];
        } else {
          var failed := SwapTargets(ts, parse(h));
          if failed.Some? {
            // catch
            errors := errors + [failed.value];
          } else {
            RecordHistory(call);
          }
        }
    }

    /** `cache.get(url) || await fetch(url, {...}).then(r => r.text())`; `None` when the fetch rejects. */
    method ObtainHtml(call: SwapCall, fetched: FetchOutcome) returns (html: Option<string>)
      modifies this`requests
      ensures requests == old(requests) + RequestsOf(cache, call)
      ensures html == HtmlOf(cache, call, fetched)
    {
      var cached := CacheGet(cache, call.url);
      if cached != "" {
        html := Some(cached);
      } else {
        requests := requests + [RequestFor(call)];
        match fetched
        case Response(t) => html := Some(t);
        case NetworkError => html := None;
      }
    }

    /** Lines 60-61: push, replace, or leave the history alone. */
    method RecordHistory(call: SwapCall)
      requires Valid()
      modifies this`history
      ensures Valid()
      ensures history == HistoryAfter(old(history), call)
    {
      if call.hist == None || call.hist == Some("") || call.hist == Some("push") {
        history := PushState(history, SwapState(call.target), call.url);
      } else if call.hist == Some("replace") {
        history := ReplaceState(history, SwapState(call.target), call.url);
      }
    }

    /** `targets.forEach(t => t.toEl?.setAttribute("aria-busy", busy))`. */
    method MarkBusy(ts: seq<Target>, busy: bool)
      modifies this`domLog
      ensures domLog == old(domLog) + BusyOps(ts, busy)
    {
      var i := 0;
      while i < |ts|
        invariant 0 <= i <= |ts|
        invariant domLog == old(domLog) + BusyOps(ts[..i], busy)
      {
        BusyOpsStep(ts, i, busy);
        if ts[i].toEl.Some? {
          domLog := domLog + [SetBusy(ts[i].toEl.value, busy)];
        }
        i := i + 1;
      }
      assert ts[..i] == ts;
    }

    /** The target loop of lines 40-49; an unknown insertion position throws out of it. */
    method SwapTargets(ts: seq<Target>, doc: ParsedDoc) returns (failed: Option<SwapError>)
      modifies this`domLog
      ensures domLog == old(domLog) + SwapOps(ts, doc).0
      ensures failed == SwapOps(ts, doc).1
    {
      failed := None;
      var j := 0;
      while j < |ts| && failed.None?
        invariant 0 <= j <= |ts|
        invariant domLog == old(domLog) + SwapOps(ts[..j], doc).0
        invariant failed == SwapOps(ts[..j], doc).1
      {
        SwapOpsStep(ts, j, doc);
        failed := SwapOne(ts[j], doc);
        j := j + 1;
      }
      SwapOpsStopsAtError(ts, j, doc);
    }

    /** The `forEach` callback of lines 40-58 on one target; returns what it throws, if anything. */
    method SwapOne(t: Target, doc: ParsedDoc) returns (failed: Option<SwapError>)
      modifies this`domLog
      ensures domLog == old(domLog) + TargetStep(t, doc).0
      ensures failed == TargetStep(t, doc).1
    {
      failed := None;
      if t.toEl.Some? {
        if BlankSelector(t.from) {
          failed := Some(BadSelector(t.from));
        } else {
          var fromEl := doc.Find(t.from);
          if fromEl.None? {
            fromEl := doc.body;
          }
          if fromEl.Some? {
            match MergeOf(t.merge)
            case Some(op) => domLog := domLog + [Apply(t.toEl.value, op, fromEl.value)];
            case None => failed := Some(BadPosition(t.merge));
          }
        }
      }
    }

    /** The popstate listener: re-swap the current entry's target from the current URL. */
    method OnPopState(page: ClientView, fetched: FetchOutcome, parse: string -> ParsedDoc)
      requires Valid()
      modifies this
      ensures Valid()
      ensures history == old(history)
      ensures var call := PopStateCall(old(history));
        Rejects(call) ==>
        requests == old(requests) && cache == old(cache) && domLog == old(domLog) && errors == old(errors)
      ensures var call := PopStateCall(old(history));
        var ts := TargetsOf(call, page);
        var html := HtmlOf(old(cache), call, fetched);
        !Rejects(call) ==>
        && requests == old(requests) + RequestsOf(old(cache), call)
        && cache == CacheAfter(old(cache), call, html)
        && domLog == old(domLog) + BusyOps(ts, true) + Merges(call, ts, html, parse) + BusyOps(ts, false)
        && errors == old(errors) + Errors(call, ts, html, parse)
    {
      var call := PopStateCall(history);
      Update(call, page, fetched, parse);
    }

    /**
     * `history.go(delta)`: the browser moves to another entry (or stays, outside the list);
     * the popstate listener then runs as `OnPopState`.
     */
    method Traverse(delta: int)
      requires Valid()
      modifies this`history
      ensures Valid()
      ensures history == Go(old(history), delta)
    {
      history := Go(history, delta);
    }
  }

  // ---------------------------------------------------------------------------
  // Properties
  // ---------------------------------------------------------------------------

  /** Once the target loop has thrown, the remaining targets are not visited. */
  lemma {:induction false} SwapOpsStopsAtError(ts: seq<Target>, j: nat, doc: ParsedDoc)
    requires j <= |ts|
    requires j == |ts| || SwapOps(ts[..j], doc).1.Some?
    ensures SwapOps(ts, doc) == SwapOps(ts[..j], doc)
    decreases |ts| - j
  {
    if j < |ts| {
      assert ts[..|ts| - 1][..j] == ts[..j];
      SwapOpsStopsAtError(ts[..|ts| - 1], j, doc);
    } else {
      assert ts[..j] == ts;
    }
  }

  /** One more target adds its own marker, if it has a client element. */
  lemma BusyOpsStep(ts: seq<Target>, i: nat, busy: bool)
    requires i < |ts|
    ensures BusyOps(ts[..i + 1], busy) ==
      BusyOps(ts[..i], busy) + (if ts[i].toEl.Some? then [SetBusy(ts[i].toEl.value, busy)] else [])
  {
    assert ts[..i + 1][..i] == ts[..i];
  }

  /** One more pass of a loop that has not thrown adds that target's step. */
  lemma SwapOpsStep(ts: seq<Target>, j: nat, doc: ParsedDoc)
    requires j < |ts| && SwapOps(ts[..j], doc).1.None?
    ensures SwapOps(ts[..j + 1], doc) ==
      (SwapOps(ts[..j], doc).0 + TargetStep(ts[j], doc).0, TargetStep(ts[j], doc).1)
  {
    assert ts[..j + 1][..j] == ts[..j];
  }

  /** The merges of a loop over `ts` in which nothing throws, written front to back. */
  function Applied(ts: seq<Target>, doc: ParsedDoc): seq<DomOp> {
    if ts == [] then [] else TargetStep(ts[0], doc).0 + Applied(ts[1..], doc)
  }

  lemma {:induction false} AppliedAppend(a: seq<Target>, b: seq<Target>, doc: ParsedDoc)
    ensures Applied(a + b, doc) == Applied(a, doc) + Applied(b, doc)
    decreases |a|
  {
    if a == [] {
      assert a + b == b;
    } else {
      var ops := TargetStep(a[0], doc).0;
      assert (a + b)[0] == a[0];
      assert (a + b)[1..] == a[1..] + b;
      assert Applied(a + b, doc) == ops + Applied(a[1..] + b, doc);
      AppliedAppend(a[1..], b, doc);
      assert Applied(a, doc) == ops + Applied(a[1..], doc);
    }
  }

  /** When no target throws, the loop visits every target and applies each step in order. */
  lemma {:induction false} SwapOpsWithoutThrow(ts: seq<Target>, doc: ParsedDoc)
    requires forall i :: 0 <= i < |ts| ==> !Throws(ts[i], doc)
    ensures SwapOps(ts, doc) == (Applied(ts, doc), None)
    decreases |ts|
  {
    if ts != [] {
      var j := |ts| - 1;
      var init, last := ts[..j], ts[j];
      assert forall i :: 0 <= i < |init| ==> init[i] == ts[i];
      SwapOpsWithoutThrow(init, doc);
      SwapOpsStep(ts, j, doc);
      assert ts[..j + 1] == ts;
      AppliedSnoc(ts, doc);
    }
  }

  /** The merges of a run of targets end with those of its last target. */
  lemma AppliedSnoc(ts: seq<Target>, doc: ParsedDoc)
    requires ts != []
    ensures Applied(ts, doc) == Applied(ts[..|ts| - 1], doc) + TargetStep(ts[|ts| - 1], doc).0
  {
    var init, last := ts[..|ts| - 1], ts[|ts| - 1];
    AppliedAppend(init, [last], doc);
    assert Applied([last], doc) == TargetStep(last, doc).0 + Applied([], doc);
    assert init + [last] == ts;
  }

  /** The first target that throws ends the loop: the merges before it stay applied, its position is the error. */
  lemma SwapOpsFirstThrow(ts: seq<Target>, k: nat, doc: ParsedDoc)
    requires k < |ts| && Throws(ts[k], doc)
    requires forall i :: 0 <= i < k ==> !Throws(ts[i], doc)
    ensures SwapOps(ts, doc) == (Applied(ts[..k], doc), Some(Thrown(ts[k])))
  {
    assert forall i :: 0 <= i < k ==> ts[..k][i] == ts[i];
    SwapOpsWithoutThrow(ts[..k], doc);
    var upto := ts[..k + 1];
    assert upto[..k] == ts[..k] && upto[k] == ts[k] && |upto| == k + 1;
    assert TargetStep(ts[k], doc) == ([], Some(Thrown(ts[k])));
    assert SwapOps(ts[..k], doc).0 == Applied(ts[..k], doc);
    assert SwapOps(upto, doc) == (SwapOps(ts[..k], doc).0 + [], Some(Thrown(ts[k])));
    assert SwapOps(ts[..k], doc).0 + [] == Applied(ts[..k], doc);
    SwapOpsStopsAtError(ts, k + 1, doc);
  }

  /** A target without a client element or a source is skipped: the others are merged as if it were absent. */
  lemma SkippedTargetDoesNotStop(a: seq<Target>, t: Target, b: seq<Target>, doc: ParsedDoc)
    requires t.toEl.None? || (!BlankSelector(t.from) && SourceOf(t, doc).None?)
    ensures Applied(a + [t] + b, doc) == Applied(a + b, doc)
  {
    AppliedAppend(a + [t], b, doc);
    AppliedAppend(a, [t], doc);
    AppliedAppend(a, b, doc);
  }

  /** When every target resolves and names a known merge, the i-th merge is the i-th target's. */
  lemma {:induction false} AppliedAllResolved(ts: seq<Target>, doc: ParsedDoc)
    requires forall i :: 0 <= i < |ts| ==>
      ts[i].toEl.Some? && !BlankSelector(ts[i].from) && SourceOf(ts[i], doc).Some? && MergeOf(ts[i].merge).Some?
    ensures |Applied(ts, doc)| == |ts|
    ensures forall i :: 0 <= i < |ts| ==>
      Applied(ts, doc)[i] == Apply(ts[i].toEl.value, MergeOf(ts[i].merge).value, SourceOf(ts[i], doc).value)
    decreases |ts|
  {
    if ts != [] {
      assert forall i :: 0 <= i < |ts[1..]| ==> ts[1..][i] == ts[i + 1];
      AppliedAllResolved(ts[1..], doc);
    }
  }

  // Busy markers

  /** The value of the busy marker an element was given last in a trace, if any. */
  function LastBusy(log: seq<DomOp>, e: ElemRef): Option<bool>
    decreases |log|
  {
    if log == [] then None
    else
      match log[|log| - 1]
      case SetBusy(x, b) => if x == e then Some(b) else LastBusy(log[..|log| - 1], e)
      case Apply(_, _, _) => LastBusy(log[..|log| - 1], e)
  }

  lemma {:induction false} LastBusyAppend(a: seq<DomOp>, b: seq<DomOp>, e: ElemRef)
    ensures LastBusy(a + b, e) == if LastBusy(b, e).Some? then LastBusy(b, e) else LastBusy(a, e)
    decreases |b|
  {
    if b == [] {
      assert a + b == a;
    } else {
      assert (a + b)[..|a + b| - 1] == a + b[..|b| - 1];
      LastBusyAppend(a, b[..|b| - 1], e);
    }
  }

  lemma {:induction false} LastBusyOfMerges(log: seq<DomOp>, e: ElemRef)
    requires forall i :: 0 <= i < |log| ==> log[i].Apply?
    ensures LastBusy(log, e) == None
    decreases |log|
  {
    if log != [] {
      LastBusyOfMerges(log[..|log| - 1], e);
    }
  }

  /** Marking the targets gives each of their elements the marker last, and no other element any. */
  lemma {:induction false} BusyOpsMarkTargets(ts: seq<Target>, busy: bool, e: ElemRef)
    ensures LastBusy(BusyOps(ts, busy), e) ==
      if exists i :: 0 <= i < |ts| && ts[i].toEl == Some(e) then Some(busy) else None
    decreases |ts|
  {
    if ts != [] {
      var init, last := ts[..|ts| - 1], ts[|ts| - 1];
      var tail := if last.toEl.Some? then [SetBusy(last.toEl.value, busy)] else [];
      LastBusyAppend(BusyOps(init, busy), tail, e);
      BusyOpsMarkTargets(init, busy, e);
      if last.toEl != Some(e) {
        TargetOfInit(ts, init, e);
      }
    }
  }

  /** Dropping a last target that is not on `e` does not change whether `e` is a target. */
  lemma TargetOfInit(ts: seq<Target>, init: seq<Target>, e: ElemRef)
    requires ts != [] && init == ts[..|ts| - 1] && ts[|ts| - 1].toEl != Some(e)
    ensures (exists i :: 0 <= i < |ts| && ts[i].toEl == Some(e)) <==>
            (exists i :: 0 <= i < |init| && init[i].toEl == Some(e))
  {
    if exists i :: 0 <= i < |ts| && ts[i].toEl == Some(e) {
      var i :| 0 <= i < |ts| && ts[i].toEl == Some(e);
      assert init[i] == ts[i];
    }
  }

  /**
   * Around one call, in the trace `Update` produces: every target element is busy once the targets
   * are marked and not busy at the end, whether the call swapped, preloaded or failed; an element
   * that is no target keeps the marker it had.
   */
  lemma EveryTargetEndsNotBusy(log: seq<DomOp>, call: SwapCall, page: ClientView, html: Option<string>,
                               parse: string -> ParsedDoc, e: ElemRef)
    ensures var ts := TargetsOf(call, page);
      var marked := log + BusyOps(ts, true);
      var settled := marked + Merges(call, ts, html, parse) + BusyOps(ts, false);
      if exists i :: 0 <= i < |ts| && ts[i].toEl == Some(e) then
        LastBusy(marked, e) == Some(true) && LastBusy(settled, e) == Some(false)
      else
        LastBusy(marked, e) == LastBusy(log, e) && LastBusy(settled, e) == LastBusy(log, e)
  {
    var ts := TargetsOf(call, page);
    var marked := log + BusyOps(ts, true);
    var merges := Merges(call, ts, html, parse);
    LastBusyOfMerges(merges, e);
    BusyOpsMarkTargets(ts, true, e);
    BusyOpsMarkTargets(ts, false, e);
    LastBusyAppend(log, BusyOps(ts, true), e);
    LastBusyAppend(marked, merges, e);
    LastBusyAppend(marked + merges, BusyOps(ts, false), e);
  }

  // Rejected calls

  /** A trailing comma leaves an empty last clause, whose client selector `querySelector` rejects. */
  lemma TrailingCommaRejects(call: SwapCall, spec: string)
    requires call.target == spec + "," && ',' !in spec
    ensures Rejects(call)
  {
    NoEarlyMatchChar(spec, ',');
    SplitConcat(spec, ",", "");
    assert spec + "," + "" == call.target;
    var cs := ParseTargets(call.target);
    ClauseBare("");
    assert cs[1] == Clause("", "", DefaultMerge);
  }

  /** An arrow with nothing after it leaves the client selector empty: `"#a->"` rejects. */
  lemma ArrowWithoutClientRejects(call: SwapCall, from: string)
    requires call.target == from + "->"
    requires ',' !in from && '@' !in from && !Contains(from, "->")
    ensures Rejects(call)
  {
    assert from + "->" + "" == call.target;
    assert ',' !in call.target;
    ClauseAlias(from, "");
    assert ParseTargets(call.target)[0] == Clause(from, "", DefaultMerge);
  }

  // Cache and requests

  /** A URL cached with a non-empty body is not fetched: the cached body is used. */
  lemma CachedBodyIsNotFetched(cache: map<string, string>, call: SwapCall, fetched: FetchOutcome)
    requires call.url in cache && cache[call.url] != ""
    ensures RequestsOf(cache, call) == []
    ensures HtmlOf(cache, call, fetched) == Some(cache[call.url])
  {
  }

  /** Otherwise exactly one request goes out, a POST exactly when a body is given, and its outcome is used. */
  lemma MissIsFetched(cache: map<string, string>, call: SwapCall, fetched: FetchOutcome)
    requires call.url !in cache || cache[call.url] == ""
    ensures RequestsOf(cache, call) ==
      [Request(call.url, if call.body.Some? then Post else Get, call.target, call.body, 5000)]
    ensures HtmlOf(cache, call, fetched) == if fetched.Response? then Some(fetched.text) else None
  {
  }

  /** A swap consumes a non-empty body: its URL leaves the cache and no other entry changes. */
  lemma UsedBodyIsConsumed(cache: map<string, string>, call: SwapCall, h: string)
    requires !call.preload && h != ""
    ensures call.url !in CacheAfter(cache, call, Some(h))
    ensures forall u :: u != call.url ==> (u in CacheAfter(cache, call, Some(h)) <==> u in cache)
    ensures forall u :: u in cache && u != call.url ==> CacheAfter(cache, call, Some(h))[u] == cache[u]
  {
  }

  /** A swap that obtained the empty string leaves the cache as it was. */
  lemma EmptyBodyKeepsCache(cache: map<string, string>, call: SwapCall)
    requires !call.preload
    ensures CacheAfter(cache, call, Some("")) == cache
  {
  }

  /** A preload stores what it obtained under its URL, and makes no merge, logs nothing and leaves the history. */
  lemma PreloadOnlyCaches(cache: map<string, string>, call: SwapCall, ts: seq<Target>, h: string,
                          parse: string -> ParsedDoc)
    requires call.preload
    ensures CacheAfter(cache, call, Some(h)) == cache[call.url := h]
    ensures Merges(call, ts, Some(h), parse) == [] && Errors(call, ts, Some(h), parse) == []
    ensures !Completed(call, ts, Some(h), parse)
  {
    if h != "" {
      assert (cache - {call.url})[call.url := h] == cache[call.url := h];
    }
  }

  /**
   * A preloaded URL is fetched once: the preload sends the only request, the click that follows
   * swaps in the preloaded body without a request and consumes it, and a further call fetches anew.
   */
  lemma PreloadedUrlFetchedOnce(cache: map<string, string>, preload: SwapCall, click: SwapCall, h: string,
                                fetched: FetchOutcome, again: FetchOutcome)
    requires preload.preload && !click.preload && click.url == preload.url
    requires preload.url !in cache && h != ""
    ensures var c1 := CacheAfter(cache, preload, HtmlOf(cache, preload, Response(h)));
      var c2 := CacheAfter(c1, click, HtmlOf(c1, click, fetched));
      && |RequestsOf(cache, preload)| + |RequestsOf(c1, click)| == 1
      && HtmlOf(c1, click, fetched) == Some(h)
      && click.url !in c2
      && RequestsOf(c2, click) == [RequestFor(click)]
  {
    var c1 := CacheAfter(cache, preload, HtmlOf(cache, preload, Response(h)));
    assert c1 == cache[preload.url := h];
    var c2 := CacheAfter(c1, click, Some(h));
    UsedBodyIsConsumed(c1, click, h);
  }

  /** A preload that obtained the empty string stores it, and it reads as a miss: the next call fetches. */
  lemma EmptyPreloadIsRefetched(cache: map<string, string>, preload: SwapCall, click: SwapCall)
    requires preload.preload && click.url == preload.url
    ensures var c1 := CacheAfter(cache, preload, Some(""));
      preload.url in c1 && c1[preload.url] == "" && RequestsOf(c1, click) == [RequestFor(click)]
  {
  }

  /** A failed fetch is logged and changes nothing else: no merge, the cache as it was, no history step. */
  lemma FetchFailureChangesNothing(cache: map<string, string>, call: SwapCall, ts: seq<Target>,
                                   parse: string -> ParsedDoc)
    ensures CacheAfter(cache, call, None) == cache
    ensures Merges(call, ts, None, parse) == [] && Errors(call, ts, None, parse) == [FetchFailed]
    ensures !Completed(call, ts, None, parse)
  {
  }

  /** Of the targets of a completed call is no error logged; a call that did not complete logs one or preloaded. */
  lemma CompletedIffNoError(call: SwapCall, ts: seq<Target>, html: Option<string>, parse: string -> ParsedDoc)
    ensures Completed(call, ts, html, parse) <==> !call.preload && Errors(call, ts, html, parse) == []
  {
  }

  // History

  /** With no mode, the empty mode or `push`, a completed swap adds one entry `{ target }` at the URL. */
  lemma PushModeAddsOneEntry(h: History<SwapState>, call: SwapCall)
    requires h.Valid() && h.AtEnd()
    requires call.hist == None || call.hist == Some("") || call.hist == Some("push")
    ensures var r := HistoryAfter(h, call);
      |r.entries| == |h.entries| + 1 && r.AtEnd() && r.Current() == Entry(Some(SwapState(call.target)), call.url)
  {
    PushAtEndGrowsByOne(h, SwapState(call.target), call.url);
  }

  /** With `replace`, the current entry becomes `{ target }` at the URL and the history keeps its length. */
  lemma ReplaceModeKeepsLength(h: History<SwapState>, call: SwapCall)
    requires h.Valid() && call.hist == Some("replace")
    ensures var r := HistoryAfter(h, call);
      |r.entries| == |h.entries| && r.index == h.index && r.Current() == Entry(Some(SwapState(call.target)), call.url)
  {
  }

  /** Any other mode, such as `none`, leaves the history as it was. */
  lemma OtherModesLeaveHistory(h: History<SwapState>, call: SwapCall)
    requires h.Valid() && call.hist.Some?
    requires call.hist.value != "" && call.hist.value != "push" && call.hist.value != "replace"
    ensures HistoryAfter(h, call) == h
  {
  }

  /** Back and forward never write history: the popstate call's mode is `none`. */
  lemma PopStateLeavesHistory(h: History<SwapState>)
    requires h.Valid()
    ensures HistoryAfter(h, PopStateCall(h)) == h
  {
  }

  /**
   * The history-modes walk: from `/`, a `push` to `/page1`, a default to `/page2` and a `replace`
   * to `/page3` make the history one, two and two entries longer; back shows `/page1` with target
   * `#content`, and back again the original entry, which popstate swaps as `body`.
   */
  lemma HistoryModesScenario()
    ensures var h0 := Initial<SwapState>("/");
      var h1 := HistoryAfter(h0, SwapCall("#content", "/page1", Some("push"), None, false));
      var h2 := HistoryAfter(h1, SwapCall("#content", "/page2", None, None, false));
      var h3 := HistoryAfter(h2, SwapCall("#content", "/page3", Some("replace"), None, false));
      var b1 := Go(h3, -1);
      var b2 := Go(b1, -1);
      && |h1.entries| == |h0.entries| + 1
      && |h2.entries| == |h0.entries| + 2
      && |h3.entries| == |h0.entries| + 2
      && PopStateCall(b1) == SwapCall("#content", "/page1", Some("none"), None, false)
      && PopStateCall(b2) == SwapCall("body", "/", Some("none"), None, false)
  {
    var h0 := Initial<SwapState>("/");
    var h1 := HistoryAfter(h0, SwapCall("#content", "/page1", Some("push"), None, false));
    var h2 := HistoryAfter(h1, SwapCall("#content", "/page2", None, None, false));
    var h3 := HistoryAfter(h2, SwapCall("#content", "/page3", Some("replace"), None, false));
    assert h1.entries == [Entry(None, "/"), Entry(Some(SwapState("#content")), "/page1")];
    assert h3.entries[..2] == h2.entries[..2] == h1.entries;
  }
}
