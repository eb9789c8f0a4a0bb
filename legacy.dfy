/**
 * The earlier single-target swapper of src/index.ts: `htswapUpdate(href, target, noHistory)`
 * replaces the one element its selector names with the response's element of the same
 * selector, remembers that selector as `lastTarget`, pushes `{ target, fromUrl }`, and
 * registers click handlers on the anchors that carry a `target` attribute.
 */
module LegacySwap {
  import opened Options
  import opened Dom
  import opened SessionHistory

  /** The state object of an entry this swapper pushes: `{ target, fromUrl }`. */
  datatype EntryState = EntryState(target: string, fromUrl: string)

  /** The arguments of `htswapUpdate(href?, target?, noHistory?)`; `None` is an argument left out. */
  datatype Args = Args(href: Option<string>, target: Option<string>, noHistory: Option<bool>)

  /** The arguments once the defaults are filled in. */
  datatype Call = Call(href: string, target: string, noHistory: bool)

  /** A `fetch(href, { headers: { "htswap-target": target } })`. */
  datatype Request = Request(url: string, targetHeader: string)

  /** `currentElement.outerHTML = newElement.outerHTML`. */
  datatype DomOp = OuterReplace(el: ElemRef, source: Element)

  /** An element as `htswapRegister` sees it. */
  datatype Link = Link(
    isAnchor: bool,
    href: string,               // `anchor.href`, "" when there is none
    targetAttr: Option<string>, // the `target` attribute
    hasNoHistory: bool,         // the `no-history` attribute is present
    registered: bool,           // `data-registered` is present (the swapper writes "true")
    onclick: bool)              // the swapper's click handler is attached

  /** Everything the swapper reads and changes. */
  datatype PageState = PageState(
    lastTarget: string,
    history: History<EntryState>,
    domLog: seq<DomOp>,
    errors: seq<string>,
    requests: seq<Request>,
    links: seq<Link>)
  {
    predicate Valid() {
      history.Valid()
    }

    /** `location.href`: the URL of the current history entry. */
    function Location(): string
      requires Valid()
    {
      history.Current().url
    }
  }

  /** The default parameters `href = location.href`, `target = "body"`, `noHistory = false`. */
  function ResolveArgs(args: Args, location: string): (c: Call)
    ensures args.href.None? ==> c.href == location
    ensures args.target.None? ==> c.target == "body"
    ensures args.noHistory.None? ==> !c.noHistory
    ensures args.href.Some? ==> c.href == args.href.value
    ensures args.target.Some? ==> c.target == args.target.value
    ensures args.noHistory.Some? ==> c.noHistory == args.noHistory.value
  {
    Call(args.href.GetOr(location), args.target.GetOr("body"), args.noHistory.GetOr(false))
  }

  /** The message logged when either element is missing; it quotes the selector whole. */
  function NotFound(target: string): (m: string)
    ensures |m| == |target| + 27
    ensures m[..16] == "HTSWAP: Target \"" && m[16..16 + |target|] == target
    ensures m[16 + |target|..] == "\" not found"
  {
    "HTSWAP: Target \"" + target + "\" not found"
  }

  /** The selector `a[target]:not([data-registered])`. */
  predicate Selected(l: Link)
    ensures Selected(l) ==> l.isAnchor && !l.registered
    ensures l.isAnchor && l.targetAttr.Some? && !l.registered ==> Selected(l)
  {
    l.isAnchor && l.targetAttr.Some? && !l.registered
  }

  /** One pass of the `forEach`: stamp `data-registered`, then attach the click handler. */
  function RegisterOne(l: Link): (r: Link)
    ensures !Selected(l) ==> r == l
    ensures Selected(l) ==> r.registered && r.onclick && !Selected(r)
    ensures r.isAnchor == l.isAnchor && r.href == l.href && r.targetAttr == l.targetAttr
    ensures r.hasNoHistory == l.hasNoHistory
  {
    if Selected(l) then l.(registered := true, onclick := true) else l
  }

  function RegisterAll(ls: seq<Link>): (r: seq<Link>)
    ensures |r| == |ls|
    ensures forall i :: 0 <= i < |r| ==> !Selected(r[i])
    ensures forall i :: 0 <= i < |ls| && !Selected(ls[i]) ==> r[i] == ls[i]
  {
    seq(|ls|, i requires 0 <= i < |ls| => RegisterOne(ls[i]))
  }

  /** Links registered one by one are the links registered all at once. */
  lemma RegisterAllOfPointwise(ls: seq<Link>, done: seq<Link>)
    requires |done| == |ls|
    requires forall j :: 0 <= j < |ls| ==> done[j] == RegisterOne(ls[j])
    ensures done == RegisterAll(ls)
  {
  }

  /** The arguments the click handler passes: the anchor's href, its `target` or `body`, and `no-history`. */
  function ClickArgs(l: Link): (a: Option<Args>)
    ensures a.Some? <==> l.onclick
    ensures a.Some? ==> a.value.href == Some(l.href) && a.value.noHistory == Some(l.hasNoHistory)
    ensures a.Some? && l.targetAttr.Some? && l.targetAttr.value != "" ==> a.value.target == l.targetAttr
    ensures a.Some? && (l.targetAttr.None? || l.targetAttr == Some("")) ==> a.value.target == Some("body")
  {
    if !l.onclick then None
    else
      var target := if l.targetAttr.Some? && l.targetAttr.value != "" then l.targetAttr.value else "body";
      Some(Args(Some(l.href), Some(target), Some(l.hasNoHistory)))
  }

  /** The popstate listener's arguments: `state?.fromUrl ?? "/"`, `state?.target ?? lastTarget`, `true`. */
  function PopStateArgs(s: PageState): (a: Args)
    requires s.Valid()
    ensures a.noHistory == Some(true)
    ensures s.history.Current().state.Some? ==>
      a.href == Some(s.history.Current().state.value.fromUrl) && a.target == Some(s.history.Current().state.value.target)
    ensures s.history.Current().state.None? ==> a.href == Some("/") && a.target == Some(s.lastTarget)
  {
    match s.history.Current().state
    case Some(st) => Args(Some(st.fromUrl), Some(st.target), Some(true))
    case None => Args(Some("/"), Some(s.lastTarget), Some(true))
  }

  /**
   * Whether the response and the live document both have an element for the call's selector
   * (a selector `querySelector` rejects finds nothing: the lookup throws).
   */
  predicate Found(call: Call, page: ClientView, fetched: FetchOutcome, parse: string -> ParsedDoc)
    ensures Found(call, page, fetched, parse) ==>
      fetched.Response? && !BlankSelector(call.target) &&
      call.target in parse(fetched.text).query && call.target in page.query
  {
    fetched.Response? && !BlankSelector(call.target) &&
    parse(fetched.text).Find(call.target).Some? && page.Find(call.target).Some?
  }

  /**
   * One call of `htswapUpdate`, from the page state before it to the page state after it.
   * A fetch that rejects ends the call after the request; there is no `try`, so nothing is
   * logged. A selector `querySelector` rejects throws at the response lookup (line 15), after
   * the request, and likewise ends the call without a log.
   */
  function UpdateSpec(s: PageState, args: Args, page: ClientView, fetched: FetchOutcome,
                      parse: string -> ParsedDoc): (r: PageState)
    requires s.Valid()
    ensures r.Valid()
  {
    var call := ResolveArgs(args, s.Location());
    var sent := s.(requests := s.requests + [Request(call.href, call.target)]);
    match fetched
    case NetworkError => sent
    case Response(text) =>
      var newElement := parse(text).Find(call.target);
      var currentElement := page.Find(call.target);
      if BlankSelector(call.target) then sent
      else if newElement.None? || currentElement.None? then
        sent.(errors := s.errors + [NotFound(call.target)])
      else
        var history := if call.noHistory then s.history
                       else PushState(s.history, EntryState(call.target, s.Location()), call.href);
        sent.(domLog := s.domLog + [OuterReplace(currentElement.value, newElement.value)],
              lastTarget := call.target,
              history := history,
              links := RegisterAll(s.links))
  }

  /** The module state of src/index.ts and the parts of the browser it drives. */
  class LegacyPage {
    var lastTarget: string
    var history: History<EntryState>
    var domLog: seq<DomOp>
    var errors: seq<string>
    var requests: seq<Request>
    var links: seq<Link>

    function State(): PageState
      reads this
    {
      PageState(lastTarget, history, domLog, errors, requests, links)
    }

    ghost predicate Valid()
      reads this
    {
      history.Valid()
    }

    /** A page just loaded at `location`: `lastTarget` is `body`. */
    constructor (location: string, links: seq<Link>)
      ensures Valid()
      ensures State() == PageState("body", Initial(location), [], [], [], links)
    {
      lastTarget := "body";
      history := Initial(location);
      domLog := [];
      errors := [];
      requests := [];
      this.links := links;
    }

    /** `htswapUpdate(href, target, noHistory)` against the live document `page`. */
    method Update(args: Args, page: ClientView, fetched: FetchOutcome, parse: string -> ParsedDoc)
      requires Valid()
      modifies this
      ensures Valid()
      ensures State() == UpdateSpec(old(State()), args, page, fetched, parse)
    {
      ghost var before := State();
      var call := ResolveArgs(args, history.Current().url);
      assert call == ResolveArgs(args, before.Location());
      requests := requests + [Request(call.href, call.target)];
      match fetched
      case NetworkError =>
        return;
      case Response(text) =>
        if BlankSelector(call.target) {
          return;
        }
        var newElement := parse(text).Find(call.target);
        var currentElement := page.Find(call.target);
        if newElement.None? || currentElement.None? {
          errors := errors + [NotFound(call.target)];
          return;
        }
        Commit(call, currentElement.value, newElement.value);
    }

    /** Lines 23-28: the outer replacement, `lastTarget`, the history entry and the re-registration. */
    method Commit(call: Call, current: ElemRef, replacement: Element)
      requires Valid()
      modifies this
      ensures Valid()
      ensures State() == old(State()).(domLog := old(domLog) + [OuterReplace(current, replacement)],
                                      lastTarget := call.target,
                                      history := if call.noHistory then old(history)
                                                 else PushState(old(history), EntryState(call.target, old(history.Current().url)), call.href),
                                      links := RegisterAll(old(links)))
    {
      domLog := domLog + [OuterReplace(current, replacement)];
      lastTarget := call.target;
      if !call.noHistory {
        history := PushState(history, EntryState(call.target, history.Current().url), call.href);
      }
      Register();
    }

    /** `htswapRegister()`. */
    method Register()
      modifies this`links
      ensures links == RegisterAll(old(links))
    {
      var i := 0;
      while i < |links|
        invariant 0 <= i <= |links| == |old(links)|
        invariant forall j :: 0 <= j < i ==> links[j] == RegisterOne(old(links)[j])
        invariant forall j :: i <= j < |links| ==> links[j] == old(links)[j]
      {
        if Selected(links[i]) {
          links := links[i := links[i].(registered := true, onclick := true)];
        }
        i := i + 1;
      }
      RegisterAllOfPointwise(old(links), links);
    }

    /** A click on the `i`-th element, which carries the swapper's handler. */
    method OnClick(i: nat, page: ClientView, fetched: FetchOutcome, parse: string -> ParsedDoc)
      requires Valid() && i < |links| && links[i].onclick
      modifies this
      ensures Valid()
      ensures State() == UpdateSpec(old(State()), ClickArgs(old(links[i])).value, page, fetched, parse)
    {
      var args := ClickArgs(links[i]).value;
      Update(args, page, fetched, parse);
    }

    /** The popstate listener, run once the browser has moved to another entry. */
    method OnPopState(page: ClientView, fetched: FetchOutcome, parse: string -> ParsedDoc)
      requires Valid()
      modifies this
      ensures Valid()
      ensures State() == UpdateSpec(old(State()), PopStateArgs(old(State())), page, fetched, parse)
    {
      var args := PopStateArgs(State());
      Update(args, page, fetched, parse);
    }

    /**
     * `history.go(delta)`: the browser moves to another entry (or stays, outside the list);
     * the popstate listener then runs as `OnPopState`.
     */
    method Traverse(delta: int)
      requires Valid()
      modifies this`history
      ensures Valid()
      ensures State() == old(State()).(history := Go(old(history), delta))
    {
      history := Go(history, delta);
    }
  }

  // ---------------------------------------------------------------------------
  // Properties
  // ---------------------------------------------------------------------------

  /**
   * When either element is missing, or the fetch rejects, the call only records its request
   * (and, for a missing element, logs): DOM, `lastTarget`, history and handlers are as they were.
   */
  lemma FailureChangesNothing(s: PageState, args: Args, page: ClientView, fetched: FetchOutcome,
                              parse: string -> ParsedDoc)
    requires s.Valid()
    requires !Found(ResolveArgs(args, s.Location()), page, fetched, parse)
    ensures var r := UpdateSpec(s, args, page, fetched, parse);
      var call := ResolveArgs(args, s.Location());
      && r.domLog == s.domLog && r.lastTarget == s.lastTarget && r.history == s.history && r.links == s.links
      && r.requests == s.requests + [Request(call.href, call.target)]
      && r.errors == s.errors + (if fetched.Response? && !BlankSelector(call.target) then [NotFound(call.target)] else [])
  {
  }

  /**
   * A call that finds both elements replaces the live one, remembers its selector, registers the
   * anchors, and pushes `{ target, fromUrl }` with `fromUrl` the location before the call exactly
   * when `noHistory` is false.
   */
  lemma SuccessSwapsAndRecords(s: PageState, args: Args, page: ClientView, fetched: FetchOutcome,
                               parse: string -> ParsedDoc)
    requires s.Valid()
    requires Found(ResolveArgs(args, s.Location()), page, fetched, parse)
    ensures var r := UpdateSpec(s, args, page, fetched, parse);
      var call := ResolveArgs(args, s.Location());
      && r.domLog == s.domLog + [OuterReplace(page.query[call.target], parse(fetched.text).query[call.target])]
      && r.lastTarget == call.target
      && r.errors == s.errors
      && r.links == RegisterAll(s.links)
      && (call.noHistory ==> r.history == s.history)
      && (!call.noHistory ==> r.history.Current() == Entry(Some(EntryState(call.target, s.Location())), call.href))
      && (!call.noHistory && s.history.AtEnd() ==> |r.history.entries| == |s.history.entries| + 1)
  {
    var call := ResolveArgs(args, s.Location());
    if !call.noHistory && s.history.AtEnd() {
      PushAtEndGrowsByOne(s.history, EntryState(call.target, s.Location()), call.href);
    }
  }

  /** Back and forward never add or change history entries. */
  lemma PopStateNeverWritesHistory(s: PageState, page: ClientView, fetched: FetchOutcome,
                                   parse: string -> ParsedDoc)
    requires s.Valid()
    ensures UpdateSpec(s, PopStateArgs(s), page, fetched, parse).history == s.history
  {
  }

  /** Registering again changes nothing: every anchor registered the first time carries the mark. */
  lemma RegisterIdempotent(ls: seq<Link>)
    ensures RegisterAll(RegisterAll(ls)) == RegisterAll(ls)
  {
  }

  /** Registering touches exactly the selected anchors, and gives each the mark and a handler. */
  lemma RegisterTouchesSelected(ls: seq<Link>)
    ensures |RegisterAll(ls)| == |ls|
    ensures forall i :: 0 <= i < |ls| && !Selected(ls[i]) ==> RegisterAll(ls)[i] == ls[i]
    ensures forall i :: 0 <= i < |ls| && Selected(ls[i]) ==> RegisterAll(ls)[i].registered && RegisterAll(ls)[i].onclick
  {
  }

  /** A registered anchor's click navigates to its href, into its `target` or `body`, with history unless `no-history`. */
  lemma ClickOfRegisteredAnchor(l: Link, location: string)
    requires Selected(l)
    ensures var call := ResolveArgs(ClickArgs(RegisterOne(l)).value, location);
      && call.href == l.href
      && call.target == (if l.targetAttr.value != "" then l.targetAttr.value else "body")
      && call.noHistory == l.hasNoHistory
  {
  }

  /**
   * Where back leads: after navigations from `start` to `first` to `second`, going back to
   * `first` makes the popstate listener fetch the entry's `fromUrl`, which is `start`, while the
   * location is `first`; going back once more fetches `/` into `lastTarget`.
   */
  lemma BackFetchesFromUrl(s: PageState, target: string, first: string, second: string,
                           page: ClientView, doc1: FetchOutcome, doc2: FetchOutcome, parse: string -> ParsedDoc)
    requires s.Valid() && s.history.AtEnd() && s.history.index == 0 && s.history.Current().state.None?
    requires page.Find(target).Some? && !BlankSelector(target)
    requires doc1.Response? && parse(doc1.text).Find(target).Some?
    requires doc2.Response? && parse(doc2.text).Find(target).Some?
    ensures var s1 := UpdateSpec(s, Args(Some(first), Some(target), None), page, doc1, parse);
      var s2 := UpdateSpec(s1, Args(Some(second), Some(target), None), page, doc2, parse);
      var back := s2.(history := Go(s2.history, -1));
      var start := back.(history := Go(back.history, -1));
      && back.Location() == first
      && PopStateArgs(back) == Args(Some(s.Location()), Some(target), Some(true))
      && start.Location() == s.Location()
      && PopStateArgs(start) == Args(Some("/"), Some(target), Some(true))
  {
    var s1 := UpdateSpec(s, Args(Some(first), Some(target), None), page, doc1, parse);
    var s2 := UpdateSpec(s1, Args(Some(second), Some(target), None), page, doc2, parse);
    assert s1.history.entries == [s.history.entries[0], Entry(Some(EntryState(target, s.Location())), first)];
    assert s2.history.entries[..2] == s1.history.entries;
    assert s2.history.entries[1] == Entry(Some(EntryState(target, s.Location())), first);
    assert s2.history.entries[0] == s.history.entries[0];
  }
}
