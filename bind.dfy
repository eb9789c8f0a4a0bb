/**
 * `htswapBind` of src/htswap.ts: the elements the binder selects, the mark it stamps on
 * each, the handler it attaches and the call that handler makes, including the URL a
 * GET form submits to.
 */
module HtswapBind {
  import opened Options
  import opened Htswap

  /** `form.method`, which the browser reports as one of its three keywords. */
  datatype FormMethod = GetMethod | PostMethod | DialogMethod

  /**
   * What the binder asks of an element's kind: an anchor's `href` and a form's `action`
   * (both already resolved by the browser; `""` when there is none) and a form's method.
   */
  datatype Kind = Anchor(href: string) | Form(action: string, formMethod: FormMethod) | OtherElement

  /** An element as the binder sees it. */
  datatype Bindable = Bindable(
    kind: Kind,
    htswap: Option<string>,     // data-htswap
    hthistory: Option<string>,  // data-hthistory
    htpreload: bool,            // data-htpreload is present
    inBindRegion: bool,         // an ancestor carries data-htbind
    bound: bool,                // data-htbound is present (the binder writes "true")
    onclick: Option<string>,    // the URL a click handler of the binder captured
    onsubmit: Option<string>)   // the URL a submit handler of the binder captured

  /**
   * The selector `[data-htswap]:not([data-htbound]), [data-htbind] a:not([data-htbound]),
   * [data-htbind] form:not([data-htbound])`.
   */
  predicate Selected(e: Bindable)
    ensures Selected(e) ==> !e.bound
    ensures !e.bound && e.htswap.Some? ==> Selected(e)
    ensures e.kind.OtherElement? && e.htswap.None? ==> !Selected(e)
  {
    !e.bound && (e.htswap.Some? || (e.inBindRegion && (e.kind.Anchor? || e.kind.Form?)))
  }

  /** `el.action || el.href || location.href`. */
  function BoundUrl(e: Bindable, location: string): (url: string)
    ensures e.kind.Form? && e.kind.action != "" ==> url == e.kind.action
    ensures e.kind.Anchor? && e.kind.href != "" ==> url == e.kind.href
    ensures e.kind.OtherElement? || (e.kind.Form? && e.kind.action == "") || e.kind == Anchor("") ==> url == location
  {
    match e.kind
    case Form(action, _) => if action != "" then action else location
    case Anchor(href) => if href != "" then href else location
    case OtherElement => location
  }

  /** `el.dataset.htswap || "body"`. */
  function TargetOf(e: Bindable): (t: string)
    ensures e.htswap.Some? && e.htswap.value != "" ==> t == e.htswap.value
    ensures e.htswap.None? || e.htswap == Some("") ==> t == "body"
  {
    if e.htswap.Some? && e.htswap.value != "" then e.htswap.value else "body"
  }

  /** One pass of the `forEach`: stamp the mark, then a submit handler on a form, a click handler elsewhere. */
  function BindOne(e: Bindable, location: string): (r: Bindable)
    ensures !Selected(e) ==> r == e
    ensures Selected(e) ==> r.bound && !Selected(r)
    ensures r.kind == e.kind && r.htswap == e.htswap && r.hthistory == e.hthistory
    ensures r.htpreload == e.htpreload && r.inBindRegion == e.inBindRegion
    ensures Selected(e) && e.kind.Form? ==> r.onsubmit == Some(BoundUrl(e, location)) && r.onclick == e.onclick
    ensures Selected(e) && !e.kind.Form? ==> r.onclick == Some(BoundUrl(e, location)) && r.onsubmit == e.onsubmit
  {
    if !Selected(e) then e
    else
      var marked := e.(bound := true);
      var url := BoundUrl(e, location);
      if e.kind.Form? then marked.(onsubmit := Some(url)) else marked.(onclick := Some(url))
  }

  /** The preload a selected non-form element with `data-htpreload` starts while being bound. */
  function PreloadOf(e: Bindable, location: string): (r: seq<SwapCall>)
    ensures |r| <= 1
    ensures r != [] <==> Selected(e) && !e.kind.Form? && e.htpreload
    ensures r != [] ==> r[0].preload && r[0].body.None?
    ensures r != [] ==> r[0].url == BoundUrl(e, location) && r[0].target == TargetOf(e) && r[0].hist == e.hthistory
  {
    if Selected(e) && !e.kind.Form? && e.htpreload
    then [SwapCall(TargetOf(e), BoundUrl(e, location), e.hthistory, None, true)]
    else []
  }

  /** The document after binding: every element bound on its own. */
  function BindAll(es: seq<Bindable>, location: string): (r: seq<Bindable>)
    ensures |r| == |es|
    ensures forall i :: 0 <= i < |r| ==> !Selected(r[i])
    ensures forall i :: 0 <= i < |es| && !Selected(es[i]) ==> r[i] == es[i]
  {
    seq(|es|, i requires 0 <= i < |es| => BindOne(es[i], location))
  }

  /** The preloads binding starts, in document order. */
  function Preloads(es: seq<Bindable>, location: string): (r: seq<SwapCall>)
    ensures |r| <= |es|
    ensures forall i :: 0 <= i < |r| ==> r[i].preload && r[i].body.None?
    decreases |es|
  {
    if es == [] then [] else Preloads(es[..|es| - 1], location) + PreloadOf(es[|es| - 1], location)
  }

  /** `url + (url.includes("?") ? "&" : "?") + params`. */
  function FormUrl(url: string, params: string): (r: string)
    ensures |r| == |url| + 1 + |params|
    ensures r[..|url|] == url && r[|url| + 1..] == params
    ensures r[|url|] == if '?' in url then '&' else '?'
  {
    url + (if '?' in url then "&" else "?") + params
  }

  /** A URL split at its first `?`: what precedes it and, when there is one, what follows. */
  function SplitQuery(u: string): (r: (string, Option<string>))
    ensures '?' !in r.0
    ensures u == r.0 + (if r.1.Some? then "?" + r.1.value else "")
    ensures r.1.None? <==> '?' !in u
  {
    if u == [] then ("", None)
    else if u[0] == '?' then ("", Some(u[1..]))
    else
      var rest := SplitQuery(u[1..]);
      ([u[0]] + rest.0, rest.1)
  }

  /** The call a click handler makes, when the binder attached one. */
  function Click(e: Bindable): (c: Option<SwapCall>)
    ensures c.Some? <==> e.onclick.Some?
    ensures c.Some? ==> c.value == SwapCall(TargetOf(e), e.onclick.value, e.hthistory, None, false)
  {
    match e.onclick
    case None => None
    case Some(url) => Some(SwapCall(TargetOf(e), url, e.hthistory, None, false))
  }

  /**
   * The call a submit handler makes with the form's `data`, whose `URLSearchParams`
   * serialisation is `encoded`: a POST sends the data to the bound URL, any other method
   * puts the serialisation in the URL and sends no body.
   */
  function Submit(e: Bindable, data: FormBody, encoded: string): (c: Option<SwapCall>)
    ensures c.Some? <==> e.onsubmit.Some?
    ensures c.Some? ==> c.value.target == TargetOf(e) && c.value.hist == e.hthistory && !c.value.preload
    ensures c.Some? && e.kind.Form? && e.kind.formMethod == PostMethod ==>
      c.value.url == e.onsubmit.value && c.value.body == Some(data)
    ensures c.Some? && !(e.kind.Form? && e.kind.formMethod == PostMethod) ==>
      c.value.url == FormUrl(e.onsubmit.value, encoded) && c.value.body == None
  {
    match e.onsubmit
    case None => None
    case Some(url) =>
      if e.kind.Form? && e.kind.formMethod == PostMethod
      then Some(SwapCall(TargetOf(e), url, e.hthistory, Some(data), false))
      else Some(SwapCall(TargetOf(e), FormUrl(url, encoded), e.hthistory, None, false))
  }

  /** The live document's bindable elements, in document order. */
  class Document {
    var elements: seq<Bindable>

    constructor (elements: seq<Bindable>)
      ensures this.elements == elements
    {
      this.elements := elements;
    }

    /**
     * `htswapBind()`. The selector is evaluated once, before the loop; marking one element
     * does not change whether another is selected, so testing each element as the loop
     * reaches it selects the same ones. Returns the preloads it starts, in order.
     */
    method Bind(location: string) returns (preloads: seq<SwapCall>)
      modifies this`elements
      ensures elements == BindAll(old(elements), location)
      ensures preloads == Preloads(old(elements), location)
    {
      preloads := [];
      var i := 0;
      while i < |elements|
        invariant 0 <= i <= |elements| == |old(elements)|
        invariant forall j :: 0 <= j < i ==> elements[j] == BindOne(old(elements)[j], location)
        invariant forall j :: i <= j < |elements| ==> elements[j] == old(elements)[j]
        invariant preloads == Preloads(old(elements)[..i], location)
      {
        var started := BindElement(i, location);
        PreloadsStep(old(elements), i, location);
        preloads := preloads + started;
        i := i + 1;
      }
      assert old(elements)[..i] == old(elements);
      BindAllOfPointwise(old(elements), elements, location);
    }

    /** The `forEach` callback on the `i`-th element; returns the preload it starts, if any. */
    method BindElement(i: nat, location: string) returns (started: seq<SwapCall>)
      requires i < |elements|
      modifies this`elements
      ensures elements == old(elements)[i := BindOne(old(elements)[i], location)]
      ensures started == PreloadOf(old(elements)[i], location)
    {
      started := [];
      var el := elements[i];
      if Selected(el) {
        el := el.(bound := true);
        var url := BoundUrl(el, location);
        if el.kind.Form? {
          el := el.(onsubmit := Some(url));
        } else {
          if el.htpreload {
            started := [SwapCall(TargetOf(el), url, el.hthistory, None, true)];
          }
          el := el.(onclick := Some(url));
        }
        elements := elements[i := el];
      }
    }
  }

  /** Elements bound one by one are the elements bound all at once. */
  lemma BindAllOfPointwise(es: seq<Bindable>, done: seq<Bindable>, location: string)
    requires |done| == |es|
    requires forall j :: 0 <= j < |es| ==> done[j] == BindOne(es[j], location)
    ensures done == BindAll(es, location)
  {
  }

  /** One more element adds its own preload, if any, at the end. */
  lemma PreloadsStep(es: seq<Bindable>, i: nat, location: string)
    requires i < |es|
    ensures Preloads(es[..i + 1], location) == Preloads(es[..i], location) + PreloadOf(es[i], location)
  {
    assert es[..i + 1][..i] == es[..i];
  }

  // ---------------------------------------------------------------------------
  // Properties
  // ---------------------------------------------------------------------------

  /** Elements that are all unselected start no preload. */
  lemma {:induction false} NoPreloadsWithoutSelection(es: seq<Bindable>, location: string)
    requires forall i :: 0 <= i < |es| ==> !Selected(es[i])
    ensures Preloads(es, location) == []
    decreases |es|
  {
    if es != [] {
      assert forall i :: 0 <= i < |es| - 1 ==> es[..|es| - 1][i] == es[i];
      NoPreloadsWithoutSelection(es[..|es| - 1], location);
    }
  }

  /**
   * Binding again, at any location, changes nothing and starts no preload: every element the
   * first pass selected now carries the mark.
   */
  lemma BindIdempotent(es: seq<Bindable>, first: string, again: string)
    ensures BindAll(BindAll(es, first), again) == BindAll(es, first)
    ensures Preloads(BindAll(es, first), again) == []
  {
    var once := BindAll(es, first);
    assert forall i :: 0 <= i < |once| ==> !Selected(once[i]);
    NoPreloadsWithoutSelection(once, again);
  }

  /** Binding touches exactly the selected elements, and leaves each of them marked with a handler. */
  lemma BindTouchesSelected(es: seq<Bindable>, location: string)
    ensures |BindAll(es, location)| == |es|
    ensures forall i :: 0 <= i < |es| && !Selected(es[i]) ==> BindAll(es, location)[i] == es[i]
    ensures forall i :: 0 <= i < |es| && Selected(es[i]) ==>
      BindAll(es, location)[i].bound &&
      (if es[i].kind.Form? then BindAll(es, location)[i].onsubmit else BindAll(es, location)[i].onclick)
        == Some(BoundUrl(es[i], location))
  {
  }

  /** There is one preload per selected non-form element with `data-htpreload`, in this many. */
  lemma {:induction false} PreloadCount(es: seq<Bindable>, location: string)
    ensures |Preloads(es, location)| == |set i | 0 <= i < |es| && Selected(es[i]) && !es[i].kind.Form? && es[i].htpreload|
    decreases |es|
  {
    if es != [] {
      var n := |es| - 1;
      var init := es[..n];
      PreloadCount(init, location);
      var before := set i | 0 <= i < n && Selected(init[i]) && !init[i].kind.Form? && init[i].htpreload;
      var all := set i | 0 <= i < |es| && Selected(es[i]) && !es[i].kind.Form? && es[i].htpreload;
      if Selected(es[n]) && !es[n].kind.Form? && es[n].htpreload {
        assert all == before + {n};
      } else {
        assert all == before;
      }
    }
  }

  /**
   * A preload fetches the URL and target the element's click will use, so the click later finds
   * the preloaded body in the cache.
   */
  lemma PreloadMatchesClick(e: Bindable, location: string)
    requires PreloadOf(e, location) != []
    ensures Click(BindOne(e, location)) == Some(PreloadOf(e, location)[0].(preload := false))
  {
  }

  /** A GET form puts its data after a `?` when the URL has no query yet. */
  lemma {:induction false} SplitQueryOfPlain(p: string, q: string)
    requires '?' !in p
    ensures SplitQuery(p + "?" + q) == (p, Some(q))
    decreases |p|
  {
    if p == [] {
      assert p + "?" + q == "?" + q;
    } else {
      assert (p + "?" + q)[0] == p[0] != '?';
      assert (p + "?" + q)[1..] == p[1..] + "?" + q;
      SplitQueryOfPlain(p[1..], q);
      assert [p[0]] + p[1..] == p;
    }
  }

  /**
   * A GET form keeps the URL's path and puts its data in the query: as the whole query when
   * the URL had none, after the existing query and an `&` otherwise.
   */
  lemma FormUrlQuery(url: string, params: string)
    ensures SplitQuery(FormUrl(url, params)).0 == SplitQuery(url).0
    ensures SplitQuery(FormUrl(url, params)).1 ==
      Some(if SplitQuery(url).1.Some? then SplitQuery(url).1.value + "&" + params else params)
  {
    var (p, q) := SplitQuery(url);
    if q.Some? {
      assert FormUrl(url, params) == p + "?" + (q.value + "&" + params);
      SplitQueryOfPlain(p, q.value + "&" + params);
    } else {
      assert url == p;
      SplitQueryOfPlain(url, params);
    }
  }

  /** A GET form bound to `/search` that submits `q=test` asks for `/search?q=test`, with no body. */
  lemma SearchFormExample(location: string, data: FormBody)
    ensures var form := Bindable(Form("/search", GetMethod), Some("#results"), None, false, false, false, None, None);
      Submit(BindOne(form, location), data, "q=test") == Some(SwapCall("#results", "/search?q=test", None, None, false))
  {
    assert '?' !in "/search";
    assert FormUrl("/search", "q=test") == "/search" + "?" + "q=test" == "/search?q=test";
  }

  /**
   * The locked-link test: an anchor with `data-htlocked` inside a `data-htswap` element, with
   * no `data-htswap` and no `data-htbind` ancestor of its own, is not bound and gets no handler.
   */
  lemma LockedLinkExample(location: string)
    ensures var link := Bindable(Anchor("/new"), None, None, false, false, false, None, None);
      BindOne(link, location) == link && Click(BindOne(link, location)).None?
  {
  }

  /**
   * Opting in single forms: a form without `data-htswap` outside any `data-htbind` region is left
   * as it is, while a POST form with `data-htswap="#content"` sends its data to its action.
   */
  lemma OptInFormsExample(location: string, data: FormBody, encoded: string)
    ensures var search := Bindable(Form("/search", GetMethod), None, None, false, false, false, None, None);
      BindOne(search, location) == search && Submit(search, data, encoded).None?
    ensures var newsletter := Bindable(Form("/newsletter", PostMethod), Some("#content"), None, false, false, false, None, None);
      Submit(BindOne(newsletter, location), data, encoded) == Some(SwapCall("#content", "/newsletter", None, Some(data), false))
  {
  }
}
