/**
 * The browser's session history as the swap engines use it: a list of entries, each with
 * the state object and URL given to `pushState`/`replaceState`, and the index of the
 * current entry. `PushState` drops the entries after the current one, as the HTML
 * Standard's "URL and history update steps" do.
 */
module SessionHistory {
  import opened Options

  datatype Entry<S> = Entry(state: Option<S>, url: string)

  datatype History<S> = History(entries: seq<Entry<S>>, index: nat) {
    predicate Valid() {
      index < |entries|
    }

    function Current(): Entry<S>
      requires Valid()
    {
      entries[index]
    }

    /** No forward entries: the usual state after a navigation. */
    predicate AtEnd() {
      index + 1 == |entries|
    }
  }

  /** The history of a freshly loaded page: one entry without state. */
  function Initial<S>(url: string): (h: History<S>)
    ensures |h.entries| == 1 && h.index == 0 && h.Valid() && h.AtEnd()
    ensures h.Current() == Entry(None, url)
  {
    History([Entry(None, url)], 0)
  }

  /** `history.pushState(state, "", url)`. */
  function PushState<S>(h: History<S>, state: S, url: string): (r: History<S>)
    requires h.Valid()
    ensures r.Valid() && r.AtEnd()
    ensures r.index == h.index + 1 && r.Current() == Entry(Some(state), url)
    ensures r.entries[..r.index] == h.entries[..h.index + 1]
  {
    History(h.entries[..h.index + 1] + [Entry(Some(state), url)], h.index + 1)
  }

  /** `history.replaceState(state, "", url)`. */
  function ReplaceState<S>(h: History<S>, state: S, url: string): (r: History<S>)
    requires h.Valid()
    ensures r.Valid() && |r.entries| == |h.entries| && r.index == h.index
    ensures r.Current() == Entry(Some(state), url)
    ensures forall j :: 0 <= j < |h.entries| && j != h.index ==> r.entries[j] == h.entries[j]
  {
    History(h.entries[h.index := Entry(Some(state), url)], h.index)
  }

  /** `history.go(delta)`: a traversal outside the list does nothing. */
  function Go<S>(h: History<S>, delta: int): (r: History<S>)
    requires h.Valid()
    ensures r.Valid() && r.entries == h.entries
    ensures r.index == if 0 <= h.index + delta < |h.entries| then h.index + delta else h.index
  {
    if 0 <= h.index + delta < |h.entries| then History(h.entries, h.index + delta) else h
  }

  /** A push from the newest entry makes the history exactly one entry longer. */
  lemma PushAtEndGrowsByOne<S>(h: History<S>, state: S, url: string)
    requires h.Valid() && h.AtEnd()
    ensures |PushState(h, state, url).entries| == |h.entries| + 1
  {
  }

  /** Going back after a push returns to the entry that was current before it, and forward returns again. */
  lemma PushThenBack<S>(h: History<S>, state: S, url: string)
    requires h.Valid()
    ensures var back := Go(PushState(h, state, url), -1);
      back.Current() == h.Current() && Go(back, 1).Current() == Entry(Some(state), url)
  {
    var r := PushState(h, state, url);
    assert r.entries[h.index] == r.entries[..r.index][h.index];
  }
}
