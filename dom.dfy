/**
 * The browser collaborators of the swap engine, reduced to values:
 * markup as a tree of element and text nodes, the live document as a lookup from
 * selector to an element reference, a parsed response as a lookup from selector to
 * element, and a fetch as its outcome.
 */
module Dom {
  import opened Options

  /** A DOM node as far as merging cares: an element or a run of text. */
  datatype Node = Elem(el: Element) | Text(text: string)

  datatype Element = Element(tag: string, attrs: map<string, string>, children: seq<Node>)

  /** The identity of an element of the live document. */
  type ElemRef = nat

  /**
   * The live document at the moment `htswapUpdate` resolves its targets:
   * what `document.querySelector(sel)` returns, and `document.body`.
   */
  datatype ClientView = ClientView(query: map<string, ElemRef>, body: Option<ElemRef>) {
    /** `document.querySelector(sel)`, `null` as `None`. */
    function Find(sel: string): Option<ElemRef> {
      if sel in query then Some(query[sel]) else None
    }
  }

  /** A response parsed by `DOMParser`: `doc.querySelector(sel)` and `doc.body`. */
  datatype ParsedDoc = ParsedDoc(query: map<string, Element>, body: Option<Element>) {
    function Find(sel: string): Option<Element> {
      if sel in query then Some(query[sel]) else None
    }
  }

  /**
   * A selector that `querySelector` rejects with a SyntaxError because it names nothing at
   * all: the empty string or CSS whitespace only. (Other malformed selectors are not told
   * apart from selectors that match nothing.)
   */
  predicate BlankSelector(s: string)
    ensures BlankSelector(s) <==> forall c :: c in s ==> CssSpace(c)
  {
    forall i :: 0 <= i < |s| ==> CssSpace(s[i])
  }

  /** CSS whitespace: space, tab, line feed, carriage return and form feed. */
  predicate CssSpace(c: char) {
    c == ' ' || c == '\t' || c == '\n' || c == '\r' || c == 12 as char
  }

  /** What `fetch(...).then(r => r.text())` settles to; a timeout rejects like a network error. */
  datatype FetchOutcome = Response(text: string) | NetworkError

  /** `textContent` of one node. */
  function TextOf(n: Node): string
    decreases n, 1
  {
    match n
    case Text(t) => t
    case Elem(e) => TextContent(e.children)
  }

  /** `textContent` of a run of sibling nodes. */
  function TextContent(ns: seq<Node>): string
    decreases ns, 0
  {
    if ns == [] then "" else TextOf(ns[0]) + TextContent(ns[1..])
  }

  /** Text content distributes over a split of the sibling list. */
  lemma {:induction false} TextContentAppend(a: seq<Node>, b: seq<Node>)
    ensures TextContent(a + b) == TextContent(a) + TextContent(b)
    decreases |a|
  {
    if a == [] {
      assert a + b == b;
    } else {
      assert (a + b)[0] == a[0];
      assert (a + b)[1..] == a[1..] + b;
      TextContentAppend(a[1..], b);
    }
  }
}
