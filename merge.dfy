/**
 * Merge dispatch of `htswapUpdate` (src/htswap.ts, lines 45-48): how a server element is
 * applied to a client element that sits at index `i` among its parent's children.
 */
module Merge {
  import opened Options
  import opened Dom

  /** The four positions of `insertAdjacentHTML`. */
  datatype Position = BeforeBegin | AfterBegin | BeforeEnd | AfterEnd

  datatype MergeOp = OuterHtml | InnerHtml | RemoveSelf | Insert(pos: Position)

  function LowerChar(c: char): char {
    if 'A' <= c <= 'Z' then (c as int + 32) as char else c
  }

  /** ASCII lower-casing, as the DOM uses for case-insensitive keywords. */
  function AsciiLower(s: string): string {
    if s == [] then [] else [LowerChar(s[0])] + AsciiLower(s[1..])
  }

  /** The position keyword `insertAdjacentHTML` accepts, matched ASCII case-insensitively. */
  function PositionOf(m: string): (r: Option<Position>)
    ensures r.Some? ==> MergeName(Insert(r.value)) == AsciiLower(m)
    ensures r.None? ==> AsciiLower(m) !in {"beforebegin", "afterbegin", "beforeend", "afterend"}
  {
    var l := AsciiLower(m);
    if l == "beforebegin" then Some(BeforeBegin)
    else if l == "afterbegin" then Some(AfterBegin)
    else if l == "beforeend" then Some(BeforeEnd)
    else if l == "afterend" then Some(AfterEnd)
    else None
  }

  /**
   * The operation a clause's merge string selects. The three named modes compare exactly;
   * any other string goes to `insertAdjacentHTML`, which throws a SyntaxError
   * (here `None`) for anything but its four positions.
   */
  function MergeOf(m: string): (r: Option<MergeOp>)
    ensures r == Some(OuterHtml) <==> m == "outerHTML"
    ensures r == Some(InnerHtml) <==> m == "innerHTML"
    ensures r == Some(RemoveSelf) <==> m == "remove"
    ensures r.None? <==> m !in {"outerHTML", "innerHTML", "remove"} && PositionOf(m).None?
    ensures forall p :: r == Some(Insert(p)) <==> m !in {"outerHTML", "innerHTML", "remove"} && PositionOf(m) == Some(p)
  {
    if m == "outerHTML" then Some(OuterHtml)
    else if m == "innerHTML" then Some(InnerHtml)
    else if m == "remove" then Some(RemoveSelf)
    else match PositionOf(m)
      case Some(p) => Some(Insert(p))
      case None => None
  }

  /** The merge string a target specification would write for each operation. */
  function MergeName(op: MergeOp): string {
    match op
    case OuterHtml => "outerHTML"
    case InnerHtml => "innerHTML"
    case RemoveSelf => "remove"
    case Insert(BeforeBegin) => "beforebegin"
    case Insert(AfterBegin) => "afterbegin"
    case Insert(BeforeEnd) => "beforeend"
    case Insert(AfterEnd) => "afterend"
  }

  /** Every operation is reachable from the specification syntax, by its canonical name. */
  lemma MergeNameRoundTrip(op: MergeOp)
    ensures MergeOf(MergeName(op)) == Some(op)
  {
    match op
    case Insert(p) =>
      PositionName(p);
      assert MergeName(op) != "outerHTML" && MergeName(op) != "innerHTML" && MergeName(op) != "remove";
    case _ =>
  }

  lemma PositionName(p: Position)
    ensures PositionOf(MergeName(Insert(p))) == Some(p)
  {
    var n := MergeName(Insert(p));
    NameIsLower(p);
    assert AsciiLower(n) == n;
    match p
    case BeforeBegin => assert n == "beforebegin";
    case AfterBegin => assert n == "afterbegin" != "beforebegin";
    case BeforeEnd => assert n == "beforeend" != "beforebegin" && n != "afterbegin";
    case AfterEnd => assert n == "afterend" != "beforebegin" && n != "afterbegin" && n != "beforeend";
  }

  lemma NameIsLower(p: Position)
    ensures AsciiLower(MergeName(Insert(p))) == MergeName(Insert(p))
  {
    LowerFixed(MergeName(Insert(p)));
  }

  predicate IsLower(s: string) {
    forall i :: 0 <= i < |s| ==> 'a' <= s[i] <= 'z'
  }

  lemma {:induction false} LowerFixed(s: string)
    requires IsLower(s)
    ensures AsciiLower(s) == s
  {
    if s != [] {
      assert IsLower(s[1..]) by {
        forall i | 0 <= i < |s[1..]| ensures 'a' <= s[1..][i] <= 'z' {
          assert s[1..][i] == s[i + 1];
        }
      }
      LowerFixed(s[1..]);
      assert s == [s[0]] + s[1..];
    }
  }

  lemma {:induction false} AsciiLowerIdempotent(s: string)
    ensures AsciiLower(AsciiLower(s)) == AsciiLower(s)
  {
    if s != [] {
      AsciiLowerIdempotent(s[1..]);
      var l := AsciiLower(s);
      assert l[0] == LowerChar(s[0]) && l[1..] == AsciiLower(s[1..]);
    }
  }

  /** Insertion positions ignore ASCII case: `AfterEnd` and `afterend` are the same mode. */
  lemma PositionIgnoresCase(m: string)
    ensures PositionOf(AsciiLower(m)) == PositionOf(m)
  {
    AsciiLowerIdempotent(m);
  }

  /**
   * Apply a server element to the client element `siblings[i]`:
   * `outerHTML` puts the server element in its place, except that a server `<body>`
   * loses its wrapper when its markup is re-parsed inside an ordinary parent, so its
   * children take the slot; `innerHTML` keeps the client wrapper (tag and attributes)
   * and takes the server element's children; `remove` deletes the client element; an
   * insertion position puts the server element's children (its inner HTML) before the
   * client element, as its first or last children, or after it.
   */
  function ApplyMerge(siblings: seq<Node>, i: nat, op: MergeOp, source: Element): (r: seq<Node>)
    requires i < |siblings| && siblings[i].Elem?
    ensures op == OuterHtml && !DropsWrapper(source) ==>
      |r| == |siblings| && r[i] == Elem(source) && Unchanged(siblings, r, i)
    ensures op == OuterHtml && DropsWrapper(source) ==>
      |r| + 1 == |siblings| + |source.children| &&
      r[..i] == siblings[..i] && r[i..i + |source.children|] == source.children &&
      r[i + |source.children|..] == siblings[i + 1..]
    ensures op == InnerHtml ==>
      |r| == |siblings| && Unchanged(siblings, r, i) &&
      r[i] == Elem(Element(siblings[i].el.tag, siblings[i].el.attrs, source.children))
    ensures op == RemoveSelf ==>
      |r| + 1 == |siblings| &&
      (forall j :: 0 <= j < i ==> r[j] == siblings[j]) &&
      (forall j :: i <= j < |r| ==> r[j] == siblings[j + 1])
    ensures op == Insert(AfterBegin) ==>
      |r| == |siblings| && Unchanged(siblings, r, i) &&
      r[i] == Elem(siblings[i].el.(children := source.children + siblings[i].el.children))
    ensures op == Insert(BeforeEnd) ==>
      |r| == |siblings| && Unchanged(siblings, r, i) &&
      r[i] == Elem(siblings[i].el.(children := siblings[i].el.children + source.children))
    ensures op == Insert(BeforeBegin) ==>
      |r| == |siblings| + |source.children| &&
      r[..i] == siblings[..i] && r[i..i + |source.children|] == source.children &&
      r[i + |source.children|..] == siblings[i..]
    ensures op == Insert(AfterEnd) ==>
      |r| == |siblings| + |source.children| &&
      r[..i + 1] == siblings[..i + 1] && r[i + 1..i + 1 + |source.children|] == source.children &&
      r[i + 1 + |source.children|..] == siblings[i + 1..]
  {
    var el := siblings[i].el;
    match op
    case OuterHtml =>
      if DropsWrapper(source) then siblings[..i] + source.children + siblings[i + 1..]
      else siblings[i := Elem(source)]
    case InnerHtml => siblings[i := Elem(el.(children := source.children))]
    case RemoveSelf => siblings[..i] + siblings[i + 1..]
    case Insert(BeforeBegin) => siblings[..i] + source.children + siblings[i..]
    case Insert(AfterBegin) => siblings[i := Elem(el.(children := source.children + el.children))]
    case Insert(BeforeEnd) => siblings[i := Elem(el.(children := el.children + source.children))]
    case Insert(AfterEnd) => siblings[..i + 1] + source.children + siblings[i + 1..]
  }

  /**
   * The HTML fragment parser ignores a `<body>` start tag met inside an ordinary element,
   * so the serialised `<body>` of a response re-parses as its children alone.
   */
  predicate DropsWrapper(source: Element) {
    source.tag == "body"
  }

  /** Every sibling other than the one at `i` is the same in `a` and `b`. */
  predicate Unchanged(a: seq<Node>, b: seq<Node>, i: nat)
    requires |a| == |b|
  {
    forall j :: 0 <= j < |a| && j != i ==> b[j] == a[j]
  }

  /**
   * Replacing merges are idempotent: swapping the same content in twice changes nothing
   * more. (An outer merge of a server `<body>` is not: the second one replaces the first
   * spliced child.)
   */
  lemma ReplaceIdempotent(siblings: seq<Node>, i: nat, op: MergeOp, source: Element)
    requires i < |siblings| && siblings[i].Elem?
    requires op == InnerHtml || (op == OuterHtml && !DropsWrapper(source))
    ensures var once := ApplyMerge(siblings, i, op, source);
      ApplyMerge(once, i, op, source) == once
  {
    var once := ApplyMerge(siblings, i, op, source);
    var twice := ApplyMerge(once, i, op, source);
    assert |twice| == |once|;
    forall j | 0 <= j < |once| ensures twice[j] == once[j] {}
  }

  /**
   * Insertions are not idempotent: inserting again at the client element adds the
   * server element's children a second time, next to the first copy.
   */
  lemma InsertAccumulates(siblings: seq<Node>, i: nat, p: Position, source: Element)
    requires i < |siblings| && siblings[i].Elem?
    ensures var k := if p == BeforeBegin then i + |source.children| else i;
      var once := ApplyMerge(siblings, i, Insert(p), source);
      k < |once| && once[k].Elem? &&
      var twice := ApplyMerge(once, k, Insert(p), source);
      var c := source.children;
      var el := siblings[i].el;
      match p
      case BeforeBegin => once[k] == siblings[i] && twice == siblings[..i] + c + c + siblings[i..]
      case AfterEnd => once[k] == siblings[i] && twice == siblings[..i + 1] + c + c + siblings[i + 1..]
      case AfterBegin => twice == siblings[i := Elem(el.(children := c + c + el.children))]
      case BeforeEnd => twice == siblings[i := Elem(el.(children := el.children + c + c))]
  {
    match p
    case BeforeBegin => InsertBeforeTwice(siblings, i, source);
    case AfterEnd => InsertAfterTwice(siblings, i, source);
    case AfterBegin => InsertFirstTwice(siblings, i, source);
    case BeforeEnd => InsertLastTwice(siblings, i, source);
  }

  lemma InsertBeforeTwice(siblings: seq<Node>, i: nat, source: Element)
    requires i < |siblings| && siblings[i].Elem?
    ensures var c := source.children;
      var once := ApplyMerge(siblings, i, Insert(BeforeBegin), source);
      i + |c| < |once| && once[i + |c|] == siblings[i] &&
      ApplyMerge(once, i + |c|, Insert(BeforeBegin), source) == siblings[..i] + c + c + siblings[i..]
  {
    var c := source.children;
    var once := ApplyMerge(siblings, i, Insert(BeforeBegin), source);
    assert once == siblings[..i] + c + siblings[i..];
    assert once[..i + |c|] == siblings[..i] + c;
    assert once[i + |c|..] == siblings[i..];
  }

  lemma InsertAfterTwice(siblings: seq<Node>, i: nat, source: Element)
    requires i < |siblings| && siblings[i].Elem?
    ensures var c := source.children;
      var once := ApplyMerge(siblings, i, Insert(AfterEnd), source);
      i < |once| && once[i] == siblings[i] &&
      ApplyMerge(once, i, Insert(AfterEnd), source) == siblings[..i + 1] + c + c + siblings[i + 1..]
  {
    var c := source.children;
    var once := ApplyMerge(siblings, i, Insert(AfterEnd), source);
    assert once == siblings[..i + 1] + c + siblings[i + 1..];
    assert once[..i + 1] == siblings[..i + 1];
    assert once[i + 1..] == c + siblings[i + 1..];
  }

  lemma InsertFirstTwice(siblings: seq<Node>, i: nat, source: Element)
    requires i < |siblings| && siblings[i].Elem?
    ensures var c := source.children;
      var el := siblings[i].el;
      var once := ApplyMerge(siblings, i, Insert(AfterBegin), source);
      i < |once| && once[i].Elem? &&
      ApplyMerge(once, i, Insert(AfterBegin), source) == siblings[i := Elem(el.(children := c + c + el.children))]
  {
    var c := source.children;
    var el := siblings[i].el;
    var once := ApplyMerge(siblings, i, Insert(AfterBegin), source);
    assert once == siblings[i := Elem(el.(children := c + el.children))];
    assert c + (c + el.children) == c + c + el.children;
  }

  lemma InsertLastTwice(siblings: seq<Node>, i: nat, source: Element)
    requires i < |siblings| && siblings[i].Elem?
    ensures var c := source.children;
      var el := siblings[i].el;
      var once := ApplyMerge(siblings, i, Insert(BeforeEnd), source);
      i < |once| && once[i].Elem? &&
      ApplyMerge(once, i, Insert(BeforeEnd), source) == siblings[i := Elem(el.(children := el.children + c + c))]
  {
    var c := source.children;
    var el := siblings[i].el;
    var once := ApplyMerge(siblings, i, Insert(BeforeEnd), source);
    assert once == siblings[i := Elem(el.(children := el.children + c))];
  }

  /** Removing after an outer replacement is the same as removing: outer replacement keeps the slot. */
  lemma OuterKeepsSlot(siblings: seq<Node>, i: nat, source: Element)
    requires i < |siblings| && siblings[i].Elem? && !DropsWrapper(source)
    ensures ApplyMerge(ApplyMerge(siblings, i, OuterHtml, source), i, RemoveSelf, source) ==
            ApplyMerge(siblings, i, RemoveSelf, source)
  {
    var a := ApplyMerge(ApplyMerge(siblings, i, OuterHtml, source), i, RemoveSelf, source);
    var b := ApplyMerge(siblings, i, RemoveSelf, source);
    assert |a| == |b|;
    forall j | 0 <= j < |a| ensures a[j] == b[j] {}
  }

  /**
   * An outer merge shows the same text whether or not the server wrapper survives:
   * a server `<body>` and an ordinary element with the same children read alike.
   */
  lemma {:induction false} OuterText(siblings: seq<Node>, i: nat, source: Element)
    requires i < |siblings| && siblings[i].Elem?
    ensures TextContent(ApplyMerge(siblings, i, OuterHtml, source)) ==
      TextContent(siblings[..i]) + TextContent(source.children) + TextContent(siblings[i + 1..])
  {
    var r := ApplyMerge(siblings, i, OuterHtml, source);
    if DropsWrapper(source) {
      assert r == siblings[..i] + source.children + siblings[i + 1..];
      TextContentAppend(siblings[..i] + source.children, siblings[i + 1..]);
      TextContentAppend(siblings[..i], source.children);
    } else {
      assert r == siblings[..i] + [Elem(source)] + siblings[i + 1..];
      TextContentAppend(siblings[..i] + [Elem(source)], siblings[i + 1..]);
      TextContentAppend(siblings[..i], [Elem(source)]);
      assert [Elem(source)][1..] == [];
    }
  }

  /** `beforebegin` on an element is `afterend` on the element just before it. */
  lemma BeforeBeginIsAfterEndOfPrevious(siblings: seq<Node>, i: nat, source: Element)
    requires 0 < i < |siblings| && siblings[i].Elem? && siblings[i - 1].Elem?
    ensures ApplyMerge(siblings, i, Insert(BeforeBegin), source) ==
            ApplyMerge(siblings, i - 1, Insert(AfterEnd), source)
  {
    assert siblings[..i - 1 + 1] == siblings[..i];
  }

  /** `afterbegin` is an inner replacement by the server children followed by the old children. */
  lemma AfterBeginIsPrependingInner(siblings: seq<Node>, i: nat, source: Element)
    requires i < |siblings| && siblings[i].Elem?
    ensures ApplyMerge(siblings, i, Insert(AfterBegin), source) ==
            ApplyMerge(siblings, i, InnerHtml, source.(children := source.children + siblings[i].el.children))
  {
  }

  /** The text a parent shows after an insertion beside the client element. */
  lemma {:induction false} InsertBesideText(siblings: seq<Node>, i: nat, p: Position, source: Element)
    requires i < |siblings| && siblings[i].Elem?
    requires p == BeforeBegin || p == AfterEnd
    ensures var cut := if p == BeforeBegin then i else i + 1;
      TextContent(ApplyMerge(siblings, i, Insert(p), source)) ==
        TextContent(siblings[..cut]) + TextContent(source.children) + TextContent(siblings[cut..])
  {
    var cut := if p == BeforeBegin then i else i + 1;
    var r := ApplyMerge(siblings, i, Insert(p), source);
    assert r == siblings[..cut] + source.children + siblings[cut..];
    TextContentAppend(siblings[..cut] + source.children, siblings[cut..]);
    TextContentAppend(siblings[..cut], source.children);
  }

  /**
   * The merge-mode example of the unit tests: a list holding `First` and `Fourth`,
   * the server's `Second` inserted after the first and `Third` before the second,
   * reads `FirstSecondThirdFourth` (the tests' whitespace is left out).
   */
  lemma MergeModesExample()
    ensures
      var first := Elem(Element("div", map["id" := "target"], [Text("First")]));
      var fourth := Elem(Element("div", map["id" := "target4"], [Text("Fourth")]));
      var second := Element("div", map["id" := "target"], [Text("Second")]);
      var third := Element("div", map["id" := "target4"], [Text("Third")]);
      var step1 := ApplyMerge([first, fourth], 0, Insert(AfterEnd), second);
      |step1| == 3 && step1[2] == fourth &&
      TextContent(ApplyMerge(step1, 2, Insert(BeforeBegin), third)) == "First" + "Second" + "Third" + "Fourth"
  {
    var first := Elem(Element("div", map["id" := "target"], [Text("First")]));
    var fourth := Elem(Element("div", map["id" := "target4"], [Text("Fourth")]));
    var second := Element("div", map["id" := "target"], [Text("Second")]);
    var third := Element("div", map["id" := "target4"], [Text("Third")]);
    assert TextContent([Text("First")]) == "First";
    assert TextContent([Text("Fourth")]) == "Fourth";
    TwoInserts(first, fourth, second, third);
  }

  /** The two insertions of the example above, for any siblings with those texts. */
  lemma TwoInserts(first: Node, fourth: Node, second: Element, third: Element)
    requires first.Elem? && fourth.Elem?
    requires second.children == [Text("Second")] && third.children == [Text("Third")]
    ensures var step1 := ApplyMerge([first, fourth], 0, Insert(AfterEnd), second);
      |step1| == 3 && step1[2] == fourth &&
      TextContent(ApplyMerge(step1, 2, Insert(BeforeBegin), third)) ==
        TextOf(first) + "Second" + "Third" + TextOf(fourth)
  {
    var step1 := ApplyMerge([first, fourth], 0, Insert(AfterEnd), second);
    InsertAfterExample(first, fourth, second);
    assert step1 == [first, Text("Second")] + [fourth];
    InsertBeforeExample([first, Text("Second")], fourth, third);
    assert [first, Text("Second")] + [Text("Third")] + [fourth] == [first, Text("Second"), Text("Third"), fourth];
    TextOfFour(first, Text("Second"), Text("Third"), fourth);
  }

  /** The text of four siblings, one after the other. */
  lemma TextOfFour(a: Node, b: Node, c: Node, d: Node)
    ensures TextContent([a, b, c, d]) == TextOf(a) + TextOf(b) + TextOf(c) + TextOf(d)
  {
    assert [d][1..] == [];
    assert TextContent([d]) == TextOf(d) + TextContent([]);
    assert [c, d][1..] == [d];
    assert TextContent([c, d]) == TextOf(c) + TextContent([d]);
    assert [b, c, d][1..] == [c, d];
    assert TextContent([b, c, d]) == TextOf(b) + TextContent([c, d]);
    assert [a, b, c, d][1..] == [b, c, d];
  }

  /** `afterend` on the first of two siblings puts the source's children between them. */
  lemma InsertAfterExample(first: Node, fourth: Node, second: Element)
    requires first.Elem? && second.children == [Text("Second")]
    ensures ApplyMerge([first, fourth], 0, Insert(AfterEnd), second) == [first, Text("Second"), fourth]
  {
    assert [first, fourth][..1] == [first] && [first, fourth][1..] == [fourth];
  }

  /** `beforebegin` on the last sibling puts the source's children just before it. */
  lemma InsertBeforeExample(init: seq<Node>, last: Node, third: Element)
    requires |init| == 2 && last.Elem? && third.children == [Text("Third")]
    ensures ApplyMerge(init + [last], 2, Insert(BeforeBegin), third) == init + [Text("Third")] + [last]
  {
    assert (init + [last])[..2] == init && (init + [last])[2..] == [last];
  }
}
