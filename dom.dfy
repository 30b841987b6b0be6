/** The parts of the page the content script reads and writes. */
module Dom {
  import opened Wrappers

  /** An `<a>` element below the tweet node that has an href attribute, in
      document order; `role` is its role attribute ("" when it has none). */
  datatype Anchor = Anchor(href: string, role: string)

  /** A child element of a tweet's display container; only its inline
      `style.display` is modelled. */
  class Element {
    var display: string

    constructor (display: string)
      ensures this.display == display
    {
      this.display := display;
    }
  }

  /** The element three parents above the tweet's div[role="group"]. */
  class Container {
    var children: seq<Element>

    constructor (children: seq<Element>)
      ensures this.children == children
    {
      this.children := children;
    }
  }

  /** A tweet node, article[role="article"]. What processTweet reads from it
      is fixed: the text of every span below its [data-testid="tweetText"]
      element in document order (None when it has no such element), its
      anchors, and its display container (null when the group element or one
      of the three parents is missing). Its background colour and position
      are the styles the verdict callback writes. */
  class Article {
    const spans: Option<seq<string>>
    const anchors: seq<Anchor>
    const container: Container?
    var background: string
    var position: string

    constructor (spans: Option<seq<string>>, anchors: seq<Anchor>, container: Container?,
                 background: string, position: string)
      ensures this.spans == spans && this.anchors == anchors && this.container == container
      ensures this.background == background && this.position == position
    {
      this.spans := spans;
      this.anchors := anchors;
      this.container := container;
      this.background := background;
      this.position := position;
    }
  }

  /** DOM children are never repeated. */
  predicate Distinct<T(==)>(s: seq<T>) {
    forall i, j :: 0 <= i < j < |s| ==> s[i] != s[j]
  }

  /** A container child together with its display. */
  datatype Slot = Slot(node: Element, display: string)

  /** What the verdict callback can change: the container's children with
      their displays, and the tweet node's background colour and position. */
  datatype Scene = Scene(slots: seq<Slot>, background: string, position: string)

  /** The elements of the slots, in order. */
  function Nodes(slots: seq<Slot>): seq<Element>
  {
    seq(|slots|, k requires 0 <= k < |slots| => slots[k].node)
  }

  function SlotsOf(es: seq<Element>): (r: seq<Slot>)
    reads set e | e in es
    ensures |r| == |es| && forall k :: 0 <= k < |es| ==> r[k] == Slot(es[k], es[k].display)
  {
    if es == [] then [] else [Slot(es[0], es[0].display)] + SlotsOf(es[1..])
  }

  /** The scene of a tweet node and its display container. */
  function SceneOf(a: Article, c: Container): Scene
    reads a, c, set e | e in c.children
  {
    Scene(SlotsOf(c.children), a.background, a.position)
  }

  /** Everything the verdict callback may write for a tweet node. */
  function Footprint(a: Article): set<object>
    reads a
    reads if a.container == null then {} else {a.container}
  {
    if a.container == null then {a}
    else {a, a.container} + set e: object | e in a.container.children
  }
}
