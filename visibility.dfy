/** The verdict callback of processTweet: flagging a tweet hides the inside of
    its display container behind a warning, and the warning's button reveals
    it again (extension/content.js). */
module Visibility {
  import opened Dom

  /** The only label that leads to a change on the page. */
  const FlagLabel := "cyberbullying"
  /** The tweet node's background while it is warned. */
  const WarnedBackground := "#b00020"

  /** The reply the content script's callback receives. */
  datatype Response =
    | Absent                    // no reply object: `response?.` stops the chain
    | ErrorReply                // {error: true}: `response.label` is undefined and reading its `.label` throws
    | Classified(prediction: string) // {label: {label, confidence}}: the classifier's label

  /** What the click handler closes over once a tweet is warned. */
  datatype Record = Record(root: Article, container: Container, hidden: seq<Element>, warning: Element)

  /** How the callback ended. Only Warned changes the page. */
  datatype Outcome =
    | TypeErrorThrown
    | NotFlagged
    | ShapeMismatch
    | Warned(record: Record)

  /** Indices 1 .. |s| - 2: everything but the first and the last. */
  function Interior<T>(s: seq<T>): seq<T>
    requires |s| >= 2
  {
    s[1..|s| - 1]
  }

  /** Every slot's display set to "none". */
  function HideAll(slots: seq<Slot>): seq<Slot>
  {
    if slots == [] then [] else [Slot(slots[0].node, "none")] + HideAll(slots[1..])
  }

  /** HideAll keeps every node in its place and only changes displays. */
  lemma {:induction false} HideAllAt(slots: seq<Slot>)
    ensures |HideAll(slots)| == |slots|
    ensures forall k :: 0 <= k < |slots| ==> HideAll(slots)[k] == Slot(slots[k].node, "none")
  {
    if slots != [] {
      HideAllAt(slots[1..]);
    }
  }

  /** The scene after warning: the interior hidden, the warning (display
      "flex") inserted before the second child, the tweet node recoloured. */
  function WarnScene(s: Scene, w: Element): Scene
    requires |s.slots| > 2
  {
    var n := |s.slots|;
    Scene([s.slots[0], Slot(w, "flex")] + HideAll(s.slots[1..n - 1]) + [s.slots[n - 1]],
          WarnedBackground, "relative")
  }

  /** The display of every hidden element reset to "". */
  function ClearHidden(slots: seq<Slot>, hidden: seq<Element>): seq<Slot>
  {
    seq(|slots|, k requires 0 <= k < |slots| =>
          Slot(slots[k].node, if slots[k].node in hidden then "" else slots[k].display))
  }

  /** The slots with the given node taken out. */
  function DropNode(slots: seq<Slot>, w: Element): seq<Slot>
  {
    if slots == [] then []
    else (if slots[0].node == w then [] else [slots[0]]) + DropNode(slots[1..], w)
  }

  /** The scene after the reveal button: hidden elements shown, the background
      cleared, the warning removed; the position stays as it was. */
  function RevealScene(s: Scene, hidden: seq<Element>, w: Element): Scene {
    Scene(DropNode(ClearHidden(s.slots, hidden), w), "", s.position)
  }

  /** The slots with every interior display set to "". */
  function ClearInterior(slots: seq<Slot>): seq<Slot>
  {
    seq(|slots|, k requires 0 <= k < |slots| =>
          if 0 < k < |slots| - 1 then Slot(slots[k].node, "") else slots[k])
  }

  /** Warning hides exactly the children at 1 .. n-2, keeps the first and the
      last as they were, puts the warning at index 1 (n + 1 children), and
      gives the tweet node the red background and relative position. */
  lemma WarnHidesInterior(s: Scene, w: Element)
    requires |s.slots| > 2
    ensures var r := WarnScene(s, w);
            var n := |s.slots|;
            |r.slots| == n + 1
            && Nodes(r.slots) == [s.slots[0].node, w] + Nodes(s.slots)[1..]
            && r.slots[0] == s.slots[0] && r.slots[1] == Slot(w, "flex") && r.slots[n] == s.slots[n - 1]
            && (forall k :: 2 <= k < n ==> r.slots[k] == Slot(s.slots[k - 1].node, "none"))
            && r.background == WarnedBackground && r.position == "relative"
  {
    var r := WarnScene(s, w);
    var n := |s.slots|;
    var head := [s.slots[0], Slot(w, "flex")];
    var mid := HideAll(s.slots[1..n - 1]);
    HideAllAt(s.slots[1..n - 1]);
    assert r.slots == head + mid + [s.slots[n - 1]];
    forall k | 2 <= k < n ensures r.slots[k] == Slot(s.slots[k - 1].node, "none") {
      assert r.slots[k] == mid[k - 2];
    }
    assert Nodes(r.slots) == [s.slots[0].node, w] + Nodes(s.slots)[1..];
  }

  lemma {:induction false} DropNodeAppend(a: seq<Slot>, b: seq<Slot>, w: Element)
    ensures DropNode(a + b, w) == DropNode(a, w) + DropNode(b, w)
  {
    if a == [] {
      assert a + b == b;
    } else {
      assert (a + b)[0] == a[0];
      assert (a + b)[1..] == a[1..] + b;
      DropNodeAppend(a[1..], b, w);
    }
  }

  lemma {:induction false} DropNodeAbsent(slots: seq<Slot>, w: Element)
    requires forall k :: 0 <= k < |slots| ==> slots[k].node != w
    ensures DropNode(slots, w) == slots
  {
    if slots != [] {
      DropNodeAbsent(slots[1..], w);
      assert slots == [slots[0]] + slots[1..];
    }
  }

  /** Revealing a freshly warned scene gives back the original children in
      their original order with every interior display set to "", the first
      and last children untouched, the background cleared and the position
      left "relative". */
  lemma RevealAfterWarn(s: Scene, w: Element)
    requires |s.slots| > 2 && Distinct(Nodes(s.slots)) && w !in Nodes(s.slots)
    ensures RevealScene(WarnScene(s, w), Interior(Nodes(s.slots)), w)
            == Scene(ClearInterior(s.slots), "", "relative")
  {
    ClearWarned(s, w);
    DropWarning(ClearHidden(WarnScene(s, w).slots, Interior(Nodes(s.slots))), s.slots, w);
  }

  /** The warned children with the recorded ones shown again, less the
      warning, are the original children with a cleared interior. */
  lemma DropWarning(cleared: seq<Slot>, S: seq<Slot>, w: Element)
    requires |S| > 2 && |cleared| == |S| + 1 && w !in Nodes(S)
    requires cleared[0] == S[0] && cleared[1] == Slot(w, "flex") && cleared[|S|] == S[|S| - 1]
    requires forall k :: 2 <= k < |S| ==> cleared[k] == Slot(S[k - 1].node, "")
    ensures DropNode(cleared, w) == ClearInterior(S)
  {
    var n := |S|;
    assert forall k :: 0 <= k < n ==> S[k].node != w by {
      forall k | 0 <= k < n ensures S[k].node != w {
        assert Nodes(S)[k] == S[k].node;
      }
    }
    DropNodeOnce(cleared, 1, w);
    var r := cleared[..1] + cleared[2..];
    assert forall k :: 0 <= k < n ==> r[k] == ClearInterior(S)[k] by {
      forall k | 0 <= k < n ensures r[k] == ClearInterior(S)[k] {
        assert r[k] == cleared[if k == 0 then 0 else k + 1];
      }
    }
  }

  /** Taking out a node that occurs once removes exactly that slot. */
  lemma {:induction false} DropNodeOnce(slots: seq<Slot>, i: nat, w: Element)
    requires i < |slots| && slots[i].node == w
    requires forall k :: 0 <= k < |slots| && k != i ==> slots[k].node != w
    ensures DropNode(slots, w) == slots[..i] + slots[i + 1..]
  {
    if i == 0 {
      DropNodeAbsent(slots[1..], w);
    } else {
      DropNodeOnce(slots[1..], i - 1, w);
      assert slots[..i] == [slots[0]] + slots[1..][..i - 1];
      assert slots[i + 1..] == slots[1..][i..];
    }
  }

  /** Clearing the recorded children in a warned scene shows the interior
      again and leaves the first child, the warning and the last child as
      they were. */
  lemma ClearWarned(s: Scene, w: Element)
    requires |s.slots| > 2 && Distinct(Nodes(s.slots)) && w !in Nodes(s.slots)
    ensures var S := s.slots;
            var n := |S|;
            var cleared := ClearHidden(WarnScene(s, w).slots, Interior(Nodes(S)));
            |cleared| == n + 1 && cleared[0] == S[0] && cleared[1] == Slot(w, "flex")
            && cleared[n] == S[n - 1]
            && forall k :: 2 <= k < n ==> cleared[k] == Slot(S[k - 1].node, "")
  {
    var S := s.slots;
    var n := |S|;
    var hidden := Interior(Nodes(S));
    var warned := WarnScene(s, w).slots;
    var cleared := ClearHidden(warned, hidden);
    InteriorMembers(S, w);
    WarnHidesInterior(s, w);
    forall k | 2 <= k < n ensures cleared[k] == Slot(S[k - 1].node, "") {
      assert warned[k] == Slot(S[k - 1].node, "none");
    }
  }

  /** With distinct children, the recorded interior holds the children at
      1 .. n-2 and neither the first, the last, nor the warning. */
  lemma InteriorMembers(S: seq<Slot>, w: Element)
    requires |S| > 2 && Distinct(Nodes(S)) && w !in Nodes(S)
    ensures var hidden := Interior(Nodes(S));
            (forall k :: 1 <= k < |S| - 1 ==> S[k].node in hidden)
            && S[0].node !in hidden && S[|S| - 1].node !in hidden && w !in hidden
  {
    var n := |S|;
    var hidden := Interior(Nodes(S));
    forall k | 1 <= k < n - 1 ensures S[k].node in hidden {
      assert hidden[k - 1] == S[k].node;
    }
    forall j | 0 <= j < |hidden|
      ensures hidden[j] != S[0].node && hidden[j] != S[n - 1].node && hidden[j] != w
    {
      assert hidden[j] == Nodes(S)[j + 1];
      assert Nodes(S)[0] == S[0].node && Nodes(S)[n - 1] == S[n - 1].node;
    }
  }

  /** Warning and then revealing leaves the scene exactly as it was if and
      only if every interior child had display "", the background was "" and
      the position was already "relative". */
  lemma RoundTripExact(s: Scene, w: Element)
    requires |s.slots| > 2 && Distinct(Nodes(s.slots)) && w !in Nodes(s.slots)
    ensures RevealScene(WarnScene(s, w), Interior(Nodes(s.slots)), w) == s
            <==> (forall k :: 0 < k < |s.slots| - 1 ==> s.slots[k].display == "")
                 && s.background == "" && s.position == "relative"
  {
    RevealAfterWarn(s, w);
    var c := ClearInterior(s.slots);
    if forall k :: 0 < k < |s.slots| - 1 ==> s.slots[k].display == "" {
      assert c == s.slots;
    } else {
      var k :| 0 < k < |s.slots| - 1 && s.slots[k].display != "";
      assert c[k] != s.slots[k];
    }
  }

  /** The verdict callback (the body of the sendMessage callback): only the
      label "cyberbullying" and a container with more than two children lead
      to a change; then children 1 .. n-2 are hidden and recorded in order,
      the warning goes in before the second child, and the tweet node turns
      red. */
  method OnVerdict(a: Article, response: Response) returns (outcome: Outcome)
    requires a.container != null ==> Distinct(a.container.children)
    modifies Footprint(a)
    ensures outcome.Warned? <==>
              response == Classified(FlagLabel) && a.container != null && |old(a.container.children)| > 2
    ensures response.ErrorReply? ==> outcome == TypeErrorThrown
    ensures !outcome.Warned? ==>
              unchanged(a)
              && (a.container != null ==>
                    unchanged(a.container) && forall e :: e in a.container.children ==> unchanged(e))
    ensures outcome.Warned? ==>
              var rec := outcome.record;
              a.container != null && |old(a.container.children)| > 2
              && rec.root == a && rec.container == a.container && fresh(rec.warning)
              && rec.hidden == Interior(old(a.container.children))
              && SceneOf(a, a.container) == WarnScene(old(SceneOf(a, a.container)), rec.warning)
  {
    if response.ErrorReply? {
      return TypeErrorThrown;
    }
    if response.Absent? || response.prediction != FlagLabel {
      return NotFlagged;
    }
    var c := a.container;
    if c == null || |c.children| <= 2 {
      return ShapeMismatch;
    }
    ghost var before := SceneOf(a, c);
    var hidden := HideInterior(c);
    var w := new Element("flex");
    c.children := c.children[..1] + [w] + c.children[1..];
    a.background := WarnedBackground;
    a.position := "relative";
    outcome := Warned(Record(a, c, hidden, w));
    WarnedSlots(before, c.children, w);
  }

  /** The hiding loop: children 1 .. n-2 get display "none" and are recorded
      in index order; the first and the last keep their display. */
  method HideInterior(c: Container) returns (hidden: seq<Element>)
    requires |c.children| > 2 && Distinct(c.children)
    modifies set e | e in c.children
    ensures hidden == Interior(c.children)
    ensures forall k :: 0 <= k < |c.children| ==>
              c.children[k].display == if 0 < k < |c.children| - 1 then "none" else old(c.children[k].display)
  {
    hidden := [];
    var i := 1;
    while i < |c.children| - 1
      invariant 1 <= i <= |c.children| - 1
      invariant hidden == c.children[1..i]
      invariant forall k :: 1 <= k < i ==> c.children[k].display == "none"
      invariant forall k :: 0 <= k < |c.children| && !(1 <= k < i) ==>
                  c.children[k].display == old(c.children[k].display)
    {
      c.children[i].display := "none";
      hidden := hidden + [c.children[i]];
      i := i + 1;
    }
  }

  /** The children after the hiding loop and the insertion, with their
      displays, are the slots WarnScene describes. */
  lemma WarnedSlots(before: Scene, cs: seq<Element>, w: Element)
    requires |before.slots| > 2 && |cs| == |before.slots| + 1
    requires cs[0] == before.slots[0].node && cs[0].display == before.slots[0].display
    requires cs[1] == w && w.display == "flex"
    requires forall k :: 2 <= k < |before.slots| ==>
               cs[k] == before.slots[k - 1].node && cs[k].display == "none"
    requires var n := |before.slots|;
             cs[n] == before.slots[n - 1].node && cs[n].display == before.slots[n - 1].display
    ensures SlotsOf(cs) == WarnScene(before, w).slots
  {
    var warned := WarnScene(before, w).slots;
    WarnHidesInterior(before, w);
    SlotsOfPointwise(cs, warned);
  }

  /** The slots of a child list are pinned down by their nodes and
      displays. */
  lemma SlotsOfPointwise(cs: seq<Element>, slots: seq<Slot>)
    requires |cs| == |slots|
    requires forall k :: 0 <= k < |cs| ==> slots[k] == Slot(cs[k], cs[k].display)
    ensures SlotsOf(cs) == slots
  {
  }

  /** The reveal button's click handler: every recorded child's display set to
      "", the tweet node's background cleared, the warning removed. */
  method Reveal(rec: Record)
    modifies rec.root, rec.container, set e | e in rec.hidden
    ensures forall e :: e in rec.hidden ==> e.display == ""
    ensures SceneOf(rec.root, rec.container)
            == RevealScene(old(SceneOf(rec.root, rec.container)), rec.hidden, rec.warning)
  {
    var c := rec.container;
    ShowAll(c, rec.hidden);
    ghost var shown := SlotsOf(c.children);
    rec.root.background := "";
    RemoveChild(c, rec.warning);
    assert SlotsOf(c.children) == DropNode(shown, rec.warning);
  }

  /** `hidden.forEach((child) => child.style.display = "")`: seen from the
      container, exactly the recorded children get display "". */
  method ShowAll(c: Container, hidden: seq<Element>)
    modifies set e | e in hidden
    ensures forall e :: e in hidden ==> e.display == ""
    ensures SlotsOf(c.children) == ClearHidden(old(SlotsOf(c.children)), hidden)
  {
    var i := 0;
    while i < |hidden|
      invariant 0 <= i <= |hidden|
      invariant forall k :: 0 <= k < i ==> hidden[k].display == ""
    {
      hidden[i].display := "";
      i := i + 1;
    }
  }

  /** A flagged tweet whose reveal button is then clicked: the container
      gets back exactly its original children in their original order, the
      interior ones with display "", the background is cleared and the
      position stays "relative". */
  method WarnThenReveal(a: Article) returns (outcome: Outcome)
    requires a.container != null && |a.container.children| > 2 && Distinct(a.container.children)
    modifies Footprint(a)
    ensures outcome.Warned?
    ensures a.container.children == old(a.container.children)
    ensures SceneOf(a, a.container)
            == Scene(ClearInterior(old(SceneOf(a, a.container)).slots), "", "relative")
  {
    ghost var before := SceneOf(a, a.container);
    NodesOfSlots(a.container.children);
    outcome := OnVerdict(a, Classified(FlagLabel));
    var rec := outcome.record;
    assert rec.warning !in Nodes(before.slots);
    Reveal(rec);
    RevealAfterWarn(before, rec.warning);
    NodesOfSlots(a.container.children);
    NodesOfClearInterior(before.slots);
  }

  lemma NodesOfSlots(es: seq<Element>)
    ensures Nodes(SlotsOf(es)) == es
  {
  }

  lemma NodesOfClearInterior(slots: seq<Slot>)
    ensures Nodes(ClearInterior(slots)) == Nodes(slots)
  {
  }

  /** `warningDiv.remove()`: the warning taken out of the container. */
  method RemoveChild(c: Container, w: Element)
    modifies c
    ensures SlotsOf(c.children) == DropNode(old(SlotsOf(c.children)), w)
  {
    SlotsOfRemove(c.children, w);
    c.children := Remove(c.children, w);
  }

  /** Node.remove on a container's child list. */
  function Remove(es: seq<Element>, w: Element): seq<Element>
  {
    if es == [] then [] else (if es[0] == w then [] else [es[0]]) + Remove(es[1..], w)
  }

  lemma {:induction false} SlotsOfRemove(es: seq<Element>, w: Element)
    ensures SlotsOf(Remove(es, w)) == DropNode(SlotsOf(es), w)
  {
    if es != [] {
      SlotsOfRemove(es[1..], w);
      assert SlotsOf(es) == [Slot(es[0], es[0].display)] + SlotsOf(es[1..]);
      var head := if es[0] == w then [] else [es[0]];
      SlotsOfAppend(head, Remove(es[1..], w));
    }
  }

  lemma {:induction false} SlotsOfAppend(a: seq<Element>, b: seq<Element>)
    ensures SlotsOf(a + b) == SlotsOf(a) + SlotsOf(b)
  {
    assert forall k :: 0 <= k < |a + b| ==> SlotsOf(a + b)[k] == (SlotsOf(a) + SlotsOf(b))[k];
  }
}
