/** The MutationObserver callback: every tweet node inside the added nodes
    of a batch is handed to processTweet (extension/content.js). */
module Watcher {
  import opened Wrappers
  import opened Dom
  import opened Pipeline

  /** A node of the page: whether it is an HTMLElement, the tweet node it is
      when it matches article[role="article"], and its children in order. */
  datatype Node = Node(html: bool, tweet: Option<Article>, kids: seq<Node>)

  /** One MutationRecord: the nodes it added, in order. */
  datatype Mutation = Mutation(addedNodes: seq<Node>)

  /** The node itself when it matches the tweet selector. */
  function SelfMatch(n: Node): seq<Article> {
    if n.tweet.Some? then [n.tweet.value] else []
  }

  /** The matching nodes of a subtree, the root first. */
  function Subtree(n: Node): seq<Article>
    decreases n, |n.kids| + 1
  {
    SelfMatch(n) + DescendantsFrom(n, 0)
  }

  /** The matching nodes below the children of n from the i-th on. */
  function DescendantsFrom(n: Node, i: nat): seq<Article>
    requires i <= |n.kids|
    decreases n, |n.kids| - i
  {
    if i == |n.kids| then [] else Subtree(n.kids[i]) + DescendantsFrom(n, i + 1)
  }

  /** querySelectorAll('article[role="article"]'): the matching descendants. */
  function Descendants(n: Node): seq<Article> {
    DescendantsFrom(n, 0)
  }

  /** What the callback hands to processTweet for one added node: nothing
      unless it is an HTMLElement; otherwise the node itself when it matches,
      then its matching descendants. */
  function Candidates(n: Node): seq<Article> {
    if n.html then SelfMatch(n) + Descendants(n) else []
  }

  function AddedCandidates(nodes: seq<Node>): seq<Article>
    decreases |nodes|
  {
    if nodes == [] then []
    else AddedCandidates(nodes[..|nodes| - 1]) + Candidates(nodes[|nodes| - 1])
  }

  /** The tweet nodes handed to processTweet for a whole batch, in order. */
  function BatchCandidates(batch: seq<Mutation>): seq<Article>
    decreases |batch|
  {
    if batch == [] then []
    else BatchCandidates(batch[..|batch| - 1]) + AddedCandidates(batch[|batch| - 1].addedNodes)
  }

  lemma AppendAssoc<T>(a: seq<T>, b: seq<T>, c: seq<T>)
    ensures (a + b) + c == a + (b + c)
  {
  }

  lemma AddedStep(nodes: seq<Node>, j: nat)
    requires j < |nodes|
    ensures AddedCandidates(nodes[..j + 1]) == AddedCandidates(nodes[..j]) + Candidates(nodes[j])
  {
    assert nodes[..j + 1][..j] == nodes[..j];
  }

  lemma BatchStep(batch: seq<Mutation>, m: nat)
    requires m < |batch|
    ensures BatchCandidates(batch[..m + 1]) == BatchCandidates(batch[..m]) + AddedCandidates(batch[m].addedNodes)
  {
    assert batch[..m + 1][..m] == batch[..m];
  }

  /** Document order: a node, then the subtrees of its children in order. */
  function Preorder(n: Node): seq<Node>
    decreases n, |n.kids| + 1
  {
    [n] + PreorderFrom(n, 0)
  }

  function PreorderFrom(n: Node, i: nat): seq<Node>
    requires i <= |n.kids|
    decreases n, |n.kids| - i
  {
    if i == |n.kids| then [] else Preorder(n.kids[i]) + PreorderFrom(n, i + 1)
  }

  /** The tweet nodes among a list of nodes, in the list's order. */
  function Tweets(nodes: seq<Node>): seq<Article>
    decreases |nodes|
  {
    if nodes == [] then [] else SelfMatch(nodes[0]) + Tweets(nodes[1..])
  }

  lemma {:induction false} TweetsAppend(a: seq<Node>, b: seq<Node>)
    ensures Tweets(a + b) == Tweets(a) + Tweets(b)
  {
    if a == [] {
      assert a + b == b;
    } else {
      assert (a + b)[1..] == a[1..] + b;
      TweetsAppend(a[1..], b);
    }
  }

  /** The matching nodes of a subtree are its tweet nodes in document order. */
  lemma {:induction false} SubtreeInDocumentOrder(n: Node)
    ensures Subtree(n) == Tweets(Preorder(n))
    decreases n, |n.kids| + 1
  {
    DescendantsInDocumentOrder(n, 0);
    TweetsAppend([n], PreorderFrom(n, 0));
    assert Tweets([n]) == SelfMatch(n);
  }

  lemma {:induction false} DescendantsInDocumentOrder(n: Node, i: nat)
    requires i <= |n.kids|
    ensures DescendantsFrom(n, i) == Tweets(PreorderFrom(n, i))
    decreases n, |n.kids| - i
  {
    if i < |n.kids| {
      SubtreeInDocumentOrder(n.kids[i]);
      DescendantsInDocumentOrder(n, i + 1);
      TweetsAppend(Preorder(n.kids[i]), PreorderFrom(n, i + 1));
    }
  }

  /** An added HTMLElement contributes its tweet nodes in document order, the
      node itself first when it matches; any other added node contributes
      nothing, whatever lies below it. */
  lemma CandidatesInDocumentOrder(n: Node)
    ensures Candidates(n) == if n.html then Tweets(Preorder(n)) else []
  {
    SubtreeInDocumentOrder(n);
  }

  lemma {:induction false} TextsAppend(a: seq<Article>, b: seq<Article>)
    ensures Texts(a + b) == Texts(a) + Texts(b)
    decreases |b|
  {
    if b == [] {
      assert a + b == a;
    } else {
      var init := b[..|b| - 1];
      TextsAppend(a, init);
      assert (a + b)[..|a + b| - 1] == a + init;
    }
  }

  /** The texts of the requests, in order. */
  function RequestTexts(requests: seq<Request>): seq<string>
    decreases |requests|
  {
    if requests == [] then []
    else RequestTexts(requests[..|requests| - 1]) + [requests[|requests| - 1].text]
  }

  lemma {:induction false} RequestTextsAppend(a: seq<Request>, b: seq<Request>)
    ensures RequestTexts(a + b) == RequestTexts(a) + RequestTexts(b)
    decreases |b|
  {
    if b == [] {
      assert a + b == a;
    } else {
      var init := b[..|b| - 1];
      RequestTextsAppend(a, init);
      assert (a + b)[..|a + b| - 1] == a + init;
    }
  }

  lemma RequestTextsSnoc(requests: seq<Request>, r: Request)
    ensures RequestTexts(requests + [r]) == RequestTexts(requests) + [r.text]
  {
    assert (requests + [r])[..|requests|] == requests;
  }

  lemma TextsStep(tweets: seq<Article>, k: nat)
    requires k < |tweets|
    ensures Texts(tweets[..k + 1]) == Texts(tweets[..k]) + [TextOf(tweets[k])]
  {
    assert tweets[..k + 1][..k] == tweets[..k];
  }

  /** Appends the request processTweet made, if any. */
  function AddRequest(requests: seq<Request>, r: Option<Request>): seq<Request> {
    if r.Some? then requests + [r.value] else requests
  }

  /** `tweetNodes.forEach(processTweet)`: each tweet node in turn. */
  method ProcessAll(script: ContentScript, tweets: seq<Article>) returns (requests: seq<Request>)
    requires script.Valid()
    modifies script
    ensures script.Valid()
    ensures script.visited == old(script.visited) + tweets
    ensures script.texts == old(script.texts) + Texts(tweets)
    ensures script.dispatched == old(script.dispatched) + RequestTexts(requests)
  {
    requests := [];
    var k := 0;
    while k < |tweets|
      invariant 0 <= k <= |tweets|
      invariant script.Valid()
      invariant script.visited == old(script.visited) + tweets[..k]
      invariant script.texts == old(script.texts) + Texts(tweets[..k])
      invariant script.dispatched == old(script.dispatched) + RequestTexts(requests)
    {
      assert tweets[..k + 1] == tweets[..k] + [tweets[k]];
      TextsStep(tweets, k);
      AppendAssoc(old(script.visited), tweets[..k], [tweets[k]]);
      AppendAssoc(old(script.texts), Texts(tweets[..k]), [TextOf(tweets[k])]);
      var r := script.ProcessTweet(tweets[k]);
      if r.Some? {
        RequestTextsSnoc(requests, r.value);
        AppendAssoc(old(script.dispatched), RequestTexts(requests), [r.value.text]);
      }
      requests := AddRequest(requests, r);
      k := k + 1;
    }
    assert tweets[..k] == tweets;
  }

  /** `if (addedNode.matches?.('article[role="article"]')) processTweet(addedNode)`. */
  method ProcessSelf(script: ContentScript, node: Node) returns (requests: seq<Request>)
    requires script.Valid()
    modifies script
    ensures script.Valid()
    ensures script.visited == old(script.visited) + SelfMatch(node)
    ensures script.texts == old(script.texts) + Texts(SelfMatch(node))
    ensures script.dispatched == old(script.dispatched) + RequestTexts(requests)
  {
    requests := [];
    if node.tweet.Some? {
      assert Texts([node.tweet.value]) == [TextOf(node.tweet.value)];
      var r := script.ProcessTweet(node.tweet.value);
      requests := AddRequest(requests, r);
      assert r.Some? ==> RequestTexts(requests) == [r.value.text];
    }
  }

  /** The body of the loop over a record's added nodes: nothing for a node
      that is not an HTMLElement, otherwise the node itself, then its
      matching descendants. */
  method ProcessAdded(script: ContentScript, node: Node) returns (requests: seq<Request>)
    requires script.Valid()
    modifies script
    ensures script.Valid()
    ensures script.visited == old(script.visited) + Candidates(node)
    ensures script.texts == old(script.texts) + Texts(Candidates(node))
    ensures script.dispatched == old(script.dispatched) + RequestTexts(requests)
  {
    requests := [];
    if !node.html {
      return;
    }
    var first := ProcessSelf(script, node);
    var more := ProcessAll(script, Descendants(node));
    RequestTextsAppend(first, more);
    TextsAppend(SelfMatch(node), Descendants(node));
    AppendAssoc(old(script.visited), SelfMatch(node), Descendants(node));
    AppendAssoc(old(script.texts), Texts(SelfMatch(node)), Texts(Descendants(node)));
    AppendAssoc(old(script.dispatched), RequestTexts(first), RequestTexts(more));
    requests := first + more;
  }

  /** `mutation.addedNodes.forEach(...)`: each added node of one record in
      turn. */
  method ProcessRecord(script: ContentScript, added: seq<Node>) returns (requests: seq<Request>)
    requires script.Valid()
    modifies script
    ensures script.Valid()
    ensures script.visited == old(script.visited) + AddedCandidates(added)
    ensures script.texts == old(script.texts) + Texts(AddedCandidates(added))
    ensures script.dispatched == old(script.dispatched) + RequestTexts(requests)
  {
    requests := [];
    var j := 0;
    while j < |added|
      invariant 0 <= j <= |added|
      invariant script.Valid()
      invariant script.visited == old(script.visited) + AddedCandidates(added[..j])
      invariant script.texts == old(script.texts) + Texts(AddedCandidates(added[..j]))
      invariant script.dispatched == old(script.dispatched) + RequestTexts(requests)
    {
      var before := AddedCandidates(added[..j]);
      AddedStep(added, j);
      TextsAppend(before, Candidates(added[j]));
      AppendAssoc(old(script.visited), before, Candidates(added[j]));
      AppendAssoc(old(script.texts), Texts(before), Texts(Candidates(added[j])));
      var more := ProcessAdded(script, added[j]);
      RequestTextsAppend(requests, more);
      AppendAssoc(old(script.dispatched), RequestTexts(requests), RequestTexts(more));
      requests := requests + more;
      j := j + 1;
    }
    assert added[..j] == added;
  }

  /** The MutationObserver callback: processes every tweet node of the batch
      in order and returns the classification requests it sent. */
  method OnMutations(script: ContentScript, batch: seq<Mutation>) returns (requests: seq<Request>)
    requires script.Valid()
    modifies script
    ensures script.Valid()
    ensures script.visited == old(script.visited) + BatchCandidates(batch)
    ensures script.texts == old(script.texts) + Texts(BatchCandidates(batch))
    ensures script.dispatched == old(script.dispatched) + RequestTexts(requests)
  {
    requests := [];
    var m := 0;
    while m < |batch|
      invariant 0 <= m <= |batch|
      invariant script.Valid()
      invariant script.visited == old(script.visited) + BatchCandidates(batch[..m])
      invariant script.texts == old(script.texts) + Texts(BatchCandidates(batch[..m]))
      invariant script.dispatched == old(script.dispatched) + RequestTexts(requests)
    {
      var before := BatchCandidates(batch[..m]);
      var added := AddedCandidates(batch[m].addedNodes);
      BatchStep(batch, m);
      TextsAppend(before, added);
      AppendAssoc(old(script.visited), before, added);
      AppendAssoc(old(script.texts), Texts(before), Texts(added));
      var more := ProcessRecord(script, batch[m].addedNodes);
      RequestTextsAppend(requests, more);
      AppendAssoc(old(script.dispatched), RequestTexts(requests), RequestTexts(more));
      requests := requests + more;
      m := m + 1;
    }
    assert batch[..m] == batch;
  }
}
