/** processTweet's synchronous part: text extraction, the dedup gate on
    observedTweets, and the dispatch of a classification request
    (extension/content.js). */
module Pipeline {
  import opened Wrappers
  import opened Strings
  import opened Extract
  import opened Dom

  /** The message {type: "classifyTweet", text} together with the tweet node
      its response callback closes over. */
  datatype Request = Request(text: string, tweet: Article)

  /** The normalised text of a tweet node; None when it has no
      [data-testid="tweetText"] element. */
  function TextOf(a: Article): Option<string> {
    match a.spans
    case None => None
    case Some(pieces) => Some(Normalize(pieces))
  }

  /** The gate of processTweet: there is a text, it is not empty, and it has
      not been seen. */
  predicate Admits(ledger: set<string>, t: Option<string>) {
    t.Some? && t.value != "" && t.value !in ledger
  }

  function Elems(s: seq<string>): set<string> {
    set x | x in s
  }

  lemma ElemsSnoc(s: seq<string>, x: string)
    ensures Elems(s + [x]) == Elems(s) + {x}
  {
  }

  /** The texts sent are the ones the gate lets through over the history,
      and the ledger holds exactly them (each is sent once, by
      DispatchedUnique). */
  predicate Consistent(texts: seq<Option<string>>, dispatched: seq<string>, observed: set<string>) {
    dispatched == Dispatched(texts) && observed == Elems(dispatched)
  }

  /** One call of processTweet, on values: the gate extends the history of
      dispatched texts by at most the new text and keeps the ledger
      consistent with it. */
  lemma GateStep(texts: seq<Option<string>>, dispatched: seq<string>, observed: set<string>, t: Option<string>)
    requires Consistent(texts, dispatched, observed)
    ensures Admits(observed, t) ==>
              Consistent(texts + [t], dispatched + [t.value], observed + {t.value})
    ensures !Admits(observed, t) ==> Consistent(texts + [t], dispatched, observed)
  {
    assert (texts + [t])[..|texts|] == texts;
    if Admits(observed, t) {
      ElemsSnoc(dispatched, t.value);
    }
  }

  /** The texts of a sequence of tweet nodes, in order. */
  function Texts(tweets: seq<Article>): seq<Option<string>>
    decreases |tweets|
  {
    if tweets == [] then [] else Texts(tweets[..|tweets| - 1]) + [TextOf(tweets[|tweets| - 1])]
  }

  /** The texts sent for classification, in order, when processTweet runs on
      tweets with the given texts starting from an empty ledger. */
  function Dispatched(texts: seq<Option<string>>): seq<string>
    decreases |texts|
  {
    if texts == [] then []
    else
      var before := Dispatched(texts[..|texts| - 1]);
      var t := texts[|texts| - 1];
      if Admits(Elems(before), t) then before + [t.value] else before
  }

  /** No text is ever sent twice. */
  lemma {:induction false} DispatchedUnique(texts: seq<Option<string>>)
    ensures Distinct(Dispatched(texts))
  {
    if texts != [] {
      DispatchedUnique(texts[..|texts| - 1]);
    }
  }

  /** A text is sent if and only if some tweet had it and it is not empty. */
  lemma {:induction false} DispatchedExactly(texts: seq<Option<string>>)
    ensures forall x :: x in Dispatched(texts) <==> x != "" && Some(x) in texts
  {
    if texts != [] {
      var init := texts[..|texts| - 1];
      DispatchedExactly(init);
      assert texts == init + [texts[|texts| - 1]];
    }
  }

  /** Later tweets never take back an earlier dispatch: the ledger only grows. */
  lemma {:induction false} DispatchedGrows(texts: seq<Option<string>>, more: seq<Option<string>>)
    ensures Dispatched(texts) <= Dispatched(texts + more)
  {
    if more == [] {
      assert texts + more == texts;
    } else {
      var init := more[..|more| - 1];
      DispatchedGrows(texts, init);
      assert (texts + more)[..|texts + more| - 1] == texts + init;
      assert Dispatched(texts + init) <= Dispatched(texts + more);
    }
  }

  /** A tweet whose text was seen before sends nothing. */
  lemma DispatchedRepeat(texts: seq<Option<string>>, x: string)
    requires Some(x) in texts
    ensures Dispatched(texts + [Some(x)]) == Dispatched(texts)
  {
    DispatchedExactly(texts);
    assert (texts + [Some(x)])[..|texts|] == texts;
  }

  /** The content script's state: the set observedTweets, plus the history
      of the tweet nodes handed to processTweet, of their texts, and of the
      texts it sent. */
  class ContentScript {
    var observed: set<string>
    ghost var visited: seq<Article>
    ghost var texts: seq<Option<string>>
    ghost var dispatched: seq<string>

    /** observedTweets holds exactly the texts sent so far, and they are the
        ones the gate lets through over the whole history. */
    ghost predicate Valid()
      reads this
    {
      Consistent(texts, dispatched, observed)
    }

    constructor ()
      ensures Valid() && observed == {} && visited == [] && texts == [] && dispatched == []
    {
      observed := {};
      visited := [];
      texts := [];
      dispatched := [];
    }

    /** processTweet up to the sendMessage call: returns early, with the
        ledger unchanged, when there is no text element, the text is empty or
        already observed; otherwise records the text and only then returns
        the request to send. */
    method ProcessTweet(a: Article) returns (request: Option<Request>)
      requires Valid()
      modifies this
      ensures Valid() && visited == old(visited) + [a] && texts == old(texts) + [TextOf(a)]
      ensures var t := TextOf(a);
              if Admits(old(observed), t) then
                request == Some(Request(t.value, a))
                && observed == old(observed) + {t.value}
                && dispatched == old(dispatched) + [t.value]
              else
                request == None && observed == old(observed) && dispatched == old(dispatched)
    {
      var t := TextOf(a);
      GateStep(texts, dispatched, observed, t);
      visited := visited + [a];
      texts := texts + [t];
      if t.None? {
        return None;
      }
      var text := t.value;
      if text == "" || text in observed {
        return None;
      }
      // Built and never sent anywhere, as in the source.
      var data := MakeTweetData(text, a.anchors);
      observed := observed + {text};
      dispatched := dispatched + [text];
      request := Some(Request(text, a));
    }
  }
}
