/** Author and status-id extraction from the links below a tweet node
    (extension/content.js, processTweet). */
module Extract {
  import opened Wrappers
  import opened Strings
  import opened Dom

  /** The record processTweet assembles for a tweet. */
  datatype TweetData = TweetData(text: string, author: string, id: string)

  predicate StartsWith(s: string, prefix: string) {
    |prefix| <= |s| && s[..|prefix|] == prefix
  }

  /** `part` occurs in `s` at position i. */
  predicate OccursAt(s: string, part: string, i: nat) {
    i + |part| <= |s| && s[i..i + |part|] == part
  }

  predicate Contains(s: string, part: string) {
    exists i: nat | i <= |s| :: OccursAt(s, part, i)
  }

  /** Matches the selector a[href^="/"][role="link"]. */
  predicate IsProfileLink(a: Anchor) {
    StartsWith(a.href, "/") && a.role == "link"
  }

  /** Matches the selector a[href*="/status/"]. */
  predicate IsStatusLink(a: Anchor) {
    Contains(a.href, "/status/")
  }

  /** querySelector over the anchors: the index of the first one that matches. */
  function First(anchors: seq<Anchor>, matches: Anchor -> bool): (r: Option<nat>)
    ensures r.Some? ==> r.value < |anchors| && matches(anchors[r.value])
    ensures r.Some? ==> forall j :: 0 <= j < r.value ==> !matches(anchors[j])
    ensures r.None? ==> forall j :: 0 <= j < |anchors| ==> !matches(anchors[j])
  {
    if anchors == [] then None
    else if matches(anchors[0]) then Some(0)
    else match First(anchors[1..], matches)
      case None => None
      case Some(i) => Some(i + 1)
  }

  /** `seg` is the text between the first and the second "/" of `href` (or up
      to its end when there is no second "/"). */
  predicate SecondSegment(href: string, seg: string) {
    |seg| < |href| && href[0] == '/' && href[1..|seg| + 1] == seg && '/' !in seg
    && (|seg| + 1 == |href| || href[|seg| + 1] == '/')
  }

  /** `href.split("/")[1]` of the first profile link, else "unknown". */
  function AuthorHandle(anchors: seq<Anchor>): (r: string)
    ensures First(anchors, IsProfileLink).None? ==> r == "unknown"
    ensures var i := First(anchors, IsProfileLink);
            i.Some? ==> SecondSegment(anchors[i.value].href, r)
  {
    match First(anchors, IsProfileLink)
    case None => "unknown"
    case Some(i) =>
      var href := anchors[i].href;
      assert href[0] == '/';
      var pieces := Split(href, '/');
      assert pieces == [""] + Split(href[1..], '/');
      pieces[1]
  }

  /** The author field of the tweet record: "@" and the handle. */
  function Author(anchors: seq<Anchor>): (r: string)
    ensures First(anchors, IsProfileLink).None? ==> r == "@unknown"
    ensures var i := First(anchors, IsProfileLink);
            i.Some? ==> |r| > 0 && r[0] == '@' && SecondSegment(anchors[i.value].href, r[1..])
  {
    "@" + AuthorHandle(anchors)
  }

  /** \d in a JavaScript regular expression without the u flag. */
  predicate IsDigit(c: char) {
    '0' <= c <= '9'
  }

  predicate AllDigits(s: string) {
    forall k :: 0 <= k < |s| ==> IsDigit(s[k])
  }

  /** The regular expression status\/(\d+) matches at position i. */
  predicate StatusAt(s: string, i: nat) {
    i + 8 <= |s| && s[i..i + 7] == "status/" && IsDigit(s[i + 7])
  }

  /** The leftmost position at or after `from` where status\/(\d+) matches. */
  function FindStatus(s: string, from: nat): (r: Option<nat>)
    ensures r.Some? ==> from <= r.value && StatusAt(s, r.value)
    ensures r.Some? ==> forall j :: from <= j < r.value ==> !StatusAt(s, j)
    ensures r.None? ==> forall j :: from <= j ==> !StatusAt(s, j)
    decreases |s| - from
  {
    if from + 8 > |s| then None
    else if StatusAt(s, from) then Some(from)
    else FindStatus(s, from + 1)
  }

  /** The greedy \d+: the longest prefix made of digits. */
  function DigitRun(s: string): (r: string)
    ensures |r| <= |s| && r == s[..|r|] && AllDigits(r)
    ensures |r| == |s| || !IsDigit(s[|r|])
  {
    if s != [] && IsDigit(s[0]) then [s[0]] + DigitRun(s[1..]) else ""
  }

  /** `href.match(/status\/(\d+)/)[1]`, or None when the expression does not match. */
  function StatusId(href: string): Option<string> {
    match FindStatus(href, 0)
    case None => None
    case Some(i) => Some(DigitRun(href[i + 7..]))
  }

  /** The captured group is non-empty, all digits, maximal, and follows the
      leftmost "status/" that has a digit after it; no match means that no
      "status/" anywhere is followed by a digit. */
  lemma StatusIdSpec(href: string)
    ensures StatusId(href).None? <==> forall j :: 0 <= j ==> !StatusAt(href, j)
    ensures StatusId(href).Some? ==>
              var d := StatusId(href).value;
              var i := FindStatus(href, 0).value;
              |d| > 0 && AllDigits(d) && StatusAt(href, i)
              && (forall j :: 0 <= j < i ==> !StatusAt(href, j))
              && i + 7 + |d| <= |href| && href[i + 7..i + 7 + |d|] == d
              && (i + 7 + |d| == |href| || !IsDigit(href[i + 7 + |d|]))
  {
    match FindStatus(href, 0)
    case None =>
    case Some(i) =>
      var d := DigitRun(href[i + 7..]);
      assert href[i + 7..][0] == href[i + 7];
      assert href[i + 7..i + 7 + |d|] == href[i + 7..][..|d|];
  }

  /** The id field of the tweet record: the status number of the first link
      whose href contains "/status/", else "unknown". */
  function TweetId(anchors: seq<Anchor>): (r: string)
    ensures r != "unknown" ==> |r| > 0 && AllDigits(r)
    ensures var i := First(anchors, IsStatusLink);
            r == "unknown" <==> i.None? || StatusId(anchors[i.value].href).None?
    ensures var i := First(anchors, IsStatusLink);
            i.Some? && StatusId(anchors[i.value].href).Some? ==> r == StatusId(anchors[i.value].href).value
  {
    match First(anchors, IsStatusLink)
    case None => "unknown"
    case Some(i) =>
      StatusIdSpec(anchors[i].href);
      match StatusId(anchors[i].href)
      case None => "unknown"
      case Some(d) =>
        assert d != "unknown" by { assert !IsDigit('u'); }
        d
  }

  /** The tweetData record processTweet builds; it is sent nowhere. */
  function MakeTweetData(text: string, anchors: seq<Anchor>): TweetData {
    TweetData(text, Author(anchors), TweetId(anchors))
  }
}
