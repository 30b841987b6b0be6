# bodyguard content script, modelled in Dafny

The bodyguard browser extension watches a Twitter/X timeline and hides tweets
that its classifier flags as cyberbullying. All of this happens in the content
script `extension/content.js`. This project models that script in four parts.

- **Text and identity extraction** (`Strings`, `Extract`). This covers how
  `processTweet` turns a tweet node into its text: every span trimmed, the
  pieces joined with single spaces, the result trimmed again. It also covers
  the author handle (`split("/")[1]` of the first profile link) and the
  status id (the `status\/(\d+)` match in the first `/status/` link). Each of
  the two falls back to `"unknown"`. `trim`, `join` and `split` follow the
  ECMAScript built-ins. The whitespace set is ECMAScript's WhiteSpace plus
  LineTerminator.
- **The dedup ledger** (`Pipeline.ContentScript`). `observedTweets` is a
  set field. `ProcessTweet` returns early with the ledger unchanged when the
  text container is missing, the text is empty, or the text is already
  observed. Otherwise it records the text and only then returns the
  classification request it sends. Ghost histories (the tweet nodes seen,
  their texts, the texts sent) carry the invariant that the ledger is exactly
  what the gate let through over the whole history.
- **The visibility state machine** (`Visibility`). `OnVerdict` is the
  `sendMessage` callback. It takes the classifier response as an input:
  absent, an error reply, or a label. `Reveal` is the click handler of the
  warning's button. Both are methods on `Article`, `Container` and `Element`
  objects. They are proved against the pure scene transformers `WarnScene` and
  `RevealScene`, whose round trip is then characterised.
- **The mutation watcher** (`Watcher`). This is the `MutationObserver`
  callback as nested loops over records and added nodes, calling
  `ProcessTweet`. A lemma shows that the nodes it processes are the added
  HTMLElements' tweet nodes in document order.

Source quirks kept as written:

- The `tweetData` record (`MakeTweetData`) is built and sent nowhere.
- An `{error: true}` reply makes `response.label.label` throw a TypeError.
  `OnVerdict` returns `TypeErrorThrown` for it and changes nothing.
- Reveal sets each hidden child's display to `""`, not to the value it had
  before. It clears the background and leaves `position: relative` in place.
  `RoundTripExact` states exactly when warn-then-reveal restores the scene.
- A blank span still contributes an empty piece to the join, so it leaves two
  spaces between its neighbours. `Normalize` keeps this behaviour because it
  is defined as the same trim/join/trim chain. No lemma states it separately.
- The text is taken from every `span` under the text container, nested ones
  included, so a nested span's text appears twice. The model takes the span
  texts as given, in document order.

## Model

| member | source | states |
|---|---|---|
| Strings.Trim | extension/content.js:11-13 | no contract of its own: `String.prototype.trim` as TrimEnd after TrimStart; TrimIsTight and TrimInfix state what it returns |
| Strings.TrimStart | extension/content.js:11 | the result never starts with ECMAScript whitespace |
| Strings.TrimStartSuffix | extension/content.js:11 | TrimStart drops exactly a blank prefix and keeps the rest as a suffix of the input |
| Strings.TrimEnd | extension/content.js:13 | the result never ends with ECMAScript whitespace |
| Strings.TrimEndPrefix | extension/content.js:13 | TrimEnd drops exactly a blank suffix and keeps the rest as a prefix of the input |
| Strings.TrimIsTight | extension/content.js:11 | a trimmed string has whitespace at neither end |
| Strings.TrimInfix | extension/content.js:11-13 | trim returns an infix framed by blank strings on both sides; it is empty iff the input is blank |
| Strings.Join | extension/content.js:12 | no contract of its own: `Array.prototype.join`, the pieces with the separator between neighbours; JoinBlank and SplitJoin state its properties |
| Strings.JoinBlank | extension/content.js:12 | a join with a blank separator is blank iff every piece is blank |
| Strings.Split | extension/content.js:19 | no piece contains the separator; there is at least one piece; the first piece is the longest separator-free prefix |
| Strings.SplitJoin | extension/content.js:19 | joining the pieces of a split with the separator gives back the input |
| Strings.Normalize | extension/content.js:10-13 | no contract of its own: the tweet text as trim of the join with " " of the trimmed span texts; NormalizeIsTight, NormalizeEmpty and NormalizeFixpoint state what it returns |
| Strings.NormalizeIsTight | extension/content.js:10-13 | the tweet text has no leading or trailing whitespace |
| Strings.NormalizeEmpty | extension/content.js:10-15 | the tweet text is empty (the `!tweetText` early return) iff every span text is blank |
| Strings.NormalizeFixpoint | extension/content.js:10-13 | a single span whose text has no outer whitespace normalises to that text, so normalising is idempotent |
| Extract.First | extension/content.js:17 | querySelector: the index of the first matching anchor, none matching before it, or None when no anchor matches |
| Extract.AuthorHandle | extension/content.js:17-20 | "unknown" without a profile link, else the text between the first and the second "/" of its href |
| Extract.Author | extension/content.js:33 | "@unknown" without a profile link, else "@" followed by that segment |
| Extract.FindStatus | extension/content.js:25 | the leftmost position from which `status/` followed by a digit occurs, or None when there is none |
| Extract.DigitRun | extension/content.js:25 | the greedy `\d+`: the longest all-digit prefix |
| Extract.StatusId | extension/content.js:25-26 | no contract of its own: the `(\d+)` capture after the leftmost FindStatus match; StatusIdSpec states what it captures |
| Extract.StatusIdSpec | extension/content.js:25-26 | the captured id is non-empty, all digits and maximal, and it follows the leftmost `status/` with a digit after it; there is no match iff no `status/` is followed by a digit |
| Extract.TweetId | extension/content.js:22-27 | the id is "unknown" iff there is no status link or its href does not match; otherwise it is exactly the `(\d+)` capture from the href of the first status link, non-empty and all digits |
| Extract.MakeTweetData | extension/content.js:31-35 | no contract of its own: the record of text, Author and TweetId, whose contracts describe the fields; nothing reads it |
| Pipeline.TextOf | extension/content.js:7-13 | no contract of its own: None without a text container, else Normalize of its span texts |
| Pipeline.Admits | extension/content.js:8-15 | no contract of its own: the gate, a text container exists, the text is non-empty and not in the ledger; GateStep and ProcessTweet use it |
| Pipeline.Dispatched | extension/content.js:15-29 | no contract of its own: the texts the gate lets through over a history, from an empty ledger; DispatchedUnique, DispatchedExactly, DispatchedGrows and DispatchedRepeat state its properties |
| Pipeline.GateStep | extension/content.js:15-29 | one gate step keeps the ledger consistent: an admitted text is appended to the dispatch history and added to the set, and otherwise nothing changes |
| Pipeline.DispatchedUnique | extension/content.js:15-29 | no text is ever dispatched twice |
| Pipeline.DispatchedExactly | extension/content.js:15-29 | a text is dispatched iff it is non-empty and some processed tweet had it |
| Pipeline.DispatchedGrows | extension/content.js:29 | later tweets never retract an earlier dispatch: the history only grows |
| Pipeline.DispatchedRepeat | extension/content.js:15 | a tweet whose text was already seen dispatches nothing |
| Pipeline.ContentScript.constructor | extension/content.js:4 | the script starts with an empty ledger and empty histories |
| Pipeline.ContentScript.ProcessTweet | extension/content.js:6-38 | early return with the ledger unchanged and no request when there is no text container, the text is empty or it is observed; otherwise the text is recorded and then the request is returned; the ledger invariant is kept |
| Visibility.WarnScene | extension/content.js:46-107 | no contract of its own: the scene after warning; WarnHidesInterior states it child by child, and OnVerdict is proved against it |
| Visibility.HideAllAt | extension/content.js:47-48 | setting every display to "none" keeps each node in place |
| Visibility.RevealScene | extension/content.js:95-100 | no contract of its own: the scene after the click; Reveal is proved against it, and RevealAfterWarn and RoundTripExact state the round trip |
| Visibility.WarnHidesInterior | extension/content.js:104-107 | after warning: n+1 children, the first and last unchanged, the warning at index 1, children 2..n-1 are the old interior with display "none", red background, relative position |
| Visibility.InteriorMembers | extension/content.js:46-50 | with distinct children, the recorded list holds the children at 1..n-2 and neither the first, the last nor the warning |
| Visibility.ClearWarned | extension/content.js:97 | showing the recorded children of a warned scene leaves the first, the warning and the last as they were and gives the interior display "" |
| Visibility.DropNodeOnce | extension/content.js:99 | removing a node that occurs once drops exactly its slot |
| Visibility.DropNodeAbsent | extension/content.js:99 | removing a node that is not a child changes nothing, as on a second click |
| Visibility.DropWarning | extension/content.js:99 | the shown scene without the warning is the original child list with a cleared interior |
| Visibility.RevealAfterWarn | extension/content.js:95-100 | reveal after warn gives back the original children in order, interior displays "", background "" and position still "relative" |
| Visibility.RoundTripExact | extension/content.js:95-107 | warn then reveal restores the scene exactly iff every interior display was "", the background was "" and the position was "relative" |
| Visibility.OnVerdict | extension/content.js:39-108 | the page changes iff the label is "cyberbullying" and a container with more than 2 children exists; an error reply throws and changes nothing; otherwise nothing changes; a warning hides and records children 1..n-2 and inserts a fresh warning at index 1 |
| Visibility.HideInterior | extension/content.js:46-50 | the loop sets display "none" on exactly children 1..n-2, records them in index order, and leaves the first and last displays alone |
| Visibility.WarnedSlots | extension/content.js:104 | the children after the loop and the insertion are the slots WarnScene describes |
| Visibility.Reveal | extension/content.js:95-100 | every recorded child gets display "", the background is cleared, the warning is removed, and the scene is RevealScene of the old one |
| Visibility.ShowAll | extension/content.js:97 | exactly the recorded children of the container get display "" |
| Visibility.RemoveChild | extension/content.js:99 | the container's children lose the warning and nothing else |
| Visibility.Remove | extension/content.js:99 | no contract of its own: `Node.remove` on the child list, every occurrence of the node taken out; SlotsOfRemove ties it to the scene |
| Visibility.SlotsOfRemove | extension/content.js:99 | removing a child from the list removes its slot from the scene |
| Visibility.WarnThenReveal | extension/content.js:95-107 | a flagged tweet revealed by its button gets back exactly its original child list, interior displays "", background "" and position "relative" |
| Watcher.SubtreeInDocumentOrder | extension/content.js:119-126 | the matching nodes of a subtree, root first, are its tweet nodes in document order |
| Watcher.DescendantsInDocumentOrder | extension/content.js:123-126 | querySelectorAll returns the matching descendants in document order |
| Watcher.Candidates | extension/content.js:117-126 | no contract of its own: the tweet nodes one added node yields; CandidatesInDocumentOrder states which and in what order |
| Watcher.CandidatesInDocumentOrder | extension/content.js:117-126 | a non-HTMLElement contributes nothing; an HTMLElement contributes its tweet nodes in document order, itself first when it matches |
| Watcher.ProcessAll | extension/content.js:126 | each tweet node is processed in order, and the texts sent are the requests returned |
| Watcher.ProcessSelf | extension/content.js:119-121 | the added node itself is processed iff it matches the tweet selector |
| Watcher.ProcessAdded | extension/content.js:117-126 | nothing for a non-HTMLElement; otherwise the node itself, then its matching descendants |
| Watcher.ProcessRecord | extension/content.js:116-127 | the added nodes of one record are processed in order |
| Watcher.OnMutations | extension/content.js:114-128 | every candidate tweet node of the batch is processed in order, the ledger invariant is kept, and the texts sent are the requests returned |

## Left out

- Styling of the warning (extension/content.js:52-93): the CSS strings, its label and button children, and the hover handlers. The warning is a fresh `Element` with display "flex".
- Observer registration on `document.body` (extension/content.js:131-134) and the `window.browser` alias (extension/content.js:2).
- The `browser.runtime.sendMessage` transport and its asynchrony. `ProcessTweet` returns the request, and the response is an input to `OnVerdict`. How callbacks interleave with later mutations is not modelled.
- The DOM queries themselves. An `Article` holds, as constants, what `processTweet` reads: the span texts of its text container (None when there is none), its anchors with an href in document order, and the container three parents above `div[role="group"]` (null when any step is missing). A missing `role` attribute reads as "".
- Inline styles other than `display`, `backgroundColor` and `position`.
- JavaScript strings are UTF-16 code units; here they are sequences of Unicode scalar values. This makes no difference to whitespace, "/", "status/" or ASCII digits.
- extension/background.js, the engine's Python files and its configuration are not part of this model. They are the classifier service, persistence and browser plumbing.
- Visibility.OnVerdict: requires the container's children to be distinct. The DOM guarantees this, so it excludes no real page.
