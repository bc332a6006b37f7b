# Bilibili playlist controller — a Dafny model

A browser extension for bilibili.com that adds reverse, shuffle and reset
controls to a video page's playlist panel, and replaces the site's own
next / previous / auto-advance behaviour so that the custom order is the one
that plays. It has two scripts:

- `content.js` (the content script) keeps a snapshot of the original order,
  reorders the `.video-pod__item` entries of the pod list on request, and
  puts a click handler on every entry reverse and shuffle move and on the
  clones reset makes.
- `playerHandler.js` (injected into the page) classifies the page's list
  (pod list, section list, something else, nothing), overrides the player's
  next / previous buttons, loads a video through the metadata lookup and
  `player.reload`, removes entries the site inserts behind the extension's
  back, and wraps `history.pushState` / `history.replaceState`.

The model replaces the DOM by sequences of entry records (`Dom.Item`): the
element's identity, its `data-key`, `data-scrolled`, class `active`,
`data-active`, `data-our-change` and whether a click handler is installed.
Each operation becomes a pure function, or a method where the source runs a
loop (the Fisher–Yates shuffle), from the list before to the list after,
plus the side outputs the source produces: the address passed to
`history.replaceState`, the id handed to `loadNewVideo`, and the
`updateNextVideo` event's detail.

| file | module | models |
|---|---|---|
| `dom.dfy` | `Dom` | entries, element identity, `find`/`indexOf`, `appendChild` moving an existing child, the set-attribute loops |
| `playlist.dfy` | `Playlist` | `content.js`: snapshot, reverse, shuffle, reset, the entry click handler |
| `navigation.dfy` | `Navigation` | `playerHandler.js`: `getPlaylistType`, `loadNewVideo`, next, previous, link clicks |
| `href.dfy` | `Href` | the `BV…` id taken out of a link address |
| `history.dfy` | `History` | the two layers wrapped around the history methods |
| `protection.dfy` | `Protection` | the observer that removes entries the site inserts |

Conventions:

- `data-key` is a string. A missing attribute, for which `getAttribute`
  returns `null`, is written `""`.
- Element identity is `Item.node`. Identity tests in the scripts
  (`indexOf`, `===`) compare references, and the model compares `node`.
  Selections by `data-key` (reset's match, `loadNewVideo`'s query, the
  active-state loops) compare `Item.key`.
- An element is in at most one place of the document, so a page lists no
  element twice, not even once in each list (`Navigation.ValidPage`).
- `appendChild` of an element that is already a child moves it. The model
  keeps this because reset can append one element twice.
- Calls into the outside world are inputs. The metadata lookup's answer is
  `Navigation.Reply`, the player's behaviour is `Navigation.Player`, and the
  shuffle's random indices are `picks`, with `picks[i]` in `[0, i]`.
- New elements (clones) get their identities from a `firstId` parameter.
  Every element already on the page is numbered below it
  (`Dom.FreshFrom`), so a clone is never one of the live elements.

## Model

| member | source | states |
|---|---|---|
| Dom.IndexOfNode | playerHandler.js:263 | `indexOf` by identity: a found position holds that element; nothing is found exactly when the element is not in the list |
| Dom.FirstScrolled | content.js:279 | the first entry with `data-scrolled`; none before it has the mark; nothing is found exactly when no entry has it |
| Dom.AppendChild | content.js:255 | the appended element ends up last; if it was not yet a child, the others keep their order |
| Dom.AppendChildMoves | content.js:357 | appending an element that is already the child at position k moves it: the result is the children before k, then those after k, then the element |
| Dom.AppendAllDistinct | content.js:299 | appending distinct elements that are not children yet lays them out exactly in the order appended |
| Dom.RemoveNodeKeepsOthers | content.js:253 | removing an element keeps exactly the entries with any other identity |
| Playlist.SaveOriginalOrder | content.js:173-184 | the snapshot has the list's length and key order, keeps each entry's active marks (`data-scrolled`, the `active` class and `data-active`) and its `data-our-change` mark, and holds distinct new elements without handlers, none of them one of the list's elements |
| Playlist.ObservePlaylist | content.js:24-26 | a snapshot is taken only while the stored one is empty and a list exists; then it has the list's length and key order; otherwise the stored one is kept |
| Playlist.Reversed | content.js:255 | `Array.prototype.reverse`: same length, position k holds entry n-1-k, same multiset |
| Playlist.ReversePlaylist | content.js:250-258 | no list, no change; otherwise position k holds the marked, handled entry n-1-k of the list before |
| Playlist.ReverseInvolution | content.js:250-255 | reversing twice gives back the original order, every entry marked |
| Playlist.ReverseIsReversed | content.js:250-255 | the reversed list is exactly the reverse of the marked list |
| Playlist.ReverseKeepsDistinct | content.js:250-255 | the reversed list repeats no element |
| Playlist.ReverseKeepsActive | content.js:250-258 | each entry keeps its `data-scrolled`, so the entry that was active stays active |
| Playlist.ReverseKeepsCount | content.js:250-258 | the number of entries with `data-scrolled` is unchanged |
| Playlist.FisherYates | content.js:286-289 | the loop, with `j` in `[0, i]` at every step, yields a permutation: same length, same multiset, no repeated element if there was none |
| Playlist.MoveToFront | content.js:291-297 | a permutation; the active element is first if it is in the list; the others keep their relative order; no active element, no change |
| Playlist.ShufflePlaylist | content.js:270-302 | no list, no change; otherwise a permutation of the marked entries, with the same number of active entries, and the entry that was active placed first |
| Playlist.ScrolledKey | content.js:322 | there is an active key exactly when some entry has `data-scrolled`, and it is the key of the first such entry |
| Playlist.ResetOrder | content.js:329-354 | one entry per snapshot position, all marked; position k is the first current entry with the snapshot key if there is one, else the current entry at index k, else a handled clone of the snapshot entry; a reused entry is active exactly when its key was the active key; an entry is one of the current elements exactly when it is not a clone |
| Playlist.ResetPlaylist | content.js:313-357 | no list, no change; otherwise every entry of the rebuilt list is marked |
| Playlist.ResetRestoresSnapshot | content.js:322-357 | when every snapshot key is in the list and no key occurs twice in the snapshot (`DistinctKeys`), the rebuilt list has the snapshot's key sequence, and an entry is active exactly when its key was the active key |
| Playlist.ResetCanDropEntries | content.js:329-357 | the index fallback can pick an element that was already used; appending it twice leaves the list shorter than the snapshot |
| Playlist.ClickItem | content.js:198-232 | no key, nothing happens; otherwise the address is set; with a loader `data-scrolled` is set exactly on the clicked element, other attributes stay, and the next id is published exactly when the clicked entry has a successor |
| Playlist.ClickActivatesOnlyClicked | content.js:210-232 | after a click exactly one entry is active, the clicked one, and the published id and address are those of the entry after it, or nothing when it is last |
| Navigation.PlaylistType | playerHandler.js:140-153 | `pod` exactly when the pod list has entries; `section` exactly when it has none and the section list has some; `unknown` or `null` when both are empty, by whether some element under `.video-pod` has "list" in its class, which includes an empty pod list itself |
| Navigation.NullOnlyWithoutPodList | playerHandler.js:140-153 | with the pod list under `.video-pod` as the site places it, `null` comes only when there is no pod list and no section entry; an empty pod list gives `unknown` |
| Navigation.ScrollToKey | playerHandler.js:195-199 | `data-scrolled` is set exactly on the entries with the loaded id; nothing else changes |
| Navigation.ActivateKey | playerHandler.js:200-214 | class `active` exactly on the entries with the id, `data-active` mirrors it where it exists; nothing else changes |
| Navigation.ScrollToKeyUnique | playerHandler.js:196-199 | with unique keys and the id present, exactly one entry is marked, the one with that key |
| Navigation.KeyedEntry | playerHandler.js:169 | an entry is found exactly when some pod or section entry has the id; the one found has the id and no entry before it, pod entries first, has it |
| Navigation.LoadNewVideo | playerHandler.js:156-239 | a failed lookup resolves to false; an answer without code 0 and data to undefined; an entry is clicked exactly when the video is found, the page has no pod entries and some entry has the id, and then it resolves to true; otherwise without a player it resolves to undefined and with a throwing reload to false; the address is set only on pod pages with a player; the player reloads exactly with code 0, data, a working player, and either a pod page or no entry with the id; the marks follow the page kind |
| Navigation.LoadMakesCurrent | playerHandler.js:185-199 | after the player loads the id of pod entry k (keys unique), entry k is the current one, and a next step loads entry k+1 |
| Navigation.CurrentVideo | playerHandler.js:252-256 | the current entry by priority: first pod entry with `data-scrolled`, else first active pod entry, else first active section entry; none exactly when none of these exists |
| Navigation.CurrentIndex | playerHandler.js:259-263 | nothing is found exactly when there is no current entry or it is not in the list walked; a found position holds the current entry |
| Navigation.PlayNext | playerHandler.js:248-315 | no current entry or a last one, nothing happens; otherwise the following entry is loaded and the marks are set exactly on its element; the address is set only on pod pages; the entry after it is published exactly when it exists, with its id, and with the address `https://www.bilibili.com/video/<id>` only on pod pages |
| Navigation.PlayNextMovesActiveOne | playerHandler.js:265-291 | on a pod list with entry k active, entry k+1 becomes the only active one and is the one loaded |
| Navigation.PlayNextMovesActiveSection | playerHandler.js:265-291 | on a section list with entry k active, entry k+1 becomes the only active one, without an address update |
| Navigation.PlayPrevious | playerHandler.js:327-362 | only the pod list counts; no marked entry or the first one, nothing happens; otherwise `data-scrolled` is set exactly on the element before, which is loaded and addressed, and the old current entry is published as next |
| Navigation.PlayPreviousMovesActiveOne | playerHandler.js:334-347 | on a pod list with entry k > 0 active, entry k-1 becomes the only active one and is the one loaded; nothing else changes |
| Navigation.NextThenPreviousRestores | playerHandler.js:248-362 | next then previous gives back the starting list, and previous publishes the entry that next had moved to |
| Navigation.PreviousThenNextRestores | playerHandler.js:248-362 | previous then next gives back the starting list |
| Navigation.LinkClick | playerHandler.js:32-61 | navigation is prevented exactly when the address contains `/video/BV`; the player reloads exactly when an id can be extracted and a player exists; only then do the active marks move to the entries with that id |
| Href.AlnumRun | playerHandler.js:38 | the run of letters and digits from a position: all of it alphanumeric, and it ends at the end of the text or before a non-alphanumeric character |
| Href.FirstMatch | playerHandler.js:38 | the leftmost position from which `/video/BV` and one more letter or digit follow; none exactly when no such position exists |
| Href.Capture | playerHandler.js:38 | what a match captures is `BV` and at least one letter or digit; it starts at the match's `BV` and ends at the end of the text or before the first character that is not a letter or digit |
| Href.ExtractBvid | playerHandler.js:38-39 | nothing exactly when the pattern does not occur; otherwise the capture of the leftmost match, `BV` followed by the longest alphanumeric run |
| Href.ExtractVideoUrl | playerHandler.js:38-39 | extracting the id from the site address of an id gives that id back |
| History.SelectionLayer | playerHandler.js:3-5 | the selection layer is installed exactly when the page had no pod entries |
| History.Call | playerHandler.js:13-27 | with the selection layer a missing url is dropped, without it the call throws; at most one call reaches the browser, with the same method and url, never one containing `video`; a `video` pushState never reaches it |
| History.Protected | playerHandler.js:127-136 | a missing url throws; a url containing `video` never reaches the browser; any call that does reach it has the same method and url |
| History.ForwardedExactly | playerHandler.js:13-27 | a url is forwarded unchanged exactly when it has no `video` and, with the selection layer, is not empty |
| History.OwnAddressUpdatesDropped | playerHandler.js:133-136 | the script's own `replaceState` of a site address never reaches the browser |
| Protection.RejectedIn | playerHandler.js:98-102 | the nodes to remove from one record are exactly its added nodes without the mark |
| Protection.Rejected | playerHandler.js:92-104 | with the flag set nothing is removed; otherwise exactly the unmarked nodes added by `childList` records on the pod list |
| Protection.RemoveAll | playerHandler.js:100 | removing the nodes one after another leaves exactly the entries whose identity is not among them, in their original order (`Outside`) |
| Protection.RemoveAllConcat | playerHandler.js:100 | removal acts on each part of a concatenation separately |
| Protection.RemoveAllSingle | playerHandler.js:100 | a single entry is removed exactly when its identity is among the nodes |
| Protection.Guard | playerHandler.js:92-104 | the list after the callback: unchanged with the flag set; otherwise exactly the entries whose node was not rejected, in their original order |
| Protection.GuardUndoesInsertion | playerHandler.js:92-104 | with the flag clear, a list into which the site inserted one unmarked entry at any position is exactly the list it was before |
| Protection.SiteInsertionRemoved | playerHandler.js:96-102 | an unmarked node the site adds to the pod list is gone after the callback when the flag is clear |
| Protection.MarkedBatchKept | playerHandler.js:93-102 | records that add only marked nodes remove nothing |
| Protection.ReverseSurvivesGuard | content.js:250-255 | the entries a reverse appends survive the callback whether or not the flag is set |
| Protection.ResetSurvivesGuard | content.js:329-357 | the entries a reset appends survive the callback whether or not the flag is set |

## Behaviour of the scripts worth knowing

- The entry click handler awaits `loadNewVideo` but ignores what it returns,
  so the active marks and the published next id change even when the load
  failed (content.js:208-232, `Playlist.ClickItem`).
- Reset matches by key, then falls back to the current entry at the same
  index before it makes a clone (content.js:331-333). That entry may already
  have been used, so the rebuilt list can be shorter than the snapshot and
  its keys can differ from the snapshot's (`Playlist.ResetCanDropEntries`).
  Key order is restored when every snapshot key is in the list and the
  snapshot's keys are distinct (`Playlist.ResetRestoresSnapshot`). It can also
  come back in other cases through the clones, for example when the list is
  empty and every entry is a clone of its snapshot entry.
- Reset puts no click handler on the entries it reuses; only clones get
  one. A reused entry that never had a handler still has none.
- A clone made by reset keeps the snapshot's `data-scrolled`. Only reused
  entries get their mark from the previously active key.
- The snapshot is retaken whenever the stored one is empty, including when
  the list it was taken from had no entries (content.js:25-26).
- `setupHistoryProtection` drops every url containing `video`, and that
  includes the page script's own address updates. On pod pages, next,
  previous and `loadNewVideo` therefore never change the address
  (`History.OwnAddressUpdatesDropped`).
- The content script runs in its own script world. There
  `window.setPlaylistCustomizing` is undefined, so the flag is never set
  during a reorder. The reorders survive the observer only because they mark
  every entry they append (`Protection.ReverseSurvivesGuard`,
  `Protection.ResetSurvivesGuard`).

## Left out

- Timers, polling and observers that only schedule work are not modelled:
  the setup retries, the button and `<video>` discovery, the periodic
  re-override of `player.next`/`prev`, the unload cleanup and debounce.
  Most of them decide only when an operation runs. The setup retries also
  change what later operations do: each retake of an empty snapshot calls
  `setupVideoNavigation` again (content.js:27, content.js:63), which injects
  `playerHandler.js` once more, and its `initialize` installs another pair of
  history layers, another listener on every video link and another `ended`
  listener (a new function object each time, playerHandler.js:320, so the
  browser does not drop it as a duplicate).
- Navigation.PlayNext, Navigation.LinkClick and History.Call describe a page
  with `playerHandler.js` injected once. After n injections one `ended`
  event runs the next step n times, each run starting from the marks the
  previous one set, so entries are skipped; one link click reloads n times;
  and each history call passes through n pairs of layers. Repeated
  injection is not modelled.
- Navigation.PlaylistType: `otherList` is an input. That an existing pod list
  makes it true is the predicate `Navigation.PodListPlaced`, which only
  `Navigation.NullOnlyWithoutPodList` requires. Whether the section list
  also sits under `.video-pod` cannot be read from the scripts, so an empty
  section list alone is not assumed to give `unknown`.
- The metadata `fetch` and `player.reload` are inputs. `Navigation.Reply`
  is the lookup's answer and `Navigation.Player` is how the reload behaves.
  `loadNewVideo` is not chained into the steps that call it: `PlayNext` and
  `PlayPrevious` report the id they hand over as `load`.
- The content script's own `loadNewVideo` (content.js:396-437) is present
  only as `ClickItem`'s `loaderPresent` flag, because the click handler
  ignores its result.
- `Math.random` is replaced by the `picks` input.
- `scrollIntoView`, cursor styles, buttons, icons and the error notice are
  UI with no effect on the lists.
- Script injection and the extension's message listener are messaging.
  The `updateNextVideo` listener only stores the published detail, which is
  the model's `published` output.
- The commented-out highlight protection and the files `videoHandler.js`
  and `popup.js` are not part of this model.
- Text nodes among the added nodes are not modelled; `hasAttribute` would
  throw on them.
- Queries over the whole document (`.video-pod__item` anywhere) are taken
  to return the list's entries. The selector `loadNewVideo` uses for an
  entry is taken to find pod entries before section entries, as in document
  order. `Page.otherList` stands for the `[class*="list"]` query.
- The click that `loadNewVideo` makes on a section page is reported as
  `clicked` and not chained into the site's own handler.
- An absent `data-key`, an empty one and the id `null` are all `""`. The
  address texts `.../video/null` and `.../video/` are not told apart.
- Dom.AppendChild: its own contract fixes the order of the other children
  only when the element was not a child yet. The case of an element that is
  already a child is stated by `Dom.AppendChildMoves`, for a list without
  repeated elements.
- Playlist.ReversePlaylist: the position-by-position contract is stated for
  lists without repeated elements, which every live node list is.
- Playlist.ShufflePlaylist: the permutation and front placement are stated
  for lists without repeated elements. The relative order of the other
  entries is stated by `Playlist.MoveToFront`, because the intermediate
  shuffled order is not part of the result.
- Playlist.ResetPlaylist: its own contract states only that a list stays a
  list and that every entry is marked. The contents are stated by
  `Playlist.ResetOrder`, `Playlist.ResetRestoresSnapshot` and
  `Playlist.ResetCanDropEntries`.
- Exceptions inside a reorder are not modelled. Nothing is left set by one:
  the content script never sets the flag (see above), and the reverse
  (content.js:246-262) has no `try`/`finally` around its work.
