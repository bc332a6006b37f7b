/** The two layers the page script puts over `history.pushState` and
    `history.replaceState`.

    setupHistoryProtection wraps the browser's methods first; on pages
    without a pod list blockUrlChangesForVideoSelections then wraps the
    wrapped methods again (the selection layer). A call from the site goes to
    the outermost layer. The protection layer's pushState forwards a video
    address to `history.replaceState`, which is looked up when it runs and so
    is the outermost replaceState again.
 */
module History {
  import opened Dom
  import Navigation

  datatype Method = PushState | ReplaceState

  /** A call that reached the browser's own method. */
  datatype NativeCall = NativeCall(kind: Method, url: string)

  /** The calls that reached the browser, or a TypeError thrown to the caller. */
  datatype Outcome = Reached(calls: seq<NativeCall>) | TypeError

  /** The selection layer is installed exactly when the page had no pod
      entries when the script started. */
  function SelectionLayer(page: Navigation.Page): (installed: bool)
    ensures installed <==> |Navigation.PodItems(page)| == 0
  {
    Navigation.PlaylistType(page) != Some(Navigation.Pod)
  }

  /** The selection layer lets a url through when it is present, non-empty
      and does not contain "/video/BV". */
  predicate SelectionPasses(url: Option<string>) {
    url.Some? && url.value != "" && !Contains(url.value, "/video/BV")
  }

  function Rank(m: Method): nat {
    if m.PushState? then 1 else 0
  }

  /** `history.pushState(…, url)` / `history.replaceState(…, url)` as the
      site sees it; `url` None stands for `undefined`. */
  function Call(m: Method, url: Option<string>, selection: bool): (r: Outcome)
    ensures r.TypeError? <==> url.None? && !selection
    ensures url.None? && selection ==> r == Reached([])
    ensures r.Reached? ==> |r.calls| <= 1
    ensures r.Reached? ==> forall c :: c in r.calls ==>
      c.kind == m && Some(c.url) == url && !Contains(c.url, "video")
    ensures m.PushState? && url.Some? && Contains(url.value, "video") ==> r == Reached([])
    decreases Rank(m), 1
  {
    if selection && !SelectionPasses(url) then Reached([])
    else Protected(m, url, selection)
  }

  /** The protection layer: addresses containing "video" never reach the
      browser; pushState hands them to replaceState instead. */
  function Protected(m: Method, url: Option<string>, selection: bool): (r: Outcome)
    ensures r.TypeError? <==> url.None?
    ensures r.Reached? ==> |r.calls| <= 1
    ensures r.Reached? ==> forall c :: c in r.calls ==>
      c.kind == m && Some(c.url) == url && !Contains(c.url, "video")
    ensures url.Some? && Contains(url.value, "video") ==> r == Reached([])
    decreases Rank(m), 0
  {
    match url
    case None => TypeError
    case Some(u) =>
      if !Contains(u, "video") then Reached([NativeCall(m, u)])
      else if m.PushState? then Call(ReplaceState, url, selection)
      else Reached([])
  }

  /** "video" occurs inside "/video/BV". */
  lemma MarkerHasVideo(u: string)
    requires Contains(u, "/video/BV")
    ensures Contains(u, "video")
  {
    var i :| 0 <= i <= |u| - 9 && OccursAt(u, "/video/BV", i);
    var m := u[i .. i + 9];
    assert m == "/video/BV";
    forall t | 0 <= t < 5 ensures u[i + 1 + t] == "video"[t] {
      assert u[i + 1 + t] == m[1 + t];
    }
    assert u[i + 1 .. i + 6] == "video";
    assert OccursAt(u, "video", i + 1);
  }

  /** A url is forwarded to the browser, unchanged and with the same method,
      exactly when it contains no "video" (and, with the selection layer, is
      not empty). */
  lemma ForwardedExactly(m: Method, u: string, selection: bool)
    ensures Call(m, Some(u), selection) == Reached([NativeCall(m, u)])
        <==> !Contains(u, "video") && (!selection || u != "")
  {
    if !Contains(u, "/video/BV") {
    } else {
      MarkerHasVideo(u);
    }
  }

  /** The address updates the page script makes itself (loadNewVideo, next,
      previous) go through both layers and are dropped: the site address
      always contains "video". */
  lemma OwnAddressUpdatesDropped(key: string, selection: bool)
    ensures Call(ReplaceState, Some(VideoUrl(key)), selection) == Reached([])
  {
    var s := VideoUrl(key);
    assert s[25 .. 30] == "video";
    assert OccursAt(s, "video", 25);
  }
}
