/** The navigation rules of the page script: which kind of list the page
    shows, which entry is playing, and what next / previous / load / link
    clicks do to the entries.
 */
module Navigation {
  import opened Dom
  import Href

  /** The two list layouts the site renders. `pod` is `.video-pod__list` with
      its `.video-pod__item` entries, `section` is `.video-section-list` with
      its `.video-section-list-item` entries; None when the element is absent.
      `otherList` is whether some element under `.video-pod` has "list" in
      its class name; the pod list itself is such an element. */
  datatype Page = Page(pod: Option<seq<Item>>, section: Option<seq<Item>>, otherList: bool)

  datatype ListKind = Pod | Section | Unknown

  function PodItems(page: Page): seq<Item> {
    page.pod.GetOr([])
  }

  function SectionItems(page: Page): seq<Item> {
    page.section.GetOr([])
  }

  /** The entries of both lists in document order, pod entries first. */
  function AllItems(page: Page): seq<Item> {
    PodItems(page) + SectionItems(page)
  }

  /** An element sits in at most one place of the document, so no element
      is listed twice, not even once in each list. */
  predicate ValidPage(page: Page) {
    DistinctNodes(AllItems(page))
  }

  lemma ValidPageParts(page: Page)
    requires ValidPage(page)
    ensures DistinctNodes(PodItems(page)) && DistinctNodes(SectionItems(page))
  {
    var pods, all := PodItems(page), AllItems(page);
    forall i, j | 0 <= i < j < |pods| ensures pods[i].node != pods[j].node {
      assert all[i] == pods[i] && all[j] == pods[j];
    }
    var sections := SectionItems(page);
    forall i, j | 0 <= i < j < |sections| ensures sections[i].node != sections[j].node {
      assert all[|pods| + i] == sections[i] && all[|pods| + j] == sections[j];
    }
  }

  /** Changing the attributes of pod entries, but not which elements they
      are, keeps a page valid. */
  lemma ValidPageRemarked(page: Page, after: seq<Item>)
    requires ValidPage(page)
    requires |after| == |PodItems(page)|
    requires forall i :: 0 <= i < |after| ==> after[i].node == PodItems(page)[i].node
    ensures ValidPage(page.(pod := Some(after)))
  {
    var all, all' := AllItems(page), AllItems(page.(pod := Some(after)));
    assert |all'| == |all|;
    forall i | 0 <= i < |all| ensures all'[i].node == all[i].node {
      if i < |after| {
        assert all'[i] == after[i] && all[i] == PodItems(page)[i];
      }
    }
  }

  /** getPlaylistType; None stands for `null`. */
  function PlaylistType(page: Page): (t: Option<ListKind>)
    ensures t == Some(Pod) <==> |PodItems(page)| > 0
    ensures t == Some(Section) <==> |PodItems(page)| == 0 && |SectionItems(page)| > 0
    ensures t == Some(Unknown) <==> |PodItems(page)| == 0 && |SectionItems(page)| == 0 && page.otherList
    ensures t.None? <==> |PodItems(page)| == 0 && |SectionItems(page)| == 0 && !page.otherList
  {
    if page.pod.Some? && |page.pod.value| > 0 then Some(Pod)
    else if page.section.Some? && |page.section.value| > 0 then Some(Section)
    else if page.otherList then Some(Unknown)
    else None
  }

  /** The pod list sits under `.video-pod` (the container the content script
      watches for it to appear) and its class contains "list", so whenever it
      exists the query for another list container finds at least it. */
  predicate PodListPlaced(page: Page) {
    page.pod.Some? ==> page.otherList
  }

  /** On a page where the pod list is placed as the site places it, the type
      is `null` only when there is no pod list at all and no section entry;
      an empty pod list gives `unknown`. */
  lemma NullOnlyWithoutPodList(page: Page)
    requires PodListPlaced(page)
    ensures PlaylistType(page).None? ==> page.pod.None? && |SectionItems(page)| == 0
    ensures page.pod == Some([]) && |SectionItems(page)| == 0 ==> PlaylistType(page) == Some(Unknown)
  {
  }

  /* ---------------------------------------------------------------------- */
  /* Set-active-by-key loops                                                 */

  /** The pod loop of loadNewVideo: `data-scrolled` is 'true' exactly on the
      entries whose key is `id`. */
  function ScrollToKey(items: seq<Item>, id: string): (r: seq<Item>)
    ensures |r| == |items|
    ensures forall k :: 0 <= k < |items| ==> (r[k].scrolled <==> items[k].key == id)
    ensures forall k :: 0 <= k < |items| ==> r[k].(scrolled := items[k].scrolled) == items[k]
  {
    SetScrolled(items, (it: Item) => it.key == id)
  }

  /** The section loops of loadNewVideo and of the link handler: class
      `active` exactly on the entries whose key is `id`, and `data-active`
      mirrors it wherever that attribute exists. */
  function ActivateKey(items: seq<Item>, id: string): (r: seq<Item>)
    ensures |r| == |items|
    ensures forall k :: 0 <= k < |items| ==> (r[k].active <==> items[k].key == id)
    ensures forall k :: 0 <= k < |items| ==>
      r[k].dataActive == (if items[k].dataActive.Some? then Some(items[k].key == id) else None)
    ensures forall k :: 0 <= k < |items| ==>
      r[k].(active := items[k].active, dataActive := items[k].dataActive) == items[k]
  {
    SetActive(items, (it: Item) => it.key == id)
  }

  function ActivateKeyIn(list: Option<seq<Item>>, id: string): Option<seq<Item>> {
    match list
    case None => None
    case Some(items) => Some(ActivateKey(items, id))
  }

  /** With unique keys, the loops leave exactly one entry marked when the key
      is on the list. */
  lemma ScrollToKeyUnique(items: seq<Item>, id: string, k: nat)
    requires k < |items| && items[k].key == id
    requires forall i, j :: 0 <= i < j < |items| ==> items[i].key != items[j].key
    ensures CountScrolled(ScrollToKey(items, id)) == 1
    ensures FirstScrolled(ScrollToKey(items, id)) == Some(k)
  {
    OnlyScrolledAt(ScrollToKey(items, id), k);
  }

  /* ---------------------------------------------------------------------- */
  /* loadNewVideo                                                            */

  /** The metadata lookup, which is not modelled: either it threw (network
      error, unreadable body) or it answered with a `code` and possibly a
      `data` object. */
  datatype Reply = Unreachable | Reply(code: int, hasData: bool)

  /** The lookup found the video: its answer has code 0 and a data object. */
  predicate Found(reply: Reply) {
    reply.Reply? && reply.code == 0 && reply.hasData
  }

  /** `window.player`: absent, or present and its `reload` either settles or throws. */
  datatype Player = NoPlayer | PlayerReloads | PlayerThrows

  /** What loadNewVideo did: the page afterwards, the address passed to
      `history.replaceState`, the entry it clicked, whether the player
      reloaded `id`, and the value it resolved to (None for `undefined`). */
  datatype Load = Load(page: Page, address: Option<string>, clicked: Option<NodeId>, reloaded: bool, returned: Option<bool>)

  /** The entry `querySelector` finds for `[data-key="id"]`, pod entries first. */
  function KeyedEntry(page: Page, id: string): (r: Option<NodeId>)
    ensures r.Some? <==> exists it :: it in AllItems(page) && it.key == id
    ensures r.Some? ==> exists k ::
      && 0 <= k < |AllItems(page)| && AllItems(page)[k].node == r.value && AllItems(page)[k].key == id
      && (forall j :: 0 <= j < k ==> AllItems(page)[j].key != id)
  {
    var all := AllItems(page);
    match FindFirst(all, (it: Item) => HasKey(id, it))
    case Some(k) => Some(all[k].node)
    case None => None
  }

  /** loadNewVideo of the page script. */
  function LoadNewVideo(page: Page, id: string, reply: Reply, player: Player): (r: Load)
    ensures reply.Unreachable? ==> r == Load(page, None, None, false, Some(false))
    ensures reply.Reply? && !Found(reply) ==> r == Load(page, None, None, false, None)
    ensures r.reloaded <==>
      && Found(reply) && player.PlayerReloads?
      && (PlaylistType(page) == Some(Pod) || KeyedEntry(page, id).None?)
    ensures r.clicked.Some? <==> Found(reply) && PlaylistType(page) != Some(Pod) && KeyedEntry(page, id).Some?
    ensures r.clicked.Some? ==>
      r.clicked == KeyedEntry(page, id) && r.page == page && r.returned == Some(true)
    ensures Found(reply) && player.NoPlayer? && r.clicked.None? ==> r.returned.None?
    ensures Found(reply) && player.PlayerThrows? && r.clicked.None? ==> r.returned == Some(false)
    ensures r.address.Some? <==>
      Found(reply) && !player.NoPlayer? && PlaylistType(page) == Some(Pod)
    ensures r.address.Some? ==> r.address.value == VideoUrl(id)
    ensures r.reloaded && PlaylistType(page) == Some(Pod) ==>
      && r.page == page.(pod := Some(ScrollToKey(PodItems(page), id)))
      && r.returned == Some(true)
    ensures r.reloaded && PlaylistType(page) != Some(Pod) ==>
      && r.page == page.(pod := ActivateKeyIn(page.pod, id), section := ActivateKeyIn(page.section, id))
      && r.returned == Some(true)
    ensures !r.reloaded ==> r.page == page
  {
    match reply
    case Unreachable => Load(page, None, None, false, Some(false))
    case Reply(code, hasData) =>
      if !(code == 0 && hasData) then Load(page, None, None, false, None)
      else
        var kind := PlaylistType(page);
        var target := KeyedEntry(page, id);
        if kind != Some(Pod) && target.Some? then Load(page, None, target, false, Some(true))
        else if player.NoPlayer? then Load(page, None, None, false, None)
        else
          var address := if kind == Some(Pod) then Some(VideoUrl(id)) else None;
          if player.PlayerThrows? then Load(page, address, None, false, Some(false))
          else if kind == Some(Pod) then
            Load(page.(pod := Some(ScrollToKey(PodItems(page), id))), address, None, true, Some(true))
          else
            Load(page.(pod := ActivateKeyIn(page.pod, id), section := ActivateKeyIn(page.section, id)),
                 address, None, true, Some(true))
  }

  /** Loading the video of pod entry `k` through the player makes that entry
      the one playing, so a next step afterwards loads entry `k + 1`. */
  lemma LoadMakesCurrent(page: Page, id: string, reply: Reply, k: nat)
    requires ValidPage(page) && Found(reply)
    requires k < |PodItems(page)| && PodItems(page)[k].key == id
    requires forall i, j :: 0 <= i < j < |PodItems(page)| ==> PodItems(page)[i].key != PodItems(page)[j].key
    ensures var after := LoadNewVideo(page, id, reply, PlayerReloads).page;
      && ValidPage(after)
      && CurrentIndex(after) == Some(k)
      && (k + 1 < |PodItems(page)| ==> PlayNext(after).load == Some(PodItems(page)[k + 1].key))
  {
    var pods := PodItems(page);
    var marked := ScrollToKey(pods, id);
    var after := LoadNewVideo(page, id, reply, PlayerReloads).page;
    assert after == page.(pod := Some(marked));
    ValidPageRemarked(page, marked);
    ScrollToKeyUnique(pods, id, k);
    ValidPageParts(after);
    IndexOfDistinct(marked, k);
    assert NavList(after) == marked;
  }

  /* ---------------------------------------------------------------------- */
  /* Next / previous                                                         */

  /** The effect of a navigation step: the page afterwards, the address passed
      to `history.replaceState`, the id passed to `loadNewVideo`, and the
      `updateNextVideo` detail dispatched. */
  datatype Step = Step(page: Page, address: Option<string>, load: Option<string>, published: Option<NextVideo>)

  function Unchanged(page: Page): Step {
    Step(page, None, None, None)
  }

  /** The entry playNextCustomVideo treats as playing: the first pod entry
      with `data-scrolled`, else the first pod entry with class `active`,
      else the first section entry with class `active`. */
  function CurrentVideo(page: Page): (r: Option<NodeId>)
    ensures var pods, sections := PodItems(page), SectionItems(page);
      && (FirstScrolled(pods).Some? ==> r == Some(pods[FirstScrolled(pods).value].node))
      && (FirstScrolled(pods).None? && FindFirst(pods, IsActive).Some? ==>
            r == Some(pods[FindFirst(pods, IsActive).value].node))
      && (FirstScrolled(pods).None? && FindFirst(pods, IsActive).None? && FindFirst(sections, IsActive).Some? ==>
            r == Some(sections[FindFirst(sections, IsActive).value].node))
      && (r.None? <==>
            FirstScrolled(pods).None? && FindFirst(pods, IsActive).None? && FindFirst(sections, IsActive).None?)
  {
    var pods, sections := PodItems(page), SectionItems(page);
    match FirstScrolled(pods)
    case Some(k) => Some(pods[k].node)
    case None =>
      match FindFirst(pods, IsActive)
      case Some(k) => Some(pods[k].node)
      case None =>
        match FindFirst(sections, IsActive)
        case Some(k) => Some(sections[k].node)
        case None => None
  }

  /** The list playNextCustomVideo walks: the pod entries if there are any,
      else the section entries. */
  function NavList(page: Page): seq<Item> {
    if |PodItems(page)| > 0 then PodItems(page) else SectionItems(page)
  }

  /** The position of the playing entry in `NavList`. */
  function CurrentIndex(page: Page): (r: Option<nat>)
    requires ValidPage(page)
    ensures r.None? <==> CurrentVideo(page).None? || !HasNode(NavList(page), CurrentVideo(page).value)
    ensures r.Some? ==> r.value < |NavList(page)| && CurrentVideo(page) == Some(NavList(page)[r.value].node)
  {
    match CurrentVideo(page)
    case None => None
    case Some(n) => IndexOfNode(NavList(page), n)
  }

  /** playNextCustomVideo. */
  function PlayNext(page: Page): (s: Step)
    requires ValidPage(page)
    ensures var list, at := NavList(page), CurrentIndex(page);
      at.None? || at.value + 1 >= |list| ==> s == Unchanged(page)
    ensures var list, at := NavList(page), CurrentIndex(page);
      at.Some? && at.value + 1 < |list| ==>
        var next := list[at.value + 1];
        && s.load == Some(next.key)
        && s.address == (if PlaylistType(page) == Some(Pod) then Some(VideoUrl(next.key)) else None)
        && (s.published.Some? <==> at.value + 2 < |list|)
        && (s.published.Some? ==>
              && s.published.value.id == list[at.value + 2].key
              && (s.published.value.url.Some? <==> PlaylistType(page) == Some(Pod))
              && (s.published.value.url.Some? ==> s.published.value.url.value == VideoUrl(list[at.value + 2].key)))
    ensures var list, at := NavList(page), CurrentIndex(page);
      at.Some? && at.value + 1 < |list| && |PodItems(page)| > 0 ==>
        && s.page.section == page.section && s.page.otherList == page.otherList
        && s.page.pod == Some(SetScrolled(PodItems(page), (it: Item) => it.node == list[at.value + 1].node))
    ensures var list, at := NavList(page), CurrentIndex(page);
      at.Some? && at.value + 1 < |list| && |PodItems(page)| == 0 ==>
        && s.page.pod == page.pod && s.page.otherList == page.otherList
        && s.page.section == Some(SetActive(SectionItems(page), (it: Item) => it.node == list[at.value + 1].node))
  {
    var list := NavList(page);
    match CurrentIndex(page)
    case None => Unchanged(page)
    case Some(i) =>
      if i + 1 >= |list| then Unchanged(page)
      else
        var next := list[i + 1];
        var pod := PlaylistType(page) == Some(Pod);
        var address := if pod then Some(VideoUrl(next.key)) else None;
        var newPage :=
          if |PodItems(page)| > 0 then page.(pod := Some(SetScrolled(list, (it: Item) => it.node == next.node)))
          else page.(section := Some(SetActive(list, (it: Item) => it.node == next.node)));
        var published :=
          if i + 2 < |list| then
            Some(NextVideo(list[i + 2].key, if pod then Some(VideoUrl(list[i + 2].key)) else None))
          else None;
        Step(newPage, address, Some(next.key), published)
  }

  /** On a pod list whose entry `k` is the only one playing, a next step
      makes entry `k + 1` the only one playing. */
  lemma PlayNextMovesActiveOne(page: Page, k: nat)
    requires ValidPage(page)
    requires k + 1 < |PodItems(page)|
    requires forall i :: 0 <= i < |PodItems(page)| ==> (PodItems(page)[i].scrolled <==> i == k)
    ensures var after := PodItems(PlayNext(page).page);
      && |after| == |PodItems(page)|
      && (forall i :: 0 <= i < |after| ==> after[i] == PodItems(page)[i].(scrolled := i == k + 1))
      && CountScrolled(after) == 1
      && PlayNext(page).page == page.(pod := Some(after))
    ensures PlayNext(page).load == Some(PodItems(page)[k + 1].key)
  {
    var pods := PodItems(page);
    ValidPageParts(page);
    assert pods[k].scrolled;
    assert FirstScrolled(pods) == Some(k);
    IndexOfDistinct(pods, k);
    assert CurrentIndex(page) == Some(k);
    var after := PodItems(PlayNext(page).page);
    forall i | 0 <= i < |after| ensures after[i] == pods[i].(scrolled := i == k + 1) {
      assert after[i].scrolled <==> pods[i].node == pods[k + 1].node;
    }
    OnlyScrolledAt(after, k + 1);
  }

  /** On a page without pod entries whose section entry `k` is the only
      active one, a next step makes entry `k + 1` the only active one and
      publishes no address. */
  lemma PlayNextMovesActiveSection(page: Page, k: nat)
    requires |PodItems(page)| == 0
    requires ValidPage(page)
    requires k + 1 < |SectionItems(page)|
    requires forall i :: 0 <= i < |SectionItems(page)| ==> (SectionItems(page)[i].active <==> i == k)
    ensures var after := SectionItems(PlayNext(page).page);
      && |after| == |SectionItems(page)|
      && forall i :: 0 <= i < |after| ==> (after[i].active <==> i == k + 1)
    ensures PlayNext(page).address.None?
    ensures PlayNext(page).load == Some(SectionItems(page)[k + 1].key)
  {
    var sections := SectionItems(page);
    ValidPageParts(page);
    assert IsActive(sections[k]);
    assert FindFirst(sections, IsActive) == Some(k);
    IndexOfDistinct(sections, k);
    assert CurrentIndex(page) == Some(k);
    var after := SectionItems(PlayNext(page).page);
    forall i | 0 <= i < |after| ensures after[i].active <==> i == k + 1 {
      assert after[i].active <==> sections[i].node == sections[k + 1].node;
    }
  }

  /** playPreviousVideo: only the pod list is consulted, through its
      `data-scrolled` entry. */
  function PlayPrevious(page: Page): (s: Step)
    ensures var pods := PodItems(page);
      FirstScrolled(pods).None? ==> s == Unchanged(page)
    ensures var pods := PodItems(page);
      FirstScrolled(pods).Some? ==>
        var cur := pods[FirstScrolled(pods).value];
        var at := IndexOfNode(pods, cur.node);
        && (at.value == 0 ==> s == Unchanged(page))
        && (at.value > 0 ==>
              var prev := pods[at.value - 1];
              && s.load == Some(prev.key)
              && s.address == Some(VideoUrl(prev.key))
              && s.published == Some(NextVideo(cur.key, Some(VideoUrl(cur.key))))
              && s.page == page.(pod := Some(SetScrolled(pods, (it: Item) => it.node == prev.node))))
  {
    var pods := PodItems(page);
    match FirstScrolled(pods)
    case None => Unchanged(page)
    case Some(c) =>
      var cur := pods[c];
      match IndexOfNode(pods, cur.node)
      case None => Unchanged(page)
      case Some(i) =>
        if i == 0 then Unchanged(page)
        else
          var prev := pods[i - 1];
          Step(page.(pod := Some(SetScrolled(pods, (it: Item) => it.node == prev.node))),
               Some(VideoUrl(prev.key)), Some(prev.key),
               Some(NextVideo(cur.key, Some(VideoUrl(cur.key)))))
  }

  /** On a pod list whose entry `k > 0` is the only playing one, a previous
      step makes entry `k - 1` the only playing one. */
  lemma PlayPreviousMovesActiveOne(page: Page, k: nat)
    requires DistinctNodes(PodItems(page))
    requires 0 < k < |PodItems(page)|
    requires forall i :: 0 <= i < |PodItems(page)| ==> (PodItems(page)[i].scrolled <==> i == k)
    ensures var after := PodItems(PlayPrevious(page).page);
      && |after| == |PodItems(page)|
      && (forall i :: 0 <= i < |after| ==> after[i] == PodItems(page)[i].(scrolled := i == k - 1))
      && CountScrolled(after) == 1
      && PlayPrevious(page).page == page.(pod := Some(after))
    ensures PlayPrevious(page).load == Some(PodItems(page)[k - 1].key)
  {
    var pods := PodItems(page);
    assert FirstScrolled(pods) == Some(k);
    IndexOfDistinct(pods, k);
    var after := PodItems(PlayPrevious(page).page);
    forall i | 0 <= i < |after| ensures after[i] == pods[i].(scrolled := i == k - 1) {
      assert after[i].scrolled <==> pods[i].node == pods[k - 1].node;
    }
    OnlyScrolledAt(after, k - 1);
  }

  /** Marking entry `j` alone on a list whose entry `k` alone was marked, and
      then entry `k` alone again, gives back the list. */
  lemma RemarkRestores(pods: seq<Item>, after: seq<Item>, back: seq<Item>, k: nat, j: nat)
    requires k < |pods| && j < |pods|
    requires forall i :: 0 <= i < |pods| ==> (pods[i].scrolled <==> i == k)
    requires |after| == |pods| && forall i :: 0 <= i < |pods| ==> after[i] == pods[i].(scrolled := i == j)
    requires |back| == |pods| && forall i :: 0 <= i < |pods| ==> back[i] == after[i].(scrolled := i == k)
    ensures back == pods
  {
    forall i | 0 <= i < |pods| ensures back[i] == pods[i] {
    }
  }

  lemma DistinctAfterRemark(pods: seq<Item>, after: seq<Item>, j: nat)
    requires DistinctNodes(pods)
    requires |after| == |pods| && forall i :: 0 <= i < |pods| ==> after[i] == pods[i].(scrolled := i == j)
    ensures DistinctNodes(after)
  {
    forall i, m | 0 <= i < m < |after| ensures after[i].node != after[m].node {
      assert after[i].node == pods[i].node && after[m].node == pods[m].node;
    }
  }

  /** Next then previous, on a pod list with one playing entry that is not the
      last, gives back the page it started from; previous publishes the entry
      that next had moved to. */
  lemma NextThenPreviousRestores(page: Page, k: nat)
    requires ValidPage(page)
    requires k + 1 < |PodItems(page)|
    requires forall i :: 0 <= i < |PodItems(page)| ==> (PodItems(page)[i].scrolled <==> i == k)
    ensures PlayPrevious(PlayNext(page).page).page == page
    ensures PlayPrevious(PlayNext(page).page).published
      == Some(NextVideo(PodItems(page)[k + 1].key, Some(VideoUrl(PodItems(page)[k + 1].key))))
  {
    var pods := PodItems(page);
    ValidPageParts(page);
    PlayNextMovesActiveOne(page, k);
    var mid := PlayNext(page).page;
    var after := PodItems(mid);
    DistinctAfterRemark(pods, after, k + 1);
    PlayPreviousMovesActiveOne(mid, k + 1);
    var back := PodItems(PlayPrevious(mid).page);
    RemarkRestores(pods, after, back, k, k + 1);
    assert FirstScrolled(after) == Some(k + 1);
    IndexOfDistinct(after, k + 1);
  }

  /** Previous then next, from a playing entry that is not the first, gives
      back the page it started from. */
  lemma PreviousThenNextRestores(page: Page, k: nat)
    requires ValidPage(page)
    requires 0 < k < |PodItems(page)|
    requires forall i :: 0 <= i < |PodItems(page)| ==> (PodItems(page)[i].scrolled <==> i == k)
    ensures ValidPage(PlayPrevious(page).page) && PlayNext(PlayPrevious(page).page).page == page
  {
    var pods := PodItems(page);
    ValidPageParts(page);
    PlayPreviousMovesActiveOne(page, k);
    var mid := PlayPrevious(page).page;
    var after := PodItems(mid);
    ValidPageRemarked(page, after);
    DistinctAfterRemark(pods, after, k - 1);
    PlayNextMovesActiveOne(mid, k - 1);
    var back := PodItems(PlayNext(mid).page);
    RemarkRestores(pods, after, back, k, k - 1);
  }

  /* ---------------------------------------------------------------------- */
  /* Link clicks in the selection list                                       */

  /** What the capturing click listener on a list link did: whether it
      prevented the site's navigation, the id it passed to `player.reload`,
      and the page. */
  datatype LinkEffect = LinkEffect(prevented: bool, reload: Option<string>, page: Page)

  /** The click listener blockUrlChangesForVideoSelections puts on the links
      of both lists; `href` is the link's absolute address. Without a player
      the call to `reload` throws and the active state is left alone. */
  function LinkClick(page: Page, href: string, playerPresent: bool): (e: LinkEffect)
    ensures e.prevented <==> Contains(href, "/video/BV")
    ensures e.reload.Some? <==> e.prevented && Href.ExtractBvid(href).Some? && playerPresent
    ensures e.reload.Some? ==>
      && e.reload == Href.ExtractBvid(href)
      && e.page == page.(pod := ActivateKeyIn(page.pod, e.reload.value), section := ActivateKeyIn(page.section, e.reload.value))
    ensures e.reload.None? ==> e.page == page
  {
    if href != "" && Contains(href, "/video/BV") then
      match Href.ExtractBvid(href)
      case None => LinkEffect(true, None, page)
      case Some(id) =>
        if !playerPresent then LinkEffect(true, None, page)
        else LinkEffect(true, Some(id), page.(pod := ActivateKeyIn(page.pod, id), section := ActivateKeyIn(page.section, id)))
    else LinkEffect(false, None, page)
  }
}
