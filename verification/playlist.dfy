/** The playlist manager of the content script: the snapshot of the original
    order, the reverse / shuffle / reset controls, and the click handler they
    install on every entry. `list` is the content of `.video-pod__list`, None
    when the page has no such element (every control then returns at once).
 */
module Playlist {
  import opened Dom

  /** Reverse and shuffle set `data-our-change` on each entry before moving it
      and reinstall the click handler on it afterwards. */
  function Adopt(it: Item): Item {
    it.(ourChange := true, hasHandler := true)
  }

  function AdoptAll(items: seq<Item>): (r: seq<Item>)
    ensures |r| == |items|
    ensures forall k :: 0 <= k < |items| ==> r[k] == Adopt(items[k])
  {
    seq(|items|, k requires 0 <= k < |items| => Adopt(items[k]))
  }

  lemma {:induction false} AdoptAllKeepsCount(items: seq<Item>)
    ensures CountScrolled(AdoptAll(items)) == CountScrolled(items)
    decreases |items|
  {
    if |items| > 0 {
      assert AdoptAll(items)[1..] == AdoptAll(items[1..]);
      AdoptAllKeepsCount(items[1..]);
    }
  }

  /* ---------------------------------------------------------------------- */
  /* Snapshot                                                                */

  /** `cloneNode(true)`: a new element with every attribute of the original;
      the `onclick` property is not copied. */
  function CloneNode(it: Item, node: NodeId): Item {
    it.(node := node, hasHandler := false)
  }

  /** saveOriginalOrder: one clone per entry, the clones numbered from `firstId`. */
  function SaveOriginalOrder(items: seq<Item>, firstId: NodeId): (snapshot: seq<Item>)
    requires FreshFrom(items, firstId)
    ensures |snapshot| == |items|
    ensures Keys(snapshot) == Keys(items)
    ensures forall k :: 0 <= k < |items| ==>
      && snapshot[k].scrolled == items[k].scrolled
      && snapshot[k].active == items[k].active
      && snapshot[k].dataActive == items[k].dataActive
      && snapshot[k].ourChange == items[k].ourChange
      && !snapshot[k].hasHandler
    ensures DistinctNodes(snapshot)
    ensures forall k :: 0 <= k < |snapshot| ==> firstId <= snapshot[k].node && !HasNode(items, snapshot[k].node)
  {
    var snapshot := seq(|items|, k requires 0 <= k < |items| => CloneNode(items[k], firstId + k));
    assert forall k :: 0 <= k < |items| ==> snapshot[k] == CloneNode(items[k], firstId + k);
    assert DistinctNodes(snapshot) by {
      forall i, j | 0 <= i < j < |snapshot| ensures snapshot[i].node != snapshot[j].node {
        assert snapshot[i].node == firstId + i && snapshot[j].node == firstId + j;
      }
    }
    SameKeys(snapshot, items);
    snapshot
  }

  /** The guard shared by the playlist observer and the setup interval:
      the snapshot is taken while none is kept and the list exists. */
  function ObservePlaylist(snapshot: seq<Item>, list: Option<seq<Item>>, firstId: NodeId): (r: seq<Item>)
    requires list.Some? ==> FreshFrom(list.value, firstId)
    ensures |snapshot| > 0 || list.None? ==> r == snapshot
    ensures |snapshot| == 0 && list.Some? ==> |r| == |list.value| && Keys(r) == Keys(list.value)
  {
    if list.Some? && |snapshot| == 0 then SaveOriginalOrder(list.value, firstId) else snapshot
  }

  /* ---------------------------------------------------------------------- */
  /* Reverse                                                                 */

  function Reversed<T>(s: seq<T>): (r: seq<T>)
    ensures |r| == |s|
    ensures forall k :: 0 <= k < |s| ==> r[k] == s[|s| - 1 - k]
    ensures multiset(r) == multiset(s)
  {
    if |s| == 0 then []
    else
      assert s == [s[0]] + s[1..];
      Reversed(s[1..]) + [s[0]]
  }

  /** reversePlaylist: the entries are marked, detached, appended back in
      reverse order and given click handlers. */
  function ReversePlaylist(list: Option<seq<Item>>): (r: Option<seq<Item>>)
    ensures list.None? <==> r.None?
    ensures list.Some? && DistinctNodes(list.value) ==>
      && |r.value| == |list.value|
      && (forall k :: 0 <= k < |list.value| ==> r.value[k] == Adopt(list.value[|list.value| - 1 - k]))
  {
    match list
    case None => None
    case Some(items) =>
      var order := Reversed(AdoptAll(items));
      assert DistinctNodes(items) ==> DistinctNodes(order) by {
        if DistinctNodes(items) {
          forall i, j | 0 <= i < j < |order| ensures order[i].node != order[j].node {
            assert order[i].node == items[|items| - 1 - i].node;
            assert order[j].node == items[|items| - 1 - j].node;
          }
        }
      }
      Some(Rebuild(order))
  }

  /** Reversing twice gives back the original order; only the
      `data-our-change` marks and the handlers remain. */
  lemma ReverseInvolution(items: seq<Item>)
    requires DistinctNodes(items)
    ensures ReversePlaylist(ReversePlaylist(Some(items))) == Some(AdoptAll(items))
  {
    var once := ReversePlaylist(Some(items)).value;
    ReverseIsReversed(items);
    ReverseKeepsDistinct(items);
    ReverseIsReversed(once);
    ReversedAdoptTwice(items);
  }

  lemma ReversedAdoptTwice(items: seq<Item>)
    ensures Reversed(AdoptAll(Reversed(AdoptAll(items)))) == AdoptAll(items)
  {
    var n := |items|;
    var adopted := AdoptAll(items);
    var once := Reversed(adopted);
    var adopted' := AdoptAll(once);
    var twice := Reversed(adopted');
    assert |twice| == n;
    forall k | 0 <= k < n ensures twice[k] == adopted[k] {
      assert twice[k] == adopted'[n - 1 - k];
      assert adopted'[n - 1 - k] == Adopt(once[n - 1 - k]);
      assert once[n - 1 - k] == adopted[k];
    }
  }

  lemma ReverseKeepsDistinct(items: seq<Item>)
    requires DistinctNodes(items)
    ensures DistinctNodes(ReversePlaylist(Some(items)).value)
  {
    var n := |items|;
    var once := ReversePlaylist(Some(items)).value;
    forall i, j | 0 <= i < j < n ensures once[i].node != once[j].node {
      assert once[i].node == items[n - 1 - i].node;
      assert once[j].node == items[n - 1 - j].node;
    }
  }

  /** Reverse keeps every entry's active marker: the entry that was playing is
      still the one marked. */
  lemma ReverseKeepsActive(items: seq<Item>)
    requires DistinctNodes(items)
    ensures forall k :: 0 <= k < |items| ==>
      ReversePlaylist(Some(items)).value[|items| - 1 - k].scrolled == items[k].scrolled
  {
    var n := |items|;
    var r := ReversePlaylist(Some(items)).value;
    forall k | 0 <= k < n ensures r[n - 1 - k].scrolled == items[k].scrolled {
      assert r[n - 1 - k] == Adopt(items[n - 1 - (n - 1 - k)]);
    }
  }

  /** ... and the number of marked entries is unchanged. */
  lemma ReverseKeepsCount(items: seq<Item>)
    requires DistinctNodes(items)
    ensures CountScrolled(ReversePlaylist(Some(items)).value) == CountScrolled(items)
  {
    var adopted := AdoptAll(items);
    ReverseIsReversed(items);
    CountScrolledPermutation(Reversed(adopted), adopted);
    AdoptAllKeepsCount(items);
  }

  lemma ReverseIsReversed(items: seq<Item>)
    requires DistinctNodes(items)
    ensures ReversePlaylist(Some(items)).value == Reversed(AdoptAll(items))
  {
    var r := ReversePlaylist(Some(items)).value;
    var adopted := AdoptAll(items);
    var rev := Reversed(adopted);
    forall k | 0 <= k < |items| ensures r[k] == rev[k] {
      assert rev[k] == adopted[|items| - 1 - k];
    }
  }

  /* ---------------------------------------------------------------------- */
  /* Shuffle                                                                 */

  /** The random draws of the shuffle: at step `i` a whole number from 0 to
      `i` inclusive. */
  predicate ValidPicks(picks: seq<nat>, n: nat) {
    |picks| == n && forall i :: 0 < i < n ==> picks[i] <= i
  }

  /** The Fisher-Yates loop of shufflePlaylist: for `i` from the last index
      down to 1, swap positions `i` and `picks[i]`. */
  method FisherYates(items: seq<Item>, picks: seq<nat>) returns (s: seq<Item>)
    requires ValidPicks(picks, |items|)
    ensures |s| == |items|
    ensures multiset(s) == multiset(items)
    ensures DistinctNodes(items) ==> DistinctNodes(s)
  {
    s := items;
    var i := |items| - 1;
    while i > 0
      invariant i < |items|
      invariant |s| == |items|
      invariant multiset(s) == multiset(items)
      invariant DistinctNodes(items) ==> DistinctNodes(s)
    {
      var j := picks[i];
      var t := s[i := s[j]][j := s[i]];
      assert DistinctNodes(s) ==> DistinctNodes(t) by {
        if DistinctNodes(s) {
          forall a, b | 0 <= a < b < |t| ensures t[a].node != t[b].node {
            var a' := if a == i then j else if a == j then i else a;
            var b' := if b == i then j else if b == j then i else b;
            assert t[a] == s[a'] && t[b] == s[b'] && a' != b';
          }
        }
      }
      s := t;
      i := i - 1;
    }
  }

  /** The splice-and-unshift after the loop: the entry whose node is `active`
      goes to the front. */
  function MoveToFront(s: seq<Item>, active: NodeId): (r: seq<Item>)
    ensures |r| == |s|
    ensures multiset(r) == multiset(s)
    ensures HasNode(s, active) ==> r[0].node == active
    ensures !HasNode(s, active) ==> r == s
    ensures RemoveNode(r, active) == RemoveNode(s, active)
    ensures DistinctNodes(s) ==> DistinctNodes(r)
  {
    match IndexOfNode(s, active)
    case None => s
    case Some(k) =>
      if k == 0 then s
      else
        SpliceToFront(s, k);
        [s[k]] + s[..k] + s[k + 1..]
  }

  lemma SpliceToFront(s: seq<Item>, k: nat)
    requires 0 < k < |s|
    ensures var r := [s[k]] + s[..k] + s[k + 1..];
      && multiset(r) == multiset(s)
      && RemoveNode(r, s[k].node) == RemoveNode(s, s[k].node)
      && (DistinctNodes(s) ==> DistinctNodes(r))
  {
    SplitAt(s, k);
    SpliceKeepsOthers(s[..k], s[k], s[k + 1..]);
    if DistinctNodes(s) {
      SpliceKeepsDistinct(s, k);
    }
  }

  lemma SplitAt(s: seq<Item>, k: nat)
    requires k < |s|
    ensures s == s[..k] + [s[k]] + s[k + 1..]
  {
  }

  lemma SpliceKeepsOthers(front: seq<Item>, x: Item, back: seq<Item>)
    ensures RemoveNode([x] + front + back, x.node) == RemoveNode(front + [x] + back, x.node)
  {
    var n := x.node;
    RemoveNodeConcat([x] + front, back, n);
    RemoveNodeConcat([x], front, n);
    RemoveNodeConcat(front + [x], back, n);
    RemoveNodeConcat(front, [x], n);
    assert RemoveNode([x], n) == [];
  }

  lemma SpliceKeepsDistinct(s: seq<Item>, k: nat)
    requires 0 < k < |s|
    requires DistinctNodes(s)
    ensures DistinctNodes([s[k]] + s[..k] + s[k + 1..])
  {
    var r := [s[k]] + s[..k] + s[k + 1..];
    forall a, b | 0 <= a < b < |r| ensures r[a].node != r[b].node {
      var a' := if a == 0 then k else if a <= k then a - 1 else a;
      var b' := if b == 0 then k else if b <= k then b - 1 else b;
      assert r[a] == s[a'] && r[b] == s[b'] && a' != b';
    }
  }

  /** shufflePlaylist: a permutation of the marked entries in which the entry
      that was playing comes first. */
  method ShufflePlaylist(list: Option<seq<Item>>, picks: seq<nat>) returns (r: Option<seq<Item>>)
    requires list.Some? ==> ValidPicks(picks, |list.value|)
    ensures list.None? <==> r.None?
    ensures list.Some? && DistinctNodes(list.value) ==>
      && |r.value| == |list.value|
      && multiset(r.value) == multiset(AdoptAll(list.value))
      && CountScrolled(r.value) == CountScrolled(list.value)
    ensures list.Some? && DistinctNodes(list.value) && FirstScrolled(list.value).Some? ==>
      r.value[0] == Adopt(list.value[FirstScrolled(list.value).value])
  {
    if list.None? {
      return None;
    }
    var items := AdoptAll(list.value);
    var active := FirstScrolled(list.value);
    var shuffled := FisherYates(items, picks);
    var order := shuffled;
    if active.Some? {
      var node := items[active.value].node;
      order := MoveToFront(shuffled, node);
      if DistinctNodes(list.value) {
        assert items[active.value] in multiset(shuffled);
        assert HasNode(shuffled, node);
        var f :| 0 <= f < |shuffled| && shuffled[f] == items[active.value];
        assert order[0] in multiset(items);
      }
    }
    r := Some(Rebuild(order));
    if DistinctNodes(list.value) {
      CountScrolledPermutation(r.value, items);
      AdoptAllKeepsCount(list.value);
    }
  }

  /* ---------------------------------------------------------------------- */
  /* Reset                                                                   */

  /** The key of the first pod entry marked `data-scrolled`, read before the
      reset; None when no entry is marked (the script then has `undefined`). */
  function ScrolledKey(items: seq<Item>): (r: Option<string>)
    ensures r.Some? <==> exists k :: 0 <= k < |items| && items[k].scrolled
    ensures r.Some? ==> exists k ::
      && 0 <= k < |items| && items[k].scrolled && r.value == items[k].key
      && (forall j :: 0 <= j < k ==> !items[j].scrolled)
  {
    match FirstScrolled(items)
    case None => None
    case Some(k) => Some(items[k].key)
  }

  /** A current entry taken over by the reset: marked, and active exactly
      when its key is the key that was active. */
  function Reuse(it: Item, activeKey: Option<string>): Item {
    it.(ourChange := true, scrolled := activeKey == Some(it.key))
  }

  /** The entry resetPlaylist puts at position `k` of the snapshot: the first
      current entry with that key, else the current entry at the same index,
      else a handled, marked clone of the snapshot entry. */
  function ResetEntry(current: seq<Item>, snapshot: seq<Item>, k: nat, activeKey: Option<string>, firstId: NodeId): (r: Item)
    requires k < |snapshot| && FreshFrom(current, firstId)
    ensures r.ourChange
    ensures (exists m :: 0 <= m < |current| && current[m].key == snapshot[k].key) ==>
      && r.key == snapshot[k].key
      && (exists m ::
            && 0 <= m < |current| && current[m].key == snapshot[k].key
            && r == Reuse(current[m], activeKey)
            && (forall j :: 0 <= j < m ==> current[j].key != snapshot[k].key))
      && (r.scrolled <==> activeKey == Some(snapshot[k].key))
    ensures (forall m :: 0 <= m < |current| ==> current[m].key != snapshot[k].key) ==>
      if k < |current| then r == Reuse(current[k], activeKey)
      else r.node == firstId + k && r == Adopt(snapshot[k].(node := firstId + k))
    ensures HasNode(current, r.node) <==> r.node < firstId
  {
    match FindFirst(current, (it: Item) => HasKey(snapshot[k].key, it))
    case Some(m) => Reuse(current[m], activeKey)
    case None =>
      if k < |current| then Reuse(current[k], activeKey)
      else Adopt(CloneNode(snapshot[k], firstId + k))
  }

  /** The array `items` that resetPlaylist builds before appending. */
  function ResetOrder(current: seq<Item>, snapshot: seq<Item>, firstId: NodeId): (r: seq<Item>)
    requires FreshFrom(current, firstId)
    ensures |r| == |snapshot|
    ensures forall k :: 0 <= k < |snapshot| ==> r[k].ourChange
    ensures forall k :: 0 <= k < |snapshot| && (exists m :: 0 <= m < |current| && current[m].key == snapshot[k].key) ==>
      && r[k].key == snapshot[k].key
      && (exists m ::
            && 0 <= m < |current| && current[m].key == snapshot[k].key
            && r[k] == Reuse(current[m], ScrolledKey(current))
            && (forall j :: 0 <= j < m ==> current[j].key != snapshot[k].key))
      && (r[k].scrolled <==> ScrolledKey(current) == Some(snapshot[k].key))
    ensures forall k :: 0 <= k < |snapshot| && (forall m :: 0 <= m < |current| ==> current[m].key != snapshot[k].key) ==>
      if k < |current| then r[k] == Reuse(current[k], ScrolledKey(current))
      else r[k].node == firstId + k && r[k] == Adopt(snapshot[k].(node := firstId + k))
    ensures forall k :: 0 <= k < |snapshot| ==> (HasNode(current, r[k].node) <==> r[k].node < firstId)
  {
    var activeKey := ScrolledKey(current);
    var r := seq(|snapshot|, k requires 0 <= k < |snapshot| => ResetEntry(current, snapshot, k, activeKey, firstId));
    assert forall k :: 0 <= k < |snapshot| ==> r[k] == ResetEntry(current, snapshot, k, activeKey, firstId);
    r
  }

  /** resetPlaylist: the list becomes what appending `ResetOrder` one entry at
      a time leaves behind. */
  function ResetPlaylist(list: Option<seq<Item>>, snapshot: seq<Item>, firstId: NodeId): (r: Option<seq<Item>>)
    requires list.Some? ==> FreshFrom(list.value, firstId)
    ensures list.None? <==> r.None?
    ensures list.Some? ==> forall k :: 0 <= k < |r.value| ==> r.value[k].ourChange
  {
    match list
    case None => None
    case Some(current) =>
      var order := ResetOrder(current, snapshot, firstId);
      var r := AppendAll([], order);
      AppendAllMarked([], order);
      Some(r)
  }

  lemma {:induction false} AppendAllMarked(children: seq<Item>, nodes: seq<Item>)
    requires forall x :: x in children ==> x.ourChange
    requires forall x :: x in nodes ==> x.ourChange
    ensures forall x :: x in AppendAll(children, nodes) ==> x.ourChange
    decreases |nodes|
  {
    if |nodes| > 0 {
      var next := AppendChild(children, nodes[0]);
      assert forall x :: x in next ==> x in children || x == nodes[0] by {
        var rest := RemoveNode(children, nodes[0].node);
        assert next == rest + [nodes[0]];
        forall x | x in rest ensures x in children {
          RemoveNodeKeepsOthers(children, nodes[0].node, x);
        }
      }
      AppendAllMarked(next, nodes[1..]);
    }
  }

  predicate DistinctKeys(items: seq<Item>) {
    forall i, j :: 0 <= i < j < |items| ==> items[i].key != items[j].key
  }

  /** When every snapshot key is still on the page, reset restores the
      snapshot's key sequence; the entry that was active stays the only one
      marked, all others are unmarked. */
  lemma ResetRestoresSnapshot(current: seq<Item>, snapshot: seq<Item>, firstId: NodeId)
    requires DistinctNodes(current) && FreshFrom(current, firstId)
    requires DistinctKeys(snapshot)
    requires forall k :: 0 <= k < |snapshot| ==> snapshot[k].key in Keys(current)
    ensures var r := ResetPlaylist(Some(current), snapshot, firstId).value;
      && Keys(r) == Keys(snapshot)
      && (forall k :: 0 <= k < |r| ==> (r[k].scrolled <==> ScrolledKey(current) == Some(snapshot[k].key)))
  {
    var order := ResetOrder(current, snapshot, firstId);
    ResetOrderKeyed(current, snapshot, firstId);
    assert ResetPlaylist(Some(current), snapshot, firstId).value == order by {
      AppendAllDistinct([], order);
      assert [] + order == order;
    }
    SameKeys(order, snapshot);
  }

  /** With every snapshot key on the page, the entries reset picks carry the
      snapshot's keys and are distinct elements. */
  lemma ResetOrderKeyed(current: seq<Item>, snapshot: seq<Item>, firstId: NodeId)
    requires DistinctNodes(current) && FreshFrom(current, firstId)
    requires DistinctKeys(snapshot)
    requires forall k :: 0 <= k < |snapshot| ==> snapshot[k].key in Keys(current)
    ensures var order := ResetOrder(current, snapshot, firstId);
      && (forall k :: 0 <= k < |snapshot| ==> order[k].key == snapshot[k].key)
      && (forall k :: 0 <= k < |snapshot| ==> (order[k].scrolled <==> ScrolledKey(current) == Some(snapshot[k].key)))
      && DistinctNodes(order)
  {
    var order := ResetOrder(current, snapshot, firstId);
    forall k | 0 <= k < |snapshot|
      ensures order[k].key == snapshot[k].key
      ensures order[k].scrolled <==> ScrolledKey(current) == Some(snapshot[k].key)
      ensures exists m :: 0 <= m < |current| && order[k].node == current[m].node && current[m].key == snapshot[k].key
    {
      ResetEntryKeyed(current, snapshot, firstId, k);
    }
    forall i, j | 0 <= i < j < |order| ensures order[i].node != order[j].node {
      var mi :| 0 <= mi < |current| && order[i].node == current[mi].node && current[mi].key == snapshot[i].key;
      var mj :| 0 <= mj < |current| && order[j].node == current[mj].node && current[mj].key == snapshot[j].key;
      assert mi != mj;
    }
  }

  lemma ResetEntryKeyed(current: seq<Item>, snapshot: seq<Item>, firstId: NodeId, k: nat)
    requires FreshFrom(current, firstId)
    requires k < |snapshot| && snapshot[k].key in Keys(current)
    ensures var order := ResetOrder(current, snapshot, firstId);
      && order[k].key == snapshot[k].key
      && (order[k].scrolled <==> ScrolledKey(current) == Some(snapshot[k].key))
      && exists m :: 0 <= m < |current| && order[k].node == current[m].node && current[m].key == snapshot[k].key
  {
    var a := ScrolledKey(current);
    ResetOrderAt(current, snapshot, firstId, k);
    var ks := Keys(current);
    var m :| 0 <= m < |ks| && ks[m] == snapshot[k].key;
    assert current[m].key == snapshot[k].key;
    ResetEntryReuses(current, snapshot, k, a, firstId);
  }

  /** The index fallback can pick an entry that a key match already used.
      With current entries [a, b] and a snapshot whose keys are b's and one
      no longer on the page, both positions get b; appending b twice keeps it
      once, so the list ends shorter than the snapshot and a is gone. */
  lemma ResetCanDropEntries(a: Item, b: Item, first: Item, second: Item, firstId: NodeId)
    requires a.node != b.node && a.node < firstId && b.node < firstId
    requires first.key == b.key && first.key != a.key
    requires second.key != a.key && second.key != b.key
    ensures var b' := Reuse(b, ScrolledKey([a, b]));
      && ResetOrder([a, b], [first, second], firstId) == [b', b']
      && ResetPlaylist(Some([a, b]), [first, second], firstId) == Some([b'])
  {
    var b' := Reuse(b, ScrolledKey([a, b]));
    ResetReusesTwice(a, b, first, second, firstId);
    AppendChildTwice(b');
  }

  lemma ResetReusesTwice(a: Item, b: Item, first: Item, second: Item, firstId: NodeId)
    requires a.node != b.node && a.node < firstId && b.node < firstId
    requires first.key == b.key && first.key != a.key
    requires second.key != a.key && second.key != b.key
    ensures var b' := Reuse(b, ScrolledKey([a, b]));
      ResetOrder([a, b], [first, second], firstId) == [b', b']
  {
    var current, snapshot := [a, b], [first, second];
    var key := ScrolledKey(current);
    var b' := Reuse(b, key);
    KeyMatchReusesB(a, b, first, second, key, firstId);
    ResetOrderAt(current, snapshot, firstId, 0);
    ResetOrderAt(current, snapshot, firstId, 1);
    var order := ResetOrder(current, snapshot, firstId);
    assert |order| == 2;
    forall i | 0 <= i < 2 ensures order[i] == [b', b'][i] {
    }
  }

  lemma ResetEntryReuses(current: seq<Item>, snapshot: seq<Item>, k: nat, a: Option<string>, firstId: NodeId)
    requires FreshFrom(current, firstId)
    requires k < |snapshot| && exists m :: 0 <= m < |current| && current[m].key == snapshot[k].key
    ensures var e := ResetEntry(current, snapshot, k, a, firstId);
      && e.key == snapshot[k].key
      && (e.scrolled <==> a == Some(snapshot[k].key))
      && exists m :: 0 <= m < |current| && e.node == current[m].node && current[m].key == snapshot[k].key
  {
    var e := ResetEntry(current, snapshot, k, a, firstId);
    var m :|
      && 0 <= m < |current| && current[m].key == snapshot[k].key
      && e == Reuse(current[m], a)
      && (forall j :: 0 <= j < m ==> current[j].key != snapshot[k].key);
    assert e.node == current[m].node;
  }

  lemma ResetOrderAt(current: seq<Item>, snapshot: seq<Item>, firstId: NodeId, k: nat)
    requires FreshFrom(current, firstId) && k < |snapshot|
    ensures ResetOrder(current, snapshot, firstId)[k] == ResetEntry(current, snapshot, k, ScrolledKey(current), firstId)
  {
  }

  lemma KeyMatchReusesB(a: Item, b: Item, first: Item, second: Item, key: Option<string>, firstId: NodeId)
    requires a.node < firstId && b.node < firstId
    requires first.key == b.key && first.key != a.key
    requires second.key != a.key && second.key != b.key
    ensures ResetEntry([a, b], [first, second], 0, key, firstId) == Reuse(b, key)
    ensures ResetEntry([a, b], [first, second], 1, key, firstId) == Reuse(b, key)
  {
    var current, snapshot := [a, b], [first, second];
    var e0 := ResetEntry(current, snapshot, 0, key, firstId);
    assert current[1].key == snapshot[0].key;
    var m :| 0 <= m < 2 && e0 == Reuse(current[m], key);
    assert m == 1 by {
      assert e0.key == first.key && Reuse(a, key).key == a.key;
    }
    assert current[0].key != snapshot[1].key && current[1].key != snapshot[1].key;
  }

  /* ---------------------------------------------------------------------- */
  /* Click handler                                                           */

  /** What a click on an entry does: the entries afterwards, the address passed
      to `history.replaceState`, and the `updateNextVideo` detail dispatched. */
  datatype ClickEffect = ClickEffect(items: seq<Item>, address: Option<string>, published: Option<NextVideo>)

  /** The `onclick` installed by setupClickHandlers, after `loadNewVideo` has
      settled (its result is not consulted). `loaderPresent` is whether
      `window.loadNewVideo` exists. */
  function ClickItem(items: seq<Item>, clicked: Item, loaderPresent: bool): (e: ClickEffect)
    ensures clicked.key == "" ==> e == ClickEffect(items, None, None)
    ensures clicked.key != "" ==> e.address == Some(VideoUrl(clicked.key))
    ensures !loaderPresent ==> e.items == items && e.published.None?
    ensures clicked.key != "" && loaderPresent ==>
      && |e.items| == |items|
      && forall k :: 0 <= k < |items| ==>
           && (e.items[k].scrolled <==> items[k].node == clicked.node)
           && e.items[k].(scrolled := items[k].scrolled) == items[k]
    ensures var at := IndexOfNode(items, clicked.node);
      e.published.Some? <==> clicked.key != "" && loaderPresent && at.Some? && at.value + 1 < |items|
    ensures var at := IndexOfNode(items, clicked.node);
      e.published.Some? ==>
        e.published.value == NextVideo(items[at.value + 1].key, Some(VideoUrl(items[at.value + 1].key)))
  {
    if clicked.key == "" then ClickEffect(items, None, None)
    else if !loaderPresent then ClickEffect(items, Some(VideoUrl(clicked.key)), None)
    else
      var marked := SetScrolled(items, (it: Item) => it.node == clicked.node);
      var next :=
        match IndexOfNode(items, clicked.node)
        case Some(i) =>
          if i + 1 < |items| then Some(NextVideo(items[i + 1].key, Some(VideoUrl(items[i + 1].key)))) else None
        case None => None;
      ClickEffect(marked, Some(VideoUrl(clicked.key)), next)
  }

  /** A click on the entry at `k` leaves that entry the only active one and
      publishes its successor, unless it is the last. */
  lemma ClickActivatesOnlyClicked(items: seq<Item>, k: nat)
    requires DistinctNodes(items)
    requires k < |items| && items[k].key != ""
    ensures var e := ClickItem(items, items[k], true);
      && CountScrolled(e.items) == 1
      && e.items[k].scrolled
      && (k + 1 < |items| ==> e.published == Some(NextVideo(items[k + 1].key, Some(VideoUrl(items[k + 1].key)))))
      && (k + 1 == |items| ==> e.published.None?)
  {
    var e := ClickItem(items, items[k], true);
    IndexOfDistinct(items, k);
    OnlyScrolledAt(e.items, k);
  }
}
