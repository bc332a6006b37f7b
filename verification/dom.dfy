/** The slice of the page's DOM the playlist scripts read and write.

    A playlist entry (`.video-pod__item` or `.video-section-list-item`) is
    reduced to the attributes the scripts use; the list container is the
    sequence of its entries in document order.
 */
module Dom {

  datatype Option<T> = None | Some(value: T) {
    function GetOr(default: T): T {
      match this
      case Some(v) => v
      case None => default
    }
  }

  /** The identity of an element. Identity tests in the scripts (`indexOf`,
      `===`) compare references, so the model compares these numbers; the
      scripts also select entries by `data-key`, which is `Item.key`. */
  type NodeId = nat

  /** One playlist entry.
      - `key`: the `data-key` attribute, the video id; "" when absent
      - `scrolled`: `data-scrolled` is 'true' (the pod list's active marker)
      - `active`: the class list holds `active` (the section list's marker)
      - `dataActive`: the `data-active` attribute, None when absent
      - `ourChange`: `data-our-change` is set (inserted by the playlist scripts)
      - `hasHandler`: an `onclick` was installed by `setupClickHandlers` */
  datatype Item = Item(
    node: NodeId,
    key: string,
    scrolled: bool,
    active: bool,
    dataActive: Option<bool>,
    ourChange: bool,
    hasHandler: bool)

  function Keys(items: seq<Item>): (ks: seq<string>)
    ensures |ks| == |items|
    ensures forall k :: 0 <= k < |items| ==> ks[k] == items[k].key
  {
    if |items| == 0 then [] else [items[0].key] + Keys(items[1..])
  }

  lemma SameKeys(a: seq<Item>, b: seq<Item>)
    requires |a| == |b|
    requires forall k :: 0 <= k < |a| ==> a[k].key == b[k].key
    ensures Keys(a) == Keys(b)
  {
    assert forall k :: 0 <= k < |a| ==> Keys(a)[k] == Keys(b)[k];
  }

  /** No element occurs twice: what a live node list always satisfies. */
  predicate DistinctNodes(items: seq<Item>) {
    forall i, j :: 0 <= i < j < |items| ==> items[i].node != items[j].node
  }

  predicate HasNode(items: seq<Item>, n: NodeId) {
    exists k :: 0 <= k < |items| && items[k].node == n
  }

  /** Every element of `items` was created before `firstId`: the elements
      numbered from `firstId` on are new ones, as `cloneNode` makes. */
  predicate FreshFrom(items: seq<Item>, firstId: NodeId) {
    forall m :: 0 <= m < |items| ==> items[m].node < firstId
  }

  /** `Array.prototype.find`/`findIndex`/`indexOf`: the first position whose
      entry satisfies `p`. */
  function FindFirst(items: seq<Item>, p: Item -> bool): (r: Option<nat>)
    ensures r.Some? ==> r.value < |items| && p(items[r.value])
    ensures r.Some? ==> forall k :: 0 <= k < r.value ==> !p(items[k])
    ensures r.None? ==> forall k :: 0 <= k < |items| ==> !p(items[k])
  {
    if |items| == 0 then None
    else if p(items[0]) then Some(0)
    else match FindFirst(items[1..], p)
      case None => None
      case Some(k) => Some(k + 1)
  }

  /** `indexOf(element)`: the position of a node, by identity. */
  function IndexOfNode(items: seq<Item>, n: NodeId): (r: Option<nat>)
    ensures r.Some? ==> r.value < |items| && items[r.value].node == n
    ensures r.None? <==> !HasNode(items, n)
  {
    FindFirst(items, (it: Item) => it.node == n)
  }

  /** In a list without repeated nodes, the position of an entry's node is
      that entry's position. */
  lemma IndexOfDistinct(items: seq<Item>, k: nat)
    requires DistinctNodes(items)
    requires k < |items|
    ensures IndexOfNode(items, items[k].node) == Some(k)
  {
  }

  /** The entry's `data-key` equals `key`. */
  predicate HasKey(key: string, it: Item) {
    it.key == key
  }

  predicate IsScrolled(it: Item) {
    it.scrolled
  }

  predicate IsActive(it: Item) {
    it.active
  }

  /** The document-order query for an entry with `data-scrolled` set, over a
      list: the first entry marked active. */
  function FirstScrolled(items: seq<Item>): (r: Option<nat>)
    ensures r.Some? ==> r.value < |items| && items[r.value].scrolled
    ensures r.Some? ==> forall k :: 0 <= k < r.value ==> !items[k].scrolled
    ensures r.None? <==> forall k :: 0 <= k < |items| ==> !items[k].scrolled
  {
    FindFirst(items, IsScrolled)
  }

  /** The loops that set `data-scrolled` on every entry of a list: every entry
      is marked active exactly when `chosen` holds of it. */
  function SetScrolled(items: seq<Item>, chosen: Item -> bool): (r: seq<Item>)
    ensures |r| == |items|
    ensures forall k :: 0 <= k < |items| ==> r[k] == items[k].(scrolled := chosen(items[k]))
  {
    seq(|items|, k requires 0 <= k < |items| => items[k].(scrolled := chosen(items[k])))
  }

  /** The loops that toggle class `active` and, where the attribute exists,
      mirror it into `data-active`. */
  function SetActive(items: seq<Item>, chosen: Item -> bool): (r: seq<Item>)
    ensures |r| == |items|
    ensures forall k :: 0 <= k < |items| ==>
      r[k] == items[k].(active := chosen(items[k]),
                        dataActive := if items[k].dataActive.Some? then Some(chosen(items[k])) else None)
  {
    seq(|items|, k requires 0 <= k < |items| =>
      items[k].(active := chosen(items[k]),
                dataActive := if items[k].dataActive.Some? then Some(chosen(items[k])) else None))
  }

  /** The element removed from its parent: every entry with that identity goes. */
  function RemoveNode(children: seq<Item>, n: NodeId): (r: seq<Item>)
    ensures |r| <= |children|
  {
    if |children| == 0 then []
    else if children[0].node == n then RemoveNode(children[1..], n)
    else [children[0]] + RemoveNode(children[1..], n)
  }

  lemma {:induction false} RemoveNodeKeepsOthers(children: seq<Item>, n: NodeId, x: Item)
    ensures x in RemoveNode(children, n) <==> x in children && x.node != n
  {
    if |children| > 0 {
      RemoveNodeKeepsOthers(children[1..], n, x);
      assert children == [children[0]] + children[1..];
    }
  }

  lemma {:induction false} RemoveAbsentNode(children: seq<Item>, n: NodeId)
    requires !HasNode(children, n)
    ensures RemoveNode(children, n) == children
  {
    if |children| > 0 {
      assert children[0].node != n;
      RemoveAbsentNode(children[1..], n);
      assert children == [children[0]] + children[1..];
    }
  }

  lemma {:induction false} RemoveNodeConcat(a: seq<Item>, b: seq<Item>, n: NodeId)
    ensures RemoveNode(a + b, n) == RemoveNode(a, n) + RemoveNode(b, n)
    decreases |a|
  {
    if |a| == 0 {
      assert a + b == b;
    } else {
      assert (a + b)[1..] == a[1..] + b;
      RemoveNodeConcat(a[1..], b, n);
    }
  }

  /** `parent.appendChild(node)`: a node that is already a child is moved to
      the end, not duplicated. */
  function AppendChild(children: seq<Item>, node: Item): (r: seq<Item>)
    ensures |r| > 0 && r[|r| - 1] == node
    ensures !HasNode(children, node.node) ==> r == children + [node]
  {
    var rest := RemoveNode(children, node.node);
    assert !HasNode(children, node.node) ==> rest == children by {
      if !HasNode(children, node.node) {
        RemoveAbsentNode(children, node.node);
      }
    }
    rest + [node]
  }

  /** Appending an element that is already the child at `k` moves it: the
      other children keep their order and it ends up last. */
  lemma AppendChildMoves(children: seq<Item>, node: Item, k: nat)
    requires DistinctNodes(children)
    requires k < |children| && children[k].node == node.node
    ensures AppendChild(children, node) == children[..k] + children[k + 1..] + [node]
  {
    var n := node.node;
    var front, back := children[..k], children[k + 1..];
    assert children == front + [children[k]] + back;
    assert !HasNode(front, n) by {
      forall i | 0 <= i < |front| ensures front[i].node != n {
        assert front[i] == children[i];
      }
    }
    assert !HasNode(back, n) by {
      forall i | 0 <= i < |back| ensures back[i].node != n {
        assert back[i] == children[k + 1 + i];
      }
    }
    RemoveNodeConcat(front + [children[k]], back, n);
    RemoveNodeConcat(front, [children[k]], n);
    RemoveAbsentNode(front, n);
    RemoveAbsentNode(back, n);
    assert RemoveNode([children[k]], n) == [];
  }

  /** Appending the same element twice to an empty container leaves it
      there once. */
  lemma AppendChildTwice(x: Item)
    ensures AppendAll([], [x, x]) == [x]
  {
    assert AppendChild([], x) == [x];
    assert RemoveNode([x], x.node) == [];
    assert AppendChild([x], x) == [x];
    assert [x, x][1..] == [x] && [x][1..] == [];
    assert AppendAll([x], [x]) == AppendAll([x], []);
  }

  /** Appending each of `nodes` to the container in turn, first to last. */
  function AppendAll(children: seq<Item>, nodes: seq<Item>): seq<Item>
    decreases |nodes|
  {
    if |nodes| == 0 then children
    else AppendAll(AppendChild(children, nodes[0]), nodes[1..])
  }

  /** Appending distinct nodes that are not yet children lays them out in
      exactly the order they were appended. */
  lemma {:induction false} AppendAllDistinct(children: seq<Item>, nodes: seq<Item>)
    requires DistinctNodes(children + nodes)
    ensures AppendAll(children, nodes) == children + nodes
    decreases |nodes|
  {
    if |nodes| > 0 {
      var all := children + nodes;
      assert !HasNode(children, nodes[0].node) by {
        forall k | 0 <= k < |children|
          ensures children[k].node != nodes[0].node
        {
          assert all[k] == children[k] && all[|children|] == nodes[0];
        }
      }
      var next := AppendChild(children, nodes[0]);
      assert next == children + [nodes[0]];
      assert next + nodes[1..] == all;
      AppendAllDistinct(next, nodes[1..]);
    }
  }

  /** Emptying a container and appending the entries of `nodes` one by one. */
  function Rebuild(nodes: seq<Item>): (r: seq<Item>)
    ensures DistinctNodes(nodes) ==> r == nodes
  {
    assert DistinctNodes(nodes) ==> AppendAll([], nodes) == nodes by {
      if DistinctNodes(nodes) {
        AppendAllDistinct([], nodes);
        assert [] + nodes == nodes;
      }
    }
    AppendAll([], nodes)
  }

  /** Number of entries carrying the pod list's active marker. */
  function CountScrolled(items: seq<Item>): (c: nat)
    ensures c <= |items|
    ensures c == 0 <==> forall k :: 0 <= k < |items| ==> !items[k].scrolled
  {
    if |items| == 0 then 0
    else (if items[0].scrolled then 1 else 0) + CountScrolled(items[1..])
  }

  lemma {:induction false} CountScrolledAppend(a: seq<Item>, b: seq<Item>)
    ensures CountScrolled(a + b) == CountScrolled(a) + CountScrolled(b)
    decreases |a|
  {
    if |a| > 0 {
      assert (a + b)[1..] == a[1..] + b;
      CountScrolledAppend(a[1..], b);
    } else {
      assert a + b == b;
    }
  }

  /** Rearranging entries never changes how many are marked active. */
  lemma {:induction false} CountScrolledPermutation(a: seq<Item>, b: seq<Item>)
    requires multiset(a) == multiset(b)
    ensures CountScrolled(a) == CountScrolled(b)
    decreases |a|
  {
    if |a| == 0 {
      assert |b| == |multiset(b)| == 0;
    } else {
      assert a[0] in multiset(b);
      var k :| 0 <= k < |b| && b[k] == a[0];
      var rest := b[..k] + b[k + 1..];
      assert b == b[..k] + [b[k]] + b[k + 1..];
      assert a == [a[0]] + a[1..];
      assert multiset(a) == multiset{a[0]} + multiset(a[1..]);
      assert multiset(b) == multiset(b[..k]) + multiset{b[k]} + multiset(b[k + 1..]);
      assert multiset(rest) == multiset(b[..k]) + multiset(b[k + 1..]);
      assert multiset(a[1..]) == multiset(a) - multiset{a[0]};
      assert multiset(rest) == multiset(b) - multiset{b[k]};
      CountScrolledPermutation(a[1..], rest);
      CountScrolledAppend(b[..k] + [b[k]], b[k + 1..]);
      CountScrolledAppend(b[..k], [b[k]]);
      CountScrolledAppend(b[..k], b[k + 1..]);
      assert CountScrolled([b[k]]) == (if a[0].scrolled then 1 else 0);
    }
  }

  /** Exactly one entry is marked active, and it is the one at `k`. */
  lemma {:induction false} OnlyScrolledAt(items: seq<Item>, k: nat)
    requires k < |items|
    requires forall i :: 0 <= i < |items| ==> (items[i].scrolled <==> i == k)
    ensures CountScrolled(items) == 1
  {
    assert items == items[..k] + [items[k]] + items[k + 1..];
    CountScrolledAppend(items[..k] + [items[k]], items[k + 1..]);
    CountScrolledAppend(items[..k], [items[k]]);
    assert CountScrolled(items[..k]) == 0;
    var tail := items[k + 1..];
    assert CountScrolled(tail) == 0 by {
      forall i | 0 <= i < |tail| ensures !tail[i].scrolled {
        assert tail[i] == items[k + 1 + i];
      }
    }
  }

  /** Site address of a video page, as the scripts spell it. */
  const VideoUrlPrefix: string := "https://www.bilibili.com/video/"

  function VideoUrl(key: string): string {
    VideoUrlPrefix + key
  }

  /** `String.prototype.includes`. */
  predicate Contains(s: string, part: string) {
    exists i | 0 <= i <= |s| - |part| :: OccursAt(s, part, i)
  }

  predicate OccursAt(s: string, part: string, i: nat) {
    i + |part| <= |s| && s[i..i + |part|] == part
  }

  /** The `detail` of an `updateNextVideo` event: the id of the video to play
      when the current one ends, and its address when the sender gives one. */
  datatype NextVideo = NextVideo(id: string, url: Option<string>)
}
