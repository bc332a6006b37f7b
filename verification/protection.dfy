/** The playlist protection of the page script: a mutation observer on the
    pod list container that removes every entry the site inserts, unless the
    entry carries the `data-our-change` mark or the scripts have announced a
    change of their own through `setPlaylistCustomizing`.
 */
module Protection {
  import opened Dom
  import Playlist

  /** One mutation record: whether it is a `childList` record, whether its
      target has class `video-pod__list`, and the nodes it added. */
  datatype Mutation = Mutation(childList: bool, targetIsPodList: bool, added: seq<Item>)

  predicate Qualifies(mu: Mutation) {
    mu.childList && mu.targetIsPodList
  }

  /** Record `b` of the batch qualifies and adds node `n` without the mark. */
  predicate AddsUnmarked(batch: seq<Mutation>, b: int, n: NodeId) {
    0 <= b < |batch| && Qualifies(batch[b]) && n in RejectedIn(batch[b].added)
  }

  /** The nodes the observer callback removes for one batch of records, in the
      order it removes them. */
  function Rejected(customizing: bool, batch: seq<Mutation>): (r: seq<NodeId>)
    ensures customizing ==> r == []
    ensures forall n :: n in r <==> !customizing && exists b :: AddsUnmarked(batch, b, n)
    decreases |batch|
  {
    if customizing || |batch| == 0 then []
    else
      var here := if Qualifies(batch[0]) then RejectedIn(batch[0].added) else [];
      var rest := Rejected(customizing, batch[1..]);
      assert forall n :: n in rest <==> exists b :: 1 <= b && AddsUnmarked(batch, b, n) by {
        forall n ensures n in rest ==> exists b :: 1 <= b && AddsUnmarked(batch, b, n) {
          if n in rest {
            var b :| AddsUnmarked(batch[1..], b, n);
            assert batch[1..][b] == batch[b + 1];
            assert AddsUnmarked(batch, b + 1, n);
          }
        }
        forall n ensures (exists b :: 1 <= b && AddsUnmarked(batch, b, n)) ==> n in rest {
          if exists b :: 1 <= b && AddsUnmarked(batch, b, n) {
            var b :| 1 <= b && AddsUnmarked(batch, b, n);
            assert batch[1..][b - 1] == batch[b];
            assert AddsUnmarked(batch[1..], b - 1, n);
          }
        }
      }
      assert forall n :: n in here <==> AddsUnmarked(batch, 0, n);
      assert forall n :: (exists b :: AddsUnmarked(batch, b, n)) ==> AddsUnmarked(batch, 0, n) || exists b :: 1 <= b && AddsUnmarked(batch, b, n);
      here + rest
  }

  /** The unmarked nodes of one record. */
  function RejectedIn(added: seq<Item>): (r: seq<NodeId>)
    ensures forall n :: n in r <==> exists k :: 0 <= k < |added| && !added[k].ourChange && added[k].node == n
  {
    if |added| == 0 then []
    else
      var rest := RejectedIn(added[1..]);
      assert forall n :: n in rest <==> exists k :: 1 <= k < |added| && !added[k].ourChange && added[k].node == n
      by {
        forall n ensures n in rest ==> exists k :: 1 <= k < |added| && !added[k].ourChange && added[k].node == n {
          if n in rest {
            var k :| 0 <= k < |added[1..]| && !added[1..][k].ourChange && added[1..][k].node == n;
            assert added[k + 1] == added[1..][k];
          }
        }
      }
      (if added[0].ourChange then [] else [added[0].node]) + rest
  }

  /** The children whose element is not among `nodes`, in their order. */
  function Outside(children: seq<Item>, nodes: seq<NodeId>): seq<Item> {
    if |children| == 0 then []
    else (if children[0].node in nodes then [] else [children[0]]) + Outside(children[1..], nodes)
  }

  lemma {:induction false} OutsideMembers(children: seq<Item>, nodes: seq<NodeId>)
    ensures forall x :: x in Outside(children, nodes) <==> x in children && x.node !in nodes
    decreases |children|
  {
    if |children| > 0 {
      OutsideMembers(children[1..], nodes);
      assert children == [children[0]] + children[1..];
    }
  }

  /** Removing each rejected node from the container, one `remove()` at a
      time: the entries left are the others, in their order. */
  function RemoveAll(children: seq<Item>, nodes: seq<NodeId>): (r: seq<Item>)
    ensures r == Outside(children, nodes)
    ensures forall x :: x in r <==> x in children && x.node !in nodes
    decreases |nodes|
  {
    if |nodes| == 0 then
      OutsideNone(children, nodes);
      OutsideMembers(children, nodes);
      children
    else
      var next := RemoveNode(children, nodes[0]);
      var r := RemoveAll(next, nodes[1..]);
      OutsideRemoveNode(children, nodes[0], nodes[1..]);
      assert nodes == [nodes[0]] + nodes[1..];
      OutsideMembers(children, nodes);
      r
  }

  lemma {:induction false} OutsideNone(children: seq<Item>, nodes: seq<NodeId>)
    requires forall k :: 0 <= k < |children| ==> children[k].node !in nodes
    ensures Outside(children, nodes) == children
    decreases |children|
  {
    if |children| > 0 {
      OutsideNone(children[1..], nodes);
      assert children == [children[0]] + children[1..];
    }
  }

  lemma {:induction false} OutsideRemoveNode(children: seq<Item>, n: NodeId, rest: seq<NodeId>)
    ensures Outside(RemoveNode(children, n), rest) == Outside(children, [n] + rest)
    decreases |children|
  {
    if |children| > 0 {
      OutsideRemoveNode(children[1..], n, rest);
      if children[0].node != n {
        var tail := RemoveNode(children[1..], n);
        assert RemoveNode(children, n) == [children[0]] + tail;
        assert ([children[0]] + tail)[1..] == tail;
      }
    }
  }

  lemma {:induction false} OutsideConcat(a: seq<Item>, b: seq<Item>, nodes: seq<NodeId>)
    ensures Outside(a + b, nodes) == Outside(a, nodes) + Outside(b, nodes)
    decreases |a|
  {
    if |a| == 0 {
      assert a + b == b;
    } else {
      var h := if a[0].node in nodes then [] else [a[0]];
      calc {
        Outside(a + b, nodes);
        { assert (a + b)[0] == a[0] && (a + b)[1..] == a[1..] + b; }
        h + Outside(a[1..] + b, nodes);
        { OutsideConcat(a[1..], b, nodes); }
        h + (Outside(a[1..], nodes) + Outside(b, nodes));
        (h + Outside(a[1..], nodes)) + Outside(b, nodes);
      }
    }
  }

  /** Removal works entry by entry: on a concatenation it acts on each part. */
  lemma RemoveAllConcat(a: seq<Item>, b: seq<Item>, nodes: seq<NodeId>)
    ensures RemoveAll(a + b, nodes) == RemoveAll(a, nodes) + RemoveAll(b, nodes)
  {
    OutsideConcat(a, b, nodes);
  }

  /** A single entry is removed exactly when its element is among `nodes`. */
  lemma RemoveAllSingle(x: Item, nodes: seq<NodeId>)
    ensures RemoveAll([x], nodes) == (if x.node in nodes then [] else [x])
  {
    assert [x][1..] == [];
  }

  /** The pod list after the observer callback has run on `batch`. */
  function Guard(customizing: bool, children: seq<Item>, batch: seq<Mutation>): (r: seq<Item>)
    ensures customizing ==> r == children
    ensures r == Outside(children, Rejected(customizing, batch))
    ensures forall x :: x in r <==> x in children && x.node !in Rejected(customizing, batch)
  {
    RemoveAll(children, Rejected(customizing, batch))
  }

  /** With the flag clear, a site insertion of one unmarked entry anywhere
      into a list is undone: the list is exactly what it was before. */
  lemma GuardUndoesInsertion(order: seq<Item>, x: Item, p: nat)
    requires p <= |order| && !x.ourChange && !HasNode(order, x.node)
    ensures Guard(false, order[..p] + [x] + order[p..], [Mutation(true, true, [x])]) == order
  {
    RejectedInsertion(x);
    RemoveInsertion(order, x, p);
  }

  lemma RejectedInsertion(x: Item)
    requires !x.ourChange
    ensures Rejected(false, [Mutation(true, true, [x])]) == [x.node]
  {
    var batch := [Mutation(true, true, [x])];
    assert RejectedIn([x]) == [x.node] by {
      assert [x][1..] == [];
    }
    assert Qualifies(batch[0]);
    assert Rejected(false, batch[1..]) == [] by {
      assert batch[1..] == [];
    }
  }

  lemma RemoveInsertion(order: seq<Item>, x: Item, p: nat)
    requires p <= |order| && !HasNode(order, x.node)
    ensures RemoveAll(order[..p] + [x] + order[p..], [x.node]) == order
  {
    assert order[..p] + order[p..] == order;
    AbsentAround(order, x.node, p);
    OutsideAbsent(order[..p], x.node);
    OutsideAbsent(order[p..], x.node);
    RemoveBetween(order[..p], x, order[p..]);
  }

  lemma AbsentAround(order: seq<Item>, n: NodeId, p: nat)
    requires p <= |order| && !HasNode(order, n)
    ensures !HasNode(order[..p], n) && !HasNode(order[p..], n)
  {
    forall k | 0 <= k < p ensures order[..p][k].node != n {
      assert order[..p][k] == order[k];
    }
    forall k | 0 <= k < |order| - p ensures order[p..][k].node != n {
      assert order[p..][k] == order[p + k];
    }
  }

  lemma RemoveBetween(front: seq<Item>, x: Item, back: seq<Item>)
    requires Outside(front, [x.node]) == front && Outside(back, [x.node]) == back
    ensures RemoveAll(front + [x] + back, [x.node]) == front + back
  {
    OutsideSkips(front, x, back, [x.node]);
  }

  lemma OutsideSkips(front: seq<Item>, x: Item, back: seq<Item>, nodes: seq<NodeId>)
    requires x.node in nodes
    ensures Outside(front + [x] + back, nodes) == Outside(front, nodes) + Outside(back, nodes)
  {
    OutsideConcat(front + [x], back, nodes);
    OutsideConcat(front, [x], nodes);
    assert Outside([x], nodes) == [] by {
      assert [x][1..] == [];
    }
    assert Outside(front, nodes) + [] == Outside(front, nodes);
  }

  lemma {:induction false} OutsideAbsent(items: seq<Item>, n: NodeId)
    requires !HasNode(items, n)
    ensures Outside(items, [n]) == items
    decreases |items|
  {
    if |items| > 0 {
      assert !HasNode(items[1..], n) by {
        forall k | 0 <= k < |items[1..]| ensures items[1..][k].node != n {
          assert items[1..][k] == items[k + 1];
        }
      }
      OutsideAbsent(items[1..], n);
      assert items == [items[0]] + items[1..];
    }
  }

  /** An entry the site inserts without the mark is gone after the callback,
      unless the scripts announced a change of their own. */
  lemma SiteInsertionRemoved(children: seq<Item>, batch: seq<Mutation>, b: nat, k: nat)
    requires b < |batch| && Qualifies(batch[b])
    requires k < |batch[b].added| && !batch[b].added[k].ourChange
    ensures !HasNode(Guard(false, children, batch), batch[b].added[k].node)
  {
    var r := Guard(false, children, batch);
    var n := batch[b].added[k].node;
    assert AddsUnmarked(batch, b, n);
    forall i | 0 <= i < |r| ensures r[i].node != n {
      assert r[i] in r;
    }
  }

  predicate AllMarked(batch: seq<Mutation>) {
    forall b, k :: 0 <= b < |batch| && 0 <= k < |batch[b].added| ==> batch[b].added[k].ourChange
  }

  lemma {:induction false} MarkedRecordKept(added: seq<Item>)
    requires forall k :: 0 <= k < |added| ==> added[k].ourChange
    ensures RejectedIn(added) == []
  {
    if |added| > 0 {
      MarkedRecordKept(added[1..]);
    }
  }

  /** A batch in which every added node carries the mark removes nothing. */
  lemma {:induction false} MarkedBatchKept(customizing: bool, children: seq<Item>, batch: seq<Mutation>)
    requires AllMarked(batch)
    ensures Rejected(customizing, batch) == []
    ensures Guard(customizing, children, batch) == children
  {
    if !customizing && |batch| > 0 {
      MarkedRecordKept(batch[0].added);
      assert AllMarked(batch[1..]) by {
        forall b, k | 0 <= b < |batch[1..]| && 0 <= k < |batch[1..][b].added|
          ensures batch[1..][b].added[k].ourChange
        {
          assert batch[1..][b] == batch[b + 1];
        }
      }
      MarkedBatchKept(customizing, children, batch[1..]);
    }
  }

  /** The records a rebuild of the list produces: one per appended entry. */
  function AppendRecords(entries: seq<Item>): (batch: seq<Mutation>)
    ensures |batch| == |entries|
    ensures forall b :: 0 <= b < |batch| ==> batch[b] == Mutation(true, true, [entries[b]])
  {
    seq(|entries|, b requires 0 <= b < |entries| => Mutation(true, true, [entries[b]]))
  }

  /** Reversing the list survives the observer even when the announcement
      never reaches it: every entry the reverse appends is marked. */
  lemma ReverseSurvivesGuard(customizing: bool, items: seq<Item>)
    requires DistinctNodes(items)
    ensures var order := Playlist.ReversePlaylist(Some(items)).value;
      Guard(customizing, order, AppendRecords(order)) == order
  {
    var order := Playlist.ReversePlaylist(Some(items)).value;
    var batch := AppendRecords(order);
    forall b, k | 0 <= b < |batch| && 0 <= k < |batch[b].added| ensures batch[b].added[k].ourChange {
      assert batch[b].added[k] == order[b] == Playlist.Adopt(items[|items| - 1 - b]);
    }
    MarkedBatchKept(customizing, order, batch);
  }

  /** The same holds for the reset. */
  lemma ResetSurvivesGuard(customizing: bool, current: seq<Item>, snapshot: seq<Item>, firstId: NodeId)
    requires FreshFrom(current, firstId)
    ensures var order := Playlist.ResetPlaylist(Some(current), snapshot, firstId).value;
      Guard(customizing, order, AppendRecords(order)) == order
  {
    var order := Playlist.ResetPlaylist(Some(current), snapshot, firstId).value;
    var batch := AppendRecords(order);
    forall b, k | 0 <= b < |batch| && 0 <= k < |batch[b].added| ensures batch[b].added[k].ourChange {
      assert batch[b].added[k] == order[b];
    }
    MarkedBatchKept(customizing, order, batch);
  }
}
