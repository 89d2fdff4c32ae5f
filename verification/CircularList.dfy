/** libkmod's list: nodes linked both ways in a ring; a list is any of its nodes, read from there. */
module CircularList {

  class ListNode<D> {
    const data: D
    var next: ListNode?<D>
    var prev: ListNode?<D>

    /** list_node_init */
    constructor (data: D)
      ensures this.data == data && next == this && prev == this
    {
      this.data := data;
      new;
      next, prev := this, this;
    }
  }

  /** The position after `i` in a ring of `n`. */
  function Succ(i: nat, n: nat): nat
    requires i < n
  {
    if i + 1 < n then i + 1 else 0
  }

  predicate AllDiffer<D>(nodes: seq<ListNode<D>>) {
    forall i, j :: 0 <= i < j < |nodes| ==> nodes[i] != nodes[j]
  }

  /** One cycle through all the nodes, next and prev inverse to each other. */
  ghost predicate Ring<D>(nodes: seq<ListNode<D>>)
    reads nodes
  {
    && nodes != [] && AllDiffer(nodes)
    && forall i :: 0 <= i < |nodes| ==>
        nodes[i].next == nodes[Succ(i, |nodes|)] && nodes[Succ(i, |nodes|)].prev == nodes[i]
  }

  /** The data in order. */
  function DataOf<D>(nodes: seq<ListNode<D>>): (r: seq<D>)
    ensures |r| == |nodes| && forall i :: 0 <= i < |r| ==> r[i] == nodes[i].data
  {
    seq(|nodes|, i requires 0 <= i < |nodes| => nodes[i].data)
  }

  /** The same ring from its k-th node. */
  function Rotated<T>(s: seq<T>, k: nat): seq<T>
    requires k <= |s|
  {
    s[k..] + s[..k]
  }

  lemma RotatedRing<D>(nodes: seq<ListNode<D>>, k: nat)
    requires Ring(nodes) && k <= |nodes|
    ensures Ring(Rotated(nodes, k))
  {
    var n, r := |nodes|, Rotated(nodes, k);
    RotatedAt(nodes, k);
    forall i | 0 <= i < n
      ensures r[i].next == r[Succ(i, n)] && r[Succ(i, n)].prev == r[i]
    {
      assert Origin(Succ(i, n), n, k) == Succ(Origin(i, n, k), n);
    }
  }

  /** Where the i-th element of a rotated sequence comes from. */
  function Origin(i: nat, n: nat, k: nat): (o: nat)
    requires i < n && k <= n
    ensures o < n
  {
    if i < n - k then i + k else i - (n - k)
  }

  lemma RotatedAt<D>(nodes: seq<ListNode<D>>, k: nat)
    requires k <= |nodes|
    ensures |Rotated(nodes, k)| == |nodes|
    ensures forall i :: 0 <= i < |nodes| ==> Rotated(nodes, k)[i] == nodes[Origin(i, |nodes|, k)]
    ensures AllDiffer(nodes) ==> AllDiffer(Rotated(nodes, k))
  {
  }

  // ----- linking

  /** list_node_append, and list_node_insert_before, which is the same: between the last node and the first */
  method Link<D>(list: ListNode<D>, node: ListNode<D>, ghost nodes: seq<ListNode<D>>)
    requires Ring(nodes) && list == nodes[0] && node !in nodes
    modifies nodes, node
    ensures Ring(nodes + [node])
  {
    var last := list.prev;
    assert nodes[Succ(|nodes| - 1, |nodes|)] == nodes[0];
    node.prev := list.prev;
    last.next := node;
    list.prev := node;
    node.next := list;
  }

  /** list_node_insert_after: between the first node and the second */
  method LinkAfter<D>(list: ListNode<D>, node: ListNode<D>, ghost nodes: seq<ListNode<D>>)
    requires Ring(nodes) && list == nodes[0] && node !in nodes
    modifies nodes, node
    ensures Ring([list, node] + nodes[1..])
  {
    var second := list.next;
    ghost var n, r := |nodes|, [list, node] + nodes[1..];
    assert second == nodes[Succ(0, n)];
    Inserted(nodes, node, r);
    node.prev := list;
    node.next := list.next;
    second.prev := node;
    list.next := node;
    forall i | 0 <= i <= n ensures r[i].next == r[Succ(i, n + 1)] && r[Succ(i, n + 1)].prev == r[i] {
      if i > 1 {
        assert r[i] == nodes[i - 1] && r[Succ(i, n + 1)] == nodes[Succ(i - 1, n)];
      }
    }
  }

  /** Which node is where with one more in second place. */
  lemma Inserted<D>(nodes: seq<ListNode<D>>, node: ListNode<D>, r: seq<ListNode<D>>)
    requires nodes != [] && AllDiffer(nodes) && node !in nodes && r == [nodes[0], node] + nodes[1..]
    ensures |r| == |nodes| + 1 && r[0] == nodes[0] && r[1] == node && AllDiffer(r)
    ensures forall i :: 1 < i < |r| ==> r[i] == nodes[i - 1]
  {
  }

  /** Two rings side by side, the second from position `k` on. */
  ghost predicate TwoRings<D>(r: seq<ListNode<D>>, k: nat)
    reads r
  {
    && 0 < k < |r| && AllDiffer(r) && r[0].prev == r[k - 1] && r[k].prev == r[|r| - 1]
    && forall i :: 0 <= i < |r| - 1 && i != k - 1 ==> r[i].next == r[i + 1] && r[i + 1].prev == r[i]
  }

  lemma SideBySide<D>(nodes1: seq<ListNode<D>>, nodes2: seq<ListNode<D>>)
    requires Ring(nodes1) && Ring(nodes2) && forall x :: x in nodes1 ==> x !in nodes2
    ensures TwoRings(nodes1 + nodes2, |nodes1|)
  {
    var r, k := nodes1 + nodes2, |nodes1|;
    JoinDiffer(nodes1, nodes2);
    assert nodes1[Succ(k - 1, k)] == r[0] && nodes2[Succ(|nodes2| - 1, |nodes2|)] == r[k];
    forall i | 0 <= i < |r| - 1 && i != k - 1 ensures r[i].next == r[i + 1] && r[i + 1].prev == r[i] {
      if i < k {
        assert Succ(i, k) == i + 1 && r[i] == nodes1[i];
      } else {
        assert Succ(i - k, |nodes2|) == i - k + 1 && r[i] == nodes2[i - k];
      }
    }
  }

  /** list_node_append_list */
  method Splice<D>(list1: ListNode<D>, list2: ListNode<D>, ghost r: seq<ListNode<D>>, ghost k: nat)
    requires TwoRings(r, k) && list1 == r[0] && list2 == r[k]
    modifies r
    ensures Ring(r)
  {
    var last1, last2 := list1.prev, list2.prev;
    last1.next := list2;
    last2.next := list1;
    list1.prev := last2;
    list2.prev := last1;
  }

  lemma JoinDiffer<D>(nodes1: seq<ListNode<D>>, nodes2: seq<ListNode<D>>)
    requires AllDiffer(nodes1) && AllDiffer(nodes2) && forall x :: x in nodes1 ==> x !in nodes2
    ensures AllDiffer(nodes1 + nodes2)
  {
    var r := nodes1 + nodes2;
    forall i, j | 0 <= i < j < |r| ensures r[i] != r[j] {
      if i < |nodes1| <= j {
        assert r[i] in nodes1 && r[j] in nodes2;
      }
    }
  }

  /** list_node_remove: the node after the removed one, nothing if it was alone */
  method Unlink<D>(node: ListNode<D>, ghost nodes: seq<ListNode<D>>) returns (r: ListNode?<D>)
    requires Ring(nodes) && node == nodes[0]
    modifies nodes
    ensures |nodes| == 1 ==> r == null
    ensures |nodes| > 1 ==> Ring(nodes[1..]) && r == nodes[1]
  {
    FirstLinks(nodes);
    if node.prev == node || node.next == node {
      return null;
    }
    var before, after := node.prev, node.next;
    Bridge(before, after, nodes[1..]);
    r := after;
  }

  /** Nodes linked both ways in a row. */
  ghost predicate Row<D>(r: seq<ListNode<D>>)
    reads r
  {
    && AllDiffer(r)
    && forall i :: 0 <= i < |r| - 1 ==> r[i].next == r[i + 1] && r[i + 1].prev == r[i]
  }

  /** What the first node of a ring is linked to; the others are in a row. */
  lemma FirstLinks<D>(nodes: seq<ListNode<D>>)
    requires Ring(nodes)
    ensures nodes[0].prev == nodes[|nodes| - 1] && nodes[0].next == nodes[Succ(0, |nodes|)]
    ensures Row(nodes[1..])
  {
    var r := nodes[1..];
    assert nodes[Succ(|nodes| - 1, |nodes|)] == nodes[0];
    forall i | 0 <= i < |r| - 1 ensures r[i].next == r[i + 1] && r[i + 1].prev == r[i] {
      assert Succ(i + 1, |nodes|) == i + 2;
    }
  }

  /** Close a row to a ring. */
  method Bridge<D>(last: ListNode<D>, first: ListNode<D>, ghost r: seq<ListNode<D>>)
    requires r != [] && Row(r) && first == r[0] && last == r[|r| - 1]
    modifies r
    ensures Ring(r)
  {
    last.next := first;
    first.prev := last;
  }

  // ----- lists

  /** `list` is the first of `nodes`, or there are none. */
  ghost predicate IsList<D>(list: ListNode?<D>, nodes: seq<ListNode<D>>)
    reads nodes
  {
    if nodes == [] then list == null else list == nodes[0] && Ring(nodes)
  }

  /** kmod_list_append */
  method Append<D>(list: ListNode?<D>, data: D, ghost nodes: seq<ListNode<D>>)
    returns (r: ListNode<D>, ghost node: ListNode<D>)
    requires IsList(list, nodes)
    modifies nodes
    ensures fresh(node) && node.data == data && IsList(r, nodes + [node])
  {
    var created := new ListNode(data);
    node := created;
    if list != null {
      Link(list, created, nodes);
      r := list;
    } else {
      r := created;
    }
  }

  /** kmod_list_prepend */
  method Prepend<D>(list: ListNode?<D>, data: D, ghost nodes: seq<ListNode<D>>) returns (r: ListNode<D>)
    requires IsList(list, nodes)
    modifies nodes
    ensures fresh(r) && r.data == data && IsList(r, [r] + nodes)
  {
    r := new ListNode(data);
    if list != null {
      Link(list, r, nodes);
      RotatedRing(nodes + [r], |nodes|);
      assert Rotated(nodes + [r], |nodes|) == [r] + nodes;
    }
  }

  /** kmod_list_insert_after */
  method InsertAfter<D>(list: ListNode?<D>, data: D, ghost nodes: seq<ListNode<D>>)
    returns (r: ListNode<D>, ghost node: ListNode<D>)
    requires IsList(list, nodes)
    modifies nodes
    ensures fresh(node) && node.data == data
    ensures IsList(r, if nodes == [] then [node] else [nodes[0], node] + nodes[1..])
  {
    if list == null {
      r, node := Append(list, data, nodes);
      assert nodes + [node] == [node];
    } else {
      var created := new ListNode(data);
      node := created;
      LinkAfter(list, created, nodes);
      r := list;
    }
  }

  /**
   kmod_list_insert_before, at the i-th node of a ring: seen from its first node, the new one is at position `i`.
   In front of nothing, the new node is the whole list.
   */
  method InsertBefore<D>(at: ListNode?<D>, data: D, ghost nodes: seq<ListNode<D>>, ghost i: nat)
    returns (r: ListNode<D>)
    requires if at == null then nodes == [] && i == 0 else Ring(nodes) && i < |nodes| && at == nodes[i]
    modifies nodes
    ensures fresh(r) && r.data == data && Ring(nodes[..i] + [r] + nodes[i..])
  {
    if at == null {
      ghost var node;
      r, node := Append(at, data, nodes);
      assert nodes + [node] == [r] == nodes[..i] + [r] + nodes[i..];
    } else {
      r := new ListNode(data);
      LinkBefore(at, r, nodes, i);
    }
  }

  /** A node in front of any node of a ring. */
  method LinkBefore<D>(at: ListNode<D>, node: ListNode<D>, ghost nodes: seq<ListNode<D>>, ghost i: nat)
    requires Ring(nodes) && i < |nodes| && at == nodes[i] && node !in nodes
    modifies nodes, node
    ensures Ring(nodes[..i] + [node] + nodes[i..])
  {
    RotatedRing(nodes, i);
    ghost var turned := Rotated(nodes, i);
    SameNodes(nodes, turned, i);
    Link(at, node, turned);
    RotatedRing(turned + [node], |nodes| - i);
    TurnedBack(nodes, i, node);
  }

  lemma SameNodes<D>(nodes: seq<ListNode<D>>, turned: seq<ListNode<D>>, i: nat)
    requires i < |nodes| && turned == Rotated(nodes, i)
    ensures turned[0] == nodes[i] && forall x :: x in turned <==> x in nodes
  {
    assert nodes == nodes[..i] + nodes[i..];
  }

  lemma TurnedBack<D>(nodes: seq<ListNode<D>>, i: nat, node: ListNode<D>)
    requires i < |nodes|
    ensures Rotated(Rotated(nodes, i) + [node], |nodes| - i) == nodes[..i] + [node] + nodes[i..]
  {
  }

  /** kmod_list_append_list */
  method AppendList<D>(list1: ListNode?<D>, list2: ListNode?<D>,
                       ghost nodes1: seq<ListNode<D>>, ghost nodes2: seq<ListNode<D>>)
    returns (r: ListNode?<D>)
    requires IsList(list1, nodes1) && IsList(list2, nodes2) && forall x :: x in nodes1 ==> x !in nodes2
    modifies nodes1, nodes2
    ensures IsList(r, nodes1 + nodes2)
  {
    if list1 == null {
      assert nodes1 + nodes2 == nodes2;
      return list2;
    }
    if list2 == null {
      assert nodes1 + nodes2 == nodes1;
      return list1;
    }
    SideBySide(nodes1, nodes2);
    Splice(list1, list2, nodes1 + nodes2, |nodes1|);
    r := list1;
  }

  /** kmod_list_remove: the list without its first node */
  method Remove<D>(list: ListNode?<D>, ghost nodes: seq<ListNode<D>>) returns (r: ListNode?<D>)
    requires IsList(list, nodes)
    modifies nodes
    ensures IsList(r, if nodes == [] then [] else nodes[1..])
  {
    if list == null {
      return null;
    }
    r := Unlink(list, nodes);
  }

  /** kmod_list_next: nothing after the last node, nor without a list or a node */
  method Next<D>(list: ListNode?<D>, curr: ListNode?<D>, ghost nodes: seq<ListNode<D>>, ghost i: nat)
    returns (r: ListNode?<D>)
    requires list != null && curr != null ==> Ring(nodes) && list == nodes[0] && i < |nodes| && curr == nodes[i]
    ensures r == if list != null && curr != null && i + 1 < |nodes| then nodes[i + 1] else null
  {
    if list == null || curr == null {
      return null;
    }
    if curr.next == list {
      return null;
    }
    r := curr.next;
  }

  /** kmod_list_prev: nothing before the first node, nor without a list or a node */
  method Prev<D>(list: ListNode?<D>, curr: ListNode?<D>, ghost nodes: seq<ListNode<D>>, ghost i: nat)
    returns (r: ListNode?<D>)
    requires list != null && curr != null ==> Ring(nodes) && list == nodes[0] && i < |nodes| && curr == nodes[i]
    ensures r == if list != null && curr != null && 0 < i <= |nodes| then nodes[i - 1] else null
  {
    if list == null || curr == null {
      return null;
    }
    if list == curr {
      return null;
    }
    assert Succ(i - 1, |nodes|) == i;
    r := curr.prev;
  }

  /** kmod_list_last */
  method Last<D>(list: ListNode?<D>, ghost nodes: seq<ListNode<D>>) returns (r: ListNode?<D>)
    requires IsList(list, nodes)
    ensures r == if nodes == [] then null else nodes[|nodes| - 1]
  {
    if list == null {
      return null;
    }
    assert Succ(|nodes| - 1, |nodes|) == 0;
    r := list.prev;
  }

  /** The first node with the given data, or the number of nodes. */
  ghost function FirstWith<D>(nodes: seq<ListNode<D>>, data: D): (k: nat)
    ensures k <= |nodes| && (k < |nodes| ==> nodes[k].data == data) && forall i :: 0 <= i < k ==> nodes[i].data != data
  {
    if nodes == [] || nodes[0].data == data then 0 else FirstWith(nodes[1..], data) + 1
  }

  lemma FirstWithIs<D>(nodes: seq<ListNode<D>>, data: D, k: nat)
    requires k <= |nodes| && (k < |nodes| ==> nodes[k].data == data) && forall i :: 0 <= i < k ==> nodes[i].data != data
    ensures FirstWith(nodes, data) == k
  {
  }

  /** kmod_list_remove_data: without that node, read from the one after it; the list itself if no node has the data */
  method RemoveData<D(==)>(list: ListNode?<D>, data: D, ghost nodes: seq<ListNode<D>>) returns (r: ListNode?<D>)
    requires IsList(list, nodes)
    modifies nodes
    ensures var k := FirstWith(nodes, data);
            IsList(r, if k == |nodes| then nodes else nodes[k + 1..] + nodes[..k])
  {
    var itr := list;
    ghost var k := 0;
    while itr != null && itr.data != data
      invariant k <= |nodes| && itr == (if k < |nodes| then nodes[k] else null)
      invariant IsList(list, nodes) && forall i :: 0 <= i < k ==> nodes[i].data != data
      decreases |nodes| - k
    {
      itr := Next(list, itr, nodes, k);
      k := k + 1;
    }
    FirstWithIs(nodes, data, k);
    if itr == null {
      return list;
    }
    r := UnlinkAt(itr, nodes, k);
  }

  /** The ring without its k-th node, from the one after it. */
  method UnlinkAt<D>(node: ListNode<D>, ghost nodes: seq<ListNode<D>>, ghost k: nat) returns (r: ListNode?<D>)
    requires Ring(nodes) && k < |nodes| && node == nodes[k]
    modifies nodes
    ensures IsList(r, nodes[k + 1..] + nodes[..k])
  {
    RotatedRing(nodes, k);
    ghost var turned := Rotated(nodes, k);
    SameNodes(nodes, turned, k);
    r := Unlink(node, turned);
    assert turned[1..] == nodes[k + 1..] + nodes[..k];
  }
}
