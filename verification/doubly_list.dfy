/**
 * `DoublyLinkedList`: a singly chain of `DoublyNode`s whose `append`,
 * `prepend` and `insert_at_position` also set `prev` links. Its
 * `delete_by_value`, `get_nodes`, `display` and `clear` are the singly
 * list's, inherited unchanged, so deletion never touches `prev`.
 */
module DoublyList {
  import opened Nodes
  import opened ListSpec
  import opened Spine
  import Text

  class DoublyLinkedList {
    var head: DoublyNode?
    /** The nodes reachable from `head`, in `next` order. */
    ghost var nodes: seq<DoublyNode>
    /** The values stored in those nodes, in the same order. */
    ghost var Contents: seq<int>

    /** The forward structure, exactly as for a singly list. */
    ghost predicate Valid()
      reads this, nodes
    {
      && head == (if nodes == [] then null else nodes[0])
      && DoublyHolds(nodes, Contents)
      && DoublyChain(nodes)
      && Distinct(nodes)
    }

    /** Every node's `prev` is its predecessor, and the head's is missing. */
    ghost predicate BackLinked()
      reads this, nodes
    {
      BackChain(nodes)
    }

    /** Where the `next` link of the node at index `i` leads. */
    lemma NextAt(i: nat)
      requires Valid() && i < |nodes|
      ensures nodes[i].next == if i + 1 < |nodes| then nodes[i + 1] else null
    {
      DoublyChainAt(nodes, i);
    }

    constructor ()
      ensures Valid() && BackLinked() && Contents == []
    {
      head := null;
      nodes := [];
      Contents := [];
    }

    /** `append`: link a new node after the last one and point its `prev` back at it. */
    method Append(data: int)
      requires Valid()
      modifies this, nodes`next
      ensures Valid()
      ensures Contents == old(Contents) + [data]
      ensures |nodes| == |old(nodes)| + 1 && nodes == old(nodes) + [nodes[|old(nodes)|]]
      ensures fresh(nodes[|nodes| - 1])
      ensures nodes[|nodes| - 1].prev == if old(nodes) == [] then null else old(nodes)[|old(nodes)| - 1]
      ensures old(BackLinked()) ==> BackLinked()
    {
      var newNode := new DoublyNode(data);
      if head == null {
        head := newNode;
        nodes, Contents := [newNode], [data];
        return;
      }
      var cur := head;
      ghost var i := 0;
      while cur.next != null
        invariant 0 <= i < |nodes| && cur == nodes[i]
        decreases |nodes| - i
      {
        cur := cur.next;
        i := i + 1;
      }
      NextAt(i);
      ghost var ns, cs := nodes, Contents;
      LinkAfter(cur, i, newNode);
      assert ns[..i + 1] == ns && cs[..i + 1] == cs;
    }

    /** `prepend`: the old head's `prev` points at the new node, which becomes the head. */
    method Prepend(data: int)
      requires Valid()
      modifies this, (if head == null then {} else {head})`prev
      ensures Valid()
      ensures Contents == [data] + old(Contents)
      ensures nodes != [] && nodes == [nodes[0]] + old(nodes)
      ensures fresh(nodes[0]) && nodes[0].prev == null
      ensures old(nodes) != [] ==> nodes[1].prev == nodes[0]
      ensures old(BackLinked()) ==> BackLinked()
    {
      var newNode := new DoublyNode(data);
      LinkFront(newNode);
    }

    /** The links `prepend` makes for the new, unlinked `newNode`. */
    method LinkFront(newNode: DoublyNode)
      requires Valid() && newNode !in nodes && newNode.prev == null
      modifies this, newNode`next, (if head == null then {} else {head})`prev
      ensures Valid()
      ensures nodes == [newNode] + old(nodes) && Contents == [newNode.data] + old(Contents)
      ensures old(nodes) != [] ==> old(nodes)[0].prev == newNode
      ensures old(BackLinked()) ==> BackLinked()
    {
      ghost var ns, cs := nodes, Contents;
      if head != null {
        head.prev := newNode;
      }
      newNode.next := head;
      head := newNode;
      nodes, Contents := [newNode] + ns, [newNode.data] + cs;
      DoublyChainCons(newNode, ns);
      DistinctCons(newNode, ns);
      DoublyHoldsCons(newNode, ns, cs);
      if old(BackLinked()) {
        BackCons(newNode, ns);
      }
    }

    /**
     * `insert_at_position`: a prepend for a position of 1 or less or an empty
     * list; otherwise splice after the node reached by the walk and fix the
     * `prev` links on both sides of the new node.
     */
    method InsertAtPosition(pos: int, data: int)
      requires Valid()
      modifies this, nodes`next, (if InsertIndex(|nodes|, pos) < |nodes| then {nodes[InsertIndex(|nodes|, pos)]} else {})`prev
      ensures Valid()
      ensures Contents == InsertAt(old(Contents), pos, data)
      ensures var k := InsertIndex(|old(nodes)|, pos);
        k < |nodes| && nodes == old(nodes)[..k] + [nodes[k]] + old(nodes)[k..] && fresh(nodes[k])
      ensures var k := InsertIndex(|old(nodes)|, pos);
        nodes[k].prev == (if k == 0 then null else nodes[k - 1])
      ensures var k := InsertIndex(|old(nodes)|, pos);
        k < |old(nodes)| ==> old(nodes)[k].prev == nodes[k]
      ensures old(BackLinked()) ==> BackLinked()
    {
      if pos <= 1 || head == null {
        Prepend(data);
        InsertAtSplices(old(Contents), pos, data);
        return;
      }
      var newNode := new DoublyNode(data);
      var cur, i := NodeBefore(pos);
      LinkAfter(cur, i, newNode);
      InsertAtSplices(old(Contents), pos, data);
    }

    /** The walk of `insert_at_position`, as in the singly list. */
    method NodeBefore(pos: int) returns (cur: DoublyNode, ghost i: nat)
      requires Valid() && head != null && pos >= 2
      ensures i < |nodes| && cur == nodes[i]
      ensures i + 1 == InsertIndex(|nodes|, pos)
    {
      cur := head;
      var count := 1;
      i := 0;
      while cur.next != null && count < pos - 1
        invariant 0 <= i < |nodes| && cur == nodes[i]
        invariant count == i + 1 && count <= pos - 1
        decreases |nodes| - i
      {
        cur := cur.next;
        count := count + 1;
        i := i + 1;
      }
      NextAt(i);
    }

    /** Splice the fresh `newNode` in after `cur` (index `i`), setting both `prev` links that change. */
    method LinkAfter(cur: DoublyNode, ghost i: nat, newNode: DoublyNode)
      requires Valid() && i < |nodes| && cur == nodes[i]
      requires newNode !in nodes
      modifies this, cur`next, newNode, (if i + 1 < |nodes| then {nodes[i + 1]} else {})`prev
      ensures Valid()
      ensures nodes == old(nodes[..i + 1] + [newNode] + nodes[i + 1..])
      ensures Contents == old(Contents[..i + 1] + [newNode.data] + Contents[i + 1..])
      ensures newNode.prev == cur
      ensures i + 1 < |old(nodes)| ==> old(nodes)[i + 1].prev == newNode
      ensures old(BackLinked()) ==> BackLinked()
    {
      ghost var ns := nodes;
      LinkNext(cur, i, newNode);
      LinkBack(cur, i, newNode, ns);
    }

    /** The backward half of `LinkAfter`, once `newNode` follows `cur`: its `prev`, and its successor's. */
    method LinkBack(cur: DoublyNode, ghost i: nat, newNode: DoublyNode, ghost ns: seq<DoublyNode>)
      requires Valid() && i < |ns| && cur == ns[i] && newNode !in ns && Distinct(ns)
      requires nodes == ns[..i + 1] + [newNode] + ns[i + 1..]
      modifies newNode`prev, (if i + 1 < |ns| then {ns[i + 1]} else {})`prev
      ensures Valid()
      ensures newNode.prev == cur
      ensures i + 1 < |ns| ==> ns[i + 1].prev == newNode
      ensures old(BackChain(ns)) ==> BackLinked()
    {
      NextAt(i + 1);
      assert newNode.next == if i + 1 < |ns| then ns[i + 1] else null;
      newNode.prev := cur;
      if newNode.next != null {
        newNode.next.prev := newNode;
      }
      if old(BackChain(ns)) {
        BackInsert(ns, i, newNode);
      }
    }

    /** The forward half of `LinkAfter`: only the two `next` links change. */
    method LinkNext(cur: DoublyNode, ghost i: nat, newNode: DoublyNode)
      requires Valid() && i < |nodes| && cur == nodes[i]
      requires newNode !in nodes
      modifies this, cur`next, newNode`next
      ensures Valid()
      ensures nodes == old(nodes[..i + 1] + [newNode] + nodes[i + 1..])
      ensures Contents == old(Contents[..i + 1] + [newNode.data] + Contents[i + 1..])
    {
      NextAt(i);
      ghost var ns := nodes;
      newNode.next := cur.next;
      cur.next := newNode;
      nodes := ns[..i + 1] + [newNode] + ns[i + 1..];
      Contents := Contents[..i + 1] + [newNode.data] + Contents[i + 1..];
      DoublyChainInsert(ns, i, newNode);
      DistinctInsert(ns, i + 1, newNode);
      DoublyHoldsInsert(ns, old(Contents), i + 1, newNode);
    }

    /** `delete_by_value`, inherited from the singly list: no `prev` link is updated. */
    method DeleteByValue(value: int) returns (outcome: Outcome)
      requires Valid()
      modifies this, nodes`next
      ensures Valid()
      ensures outcome == DeleteOutcome(old(Contents), value)
      ensures Contents == DeleteFirst(old(Contents), value)
      ensures nodes == if value in old(Contents) then RemoveAt(old(nodes), IndexOf(old(Contents), value)) else old(nodes)
    {
      if head == null {
        return Message(EmptyListMessage);
      }
      if head.data == value {
        DeleteFirstNode();
        return Done;
      }
      var cur, i := SearchBefore(value);
      if cur.next != null {
        DeleteFound(cur, i, value);
        outcome := Done;
      } else {
        outcome := Message(NotFoundMessage(value));
      }
    }

    /** The search stopped before the first node holding `value`: unlink that node. */
    method DeleteFound(cur: DoublyNode, ghost i: nat, value: int)
      requires Valid() && i + 1 < |nodes| && cur == nodes[i]
      requires Contents[i + 1] == value && value !in Contents[..i + 1]
      modifies this, cur`next
      ensures Valid() && value in old(Contents)
      ensures Contents == DeleteFirst(old(Contents), value)
      ensures nodes == RemoveAt(old(nodes), IndexOf(old(Contents), value))
    {
      FirstIndex(Contents, value, i + 1);
      DeleteFirstRemovesFirst(Contents, value);
      UnlinkAfter(cur, i);
    }

    /** The inherited head match: `head` moves on and the new head's `prev` is left as it was. */
    method DeleteFirstNode()
      requires Valid() && nodes != []
      modifies this
      ensures Valid()
      ensures nodes == old(nodes[1..]) && Contents == old(Contents[1..])
    {
      NextAt(0);
      ghost var ns := nodes;
      head := head.next;
      nodes, Contents := ns[1..], Contents[1..];
    }

    /** The inherited search: it stops before the first node holding `value`, or at the last node. */
    method SearchBefore(value: int) returns (cur: DoublyNode, ghost i: nat)
      requires Valid() && nodes != [] && Contents[0] != value
      ensures i < |nodes| && cur == nodes[i]
      ensures value !in Contents[..i + 1]
      ensures cur.next != null ==> i + 1 < |nodes| && Contents[i + 1] == value
      ensures cur.next == null ==> i + 1 == |nodes| && value !in Contents
    {
      cur := head;
      i := 0;
      while cur.next != null && cur.next.data != value
        invariant 0 <= i < |nodes| && cur == nodes[i]
        invariant value !in Contents[..i + 1]
        decreases |nodes| - i
      {
        NextAt(i);
        assert Contents[..i + 2] == Contents[..i + 1] + [Contents[i + 1]];
        cur := cur.next;
        i := i + 1;
      }
      NextAt(i);
      if cur.next == null {
        assert Contents[..i + 1] == Contents;
      }
    }

    /** Unlink the node after `cur`, the node at index `i`; only `cur.next` changes. */
    method UnlinkAfter(cur: DoublyNode, ghost i: nat)
      requires Valid() && i + 1 < |nodes| && cur == nodes[i]
      modifies this, cur`next
      ensures Valid()
      ensures nodes == RemoveAt(old(nodes), i + 1)
      ensures Contents == RemoveAt(old(Contents), i + 1)
    {
      NextAt(i + 1);
      ghost var ns := nodes;
      cur.next := cur.next.next;
      nodes := RemoveAt(ns, i + 1);
      Contents := RemoveAt(Contents, i + 1);
      DoublyChainRemove(ns, i);
      DistinctRemove(ns, i + 1);
      DoublyHoldsRemove(ns, old(Contents), i + 1);
    }

    /** `get_nodes`, inherited: the values as strings, following `next` from the head. */
    method GetNodes() returns (values: seq<string>)
      requires Valid()
      ensures values == Strs(Contents)
    {
      values := [];
      var cur := head;
      ghost var i := 0;
      while cur != null
        invariant 0 <= i <= |nodes|
        invariant if i < |nodes| then cur == nodes[i] else cur == null
        invariant values == Strs(Contents[..i])
        decreases |nodes| - i
      {
        NextAt(i);
        assert Contents[..i + 1] == Contents[..i] + [cur.data];
        StrsSnoc(Contents[..i], cur.data);
        values := values + [Text.IntToString(cur.data)];
        cur := cur.next;
        i := i + 1;
      }
      assert Contents[..i] == Contents;
    }

    /** `display`, inherited: the values joined by " -> ", or "List is empty.". */
    method Display() returns (text: string)
      requires Valid()
      ensures text == Render(Contents)
      ensures text == EmptyListMessage <==> Contents == []
    {
      var values := GetNodes();
      text := if values == [] then EmptyListMessage else Text.Join(values, " -> ");
      RenderEmptyIff(Contents);
    }

    /** `clear`, inherited: drop every node. */
    method Clear()
      modifies this
      ensures Valid() && BackLinked() && Contents == [] && head == null
    {
      head := null;
      nodes, Contents := [], [];
    }
  }

  /**
   * Deleting the head of the two-element list [1, 2] leaves the new head's
   * `prev` pointing at the unlinked node: the back-link invariant does not
   * survive the inherited deletion.
   */
  method InheritedDeleteLeavesStaleBackLink() returns (stale: bool)
    ensures stale
  {
    var list := new DoublyLinkedList();
    list.Append(1);
    list.Append(2);
    var outcome := list.DeleteByValue(1);
    stale := list.head != null && list.head.prev != null;
  }

  /** Prepending 5 then 3 to an empty list gives [3, 5] with node 5's `prev` at node 3. */
  method PrependTwice() returns (values: seq<string>, backLinked: bool)
    ensures values == ["3", "5"] && backLinked
  {
    var list := new DoublyLinkedList();
    list.Prepend(5);
    list.Prepend(3);
    values := list.GetNodes();
    backLinked := list.head != null && list.head.next != null && list.head.next.prev == list.head;
  }
}
