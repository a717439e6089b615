/** `SinglyLinkedList`: nodes chained by `next` from `head`, the last one pointing nowhere. */
module SinglyList {
  import opened Nodes
  import opened ListSpec
  import opened Spine
  import Text

  class SinglyLinkedList {
    var head: Node?
    /** The nodes reachable from `head`, in `next` order. */
    ghost var nodes: seq<Node>
    /** The values stored in those nodes, in the same order. */
    ghost var Contents: seq<int>

    ghost predicate Valid()
      reads this, nodes
    {
      && head == (if nodes == [] then null else nodes[0])
      && Holds(nodes, Contents)
      && Chain(nodes, null)
      && Distinct(nodes)
    }

    /** Where the `next` link of the node at index `i` leads. */
    lemma NextAt(i: nat)
      requires Valid() && i < |nodes|
      ensures nodes[i].next == if i + 1 < |nodes| then nodes[i + 1] else null
    {
      ChainAt(nodes, null, i);
    }

    constructor ()
      ensures Valid() && Contents == []
    {
      head := null;
      nodes := [];
      Contents := [];
    }

    /** `append`: walk to the node whose `next` is missing and link a new node after it. */
    method Append(data: int)
      requires Valid()
      modifies this, nodes
      ensures Valid()
      ensures Contents == old(Contents) + [data]
      ensures |nodes| == |old(nodes)| + 1 && nodes == old(nodes) + [nodes[|old(nodes)|]]
      ensures fresh(nodes[|nodes| - 1])
    {
      var newNode := new Node(data);
      if head == null {
        head := newNode;
        nodes, Contents := [newNode], [data];
        return;
      }
      var cur := head;
      ghost var i := 0;
      while cur.next != null
        invariant 0 <= i < |nodes| && cur == nodes[i]
        decreases |nodes| - i
      {
        cur := cur.next;
        i := i + 1;
      }
      NextAt(i);
      ghost var ns, cs := nodes, Contents;
      LinkAfter(cur, i, newNode);
      assert ns[..i + 1] == ns && cs[..i + 1] == cs;
    }

    /** `prepend`: the new node links to the old head and becomes the head. */
    method Prepend(data: int)
      requires Valid()
      modifies this
      ensures Valid()
      ensures Contents == [data] + old(Contents)
      ensures nodes != [] && nodes == [nodes[0]] + old(nodes)
      ensures fresh(nodes[0])
    {
      var newNode := new Node(data);
      newNode.next := head;
      head := newNode;
      ghost var ns := nodes;
      nodes, Contents := [newNode] + ns, [data] + Contents;
      ChainCons(newNode, ns, null);
      DistinctCons(newNode, ns);
      HoldsCons(newNode, ns, old(Contents));
    }

    /**
     * `insert_at_position`: a position of 1 or less, or an empty list, is a
     * prepend; otherwise walk at most `pos - 2` links and splice after that node.
     */
    method InsertAtPosition(pos: int, data: int)
      requires Valid()
      modifies this, nodes
      ensures Valid()
      ensures Contents == InsertAt(old(Contents), pos, data)
      ensures var k := InsertIndex(|old(nodes)|, pos);
        k < |nodes| && nodes == old(nodes)[..k] + [nodes[k]] + old(nodes)[k..] && fresh(nodes[k])
    {
      if pos <= 1 || head == null {
        Prepend(data);
        InsertAtSplices(old(Contents), pos, data);
        return;
      }
      var newNode := new Node(data);
      var cur, i := NodeBefore(pos);
      LinkAfter(cur, i, newNode);
      InsertAtSplices(old(Contents), pos, data);
    }

    /**
     * The walk of `insert_at_position`: from the head, follow `next` while there
     * is one and fewer than `pos - 1` nodes have been visited.
     */
    method NodeBefore(pos: int) returns (cur: Node, ghost i: nat)
      requires Valid() && head != null && pos >= 2
      ensures i < |nodes| && cur == nodes[i]
      ensures i + 1 == InsertIndex(|nodes|, pos)
    {
      cur := head;
      var count := 1;
      i := 0;
      while cur.next != null && count < pos - 1
        invariant 0 <= i < |nodes| && cur == nodes[i]
        invariant count == i + 1 && count <= pos - 1
        decreases |nodes| - i
      {
        cur := cur.next;
        count := count + 1;
        i := i + 1;
      }
      NextAt(i);
    }

    /** Splice the fresh node `newNode` in right after `cur`, the node at index `i`. */
    method LinkAfter(cur: Node, ghost i: nat, newNode: Node)
      requires Valid() && i < |nodes| && cur == nodes[i]
      requires newNode !in nodes
      modifies this, cur, newNode
      ensures Valid()
      ensures nodes == old(nodes[..i + 1] + [newNode] + nodes[i + 1..])
      ensures Contents == old(Contents[..i + 1] + [newNode.data] + Contents[i + 1..])
    {
      NextAt(i);
      ghost var ns := nodes;
      newNode.next := cur.next;
      cur.next := newNode;
      nodes := ns[..i + 1] + [newNode] + ns[i + 1..];
      Contents := Contents[..i + 1] + [newNode.data] + Contents[i + 1..];
      ChainInsert(ns, null, i, newNode);
      DistinctInsert(ns, i + 1, newNode);
      HoldsInsert(ns, old(Contents), i + 1, newNode);
    }

    /**
     * `delete_by_value`: unlink the first node holding `value`, or report an
     * empty list or a missing value and change nothing.
     */
    method DeleteByValue(value: int) returns (outcome: Outcome)
      requires Valid()
      modifies this, nodes
      ensures Valid()
      ensures outcome == DeleteOutcome(old(Contents), value)
      ensures Contents == DeleteFirst(old(Contents), value)
      ensures nodes == if value in old(Contents) then RemoveAt(old(nodes), IndexOf(old(Contents), value)) else old(nodes)
    {
      if head == null {
        return Message(EmptyListMessage);
      }
      if head.data == value {
        DeleteFirstNode();
        return Done;
      }
      var cur, i := SearchBefore(value);
      if cur.next != null {
        DeleteFound(cur, i, value);
        outcome := Done;
      } else {
        outcome := Message(NotFoundMessage(value));
      }
    }

    /** The search stopped before the first node holding `value`: unlink that node. */
    method DeleteFound(cur: Node, ghost i: nat, value: int)
      requires Valid() && i + 1 < |nodes| && cur == nodes[i]
      requires Contents[i + 1] == value && value !in Contents[..i + 1]
      modifies this, cur
      ensures Valid() && value in old(Contents)
      ensures Contents == DeleteFirst(old(Contents), value)
      ensures nodes == RemoveAt(old(nodes), IndexOf(old(Contents), value))
    {
      FirstIndex(Contents, value, i + 1);
      DeleteFirstRemovesFirst(Contents, value);
      UnlinkAfter(cur, i);
    }

    /** The head match of `delete_by_value`: `head` moves on to the second node. */
    method DeleteFirstNode()
      requires Valid() && nodes != []
      modifies this
      ensures Valid()
      ensures nodes == old(nodes[1..]) && Contents == old(Contents[1..])
    {
      NextAt(0);
      ghost var ns := nodes;
      head := head.next;
      nodes, Contents := ns[1..], Contents[1..];
      ChainTail(ns, null);
    }

    /**
     * The search of `delete_by_value`: from the head, move on while the next
     * node exists and does not hold `value`. It stops before the first node
     * holding `value`, or at the last node when there is none.
     */
    method SearchBefore(value: int) returns (cur: Node, ghost i: nat)
      requires Valid() && nodes != [] && Contents[0] != value
      ensures i < |nodes| && cur == nodes[i]
      ensures value !in Contents[..i + 1]
      ensures cur.next != null ==> i + 1 < |nodes| && Contents[i + 1] == value
      ensures cur.next == null ==> i + 1 == |nodes| && value !in Contents
    {
      cur := head;
      i := 0;
      while cur.next != null && cur.next.data != value
        invariant 0 <= i < |nodes| && cur == nodes[i]
        invariant value !in Contents[..i + 1]
        decreases |nodes| - i
      {
        NextAt(i);
        assert Contents[..i + 2] == Contents[..i + 1] + [Contents[i + 1]];
        cur := cur.next;
        i := i + 1;
      }
      NextAt(i);
      if cur.next == null {
        assert Contents[..i + 1] == Contents;
      }
    }

    /** Unlink the node after `cur`, the node at index `i`. */
    method UnlinkAfter(cur: Node, ghost i: nat)
      requires Valid() && i + 1 < |nodes| && cur == nodes[i]
      modifies this, cur
      ensures Valid()
      ensures nodes == RemoveAt(old(nodes), i + 1)
      ensures Contents == RemoveAt(old(Contents), i + 1)
    {
      NextAt(i + 1);
      ghost var ns := nodes;
      cur.next := cur.next.next;
      nodes := RemoveAt(ns, i + 1);
      Contents := RemoveAt(Contents, i + 1);
      ChainRemove(ns, null, i);
      DistinctRemove(ns, i + 1);
      HoldsRemove(ns, old(Contents), i + 1);
    }

    /** `get_nodes`: the values as strings, from the head to the node whose `next` is missing. */
    method GetNodes() returns (values: seq<string>)
      requires Valid()
      ensures values == Strs(Contents)
    {
      values := [];
      var cur := head;
      ghost var i := 0;
      while cur != null
        invariant 0 <= i <= |nodes|
        invariant if i < |nodes| then cur == nodes[i] else cur == null
        invariant values == Strs(Contents[..i])
        decreases |nodes| - i
      {
        NextAt(i);
        assert Contents[..i + 1] == Contents[..i] + [cur.data];
        StrsSnoc(Contents[..i], cur.data);
        values := values + [Text.IntToString(cur.data)];
        cur := cur.next;
        i := i + 1;
      }
      assert Contents[..i] == Contents;
    }

    /** `display`: the values joined by " -> ", or "List is empty.". */
    method Display() returns (text: string)
      requires Valid()
      ensures text == Render(Contents)
      ensures text == EmptyListMessage <==> Contents == []
    {
      var values := GetNodes();
      text := if values == [] then EmptyListMessage else Text.Join(values, " -> ");
      RenderEmptyIff(Contents);
    }

    /** `clear`: drop every node. */
    method Clear()
      modifies this
      ensures Valid() && Contents == [] && head == null
    {
      head := null;
      nodes, Contents := [], [];
    }
  }
}
