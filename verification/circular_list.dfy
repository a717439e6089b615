/**
 * `CircularLinkedList`: `Node`s chained by `next` from `head`, the last one
 * pointing back at `head`. It overrides `append`, `prepend`, `get_nodes`,
 * `display` and `delete_by_value`; `insert_at_position` and `clear` are the
 * singly list's, inherited unchanged.
 */
module CircularList {
  import opened Nodes
  import opened ListSpec
  import opened Spine
  import Text

  class CircularLinkedList {
    var head: Node?
    /** The nodes of one trip round the cycle from `head`, in `next` order. */
    ghost var nodes: seq<Node>
    /** The values stored in those nodes, in the same order. */
    ghost var Contents: seq<int>

    ghost predicate Valid()
      reads this, nodes
    {
      && head == (if nodes == [] then null else nodes[0])
      && Holds(nodes, Contents)
      && Chain(nodes, head)
      && Distinct(nodes)
    }

    /** Where the `next` link of the node at index `i` leads: the last one closes the cycle. */
    lemma NextAt(i: nat)
      requires Valid() && i < |nodes|
      ensures nodes[i].next == if i + 1 < |nodes| then nodes[i + 1] else nodes[0]
    {
      ChainAt(nodes, head, i);
    }

    /** Every node's successor is again a node of the cycle. */
    lemma NextInNodes(x: Node)
      requires Valid() && x in nodes
      ensures x.next != null && x.next in nodes
    {
      var i :| 0 <= i < |nodes| && nodes[i] == x;
      NextAt(i);
    }

    /** The node reached from `x` after `k` steps along `next`. */
    ghost function Walk(x: Node, k: nat): (y: Node)
      reads this, nodes
      requires Valid() && x in nodes
      ensures y in nodes
    {
      if k == 0 then x
      else
        var y := Walk(x, k - 1);
        NextInNodes(y);
        y.next
    }

    /** Walking `k` steps from the node at index `i` reaches index `(i + k) mod n`. */
    lemma {:induction false} WalkIndex(i: nat, k: nat)
      requires Valid() && i < |nodes|
      ensures Walk(nodes[i], k) == nodes[(i + k) % |nodes|]
    {
      if k == 0 {
        ModUnique(i, |nodes|, 0, i);
      } else {
        var n := |nodes|;
        var a := (i + k - 1) % n;
        WalkIndex(i, k - 1);
        assert Walk(nodes[i], k - 1) == nodes[a];
        NextAt(a);
        ModStep(i + k - 1, n);
        assert Walk(nodes[i], k) == nodes[a].next;
      }
    }

    /** Closure: from any node, `next` leads back to it after exactly n steps and not before. */
    lemma Closure(x: Node)
      requires Valid() && x in nodes
      ensures Walk(x, |nodes|) == x
      ensures forall k :: 0 < k < |nodes| ==> Walk(x, k) != x
    {
      var n := |nodes|;
      var i :| 0 <= i < n && nodes[i] == x;
      WalkIndex(i, n);
      ModUnique(i + n, n, 1, i);
      forall k | 0 < k < n
        ensures Walk(x, k) != x
      {
        WalkIndex(i, k);
        if i + k < n {
          ModUnique(i + k, n, 0, i + k);
        } else {
          ModUnique(i + k, n, 1, i + k - n);
        }
      }
    }

    constructor ()
      ensures Valid() && Contents == []
    {
      head := null;
      nodes := [];
      Contents := [];
    }

    /** The node whose `next` is `head`, found by walking from `head`. */
    method Last() returns (last: Node)
      requires Valid() && head != null
      ensures last == nodes[|nodes| - 1]
    {
      last := head;
      ghost var i := 0;
      while last.next != head
        invariant 0 <= i < |nodes| && last == nodes[i]
        decreases |nodes| - i
      {
        assert last.next == nodes[i + 1];
        last := last.next;
        i := i + 1;
      }
      NextAt(i);
    }

    /** `append`: a lone new node points to itself; otherwise it goes after the last node and points to `head`. */
    method Append(data: int)
      requires Valid()
      modifies this, nodes
      ensures Valid()
      ensures Contents == old(Contents) + [data]
      ensures |nodes| == |old(nodes)| + 1 && nodes == old(nodes) + [nodes[|old(nodes)|]]
      ensures fresh(nodes[|nodes| - 1])
    {
      var newNode := new Node(data);
      if head == null {
        head := newNode;
        newNode.next := head;
        nodes, Contents := [newNode], [data];
        return;
      }
      var cur := Last();
      ghost var ns, cs := nodes, Contents;
      LinkAfter(cur, |nodes| - 1, newNode);
      assert ns[..|ns|] == ns && cs[..|cs|] == cs;
    }

    /** `prepend`: the new node points to the old head, the last node points to the new one, which becomes `head`. */
    method Prepend(data: int)
      requires Valid()
      modifies this, nodes
      ensures Valid()
      ensures Contents == [data] + old(Contents)
      ensures nodes != [] && nodes == [nodes[0]] + old(nodes)
      ensures fresh(nodes[0])
    {
      var newNode := new Node(data);
      if head == null {
        head := newNode;
        newNode.next := newNode;
        nodes, Contents := [newNode], [data];
        return;
      }
      var last := Last();
      LinkFront(newNode, last);
    }

    /** The non-empty case of `prepend`: `newNode` leads to `head`, the last node leads to `newNode`, which becomes `head`. */
    method LinkFront(newNode: Node, last: Node)
      requires Valid() && nodes != [] && newNode !in nodes && last == nodes[|nodes| - 1]
      modifies this, last`next, newNode`next
      ensures Valid()
      ensures nodes == [newNode] + old(nodes) && Contents == [newNode.data] + old(Contents)
    {
      ghost var ns := nodes;
      newNode.next := head;
      last.next := newNode;
      ChainRetarget(ns, head, newNode);
      ChainCons(newNode, ns, newNode);
      DistinctCons(newNode, ns);
      HoldsCons(newNode, ns, Contents);
      head := newNode;
      nodes, Contents := [newNode] + ns, [newNode.data] + Contents;
    }

    /**
     * `insert_at_position`, inherited from the singly list: a prepend for a
     * position of 1 or less or an empty list; otherwise the walk, which never
     * meets a missing `next` here, goes round the cycle `pos - 2` steps and the
     * new node is spliced in after the node it stops at.
     */
    method InsertAtPosition(pos: int, data: int)
      requires Valid()
      modifies this, nodes
      ensures Valid()
      ensures Contents == CircularInsertAt(old(Contents), pos, data)
      ensures var k := if pos <= 1 || old(nodes) == [] then 0 else (pos - 2) % |old(nodes)| + 1;
        k < |nodes| && nodes == old(nodes)[..k] + [nodes[k]] + old(nodes)[k..] && fresh(nodes[k])
    {
      if pos <= 1 || head == null {
        Prepend(data);
        return;
      }
      var newNode := new Node(data);
      var cur, i := NodeBefore(pos);
      LinkAfter(cur, i, newNode);
      CircularInsertAfter(old(Contents), pos, data);
    }

    /** The inherited walk: follow `next` while there is one and fewer than `pos - 1` nodes have been visited. */
    method NodeBefore(pos: int) returns (cur: Node, ghost i: nat)
      requires Valid() && head != null && pos >= 2
      ensures i < |nodes| && cur == nodes[i]
      ensures i == (pos - 2) % |nodes|
    {
      cur := head;
      var count := 1;
      i := 0;
      while cur.next != null && count < pos - 1
        invariant 1 <= count <= pos - 1
        invariant 0 <= i < |nodes| && cur == nodes[i]
        invariant i == (count - 1) % |nodes|
        decreases pos - 1 - count
      {
        ModStep(count - 1, |nodes|);
        cur := cur.next;
        count := count + 1;
        i := if i + 1 < |nodes| then i + 1 else 0;
      }
      NextAt(i);
    }

    /** Splice the fresh `newNode` in right after `cur`, the node at index `i`. */
    method LinkAfter(cur: Node, ghost i: nat, newNode: Node)
      requires Valid() && i < |nodes| && cur == nodes[i]
      requires newNode !in nodes
      modifies this, cur, newNode
      ensures Valid()
      ensures nodes == old(nodes[..i + 1] + [newNode] + nodes[i + 1..])
      ensures Contents == old(Contents[..i + 1] + [newNode.data] + Contents[i + 1..])
    {
      NextAt(i);
      ghost var ns := nodes;
      newNode.next := cur.next;
      cur.next := newNode;
      nodes := ns[..i + 1] + [newNode] + ns[i + 1..];
      Contents := Contents[..i + 1] + [newNode.data] + Contents[i + 1..];
      ChainInsert(ns, head, i, newNode);
      DistinctInsert(ns, i + 1, newNode);
      HoldsInsert(ns, old(Contents), i + 1, newNode);
    }

    /**
     * `delete_by_value`: a head match empties a one-node list or moves `head`
     * on and re-points the last node; otherwise search from the second node
     * until the value or `head` comes round again.
     */
    method DeleteByValue(value: int) returns (outcome: Outcome)
      requires Valid()
      modifies this, nodes
      ensures Valid()
      ensures outcome == DeleteOutcome(old(Contents), value)
      ensures Contents == DeleteFirst(old(Contents), value)
      ensures nodes == if value in old(Contents) then RemoveAt(old(nodes), IndexOf(old(Contents), value)) else old(nodes)
    {
      if head == null {
        return Message(EmptyListMessage);
      }
      NextAt(0);
      if head.data == value {
        if head.next == head {
          head := null;
          nodes, Contents := [], [];
          return Done;
        }
        DeleteHead();
        return Done;
      }
      var prev := head;
      var cur := head.next;
      ghost var i := 1;
      while cur != head && cur.data != value
        invariant 1 <= i <= |nodes|
        invariant prev == nodes[i - 1]
        invariant cur == if i < |nodes| then nodes[i] else nodes[0]
        invariant value !in Contents[..i]
        decreases |nodes| - i
      {
        assert Contents[..i + 1] == Contents[..i] + [Contents[i]];
        prev := cur;
        cur := cur.next;
        i := i + 1;
      }
      if cur == head {
        assert i == |nodes|;
        assert Contents[..i] == Contents;
        return Message(NotFoundMessage(value));
      }
      assert Contents[..i + 1] == Contents[..i] + [value];
      assert IndexOf(Contents, value) == i;
      DeleteFirstRemovesFirst(Contents, value);
      UnlinkAfter(prev, i - 1);
      outcome := Done;
    }

    /** Head deletion in a list of two or more: `head` moves on and the last node points to it. */
    method DeleteHead()
      requires Valid() && |nodes| >= 2
      modifies this, nodes
      ensures Valid()
      ensures nodes == old(nodes[1..]) && Contents == old(Contents[1..])
    {
      var last := Last();
      MoveHead(last);
    }

    /** `head` moves on to the second node and the last node points to it. */
    method MoveHead(last: Node)
      requires Valid() && |nodes| >= 2 && last == nodes[|nodes| - 1]
      modifies this, last`next
      ensures Valid()
      ensures nodes == old(nodes[1..]) && Contents == old(Contents[1..])
    {
      NextAt(0);
      ghost var ns := nodes;
      head := head.next;
      last.next := head;
      ChainRetarget(ns, ns[0], ns[1]);
      ChainTail(ns, ns[1]);
      nodes, Contents := ns[1..], Contents[1..];
    }

    /** Unlink the node after `cur`, the node at index `i`; the last node's successor is the head. */
    method UnlinkAfter(cur: Node, ghost i: nat)
      requires Valid() && i + 1 < |nodes| && cur == nodes[i]
      modifies this, cur
      ensures Valid()
      ensures nodes == RemoveAt(old(nodes), i + 1)
      ensures Contents == RemoveAt(old(Contents), i + 1)
    {
      NextAt(i + 1);
      ghost var ns := nodes;
      cur.next := cur.next.next;
      nodes := RemoveAt(ns, i + 1);
      Contents := RemoveAt(Contents, i + 1);
      ChainRemove(ns, head, i);
      DistinctRemove(ns, i + 1);
      HoldsRemove(ns, old(Contents), i + 1);
    }

    /** `get_nodes`: the values as strings for exactly one trip round the cycle; none when empty. */
    method GetNodes() returns (values: seq<string>)
      requires Valid()
      ensures values == Strs(Contents)
    {
      values := [];
      if head == null {
        return;
      }
      var cur := head;
      ghost var i := 0;
      while true
        invariant 0 <= i < |nodes| && cur == nodes[i]
        invariant values == Strs(Contents[..i])
        decreases |nodes| - i
      {
        NextAt(i);
        assert Contents[..i + 1] == Contents[..i] + [cur.data];
        StrsSnoc(Contents[..i], cur.data);
        values := values + [Text.IntToString(cur.data)];
        cur := cur.next;
        i := i + 1;
        assert cur == if i < |nodes| then nodes[i] else nodes[0];
        if cur == head {
          assert i == |nodes|;
          break;
        }
      }
      assert i == |nodes|;
      assert Contents[..i] == Contents;
    }

    /** `display`: the values joined by " -> " and followed by " -> (back to head)", or "List is empty.". */
    method Display() returns (text: string)
      requires Valid()
      ensures text == RenderCircular(Contents)
      ensures text == EmptyListMessage <==> Contents == []
    {
      RenderEmptyIff(Contents);
      if head == null {
        return EmptyListMessage;
      }
      var values := GetNodes();
      text := Text.Join(values, " -> ") + " -> (back to head)";
    }

    /** `clear`, inherited: drop every node. */
    method Clear()
      modifies this
      ensures Valid() && Contents == [] && head == null
    {
      head := null;
      nodes, Contents := [], [];
    }
  }

  /** The list [1, 2, 3] built by three appends. */
  method OneTwoThree() returns (list: CircularLinkedList)
    ensures fresh(list) && fresh(list.nodes) && list.Valid() && list.Contents == [1, 2, 3]
  {
    list := new CircularLinkedList();
    list.Append(1);
    list.Append(2);
    list.Append(3);
  }

  /** Deleting the head of [1, 2, 3] leaves [2, 3] with node 3 pointing at the new head. */
  method DeleteHeadOfThree() returns (values: seq<string>, closed: bool)
    ensures values == ["2", "3"] && closed
  {
    var list := OneTwoThree();
    var outcome := list.DeleteByValue(1);
    assert list.Contents == [2, 3];
    list.NextAt(0);
    list.NextAt(1);
    values := list.GetNodes();
    assert values[0] == Text.IntToString(2) && values[1] == Text.IntToString(3);
    closed := list.head != null && list.head.next != null && list.head.next.next == list.head;
  }

  /** Deleting the only node of [5] empties the list. */
  method DeleteOnlyNode() returns (values: seq<string>, empty: bool)
    ensures values == [] && empty
  {
    var list := new CircularLinkedList();
    list.Append(5);
    var outcome := list.DeleteByValue(5);
    values := list.GetNodes();
    empty := list.head == null;
  }
}
