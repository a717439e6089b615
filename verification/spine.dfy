/**
 * The shape facts the three list classes keep about their nodes, one
 * predicate per concern, each with the lemmas that carry it across a
 * splice, an unlink or a new head. A predicate reads only the one field it
 * is about, so a write to `next` leaves the facts about `data` and `prev`
 * untouched without any proof.
 */
module Spine {
  import opened Nodes
  import opened ListSpec

  /** No element occurs twice. */
  ghost predicate Distinct<T>(s: seq<T>) {
    forall i, j :: 0 <= i < j < |s| ==> s[i] != s[j]
  }

  lemma DistinctInsert<T>(s: seq<T>, k: nat, x: T)
    requires Distinct(s) && x !in s && k <= |s|
    ensures Distinct(s[..k] + [x] + s[k..])
  {
    var t := s[..k] + [x] + s[k..];
    forall i, j | 0 <= i < j < |t|
      ensures t[i] != t[j]
    {
      assert t[i] == if i < k then s[i] else if i == k then x else s[i - 1];
      assert t[j] == if j < k then s[j] else if j == k then x else s[j - 1];
    }
  }

  lemma DistinctCons<T>(x: T, s: seq<T>)
    requires Distinct(s) && x !in s
    ensures Distinct([x] + s)
  {
    var t := [x] + s;
    forall i, j | 0 <= i < j < |t|
      ensures t[i] != t[j]
    {
      assert t[j] == s[j - 1];
      if 0 < i {
        assert t[i] == s[i - 1];
      }
    }
  }

  lemma DistinctRemove<T>(s: seq<T>, k: nat)
    requires Distinct(s) && k < |s|
    ensures Distinct(RemoveAt(s, k))
  {
    var t := RemoveAt(s, k);
    forall i, j | 0 <= i < j < |t|
      ensures t[i] != t[j]
    {
      assert t[i] == if i < k then s[i] else s[i + 1];
      assert t[j] == if j < k then s[j] else s[j + 1];
    }
  }

  /** The `data` of the nodes are the values `cs`, position by position. */
  ghost predicate Holds(ns: seq<Node>, cs: seq<int>)
    reads ns`data
  {
    |ns| == |cs| && forall i :: 0 <= i < |ns| ==> ns[i].data == cs[i]
  }

  lemma HoldsInsert(ns: seq<Node>, cs: seq<int>, k: nat, x: Node)
    requires Holds(ns, cs) && k <= |ns|
    ensures Holds(ns[..k] + [x] + ns[k..], cs[..k] + [x.data] + cs[k..])
  {
    var ms, ds := ns[..k] + [x] + ns[k..], cs[..k] + [x.data] + cs[k..];
    forall i | 0 <= i < |ms|
      ensures ms[i].data == ds[i]
    {
      if i < k {
        assert ms[i] == ns[i] && ds[i] == cs[i];
      } else if k < i {
        assert ms[i] == ns[i - 1] && ds[i] == cs[i - 1];
      }
    }
  }

  lemma HoldsCons(x: Node, ns: seq<Node>, cs: seq<int>)
    requires Holds(ns, cs)
    ensures Holds([x] + ns, [x.data] + cs)
  {
    var ms, ds := [x] + ns, [x.data] + cs;
    forall i | 0 < i < |ms|
      ensures ms[i].data == ds[i]
    {
      assert ms[i] == ns[i - 1] && ds[i] == cs[i - 1];
    }
  }

  lemma HoldsRemove(ns: seq<Node>, cs: seq<int>, k: nat)
    requires Holds(ns, cs) && k < |ns|
    ensures Holds(RemoveAt(ns, k), RemoveAt(cs, k))
  {
    var ms, ds := RemoveAt(ns, k), RemoveAt(cs, k);
    forall i | 0 <= i < |ms|
      ensures ms[i].data == ds[i]
    {
      if i < k {
        assert ms[i] == ns[i] && ds[i] == cs[i];
      } else {
        assert ms[i] == ns[i + 1] && ds[i] == cs[i + 1];
      }
    }
  }

  /**
   * Each node's `next` is the node after it, and the last one's is `end`:
   * `null` for a singly list, the first node for a circular one.
   */
  ghost predicate Chain(ns: seq<Node>, end: Node?)
    reads ns`next
  {
    && (forall i :: 0 <= i < |ns| - 1 ==> ns[i].next == ns[i + 1])
    && (ns != [] ==> ns[|ns| - 1].next == end)
  }

  /** Where the `next` of the node at index `i` leads. */
  lemma ChainAt(ns: seq<Node>, end: Node?, i: nat)
    requires Chain(ns, end) && i < |ns|
    ensures ns[i].next == if i + 1 < |ns| then ns[i + 1] else end
  {
  }

  /** A new first node whose `next` is the old first node. */
  lemma ChainCons(x: Node, ns: seq<Node>, end: Node?)
    requires Chain(ns, end)
    requires x.next == if ns == [] then end else ns[0]
    ensures Chain([x] + ns, end)
  {
    var ms := [x] + ns;
    forall i | 0 <= i < |ms| - 1
      ensures ms[i].next == ms[i + 1]
    {
      if 0 < i {
        assert ms[i] == ns[i - 1] && ms[i + 1] == ns[i];
      }
    }
  }

  /** Dropping the first node keeps the rest of the chain. */
  lemma ChainTail(ns: seq<Node>, end: Node?)
    requires Chain(ns, end) && ns != []
    ensures Chain(ns[1..], end)
  {
  }

  /**
   * `x` spliced in after index `i`: `ns[i]` now leads to `x`, and `x` to where `ns[i]` led.
   * In this and the following two-state lemmas every parameter except `ns` is
   * declared `new`, so it is read in the current state; `old(allocated(end))`
   * lets `end` still be used inside `old(...)`.
   */
  twostate lemma ChainInsert(ns: seq<Node>, new end: Node?, new i: nat, new x: Node)
    requires old(allocated(end)) && old(Chain(ns, end)) && Distinct(ns) && i < |ns| && x !in ns
    requires ns[i].next == x && x.next == old(ns[i].next)
    requires forall n :: n in ns && n != ns[i] ==> n.next == old(n.next)
    ensures Chain(ns[..i + 1] + [x] + ns[i + 1..], end)
  {
    var ms := ns[..i + 1] + [x] + ns[i + 1..];
    forall j | 0 <= j < |ms| - 1
      ensures ms[j].next == ms[j + 1]
    {
      if j < i {
        assert ms[j] == ns[j] && ms[j + 1] == ns[j + 1] && ns[j] != ns[i];
      } else if j == i + 1 {
        assert ms[j + 1] == ns[i + 1];
      } else if j > i + 1 {
        assert ms[j] == ns[j - 1] && ms[j + 1] == ns[j] && ns[j - 1] != ns[i];
      }
    }
    if i + 1 < |ns| {
      assert ms[|ms| - 1] == ns[|ns| - 1] && ns[|ns| - 1] != ns[i];
    }
  }

  /** The node after index `i` unlinked: `ns[i]` now leads to where that node led. */
  twostate lemma ChainRemove(ns: seq<Node>, new end: Node?, new i: nat)
    requires old(allocated(end)) && old(Chain(ns, end)) && Distinct(ns) && i + 1 < |ns|
    requires ns[i].next == old(ns[i + 1].next)
    requires forall n :: n in ns && n != ns[i] ==> n.next == old(n.next)
    ensures Chain(RemoveAt(ns, i + 1), end)
  {
    var ms := RemoveAt(ns, i + 1);
    forall j | 0 <= j < |ms| - 1
      ensures ms[j].next == ms[j + 1]
    {
      if j < i {
        assert ms[j] == ns[j] && ms[j + 1] == ns[j + 1] && ns[j] != ns[i];
      } else if j == i {
        assert ms[j + 1] == ns[i + 2];
      } else {
        assert ms[j] == ns[j + 1] && ms[j + 1] == ns[j + 2] && ns[j + 1] != ns[i];
      }
    }
    if i + 2 < |ns| {
      assert ms[|ms| - 1] == ns[|ns| - 1] && ns[|ns| - 1] != ns[i];
    }
  }

  /** Only the last node's `next` changed: the chain now ends at `end'`. */
  twostate lemma ChainRetarget(ns: seq<Node>, new end: Node?, new end': Node?)
    requires old(allocated(end)) && old(Chain(ns, end)) && Distinct(ns) && ns != []
    requires ns[|ns| - 1].next == end'
    requires forall n :: n in ns && n != ns[|ns| - 1] ==> n.next == old(n.next)
    ensures Chain(ns, end')
  {
    forall j | 0 <= j < |ns| - 1
      ensures ns[j].next == ns[j + 1]
    {
      assert ns[j] != ns[|ns| - 1];
    }
  }

  /** The `data` of the doubly nodes are the values `cs`, position by position. */
  ghost predicate DoublyHolds(ns: seq<DoublyNode>, cs: seq<int>)
    reads ns`data
  {
    |ns| == |cs| && forall i :: 0 <= i < |ns| ==> ns[i].data == cs[i]
  }

  lemma DoublyHoldsInsert(ns: seq<DoublyNode>, cs: seq<int>, k: nat, x: DoublyNode)
    requires DoublyHolds(ns, cs) && k <= |ns|
    ensures DoublyHolds(ns[..k] + [x] + ns[k..], cs[..k] + [x.data] + cs[k..])
  {
    var ms, ds := ns[..k] + [x] + ns[k..], cs[..k] + [x.data] + cs[k..];
    forall i | 0 <= i < |ms|
      ensures ms[i].data == ds[i]
    {
      if i < k {
        assert ms[i] == ns[i] && ds[i] == cs[i];
      } else if k < i {
        assert ms[i] == ns[i - 1] && ds[i] == cs[i - 1];
      }
    }
  }

  lemma DoublyHoldsCons(x: DoublyNode, ns: seq<DoublyNode>, cs: seq<int>)
    requires DoublyHolds(ns, cs)
    ensures DoublyHolds([x] + ns, [x.data] + cs)
  {
    var ms, ds := [x] + ns, [x.data] + cs;
    forall i | 0 < i < |ms|
      ensures ms[i].data == ds[i]
    {
      assert ms[i] == ns[i - 1] && ds[i] == cs[i - 1];
    }
  }

  lemma DoublyHoldsRemove(ns: seq<DoublyNode>, cs: seq<int>, k: nat)
    requires DoublyHolds(ns, cs) && k < |ns|
    ensures DoublyHolds(RemoveAt(ns, k), RemoveAt(cs, k))
  {
    var ms, ds := RemoveAt(ns, k), RemoveAt(cs, k);
    forall i | 0 <= i < |ms|
      ensures ms[i].data == ds[i]
    {
      if i < k {
        assert ms[i] == ns[i] && ds[i] == cs[i];
      } else {
        assert ms[i] == ns[i + 1] && ds[i] == cs[i + 1];
      }
    }
  }

  /** Each doubly node's `next` is the node after it, and the last one's is missing. */
  ghost predicate DoublyChain(ns: seq<DoublyNode>)
    reads ns`next
  {
    && (forall i :: 0 <= i < |ns| - 1 ==> ns[i].next == ns[i + 1])
    && (ns != [] ==> ns[|ns| - 1].next == null)
  }

  lemma DoublyChainAt(ns: seq<DoublyNode>, i: nat)
    requires DoublyChain(ns) && i < |ns|
    ensures ns[i].next == if i + 1 < |ns| then ns[i + 1] else null
  {
  }

  lemma DoublyChainCons(x: DoublyNode, ns: seq<DoublyNode>)
    requires DoublyChain(ns)
    requires x.next == if ns == [] then null else ns[0]
    ensures DoublyChain([x] + ns)
  {
    var ms := [x] + ns;
    forall i | 0 <= i < |ms| - 1
      ensures ms[i].next == ms[i + 1]
    {
      if 0 < i {
        assert ms[i] == ns[i - 1] && ms[i + 1] == ns[i];
      }
    }
  }

  twostate lemma DoublyChainInsert(ns: seq<DoublyNode>, new i: nat, new x: DoublyNode)
    requires old(DoublyChain(ns)) && Distinct(ns) && i < |ns| && x !in ns
    requires ns[i].next == x && x.next == old(ns[i].next)
    requires forall n :: n in ns && n != ns[i] ==> n.next == old(n.next)
    ensures DoublyChain(ns[..i + 1] + [x] + ns[i + 1..])
  {
    var ms := ns[..i + 1] + [x] + ns[i + 1..];
    forall j | 0 <= j < |ms| - 1
      ensures ms[j].next == ms[j + 1]
    {
      if j < i {
        assert ms[j] == ns[j] && ms[j + 1] == ns[j + 1] && ns[j] != ns[i];
      } else if j == i + 1 {
        assert ms[j + 1] == ns[i + 1];
      } else if j > i + 1 {
        assert ms[j] == ns[j - 1] && ms[j + 1] == ns[j] && ns[j - 1] != ns[i];
      }
    }
    if i + 1 < |ns| {
      assert ms[|ms| - 1] == ns[|ns| - 1] && ns[|ns| - 1] != ns[i];
    }
  }

  twostate lemma DoublyChainRemove(ns: seq<DoublyNode>, new i: nat)
    requires old(DoublyChain(ns)) && Distinct(ns) && i + 1 < |ns|
    requires ns[i].next == old(ns[i + 1].next)
    requires forall n :: n in ns && n != ns[i] ==> n.next == old(n.next)
    ensures DoublyChain(RemoveAt(ns, i + 1))
  {
    var ms := RemoveAt(ns, i + 1);
    forall j | 0 <= j < |ms| - 1
      ensures ms[j].next == ms[j + 1]
    {
      if j < i {
        assert ms[j] == ns[j] && ms[j + 1] == ns[j + 1] && ns[j] != ns[i];
      } else if j == i {
        assert ms[j + 1] == ns[i + 2];
      } else {
        assert ms[j] == ns[j + 1] && ms[j + 1] == ns[j + 2] && ns[j + 1] != ns[i];
      }
    }
    if i + 2 < |ns| {
      assert ms[|ms| - 1] == ns[|ns| - 1] && ns[|ns| - 1] != ns[i];
    }
  }

  /** Each doubly node's `prev` is the node before it, and the first one's is missing. */
  ghost predicate BackChain(ns: seq<DoublyNode>)
    reads ns`prev
  {
    && (ns != [] ==> ns[0].prev == null)
    && (forall i :: 0 < i < |ns| ==> ns[i].prev == ns[i - 1])
  }

  /** A new first node: the old first node's `prev` now points at it. */
  twostate lemma BackCons(new x: DoublyNode, ns: seq<DoublyNode>)
    requires old(BackChain(ns)) && Distinct(ns) && x !in ns && x.prev == null
    requires ns != [] ==> ns[0].prev == x
    requires forall n :: n in ns && n != ns[0] ==> n.prev == old(n.prev)
    ensures BackChain([x] + ns)
  {
    var ms := [x] + ns;
    forall j | 1 < j < |ms|
      ensures ms[j].prev == ms[j - 1]
    {
      assert ms[j] == ns[j - 1] && ms[j - 1] == ns[j - 2] && ns[j - 1] != ns[0];
    }
  }

  /** `x` spliced in after index `i`: its `prev` is `ns[i]`, and the next node's `prev` is `x`. */
  twostate lemma BackInsert(ns: seq<DoublyNode>, new i: nat, new x: DoublyNode)
    requires old(BackChain(ns)) && Distinct(ns) && i < |ns| && x !in ns
    requires x.prev == ns[i]
    requires i + 1 < |ns| ==> ns[i + 1].prev == x
    requires forall n :: n in ns && (i + 1 == |ns| || n != ns[i + 1]) ==> n.prev == old(n.prev)
    ensures BackChain(ns[..i + 1] + [x] + ns[i + 1..])
  {
    var ms := ns[..i + 1] + [x] + ns[i + 1..];
    forall j | 0 < j < |ms|
      ensures ms[j].prev == ms[j - 1]
    {
      if j <= i {
        assert ms[j] == ns[j] && ms[j - 1] == ns[j - 1];
        if i + 1 < |ns| {
          assert ns[j] != ns[i + 1];
        }
      } else if j > i + 2 {
        assert ms[j] == ns[j - 1] && ms[j - 1] == ns[j - 2] && ns[j - 1] != ns[i + 1];
      }
    }
    assert ms[0] == ns[0];
    if 0 < i + 1 < |ns| {
      assert ns[0] != ns[i + 1];
    }
  }
}
