/**
 * The meaning of the linked-list operations on the abstract sequence of
 * stored values, independent of how the nodes are linked.
 */
module ListSpec {
  import Text

  /** What `delete_by_value` returns: `None` on success, otherwise a message for the user. */
  datatype Outcome = Done | Message(text: string)

  const EmptyListMessage: string := "List is empty."

  function NotFoundMessage(value: int): string {
    "Value '" + Text.IntToString(value) + "' not found."
  }

  // ---------------------------------------------------------------- insertion

  /**
   * Singly/doubly `insert_at_position(pos, v)`: a position of 1 or less, or an
   * empty list, puts `v` first; otherwise step past one element and insert at
   * `pos - 1` in the rest.
   */
  function InsertAt(s: seq<int>, pos: int, v: int): (r: seq<int>)
    ensures |r| == |s| + 1
  {
    if pos <= 1 || s == [] then [v] + s else [s[0]] + InsertAt(s[1..], pos - 1, v)
  }

  /** The 0-based index at which `InsertAt` places the new value in a list of length `n`. */
  function InsertIndex(n: nat, pos: int): (k: nat)
    ensures k <= n
    ensures pos <= 1 ==> k == 0
    ensures pos > n ==> k == n
  {
    if pos <= 1 then 0 else if pos - 1 < n then pos - 1 else n
  }

  /** The new value lands at index `min(pos - 1, |s|)` (0 when `pos <= 1`) and the rest keeps its order. */
  lemma {:induction false} InsertAtSplices(s: seq<int>, pos: int, v: int)
    ensures var k := InsertIndex(|s|, pos); InsertAt(s, pos, v) == s[..k] + [v] + s[k..]
  {
    if pos <= 1 || s == [] {
      assert s[..0] == [] && s[0..] == s;
    } else {
      var t := s[1..];
      InsertAtSplices(t, pos - 1, v);
      ConsSplice(s, InsertIndex(|t|, pos - 1), v);
    }
  }

  /** Putting `s[0]` in front of a splice of `s[1..]` is the splice one place further on in `s`. */
  lemma ConsSplice(s: seq<int>, k: nat, v: int)
    requires k < |s|
    ensures [s[0]] + (s[1..][..k] + [v] + s[1..][k..]) == s[..k + 1] + [v] + s[k + 1..]
  {
    assert s[..k + 1] == [s[0]] + s[1..][..k];
    assert s[k + 1..] == s[1..][k..];
  }

  /** A position past the end appends. */
  lemma InsertPastEndAppends(s: seq<int>, pos: int, v: int)
    requires pos > |s|
    ensures InsertAt(s, pos, v) == s + [v]
  {
    InsertAtSplices(s, pos, v);
    assert s[..|s|] == s;
  }

  /**
   * Circular `insert_at_position(pos, v)` (inherited from the singly list):
   * the walk never meets a missing `next`, so it wraps round the cycle and
   * inserts after the element at index `(pos - 2) mod n`.
   */
  function CircularInsertAt(s: seq<int>, pos: int, v: int): (r: seq<int>)
    ensures |r| == |s| + 1
  {
    if pos <= 1 || s == [] then [v] + s else InsertAt(s, (pos - 2) % |s| + 2, v)
  }

  /** In a non-empty circular list with `pos >= 2`, the new value follows the element at index `(pos - 2) mod n`. */
  lemma CircularInsertAfter(s: seq<int>, pos: int, v: int)
    requires s != [] && pos >= 2
    ensures var j := (pos - 2) % |s|;
      CircularInsertAt(s, pos, v) == s[..j + 1] + [v] + s[j + 1..]
  {
    InsertAtSplices(s, (pos - 2) % |s| + 2, v);
  }

  /** As long as the position does not pass the end, circular insertion agrees with singly insertion. */
  lemma CircularAgreesWithoutWrap(s: seq<int>, pos: int, v: int)
    requires pos <= |s| + 1
    ensures CircularInsertAt(s, pos, v) == InsertAt(s, pos, v)
  {
    if !(pos <= 1 || s == []) {
      ModUnique(pos - 2, |s|, 0, pos - 2);
      assert (pos - 2) % |s| + 2 == pos;
    }
  }

  /** Euclidean remainders are unique. */
  lemma ModUnique(x: int, n: int, q: int, r: int)
    requires n > 0 && 0 <= r < n && x == q * n + r
    ensures x % n == r
  {
    var d := x / n - q;
    assert n * d == r - x % n;
  }

  /** One step further round a cycle of length `n`. */
  lemma ModStep(a: nat, n: nat)
    requires n > 0
    ensures (a + 1) % n == if a % n + 1 < n then a % n + 1 else 0
  {
    var q, r := a / n, a % n;
    if r + 1 < n {
      ModUnique(a + 1, n, q, r + 1);
    } else {
      ModUnique(a + 1, n, q + 1, 0);
    }
  }

  lemma ModAddPeriod(a: nat, n: nat)
    requires n > 0
    ensures (a + n) % n == a % n
  {
    var q, r := a / n, a % n;
    assert a + n == (q + 1) * n + r;
    ModUnique(a + n, n, q + 1, r);
  }

  /** Circular insertion positions repeat with period n. */
  lemma CircularInsertPeriodic(s: seq<int>, pos: int, v: int)
    requires s != [] && pos >= 2
    ensures CircularInsertAt(s, pos + |s|, v) == CircularInsertAt(s, pos, v)
  {
    ModAddPeriod(pos - 2, |s|);
    assert (pos + |s| - 2) % |s| == (pos - 2) % |s|;
  }

  // ---------------------------------------------------------------- deletion

  /** The index of the first occurrence of `v`. */
  function IndexOf(s: seq<int>, v: int): (k: nat)
    requires v in s
    ensures k < |s| && s[k] == v && v !in s[..k]
  {
    if s[0] == v then 0
    else
      var k := IndexOf(s[1..], v);
      assert s[..k + 1] == [s[0]] + s[1..][..k];
      k + 1
  }

  /** A position holding `v` with no `v` before it is the first occurrence. */
  lemma FirstIndex(s: seq<int>, v: int, k: nat)
    requires k < |s| && s[k] == v && v !in s[..k]
    ensures v in s && IndexOf(s, v) == k
  {
  }

  /** The sequence without its element at index `k`. */
  function RemoveAt<T>(s: seq<T>, k: nat): (r: seq<T>)
    requires k < |s|
    ensures |r| == |s| - 1
  {
    s[..k] + s[k + 1..]
  }

  /** `delete_by_value(v)` on the values: the first `v` met from the head is dropped. */
  function DeleteFirst(s: seq<int>, v: int): (r: seq<int>)
    ensures v in s ==> |r| == |s| - 1
    ensures v !in s ==> r == s
  {
    if s == [] then []
    else if s[0] == v then s[1..]
    else [s[0]] + DeleteFirst(s[1..], v)
  }

  /** The message `delete_by_value(v)` returns on a list holding `s`. */
  function DeleteOutcome(s: seq<int>, v: int): (o: Outcome)
    ensures o == Done <==> v in s
    ensures s == [] ==> o == Message(EmptyListMessage)
    ensures s != [] && v !in s ==> o == Message(NotFoundMessage(v))
  {
    if s == [] then Message(EmptyListMessage)
    else if v in s then Done
    else Message(NotFoundMessage(v))
  }

  /** Exactly the first occurrence is removed. */
  lemma {:induction false} DeleteFirstRemovesFirst(s: seq<int>, v: int)
    requires v in s
    ensures DeleteFirst(s, v) == RemoveAt(s, IndexOf(s, v))
  {
    if s[0] != v {
      var t := s[1..];
      assert v in t;
      DeleteFirstRemovesFirst(t, v);
      var k := IndexOf(t, v);
      assert IndexOf(s, v) == k + 1;
      assert DeleteFirst(s, v) == [s[0]] + DeleteFirst(t, v);
      RemoveAtCons(s, k + 1);
    }
  }

  /** Removing a later element leaves the first in front. */
  lemma RemoveAtCons(s: seq<int>, k: nat)
    requires 0 < k < |s|
    ensures RemoveAt(s, k) == [s[0]] + RemoveAt(s[1..], k - 1)
  {
    assert s[..k] == [s[0]] + s[1..][..k - 1];
    assert s[k + 1..] == s[1..][k..];
  }

  /** Insertion adds exactly the new value to the multiset of values. */
  lemma {:induction false} InsertAtPermutes(s: seq<int>, pos: int, v: int)
    ensures multiset(InsertAt(s, pos, v)) == multiset(s) + multiset{v}
    ensures multiset(CircularInsertAt(s, pos, v)) == multiset(s) + multiset{v}
  {
    InsertAtSplices(s, pos, v);
    SplicePermutes(s, InsertIndex(|s|, pos), v);
    if s != [] && pos > 1 {
      var p := (pos - 2) % |s| + 2;
      InsertAtSplices(s, p, v);
      SplicePermutes(s, InsertIndex(|s|, p), v);
    }
  }

  lemma SplicePermutes(s: seq<int>, k: nat, v: int)
    requires k <= |s|
    ensures multiset(s[..k] + [v] + s[k..]) == multiset(s) + multiset{v}
  {
    assert s == s[..k] + s[k..];
  }

  /** Deletion removes exactly one copy of the value, when there is one. */
  lemma {:induction false} DeleteFirstMultiset(s: seq<int>, v: int)
    ensures multiset(DeleteFirst(s, v)) == multiset(s) - multiset{v}
  {
    if s != [] {
      assert s == [s[0]] + s[1..];
      if s[0] != v {
        DeleteFirstMultiset(s[1..], v);
      }
    }
  }

  /** Deleting a value that was absent before an insertion undoes the insertion. */
  lemma {:induction false} DeleteUndoesInsert(s: seq<int>, pos: int, v: int)
    requires v !in s
    ensures DeleteFirst(InsertAt(s, pos, v), v) == s
  {
    if !(pos <= 1 || s == []) {
      DeleteUndoesInsert(s[1..], pos - 1, v);
      assert s == [s[0]] + s[1..];
    }
  }

  // ---------------------------------------------------------------- rendering

  /** `str(x)` of each value, in order. */
  function Strs(s: seq<int>): (r: seq<string>)
    ensures |r| == |s|
    ensures forall i :: 0 <= i < |s| ==> r[i] == Text.IntToString(s[i])
  {
    if s == [] then [] else [Text.IntToString(s[0])] + Strs(s[1..])
  }

  /** One more value adds its string at the end. */
  lemma StrsSnoc(s: seq<int>, x: int)
    ensures Strs(s + [x]) == Strs(s) + [Text.IntToString(x)]
  {
    var l, r := Strs(s + [x]), Strs(s) + [Text.IntToString(x)];
    forall k | 0 <= k < |l|
      ensures l[k] == r[k]
    {
      if k < |s| {
        assert (s + [x])[k] == s[k];
      }
    }
  }

  /** `display()` of a singly or doubly list. */
  function Render(s: seq<int>): string {
    if s == [] then EmptyListMessage else Text.Join(Strs(s), " -> ")
  }

  /** `display()` of a circular list. */
  function RenderCircular(s: seq<int>): string {
    if s == [] then EmptyListMessage else Text.Join(Strs(s), " -> ") + " -> (back to head)"
  }

  /** The arrow-joined values never read as the empty-list message. */
  lemma JoinedValuesNotEmptyMessage(s: seq<int>)
    requires s != []
    ensures var j := Text.Join(Strs(s), " -> "); j != [] && j[0] != EmptyListMessage[0]
  {
    Text.JoinStartsWithFirst(Strs(s), " -> ");
  }

  /** `display()` shows "List is empty." exactly when the list is empty. */
  lemma RenderEmptyIff(s: seq<int>)
    ensures Render(s) == EmptyListMessage <==> s == []
    ensures RenderCircular(s) == EmptyListMessage <==> s == []
  {
    if s != [] {
      JoinedValuesNotEmptyMessage(s);
    }
  }

  /** Different value sequences display differently. */
  lemma {:induction false} StrsInjective(s: seq<int>, t: seq<int>)
    requires Strs(s) == Strs(t)
    ensures s == t
  {
    forall i | 0 <= i < |s|
      ensures s[i] == t[i]
    {
      Text.IntToStringInjective(s[i], t[i]);
    }
  }
}
