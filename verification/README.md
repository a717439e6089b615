# Linked lists, a bounded stack and recursion demos, verified in Dafny

This project models the sequential cores of three small teaching programs.
The Tkinter interfaces around those cores are not modelled.

- **The linked-list engine** (`gui_blkpnk.py`). There are three list classes:
  - `SinglyLinkedList`;
  - `DoublyLinkedList`, which adds `prev` links on append, prepend and insert;
  - `CircularLinkedList`, whose last node points back at `head`.

  They are modelled as Dafny classes over heap nodes (`Nodes.Node`, `Nodes.DoublyNode`).
  - Each list keeps a ghost sequence `nodes` of its nodes in `next` order and a ghost sequence `Contents` of their values.
  - `Valid()` ties `head` and every `next` and `data` field to those sequences.
  - Each method is proved against a function on `Contents` in module `ListSpec`. For example, `append(v)` turns `s` into `s + [v]`, and `delete_by_value(v)` is `DeleteFirst(s, v)` with the returned message given by `DeleteOutcome`.
  - Module `Spine` holds the shape facts: one predicate per field, each with the lemmas that carry it across a splice, an unlink or a new head.

  Two inherited behaviours are modelled as written:
  - The doubly list's `delete_by_value` is the singly one. It never updates `prev`, so the back-link invariant `BackLinked()` is only claimed after append, prepend and insert. `DoublyList.InheritedDeleteLeavesStaleBackLink` shows that it is lost after a delete.
  - The circular list's `insert_at_position` is the singly one. Its walk never meets a missing `next`, so it wraps round the cycle (`ListSpec.CircularInsertAt`).
- **The bounded stack of `AsciiStackApp`** (`tk_with_pics.py`). This is a class with the stack, the entry text, the status bar, the peek label and the info label as fields. It holds at most `MAX_STACK` = 10 entries. A value longer than `MAX_CHARS` = 36 is stored as its first 33 characters followed by "...". The popups are returned as `Alert` values.
- **The recursion demos** (`recursion1clone.py`):
  - head-recursive attendance, which reverses the normalized names and builds a trace;
  - the parsing of the student list and the flattening of trace lines;
  - the numbered report of `run_head_recursion`;
  - the debt game: a month-by-month countdown loop, its three-way verdict, and a characterisation of which games can be won.

Module `Text` models the Python string built-ins these cores use, restricted to ASCII. These are `strip`, `title`, `isdigit`, `split`, `join`, `str(int)` and `int(str)`. Module `Wrappers` holds `Option` and `Result`.

## Model

| member | source | states |
|---|---|---|
| Nodes.Node.constructor | gui_blkpnk.py:11-15 | a new node holds its value and links nowhere |
| Nodes.DoublyNode.constructor | gui_blkpnk.py:17-22 | a new doubly node holds its value, with no `prev` and no `next` |
| SinglyList.SinglyLinkedList.constructor | gui_blkpnk.py:29-31 | a new list is empty and valid |
| SinglyList.SinglyLinkedList.Append | gui_blkpnk.py:33-45 | values become `old + [data]`; the new node is last and fresh; the list stays valid |
| SinglyList.SinglyLinkedList.Prepend | gui_blkpnk.py:47-53 | values become `[data] + old`; the fresh node is the new head |
| SinglyList.SinglyLinkedList.InsertAtPosition | gui_blkpnk.py:55-71 | values become `InsertAt(old, pos, data)`; the fresh node sits at index `InsertIndex(n, pos)` and the other nodes keep their order |
| SinglyList.SinglyLinkedList.NodeBefore | gui_blkpnk.py:62-67 | the walk stops at index `min(pos - 1, n) - 1` |
| SinglyList.SinglyLinkedList.LinkAfter | gui_blkpnk.py:68-71 | splicing after node `i` inserts the node and its value at index `i + 1` and keeps the list valid |
| SinglyList.SinglyLinkedList.DeleteByValue | gui_blkpnk.py:73-92 | returns "List is empty." on an empty list and "Value 'v' not found." when `v` is absent, changing nothing in either case; otherwise removes exactly the first node holding `v` and returns `Done` |
| SinglyList.SinglyLinkedList.DeleteFirstNode | gui_blkpnk.py:78-81 | a head match drops the first node and value |
| SinglyList.SinglyLinkedList.SearchBefore | gui_blkpnk.py:83-86 | the search stops before the first node holding `v`, or at the last node exactly when `v` is absent |
| SinglyList.SinglyLinkedList.DeleteFound | gui_blkpnk.py:88-90 | skipping the found node removes the first occurrence of `v` |
| SinglyList.SinglyLinkedList.UnlinkAfter | gui_blkpnk.py:90 | `cur.next = cur.next.next` removes node and value at index `i + 1` |
| SinglyList.SinglyLinkedList.GetNodes | gui_blkpnk.py:103-110 | returns the values as decimal strings, in forward order |
| SinglyList.SinglyLinkedList.Display | gui_blkpnk.py:94-101 | returns the values joined by " -> "; returns "List is empty." exactly when the list is empty |
| SinglyList.SinglyLinkedList.Clear | gui_blkpnk.py:112-114 | the list becomes empty and valid |
| DoublyList.DoublyLinkedList.constructor | gui_blkpnk.py:29-31 | a new list is empty, valid and back-linked |
| DoublyList.DoublyLinkedList.Append | gui_blkpnk.py:122-134 | values become `old + [data]`; the new last node's `prev` is the old last node (null when the list was empty); back-links are preserved |
| DoublyList.DoublyLinkedList.Prepend | gui_blkpnk.py:136-144 | values become `[data] + old`; the new head's `prev` is null; the old head's `prev` is the new head; back-links are preserved |
| DoublyList.DoublyLinkedList.LinkFront | gui_blkpnk.py:139-144 | the new node leads the list; the old head points back at it |
| DoublyList.DoublyLinkedList.InsertAtPosition | gui_blkpnk.py:146-165 | values become `InsertAt(old, pos, data)`; the fresh node sits at `InsertIndex(n, pos)` with its `prev` on its predecessor (null at the front) and its successor's `prev` on it; no other `prev` field changes; back-links are preserved |
| DoublyList.DoublyLinkedList.NodeBefore | gui_blkpnk.py:152-156 | the override's walk, a copy of the singly one, stops at index `min(pos - 1, n) - 1` |
| DoublyList.DoublyLinkedList.LinkAfter | gui_blkpnk.py:158-165 | splices after node `i`; the new node's `prev` is `cur` and its successor's `prev` is the new node; back-links are preserved |
| DoublyList.DoublyLinkedList.LinkNext | gui_blkpnk.py:159-165 | the two `next` writes insert the node and its value at index `i + 1` |
| DoublyList.DoublyLinkedList.LinkBack | gui_blkpnk.py:161-164 | the two `prev` writes restore the back-links around the new node |
| DoublyList.DoublyLinkedList.DeleteByValue | gui_blkpnk.py:73-92 | the inherited delete: same outcome and values as the singly list, and it may write only `next` fields, never `prev` |
| DoublyList.DoublyLinkedList.DeleteFirstNode | gui_blkpnk.py:78-81 | a head match drops the first node and leaves every `prev` as it was |
| DoublyList.DoublyLinkedList.SearchBefore | gui_blkpnk.py:83-86 | the inherited search stops before the first `v`, or at the last node exactly when `v` is absent |
| DoublyList.DoublyLinkedList.DeleteFound | gui_blkpnk.py:88-90 | skipping the found node removes the first occurrence of `v` |
| DoublyList.DoublyLinkedList.UnlinkAfter | gui_blkpnk.py:90 | removes node and value at index `i + 1`, writing only `cur.next` |
| DoublyList.DoublyLinkedList.GetNodes | gui_blkpnk.py:103-110 | returns the values as strings, in forward order |
| DoublyList.DoublyLinkedList.Display | gui_blkpnk.py:94-101 | renders " -> "-joined values, or "List is empty." exactly when empty |
| DoublyList.DoublyLinkedList.Clear | gui_blkpnk.py:112-114 | the list becomes empty, valid and back-linked |
| DoublyList.InheritedDeleteLeavesStaleBackLink | gui_blkpnk.py:78-81 | after deleting 1 from [1, 2], the new head's `prev` is not null, so the back-link invariant no longer holds |
| DoublyList.PrependTwice | gui_blkpnk.py:136-144 | prepending 5 then 3 gives ["3", "5"] with node 5 pointing back at node 3 |
| CircularList.CircularLinkedList.constructor | gui_blkpnk.py:29-31 | a new list is empty and valid |
| CircularList.CircularLinkedList.NextAt | gui_blkpnk.py:183-188 | in a valid list, each node's `next` is its successor, and the last node's is `head` |
| CircularList.CircularLinkedList.WalkIndex | gui_blkpnk.py:216-222 | `k` steps along `next` from index `i` reach index `(i + k) mod n` |
| CircularList.CircularLinkedList.Closure | gui_blkpnk.py:216-222 | from any node, `next` returns to that node after exactly n steps and at no earlier step |
| CircularList.CircularLinkedList.Last | gui_blkpnk.py:199-202 | the walk until `next == head` finds the last node |
| CircularList.CircularLinkedList.Append | gui_blkpnk.py:173-188 | values become `old + [data]`; the new last node closes the cycle (a lone node points to itself) |
| CircularList.CircularLinkedList.Prepend | gui_blkpnk.py:190-209 | values become `[data] + old`; the fresh node is the head and the last node points to it |
| CircularList.CircularLinkedList.LinkFront | gui_blkpnk.py:204-209 | the new node leads to the old head, the last node leads to the new node, and the cycle stays closed |
| CircularList.CircularLinkedList.InsertAtPosition | gui_blkpnk.py:55-71 | the inherited insert: values become `CircularInsertAt(old, pos, data)`, i.e. after index `(pos - 2) mod n` when `pos >= 2` |
| CircularList.CircularLinkedList.NodeBefore | gui_blkpnk.py:62-67 | the inherited walk wraps round the cycle and stops at index `(pos - 2) mod n` |
| CircularList.CircularLinkedList.LinkAfter | gui_blkpnk.py:68-71 | splicing after node `i` keeps the cycle closed and inserts the value at `i + 1` |
| CircularList.CircularLinkedList.DeleteByValue | gui_blkpnk.py:238-273 | empty gives "List is empty."; absent `v` gives "Value 'v' not found." with nothing changed; otherwise the first `v` is removed, the cycle stays closed, and deleting a lone node empties the list |
| CircularList.CircularLinkedList.DeleteHead | gui_blkpnk.py:250-258 | in a list of two or more, the head moves to the second node and the last node points to it |
| CircularList.CircularLinkedList.MoveHead | gui_blkpnk.py:254-257 | the two writes drop the first node and re-close the cycle |
| CircularList.CircularLinkedList.UnlinkAfter | gui_blkpnk.py:273 | `prev.next = cur.next` removes node and value at `i + 1`, and the cycle stays closed |
| CircularList.CircularLinkedList.GetNodes | gui_blkpnk.py:211-223 | returns exactly one trip round the cycle as strings, or `[]` when empty |
| CircularList.CircularLinkedList.Display | gui_blkpnk.py:225-236 | renders " -> "-joined values plus " -> (back to head)", or "List is empty." exactly when empty |
| CircularList.CircularLinkedList.Clear | gui_blkpnk.py:112-114 | the list becomes empty and valid |
| CircularList.OneTwoThree | gui_blkpnk.py:173-188 | three appends build [1, 2, 3] |
| CircularList.DeleteHeadOfThree | gui_blkpnk.py:250-258 | deleting the head of [1, 2, 3] leaves ["2", "3"] with node 3 pointing at the new head |
| CircularList.DeleteOnlyNode | gui_blkpnk.py:244-248 | deleting the only node makes `head` null |
| ListSpec.InsertIndex | gui_blkpnk.py:62-67 | the landing index is at most n: 0 for `pos <= 1`, n past the end |
| ListSpec.InsertAtSplices | gui_blkpnk.py:55-71 | `InsertAt(s, pos, v)` places `v` at index `min(pos - 1, n)` (0 when `pos <= 1`) and keeps the rest in order |
| ListSpec.InsertPastEndAppends | gui_blkpnk.py:65-71 | a position past the end appends |
| ListSpec.CircularInsertAfter | gui_blkpnk.py:65-71 | circular insertion with `pos >= 2` on a non-empty list puts `v` right after index `(pos - 2) mod n` |
| ListSpec.CircularAgreesWithoutWrap | gui_blkpnk.py:65 | while `pos <= n + 1`, circular and singly insertion agree |
| ListSpec.CircularInsertPeriodic | gui_blkpnk.py:65 | circular insertion positions repeat with period n |
| ListSpec.InsertAtPermutes | gui_blkpnk.py:55-71 | both insertions add exactly one `v` to the multiset of values |
| ListSpec.IndexOf | gui_blkpnk.py:84-86 | the first index holding `v`, with no earlier `v` |
| ListSpec.DeleteFirst | gui_blkpnk.py:73-92 | an absent value leaves the values unchanged; a present one shortens them by one |
| ListSpec.DeleteOutcome | gui_blkpnk.py:73-92 | `Done` exactly when `v` is present; the empty-list message on `[]`; the not-found message otherwise |
| ListSpec.DeleteFirstRemovesFirst | gui_blkpnk.py:78-90 | deletion removes exactly the element at the first index holding `v` |
| ListSpec.DeleteFirstMultiset | gui_blkpnk.py:73-92 | deletion removes one copy of `v` from the multiset, when there is one |
| ListSpec.DeleteUndoesInsert | gui_blkpnk.py:55-92 | deleting a value that was absent before an insertion undoes the insertion |
| ListSpec.Strs | gui_blkpnk.py:103-110 | one decimal string per value, in order |
| ListSpec.StrsSnoc | gui_blkpnk.py:107-109 | one more node adds its string at the end |
| ListSpec.RenderEmptyIff | gui_blkpnk.py:94-101 | both displays show "List is empty." exactly when there are no values |
| ListSpec.StrsInjective | gui_blkpnk.py:103-110 | different value sequences give different `get_nodes` results |
| StackApp.InfoText | tk_with_pics.py:357-370 | "Overflow! Stack > 10" at 10 or more entries, otherwise "Stacks: count / 10" |
| StackApp.ValidateDigits | tk_with_pics.py:351-355 | accepts exactly the strings made only of digits, including "" |
| StackApp.ValidatedIsAccepted | tk_with_pics.py:351-355 | every non-empty string the validator admits is one `push` accepts, unchanged by `strip` |
| StackApp.Shorten | tk_with_pics.py:425-426 | at most 36 characters; a value of at most 36 is unchanged; a longer one keeps its first 33 characters and ends in "..." |
| StackApp.ShortenStorable | tk_with_pics.py:425-428 | every accepted entry, once shortened, is a storable stack entry |
| StackApp.AsciiStackApp.UpdateInfo | tk_with_pics.py:357-370 | sets the info label for the stack size and raises the overflow alert exactly when the size is 10 or more |
| StackApp.AsciiStackApp.Push | tk_with_pics.py:403-445 | an empty stripped entry or a non-digit entry raises its alert and changes nothing; a full stack changes only the status and info label; otherwise the shortened value goes on top and the entry is cleared, with the overflow alert when the stack has just reached 10 entries and no alert otherwise; the stack never exceeds 10 entries |
| StackApp.AsciiStackApp.RefuseFull | tk_with_pics.py:420-423 | on a full stack only the status and the info label change |
| StackApp.AsciiStackApp.Store | tk_with_pics.py:428-440 | the value goes on top, the entry empties, and the status reads "Pushed: v"; the alert is the overflow alert exactly when the stack now holds 10 entries, and none otherwise |
| StackApp.AsciiStackApp.Pop | tk_with_pics.py:447-455 | an empty stack raises underflow and changes nothing; otherwise the top entry is removed and reported |
| StackApp.AsciiStackApp.Peek | tk_with_pics.py:457-465 | shows the top entry without changing the stack, or "(empty)" with an alert |
| StackApp.AsciiStackApp.Clear | tk_with_pics.py:468-499 | an empty stack only sets "Stack already empty."; a confirmed clear empties the stack and resets the labels; a cancel leaves the stack as it was |
| StackApp.PushThenPop | tk_with_pics.py:428-452 | a push followed by a pop restores the stack and reports the pushed value (LIFO) |
| StackApp.TypeAndPush | tk_with_pics.py:403-428 | typing an entry and pressing push adds one entry exactly when the entry is accepted and the stack holds fewer than 10 |
| StackApp.PushNext | tk_with_pics.py:403-428 | after one more entry of a session the stack holds `min(accepted so far, 10)` entries |
| StackApp.PushMany | tk_with_pics.py:420-428 | pushing a sequence of entries stores `min(accepted, 10)` of them |
| Recursion.NormalizeIdempotent | recursion1clone.py:26-27 | normalizing names a second time changes nothing |
| Recursion.HeadRecursionAttendance | recursion1clone.py:15-38 | a call at `idx` appends the names from `idx` on in reverse order, and the trace gains the turning point and then one "says: Present!" line per name in that order; names are normalized only at `idx == 0` |
| Recursion.AnswerAfterAsking | recursion1clone.py:34-37 | a student answering after the later ones completes the reversed answers from that student on |
| Recursion.CallAttendance | recursion1clone.py:15-38 | `present` is the reverse of the normalized names and has the same length; the trace is the turning point plus one answer per student |
| Recursion.CleanItem | recursion1clone.py:172 | a kept item is stripped: non-empty, with no space at either end |
| Recursion.ParsePartsTrimmed | recursion1clone.py:172 | every kept item is non-empty and trimmed |
| Recursion.ParseList | recursion1clone.py:170-173 | at most one item per comma plus one; every item is trimmed |
| Recursion.NonBlankCount | recursion1clone.py:172 | counts the parts that the `if s.strip()` filter keeps; never more than the parts |
| Recursion.Kept | recursion1clone.py:172 | the filter-and-map shape of the comprehension: never more images than elements |
| Recursion.KeptCount | recursion1clone.py:172 | one image per element the filter keeps |
| Recursion.KeptAt | recursion1clone.py:172 | a kept element's image sits at the index that counts the kept elements before it |
| Recursion.KeptFrom | recursion1clone.py:172 | every image is the image of a kept element |
| Recursion.KeptBeforePrefix | recursion1clone.py:172 | counting the kept elements before index `i` looks only at the first `i` elements |
| Recursion.ParsePartsKept | recursion1clone.py:172 | the cleaned non-blank parts are exactly the filter-and-map of the parts by "not blank once stripped" and the cleaning |
| Recursion.ParsePartsCount | recursion1clone.py:172 | exactly one item per part that is not blank |
| Recursion.ParsePartsAt | recursion1clone.py:172 | a part that is not blank gives, as its cleaned form, the item whose index counts the non-blank parts before it |
| Recursion.ParseListCount | recursion1clone.py:170-173 | for every input, including one whose parts are all blank, the number of items equals the number of comma-separated parts that are not blank |
| Recursion.ParseListItems | recursion1clone.py:170-173 | the items are exactly the stripped parts between commas that are not blank, title-cased when the input holds a comma, in order: one item per such part, each at the index that counts the non-blank parts before it |
| Recursion.CleanItemAvoids | recursion1clone.py:172 | cleaning adds no uncased character the part lacked |
| Recursion.ParsePartsAvoid | recursion1clone.py:172 | no kept item holds an uncased character that no part held |
| Recursion.ParseListNoComma | recursion1clone.py:170-173 | no parsed item holds a comma |
| Recursion.ParseListSingle | recursion1clone.py:170-173 | without a comma the result is the stripped input, not title-cased, or nothing when it is blank |
| Recursion.ParsePartsTitled | recursion1clone.py:172 | title-cased items are fixed points of `title` |
| Recursion.ParseListTitled | recursion1clone.py:170-173 | with a comma every item is in title case |
| Recursion.PrepareLines | recursion1clone.py:175-182 | the lines are every item split at its newlines, in order |
| Recursion.SplitLinesCount | recursion1clone.py:175-182 | an item with k newlines contributes k + 1 lines |
| Recursion.SplitLinesSingle | recursion1clone.py:175-182 | no prepared line contains a newline |
| Recursion.SplitLinesPlain | recursion1clone.py:175-182 | items without newlines pass through unchanged |
| Recursion.RunHeadRecursion | recursion1clone.py:360-369 | fails with the error exactly when no student is parsed; otherwise the trace, a blank line, the header and the reporting order numbered from 1, `2n + 3` lines in all |
| Recursion.Classify | recursion1clone.py:304-317 | Win exactly when the remaining debt is within 5 of zero; Overpaid below -5; StillOwes above 5; the fail sound plays exactly when the game is not won |
| Recursion.WinnableIff | recursion1clone.py:293-306 | some payment wins exactly when `debt mod months` is at most 5 or at least `months - 5` |
| Recursion.WinnableUpToElevenMonths | recursion1clone.py:293-306 | with at most 11 months some payment always wins |
| Recursion.UnwinnableGame | recursion1clone.py:343-346 | the reset can deal a game no payment wins: 1002 over 12 months |
| Recursion.DebtGame.constructor | recursion1clone.py:328-346 | the first reset stores the drawn debt and months, and no countdown is started |
| Recursion.DebtGame.Reset | recursion1clone.py:328-346 | a reset stores the new draw and forgets the countdown |
| Recursion.DebtGame.Play | recursion1clone.py:249-277 | a payment that is not an integer is refused with the warning and nothing changes; otherwise the countdown runs from month 1 to `months + 1`, the remaining debt is `debt - months * payment`, and the verdict classifies it |
| Recursion.DebtGame.UpdateDebtProgress | recursion1clone.py:279-297 | the loop subtracts the payment once per month until `current_month > months`, and shows `max(remaining, 0)` for each month |
| Recursion.DebtGame.ShowDebtResult | recursion1clone.py:299-326 | the verdict is the classification of the remaining debt; the fail sound plays exactly when it is not a win |
| Recursion.PlayExactPayment | recursion1clone.py:263-317 | paying exactly `debt / months`, when that divides evenly, always wins |
| Text.Strip | tk_with_pics.py:404 | the result has no space at either end, and is empty exactly when the input is all spaces |
| Text.StripIdempotent | recursion1clone.py:27 | stripping twice is stripping once |
| Text.StripAvoids | recursion1clone.py:172 | stripping adds no character |
| Text.Title | recursion1clone.py:27 | keeps the length, keeps uncased characters in place, and keeps cased positions cased |
| Text.TitleCase | recursion1clone.py:27 | a cased character of the result is upper case exactly when it is first or follows an uncased character, and lower case otherwise |
| Text.TitleFromAt | recursion1clone.py:27 | the same rule from any starting state of the scan |
| Text.TitleIdempotent | recursion1clone.py:27 | title-casing twice is title-casing once |
| Text.TitleAvoids | recursion1clone.py:172 | title-casing adds no uncased character |
| Text.Split | recursion1clone.py:172-179 | at least one part, and no part contains the separator |
| Text.SplitJoin | recursion1clone.py:179-181 | joining the parts with the separator gives back the string |
| Text.SplitCount | recursion1clone.py:179 | k separators give k + 1 parts |
| Text.SplitWithoutSep | recursion1clone.py:172 | a string without the separator splits into itself |
| Text.IntToString | gui_blkpnk.py:99 | non-empty; starts with "-" exactly for negative numbers, otherwise with a digit |
| Text.NatToStringValue | gui_blkpnk.py:99 | the digits `str` writes denote the number |
| Text.ParseIntRoundTrip | recursion1clone.py:264 | `int(str(x)) == x` |
| Text.IntToStringInjective | gui_blkpnk.py:99 | different integers have different decimal strings |

## Left out

- Widgets, drawing, colours and layout are not modelled, nor the image popups, sounds and the keyword easter eggs of `_handle_keyword` (the "67" image in `play_debt_game` among them). These are I/O. The popups the stack app raises are returned as `Alert` values with their titles and messages.
- The fallback of `_show_alert` that writes the alert's message to the status line when the dialog cannot be shown is not modelled, for every alert: those of `push`, `pop`, `peek`, `clear` and `update_info`. It only matters when a widget call fails, and the model returns every alert as an `Alert` value without touching `status`.
- The random draws of `reset_debt_game` and the user's answer to the clear confirmation are parameters. Whether that answer came from the image popup is a parameter too.
- The `root.after` timer that drives `update_debt_progress` is not modelled. The countdown is a plain loop that runs to its end, and the per-month progress label is returned as the sequence of amounts shown.
- Formatting with thousands separators and the ₱ sign, the popup texts of `show_debt_result`, and the play button's enabled state are not modelled.
- The word-by-word display animation that receives the prepared lines is not modelled.
- The string built-ins are modelled on ASCII only: `isspace`, `isdigit`, `title`, `strip`, `split` on one character, and `int()` with an optional sign.
  - Python's Unicode case and digit tables are left out.
  - So are `int()`'s acceptance of underscores between digits and of non-ASCII digits.
- StackApp.ValidateDigits is modelled as a predicate. Nothing registers it as the entry's validation command, so `push` does not assume the entry holds only digits.
- DoublyList.DoublyLinkedList.DeleteByValue states that no `prev` field changes through its `modifies` clause, which names only the nodes' `next` fields, and not through an `ensures`.
- The singly and doubly `insert_at_position` build one node that is thrown away before calling `prepend`. That unused allocation is not modelled.
