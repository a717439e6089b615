/**
 * The recursion demos: calling attendance by head recursion, the parsing of
 * the student list, the flattening of a trace into display lines, and the
 * debt game's month-by-month countdown and its verdict.
 */
module Recursion {
  import opened Wrappers
  import Text
  import ListSpec

  // ---------------------------------------------------------------- attendance

  const LastReached := "Last student reached. Now reporting back."

  /** `[name.strip().title() for name in students]`. */
  function Normalize(students: seq<string>): seq<string> {
    seq(|students|, i requires 0 <= i < |students| => Text.Title(Text.Strip(students[i])))
  }

  function Reverse<T>(s: seq<T>): (r: seq<T>)
    ensures |r| == |s|
    ensures forall i :: 0 <= i < |s| ==> r[i] == s[|s| - 1 - i]
  {
    if s == [] then [] else Reverse(s[1..]) + [s[0]]
  }

  /** The trace line of each student, in the order given. */
  function SaysPresent(names: seq<string>): seq<string> {
    seq(|names|, i requires 0 <= i < |names| => names[i] + " says: Present!")
  }

  /** A name that is already stripped and title-cased is left as it is by `strip().title()`. */
  lemma NormalizeName(name: string)
    ensures Text.Title(Text.Strip(Text.Title(Text.Strip(name)))) == Text.Title(Text.Strip(name))
  {
    var t := Text.Strip(name);
    var u := Text.Title(t);
    if u != [] {
      assert !Text.IsSpace(u[0]) && !Text.IsSpace(u[|u| - 1]);
    }
    Text.StripUnchanged(u);
    Text.TitleIdempotent(t);
  }

  /** Normalizing once is enough: a second pass would change nothing. */
  lemma NormalizeIdempotent(students: seq<string>)
    ensures Normalize(Normalize(students)) == Normalize(students)
  {
    forall i | 0 <= i < |students|
      ensures Normalize(Normalize(students))[i] == Normalize(students)[i]
    {
      NormalizeName(students[i]);
    }
  }

  /**
   * `head_recursion_attendance`: student `idx` first asks the students after
   * it, then answers; names are normalized only on the outermost call. The
   * students from `idx` on are appended to `present` last one first, and the
   * trace gains the turning point followed by their answers in that order.
   */
  method HeadRecursionAttendance(students: seq<string>, idx: nat, present: seq<string>, trace: seq<string>)
    returns (present': seq<string>, trace': seq<string>)
    ensures var asked := Asked(if idx == 0 then Normalize(students) else students, idx);
      && present' == present + Reverse(asked)
      && trace' == trace + [LastReached] + SaysPresent(Reverse(asked))
    decreases if idx <= |students| then |students| - idx else 0
  {
    var names := students;
    if idx == 0 {
      names := Normalize(students);
    }
    if idx >= |names| {
      trace' := trace + [LastReached];
      present' := present;
      assert Asked(names, idx) == [] && SaysPresent([]) == [];
      return;
    }
    present', trace' := HeadRecursionAttendance(names, idx + 1, present, trace);
    var name := names[idx];
    AnswerAfterAsking(names, idx, present, trace, present', trace');
    trace' := trace' + [name + " says: Present!"];
    present' := present' + [name];
  }

  /** Student `idx` answering after the students behind it completes the answers from `idx` on. */
  lemma AnswerAfterAsking(names: seq<string>, idx: nat, present: seq<string>, trace: seq<string>,
                          present': seq<string>, trace': seq<string>)
    requires idx < |names|
    requires present' == present + Reverse(Asked(names, idx + 1))
    requires trace' == trace + [LastReached] + SaysPresent(Reverse(Asked(names, idx + 1)))
    ensures present' + [names[idx]] == present + Reverse(Asked(names, idx))
    ensures trace' + [names[idx] + " says: Present!"] == trace + [LastReached] + SaysPresent(Reverse(Asked(names, idx)))
  {
    var rest := Asked(names, idx + 1);
    AskedStep(names, idx);
    ReverseCons(names[idx], rest);
    SaysPresentAppend(Reverse(rest), names[idx]);
  }

  /** The students from index `idx` on, the ones a call at `idx` asks. */
  function Asked(names: seq<string>, idx: nat): seq<string> {
    if idx < |names| then names[idx..] else []
  }

  lemma AskedStep(names: seq<string>, idx: nat)
    requires idx < |names|
    ensures Asked(names, idx) == [names[idx]] + Asked(names, idx + 1)
  {
  }

  lemma ReverseCons<T>(x: T, s: seq<T>)
    ensures Reverse([x] + s) == Reverse(s) + [x]
  {
    assert ([x] + s)[1..] == s;
  }

  lemma SaysPresentAppend(names: seq<string>, name: string)
    ensures SaysPresent(names + [name]) == SaysPresent(names) + [name + " says: Present!"]
  {
  }

  /**
   * The call the GUI makes, with the default arguments: the students answer
   * in reverse order, and the trace is the turning point followed by one
   * answer per student.
   */
  method CallAttendance(students: seq<string>) returns (present: seq<string>, trace: seq<string>)
    ensures present == Reverse(Normalize(students))
    ensures |present| == |students| && |trace| == |students| + 1
    ensures trace == [LastReached] + SaysPresent(present)
  {
    present, trace := HeadRecursionAttendance(students, 0, [], []);
    assert Normalize(students)[0..] == Normalize(students);
  }

  // ---------------------------------------------------------------- parse_list


  /** A non-empty string that neither starts nor ends with a space. */
  predicate Trimmed(s: string) {
    s != [] && !Text.IsSpace(s[0]) && !Text.IsSpace(s[|s| - 1])
  }

  /** Title-casing leaves spaces where they are, so a trimmed string stays trimmed. */
  lemma TitleTrimmed(t: string)
    requires Trimmed(t)
    ensures Trimmed(Text.Title(t))
  {
    var u := Text.Title(t);
    assert Text.IsCased(u[0]) <==> Text.IsCased(t[0]);
    assert Text.IsCased(u[|u| - 1]) <==> Text.IsCased(t[|t| - 1]);
  }

  /** One comma-separated item as `parse_list` keeps it; a part that is not blank gives a trimmed item. */
  function CleanItem(part: string, title: bool): (item: string)
    requires Text.Strip(part) != []
    ensures Trimmed(item)
  {
    var t := Text.Strip(part);
    TitleTrimmed(t);
    if title then Text.Title(t) else t
  }

  /** The cleaned forms of the parts that are not blank, in order. */
  function ParseParts(parts: seq<string>, title: bool): (items: seq<string>)
    ensures |items| <= |parts|
  {
    if parts == [] then []
    else
      var rest := ParseParts(parts[1..], title);
      if Text.Strip(parts[0]) == [] then rest
      else [CleanItem(parts[0], title)] + rest
  }

  /** Every kept item is trimmed and non-empty. */
  lemma {:induction false} ParsePartsTrimmed(parts: seq<string>, title: bool)
    ensures forall i :: 0 <= i < |ParseParts(parts, title)| ==> Trimmed(ParseParts(parts, title)[i])
  {
    if parts != [] {
      ParsePartsTrimmed(parts[1..], title);
      var rest := ParseParts(parts[1..], title);
      if Text.Strip(parts[0]) != [] {
        var items := [CleanItem(parts[0], title)] + rest;
        assert ParseParts(parts, title) == items;
        forall i | 0 <= i < |items|
          ensures Trimmed(items[i])
        {
          if i > 0 { assert items[i] == rest[i - 1]; }
        }
      }
    }
  }

  /**
   * `parse_list`: split on ",", drop the blank items, strip the others and
   * title-case them only when the input held a comma.
   */
  function ParseList(raw: string): (items: seq<string>)
    ensures |items| <= Text.CountChar(raw, ',') + 1
    ensures forall i :: 0 <= i < |items| ==> Trimmed(items[i])
  {
    Text.SplitCount(raw, ',');
    ParsePartsTrimmed(Text.Split(raw, ','), ',' in raw);
    ParseParts(Text.Split(raw, ','), ',' in raw)
  }

  // The items as a filter and a map: the facts about positions are proved once,
  // for any element type, and carried over to the parts and items.

  /** The images under `f` of the elements of `xs` that satisfy `keep`, in order. */
  function Kept<T, U>(xs: seq<T>, keep: T -> bool, f: T -> U): (ys: seq<U>)
    ensures |ys| <= |xs|
  {
    if xs == [] then []
    else (if keep(xs[0]) then [f(xs[0])] else []) + Kept(xs[1..], keep, f)
  }

  /** How many of the first `i` elements of `xs` satisfy `keep`. */
  function KeptBefore<T>(xs: seq<T>, keep: T -> bool, i: nat): (n: nat)
    requires i <= |xs|
    ensures n <= i
  {
    if i == 0 then 0
    else (if keep(xs[0]) then 1 else 0) + KeptBefore(xs[1..], keep, i - 1)
  }

  /** One image per kept element. */
  lemma {:induction false} KeptCount<T, U>(xs: seq<T>, keep: T -> bool, f: T -> U)
    ensures |Kept(xs, keep, f)| == KeptBefore(xs, keep, |xs|)
  {
    if xs != [] {
      KeptCount(xs[1..], keep, f);
    }
  }

  /** A kept element's image sits at the index that counts the kept elements before it. */
  lemma {:induction false} KeptAt<T, U>(xs: seq<T>, keep: T -> bool, f: T -> U, i: nat)
    requires i < |xs| && keep(xs[i])
    ensures KeptBefore(xs, keep, i) < |Kept(xs, keep, f)|
    ensures Kept(xs, keep, f)[KeptBefore(xs, keep, i)] == f(xs[i])
  {
    if i > 0 {
      KeptAt(xs[1..], keep, f, i - 1);
      var head := if keep(xs[0]) then [f(xs[0])] else [];
      var rest := Kept(xs[1..], keep, f);
      assert Kept(xs, keep, f) == head + rest;
      assert (head + rest)[|head| + KeptBefore(xs[1..], keep, i - 1)] == rest[KeptBefore(xs[1..], keep, i - 1)];
    }
  }

  /** Every image comes from a kept element; `i` is its index. */
  lemma {:induction false} KeptFrom<T, U>(xs: seq<T>, keep: T -> bool, f: T -> U, k: nat) returns (i: nat)
    requires k < |Kept(xs, keep, f)|
    ensures i < |xs| && keep(xs[i]) && Kept(xs, keep, f)[k] == f(xs[i])
  {
    var head := if keep(xs[0]) then [f(xs[0])] else [];
    var rest := Kept(xs[1..], keep, f);
    assert Kept(xs, keep, f) == head + rest;
    if k < |head| {
      i := 0;
    } else {
      var i' := KeptFrom(xs[1..], keep, f, k - |head|);
      assert (head + rest)[k] == rest[k - |head|];
      i := i' + 1;
    }
  }

  /** Counting before index `i` only looks at the first `i` elements. */
  lemma {:induction false} KeptBeforePrefix<T>(xs: seq<T>, keep: T -> bool, i: nat)
    requires i <= |xs|
    ensures KeptBefore(xs[..i], keep, i) == KeptBefore(xs, keep, i)
  {
    if i > 0 {
      KeptBeforePrefix(xs[1..], keep, i - 1);
      assert xs[..i][1..] == xs[1..][..i - 1];
    }
  }

  /** A part that `parse_list` keeps: not blank once stripped. */
  predicate NonBlank(part: string) {
    Text.Strip(part) != []
  }

  /** The item a kept part becomes (a blank part, never kept, maps to itself). */
  function Cleaner(title: bool): string -> string {
    part => if Text.Strip(part) == [] then part else CleanItem(part, title)
  }

  /** How many of `parts` are not blank once stripped. */
  function NonBlankCount(parts: seq<string>): (n: nat)
    ensures n <= |parts|
  {
    KeptBefore(parts, NonBlank, |parts|)
  }

  /** One step of `ParseParts`, written with the keep test and the cleaner. */
  lemma ParsePartsStep(parts: seq<string>, title: bool)
    requires parts != []
    ensures ParseParts(parts, title)
      == (if NonBlank(parts[0]) then [Cleaner(title)(parts[0])] else []) + ParseParts(parts[1..], title)
  {
    if NonBlank(parts[0]) {
      assert Cleaner(title)(parts[0]) == CleanItem(parts[0], title);
    }
  }

  /** `ParseParts` is the filter-and-map of the parts. */
  lemma {:induction false} ParsePartsKept(parts: seq<string>, title: bool)
    ensures ParseParts(parts, title) == Kept(parts, NonBlank, Cleaner(title))
  {
    if parts != [] {
      ParsePartsKept(parts[1..], title);
      ParsePartsStep(parts, title);
    }
  }

  /** One item per part that is not blank. */
  lemma ParsePartsCount(parts: seq<string>, title: bool)
    ensures |ParseParts(parts, title)| == NonBlankCount(parts)
  {
    ParsePartsKept(parts, title);
    KeptCount(parts, NonBlank, Cleaner(title));
  }

  /** `parse_list` keeps one item per non-blank comma-separated part, whatever the input. */
  lemma ParseListCount(raw: string)
    ensures |ParseList(raw)| == NonBlankCount(Text.Split(raw, ','))
  {
    ParsePartsCount(Text.Split(raw, ','), ',' in raw);
  }

  /**
   * The part at index `i`, when not blank, gives the item at the index that
   * counts the non-blank parts before it: the items are the cleaned parts in order.
   */
  lemma ParsePartsAt(parts: seq<string>, title: bool, i: nat)
    requires i < |parts| && Text.Strip(parts[i]) != []
    ensures NonBlankCount(parts[..i]) < |ParseParts(parts, title)|
    ensures ParseParts(parts, title)[NonBlankCount(parts[..i])] == CleanItem(parts[i], title)
  {
    ParsePartsKept(parts, title);
    assert NonBlank(parts[i]);
    KeptAt(parts, NonBlank, Cleaner(title), i);
    KeptBeforePrefix(parts, NonBlank, i);
    assert |parts[..i]| == i;
  }

  /**
   * `parse_list` keeps exactly the parts between commas that are not blank:
   * one item per such part, each stripped (and title-cased when the input
   * held a comma), in the order of the parts.
   */
  lemma ParseListItems(raw: string, i: nat)
    requires var parts := Text.Split(raw, ','); i < |parts| && Text.Strip(parts[i]) != []
    ensures var parts := Text.Split(raw, ',');
      && |ParseList(raw)| == NonBlankCount(parts)
      && NonBlankCount(parts[..i]) < |ParseList(raw)|
      && ParseList(raw)[NonBlankCount(parts[..i])] == CleanItem(parts[i], ',' in raw)
  {
    ParsePartsCount(Text.Split(raw, ','), ',' in raw);
    ParsePartsAt(Text.Split(raw, ','), ',' in raw, i);
  }

  /** Cleaning keeps out any uncased character the part does not contain. */
  lemma CleanItemAvoids(part: string, title: bool, c: char)
    requires Text.Strip(part) != [] && c !in part && !Text.IsCased(c)
    ensures c !in CleanItem(part, title)
  {
    Text.StripAvoids(part, c);
    if title {
      Text.TitleAvoids(Text.Strip(part), c);
    }
  }

  lemma ParsePartsAvoid(parts: seq<string>, title: bool, c: char)
    requires !Text.IsCased(c) && forall j :: 0 <= j < |parts| ==> c !in parts[j]
    ensures forall k :: 0 <= k < |ParseParts(parts, title)| ==> c !in ParseParts(parts, title)[k]
  {
    ParsePartsKept(parts, title);
    var items := ParseParts(parts, title);
    forall k | 0 <= k < |items|
      ensures c !in items[k]
    {
      var i := KeptFrom(parts, NonBlank, Cleaner(title), k);
      CleanItemAvoids(parts[i], title, c);
    }
  }

  /** No item holds a comma: the commas only separate. */
  lemma ParseListNoComma(raw: string)
    ensures forall i :: 0 <= i < |ParseList(raw)| ==> ',' !in ParseList(raw)[i]
  {
    ParsePartsAvoid(Text.Split(raw, ','), ',' in raw, ',');
  }

  /** Without a comma the input is one name, stripped but not title-cased, or nothing when blank. */
  lemma ParseListSingle(raw: string)
    requires ',' !in raw
    ensures ParseList(raw) == if Text.Strip(raw) == [] then [] else [Text.Strip(raw)]
  {
    Text.SplitWithoutSep(raw, ',');
    assert Text.Split(raw, ',')[1..] == [];
  }

  lemma {:induction false} ParsePartsTitled(parts: seq<string>)
    ensures forall i :: 0 <= i < |ParseParts(parts, true)| ==> Text.Title(ParseParts(parts, true)[i]) == ParseParts(parts, true)[i]
  {
    if parts != [] {
      ParsePartsTitled(parts[1..]);
      var rest := ParseParts(parts[1..], true);
      if Text.Strip(parts[0]) != [] {
        var items := [CleanItem(parts[0], true)] + rest;
        assert ParseParts(parts, true) == items;
        Text.TitleIdempotent(Text.Strip(parts[0]));
        forall i | 0 <= i < |items|
          ensures Text.Title(items[i]) == items[i]
        {
          if i > 0 { assert items[i] == rest[i - 1]; }
        }
      }
    }
  }

  /** With a comma every item is already in title case. */
  lemma ParseListTitled(raw: string)
    requires ',' in raw
    ensures forall i :: 0 <= i < |ParseList(raw)| ==> Text.Title(ParseList(raw)[i]) == ParseList(raw)[i]
  {
    ParsePartsTitled(Text.Split(raw, ','));
  }

  // ---------------------------------------------------------------- _prepare_lines

  /** Every item split at its newlines, the pieces kept in order. */
  function SplitLines(items: seq<string>): seq<string> {
    if items == [] then []
    else SplitLines(items[..|items| - 1]) + Text.Split(items[|items| - 1], '\n')
  }

  /** `_prepare_lines`: flatten embedded newlines into separate lines. */
  method PrepareLines(traceList: seq<string>) returns (lines: seq<string>)
    ensures lines == SplitLines(traceList)
  {
    lines := [];
    for k := 0 to |traceList|
      invariant lines == SplitLines(traceList[..k])
    {
      var parts := Text.Split(traceList[k], '\n');
      for j := 0 to |parts|
        invariant lines == SplitLines(traceList[..k]) + parts[..j]
      {
        lines := lines + [parts[j]];
      }
      assert traceList[..k + 1][..k] == traceList[..k];
      assert parts[..|parts|] == parts;
    }
    assert traceList[..|traceList|] == traceList;
  }

  /** Number of lines the items make: one more than its newlines for each. */
  function LineCount(items: seq<string>): nat {
    if items == [] then 0
    else LineCount(items[..|items| - 1]) + Text.CountChar(items[|items| - 1], '\n') + 1
  }

  /** An item with k newlines contributes k + 1 lines. */
  lemma {:induction false} SplitLinesCount(items: seq<string>)
    ensures |SplitLines(items)| == LineCount(items)
    decreases |items|
  {
    if items != [] {
      SplitLinesCount(items[..|items| - 1]);
      Text.SplitCount(items[|items| - 1], '\n');
    }
  }

  /** No prepared line holds a newline. */
  lemma {:induction false} SplitLinesSingle(items: seq<string>)
    ensures forall i :: 0 <= i < |SplitLines(items)| ==> '\n' !in SplitLines(items)[i]
    decreases |items|
  {
    if items != [] {
      SplitLinesSingle(items[..|items| - 1]);
      var a := SplitLines(items[..|items| - 1]);
      var b := Text.Split(items[|items| - 1], '\n');
      assert SplitLines(items) == a + b;
      forall i | 0 <= i < |a + b|
        ensures '\n' !in (a + b)[i]
      {
        if i < |a| { assert (a + b)[i] == a[i]; } else { assert (a + b)[i] == b[i - |a|]; }
      }
    }
  }

  /** Items without newlines pass through unchanged. */
  lemma {:induction false} SplitLinesPlain(items: seq<string>)
    requires forall i :: 0 <= i < |items| ==> '\n' !in items[i]
    ensures SplitLines(items) == items
    decreases |items|
  {
    if items != [] {
      SplitLinesPlain(items[..|items| - 1]);
      Text.SplitWithoutSep(items[|items| - 1], '\n');
    }
  }

  // ---------------------------------------------------------------- run_head_recursion

  const NoStudentsError := "Please enter at least one student name."
  const ReportingHeader := "Reporting order (last student -> first student):"

  /** The reporting-order lines, numbered from 1. */
  function Numbered(names: seq<string>): seq<string> {
    seq(|names|, i requires 0 <= i < |names| => Text.IntToString(i + 1) + ". " + names[i])
  }

  /**
   * `run_head_recursion`: an input with no student is an error; otherwise the
   * attendance trace, a blank line, the header and the numbered reporting order.
   */
  method RunHeadRecursion(raw: string) returns (r: Result<seq<string>, string>)
    ensures r.Failure? <==> ParseList(raw) == []
    ensures r.Failure? ==> r.error == NoStudentsError
    ensures r.Success? ==>
      var present := Reverse(Normalize(ParseList(raw)));
      && |r.value| == 2 * |present| + 3
      && r.value == [LastReached] + SaysPresent(present) + ["", ReportingHeader] + Numbered(present)
  {
    var students := ParseList(raw);
    if students == [] {
      return Failure(NoStudentsError);
    }
    var present, trace := CallAttendance(students);
    r := Success(trace + ["", ReportingHeader] + Numbered(present));
  }

  // ---------------------------------------------------------------- the debt game

  const InvalidPaymentMessage := "Please enter a valid whole number."

  /** How a game ends: within 5 of zero, overpaid by more, or still owing more. */
  datatype DebtOutcome = Win | Overpaid | StillOwes

  function Abs(x: int): nat {
    if x < 0 then -x else x
  }

  /** `show_debt_result`'s three-way verdict on the final debt; the fail sound plays exactly when the game is lost. */
  function Classify(remaining: int): (o: DebtOutcome)
    ensures o == Win <==> -5 <= remaining <= 5
    ensures o == Overpaid <==> remaining < -5
    ensures o == StillOwes <==> remaining > 5
    ensures FailSoundPlays(remaining) <==> o != Win
  {
    if Abs(remaining) <= 5 then Win
    else if remaining < -5 then Overpaid
    else StillOwes
  }

  predicate FailSoundPlays(remaining: int) {
    Abs(remaining) > 5
  }

  /** The debt left after paying `payment` in each of `months` months. */
  function FinalDebt(debt: int, months: nat, payment: int): int {
    debt - months * payment
  }

  /** `max(d, 0)`: what the progress label shows of the remaining debt. */
  function Shown(d: int): nat {
    if d < 0 then 0 else d
  }

  /**
   * A game can be won exactly when the debt is within 5 of a multiple of the
   * number of months.
   */
  lemma WinnableIff(debt: int, months: nat)
    requires months > 0
    ensures (exists p :: Classify(FinalDebt(debt, months, p)) == Win)
        <==> (debt % months <= 5 || debt % months >= months - 5)
  {
    var q, r := debt / months, debt % months;
    assert debt == q * months + r;
    if r <= 5 {
      assert FinalDebt(debt, months, q) == r;
    } else if r >= months - 5 {
      assert FinalDebt(debt, months, q + 1) == r - months;
    }
    if p :| Classify(FinalDebt(debt, months, p)) == Win {
      var e := FinalDebt(debt, months, p);
      if months > 5 {
        if e >= 0 {
          ListSpec.ModUnique(debt, months, p, e);
        } else {
          assert debt == (p - 1) * months + (e + months);
          ListSpec.ModUnique(debt, months, p - 1, e + months);
        }
      }
    }
  }

  /** Up to eleven months, some payment always wins. */
  lemma WinnableUpToElevenMonths(debt: int, months: nat)
    requires 0 < months <= 11
    ensures exists p :: Classify(FinalDebt(debt, months, p)) == Win
  {
    WinnableIff(debt, months);
  }

  /** Not every game the reset can deal is winnable: a debt of 1002 over 12 months is not. */
  lemma UnwinnableGame()
    ensures forall p :: Classify(FinalDebt(1002, 12, p)) != Win
  {
    WinnableIff(1002, 12);
    assert 1002 == 83 * 12 + 6;
    ListSpec.ModUnique(1002, 12, 83, 6);
  }

  /**
   * The debt game's state. `reset_debt_game` keeps only the debt and the
   * number of months; `started` says whether a payment and a countdown
   * position have been set since.
   */
  class DebtGame {
    var debt: int
    var months: int
    var started: bool
    var payment: int
    var currentMonth: int
    var remainingDebt: int

    /** The ranges the reset draws the debt and the months from. */
    ghost predicate Valid()
      reads this
    {
      1000 <= debt <= 9999 && 3 <= months <= 12
    }

    /** `reset_debt_game(init=True)`, with the two random draws as parameters. */
    constructor (debt: int, months: int)
      requires 1000 <= debt <= 9999 && 3 <= months <= 12
      ensures Valid() && this.debt == debt && this.months == months && !started
    {
      this.debt := debt;
      this.months := months;
      started := false;
    }

    /** `reset_debt_game`: a new debt and term, and the countdown forgotten. */
    method Reset(debt: int, months: int)
      requires 1000 <= debt <= 9999 && 3 <= months <= 12
      modifies this
      ensures Valid() && this.debt == debt && this.months == months && !started
    {
      this.debt := debt;
      this.months := months;
      started := false;
    }

    /**
     * `play_debt_game`: a payment that is not a whole number is refused and
     * nothing changes; otherwise the countdown runs to its end from month 1
     * and the verdict is that of the final debt.
     */
    method Play(entry: string) returns (r: Result<DebtOutcome, string>)
      requires Valid()
      modifies this
      ensures Valid() && debt == old(debt) && months == old(months)
      ensures Text.ParseInt(entry).None? ==> r == Failure(InvalidPaymentMessage) && unchanged(this)
      ensures Text.ParseInt(entry).Some? ==>
        && started && payment == Text.ParseInt(entry).value
        && currentMonth == months + 1
        && remainingDebt == FinalDebt(debt, months, payment)
        && r == Success(Classify(remainingDebt))
    {
      var p := Text.ParseInt(entry);
      if p.None? {
        return Failure(InvalidPaymentMessage);
      }
      payment := p.value;
      started := true;
      currentMonth := 1;
      remainingDebt := debt;
      var shown := UpdateDebtProgress();
      assert remainingDebt == debt - (months + 1 - 1) * payment;
      var outcome, failSound := ShowDebtResult();
      r := Success(outcome);
    }

    /**
     * `update_debt_progress`: while the current month is within the term,
     * show it and the remaining debt (never below zero), then pay one month.
     * `shown` lists the debts shown, month by month.
     */
    method UpdateDebtProgress() returns (shown: seq<nat>)
      requires currentMonth >= 1
      modifies this`currentMonth, this`remainingDebt
      ensures old(currentMonth) <= months ==>
        && currentMonth == months + 1
        && remainingDebt == old(remainingDebt) - (months + 1 - old(currentMonth)) * payment
        && |shown| == months + 1 - old(currentMonth)
      ensures old(currentMonth) > months ==>
        currentMonth == old(currentMonth) && remainingDebt == old(remainingDebt) && shown == []
      ensures forall i :: 0 <= i < |shown| ==> shown[i] == Shown(old(remainingDebt) - i * payment)
    {
      shown := [];
      ghost var start := currentMonth;
      ghost var initial := remainingDebt;
      while currentMonth <= months
        invariant start <= currentMonth
        invariant start <= months ==> currentMonth <= months + 1
        invariant start > months ==> currentMonth == start
        invariant remainingDebt == initial - (currentMonth - start) * payment
        invariant |shown| == currentMonth - start
        invariant forall i :: 0 <= i < |shown| ==> shown[i] == Shown(initial - i * payment)
        decreases months - currentMonth
      {
        shown := shown + [Shown(remainingDebt)];
        remainingDebt := remainingDebt - payment;
        currentMonth := currentMonth + 1;
      }
    }

    /** `show_debt_result`: the verdict on the remaining debt, and whether the fail sound plays. */
    method ShowDebtResult() returns (outcome: DebtOutcome, failSound: bool)
      ensures outcome == Classify(remainingDebt)
      ensures failSound <==> outcome != Win
    {
      outcome := Classify(remainingDebt);
      failSound := FailSoundPlays(remainingDebt);
    }
  }

  /** A payment of exactly debt / months, when it divides evenly, always wins. */
  method PlayExactPayment(debt: int, months: int) returns (r: Result<DebtOutcome, string>)
    requires 1000 <= debt <= 9999 && 3 <= months <= 12 && debt % months == 0
    ensures r == Success(Win)
  {
    var game := new DebtGame(debt, months);
    var p := debt / months;
    assert debt == p * months;
    assert FinalDebt(debt, months, p) == 0;
    Text.ParseIntRoundTrip(p);
    r := game.Play(Text.IntToString(p));
  }
}
