/**
 * `AsciiStackApp` without its widgets: a stack of digit strings with a
 * capacity of `MAX_STACK` entries, each shown in at most `MAX_CHARS`
 * characters, and the texts its labels and alerts show.
 */
module StackApp {
  import opened Wrappers
  import Text

  const MaxStack: nat := 10
  const MaxChars: nat := 36

  // ---------------------------------------------------------------- what the user sees

  /** The popups the app raises, each with a fixed title and message. */
  datatype Alert = EmptyPush | NonDigit | Overflow | PopUnderflow | PeekEmpty

  function AlertTitle(a: Alert): string {
    match a
    case EmptyPush => "Invalid push"
    case NonDigit => "Invalid input"
    case Overflow => "Overflow"
    case PopUnderflow => "Underflow"
    case PeekEmpty => "Peek empty"
  }

  /**
   * The message of each alert, in the wording of the message box. When its
   * image is found, the overflow popup shows the same text in lower case
   * ("stack is full! stop"); the image popups are not modelled.
   */
  function AlertMessage(a: Alert): string {
    match a
    case EmptyPush => "Cant push nothing."
    case NonDigit => "Yea numbers only"
    case Overflow => "Stack is full! stop"
    case PopUnderflow => "Pop failed: stack is empty."
    case PeekEmpty => "Peek: stack is empty."
  }

  /** The states of the status bar; `StatusText` is what it shows. */
  datatype Status =
    | Ready
    | Pushed(value: string)
    | OverflowRefused
    | Popped(value: string)
    | Top(value: string)
    | AlreadyEmpty
    | Cleared
    | ClearCancelled

  function StatusText(s: Status): string {
    match s
    case Ready => "Ready"
    case Pushed(v) => "Pushed: " + v
    case OverflowRefused => "Overflow! Cannot add more stacks."
    case Popped(v) => "Popped: " + v
    case Top(v) => "Top: " + v
    case AlreadyEmpty => "Stack already empty."
    case Cleared => "Stack cleared."
    case ClearCancelled => "Clear cancelled."
  }

  /** The states of the peek label; `PeekText` is what it shows. */
  datatype PeekLabel = NothingPeeked | PeekedEmpty | Peeked(value: string)

  function PeekText(p: PeekLabel): string {
    match p
    case NothingPeeked => "(none)"
    case PeekedEmpty => "(empty)"
    case Peeked(v) => v
  }

  /** The text of the stack-info label for `count` entries. */
  function InfoText(count: nat): (text: string)
    ensures count >= MaxStack ==> text == "Overflow! Stack > 10"
    ensures count < MaxStack ==> text == "Stacks: " + Text.IntToString(count) + " / 10"
  {
    if count >= MaxStack then "Overflow! Stack > 10"
    else "Stacks: " + Text.IntToString(count) + " / " + Text.IntToString(MaxStack)
  }

  // ---------------------------------------------------------------- entries

  /** `_validate_digits`: the empty string or a string of digits only. */
  function ValidateDigits(proposed: string): (ok: bool)
    ensures ok <==> Text.AllDigits(proposed)
  {
    if proposed == "" then true else Text.IsDigitString(proposed)
  }

  /** Whether `push` accepts what is typed: its stripped form is a non-empty digit string. */
  predicate Accepted(typed: string) {
    Text.IsDigitString(Text.Strip(typed))
  }

  /** Every non-empty text the digit validator lets into the entry is one `push` accepts, unchanged by stripping. */
  lemma ValidatedIsAccepted(s: string)
    requires ValidateDigits(s) && s != ""
    ensures Accepted(s) && Text.Strip(s) == s
  {
    assert Text.IsDigit(s[0]) && Text.IsDigit(s[|s| - 1]);
    Text.StripUnchanged(s);
  }

  /** The value `push` stores: a value over `MAX_CHARS` keeps its first `MAX_CHARS - 3` characters and gains "...". */
  function Shorten(v: string): (r: string)
    ensures |r| <= MaxChars
    ensures |v| <= MaxChars ==> r == v
    ensures |v| > MaxChars ==> |r| == MaxChars && r[..MaxChars - 3] == v[..MaxChars - 3] && r[MaxChars - 3..] == "..."
  {
    if |v| > MaxChars then v[..MaxChars - 3] + "..." else v
  }

  /** A value `push` can leave on the stack: a non-empty digit string, possibly shortened. */
  ghost predicate Storable(v: string) {
    && 0 < |v| <= MaxChars
    && (Text.AllDigits(v) || (|v| == MaxChars && Text.AllDigits(v[..MaxChars - 3]) && v[MaxChars - 3..] == "..."))
  }

  /** Every accepted entry is storable once shortened. */
  lemma ShortenStorable(v: string)
    requires Text.IsDigitString(v)
    ensures Storable(Shorten(v))
  {
  }

  // ---------------------------------------------------------------- the app

  class AsciiStackApp {
    var stack: seq<string>
    /** The text in the value entry. */
    var entry: string
    var status: Status
    var peekLabel: PeekLabel
    var infoLabel: string

    ghost predicate Valid()
      reads this`stack
    {
      |stack| <= MaxStack && forall i :: 0 <= i < |stack| ==> Storable(stack[i])
    }

    constructor ()
      ensures Valid() && stack == [] && entry == ""
      ensures status == Ready && peekLabel == NothingPeeked && infoLabel == InfoText(0)
    {
      stack := [];
      entry := "";
      status := Ready;
      peekLabel := NothingPeeked;
      infoLabel := InfoText(0);
    }

    /** `update_info`: refresh the info label; a full stack also raises the overflow alert. */
    method UpdateInfo() returns (alert: Option<Alert>)
      modifies this`infoLabel
      ensures infoLabel == InfoText(|stack|)
      ensures alert == if |stack| >= MaxStack then Some(Overflow) else None
    {
      var count := |stack|;
      infoLabel := InfoText(count);
      if count >= MaxStack {
        alert := Some(Overflow);
      } else {
        alert := None;
      }
    }

    /**
     * `push`: the stripped entry is refused when empty or not all digits, and
     * nothing is added to a full stack; otherwise its shortened form goes on
     * top and the entry is emptied.
     */
    method Push() returns (alert: Option<Alert>)
      requires Valid()
      modifies this
      ensures Valid()
      ensures peekLabel == old(peekLabel)
      ensures |stack| == if Accepted(old(entry)) && |old(stack)| < MaxStack then |old(stack)| + 1 else |old(stack)|
      ensures Text.Strip(old(entry)) == [] ==>
        alert == Some(EmptyPush) && unchanged(this)
      ensures Text.Strip(old(entry)) != [] && !Accepted(old(entry)) ==>
        alert == Some(NonDigit) && unchanged(this)
      ensures Accepted(old(entry)) && |old(stack)| >= MaxStack ==>
        && stack == old(stack) && entry == old(entry) && status == OverflowRefused
        && infoLabel == InfoText(|stack|) && alert == Some(Overflow)
      ensures Accepted(old(entry)) && |old(stack)| < MaxStack ==>
        && stack == old(stack) + [Shorten(Text.Strip(old(entry)))] && entry == ""
        && status == Pushed(Shorten(Text.Strip(old(entry))))
        && infoLabel == InfoText(|stack|)
        && alert == (if |stack| == MaxStack then Some(Overflow) else None)
    {
      var v := Text.Strip(entry);
      if v == [] {
        return Some(EmptyPush);
      }
      if !Text.IsDigitString(v) {
        return Some(NonDigit);
      }
      if |stack| >= MaxStack {
        alert := RefuseFull();
        return;
      }
      ShortenStorable(v);
      alert := Store(Shorten(v));
    }

    /** The overflow end of `push`: only the status and the info label change. */
    method RefuseFull() returns (alert: Option<Alert>)
      requires |stack| >= MaxStack
      modifies this`status, this`infoLabel
      ensures status == OverflowRefused && infoLabel == InfoText(|stack|) && alert == Some(Overflow)
    {
      status := OverflowRefused;
      alert := UpdateInfo();
    }

    /** The accepting end of `push`: `v` goes on top and the entry is emptied. */
    method Store(v: string) returns (alert: Option<Alert>)
      requires Valid() && |stack| < MaxStack && Storable(v)
      modifies this
      ensures Valid()
      ensures stack == old(stack) + [v] && entry == "" && status == Pushed(v)
      ensures peekLabel == old(peekLabel) && infoLabel == InfoText(|stack|)
      ensures alert == (if |stack| == MaxStack then Some(Overflow) else None)
    {
      ghost var s0 := stack;
      stack := stack + [v];
      assert forall i :: 0 <= i < |stack| ==> Storable(stack[i]) by {
        forall i | 0 <= i < |stack|
          ensures Storable(stack[i])
        {
          if i < |s0| { assert stack[i] == s0[i]; }
        }
      }
      entry := "";
      status := Pushed(v);
      alert := UpdateInfo();
    }

    /** `pop`: underflow on an empty stack; otherwise the most recently pushed entry comes off. */
    method Pop() returns (alert: Option<Alert>)
      requires Valid()
      modifies this
      ensures Valid()
      ensures entry == old(entry) && peekLabel == old(peekLabel)
      ensures if old(stack) == [] then
          alert == Some(PopUnderflow) && unchanged(this)
        else
          && stack == old(stack[..|stack| - 1])
          && status == Popped(old(stack[|stack| - 1]))
          && infoLabel == InfoText(|stack|) && alert == None
    {
      if stack == [] {
        return Some(PopUnderflow);
      }
      var v := stack[|stack| - 1];
      stack := stack[..|stack| - 1];
      status := Popped(v);
      alert := UpdateInfo();
    }

    /** `peek`: show the top entry without removing it, or "(empty)". */
    method Peek() returns (alert: Option<Alert>)
      requires Valid()
      modifies this`peekLabel, this`status
      ensures if stack == [] then
          alert == Some(PeekEmpty) && peekLabel == PeekedEmpty && status == old(status)
        else
          alert == None && peekLabel == Peeked(stack[|stack| - 1]) && status == Top(stack[|stack| - 1])
    {
      if stack == [] {
        peekLabel := PeekedEmpty;
        return Some(PeekEmpty);
      }
      var v := stack[|stack| - 1];
      peekLabel := Peeked(v);
      status := Top(v);
      alert := None;
    }

    /**
     * `clear`: nothing but a status on an empty stack; otherwise the stack is
     * emptied only if the user confirms. `imagePopup` says whether the
     * confirmation came from the image popup (which reports a cancel) or from
     * the plain yes/no dialog (which does not).
     */
    method Clear(confirmed: bool, imagePopup: bool)
      requires Valid()
      modifies this
      ensures Valid()
      ensures entry == old(entry)
      ensures if old(stack) == [] then
          stack == [] && status == AlreadyEmpty && peekLabel == old(peekLabel) && infoLabel == old(infoLabel)
        else if confirmed then
          stack == [] && status == Cleared && peekLabel == NothingPeeked && infoLabel == InfoText(0)
        else
          && stack == old(stack) && peekLabel == old(peekLabel) && infoLabel == old(infoLabel)
          && status == (if imagePopup then ClearCancelled else old(status))
    {
      if stack == [] {
        status := AlreadyEmpty;
        return;
      }
      if confirmed {
        stack := [];
        status := Cleared;
        var alert := UpdateInfo();
        peekLabel := NothingPeeked;
      } else if imagePopup {
        status := ClearCancelled;
      }
    }
  }

  // ---------------------------------------------------------------- sessions

  /** Pushing an accepted entry and popping straight away restores the stack and reports the stored entry (LIFO). */
  method PushThenPop(before: seq<string>, typed: string) returns (after: seq<string>, popped: string)
    requires |before| < MaxStack && forall i :: 0 <= i < |before| ==> Storable(before[i])
    requires Accepted(typed)
    ensures after == before
    ensures popped == StatusText(Popped(Shorten(Text.Strip(typed))))
  {
    var app := new AsciiStackApp();
    app.stack := before;
    app.entry := typed;
    var pushAlert := app.Push();
    var popAlert := app.Pop();
    after, popped := app.stack, StatusText(app.status);
  }

  /** The user types `typed` into the entry and presses push: one more value exactly when it is accepted and there is room. */
  method TypeAndPush(app: AsciiStackApp, typed: string)
    requires app.Valid()
    modifies app
    ensures app.Valid()
    ensures |app.stack| == if Accepted(typed) && |old(app.stack)| < MaxStack then |old(app.stack)| + 1 else |old(app.stack)|
  {
    app.entry := typed;
    var alert := app.Push();
  }

  /** One more entry of the session typed and pushed. */
  method PushNext(app: AsciiStackApp, entries: seq<string>, k: nat)
    requires app.Valid() && k < |entries|
    requires |app.stack| == Min(AcceptedCount(entries[..k]), MaxStack)
    modifies app
    ensures app.Valid()
    ensures |app.stack| == Min(AcceptedCount(entries[..k + 1]), MaxStack)
  {
    AcceptedCountStep(entries, k);
    TypeAndPush(app, entries[k]);
  }

  /** How many of the typed entries `push` accepts. */
  function AcceptedCount(entries: seq<string>): (n: nat)
    ensures n <= |entries|
  {
    if entries == [] then 0
    else AcceptedCount(entries[..|entries| - 1]) + (if Accepted(entries[|entries| - 1]) then 1 else 0)
  }

  lemma AcceptedCountStep(entries: seq<string>, k: nat)
    requires k < |entries|
    ensures AcceptedCount(entries[..k + 1]) == AcceptedCount(entries[..k]) + if Accepted(entries[k]) then 1 else 0
  {
    assert entries[..k + 1][..k] == entries[..k];
  }

  function Min(a: nat, b: nat): nat {
    if a < b then a else b
  }

  /**
   * Pushing the entries one after another onto a fresh app stores one value
   * per accepted entry until the stack is full, and never more than `MAX_STACK`.
   */
  method PushMany(entries: seq<string>) returns (size: nat)
    ensures size == Min(AcceptedCount(entries), MaxStack)
    ensures size <= MaxStack
  {
    var app := new AsciiStackApp();
    for k := 0 to |entries|
      invariant app.Valid()
      invariant |app.stack| == Min(AcceptedCount(entries[..k]), MaxStack)
    {
      PushNext(app, entries, k);
    }
    assert entries[..|entries|] == entries;
    size := |app.stack|;
  }
}
