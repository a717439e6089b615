/**
 * The Python string operations the three cores rely on, restricted to ASCII:
 * `str.isspace`, `str.strip`, `str.isdigit`, `str.title`, `str.split(sep)`,
 * `sep.join(parts)`, `str(int)` and `int(str)`.
 */
module Text {
  import opened Wrappers

  // ---------------------------------------------------------------- characters

  /** `c.isspace()` for an ASCII character. */
  predicate IsSpace(c: char) {
    c == ' ' || '\t' <= c <= '\r' || '\U{1C}' <= c <= '\U{1F}'
  }

  predicate IsDigit(c: char) {
    '0' <= c <= '9'
  }

  predicate IsUpper(c: char) {
    'A' <= c <= 'Z'
  }

  predicate IsLower(c: char) {
    'a' <= c <= 'z'
  }

  /** A character that has case (Python's "cased"), ASCII letters only. */
  predicate IsCased(c: char) {
    IsUpper(c) || IsLower(c)
  }

  function ToUpper(c: char): (r: char)
    ensures IsLower(c) ==> IsUpper(r)
    ensures !IsLower(c) ==> r == c
  {
    if IsLower(c) then (c as int - 32) as char else c
  }

  function ToLower(c: char): (r: char)
    ensures IsUpper(c) ==> IsLower(r)
    ensures !IsUpper(c) ==> r == c
  {
    if IsUpper(c) then (c as int + 32) as char else c
  }

  // ---------------------------------------------------------------- isdigit

  /** Every character of `s` is an ASCII digit (true of the empty string). */
  predicate AllDigits(s: string) {
    forall i :: 0 <= i < |s| ==> IsDigit(s[i])
  }

  /** `s.isdigit()`: Python answers False for the empty string. */
  predicate IsDigitString(s: string) {
    |s| > 0 && AllDigits(s)
  }

  // ---------------------------------------------------------------- strip

  /** `s.lstrip()`. */
  function TrimStart(s: string): (r: string)
    ensures |r| <= |s| && r == s[|s| - |r|..]
    ensures r == [] || !IsSpace(r[0])
    ensures forall i :: 0 <= i < |s| - |r| ==> IsSpace(s[i])
  {
    if s != [] && IsSpace(s[0]) then TrimStart(s[1..]) else s
  }

  /** `s.rstrip()`. */
  function TrimEnd(s: string): (r: string)
    ensures |r| <= |s| && r == s[..|r|]
    ensures r == [] || !IsSpace(r[|r| - 1])
    ensures forall i :: |r| <= i < |s| ==> IsSpace(s[i])
  {
    if s != [] && IsSpace(s[|s| - 1]) then TrimEnd(s[..|s| - 1]) else s
  }

  /** `s.strip()`: the result starts and ends with a non-space, and is empty exactly when `s` is all spaces. */
  function Strip(s: string): (r: string)
    ensures |r| <= |s|
    ensures r == [] || (!IsSpace(r[0]) && !IsSpace(r[|r| - 1]))
    ensures r == [] <==> forall i :: 0 <= i < |s| ==> IsSpace(s[i])
  {
    TrimEnd(TrimStart(s))
  }

  /** `strip()` only removes characters, so it brings in none the string lacks. */
  lemma StripAvoids(s: string, c: char)
    requires c !in s
    ensures c !in Strip(s)
  {
    var u := TrimStart(s);
    SuffixAvoids(s, |s| - |u|, c);
    PrefixAvoids(u, |TrimEnd(u)|, c);
  }

  lemma SuffixAvoids(s: string, lo: nat, c: char)
    requires lo <= |s| && c !in s
    ensures c !in s[lo..]
  {
    forall k | 0 <= k < |s| - lo
      ensures s[lo..][k] != c
    {
      assert s[lo..][k] == s[lo + k];
    }
  }

  lemma PrefixAvoids(s: string, hi: nat, c: char)
    requires hi <= |s| && c !in s
    ensures c !in s[..hi]
  {
    forall k | 0 <= k < hi
      ensures s[..hi][k] != c
    {
      assert s[..hi][k] == s[k];
    }
  }

  /** A string that neither starts nor ends with a space is its own `strip()`. */
  lemma StripUnchanged(s: string)
    requires s == [] || (!IsSpace(s[0]) && !IsSpace(s[|s| - 1]))
    ensures Strip(s) == s
  {
    if s != [] {
      assert TrimStart(s) == s;
    }
  }

  /** `strip()` is idempotent. */
  lemma StripIdempotent(s: string)
    ensures Strip(Strip(s)) == Strip(s)
  {
    StripUnchanged(Strip(s));
  }

  // ---------------------------------------------------------------- title

  /**
   * `str.title()` from a point in the string: a cased character becomes upper
   * case when the character before it is uncased (or it is the first), lower
   * case otherwise.
   */
  function TitleFrom(s: string, afterCased: bool): (r: string)
    ensures |r| == |s|
    ensures forall i :: 0 <= i < |s| ==> (IsCased(r[i]) <==> IsCased(s[i]))
    ensures forall i :: 0 <= i < |s| && !IsCased(s[i]) ==> r[i] == s[i]
  {
    if s == [] then []
    else if IsCased(s[0]) then
      [if afterCased then ToLower(s[0]) else ToUpper(s[0])] + TitleFrom(s[1..], true)
    else
      [s[0]] + TitleFrom(s[1..], false)
  }

  /** `s.title()`. */
  function Title(s: string): (r: string)
    ensures |r| == |s|
    ensures forall i :: 0 <= i < |s| ==> (IsCased(r[i]) <==> IsCased(s[i]))
    ensures forall i :: 0 <= i < |s| && !IsCased(s[i]) ==> r[i] == s[i]
  {
    TitleFrom(s, false)
  }

  /** A cased character of `TitleFrom(s, afterCased)` is lowered exactly when the character before it is cased. */
  lemma {:induction false} TitleFromAt(s: string, afterCased: bool, i: nat)
    requires i < |s| && IsCased(s[i])
    ensures TitleFrom(s, afterCased)[i] ==
      if (if i == 0 then afterCased else IsCased(s[i - 1])) then ToLower(s[i]) else ToUpper(s[i])
  {
    if i > 0 {
      TitleFromAt(s[1..], IsCased(s[0]), i - 1);
      assert s[1..][i - 1] == s[i];
      if i > 1 {
        assert s[1..][i - 2] == s[i - 1];
      }
    }
  }

  /**
   * What `title()` does to a cased character: it is upper case exactly when it
   * is the first character or follows an uncased one, and lower case otherwise.
   */
  lemma TitleCase(s: string, i: nat)
    requires i < |s| && IsCased(s[i])
    ensures Title(s)[i] == if i == 0 || !IsCased(s[i - 1]) then ToUpper(s[i]) else ToLower(s[i])
    ensures IsUpper(Title(s)[i]) <==> i == 0 || !IsCased(s[i - 1])
    ensures IsLower(Title(s)[i]) <==> !(i == 0 || !IsCased(s[i - 1]))
  {
    TitleFromAt(s, false, i);
  }

  /** Title-casing brings in no uncased character the string lacks. */
  lemma TitleAvoids(s: string, c: char)
    requires c !in s && !IsCased(c)
    ensures c !in Title(s)
  {
    var r := Title(s);
    forall k | 0 <= k < |r|
      ensures r[k] != c
    {
      if !IsCased(s[k]) {
        assert r[k] == s[k];
      }
    }
  }

  lemma {:induction false} TitleFromIdempotent(s: string, afterCased: bool)
    ensures TitleFrom(TitleFrom(s, afterCased), afterCased) == TitleFrom(s, afterCased)
    decreases |s|
  {
    if s != [] {
      var t := TitleFrom(s, afterCased);
      assert t[1..] == TitleFrom(s[1..], IsCased(s[0]));
      TitleFromIdempotent(s[1..], IsCased(s[0]));
    }
  }

  /** Title-casing twice is title-casing once. */
  lemma TitleIdempotent(s: string)
    ensures Title(Title(s)) == Title(s)
  {
    TitleFromIdempotent(s, false);
  }

  // ---------------------------------------------------------------- split and join

  /** Number of occurrences of `c` in `s`. */
  function CountChar(s: string, c: char): nat {
    if s == [] then 0 else (if s[0] == c then 1 else 0) + CountChar(s[1..], c)
  }

  /** `s.split(sep)` for a one-character separator: every separator ends one part. */
  function Split(s: string, sep: char): (r: seq<string>)
    ensures |r| >= 1
    ensures forall i :: 0 <= i < |r| ==> sep !in r[i]
  {
    if s == [] then [""]
    else if s[0] == sep then [""] + Split(s[1..], sep)
    else
      var rest := Split(s[1..], sep);
      [[s[0]] + rest[0]] + rest[1..]
  }

  /** `sep.join(parts)`. */
  function Join(parts: seq<string>, sep: string): string {
    if parts == [] then ""
    else if |parts| == 1 then parts[0]
    else parts[0] + sep + Join(parts[1..], sep)
  }

  /** Splitting on a character and joining back with it gives the original string. */
  lemma {:induction false} SplitJoin(s: string, sep: char)
    ensures Join(Split(s, sep), [sep]) == s
  {
    if s != [] {
      SplitJoin(s[1..], sep);
      var rest := Split(s[1..], sep);
      if s[0] != sep {
        if |rest| > 1 {
          assert Join(rest, [sep]) == rest[0] + [sep] + Join(rest[1..], [sep]);
          assert Split(s, sep)[1..] == rest[1..];
        }
      }
    }
  }

  /** A string with k occurrences of the separator splits into k + 1 parts. */
  lemma {:induction false} SplitCount(s: string, sep: char)
    ensures |Split(s, sep)| == CountChar(s, sep) + 1
  {
    if s != [] {
      SplitCount(s[1..], sep);
    }
  }

  /** A string without the separator splits into itself alone. */
  lemma {:induction false} SplitWithoutSep(s: string, sep: char)
    requires sep !in s
    ensures Split(s, sep) == [s]
  {
    if s != [] {
      assert s[0] != sep && sep !in s[1..];
      SplitWithoutSep(s[1..], sep);
      assert [s[0]] + s[1..] == s;
    }
  }

  /** A joined string starts with the first part's first character. */
  lemma JoinStartsWithFirst(parts: seq<string>, sep: string)
    requires parts != [] && parts[0] != []
    ensures Join(parts, sep) != [] && Join(parts, sep)[0] == parts[0][0]
  {
  }

  // ---------------------------------------------------------------- str(int) and int(str)

  function DigitChar(d: nat): (c: char)
    requires d < 10
    ensures IsDigit(c)
  {
    "0123456789"[d]
  }

  function DigitValue(c: char): (d: nat)
    requires IsDigit(c)
    ensures d < 10 && DigitChar(d) == c
  {
    c as int - '0' as int
  }

  /** `str(n)` for a natural number: decimal digits, no leading zero. */
  function NatToString(n: nat): (r: string)
    ensures IsDigitString(r)
    ensures r[0] == '0' ==> n == 0
  {
    if n < 10 then [DigitChar(n)] else NatToString(n / 10) + [DigitChar(n % 10)]
  }

  /** `str(x)`: a minus sign before the digits of a negative number. */
  function IntToString(x: int): (r: string)
    ensures r != []
    ensures r[0] == '-' <==> x < 0
    ensures r[0] == '-' || IsDigit(r[0])
  {
    if x < 0 then "-" + NatToString(-x) else NatToString(x)
  }

  /** The number a string of decimal digits denotes. */
  function DigitsValue(s: string): nat
    requires AllDigits(s)
  {
    if s == [] then 0 else DigitsValue(s[..|s| - 1]) * 10 + DigitValue(s[|s| - 1])
  }

  lemma {:induction false} NatToStringValue(n: nat)
    ensures DigitsValue(NatToString(n)) == n
  {
    if n >= 10 {
      var s := NatToString(n);
      assert s[..|s| - 1] == NatToString(n / 10);
      NatToStringValue(n / 10);
    }
  }

  /**
   * `int(s)`: surrounding spaces are ignored, then an optional sign and one or
   * more digits; anything else is the `ValueError` the caller catches.
   */
  function ParseInt(s: string): (r: Option<int>)
    ensures r.Some? ==> Strip(s) != []
  {
    ParseStripped(Strip(s))
  }

  /** `int(t)` for a string without surrounding spaces. */
  function ParseStripped(t: string): (r: Option<int>)
    ensures r.Some? ==> t != []
  {
    if t != [] && (t[0] == '-' || t[0] == '+') then
      if IsDigitString(t[1..]) then
        var magnitude: int := DigitsValue(t[1..]);
        Some(if t[0] == '-' then -magnitude else magnitude)
      else None
    else if IsDigitString(t) then Some(DigitsValue(t))
    else None
  }

  lemma IntToStringStripped(x: int)
    ensures Strip(IntToString(x)) == IntToString(x)
  {
    var s := IntToString(x);
    assert !IsSpace(s[0]);
    assert IsDigit(s[|s| - 1]);
    StripUnchanged(s);
  }

  /** `int` reads back the digits `str` writes for a natural number. */
  lemma ParseStrippedNat(n: nat)
    ensures ParseStripped(NatToString(n)) == Some(n)
  {
    var s := NatToString(n);
    assert s[0] != '-' && s[0] != '+';
    NatToStringValue(n);
  }

  /** `int` reads back a minus sign and the digits of a natural number as its negation. */
  lemma ParseStrippedNeg(n: nat)
    ensures ParseStripped("-" + NatToString(n)) == Some(-(n as int))
  {
    var s := "-" + NatToString(n);
    assert s[0] == '-' && s[1..] == NatToString(n);
    NatToStringValue(n);
  }

  /** `int(str(x)) == x`. */
  lemma ParseIntRoundTrip(x: int)
    ensures ParseInt(IntToString(x)) == Some(x)
  {
    IntToStringStripped(x);
    ParseStrippedInt(x);
  }

  lemma ParseStrippedInt(x: int)
    ensures ParseStripped(IntToString(x)) == Some(x)
  {
    if x < 0 {
      var n: nat := -x;
      assert IntToString(x) == "-" + NatToString(n);
      ParseStrippedNeg(n);
    } else {
      assert IntToString(x) == NatToString(x);
      ParseStrippedNat(x);
    }
  }

  /** `str` is injective on integers. */
  lemma IntToStringInjective(x: int, y: int)
    requires IntToString(x) == IntToString(y)
    ensures x == y
  {
    ParseIntRoundTrip(x);
    ParseIntRoundTrip(y);
  }
}
