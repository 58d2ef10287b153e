/** The JavaScript string primitives the search engine relies on, on `seq<char>`
    (a Dafny `char` is a Unicode scalar value, one code point). */
module JsText {
  import opened Wrappers

  /** The class `\s` of JavaScript regular expressions, which is also the set of
      characters `parseInt` skips: WhiteSpace and LineTerminator of ECMAScript. */
  predicate IsSpace(c: char) {
    || c == ' ' || c == '\t' || c == '\n' || c == '\r'
    || c == '\U{000B}' || c == '\U{000C}' || c == '\U{00A0}' || c == '\U{1680}'
    || ('\U{2000}' <= c <= '\U{200A}')
    || c == '\U{2028}' || c == '\U{2029}' || c == '\U{202F}' || c == '\U{205F}'
    || c == '\U{3000}' || c == '\U{FEFF}'
  }

  /** The characters a regular-expression `.` does not match. */
  predicate IsLineTerminator(c: char) {
    c == '\n' || c == '\r' || c == '\U{2028}' || c == '\U{2029}'
  }

  predicate HasLineTerminator(s: string) {
    exists i :: 0 <= i < |s| && IsLineTerminator(s[i])
  }

  /** Text of visible ASCII characters only. */
  predicate Visible(s: string) {
    forall i :: 0 <= i < |s| ==> '!' <= s[i] <= '~'
  }

  /** Visible text holds no line terminator. */
  lemma VisibleNoLineTerminator(s: string)
    requires Visible(s)
    ensures !HasLineTerminator(s)
  {
  }

  lemma VisibleAppend(a: string, b: string)
    requires Visible(a) && Visible(b)
    ensures Visible(a + b)
  {
    forall i | 0 <= i < |a + b| ensures '!' <= (a + b)[i] <= '~' {
      if i >= |a| {
        assert (a + b)[i] == b[i - |a|];
      }
    }
  }

  /** The class `[a-z]`. */
  predicate IsLower(c: char) {
    'a' <= c <= 'z'
  }

  predicate IsDigit(c: char) {
    '0' <= c <= '9'
  }

  /** `toLowerCase` on one character, for the ASCII letters. */
  function LowerChar(c: char): (r: char)
    ensures 'A' <= c <= 'Z' ==> IsLower(r)
    ensures !('A' <= c <= 'Z') ==> r == c
  {
    if 'A' <= c <= 'Z' then (c as int + 32) as char else c
  }

  /** `toUpperCase` on one character, for the ASCII letters. */
  function UpperChar(c: char): (r: char)
    ensures IsLower(c) ==> 'A' <= r <= 'Z'
    ensures !IsLower(c) ==> r == c
  {
    if IsLower(c) then (c as int - 32) as char else c
  }

  /** `s.toLowerCase()`, for the ASCII letters. */
  function Lower(s: string): (r: string)
    ensures |r| == |s|
    ensures forall i :: 0 <= i < |s| ==> r[i] == LowerChar(s[i])
  {
    seq(|s|, i requires 0 <= i < |s| => LowerChar(s[i]))
  }

  /** `xs.indexOf(x)`: the first position of `x`, or -1. */
  function IndexOf<T(==)>(xs: seq<T>, x: T): (i: int)
    ensures -1 <= i < |xs|
    ensures i == -1 <==> x !in xs
    ensures 0 <= i ==> xs[i] == x && forall j :: 0 <= j < i ==> xs[j] != x
  {
    var k := IndexFrom(xs, x, 0);
    if k == |xs| then -1 else k
  }

  /** The first position at or after `from` holding `x`, or `|xs|`. */
  function IndexFrom<T(==)>(xs: seq<T>, x: T, from: nat): (i: nat)
    requires from <= |xs|
    ensures from <= i <= |xs|
    ensures i < |xs| ==> xs[i] == x
    ensures forall j :: from <= j < i ==> xs[j] != x
    decreases |xs| - from
  {
    if from == |xs| || xs[from] == x then from else IndexFrom(xs, x, from + 1)
  }

  /** `p` occurs in `s` starting at position `i`. */
  predicate OccursAt(s: string, p: string, i: nat) {
    i + |p| <= |s| && s[i..i + |p|] == p
  }

  /** `s.includes(p)`: `p` is a contiguous piece of `s`. */
  function Includes(s: string, p: string): (r: bool)
    ensures r <==> exists i: nat :: OccursAt(s, p, i)
  {
    IncludesFrom(s, p, 0)
  }

  /** `p` occurs in `s` at some position from `from` on. */
  function IncludesFrom(s: string, p: string, from: nat): (r: bool)
    ensures r <==> exists i: nat :: from <= i && OccursAt(s, p, i)
    decreases |s| - from
  {
    if from + |p| > |s| then
      false
    else if s[from..from + |p|] == p then
      assert OccursAt(s, p, from);
      true
    else
      var r := IncludesFrom(s, p, from + 1);
      assert (exists i: nat :: from <= i && OccursAt(s, p, i)) ==> r by {
        if exists i: nat :: from <= i && OccursAt(s, p, i) {
          var i: nat :| from <= i && OccursAt(s, p, i);
          assert i != from;
        }
      }
      r
  }

  /** `parts.join(sep)`. */
  function Join(parts: seq<string>, sep: string): string {
    if |parts| == 0 then ""
    else if |parts| == 1 then parts[0]
    else parts[0] + sep + Join(parts[1..], sep)
  }

  /** Joining non-empty parts gives the empty string only for no parts. */
  lemma JoinEmpty(parts: seq<string>, sep: string)
    requires forall i :: 0 <= i < |parts| ==> parts[i] != ""
    ensures Join(parts, sep) == "" <==> parts == []
  {
    if |parts| > 1 {
      assert |Join(parts, sep)| >= |parts[0]| > 0;
    }
  }

  // ---------------------------------------------------------------------------
  // Runs of characters.

  /** Where the run of characters satisfying `p` that starts at `i` ends: the
      greedy `p*` of a regular expression. */
  function RunEnd(s: string, i: nat, p: char -> bool): (j: nat)
    requires i <= |s|
    ensures i <= j <= |s|
    ensures j == |s| || !p(s[j])
    decreases |s| - i
  {
    if i < |s| && p(s[i]) then RunEnd(s, i + 1, p) else i
  }

  /** Every character of the run satisfies `p`. */
  lemma {:induction false} RunEndAll(s: string, i: nat, p: char -> bool)
    requires i <= |s|
    ensures forall k :: i <= k < RunEnd(s, i, p) ==> p(s[k])
    decreases |s| - i
  {
    if i < |s| && p(s[i]) {
      RunEndAll(s, i + 1, p);
    }
  }

  /** The run ends at the first character, from `i` on, that fails `p`. */
  lemma {:induction false} RunEndIs(s: string, i: nat, j: nat, p: char -> bool)
    requires i <= j <= |s|
    requires forall k :: i <= k < j ==> p(s[k])
    requires j == |s| || !p(s[j])
    ensures RunEnd(s, i, p) == j
    decreases j - i
  {
    if i < j {
      RunEndIs(s, i + 1, j, p);
    }
  }

  // ---------------------------------------------------------------------------
  // parseInt(s) with no radix, decimal only.

  /** Where the digits of `parseInt` start: after the leading whitespace and
      at most one sign. */
  function DigitsStart(s: string): (j: nat)
    ensures j <= |s|
  {
    var i := RunEnd(s, 0, IsSpace);
    if i < |s| && (s[i] == '-' || s[i] == '+') then i + 1 else i
  }

  /** The sign read is a minus. */
  predicate Negative(s: string) {
    var i := RunEnd(s, 0, IsSpace);
    i < |s| && s[i] == '-'
  }

  function DigitValue(c: char): nat {
    if IsDigit(c) then c as int - '0' as int else 0
  }

  /** The number the decimal digits `s[j..e]` denote. */
  function DigitsValue(s: string, j: nat, e: nat): nat
    requires j <= e <= |s|
    decreases e - j
  {
    if e == j then 0 else DigitsValue(s, j, e - 1) * 10 + DigitValue(s[e - 1])
  }

  /** `parseInt(s)`: skip leading whitespace, read an optional sign and the
      longest run of decimal digits; `None` (JavaScript's NaN) when no digit
      follows the sign. */
  function ParseInt(s: string): (r: Option<int>)
    ensures r.Some? <==> DigitsStart(s) < |s| && IsDigit(s[DigitsStart(s)])
  {
    var j := DigitsStart(s);
    var e := RunEnd(s, j, IsDigit);
    if e == j then None
    else if Negative(s) then Some(0 - DigitsValue(s, j, e) as int)
    else Some(DigitsValue(s, j, e) as int)
  }

  /** Text that opens with neither a blank, a sign nor a digit is not a
      number. */
  lemma ParseIntNoDigit(s: string)
    requires |s| > 0 && !IsSpace(s[0]) && !IsDigit(s[0]) && s[0] != '-' && s[0] != '+'
    ensures ParseInt(s) == None
  {
    assert RunEnd(s, 0, IsSpace) == 0;
  }

  /** The decimal spelling of a natural number. */
  function NatToString(n: nat): (r: string)
    ensures |r| > 0
    ensures forall i :: 0 <= i < |r| ==> IsDigit(r[i])
  {
    var digit := (n % 10 + '0' as int) as char;
    if n < 10 then [digit] else NatToString(n / 10) + [digit]
  }

  /** The decimal spelling of an integer, `String(n)`. */
  function IntToString(n: int): string {
    if n < 0 then "-" + NatToString(-n) else NatToString(n)
  }

  /** Digits written at an offset in another string denote the same value. */
  lemma {:induction false} DigitsValueAgree(s: string, t: string, off: nat, j: nat, e: nat)
    requires j <= e <= |t| && off + e <= |s|
    requires forall k :: j <= k < e ==> s[off + k] == t[k]
    ensures DigitsValue(s, off + j, off + e) == DigitsValue(t, j, e)
    decreases e - j
  {
    if e > j {
      DigitsValueAgree(s, t, off, j, e - 1);
      assert s[off + e - 1] == t[e - 1];
    }
  }

  lemma {:induction false} NatToStringValue(n: nat)
    ensures DigitsValue(NatToString(n), 0, |NatToString(n)|) == n
  {
    var r := NatToString(n);
    if n >= 10 {
      var a := NatToString(n / 10);
      NatToStringValue(n / 10);
      assert r == a + [r[|r| - 1]];
      DigitsValueAgree(r, a, 0, 0, |a|);
    }
  }

  /** `parseInt` of a string whose sign and digits are known. */
  lemma ParseIntAt(s: string, j: nat, e: nat)
    requires (j == 0 || j == 1) && j < e <= |s|
    requires RunEnd(s, 0, IsSpace) == 0
    requires j == 1 ==> s[0] == '-'
    requires j == 0 ==> s[0] != '-' && s[0] != '+'
    requires RunEnd(s, j, IsDigit) == e
    ensures ParseInt(s) == Some(if j == 1 then 0 - DigitsValue(s, j, e) as int else DigitsValue(s, j, e) as int)
  {
  }

  /** A run of digits followed by a non-digit reads as its value. */
  lemma ParseIntOfDigits(d: string, rest: string)
    requires |d| > 0 && forall i :: 0 <= i < |d| ==> IsDigit(d[i])
    requires rest == [] || !IsDigit(rest[0])
    ensures ParseInt(d + rest) == Some(DigitsValue(d, 0, |d|) as int)
  {
    var s := d + rest;
    forall k | 0 <= k < |d| ensures s[k] == d[k] {
    }
    assert |d| < |s| ==> s[|d|] == rest[0];
    PlacedDigits(s, d, 0);
    assert RunEnd(s, 0, IsSpace) == 0;
    ParseIntAt(s, 0, |d|);
  }

  /** A minus sign and a run of digits followed by a non-digit reads as minus
      the digits' value. */
  lemma ParseIntOfMinusDigits(d: string, rest: string)
    requires |d| > 0 && forall i :: 0 <= i < |d| ==> IsDigit(d[i])
    requires rest == [] || !IsDigit(rest[0])
    ensures ParseInt("-" + d + rest) == Some(0 - DigitsValue(d, 0, |d|) as int)
  {
    MinusDigits(d, rest);
    ParseIntAt("-" + d + rest, 1, 1 + |d|);
  }

  /** Where the sign and digits of `"-" + d + rest` lie. */
  lemma MinusDigits(d: string, rest: string)
    requires |d| > 0 && forall i :: 0 <= i < |d| ==> IsDigit(d[i])
    requires rest == [] || !IsDigit(rest[0])
    ensures 1 + |d| <= |"-" + d + rest| && ("-" + d + rest)[0] == '-'
    ensures RunEnd("-" + d + rest, 0, IsSpace) == 0
    ensures RunEnd("-" + d + rest, 1, IsDigit) == 1 + |d|
    ensures DigitsValue("-" + d + rest, 1, 1 + |d|) == DigitsValue(d, 0, |d|)
  {
    var t := d + rest;
    var s := "-" + t;
    assert s == "-" + d + rest;
    MinusLayout(s, t, d, rest);
    PlacedDigits(s, d, 1);
  }

  lemma MinusLayout(s: string, t: string, d: string, rest: string)
    requires t == d + rest && s == "-" + t
    ensures forall k :: 0 <= k < |d| ==> s[1 + k] == d[k]
    ensures 1 + |d| < |s| ==> s[1 + |d|] == rest[0]
    ensures |s| > 0 && s[0] == '-' && RunEnd(s, 0, IsSpace) == 0
  {
    forall k | 0 <= k < |d| ensures s[1 + k] == d[k] {
      assert s[1 + k] == t[k];
    }
    if 1 + |d| < |s| {
      assert s[1 + |d|] == t[|d|];
    }
  }

  /** Digits `d` written in `s` at `off`, followed by a non-digit or the end. */
  lemma PlacedDigits(s: string, d: string, off: nat)
    requires |d| > 0 && forall i :: 0 <= i < |d| ==> IsDigit(d[i])
    requires off + |d| <= |s| && forall k :: 0 <= k < |d| ==> s[off + k] == d[k]
    requires off + |d| == |s| || !IsDigit(s[off + |d|])
    ensures RunEnd(s, off, IsDigit) == off + |d|
    ensures DigitsValue(s, off, off + |d|) == DigitsValue(d, 0, |d|)
  {
    forall k | off <= k < off + |d| ensures IsDigit(s[k]) {
      assert s[off + (k - off)] == d[k - off];
    }
    RunEndIs(s, off, off + |d|, IsDigit);
    DigitsValueAgree(s, d, off, 0, |d|);
  }

  /** `parseInt` reads back the decimal spelling of any integer, whatever
      non-digit text follows it. */
  lemma ParseIntOfIntToString(n: int, rest: string)
    requires rest == [] || !IsDigit(rest[0])
    ensures ParseInt(IntToString(n) + rest) == Some(n)
    ensures ParseInt(IntToString(n)) == Some(n)
  {
    ParseIntOfSpelling(n, rest);
    ParseIntOfSpelling(n, []);
    assert IntToString(n) + [] == IntToString(n);
  }

  lemma ParseIntOfSpelling(n: int, rest: string)
    requires rest == [] || !IsDigit(rest[0])
    ensures ParseInt(IntToString(n) + rest) == Some(n)
  {
    if n < 0 {
      ParseIntOfMinusDigits(NatToString(-n), rest);
      NatToStringValue(-n);
    } else {
      ParseIntOfDigits(NatToString(n), rest);
      NatToStringValue(n);
    }
  }
}
