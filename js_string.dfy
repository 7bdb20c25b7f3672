/**
 * The few JavaScript string operations the core relies on, over `seq<char>`:
 * Number-to-string of a non-negative integer, padStart, parseInt,
 * String.prototype.split, toLowerCase, replace(/_/g, ' ') and the test of a
 * literal regular expression (substring search).
 */
module JsString {
  import opened Common

  predicate IsDigit(c: char) {
    '0' <= c <= '9'
  }

  predicate AllDigits(s: string) {
    forall i :: 0 <= i < |s| ==> IsDigit(s[i])
  }

  function DigitChar(d: int): (c: char)
    requires 0 <= d < 10
    ensures IsDigit(c)
  {
    (48 + d) as char
  }

  function DigitValue(c: char): (d: int)
    requires IsDigit(c)
    ensures 0 <= d < 10
  {
    c as int - 48
  }

  /** The value of a string of decimal digits, most significant first. */
  function DigitsValue(s: string): (n: nat)
    requires AllDigits(s)
  {
    if s == [] then 0 else 10 * DigitsValue(s[..|s| - 1]) + DigitValue(s[|s| - 1])
  }

  /** Number.prototype.toString() of a non-negative integer: its decimal digits, no leading zero. */
  function DecimalString(n: nat): (r: string)
    ensures 0 < |r| && AllDigits(r)
    ensures DigitsValue(r) == n
    ensures n > 0 ==> r[0] != '0'
    ensures n < 10 ==> |r| == 1
    ensures 10 <= n < 100 ==> |r| == 2
    decreases n
  {
    if n < 10 then [DigitChar(n)]
    else
      var r := DecimalString(n / 10) + [DigitChar(n % 10)];
      assert r[..|r| - 1] == DecimalString(n / 10);
      r
  }

  function Repeat(c: char, k: nat): (r: string)
    ensures |r| == k && forall i :: 0 <= i < k ==> r[i] == c
  {
    if k == 0 then [] else [c] + Repeat(c, k - 1)
  }

  /** String.prototype.padStart(width, fill) with a one-character fill. */
  function PadStart(s: string, width: nat, fill: char): (r: string)
    ensures |s| >= width ==> r == s
    ensures |s| < width ==> |r| == width && r[width - |s|..] == s
    ensures |s| < width ==> forall i :: 0 <= i < width - |s| ==> r[i] == fill
  {
    if |s| >= width then s else Repeat(fill, width - |s|) + s
  }

  /** ToZeroPaddedDecimalString(n, width) of ECMA-262 (section 7.1.17 of the 2023 edition and later). */
  function ZeroPadded(n: nat, width: nat): (r: string)
    ensures AllDigits(r) && |r| >= width && |r| > 0
  {
    PadStart(DecimalString(n), width, '0')
  }

  /** Leading zeros do not change the value of a digit string. */
  lemma {:induction false} LeadingZeros(k: nat, s: string)
    requires AllDigits(s)
    ensures AllDigits(Repeat('0', k) + s)
    ensures DigitsValue(Repeat('0', k) + s) == DigitsValue(s)
    decreases |s|
  {
    var z := Repeat('0', k);
    if s == [] {
      assert z + s == z;
      AllZeros(k);
    } else {
      LeadingZeros(k, s[..|s| - 1]);
      assert (z + s)[..|z + s| - 1] == z + s[..|s| - 1];
    }
  }

  lemma {:induction false} AllZeros(k: nat)
    ensures AllDigits(Repeat('0', k)) && DigitsValue(Repeat('0', k)) == 0
  {
    if k > 0 {
      AllZeros(k - 1);
      var z := Repeat('0', k);
      assert z[..k - 1] == Repeat('0', k - 1);
    }
  }

  /** Two-digit padding of a number below 100 is exactly two digits that read back as the number. */
  lemma ZeroPaddedValue(n: nat, width: nat)
    ensures DigitsValue(ZeroPadded(n, width)) == n
    ensures n < 100 && width == 2 ==> |ZeroPadded(n, width)| == 2
  {
    var d := DecimalString(n);
    if |d| < width {
      LeadingZeros(width - |d|, d);
    }
  }

  /** The longest prefix of decimal digits. */
  function LeadingDigits(s: string): (r: string)
    ensures |r| <= |s| && r == s[..|r|] && AllDigits(r)
    ensures |r| < |s| ==> !IsDigit(s[|r|])
  {
    if s == [] || !IsDigit(s[0]) then [] else [s[0]] + LeadingDigits(s[1..])
  }

  /**
   * Number.parseInt(s) for a decimal string: an optional sign followed by the
   * longest run of digits; NaN (None) when there is no digit.
   */
  function ParseInt(s: string): (r: Option<int>)
    ensures r.None? <==> LeadingDigits(if 0 < |s| && s[0] in "+-" then s[1..] else s) == []
  {
    var signed := 0 < |s| && s[0] in "+-";
    var body := if signed then s[1..] else s;
    var digits := LeadingDigits(body);
    if digits == [] then None
    else
      var magnitude: int := DigitsValue(digits);
      Some(if signed && s[0] == '-' then -magnitude else magnitude)
  }

  lemma LeadingDigitsOfDigits(s: string)
    requires AllDigits(s)
    ensures LeadingDigits(s) == s
  {
  }

  /** parseInt of a non-empty digit string is its value. */
  lemma ParseIntDigits(s: string)
    requires AllDigits(s) && 0 < |s|
    ensures ParseInt(s) == Some(DigitsValue(s))
  {
    assert s[0] != '+' && s[0] != '-';
    LeadingDigitsOfDigits(s);
  }

  /** parseInt reads back a zero-padded number. */
  lemma ParseIntZeroPadded(n: nat, width: nat)
    ensures ParseInt(ZeroPadded(n, width)) == Some(n)
  {
    var s := ZeroPadded(n, width);
    LeadingDigitsOfDigits(s);
    ZeroPaddedValue(n, width);
  }

  // ---------------------------------------------------------------------
  // split and its inverse, join
  // ---------------------------------------------------------------------

  /** Array.prototype.join(sep) of a non-empty list of strings. */
  function Join(parts: seq<string>, sep: char): string
    requires 0 < |parts|
  {
    if |parts| == 1 then parts[0] else parts[0] + [sep] + Join(parts[1..], sep)
  }

  /** String.prototype.split(sep) with a one-character separator. */
  function Split(s: string, sep: char): (parts: seq<string>)
    ensures 0 < |parts|
    ensures forall i :: 0 <= i < |parts| ==> sep !in parts[i]
    ensures Join(parts, sep) == s
  {
    if s == [] then [[]]
    else
      var rest := Split(s[1..], sep);
      if s[0] == sep then
        assert ([[]] + rest)[1..] == rest;
        [[]] + rest
      else
        var parts := [[s[0]] + rest[0]] + rest[1..];
        assert parts[1..] == rest[1..];
        assert |rest| > 1 ==> Join(rest, sep) == rest[0] + [sep] + Join(rest[1..], sep);
        parts
  }

  /** A character that is neither the separator nor in any part is not in the join. */
  lemma {:induction false} JoinAvoids(parts: seq<string>, sep: char, c: char)
    requires 0 < |parts| && c != sep
    requires forall i :: 0 <= i < |parts| ==> c !in parts[i]
    ensures c !in Join(parts, sep)
    decreases |parts|
  {
    if |parts| > 1 {
      JoinAvoids(parts[1..], sep, c);
    }
  }

  /** Splitting a join of separator-free parts gives the parts back. */
  lemma {:induction false} SplitJoin(parts: seq<string>, sep: char)
    requires 0 < |parts|
    requires forall i :: 0 <= i < |parts| ==> sep !in parts[i]
    ensures Split(Join(parts, sep), sep) == parts
    decreases |parts|
  {
    if |parts| == 1 {
      SplitNoSeparator(parts[0], sep);
    } else {
      SplitJoin(parts[1..], sep);
      SplitAfterPrefix(parts[0], Join(parts[1..], sep), sep);
      assert [parts[0]] + parts[1..] == parts;
    }
  }

  lemma {:induction false} SplitNoSeparator(s: string, sep: char)
    requires sep !in s
    ensures Split(s, sep) == [s]
  {
    if s != [] {
      SplitNoSeparator(s[1..], sep);
      assert [s[0]] + s[1..] == s;
    }
  }

  lemma {:induction false} SplitAfterPrefix(x: string, y: string, sep: char)
    requires sep !in x
    ensures Split(x + [sep] + y, sep) == [x] + Split(y, sep)
  {
    var s := x + [sep] + y;
    if x == [] {
      assert s[1..] == y;
    } else {
      SplitAfterPrefix(x[1..], y, sep);
      assert s[1..] == x[1..] + [sep] + y;
      assert [x[0]] + x[1..] == x;
    }
  }

  /**
   * String.prototype.split(a + b) with a two-character separator whose first
   * character differs from its second, so occurrences never overlap.
   */
  function SplitOnPair(s: string, a: char, b: char): (parts: seq<string>)
    ensures 0 < |parts|
  {
    if s == [] then [[]]
    else if |s| >= 2 && s[0] == a && s[1] == b then [[]] + SplitOnPair(s[2..], a, b)
    else
      var rest := SplitOnPair(s[1..], a, b);
      [[s[0]] + rest[0]] + rest[1..]
  }

  lemma {:induction false} SplitOnPairNoSeparator(s: string, a: char, b: char)
    requires a !in s
    ensures SplitOnPair(s, a, b) == [s]
  {
    if s != [] {
      SplitOnPairNoSeparator(s[1..], a, b);
      assert [s[0]] + s[1..] == s;
    }
  }

  lemma {:induction false} SplitOnPairAfterPrefix(x: string, y: string, a: char, b: char)
    requires a !in x
    ensures SplitOnPair(x + [a, b] + y, a, b) == [x] + SplitOnPair(y, a, b)
  {
    var s := x + [a, b] + y;
    if x == [] {
      assert s[2..] == y;
    } else {
      SplitOnPairAfterPrefix(x[1..], y, a, b);
      assert s[1..] == x[1..] + [a, b] + y;
      assert [x[0]] + x[1..] == x;
    }
  }

  // ---------------------------------------------------------------------
  // Case, replacement and search
  // ---------------------------------------------------------------------

  function ToLowerChar(c: char): char {
    if 'A' <= c <= 'Z' then (c as int + 32) as char else c
  }

  /** String.prototype.toLowerCase() on ASCII letters. */
  function ToLowerAscii(s: string): (r: string)
    ensures |r| == |s| && forall i :: 0 <= i < |s| ==> r[i] == ToLowerChar(s[i])
  {
    if s == [] then [] else [ToLowerChar(s[0])] + ToLowerAscii(s[1..])
  }

  /** Lower-casing twice changes nothing more than lower-casing once. */
  lemma ToLowerAsciiIdempotent(s: string)
    ensures ToLowerAscii(ToLowerAscii(s)) == ToLowerAscii(s)
  {
    var once := ToLowerAscii(s);
    assert forall i :: 0 <= i < |s| ==> ToLowerChar(once[i]) == once[i];
  }

  /** s.replace(/x/g, y) for single characters x and y. */
  function ReplaceAll(s: string, x: char, y: char): (r: string)
    ensures |r| == |s|
    ensures forall i :: 0 <= i < |s| ==> r[i] == (if s[i] == x then y else s[i])
  {
    if s == [] then [] else [if s[0] == x then y else s[0]] + ReplaceAll(s[1..], x, y)
  }

  /** Replacing a character that does not occur leaves the string as it is. */
  lemma ReplaceAllAbsent(s: string, x: char, y: char)
    requires x !in s
    ensures ReplaceAll(s, x, y) == s
  {
    assert forall i :: 0 <= i < |s| ==> s[i] != x;
  }

  /** /p/.test(s) for a pattern p without metacharacters: p occurs in s. */
  predicate Contains(s: string, p: string)
    decreases |s|
  {
    (|p| <= |s| && s[..|p|] == p) || (0 < |s| && Contains(s[1..], p))
  }

  /** p occurs in s at position i. */
  predicate OccursAt(s: string, p: string, i: int) {
    0 <= i && i + |p| <= |s| && s[i..i + |p|] == p
  }

  /** The recursive search finds exactly the positions where p occurs. */
  lemma {:induction false} ContainsIff(s: string, p: string)
    ensures Contains(s, p) <==> exists i :: OccursAt(s, p, i)
    decreases |s|
  {
    if 0 < |s| {
      ContainsIff(s[1..], p);
      forall i | OccursAt(s[1..], p, i)
        ensures OccursAt(s, p, i + 1)
      {
        assert s[1..][i..i + |p|] == s[i + 1..i + 1 + |p|];
      }
      if |p| <= |s| && s[..|p|] == p {
        assert OccursAt(s, p, 0);
      } else if Contains(s[1..], p) {
        var j :| OccursAt(s[1..], p, j);
        assert OccursAt(s, p, j + 1);
      }
      if exists i :: OccursAt(s, p, i) {
        var i :| OccursAt(s, p, i);
        if i > 0 {
          assert s[1..][i - 1..i - 1 + |p|] == s[i..i + |p|];
          assert OccursAt(s[1..], p, i - 1);
        } else {
          assert s[..|p|] == p;
        }
      }
    } else {
      if exists i :: OccursAt(s, p, i) {
        var i :| OccursAt(s, p, i);
        assert s[..|p|] == s[i..i + |p|];
      }
      if Contains(s, p) {
        assert OccursAt(s, p, 0);
      }
    }
  }
}
