/**
 * Text operations the source takes from its languages' standard libraries:
 * Python's `str.strip`, JavaScript's `String.prototype.trim`, substring tests,
 * per-character case mapping, plain lexicographic comparison and decimal
 * formatting of a count.
 */
module Strings {

  /** The characters Python's `str.isspace` accepts, which `str.strip()` removes. */
  predicate IsPySpace(c: char) {
    var n := c as int;
    (0x09 <= n <= 0x0D) || (0x1C <= n <= 0x20) || n == 0x85 || n == 0xA0 || n == 0x1680
    || (0x2000 <= n <= 0x200A) || n == 0x2028 || n == 0x2029 || n == 0x202F
    || n == 0x205F || n == 0x3000
  }

  /** ECMAScript WhiteSpace and LineTerminator, which `String.prototype.trim` removes. */
  predicate IsJsSpace(c: char) {
    var n := c as int;
    (0x09 <= n <= 0x0D) || n == 0x20 || n == 0xA0 || n == 0x1680 || (0x2000 <= n <= 0x200A)
    || n == 0x2028 || n == 0x2029 || n == 0x202F || n == 0x205F || n == 0x3000 || n == 0xFEFF
  }

  function TrimStart(s: string, ws: char -> bool): string
  {
    if |s| > 0 && ws(s[0]) then TrimStart(s[1..], ws) else s
  }

  function TrimEnd(s: string, ws: char -> bool): string
  {
    if |s| > 0 && ws(s[|s| - 1]) then TrimEnd(s[..|s| - 1], ws) else s
  }

  /** Removes the leading and trailing characters that satisfy `ws`. */
  function TrimBy(s: string, ws: char -> bool): string
  {
    TrimEnd(TrimStart(s, ws), ws)
  }

  /** Python's `s.strip()`. */
  function Strip(s: string): string
  {
    TrimBy(s, IsPySpace)
  }

  /** JavaScript's `s.trim()`. */
  function Trim(s: string): string
  {
    TrimBy(s, IsJsSpace)
  }

  lemma {:induction false} TrimStartBounds(s: string, ws: char -> bool) returns (i: nat)
    ensures i <= |s| && TrimStart(s, ws) == s[i..]
    ensures forall k :: 0 <= k < i ==> ws(s[k])
    ensures i < |s| ==> !ws(s[i])
  {
    if |s| > 0 && ws(s[0]) {
      var i' := TrimStartBounds(s[1..], ws);
      i := i' + 1;
      assert s[1..][i'..] == s[i..];
      forall k | 0 <= k < i ensures ws(s[k]) {
        if k > 0 { assert s[k] == s[1..][k - 1]; }
      }
    } else {
      i := 0;
    }
  }

  lemma {:induction false} TrimEndBounds(s: string, ws: char -> bool) returns (j: nat)
    ensures j <= |s| && TrimEnd(s, ws) == s[..j]
    ensures forall k :: j <= k < |s| ==> ws(s[k])
    ensures 0 < j ==> !ws(s[j - 1])
  {
    if |s| > 0 && ws(s[|s| - 1]) {
      var s' := s[..|s| - 1];
      j := TrimEndBounds(s', ws);
      assert s'[..j] == s[..j];
      forall k | j <= k < |s| ensures ws(s[k]) {
        if k < |s| - 1 { assert s[k] == s'[k]; }
      }
    } else {
      j := |s|;
    }
  }

  /**
   * Trimming keeps one contiguous slice `s[i..j]`: everything before `i` and from
   * `j` on is white space, and the slice neither starts nor ends with white space.
   */
  lemma TrimBounds(s: string, ws: char -> bool) returns (i: nat, j: nat)
    ensures i <= j <= |s| && TrimBy(s, ws) == s[i..j]
    ensures forall k :: 0 <= k < i ==> ws(s[k])
    ensures forall k :: j <= k < |s| ==> ws(s[k])
    ensures i < j ==> !ws(s[i]) && !ws(s[j - 1])
  {
    i := TrimStartBounds(s, ws);
    var t := s[i..];
    var j' := TrimEndBounds(t, ws);
    j := i + j';
    assert t[..j'] == s[i..j];
    forall k | j <= k < |s| ensures ws(s[k]) {
      assert s[k] == t[k - i];
    }
    if i < j {
      assert s[i] == t[0];
      assert s[j - 1] == t[j' - 1];
    }
  }

  /** A string trims to nothing exactly when all of its characters are white space. */
  lemma TrimEmptyIff(s: string, ws: char -> bool)
    ensures TrimBy(s, ws) == [] <==> forall k :: 0 <= k < |s| ==> ws(s[k])
  {
    var i, j := TrimBounds(s, ws);
    if TrimBy(s, ws) == [] {
      assert i == j;
    } else {
      assert i < j && !ws(s[i]);
    }
  }

  /** Trimming an already trimmed string changes nothing. */
  lemma TrimIdempotent(s: string, ws: char -> bool)
    ensures TrimBy(TrimBy(s, ws), ws) == TrimBy(s, ws)
  {
    var i, j := TrimBounds(s, ws);
    var r := TrimBy(s, ws);
    if r != [] {
      assert r[0] == s[i] && r[|r| - 1] == s[j - 1];
      assert TrimStart(r, ws) == r;
      assert TrimEnd(r, ws) == r;
    }
  }

  /** Applies a per-character case map (an abstraction of the locale rules). */
  function MapChars(s: string, f: char -> char): (r: string)
    ensures |r| == |s|
    ensures forall k :: 0 <= k < |s| ==> r[k] == f(s[k])
  {
    seq(|s|, k requires 0 <= k < |s| => f(s[k]))
  }

  /** JavaScript's `s.startsWith(p)`. */
  predicate IsPrefix(p: string, s: string) {
    |p| <= |s| && s[..|p|] == p
  }

  /** JavaScript's `s.endsWith(p)`. */
  predicate IsSuffix(p: string, s: string) {
    |p| <= |s| && s[|s| - |p|..] == p
  }

  /** Python's `p in s` and JavaScript's `s.includes(p)`. */
  predicate Contains(s: string, p: string)
    decreases |s|
  {
    IsPrefix(p, s) || (|s| > 0 && Contains(s[1..], p))
  }

  /** `s` contains `p` exactly when `p` starts at some position of `s`. */
  lemma {:induction false} ContainsAt(s: string, p: string)
    ensures Contains(s, p) <==> exists i :: 0 <= i <= |s| && IsPrefix(p, s[i..])
  {
    if IsPrefix(p, s) {
      assert s[0..] == s;
    } else if |s| > 0 {
      ContainsAt(s[1..], p);
      if exists i :: 0 <= i <= |s| && IsPrefix(p, s[i..]) {
        var i :| 0 <= i <= |s| && IsPrefix(p, s[i..]);
        assert i != 0 by { assert s[0..] == s; }
        assert s[1..][i - 1..] == s[i..];
      }
      if Contains(s[1..], p) {
        var i' :| 0 <= i' <= |s| - 1 && IsPrefix(p, s[1..][i'..]);
        assert s[1..][i'..] == s[i' + 1..];
      }
    } else {
      assert forall i :: 0 <= i <= |s| ==> s[i..] == s;
    }
  }

  /** The empty string is contained in every string. */
  lemma EmptyContained(s: string)
    ensures Contains(s, "")
  {
    assert IsPrefix("", s);
  }

  /** A prefix and a suffix are both substrings. */
  lemma PrefixSuffixContained(p: string, s: string)
    ensures IsPrefix(p, s) ==> Contains(s, p)
    ensures IsSuffix(p, s) ==> Contains(s, p)
  {
    if IsSuffix(p, s) {
      ContainsAt(s, p);
      var i := |s| - |p|;
      assert s[i..][..|p|] == p;
      assert IsPrefix(p, s[i..]);
    }
  }

  /** Plain lexicographic order on strings, by character code. */
  predicate LexLe(a: string, b: string)
    decreases |a|
  {
    a == [] || (b != [] && (a[0] < b[0] || (a[0] == b[0] && LexLe(a[1..], b[1..]))))
  }

  lemma {:induction false} LexReflexive(a: string)
    ensures LexLe(a, a)
  {
    if a != [] { LexReflexive(a[1..]); }
  }

  lemma {:induction false} LexTotal(a: string, b: string)
    ensures LexLe(a, b) || LexLe(b, a)
  {
    if a != [] && b != [] && a[0] == b[0] { LexTotal(a[1..], b[1..]); }
  }

  lemma {:induction false} LexAntisymmetric(a: string, b: string)
    requires LexLe(a, b) && LexLe(b, a)
    ensures a == b
  {
    if a != [] {
      LexAntisymmetric(a[1..], b[1..]);
      assert a == [a[0]] + a[1..] && b == [b[0]] + b[1..];
    }
  }

  lemma {:induction false} LexTransitive(a: string, b: string, c: string)
    requires LexLe(a, b) && LexLe(b, c)
    ensures LexLe(a, c)
  {
    if a != [] && a[0] == b[0] && b[0] == c[0] {
      LexTransitive(a[1..], b[1..], c[1..]);
    }
  }

  /**
   * Comparing two concatenations whose first parts have equal length compares the
   * first parts, and the second parts only when the first parts are equal.
   */
  lemma {:induction false} LexAppend(a1: string, b1: string, a2: string, b2: string)
    requires |a1| == |a2|
    ensures LexLe(a1 + b1, a2 + b2) <==> (a1 != a2 && LexLe(a1, a2)) || (a1 == a2 && LexLe(b1, b2))
  {
    if a1 != [] {
      assert (a1 + b1)[0] == a1[0] && (a2 + b2)[0] == a2[0];
      assert (a1 + b1)[1..] == a1[1..] + b1 && (a2 + b2)[1..] == a2[1..] + b2;
      if a1[0] == a2[0] {
        LexAppend(a1[1..], b1, a2[1..], b2);
        assert a1 == [a1[0]] + a1[1..] && a2 == [a2[0]] + a2[1..];
        assert (a1 == a2) == (a1[1..] == a2[1..]);
        assert LexLe(a1 + b1, a2 + b2) == LexLe(a1[1..] + b1, a2[1..] + b2);
        assert LexLe(a1, a2) == LexLe(a1[1..], a2[1..]);
      } else {
        assert a1 != a2;
        assert LexLe(a1 + b1, a2 + b2) == (a1[0] < a2[0]);
        assert LexLe(a1, a2) == (a1[0] < a2[0]);
      }
    } else {
      assert a1 + b1 == b1 && a2 + b2 == b2;
    }
  }

  predicate IsDigit(c: char) {
    '0' <= c <= '9'
  }

  function DigitChar(d: nat): (c: char)
    requires d < 10
    ensures IsDigit(c)
  {
    ('0' as int + d) as char
  }

  function DigitValue(c: char): nat
  {
    if IsDigit(c) then c as int - '0' as int else 0
  }

  /** Python's `str(n)` for a count: decimal digits, most significant first. */
  function NatToString(n: nat): (r: string)
    ensures |r| >= 1 && forall k :: 0 <= k < |r| ==> IsDigit(r[k])
    ensures r[0] == '0' ==> n == 0
  {
    if n < 10 then [DigitChar(n)] else NatToString(n / 10) + [DigitChar(n % 10)]
  }

  /** The number a string of decimal digits denotes. */
  function DigitsValue(s: string): nat
  {
    if s == [] then 0 else DigitsValue(s[..|s| - 1]) * 10 + DigitValue(s[|s| - 1])
  }

  /** Reading back the formatted count gives the count. */
  lemma {:induction false} DecimalRoundTrip(n: nat)
    ensures DigitsValue(NatToString(n)) == n
  {
    if n >= 10 {
      DecimalRoundTrip(n / 10);
      var r := NatToString(n);
      assert r[..|r| - 1] == NatToString(n / 10);
    }
  }
}
