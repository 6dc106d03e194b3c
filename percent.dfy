/**
 * Percent-encoding of URL components over their UTF-8 bytes (section 2.1 of
 * RFC 3986), as Python's `urllib.parse.quote` does it when given bytes: letters,
 * digits and `_.-~` always pass through, so do the ASCII characters of `safe`,
 * and every other byte becomes `%XX` with upper-case hexadecimal digits.
 */
module PercentEncoding {
  import opened Wrappers

  newtype byte = b: int | 0 <= b < 256

  /** UTF-8 encoding of one Unicode scalar value (section 3 of RFC 3629). */
  function CharUtf8(c: char): (bs: seq<byte>)
    ensures 1 <= |bs| <= 4
    ensures |bs| == 1 <==> c as int < 0x80
    ensures |bs| == 1 ==> bs[0] as int == c as int
    ensures |bs| > 1 ==> forall k :: 0 <= k < |bs| ==> bs[k] >= 0x80
  {
    var n := c as int;
    if n < 0x80 then [n as byte]
    else if n < 0x800 then [(0xC0 + n / 64) as byte, (0x80 + n % 64) as byte]
    else if n < 0x10000 then
      [(0xE0 + n / 4096) as byte, (0x80 + (n / 64) % 64) as byte, (0x80 + n % 64) as byte]
    else
      [(0xF0 + n / 262144) as byte, (0x80 + (n / 4096) % 64) as byte,
       (0x80 + (n / 64) % 64) as byte, (0x80 + n % 64) as byte]
  }

  /** Python's `s.encode('utf8')`. */
  function Utf8(s: string): seq<byte>
  {
    if s == [] then [] else CharUtf8(s[0]) + Utf8(s[1..])
  }

  predicate IsCont(b: byte) {
    0x80 <= b < 0xC0
  }

  function ScalarChar(n: int): Option<char>
  {
    if 0 <= n < 0xD800 || 0xE000 <= n < 0x110000 then Some(n as char) else None
  }

  /**
   * Decodes the first character of a UTF-8 byte string, rejecting truncated and
   * overlong sequences, surrogates and values past U+10FFFF; gives the character
   * and the number of bytes it took.
   */
  function DecodeChar(bs: seq<byte>): Option<(char, nat)>
    requires |bs| > 0
  {
    var b0 := bs[0] as int;
    if b0 < 0x80 then Some((b0 as char, 1))
    else if 0xC0 <= b0 < 0xE0 && |bs| >= 2 && IsCont(bs[1]) then
      var n := (b0 - 0xC0) * 64 + (bs[1] as int - 0x80);
      if n < 0x80 then None
      else match ScalarChar(n) case Some(c) => Some((c, 2)) case None => None
    else if 0xE0 <= b0 < 0xF0 && |bs| >= 3 && IsCont(bs[1]) && IsCont(bs[2]) then
      var n := (b0 - 0xE0) * 4096 + (bs[1] as int - 0x80) * 64 + (bs[2] as int - 0x80);
      if n < 0x800 then None
      else match ScalarChar(n) case Some(c) => Some((c, 3)) case None => None
    else if 0xF0 <= b0 < 0xF8 && |bs| >= 4 && IsCont(bs[1]) && IsCont(bs[2]) && IsCont(bs[3]) then
      var n := (b0 - 0xF0) * 262144 + (bs[1] as int - 0x80) * 4096
               + (bs[2] as int - 0x80) * 64 + (bs[3] as int - 0x80);
      if n < 0x10000 then None
      else match ScalarChar(n) case Some(c) => Some((c, 4)) case None => None
    else None
  }

  /** Python's `bs.decode('utf8')`, with `None` where it would raise. */
  function DecodeUtf8(bs: seq<byte>): Option<string>
    decreases |bs|
  {
    if bs == [] then Some([])
    else match DecodeChar(bs)
      case None => None
      case Some((c, len)) =>
        if len == 0 || len > |bs| then None
        else match DecodeUtf8(bs[len..])
          case None => None
          case Some(rest) => Some([c] + rest)
  }

  lemma DecodeTwo(c: char, rest: seq<byte>)
    requires 0x80 <= c as int < 0x800
    ensures DecodeChar(CharUtf8(c) + rest) == Some((c, 2))
  {
    var n := c as int;
    var bs := CharUtf8(c) + rest;
    var q, r := n / 64, n % 64;
    assert bs[0] as int == 0xC0 + q && bs[1] as int == 0x80 + r;
    assert q * 64 + r == n;
  }

  lemma DecodeThree(c: char, rest: seq<byte>)
    requires 0x800 <= c as int < 0x10000
    ensures DecodeChar(CharUtf8(c) + rest) == Some((c, 3))
  {
    var n := c as int;
    var bs := CharUtf8(c) + rest;
    var q1, r1 := n / 64, n % 64;
    var q2, r2 := q1 / 64, q1 % 64;
    assert n / 4096 == q2;
    assert bs[0] as int == 0xE0 + q2 && bs[1] as int == 0x80 + r2 && bs[2] as int == 0x80 + r1;
    assert q2 * 4096 + r2 * 64 + r1 == n;
  }

  lemma DecodeFour(c: char, rest: seq<byte>)
    requires 0x10000 <= c as int
    ensures DecodeChar(CharUtf8(c) + rest) == Some((c, 4))
  {
    var n := c as int;
    var bs := CharUtf8(c) + rest;
    var q1, r1 := n / 64, n % 64;
    var q2, r2 := q1 / 64, q1 % 64;
    var q3, r3 := q2 / 64, q2 % 64;
    assert n / 4096 == q2;
    assert n / 262144 == q3;
    assert bs[0] as int == 0xF0 + q3 && bs[1] as int == 0x80 + r3;
    assert bs[2] as int == 0x80 + r2 && bs[3] as int == 0x80 + r1;
    assert q3 * 262144 + r3 * 4096 + r2 * 64 + r1 == n;
  }

  /** Decoding the encoding of one character gives that character back. */
  lemma DecodeCharUtf8(c: char, rest: seq<byte>)
    ensures DecodeChar(CharUtf8(c) + rest) == Some((c, |CharUtf8(c)|))
  {
    var n := c as int;
    if n < 0x80 {
    } else if n < 0x800 {
      DecodeTwo(c, rest);
    } else if n < 0x10000 {
      DecodeThree(c, rest);
    } else {
      DecodeFour(c, rest);
    }
  }

  /** UTF-8 loses nothing: decoding the encoding of a string gives the string. */
  lemma {:induction false} Utf8RoundTrip(s: string)
    ensures DecodeUtf8(Utf8(s)) == Some(s)
  {
    if s != [] {
      var head := CharUtf8(s[0]);
      var tail := Utf8(s[1..]);
      DecodeCharUtf8(s[0], tail);
      assert (head + tail)[|head|..] == tail;
      Utf8RoundTrip(s[1..]);
      assert s == [s[0]] + s[1..];
    }
  }

  /** Python's always-safe set: ASCII letters, digits and `_.-~`. */
  predicate AlwaysSafe(b: byte) {
    (0x41 <= b <= 0x5A) || (0x61 <= b <= 0x7A) || (0x30 <= b <= 0x39)
    || b == 0x5F || b == 0x2E || b == 0x2D || b == 0x7E
  }

  /** Whether a byte passes through unencoded; non-ASCII `safe` entries are ignored. */
  predicate PassesThrough(b: byte, safe: set<byte>) {
    AlwaysSafe(b) || (b in safe && b < 0x80)
  }

  function HexDigit(d: int): (c: char)
    requires 0 <= d < 16
  {
    "0123456789ABCDEF"[d]
  }

  predicate IsHex(c: char) {
    ('0' <= c <= '9') || ('A' <= c <= 'F') || ('a' <= c <= 'f')
  }

  function HexValue(c: char): int
  {
    if '0' <= c <= '9' then c as int - '0' as int
    else if 'A' <= c <= 'F' then c as int - 'A' as int + 10
    else if 'a' <= c <= 'f' then c as int - 'a' as int + 10
    else 0
  }

  lemma HexDigitValue(d: int)
    requires 0 <= d < 16
    ensures IsHex(HexDigit(d)) && HexValue(HexDigit(d)) == d
  {
  }

  function QuoteByte(b: byte, safe: set<byte>): string
  {
    if PassesThrough(b, safe) then [b as int as char]
    else ['%', HexDigit(b as int / 16), HexDigit(b as int % 16)]
  }

  /** The characters a quoted string is made of. */
  predicate IsQuotedChar(c: char, safe: set<byte>) {
    c as int < 0x80 && (PassesThrough(c as int as byte, safe) || c == '%' || IsHex(c))
  }

  /** Python's `quote(bs, safe)` for a byte string `bs`. The result is ASCII. */
  function Quote(bs: seq<byte>, safe: set<byte>): (r: string)
    ensures forall k :: 0 <= k < |r| ==> IsQuotedChar(r[k], safe)
  {
    if bs == [] then [] else QuoteByte(bs[0], safe) + Quote(bs[1..], safe)
  }

  /** Python's `unquote_to_bytes`: `%XX` becomes its byte, other characters their UTF-8. */
  function Unquote(s: string): seq<byte>
    decreases |s|
  {
    if s == [] then []
    else if s[0] == '%' && |s| >= 3 && IsHex(s[1]) && IsHex(s[2]) then
      [(HexValue(s[1]) * 16 + HexValue(s[2])) as byte] + Unquote(s[3..])
    else CharUtf8(s[0]) + Unquote(s[1..])
  }

  lemma UnquoteQuoteByte(b: byte, safe: set<byte>, t: string)
    requires 0x25 !in safe
    ensures Unquote(QuoteByte(b, safe) + t) == [b] + Unquote(t)
  {
    var q := QuoteByte(b, safe);
    if PassesThrough(b, safe) {
      assert (q + t)[0] == b as int as char && (q + t)[1..] == t;
    } else {
      HexDigitValue(b as int / 16);
      HexDigitValue(b as int % 16);
      assert (q + t)[3..] == t;
    }
  }

  /** Percent-decoding undoes percent-encoding whenever `%` itself is not safe. */
  lemma {:induction false} UnquoteQuote(bs: seq<byte>, safe: set<byte>)
    requires 0x25 !in safe
    ensures Unquote(Quote(bs, safe)) == bs
  {
    if bs != [] {
      UnquoteQuoteByte(bs[0], safe, Quote(bs[1..], safe));
      UnquoteQuote(bs[1..], safe);
      assert bs == [bs[0]] + bs[1..];
    }
  }

  /** `/` */
  const PathSafe: set<byte> := {0x2F}
  /** `&` and `=` */
  const QuerySafe: set<byte> := {0x26, 0x3D}

  /** `quote(path.encode('utf8'), safe='/')` (aggregator.py line 64). */
  function QuotePath(path: string): string
  {
    Quote(Utf8(path), PathSafe)
  }

  /** `quote(query.encode('utf8'), safe='&=')` (aggregator.py line 65). */
  function QuoteQuery(query: string): string
  {
    Quote(Utf8(query), QuerySafe)
  }

  /** An encoded component is ASCII and decodes back to the original text. */
  lemma ComponentRoundTrip(s: string)
    ensures forall k :: 0 <= k < |QuotePath(s)| ==> QuotePath(s)[k] as int < 0x80
    ensures forall k :: 0 <= k < |QuoteQuery(s)| ==> QuoteQuery(s)[k] as int < 0x80
    ensures DecodeUtf8(Unquote(QuotePath(s))) == Some(s)
    ensures DecodeUtf8(Unquote(QuoteQuery(s))) == Some(s)
  {
    UnquoteQuote(Utf8(s), PathSafe);
    UnquoteQuote(Utf8(s), QuerySafe);
    Utf8RoundTrip(s);
  }

  lemma {:induction false} QuoteAppend(a: seq<byte>, b: seq<byte>, safe: set<byte>)
    ensures Quote(a + b, safe) == Quote(a, safe) + Quote(b, safe)
  {
    if a != [] {
      assert (a + b)[0] == a[0] && (a + b)[1..] == a[1..] + b;
      QuoteAppend(a[1..], b, safe);
    } else {
      assert a + b == b;
    }
  }

  lemma {:induction false} Utf8Append(s: string, t: string)
    ensures Utf8(s + t) == Utf8(s) + Utf8(t)
  {
    if s != [] {
      assert (s + t)[0] == s[0] && (s + t)[1..] == s[1..] + t;
      Utf8Append(s[1..], t);
    } else {
      assert s + t == t;
    }
  }

  /**
   * Character by character, for any set of safe bytes: an ASCII character that
   * passes through is kept as it is; any other character becomes one `%XX`
   * triple per UTF-8 byte.
   */
  lemma QuoteChar(c: char, t: string, safe: set<byte>)
    ensures (c as int < 0x80 && PassesThrough(c as int as byte, safe)) ==>
              Quote(Utf8([c] + t), safe) == [c] + Quote(Utf8(t), safe)
    ensures !(c as int < 0x80 && PassesThrough(c as int as byte, safe)) ==>
              |Quote(Utf8([c] + t), safe)| == 3 * |CharUtf8(c)| + |Quote(Utf8(t), safe)| &&
              Quote(Utf8([c] + t), safe)[0] == '%'
  {
    Utf8Append([c], t);
    assert Utf8([c]) == CharUtf8(c) by { assert [c][1..] == []; }
    QuoteAppend(CharUtf8(c), Utf8(t), safe);
    var bs := CharUtf8(c);
    if |bs| == 1 {
      assert Quote(bs, safe) == QuoteByte(bs[0], safe) by { assert bs[1..] == []; }
    } else {
      assert forall k :: 0 <= k < |bs| ==> !PassesThrough(bs[k], safe);
      EscapedLength(bs, safe);
      assert Quote(bs, safe)[0] == QuoteByte(bs[0], safe)[0];
    }
  }

  /** The path: an ASCII letter, digit, `_.-~` or `/` is kept; any other character is escaped byte by byte. */
  lemma QuotePathChar(c: char, t: string)
    ensures (c as int < 0x80 && PassesThrough(c as int as byte, PathSafe)) ==>
              QuotePath([c] + t) == [c] + QuotePath(t)
    ensures !(c as int < 0x80 && PassesThrough(c as int as byte, PathSafe)) ==>
              |QuotePath([c] + t)| == 3 * |CharUtf8(c)| + |QuotePath(t)| && QuotePath([c] + t)[0] == '%'
  {
    QuoteChar(c, t, PathSafe);
  }

  /** The query: an ASCII letter, digit, `_.-~`, `&` or `=` is kept; any other character is escaped byte by byte. */
  lemma QuoteQueryChar(c: char, t: string)
    ensures (c as int < 0x80 && PassesThrough(c as int as byte, QuerySafe)) ==>
              QuoteQuery([c] + t) == [c] + QuoteQuery(t)
    ensures !(c as int < 0x80 && PassesThrough(c as int as byte, QuerySafe)) ==>
              |QuoteQuery([c] + t)| == 3 * |CharUtf8(c)| + |QuoteQuery(t)| && QuoteQuery([c] + t)[0] == '%'
  {
    QuoteChar(c, t, QuerySafe);
  }

  /**
   * The two safe sets differ: the path keeps `/` and escapes `&` and `=`; the
   * query keeps `&` and `=` and escapes `/`.
   */
  lemma {:induction false} SeparatorsKept(t: string)
    ensures QuotePath("/" + t) == "/" + QuotePath(t)
    ensures QuotePath("&" + t) == "%26" + QuotePath(t) && QuotePath("=" + t) == "%3D" + QuotePath(t)
    ensures QuoteQuery("/" + t) == "%2F" + QuoteQuery(t)
    ensures QuoteQuery("&" + t) == "&" + QuoteQuery(t) && QuoteQuery("=" + t) == "=" + QuoteQuery(t)
  {
    Utf8Append("/", t);
    Utf8Append("&", t);
    Utf8Append("=", t);
    assert Utf8("/") == [0x2F] && Utf8("&") == [0x26] && Utf8("=") == [0x3D];
    QuoteAppend([0x2F], Utf8(t), PathSafe);
    QuoteAppend([0x26], Utf8(t), PathSafe);
    QuoteAppend([0x3D], Utf8(t), PathSafe);
    QuoteAppend([0x2F], Utf8(t), QuerySafe);
    QuoteAppend([0x26], Utf8(t), QuerySafe);
    QuoteAppend([0x3D], Utf8(t), QuerySafe);
    assert Quote([0x2F], PathSafe) == "/" && Quote([0x26], PathSafe) == "%26" && Quote([0x3D], PathSafe) == "%3D";
    assert Quote([0x2F], QuerySafe) == "%2F" && Quote([0x26], QuerySafe) == "&" && Quote([0x3D], QuerySafe) == "=";
  }

  lemma {:induction false} EscapedLength(bs: seq<byte>, safe: set<byte>)
    requires forall k :: 0 <= k < |bs| ==> !PassesThrough(bs[k], safe)
    ensures |Quote(bs, safe)| == 3 * |bs|
  {
    if bs != [] { EscapedLength(bs[1..], safe); }
  }

  /** An already escaped `%` is escaped again: `quote` does not recognise `%XX`. */
  lemma PercentReencoded(t: string)
    ensures QuotePath("%" + t) == "%25" + QuotePath(t)
    ensures QuoteQuery("%" + t) == "%25" + QuoteQuery(t)
  {
    Utf8Append("%", t);
    assert Utf8("%") == [0x25];
    QuoteAppend([0x25], Utf8(t), PathSafe);
    QuoteAppend([0x25], Utf8(t), QuerySafe);
    assert Quote([0x25], PathSafe) == "%25";
    assert Quote([0x25], QuerySafe) == "%25";
  }
}
