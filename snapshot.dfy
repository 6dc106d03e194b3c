/**
 * Names of the daily result files. The aggregator writes `<YYMMDD>_result.json`
 * from the local date; the viewer recognises names of the shape
 * `\d{6}_result\.json` in a directory listing and orders them newest first.
 */
module Snapshot {
  import opened Strings

  /** A calendar date as Python's `datetime` holds it. */
  datatype Date = Date(year: int, month: int, day: int)

  predicate ValidDate(d: Date) {
    1 <= d.year <= 9999 && 1 <= d.month <= 12 && 1 <= d.day <= 31
  }

  function TwoDigits(n: nat): (r: string)
    requires n < 100
  {
    [DigitChar(n / 10), DigitChar(n % 10)]
  }

  /** `strftime("%y%m%d")`: two-digit year within the century, month, day. */
  function Stamp(d: Date): (r: string)
    requires ValidDate(d)
    ensures |r| == 6 && forall k :: 0 <= k < 6 ==> IsDigit(r[k])
  {
    TwoDigits(d.year % 100) + TwoDigits(d.month) + TwoDigits(d.day)
  }

  const ResultSuffix: string := "_result.json"

  /** The file name the aggregator gives the result of day `d`. */
  function ResultName(d: Date): string
    requires ValidDate(d)
  {
    Stamp(d) + ResultSuffix
  }

  /** One match of the viewer's pattern `\d{6}_result\.json`. */
  predicate IsResultName(x: string) {
    |x| == 18 && (forall k :: 0 <= k < 6 ==> IsDigit(x[k])) && x[6..] == ResultSuffix
  }

  /** The day as a number that orders days of one century chronologically. */
  function DateKey(d: Date): int {
    (d.year % 100) * 10000 + d.month * 100 + d.day
  }

  /** Every name the aggregator writes is one the viewer recognises. */
  lemma ResultNameRecognised(d: Date)
    requires ValidDate(d)
    ensures IsResultName(ResultName(d))
  {
    var x := ResultName(d);
    assert x[6..] == ResultSuffix;
    assert forall k :: 0 <= k < 6 ==> x[k] == Stamp(d)[k];
  }

  lemma TwoDigitsOrder(x: nat, y: nat)
    requires x < 100 && y < 100
    ensures LexLe(TwoDigits(x), TwoDigits(y)) <==> x <= y
  {
    var a, b := TwoDigits(x), TwoDigits(y);
    assert a[1..] == [a[1]] && b[1..] == [b[1]];
    assert [a[1]][1..] == [] && [b[1]][1..] == [];
    assert LexLe([a[1]][1..], [b[1]][1..]);
    assert LexLe(a[1..], b[1..]) <==> a[1] <= b[1];
    assert LexLe(a, b) <==> a[0] < b[0] || (a[0] == b[0] && a[1] <= b[1]);
    assert x == (x / 10) * 10 + x % 10 && y == (y / 10) * 10 + y % 10;
  }

  /**
   * Comparing two result names as plain strings compares their days: the
   * lexicographic order of names is the chronological order within a century.
   */
  lemma ResultNameOrder(d1: Date, d2: Date)
    requires ValidDate(d1) && ValidDate(d2)
    ensures LexLe(ResultName(d1), ResultName(d2)) <==> DateKey(d1) <= DateKey(d2)
  {
    var y1, m1, e1 := TwoDigits(d1.year % 100), TwoDigits(d1.month), TwoDigits(d1.day);
    var y2, m2, e2 := TwoDigits(d2.year % 100), TwoDigits(d2.month), TwoDigits(d2.day);
    assert ResultName(d1) == y1 + (m1 + (e1 + ResultSuffix));
    assert ResultName(d2) == y2 + (m2 + (e2 + ResultSuffix));
    LexAppend(y1, m1 + (e1 + ResultSuffix), y2, m2 + (e2 + ResultSuffix));
    LexAppend(m1, e1 + ResultSuffix, m2, e2 + ResultSuffix);
    LexAppend(e1, ResultSuffix, e2, ResultSuffix);
    LexReflexive(ResultSuffix);
    TwoDigitsOrder(d1.year % 100, d2.year % 100);
    TwoDigitsOrder(d1.month, d2.month);
    TwoDigitsOrder(d1.day, d2.day);
    TwoDigitsInjective(d1.year % 100, d2.year % 100);
    TwoDigitsInjective(d1.month, d2.month);
    TwoDigitsInjective(d1.day, d2.day);
  }

  lemma TwoDigitsInjective(x: nat, y: nat)
    requires x < 100 && y < 100
    ensures TwoDigits(x) == TwoDigits(y) <==> x == y
  {
    if TwoDigits(x) == TwoDigits(y) {
      assert TwoDigits(x)[0] == TwoDigits(y)[0] && TwoDigits(x)[1] == TwoDigits(y)[1];
      assert x == (x / 10) * 10 + x % 10 && y == (y / 10) * 10 + y % 10;
    }
  }

  /** A result name identifies its day within the century. */
  lemma ResultNameInjective(d1: Date, d2: Date)
    requires ValidDate(d1) && ValidDate(d2)
    ensures ResultName(d1) == ResultName(d2) <==>
              d1.year % 100 == d2.year % 100 && d1.month == d2.month && d1.day == d2.day
  {
    if ResultName(d1) == ResultName(d2) {
      LexReflexive(ResultName(d1));
      ResultNameOrder(d1, d2);
      ResultNameOrder(d2, d1);
      DateKeyInjective(d1, d2);
    } else {
      assert Stamp(d1) != Stamp(d2);
    }
  }

  lemma DateKeyInjective(d1: Date, d2: Date)
    requires ValidDate(d1) && ValidDate(d2) && DateKey(d1) == DateKey(d2)
    ensures d1.year % 100 == d2.year % 100 && d1.month == d2.month && d1.day == d2.day
  {
    var y1, y2 := d1.year % 100, d2.year % 100;
    assert (y1 - y2) * 10000 == (d2.month - d1.month) * 100 + (d2.day - d1.day);
    assert y1 == y2;
    assert d1.month == d2.month;
  }
}
