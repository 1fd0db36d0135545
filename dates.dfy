/**
 * Calendar dates of content items: their chronological order, the
 * comparator the page sorts with, and the `yyyy-MM-dd` rendering together
 * with the parser that reads such a rendering back.
 */
module Dates {
  import opened Wrappers

  /** A (year, month, day) triple; `Valid` says which triples are dates that exist. */
  datatype Date = Date(year: nat, month: nat, day: nat)

  predicate IsLeapYear(y: nat)
  {
    y % 4 == 0 && (y % 100 != 0 || y % 400 == 0)
  }

  function DaysInMonth(y: nat, m: nat): (n: nat)
    requires 1 <= m <= 12
    ensures 28 <= n <= 31
    ensures m == 2 ==> (n == 29 <==> IsLeapYear(y))
  {
    if m == 2 then (if IsLeapYear(y) then 29 else 28)
    else if m == 4 || m == 6 || m == 9 || m == 11 then 30
    else 31
  }

  /** The dates a well-formed date string of the content layer denotes (year 1 onwards). */
  predicate Valid(d: Date)
  {
    1 <= d.year && 1 <= d.month <= 12 && 1 <= d.day <= DaysInMonth(d.year, d.month)
  }

  /** A date that exists: the only kind a content item can carry. */
  type CalendarDate = d: Date | Valid(d) witness Date(1970, 1, 1)

  /** `a` is strictly earlier than `b`: lexicographic on (year, month, day). */
  predicate Before(a: Date, b: Date)
  {
    a.year < b.year ||
    (a.year == b.year && (a.month < b.month || (a.month == b.month && a.day < b.day)))
  }

  /** `Before` is a strict total order on dates. */
  lemma BeforeIsStrictTotalOrder(a: Date, b: Date, c: Date)
    ensures !Before(a, a)
    ensures Before(a, b) ==> !Before(b, a)
    ensures Before(a, b) && Before(b, c) ==> Before(a, c)
    ensures a != b ==> Before(a, b) || Before(b, a)
  {
  }

  /**
   * The descending comparator: positive when `a` is earlier than `b` (so `a`
   * is placed after `b`), negative when `a` is later, zero on equal dates.
   */
  function CompareDesc(a: Date, b: Date): (c: int)
    ensures c > 0 <==> Before(a, b)
    ensures c < 0 <==> Before(b, a)
    ensures c == 0 <==> a == b
    ensures -1 <= c <= 1
  {
    if Before(a, b) then 1 else if Before(b, a) then -1 else 0
  }

  lemma CompareDescAntisymmetric(a: Date, b: Date)
    ensures CompareDesc(a, b) == -CompareDesc(b, a)
  {
  }

  predicate IsDigit(c: char)
  {
    '0' <= c <= '9'
  }

  predicate AllDigits(s: string)
  {
    forall i :: 0 <= i < |s| ==> IsDigit(s[i])
  }

  function DigitChar(v: nat): (c: char)
    requires v < 10
    ensures IsDigit(c)
  {
    "0123456789"[v]
  }

  function DigitValue(c: char): (v: nat)
    requires IsDigit(c)
    ensures v < 10
  {
    c as int - '0' as int
  }

  lemma DigitValueOfDigitChar(v: nat)
    requires v < 10
    ensures DigitValue(DigitChar(v)) == v
  {
  }

  function Pow10(w: nat): (p: nat)
    ensures p >= 1
  {
    if w == 0 then 1 else 10 * Pow10(w - 1)
  }

  /**
   * The decimal digits of `n`, with leading zeros up to at least `width`
   * characters: a number with more digits is written in full.
   */
  function PadDigits(n: nat, width: nat): (s: string)
    ensures 1 <= |s| && width <= |s|
    ensures AllDigits(s)
    decreases n + width
  {
    if n < 10 && width <= 1 then [DigitChar(n)]
    else PadDigits(n / 10, if width == 0 then 0 else width - 1) + [DigitChar(n % 10)]
  }

  /** The number a string of decimal digits denotes. */
  function Value(s: string): nat
    requires AllDigits(s)
  {
    if s == [] then 0 else Value(s[..|s| - 1]) * 10 + DigitValue(s[|s| - 1])
  }

  /** Reading the padded digits back gives the number. */
  lemma {:induction false} ValueOfPadDigits(n: nat, width: nat)
    ensures Value(PadDigits(n, width)) == n
    decreases n + width
  {
    var s := PadDigits(n, width);
    if n < 10 && width <= 1 {
      assert s[..0] == [];
      DigitValueOfDigitChar(n);
    } else {
      var rest := if width == 0 then 0 else width - 1;
      ValueOfPadDigits(n / 10, rest);
      assert s[..|s| - 1] == PadDigits(n / 10, rest);
      DigitValueOfDigitChar(n % 10);
    }
  }

  /**
   * A number of at least 10^width is written in full: its first digit is
   * not a padding zero.
   */
  lemma {:induction false} PadDigitsInFull(n: nat, width: nat)
    requires Pow10(width) <= n
    ensures PadDigits(n, width)[0] != '0'
    decreases n + width
  {
    if n < 10 && width <= 1 {
      assert width == 0;
      assert "0123456789"[n] != '0';
    } else {
      var rest := if width == 0 then 0 else width - 1;
      assert Pow10(rest) <= n / 10;
      PadDigitsInFull(n / 10, rest);
      assert PadDigits(n, width)[0] == PadDigits(n / 10, rest)[0];
    }
  }

  /** A number below 10^width takes exactly `width` characters. */
  lemma {:induction false} PadDigitsLength(n: nat, width: nat)
    requires 1 <= width && n < Pow10(width)
    ensures |PadDigits(n, width)| == width
    decreases width
  {
    if n < 10 && width <= 1 {
    } else {
      assert width >= 2;
      assert n / 10 < Pow10(width - 1);
      PadDigitsLength(n / 10, width - 1);
    }
  }

  /** The `yyyy-MM-dd` rendering of a date. */
  function FormatDate(d: Date): (s: string)
    ensures |s| >= 10
    ensures Valid(d) ==> s[|s| - 6] == '-' && s[|s| - 3] == '-'
    ensures Valid(d) ==> AllDigits(s[..|s| - 6]) && AllDigits(s[|s| - 5..|s| - 3]) && AllDigits(s[|s| - 2..])
  {
    var y, m, dd := PadDigits(d.year, 4), PadDigits(d.month, 2), PadDigits(d.day, 2);
    assert Valid(d) ==> |m| == 2 && |dd| == 2 by {
      if Valid(d) {
        PadDigitsLength(d.month, 2);
        PadDigitsLength(d.day, 2);
      }
    }
    var s := y + "-" + m + "-" + dd;
    assert Valid(d) ==> s[..|s| - 6] == y && s[|s| - 5..|s| - 3] == m && s[|s| - 2..] == dd;
    s
  }

  /**
   * Reads a `yyyy-MM-dd` string (at least four year digits, two month and
   * two day digits); `None` when the shape is wrong or the date does not
   * exist.
   */
  function ParseDate(s: string): (r: Option<Date>)
    ensures r.Some? ==> Valid(r.value)
    ensures r.Some? ==> |s| >= 10 && s[|s| - 6] == '-' && s[|s| - 3] == '-'
  {
    if |s| < 10 || s[|s| - 6] != '-' || s[|s| - 3] != '-' then None
    else
      var y, m, d := s[..|s| - 6], s[|s| - 5..|s| - 3], s[|s| - 2..];
      if AllDigits(y) && AllDigits(m) && AllDigits(d) && Valid(Date(Value(y), Value(m), Value(d)))
      then Some(Date(Value(y), Value(m), Value(d)))
      else None
  }

  /** Parsing joined fields of the right widths reads the fields back. */
  lemma ParseDateFields(y: string, m: string, dd: string)
    requires |y| >= 4 && |m| == 2 && |dd| == 2
    requires AllDigits(y) && AllDigits(m) && AllDigits(dd)
    requires Valid(Date(Value(y), Value(m), Value(dd)))
    ensures ParseDate(y + "-" + m + "-" + dd) == Some(Date(Value(y), Value(m), Value(dd)))
  {
    JoinedFields(y, m, dd);
  }

  lemma JoinedFields(y: string, m: string, dd: string)
    requires |m| == 2 && |dd| == 2
    ensures var s := y + "-" + m + "-" + dd;
            |s| == |y| + 6 &&
            s[..|s| - 6] == y && s[|s| - 5..|s| - 3] == m && s[|s| - 2..] == dd &&
            s[|s| - 6] == '-' && s[|s| - 3] == '-'
  {
    var s := y + "-" + m + "-" + dd;
    assert s[..|s| - 6] == y;
    assert s[|s| - 5..|s| - 3] == m;
    assert s[|s| - 2..] == dd;
  }

  /** Parsing the rendering of an existing date gives the date back. */
  lemma FormatDateRoundTrip(d: Date)
    requires Valid(d)
    ensures ParseDate(FormatDate(d)) == Some(d)
  {
    var y, m, dd := PadDigits(d.year, 4), PadDigits(d.month, 2), PadDigits(d.day, 2);
    PadDigitsLength(d.month, 2);
    PadDigitsLength(d.day, 2);
    ValueOfPadDigits(d.year, 4);
    ValueOfPadDigits(d.month, 2);
    ValueOfPadDigits(d.day, 2);
    assert Date(Value(y), Value(m), Value(dd)) == d;
    ParseDateFields(y, m, dd);
    assert FormatDate(d) == y + "-" + m + "-" + dd;
  }

  /**
   * For a four-digit year the rendering is ten characters: digits, with
   * dashes at positions 4 and 7.
   */
  lemma FormatDateShape(d: Date)
    requires Valid(d) && d.year < 10000
    ensures |FormatDate(d)| == 10
    ensures FormatDate(d)[4] == '-' && FormatDate(d)[7] == '-'
    ensures forall i :: 0 <= i < 10 && i != 4 && i != 7 ==> IsDigit(FormatDate(d)[i])
  {
    assert Pow10(4) == 10000;
    PadDigitsLength(d.year, 4);
    PadDigitsLength(d.month, 2);
    PadDigitsLength(d.day, 2);
  }
}
