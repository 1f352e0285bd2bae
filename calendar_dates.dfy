/**
 * Calendar arithmetic and the `YYYY-MM-DD` date strings the application passes around.
 *
 * The source builds date strings with template literals and `padStart(2, "0")`, asks a
 * JavaScript `Date` for the day of the week and the length of a month, and compares date
 * strings with the store's string order. This module gives each of those a pure definition:
 * decimal rendering and parsing, Sakamoto's day-of-week formula, the Gregorian month lengths,
 * and lexicographic string order, together with the facts the rest of the model relies on.
 */
module CalendarDates {
  import opened Wrappers

  /** A calendar date as three numbers; `month` is 1-based. */
  datatype Date = Date(year: nat, month: nat, day: nat)

  // ---------------------------------------------------------------------------------------
  // Decimal digits
  // ---------------------------------------------------------------------------------------

  predicate IsDigit(c: char) { '0' <= c <= '9' }

  predicate AllDigits(s: string) { forall i :: 0 <= i < |s| ==> IsDigit(s[i]) }

  function DigitValue(c: char): nat
    requires IsDigit(c)
  {
    c as int - '0' as int
  }

  function DigitChar(n: nat): (c: char)
    requires n < 10
    ensures IsDigit(c) && DigitValue(c) == n
  {
    ('0' as int + n) as char
  }

  function Pow10(n: nat): nat
  {
    if n == 0 then 1 else 10 * Pow10(n - 1)
  }

  /** The number a string of decimal digits denotes, most significant digit first. */
  function DigitsValue(s: string): nat
    requires AllDigits(s)
  {
    if s == [] then 0 else 10 * DigitsValue(s[..|s| - 1]) + DigitValue(s[|s| - 1])
  }

  /** `${n}`: the decimal rendering of a natural number, without leading zeros. */
  function DecimalString(n: nat): (s: string)
    ensures 1 <= |s| && AllDigits(s)
    ensures DigitsValue(s) == n
    ensures n < Pow10(|s|)
    ensures |s| > 1 ==> Pow10(|s| - 1) <= n
    decreases n
  {
    if n < 10 then [DigitChar(n)]
    else
      var s := DecimalString(n / 10) + [DigitChar(n % 10)];
      assert s[..|s| - 1] == DecimalString(n / 10);
      s
  }

  /** `String(n).padStart(2, "0")`: at least two characters, a leading zero for one digit. */
  function Pad2(n: nat): (s: string)
    ensures AllDigits(s) && 2 <= |s| && DigitsValue(s) == n
    ensures n < 100 ==> |s| == 2
  {
    var d := DecimalString(n);
    if |d| < 2 then
      var s := "0" + d;
      assert s[..1] == "0";
      s
    else
      d
  }

  lemma {:induction false} Pow10Monotonic(k: nat, j: nat)
    requires k <= j
    ensures Pow10(k) <= Pow10(j)
    decreases j
  {
    if k < j { Pow10Monotonic(k, j - 1); }
  }

  /** Every year from 1000 to 9999 is rendered with exactly four digits. */
  lemma FourDigitYear(year: nat)
    requires 1000 <= year <= 9999
    ensures |DecimalString(year)| == 4
  {
    var s := DecimalString(year);
    if |s| < 4 {
      Pow10Monotonic(|s|, 3);
    } else if |s| > 4 {
      Pow10Monotonic(4, |s| - 1);
    }
  }

  /** A string of digits denotes a number below 10 to the power of its length. */
  lemma {:induction false} DigitsBound(s: string)
    requires AllDigits(s)
    ensures DigitsValue(s) < Pow10(|s|)
    decreases |s|
  {
    if s != [] { DigitsBound(s[..|s| - 1]); }
  }

  /** The value of a digit string split at its most significant digit. */
  lemma {:induction false} DigitsFront(s: string)
    requires AllDigits(s) && |s| > 0
    ensures DigitsValue(s) == DigitValue(s[0]) * Pow10(|s| - 1) + DigitsValue(s[1..])
    decreases |s|
  {
    if |s| > 1 {
      var init := s[..|s| - 1];
      DigitsFront(init);
      assert init[1..] == s[1..][..|s[1..]| - 1];
      var p := Pow10(|s| - 2);
      assert Pow10(|s| - 1) == 10 * p;
      assert DigitValue(s[0]) * (10 * p) == 10 * (DigitValue(s[0]) * p);
    } else {
      assert s[..|s| - 1] == [];
    }
  }

  lemma TwoDigits(s: string)
    requires AllDigits(s) && |s| == 2
    ensures DigitsValue(s) == 10 * DigitValue(s[0]) + DigitValue(s[1])
  {
    assert s[..1][..0] == [];
    assert DigitsValue(s[..1]) == DigitValue(s[0]);
  }

  lemma FourDigits(s: string)
    requires AllDigits(s) && |s| == 4
    ensures DigitsValue(s) == 1000 * DigitValue(s[0]) + 100 * DigitValue(s[1]) + 10 * DigitValue(s[2]) + DigitValue(s[3])
  {
    assert s[..3][..2] == s[..2];
    TwoDigits(s[..2]);
  }

  // ---------------------------------------------------------------------------------------
  // String order
  // ---------------------------------------------------------------------------------------

  /**
   * Lexicographic order on strings by character code: the order of `a <= b` on strings. Every
   * string is below itself.
   */
  function LexLeq(a: string, b: string): (leq: bool)
    ensures a == b ==> leq
  {
    |a| == 0 || (|b| > 0 && (a[0] < b[0] || (a[0] == b[0] && LexLeq(a[1..], b[1..]))))
  }

  /**
   * The textbook definition of the order: `a` is a prefix of `b`, or at the first position
   * where they differ `a` has the smaller character.
   */
  lemma {:induction false} LexLeqFirstDifference(a: string, b: string)
    ensures LexLeq(a, b) <==>
      a <= b || exists k :: 0 <= k < |a| && k < |b| && a[..k] == b[..k] && a[k] < b[k]
    decreases |a|
  {
    if |a| > 0 && |b| > 0 {
      LexLeqFirstDifference(a[1..], b[1..]);
      if a[0] == b[0] {
        if exists k :: 0 <= k < |a| && k < |b| && a[..k] == b[..k] && a[k] < b[k] {
          var k :| 0 <= k < |a| && k < |b| && a[..k] == b[..k] && a[k] < b[k];
          assert k > 0;
          assert a[1..][..k - 1] == a[1..k] == b[1..k] == b[1..][..k - 1];
          assert a[1..][k - 1] < b[1..][k - 1];
        }
        if exists k :: 0 <= k < |a| - 1 && k < |b| - 1 && a[1..][..k] == b[1..][..k] && a[1..][k] < b[1..][k] {
          var k :| 0 <= k < |a| - 1 && k < |b| - 1 && a[1..][..k] == b[1..][..k] && a[1..][k] < b[1..][k];
          assert a[..k + 1] == [a[0]] + a[1..][..k] && b[..k + 1] == [b[0]] + b[1..][..k];
          assert a[k + 1] == a[1..][k] && b[k + 1] == b[1..][k];
        }
        assert a <= b <==> a[1..] <= b[1..];
      } else {
        assert a[..0] == b[..0];
        assert forall k :: 0 < k <= |a| && k <= |b| ==> a[..k][0] == a[0] && b[..k][0] == b[0];
      }
    }
  }

  lemma {:induction false} LexLeqAntisymmetric(a: string, b: string)
    requires LexLeq(a, b) && LexLeq(b, a)
    ensures a == b
    decreases |a|
  {
    if |a| > 0 {
      LexLeqAntisymmetric(a[1..], b[1..]);
      assert a == [a[0]] + a[1..] && b == [b[0]] + b[1..];
    }
  }

  /** Comparing two strings with equal-length prefixes compares the prefixes first. */
  lemma {:induction false} LexLeqAppend(x: string, y: string, x': string, y': string)
    requires |x| == |x'|
    ensures LexLeq(x + y, x' + y') <==> (x != x' && LexLeq(x, x')) || (x == x' && LexLeq(y, y'))
    decreases |x|
  {
    if |x| == 0 {
      assert x + y == y && x' + y' == y';
    } else {
      assert (x + y)[0] == x[0] && (x' + y')[0] == x'[0];
      assert (x + y)[1..] == x[1..] + y && (x' + y')[1..] == x'[1..] + y';
      LexLeqAppend(x[1..], y, x'[1..], y');
      assert x == [x[0]] + x[1..] && x' == [x'[0]] + x'[1..];
      if x[0] == x'[0] {
        assert x == x' <==> x[1..] == x'[1..];
      }
    }
  }

  /** A smaller leading digit outweighs whatever the lower digits hold. */
  lemma LeadingDigitWeighs(da: nat, db: nat, ra: nat, rb: nat, p: nat)
    requires da < db && ra < p
    ensures da * p + ra < db * p + rb
  {
    var k := db - da;
    MulAtLeast(k, p);
    assert db * p == da * p + k * p;
  }

  lemma {:induction false} MulAtLeast(k: nat, p: nat)
    requires k >= 1
    ensures k * p >= p
  {
    if k > 1 {
      MulAtLeast(k - 1, p);
      assert k * p == (k - 1) * p + p;
    }
  }

  /** A digit string whose leading digit is smaller denotes the smaller number. */
  lemma FirstDigitDecides(a: string, b: string)
    requires AllDigits(a) && AllDigits(b) && |a| == |b| > 0 && a[0] < b[0]
    ensures DigitsValue(a) < DigitsValue(b)
  {
    DigitsFront(a);
    DigitsFront(b);
    DigitsBound(a[1..]);
    LeadingDigitWeighs(DigitValue(a[0]), DigitValue(b[0]), DigitsValue(a[1..]), DigitsValue(b[1..]), Pow10(|a| - 1));
  }

  /** On digit strings of one length, string order is numeric order. */
  lemma {:induction false} DigitsOrder(a: string, b: string)
    requires AllDigits(a) && AllDigits(b) && |a| == |b|
    ensures LexLeq(a, b) <==> DigitsValue(a) <= DigitsValue(b)
    decreases |a|
  {
    if |a| > 0 {
      if a[0] < b[0] {
        FirstDigitDecides(a, b);
      } else if b[0] < a[0] {
        FirstDigitDecides(b, a);
      } else {
        DigitsFront(a);
        DigitsFront(b);
        DigitsOrder(a[1..], b[1..]);
      }
    }
  }

  /** Digit strings of one length are equal exactly when their values are. */
  lemma DigitsInjective(a: string, b: string)
    requires AllDigits(a) && AllDigits(b) && |a| == |b|
    ensures a == b <==> DigitsValue(a) == DigitsValue(b)
  {
    DigitsOrder(a, b);
    DigitsOrder(b, a);
    if DigitsValue(a) == DigitsValue(b) { LexLeqAntisymmetric(a, b); }
  }

  // ---------------------------------------------------------------------------------------
  // ISO date strings
  // ---------------------------------------------------------------------------------------

  /**
   * The template string `${year}-${pad(month)}-${pad(day)}` used for "today" in the
   * availability route and for every calendar cell of the admin dashboard.
   */
  function FormatDate(year: nat, month: nat, day: nat): (s: string)
    ensures 1000 <= year <= 9999 && month < 100 && day < 100 ==> IsIsoShape(s)
  {
    var s := DecimalString(year) + "-" + Pad2(month) + "-" + Pad2(day);
    if 1000 <= year <= 9999 then
      FourDigitYear(year);
      s
    else s
  }

  /** The fields of a date that both formats and parses back: four-digit year, month, day. */
  predicate Formattable(d: Date)
  {
    1000 <= d.year <= 9999 && 1 <= d.month <= 12 && 1 <= d.day <= 31
  }

  predicate IsIsoShape(s: string)
  {
    |s| == 10 && s[4] == '-' && s[7] == '-'
    && AllDigits(s[..4]) && AllDigits(s[5..7]) && AllDigits(s[8..])
  }

  /**
   * Reading a `YYYY-MM-DD` string as a calendar date: the strings the date parser
   * accepts have that shape, a month from 1 to 12 and a day from 1 to 31.
   */
  function ParseIsoDate(s: string): (r: Option<Date>)
    ensures r.Some? ==> IsIsoShape(s)
    ensures r.Some? ==> r.value.year <= 9999 && 1 <= r.value.month <= 12 && 1 <= r.value.day <= 31
  {
    if !IsIsoShape(s) then None
    else
      DigitsBound(s[..4]);
      var date := Date(DigitsValue(s[..4]), DigitsValue(s[5..7]), DigitsValue(s[8..]));
      if 1 <= date.month <= 12 && 1 <= date.day <= 31 then Some(date) else None
  }

  /** The three fields of a `YYYY-MM-DD` string, spelled out digit by digit. */
  lemma IsoFields(s: string)
    requires IsIsoShape(s)
    ensures DigitsValue(s[..4]) == 1000 * DigitValue(s[0]) + 100 * DigitValue(s[1]) + 10 * DigitValue(s[2]) + DigitValue(s[3])
    ensures DigitsValue(s[5..7]) == 10 * DigitValue(s[5]) + DigitValue(s[6])
    ensures DigitsValue(s[8..]) == 10 * DigitValue(s[8]) + DigitValue(s[9])
  {
    FourDigits(s[..4]);
    TwoDigits(s[5..7]);
    TwoDigits(s[8..]);
  }

  lemma FormatDateParts(d: Date)
    requires Formattable(d)
    ensures var s := FormatDate(d.year, d.month, d.day);
      && IsIsoShape(s)
      && s[..4] == DecimalString(d.year) && s[5..7] == Pad2(d.month) && s[8..] == Pad2(d.day)
  {
    FourDigitYear(d.year);
  }

  /** Formatting a date and parsing the string back gives the same date. */
  lemma ParseFormatRoundTrip(d: Date)
    requires Formattable(d)
    ensures ParseIsoDate(FormatDate(d.year, d.month, d.day)) == Some(d)
  {
    FormatDateParts(d);
  }

  /** A date string with a four-digit year is exactly the formatting of what it parses to. */
  lemma FormatParseRoundTrip(s: string)
    requires ParseIsoDate(s).Some? && ParseIsoDate(s).value.year >= 1000
    ensures FormatDate(ParseIsoDate(s).value.year, ParseIsoDate(s).value.month, ParseIsoDate(s).value.day) == s
  {
    var d := ParseIsoDate(s).value;
    FormatDateParts(d);
    var t := FormatDate(d.year, d.month, d.day);
    DigitsInjective(s[..4], t[..4]);
    DigitsInjective(s[5..7], t[5..7]);
    DigitsInjective(s[8..], t[8..]);
    assert s == s[..4] + "-" + s[5..7] + "-" + s[8..];
    assert t == t[..4] + "-" + t[5..7] + "-" + t[8..];
  }

  /** `a` is the same day as `b` or an earlier one. */
  predicate OnOrBefore(a: Date, b: Date)
  {
    a.year < b.year || (a.year == b.year && (a.month < b.month || (a.month == b.month && a.day <= b.day)))
  }

  /** Zero-padded date strings compare, as strings, in calendar order. */
  lemma IsoOrderIsChronological(a: Date, b: Date)
    requires Formattable(a) && Formattable(b)
    ensures LexLeq(FormatDate(a.year, a.month, a.day), FormatDate(b.year, b.month, b.day)) <==> OnOrBefore(a, b)
  {
    var ya, ma, da := DecimalString(a.year), Pad2(a.month), Pad2(a.day);
    var yb, mb, db := DecimalString(b.year), Pad2(b.month), Pad2(b.day);
    FourDigitYear(a.year);
    FourDigitYear(b.year);
    DigitsOrder(ya, yb);
    DigitsInjective(ya, yb);
    DigitsOrder(ma, mb);
    DigitsInjective(ma, mb);
    DigitsOrder(da, db);
    assert FormatDate(a.year, a.month, a.day) == ya + ("-" + (ma + ("-" + da)));
    assert FormatDate(b.year, b.month, b.day) == yb + ("-" + (mb + ("-" + db)));
    LexLeqAppend(ya, "-" + (ma + ("-" + da)), yb, "-" + (mb + ("-" + db)));
    LexLeqAppend("-", ma + ("-" + da), "-", mb + ("-" + db));
    LexLeqAppend(ma, "-" + da, mb, "-" + db);
    LexLeqAppend("-", da, "-", db);
  }

  // ---------------------------------------------------------------------------------------
  // Weekdays and month lengths
  // ---------------------------------------------------------------------------------------

  predicate IsLeapYear(year: nat)
  {
    year % 4 == 0 && (year % 100 != 0 || year % 400 == 0)
  }

  /** The day `new Date(year, month, 0)` falls on: the number of days of a month (1-based). */
  function DaysInMonth(year: nat, month: nat): (n: nat)
    requires 1 <= month <= 12
    ensures 28 <= n <= 31
  {
    if month == 2 then (if IsLeapYear(year) then 29 else 28)
    else if month == 4 || month == 6 || month == 9 || month == 11 then 30
    else 31
  }

  predicate ValidDate(d: Date)
  {
    1 <= d.month <= 12 && 1 <= d.day <= DaysInMonth(d.year, d.month)
  }

  /** The calendar successor of a date. */
  function NextDay(d: Date): (n: Date)
    requires ValidDate(d)
    ensures ValidDate(n)
  {
    if d.day < DaysInMonth(d.year, d.month) then Date(d.year, d.month, d.day + 1)
    else if d.month < 12 then Date(d.year, d.month + 1, 1)
    else Date(d.year + 1, 1, 1)
  }

  const MonthOffsets: seq<int> := [0, 3, 2, 5, 0, 3, 5, 1, 4, 6, 2, 4]

  /** The leap-day count Sakamoto's formula adds for the years up to `y`. */
  function YearTerm(y: int): int
  {
    y + y / 4 - y / 100 + y / 400
  }

  /** Sakamoto's sum before it is reduced modulo 7; January and February count with the year before. */
  function WeekdaySum(year: nat, month: nat, day: nat): int
    requires 1 <= month <= 12
  {
    var y: int := if month < 3 then year - 1 else year;
    YearTerm(y) + MonthOffsets[month - 1] + day
  }

  /**
   * The day of the week, 0 for Sunday to 6 for Saturday, as `Date.prototype.getDay`
   * numbers them (Sakamoto's formula on the proleptic Gregorian calendar).
   */
  function Weekday(year: nat, month: nat, day: nat): (w: nat)
    requires 1 <= month <= 12
    ensures w < 7
  {
    WeekdaySum(year, month, day) % 7
  }

  /** `new Date(dateStr).getDay()`: a weekday for a date string, none for an unparseable one. */
  function DayOfWeek(dateStr: string): (w: Option<nat>)
    ensures w.Some? <==> ParseIsoDate(dateStr).Some?
    ensures w.Some? ==> w.value < 7
  {
    match ParseIsoDate(dateStr)
    case None => None
    case Some(d) => Some(Weekday(d.year, d.month, d.day))
  }

  /** Going from the year before a March to that March adds one day, plus one in a leap year. */
  lemma YearTermStep(y: nat)
    ensures YearTerm(y) - YearTerm(y - 1) == if IsLeapYear(y) then 2 else 1
  {
    assert y / 4 - (y - 1) / 4 == if y % 4 == 0 then 1 else 0;
    assert y / 100 - (y - 1) / 100 == if y % 100 == 0 then 1 else 0;
    assert y / 400 - (y - 1) / 400 == if y % 400 == 0 then 1 else 0;
    assert y % 400 == 0 ==> y % 100 == 0;
    assert y % 100 == 0 ==> y % 4 == 0;
  }

  /** From one day to the next, Sakamoto's sum grows by one modulo 7. */
  lemma WeekdaySumStep(d: Date)
    requires ValidDate(d)
    ensures var n := NextDay(d);
      WeekdaySum(n.year, n.month, n.day) - WeekdaySum(d.year, d.month, d.day) in {1, -27, -34}
  {
    if d.day == DaysInMonth(d.year, d.month) && d.month == 2 {
      YearTermStep(d.year);
    }
  }

  lemma ModSeven(x: int, k: int)
    requires k in {0, 4, 5}
    ensures (x + 1 - 7 * k) % 7 == (x % 7 + 1) % 7
  {
  }

  /**
   * The formula agrees with the calendar: the day after any date falls on the next
   * weekday, across month ends, the end of February in leap and common years, and year ends.
   */
  lemma WeekdayAdvances(d: Date)
    requires ValidDate(d)
    ensures Weekday(NextDay(d).year, NextDay(d).month, NextDay(d).day) == (Weekday(d.year, d.month, d.day) + 1) % 7
  {
    var n := NextDay(d);
    var x := WeekdaySum(d.year, d.month, d.day);
    var diff := WeekdaySum(n.year, n.month, n.day) - x;
    WeekdaySumStep(d);
    ModSeven(x, if diff == 1 then 0 else if diff == -27 then 4 else 5);
  }

  /** Within a month, the weekday of day `day` is that of the first, advanced `day - 1` times. */
  lemma WeekdayInMonth(year: nat, month: nat, day: nat)
    requires 1 <= month <= 12 && 1 <= day
    ensures Weekday(year, month, day) == (Weekday(year, month, 1) + day - 1) % 7
  {
    var first := WeekdaySum(year, month, 1);
    assert WeekdaySum(year, month, day) == first + (day - 1);
    ModSevenShift(first / 7, first % 7 + day - 1);
    assert first == 7 * (first / 7) + first % 7;
  }

  /** Adding whole weeks does not change the weekday. */
  lemma ModSevenShift(q: int, r: int)
    ensures (7 * q + r) % 7 == r % 7
  {
  }
}
