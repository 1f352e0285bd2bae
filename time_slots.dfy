/**
 * The slot catalog: which three-hour slots can be booked on a date.
 *
 * Weekdays offer three evening slots; Saturdays, Sundays and the listed public holidays of
 * 2026 offer twelve, one starting on every hour from 10:00 to 21:00. An empty date string has
 * no slots.
 */
module TimeSlots {
  import opened Wrappers
  import opened CalendarDates

  const WeekdaySlots: seq<string> := ["19:00-22:00", "20:00-23:00", "21:00-24:00"]

  const WeekendSlots: seq<string> := [
    "10:00-13:00", "11:00-14:00", "12:00-15:00",
    "13:00-16:00", "14:00-17:00", "15:00-18:00",
    "16:00-19:00", "17:00-20:00", "18:00-21:00",
    "19:00-22:00", "20:00-23:00", "21:00-24:00"
  ]

  /** The public holidays of 2026 that get the weekend catalog. */
  const Holidays: seq<string> := [
    "2026-01-01",
    "2026-02-17", "2026-02-18", "2026-02-19",
    "2026-03-01",
    "2026-05-05",
    "2026-05-24",
    "2026-06-06",
    "2026-08-15",
    "2026-09-24", "2026-09-25", "2026-09-26",
    "2026-10-03",
    "2026-10-09",
    "2026-12-25"
  ]

  /** No label occurs twice. */
  predicate Distinct(s: seq<string>)
  {
    forall i, j :: 0 <= i < j < |s| ==> s[i] != s[j]
  }

  /** Two decimal digits, with a leading zero below ten. */
  function TwoDigitText(n: nat): (s: string)
    requires n < 100
    ensures |s| == 2
  {
    [DigitChar(n / 10), DigitChar(n % 10)]
  }

  /** The label of the three-hour slot starting at `hour:00`, as `HH:00-HH:00`. */
  function SlotLabel(hour: nat): (s: string)
    requires hour < 97
    ensures |s| == 11 && s[..2] == TwoDigitText(hour)
  {
    TwoDigitText(hour) + ":00-" + TwoDigitText(hour + 3) + ":00"
  }

  /** `HOLIDAYS.includes(dateStr)`: every listed holiday is a well-formed date of 2026. */
  function IsHoliday(dateStr: string): (holiday: bool)
    ensures holiday ==> ParseIsoDate(dateStr).Some? && ParseIsoDate(dateStr).value.year == 2026
  {
    if dateStr in Holidays then HolidaysAreDates2026(dateStr); true else false
  }

  lemma HolidaysAreDates2026(h: string)
    requires h in Holidays
    ensures ParseIsoDate(h).Some? && ParseIsoDate(h).value.year == 2026
  {
    forall i | 0 <= i < |Holidays|
      ensures ParseIsoDate(Holidays[i]).Some? && ParseIsoDate(Holidays[i]).value.year == 2026
    {
      DateOf2026(Holidays[i]);
    }
  }

  /** A string `2026-MM-DD` with a month from 01 to 12 and a day from 01 to 31 reads as a date of 2026. */
  lemma DateOf2026(h: string)
    requires |h| == 10 && h[..5] == "2026-" && h[7] == '-'
    requires '0' <= h[5] <= '1' && '0' <= h[6] <= '9' && '0' <= h[8] <= '3' && '0' <= h[9] <= '9'
    requires 1 <= 10 * (h[5] as int - '0' as int) + (h[6] as int - '0' as int) <= 12
    requires 1 <= 10 * (h[8] as int - '0' as int) + (h[9] as int - '0' as int) <= 31
    ensures ParseIsoDate(h).Some? && ParseIsoDate(h).value.year == 2026
  {
    assert h[0] == '2' && h[1] == '0' && h[2] == '2' && h[3] == '6' && h[4] == '-';
    assert IsIsoShape(h);
    IsoFields(h);
  }

  /**
   * Saturday, Sunday or a listed holiday; never for the empty string, and never for a string
   * the date parser rejects.
   */
  function IsWeekendOrHoliday(dateStr: string): (special: bool)
    ensures dateStr == "" ==> !special
    ensures special ==> ParseIsoDate(dateStr).Some?
    ensures dateStr != "" && IsHoliday(dateStr) ==> special
    ensures !IsHoliday(dateStr) ==> (special <==> DayOfWeek(dateStr) == Some(0) || DayOfWeek(dateStr) == Some(6))
  {
    if dateStr == "" then false
    else
      var day := DayOfWeek(dateStr);
      day == Some(0) || day == Some(6) || IsHoliday(dateStr)
  }

  /**
   * A date written as `YYYY-MM-DD` with a four-digit year gets the weekend catalog exactly when
   * it is a Saturday or a Sunday of the Gregorian calendar or a listed holiday.
   */
  lemma WeekendOrHolidayOfDate(d: Date)
    requires Formattable(d)
    ensures var s := FormatDate(d.year, d.month, d.day);
      IsWeekendOrHoliday(s) <==> Weekday(d.year, d.month, d.day) in {0, 6} || s in Holidays
  {
    ParseFormatRoundTrip(d);
  }

  /** The ordered catalog of slot labels for a date. */
  function GetSlotsForDate(dateStr: string): (slots: seq<string>)
    ensures dateStr == "" ==> slots == []
    ensures dateStr != "" && IsWeekendOrHoliday(dateStr) ==> |slots| == 12
    ensures dateStr != "" && !IsWeekendOrHoliday(dateStr) ==> |slots| == 3
    ensures slots == WeekendSlots[|WeekendSlots| - |slots|..]
  {
    if dateStr == "" then []
    else if IsWeekendOrHoliday(dateStr) then WeekendSlots
    else WeekdaySlots
  }

  /** The i-th weekend slot starts at 10 + i o'clock and ends three hours later. */
  lemma WeekendSlotsShape()
    ensures |WeekendSlots| == 12
    ensures forall i :: 0 <= i < 12 ==> WeekendSlots[i] == SlotLabel(10 + i)
  {
    MorningLabels();
    AfternoonLabels();
  }

  lemma MorningLabels()
    ensures forall i :: 0 <= i < 6 ==> WeekendSlots[i] == SlotLabel(10 + i)
  {
    assert SlotLabel(10) == "10:00-13:00";
    assert SlotLabel(11) == "11:00-14:00";
    assert SlotLabel(12) == "12:00-15:00";
    assert SlotLabel(13) == "13:00-16:00";
    assert SlotLabel(14) == "14:00-17:00";
    assert SlotLabel(15) == "15:00-18:00";
  }

  lemma AfternoonLabels()
    ensures forall i :: 6 <= i < 12 ==> WeekendSlots[i] == SlotLabel(10 + i)
  {
    assert SlotLabel(16) == "16:00-19:00";
    assert SlotLabel(17) == "17:00-20:00";
    assert SlotLabel(18) == "18:00-21:00";
    assert SlotLabel(19) == "19:00-22:00";
    assert SlotLabel(20) == "20:00-23:00";
    assert SlotLabel(21) == "21:00-24:00";
  }

  /** Slot labels of different starting hours differ; so the weekend labels are pairwise distinct. */
  lemma WeekendSlotsDistinct()
    ensures Distinct(WeekendSlots)
  {
    WeekendSlotsShape();
    forall i, j | 0 <= i < j < 12
      ensures WeekendSlots[i] != WeekendSlots[j]
    {
      var a, b := TwoDigitText(10 + i), TwoDigitText(10 + j);
      assert DigitValue(a[0]) * 10 + DigitValue(a[1]) == 10 + i;
      assert DigitValue(b[0]) * 10 + DigitValue(b[1]) == 10 + j;
    }
  }

  /** No date's catalog lists a slot twice. */
  lemma SlotsForDateDistinct(dateStr: string)
    ensures Distinct(GetSlotsForDate(dateStr))
  {
    WeekendSlotsDistinct();
    TailDistinct(WeekendSlots, |WeekendSlots| - |GetSlotsForDate(dateStr)|);
  }

  /** A tail of a list without repetitions has none either. */
  lemma TailDistinct(s: seq<string>, k: nat)
    requires k <= |s| && Distinct(s)
    ensures Distinct(s[k..])
  {
    forall i, j | 0 <= i < j < |s| - k
      ensures s[k..][i] != s[k..][j]
    {
      assert s[k..][i] == s[k + i] && s[k..][j] == s[k + j];
    }
  }

  /** The weekday catalog is the evening tail of the weekend catalog. */
  lemma WeekdaySlotsAreEveningWeekendSlots()
    ensures WeekdaySlots == WeekendSlots[9..]
    ensures forall s :: s in WeekdaySlots ==> s in WeekendSlots
  {
  }

  /** 13 June 2026 is a Saturday and gets the twelve weekend slots. */
  lemma SaturdayScenario()
    ensures DayOfWeek("2026-06-13") == Some(6)
    ensures GetSlotsForDate("2026-06-13") == WeekendSlots
    ensures GetSlotsForDate("2026-06-13")[0] == "10:00-13:00"
    ensures GetSlotsForDate("2026-06-13")[11] == "21:00-24:00"
  {
    IsoFields("2026-06-13");
    assert ParseIsoDate("2026-06-13") == Some(Date(2026, 6, 13));
  }

  /** 10 June 2026 is a Wednesday and not a holiday: it gets the three evening slots. */
  lemma WednesdayScenario()
    ensures DayOfWeek("2026-06-10") == Some(3)
    ensures GetSlotsForDate("2026-06-10") == ["19:00-22:00", "20:00-23:00", "21:00-24:00"]
  {
    IsoFields("2026-06-10");
    assert ParseIsoDate("2026-06-10") == Some(Date(2026, 6, 10));
    assert !IsHoliday("2026-06-10");
  }
}
