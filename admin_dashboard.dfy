/**
 * The administrator's dashboard: per-date statistics and the month calendar.
 *
 * For a date the dashboard shows how many slots the catalog offers, how many reservations the
 * date holds and how many slots remain (never below zero). A calendar cell is "full" when the
 * date offers slots and none remains. The month grid starts with one blank cell per weekday
 * before the first of the month, followed by one cell per day carrying its `YYYY-MM-DD`
 * string and its statistics.
 */
module AdminDashboard {
  import opened Wrappers
  import opened CalendarDates
  import opened ReservationStore
  import opened TimeSlots
  import AvailabilityRoute

  datatype DailyStats = DailyStats(total: nat, booked: nat, available: nat, slots: seq<string>)

  /** `getDailyStats`: the catalog for the date, the reservations on it and what is left. */
  function GetDailyStats(rows: seq<Reservation>, dateStr: string): (stats: DailyStats)
    ensures dateStr == "" ==> stats == DailyStats(0, 0, 0, [])
    ensures stats.slots == GetSlotsForDate(dateStr) && stats.total == |stats.slots|
    ensures dateStr != "" ==> stats.booked == |OnDate(rows, dateStr)|
    ensures stats.available <= stats.total
    ensures stats.booked <= stats.total ==> stats.available == stats.total - stats.booked
    ensures stats.booked >= stats.total ==> stats.available == 0
  {
    if dateStr == "" then DailyStats(0, 0, 0, [])
    else
      var totalSlots := GetSlotsForDate(dateStr);
      var booked := OnDate(rows, dateStr);
      DailyStats(|totalSlots|, |booked|, Max(0, |totalSlots| - |booked|), totalSlots)
  }

  /** `Math.max` on two integers, as a count: the larger of the two. */
  function Max(a: nat, b: int): (m: nat)
    ensures m >= a && m >= b
    ensures m == a || m == b
  {
    if a >= b then a else b
  }

  /**
   * A calendar cell shows "full" when the date offers slots and none is left: exactly when the
   * date has a catalog and at least as many reservations as slots.
   */
  function IsFull(rows: seq<Reservation>, dateStr: string): (full: bool)
    ensures full <==> dateStr != "" && 0 < |GetSlotsForDate(dateStr)| <= |OnDate(rows, dateStr)|
  {
    var stats := GetDailyStats(rows, dateStr);
    stats.total > 0 && stats.available == 0
  }

  /**
   * `reservations.some(r => r.date === selectedDate && r.timeSlot === slot)`: some position of
   * the list holds that slot on that date.
   */
  function IsBooked(rows: seq<Reservation>, selectedDate: string, slot: string): (booked: bool)
    ensures booked <==> exists i :: 0 <= i < |rows| && rows[i].date == selectedDate && rows[i].timeSlot == slot
  {
    if rows == [] then false
    else if rows[0].date == selectedDate && rows[0].timeSlot == slot then true
    else
      var booked := IsBooked(rows[1..], selectedDate, slot);
      assert forall i :: 1 <= i < |rows| ==> rows[i] == rows[1..][i - 1];
      booked
  }

  /** A slot card is marked booked exactly when the slot is held on that date. */
  lemma {:induction false} IsBookedMeansHeld(rows: seq<Reservation>, selectedDate: string, slot: string)
    ensures IsBooked(rows, selectedDate, slot) <==> SlotHeld(rows, selectedDate, slot)
    ensures IsBooked(rows, selectedDate, slot) <==> slot in AvailabilityRoute.BookedSlots(rows, selectedDate)
    decreases |rows|
  {
    if rows != [] {
      IsBookedMeansHeld(rows[1..], selectedDate, slot);
      assert forall r :: r in rows <==> r == rows[0] || r in rows[1..] by {
        assert rows == [rows[0]] + rows[1..];
      }
    }
  }

  /** Every reservation on `dateStr` is for a slot of that date's catalog. */
  predicate CatalogRespected(rows: seq<Reservation>, dateStr: string)
  {
    forall r :: r in rows && r.date == dateStr ==> r.timeSlot in GetSlotsForDate(dateStr)
  }

  /** A sequence without repetitions has as many distinct elements as entries. */
  lemma {:induction false} DistinctCardinality(s: seq<string>)
    requires Distinct(s)
    ensures |set x | x in s| == |s|
    decreases |s|
  {
    if s != [] {
      var rest := s[1..];
      assert Distinct(rest) by {
        forall i, j | 0 <= i < j < |rest|
          ensures rest[i] != rest[j]
        {
          assert rest[i] == s[i + 1] && rest[j] == s[j + 1];
        }
      }
      DistinctCardinality(rest);
      assert s[0] !in rest by {
        forall i | 0 <= i < |rest|
          ensures rest[i] != s[0]
        {
          assert rest[i] == s[i + 1];
        }
      }
      assert (set x | x in s) == (set x | x in rest) + {s[0]} by {
        assert s == [s[0]] + rest;
      }
    }
  }

  /** A subset has at most as many elements as the set. */
  lemma {:induction false} SubsetCardinality(a: set<string>, b: set<string>)
    requires a <= b
    ensures |a| <= |b|
    decreases |b|
  {
    if a != {} {
      var x :| x in a;
      SubsetCardinality(a - {x}, b - {x});
    }
  }

  /**
   * Counting a distinct list inside a distinct catalog: it is no longer than the catalog, the
   * difference in length is the number of catalog entries missing from it, and the lengths agree
   * exactly when it covers the catalog.
   */
  lemma CoverCount(held: seq<string>, catalog: seq<string>)
    requires Distinct(held) && Distinct(catalog)
    requires forall s :: s in held ==> s in catalog
    ensures |held| <= |catalog|
    ensures |catalog| - |held| == |set s | s in catalog && s !in held|
    ensures |held| == |catalog| <==> forall s :: s in catalog ==> s in held
  {
    DistinctCardinality(held);
    DistinctCardinality(catalog);
    var heldSet, catalogSet := set s | s in held, set s | s in catalog;
    var free := set s | s in catalog && s !in held;
    SubsetCardinality(heldSet, catalogSet);
    assert |catalogSet| == |heldSet| + |free| by {
      assert catalogSet == heldSet + free && heldSet * free == {};
    }
    if free != {} {
      var s :| s in free;
      SubsetCardinality({s}, free);
    }
    assert forall s :: s in catalog && s !in held ==> s in free;
  }

  /**
   * When the date's reservations respect the composite key and the date's catalog, the count
   * of booked slots never exceeds the catalog (the clamp to zero never fires), the slots left
   * are the catalog slots nobody holds, and a cell is full exactly when every slot of the
   * catalog is held.
   */
  lemma FullMeansEverySlotBooked(rows: seq<Reservation>, dateStr: string)
    requires dateStr != "" && SlotsUnique(rows) && CatalogRespected(rows, dateStr)
    ensures var stats := GetDailyStats(rows, dateStr);
      && stats.booked <= stats.total
      && stats.available == |set s | s in stats.slots && !SlotHeld(rows, dateStr, s)|
      && (IsFull(rows, dateStr) <==> forall s :: s in stats.slots ==> SlotHeld(rows, dateStr, s))
  {
    var stats := GetDailyStats(rows, dateStr);
    SlotsForDateDistinct(dateStr);
    HeldSlotsWithin(rows, dateStr, stats.slots);
  }

  /**
   * Counting the held slots of a date inside a distinct catalog that contains all of them: at
   * most as many as the catalog, the rest are the free ones, and all are held exactly when the
   * counts agree.
   */
  lemma HeldSlotsWithin(rows: seq<Reservation>, dateStr: string, catalog: seq<string>)
    requires SlotsUnique(rows) && Distinct(catalog)
    requires forall r :: r in rows && r.date == dateStr ==> r.timeSlot in catalog
    ensures |OnDate(rows, dateStr)| <= |catalog|
    ensures |catalog| - |OnDate(rows, dateStr)| == |set s | s in catalog && !SlotHeld(rows, dateStr, s)|
    ensures |OnDate(rows, dateStr)| == |catalog| <==> forall s :: s in catalog ==> SlotHeld(rows, dateStr, s)
  {
    var held := AvailabilityRoute.BookedSlots(rows, dateStr);
    AvailabilityRoute.BookedSlotsDistinct(rows, dateStr);
    assert forall s :: s in held ==> s in catalog by {
      forall s | s in held
        ensures s in catalog
      {
        var r :| r in rows && r.date == dateStr && r.timeSlot == s;
      }
    }
    CoverCount(held, catalog);
    assert (set s | s in catalog && !SlotHeld(rows, dateStr, s)) == (set s | s in catalog && s !in held);
  }

  /** A day cell of the month grid; the blanks before the first of the month are `None` (`null`). */
  datatype Cell = Day(day: nat, dateStr: string, stats: DailyStats)

  /**
   * The cell the grid pushes for day `day` of `month` (1-based) in `year`: the day number, the
   * date string `YYYY-MM-DD` and that date's statistics.
   */
  function DayCell(rows: seq<Reservation>, year: nat, month: nat, day: nat): (cell: Cell)
    ensures cell.day == day && cell.stats == GetDailyStats(rows, cell.dateStr)
    ensures Formattable(Date(year, month, day)) ==> ParseIsoDate(cell.dateStr) == Some(Date(year, month, day))
  {
    var dateStr := FormatDate(year, month, day);
    var cell := Day(day, dateStr, GetDailyStats(rows, dateStr));
    if Formattable(Date(year, month, day)) then
      ParseFormatRoundTrip(Date(year, month, day));
      cell
    else cell
  }

  /**
   * `getDaysInMonth`: for `month` (0 for January, as `Date.prototype.getMonth` counts) of
   * `year`, the weekday of the first of the month and the number of days in the month.
   */
  function MonthLayout(year: nat, month: nat): (layout: (nat, nat))
    requires month < 12
    ensures layout.0 < 7 && 28 <= layout.1 <= 31
    ensures layout.0 == Weekday(year, month + 1, 1)
    ensures ValidDate(Date(year, month + 1, layout.1))
    ensures NextDay(Date(year, month + 1, layout.1)).day == 1
  {
    (Weekday(year, month + 1, 1), DaysInMonth(year, month + 1))
  }

  /**
   * The two loops that build the grid: `firstDay` blanks, then `cellOf(1)` to `cellOf(days)`
   * in order.
   */
  method FillGrid<T>(firstDay: nat, days: nat, cellOf: nat -> T) returns (grid: seq<Option<T>>)
    ensures |grid| == firstDay + days
    ensures forall i :: 0 <= i < firstDay ==> grid[i] == None
    ensures forall i :: firstDay <= i < |grid| ==> grid[i] == Some(cellOf(i - firstDay + 1))
  {
    grid := [];
    for i := 0 to firstDay
      invariant |grid| == i
      invariant forall j :: 0 <= j < i ==> grid[j] == None
    {
      grid := grid + [None];
    }
    for i := 1 to days + 1
      invariant |grid| == firstDay + i - 1
      invariant forall j :: 0 <= j < firstDay ==> grid[j] == None
      invariant forall j :: firstDay <= j < |grid| ==> grid[j] == Some(cellOf(j - firstDay + 1))
    {
      grid := grid + [Some(cellOf(i))];
    }
  }

  /**
   * The grid of `month` (0-based) of `year`, given the month's `firstDay` and `days` as
   * `MonthLayout` computes them: `firstDay` blanks, then the days 1 to `days`, each with its
   * date string and statistics.
   */
  method CalendarDays(rows: seq<Reservation>, year: nat, month: nat, firstDay: nat, days: nat)
    returns (calendarDays: seq<Option<Cell>>)
    ensures |calendarDays| == firstDay + days
    ensures forall i :: 0 <= i < firstDay ==> calendarDays[i] == None
    ensures forall i :: firstDay <= i < |calendarDays| ==> calendarDays[i] == Some(DayCell(rows, year, month + 1, i - firstDay + 1))
  {
    var cellOf := (day: nat) => DayCell(rows, year, month + 1, day);
    calendarDays := FillGrid(firstDay, days, cellOf);
    forall i | firstDay <= i < |calendarDays|
      ensures calendarDays[i] == Some(DayCell(rows, year, month + 1, i - firstDay + 1))
    {
      var day: nat := i - firstDay + 1;
      assert calendarDays[i] == Some(cellOf(day));
      assert cellOf(day) == DayCell(rows, year, month + 1, day);
    }
  }

  /**
   * The grid lines up with the weekday header: for a four-digit year, the cell at position
   * `i` holds a date string that reads back as that day of the month, and its weekday is
   * column `i % 7` (0 for Sunday).
   */
  lemma CalendarColumnIsWeekday(year: nat, month: nat, i: nat)
    requires 1000 <= year <= 9999 && month < 12
    requires Weekday(year, month + 1, 1) <= i < Weekday(year, month + 1, 1) + DaysInMonth(year, month + 1)
    ensures var day := i - Weekday(year, month + 1, 1) + 1;
      && ParseIsoDate(FormatDate(year, month + 1, day)) == Some(Date(year, month + 1, day))
      && DayOfWeek(FormatDate(year, month + 1, day)) == Some(i % 7)
  {
    var firstDay := Weekday(year, month + 1, 1);
    var day := i - firstDay + 1;
    ParseFormatRoundTrip(Date(year, month + 1, day));
    WeekdayInMonth(year, month + 1, day);
  }

  /** In June 2026 the first falls on a Monday: one blank, then the 30 days of June. */
  lemma June2026Grid()
    ensures Weekday(2026, 6, 1) == 1 && DaysInMonth(2026, 6) == 30
  {
  }
}
