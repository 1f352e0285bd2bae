/**
 * The availability endpoint: which slots are already taken.
 *
 * With a non-empty `date` it answers the booked slot labels of that date, in table order.
 * Without one it answers a dictionary from date to booked labels, covering every reservation
 * dated today or later. "Later" is string order on the stored date and today's date written as
 * `YYYY-MM-DD`. The dictionary is built by one pass over the rows that opens a list for a
 * date's first row and appends each row's label to its date's list.
 */
module AvailabilityRoute {
  import opened Wrappers
  import opened CalendarDates
  import opened ReservationStore
  import TimeSlots

  /** The labels of the slots booked on `date`, in table order. */
  function BookedSlots(rows: seq<Reservation>, date: string): (slots: seq<string>)
    ensures |slots| == |OnDate(rows, date)|
    ensures forall i :: 0 <= i < |slots| ==> slots[i] == OnDate(rows, date)[i].timeSlot
    ensures forall s :: s in slots <==> SlotHeld(rows, date, s)
  {
    if rows == [] then []
    else
      var init, last := rows[..|rows| - 1], rows[|rows| - 1];
      assert rows == init + [last];
      assert forall r :: r in rows <==> r in init || r == last;
      BookedSlots(init, date) + (if last.date == date then [last.timeSlot] else [])
  }

  /** With the composite key in force, a date's booked labels are pairwise distinct. */
  lemma {:induction false} BookedSlotsDistinct(rows: seq<Reservation>, date: string)
    requires SlotsUnique(rows)
    ensures TimeSlots.Distinct(BookedSlots(rows, date))
    decreases |rows|
  {
    if rows != [] {
      var init, last := rows[..|rows| - 1], rows[|rows| - 1];
      assert rows == init + [last];
      assert SlotsUnique(init);
      BookedSlotsDistinct(init, date);
      LastSlotNotHeldBefore(init, last);
    }
  }

  /** Under the composite key, the last row's slot is not held by any earlier row. */
  lemma LastSlotNotHeldBefore(init: seq<Reservation>, last: Reservation)
    requires SlotsUnique(init + [last])
    ensures !SlotHeld(init, last.date, last.timeSlot)
  {
    var rows := init + [last];
    forall i | 0 <= i < |init|
      ensures !(init[i].date == last.date && init[i].timeSlot == last.timeSlot)
    {
      assert rows[i] == init[i] && rows[|init|] == last;
    }
  }

  /** The rows dated `today` or later under string order (`date: { gte: todayStr }`), in table order. */
  function FromDate(rows: seq<Reservation>, todayStr: string): (upcoming: seq<Reservation>)
    ensures |upcoming| <= |rows|
    ensures forall r :: r in upcoming <==> r in rows && LexLeq(todayStr, r.date)
  {
    if rows == [] then []
    else
      var init, last := rows[..|rows| - 1], rows[|rows| - 1];
      assert rows == init + [last];
      FromDate(init, todayStr) + (if LexLeq(todayStr, last.date) then [last] else [])
  }

  /**
   * `FromDate` keeps the table order: filtering a concatenation filters each part and keeps
   * them in order.
   */
  lemma {:induction false} FromDateConcat(a: seq<Reservation>, b: seq<Reservation>, todayStr: string)
    ensures FromDate(a + b, todayStr) == FromDate(a, todayStr) + FromDate(b, todayStr)
    decreases |b|
  {
    if b == [] {
      assert a + b == a;
    } else {
      var init, last := b[..|b| - 1], b[|b| - 1];
      assert b == init + [last] && a + b == (a + init) + [last];
      FromDateConcat(a, init, todayStr);
      FromDateAppend(a + init, last, todayStr);
      FromDateAppend(init, last, todayStr);
      var tail := if LexLeq(todayStr, last.date) then [last] else [];
      calc {
        FromDate(a + b, todayStr);
        FromDate(a + init, todayStr) + tail;
        (FromDate(a, todayStr) + FromDate(init, todayStr)) + tail;
        FromDate(a, todayStr) + (FromDate(init, todayStr) + tail);
        FromDate(a, todayStr) + FromDate(b, todayStr);
      }
    }
  }

  /** Appending a row appends it to the filtered rows exactly when it qualifies. */
  lemma FromDateAppend(init: seq<Reservation>, last: Reservation, todayStr: string)
    ensures FromDate(init + [last], todayStr) == FromDate(init, todayStr) + (if LexLeq(todayStr, last.date) then [last] else [])
  {
    var rows := init + [last];
    assert rows[..|rows| - 1] == init && rows[|rows| - 1] == last;
  }

  /** The rows kept are as many as the positions of the table dated not before `todayStr`. */
  lemma {:induction false} FromDateCount(rows: seq<Reservation>, todayStr: string)
    ensures |FromDate(rows, todayStr)| == |PositionsWhere(rows, (r: Reservation) => LexLeq(todayStr, r.date))|
    decreases |rows|
  {
    var upcoming := (r: Reservation) => LexLeq(todayStr, r.date);
    if rows == [] {
      assert PositionsWhere(rows, upcoming) == {};
    } else {
      var init, last := rows[..|rows| - 1], rows[|rows| - 1];
      FromDateCount(init, todayStr);
      PositionsWhereAppend(rows, upcoming);
      assert |FromDate(rows, todayStr)| == |FromDate(init, todayStr)| + (if LexLeq(todayStr, last.date) then 1 else 0);
    }
  }

  /** The dates that occur in `rows`. */
  function DatesOf(rows: seq<Reservation>): set<string>
  {
    set r | r in rows :: r.date
  }

  /**
   * The dictionary the range branch builds: one key per date that occurs, mapped to that
   * date's booked labels.
   */
  function Grouped(rows: seq<Reservation>): (g: map<string, seq<string>>)
    ensures g.Keys == DatesOf(rows)
    ensures forall d :: d in g ==> |g[d]| > 0
  {
    var g := map d | d in DatesOf(rows) :: BookedSlots(rows, d);
    assert forall d :: d in g ==> |g[d]| > 0 by {
      forall d | d in g
        ensures |g[d]| > 0
      {
        var r :| r in rows && r.date == d;
        assert r.timeSlot in g[d];
      }
    }
    g
  }

  /** A date with no rows has no booked labels. */
  lemma BookedSlotsAbsent(rows: seq<Reservation>, date: string)
    requires date !in DatesOf(rows)
    ensures BookedSlots(rows, date) == []
  {
    assert !exists s :: SlotHeld(rows, date, s);
  }

  /** Appending a row extends its own date's labels and no other date's. */
  lemma BookedSlotsAppend(prefix: seq<Reservation>, r: Reservation, date: string)
    ensures BookedSlots(prefix + [r], date) == BookedSlots(prefix, date) + (if r.date == date then [r.timeSlot] else [])
  {
    var rows := prefix + [r];
    assert rows[..|rows| - 1] == prefix;
  }

  /** Appending a row adds its date to the dates that occur. */
  lemma DatesOfAppend(prefix: seq<Reservation>, r: Reservation)
    ensures DatesOf(prefix + [r]) == DatesOf(prefix) + {r.date}
  {
    assert forall x :: x in prefix + [r] <==> x in prefix || x == r;
  }

  /** One step of the grouping pass: the row opens its date's list or extends it. */
  lemma GroupedStep(prefix: seq<Reservation>, r: Reservation)
    ensures var g := Grouped(prefix);
      Grouped(prefix + [r]) == g[r.date := (if r.date in g then g[r.date] else []) + [r.timeSlot]]
  {
    var g, g' := Grouped(prefix), Grouped(prefix + [r]);
    var h := g[r.date := (if r.date in g then g[r.date] else []) + [r.timeSlot]];
    DatesOfAppend(prefix, r);
    forall d | d in g'
      ensures d in h && g'[d] == h[d]
    {
      BookedSlotsAppend(prefix, r, d);
      if d !in DatesOf(prefix) {
        BookedSlotsAbsent(prefix, d);
      }
    }
  }

  /** The step of the pass over `rows[i]`, stated on the prefixes of `rows`. */
  lemma GroupedPrefixStep(rows: seq<Reservation>, i: nat)
    requires i < |rows|
    ensures var g, r := Grouped(rows[..i]), rows[i];
      Grouped(rows[..i + 1]) == g[r.date := (if r.date in g then g[r.date] else []) + [r.timeSlot]]
  {
    assert rows[..i + 1] == rows[..i] + [rows[i]];
    GroupedStep(rows[..i], rows[i]);
  }

  /** Opening an empty list for a missing key and then appending is one update. */
  lemma OpenThenAppend(m: map<string, seq<string>>, key: string, slot: string)
    ensures var started := if key in m then m else m[key := []];
      started[key := started[key] + [slot]] == m[key := (if key in m then m[key] else []) + [slot]]
  {
  }

  /** The `forEach` that fills `availabilityMap`; it computes `Grouped(rows)`. */
  method GroupByDate(rows: seq<Reservation>) returns (availabilityMap: map<string, seq<string>>)
    ensures availabilityMap == Grouped(rows)
  {
    availabilityMap := map[];
    var i := 0;
    while i < |rows|
      invariant 0 <= i <= |rows|
      invariant availabilityMap == Grouped(rows[..i])
    {
      var r := rows[i];
      OpenThenAppend(availabilityMap, r.date, r.timeSlot);
      GroupedPrefixStep(rows, i);
      if r.date !in availabilityMap {
        availabilityMap := availabilityMap[r.date := []];
      }
      availabilityMap := availabilityMap[r.date := availabilityMap[r.date] + [r.timeSlot]];
      i := i + 1;
    }
    assert rows[..i] == rows;
  }

  /** The number of rows whose date lies in `dates`. */
  function CountIn(rows: seq<Reservation>, dates: set<string>): nat
  {
    if rows == [] then 0
    else CountIn(rows[..|rows| - 1], dates) + (if rows[|rows| - 1].date in dates then 1 else 0)
  }

  /** The total length of the lists that `g` holds under the keys `ds`. */
  function TotalLength(g: map<string, seq<string>>, ds: seq<string>): nat
  {
    if ds == [] then 0
    else (if ds[0] in g then |g[ds[0]]| else 0) + TotalLength(g, ds[1..])
  }

  lemma {:induction false} CountInAddDate(rows: seq<Reservation>, d: string, dates: set<string>)
    requires d !in dates
    ensures CountIn(rows, dates + {d}) == |OnDate(rows, d)| + CountIn(rows, dates)
    decreases |rows|
  {
    if rows != [] {
      var init := rows[..|rows| - 1];
      assert rows == init + [rows[|rows| - 1]];
      CountInAddDate(init, d, dates);
    }
  }

  lemma {:induction false} CountInAllDates(rows: seq<Reservation>, dates: set<string>)
    requires DatesOf(rows) <= dates
    ensures CountIn(rows, dates) == |rows|
    decreases |rows|
  {
    if rows != [] {
      var init := rows[..|rows| - 1];
      assert rows == init + [rows[|rows| - 1]];
      assert DatesOf(init) <= DatesOf(rows);
      CountInAllDates(init, dates);
    }
  }

  lemma {:induction false} TotalLengthCounts(rows: seq<Reservation>, ds: seq<string>)
    requires TimeSlots.Distinct(ds)
    ensures TotalLength(Grouped(rows), ds) == CountIn(rows, set d | d in ds)
    decreases |ds|
  {
    if ds == [] {
      assert (set d | d in ds) == {};
      CountInNone(rows);
    } else {
      var rest := ds[1..];
      assert TimeSlots.Distinct(rest) by {
        forall i, j | 0 <= i < j < |rest|
          ensures rest[i] != rest[j]
        {
          assert rest[i] == ds[i + 1] && rest[j] == ds[j + 1];
        }
      }
      TotalLengthCounts(rows, rest);
      assert ds[0] !in rest by {
        forall i | 0 <= i < |rest|
          ensures rest[i] != ds[0]
        {
          assert rest[i] == ds[i + 1];
        }
      }
      assert (set d | d in ds) == (set d | d in rest) + {ds[0]} by {
        assert ds == [ds[0]] + rest;
      }
      CountInAddDate(rows, ds[0], set d | d in rest);
      if ds[0] !in Grouped(rows) {
        assert ds[0] !in DatesOf(rows);
        BookedSlotsAbsent(rows, ds[0]);
      }
    }
  }

  lemma {:induction false} CountInNone(rows: seq<Reservation>)
    ensures CountIn(rows, {}) == 0
    decreases |rows|
  {
    if rows != [] {
      CountInNone(rows[..|rows| - 1]);
    }
  }

  /**
   * Every grouped row is counted exactly once: summed over its keys, listed once each, the
   * dictionary's lists hold as many labels as there are rows.
   */
  lemma GroupedCountsEveryRow(rows: seq<Reservation>, keys: seq<string>)
    requires TimeSlots.Distinct(keys)
    requires forall d :: d in keys <==> d in Grouped(rows)
    ensures TotalLength(Grouped(rows), keys) == |rows|
  {
    TotalLengthCounts(rows, keys);
    CountInAllDates(rows, set d | d in keys);
  }

  /** The range branch's keys are exactly the dates, today or later, on which something is booked. */
  lemma UpcomingKeys(rows: seq<Reservation>, todayStr: string, date: string)
    ensures date in Grouped(FromDate(rows, todayStr)) <==>
      LexLeq(todayStr, date) && exists r :: r in rows && r.date == date
  {
    if date in Grouped(FromDate(rows, todayStr)) {
      var r :| r in FromDate(rows, todayStr) && r.date == date;
    }
  }

  /** Dropping the rows dated before today leaves a date from today on with the same labels. */
  lemma {:induction false} BookedSlotsFromDate(rows: seq<Reservation>, todayStr: string, date: string)
    requires LexLeq(todayStr, date)
    ensures BookedSlots(FromDate(rows, todayStr), date) == BookedSlots(rows, date)
    decreases |rows|
  {
    if rows != [] {
      var init, last := rows[..|rows| - 1], rows[|rows| - 1];
      assert rows == init + [last];
      BookedSlotsFromDate(init, todayStr, date);
      BookedSlotsAppend(init, last, date);
      var up := FromDate(init, todayStr);
      if LexLeq(todayStr, last.date) {
        assert FromDate(rows, todayStr) == up + [last];
        BookedSlotsAppend(up, last, date);
      } else {
        assert FromDate(rows, todayStr) == up;
        assert last.date != date;
      }
    }
  }

  /**
   * The two branches agree: a date's list in the range answer is what the single-date request
   * for that date answers.
   */
  lemma RangeAgreesWithSingleDate(rows: seq<Reservation>, todayStr: string, date: string)
    ensures date in Grouped(FromDate(rows, todayStr)) ==>
      Grouped(FromDate(rows, todayStr))[date] == BookedSlots(rows, date)
  {
    if date in Grouped(FromDate(rows, todayStr)) {
      UpcomingKeys(rows, todayStr, date);
      BookedSlotsFromDate(rows, todayStr, date);
    }
  }

  /** What the handler answers: a single date's labels, or the dictionary by date. */
  datatype Availability =
    | TimeSlotsOf(timeSlots: seq<string>)
    | AvailabilityMap(availabilityMap: map<string, seq<string>>)

  /** `todayStr`: today's date as `YYYY-MM-DD`, with month and day zero-padded. */
  function TodayString(today: Date): (todayStr: string)
    ensures Formattable(today) ==> ParseIsoDate(todayStr) == Some(today) && |todayStr| == 10
  {
    var todayStr := FormatDate(today.year, today.month, today.day);
    if Formattable(today) then
      ParseFormatRoundTrip(today);
      FormatDateParts(today);
      todayStr
    else todayStr
  }

  /**
   * The range branch keeps a row exactly when its date, read as a calendar date, is today or
   * later: string order agrees with calendar order on well-formed dates.
   */
  lemma UpcomingMeansNotBeforeToday(rows: seq<Reservation>, today: Date, r: Reservation)
    requires Formattable(today) && r in rows
    requires ParseIsoDate(r.date).Some? && ParseIsoDate(r.date).value.year >= 1000
    ensures r in FromDate(rows, TodayString(today)) <==> OnOrBefore(today, ParseIsoDate(r.date).value)
  {
    var d := ParseIsoDate(r.date).value;
    FormatParseRoundTrip(r.date);
    IsoOrderIsChronological(today, d);
  }

  /**
   * `GET`: the handler against the table. `today` is the server's local date when the request
   * is served. The handler only reads the table.
   */
  method Get(table: ReservationTable, date: string, today: Date) returns (answer: Availability)
    ensures date != "" ==> answer == TimeSlotsOf(BookedSlots(table.rows, date))
    ensures date == "" ==> answer == AvailabilityMap(Grouped(FromDate(table.rows, TodayString(today))))
  {
    var rows := table.FindMany();
    if date != "" {
      return TimeSlotsOf(BookedSlots(rows, date));
    }
    var todayStr := TodayString(today);
    var upcoming := FromDate(rows, todayStr);
    var availabilityMap := GroupByDate(upcoming);
    return AvailabilityMap(availabilityMap);
  }
}
