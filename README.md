# Lounge booking: a verified model of the reservation engine

The lounge booking system lets signed-in members reserve three-hour slots in a shared lounge.
This project models its reservation engine in Dafny and proves what the engine promises. The
engine has five parts:

- **The slot catalog.** Weekdays offer three evening slots. Saturdays, Sundays and the listed
  public holidays of 2026 offer twelve slots, one starting on every hour from 10:00 to 21:00.
- **The reservation endpoint.** It lists every reservation. It books a slot, enforcing one
  reservation per user per day and one reservation per slot. It cancels a reservation, but only
  for its owner.
- **The availability endpoint.** It answers the booked slots of one date. Without a date, it
  answers a dictionary from each date, today or later, to that date's booked slots.
- **The administrator's delete endpoint.** It removes a reservation by id, whoever owns it.
- **The administrator's dashboard.** For each date it computes the statistics (slots offered,
  booked and left) and the "full" and "booked" markers. It also builds the month calendar grid.

The modules follow the source files:

| module | file | role |
|---|---|---|
| `CalendarDates` | `calendar_dates.dfy` | `YYYY-MM-DD` strings, string order, weekdays and month lengths |
| `TimeSlots` | `time_slots.dfy` | the slot catalog |
| `ReservationStore` | `reservation_store.dfy` | the reservation table as a class and its queries |
| `ReservationsRoute` | `reservations_route.dfy` | `GET`, `POST` and `DELETE` of the reservation endpoint |
| `AdminReservationsRoute` | `admin_reservations_route.dfy` | the administrator's `DELETE` |
| `AvailabilityRoute` | `availability_route.dfy` | the availability `GET` |
| `AdminDashboard` | `admin_dashboard.dfy` | daily statistics, markers and the calendar grid |
| `Wrappers` | `wrappers.dfy` | `Option` |

**The table.** The reservation table is the class `ReservationTable`. Its field `rows` is the
sequence of rows in table order. The queries `FindFirstByUserDate`, `FindUniqueBySlot` and
`FindUniqueById` and the method `Delete` loop over the rows; `FindMany` and `Create` do not.
Each method is proved against a specification function. The table's own guarantees are a unique id
per row and a unique `(date, timeSlot)` pair. They make up its `Valid()` invariant, which every
handler keeps.

**The handlers.** Each handler is specified twice:

- as a pure function (`Booking`, `Cancellation`, `AdminDeletion`) that gives the outcome and the
  table afterwards;
- as a method over the table that runs the source's steps in the source's order.

Each method's postcondition says it agrees with its function. The properties are proved about
the functions.

**Dates.** The source asks JavaScript `Date` for the day of the week and for month lengths.
This model uses pure definitions instead:

- a date string is read as `YYYY-MM-DD`;
- the day of the week is Sakamoto's formula on the proleptic Gregorian calendar;
- month lengths follow the Gregorian leap-year rule.

`WeekdayAdvances` proves that the weekday formula moves forward by one day across every month
and year boundary. The stored `date >= todayStr` comparison is lexicographic order by
character code. `IsoOrderIsChronological` proves that, on zero-padded dates with four-digit
years, this order is calendar order.

**Behaviour worth knowing.**

- Only a reservation's owner can cancel it through the user endpoint. Any other caller,
  an administrator included, receives 403 (src/app/api/reservations/route.ts:111-113).
- The administrator's delete checks no capability. An unknown id makes the store's delete
  throw, and the handler then answers 500 (src/app/api/admin/reservations/route.ts:13-24).

## Model

| member | source | states |
|---|---|---|
| `TimeSlots.GetSlotsForDate` | src/utils/timeSlots.ts:41-44 | an empty date string has no slots; otherwise a weekend day or listed holiday gets all 12 weekend slots and any other date 3; the result is always a tail of the weekend catalog |
| `TimeSlots.WeekendSlotsShape` | src/utils/timeSlots.ts:8-13 | the weekend catalog has 12 labels and the i-th is `HH:00-(HH+3):00` with HH = 10 + i |
| `TimeSlots.WeekendSlotsDistinct` | src/utils/timeSlots.ts:8-13 | no weekend label occurs twice |
| `TimeSlots.SlotsForDateDistinct` | src/utils/timeSlots.ts:41-44 | no date's catalog lists a slot twice |
| `TimeSlots.WeekdaySlotsAreEveningWeekendSlots` | src/utils/timeSlots.ts:2-13 | the weekday catalog is exactly the last three weekend labels, so every weekday slot is a weekend slot |
| `TimeSlots.SaturdayScenario` | src/utils/timeSlots.ts:34-43 | 2026-06-13 falls on a Saturday and gets the twelve weekend slots, from 10:00-13:00 to 21:00-24:00 |
| `TimeSlots.WednesdayScenario` | src/utils/timeSlots.ts:34-43 | 2026-06-10 falls on a Wednesday, is no holiday, and gets exactly the three evening slots |
| `TimeSlots.IsHoliday` | src/utils/timeSlots.ts:30-32 | `HOLIDAYS.includes` (the body); every listed holiday reads as a `YYYY-MM-DD` date of 2026 |
| `TimeSlots.IsWeekendOrHoliday` | src/utils/timeSlots.ts:34-39 | never for the empty string; always for a listed holiday; otherwise exactly when the string's weekday is Sunday or Saturday; only a string that reads as a date qualifies |
| `TimeSlots.WeekendOrHolidayOfDate` | src/utils/timeSlots.ts:34-39 | a date written with a four-digit year qualifies exactly when the Gregorian calendar puts it on a Saturday or Sunday or it is listed |
| `CalendarDates.DecimalString` | src/app/api/availability/route.ts:28 | the rendering of a number is a non-empty digit string that denotes that number, without leading zeros |
| `CalendarDates.Pad2` | src/app/api/availability/route.ts:28 | `padStart(2, "0")`: at least two digits, exactly two below 100, and they denote the number |
| `CalendarDates.FormatDate` | src/app/api/availability/route.ts:28 | the template `${year}-${pad(month)}-${pad(day)}`: for a four-digit year and two-digit fields it has the `YYYY-MM-DD` shape (10 characters, dashes at positions 4 and 7, digits elsewhere) |
| `CalendarDates.ParseFormatRoundTrip` | src/app/api/availability/route.ts:28 | a date with a four-digit year, month 1-12 and day 1-31, written as `YYYY-MM-DD`, reads back as the same date |
| `CalendarDates.FormatParseRoundTrip` | src/app/api/availability/route.ts:28 | a date string that reads as a date with a four-digit year is exactly the formatting of that date |
| `CalendarDates.IsoOrderIsChronological` | src/app/api/availability/route.ts:30-35 | for such dates, string order on their `YYYY-MM-DD` forms holds exactly when the first date is the same day as the second or earlier |
| `CalendarDates.LexLeq` | src/app/api/availability/route.ts:32-34 | the string order of the `gte` filter; every string is below itself |
| `CalendarDates.LexLeqFirstDifference` | src/app/api/availability/route.ts:32-34 | `a` is below `b` exactly when `a` is a prefix of `b` or has the smaller character at the first position where they differ |
| `CalendarDates.DayOfWeek` | src/utils/timeSlots.ts:36-37 | a date string has a weekday (0 for Sunday to 6 for Saturday) exactly when it reads as a date |
| `CalendarDates.DaysInMonth` | src/components/AdminDashboard.tsx:50 | every month has 28 to 31 days |
| `CalendarDates.NextDay` | src/components/AdminDashboard.tsx:50 | the day after a valid date is a valid date |
| `CalendarDates.WeekdayAdvances` | src/utils/timeSlots.ts:36-37 | the day after any valid date falls on the next weekday, across month ends, leap and common Februaries and year ends |
| `CalendarDates.WeekdayInMonth` | src/components/AdminDashboard.tsx:51 | within a month, day `d` falls `d - 1` weekdays after the first |
| `ReservationStore.OnDate` | src/components/AdminDashboard.tsx:69 | the rows on a date are exactly the table's rows with that date, and there are no more of them than rows |
| `ReservationStore.OnDateConcat` | src/components/AdminDashboard.tsx:69 | the filter keeps table order: the rows on a date of a concatenation are those of each part, in order |
| `ReservationStore.OnDateAppend` | src/components/AdminDashboard.tsx:69 | an appended row joins the end of the filtered rows exactly when it has the date |
| `ReservationStore.OnDateCount` | src/components/AdminDashboard.tsx:69 | the rows on a date are exactly as many as the table's positions holding that date |
| `ReservationStore.IndexOfId` | src/app/api/reservations/route.ts:103-105 | the position found holds the id and no earlier row does; there is none exactly when no row has the id |
| `ReservationStore.Without` | src/app/api/reservations/route.ts:115-117 | removing position k gives one row fewer, the same multiset minus that row, and the other rows in their order |
| `ReservationStore.WithoutPreservesInvariants` | src/app/api/reservations/route.ts:115-117 | removing a row keeps unique ids, the `date_timeSlot` key and the one-per-user-per-day cap, and adds no row |
| `ReservationStore.WithoutRemovesId` | src/app/api/admin/reservations/route.ts:17-19 | with unique ids, after the removal no row carries the id and every row with another id remains |
| `ReservationStore.WithoutFreesSlot` | src/app/api/reservations/route.ts:115-117 | under the composite key, after the removal the row's slot on its date is free |
| `ReservationStore.AppendKeepsKeys` | src/app/api/reservations/route.ts:65-71 | appending a row whose id and slot are both unused keeps both keys |
| `ReservationStore.ReservationTable.constructor` | src/app/api/reservations/route.ts:8-17 | an empty table satisfies the keys |
| `ReservationStore.ReservationTable.FindMany` | src/app/api/reservations/route.ts:8-17 | every row, in table order |
| `ReservationStore.ReservationTable.FindFirstByUserDate` | src/app/api/reservations/route.ts:34-39 | finds a row of that user on that date exactly when one exists |
| `ReservationStore.ReservationTable.FindUniqueBySlot` | src/app/api/reservations/route.ts:49-56 | finds a row holding that slot on that date exactly when one exists |
| `ReservationStore.ReservationTable.FindUniqueById` | src/app/api/reservations/route.ts:103-105 | finds the row with that id exactly when one exists, namely the row at `IndexOfId` |
| `ReservationStore.ReservationTable.Create` | src/app/api/reservations/route.ts:65-71 | appends the row exactly when its id and its `(date, timeSlot)` are unused, otherwise changes nothing; the keys hold afterwards |
| `ReservationStore.ReservationTable.Delete` | src/app/api/reservations/route.ts:115-117 | succeeds exactly when a row has the id, and then removes that row and no other; the keys hold afterwards |
| `ReservationsRoute.Booking` | src/app/api/reservations/route.ts:26-82 | 401 exactly without a signed-in user; 400 (daily cap) exactly when the user already holds that date; 400 (slot taken) exactly when the cap passes and the slot is held; 201 exactly when all pass and the new id is unused, appending exactly `(id, user, date, slot)`; every refusal leaves the table unchanged; unique ids, the composite key and the daily cap are preserved |
| `ReservationsRoute.SignedIn` | src/app/api/reservations/route.ts:26-29 | `!userId` fails exactly when the session carries a non-empty user id |
| `ReservationsRoute.AppendKeepsDailyCap` | src/app/api/reservations/route.ts:33-46 | appending a row for a user with nothing on that date keeps the one-per-user-per-day cap |
| `ReservationsRoute.Cancellation` | src/app/api/reservations/route.ts:91-119 | in order: 401 without a signed-in user, 400 without an id, 404 for an unknown id, 403 when another user owns it, each leaving the table unchanged; otherwise the owner's row is removed; the keys and the cap are preserved |
| `ReservationsRoute.CancellationRemovesExactlyOne` | src/app/api/reservations/route.ts:111-119 | a successful cancellation removes exactly the caller's row: one fewer, same multiset minus it, its id gone, every other row kept, its slot free |
| `ReservationsRoute.RebookAfterCancellation` | src/app/api/reservations/route.ts:48-71 | once the owner cancels, another signed-in user with nothing on that date can book the freed slot |
| `ReservationsRoute.IndexOfAppended` | src/app/api/reservations/route.ts:65-71 | the id of an appended row with a fresh id is found at the end of the table |
| `ReservationsRoute.CancelUndoesBooking` | src/app/api/reservations/route.ts:65-117 | cancelling the booking one has just made answers 200 and gives back the table as it was |
| `ReservationsRoute.RepeatRequestHitsDailyLimit` | src/app/api/reservations/route.ts:33-63 | asking again for one's own slot is refused by the daily cap, which is checked before the slot |
| `ReservationsRoute.SecondUserFindsSlotTaken` | src/app/api/reservations/route.ts:48-63 | when two users ask for one slot, the first gets 201 and the second gets 400 with the table unchanged |
| `ReservationsRoute.Get` | src/app/api/reservations/route.ts:6-18 | answers every row in table order and changes nothing |
| `ReservationsRoute.Post` | src/app/api/reservations/route.ts:24-87 | runs the checks against the table and answers and leaves the table exactly as `Booking` says, keeping the table's keys |
| `ReservationsRoute.Delete` | src/app/api/reservations/route.ts:89-124 | runs the checks against the table and answers and leaves the table exactly as `Cancellation` says, keeping the table's keys |
| `AdminReservationsRoute.AdminDeletion` | src/app/api/admin/reservations/route.ts:4-24 | 400 exactly for a missing id; 500 exactly for an unknown id; both leave the table unchanged; otherwise the row with the id is removed; the keys and the cap are preserved |
| `AdminReservationsRoute.AdminDeletesAnyOwner` | src/app/api/admin/reservations/route.ts:17-21 | an existing reservation is deleted whoever owns it (200): exactly that row goes, every other row stays, its slot is free |
| `AdminReservationsRoute.AdminDeletionMatchesOwnerCancellation` | src/app/api/admin/reservations/route.ts:17-19 | where the owner's cancellation succeeds, the administrator's delete succeeds with the same table |
| `AdminReservationsRoute.AdminOverridesForbidden` | src/app/api/admin/reservations/route.ts:13-19 | where the owner's endpoint answers 403 and keeps the table, the administrator's delete goes through and changes it |
| `AdminReservationsRoute.Delete` | src/app/api/admin/reservations/route.ts:4-24 | answers and leaves the table exactly as `AdminDeletion` says, keeping the table's keys |
| `AvailabilityRoute.BookedSlots` | src/app/api/availability/route.ts:12-22 | one label per row on the date, in table order; a label is listed exactly when some row holds it on that date |
| `AvailabilityRoute.BookedSlotsDistinct` | src/app/api/availability/route.ts:12-22 | under the composite key, a date's booked labels are pairwise distinct |
| `AvailabilityRoute.FromDate` | src/app/api/availability/route.ts:30-40 | keeps a row exactly when its date is not before `todayStr` in string order |
| `AvailabilityRoute.FromDateConcat` | src/app/api/availability/route.ts:30-40 | the range query keeps table order: the rows kept from a concatenation are those of each part, in order |
| `AvailabilityRoute.FromDateAppend` | src/app/api/availability/route.ts:30-40 | an appended row joins the end of the kept rows exactly when its date is not before `todayStr` |
| `AvailabilityRoute.FromDateCount` | src/app/api/availability/route.ts:30-40 | the rows kept are exactly as many as the table's positions dated not before `todayStr` |
| `AvailabilityRoute.Grouped` | src/app/api/availability/route.ts:44-51 | the dictionary's keys are exactly the dates that occur, and no list is empty |
| `AvailabilityRoute.GroupedStep` | src/app/api/availability/route.ts:46-51 | one row opens its date's list or appends its label to it, and leaves every other date's list alone |
| `AvailabilityRoute.GroupByDate` | src/app/api/availability/route.ts:44-51 | the `forEach` pass builds exactly the grouped dictionary |
| `AvailabilityRoute.GroupedCountsEveryRow` | src/app/api/availability/route.ts:44-51 | summed over the keys, each listed once, the lists hold exactly as many labels as there are rows |
| `AvailabilityRoute.UpcomingKeys` | src/app/api/availability/route.ts:30-51 | a date is a key of the range answer exactly when it is not before today and some row is on it |
| `AvailabilityRoute.BookedSlotsFromDate` | src/app/api/availability/route.ts:30-40 | dropping the rows before today leaves the labels of a date from today on unchanged |
| `AvailabilityRoute.RangeAgreesWithSingleDate` | src/app/api/availability/route.ts:12-51 | a date's list in the range answer equals the single-date answer for that date, in table order |
| `AvailabilityRoute.TodayString` | src/app/api/availability/route.ts:27-28 | for a four-digit year, today's string is 10 characters long and reads back as today |
| `AvailabilityRoute.UpcomingMeansNotBeforeToday` | src/app/api/availability/route.ts:28-40 | a row with a well-formed four-digit-year date is kept exactly when its date is today or later in the calendar |
| `AvailabilityRoute.Get` | src/app/api/availability/route.ts:5-53 | with a date, that date's labels; without one, the grouped dictionary of the rows from today on; the table is not changed |
| `AdminDashboard.GetDailyStats` | src/components/AdminDashboard.tsx:66-76 | an empty date gives all zeros and no slots; `slots` is the date's catalog and `total` its length; `booked` counts the rows on the date; `available` is `total - booked` clamped at zero, so never above `total` |
| `AdminDashboard.Max` | src/components/AdminDashboard.tsx:73 | `Math.max`: the result is at least both arguments and is one of them |
| `AdminDashboard.IsFull` | src/components/AdminDashboard.tsx:130 | a cell is full exactly when its date is non-empty, has a non-empty catalog and holds at least as many reservations as the catalog has slots |
| `AdminDashboard.IsBooked` | src/components/AdminDashboard.tsx:201 | `some`: true exactly when some position of the list holds that slot on the selected date |
| `AdminDashboard.IsBookedMeansHeld` | src/components/AdminDashboard.tsx:201 | a slot card is marked booked exactly when some row holds that slot on the selected date, which is exactly when the availability endpoint lists it |
| `AdminDashboard.FullMeansEverySlotBooked` | src/components/AdminDashboard.tsx:130 | when the date's rows respect the composite key and the catalog, `booked` never exceeds `total`, `available` counts the catalog slots nobody holds, and a cell is full exactly when every catalog slot is held |
| `AdminDashboard.MonthLayout` | src/components/AdminDashboard.tsx:47-53 | the month's first weekday (0-6) and length (28-31); the length is the month's last valid day, after which comes the 1st |
| `AdminDashboard.FillGrid` | src/components/AdminDashboard.tsx:81-87 | the two loops push `firstDay` blanks and then the cells of days 1 to `days`, in order |
| `AdminDashboard.DayCell` | src/components/AdminDashboard.tsx:83-86 | the cell of day `i` carries `i`, the statistics of its date string, and for a four-digit year a date string that reads back as that day |
| `AdminDashboard.CalendarDays` | src/components/AdminDashboard.tsx:80-87 | the grid is `firstDay` blanks followed by one cell per day, numbered from 1, each carrying its `YYYY-MM-DD` string and that date's statistics |
| `AdminDashboard.CalendarColumnIsWeekday` | src/components/AdminDashboard.tsx:81-87 | with the month's own layout and a four-digit year, the cell at position i holds a date string that reads back as its day, and that day's weekday is column i mod 7 |
| `AdminDashboard.June2026Grid` | src/components/AdminDashboard.tsx:47-53 | June 2026 starts on a Monday and has 30 days |

## Left out

- Rendering: all JSX, styling, the header, the navigation buttons and the selected-date state of the dashboard are not modelled.
- Authentication: reading the session cookie is an input `session: Option<UserId>`. An absent or empty cookie means no user. Login, registration and logout are not part of this model.
- The Discord notification after a booking, and the user lookup that names the booker in it, are not modelled. They never change the answer or the table.
- The joined user fields (`name`, `username`) that `GET` attaches to each row are not modelled.
- Request parsing: requests whose body or query string cannot be read, and fields that are missing or are not strings, are not modelled. The model takes `date`, `timeSlot` and `id` as strings. `""` stands for an absent availability `date` parameter and for an absent `id`. A booking request without `date` is not modelled: there the store drops the missing filter field, and the model would instead book a row dated `""`.
- The store client: the availability route is taken to reach the same reservation table as the other handlers. Its named import of the store client (src/app/api/availability/route.ts:2) does not match the client module's default export (src/lib/prisma.ts:17); where that import resolves to nothing, every availability request would end in the catch-all 500 (src/app/api/availability/route.ts:55-60), which is not modelled.
- Database faults other than key clashes, which end in the same catch-all 500, are not modelled.
- `ReservationsRoute.Booking`: the store generates the new row's id. Here it is an input `newId`, and an id already in the table stands for the store refusing the row (`CreateFailed`, 500).
- Concurrency: each handler is one atomic step over the table. Two bookings that interleave between the checks and `create` are not modelled. The composite key would still refuse the second one, as `Create` states.
- `ReservationStore.ReservationTable.FindMany`: the source asks for no ordering. The model answers rows in table order, and the in-order properties of the availability answer rely on this.
- `CalendarDates.LexLeq`: the store's `gte` comparison on dates is taken to be character-code order, which assumes a binary collation.
- `CalendarDates.DayOfWeek`: the source parses the string with `new Date` and reads the weekday in the server's local time zone. The model reads `YYYY-MM-DD` (month 1-12, day 1-31) and applies the proleptic Gregorian calendar. Time-zone shifts, the looser formats `Date` accepts, and day numbers beyond the month's length are not modelled.
- `AvailabilityRoute.Get`: the `month` query parameter is read but never used, so the method does not take it. The clock becomes the parameter `today`.
- `AvailabilityRoute.GroupByDate`: every date is treated as a fresh key of the dictionary. In the source, a stored date equal to a property name that plain objects inherit (such as `constructor` or `toString`) makes `push` fail, and the handler answers 500.
- `AvailabilityRoute.TodayString` and `CalendarDates.IsoOrderIsChronological`: what they prove covers years 1000 to 9999 only. A shorter year is written without padding in the source too.
- `AdminDashboard.CalendarDays`: it takes `firstDay` and `days` as parameters, as `MonthLayout` computes them, rather than calling it, and the current month becomes `year` and a 0-based `month`. The cell of each day is handed to the two loops as a function (`FillGrid`).
