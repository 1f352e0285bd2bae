/**
 * The user-facing reservation endpoint: list every reservation, book a slot, cancel one's own
 * reservation.
 *
 * Booking answers 401 without a signed-in user, 400 when the user already holds a reservation
 * on that date (the daily cap), 400 when the slot on that date is taken, and otherwise 201 with
 * the new row. Cancellation answers 401 without a signed-in user, 400 without an id, 404 for an
 * unknown id, 403 when the reservation belongs to someone else, and otherwise 200 after deleting
 * it. The checks run in that order and stop at the first failure.
 *
 * `Booking` and `Cancellation` give each handler's answer and the table afterwards as a value;
 * the handler methods `Get`, `Post` and `Delete` run the same steps on a `ReservationTable`.
 */
module ReservationsRoute {
  import opened Wrappers
  import opened ReservationStore

  /**
   * `!userId` fails: the session cookie carries some non-empty user id. An absent or empty
   * cookie does not identify a user.
   */
  function SignedIn(session: Option<UserId>): (signedIn: bool)
    ensures signedIn <==> exists c: char, u: UserId :: session == Some([c] + u)
  {
    if session.Some? && session.value != "" then
      assert session.value == [session.value[0]] + session.value[1..];
      true
    else false
  }

  datatype PostOutcome =
    | Created(reservation: Reservation)
    | PostUnauthorized
    | DailyLimitReached
    | SlotTaken
    | CreateFailed
  {
    /** The HTTP status the handler answers with. */
    function Status(): int
    {
      match this
      case Created(_) => 201
      case PostUnauthorized => 401
      case DailyLimitReached => 400
      case SlotTaken => 400
      case CreateFailed => 500
    }
  }

  datatype DeleteOutcome =
    | Cancelled
    | DeleteUnauthorized
    | MissingId
    | NotFound
    | Forbidden
  {
    function Status(): int
    {
      match this
      case Cancelled => 200
      case DeleteUnauthorized => 401
      case MissingId => 400
      case NotFound => 404
      case Forbidden => 403
    }
  }

  /** What a handler answered, and the table it left behind. */
  datatype Transition<O> = Transition(outcome: O, rows: seq<Reservation>)

  /**
   * A booking request for `timeSlot` on `date`. `newId` is the id the store would give the new
   * row; the store refuses an id it already holds.
   */
  function Booking(rows: seq<Reservation>, session: Option<UserId>, date: string, timeSlot: string, newId: Id)
    : (t: Transition<PostOutcome>)
    ensures t.outcome == PostUnauthorized <==> !SignedIn(session)
    ensures t.outcome == DailyLimitReached <==> SignedIn(session) && HoldsOnDate(rows, session.value, date)
    ensures t.outcome == SlotTaken <==>
      SignedIn(session) && !HoldsOnDate(rows, session.value, date) && SlotHeld(rows, date, timeSlot)
    ensures t.outcome.Created? <==>
      SignedIn(session) && !HoldsOnDate(rows, session.value, date) && !SlotHeld(rows, date, timeSlot)
      && newId !in Ids(rows)
    ensures t.outcome.Created? ==>
      t.outcome.reservation == Reservation(newId, session.value, date, timeSlot)
      && t.rows == rows + [t.outcome.reservation]
    ensures !t.outcome.Created? ==> t.rows == rows
    ensures IdsUnique(rows) ==> IdsUnique(t.rows)
    ensures SlotsUnique(rows) ==> SlotsUnique(t.rows)
    ensures OnePerUserPerDay(rows) ==> OnePerUserPerDay(t.rows)
  {
    if !SignedIn(session) then Transition(PostUnauthorized, rows)
    else if HoldsOnDate(rows, session.value, date) then Transition(DailyLimitReached, rows)
    else if SlotHeld(rows, date, timeSlot) then Transition(SlotTaken, rows)
    else if newId in Ids(rows) then Transition(CreateFailed, rows)
    else
      var r := Reservation(newId, session.value, date, timeSlot);
      AppendKeepsKeys(rows, r);
      AppendKeepsDailyCap(rows, r);
      Transition(Created(r), rows + [r])
  }

  /** Appending a row for a user with nothing on its date keeps the daily cap. */
  lemma AppendKeepsDailyCap(rows: seq<Reservation>, r: Reservation)
    requires !HoldsOnDate(rows, r.userId, r.date)
    ensures OnePerUserPerDay(rows) ==> OnePerUserPerDay(rows + [r])
  {
    var s := rows + [r];
    forall i | 0 <= i < |rows|
      ensures !(s[i].userId == r.userId && s[i].date == r.date)
    {
      assert s[i] == rows[i] && rows[i] in rows;
    }
  }

  /** A cancellation request for reservation `id`; `""` stands for a missing id. */
  function Cancellation(rows: seq<Reservation>, session: Option<UserId>, id: Id): (t: Transition<DeleteOutcome>)
    ensures t.outcome == DeleteUnauthorized <==> !SignedIn(session)
    ensures t.outcome == MissingId <==> SignedIn(session) && id == ""
    ensures t.outcome == NotFound <==> SignedIn(session) && id != "" && id !in Ids(rows)
    ensures t.outcome == Forbidden <==>
      SignedIn(session) && id != "" && IndexOfId(rows, id).Some?
      && rows[IndexOfId(rows, id).value].userId != session.value
    ensures t.outcome != Cancelled ==> t.rows == rows
    ensures t.outcome == Cancelled ==>
      IndexOfId(rows, id).Some? && rows[IndexOfId(rows, id).value].userId == session.value
      && t.rows == Without(rows, IndexOfId(rows, id).value)
    ensures IdsUnique(rows) ==> IdsUnique(t.rows)
    ensures SlotsUnique(rows) ==> SlotsUnique(t.rows)
    ensures OnePerUserPerDay(rows) ==> OnePerUserPerDay(t.rows)
  {
    if !SignedIn(session) then Transition(DeleteUnauthorized, rows)
    else if id == "" then Transition(MissingId, rows)
    else
      match IndexOfId(rows, id)
      case None => Transition(NotFound, rows)
      case Some(k) =>
        if rows[k].userId != session.value then Transition(Forbidden, rows)
        else
          WithoutPreservesInvariants(rows, k);
          Transition(Cancelled, Without(rows, k))
  }

  /**
   * A successful cancellation removes exactly the caller's reservation: one row fewer, no row
   * with that id left, every other row kept in order, and its slot free again.
   */
  lemma CancellationRemovesExactlyOne(rows: seq<Reservation>, session: Option<UserId>, id: Id)
    requires IdsUnique(rows) && SlotsUnique(rows)
    requires Cancellation(rows, session, id).outcome == Cancelled
    ensures var t := Cancellation(rows, session, id);
      var gone := rows[IndexOfId(rows, id).value];
      && gone.id == id && gone.userId == session.value
      && |t.rows| == |rows| - 1
      && multiset(t.rows) + multiset{gone} == multiset(rows)
      && id !in Ids(t.rows)
      && (forall r :: r in rows && r.id != id ==> r in t.rows)
      && !SlotHeld(t.rows, gone.date, gone.timeSlot)
  {
    var k := IndexOfId(rows, id).value;
    WithoutRemovesId(rows, k);
    WithoutFreesSlot(rows, k);
  }

  /** Once the owner cancels, another user with nothing booked that day can take the slot. */
  lemma RebookAfterCancellation(
    rows: seq<Reservation>, owner: UserId, id: Id, other: UserId, newId: Id)
    requires IdsUnique(rows) && SlotsUnique(rows)
    requires Cancellation(rows, Some(owner), id).outcome == Cancelled
    requires var t := Cancellation(rows, Some(owner), id);
      other != "" && !HoldsOnDate(t.rows, other, rows[IndexOfId(rows, id).value].date) && newId !in Ids(t.rows)
    ensures var t := Cancellation(rows, Some(owner), id);
      var gone := rows[IndexOfId(rows, id).value];
      Booking(t.rows, Some(other), gone.date, gone.timeSlot, newId).outcome.Created?
  {
    CancellationRemovesExactlyOne(rows, Some(owner), id);
  }

  /** The id a successful booking receives is found at the end of the table. */
  lemma {:induction false} IndexOfAppended(rows: seq<Reservation>, r: Reservation)
    requires r.id !in Ids(rows)
    ensures IndexOfId(rows + [r], r.id) == Some(|rows|)
    decreases |rows|
  {
    if rows != [] {
      assert (rows + [r])[1..] == rows[1..] + [r];
      assert rows[0] in rows;
      assert forall x :: x in rows[1..] ==> x in rows;
      IndexOfAppended(rows[1..], r);
    }
  }

  /** Cancelling a booking one has just made gives back the table as it was. */
  lemma CancelUndoesBooking(rows: seq<Reservation>, user: UserId, date: string, timeSlot: string, newId: Id)
    requires newId != ""
    requires Booking(rows, Some(user), date, timeSlot, newId).outcome.Created?
    ensures var t := Booking(rows, Some(user), date, timeSlot, newId);
      Cancellation(t.rows, Some(user), newId) == Transition(Cancelled, rows)
  {
    var r := Reservation(newId, user, date, timeSlot);
    IndexOfAppended(rows, r);
    assert Without(rows + [r], |rows|) == rows;
  }

  /**
   * The daily cap is checked before the slot: asking again for the slot one already holds is
   * refused as the daily cap, not as a taken slot.
   */
  lemma RepeatRequestHitsDailyLimit(rows: seq<Reservation>, user: UserId, date: string, timeSlot: string, newId: Id, newId': Id)
    requires Booking(rows, Some(user), date, timeSlot, newId).outcome.Created?
    ensures var t := Booking(rows, Some(user), date, timeSlot, newId);
      Booking(t.rows, Some(user), date, timeSlot, newId').outcome == DailyLimitReached
  {
    var t := Booking(rows, Some(user), date, timeSlot, newId);
    assert t.outcome.reservation in t.rows;
  }

  /** Two users asking for one slot on one day: the first gets 201, the second 400 (slot taken). */
  lemma SecondUserFindsSlotTaken(
    rows: seq<Reservation>, a: UserId, b: UserId, date: string, timeSlot: string, idA: Id, idB: Id)
    requires a != b && b != ""
    requires !HoldsOnDate(rows, b, date)
    requires Booking(rows, Some(a), date, timeSlot, idA).outcome.Created?
    ensures var t := Booking(rows, Some(a), date, timeSlot, idA);
      var u := Booking(t.rows, Some(b), date, timeSlot, idB);
      u.outcome == SlotTaken && u.outcome.Status() == 400 && u.rows == t.rows
  {
    var t := Booking(rows, Some(a), date, timeSlot, idA);
    assert t.outcome.reservation in t.rows;
    assert forall r :: r in t.rows ==> r in rows || r == t.outcome.reservation;
  }

  /** `GET`: every stored reservation, in table order; the table is not changed. */
  method Get(table: ReservationTable) returns (all: seq<Reservation>)
    ensures all == table.rows
  {
    all := table.FindMany();
  }

  /** `POST`: the booking handler, step by step against the table. */
  method Post(table: ReservationTable, session: Option<UserId>, date: string, timeSlot: string, newId: Id)
    returns (outcome: PostOutcome)
    requires table.Valid()
    modifies table
    ensures table.Valid()
    ensures var t := Booking(old(table.rows), session, date, timeSlot, newId);
      outcome == t.outcome && table.rows == t.rows
  {
    if !SignedIn(session) {
      return PostUnauthorized;
    }
    var userId := session.value;
    var existingDayRegistration := table.FindFirstByUserDate(userId, date);
    if existingDayRegistration.Some? {
      return DailyLimitReached;
    }
    var slotTaken := table.FindUniqueBySlot(date, timeSlot);
    if slotTaken.Some? {
      return SlotTaken;
    }
    var reservation := Reservation(newId, userId, date, timeSlot);
    var ok := table.Create(reservation);
    if !ok {
      return CreateFailed;
    }
    return Created(reservation);
  }

  /** `DELETE`: the owner's cancellation handler, step by step against the table. */
  method Delete(table: ReservationTable, session: Option<UserId>, id: Id) returns (outcome: DeleteOutcome)
    requires table.Valid()
    modifies table
    ensures table.Valid()
    ensures var t := Cancellation(old(table.rows), session, id);
      outcome == t.outcome && table.rows == t.rows
  {
    if !SignedIn(session) {
      return DeleteUnauthorized;
    }
    var userId := session.value;
    if id == "" {
      return MissingId;
    }
    var reservation := table.FindUniqueById(id);
    if reservation.None? {
      return NotFound;
    }
    if reservation.value.userId != userId {
      return Forbidden;
    }
    var deleted := table.Delete(id);
    return Cancelled;
  }
}
