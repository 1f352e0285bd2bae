/**
 * The administrator's delete endpoint: removes a reservation by id, whoever owns it.
 *
 * A missing id answers 400. Otherwise the store is asked to delete the row; when no row has
 * that id the store's delete fails and the handler answers 500. There is no ownership check
 * and no administrator check.
 */
module AdminReservationsRoute {
  import opened Wrappers
  import opened ReservationStore
  import ReservationsRoute

  datatype AdminDeleteOutcome = Deleted | AdminMissingId | DeleteFailed
  {
    function Status(): int
    {
      match this
      case Deleted => 200
      case AdminMissingId => 400
      case DeleteFailed => 500
    }
  }

  /** The administrator's delete request for `id` (`""` for a missing id), as a value. */
  function AdminDeletion(rows: seq<Reservation>, id: Id): (t: ReservationsRoute.Transition<AdminDeleteOutcome>)
    ensures t.outcome == AdminMissingId <==> id == ""
    ensures t.outcome == DeleteFailed <==> id != "" && id !in Ids(rows)
    ensures t.outcome != Deleted ==> t.rows == rows
    ensures t.outcome == Deleted ==>
      IndexOfId(rows, id).Some? && t.rows == Without(rows, IndexOfId(rows, id).value)
    ensures IdsUnique(rows) ==> IdsUnique(t.rows)
    ensures SlotsUnique(rows) ==> SlotsUnique(t.rows)
    ensures ReservationStore.OnePerUserPerDay(rows) ==> ReservationStore.OnePerUserPerDay(t.rows)
  {
    if id == "" then ReservationsRoute.Transition(AdminMissingId, rows)
    else
      match IndexOfId(rows, id)
      case None => ReservationsRoute.Transition(DeleteFailed, rows)
      case Some(k) =>
        WithoutPreservesInvariants(rows, k);
        ReservationsRoute.Transition(Deleted, Without(rows, k))
  }

  /**
   * An existing reservation is deleted whoever owns it: exactly that row goes, every other row
   * stays, and its slot is free again.
   */
  lemma AdminDeletesAnyOwner(rows: seq<Reservation>, k: nat)
    requires k < |rows| && IdsUnique(rows) && SlotsUnique(rows) && rows[k].id != ""
    ensures var t := AdminDeletion(rows, rows[k].id);
      && t.outcome == Deleted && t.outcome.Status() == 200
      && |t.rows| == |rows| - 1
      && multiset(t.rows) + multiset{rows[k]} == multiset(rows)
      && rows[k].id !in Ids(t.rows)
      && (forall r :: r in rows && r.id != rows[k].id ==> r in t.rows)
      && !SlotHeld(t.rows, rows[k].date, rows[k].timeSlot)
  {
    assert rows[k] in rows;
    IndexOfIdIsFirst(rows, rows[k].id, k) by {
      forall j | 0 <= j < k
        ensures rows[j].id != rows[k].id
      {
      }
    }
    WithoutRemovesId(rows, k);
    WithoutFreesSlot(rows, k);
  }

  /** Where the owner's own cancellation succeeds, the administrator's delete has the same effect. */
  lemma AdminDeletionMatchesOwnerCancellation(rows: seq<Reservation>, session: Option<UserId>, id: Id)
    requires ReservationsRoute.Cancellation(rows, session, id).outcome == ReservationsRoute.Cancelled
    ensures AdminDeletion(rows, id).outcome == Deleted
    ensures AdminDeletion(rows, id).rows == ReservationsRoute.Cancellation(rows, session, id).rows
  {
  }

  /**
   * Where the owner's cancellation is refused because the caller is someone else, the
   * administrator's delete still goes through.
   */
  lemma AdminOverridesForbidden(rows: seq<Reservation>, session: Option<UserId>, id: Id)
    requires ReservationsRoute.Cancellation(rows, session, id).outcome == ReservationsRoute.Forbidden
    ensures AdminDeletion(rows, id).outcome == Deleted
    ensures ReservationsRoute.Cancellation(rows, session, id).rows == rows
    ensures AdminDeletion(rows, id).rows != rows
  {
    assert |AdminDeletion(rows, id).rows| == |rows| - 1;
  }

  /** `DELETE`: the administrator's handler against the table. */
  method Delete(table: ReservationTable, id: Id) returns (outcome: AdminDeleteOutcome)
    requires table.Valid()
    modifies table
    ensures table.Valid()
    ensures var t := AdminDeletion(old(table.rows), id);
      outcome == t.outcome && table.rows == t.rows
  {
    if id == "" {
      return AdminMissingId;
    }
    var deleted := table.Delete(id);
    if !deleted {
      return DeleteFailed;
    }
    return Deleted;
  }
}
