/**
 * The reservation table and the queries the route handlers run against it.
 *
 * A row is `Reservation(id, userId, date, timeSlot)`. The table's own guarantees are a unique
 * id per row and a unique `(date, timeSlot)` pair (the composite key `date_timeSlot`). The table
 * is one object whose row sequence the handlers query and change; each handler runs as one
 * atomic step over it.
 */
module ReservationStore {
  import opened Wrappers

  type Id = string
  type UserId = string

  datatype Reservation = Reservation(id: Id, userId: UserId, date: string, timeSlot: string)

  function Ids(rows: seq<Reservation>): set<Id>
  {
    set r | r in rows :: r.id
  }

  /** The primary key: no two rows share an id. */
  predicate IdsUnique(rows: seq<Reservation>)
  {
    forall i, j :: 0 <= i < j < |rows| ==> rows[i].id != rows[j].id
  }

  /** The composite key `date_timeSlot`: no two rows hold the same slot on the same date. */
  predicate SlotsUnique(rows: seq<Reservation>)
  {
    forall i, j :: 0 <= i < j < |rows| ==> !(rows[i].date == rows[j].date && rows[i].timeSlot == rows[j].timeSlot)
  }

  /** The daily cap: no user holds two reservations on one date. */
  predicate OnePerUserPerDay(rows: seq<Reservation>)
  {
    forall i, j :: 0 <= i < j < |rows| ==> !(rows[i].userId == rows[j].userId && rows[i].date == rows[j].date)
  }

  /** Some row belongs to `user` on `date`. */
  predicate HoldsOnDate(rows: seq<Reservation>, user: UserId, date: string)
  {
    exists r :: r in rows && r.userId == user && r.date == date
  }

  /** Some row holds `timeSlot` on `date`. */
  predicate SlotHeld(rows: seq<Reservation>, date: string, timeSlot: string)
  {
    exists r :: r in rows && r.date == date && r.timeSlot == timeSlot
  }

  /** The rows dated `date`, in table order (`filter(r => r.date === date)`). */
  function OnDate(rows: seq<Reservation>, date: string): (on: seq<Reservation>)
    ensures |on| <= |rows|
    ensures forall r :: r in on <==> r in rows && r.date == date
  {
    if rows == [] then []
    else
      var init, last := rows[..|rows| - 1], rows[|rows| - 1];
      assert rows == init + [last];
      OnDate(init, date) + (if last.date == date then [last] else [])
  }

  /**
   * `OnDate` keeps the table order: filtering a concatenation filters each part and keeps them
   * in order.
   */
  lemma {:induction false} OnDateConcat(a: seq<Reservation>, b: seq<Reservation>, date: string)
    ensures OnDate(a + b, date) == OnDate(a, date) + OnDate(b, date)
    decreases |b|
  {
    if b == [] {
      assert a + b == a;
    } else {
      var init, last := b[..|b| - 1], b[|b| - 1];
      assert b == init + [last] && a + b == (a + init) + [last];
      OnDateConcat(a, init, date);
      OnDateAppend(a + init, last, date);
      OnDateAppend(init, last, date);
      var tail := if last.date == date then [last] else [];
      calc {
        OnDate(a + b, date);
        OnDate(a + init, date) + tail;
        (OnDate(a, date) + OnDate(init, date)) + tail;
        OnDate(a, date) + (OnDate(init, date) + tail);
        OnDate(a, date) + OnDate(b, date);
      }
    }
  }

  /** Appending a row appends it to the filtered rows exactly when it qualifies. */
  lemma OnDateAppend(init: seq<Reservation>, last: Reservation, date: string)
    ensures OnDate(init + [last], date) == OnDate(init, date) + (if last.date == date then [last] else [])
  {
    var rows := init + [last];
    assert rows[..|rows| - 1] == init && rows[|rows| - 1] == last;
  }

  /** The positions of the table whose row satisfies `p`. */
  function PositionsWhere(rows: seq<Reservation>, p: Reservation -> bool): set<int>
  {
    set i | 0 <= i < |rows| && p(rows[i])
  }

  /** Appending a row adds its position exactly when it satisfies `p`. */
  lemma PositionsWhereAppend(rows: seq<Reservation>, p: Reservation -> bool)
    requires rows != []
    ensures var init := rows[..|rows| - 1];
      && PositionsWhere(rows, p) == PositionsWhere(init, p) + (if p(rows[|rows| - 1]) then {|init|} else {})
      && |init| !in PositionsWhere(init, p)
  {
    var init := rows[..|rows| - 1];
    forall i
      ensures i in PositionsWhere(rows, p) <==> i in PositionsWhere(init, p) || (i == |init| && p(rows[|rows| - 1]))
    {
      if 0 <= i < |init| { assert rows[i] == init[i]; }
    }
  }

  /** The rows on `date` are as many as the positions of the table that hold that date. */
  lemma {:induction false} OnDateCount(rows: seq<Reservation>, date: string)
    ensures |OnDate(rows, date)| == |PositionsWhere(rows, (r: Reservation) => r.date == date)|
    decreases |rows|
  {
    var onDate := (r: Reservation) => r.date == date;
    if rows == [] {
      assert PositionsWhere(rows, onDate) == {};
    } else {
      var init, last := rows[..|rows| - 1], rows[|rows| - 1];
      OnDateCount(init, date);
      PositionsWhereAppend(rows, onDate);
      assert |OnDate(rows, date)| == |OnDate(init, date)| + (if last.date == date then 1 else 0);
    }
  }

  /** The position of the first row with `id`, if there is one. */
  function IndexOfId(rows: seq<Reservation>, id: Id): (k: Option<nat>)
    ensures k.Some? ==> k.value < |rows| && rows[k.value].id == id
    ensures k.Some? ==> forall j :: 0 <= j < k.value ==> rows[j].id != id
    ensures k.None? <==> id !in Ids(rows)
  {
    if rows == [] then None
    else if rows[0].id == id then Some(0)
    else
      match IndexOfId(rows[1..], id)
      case None =>
        assert forall r :: r in rows ==> r == rows[0] || r in rows[1..];
        None
      case Some(k) => Some(k + 1)
  }

  /** The table without the row at position `k`, the others in their order. */
  function Without(rows: seq<Reservation>, k: nat): (rest: seq<Reservation>)
    requires k < |rows|
    ensures |rest| == |rows| - 1
    ensures multiset(rest) + multiset{rows[k]} == multiset(rows)
    ensures forall a :: 0 <= a < |rest| ==> rest[a] == rows[if a < k then a else a + 1]
  {
    assert rows == rows[..k] + [rows[k]] + rows[k + 1..];
    rows[..k] + rows[k + 1..]
  }

  /** Removing a row keeps the table's keys and the daily cap. */
  lemma WithoutPreservesInvariants(rows: seq<Reservation>, k: nat)
    requires k < |rows|
    ensures IdsUnique(rows) ==> IdsUnique(Without(rows, k))
    ensures SlotsUnique(rows) ==> SlotsUnique(Without(rows, k))
    ensures OnePerUserPerDay(rows) ==> OnePerUserPerDay(Without(rows, k))
    ensures forall r :: r in Without(rows, k) ==> r in rows
  {
    var rest := Without(rows, k);
    forall a, b | 0 <= a < b < |rest|
      ensures exists i, j :: 0 <= i < j < |rows| && rest[a] == rows[i] && rest[b] == rows[j]
    {
      var i, j := if a < k then a else a + 1, if b < k then b else b + 1;
      assert rest[a] == rows[i] && rest[b] == rows[j];
    }
  }

  /** With unique ids, removing the row that carries `id` leaves no row with it. */
  lemma WithoutRemovesId(rows: seq<Reservation>, k: nat)
    requires k < |rows| && IdsUnique(rows)
    ensures rows[k].id !in Ids(Without(rows, k))
    ensures forall r :: r in rows && r.id != rows[k].id ==> r in Without(rows, k)
  {
    var rest := Without(rows, k);
    forall r | r in rows && r.id != rows[k].id
      ensures r in rest
    {
      var i :| 0 <= i < |rows| && rows[i] == r;
      assert rest[if i < k then i else i - 1] == r;
    }
  }

  /** With the composite key in force, removing a row frees its slot. */
  lemma WithoutFreesSlot(rows: seq<Reservation>, k: nat)
    requires k < |rows| && SlotsUnique(rows)
    ensures !SlotHeld(Without(rows, k), rows[k].date, rows[k].timeSlot)
  {
  }

  /** The reservation table. Every handler reads and writes `rows` and nothing else. */
  class ReservationTable {
    var rows: seq<Reservation>

    /** The table's own constraints: unique ids and the `date_timeSlot` composite key. */
    ghost predicate Valid()
      reads this
    {
      IdsUnique(rows) && SlotsUnique(rows)
    }

    constructor ()
      ensures Valid() && rows == []
    {
      rows := [];
    }

    /** `findMany()`: every row, in table order. */
    method FindMany() returns (all: seq<Reservation>)
      ensures all == rows
    {
      all := rows;
    }

    /** `findFirst({ where: { userId, date } })`. */
    method FindFirstByUserDate(user: UserId, date: string) returns (found: Option<Reservation>)
      ensures found.None? <==> !HoldsOnDate(rows, user, date)
      ensures found.Some? ==> found.value in rows && found.value.userId == user && found.value.date == date
    {
      var i := 0;
      while i < |rows|
        invariant 0 <= i <= |rows|
        invariant forall j :: 0 <= j < i ==> !(rows[j].userId == user && rows[j].date == date)
      {
        if rows[i].userId == user && rows[i].date == date {
          return Some(rows[i]);
        }
        i := i + 1;
      }
      return None;
    }

    /** `findUnique({ where: { date_timeSlot: { date, timeSlot } } })`. */
    method FindUniqueBySlot(date: string, timeSlot: string) returns (found: Option<Reservation>)
      ensures found.None? <==> !SlotHeld(rows, date, timeSlot)
      ensures found.Some? ==> found.value in rows && found.value.date == date && found.value.timeSlot == timeSlot
    {
      var i := 0;
      while i < |rows|
        invariant 0 <= i <= |rows|
        invariant forall j :: 0 <= j < i ==> !(rows[j].date == date && rows[j].timeSlot == timeSlot)
      {
        if rows[i].date == date && rows[i].timeSlot == timeSlot {
          return Some(rows[i]);
        }
        i := i + 1;
      }
      return None;
    }

    /** `findUnique({ where: { id } })`: the row at the position `IndexOfId` names. */
    method FindUniqueById(id: Id) returns (found: Option<Reservation>)
      ensures found.None? <==> id !in Ids(rows)
      ensures found.Some? ==> IndexOfId(rows, id).Some? && found.value == rows[IndexOfId(rows, id).value]
    {
      var i := 0;
      while i < |rows|
        invariant 0 <= i <= |rows|
        invariant forall j :: 0 <= j < i ==> rows[j].id != id
      {
        if rows[i].id == id {
          IndexOfIdIsFirst(rows, id, i);
          return Some(rows[i]);
        }
        i := i + 1;
      }
      assert forall r :: r in rows ==> r.id != id;
      return None;
    }

    /**
     * `create({ data })`: the row is appended, unless it would break a key of the table,
     * in which case the store refuses it and nothing changes.
     */
    method Create(r: Reservation) returns (ok: bool)
      requires Valid()
      modifies this
      ensures Valid()
      ensures ok <==> r.id !in Ids(old(rows)) && !SlotHeld(old(rows), r.date, r.timeSlot)
      ensures rows == if ok then old(rows) + [r] else old(rows)
    {
      ok := r.id !in Ids(rows) && !SlotHeld(rows, r.date, r.timeSlot);
      if ok {
        AppendKeepsKeys(rows, r);
        rows := rows + [r];
      }
    }

    /** `delete({ where: { id } })`: removes the row with `id`; fails when there is none. */
    method Delete(id: Id) returns (deleted: bool)
      requires Valid()
      modifies this
      ensures Valid()
      ensures deleted <==> id in Ids(old(rows))
      ensures rows == if deleted then Without(old(rows), IndexOfId(old(rows), id).value) else old(rows)
    {
      var i := 0;
      while i < |rows|
        invariant 0 <= i <= |rows|
        invariant forall j :: 0 <= j < i ==> rows[j].id != id
      {
        if rows[i].id == id {
          IndexOfIdIsFirst(rows, id, i);
          WithoutPreservesInvariants(rows, i);
          rows := Without(rows, i);
          return true;
        }
        i := i + 1;
      }
      assert forall r :: r in rows ==> r.id != id;
      return false;
    }
  }

  /** The first row carrying `id` is the one `IndexOfId` finds. */
  lemma IndexOfIdIsFirst(rows: seq<Reservation>, id: Id, i: nat)
    requires i < |rows| && rows[i].id == id
    requires forall j :: 0 <= j < i ==> rows[j].id != id
    ensures IndexOfId(rows, id) == Some(i)
  {
    var k := IndexOfId(rows, id);
    assert rows[i] in rows;
  }

  /** Appending a row whose id and slot are both unused keeps both keys. */
  lemma AppendKeepsKeys(rows: seq<Reservation>, r: Reservation)
    requires r.id !in Ids(rows) && !SlotHeld(rows, r.date, r.timeSlot)
    ensures IdsUnique(rows) ==> IdsUnique(rows + [r])
    ensures SlotsUnique(rows) ==> SlotsUnique(rows + [r])
  {
    var s := rows + [r];
    forall i | 0 <= i < |rows|
      ensures s[i].id != r.id && !(s[i].date == r.date && s[i].timeSlot == r.timeSlot)
    {
      assert s[i] == rows[i] && rows[i] in rows;
    }
  }
}
