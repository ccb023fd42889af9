/**
 * The reservation lifecycle as functions from the table before an operation
 * to its result and the table after it. Both reservation services follow
 * these rules; each of their methods is proved to do exactly what the
 * matching function says, and the properties of the lifecycle are proved
 * here once, about the functions.
 */
module Lifecycle {
  import opened Domain
  import opened Store

  /** `getReservationById`. */
  function Get(t: Table, id: int): Result<Reservation> {
    match Find(t, id)
    case None => Err(NotFound)
    case Some(e) => Ok(ToDomain(e))
  }

  /**
   * `createReservation`: a supplied status is refused, then an empty or
   * reversed range; otherwise a new row is saved with status Pending.
   */
  function Create(t: Table, input: Reservation): Step<Result<Reservation>> {
    if input.status.Some? then Step(Err(InvalidInput), t)
    else if !ValidRange(input.startDate, input.endDate) then Step(Err(InvalidInput), t)
    else
      var saved := Save(t, Entity(None, input.userId, input.roomId, input.startDate, input.endDate, Pending));
      Step(Ok(ToDomain(saved.result)), saved.table)
  }

  /**
   * `updateReservation`: a missing id, then a status other than Pending,
   * then an empty or reversed range are refused; otherwise the row is
   * replaced in full, keeping its id and status Pending. The id and status
   * carried by `input` are ignored.
   */
  function Update(t: Table, id: int, input: Reservation): Step<Result<Reservation>>
    requires WellFormed(t)
  {
    if id !in t.rows then Step(Err(NotFound), t)
    else if t.rows[id].status != Pending then Step(Err(InvalidState), t)
    else if !ValidRange(input.startDate, input.endDate) then Step(Err(InvalidInput), t)
    else
      var saved := Save(t, Entity(t.rows[id].id, input.userId, input.roomId, input.startDate, input.endDate, Pending));
      Step(Ok(ToDomain(saved.result)), saved.table)
  }

  /**
   * `cancelReservation`: a missing id, an approved and an already cancelled
   * reservation are refused; otherwise a status-only write sets Cancelled.
   */
  function Cancel(t: Table, id: int): Step<Outcome> {
    if id !in t.rows then Step(Fail(NotFound), t)
    else if t.rows[id].status == Approved then Step(Fail(InvalidState), t)
    else if t.rows[id].status == Cancelled then Step(Fail(InvalidState), t)
    else Step(Done, SetStatus(t, id, Cancelled))
  }

  /** The row that approval saves: the stored row with status Approved. */
  function Approval(e: Entity): Entity {
    e.(status := Approved)
  }

  /**
   * `approveReservation` of the legacy service: a missing id, then a status
   * other than Pending, then a conflict found by the scan are refused;
   * otherwise the row is saved with status Approved.
   */
  function ApproveByScan(t: Table, id: int): Step<Result<Reservation>>
    requires WellFormed(t)
  {
    if id !in t.rows then Step(Err(NotFound), t)
    else if t.rows[id].status != Pending then Step(Err(InvalidState), t)
    else if HasConflict(t.rows, t.rows[id]) then Step(Err(InvalidState), t)
    else Step(Ok(ToDomain(Approval(t.rows[id]))), Save(t, Approval(t.rows[id])).table)
  }

  /**
   * `approveReservation` of the newer service: as above, but the conflict
   * is a non-empty answer from the conflict query, which excludes no id.
   */
  function ApproveByQuery(t: Table, id: int): Step<Result<Reservation>>
    requires WellFormed(t)
  {
    if id !in t.rows then Step(Err(NotFound), t)
    else if t.rows[id].status != Pending then Step(Err(InvalidState), t)
    else
      var e := t.rows[id];
      if ConflictingIds(t.rows, e.roomId, e.startDate, e.endDate, Approved) != {} then Step(Err(InvalidState), t)
      else Step(Ok(ToDomain(Approval(e))), Save(t, Approval(e)).table)
  }

  // ---------------------------------------------------------------------
  // Get

  /** Get fails with NotFound exactly on a missing id and otherwise returns the stored row. */
  lemma GetReturnsStored(t: Table, id: int)
    ensures Get(t, id) == Err(NotFound) <==> id !in t.rows
    ensures id in t.rows ==> Get(t, id) == Ok(ToDomain(t.rows[id]))
  {
  }

  // ---------------------------------------------------------------------
  // Create

  /**
   * A supplied status is refused with InvalidInput whatever the dates are,
   * so this check comes first; then any range whose end is not after its
   * start is refused, equal dates included. A refused create changes nothing.
   */
  lemma CreateRefusals(t: Table, input: Reservation)
    ensures input.status.Some? ==> Create(t, input) == Step(Err(InvalidInput), t)
    ensures input.endDate <= input.startDate ==> Create(t, input) == Step(Err(InvalidInput), t)
    ensures Create(t, input).result.Ok? <==> input.status.None? && input.startDate < input.endDate
  {
  }

  /**
   * A successful create stores one new row under the id the generator hands
   * out, which no row had, copying user, room and dates with status Pending;
   * every other row stays as it was.
   */
  lemma CreateStoresPending(t: Table, input: Reservation)
    requires WellFormed(t)
    requires input.status.None? && input.startDate < input.endDate
    ensures var s := Create(t, input);
      var newId := t.nextId;
      && newId !in t.rows
      && s.result == Ok(Reservation(Some(newId), input.userId, input.roomId, input.startDate, input.endDate, Some(Pending)))
      && s.table.rows == t.rows[newId := Entity(Some(newId), input.userId, input.roomId, input.startDate, input.endDate, Pending)]
      && s.table.nextId > t.nextId
  {
  }

  /**
   * Reading back a reservation just created gives the record the create
   * returned: the input's fields, the new id and status Pending.
   */
  lemma GetAfterCreate(t: Table, input: Reservation)
    requires WellFormed(t)
    requires Create(t, input).result.Ok?
    ensures var s := Create(t, input);
      && s.result.value.id.Some?
      && Get(s.table, s.result.value.id.value) == s.result
      && s.result.value == input.(id := s.result.value.id, status := Some(Pending))
  {
  }

  // ---------------------------------------------------------------------
  // Update

  /**
   * The refusals of update, in order: NotFound on a missing id; InvalidState
   * on a row that is not Pending, whatever the new dates; InvalidInput on an
   * empty or reversed range. A refused update changes nothing, and an
   * update succeeds exactly when none of the refusals applies.
   */
  lemma UpdateRefusals(t: Table, id: int, input: Reservation)
    requires WellFormed(t)
    ensures id !in t.rows ==> Update(t, id, input) == Step(Err(NotFound), t)
    ensures id in t.rows && t.rows[id].status != Pending ==> Update(t, id, input) == Step(Err(InvalidState), t)
    ensures id in t.rows && t.rows[id].status == Pending && input.endDate <= input.startDate
      ==> Update(t, id, input) == Step(Err(InvalidInput), t)
    ensures Update(t, id, input).result.Err? ==> Update(t, id, input).table == t
    ensures Update(t, id, input).result.Ok?
      <==> id in t.rows && t.rows[id].status == Pending && input.startDate < input.endDate
  {
  }

  /**
   * A successful update keeps the id, replaces user, room and dates with the
   * input's, leaves the status Pending (ignoring the input's own id and
   * status) and touches no other row.
   */
  lemma UpdateReplacesContent(t: Table, id: int, input: Reservation)
    requires WellFormed(t)
    requires Update(t, id, input).result.Ok?
    ensures var s := Update(t, id, input);
      var row := Entity(Some(id), input.userId, input.roomId, input.startDate, input.endDate, Pending);
      && id in t.rows && t.rows[id].status == Pending
      && s.table == Table(t.rows[id := row], t.nextId)
      && s.result == Ok(ToDomain(row))
  {
  }

  // ---------------------------------------------------------------------
  // Cancel

  /**
   * Cancel refuses a missing id with NotFound and an approved or cancelled
   * reservation with InvalidState, changing nothing; it succeeds exactly on
   * a pending one and then changes only that row's status, to Cancelled.
   */
  lemma CancelRules(t: Table, id: int)
    ensures id !in t.rows ==> Cancel(t, id) == Step(Fail(NotFound), t)
    ensures id in t.rows && t.rows[id].status in {Approved, Cancelled} ==> Cancel(t, id) == Step(Fail(InvalidState), t)
    ensures Cancel(t, id).result == Done <==> id in t.rows && t.rows[id].status == Pending
    ensures Cancel(t, id).result == Done ==>
      Cancel(t, id).table == Table(t.rows[id := t.rows[id].(status := Cancelled)], t.nextId)
  {
  }

  // ---------------------------------------------------------------------
  // Approve

  /**
   * Approve (legacy scan) refuses a missing id with NotFound and a row that
   * is not Pending with InvalidState; a pending row with a conflict is
   * refused with InvalidState and stays Pending, nothing saved; otherwise
   * only its status changes, to Approved.
   */
  lemma ApproveByScanRules(t: Table, id: int)
    requires WellFormed(t)
    ensures id !in t.rows ==> ApproveByScan(t, id) == Step(Err(NotFound), t)
    ensures id in t.rows && t.rows[id].status != Pending ==> ApproveByScan(t, id) == Step(Err(InvalidState), t)
    ensures id in t.rows && t.rows[id].status == Pending && HasConflict(t.rows, t.rows[id])
      ==> ApproveByScan(t, id) == Step(Err(InvalidState), t) && t.rows[id].status == Pending
    ensures ApproveByScan(t, id).result.Ok? <==>
      id in t.rows && t.rows[id].status == Pending && !HasConflict(t.rows, t.rows[id])
    ensures ApproveByScan(t, id).result.Ok? ==>
      && ApproveByScan(t, id).table == Table(t.rows[id := t.rows[id].(status := Approved)], t.nextId)
      && ApproveByScan(t, id).result.value == ToDomain(t.rows[id].(status := Approved))
  {
  }

  /**
   * Approve (conflict query) fails exactly when the id is missing, the row
   * is not Pending, or the query for approved rows of the same room and
   * range answers with some id; on success only the status changes.
   */
  lemma ApproveByQueryRules(t: Table, id: int)
    requires WellFormed(t)
    ensures id !in t.rows ==> ApproveByQuery(t, id) == Step(Err(NotFound), t)
    ensures id in t.rows && t.rows[id].status != Pending ==> ApproveByQuery(t, id) == Step(Err(InvalidState), t)
    ensures ApproveByQuery(t, id).result.Err? ==> ApproveByQuery(t, id).table == t
    ensures ApproveByQuery(t, id).result.Ok? <==>
      && id in t.rows && t.rows[id].status == Pending
      && ConflictingIds(t.rows, t.rows[id].roomId, t.rows[id].startDate, t.rows[id].endDate, Approved) == {}
    ensures ApproveByQuery(t, id).result.Ok? ==>
      ApproveByQuery(t, id).table == Table(t.rows[id := t.rows[id].(status := Approved)], t.nextId)
  {
  }

  /**
   * The two services approve alike: the newer service's query excludes no
   * id, yet a reservation never conflicts with itself, because it is
   * Pending while the query asks for Approved rows.
   */
  lemma ApproveVersionsAgree(t: Table, id: int)
    requires WellFormed(t)
    ensures ApproveByQuery(t, id) == ApproveByScan(t, id)
  {
    if id in t.rows && t.rows[id].status == Pending {
      QueryAgreesWithScan(t.rows, id);
    }
  }

  // ---------------------------------------------------------------------
  // The overlap invariant: every operation keeps it.

  /** Saving a row that is not approved and has a valid range keeps the invariants. */
  lemma SaveUnapprovedKeepsConsistent(t: Table, e: Entity)
    requires Consistent(t)
    requires e.id.None? || e.id.value in t.rows
    requires e.status != Approved && ValidRange(e.startDate, e.endDate)
    ensures Consistent(Save(t, e).table)
  {
    SaveAssignsId(t, e);
    var u := Save(t, e).table;
    var k0 := Save(t, e).result.id.value;
    forall j, k | j in u.rows && k in u.rows && j != k
      ensures !Clash(u.rows[j], u.rows[k])
    {
      if j != k0 && k != k0 {
        assert u.rows[j] == t.rows[j] && u.rows[k] == t.rows[k];
      }
    }
  }

  lemma CreateKeepsConsistent(t: Table, input: Reservation)
    requires Consistent(t)
    ensures Consistent(Create(t, input).table)
  {
    if input.status.None? && ValidRange(input.startDate, input.endDate) {
      SaveUnapprovedKeepsConsistent(t, Entity(None, input.userId, input.roomId, input.startDate, input.endDate, Pending));
    }
  }

  lemma UpdateKeepsConsistent(t: Table, id: int, input: Reservation)
    requires Consistent(t)
    ensures Consistent(Update(t, id, input).table)
  {
    if id in t.rows && t.rows[id].status == Pending && ValidRange(input.startDate, input.endDate) {
      SaveUnapprovedKeepsConsistent(t, Entity(t.rows[id].id, input.userId, input.roomId, input.startDate, input.endDate, Pending));
    }
  }

  lemma CancelKeepsConsistent(t: Table, id: int)
    requires Consistent(t)
    ensures Consistent(Cancel(t, id).table)
  {
    var u := Cancel(t, id).table;
    SetStatusChangesOnlyStatus(t, id, Cancelled);
    forall j, k | j in u.rows && k in u.rows && j != k
      ensures !Clash(u.rows[j], u.rows[k])
    {
      if j != id && k != id {
        assert u.rows[j] == t.rows[j] && u.rows[k] == t.rows[k];
      }
    }
  }

  /**
   * The point where the invariant is enforced: approving a pending row that
   * the scan finds no conflict for leaves no two approved rows of one room
   * overlapping.
   */
  lemma ApproveByScanKeepsConsistent(t: Table, id: int)
    requires Consistent(t)
    ensures Consistent(ApproveByScan(t, id).table)
  {
    if id in t.rows && t.rows[id].status == Pending && !HasConflict(t.rows, t.rows[id]) {
      var r := t.rows[id];
      var u := ApproveByScan(t, id).table;
      assert u.rows == t.rows[id := Approval(r)];
      forall j, k | j in u.rows && k in u.rows && j != k
        ensures !Clash(u.rows[j], u.rows[k])
      {
        if j == id {
          assert !ConflictsWith(r, t.rows[k]);
          OverlapsSymmetric(r.startDate, r.endDate, t.rows[k].startDate, t.rows[k].endDate);
        } else if k == id {
          assert !ConflictsWith(r, t.rows[j]);
          OverlapsSymmetric(r.startDate, r.endDate, t.rows[j].startDate, t.rows[j].endDate);
        } else {
          assert u.rows[j] == t.rows[j] && u.rows[k] == t.rows[k];
        }
      }
    }
  }

  lemma ApproveByQueryKeepsConsistent(t: Table, id: int)
    requires Consistent(t)
    ensures Consistent(ApproveByQuery(t, id).table)
  {
    ApproveVersionsAgree(t, id);
    ApproveByScanKeepsConsistent(t, id);
  }

  // ---------------------------------------------------------------------
  // Scenarios

  /**
   * Room 7 holds an approved stay for days [10, 15). A pending request for
   * [14, 20) cannot be approved; one for [15, 20), which starts on the day
   * the first ends, can.
   */
  lemma BoundaryScenario()
    ensures var held := Entity(Some(1), 100, 7, 10, 15, Approved);
      var overlapping := Entity(Some(2), 200, 7, 14, 20, Pending);
      var adjacent := Entity(Some(3), 300, 7, 15, 20, Pending);
      var t := Table(map[1 := held, 2 := overlapping, 3 := adjacent], 4);
      && ApproveByScan(t, 2) == Step(Err(InvalidState), t)
      && ApproveByScan(t, 3).result == Ok(ToDomain(adjacent.(status := Approved)))
  {
    var held := Entity(Some(1), 100, 7, 10, 15, Approved);
    var overlapping := Entity(Some(2), 200, 7, 14, 20, Pending);
    var adjacent := Entity(Some(3), 300, 7, 15, 20, Pending);
    var t := Table(map[1 := held, 2 := overlapping, 3 := adjacent], 4);
    assert ConflictsWith(overlapping, t.rows[1]);
    assert !HasConflict(t.rows, adjacent) by {
      forall k | k in t.rows ensures !ConflictsWith(adjacent, t.rows[k]) {
        assert k == 1 || k == 2 || k == 3;
      }
    }
  }

  /**
   * Pending requests never block each other: on a fresh table two fully
   * overlapping requests for one room are both created; the first is
   * approved; approving the second then fails and leaves it Pending.
   */
  lemma PendingRequestsCoexist()
    ensures var a := Reservation(None, 100, 7, 10, 15, None);
      var b := Reservation(None, 200, 7, 10, 15, None);
      var s1 := Create(Empty, a);
      var s2 := Create(s1.table, b);
      var s3 := ApproveByScan(s2.table, 1);
      var s4 := ApproveByScan(s3.table, 2);
      && s1.result.Ok? && s2.result.Ok?
      && s2.table.rows[1].status == Pending && s2.table.rows[2].status == Pending
      && s3.result.Ok?
      && s4 == Step(Err(InvalidState), s3.table)
      && s4.table.rows[2].status == Pending
  {
    var a := Reservation(None, 100, 7, 10, 15, None);
    var b := Reservation(None, 200, 7, 10, 15, None);
    var s1 := Create(Empty, a);
    var s2 := Create(s1.table, b);
    var rows2 := s2.table.rows;
    assert rows2 == map[1 := Entity(Some(1), 100, 7, 10, 15, Pending), 2 := Entity(Some(2), 200, 7, 10, 15, Pending)];
    assert !HasConflict(rows2, rows2[1]) by {
      forall k | k in rows2 ensures !ConflictsWith(rows2[1], rows2[k]) {
        assert k == 1 || k == 2;
      }
    }
    var s3 := ApproveByScan(s2.table, 1);
    assert ConflictsWith(s3.table.rows[2], s3.table.rows[1]);
  }
}
