/**
 * Room availability (package `reservations.availability`): a read-only
 * question about a room and a date range, answered from the conflict query
 * for approved reservations.
 */
module Availability {
  import opened Domain
  import opened Store
  import opened Lifecycle
  import opened Repository

  /**
   * The answer for a table: an empty or reversed range is refused; otherwise
   * the room is available exactly when no approved row of it overlaps.
   */
  function Availability(t: Table, roomId: int, startDate: int, endDate: int): Result<bool> {
    if !IsAfter(endDate, startDate) then Err(InvalidInput)
    else Ok(ConflictingIds(t.rows, roomId, startDate, endDate, Approved) == {})
  }

  class ReservationAvailabilityService {
    const repository: ReservationRepository

    constructor (repository: ReservationRepository)
      ensures this.repository == repository
    {
      this.repository := repository;
    }

    /**
     * `isReservationAvailable`. It has no modifies clause: the store is only
     * read.
     */
    method IsReservationAvailable(roomId: int, startDate: int, endDate: int) returns (r: Result<bool>)
      requires repository.Valid()
      ensures r == Availability(repository.State(), roomId, startDate, endDate)
      ensures r == Err(InvalidInput) <==> endDate <= startDate
    {
      if !IsAfter(endDate, startDate) {
        r := Err(InvalidInput);
        return;
      }
      var conflictingIds := repository.FindConflictReservationIds(roomId, startDate, endDate, Approved);
      if |conflictingIds| == 0 {
        assert forall k :: k !in ConflictingIds(repository.rows, roomId, startDate, endDate, Approved);
        r := Ok(true);
        return;
      }
      assert conflictingIds[0] in conflictingIds;
      assert conflictingIds[0] in ConflictingIds(repository.rows, roomId, startDate, endDate, Approved);
      r := Ok(false);
    }
  }

  /**
   * A room is reported available for a valid range exactly when no approved
   * reservation of that room overlaps the range.
   */
  lemma AvailableIffNoApprovedOverlap(t: Table, roomId: int, startDate: int, endDate: int)
    ensures Availability(t, roomId, startDate, endDate) == Ok(true) <==>
      && startDate < endDate
      && forall k :: k in t.rows && t.rows[k].roomId == roomId && t.rows[k].status == Approved
           ==> !Overlaps(startDate, endDate, t.rows[k].startDate, t.rows[k].endDate)
  {
    var ids := ConflictingIds(t.rows, roomId, startDate, endDate, Approved);
    if ids == {} {
      forall k | k in t.rows && t.rows[k].roomId == roomId && t.rows[k].status == Approved
        ensures !Overlaps(startDate, endDate, t.rows[k].startDate, t.rows[k].endDate)
      {
        assert k !in ids;
      }
    }
    if forall k :: k in t.rows && t.rows[k].roomId == roomId && t.rows[k].status == Approved
         ==> !Overlaps(startDate, endDate, t.rows[k].startDate, t.rows[k].endDate)
    {
      assert forall k :: k !in ids;
    }
  }

  /**
   * Pending and cancelled reservations never make a room unavailable: the
   * answer depends on the approved rows alone, so adding, editing or
   * cancelling a pending row does not change it.
   */
  lemma OnlyApprovedRowsMatter(t1: Table, t2: Table, roomId: int, startDate: int, endDate: int)
    requires forall k :: k in t1.rows && t1.rows[k].status == Approved ==> k in t2.rows && t2.rows[k] == t1.rows[k]
    requires forall k :: k in t2.rows && t2.rows[k].status == Approved ==> k in t1.rows && t1.rows[k] == t2.rows[k]
    ensures Availability(t1, roomId, startDate, endDate) == Availability(t2, roomId, startDate, endDate)
  {
    QueryConsultsOnlyApproved(t1.rows, t2.rows, roomId, startDate, endDate);
  }

  /**
   * Availability and approval agree: a stored pending reservation can be
   * approved by the newer service exactly when its room is reported available
   * for its own dates.
   */
  lemma ApprovableIffAvailable(t: Table, id: int)
    requires Consistent(t)
    requires id in t.rows && t.rows[id].status == Pending
    ensures var r := t.rows[id];
      ApproveByQuery(t, id).result.Ok? <==> Availability(t, r.roomId, r.startDate, r.endDate) == Ok(true)
  {
  }

  /**
   * Once a reservation is approved, its room is no longer available for any
   * range that overlaps it.
   */
  lemma ApprovedReservationBlocksRoom(t: Table, id: int, startDate: int, endDate: int)
    requires Consistent(t)
    requires ApproveByQuery(t, id).result.Ok?
    requires startDate < endDate
    requires Overlaps(startDate, endDate, t.rows[id].startDate, t.rows[id].endDate)
    ensures Availability(ApproveByQuery(t, id).table, t.rows[id].roomId, startDate, endDate) == Ok(false)
  {
    var u := ApproveByQuery(t, id).table;
    ApproveByQueryRules(t, id);
    assert u.rows[id] == t.rows[id].(status := Approved);
    assert id in ConflictingIds(u.rows, t.rows[id].roomId, startDate, endDate, Approved);
  }
}
