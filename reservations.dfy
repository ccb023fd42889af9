/**
 * The newer reservation service (package `reservations`). It gates the
 * operations the same way as the older one, but leaves the approval conflict
 * check to the repository's conflict query. It also works out the page
 * request for searches.
 */
module Reservations {
  import opened Domain
  import opened Store
  import opened Lifecycle
  import opened Repository

  /** `ReservationSearchFilter`: every field may be absent. */
  datatype SearchFilter = SearchFilter(
    roomId: Option<int>,
    userId: Option<int>,
    pageSize: Option<int>,
    pageNumber: Option<int>)

  /** The page a search asks the repository for. */
  datatype PageRequest = PageRequest(size: int, number: int)

  const DefaultPageSize := 10
  const DefaultPageNumber := 0

  /**
   * The page request of `searchAllByFilter`: the supplied page size and
   * number, with 10 and 0 for the absent ones.
   */
  function PageRequestOf(filter: SearchFilter): (p: PageRequest)
    ensures filter.pageSize.None? ==> p.size == DefaultPageSize
    ensures filter.pageSize.Some? ==> p.size == filter.pageSize.value
    ensures filter.pageNumber.None? ==> p.number == DefaultPageNumber
    ensures filter.pageNumber.Some? ==> p.number == filter.pageNumber.value
  {
    var size := if filter.pageSize.Some? then filter.pageSize.value else DefaultPageSize;
    var number := if filter.pageNumber.Some? then filter.pageNumber.value else DefaultPageNumber;
    PageRequest(size, number)
  }

  class ReservationService {
    const repository: ReservationRepository

    ghost predicate Valid()
      reads this, repository
    {
      Consistent(repository.State())
    }

    constructor (repository: ReservationRepository)
      requires Consistent(repository.State())
      ensures this.repository == repository && Valid()
    {
      this.repository := repository;
    }

    /** `getReservationById`. */
    method GetReservationById(id: int) returns (r: Result<Reservation>)
      ensures r == Get(repository.State(), id)
      ensures r.Err? <==> id !in repository.rows
    {
      var found := repository.FindById(id);
      if found.None? {
        r := Err(NotFound);
        return;
      }
      r := Ok(ToDomain(found.value));
    }

    /** `createReservation`. */
    method CreateReservation(input: Reservation) returns (r: Result<Reservation>)
      requires Valid()
      modifies repository
      ensures Valid()
      ensures Step(r, repository.State()) == Create(old(repository.State()), input)
    {
      CreateKeepsConsistent(repository.State(), input);
      if input.status.Some? {
        r := Err(InvalidInput);
        return;
      }
      if !IsAfter(input.endDate, input.startDate) {
        r := Err(InvalidInput);
        return;
      }
      var entityToSave := Entity(None, input.userId, input.roomId, input.startDate, input.endDate, Pending);
      var saved := repository.Save(entityToSave);
      r := Ok(ToDomain(saved));
    }

    /** `updateReservation`. */
    method UpdateReservation(id: int, input: Reservation) returns (r: Result<Reservation>)
      requires Valid()
      modifies repository
      ensures Valid()
      ensures Step(r, repository.State()) == Update(old(repository.State()), id, input)
    {
      UpdateKeepsConsistent(repository.State(), id, input);
      var found := repository.FindById(id);
      if found.None? {
        r := Err(NotFound);
        return;
      }
      var entity := found.value;
      if entity.status != Pending {
        r := Err(InvalidState);
        return;
      }
      if !IsAfter(input.endDate, input.startDate) {
        r := Err(InvalidInput);
        return;
      }
      // the input's content, then the stored id and status Pending set on it
      var toSave := Entity(entity.id, input.userId, input.roomId, input.startDate, input.endDate, Pending);
      var updated := repository.Save(toSave);
      r := Ok(ToDomain(updated));
    }

    /** `cancelReservation`. */
    method CancelReservation(id: int) returns (r: Outcome)
      requires Valid()
      modifies repository
      ensures Valid()
      ensures Step(r, repository.State()) == Cancel(old(repository.State()), id)
    {
      CancelKeepsConsistent(repository.State(), id);
      var found := repository.FindById(id);
      if found.None? {
        r := Fail(NotFound);
        return;
      }
      if found.value.status == Approved {
        r := Fail(InvalidState);
        return;
      }
      if found.value.status == Cancelled {
        r := Fail(InvalidState);
        return;
      }
      repository.SetStatus(id, Cancelled);
      r := Done;
    }

    /**
     * `approveReservation`: the conflict query is asked for the room and the
     * range of the stored row, with status Approved and no id to exclude.
     */
    method ApproveReservation(id: int) returns (r: Result<Reservation>)
      requires Valid()
      modifies repository
      ensures Valid()
      ensures Step(r, repository.State()) == ApproveByQuery(old(repository.State()), id)
    {
      ApproveByQueryKeepsConsistent(repository.State(), id);
      var found := repository.FindById(id);
      if found.None? {
        r := Err(NotFound);
        return;
      }
      var entity := found.value;
      if entity.status != Pending {
        r := Err(InvalidState);
        return;
      }
      var isConflict := IsReservationConflict(entity.roomId, entity.startDate, entity.endDate);
      if isConflict {
        r := Err(InvalidState);
        return;
      }
      entity := entity.(status := Approved);
      var saved := repository.Save(entity);
      r := Ok(ToDomain(entity));
    }

    /**
     * `isReservationConflict`: true exactly when the conflict query for
     * approved rows of the room and range answers with at least one id.
     */
    method IsReservationConflict(roomId: int, startDate: int, endDate: int) returns (b: bool)
      requires repository.Valid()
      ensures b <==> ConflictingIds(repository.rows, roomId, startDate, endDate, Approved) != {}
    {
      var conflictingIds := repository.FindConflictReservationIds(roomId, startDate, endDate, Approved);
      if |conflictingIds| == 0 {
        assert forall k :: k !in ConflictingIds(repository.rows, roomId, startDate, endDate, Approved);
        return false;
      }
      assert conflictingIds[0] in conflictingIds;
      assert conflictingIds[0] in ConflictingIds(repository.rows, roomId, startDate, endDate, Approved);
      return true;
    }
  }
}
