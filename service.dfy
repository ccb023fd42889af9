/**
 * The older reservation service (package `service`). It finds approval
 * conflicts itself, by scanning every stored row. Each operation is proved to
 * produce exactly the result and table given by module Lifecycle, and to keep
 * the service invariant: no two approved reservations of a room overlap.
 */
module Service {
  import opened Domain
  import opened Store
  import opened Lifecycle
  import opened Repository

  class ReservationService {
    const repository: ReservationRepository

    ghost predicate Valid()
      reads this, repository
    {
      Consistent(repository.State())
    }

    constructor (repository: ReservationRepository)
      requires Consistent(repository.State())
      ensures this.repository == repository && Valid()
    {
      this.repository := repository;
    }

    /** `getReservationById`. */
    method GetReservationById(id: int) returns (r: Result<Reservation>)
      ensures r == Get(repository.State(), id)
      ensures r.Err? <==> id !in repository.rows
    {
      var found := repository.FindById(id);
      if found.None? {
        r := Err(NotFound);
        return;
      }
      r := Ok(ToDomain(found.value));
    }

    /**
     * `findAllReservations`: every stored reservation, as records, each
     * once (the ids strictly ascend, so none repeats).
     */
    method FindAllReservations() returns (all: seq<Reservation>)
      requires repository.Valid()
      ensures forall i :: 0 <= i < |all| ==> all[i].id.Some? && Get(repository.State(), all[i].id.value) == Ok(all[i])
      ensures forall k :: k in repository.rows ==> ToDomain(repository.rows[k]) in all
      ensures forall i, j :: 0 <= i < j < |all| ==> all[i].id.value < all[j].id.value
    {
      var entities := repository.FindAll();
      all := [];
      for i := 0 to |entities|
        invariant |all| == i
        invariant forall j :: 0 <= j < i ==> all[j] == ToDomain(entities[j])
      {
        all := all + [ToDomain(entities[i])];
      }
      forall k | k in repository.rows
        ensures ToDomain(repository.rows[k]) in all
      {
        var j :| 0 <= j < |entities| && entities[j] == repository.rows[k];
        assert all[j] == ToDomain(repository.rows[k]);
      }
    }

    /** `createReservation`. */
    method CreateReservation(input: Reservation) returns (r: Result<Reservation>)
      requires Valid()
      modifies repository
      ensures Valid()
      ensures Step(r, repository.State()) == Create(old(repository.State()), input)
    {
      CreateKeepsConsistent(repository.State(), input);
      if input.status.Some? {
        r := Err(InvalidInput);
        return;
      }
      if !IsAfter(input.endDate, input.startDate) {
        r := Err(InvalidInput);
        return;
      }
      var entityToSave := Entity(None, input.userId, input.roomId, input.startDate, input.endDate, Pending);
      var saved := repository.Save(entityToSave);
      r := Ok(ToDomain(saved));
    }

    /** `updateReservation`. */
    method UpdateReservation(id: int, input: Reservation) returns (r: Result<Reservation>)
      requires Valid()
      modifies repository
      ensures Valid()
      ensures Step(r, repository.State()) == Update(old(repository.State()), id, input)
    {
      UpdateKeepsConsistent(repository.State(), id, input);
      var found := repository.FindById(id);
      if found.None? {
        r := Err(NotFound);
        return;
      }
      var entity := found.value;
      if entity.status != Pending {
        r := Err(InvalidState);
        return;
      }
      if !IsAfter(input.endDate, input.startDate) {
        r := Err(InvalidInput);
        return;
      }
      var toSave := Entity(entity.id, input.userId, input.roomId, input.startDate, input.endDate, Pending);
      var updated := repository.Save(toSave);
      r := Ok(ToDomain(updated));
    }

    /** `cancelReservation`. */
    method CancelReservation(id: int) returns (r: Outcome)
      requires Valid()
      modifies repository
      ensures Valid()
      ensures Step(r, repository.State()) == Cancel(old(repository.State()), id)
    {
      CancelKeepsConsistent(repository.State(), id);
      var found := repository.FindById(id);
      if found.None? {
        r := Fail(NotFound);
        return;
      }
      if found.value.status == Approved {
        r := Fail(InvalidState);
        return;
      }
      if found.value.status == Cancelled {
        r := Fail(InvalidState);
        return;
      }
      repository.SetStatus(id, Cancelled);
      r := Done;
    }

    /** `approveReservation`: the one place the overlap invariant is enforced. */
    method ApproveReservation(id: int) returns (r: Result<Reservation>)
      requires Valid()
      modifies repository
      ensures Valid()
      ensures Step(r, repository.State()) == ApproveByScan(old(repository.State()), id)
    {
      ApproveByScanKeepsConsistent(repository.State(), id);
      var found := repository.FindById(id);
      if found.None? {
        r := Err(NotFound);
        return;
      }
      var entity := found.value;
      if entity.status != Pending {
        r := Err(InvalidState);
        return;
      }
      var isConflict := IsReservationConflict(entity);
      if isConflict {
        r := Err(InvalidState);
        return;
      }
      entity := entity.(status := Approved);
      var saved := repository.Save(entity);
      r := Ok(ToDomain(entity));
    }

    /**
     * `isReservationConflict`: a linear scan over all stored rows that skips
     * the row's own id, other rooms and rows that are not approved, and stops
     * at the first overlapping range.
     */
    method IsReservationConflict(e: Entity) returns (b: bool)
      requires repository.Valid()
      ensures b == HasConflict(repository.rows, e)
    {
      var all := repository.FindAll();
      for i := 0 to |all|
        invariant forall j :: 0 <= j < i ==> !ConflictsWith(e, all[j])
      {
        var existing := all[i];
        if e.id == existing.id {
          continue;
        }
        if e.roomId != existing.roomId {
          continue;
        }
        if existing.status != Approved {
          continue;
        }
        if IsBefore(e.startDate, existing.endDate) && IsBefore(existing.startDate, e.endDate) {
          assert ConflictsWith(e, repository.rows[existing.id.value]);
          return true;
        }
      }
      forall k | k in repository.rows
        ensures !ConflictsWith(e, repository.rows[k])
      {
        var j :| 0 <= j < |all| && all[j] == repository.rows[k];
      }
      return false;
    }
  }
}
