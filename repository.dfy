/**
 * The reservation repository as an object whose table changes in place.
 * Its abstract value is a `Store.Table`; each method is specified by the
 * matching function of module Store.
 */
module Repository {
  import opened Domain
  import opened Store

  class ReservationRepository {
    var rows: map<int, Entity>
    var nextId: int

    /** The table the fields hold. */
    function State(): Table
      reads this
    {
      Table(rows, nextId)
    }

    ghost predicate Valid()
      reads this
    {
      WellFormed(State())
    }

    /** A fresh, empty database. */
    constructor ()
      ensures Valid() && State() == Empty
    {
      rows := map[];
      nextId := 1;
    }

    /** `findById`: the stored row, or nothing for a missing id. */
    method FindById(id: int) returns (found: Option<Entity>)
      ensures found == Find(State(), id)
      ensures found.Some? <==> id in rows
      ensures found.Some? ==> found.value == rows[id]
    {
      if id in rows {
        found := Some(rows[id]);
      } else {
        found := None;
      }
    }

    /**
     * `findAll`: every stored row exactly once, in ascending id order.
     */
    method FindAll() returns (all: seq<Entity>)
      requires Valid()
      ensures forall i :: 0 <= i < |all| ==> all[i].id.Some? && all[i].id.value in rows && rows[all[i].id.value] == all[i]
      ensures forall k :: k in rows ==> rows[k] in all
      ensures forall i, j :: 0 <= i < j < |all| ==> all[i].id.value < all[j].id.value
    {
      all := [];
      for k := 1 to nextId
        invariant forall i :: 0 <= i < |all| ==> all[i].id.Some? && all[i].id.value in rows && all[i].id.value < k && rows[all[i].id.value] == all[i]
        invariant forall k' :: k' in rows && k' < k ==> rows[k'] in all
        invariant forall i, j :: 0 <= i < j < |all| ==> all[i].id.value < all[j].id.value
      {
        if k in rows {
          all := all + [rows[k]];
        }
      }
    }

    /** `save`: insert under a new id, or replace the row with the given id. */
    method Save(e: Entity) returns (saved: Entity)
      requires Valid()
      requires e.id.None? || e.id.value in rows
      modifies this
      ensures Valid()
      ensures Step(saved, State()) == Store.Save(old(State()), e)
    {
      SaveAssignsId(State(), e);
      if e.id.None? {
        saved := e.(id := Some(nextId));
        nextId := nextId + 1;
      } else {
        saved := e;
      }
      rows := rows[saved.id.value := saved];
    }

    /** `setStatus`: a status-only write to the row with the given id. */
    method SetStatus(id: int, status: Status)
      requires Valid()
      modifies this
      ensures Valid()
      ensures State() == Store.SetStatus(old(State()), id, status)
    {
      SetStatusChangesOnlyStatus(State(), id, status);
      if id in rows {
        rows := rows[id := rows[id].(status := status)];
      }
    }

    /**
     * `findConflictReservationIds(roomId, startDate, endDate, status)`: the
     * ids of the rows of that room and status whose range overlaps
     * [startDate, endDate), each once, in ascending order.
     */
    method FindConflictReservationIds(roomId: int, startDate: int, endDate: int, status: Status)
      returns (ids: seq<int>)
      requires Valid()
      ensures forall k :: k in ids <==> k in ConflictingIds(rows, roomId, startDate, endDate, status)
      ensures forall i, j :: 0 <= i < j < |ids| ==> ids[i] < ids[j]
    {
      ids := [];
      for k := 1 to nextId
        invariant forall k' :: k' in ids <==> k' in rows && k' < k && QueryMatch(rows[k'], roomId, startDate, endDate, status)
        invariant forall i :: 0 <= i < |ids| ==> ids[i] < k
        invariant forall i, j :: 0 <= i < j < |ids| ==> ids[i] < ids[j]
      {
        if k in rows && QueryMatch(rows[k], roomId, startDate, endDate, status) {
          ids := ids + [k];
        }
      }
    }
  }
}
