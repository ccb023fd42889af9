/**
 * The values the reservation core works on: the reservation record that
 * callers send and receive, the persisted row, the lifecycle status, the
 * failures the services raise, and the date-range rules.
 *
 * Calendar dates are modelled as day numbers (days since an epoch), so
 * `LocalDate.isAfter` and `LocalDate.isBefore` become strict `>` and `<`.
 */
module Domain {

  datatype Option<T> = None | Some(value: T)

  /** The closed set of lifecycle states a persisted reservation can be in. */
  datatype Status = Pending | Approved | Cancelled

  /**
   * The reservation record exchanged with callers. `id` is absent before
   * persistence; `status` is absent on a create request (and present on
   * every record the services return).
   */
  datatype Reservation = Reservation(
    id: Option<int>,
    userId: int,
    roomId: int,
    startDate: int,
    endDate: int,
    status: Option<Status>)

  /** A row of the reservation table. Its status is never null once built. */
  datatype Entity = Entity(
    id: Option<int>,
    userId: int,
    roomId: int,
    startDate: int,
    endDate: int,
    status: Status)

  /**
   * The three kinds of failure the services raise:
   * EntityNotFoundException, IllegalArgumentException and
   * IllegalStateException.
   */
  datatype Error = NotFound | InvalidInput | InvalidState

  /** What a service method that returns a value produces. */
  datatype Result<T> = Ok(value: T) | Err(error: Error)

  /** What a service method declared `void` produces. */
  datatype Outcome = Done | Fail(error: Error)

  /** `a.isAfter(b)` on day numbers. */
  predicate IsAfter(a: int, b: int) {
    a > b
  }

  /** `a.isBefore(b)` on day numbers. */
  predicate IsBefore(a: int, b: int) {
    a < b
  }

  /** A date range is accepted only when its end is strictly after its start. */
  predicate ValidRange(startDate: int, endDate: int) {
    IsAfter(endDate, startDate)
  }

  /**
   * Two end-exclusive ranges [s1, e1) and [s2, e2) overlap: each one starts
   * before the other ends.
   */
  predicate Overlaps(s1: int, e1: int, s2: int, e2: int) {
    IsBefore(s1, e2) && IsBefore(s2, e1)
  }

  /**
   * The legacy scan's per-row test: `other` is a different row of the same
   * room, is approved, and its range overlaps that of `r`.
   */
  predicate ConflictsWith(r: Entity, other: Entity) {
    && r.id != other.id
    && r.roomId == other.roomId
    && other.status == Approved
    && Overlaps(r.startDate, r.endDate, other.startDate, other.endDate)
  }

  /** The copy from a table row to the record handed back to callers. */
  function ToDomain(e: Entity): Reservation {
    Reservation(e.id, e.userId, e.roomId, e.startDate, e.endDate, Some(e.status))
  }

  /** Overlap does not depend on which range is named first. */
  lemma OverlapsSymmetric(s1: int, e1: int, s2: int, e2: int)
    ensures Overlaps(s1, e1, s2, e2) <==> Overlaps(s2, e2, s1, e1)
  {
  }

  /**
   * The end date is the first free day: a range that ends on the day
   * another starts does not overlap it, in either order.
   */
  lemma AdjacentRangesDoNotOverlap(s1: int, m: int, e2: int)
    ensures !Overlaps(s1, m, m, e2) && !Overlaps(m, e2, s1, m)
  {
  }

  /**
   * The copy loses nothing: distinct rows give distinct records, and the
   * returned status is never absent.
   */
  lemma ToDomainIsFaithful(a: Entity, b: Entity)
    ensures ToDomain(a) == ToDomain(b) <==> a == b
    ensures ToDomain(a).status == Some(a.status) && ToDomain(a).id == a.id
  {
  }
}
