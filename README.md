# Reservation lifecycle and room-overlap conflicts

This project models the core of a room-reservation service, and proves properties of that model, in Dafny. A reservation is created as Pending. While it is Pending it may be edited, cancelled or approved. A manager's approval is refused when another approved reservation of the same room overlaps its dates. Date ranges are end-exclusive: the end date is the first day not reserved. The system keeps this invariant: no two approved reservations of one room overlap.

The repository has two versions of the service, and both are modelled:

- **The older `service` package.** It finds approval conflicts itself, with a linear scan over every stored row. The scan skips the row's own id, other rooms and rows that are not approved.
- **The newer `reservations` package.** It gates operations the same way. It asks the repository's conflict query for approved rows of the room whose range overlaps. It also fills in page defaults for searches. A small availability service in `reservations.availability` reuses the date check and the conflict query.

Layout:

- `domain.dfy` (module `Domain`): the record (`Reservation`), the table row (`Entity`), `Status`, the three failures as `Error` (`NotFound`, `InvalidInput`, `InvalidState`), `Result`/`Outcome`, the date rules (`IsAfter`, `IsBefore`, `Overlaps`) and the scan's per-row test `ConflictsWith`. Dates are day numbers, so `isAfter` and `isBefore` are strict `>` and `<`.
- `store.dfy` (module `Store`): the table as a value, `Table(rows, nextId)`. It holds the pure meaning of `save`, `setStatus` and `findById`, the scan's `HasConflict`, and the conflict query's `ConflictingIds`. It also defines the invariants: `WellFormed`, `RangesValid` and `NoApprovedOverlap`.
- `repository.dfy` (module `Repository`): class `ReservationRepository`, a store whose fields change in place. Each of its methods is proved against the matching `Store` function.
- `lifecycle.dfy` (module `Lifecycle`): one function per service operation, from the table before to the result and the table after. It holds the lemmas for the gating rules, for what a successful operation writes, and for keeping the invariant. It also shows that the two approval versions agree.
- `service.dfy` (module `Service`): class `ReservationService` of the older package.
- `reservations.dfy` (module `Reservations`): class `ReservationService` of the newer package, and `PageRequestOf`.
- `availability.dfy` (module `Availability`): class `ReservationAvailabilityService` and its lemmas.

Every mutating method of both service classes (create, update, cancel, approve) requires and ensures `Valid()`. `Valid()` says: the table is well formed, every stored range is non-empty, and no two approved rows of one room overlap. Each of them also ensures that its result and the new table are exactly what the matching `Lifecycle` function gives for the old table. The read-only methods (`GetReservationById`, `FindAllReservations`, `IsReservationConflict`) change nothing and are proved against `Lifecycle.Get`, `Repository.ReservationRepository.FindAll`, `Store.HasConflict` and `Store.ConflictingIds`.

Two points of the code shape the model:

- **No id to exclude.** The newer service passes no id to exclude to `findConflictReservationIds` (reservations/ReservationService.java:125-130), so the model's query excludes no id. `Lifecycle.ApproveVersionsAgree` proves this harmless: the row being approved is Pending, and the query asks for Approved rows.
- **Approved reservations cannot be cancelled.** Both services refuse to cancel an approved reservation (service/ReservationService.java:87-89; reservations/ReservationService.java:87-89), and the model refuses it too.

The conflict query's text is not part of this model. The model assumes it returns the ids of the rows that have the given room and status and satisfy `start < row.end && row.start < end` (`Store.QueryMatch`). This is the older scan's overlap rule, without the id exclusion.

The newer package's `Reservation` record and its mapper are not part of this model either. The newer service uses the `Reservation` of its own package, whose text is not shown. One assumption is made for create and update alike: `toEntity` copies user, room and dates and leaves the id and status to the service, which sets the status and, on update, the stored id. On create the new row therefore gets no id from the input. This agrees with the older package's record, which declares the id `@Null` (model/Reservation.java:12-13). The newer record is assumed by analogy to declare it `@Null` as well.

## Model

| member | source | states |
|---|---|---|
| `Domain.ToDomainIsFaithful` | src/main/java/dev/folomkin/reservationsystem/service/ReservationService.java:139-148 | the row-to-record copy is injective, keeps the id and never leaves the status absent |
| `Domain.AdjacentRangesDoNotOverlap` | src/main/java/dev/folomkin/reservationsystem/service/ReservationService.java:130-131 | a range ending on the day another starts does not overlap it, in either order (end-exclusive rule) |
| `Domain.OverlapsSymmetric` | src/main/java/dev/folomkin/reservationsystem/service/ReservationService.java:130-131 | the overlap test gives the same answer whichever range is named first |
| `Store.SaveAssignsId` | src/main/java/dev/folomkin/reservationsystem/service/ReservationService.java:46-54 | `save` without an id stores the row under an id no row had; with an id it replaces that row and keeps the generator; the table stays well formed |
| `Store.SetStatusChangesOnlyStatus` | src/main/java/dev/folomkin/reservationsystem/repository/ReservationRepository.java:44-53 | the status-only write changes the named row's status and nothing else, and a missing id changes nothing |
| `Store.QueryConsultsOnlyApproved` | src/main/java/dev/folomkin/reservationsystem/reservations/availability/ReservationAvailabilityService.java:32-37 | two tables with the same approved rows get the same answer from the conflict query for status Approved, whatever their other rows are |
| `Store.QueryFindsApprovedRowItself` | src/main/java/dev/folomkin/reservationsystem/reservations/ReservationService.java:125-130 | the query excludes no id: asked about an approved row's own room and range, it returns that row's id |
| `Store.QueryAgreesWithScan` | src/main/java/dev/folomkin/reservationsystem/reservations/ReservationService.java:121-136 | for a stored pending row, the query returns some id exactly when the older scan, which excludes the row's own id, finds a conflict |
| `Repository.ReservationRepository.FindById` | src/main/java/dev/folomkin/reservationsystem/service/ReservationService.java:27-28 | returns the stored row for a stored id and nothing for a missing one |
| `Repository.ReservationRepository.FindAll` | src/main/java/dev/folomkin/reservationsystem/service/ReservationService.java:118 | returns every stored row, each exactly once (in ascending id order), and only stored rows |
| `Repository.ReservationRepository.Save` | src/main/java/dev/folomkin/reservationsystem/service/ReservationService.java:54 | the new table and the returned row are those of `Store.Save`; the store stays well formed |
| `Repository.ReservationRepository.SetStatus` | src/main/java/dev/folomkin/reservationsystem/repository/ReservationRepository.java:44-53 | the new table is that of `Store.SetStatus`: only the status of the named row changes |
| `Repository.ReservationRepository.FindConflictReservationIds` | src/main/java/dev/folomkin/reservationsystem/reservations/ReservationService.java:125-130 | returns exactly the ids of the rows of the room and status whose range overlaps the given range, each once |
| `Lifecycle.GetReturnsStored` | src/main/java/dev/folomkin/reservationsystem/service/ReservationService.java:26-30 | get fails with NotFound exactly for a missing id, and otherwise returns the stored row as a record |
| `Lifecycle.CreateRefusals` | src/main/java/dev/folomkin/reservationsystem/service/ReservationService.java:40-45 | a supplied status gives InvalidInput whatever the dates are; an end not after the start (equal dates included) gives InvalidInput; both leave the table unchanged; create succeeds exactly when neither applies |
| `Lifecycle.CreateStoresPending` | src/main/java/dev/folomkin/reservationsystem/service/ReservationService.java:46-55 | a successful create stores one new row under an id no row had, copying user, room and dates, with status Pending; every other row is untouched |
| `Lifecycle.GetAfterCreate` | src/main/java/dev/folomkin/reservationsystem/service/ReservationService.java:39-56 | getting the new id after a create returns the record create returned: the input with the new id and status Pending |
| `Lifecycle.UpdateRefusals` | src/main/java/dev/folomkin/reservationsystem/service/ReservationService.java:59-68 | the refusals come in order: a missing id gives NotFound; a row that is not Pending gives InvalidState whatever the dates; a bad range gives InvalidInput; every refusal leaves the table unchanged; the update succeeds exactly on a stored Pending row with end after start |
| `Lifecycle.UpdateReplacesContent` | src/main/java/dev/folomkin/reservationsystem/service/ReservationService.java:69-78 | a successful update keeps the id, replaces user, room and dates, leaves status Pending whatever status the input carries, and touches no other row |
| `Lifecycle.CancelRules` | src/main/java/dev/folomkin/reservationsystem/service/ReservationService.java:84-93 | a missing id gives NotFound; Approved and Cancelled rows give InvalidState with the table unchanged; cancel succeeds exactly on a Pending row, and then only that row's status changes, to Cancelled |
| `Lifecycle.ApproveByScanRules` | src/main/java/dev/folomkin/reservationsystem/service/ReservationService.java:99-113 | a missing id gives NotFound; a row that is not Pending gives InvalidState; a conflict gives InvalidState, with the row left Pending and nothing saved; approval succeeds exactly when none of these applies, and then only the status changes, to Approved |
| `Lifecycle.ApproveByQueryRules` | src/main/java/dev/folomkin/reservationsystem/reservations/ReservationService.java:98-117 | the newer approval fails exactly on a missing id, a row that is not Pending, or a non-empty answer from the approved-conflict query; a failure changes nothing; on success only the status changes |
| `Lifecycle.ApproveVersionsAgree` | src/main/java/dev/folomkin/reservationsystem/reservations/ReservationService.java:102-112 | on every well-formed table, both kinds of approval give the same result and the same table: a row never conflicts with itself, in the newer version because it is Pending |
| `Lifecycle.CreateKeepsConsistent` | src/main/java/dev/folomkin/reservationsystem/service/ReservationService.java:39-56 | create keeps the table well formed, every range non-empty, and no two approved rows of a room overlapping |
| `Lifecycle.UpdateKeepsConsistent` | src/main/java/dev/folomkin/reservationsystem/service/ReservationService.java:58-79 | update keeps the same three invariants |
| `Lifecycle.CancelKeepsConsistent` | src/main/java/dev/folomkin/reservationsystem/service/ReservationService.java:82-95 | cancel keeps the same three invariants |
| `Lifecycle.ApproveByScanKeepsConsistent` | src/main/java/dev/folomkin/reservationsystem/service/ReservationService.java:98-136 | approval after the scan finds no conflict keeps the invariants: no two approved rows of a room overlap |
| `Lifecycle.ApproveByQueryKeepsConsistent` | src/main/java/dev/folomkin/reservationsystem/reservations/ReservationService.java:98-118 | approval after the conflict query keeps the same invariants |
| `Lifecycle.BoundaryScenario` | src/main/java/dev/folomkin/reservationsystem/service/ReservationService.java:117-136 | with [10, 15) approved in a room, approving [14, 20) in that room fails with InvalidState and changes nothing, and approving [15, 20) succeeds |
| `Lifecycle.PendingRequestsCoexist` | src/main/java/dev/folomkin/reservationsystem/service/ReservationService.java:39-136 | two fully overlapping requests for one room can both be created and stay Pending; once the first is approved, approving the second fails and it stays Pending |
| `Service.ReservationService.GetReservationById` | src/main/java/dev/folomkin/reservationsystem/service/ReservationService.java:26-30 | returns `Lifecycle.Get` of the store: NotFound exactly for a missing id |
| `Service.ReservationService.FindAllReservations` | src/main/java/dev/folomkin/reservationsystem/service/ReservationService.java:33-36 | every returned record is what get returns for its id, every stored row appears as a record, and each appears once (ids strictly ascending) |
| `Service.ReservationService.CreateReservation` | src/main/java/dev/folomkin/reservationsystem/service/ReservationService.java:39-56 | result and new table are `Lifecycle.Create` of the old table; the invariants are kept |
| `Service.ReservationService.UpdateReservation` | src/main/java/dev/folomkin/reservationsystem/service/ReservationService.java:58-79 | result and new table are `Lifecycle.Update` of the old table; the invariants are kept |
| `Service.ReservationService.CancelReservation` | src/main/java/dev/folomkin/reservationsystem/service/ReservationService.java:82-95 | outcome and new table are `Lifecycle.Cancel` of the old table; the invariants are kept |
| `Service.ReservationService.ApproveReservation` | src/main/java/dev/folomkin/reservationsystem/service/ReservationService.java:98-114 | result and new table are `Lifecycle.ApproveByScan` of the old table; the invariants are kept |
| `Service.ReservationService.IsReservationConflict` | src/main/java/dev/folomkin/reservationsystem/service/ReservationService.java:117-136 | the scan returns true exactly when some stored row with another id is of the same room, is approved, and overlaps (end-exclusive) |
| `Reservations.PageRequestOf` | src/main/java/dev/folomkin/reservationsystem/reservations/ReservationService.java:35-37 | page size 10 and page number 0 when absent, and the supplied values otherwise |
| `Reservations.ReservationService.GetReservationById` | src/main/java/dev/folomkin/reservationsystem/reservations/ReservationService.java:26-30 | returns `Lifecycle.Get` of the store: NotFound exactly for a missing id, otherwise the stored row unchanged |
| `Reservations.ReservationService.CreateReservation` | src/main/java/dev/folomkin/reservationsystem/reservations/ReservationService.java:45-58 | result and new table are `Lifecycle.Create` of the old table (status checked first, then the range, status forced to Pending); the invariants are kept |
| `Reservations.ReservationService.UpdateReservation` | src/main/java/dev/folomkin/reservationsystem/reservations/ReservationService.java:60-79 | result and new table are `Lifecycle.Update` of the old table (status before range, id kept, status Pending); the invariants are kept |
| `Reservations.ReservationService.CancelReservation` | src/main/java/dev/folomkin/reservationsystem/reservations/ReservationService.java:82-95 | outcome and new table are `Lifecycle.Cancel` of the old table; the invariants are kept |
| `Reservations.ReservationService.ApproveReservation` | src/main/java/dev/folomkin/reservationsystem/reservations/ReservationService.java:98-118 | result and new table are `Lifecycle.ApproveByQuery` of the old table; the invariants are kept |
| `Reservations.ReservationService.IsReservationConflict` | src/main/java/dev/folomkin/reservationsystem/reservations/ReservationService.java:121-136 | true exactly when the approved-conflict query for the room and range has at least one id |
| `Availability.ReservationAvailabilityService.IsReservationAvailable` | src/main/java/dev/folomkin/reservationsystem/reservations/availability/ReservationAvailabilityService.java:23-43 | InvalidInput exactly when the end is not after the start, equal dates included; otherwise true exactly when the approved-conflict query is empty; no modifies clause, so the store is only read |
| `Availability.AvailableIffNoApprovedOverlap` | src/main/java/dev/folomkin/reservationsystem/reservations/availability/ReservationAvailabilityService.java:28-42 | a room is reported available exactly when the range is valid and no approved reservation of the room overlaps it |
| `Availability.OnlyApprovedRowsMatter` | src/main/java/dev/folomkin/reservationsystem/reservations/availability/ReservationAvailabilityService.java:32-37 | the answer depends only on the approved rows, so pending and cancelled reservations never make a room unavailable |
| `Availability.ApprovableIffAvailable` | src/main/java/dev/folomkin/reservationsystem/reservations/availability/ReservationAvailabilityService.java:23-43 | a stored pending reservation can be approved exactly when its room is reported available for its own dates |
| `Availability.ApprovedReservationBlocksRoom` | src/main/java/dev/folomkin/reservationsystem/reservations/availability/ReservationAvailabilityService.java:32-42 | after a successful approval, the room is reported unavailable for every valid range that overlaps the approved one |

## Left out

- Controllers, `GlobalExceptionHandler`, both `ErrorResponseDto` records and logging: these are HTTP routing, mapping exceptions to status codes, and clock reads. They hold no lifecycle logic.
- Exception messages: the model records only the kind of failure. It cannot tell the two InvalidState refusals of cancel apart, nor the status refusal of approve from its conflict refusal.
- Concurrency: `@Transactional` and the check-then-act race between two approvals. Each service method is modelled as one atomic step over a single store.
- The page query of `searchAllByFilter`: its repository query text is not shown, and Spring's `Pageable` is framework code. Only the page-default computation is modelled (`Reservations.PageRequestOf`). Spring's own refusal of a page size below 1 or a negative page number is not modelled.
- The query text of `findConflictReservationIds` is not part of this model. `Store.QueryMatch` is an assumption about it, stated in the overview above.
- The mapper, record and entity classes of the newer package are not part of this model. Both packages share one `Reservation` and one `Entity` datatype. The mapper's `toEntity` is assumed to copy user, room and dates only: an id sent on create is not carried into `save`. This rests on the `@Null` id assumed for the newer record (see above); a mapper that copied a non-null id would make `save` replace the stored row with that id, which the model does not capture.
- Bean-validation annotations in the older package's `Reservation.java` (and, by assumption, the newer one's): the model has no null ids, users, rooms or dates (`@NotNull`), and takes a create request's id to be absent (`@Null`). `@FutureOrPresent` depends on the wall clock and is left out.
- Repository.ReservationRepository.Save: it requires the row to have no id or the id of a stored row, because JPA's handling of an unknown id is not part of this model. Every call in the services meets this.
- Repository.ReservationRepository.FindAll: `findAll` promises no order; the model returns the rows in ascending id order.
- Ids are unbounded integers handed out from 1 upward: the 64-bit `Long` width and the database sequence are not modelled.
- The test file: its smoke tests need a running server and contradict the services (for example, a create request that sends status PENDING with equal dates and expects success), so no property is taken from it.
