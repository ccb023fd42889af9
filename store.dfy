/**
 * The reservation table as a value: the rows keyed by id and the next id
 * the generator hands out. The repository class keeps one of these in its
 * fields; the lifecycle specifications are functions over it.
 */
module Store {
  import opened Domain

  datatype Table = Table(rows: map<int, Entity>, nextId: int)

  /** The result of an operation together with the table it leaves behind. */
  datatype Step<R> = Step(result: R, table: Table)

  /** The table a fresh database starts with: no rows, ids from 1. */
  const Empty: Table := Table(map[], 1)

  /**
   * Every row is stored under its own id, and every id in use is one the
   * generator has already handed out: from 1 up to, not including, the next.
   */
  ghost predicate WellFormed(t: Table) {
    && 1 <= t.nextId
    && forall k :: k in t.rows ==> t.rows[k].id == Some(k) && 1 <= k < t.nextId
  }

  /** Two approved rows of the same room whose ranges overlap. */
  predicate Clash(a: Entity, b: Entity) {
    && a.status == Approved
    && b.status == Approved
    && a.roomId == b.roomId
    && Overlaps(a.startDate, a.endDate, b.startDate, b.endDate)
  }

  /** The system's global invariant: no two approved rows of one room overlap. */
  ghost predicate NoApprovedOverlap(rows: map<int, Entity>) {
    forall j, k :: j in rows && k in rows && j != k ==> !Clash(rows[j], rows[k])
  }

  /** Every stored row has a non-empty range: creation and update refuse any other. */
  ghost predicate RangesValid(rows: map<int, Entity>) {
    forall k :: k in rows ==> ValidRange(rows[k].startDate, rows[k].endDate)
  }

  /** What every operation of the services preserves. */
  ghost predicate Consistent(t: Table) {
    WellFormed(t) && RangesValid(t.rows) && NoApprovedOverlap(t.rows)
  }

  /** `findById`. */
  function Find(t: Table, id: int): Option<Entity> {
    if id in t.rows then Some(t.rows[id]) else None
  }

  /**
   * `save`: a row without an id is inserted under a newly generated id; a
   * row with an id replaces the stored row with that id in full.
   */
  function Save(t: Table, e: Entity): Step<Entity>
    requires e.id.None? || e.id.value in t.rows
  {
    if e.id.None? then
      var stored := e.(id := Some(t.nextId));
      Step(stored, Table(t.rows[t.nextId := stored], t.nextId + 1))
    else
      Step(e, Table(t.rows[e.id.value := e], t.nextId))
  }

  /** `setStatus`: `update ... set status = :status where id = :id`. */
  function SetStatus(t: Table, id: int, status: Status): Table {
    if id in t.rows then Table(t.rows[id := t.rows[id].(status := status)], t.nextId)
    else t
  }

  /** The legacy conflict test: some stored row conflicts with `r`. */
  predicate HasConflict(rows: map<int, Entity>, r: Entity) {
    exists k :: k in rows && ConflictsWith(r, rows[k])
  }

  /**
   * The row filter of `findConflictReservationIds(roomId, start, end,
   * status)`. Its query text is not part of this model; this is the
   * assumption made about it: the same room, the given status, and the
   * end-exclusive overlap rule. No id is excluded.
   */
  predicate QueryMatch(e: Entity, roomId: int, startDate: int, endDate: int, status: Status) {
    && e.roomId == roomId
    && e.status == status
    && Overlaps(startDate, endDate, e.startDate, e.endDate)
  }

  /** The ids the conflict query returns, as a set. */
  function ConflictingIds(rows: map<int, Entity>, roomId: int, startDate: int, endDate: int, status: Status): set<int> {
    set k | k in rows && QueryMatch(rows[k], roomId, startDate, endDate, status)
  }

  /** An insert gets an id no row has; a replace keeps the row's id. */
  lemma SaveAssignsId(t: Table, e: Entity)
    requires WellFormed(t)
    requires e.id.None? || e.id.value in t.rows
    ensures var s := Save(t, e);
      && s.result.id.Some?
      && s.table.rows == t.rows[s.result.id.value := s.result]
      && WellFormed(s.table)
      && (e.id.None? ==> s.result.id.value !in t.rows && s.result == e.(id := s.result.id))
      && (e.id.Some? ==> s.result == e && s.table.nextId == t.nextId)
  {
  }

  /** A status-only write changes only the status of the named row. */
  lemma SetStatusChangesOnlyStatus(t: Table, id: int, status: Status)
    requires WellFormed(t)
    ensures var u := SetStatus(t, id, status);
      && WellFormed(u)
      && u.nextId == t.nextId
      && u.rows.Keys == t.rows.Keys
      && (forall k :: k in t.rows && k != id ==> u.rows[k] == t.rows[k])
      && (id in t.rows ==> u.rows[id] == t.rows[id].(status := status))
  {
  }

  /**
   * Only approved rows take part in the query with status Approved: two
   * tables that agree on their approved rows give the same ids, whatever
   * their pending and cancelled rows are.
   */
  lemma QueryConsultsOnlyApproved(
      rows1: map<int, Entity>, rows2: map<int, Entity>, roomId: int, startDate: int, endDate: int)
    requires forall k :: k in rows1 && rows1[k].status == Approved ==> k in rows2 && rows2[k] == rows1[k]
    requires forall k :: k in rows2 && rows2[k].status == Approved ==> k in rows1 && rows1[k] == rows2[k]
    ensures ConflictingIds(rows1, roomId, startDate, endDate, Approved)
         == ConflictingIds(rows2, roomId, startDate, endDate, Approved)
  {
    var a := ConflictingIds(rows1, roomId, startDate, endDate, Approved);
    var b := ConflictingIds(rows2, roomId, startDate, endDate, Approved);
    forall k | k in a ensures k in b {
      assert rows1[k].status == Approved;
    }
    forall k | k in b ensures k in a {
      assert rows2[k].status == Approved;
    }
  }

  /**
   * The query excludes no id: asked for the room and range of an approved
   * row with a valid range, it answers with that row's own id.
   */
  lemma QueryFindsApprovedRowItself(rows: map<int, Entity>, id: int)
    requires id in rows && rows[id].status == Approved
    requires ValidRange(rows[id].startDate, rows[id].endDate)
    ensures var r := rows[id];
      id in ConflictingIds(rows, r.roomId, r.startDate, r.endDate, Approved)
  {
  }

  /**
   * For a pending row, the query without id exclusion and the legacy scan
   * with id exclusion agree: the row cannot match the query itself because it
   * is not approved, and every other matching row is a conflict by id.
   */
  lemma QueryAgreesWithScan(rows: map<int, Entity>, id: int)
    requires forall k :: k in rows ==> rows[k].id == Some(k)
    requires id in rows && rows[id].status == Pending
    ensures var r := rows[id];
      ConflictingIds(rows, r.roomId, r.startDate, r.endDate, Approved) != {} <==> HasConflict(rows, r)
  {
    var r := rows[id];
    var ids := ConflictingIds(rows, r.roomId, r.startDate, r.endDate, Approved);
    forall k | k in ids ensures k in rows && ConflictsWith(r, rows[k]) {
      assert k != id;
    }
    if HasConflict(rows, r) {
      var k :| k in rows && ConflictsWith(r, rows[k]);
      assert k in ids;
    } else {
      assert forall k :: k !in ids;
    }
  }
}
