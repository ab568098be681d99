/** The booking repository (the Postgres-backed `postgresDBRepo`) as pure
    functions over an in-memory database value. Each query's `WHERE` clause
    is a predicate over rows; each statement returns the new database. Serial
    ids are drawn from per-table counters. */
module Store {
  import opened Models
  import Seqs

  /** A row of the `reservations` table. */
  datatype ReservationRow = ReservationRow(
    id: int,
    firstName: string,
    lastName: string,
    email: string,
    phone: string,
    startDate: Day,
    endDate: Day,
    roomId: int,
    processed: int)

  /** A row of the `room_restrictions` table; `reservationId` is NULL for an
      owner block. */
  datatype RestrictionRow = RestrictionRow(
    id: int,
    startDate: Day,
    endDate: Day,
    roomId: int,
    reservationId: Option<int>,
    restrictionKind: int)

  /** The three tables the core reads and writes, with the next value of
      each serial id sequence. */
  datatype Db = Db(
    rooms: seq<Room>,
    reservations: seq<ReservationRow>,
    restrictions: seq<RestrictionRow>,
    nextReservationId: int,
    nextRestrictionId: int)

  function RoomKey(r: Room): int { r.id }
  function ReservationKey(r: ReservationRow): int { r.id }
  function RestrictionKey(r: RestrictionRow): int { r.id }

  /** The primary keys are unique and every serial id handed out so far is
      below the table's counter. */
  ghost predicate Valid(db: Db)
  {
    && Seqs.DistinctKeys(db.rooms, RoomKey)
    && Seqs.DistinctKeys(db.reservations, ReservationKey)
    && Seqs.DistinctKeys(db.restrictions, RestrictionKey)
    && 0 < db.nextReservationId
    && 0 < db.nextRestrictionId
    && (forall row :: row in db.reservations ==> 0 < row.id < db.nextReservationId)
    && (forall rr :: rr in db.restrictions ==> 0 < rr.id < db.nextRestrictionId)
  }

  // ---------------------------------------------------------------------
  // Availability

  /** The half-open overlap test of both availability queries: the stay
      `[start, end)` and the restriction share at least one night. */
  predicate Overlaps(rr: RestrictionRow, start: Day, end: Day)
  {
    start < rr.endDate && end > rr.startDate
  }

  /** `SearchAvailabilityByDatesAndRoomID`: counts the room's overlapping
      restrictions and reports the room free when the count is zero. */
  function SearchAvailabilityByDatesAndRoomID(db: Db, start: Day, end: Day, roomId: int): (available: bool)
    ensures available <==>
      forall rr :: rr in db.restrictions && rr.roomId == roomId ==> !Overlaps(rr, start, end)
  {
    var count := |Seqs.Filter(db.restrictions, (rr: RestrictionRow) => rr.roomId == roomId && Overlaps(rr, start, end))|;
    count == 0
  }

  /** The rooms owning at least one restriction that overlaps the stay. */
  function BusyRoomIds(db: Db, start: Day, end: Day): set<int>
  {
    set rr | rr in db.restrictions && Overlaps(rr, start, end) :: rr.roomId
  }

  /** `SearchAvailibilityForAllRooms`: every room whose id is not among the
      rooms of overlapping restrictions, in table order. */
  function SearchAvailabilityForAllRooms(db: Db, start: Day, end: Day): (rooms: seq<Room>)
    ensures forall room :: room in rooms <==>
      room in db.rooms && SearchAvailabilityByDatesAndRoomID(db, start, end, room.id)
    ensures forall room :: multiset(rooms)[room] <= multiset(db.rooms)[room]
  {
    var busy := BusyRoomIds(db, start, end);
    Seqs.Filter(db.rooms, (room: Room) => room.id !in busy)
  }

  // ---------------------------------------------------------------------
  // Per-room restriction listing

  /** A stored restriction as the listing reports it: a NULL reservation id
      becomes 0. */
  function Report(rr: RestrictionRow): (r: RoomRestriction)
    ensures rr.reservationId.None? ==> r.reservationId == 0
    ensures rr.reservationId.Some? ==> r.reservationId == rr.reservationId.value
    ensures r.id == rr.id && r.roomId == rr.roomId && r.restrictionKind == rr.restrictionKind
    ensures r.startDate == rr.startDate && r.endDate == rr.endDate
  {
    var reservationId := match rr.reservationId
      case None => 0
      case Some(v) => v;
    RoomRestriction(rr.id, rr.startDate, rr.endDate, rr.roomId, reservationId, rr.restrictionKind)
  }

  /** The key of a reported restriction: its row id. */
  function ReportedKey(x: RoomRestriction): int { x.id }

  /** The listing's range test: unlike `Overlaps` it keeps the end day. */
  predicate TouchesRange(rr: RestrictionRow, start: Day, end: Day)
  {
    start < rr.endDate && end >= rr.startDate
  }

  /** `GetRestrictionsForRoomByDate`: the room's restrictions that end after
      `start` and begin no later than `end`, with NULL reservation ids
      reported as 0. */
  function GetRestrictionsForRoomByDate(db: Db, roomId: int, start: Day, end: Day): (rs: seq<RoomRestriction>)
    ensures forall x :: x in rs ==> x.roomId == roomId && start < x.endDate && end >= x.startDate
    ensures forall rr :: rr in db.restrictions && rr.roomId == roomId && TouchesRange(rr, start, end) ==>
      Report(rr) in rs
    ensures forall x :: x in rs ==> exists rr :: rr in db.restrictions && Report(rr) == x
    ensures Valid(db) ==> Seqs.DistinctKeys(rs, ReportedKey)
  {
    var keep := (rr: RestrictionRow) => rr.roomId == roomId && TouchesRange(rr, start, end);
    var kept := Seqs.Filter(db.restrictions, keep);
    var rs := Seqs.Map(kept, Report);
    assert Valid(db) ==> Seqs.DistinctKeys(rs, ReportedKey) by {
      if Valid(db) {
        Seqs.FilterDistinctKeys(db.restrictions, keep, RestrictionKey);
        assert forall i :: 0 <= i < |rs| ==> ReportedKey(rs[i]) == RestrictionKey(kept[i]);
      }
    }
    rs
  }

  // ---------------------------------------------------------------------
  // Restriction statements

  /** `InsertRoomRestriction`: appends one row carrying the given dates,
      room, reservation id and kind under a new serial id. */
  function InsertRoomRestriction(db: Db, res: RoomRestriction): (r: Db)
    ensures r.rooms == db.rooms && r.reservations == db.reservations
    ensures r.nextReservationId == db.nextReservationId
    ensures |r.restrictions| == |db.restrictions| + 1
    ensures r.restrictions[..|db.restrictions|] == db.restrictions
    ensures var added := r.restrictions[|db.restrictions|];
      && added.startDate == res.startDate && added.endDate == res.endDate
      && added.roomId == res.roomId && added.reservationId == Some(res.reservationId)
      && added.restrictionKind == res.restrictionKind
    ensures Valid(db) ==> Valid(r) && forall rr :: rr in db.restrictions ==>
      rr.id != r.restrictions[|db.restrictions|].id
  {
    var row := RestrictionRow(db.nextRestrictionId, res.startDate, res.endDate, res.roomId,
                              Some(res.reservationId), res.restrictionKind);
    var r := db.(restrictions := db.restrictions + [row], nextRestrictionId := db.nextRestrictionId + 1);
    assert r.restrictions[..|db.restrictions|] == db.restrictions;
    r
  }

  /** `InsertBlockForRoom`: appends a one-day owner block `[day, day + 1)` of
      kind 2 with no reservation. */
  function InsertBlockForRoom(db: Db, roomId: int, day: Day): (r: Db)
    ensures r.rooms == db.rooms && r.reservations == db.reservations
    ensures r.nextReservationId == db.nextReservationId
    ensures |r.restrictions| == |db.restrictions| + 1
    ensures r.restrictions[..|db.restrictions|] == db.restrictions
    ensures var added := r.restrictions[|db.restrictions|];
      && added.startDate == day && added.endDate == day + 1 && added.roomId == roomId
      && added.reservationId.None? && added.restrictionKind == KindBlock
    ensures forall start, end :: start <= day < end ==>
      !SearchAvailabilityByDatesAndRoomID(r, start, end, roomId)
    ensures forall other, start, end :: other != roomId ==>
      SearchAvailabilityByDatesAndRoomID(r, start, end, other) ==
      SearchAvailabilityByDatesAndRoomID(db, start, end, other)
    ensures Valid(db) ==> Valid(r)
  {
    var row := RestrictionRow(db.nextRestrictionId, day, day + 1, roomId, None, KindBlock);
    var r := db.(restrictions := db.restrictions + [row], nextRestrictionId := db.nextRestrictionId + 1);
    assert r.restrictions[..|db.restrictions|] == db.restrictions;
    assert row in r.restrictions;
    r
  }

  /** `DeleteBlockByID`: removes the restriction row with that id, whatever
      its kind; nothing else changes. */
  function DeleteBlockByID(db: Db, id: int): (r: Db)
    ensures r.rooms == db.rooms && r.reservations == db.reservations
    ensures r.nextReservationId == db.nextReservationId && r.nextRestrictionId == db.nextRestrictionId
    ensures forall rr :: rr in r.restrictions <==> rr in db.restrictions && rr.id != id
    ensures forall rr ::
              multiset(r.restrictions)[rr] == if rr.id == id then 0 else multiset(db.restrictions)[rr]
    ensures Valid(db) ==> Valid(r)
  {
    var keep := (rr: RestrictionRow) => rr.id != id;
    var r := db.(restrictions := Seqs.Filter(db.restrictions, keep));
    assert Valid(db) ==> Valid(r) by {
      if Valid(db) {
        Seqs.FilterDistinctKeys(db.restrictions, keep, RestrictionKey);
      }
    }
    r
  }

  // ---------------------------------------------------------------------
  // Reservation statements

  /** `InsertReservations`: appends a row with the guest, dates and room of
      `res` under a new serial id, which it returns; the new row is not
      yet processed. */
  function InsertReservations(db: Db, res: Reservation): (out: (Db, int))
    ensures out.0.rooms == db.rooms && out.0.restrictions == db.restrictions
    ensures out.0.nextRestrictionId == db.nextRestrictionId
    ensures |out.0.reservations| == |db.reservations| + 1
    ensures out.0.reservations[..|db.reservations|] == db.reservations
    ensures var added := out.0.reservations[|db.reservations|];
      && added.id == out.1
      && added.firstName == res.firstName && added.lastName == res.lastName
      && added.email == res.email && added.phone == res.phone
      && added.startDate == res.startDate && added.endDate == res.endDate
      && added.roomId == res.roomId && added.processed == 0
    ensures Valid(db) ==> Valid(out.0) && 0 < out.1 && forall row :: row in db.reservations ==> row.id != out.1
    ensures db.nextReservationId <= out.1 < out.0.nextReservationId
  {
    var newId := db.nextReservationId;
    var row := ReservationRow(newId, res.firstName, res.lastName, res.email, res.phone,
                              res.startDate, res.endDate, res.roomId, 0);
    var r := db.(reservations := db.reservations + [row], nextReservationId := newId + 1);
    assert r.reservations[..|db.reservations|] == db.reservations;
    (r, newId)
  }

  /** The guest columns `UpdateReservation` writes. */
  function WithGuest(row: ReservationRow, u: Reservation): ReservationRow
  {
    row.(firstName := u.firstName, lastName := u.lastName, email := u.email, phone := u.phone)
  }

  /** `UpdateReservation`: rewrites first and last name, e-mail and phone of
      the row with that id; ids, dates, room and `processed` stay put. */
  function UpdateReservation(db: Db, u: Reservation, id: int): (r: Db)
    ensures r.rooms == db.rooms && r.restrictions == db.restrictions
    ensures r.nextReservationId == db.nextReservationId && r.nextRestrictionId == db.nextRestrictionId
    ensures |r.reservations| == |db.reservations|
    ensures forall i :: 0 <= i < |db.reservations| ==>
      var before, after := db.reservations[i], r.reservations[i];
      && after.id == before.id && after.startDate == before.startDate && after.endDate == before.endDate
      && after.roomId == before.roomId && after.processed == before.processed
      && (before.id != id ==> after == before)
      && (before.id == id ==> after.firstName == u.firstName && after.lastName == u.lastName
                              && after.email == u.email && after.phone == u.phone)
    ensures Valid(db) ==> Valid(r)
  {
    var rows := Seqs.Map(db.reservations, (row: ReservationRow) => if row.id == id then WithGuest(row, u) else row);
    var r := db.(reservations := rows);
    assert Valid(db) ==> Valid(r) by {
      if Valid(db) {
        forall row | row in rows ensures 0 < row.id < db.nextReservationId {
          var i :| 0 <= i < |rows| && rows[i] == row;
          assert db.reservations[i] in db.reservations;
        }
      }
    }
    r
  }

  /** `UpdateProcessedForReservation`: sets `processed` of the row with that
      id and changes nothing else. */
  function UpdateProcessedForReservation(db: Db, id: int, processed: int): (r: Db)
    ensures r.rooms == db.rooms && r.restrictions == db.restrictions
    ensures r.nextReservationId == db.nextReservationId && r.nextRestrictionId == db.nextRestrictionId
    ensures |r.reservations| == |db.reservations|
    ensures forall i :: 0 <= i < |db.reservations| ==>
      var before, after := db.reservations[i], r.reservations[i];
      if before.id == id then after == before.(processed := processed) else after == before
    ensures Valid(db) ==> Valid(r)
  {
    var rows := Seqs.Map(db.reservations, (row: ReservationRow) => if row.id == id then row.(processed := processed) else row);
    var r := db.(reservations := rows);
    assert Valid(db) ==> Valid(r) by {
      if Valid(db) {
        forall row | row in rows ensures 0 < row.id < db.nextReservationId {
          var i :| 0 <= i < |rows| && rows[i] == row;
          assert db.reservations[i] in db.reservations;
        }
      }
    }
    r
  }

  /** `DeleteReservation`: removes the reservation row with that id; the
      statement does not touch `room_restrictions`. */
  function DeleteReservation(db: Db, id: int): (r: Db)
    ensures r.rooms == db.rooms && r.restrictions == db.restrictions
    ensures r.nextReservationId == db.nextReservationId && r.nextRestrictionId == db.nextRestrictionId
    ensures forall row :: row in r.reservations <==> row in db.reservations && row.id != id
    ensures forall row ::
              multiset(r.reservations)[row] == if row.id == id then 0 else multiset(db.reservations)[row]
    ensures Valid(db) ==> Valid(r)
  {
    var keep := (row: ReservationRow) => row.id != id;
    var r := db.(reservations := Seqs.Filter(db.reservations, keep));
    assert Valid(db) ==> Valid(r) by {
      if Valid(db) {
        Seqs.FilterDistinctKeys(db.reservations, keep, ReservationKey);
      }
    }
    r
  }

  // ---------------------------------------------------------------------
  // Reservation listings

  /** The first room with that id (the `left join rooms` partner). */
  function RoomById(rooms: seq<Room>, id: int): (r: Option<Room>)
    ensures r.Some? ==> r.value in rooms && r.value.id == id
    ensures r.None? <==> forall room :: room in rooms ==> room.id != id
  {
    if |rooms| == 0 then None
    else if rooms[0].id == id then Some(rooms[0])
    else RoomById(rooms[1..], id)
  }

  /** The stored columns of a reported reservation (its room dropped). */
  function RowOf(x: Reservation): ReservationRow
  {
    ReservationRow(x.id, x.firstName, x.lastName, x.email, x.phone, x.startDate, x.endDate, x.roomId, x.processed)
  }

  /** `x` is how the listing reports `row`: same columns, joined room. */
  ghost predicate Joined(rooms: seq<Room>, row: ReservationRow, x: Reservation)
  {
    RowOf(x) == row && RoomById(rooms, row.roomId) == Some(x.room)
  }

  /** Scans the joined rows; a row whose room is missing gives a NULL room
      id, which the scan into an `int` rejects, failing the whole listing. */
  function JoinRooms(rooms: seq<Room>, rows: seq<ReservationRow>): (r: Option<seq<Reservation>>)
    ensures r.Some? ==> |r.value| == |rows| && forall i :: 0 <= i < |rows| ==> Joined(rooms, rows[i], r.value[i])
    ensures r.None? <==> exists i :: 0 <= i < |rows| && RoomById(rooms, rows[i].roomId).None?
  {
    if |rows| == 0 then Some([])
    else
      var row := rows[0];
      match RoomById(rooms, row.roomId)
      case None => None
      case Some(room) =>
        var x := Reservation(row.id, row.firstName, row.lastName, row.email, row.phone,
                             row.startDate, row.endDate, row.roomId, room, row.processed);
        match JoinRooms(rooms, rows[1..])
        case None => None
        case Some(rest) => Some([x] + rest)
  }

  function RowStart(row: ReservationRow): int { row.startDate }
  function StayStart(x: Reservation): int { x.startDate }
  predicate IsNew(row: ReservationRow) { row.processed == 0 }

  /** `AllReservations` does not select `processed`, so every reported row
      carries 0 there. */
  function Unprocessed(row: ReservationRow): ReservationRow { row.(processed := 0) }

  /** Joins rows already in start-date order; the report keeps the order. */
  function ListSorted(rooms: seq<Room>, rows: seq<ReservationRow>): (r: Option<seq<Reservation>>)
    requires Seqs.SortedBy(rows, RowStart)
    ensures r.Some? ==> Seqs.SortedBy(r.value, StayStart)
    ensures r.Some? ==> Seqs.Map(r.value, RowOf) == rows
    ensures r.Some? ==> forall x :: x in r.value ==> RoomById(rooms, x.roomId) == Some(x.room)
    ensures r.None? <==> exists row :: row in rows && RoomById(rooms, row.roomId).None?
  {
    var r := JoinRooms(rooms, rows);
    if r.Some? then
      assert forall i :: 0 <= i < |rows| ==> StayStart(r.value[i]) == RowStart(rows[i]);
      assert forall x :: x in r.value ==> RoomById(rooms, x.roomId) == Some(x.room) by {
        forall x | x in r.value ensures RoomById(rooms, x.roomId) == Some(x.room) {
          var i :| 0 <= i < |r.value| && r.value[i] == x;
          assert Joined(rooms, rows[i], x);
        }
      }
      r
    else
      var i :| 0 <= i < |rows| && RoomById(rooms, rows[i].roomId).None?;
      assert rows[i] in rows;
      r
  }

  /** Sorts the selected rows by start date and joins their rooms: the
      listing both queries share. */
  function Listing(rooms: seq<Room>, selected: seq<ReservationRow>): (r: Option<seq<Reservation>>)
    ensures r.Some? ==> Seqs.SortedBy(r.value, StayStart)
    ensures r.Some? ==> multiset(Seqs.Map(r.value, RowOf)) == multiset(selected)
    ensures r.Some? ==> forall x :: x in r.value ==> RowOf(x) in selected && RoomById(rooms, x.roomId) == Some(x.room)
    ensures r.None? <==> exists row :: row in selected && RoomById(rooms, row.roomId).None?
  {
    var rows := Seqs.SortByKey(selected, RowStart);
    var r := ListSorted(rooms, rows);
    assert forall row :: row in rows <==> row in selected by {
      forall row ensures row in rows <==> row in selected {
        assert row in rows <==> row in multiset(rows);
      }
    }
    if r.Some? then
      assert forall x :: x in r.value ==> RowOf(x) in rows by {
        forall x | x in r.value ensures RowOf(x) in rows {
          assert RowOf(x) in Seqs.Map(r.value, RowOf);
        }
      }
      r
    else
      r
  }

  /** `AllReservations`: every reservation with its room, by start date
      ascending. */
  function AllReservations(db: Db): (r: Option<seq<Reservation>>)
    ensures r.Some? ==> Seqs.SortedBy(r.value, StayStart)
    ensures r.Some? ==> multiset(Seqs.Map(r.value, RowOf)) == multiset(Seqs.Map(db.reservations, Unprocessed))
    ensures r.Some? ==> forall x :: x in r.value ==> x.processed == 0 && RoomById(db.rooms, x.roomId) == Some(x.room)
    ensures r.None? <==> exists row :: row in db.reservations && RoomById(db.rooms, row.roomId).None?
  {
    var all := Seqs.Map(db.reservations, Unprocessed);
    var r := Listing(db.rooms, all);
    if r.None? then
      var row :| row in all && RoomById(db.rooms, row.roomId).None?;
      var i :| 0 <= i < |all| && all[i] == row;
      assert db.reservations[i] in db.reservations;
      r
    else
      r
  }

  /** `AllNewReservations`: the reservations with `processed = 0`, with
      their rooms, by start date ascending. */
  function AllNewReservations(db: Db): (r: Option<seq<Reservation>>)
    ensures r.Some? ==> Seqs.SortedBy(r.value, StayStart)
    ensures r.Some? ==> multiset(Seqs.Map(r.value, RowOf)) == multiset(Seqs.Filter(db.reservations, IsNew))
    ensures r.Some? ==> forall x :: x in r.value ==> x.processed == 0 && RoomById(db.rooms, x.roomId) == Some(x.room)
    ensures r.None? <==> exists row :: row in db.reservations && IsNew(row) && RoomById(db.rooms, row.roomId).None?
  {
    Listing(db.rooms, Seqs.Filter(db.reservations, IsNew))
  }
}
