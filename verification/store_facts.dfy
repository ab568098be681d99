/** Properties of the booking repository that relate several of its
    operations, or relate a query to an independent description of what it
    should answer. */
module StoreFacts {
  import opened Models
  import opened Store
  import Seqs

  /** The restriction holds the room on night `n`. */
  predicate Covers(rr: RestrictionRow, n: Day)
  {
    rr.startDate <= n < rr.endDate
  }

  /** Night `n` is taken in room `roomId` by some restriction. */
  ghost predicate NightTaken(db: Db, roomId: int, n: Day)
  {
    exists rr :: rr in db.restrictions && rr.roomId == roomId && Covers(rr, n)
  }

  /** For a proper stay and restrictions that span at least one night, the
      overlap test means "some night of the stay is also a night of the
      restriction". */
  lemma OverlapMeansSharedNight(rr: RestrictionRow, start: Day, end: Day)
    requires start < end && rr.startDate < rr.endDate
    ensures Overlaps(rr, start, end) <==> exists n :: start <= n < end && Covers(rr, n)
  {
    if Overlaps(rr, start, end) {
      var n := if start < rr.startDate then rr.startDate else start;
      assert start <= n < end && Covers(rr, n);
    }
  }

  /** Availability of a room for a proper stay is the absence of any taken
      night in it, provided the room's restrictions each span a night. */
  lemma AvailableIffNoNightTaken(db: Db, roomId: int, start: Day, end: Day)
    requires start < end
    requires forall rr :: rr in db.restrictions && rr.roomId == roomId ==> rr.startDate < rr.endDate
    ensures SearchAvailabilityByDatesAndRoomID(db, start, end, roomId) <==>
      forall n :: start <= n < end ==> !NightTaken(db, roomId, n)
  {
    if !SearchAvailabilityByDatesAndRoomID(db, start, end, roomId) {
      var rr :| rr in db.restrictions && rr.roomId == roomId && Overlaps(rr, start, end);
      OverlapMeansSharedNight(rr, start, end);
      var n :| start <= n < end && Covers(rr, n);
      assert NightTaken(db, roomId, n);
    }
  }

  /** Nothing validates the range: with `start >= end` the overlap test can
      still fire, so a room held on the night of `end` is reported taken for
      the inverted range, while an empty room is reported free. */
  lemma InvertedRangeIsNotRejected()
    ensures var held := Db([Room(1, "General")], [], [RestrictionRow(1, 2, 6, 1, None, KindBlock)], 1, 2);
      && !SearchAvailabilityByDatesAndRoomID(held, 5, 3, 1)
      && !SearchAvailabilityByDatesAndRoomID(held, 4, 4, 1)
      && SearchAvailabilityByDatesAndRoomID(held.(restrictions := []), 4, 4, 1)
  {
    var held := Db([Room(1, "General")], [], [RestrictionRow(1, 2, 6, 1, None, KindBlock)], 1, 2);
    assert held.restrictions[0] in held.restrictions;
  }

  /** For an inverted or empty range (`end <= start`) the query answers
      "taken" exactly when one restriction of the room covers both the
      night before `end` and the night `start`, that is, the whole gap
      between them; otherwise the room is reported free. */
  lemma InvertedRangeAnswer(db: Db, roomId: int, start: Day, end: Day)
    requires end <= start
    ensures !SearchAvailabilityByDatesAndRoomID(db, start, end, roomId) <==>
      exists rr :: rr in db.restrictions && rr.roomId == roomId && Covers(rr, end - 1) && Covers(rr, start)
  {
  }

  /** The answer for a room depends only on that room's restrictions. */
  lemma OtherRoomsDoNotMatter(db: Db, db': Db, roomId: int, start: Day, end: Day)
    requires forall rr: RestrictionRow :: rr.roomId == roomId ==> (rr in db.restrictions <==> rr in db'.restrictions)
    ensures SearchAvailabilityByDatesAndRoomID(db, start, end, roomId) ==
            SearchAvailabilityByDatesAndRoomID(db', start, end, roomId)
  {
  }

  /** The listing reports every restriction of the room that overlaps the
      stay, and anything else it reports begins exactly on the end day. */
  lemma ListingCoversOverlaps(db: Db, roomId: int, start: Day, end: Day)
    ensures forall rr :: rr in db.restrictions && rr.roomId == roomId && Overlaps(rr, start, end) ==>
      Report(rr) in GetRestrictionsForRoomByDate(db, roomId, start, end)
    ensures forall rr ::
              (rr in db.restrictions && rr.roomId == roomId && !Overlaps(rr, start, end) &&
               Report(rr) in GetRestrictionsForRoomByDate(db, roomId, start, end)) ==> rr.startDate == end
  {
  }

  /** A block of the room starting exactly on the end day is listed, with
      reservation id 0, though it does not make the room unavailable. */
  lemma ListingIncludesBlockOnEndDay(db: Db, roomId: int, start: Day, end: Day)
    requires start < end
    requires forall rr :: rr in db.restrictions ==> rr.roomId != roomId
    ensures var db' := InsertBlockForRoom(db, roomId, end);
      && SearchAvailabilityByDatesAndRoomID(db', start, end, roomId)
      && exists x :: x in GetRestrictionsForRoomByDate(db', roomId, start, end) &&
           x.reservationId == 0 && x.restrictionKind == KindBlock && x.startDate == end
  {
    var db' := InsertBlockForRoom(db, roomId, end);
    var block := db'.restrictions[|db.restrictions|];
    assert block in db'.restrictions;
    assert Report(block) in GetRestrictionsForRoomByDate(db', roomId, start, end);
    forall rr | rr in db'.restrictions && rr.roomId == roomId ensures !Overlaps(rr, start, end) {
      if rr !in db.restrictions {
        assert rr in db'.restrictions[..|db.restrictions|] + [block];
      }
    }
  }

  /** Deleting the block just inserted gives back the original restrictions. */
  lemma {:induction false} InsertThenDeleteBlock(db: Db, roomId: int, day: Day)
    requires Valid(db)
    ensures DeleteBlockByID(InsertBlockForRoom(db, roomId, day), db.nextRestrictionId).restrictions == db.restrictions
  {
    var db' := InsertBlockForRoom(db, roomId, day);
    var block := db'.restrictions[|db.restrictions|];
    assert db'.restrictions == db.restrictions + [block];
    var keep := (rr: RestrictionRow) => rr.id != db.nextRestrictionId;
    Seqs.FilterSnoc(db.restrictions, block, keep);
    Seqs.FilterAll(db.restrictions, keep);
    assert DeleteBlockByID(db', db.nextRestrictionId).restrictions == Seqs.Filter(db'.restrictions, keep);
  }

  /** Deleting the reservation just inserted gives back the original rows. */
  lemma {:induction false} InsertThenDeleteReservation(db: Db, res: Reservation)
    requires Valid(db)
    ensures var (db', id) := InsertReservations(db, res);
      DeleteReservation(db', id).reservations == db.reservations
  {
    var (db', id) := InsertReservations(db, res);
    var row := db'.reservations[|db.reservations|];
    assert db'.reservations == db.reservations + [row];
    var keep := (r: ReservationRow) => r.id != id;
    Seqs.FilterSnoc(db.reservations, row, keep);
    Seqs.FilterAll(db.reservations, keep);
    assert DeleteReservation(db', id).reservations == Seqs.Filter(db'.reservations, keep);
  }

  /** Marking a reservation processed removes it from the new-reservations
      listing and keeps every other new reservation there. */
  lemma ProcessedLeavesNewListing(db: Db, id: int)
    requires Valid(db)
    ensures var db' := UpdateProcessedForReservation(db, id, 1);
      forall row :: row in Seqs.Filter(db'.reservations, IsNew) <==>
        row in db.reservations && IsNew(row) && row.id != id
  {
    var db' := UpdateProcessedForReservation(db, id, 1);
    forall row ensures row in Seqs.Filter(db'.reservations, IsNew) <==>
      row in db.reservations && IsNew(row) && row.id != id
    {
      if row in db'.reservations && IsNew(row) {
        var i :| 0 <= i < |db'.reservations| && db'.reservations[i] == row;
        assert db.reservations[i] == row;
      }
      if row in db.reservations && IsNew(row) && row.id != id {
        var i :| 0 <= i < |db.reservations| && db.reservations[i] == row;
        assert db'.reservations[i] == row;
      }
    }
  }
}
