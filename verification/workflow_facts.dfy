/** Properties of the booking flow across several requests: every committed
    reservation is held in the store by a restriction of its own, a failed
    form changes nothing, and the summary page is shown once. */
module WorkflowFacts {
  import opened Models
  import Store
  import Forms
  import FormErrors
  import Text
  import opened Handlers
  import Seqs

  /** The restriction holds the room of `row` on its dates on behalf of it. */
  ghost predicate PairsWith(rr: Store.RestrictionRow, row: Store.ReservationRow)
  {
    && rr.reservationId == Some(row.id)
    && rr.startDate == row.startDate && rr.endDate == row.endDate
    && rr.roomId == row.roomId
    && rr.restrictionKind == KindReservation
  }

  /** Every reservation row has a restriction that pairs with it. */
  ghost predicate Paired(db: Store.Db)
  {
    forall row :: row in db.reservations ==> exists rr :: rr in db.restrictions && PairsWith(rr, row)
  }

  /** A restriction held on behalf of a reservation (kind 1 with an id). */
  predicate Owned(rr: Store.RestrictionRow)
  {
    rr.restrictionKind == KindReservation && rr.reservationId.Some?
  }

  /** No two different reservation-kind restrictions name the same
      reservation. */
  ghost predicate OwnersDistinct(db: Store.Db)
  {
    forall a, b ::
      a in db.restrictions && b in db.restrictions && Owned(a) && Owned(b) && a.reservationId == b.reservationId
      ==> a == b
  }

  /** No restriction names a reservation id the serial counter has not
      handed out yet. */
  ghost predicate OwnersIssued(db: Store.Db)
  {
    forall rr :: rr in db.restrictions && rr.reservationId.Some? ==> rr.reservationId.value < db.nextReservationId
  }

  /** Every reservation is paired, and (see `ExactlyOnePair`) with one
      restriction only. */
  ghost predicate ExactlyPaired(db: Store.Db)
  {
    Paired(db) && OwnersDistinct(db) && OwnersIssued(db)
  }

  /** In a store with unique restriction ids, an exactly paired reservation
      has one and only one restriction pairing with it. */
  lemma ExactlyOnePair(db: Store.Db, row: Store.ReservationRow)
    requires Store.Valid(db) && ExactlyPaired(db) && row in db.reservations
    ensures exists i :: 0 <= i < |db.restrictions| && PairsWith(db.restrictions[i], row)
    ensures forall i, j ::
      0 <= i < |db.restrictions| && 0 <= j < |db.restrictions| &&
      PairsWith(db.restrictions[i], row) && PairsWith(db.restrictions[j], row)
      ==> i == j
  {
    var rr :| rr in db.restrictions && PairsWith(rr, row);
    var k :| 0 <= k < |db.restrictions| && db.restrictions[k] == rr;
    assert PairsWith(db.restrictions[k], row);
    forall i, j | 0 <= i < |db.restrictions| && 0 <= j < |db.restrictions| &&
      PairsWith(db.restrictions[i], row) && PairsWith(db.restrictions[j], row)
      ensures i == j
    {
      assert db.restrictions[i] in db.restrictions && db.restrictions[j] in db.restrictions;
      assert db.restrictions[i] == db.restrictions[j];
      assert Store.RestrictionKey(db.restrictions[i]) == Store.RestrictionKey(db.restrictions[j]);
    }
  }

  /** The empty store is exactly paired. */
  lemma EmptyStoreIsPaired(rooms: seq<Room>)
    ensures ExactlyPaired(Store.Db(rooms, [], [], 1, 1))
  {
  }

  /** A statement that only removes restrictions and does not lower the
      reservation counter keeps the owners distinct and issued. */
  lemma OwnersKept(db: Store.Db, db': Store.Db)
    requires OwnersDistinct(db) && OwnersIssued(db)
    requires forall rr :: rr in db'.restrictions ==> rr in db.restrictions
    requires db.nextReservationId <= db'.nextReservationId
    ensures OwnersDistinct(db') && OwnersIssued(db')
  {
  }

  /** Appending one reservation and one restriction that pairs with it
      keeps a paired store paired. */
  lemma {:induction false} AppendPairKeepsPaired(db: Store.Db, db': Store.Db)
    requires Paired(db)
    requires |db'.reservations| == |db.reservations| + 1 && db'.reservations[..|db.reservations|] == db.reservations
    requires |db'.restrictions| == |db.restrictions| + 1 && db'.restrictions[..|db.restrictions|] == db.restrictions
    requires PairsWith(db'.restrictions[|db.restrictions|], db'.reservations[|db.reservations|])
    ensures Paired(db')
    ensures
      && OwnersDistinct(db) && OwnersIssued(db)
      && db.nextReservationId <= db'.reservations[|db.reservations|].id < db'.nextReservationId
      ==> OwnersDistinct(db') && OwnersIssued(db')
  {
    var n, m := |db.reservations|, |db.restrictions|;
    var added, held := db'.reservations[n], db'.restrictions[m];
    assert db'.restrictions == db.restrictions + [held];
    if OwnersDistinct(db) && OwnersIssued(db) && db.nextReservationId <= added.id < db'.nextReservationId {
      forall rr | rr in db'.restrictions && rr.reservationId.Some?
        ensures rr.reservationId.value < db'.nextReservationId
      {
        if rr != held {
          assert rr in db.restrictions;
        }
      }
      forall a, b | a in db'.restrictions && b in db'.restrictions && Owned(a) && Owned(b) && a.reservationId == b.reservationId
        ensures a == b
      {
        if a != held && b != held {
          assert a in db.restrictions && b in db.restrictions;
        }
      }
    }
    forall row | row in db'.reservations
      ensures exists rr :: rr in db'.restrictions && PairsWith(rr, row)
    {
      if row == added {
        assert held in db'.restrictions;
      } else {
        assert row in db.reservations by {
          assert db'.reservations == db.reservations + [added];
        }
        var rr :| rr in db.restrictions && PairsWith(rr, row);
        assert rr in db'.restrictions[..m];
      }
    }
  }

  /** Committing a valid guest form keeps every reservation paired: the new
      reservation gets its restriction and the old pairs are untouched. */
  lemma PostMakeReservationKeepsPaired(s: Session, db: Store.Db, values: Forms.Values, isEmail: string -> bool)
    requires Paired(db)
    ensures Paired(PostMakeReservation(s, db, values, isEmail).db)
    ensures ExactlyPaired(db) ==> ExactlyPaired(PostMakeReservation(s, db, values, isEmail).db)
  {
    var r := PostMakeReservation(s, db, values, isEmail);
    if s.reservation.Some? && GuestAcceptable(values, isEmail) {
      var (db1, newId) := Store.InsertReservations(db, FilledDraft(s.reservation.value, values));
      assert r.db.reservations[|db.reservations|].id == newId && r.db.nextReservationId == db1.nextReservationId;
      AppendPairKeepsPaired(db, r.db);
    }
  }

  /** Rewriting the guest details keeps every reservation paired, since ids,
      dates and room are never altered. */
  lemma UpdateReservationKeepsPaired(db: Store.Db, u: Reservation, id: int)
    requires Paired(db)
    ensures Paired(Store.UpdateReservation(db, u, id))
    ensures ExactlyPaired(db) ==> ExactlyPaired(Store.UpdateReservation(db, u, id))
  {
    var r := Store.UpdateReservation(db, u, id);
    forall row | row in r.reservations
      ensures exists rr :: rr in r.restrictions && PairsWith(rr, row)
    {
      var i :| 0 <= i < |r.reservations| && r.reservations[i] == row;
      var before := db.reservations[i];
      assert before in db.reservations;
      var rr :| rr in db.restrictions && PairsWith(rr, before);
      assert PairsWith(rr, row);
    }
  }

  /** Marking a reservation processed keeps every reservation paired. */
  lemma UpdateProcessedKeepsPaired(db: Store.Db, id: int, processed: int)
    requires Paired(db)
    ensures Paired(Store.UpdateProcessedForReservation(db, id, processed))
    ensures ExactlyPaired(db) ==> ExactlyPaired(Store.UpdateProcessedForReservation(db, id, processed))
  {
    var r := Store.UpdateProcessedForReservation(db, id, processed);
    forall row | row in r.reservations
      ensures exists rr :: rr in r.restrictions && PairsWith(rr, row)
    {
      var i :| 0 <= i < |r.reservations| && r.reservations[i] == row;
      var before := db.reservations[i];
      assert before in db.reservations;
      var rr :| rr in db.restrictions && PairsWith(rr, before);
      assert PairsWith(rr, row);
    }
  }

  /** Deleting a reservation keeps the others paired. The statement touches
      only `reservations`, so taken by itself it leaves the reservation's
      restriction, and every availability answer, as they were; what the
      schema's foreign keys would add is not modelled. */
  lemma DeleteReservationKeepsPaired(db: Store.Db, id: int, start: Day, end: Day, roomId: int)
    requires Paired(db)
    ensures Paired(Store.DeleteReservation(db, id))
    ensures ExactlyPaired(db) ==> ExactlyPaired(Store.DeleteReservation(db, id))
    ensures Store.SearchAvailabilityByDatesAndRoomID(Store.DeleteReservation(db, id), start, end, roomId) ==
            Store.SearchAvailabilityByDatesAndRoomID(db, start, end, roomId)
  {
    var r := Store.DeleteReservation(db, id);
    forall row | row in r.reservations
      ensures exists rr :: rr in r.restrictions && PairsWith(rr, row)
    {
      assert row in db.reservations;
    }
  }

  /** An owner block keeps every reservation paired. */
  lemma {:induction false} InsertBlockKeepsPaired(db: Store.Db, roomId: int, day: Day)
    requires Paired(db)
    ensures Paired(Store.InsertBlockForRoom(db, roomId, day))
    ensures ExactlyPaired(db) ==> ExactlyPaired(Store.InsertBlockForRoom(db, roomId, day))
  {
    var r := Store.InsertBlockForRoom(db, roomId, day);
    var block := r.restrictions[|db.restrictions|];
    assert r.restrictions == db.restrictions + [block];
    forall row | row in r.reservations
      ensures exists rr :: rr in r.restrictions && PairsWith(rr, row)
    {
      var rr :| rr in db.restrictions && PairsWith(rr, row);
      assert rr in r.restrictions[..|db.restrictions|];
    }
  }

  /** Deleting a restriction that belongs to no reservation keeps every
      reservation paired. `DeleteBlockByID` itself does not check this: it
      deletes whatever restriction has the id. */
  lemma DeleteBlockKeepsPaired(db: Store.Db, id: int)
    requires Paired(db)
    requires forall rr :: rr in db.restrictions && rr.id == id ==> rr.reservationId.None?
    ensures Paired(Store.DeleteBlockByID(db, id))
    ensures ExactlyPaired(db) ==> ExactlyPaired(Store.DeleteBlockByID(db, id))
  {
    var r := Store.DeleteBlockByID(db, id);
    if ExactlyPaired(db) {
      OwnersKept(db, r);
    }
    forall row | row in r.reservations
      ensures exists rr :: rr in r.restrictions && PairsWith(rr, row)
    {
      var rr :| rr in db.restrictions && PairsWith(rr, row);
      assert rr in r.restrictions;
    }
  }

  /** The statements that change the store, each with its inputs: a guest
      committing the form; the admin pages' edits of guest details, marking
      processed and deleting a reservation; and inserting an owner block,
      which no handler calls yet. Deleting a restriction by id is not among
      them, since it can remove a reservation's own restriction (see
      `DeleteBlockKeepsPaired`). */
  datatype Change =
    | Commit(session: Session, values: Forms.Values, isEmail: string -> bool)
    | EditGuest(guest: Reservation, id: int)
    | MarkProcessed(id: int, processed: int)
    | RemoveReservation(id: int)
    | AddBlock(roomId: int, day: Day)

  /** The store after one change. */
  function Apply(db: Store.Db, c: Change): Store.Db
  {
    match c
    case Commit(s, values, isEmail) => PostMakeReservation(s, db, values, isEmail).db
    case EditGuest(u, id) => Store.UpdateReservation(db, u, id)
    case MarkProcessed(id, processed) => Store.UpdateProcessedForReservation(db, id, processed)
    case RemoveReservation(id) => Store.DeleteReservation(db, id)
    case AddBlock(roomId, day) => Store.InsertBlockForRoom(db, roomId, day)
  }

  /** The store after a run of changes, in order. */
  function ApplyAll(db: Store.Db, cs: seq<Change>): Store.Db
    decreases |cs|
  {
    if |cs| == 0 then db else ApplyAll(Apply(db, cs[0]), cs[1..])
  }

  /** Every change keeps the store valid and exactly paired. */
  lemma ChangeKeepsExactlyPaired(db: Store.Db, c: Change)
    requires Store.Valid(db) && ExactlyPaired(db)
    ensures Store.Valid(Apply(db, c)) && ExactlyPaired(Apply(db, c))
  {
    match c
    case Commit(s, values, isEmail) => PostMakeReservationKeepsPaired(s, db, values, isEmail);
    case EditGuest(u, id) => UpdateReservationKeepsPaired(db, u, id);
    case MarkProcessed(id, processed) => UpdateProcessedKeepsPaired(db, id, processed);
    case RemoveReservation(id) => DeleteReservationKeepsPaired(db, id, 0, 0, 0);
    case AddBlock(roomId, day) => InsertBlockKeepsPaired(db, roomId, day);
  }

  /** Any run of changes from an empty store with distinct room ids leaves a
      valid store in which every reservation has exactly one restriction
      holding its room and dates on its behalf. */
  lemma {:induction false} ReachableIsExactlyPaired(rooms: seq<Room>, cs: seq<Change>)
    requires Seqs.DistinctKeys(rooms, Store.RoomKey)
    ensures var db := ApplyAll(Store.Db(rooms, [], [], 1, 1), cs);
      && Store.Valid(db) && ExactlyPaired(db)
      && (forall row :: row in db.reservations ==>
           exists i :: 0 <= i < |db.restrictions| && PairsWith(db.restrictions[i], row))
      && (forall row, i, j ::
           row in db.reservations && 0 <= i < |db.restrictions| && 0 <= j < |db.restrictions| &&
           PairsWith(db.restrictions[i], row) && PairsWith(db.restrictions[j], row)
           ==> i == j)
  {
    EmptyStoreIsPaired(rooms);
    ChangesKeepExactlyPaired(Store.Db(rooms, [], [], 1, 1), cs);
    var db := ApplyAll(Store.Db(rooms, [], [], 1, 1), cs);
    forall row | row in db.reservations
      ensures exists i :: 0 <= i < |db.restrictions| && PairsWith(db.restrictions[i], row)
    {
      ExactlyOnePair(db, row);
    }
  }

  /** A run of changes keeps the store valid and exactly paired. */
  lemma {:induction false} ChangesKeepExactlyPaired(db: Store.Db, cs: seq<Change>)
    requires Store.Valid(db) && ExactlyPaired(db)
    ensures Store.Valid(ApplyAll(db, cs)) && ExactlyPaired(ApplyAll(db, cs))
    decreases |cs|
  {
    if |cs| > 0 {
      ChangeKeepsExactlyPaired(db, cs[0]);
      ChangesKeepExactlyPaired(Apply(db, cs[0]), cs[1..]);
    }
  }

  /** A guest form that fails validation stores nothing: the store and the
      draft are as they were, and the re-shown page only consumes the
      waiting messages, whatever the store holds. */
  lemma RejectedFormStoresNothing(s: Session, db: Store.Db, values: Forms.Values, isEmail: string -> bool)
    requires s.reservation.Some?
    requires Forms.IsBlank(Forms.ValueOf(values, "first_name")) || Text.Utf8Len(Forms.ValueOf(values, "first_name")) < 3
    ensures var r := PostMakeReservation(s, db, values, isEmail);
      && r.db == db && r.session.reservation == s.reservation && r.session.room == s.room
      && r.session == Consumed(s) && r.shown == Pending(s)
      && r.outcome.ReservationPage? && !Forms.Valid(r.outcome.form)
      && r.outcome.form.values == values
      && FormErrors.Messages(r.outcome.form.errors, "first_name") != []
  {
    ValidateGuestMessages(values, isEmail);
  }

  /** The summary is read once: showing it removes the draft, so the next
      summary request stores an error and redirects home. */
  lemma SummaryShownOnce(s: Session, db: Store.Db)
    requires s.reservation.Some?
    ensures var first := ReservationSummary(s, db);
      var second := ReservationSummary(first.session, first.db);
      && first.outcome == SummaryPage(s.reservation.value) && first.shown == Pending(s)
      && second.db == db && second.shown == NoNotices
      && second.session.reservation.None?
      && second.session.error == Some(MissingDraftMessage)
      && second.outcome == Redirect("/", TemporaryRedirect)
  {
  }

  /** Searching dates and picking a free room from the list leaves a draft
      with the searched dates and the picked room id (the stored room keeps
      only its name). */
  lemma SearchThenChoose(s: Session, db: Store.Db, start: Day, end: Day, room: Room)
    requires room in db.rooms && Store.SearchAvailabilityByDatesAndRoomID(db, start, end, room.id)
    ensures var s1 := PostSearchAvailability(s, db, start, end);
      var s2 := ChooseRoom(s1.session, s1.db, Some(room.id), room.roomName);
      && s1.outcome.ChooseRoomPage? && room in s1.outcome.rooms
      && s2.db == db
      && s2.session.reservation == Some(DraftFor(start, end).(roomId := room.id, room := Room(0, room.roomName)))
      && s2.outcome == Redirect("/make-reservation", SeeOther)
  {
  }

  /** Posting acceptable guest details for a draft and reading the summary
      twice stores one new reservation for the draft's dates and room, held
      by its restriction, and shows the summary once. */
  lemma {:induction false} CommitThenSummary(s: Session, db: Store.Db, values: Forms.Values, isEmail: string -> bool)
    requires Store.Valid(db) && Paired(db)
    requires s.reservation.Some? && s.reservation.value.startDate < s.reservation.value.endDate
    requires GuestAcceptable(values, isEmail)
    ensures var draft := s.reservation.value;
      var s3 := PostMakeReservation(s, db, values, isEmail);
      var s4 := ReservationSummary(s3.session, s3.db);
      var s5 := ReservationSummary(s4.session, s4.db);
      var n := |db.reservations|;
      && s3.outcome == Redirect("reservation-summary", SeeOther)
      && s5.db == s3.db
      && |s3.db.reservations| == n + 1 && s3.db.reservations[..n] == db.reservations
      && var row := s3.db.reservations[n];
      && row.startDate == draft.startDate && row.endDate == draft.endDate && row.roomId == draft.roomId
      && row.firstName == Forms.ValueOf(values, "first_name")
      && row.lastName == Forms.ValueOf(values, "last_name")
      && row.email == Forms.ValueOf(values, "email")
      && (forall earlier :: earlier in db.reservations ==> earlier.id != row.id)
      && Store.Valid(s3.db) && Paired(s3.db)
      && !Store.SearchAvailabilityByDatesAndRoomID(s3.db, draft.startDate, draft.endDate, draft.roomId)
      && s4.outcome == SummaryPage(FilledDraft(draft, values))
      && s5.outcome == Redirect("/", TemporaryRedirect)
  {
    var draft := s.reservation.value;
    var s3 := PostMakeReservation(s, db, values, isEmail);
    PostMakeReservationKeepsPaired(s, db, values, isEmail);
    var held := s3.db.restrictions[|db.restrictions|];
    assert held in s3.db.restrictions && held.roomId == draft.roomId && Store.Overlaps(held, draft.startDate, draft.endDate);
  }

  /** The whole flow: search dates, pick a free room, post acceptable guest
      details, read the summary twice. Exactly one reservation with the
      searched dates and picked room is stored, paired with its restriction;
      the room is no longer free for those dates; the summary shows the
      draft the first time only. */
  lemma BookingRoundTrip(
    s: Session, db: Store.Db, start: Day, end: Day, room: Room,
    values: Forms.Values, isEmail: string -> bool)
    requires Store.Valid(db) && Paired(db)
    requires start < end
    requires room in db.rooms && Store.SearchAvailabilityByDatesAndRoomID(db, start, end, room.id)
    requires GuestAcceptable(values, isEmail)
    ensures
      var s1 := PostSearchAvailability(s, db, start, end);
      var s2 := ChooseRoom(s1.session, s1.db, Some(room.id), room.roomName);
      var form := MakeReservation(s2.session, s2.db);
      var s3 := PostMakeReservation(form.session, form.db, values, isEmail);
      var n := |db.reservations|;
      && form.outcome.ReservationPage?
      && |s3.db.reservations| == n + 1 && s3.db.reservations[..n] == db.reservations
      && s3.db.reservations[n].startDate == start && s3.db.reservations[n].endDate == end
      && s3.db.reservations[n].roomId == room.id
      && |s3.db.restrictions| == |db.restrictions| + 1
      && PairsWith(s3.db.restrictions[|db.restrictions|], s3.db.reservations[n])
      && Store.Valid(s3.db) && Paired(s3.db)
      && (ExactlyPaired(db) ==> ExactlyPaired(s3.db))
      && !Store.SearchAvailabilityByDatesAndRoomID(s3.db, start, end, room.id)
  {
    SearchThenChoose(s, db, start, end, room);
    var s1 := PostSearchAvailability(s, db, start, end);
    var s2 := ChooseRoom(s1.session, s1.db, Some(room.id), room.roomName);
    var form := MakeReservation(s2.session, s2.db);
    CommitThenSummary(form.session, db, values, isEmail);
    PostMakeReservationKeepsPaired(form.session, db, values, isEmail);
  }

  /** The room-page path: open the search form from a room's page, post
      free dates for that room, open the guest form and post acceptable
      details. Exactly one reservation for that room and those dates is
      stored, paired with its restriction, and the room is no longer free
      for those dates. */
  lemma RoomScopedBooking(
    s: Session, db: Store.Db, start: Day, end: Day, room: Room,
    values: Forms.Values, isEmail: string -> bool)
    requires Store.Valid(db) && Paired(db)
    requires start < end
    requires Store.SearchAvailabilityByDatesAndRoomID(db, start, end, room.id)
    requires GuestAcceptable(values, isEmail)
    ensures
      var s0 := SearchAvailabilityByRoomID(s, db, room.id, room.roomName);
      var s1 := PostSearchAvailabilityByRoomID(s0.session, s0.db, start, end);
      var s2 := MakeReservation(s1.session, s1.db);
      var s3 := PostMakeReservation(s2.session, s2.db, values, isEmail);
      var n := |db.reservations|;
      && s0.outcome == SearchPage(room)
      && s1.outcome == Redirect("/make-reservation", SeeOther)
      && s2.outcome.ReservationPage? && s2.outcome.reservation.room == room
      && s3.outcome == Redirect("reservation-summary", SeeOther)
      && |s3.db.reservations| == n + 1 && s3.db.reservations[..n] == db.reservations
      && s3.db.reservations[n].startDate == start && s3.db.reservations[n].endDate == end
      && s3.db.reservations[n].roomId == room.id
      && |s3.db.restrictions| == |db.restrictions| + 1
      && PairsWith(s3.db.restrictions[|db.restrictions|], s3.db.reservations[n])
      && Store.Valid(s3.db) && Paired(s3.db)
      && (ExactlyPaired(db) ==> ExactlyPaired(s3.db))
      && !Store.SearchAvailabilityByDatesAndRoomID(s3.db, start, end, room.id)
  {
    var s0 := SearchAvailabilityByRoomID(s, db, room.id, room.roomName);
    var s1 := PostSearchAvailabilityByRoomID(s0.session, s0.db, start, end);
    var s2 := MakeReservation(s1.session, s1.db);
    CommitThenSummary(s2.session, db, values, isEmail);
    PostMakeReservationKeepsPaired(s2.session, db, values, isEmail);
  }

  /** A message is shown once: the page that shows it also removes it, so
      the next rendered page shows nothing unless a handler stores a new
      one in between. */
  lemma MessagesShownOnce(s: Session, db: Store.Db, first: Outcome, second: Outcome)
    ensures var r1 := Render(s, db, first);
      var r2 := Render(r1.session, r1.db, second);
      && r1.shown == Pending(s)
      && r2.shown == NoNotices
      && r2.session == r1.session
  {
  }

  /** A restriction that made a room unavailable is still there after rows
      are appended to the table. */
  lemma TakenStaysTaken(db: Store.Db, db': Store.Db, roomId: int, start: Day, end: Day)
    requires !Store.SearchAvailabilityByDatesAndRoomID(db, start, end, roomId)
    requires |db.restrictions| <= |db'.restrictions| && db'.restrictions[..|db.restrictions|] == db.restrictions
    ensures exists i :: 0 <= i < |db.restrictions| && db'.restrictions[i].roomId == roomId
                        && Store.Overlaps(db'.restrictions[i], start, end)
  {
    var rr :| rr in db.restrictions && rr.roomId == roomId && Store.Overlaps(rr, start, end);
    var i :| 0 <= i < |db.restrictions| && db.restrictions[i] == rr;
    assert db'.restrictions[i] == db'.restrictions[..|db.restrictions|][i];
  }

  /** Committing the guest form does not look at availability again: a
      draft for a room that has meanwhile been taken is still stored, and
      the room ends up with two restrictions sharing the stay's dates. */
  lemma CommitDoesNotRecheckAvailability(s: Session, db: Store.Db, values: Forms.Values, isEmail: string -> bool)
    requires s.reservation.Some? && GuestAcceptable(values, isEmail)
    requires s.reservation.value.startDate < s.reservation.value.endDate
    requires !Store.SearchAvailabilityByDatesAndRoomID(db, s.reservation.value.startDate, s.reservation.value.endDate, s.reservation.value.roomId)
    ensures var draft := s.reservation.value;
      var r := PostMakeReservation(s, db, values, isEmail);
      var m := |db.restrictions|;
      && r.outcome == Redirect("reservation-summary", SeeOther)
      && |r.db.reservations| == |db.reservations| + 1
      && r.db.restrictions[m].roomId == draft.roomId
      && Store.Overlaps(r.db.restrictions[m], draft.startDate, draft.endDate)
      && exists i :: 0 <= i < m && r.db.restrictions[i].roomId == draft.roomId
                      && Store.Overlaps(r.db.restrictions[i], draft.startDate, draft.endDate)
  {
    var draft := s.reservation.value;
    var r := PostMakeReservation(s, db, values, isEmail);
    TakenStaysTaken(db, r.db, draft.roomId, draft.startDate, draft.endDate);
  }
}
