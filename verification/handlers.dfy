/** The booking handlers as transitions over the visitor's session and the
    store: each takes the session, the database and the request's (already
    parsed) inputs and returns the new session, the new database and what the
    visitor gets back. The draft reservation travels between requests under
    the session key "reservation". */
module Handlers {
  import opened Models
  import Store
  import Forms
  import FormErrors
  import Text

  /** The session keys the booking flow reads and writes: the draft
      reservation, the room picked on a room page ("Room"), and the one-shot
      messages ("flash", "error", "warning") the next rendered page shows. */
  datatype Session = Session(
    reservation: Option<Reservation>,
    room: Option<Room>,
    flash: Option<string>,
    error: Option<string>,
    warning: Option<string>)

  /** The one-shot messages a rendered page shows. */
  datatype Notices = Notices(flash: Option<string>, error: Option<string>, warning: Option<string>)

  const NoNotices: Notices := Notices(None, None, None)

  /** The messages waiting in the session. */
  function Pending(s: Session): Notices
  {
    Notices(s.flash, s.error, s.warning)
  }

  /** The session once `AddDefaultData` has popped the three messages. */
  function Consumed(s: Session): Session
  {
    s.(flash := None, error := None, warning := None)
  }

  const SeeOther: int := 303
  const TemporaryRedirect: int := 307

  /** What a handler answers: a redirect, one of the pages it renders (with
      the data it hands to the template), or a 500 page. */
  datatype Outcome =
    | Redirect(location: string, status: int)
    | ChooseRoomPage(rooms: seq<Room>)
    | SearchPage(room: Room)
    | ReservationPage(form: Forms.Form, reservation: Reservation)
    | SummaryPage(reservation: Reservation)
    | ServerError

  /** A handler's effect; `shown` holds the messages a rendered page
      displays (none for a redirect or a 500 page). */
  datatype Step = Step(session: Session, db: Store.Db, outcome: Outcome, shown: Notices)

  /** A page rendered through `RenderTemplate`, which first pops the
      messages waiting in the session and shows them. */
  function Render(s: Session, db: Store.Db, page: Outcome): (r: Step)
    ensures r.db == db && r.outcome == page
    ensures r.session.reservation == s.reservation && r.session.room == s.room
    ensures r.session.flash.None? && r.session.error.None? && r.session.warning.None?
    ensures r.shown.flash == s.flash && r.shown.error == s.error && r.shown.warning == s.warning
  {
    Step(Consumed(s), db, page, Pending(s))
  }

  /** A redirect or a 500 page: nothing is popped or shown. */
  function Answer(s: Session, db: Store.Db, outcome: Outcome): Step
  {
    Step(s, db, outcome, NoNotices)
  }

  /** `r` renders a page from the session `s` (already updated by the
      handler): every waiting message is shown and removed. */
  predicate RenderedFrom(r: Step, s: Session)
  {
    r.session == Consumed(s) && r.shown == Pending(s)
  }

  const NoAvailabilityMessage: string := "No Availibility"
  const RoomTakenMessage: string := "Sorry, We don't have available room now."
  const MissingDraftMessage: string := "Can not get data from the session!"

  /** The draft a date search stores: the dates and nothing else. */
  function DraftFor(start: Day, end: Day): Reservation
  {
    NoReservation.(startDate := start, endDate := end)
  }

  /** `PostSearchAvailability`: lists the free rooms and stores a dates-only
      draft, or, when no room is free, stores an error and sends the visitor
      back to the search page without touching the draft. */
  function PostSearchAvailability(s: Session, db: Store.Db, start: Day, end: Day): (r: Step)
    ensures r.db == db && r.session.room == s.room
    ensures (forall room :: room in db.rooms ==> !Store.SearchAvailabilityByDatesAndRoomID(db, start, end, room.id)) ==>
      && r.session == s.(error := Some(NoAvailabilityMessage))
      && r.shown == NoNotices
      && r.outcome == Redirect("search-availability", SeeOther)
    ensures (exists room :: room in db.rooms && Store.SearchAvailabilityByDatesAndRoomID(db, start, end, room.id)) ==>
      && r.session.reservation == Some(DraftFor(start, end))
      && RenderedFrom(r, s.(reservation := Some(DraftFor(start, end))))
      && r.outcome.ChooseRoomPage?
      && forall room :: room in r.outcome.rooms <==>
           room in db.rooms && Store.SearchAvailabilityByDatesAndRoomID(db, start, end, room.id)
  {
    var rooms := Store.SearchAvailabilityForAllRooms(db, start, end);
    if |rooms| == 0 then
      Answer(s.(error := Some(NoAvailabilityMessage)), db, Redirect("search-availability", SeeOther))
    else
      Render(s.(reservation := Some(DraftFor(start, end))), db, ChooseRoomPage(rooms))
  }

  /** `SearchAvailabilityByRoomID`: remembers the room of the page the visitor
      came from and shows the search form for it. */
  function SearchAvailabilityByRoomID(s: Session, db: Store.Db, roomId: int, roomType: string): (r: Step)
    ensures r.db == db && r.session.reservation == s.reservation
    ensures r.session.room.Some? && r.session.room.value.id == roomId && r.session.room.value.roomName == roomType
    ensures RenderedFrom(r, s.(room := r.session.room))
    ensures r.outcome.SearchPage? && Some(r.outcome.room) == r.session.room
  {
    var room := Room(roomId, roomType);
    Render(s.(room := Some(room)), db, SearchPage(room))
  }

  /** The room remembered in the session, or the zero room when none is. */
  function RememberedRoom(s: Session): Room
  {
    match s.room
    case Some(room) => room
    case None => NoRoom
  }

  /** `PostSearchAvailabilityByRoomID`: checks the remembered room alone.
      When it is taken, stores an error and redirects to the room's page
      (`/generals` for room 1, `/majors` otherwise) leaving the draft as it
      was; when free, stores a draft with the dates and that room. */
  function PostSearchAvailabilityByRoomID(s: Session, db: Store.Db, start: Day, end: Day): (r: Step)
    ensures r.db == db && r.session.room == s.room && r.shown == NoNotices
    ensures var room := RememberedRoom(s);
      var free := forall rr :: rr in db.restrictions && rr.roomId == room.id ==> !Store.Overlaps(rr, start, end);
      && (!free ==>
            && r.session == s.(error := Some(RoomTakenMessage))
            && r.outcome == Redirect(if room.id == 1 then "/generals" else "/majors", SeeOther))
      && (free ==>
            && r.session == s.(reservation := Some(DraftFor(start, end).(roomId := room.id, room := room)))
            && r.outcome == Redirect("/make-reservation", SeeOther))
  {
    var room := RememberedRoom(s);
    var available := Store.SearchAvailabilityByDatesAndRoomID(db, start, end, room.id);
    if !available then
      var location := if room.id == 1 then "/generals" else "/majors";
      Answer(s.(error := Some(RoomTakenMessage)), db, Redirect(location, SeeOther))
    else
      var res := DraftFor(start, end).(roomId := room.id, room := room);
      Answer(s.(reservation := Some(res)), db, Redirect("/make-reservation", SeeOther))
  }

  /** `ChooseRoom`: puts the room picked from the list into the draft. The
      room id comes from the URL (`None` when it is not a number); the stored
      room carries only the name. Without a draft it fails. */
  function ChooseRoom(s: Session, db: Store.Db, roomId: Option<int>, roomName: string): (r: Step)
    ensures r.db == db && r.shown == NoNotices
    ensures roomId.None? || s.reservation.None? ==> r.session == s && r.outcome == ServerError
    ensures roomId.Some? && s.reservation.Some? ==>
      var before := s.reservation.value;
      && r.session.reservation.Some?
      && r.session == s.(reservation := r.session.reservation)
      && var after := r.session.reservation.value;
      && after.roomId == roomId.value && after.room == Room(0, roomName)
      && after == before.(roomId := after.roomId, room := after.room)
      && r.outcome == Redirect("/make-reservation", SeeOther)
  {
    match roomId
    case None => Answer(s, db, ServerError)
    case Some(id) =>
      match s.reservation
      case None => Answer(s, db, ServerError)
      case Some(res) =>
        var res' := res.(roomId := id, room := Room(0, roomName));
        Answer(s.(reservation := Some(res')), db, Redirect("/make-reservation", SeeOther))
  }

  /** `MakeReservation`: shows the guest form, empty and valid, for the
      draft; without a draft it fails. Nothing is stored; showing the page
      consumes the waiting messages. */
  function MakeReservation(s: Session, db: Store.Db): (r: Step)
    ensures r.db == db
    ensures s.reservation.None? <==> r.outcome == ServerError
    ensures s.reservation.None? ==> r.session == s && r.shown == NoNotices
    ensures s.reservation.Some? ==>
      && RenderedFrom(r, s)
      && r.session.reservation == s.reservation
      && r.outcome.ReservationPage?
      && r.outcome.reservation == s.reservation.value
      && r.outcome.form == Forms.New(map[]) && Forms.Valid(r.outcome.form)
  {
    match s.reservation
    case None => Answer(s, db, ServerError)
    case Some(res) => Render(s, db, ReservationPage(Forms.New(map[]), res))
  }

  const GuestFields: seq<string> := ["first_name", "last_name", "email"]

  /** The checks `PostMakeReservation` runs on the guest form, in order. */
  function ValidateGuest(values: Forms.Values, isEmail: string -> bool): Forms.Form
  {
    var form := Forms.Required(Forms.New(values), GuestFields);
    var form := Forms.MinLength(form, "first_name", 3, values).0;
    Forms.IsEmail(form, "email", values, isEmail)
  }

  /** What the guest form needs to pass. */
  predicate GuestAcceptable(values: Forms.Values, isEmail: string -> bool)
  {
    var first := Forms.ValueOf(values, "first_name");
    && !Forms.IsBlank(first)
    && !Forms.IsBlank(Forms.ValueOf(values, "last_name"))
    && !Forms.IsBlank(Forms.ValueOf(values, "email"))
    && Text.Utf8Len(first) >= 3
    && isEmail(Forms.ValueOf(values, "email"))
  }

  /** The guest form is valid exactly when first name, last name and e-mail
      are not blank, the first name has at least 3 bytes, and the e-mail
      predicate accepts the address. */
  lemma ValidateGuestValidIff(values: Forms.Values, isEmail: string -> bool)
    ensures Forms.Valid(ValidateGuest(values, isEmail)) <==> GuestAcceptable(values, isEmail)
  {
    var f0 := Forms.New(values);
    var f1 := Forms.Required(f0, GuestFields);
    var f2 := Forms.MinLength(f1, "first_name", 3, values).0;
    var f3 := Forms.IsEmail(f2, "email", values, isEmail);
    assert FormErrors.NoEmptyLists(f3.errors);
    Forms.ValidIffNoMessages(f3);
    Forms.RequiredMessages(f0, GuestFields, "first_name");
    Forms.RequiredMessages(f0, GuestFields, "last_name");
    Forms.RequiredMessages(f0, GuestFields, "email");
    assert multiset(GuestFields)["first_name"] == 1;
    assert multiset(GuestFields)["last_name"] == 1;
    assert multiset(GuestFields)["email"] == 1;
    if GuestAcceptable(values, isEmail) {
      forall field ensures FormErrors.Messages(f3.errors, field) == [] {
        Forms.RequiredMessages(f0, GuestFields, field);
        if field !in GuestFields {
          assert multiset(GuestFields)[field] == 0;
        }
      }
    } else {
      var first := Forms.ValueOf(values, "first_name");
      if Forms.IsBlank(first) || Text.Utf8Len(first) < 3 {
        assert FormErrors.Messages(f3.errors, "first_name") != [];
      } else if Forms.IsBlank(Forms.ValueOf(values, "last_name")) {
        assert FormErrors.Messages(f3.errors, "last_name") != [];
      } else {
        assert FormErrors.Messages(f3.errors, "email") != [];
      }
    }
  }

  /** What `Required` leaves on one of the guest fields: a single "can not
      be empty" message when its value is blank. */
  lemma RequiredGuestField(values: Forms.Values, field: string)
    requires field in GuestFields
    ensures FormErrors.Messages(Forms.Required(Forms.New(values), GuestFields).errors, field) ==
      (if Forms.IsBlank(Forms.ValueOf(values, field)) then [Forms.EmptyMessage] else [])
  {
    Forms.RequiredMessages(Forms.New(values), GuestFields, field);
    assert multiset(GuestFields)[field] == 1;
    assert Forms.Repeat(Forms.EmptyMessage, 1) == [Forms.EmptyMessage];
  }

  /** `Required` leaves no message on a field outside the guest fields. */
  lemma RequiredOtherField(values: Forms.Values, field: string)
    requires field !in GuestFields
    ensures FormErrors.Messages(Forms.Required(Forms.New(values), GuestFields).errors, field) == []
  {
    Forms.RequiredMessages(Forms.New(values), GuestFields, field);
    assert multiset(GuestFields)[field] == 0;
  }

  /** The form shown back to the guest keeps the posted values and carries,
      per field, the messages of the checks it failed, in the order they
      ran: "can not be empty" for a blank first name, last name or e-mail,
      the minimum-length message for a first name under 3 bytes, and the
      e-mail message for an address the e-mail predicate rejects. No other
      field has a message. */
  lemma ValidateGuestMessages(values: Forms.Values, isEmail: string -> bool)
    ensures var form := ValidateGuest(values, isEmail);
      var first, last, email := Forms.ValueOf(values, "first_name"), Forms.ValueOf(values, "last_name"), Forms.ValueOf(values, "email");
      && form.values == values
      && FormErrors.Messages(form.errors, "first_name") ==
           (if Forms.IsBlank(first) then [Forms.EmptyMessage] else []) +
           (if Text.Utf8Len(first) < 3 then [Forms.MinLengthMessage(3)] else [])
      && FormErrors.Messages(form.errors, "last_name") ==
           (if Forms.IsBlank(last) then [Forms.EmptyMessage] else [])
      && FormErrors.Messages(form.errors, "email") ==
           (if Forms.IsBlank(email) then [Forms.EmptyMessage] else []) +
           (if isEmail(email) then [] else [Forms.EmailMessage])
      && forall field :: field !in GuestFields ==> FormErrors.Messages(form.errors, field) == []
  {
    var f1 := Forms.Required(Forms.New(values), GuestFields);
    var f2 := Forms.MinLength(f1, "first_name", 3, values).0;
    var f3 := Forms.IsEmail(f2, "email", values, isEmail);
    RequiredGuestField(values, "first_name");
    RequiredGuestField(values, "last_name");
    RequiredGuestField(values, "email");
    forall field | field !in GuestFields
      ensures FormErrors.Messages(f3.errors, field) == []
    {
      RequiredOtherField(values, field);
    }
  }

  /** The draft with the guest details of the posted form. */
  function FilledDraft(res: Reservation, values: Forms.Values): Reservation
  {
    res.(firstName := Forms.ValueOf(values, "first_name"),
         lastName := Forms.ValueOf(values, "last_name"),
         phone := Forms.ValueOf(values, "phone"),
         email := Forms.ValueOf(values, "email"))
  }

  /** The restriction that holds the room for a new reservation. */
  function ReservationRestriction(res: Reservation, reservationId: int): RoomRestriction
  {
    RoomRestriction(0, res.startDate, res.endDate, res.roomId, reservationId, KindReservation)
  }

  /** `PostMakeReservation`: validates the guest details. An invalid form is
      shown again with its errors and the filled-in draft, and nothing is
      stored. A valid one inserts exactly one reservation and then exactly
      one restriction of kind 1 holding the same room and dates under the
      new reservation's id, stores the completed draft and redirects to the
      summary. The confirmation mail is not modelled. */
  function PostMakeReservation(s: Session, db: Store.Db, values: Forms.Values, isEmail: string -> bool): (r: Step)
    ensures s.reservation.None? ==> r.session == s && r.db == db && r.outcome == ServerError && r.shown == NoNotices
    ensures s.reservation.Some? && !GuestAcceptable(values, isEmail) ==>
      && r.db == db && RenderedFrom(r, s)
      && r.outcome.ReservationPage?
      && r.outcome.form == ValidateGuest(values, isEmail)
      && !Forms.Valid(r.outcome.form)
      && r.outcome.reservation == FilledDraft(s.reservation.value, values)
    ensures s.reservation.Some? && GuestAcceptable(values, isEmail) ==>
      var draft := FilledDraft(s.reservation.value, values);
      var n, m := |db.reservations|, |db.restrictions|;
      && r.db.rooms == db.rooms
      && |r.db.reservations| == n + 1 && r.db.reservations[..n] == db.reservations
      && |r.db.restrictions| == m + 1 && r.db.restrictions[..m] == db.restrictions
      && var row, rr := r.db.reservations[n], r.db.restrictions[m];
      && row.firstName == draft.firstName && row.lastName == draft.lastName
      && row.email == draft.email && row.phone == draft.phone
      && row.startDate == draft.startDate && row.endDate == draft.endDate && row.roomId == draft.roomId
      && rr.startDate == row.startDate && rr.endDate == row.endDate && rr.roomId == row.roomId
      && rr.reservationId == Some(row.id) && rr.restrictionKind == KindReservation
      && (Store.Valid(db) ==> Store.Valid(r.db) && forall earlier :: earlier in db.reservations ==> earlier.id != row.id)
      && r.session == s.(reservation := Some(draft)) && r.shown == NoNotices
      && r.outcome == Redirect("reservation-summary", SeeOther)
  {
    match s.reservation
    case None => Answer(s, db, ServerError)
    case Some(res) =>
      var reservation := FilledDraft(res, values);
      var form := ValidateGuest(values, isEmail);
      ValidateGuestValidIff(values, isEmail);
      if !Forms.Valid(form) then
        Render(s, db, ReservationPage(form, reservation))
      else
        var (db1, newId) := Store.InsertReservations(db, reservation);
        var db2 := Store.InsertRoomRestriction(db1, ReservationRestriction(reservation, newId));
        assert db2.reservations == db1.reservations;
        Answer(s.(reservation := Some(reservation)), db2, Redirect("reservation-summary", SeeOther))
  }

  /** `ReservationSummary`: shows the draft once and removes it from the
      session; without a draft it stores an error and redirects home. */
  function ReservationSummary(s: Session, db: Store.Db): (r: Step)
    ensures r.db == db && r.session.room == s.room
    ensures r.session.reservation.None?
    ensures s.reservation.None? ==>
      && r.session == s.(error := Some(MissingDraftMessage)) && r.shown == NoNotices
      && r.outcome == Redirect("/", TemporaryRedirect)
    ensures s.reservation.Some? ==>
      RenderedFrom(r, s.(reservation := None)) && r.outcome == SummaryPage(s.reservation.value)
  {
    match s.reservation
    case None => Answer(s.(error := Some(MissingDraftMessage)), db, Redirect("/", TemporaryRedirect))
    case Some(res) => Render(s.(reservation := None), db, SummaryPage(res))
  }
}
