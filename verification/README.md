# Room booking: a Dafny model

This project models the core of a small Go web application for booking hotel
rooms. It has three parts:

- The Postgres repository `postgresDBRepo`, modelled as pure functions over an
  in-memory database value (`Store.Db`). There are three tables: `rooms`,
  `reservations` and `room_restrictions`. Each table's serial id comes from a
  counter. Each SQL `WHERE` clause becomes a predicate over rows.
- The booking handlers, modelled as transitions. Each takes the session, the
  database and the request's parsed inputs, and returns the new session, the
  new database and an outcome: a redirect, a rendered page with its data, or a
  500 page. A rendered page also carries the one-shot messages it shows. The draft reservation travels between requests under the session
  key `reservation`.
- Server-side form validation (`forms.Form` and its `errors` map), plus the
  template helper `Iterate`.

Dates are whole day numbers. A stay or restriction `[start, end)` covers the
nights `start .. end-1`.

## Modules

- `Seqs` (seqs.dfy): filter, map and sort-by-key on sequences, with their
  contracts.
- `Models` (models.dfy): the application records `Room`, `Reservation` and
  `RoomRestriction`, and their Go zero values.
- `Store` (store.dfy): the repository. Table rows are kept apart from the
  application records, because `reservation_id` in `room_restrictions` is
  nullable.
- `StoreFacts` (store_facts.dfy): properties that relate several repository
  operations.
- `Text` (text.dfy): `strings.TrimSpace` with `unicode.IsSpace`, the UTF-8 byte
  length Go's `len` returns, and decimal formatting for `%d`.
- `FormErrors` (form_errors.dfy): the `errors` map.
- `Forms` (forms.dfy): the `Form` checks.
- `Render` (render.dfy): `Iterate`.
- `Handlers` (handlers.dfy): the booking transitions.
- `WorkflowFacts` (workflow_facts.dfy): properties of whole request sequences.
  The central one is that every reservation is paired with a restriction that
  holds its room and dates. A store is exactly paired when, in addition, no
  two reservation-kind restrictions name the same reservation and none names
  an id the serial counter has not issued yet; every reservation then has
  one and only one such restriction.

## Behaviour worth knowing

- The availability queries accept any range. Nothing checks `start < end`,
  and an inverted range goes straight into the overlap predicate
  (postgres.go:78-79). For `end <= start` a room is reported taken exactly
  when one of its restrictions covers both the night before `end` and the
  night `start` (`StoreFacts.InvertedRangeAnswer`). No invalid-range error
  exists.
- The admin calendar handler only renders a template (handlers.go:542-544).
  No handler calls `InsertBlockForRoom` or `DeleteBlockByID`
  (postgres.go:403-432); they are modelled as repository statements, and
  the admin handlers that would call them are left out.
- Committing the guest form does not check availability again
  (handlers.go:293-305, `WorkflowFacts.CommitDoesNotRecheckAvailability`).
- `DeleteBlockByID` deletes any restriction with the id, including one that
  belongs to a reservation (postgres.go:424). `DeleteReservation` issues one
  `delete` on `reservations` alone (postgres.go:300). Each statement is
  modelled by itself: whether the database then cascades, rejects or allows
  the delete depends on the schema's foreign keys, which are not part of this
  model (see "Left out"). `AdminDeleteReservation` discards the statement's
  error (handlers.go:573).
- The listing of restrictions for a room uses `end >= start_date`
  (postgres.go:373). It also reports a restriction that begins on the end
  day, which is not an overlap (`StoreFacts.ListingIncludesBlockOnEndDay`).
- `AllReservations` does not select `processed` (postgres.go:192-196), so
  every row it reports carries 0 there.
- `ChooseRoom` stores a room that has only its name, with id 0
  (handlers.go:218-225). The draft put back in the session after the commit
  keeps reservation id 0 (handlers.go:330).
- Every page rendered through `RenderTemplate` pops `flash`, `error` and
  `warning` from the session once the template is found (render.go:50-53,
  called at render.go:82 after the lookup at render.go:73-77).
  A message stored before a redirect is therefore shown by the next rendered
  page and then gone. Redirects and 500 pages pop nothing.

## Model

| member | source | states |
|---|---|---|
| Store.SearchAvailabilityByDatesAndRoomID | pkg/repository/dbrepo/postgres.go:72-92 | The room is available iff none of its restrictions satisfies `start < end_date && end > start_date`. |
| StoreFacts.OtherRoomsDoNotMatter | pkg/repository/dbrepo/postgres.go:78-79 | Two stores that agree on one room's restrictions give the same availability answer for that room. |
| StoreFacts.AvailableIffNoNightTaken | pkg/repository/dbrepo/postgres.go:78-91 | For a proper stay, and for restrictions spanning at least a night, the room is available iff no night of the stay is held by any of its restrictions. |
| StoreFacts.OverlapMeansSharedNight | pkg/repository/dbrepo/postgres.go:78-79 | For proper ranges, the half-open overlap test holds iff the stay and the restriction share a night. |
| StoreFacts.InvertedRangeIsNotRejected | pkg/repository/dbrepo/postgres.go:72-92 | With `start >= end` nothing is rejected. The predicate still reports a held room as taken and an empty room as free. |
| StoreFacts.InvertedRangeAnswer | pkg/repository/dbrepo/postgres.go:78-79 | For any store, room and range with `end <= start`, the room is reported taken iff one of its restrictions covers both the night `end - 1` and the night `start`. |
| Store.SearchAvailabilityForAllRooms | pkg/repository/dbrepo/postgres.go:95-122 | Lists exactly the rooms for which the single-room check says free, and none more often than the rooms table holds it. |
| Store.GetRestrictionsForRoomByDate | pkg/repository/dbrepo/postgres.go:365-400 | Every reported restriction belongs to the room and satisfies `start < end_date && end >= start_date`. Every stored restriction of the room meeting that test is reported. Each report comes from a stored row. In a store with unique ids, no restriction is reported twice. |
| Store.Report | pkg/repository/dbrepo/postgres.go:371-372 | A row with no reservation is reported with reservation id 0. Otherwise the id is kept, and the other columns are copied. |
| StoreFacts.ListingCoversOverlaps | pkg/repository/dbrepo/postgres.go:372-373 | The listing includes every overlapping restriction of the room. Any non-overlapping restriction it reports starts exactly on the end day. |
| StoreFacts.ListingIncludesBlockOnEndDay | pkg/repository/dbrepo/postgres.go:372-373 | A block starting on the end day is listed with reservation id 0 and kind 2, while the room stays available for the stay. |
| Store.InsertRoomRestriction | pkg/repository/dbrepo/postgres.go:45-68 | Appends exactly one restriction with the given dates, room, reservation id and kind, under a fresh id. Keeps the store's key invariant. |
| Store.InsertBlockForRoom | pkg/repository/dbrepo/postgres.go:403-417 | Appends exactly one restriction `[day, day+1)` for the room, with no reservation and kind 2. Afterwards the room is unavailable for every range with `start <= day < end`. Other rooms' answers are unchanged. |
| Store.DeleteBlockByID | pkg/repository/dbrepo/postgres.go:420-432 | Removes exactly the restrictions with that id, keeps every other one with its multiplicity, and leaves reservations and rooms unchanged. |
| StoreFacts.InsertThenDeleteBlock | pkg/repository/dbrepo/postgres.go:403-432 | Deleting the block just inserted gives back the original restrictions. |
| Store.InsertReservations | pkg/repository/dbrepo/postgres.go:17-42 | Appends one row with the guest, dates and room, unprocessed, and returns its id. In a valid store the id is positive and new. The id comes from the serial counter, which moves past it. |
| StoreFacts.InsertThenDeleteReservation | pkg/repository/dbrepo/postgres.go:17-42 | Deleting the reservation just inserted gives back the original rows. |
| Store.UpdateReservation | pkg/repository/dbrepo/postgres.go:279-293 | Only the row with that id changes, and only its first name, last name, e-mail and phone. Ids, dates, room and `processed` are never altered. |
| Store.UpdateProcessedForReservation | pkg/repository/dbrepo/postgres.go:312-325 | Only the `processed` value of the row with that id changes. |
| StoreFacts.ProcessedLeavesNewListing | pkg/repository/dbrepo/postgres.go:228 | After marking a reservation processed, the unprocessed rows are exactly the earlier unprocessed rows other than that one. |
| Store.DeleteReservation | pkg/repository/dbrepo/postgres.go:296-309 | Removes exactly the rows with that id and leaves restrictions and rooms unchanged. |
| Store.RoomById | pkg/repository/dbrepo/postgres.go:193-195 | The joined room is a room with the id. None is returned iff no room has it. |
| Store.JoinRooms | pkg/repository/dbrepo/postgres.go:204-212 | Each row is reported with its joined room. The scan fails iff some row's room is missing. |
| Store.AllReservations | pkg/repository/dbrepo/postgres.go:186-214 | Sorted by start date. As a multiset, the rows are exactly the stored rows (with `processed` read as 0), each with its room. None is returned iff some row's room is missing. |
| Store.AllNewReservations | pkg/repository/dbrepo/postgres.go:218-247 | Sorted by start date. As a multiset, the rows are exactly the rows with `processed = 0`, each with its room. None is returned iff such a row's room is missing. |
| Handlers.PostSearchAvailability | pkg/handlers/handlers.go:91-136 | If no room is free, stores "No Availibility", changes nothing else and redirects to the search page. Otherwise stores a draft with exactly the searched dates, lists exactly the free rooms, and the rendered page shows and pops the waiting flash, error and warning. |
| Handlers.SearchAvailabilityByRoomID | pkg/handlers/handlers.go:139-155 | Remembers the room of the page in the session and shows the search form for it. Rendering shows and pops the waiting flash, error and warning. |
| Handlers.PostSearchAvailabilityByRoomID | pkg/handlers/handlers.go:157-197 | If the remembered room is taken, stores an error, leaves the draft alone and redirects to `/generals` iff the id is 1, else to `/majors`. If it is free, stores a draft with the dates, the room id and the room. |
| Handlers.ChooseRoom | pkg/handlers/handlers.go:199-228 | Fails with no draft or a non-numeric id. Otherwise changes only the draft's room id and room. |
| Handlers.MakeReservation | pkg/handlers/handlers.go:231-255 | Fails iff there is no draft, changing nothing. Otherwise shows an empty, valid form for the draft. The store and the draft are unchanged; rendering shows and pops the waiting flash, error and warning. |
| Handlers.ValidateGuestValidIff | pkg/handlers/handlers.go:277-282 | The guest form is valid iff first name, last name and e-mail are non-blank, the first name has at least 3 bytes, and the e-mail check accepts the address. |
| Handlers.ValidateGuestMessages | pkg/handlers/handlers.go:277-282 | The checked form keeps the posted values. First name gets "can not be empty" if blank and then the minimum-length message if under 3 bytes. Last name gets "can not be empty" if blank. E-mail gets "can not be empty" if blank and then the e-mail message if the predicate rejects it. No other field gets a message. |
| Handlers.PostMakeReservation | pkg/handlers/handlers.go:258-332 | With no draft it fails and changes nothing. An invalid form is shown again, with the form the guest checks produced and the filled-in draft; nothing is stored, and rendering shows and pops the waiting messages. A valid one appends exactly one reservation and then one kind-1 restriction with the same dates and room under the new id. It keeps the key invariant, stores the completed draft and redirects to the summary. |
| Handlers.ReservationSummary | pkg/handlers/handlers.go:335-363 | Shows the draft and removes it; rendering shows and pops the waiting messages. With no draft, stores the error and redirects to `/` with 307. |
| WorkflowFacts.EmptyStoreIsPaired | pkg/handlers/handlers.go:293-305 | The empty store is exactly paired: the base case for the stores the statements can reach. |
| WorkflowFacts.ExactlyOnePair | pkg/handlers/handlers.go:293-305 | In a valid, exactly paired store each reservation has one and only one restriction holding its room and dates on its behalf. |
| WorkflowFacts.ChangeKeepsExactlyPaired | pkg/handlers/handlers.go:293-305 | Committing a form, editing guest details, marking processed, deleting a reservation and inserting a block each keep a valid, exactly paired store so. |
| WorkflowFacts.ChangesKeepExactlyPaired | pkg/handlers/handlers.go:293-305 | Any run of those changes keeps a valid, exactly paired store so. |
| WorkflowFacts.ReachableIsExactlyPaired | pkg/handlers/handlers.go:293-305 | From an empty store with distinct room ids, any run of those changes leaves a valid store in which every reservation has exactly one restriction holding its room and dates. |
| WorkflowFacts.PostMakeReservationKeepsPaired | pkg/handlers/handlers.go:293-305 | Committing the form keeps every reservation paired with a restriction holding its room and dates. An exactly paired store stays exactly paired. |
| WorkflowFacts.AppendPairKeepsPaired | pkg/handlers/handlers.go:293-305 | Appending a reservation together with a restriction that pairs with it keeps a paired store paired. If the new reservation's id is at or past the old counter, restrictions keep naming distinct, already issued reservations. |
| WorkflowFacts.UpdateReservationKeepsPaired | pkg/repository/dbrepo/postgres.go:283-286 | Updating guest details keeps every reservation paired. An exactly paired store stays exactly paired. |
| WorkflowFacts.UpdateProcessedKeepsPaired | pkg/repository/dbrepo/postgres.go:316 | Marking a reservation processed keeps every reservation paired. An exactly paired store stays exactly paired. |
| WorkflowFacts.DeleteReservationKeepsPaired | pkg/repository/dbrepo/postgres.go:300 | Deleting a reservation keeps the rest paired, and exactly paired stays exactly paired. The statement alone leaves every availability answer as it was. |
| WorkflowFacts.InsertBlockKeepsPaired | pkg/repository/dbrepo/postgres.go:407-410 | Inserting a block keeps every reservation paired. An exactly paired store stays exactly paired. |
| WorkflowFacts.DeleteBlockKeepsPaired | pkg/repository/dbrepo/postgres.go:424 | Deleting a restriction that belongs to no reservation keeps every reservation paired. An exactly paired store stays exactly paired. |
| WorkflowFacts.RejectedFormStoresNothing | pkg/handlers/handlers.go:277-290 | A blank or too-short first name leaves the store, the draft and the remembered room as they were. The re-shown form keeps the posted values and has a first-name message, and the only session change is that the waiting messages are shown and popped. |
| WorkflowFacts.SummaryShownOnce | pkg/handlers/handlers.go:337-347 | The first summary shows the waiting messages. A second summary in a row finds no draft: it shows nothing, stores the error and redirects to `/` with 307. |
| WorkflowFacts.SearchThenChoose | pkg/handlers/handlers.go:125-130 | Searching and then picking a free room leaves a draft with the searched dates and the picked room id. |
| WorkflowFacts.CommitThenSummary | pkg/handlers/handlers.go:293-347 | Committing acceptable details stores one new reservation for the draft, paired and with a new id, and makes the room unavailable for those dates. The summary then shows once. |
| WorkflowFacts.BookingRoundTrip | pkg/handlers/handlers.go:91-332 | Search, choose, open the guest form and commit store exactly one reservation for the searched dates and the picked room. Exactly one restriction is added, and it pairs with the new reservation. The store stays valid and paired (exactly paired if it was), and the room is no longer free for those dates. |
| WorkflowFacts.RoomScopedBooking | pkg/handlers/handlers.go:139-332 | From a room's page: show the search form, post free dates for that room, open the guest form and commit acceptable details. This stores exactly one reservation for that room and those dates. Exactly one restriction is added, and it pairs with the new reservation. The store stays valid and paired (exactly paired if it was), and the room is no longer free for those dates. |
| Handlers.Render | pkg/render/render.go:50-53 | A rendered page shows the waiting flash, error and warning and removes all three from the session. The draft, the remembered room and the store are untouched. |
| WorkflowFacts.MessagesShownOnce | pkg/render/render.go:50-53 | A waiting message is shown by the next rendered page only. A second rendered page right after it shows nothing. |
| WorkflowFacts.TakenStaysTaken | pkg/repository/dbrepo/postgres.go:78-79 | A restriction that made a room unavailable is still there after rows are appended. |
| WorkflowFacts.CommitDoesNotRecheckAvailability | pkg/handlers/handlers.go:293-305 | A draft for a room already taken is still committed. The room then holds two restrictions sharing the stay's nights. |
| FormErrors.Add | pkg/forms/errors.go:6-8 | Appends the message at the end of the field's list. Every other field's list is unchanged, and nothing is removed. |
| FormErrors.AddAllMessages | pkg/forms/errors.go:6-8 | A run of `Add`s appends to each field exactly its own messages, in order. |
| FormErrors.GetReturnsFirstAdded | pkg/forms/errors.go:11-17 | `Get` returns "" while a field has no message, and otherwise the first message ever added, whatever is added later. |
| Forms.New | pkg/forms/forms.go:19-25 | A new form keeps the posted values, has no messages and is valid. |
| Forms.ValidIffNoMessages | pkg/forms/forms.go:39-41 | The form is valid iff no field has a message. |
| Forms.InvalidStaysInvalid | pkg/forms/forms.go:28-67 | Checks only add messages, so a form that is not valid never becomes valid again. |
| Forms.Has | pkg/forms/forms.go:28-36 | Fails and adds one message iff the value is the empty string. White space counts as present. |
| Forms.BlankIffTrimmedEmpty | pkg/forms/forms.go:47 | A value counts as blank iff `strings.TrimSpace` leaves nothing of it, i.e. iff it is all white space. |
| Forms.RequireOne | pkg/forms/forms.go:46-49 | Adds one "can not be empty" message iff the trimmed value is empty. |
| Forms.Required | pkg/forms/forms.go:44-51 | Keeps the values and only adds messages. |
| Forms.RequiredMessages | pkg/forms/forms.go:44-51 | Each listed field whose trimmed value is empty gets one message per listing. No other field gets any. |
| Forms.RequiredIsAddAll | pkg/forms/forms.go:44-51 | `Required` is exactly a run of `Add`s, one per blank listed field, in order. |
| Forms.RequiredAddsFor | pkg/forms/forms.go:44-51 | Of those `Add`s, the ones for a field number its listings when its value is blank, and zero otherwise. |
| Forms.BlankPassesHasFailsRequired | pkg/forms/forms.go:28-51 | A white-space-only value passes `Has` but fails `Required`. |
| Forms.MinLength | pkg/forms/forms.go:54-61 | Fails and adds exactly one message iff the value is shorter than `length` bytes of UTF-8. |
| Forms.IsEmail | pkg/forms/forms.go:63-67 | Adds exactly one message iff the e-mail predicate rejects the value. |
| Text.TrimSpace | pkg/forms/forms.go:47 | The result is a contiguous part of the input with only white space cut off before and after it, and it neither starts nor ends with white space. It is empty iff the input is all white space. |
| Text.Utf8Len | pkg/forms/forms.go:55 | The byte length lies between the number of characters and four times that. It equals the number of characters iff all of them are ASCII. |
| Text.IntToString | pkg/forms/forms.go:57 | The decimal form of an integer: digits only, no leading zero, a minus sign for negatives, and it reads back as the number. |
| Render.Iterate | pkg/render/render.go:41-48 | Empty when count <= 0. Otherwise it has length count, holds k+1 at index k, and is strictly increasing from 1 to count. |

## Left out

- SQL errors, connection timeouts and the `context.WithTimeout` calls. Every
  statement succeeds in the model. The handlers' error branches for failed
  queries are therefore not modelled. This includes the branches that do not
  `return` after an insert fails.
- `created_at`, `updated_at` and `time.Now`: they do not affect any
  behaviour the model covers.
- The `processed` column's default: the schema is not part of this model,
  and a new reservation is taken to start unprocessed (0).
- Date parsing (`time.Parse` of the form dates) and `r.ParseForm`. Handlers
  take day numbers. Parse failures, including the branch that does not
  return after a date parse error, are not modelled.
- The distinction between `r.Form` and `r.PostForm`: one map of posted
  values stands for both.
- The confirmation mail sent over `MailChan`. It is concurrent I/O, and it
  does not change the session or the store.
- Template execution, the CSRF token and the `IsAuthenticated` flag that
  `AddDefaultData` sets, and `HumanDate`/`FormatDate`: presentation only.
  Outcomes carry the data a page would be handed. The popping of `flash`,
  `error` and `warning` is modelled.
- Forms.IsEmail: the e-mail syntax check of the govalidator library is a
  parameter of the model, not a definition.
- Render.Iterate: does not model Go's 64-bit `int`. With `count` equal to
  the largest `int`, `count+1` wraps and the Go loop yields nothing. The
  model uses unbounded integers.
- `Authenticate`, `GetUserByID`, `UpdateUser`, `AllRooms`,
  `GetReservationByID` and the admin handlers: user management and admin
  pages, outside the booking flow.
- The admin reservation calendar: the handler only renders a template, and
  there is no reconciliation logic to model.
- Session storage itself: the session is a value with the keys the booking
  flow uses (`reservation`, `Room`, `flash`, `error` and `warning`).
- Foreign keys and `ON DELETE` rules of the database schema: the schema is
  not part of this model. Each statement is modelled alone, so
  `Store.DeleteReservation` leaves `room_restrictions` as it was and
  `Store.DeleteBlockByID` leaves `reservations` as it was. With a cascading
  or restricting foreign key the database would differ.
- WorkflowFacts.DeleteReservationKeepsPaired: its unchanged-availability
  clause holds for the statement alone; with an `ON DELETE CASCADE` key the
  reservation's restriction would go too and the room would become free.
- Byte strings: Go strings may hold any bytes, including invalid UTF-8,
  while the model's strings are sequences of Unicode characters. Form values
  are taken to be valid UTF-8, so `MinLength`'s byte count and `TrimSpace`
  are modelled for that case only.
