/** The records the booking application passes between its handlers and its
    repository: rooms, reservations and room restrictions. Calendar dates are
    day numbers; a stay `[startDate, endDate)` occupies the nights from
    `startDate` up to, not including, `endDate`. */
module Models {

  /** A value that may be absent; stands for a nullable column or a missing
      session key. */
  datatype Option<+T> = None | Some(value: T)

  /** A calendar date as a day number (the application parses `YYYY-MM-DD`
      at midnight UTC, so consecutive dates differ by one). */
  type Day = int

  /** The `restriction_id` column: what kind of restriction a row is. */
  const KindReservation: int := 1
  const KindBlock: int := 2

  /** A bookable room. */
  datatype Room = Room(id: int, roomName: string)

  /** The zero value of a room, as Go produces for a room never set. */
  const NoRoom: Room := Room(0, "")

  /** A reservation as the handlers carry it (and as the repository reports
      it, with the joined room). `processed` is 0 for a new booking. */
  datatype Reservation = Reservation(
    id: int,
    firstName: string,
    lastName: string,
    email: string,
    phone: string,
    startDate: Day,
    endDate: Day,
    roomId: int,
    room: Room,
    processed: int)

  /** The zero value of a reservation. */
  const NoReservation: Reservation :=
    Reservation(0, "", "", "", "", 0, 0, 0, NoRoom, 0)

  /** A room restriction as the handlers build it and as the per-room query
      reports it: `reservationId` is 0 for an owner block, and
      `restrictionKind` holds the `restriction_id` column. */
  datatype RoomRestriction = RoomRestriction(
    id: int,
    startDate: Day,
    endDate: Day,
    roomId: int,
    reservationId: int,
    restrictionKind: int)
}
