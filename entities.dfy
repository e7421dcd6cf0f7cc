/**
 * The persistent entities of the booking service, as plain values, and the
 * outcomes its services report. A builder call in the controller only assigns
 * fields, so a datatype constructor stands in for it.
 */
module Entities {

  type Username = string
  /** A Java `Long` key; the model puts no bound on it. */
  type StayId = int
  type Url = string
  /** A calendar day, numbered; `LocalDate.now()` becomes such a number. */
  type Day = int
  /** The content of one uploaded image file. */
  type Blob = seq<bv8>

  /** One image of a stay: its storage link and the key of the stay it belongs to. */
  datatype StayImage = StayImage(url: Url, stay: StayId)

  /** A listing, owned by exactly one host. */
  datatype Stay = Stay(
    id: StayId,
    name: string,
    description: string,
    address: string,
    guestNumber: int,
    host: Username,
    images: seq<StayImage>)

  /** A booking against a stay; the core only reads these. */
  datatype Reservation = Reservation(
    id: nat,
    stay: StayId,
    guest: Username,
    checkinDate: Day,
    checkoutDate: Day)

  /** Geocoded coordinates of a stay, keyed by the stay's id. */
  datatype Location = Location(stayId: StayId, latitude: real, longitude: real)

  /** The row the user table holds for a registered user. */
  datatype UserRecord = UserRecord(username: Username, password: string, enabled: bool)

  /** One row of the authority table: a user and the name of a granted role. */
  datatype Authority = Authority(username: Username, authority: string)

  /** A role constant, identified by the name `role.name()` yields. */
  datatype UserRole = UserRole(name: string)

  /** The exceptions the services throw. */
  datatype Error =
    | StayNotExist      // the stay is missing or owned by someone else
    | StayDelete        // the stay still has an active reservation
    | UserAlreadyExist  // the username is taken

  datatype Option<T> = None | Some(value: T)

  datatype Result<T> = Ok(value: T) | Err(error: Error)
}
