# Stay booking: listing rules and registration, in Dafny

This project models the core of a Spring Boot service for short-term-rental
listings ("stays"):

- the **stay lifecycle** (`StayService`): owner-scoped lookup and listing of
  stays, publishing a stay with its uploaded images and geocoded location, and
  the guarded delete that refuses while a reservation of the stay is active;
- **user registration** (`RegisterService.add`): duplicate check, password
  encoding, enabling the user, and the user and authority rows;
- the **stay queries** (`StayRepository`): the derived queries `findByHost`,
  `findByIdAndHost` and `findByIdInAndGuestNumberGreaterThanEqual`, as
  selections over the stay table.

Layout:

- `entities.dfy` (module `Entities`): the entities as values (`Stay`,
  `StayImage`, `Reservation`, `Location`, `UserRecord`, `Authority`,
  `UserRole`), the exceptions as `Error`, and `Option`/`Result`.
- `tables.dfy` (module `Tables`): a table is a sequence of rows; `Select`
  keeps the rows that satisfy a condition, in order, with lemmas about
  concatenation, composition and commuting of selections.
- `stay_repository.dfy` (module `StayRepository`): the stay table with a
  unique primary key, the three derived queries, `deleteById`, fresh ids, and
  lemmas relating the queries to each other and to inserts and deletes.
- `reservation_repository.dfy` (module `ReservationRepository`): the query
  `findByStayAndCheckoutDateAfter` used by delete.
- `stay_service.dfy` (module `StayLifecycle`): class `StayService`, whose
  fields are the stay, reservation and location tables plus the image store
  and the geocoder as functions; the image-wrapping loop of `add`; the lemma
  that the delete guard keeps active reservations anchored to stored stays.
- `register_service.dfy` (module `Registration`): class `User`, which
  registration updates in place, and class `RegisterService`, whose fields are
  the user table, the authority table and the password encoder.

Modelling choices:

- The database is abstract state. Stays are a sequence with pairwise distinct
  ids (`UniqueIds`, kept by every `StayService` method); reservations are a
  sequence; locations are a map keyed by stay id; users are a map keyed by
  username; authorities are a sequence of rows.
- A query returns its rows in table order. The source's derived queries
  promise no order, so this is one admissible order. Membership clauses
  (`s in r <==> ...`) state what the source promises. The sequence equalities
  about listings (`AppendedIsListed`, `DeleteThenList`, and the listing clauses
  of `StayService.Add` and `StayService.Delete`) also fix positions. Those
  positions follow from the model's table order and are not promises of the
  source; the membership each of them implies is.
- The id the database generates on `save` is any id not in use (a
  such-that choice, whose existence `FreshIdExists` proves).
- A `StayImage` refers back to its stay by the stay's key (the join column
  the JPA mapping writes). In the source the reference is to the stay object,
  whose id the save fills in; the model draws that id first and builds the
  images with it, which gives the same stored rows.
- `ImageStorageService.save`, `GeoCodingService.getLatLng` and
  `PasswordEncoder.encode` are function-valued fields with no internals. The
  geocoder is required to key the location it returns by the stay id it was
  given (`LocatesById`), as the call `getLatLng(stay.getId(), ...)` intends.
- `LocalDate.now()` is the parameter `today`; dates are day numbers.
- `UserRole` is a value that carries the name `role.name()` returns.
- `add` returns the stay as saved (the source returns nothing and keeps the
  saved entity in the object it was given); delete and register return
  `Result<()>`, with an `Err` for each exception the source throws.

## Model

| member | source | states |
|---|---|---|
| StayRepository.FindByHost | src/main/java/com/cocoli/staybooking/repository/StayRepository.java:10 | a stay is in the result exactly when it is stored and its host is the given user |
| StayRepository.FindByIdAndHost | src/main/java/com/cocoli/staybooking/repository/StayRepository.java:12 | a stay is returned exactly when a stored stay has that id and host; the returned stay is stored with that id and host, and with unique ids it is the only stored stay with that id; otherwise nothing (null) |
| StayRepository.FindByIdInAndGuestNumberGreaterThanEqual | src/main/java/com/cocoli/staybooking/repository/StayRepository.java:14 | a stay is in the result exactly when it is stored, its id is among the given ids and it takes at least the given number of guests |
| StayRepository.FoundIsListed | src/main/java/com/cocoli/staybooking/repository/StayRepository.java:10-12 | a stay found by id and host is among the stays that `findByHost` lists for that host |
| StayRepository.GuestMinimumNarrows | src/main/java/com/cocoli/staybooking/repository/StayRepository.java:14 | raising the guest minimum gives the earlier result filtered again by the new minimum, so every new result is in the earlier result and is stored |
| StayRepository.NotOwnedLooksMissing | src/main/java/com/cocoli/staybooking/service/StayService.java:44-50 | asking for a stay hosted by someone else gives the same answer (nothing) as asking for an id that does not exist |
| StayRepository.DeleteById | src/main/java/com/cocoli/staybooking/service/StayService.java:80 | the table after `deleteById` holds exactly the stays whose id differs from the deleted one, and the id is no longer in use |
| StayRepository.DeleteByIdKeepsUniqueIds | src/main/java/com/cocoli/staybooking/service/StayService.java:80 | deleting a stay keeps the ids of the remaining stays pairwise distinct |
| StayRepository.FreshIdExists | src/main/java/com/cocoli/staybooking/service/StayService.java:63 | whatever the table holds, an id not in use exists for save to assign |
| StayRepository.AppendFreshKeepsUniqueIds | src/main/java/com/cocoli/staybooking/service/StayService.java:63 | saving a stay under an id not in use keeps the ids pairwise distinct |
| StayRepository.AppendedIsListed | src/main/java/com/cocoli/staybooking/service/StayService.java:40-42 | after a stay is saved, its host's listing holds exactly the earlier listing plus that stay (as a sequence equality, with the stay last in the model's table order) |
| StayRepository.DeleteThenList | src/main/java/com/cocoli/staybooking/service/StayService.java:80 | after deleting an id, every host's listing is the earlier listing without that id (order as in the model's table) |
| ReservationRepository.FindByStayAndCheckoutDateAfter | src/main/java/com/cocoli/staybooking/service/StayService.java:76 | a reservation is in the result exactly when it is stored, it books the given stay and its checkout is strictly after today; the result is empty exactly when no reservation of the stay is active |
| ReservationRepository.CheckoutTodayIsInactive | src/main/java/com/cocoli/staybooking/service/StayService.java:76-79 | a reservation checking out today (or earlier) is not returned, so it does not block a delete |
| StayLifecycle.WrapImages | src/main/java/com/cocoli/staybooking/service/StayService.java:57-60 | one image per media link, same length and same order, and every image refers back to the stay being added |
| StayLifecycle.DeleteKeepsActiveReservationsAnchored | src/main/java/com/cocoli/staybooking/service/StayService.java:76-80 | when the guard lets a delete through, every active reservation that referred to a stored stay still does: no active reservation is left pointing at a deleted stay |
| StayLifecycle.StayService.constructor | src/main/java/com/cocoli/staybooking/service/StayService.java:30-38 | the service starts from the given tables, image store and geocoder, with a unique stay key |
| StayLifecycle.StayService.ListByUser | src/main/java/com/cocoli/staybooking/service/StayService.java:40-42 | exactly the stored stays hosted by the user; reading changes nothing |
| StayLifecycle.StayService.FindByIdAndHost | src/main/java/com/cocoli/staybooking/service/StayService.java:44-50 | the stay is returned exactly when it is stored with that id and host; otherwise `StayNotExist`, the same error for a missing id and a foreign owner |
| StayLifecycle.StayService.Add | src/main/java/com/cocoli/staybooking/service/StayService.java:52-67 | the saved stay keeps the draft's fields, gets an id not in use, and has one image per uploaded file with image i the upload link of file i, pointing back at the stay; the stay table gains exactly that stay, the host's listing gains exactly that stay (placed last in the model's table order, which the source does not promise), the location table gains the geocoder's location under that id, and reservations do not change |
| StayLifecycle.StayService.Delete | src/main/java/com/cocoli/staybooking/service/StayService.java:70-82 | `StayNotExist` exactly when the stay is missing or not owned; `StayDelete` exactly when it is owned and has a reservation checking out after today; on either error the stays are unchanged; success exactly when it is owned and no reservation of it checks out after today, and then exactly that stay is removed and every listing loses just it; reservations and locations never change; active reservations stay anchored to stored stays |
| Registration.RegisterService.constructor | src/main/java/com/cocoli/staybooking/service/RegisterService.java:23-28 | the service starts from the given user and authority tables (every authority row belonging to a stored user) and the given encoder |
| Registration.RegisterService.Add | src/main/java/com/cocoli/staybooking/service/RegisterService.java:30-40 | `UserAlreadyExist` exactly when the username is stored, and then neither table nor the user object changes; otherwise the user's password becomes the encoding of the old one, the user is enabled, the user table gains exactly that user's row, and the authority table gains exactly one row (username, role name) after the earlier rows |

## Left out

- `StayController` (HTTP routing, parameter binding, the `Principal`): no
  logic of its own; its builder calls are datatype constructors here.
- The reservation query service (`listReservations` / `listByStay`) is not
  part of this model; only the reservation query that delete uses is modelled.
- The parallel stream of `add` is a sequential map over the images; only its
  order-preserving result is modelled, not the concurrency.
- `@Transactional(isolation = SERIALIZABLE)` on delete and on registration:
  each method is one atomic state transition; interleavings with concurrent
  transactions are not modelled.
- The internals of the image store, the geocoder (floating-point latitude
  and longitude become `real` values the geocoder returns) and the password
  encoder. Since the encoder is opaque, nothing is proved about the encoded
  password differing from the raw one.
- How the database generates ids, JPA cascades (such as removing a stay's
  image rows with it) and the persistence context.
- Failures inside `add` (a failed upload leaving orphaned blobs, a failed
  geocoding leaving a stay without a location) and transient store failures:
  they are not in the source's control flow.
- The stored-rows view of `add` fixes the stay id before the images are
  built; the order in which the source's statements run is otherwise kept,
  and the location is computed from the id the save produced.
- The `User`, `Stay`, `StayImage`, `Reservation`, `Location`, `Authority`,
  `UserRole`, `ReservationRepository`, `LocationRepository`, `UserRepository`
  and `AuthorityRepository` sources are not part of this model: their fields
  and query meanings are taken from how the core files use them.
- Stay ids are unbounded integers: the 64-bit range of the source's `Long`
  is not modelled, since the database assigns ids and no arithmetic is done
  on them.
