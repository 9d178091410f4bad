# Booking validation and create/update workflow

A Dafny model of the booking service of a small class-booking application.
A booking names a member, a day and a class; the service accepts it only if
the name is present and non-empty, the date is present, the class exists in
the class store, and the day lies in the class's closed range
`[startDate, endDate]`. The checks run in that order and the first one that
fails decides the error. `createBooking` validates and then saves;
`updateBooking` validates the candidate, then looks up the target booking,
copies the candidate's classId, date and name onto it and saves it under its
own id; `getAllBookings` lists the booking table.

Files:

- `wrappers.dfy` (module `JavaValues`): `Option` for Java's nullable
  references and `Optional` lookups, `Result` for calls that return or throw,
  `Check` for a void check that completes or throws.
- `booking.dfy` (module `BookingModel`): the `Booking` record and its setters.
  The getters are the datatype's field destructors.
- `booking_service.dfy` (module `BookingService`): the class store, the
  booking table, the repository calls `Find` and `Save`, `Validate`,
  `CreateBooking`, `UpdateBooking`, `GetAllBookings`, and lemmas relating them.

Modelling choices:

- Every Java reference field (`id`, `name`, `date`, `classId`) is an `Option`;
  `None` is `null`. Dates are integer day ordinals; `isBefore` and `isAfter`
  are `<` and `>`.
- Each thrown `RuntimeException` becomes one kind of the closed `Error`
  datatype: `NameEmpty`, `DateNull`, `ClassNotFound`, `DateOutOfRange`,
  `BookingNotFound`. The code throws one untyped exception per check, so
  the model keeps one kind per check rather than folding them into a
  validation kind and a not-found kind.
- The class store is a `map<Id, Class>`. The booking table is a
  `map<Id, Booking>` of rows together with the order in which a scan returns
  them. Its invariant `WellFormed` says that each row carries its own key as
  its id and that the scan order lists each key exactly once. This is what a
  repository guarantees. `CreateBooking` and `UpdateBooking` require it and
  preserve it.
- `save` of a record whose id names a stored row overwrites that row (a JPA
  merge). Any other record, with a null id or with an id the table does not
  hold, is inserted under `newKey`, a parameter standing for the identity the
  database generates; the only assumption is that this key is not yet in use.
  An id supplied by the caller is never used as a new key, because the ids
  are generated by the database.
- `findById(null)` is treated as finding nothing. So a null `classId` gives
  `ClassNotFound`, and a null update id gives `BookingNotFound`.
- Create and update are pure functions. Each returns a `Response` that
  carries the booking table after the call and the call's `Result`.
  `GetAllBookings` is a method that returns the list of stored bookings and
  changes nothing. "Nothing is saved on
  failure" is therefore a stated postcondition: on `Err` the returned table
  equals the input table.

## Model

| member | source | states |
|---|---|---|
| BookingService.Validate | src/main/java/com/glofox/service/BookingService.java:48-63 | Passes exactly when the booking is acceptable: name present and non-empty, date present, class found, and start <= date <= end. Each error appears exactly when every earlier check passes and its own check fails: NameEmpty, then DateNull, then ClassNotFound, then DateOutOfRange. Validation never reports BookingNotFound. |
| BookingService.ValidateIgnoresClassesBeforeLookup | src/main/java/com/glofox/service/BookingService.java:49-54 | A missing or empty name gives NameEmpty, whatever the date, classId and class store. A named booking with a null date gives DateNull, and the class store is not consulted. |
| BookingService.RangeBoundsInclusive | src/main/java/com/glofox/service/BookingService.java:60-62 | A date equal to the class's start or to its end is accepted when the class's start is not after its end. |
| BookingService.RangeNeighboursRejected | src/main/java/com/glofox/service/BookingService.java:60-62 | The day before the start and the day after the end are rejected with DateOutOfRange. |
| BookingService.InvertedRangeAcceptsNothing | src/main/java/com/glofox/service/BookingService.java:60-62 | If a class's start is after its end, every named, dated booking for it fails with DateOutOfRange. |
| BookingService.ValidateReadsOnlyCopiedFields | src/main/java/com/glofox/service/BookingService.java:48-63 | Validation depends only on name, date and classId. Two bookings that agree on those three fields validate alike, whatever their ids. |
| BookingService.Find | src/main/java/com/glofox/service/BookingService.java:57-58 | `findById`, used for the class here and for the booking at lines 32-33: finds something exactly when the id is non-null and in the store, and then it is the row stored under that id. |
| BookingService.Save | src/main/java/com/glofox/service/BookingService.java:25 | `save`, used here and at line 39: the saved record keeps name, date and classId. A record whose id names a stored row overwrites that row and keeps the scan order. Any other record is saved under the generated key, which is added to the rows and appended to the scan order. A well-formed table stays well formed. |
| BookingService.FindAfterSave | src/main/java/com/glofox/service/BookingService.java:25 | After `save`, `findById` with the returned record's id finds exactly that record. |
| BookingService.CreateBooking | src/main/java/com/glofox/service/BookingService.java:23-26 | Succeeds exactly when the candidate is acceptable. On failure it returns the validation error and leaves the table unchanged. On success exactly one row is written, and the saved record carries the submitted name, date and classId. A candidate whose id names a stored row is returned as submitted and overwrites that row, with keys and scan order unchanged. Any other candidate gets the generated key, which is added to the keys and appended to the scan order. The table stays well formed. |
| BookingService.CreateDoesNotKeepUnknownId | src/main/java/com/glofox/service/BookingService.java:23-26 | An acceptable candidate whose id is set but not in the table is stored under the generated key, and, unless the generated key happens to equal it, no row appears under the id it carried. |
| BookingService.CreateKeepsAllAcceptable | src/main/java/com/glofox/service/BookingService.java:23-26 | If every stored booking is acceptable, that still holds after a create against the same class store. |
| BookingService.UpdateBooking | src/main/java/com/glofox/service/BookingService.java:28-40 | Succeeds exactly when the candidate is acceptable and the id is in the table. An invalid candidate yields its validation error before the lookup. A valid candidate with a missing id yields BookingNotFound. Every failure leaves the table unchanged. On success the stored row keeps its id and takes the candidate's classId, date and name. It is written under the same key. Keys, scan order and all other rows are unchanged. |
| BookingService.ValidationPrecedesLookup | src/main/java/com/glofox/service/BookingService.java:30-33 | An invalid candidate for a non-existent id is never reported as BookingNotFound. |
| BookingService.UpdateKeepsAllAcceptable | src/main/java/com/glofox/service/BookingService.java:28-40 | If every stored booking is acceptable, that still holds after an update against the same class store. |
| BookingService.UpdateIdempotent | src/main/java/com/glofox/service/BookingService.java:35-39 | Repeating an update with the same id and candidate returns the same response and leaves the same table. |
| BookingService.UpdateAfterCreate | src/main/java/com/glofox/service/BookingService.java:23-40 | Take two acceptable candidates without an id. Creating the first under a new key and then updating that booking with the second gives the same response and table as creating the second under that key in the first place. |
| BookingService.GetAllBookings | src/main/java/com/glofox/service/BookingService.java:44-46 | Returns as many bookings as the table has rows. Each returned booking is the row stored under its own id. Every stored row appears, and none appears twice. It returns a value and changes neither store. |
| BookingModel.SetId | src/main/java/com/glofox/model/Booking.java:35-41 | After setId, getId returns the value set. Name, date and classId are unchanged. |
| BookingModel.SetName | src/main/java/com/glofox/model/Booking.java:43-49 | After setName, getName returns the value set. Id, date and classId are unchanged. |
| BookingModel.SetDate | src/main/java/com/glofox/model/Booking.java:51-57 | After setDate, getDate returns the value set. Id, name and classId are unchanged. |
| BookingModel.SetClassId | src/main/java/com/glofox/model/Booking.java:59-65 | After setClassId, getClassId returns the value set. Id, name and date are unchanged. |
| BookingModel.SettersCommute | src/main/java/com/glofox/service/BookingService.java:35-37 | The three setters used by the update (name, date and classId) commute. So the order of the three copies in updateBooking does not affect the result. |

## Left out

- Spring wiring (`@Service`, `@Autowired`): the two repositories are passed to each operation as values instead.
- JPA persistence internals (`@Entity`, transactions): `save` is modelled as a write to the table. Identity generation is the `newKey` parameter, a key not yet in use; auto-increment details are not modelled.
- BookingService.CreateBooking: a candidate whose id is set but absent from the table is saved under a newly generated key, as a JPA merge of a detached entity with a generated id does in Hibernate before version 6.6. Later versions reject such an entity with an exception instead; that path is not modelled.
- `findById(null)`: the real repository throws an `IllegalArgumentException`. The model treats a null id as "not found".
- Jackson annotations (`@JsonIgnore` on id, `@JsonProperty`): transport concern.
- `LocalDate` calendar arithmetic: dates are integer day ordinals.
- The 64-bit width of `Long` ids: ids are unbounded integers. No operation computes on ids, so wrap-around cannot arise.
- Exception message texts and the `RuntimeException` type: replaced by the `Error` kinds.
- Concurrent updates and last-write-wins: storage-layer behaviour. Each operation is one atomic step.
- The `Class` entity beyond its start and end dates. Its source is not part of this model. Both dates are assumed non-null.
- The getters of `Booking`: they are the datatype's field destructors and need no members of their own.
- Lombok's generated constructors, `equals`, `hashCode` and `toString`: not used by the workflow.
- The order of `getAllBookings`: no order is promised. The model returns rows in insertion order, and its contract states only contents and multiplicity.
