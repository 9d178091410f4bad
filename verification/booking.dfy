/** The `Booking` record: an identity assigned by storage, the member's name,
    the booked day and the identity of the booked class. Every field is a
    nullable Java reference, so every field is an `Option`. The getters of the
    record are the datatype's field destructors (`b.id`, `b.name`, `b.date`,
    `b.classId`); the setters are the `Set…` functions below, each of which
    changes exactly one field.
 */
module BookingModel {
  import opened JavaValues

  /** A storage identity (a Java `Long`; the 64-bit width is not modelled). */
  type Id = int

  /** A calendar date without time, as a day ordinal; earlier days are smaller. */
  type Day = int

  datatype Booking = Booking(
    id: Option<Id>,
    name: Option<string>,
    date: Option<Day>,
    classId: Option<Id>)

  /** setId: the id becomes `newId`; name, date and classId are kept. */
  function SetId(b: Booking, newId: Option<Id>): (r: Booking)
    ensures r.id == newId
    ensures r.name == b.name && r.date == b.date && r.classId == b.classId
  {
    b.(id := newId)
  }

  /** setName: the name becomes `newName`; id, date and classId are kept. */
  function SetName(b: Booking, newName: Option<string>): (r: Booking)
    ensures r.name == newName
    ensures r.id == b.id && r.date == b.date && r.classId == b.classId
  {
    b.(name := newName)
  }

  /** setDate: the date becomes `newDate`; id, name and classId are kept. */
  function SetDate(b: Booking, newDate: Option<Day>): (r: Booking)
    ensures r.date == newDate
    ensures r.id == b.id && r.name == b.name && r.classId == b.classId
  {
    b.(date := newDate)
  }

  /** setClassId: the class reference becomes `newClassId`; id, name and date are kept. */
  function SetClassId(b: Booking, newClassId: Option<Id>): (r: Booking)
    ensures r.classId == newClassId
    ensures r.id == b.id && r.name == b.name && r.date == b.date
  {
    b.(classId := newClassId)
  }

  /** Setters of different fields commute, so the order of the three copies
      in the update workflow does not matter. */
  lemma SettersCommute(b: Booking, n: Option<string>, d: Option<Day>, c: Option<Id>)
    ensures SetName(SetDate(SetClassId(b, c), d), n) == SetClassId(SetDate(SetName(b, n), d), c)
    ensures SetDate(SetClassId(b, c), d) == SetClassId(SetDate(b, d), c)
    ensures SetDate(SetName(b, n), d) == SetName(SetDate(b, d), n)
  {
  }
}
