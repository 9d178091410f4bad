/** The booking service: a four-step validator and the create, update and
    list workflows over two key-value stores, the booking store and the class
    store. Every operation is a pure function from the stores it reads to the
    booking store it leaves behind and what it returns; a thrown exception is
    an `Err` carrying one of the closed `Error` kinds.
 */
module BookingService {
  import opened JavaValues
  import opened BookingModel

  /** The part of a class the service reads: its closed range of bookable days. */
  datatype Class = Class(startDate: Day, endDate: Day)

  /** One kind per exception the service throws. */
  datatype Error =
    | NameEmpty       // the name is null or empty
    | DateNull        // the date is null
    | ClassNotFound   // the class id does not resolve in the class store
    | DateOutOfRange  // the date lies outside the class's range
    | BookingNotFound // the booking to update does not exist

  type ClassStore = map<Id, Class>

  /** The booking table: its rows by id, and the order in which a scan of the
      table returns them (insertion order; the service promises no order). */
  datatype BookingStore = BookingStore(rows: map<Id, Booking>, order: seq<Id>)

  /** What a repository guarantees of its table: each stored record carries
      its own key as its id, and the scan order lists every key exactly once. */
  ghost predicate WellFormed(store: BookingStore)
  {
    && (forall k :: k in store.rows ==> store.rows[k].id == Some(k))
    && (forall i :: 0 <= i < |store.order| ==> store.order[i] in store.rows)
    && (forall k :: k in store.rows ==> k in store.order)
    && (forall i, j :: 0 <= i < j < |store.order| ==> store.order[i] != store.order[j])
  }

  /** The booking table after an operation, and what the operation returned. */
  datatype Response = Response(store: BookingStore, result: Result<Booking, Error>)

  // ---------------------------------------------------------------------------
  // What an acceptable booking is, stated independently of the validator
  // ---------------------------------------------------------------------------

  predicate HasName(b: Booking)
  {
    b.name.Some? && b.name.value != []
  }

  predicate HasDate(b: Booking)
  {
    b.date.Some?
  }

  predicate ClassExists(b: Booking, classes: ClassStore)
  {
    b.classId.Some? && b.classId.value in classes
  }

  /** The class's range is closed: both the first and the last day are bookable. */
  predicate WithinClass(d: Day, c: Class)
  {
    c.startDate <= d <= c.endDate
  }

  predicate Acceptable(b: Booking, classes: ClassStore)
  {
    && HasName(b)
    && HasDate(b)
    && ClassExists(b, classes)
    && WithinClass(b.date.value, classes[b.classId.value])
  }

  /** Every stored booking is acceptable against the class store. */
  ghost predicate AllAcceptable(store: BookingStore, classes: ClassStore)
  {
    forall k :: k in store.rows ==> Acceptable(store.rows[k], classes)
  }

  // ---------------------------------------------------------------------------
  // Repository collaborators
  // ---------------------------------------------------------------------------

  /** findById: the row stored under `id`; a null id finds nothing. */
  function Find<T>(rows: map<Id, T>, id: Option<Id>): (r: Option<T>)
    ensures r.Some? <==> id.Some? && id.value in rows
    ensures r.Some? ==> r.value == rows[id.value]
  {
    if id.Some? && id.value in rows then Some(rows[id.value]) else None
  }

  /** The record's id names a row of the table, so `save` merges into that row. */
  predicate IsStored(store: BookingStore, b: Booking)
  {
    b.id.Some? && b.id.value in store.rows
  }

  /** save: a record whose id names a stored row overwrites that row. Any other
      record is inserted under `newKey`, the identity the database generates
      for it (any key not yet in use), and the saved copy carries that key.
      Returns the new table and the saved record. */
  function Save(store: BookingStore, b: Booking, newKey: Id): (r: (BookingStore, Booking))
    requires !IsStored(store, b) ==> newKey !in store.rows
    ensures r.1.name == b.name && r.1.date == b.date && r.1.classId == b.classId
    ensures IsStored(store, b) ==>
      r.1 == b && r.0.rows == store.rows[b.id.value := b] && r.0.order == store.order
    ensures !IsStored(store, b) ==>
      && r.1.id == Some(newKey)
      && r.0.rows == store.rows[newKey := r.1]
      && r.0.order == store.order + [newKey]
    ensures WellFormed(store) ==> WellFormed(r.0)
  {
    if IsStored(store, b) then
      (BookingStore(store.rows[b.id.value := b], store.order), b)
    else
      var saved := SetId(b, Some(newKey));
      (BookingStore(store.rows[newKey := saved], store.order + [newKey]), saved)
  }

  /** What `save` returns is what `findById` then finds under its id. */
  lemma FindAfterSave(store: BookingStore, b: Booking, newKey: Id)
    requires !IsStored(store, b) ==> newKey !in store.rows
    ensures
      var (after, saved) := Save(store, b, newKey);
      saved.id.Some? && Find(after.rows, saved.id) == Some(saved)
  {
  }

  // ---------------------------------------------------------------------------
  // validateBooking
  // ---------------------------------------------------------------------------

  /** The four checks, in order; the first one that fails decides the error. */
  function Validate(b: Booking, classes: ClassStore): (r: Check<Error>)
    ensures r.Pass? <==> Acceptable(b, classes)
    ensures r == Fail(NameEmpty) <==> !HasName(b)
    ensures r == Fail(DateNull) <==> HasName(b) && !HasDate(b)
    ensures r == Fail(ClassNotFound) <==> HasName(b) && HasDate(b) && !ClassExists(b, classes)
    ensures r == Fail(DateOutOfRange) <==>
      HasName(b) && HasDate(b) && ClassExists(b, classes)
      && !WithinClass(b.date.value, classes[b.classId.value])
    ensures r != Fail(BookingNotFound)
  {
    if b.name.None? || |b.name.value| == 0 then Fail(NameEmpty)
    else if b.date.None? then Fail(DateNull)
    else
      match Find(classes, b.classId)
      case None => Fail(ClassNotFound)
      case Some(c) =>
        if b.date.value < c.startDate || b.date.value > c.endDate then Fail(DateOutOfRange)
        else Pass
  }

  /** Only the three fields the update copies take part in validation; the id does not. */
  lemma ValidateReadsOnlyCopiedFields(a: Booking, b: Booking, classes: ClassStore)
    requires a.name == b.name && a.date == b.date && a.classId == b.classId
    ensures Validate(a, classes) == Validate(b, classes)
  {
  }

  /** A missing name or date is reported without consulting the class store. */
  lemma ValidateIgnoresClassesBeforeLookup(b: Booking, classes1: ClassStore, classes2: ClassStore)
    requires !HasName(b) || !HasDate(b)
    ensures Validate(b, classes1) == Validate(b, classes2)
    ensures Validate(b, classes1) == (if !HasName(b) then Fail(NameEmpty) else Fail(DateNull))
  {
  }

  /** The first and the last day of a class are accepted. */
  lemma RangeBoundsInclusive(b: Booking, classes: ClassStore)
    requires HasName(b) && ClassExists(b, classes)
    requires b.date == Some(classes[b.classId.value].startDate) || b.date == Some(classes[b.classId.value].endDate)
    requires classes[b.classId.value].startDate <= classes[b.classId.value].endDate
    ensures Validate(b, classes) == Pass
  {
  }

  /** The day before the start and the day after the end are rejected with the range error. */
  lemma RangeNeighboursRejected(b: Booking, classes: ClassStore)
    requires HasName(b) && ClassExists(b, classes)
    requires b.date == Some(classes[b.classId.value].startDate - 1) || b.date == Some(classes[b.classId.value].endDate + 1)
    ensures Validate(b, classes) == Fail(DateOutOfRange)
  {
  }

  /** A class whose start is after its end accepts no date at all. */
  lemma InvertedRangeAcceptsNothing(b: Booking, classes: ClassStore)
    requires HasName(b) && HasDate(b) && ClassExists(b, classes)
    requires classes[b.classId.value].startDate > classes[b.classId.value].endDate
    ensures Validate(b, classes) == Fail(DateOutOfRange)
  {
  }

  // ---------------------------------------------------------------------------
  // createBooking
  // ---------------------------------------------------------------------------

  /** Validates the candidate, then saves it. `newKey` is the identity the table
      generates when the candidate has none. */
  function CreateBooking(store: BookingStore, classes: ClassStore, candidate: Booking, newKey: Id): (r: Response)
    requires WellFormed(store)
    requires !IsStored(store, candidate) ==> newKey !in store.rows
    ensures r.result.Ok? <==> Acceptable(candidate, classes)
    ensures r.result.Err? ==> r.store == store && Validate(candidate, classes) == Fail(r.result.error)
    ensures r.result.Ok? ==>
      var saved := r.result.value;
      && saved.name == candidate.name && saved.date == candidate.date && saved.classId == candidate.classId
      && saved.id.Some? && r.store.rows == store.rows[saved.id.value := saved]
    ensures r.result.Ok? && !IsStored(store, candidate) ==>
      && r.result.value.id == Some(newKey)
      && r.store.rows.Keys == store.rows.Keys + {newKey}
      && r.store.order == store.order + [newKey]
    ensures r.result.Ok? && IsStored(store, candidate) ==>
      && r.result.value == candidate
      && r.store.rows.Keys == store.rows.Keys
      && r.store.order == store.order
    ensures WellFormed(r.store)
  {
    match Validate(candidate, classes)
    case Fail(e) => Response(store, Err(e))
    case Pass =>
      var (store', saved) := Save(store, candidate, newKey);
      Response(store', Ok(saved))
  }

  /** An id the caller sets on a new booking is not kept unless it names a stored
      row: the database generates the identity. */
  lemma CreateDoesNotKeepUnknownId(store: BookingStore, classes: ClassStore, candidate: Booking, newKey: Id)
    requires WellFormed(store) && newKey !in store.rows
    requires Acceptable(candidate, classes) && candidate.id.Some? && candidate.id.value !in store.rows
    ensures CreateBooking(store, classes, candidate, newKey).result.value.id == Some(newKey)
    ensures candidate.id.value != newKey ==>
      candidate.id.value !in CreateBooking(store, classes, candidate, newKey).store.rows
  {
  }

  // ---------------------------------------------------------------------------
  // updateBooking
  // ---------------------------------------------------------------------------

  /** Validates the candidate, then looks up booking `id`, copies the
      candidate's classId, date and name onto it and saves it. */
  function UpdateBooking(store: BookingStore, classes: ClassStore, id: Option<Id>, candidate: Booking): (r: Response)
    requires WellFormed(store)
    ensures r.result.Ok? <==> Acceptable(candidate, classes) && id.Some? && id.value in store.rows
    ensures !Acceptable(candidate, classes) ==> r == Response(store, Err(Validate(candidate, classes).error))
    ensures Acceptable(candidate, classes) && Find(store.rows, id).None? ==> r == Response(store, Err(BookingNotFound))
    ensures r.result.Ok? ==>
      var k := id.value;
      var saved := r.result.value;
      && saved.id == Some(k) == store.rows[k].id
      && saved.name == candidate.name && saved.date == candidate.date && saved.classId == candidate.classId
      && r.store.rows == store.rows[k := saved]
    ensures r.store.rows.Keys == store.rows.Keys && r.store.order == store.order
    ensures forall j :: j in store.rows && Some(j) != id ==> r.store.rows[j] == store.rows[j]
    ensures WellFormed(r.store)
  {
    match Validate(candidate, classes)
    case Fail(e) => Response(store, Err(e))
    case Pass =>
      match Find(store.rows, id)
      case None => Response(store, Err(BookingNotFound))
      case Some(existing) =>
        var key: Id := id.value;
        assert existing == store.rows[key] && existing.id == Some(key);
        var merged := SetName(SetDate(SetClassId(existing, candidate.classId), candidate.date), candidate.name);
        // The merged record keeps the id of a stored row, so `save` overwrites
        // that row and generates no key: the key passed for one is never used.
        var (store', saved) := Save(store, merged, key);
        Response(store', Ok(saved))
  }

  /** An invalid candidate is reported even when the target booking is also missing. */
  lemma ValidationPrecedesLookup(store: BookingStore, classes: ClassStore, id: Option<Id>, candidate: Booking)
    requires WellFormed(store)
    requires !Acceptable(candidate, classes) && Find(store.rows, id).None?
    ensures UpdateBooking(store, classes, id, candidate).result.error != BookingNotFound
  {
  }

  // ---------------------------------------------------------------------------
  // How the operations compose
  // ---------------------------------------------------------------------------

  /** Against a fixed class store, creating and updating keep every stored booking acceptable. */
  lemma CreateKeepsAllAcceptable(store: BookingStore, classes: ClassStore, candidate: Booking, newKey: Id)
    requires WellFormed(store) && AllAcceptable(store, classes)
    requires !IsStored(store, candidate) ==> newKey !in store.rows
    ensures AllAcceptable(CreateBooking(store, classes, candidate, newKey).store, classes)
  {
  }

  lemma UpdateKeepsAllAcceptable(store: BookingStore, classes: ClassStore, id: Option<Id>, candidate: Booking)
    requires WellFormed(store) && AllAcceptable(store, classes)
    ensures AllAcceptable(UpdateBooking(store, classes, id, candidate).store, classes)
  {
  }

  /** Repeating a successful update changes nothing further. */
  lemma UpdateIdempotent(store: BookingStore, classes: ClassStore, id: Option<Id>, candidate: Booking)
    requires WellFormed(store)
    ensures
      var r1 := UpdateBooking(store, classes, id, candidate);
      var r2 := UpdateBooking(r1.store, classes, id, candidate);
      r2 == r1
  {
  }

  /** Updating a booking just created with id `newKey` leaves the table as
      creating the second candidate in its place would have. */
  lemma UpdateAfterCreate(store: BookingStore, classes: ClassStore, first: Booking, second: Booking, newKey: Id)
    requires WellFormed(store) && newKey !in store.rows
    requires first.id.None? && second.id.None?
    requires Acceptable(first, classes) && Acceptable(second, classes)
    ensures
      var created := CreateBooking(store, classes, first, newKey);
      UpdateBooking(created.store, classes, Some(newKey), second) == CreateBooking(store, classes, second, newKey)
  {
  }

  /** The scan order lists exactly as many keys as the table has rows. */
  lemma {:induction false} OrderCountsRows(store: BookingStore)
    requires WellFormed(store)
    ensures |store.order| == |store.rows|
  {
    DistinctElementsCount(store.order);
    var listed := set i | 0 <= i < |store.order| :: store.order[i];
    forall k | k in store.rows
      ensures k in listed
    {
      var i :| 0 <= i < |store.order| && store.order[i] == k;
    }
    assert store.rows.Keys == listed;
  }

  /** A sequence without repetitions has as many distinct elements as it is long. */
  lemma {:induction false} DistinctElementsCount(q: seq<Id>)
    requires forall i, j :: 0 <= i < j < |q| ==> q[i] != q[j]
    ensures |set i | 0 <= i < |q| :: q[i]| == |q|
  {
    if |q| > 0 {
      var prefix := q[..|q| - 1];
      DistinctElementsCount(prefix);
      assert (set i | 0 <= i < |q| :: q[i]) == (set i | 0 <= i < |prefix| :: prefix[i]) + {q[|q| - 1]};
    }
  }

  // ---------------------------------------------------------------------------
  // getAllBookings
  // ---------------------------------------------------------------------------

  /** findAll: every stored booking exactly once, in the table's scan order. */
  method GetAllBookings(store: BookingStore) returns (all: seq<Booking>)
    requires WellFormed(store)
    ensures |all| == |store.order| == |store.rows|
    ensures forall i :: 0 <= i < |all| ==> all[i].id.Some? && all[i].id.value in store.rows && store.rows[all[i].id.value] == all[i]
    ensures forall k :: k in store.rows ==> store.rows[k] in all
    ensures forall i, j :: 0 <= i < j < |all| ==> all[i] != all[j]
  {
    all := [];
    var n := 0;
    while n < |store.order|
      invariant 0 <= n <= |store.order|
      invariant |all| == n
      invariant forall i :: 0 <= i < n ==> all[i] == store.rows[store.order[i]]
    {
      all := all + [store.rows[store.order[n]]];
      n := n + 1;
    }
    forall k | k in store.rows
      ensures store.rows[k] in all
    {
      var i :| 0 <= i < |store.order| && store.order[i] == k;
      assert all[i] == store.rows[k];
    }
    OrderCountsRows(store);
  }
}
