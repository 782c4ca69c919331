/** The stored reservation record (one row of the `reservation` table) and the
    constraints its columns impose. */
module Entity {
  import opened Wrappers

  /** Lifecycle stage of a reservation. */
  datatype Status = Pending | Confirmed | Cancelled | Completed

  /** A calendar date; the model only ever compares dates for equality. */
  datatype Date = Date(year: int, month: int, day: int)

  /** Declared length of the notes column. */
  const NotesMaxLength: nat := 2000

  /** A reservation record. Every field of the record may be null (None); the
      column constraints below decide which ones a stored row must carry.
      The wire representation has exactly the same fields and is copied
      field for field, so this datatype also stands for the incoming record
      and for a partial-update patch. */
  datatype Reservation = Reservation(
    id: Option<int>,
    name: Option<string>,
    phone: Option<string>,
    date: Option<Date>,
    numberOfGuests: Option<int>,
    time: Option<string>,
    tableNumber: Option<int>,
    status: Option<Status>,
    notes: Option<string>)

  /** The columns declared `nullable = false` are all present. */
  predicate HasRequiredColumns(r: Reservation) {
    && r.name.Some?
    && r.phone.Some?
    && r.date.Some?
    && r.numberOfGuests.Some?
    && r.time.Some?
    && r.status.Some?
  }

  /** Notes, when present, fit the notes column. */
  predicate NotesFit(notes: Option<string>) {
    notes.None? || |notes.value| <= NotesMaxLength
  }

  /** A record the table accepts: required columns present, notes short enough.
      The table number and the notes are optional. */
  predicate WellFormed(r: Reservation) {
    HasRequiredColumns(r) && NotesFit(r.notes)
  }

  /** The record built by the no-argument constructor: status defaults to
      PENDING, everything else is null. */
  function NewReservation(): (r: Reservation)
    ensures r.status == Some(Pending)
    ensures r.id.None? && r.name.None? && r.phone.None? && r.date.None?
    ensures r.numberOfGuests.None? && r.time.None? && r.tableNumber.None? && r.notes.None?
  {
    Reservation(None, None, None, None, None, None, None, Some(Pending), None)
  }

  /** The table number and the notes may be absent from a stored record:
      clearing them keeps a well-formed record well-formed, while clearing any
      required column does not. */
  lemma OptionalColumns(r: Reservation)
    requires WellFormed(r)
    ensures WellFormed(r.(tableNumber := None, notes := None))
    ensures !WellFormed(r.(name := None)) && !WellFormed(r.(phone := None))
    ensures !WellFormed(r.(date := None)) && !WellFormed(r.(numberOfGuests := None))
    ensures !WellFormed(r.(time := None)) && !WellFormed(r.(status := None))
  {
  }
}
