/** The reservation service: the business rules (default status, partial-update
    merge, existence checks, status change) over the id-keyed table. */
module Service {
  import opened Wrappers
  import opened Entity
  import Repository

  /** How an operation that throws is reported: the id does not resolve, or the
      store refused the write (a column constraint broken). */
  datatype ServiceError = NotFound | OperationFailed

  // ---------------------------------------------------------------- partial update

  /** A present patch value replaces the current one; an absent one keeps it. */
  function Overlay<T>(patch: Option<T>, current: Option<T>): Option<T> {
    if patch.Some? then patch else current
  }

  /** The record a partial update produces: every non-null field of the patch
      overwrites the stored field, except the id, which the patch cannot touch. */
  function Merge(current: Reservation, patch: Reservation): (merged: Reservation)
    ensures merged.id == current.id
  {
    current.(
      name := Overlay(patch.name, current.name),
      phone := Overlay(patch.phone, current.phone),
      date := Overlay(patch.date, current.date),
      numberOfGuests := Overlay(patch.numberOfGuests, current.numberOfGuests),
      time := Overlay(patch.time, current.time),
      tableNumber := Overlay(patch.tableNumber, current.tableNumber),
      status := Overlay(patch.status, current.status),
      notes := Overlay(patch.notes, current.notes))
  }

  /** The patch with no field set. */
  const EmptyPatch := Reservation(None, None, None, None, None, None, None, None, None)

  /** Merging the empty patch changes nothing, and no patch can clear a
      field: a merged field is null only when both the stored field and the
      patch's field are null, because "absent" and "cleared" are the same patch. */
  lemma MergeEmptyPatch(current: Reservation)
    ensures Merge(current, EmptyPatch) == current
    ensures forall p :: Merge(current, p).name.None? <==> current.name.None? && p.name.None?
    ensures forall p :: Merge(current, p).phone.None? <==> current.phone.None? && p.phone.None?
    ensures forall p :: Merge(current, p).date.None? <==> current.date.None? && p.date.None?
    ensures forall p :: Merge(current, p).numberOfGuests.None? <==>
      current.numberOfGuests.None? && p.numberOfGuests.None?
    ensures forall p :: Merge(current, p).time.None? <==> current.time.None? && p.time.None?
    ensures forall p :: Merge(current, p).tableNumber.None? <==>
      current.tableNumber.None? && p.tableNumber.None?
    ensures forall p :: Merge(current, p).status.None? <==> current.status.None? && p.status.None?
    ensures forall p :: Merge(current, p).notes.None? <==> current.notes.None? && p.notes.None?
  {
  }

  /** Applying the same patch twice is the same as applying it once. */
  lemma MergeIdempotent(current: Reservation, patch: Reservation)
    ensures Merge(Merge(current, patch), patch) == Merge(current, patch)
  {
  }

  /** A patch that only carries notes changes only the notes. */
  lemma MergeNotesOnly(current: Reservation, notes: string)
    ensures Merge(current, EmptyPatch.(notes := Some(notes))) == current.(notes := Some(notes))
  {
  }

  /** A stored record stays storable under a merge exactly when the patch's
      notes, if any, fit the notes column: the merge can never drop a
      required column. */
  lemma MergeWellFormed(current: Reservation, patch: Reservation)
    requires WellFormed(current)
    ensures WellFormed(Merge(current, patch)) <==> NotesFit(patch.notes)
  {
  }

  // ---------------------------------------------------------------- the service

  class ReservationServiceImpl {
    /** The reservation table. */
    var store: Repository.Table
    /** Next value of the identity column. */
    var nextId: int
    /** Every id the identity column has handed out. */
    ghost var issued: set<int>

    ghost predicate Valid()
      reads this
    {
      && Repository.Keyed(store)
      && (forall k :: k in store ==> WellFormed(store[k]))
      && store.Keys <= issued
      && (forall k :: k in issued ==> k < nextId)
    }

    constructor ()
      ensures Valid() && store == map[] && issued == {}
    {
      store := map[];
      nextId := 1;
      issued := {};
    }

    /** `saveReservation`: the incoming record is copied as is, a missing status
        becomes PENDING, and the table inserts it under a fresh id. The table
        refuses a record with a required column missing or notes that are too
        long; the service reports that as a failure and nothing is stored. */
    method SaveReservation(dto: Reservation) returns (result: Result<Reservation, ServiceError>)
      requires Valid()
      modifies this
      ensures Valid()
      ensures result.Success? <==>
        dto.name.Some? && dto.phone.Some? && dto.date.Some? &&
        dto.numberOfGuests.Some? && dto.time.Some? && NotesFit(dto.notes)
      ensures result.Failure? ==>
        result.error == OperationFailed && store == old(store) && issued == old(issued)
      ensures result.Success? ==>
        var saved := result.value;
        && saved.id.Some? && saved.id.value !in old(issued)
        && saved.status == (if dto.status.None? then Some(Pending) else dto.status)
        && saved == dto.(id := saved.id, status := saved.status)
        && saved == Merge(NewReservation(), dto).(id := saved.id)
        && store == old(store)[saved.id.value := saved]
        && issued == old(issued) + {saved.id.value}
    {
      var entity := dto;
      if entity.status.None? {
        entity := entity.(status := Some(Pending));
      }
      if !WellFormed(entity) {
        return Failure(OperationFailed);
      }
      var id := nextId;
      nextId := nextId + 1;
      entity := entity.(id := Some(id));
      store := store[id := entity];
      issued := issued + {id};
      return Success(entity);
    }

    /** `getAllReservations`: every stored record, each exactly once, in an
        order the contract leaves open. */
    function GetAllReservations(): (rows: seq<Reservation>)
      reads this
      requires Valid()
      ensures |rows| == |store|
      ensures forall r :: r in rows <==> r in store.Values
      ensures Repository.DistinctIds(rows)
    {
      Repository.FindAll(store)
    }

    /** `searchReservation`: the record stored under `id`, or nothing. */
    function SearchReservation(id: int): (found: Option<Reservation>)
      reads this
      requires Valid()
      ensures found.None? <==> id !in store
      ensures found.Some? ==> found.value == store[id] && found.value.id == Some(id) && WellFormed(found.value)
    {
      Repository.FindById(store, id)
    }

    /** `updateReservation`: false for an unknown id; otherwise the record is
        merged with the patch field by field and written back. */
    method UpdateReservation(id: int, patch: Reservation) returns (result: Result<bool, ServiceError>)
      requires Valid()
      modifies this
      ensures Valid() && issued == old(issued) && nextId == old(nextId)
      ensures id !in old(store) ==> result == Success(false) && store == old(store)
      ensures id in old(store) && !NotesFit(patch.notes) ==>
        result == Failure(OperationFailed) && store == old(store)
      ensures id in old(store) && NotesFit(patch.notes) ==>
        result == Success(true) && store == old(store)[id := Merge(old(store)[id], patch)]
    {
      var existing := Repository.FindById(store, id);
      if existing.None? {
        return Success(false);
      }
      var entity := existing.value;
      if patch.name.Some? { entity := entity.(name := patch.name); }
      if patch.phone.Some? { entity := entity.(phone := patch.phone); }
      if patch.date.Some? { entity := entity.(date := patch.date); }
      if patch.numberOfGuests.Some? { entity := entity.(numberOfGuests := patch.numberOfGuests); }
      if patch.time.Some? { entity := entity.(time := patch.time); }
      if patch.tableNumber.Some? { entity := entity.(tableNumber := patch.tableNumber); }
      if patch.status.Some? { entity := entity.(status := patch.status); }
      if patch.notes.Some? { entity := entity.(notes := patch.notes); }
      MergeWellFormed(existing.value, patch);
      assert entity == Merge(existing.value, patch);
      if !WellFormed(entity) {
        return Failure(OperationFailed);
      }
      store := store[id := entity];
      return Success(true);
    }

    /** `deleteReservationById`: fails for an unknown id, otherwise removes that
        one row. */
    method DeleteReservationById(id: int) returns (result: Result<(), ServiceError>)
      requires Valid()
      modifies this
      ensures Valid() && issued == old(issued) && nextId == old(nextId)
      ensures id !in old(store) ==> result == Failure(NotFound) && store == old(store)
      ensures id in old(store) ==> result == Success(()) && store == old(store) - {id}
    {
      if !Repository.ExistsById(store, id) {
        return Failure(NotFound);
      }
      store := store - {id};
      return Success(());
    }

    /** `updateStatus`: false for an unknown id; otherwise the status, and only
        the status, is replaced, whatever it was before. A null status breaks
        the status column's constraint and the write is refused. */
    method UpdateStatus(id: int, newStatus: Option<Status>) returns (result: Result<bool, ServiceError>)
      requires Valid()
      modifies this
      ensures Valid() && issued == old(issued) && nextId == old(nextId)
      ensures id !in old(store) ==> result == Success(false) && store == old(store)
      ensures id in old(store) && newStatus.None? ==>
        result == Failure(OperationFailed) && store == old(store)
      ensures id in old(store) && newStatus.Some? ==>
        result == Success(true) && store == old(store)[id := old(store)[id].(status := newStatus)]
    {
      var existing := Repository.FindById(store, id);
      if existing.None? {
        return Success(false);
      }
      var entity := existing.value.(status := newStatus);
      if !WellFormed(entity) {
        return Failure(OperationFailed);
      }
      store := store[id := entity];
      return Success(true);
    }

    /** `getReservationsByStatus`: the stored records with status `s`. */
    function GetReservationsByStatus(s: Status): (rows: seq<Reservation>)
      reads this
      requires Valid()
      ensures forall r :: r in rows <==> r in store.Values && r.status == Some(s)
      ensures Repository.DistinctIds(rows)
    {
      Repository.FindByStatus(store, s)
    }

    /** `getReservationsByDate`: the stored records on date `d`. */
    function GetReservationsByDate(d: Date): (rows: seq<Reservation>)
      reads this
      requires Valid()
      ensures forall r :: r in rows <==> r in store.Values && r.date == Some(d)
      ensures Repository.DistinctIds(rows)
    {
      Repository.FindByDate(store, d)
    }

    /** `searchReservationsByName`: the stored records whose name contains
        `fragment`, ignoring case. */
    function SearchReservationsByName(fragment: string): (rows: seq<Reservation>)
      reads this
      requires Valid()
      ensures forall r :: r in rows <==>
        r in store.Values && r.name.Some? && Repository.IsSubstring(Repository.Upper(fragment), Repository.Upper(r.name.value))
      ensures Repository.DistinctIds(rows)
    {
      Repository.FindByNameContainingIgnoreCase(store, fragment)
    }
  }

  /** The notes limit is enforced when a reservation is saved: notes of 2000
      characters are accepted, notes of 2001 are refused and nothing is stored. */
  method NotesLimitOnSave(booking: Reservation, notes: string)
    returns (result: Result<Reservation, ServiceError>, stored: Repository.Table)
    requires booking.name.Some? && booking.phone.Some? && booking.date.Some?
    requires booking.numberOfGuests.Some? && booking.time.Some?
    requires |notes| == 2000 || |notes| == 2001
    ensures result.Success? <==> |notes| == 2000
    ensures result.Success? ==>
      result.value.notes == Some(notes) && result.value.id.Some? &&
      stored == map[result.value.id.value := result.value]
    ensures result.Failure? ==> result.error == OperationFailed && stored == map[]
  {
    var service := new ReservationServiceImpl();
    result := service.SaveReservation(booking.(notes := Some(notes)));
    stored := service.store;
  }

  /** The notes limit is enforced when a stored reservation is updated: a patch
      with 2000 characters of notes is applied, one with 2001 is refused and
      the stored record stays as it was. */
  method NotesLimitOnUpdate(booking: Reservation, notes: string)
    returns (result: Result<bool, ServiceError>, before: Reservation, after: Reservation)
    requires booking.name.Some? && booking.phone.Some? && booking.date.Some?
    requires booking.numberOfGuests.Some? && booking.time.Some? && NotesFit(booking.notes)
    requires |notes| == 2000 || |notes| == 2001
    ensures result == (if |notes| == 2000 then Success(true) else Failure(OperationFailed))
    ensures after == (if |notes| == 2000 then before.(notes := Some(notes)) else before)
  {
    var service := new ReservationServiceImpl();
    var saved := service.SaveReservation(booking);
    var id := saved.value.id.value;
    before := saved.value;
    result := service.UpdateReservation(id, EmptyPatch.(notes := Some(notes)));
    MergeNotesOnly(before, notes);
    after := service.SearchReservation(id).value;
  }

  /** Nothing checks a new reservation against the bookings already made:
      two reservations for the same table on the same date are both accepted,
      under different ids, and both are then listed for that date. */
  method DoubleBookingAccepted(first: Reservation, second: Reservation)
    returns (a: Result<Reservation, ServiceError>, b: Result<Reservation, ServiceError>, onDate: seq<Reservation>)
    requires first.name.Some? && first.phone.Some? && first.date.Some?
    requires first.numberOfGuests.Some? && first.time.Some? && NotesFit(first.notes)
    requires second.name.Some? && second.phone.Some? && second.numberOfGuests.Some?
    requires second.time.Some? && NotesFit(second.notes)
    requires second.date == first.date && second.tableNumber == first.tableNumber
    ensures a.Success? && b.Success? && a.value.id != b.value.id
    ensures a.value.date == b.value.date && a.value.tableNumber == b.value.tableNumber
    ensures a.value in onDate && b.value in onDate
  {
    var service := new ReservationServiceImpl();
    a := service.SaveReservation(first);
    b := service.SaveReservation(second);
    onDate := service.GetReservationsByDate(first.date.value);
  }

  /** The life of one reservation: created without a status, confirmed, then
      deleted, after which it can no longer be found. */
  method ReservationLifecycle() {
    var service := new ReservationServiceImpl();
    var anna := EmptyPatch.(name := Some("Anna"), phone := Some("0771234567"),
      date := Some(Date(2025, 6, 1)), numberOfGuests := Some(4), time := Some("19:00"));
    var saved := service.SaveReservation(anna);
    assert saved.Success? && saved.value.status == Some(Pending);
    var id := saved.value.id.value;
    assert service.SearchReservation(id) == Some(saved.value);

    var confirmed := service.UpdateStatus(id, Some(Confirmed));
    assert confirmed == Success(true);
    assert service.SearchReservation(id).value.status == Some(Confirmed);

    var again := service.UpdateReservation(id, EmptyPatch.(notes := Some("window seat")));
    assert again == Success(true);
    assert service.SearchReservation(id).value == saved.value.(status := Some(Confirmed), notes := Some("window seat"));

    var deleted := service.DeleteReservationById(id);
    assert deleted.Success?;
    assert service.SearchReservation(id).None?;

    var missing := service.DeleteReservationById(id);
    assert missing == Failure(NotFound);
    var notUpdated := service.UpdateStatus(id, Some(Cancelled));
    assert notUpdated == Success(false) && service.store == map[];
  }
}
