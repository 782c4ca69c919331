# Reservation service — Dafny model

This project models the core of a restaurant table-reservation backend. That core is a reservation service over one table of reservation records keyed by an integer id. The model covers:

- **Entity** (`entity.dfy`): the stored record and the constraints its columns impose. Name, phone, date, number of guests, time and status may not be null. Notes are at most 2000 characters. A newly constructed record defaults its status to PENDING; the save contract shows that this default and the service's own default agree.
- **Repository** (`repository.dfy`): the table as a `map<int, Reservation>`, plus the read queries declared over it. These are find/exists by id, find-all, and the derived queries by status, by date, by date and table number, and by case-insensitive name substring. Each query is a pure function of the table.
- **Service** (`service.dfy`): a class holding the table and the identity-column counter. Its methods change the table in place:
  - save: defaults a missing status to PENDING and assigns a fresh id;
  - partial update: every non-null patch field overwrites the stored one;
  - delete: fails for an unknown id;
  - status update: replaces only the status, with no transition check.

  Its read operations are functions of the table. Every mutating method keeps the class invariant `Valid()`: every row carries its key as its id, every row satisfies the column constraints, and ids are never handed out twice. Each method states its whole new table in terms of the old one. A failed operation leaves the table unchanged.

The incoming record, the stored record and the partial-update patch have the same fields, and the mapper between them copies field for field. So one datatype, `Entity.Reservation`, stands for all three, with every nullable field an `Option`. A write the table refuses (a required column null, notes too long) throws in the source and is rolled back. The model reports it as `Failure(OperationFailed)` and leaves the table as it was.

## Model

| member | source | states |
|---|---|---|
| `Entity.OptionalColumns` | src/main/java/edu/icet/ecom/entity/ReservationEntity.java:21-43 | table number and notes may be absent from a storable record; dropping any of name, phone, date, number of guests, time or status makes it unstorable |
| `Repository.FindAndExistsAgree` | src/main/java/edu/icet/ecom/repository/ReservationRepository.java:14 | exists-by-id and find-by-id refer to the same single key; a found row carries that id; no other key holds a row with that id |
| `Repository.SortedIds` | src/main/java/edu/icet/ecom/repository/ReservationRepository.java:14 | the listing of a table's ids holds each id exactly once (in increasing order, the order the model fixes for its own listing) |
| `Repository.FindAll` | src/main/java/edu/icet/ecom/repository/ReservationRepository.java:14 | find-all lists exactly the stored rows, as many as the table has, no row twice; no order is promised |
| `Repository.FindByStatus` | src/main/java/edu/icet/ecom/repository/ReservationRepository.java:16 | a row is returned iff it is stored and its status equals the argument; the result lists no row twice |
| `Repository.FindByDate` | src/main/java/edu/icet/ecom/repository/ReservationRepository.java:18 | a row is returned iff it is stored and its date equals the argument; no row twice |
| `Repository.FindByDateAndTableNumber` | src/main/java/edu/icet/ecom/repository/ReservationRepository.java:20-21 | a row is returned iff it is stored and matches both the date and the table number; a null argument matches no row |
| `Repository.DoubleBookingIsStorable` | src/main/java/edu/icet/ecom/repository/ReservationRepository.java:20-21 | two distinct rows for the same table on the same date can both be in the table, and the date-and-table query then finds both |
| `Repository.FindByNameContainingIgnoreCase` | src/main/java/edu/icet/ecom/repository/ReservationRepository.java:23 | a row is returned iff it is stored, has a name, and the upper-cased fragment occurs somewhere in the upper-cased name |
| `Repository.ContainsIsSubstring` | src/main/java/edu/icet/ecom/repository/ReservationRepository.java:23 | the left-to-right scan used for the name query succeeds exactly when the fragment occurs at some position (a substring match, not a prefix match) |
| `Repository.NameContainsExamples` | src/main/java/edu/icet/ecom/repository/ReservationRepository.java:23 | the fragment "an" matches "Anna", "Dana" and "ANNA" but not "Bob" |
| `Service.Merge` | src/main/java/edu/icet/ecom/service/impl/ReservationServiceImpl.java:92-100 | a partial update never changes the id, since the patch's id is ignored |
| `Service.MergeEmptyPatch` | src/main/java/edu/icet/ecom/service/impl/ReservationServiceImpl.java:92-100 | a patch with no field set changes nothing; for every one of the eight patchable fields, the merged field is null iff both the stored and the patch field are null, so no patch can clear a field |
| `Service.MergeIdempotent` | src/main/java/edu/icet/ecom/service/impl/ReservationServiceImpl.java:92-100 | applying the same patch twice gives the same record as applying it once |
| `Service.MergeNotesOnly` | src/main/java/edu/icet/ecom/service/impl/ReservationServiceImpl.java:100 | a patch carrying only notes changes the notes and leaves every other field as it was |
| `Service.MergeWellFormed` | src/main/java/edu/icet/ecom/service/impl/ReservationServiceImpl.java:92-102 | a stored record stays storable after a merge iff the patch's notes, if any, fit the column; a merge never nulls a required column |
| `Service.ReservationServiceImpl.SaveReservation` | src/main/java/edu/icet/ecom/service/impl/ReservationServiceImpl.java:28-46 | succeeds iff the required fields are present and the notes fit; on success the saved record is the incoming one with status PENDING when absent (otherwise as given) and a never-issued id, and the table maps that id to it and nothing else changes; on failure the table is unchanged. The saved record also equals the no-argument record (status PENDING, declared at entity/ReservationEntity.java:40) overlaid with the incoming record's non-null fields, so the service's explicit default agrees with the field default |
| `Service.NotesLimitOnSave` | src/main/java/edu/icet/ecom/entity/ReservationEntity.java:42-43 | saving a reservation whose notes have 2000 characters succeeds and stores exactly it; with 2001 characters it fails with OperationFailed and nothing is stored |
| `Service.NotesLimitOnUpdate` | src/main/java/edu/icet/ecom/service/impl/ReservationServiceImpl.java:100-102 | a patch setting 2000 characters of notes on a stored reservation returns true and changes only its notes; with 2001 characters it fails with OperationFailed and the stored record is unchanged |
| `Service.DoubleBookingAccepted` | src/main/java/edu/icet/ecom/service/impl/ReservationServiceImpl.java:28-46 | two reservations for the same table on the same date are both saved, under different ids, and both are listed for that date: saving never consults the date-and-table query |
| `Service.ReservationServiceImpl.GetAllReservations` | src/main/java/edu/icet/ecom/service/impl/ReservationServiceImpl.java:50-55 | returns every stored record exactly once: same count as the table, membership iff stored |
| `Service.ReservationServiceImpl.SearchReservation` | src/main/java/edu/icet/ecom/service/impl/ReservationServiceImpl.java:64-78 | absent exactly when no record has that id; otherwise the record stored under it, which carries that id and satisfies the column constraints |
| `Service.ReservationServiceImpl.UpdateReservation` | src/main/java/edu/icet/ecom/service/impl/ReservationServiceImpl.java:81-110 | unknown id: returns false and the table is unchanged (nothing is created); known id: that one record becomes the merge of old record and patch and every other record is untouched, returning true; patch notes too long: refused and the table is unchanged |
| `Service.ReservationServiceImpl.DeleteReservationById` | src/main/java/edu/icet/ecom/service/impl/ReservationServiceImpl.java:113-127 | unknown id: fails with not-found and the table is unchanged; known id: exactly that key is removed |
| `Service.ReservationServiceImpl.UpdateStatus` | src/main/java/edu/icet/ecom/service/impl/ReservationServiceImpl.java:130-150 | unknown id: returns false and the table is unchanged; known id: only that record's status becomes the new status, whatever the old status was, and it returns true; a null status is refused and the table is unchanged |
| `Service.ReservationServiceImpl.GetReservationsByStatus` | src/main/java/edu/icet/ecom/service/impl/ReservationServiceImpl.java:154-164 | a record is returned iff it is stored with that status; no record twice |
| `Service.ReservationServiceImpl.GetReservationsByDate` | src/main/java/edu/icet/ecom/service/impl/ReservationServiceImpl.java:168-178 | a record is returned iff it is stored with that date; no record twice |
| `Service.ReservationServiceImpl.SearchReservationsByName` | src/main/java/edu/icet/ecom/service/impl/ReservationServiceImpl.java:182-192 | a record is returned iff it is stored and the fragment occurs in its name, ignoring case; no record twice |

`Service.ReservationLifecycle` is a client of the class. It saves a reservation without a status and sees it stored as PENDING. It then confirms it, patches its notes, deletes it and sees it gone. Finally it sees a second delete fail and a status update on the gone id return false. It uses only the contracts above. `Entity.NewReservation`, the no-argument record, appears in the save contract above.

## Left out

- The HTTP controller (routing, status codes, cross-origin settings) is not part of this model.
- The mapper between the wire record and the stored record is modelled as an identity copy of the fields.
- Listing order: the source promises no order for find-all or the derived queries. Internally the model lists rows in increasing id order, but no public contract of a query or of the service promises that order. They promise only which rows are listed, and that no row appears twice.
- `Service.ReservationServiceImpl.SaveReservation`: an id already present on the incoming record is ignored and a fresh one is always assigned. The store's behaviour for a pre-set id is outside the source and is not modelled.
- The identity column is a counter. It is not bounded by the 32-bit range of the Java `Integer` id, so wrap-around is not modelled. A failed insert does not consume an id.
- Store failures other than a broken column constraint (lost connection and the like) are not modelled. Neither are log output and exception message texts. A thrown failure is an error outcome: `NotFound` for a delete of an unknown id, `OperationFailed` for a refused write.
- Null arguments that the HTTP layer never passes are not modelled: the id, the incoming record, the patch, the filter status, the filter date and the name fragment. They are parameters of non-null types. There are two exceptions. The new status of a status update is optional, and a null one is refused. Both arguments of `Repository.FindByDateAndTableNumber` are optional too, and a null one matches no row.
- The transaction boundaries and concurrent requests are not modelled (last write wins at the store).
- Dates are compared only for equality, so calendar arithmetic is left out.
- Case-insensitive matching upper-cases ASCII letters only. Unicode case mapping is not modelled.
- Notes length is counted in Dafny characters, not in the database's own unit.
- The status enumeration's source file is not part of this model. Its members are taken to be PENDING, CONFIRMED, CANCELLED and COMPLETED.
- Name is required to be non-null only; the source does not require it to be non-empty, and the model follows the source. Likewise, a positive number of guests is not enforced.
