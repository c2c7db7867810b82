# M132_quads in Dafny

A Dafny model of the data core of M132_quads, an Android app for renting
quads. It stores three tables in a Room (SQLite) database:

- `quad`: keyed by its plate (`matricula`), with a type (`Monoplaza` or
  `Biplaza`), a price in cents and a description;
- `Reserva`: a booking, with an auto-generated id, the client's name and mobile,
  pick-up and return timestamps and a total price;
- `casco`: one row per (quad, booking) pair, holding the number of helmets.
  Its two foreign keys cascade on delete.

The model covers:

- **Entities and validators.** `Quad.validateMatricula/validatePrecio/validateTipo`
  and `Reserva.validateNombre/validateFecha/validateFechas/validatePrecio`,
  with their exact messages. Also the `TipoQuad` converters.
- **DAOs.** The three DAOs over a `Database.AppDatabase` object whose tables
  are maps keyed by primary key:
  - `INSERT OR IGNORE`, with the `Reserva` id taken from an AUTOINCREMENT
    counter;
  - `@Update` and `@Delete` by key, with the cascades;
  - the `ORDER BY CASE ...` list queries, specified by the SQLite ordering of
    their keys;
  - the `@Transaction` `updateCascosForReserva`, which deletes a booking's
    helmet rows and inserts the new ones. It rolls back when an insert
    violates a foreign key.
- **Repositories.**
  - `validateQuad` and `validateReserva`.
  - The sentinel results of `insert`, `update` and `delete`:
    - `-1` for a failed or timed-out wait, and for an invalid quad or booking
      on insert;
    - `0` for a validation failure on update.
  - The overlap check `checkOverlaps`: it stops at the first positive count
    and reports an overlap when the wait fails.
  - The fire-and-forget `saveReservaConCascos`.
- **UI state.**
  - The selection map of `CascoSelectionListAdapter` and the check box and
    spinner of each `CascoSelectionViewHolder` row.
  - The order and filter state of `ReservaViewModel`.
  - `CascoSelectionViewModel`.
  - The save paths of the three edit screens:
    - `CascoEdit.saveData`: builds the helmet rows and the `int` price total,
      then checks for overlap before saving;
    - `QuadEdit.handleSave`: runs its guards and converts euros to cents;
    - `ReservaEdit.saveReservaAndContinue`: runs its guards, checks the mobile
      number and decides where to navigate.

How Java and Android behaviour is represented:

- **Java values.**
  - `int` values are `JavaLang.Int32`, and `int` overflow is written out
    (`Wrap32`). Timestamps are `Int64`.
  - A Java `null` is `None`.
  - `String.trim`, `Integer.parseInt` and `String.valueOf(int)` are modelled on
    ASCII digits.
  - A Dafny `char` is one Unicode scalar value, while a Java string is
    UTF-16. The plate length check therefore counts UTF-16 units
    (`JavaLang.Utf16Length`), so a plate such as "12😀ABC" (six chars, seven
    units) passes the length check and gets the pattern message. The other
    text checks (emptiness, `trim`, the digit and letter patterns) give the
    same answer counted either way.
- **Waiting on the database executor.** `future.get` with a 15-second timeout
  becomes a parameter `Database.Wait`:
  - `Completed`: the job finished;
  - `Failed`: the job threw, and its write did not happen;
  - `GaveUp(writeLands)`: the wait timed out or was interrupted, and the write
    may still land later.
- **The unseen overlap query.** `countOverlappingReservas` is called by
  `CascoRepository.checkOverlaps` but is not declared in `CascoDao.java`. It
  is a parameter `CascoRepository.OverlapCount`.
  - The no-double-booking results assume one thing about it: it returns a
    positive count whenever another booking holds the quad over dates that
    meet the given range (`CascoRepository.CountFindsConflicts`).
- **Room and SQLite behaviour.**
  - Room turns on foreign-key enforcement for a database that declares foreign
    keys, so a helmet row whose quad or booking is missing makes the insert
    throw. `OR IGNORE` does not cover foreign-key failures.
  - A `Reserva` inserted with id 0 gets a fresh id: the AUTOINCREMENT counter
    plus one. No stored booking ever has id 0.
- **Sorting.** The list queries are ghost functions. Each is specified by its
  rows, its ordering and the absence of duplicates; ties keep no particular
  order.
- **The `HashMap` iteration order** in `CascoEdit.saveData` is a parameter
  `order`, a duplicate-free listing of the selection's keys. The results do
  not depend on it, except for the order of the built rows.

Two points where the program's own pieces do not line up, and what the
model does about each:

- `CascoSelectionViewModel.saveReservaConCascos`
  (ui/CascoSelectionViewModel.java:42-52) discards the result of the booking
  insert or update and always submits the helmet replacement afterwards. So
  the helmet rows are replaced even when the booking write was refused. The
  model does the same: `CascoSelectionViewModel.SaveReservaConCascos` replaces
  the rows whenever their quads and booking exist, whatever the booking write
  did.
- `ReservaEdit.saveReservaAndContinue` (ui/ReservaEdit.java:128) passes the
  two date texts to the `Reserva` constructor, whose parameters
  (database/Reserva.java:46-47) are `long` timestamps. The model uses the
  timestamps; an empty date field is `None`.

## Model

| member | source | states |
|---|---|---|
| `QuadEntity.ValidateMatricula` | M132_quads/app/src/main/java/es/unizar/eina/M132_quads/database/Quad.java:97-108 | a plate is accepted iff it is non-null, 4 ASCII digits then 3 ASCII letters; otherwise the message of the first failing check: null, then a length other than 7 UTF-16 units, then pattern |
| `QuadEntity.ValidatePrecio` | M132_quads/app/src/main/java/es/unizar/eina/M132_quads/database/Quad.java:116-121 | a price is accepted iff it is > 0, else the fixed message |
| `QuadEntity.ValidateTipo` | M132_quads/app/src/main/java/es/unizar/eina/M132_quads/database/Quad.java:129-134 | a type is accepted iff it is non-null, else the fixed message |
| `QuadEntity.ValidateMatriculaExamples` | M132_quads/app/src/main/java/es/unizar/eina/M132_quads/database/Quad.java:97-108 | "1234ABC" and "1234abc" are accepted |
| `QuadEntity.ValidateMatriculaLengthExamples` | M132_quads/app/src/main/java/es/unizar/eina/M132_quads/database/Quad.java:101-103 | "1111AB", "1111ABCD" and "" get the length message |
| `QuadEntity.ValidateMatriculaPatternExamples` | M132_quads/app/src/main/java/es/unizar/eina/M132_quads/database/Quad.java:104-106 | "ABC1234", and "12😀ABC" (six chars, seven UTF-16 units), get the pattern message |
| `QuadEntity.PlateLength` | M132_quads/app/src/main/java/es/unizar/eina/M132_quads/database/Quad.java:101-105 | a plate that matches the pattern is 7 UTF-16 units long, so the pattern check alone decides acceptance |
| `JavaLang.Utf16LengthOfBmp` | M132_quads/app/src/main/java/es/unizar/eina/M132_quads/database/Quad.java:101 | `length()` of a string whose chars are all in the Basic Multilingual Plane is its number of chars |
| `ReservaEntity.SetIdReserva` | M132_quads/app/src/main/java/es/unizar/eina/M132_quads/database/Reserva.java:62-64 | sets the id and leaves every other field as it was |
| `ReservaEntity.SetNombreCliente` | M132_quads/app/src/main/java/es/unizar/eina/M132_quads/database/Reserva.java:72-74 | sets the name and leaves every other field as it was |
| `ReservaEntity.SetNumeroMovil` | M132_quads/app/src/main/java/es/unizar/eina/M132_quads/database/Reserva.java:82-84 | sets the mobile and leaves every other field as it was |
| `ReservaEntity.SetFechaRecogida` | M132_quads/app/src/main/java/es/unizar/eina/M132_quads/database/Reserva.java:92-94 | sets the pick-up date and leaves every other field as it was |
| `ReservaEntity.SetFechaDevolucion` | M132_quads/app/src/main/java/es/unizar/eina/M132_quads/database/Reserva.java:102-104 | sets the return date and leaves every other field as it was |
| `ReservaEntity.SetPrecioTotal` | M132_quads/app/src/main/java/es/unizar/eina/M132_quads/database/Reserva.java:112-114 | sets the total price and leaves every other field as it was |
| `ReservaEntity.ValidateNombre` | M132_quads/app/src/main/java/es/unizar/eina/M132_quads/database/Reserva.java:116-121 | a name is accepted iff it is non-null and has a char above ' ' (`trim()` leaves it non-empty) |
| `ReservaEntity.ValidateFecha` | M132_quads/app/src/main/java/es/unizar/eina/M132_quads/database/Reserva.java:125-130 | a date is accepted iff it is > 0 |
| `ReservaEntity.ValidateFechas` | M132_quads/app/src/main/java/es/unizar/eina/M132_quads/database/Reserva.java:132-137 | a pair of dates is accepted iff pick-up <= return |
| `ReservaEntity.ValidatePrecio` | M132_quads/app/src/main/java/es/unizar/eina/M132_quads/database/Reserva.java:139-144 | a total is accepted iff it is >= 0 |
| `CascoEntity.WithoutQuadSpec` | M132_quads/app/src/main/java/es/unizar/eina/M132_quads/database/Casco.java:17-19 | the delete cascade from `quad` removes exactly the rows of that plate and keeps the table keyed |
| `CascoEntity.WithoutReservaSpec` | M132_quads/app/src/main/java/es/unizar/eina/M132_quads/database/Casco.java:20-22 | the delete cascade from `Reserva` removes exactly the rows of that booking and keeps the table keyed |
| `Converters.FromString` | M132_quads/app/src/main/java/es/unizar/eina/M132_quads/database/Converters.java:13-16 | null gives null; a type name gives the constant with that name |
| `Converters.TipoQuadToString` | M132_quads/app/src/main/java/es/unizar/eina/M132_quads/database/Converters.java:19-22 | null gives null; a constant gives a type name |
| `Converters.FromStringOfToString` | M132_quads/app/src/main/java/es/unizar/eina/M132_quads/database/Converters.java:13-22 | storing a type and reading it back gives the same type, null included |
| `Converters.ToStringOfFromString` | M132_quads/app/src/main/java/es/unizar/eina/M132_quads/database/Converters.java:13-22 | reading a stored name and storing it again gives the same text |
| `Converters.TipoNameInjective` | M132_quads/app/src/main/java/es/unizar/eina/M132_quads/database/Converters.java:19-22 | two types are stored as the same text iff they are the same type |
| `Database.AppDatabase.constructor` | M132_quads/app/src/main/java/es/unizar/eina/M132_quads/database/AppRoomDatabase.java:16-19 | a new database has three empty tables and a zero id counter, and satisfies the table invariant |
| `QuadDao.Insert` | M132_quads/app/src/main/java/es/unizar/eina/M132_quads/database/QuadDao.java:17-18 | `OR IGNORE`: a quad with a plate and a type and a free plate is added with a positive rowid; otherwise -1 and no change |
| `QuadDao.Update` | M132_quads/app/src/main/java/es/unizar/eina/M132_quads/database/QuadDao.java:20-21 | 0 and no change for an unknown plate; an existing row with a null type throws (NOT NULL); else 1 and the row replaced |
| `QuadDao.Delete` | M132_quads/app/src/main/java/es/unizar/eina/M132_quads/database/QuadDao.java:23-24 | 1, the row removed and its helmet rows cascaded away; 0 and no change for an unknown plate |
| `QuadDao.GetOrderedQuads` | M132_quads/app/src/main/java/es/unizar/eina/M132_quads/database/QuadDao.java:36-40 | every stored quad exactly once, ascending by the CASE key that `orderBy` selects |
| `QuadDao.GetQuadByMatricula` | M132_quads/app/src/main/java/es/unizar/eina/M132_quads/database/QuadDao.java:49-50 | the row with that plate, or null iff none is stored |
| `QuadDao.OrderedByPrecio` | M132_quads/app/src/main/java/es/unizar/eina/M132_quads/database/QuadDao.java:39 | ordering by "precio" lists prices in ascending order |
| `QuadDao.OrderedByMatricula` | M132_quads/app/src/main/java/es/unizar/eina/M132_quads/database/QuadDao.java:37 | ordering by "matricula" lists plates in ascending text order |
| `QuadDao.OrderedByTipo` | M132_quads/app/src/main/java/es/unizar/eina/M132_quads/database/QuadDao.java:38 | ordering by "tipo" (stored as text) lists every Biplaza before every Monoplaza |
| `QuadDao.InsertThenLookup` | M132_quads/app/src/main/java/es/unizar/eina/M132_quads/database/QuadDao.java:49-50 | after an insert that is not ignored, the lookup by that plate finds the inserted quad |
| `ReservaDao.Insert` | M132_quads/app/src/main/java/es/unizar/eina/M132_quads/database/ReservaDao.java:17-18 | -1 and no change when ignored (null name, used id, counter exhausted); else id 0 takes counter+1, the row is added under its id and that id is returned |
| `ReservaDao.Update` | M132_quads/app/src/main/java/es/unizar/eina/M132_quads/database/ReservaDao.java:20-21 | 0 for an unknown id; a null name on an existing row throws; else 1 and the row replaced |
| `ReservaDao.Delete` | M132_quads/app/src/main/java/es/unizar/eina/M132_quads/database/ReservaDao.java:23-24 | 1, the row removed and its helmet rows cascaded away; 0 and no change for an unknown id |
| `ReservaDao.GetOrderedReservas` | M132_quads/app/src/main/java/es/unizar/eina/M132_quads/database/ReservaDao.java:39-50 | exactly the stored bookings that pass the filter at `currentTimestamp`, each once, ascending by the selected key |
| `ReservaDao.GetReservaById` | M132_quads/app/src/main/java/es/unizar/eina/M132_quads/database/ReservaDao.java:59-60 | the booking with that id, or null iff none is stored |
| `ReservaDao.TodasListsAll` | M132_quads/app/src/main/java/es/unizar/eina/M132_quads/database/ReservaDao.java:40 | the filter "Todas" lists every booking |
| `ReservaDao.UnknownFilterListsNothing` | M132_quads/app/src/main/java/es/unizar/eina/M132_quads/database/ReservaDao.java:39-44 | a filter name other than the four lists nothing |
| `ReservaDao.FiltersPartition` | M132_quads/app/src/main/java/es/unizar/eina/M132_quads/database/ReservaDao.java:41-44 | a booking with pick-up <= return is in exactly one of Previstas, Vigentes, Caducadas at any instant |
| `ReservaDao.OrderedByFechaRecogida` | M132_quads/app/src/main/java/es/unizar/eina/M132_quads/database/ReservaDao.java:48 | ordering by "fechaRecogida" lists pick-up dates in ascending order |
| `ReservaDao.OrderedByNumeroMovil` | M132_quads/app/src/main/java/es/unizar/eina/M132_quads/database/ReservaDao.java:47 | ordering by "numeroMovil" lists mobiles in ascending order |
| `CascoDao.Insert` | M132_quads/app/src/main/java/es/unizar/eina/M132_quads/database/CascoDao.java:18-19 | a used key gives -1 (ignored); a missing quad or booking throws with no change; else a positive rowid and the row added |
| `CascoDao.Update` | M132_quads/app/src/main/java/es/unizar/eina/M132_quads/database/CascoDao.java:21-22 | 1 and the row replaced for a stored key, else 0 and no change |
| `CascoDao.Delete` | M132_quads/app/src/main/java/es/unizar/eina/M132_quads/database/CascoDao.java:24-25 | 1 and the row removed for a stored key, else 0 and no change |
| `CascoDao.DeleteCascosByReservaId` | M132_quads/app/src/main/java/es/unizar/eina/M132_quads/database/CascoDao.java:48-49 | removes exactly the rows of that booking |
| `CascoDao.GetOrderedCascos` | M132_quads/app/src/main/java/es/unizar/eina/M132_quads/database/CascoDao.java:30-31 | every helmet row once, ascending by booking id |
| `CascoDao.GetCascosForReserva` | M132_quads/app/src/main/java/es/unizar/eina/M132_quads/database/CascoDao.java:41-42 | exactly the helmet rows of that booking |
| `CascoDao.UpdateCascosForReserva` | M132_quads/app/src/main/java/es/unizar/eina/M132_quads/database/CascoDao.java:60-69 | the transaction commits iff every new row's quad and booking exist; when it commits the booking's rows are replaced by the new ones, otherwise the table is as before |
| `CascoDao.InsertAllClosedForm` | M132_quads/app/src/main/java/es/unizar/eina/M132_quads/database/CascoDao.java:66-68 | inserting a list one by one with OR IGNORE adds the first row of each key to the table, and keeps existing rows |
| `CascoDao.FirstOfSpec` | M132_quads/app/src/main/java/es/unizar/eina/M132_quads/database/CascoDao.java:66-68 | a list inserted into an empty table holds one row per key of the list, the earliest with that key |
| `CascoDao.ReplaceCascosSplit` | M132_quads/app/src/main/java/es/unizar/eina/M132_quads/database/CascoDao.java:60-69 | when every new row carries the booking's id, the replacement is the table without that booking plus the new rows |
| `CascoDao.ReplaceCascosIdempotent` | M132_quads/app/src/main/java/es/unizar/eina/M132_quads/database/CascoDao.java:60-69 | replacing a booking's rows twice with the same list is the same as once |
| `CascoDao.CascosForReservaAfterReplace` | M132_quads/app/src/main/java/es/unizar/eina/M132_quads/database/CascoDao.java:60-69 | after the replacement with distinct plates, the query for that booking returns exactly the new rows |
| `CascoDao.ReplaceCascosKeepsOthers` | M132_quads/app/src/main/java/es/unizar/eina/M132_quads/database/CascoDao.java:60-69 | the replacement leaves every other booking's rows unchanged |
| `QuadRepository.ValidateQuad` | M132_quads/app/src/main/java/es/unizar/eina/M132_quads/database/QuadRepository.java:136-150 | a quad is accepted iff it is non-null with a valid plate, a positive price and a type |
| `QuadRepository.ValidQuadInsertIgnoredIffTaken` | M132_quads/app/src/main/java/es/unizar/eina/M132_quads/database/QuadRepository.java:59-78 | for a validated quad the DAO insert is ignored iff the plate is already stored |
| `QuadRepository.Insert` | M132_quads/app/src/main/java/es/unizar/eina/M132_quads/database/QuadRepository.java:59-78 | the quad is added iff it is valid, the job runs and the plate is free; the result is a positive rowid iff also the wait completed, else -1 |
| `QuadRepository.Update` | M132_quads/app/src/main/java/es/unizar/eina/M132_quads/database/QuadRepository.java:92-104 | 0 without a write for an invalid quad; -1 when the wait fails; else the DAO count; the row is replaced iff valid, stored and the job runs |
| `QuadRepository.Delete` | M132_quads/app/src/main/java/es/unizar/eina/M132_quads/database/QuadRepository.java:115-128 | 0 without a write for a null quad or plate; else -1 or the DAO count, with the row and its helmet rows removed when the job runs |
| `ReservaRepository.ValidateReserva` | M132_quads/app/src/main/java/es/unizar/eina/M132_quads/database/ReservaRepository.java:118-132 | a booking is accepted iff it is non-null, its name has a visible char, 0 < pick-up <= return and the total is >= 0 |
| `ReservaRepository.ValidateIgnoresMovil` | M132_quads/app/src/main/java/es/unizar/eina/M132_quads/database/ReservaRepository.java:118-132 | the mobile number plays no part in validation |
| `ReservaRepository.Insert` | M132_quads/app/src/main/java/es/unizar/eina/M132_quads/database/ReservaRepository.java:64-84 | -1 and no write when invalid or the job does not run; otherwise the DAO insert's effect, returning its id only if the wait completed |
| `ReservaRepository.Update` | M132_quads/app/src/main/java/es/unizar/eina/M132_quads/database/ReservaRepository.java:104-116 | 0 without a write when invalid; -1 when the wait fails; else 1 or 0; the row is replaced iff valid, stored and the job runs |
| `ReservaRepository.Delete` | M132_quads/app/src/main/java/es/unizar/eina/M132_quads/database/ReservaRepository.java:147-156 | no validation: a null booking makes the job throw (-1); else the row and its helmet rows go when the job runs |
| `CascoRepository.Insert` | M132_quads/app/src/main/java/es/unizar/eina/M132_quads/database/CascoRepository.java:61-78 | no validation; the row is added iff non-null, its key free, its parents present and the job runs; the rowid only when the wait completed |
| `CascoRepository.Update` | M132_quads/app/src/main/java/es/unizar/eina/M132_quads/database/CascoRepository.java:91-100 | -1 for a null row or a failed wait, else 1 or 0; the row is replaced iff stored and the job runs |
| `CascoRepository.Delete` | M132_quads/app/src/main/java/es/unizar/eina/M132_quads/database/CascoRepository.java:112-121 | -1 for a null row or a failed wait, else 1 or 0; the row is removed iff stored and the job runs |
| `CascoRepository.SaveReservaConCascos` | M132_quads/app/src/main/java/es/unizar/eina/M132_quads/database/CascoRepository.java:147-153 | runs the replacement transaction for the booking's id: replaced when every parent exists, else unchanged |
| `CascoRepository.CheckOverlaps` | M132_quads/app/src/main/java/es/unizar/eina/M132_quads/database/CascoRepository.java:170-189 | true iff the wait fails or some selected plate has a positive count; the queries stop at the first positive count |
| `CascoRepository.EmptySelectionNoOverlap` | M132_quads/app/src/main/java/es/unizar/eina/M132_quads/database/CascoRepository.java:173-180 | an empty selection never overlaps |
| `CascoRepository.ReplaceKeepsNoDoubleBooking` | M132_quads/app/src/main/java/es/unizar/eina/M132_quads/database/CascoRepository.java:170-189 | if the check passed for a booking's own dates, replacing its rows keeps every quad free of two bookings with meeting dates |
| `CascoSelectionListAdapter.SelectionOfSpec` | M132_quads/app/src/main/java/es/unizar/eina/M132_quads/ui/CascoSelectionListAdapter.java:75-81 | putting a list of rows into the map gives one key per plate, holding the helmet count of the plate's last row |
| `CascoSelectionListAdapter.CascoSelectionListAdapter.constructor` | M132_quads/app/src/main/java/es/unizar/eina/M132_quads/ui/CascoSelectionListAdapter.java:29-34 | starts with no quads, an empty selection and no listener |
| `CascoSelectionListAdapter.CascoSelectionListAdapter.SetAllQuads` | M132_quads/app/src/main/java/es/unizar/eina/M132_quads/ui/CascoSelectionListAdapter.java:65-72 | the list is replaced and the item count is its length |
| `CascoSelectionListAdapter.CascoSelectionListAdapter.SetInitialSelection` | M132_quads/app/src/main/java/es/unizar/eina/M132_quads/ui/CascoSelectionListAdapter.java:75-81 | the selection becomes the old one overridden by each row's plate and count, and keeps every old key |
| `CascoSelectionListAdapter.CascoSelectionListAdapter.SetOnSelectionChangedListener` | M132_quads/app/src/main/java/es/unizar/eina/M132_quads/ui/CascoSelectionListAdapter.java:108-110 | records whether a listener is set |
| `CascoSelectionListAdapter.CascoSelectionListAdapter.NotifyListener` | M132_quads/app/src/main/java/es/unizar/eina/M132_quads/ui/CascoSelectionListAdapter.java:115-119 | the listener is called once iff one is set |
| `CascoSelectionListAdapter.CascoSelectionListAdapter.SetSelectionState` | M132_quads/app/src/main/java/es/unizar/eina/M132_quads/ui/CascoSelectionListAdapter.java:121-127 | the selection becomes a copy of the given map, or empty for null |
| `CascoSelectionViewHolder.HelmetOptions` | M132_quads/app/src/main/java/es/unizar/eina/M132_quads/ui/CascoSelectionViewHolder.java:41-46 | the spinner offers 0..seats helmets for a typed quad, 0..2 for a null type |
| `CascoSelectionViewHolder.SpinnerPosition` | M132_quads/app/src/main/java/es/unizar/eina/M132_quads/ui/CascoSelectionViewHolder.java:73-75 | the stored count clamped to a valid spinner position |
| `CascoSelectionViewHolder.OptionsWithinSeats` | M132_quads/app/src/main/java/es/unizar/eina/M132_quads/ui/CascoSelectionViewHolder.java:41-46 | no option exceeds the quad's seats |
| `CascoSelectionViewHolder.CascoSelectionViewHolder.constructor` | M132_quads/app/src/main/java/es/unizar/eina/M132_quads/ui/CascoSelectionViewHolder.java:25-30 | a new row is unbound, unchecked and has its spinner disabled |
| `CascoSelectionViewHolder.CascoSelectionViewHolder.Bind` | M132_quads/app/src/main/java/es/unizar/eina/M132_quads/ui/CascoSelectionViewHolder.java:32-75 | shows the plate and the options; checked and spinner enabled iff the plate is selected; the spinner shows the stored count clamped |
| `CascoSelectionViewHolder.CascoSelectionViewHolder.OnCheckedChanged` | M132_quads/app/src/main/java/es/unizar/eina/M132_quads/ui/CascoSelectionViewHolder.java:80-101 | checking stores the spinner's value for the plate; unchecking removes the plate and resets the spinner; the listener is notified |
| `CascoSelectionViewHolder.CascoSelectionViewHolder.OnItemSelected` | M132_quads/app/src/main/java/es/unizar/eina/M132_quads/ui/CascoSelectionViewHolder.java:104-121 | a checked row stores the chosen count and notifies; an unchecked row changes no selection |
| `CascoSelectionViewModel.SaveReservaConCascos` | M132_quads/app/src/main/java/es/unizar/eina/M132_quads/ui/CascoSelectionViewModel.java:42-52 | id 0 inserts and any other id updates, with the results ignored; then the booking's helmet rows are replaced whatever the booking write did |
| `CascoSelectionViewModel.CheckOverlaps` | M132_quads/app/src/main/java/es/unizar/eina/M132_quads/ui/CascoSelectionViewModel.java:73-76 | overlap iff the wait fails or a selected quad has a positive count for the booking's own dates, its own id being the one excluded |
| `ReservaViewModel.ReservaViewModel.constructor` | M132_quads/app/src/main/java/es/unizar/eina/M132_quads/ui/ReservaViewModel.java:21-33 | the list starts ordered by name with the filter "Todas" |
| `ReservaViewModel.ReservaViewModel.SetOrderBy` | M132_quads/app/src/main/java/es/unizar/eina/M132_quads/ui/ReservaViewModel.java:61-63 | changes the order and keeps the filter |
| `ReservaViewModel.ReservaViewModel.SetFilter` | M132_quads/app/src/main/java/es/unizar/eina/M132_quads/ui/ReservaViewModel.java:65-67 | changes the filter and keeps the order |
| `ReservaViewModel.ReservaViewModel.AllReservas` | M132_quads/app/src/main/java/es/unizar/eina/M132_quads/ui/ReservaViewModel.java:53-58 | the list shown is the query for the current order and filter |
| `ReservaViewModel.ReservaViewModel.Insert` | M132_quads/app/src/main/java/es/unizar/eina/M132_quads/ui/ReservaViewModel.java:80-82 | returns the repository's id or -1, with its effect |
| `ReservaViewModel.ReservaViewModel.Update` | M132_quads/app/src/main/java/es/unizar/eina/M132_quads/ui/ReservaViewModel.java:84-86 | the repository's update, result discarded |
| `ReservaViewModel.ReservaViewModel.Delete` | M132_quads/app/src/main/java/es/unizar/eina/M132_quads/ui/ReservaViewModel.java:88-90 | the repository's delete, result discarded |
| `CascoEdit.FirstPriceAt` | M132_quads/app/src/main/java/es/unizar/eina/M132_quads/ui/CascoEdit.java:200-205 | a selected plate adds the price of the first quad in the list with that plate |
| `CascoEdit.FirstPriceAbsent` | M132_quads/app/src/main/java/es/unizar/eina/M132_quads/ui/CascoEdit.java:200-205 | a selected plate no quad has adds 0 |
| `CascoEdit.PriceSumIsSelectedTotal` | M132_quads/app/src/main/java/es/unizar/eina/M132_quads/ui/CascoEdit.java:196-206 | the total does not depend on the map's iteration order: summing along any duplicate-free listing gives the sum over the set of plates |
| `CascoEdit.ListingLength` | M132_quads/app/src/main/java/es/unizar/eina/M132_quads/ui/CascoEdit.java:196-197 | one row per key: a duplicate-free listing is as long as the set it lists |
| `CascoEdit.RunningTotalStep` | M132_quads/app/src/main/java/es/unizar/eina/M132_quads/ui/CascoEdit.java:202 | adding to the `int` total keeps it the wrapped true sum |
| `CascoEdit.SelectionCascos` | M132_quads/app/src/main/java/es/unizar/eina/M132_quads/ui/CascoEdit.java:196-197 | one row per key in iteration order, each carrying the key, its helmet count and the screen's booking id |
| `CascoEdit.CollectSelection` | M132_quads/app/src/main/java/es/unizar/eina/M132_quads/ui/CascoEdit.java:192-206 | builds one row per selection entry and the `int` total of the selected quads' first prices; helmet counts and iteration order do not affect the total |
| `CascoEdit.NoDoubleBookingSameDates` | M132_quads/app/src/main/java/es/unizar/eina/M132_quads/ui/CascoEdit.java:216 | changing bookings' prices (not their dates) cannot create a double booking |
| `CascoEdit.SaveKeepsNoDoubleBooking` | M132_quads/app/src/main/java/es/unizar/eina/M132_quads/ui/CascoEdit.java:209-219 | saving a booking that passed the overlap check, with its new rows, keeps the table free of double booking whichever writes take effect |
| `CascoEdit.CascoEdit.constructor` | M132_quads/app/src/main/java/es/unizar/eina/M132_quads/ui/CascoEdit.java:109-116 | the screen is bound to one booking id, and nothing is loaded yet |
| `CascoEdit.CascoEdit.OnReservaLoaded` | M132_quads/app/src/main/java/es/unizar/eina/M132_quads/ui/CascoEdit.java:72-74 | keeps the loaded booking (null included) |
| `CascoEdit.CascoEdit.OnQuadsLoaded` | M132_quads/app/src/main/java/es/unizar/eina/M132_quads/ui/CascoEdit.java:142 | keeps the full quad list |
| `CascoEdit.CascoEdit.SaveData` | M132_quads/app/src/main/java/es/unizar/eina/M132_quads/ui/CascoEdit.java:185-227 | nothing without a loaded booking; nothing when the overlap check objects; else the loaded booking gets the total and is saved with its rows, and a table without double booking stays so |
| `QuadEdit.CentsAsWritten` | M132_quads/app/src/main/java/es/unizar/eina/M132_quads/ui/QuadEdit.java:215-224 | `precio * 100` in `int`: exactly 100 times the euros while that fits |
| `QuadEdit.CentsOverflowAccepted` | M132_quads/app/src/main/java/es/unizar/eina/M132_quads/ui/QuadEdit.java:215-221 | 42949673 euros wraps to 4 cents, which the price check accepts |
| `QuadEdit.CentsChecked` | M132_quads/app/src/main/java/es/unizar/eina/M132_quads/ui/QuadEdit.java:215-224 | the conversion as intended: 100 × euros when that fits in an `int`, else no value; positive iff the euros are |
| `QuadEdit.CentsAgree` | M132_quads/app/src/main/java/es/unizar/eina/M132_quads/ui/QuadEdit.java:215-224 | wherever the intended conversion has a value, the written one gives the same |
| `QuadEdit.Decide` | M132_quads/app/src/main/java/es/unizar/eina/M132_quads/ui/QuadEdit.java:164-224 | a quad is written iff every guard passes, in order: both texts non-empty, price parses, a type label is checked and is a type name, plate valid, cents > 0; the message names the first failing guard; the quad has the original plate in edit mode |
| `QuadEdit.HandleSave` | M132_quads/app/src/main/java/es/unizar/eina/M132_quads/ui/QuadEdit.java:164-240 | a failing guard leaves the table unchanged and the screen open; otherwise update (edit mode) or insert (create mode) with the repository's effect, and the screen finishes either way |
| `QuadEdit.EditThenSave` | M132_quads/app/src/main/java/es/unizar/eina/M132_quads/ui/QuadEdit.java:104-135 | opening a stored quad and saving it unchanged writes it back with its price cut to whole euros; a price under one euro is refused |
| `ReservaEdit.MobileParses` | M132_quads/app/src/main/java/es/unizar/eina/M132_quads/ui/ReservaEdit.java:111-116 | every mobile that matches `^[67][0-9]{8}$` parses without overflow, between 600000000 and 799999999, its first digit giving the leading value |
| `ReservaEdit.MobileValue` | M132_quads/app/src/main/java/es/unizar/eina/M132_quads/ui/ReservaEdit.java:116 | the parsed mobile of an accepted text |
| `ReservaEdit.MobileDigits` | M132_quads/app/src/main/java/es/unizar/eina/M132_quads/ui/ReservaEdit.java:79 | the stored mobile is shown again exactly as typed |
| `ReservaEdit.FormReserva` | M132_quads/app/src/main/java/es/unizar/eina/M132_quads/ui/ReservaEdit.java:126-128 | the booking is built from the form, with the given id and the kept price |
| `ReservaEdit.ReservaEdit.constructor` | M132_quads/app/src/main/java/es/unizar/eina/M132_quads/ui/ReservaEdit.java:69-89 | edit mode iff an id was passed; the kept price starts at 0 |
| `ReservaEdit.ReservaEdit.OnReservaLoaded` | M132_quads/app/src/main/java/es/unizar/eina/M132_quads/ui/ReservaEdit.java:76-84 | a loaded booking's price is kept; a null booking changes nothing |
| `ReservaEdit.ReservaEdit.SaveReservaAndContinue` | M132_quads/app/src/main/java/es/unizar/eina/M132_quads/ui/ReservaEdit.java:100-160 | each guard that fails stops with its message and no write: name or mobile empty, mobile pattern, dates; then insert (new) or update (edit); continues with the new id unless the insert gave -1, or with the edited id whatever the update did; after a create the id reaches the row just written |

## Left out

- The seed data of `AppRoomDatabase` and the `deleteAll` queries: the
  constructor of `Database.AppDatabase` starts from empty tables.
- `LiveData`, observers and threads:
  - A query is a function of the tables at the moment it is asked.
  - The order in which background writes land is not modelled. A write that
    lands after a timed-out wait is applied at once.
- `CascoRepository.SaveReservaConCascos`: the transaction runs on the write
  executor through `execute`, with no try/catch (CascoRepository.java:150-152).
  The model applies it at once. When a new row's quad or booking is missing,
  the model keeps only the rollback and leaves the table as it was. In the
  program the exception then reaches the pool thread's uncaught-exception
  handler, which on Android ends the app process. That crash is not modelled.
- `CascoSelectionViewModel.SaveReservaConCascos` and `CascoEdit.CascoEdit.SaveData`:
  both reach that transaction, so a foreign-key failure is a silent rollback
  there too, not the app crash the program has.
- The body of `countOverlappingReservas`. It is not in `CascoDao.java`, so it
  is a parameter, and the no-double-booking lemmas assume
  `CascoRepository.CountFindsConflicts`.
- Rowids of `quad` and `casco` rows: only their sign is modelled. `Reserva`
  ids come from the AUTOINCREMENT counter.
- `ReservaDao.Insert`: once the AUTOINCREMENT counter has reached
  `Integer.MAX_VALUE`, SQLite (64-bit rowids) writes the booking under id
  2147483648, and `insert` returns that `long` (ReservaDao.java:18,
  ReservaRepository.java:64). The model's ids are the entity's `int` field,
  which cannot hold that id, so it treats this insert as ignored: -1 and no
  row.
- `ReservaEdit.ReservaEdit.SaveReservaAndContinue`: in that same case the
  program casts the id to `int` (ReservaEdit.java:147) and opens the helmet
  screen for booking -2147483648, which finds nothing. The model stays on the
  form with the save-error message.
- `CascoSelectionListAdapter.CascoSelectionListAdapter.SetSelectionState`:
  passing the adapter's own map clears it before copying. This aliasing is not
  modelled (the method has no callers).
- The floating-point price display (`updateTotalPrice` and the detail
  screens), SMS sending, navigation intents beyond their target and id, and
  toasts beyond which message is chosen.
- `QuadViewModel` and `CascoViewModel`: they only forward to the
  repositories. `QuadEdit.HandleSave` calls the repository directly.
- `Integer.parseInt` on non-ASCII digits, and `equalsIgnoreCase` on non-ASCII
  letters: only ASCII is modelled.
- The texts of the two type radio buttons are not available (layouts are not
  part of this model). `QuadEdit.QuadForm.tipo` is the checked label, and
  `QuadEdit.EditThenSave` assumes the labels are the type names.
- `ReservaEdit`: the string dates and the date-picker formatting. Date fields
  are timestamps, or `None` while empty.
- `CascoEdit.CascoEdit.SaveData`: a quad with a null plate in the list would
  throw in the price loop. The model requires every listed quad to have a
  plate, since it is a primary key.

## Findings

| source | as written | input that shows it | evidently intended | confidence | as-written member | corrected member |
|---|---|---|---|---|---|---|
| M132_quads/app/src/main/java/es/unizar/eina/M132_quads/ui/QuadEdit.java:215-224 | the price in cents is `precio * 100` in 32-bit `int`, then checked with `validatePrecio` | 42949673 euros: 4294967300 wraps to 4, which is > 0, so the quad is saved at 4 cents | store 100 × the euros, and reject a price whose cents do not fit in an `int` | not executed | `QuadEdit.CentsOverflowAccepted` | `QuadEdit.CentsChecked` |

`QuadEdit.HandleSave` keeps the conversion as written, because it models the
screen as it behaves. `QuadEdit.CentsAgree` shows that the two conversions
agree on every price that does not overflow.
