/**
 * `CascoRepository`: helmet-row writes through the write executor, the
 * fire-and-forget replacement of a booking's helmet rows, and the overlap
 * check that gates a save.
 *
 * The check calls `CascoDao.countOverlappingReservas(matricula, excludedId,
 * from, to)`, whose query is not part of this model: it is the parameter
 * `count`. The no-double-booking result below holds under the stated
 * assumption `CountFindsConflicts` about it.
 */
module CascoRepository {
  import opened JavaLang
  import opened QuadEntity
  import opened ReservaEntity
  import opened CascoEntity
  import opened Database
  import CascoDao

  /** `insert`: the DAO result, or -1 for a null row, a thrown statement or a failed wait. */
  method Insert(db: AppDatabase, casco: Option<Casco>, w: Wait) returns (rowId: int)
    requires db.Valid()
    modifies db`cascos, db`lastRowId
    ensures db.Valid()
    ensures db.cascos == if casco.Some? && TaskRuns(w) && Key(casco.value) !in old(db.cascos)
                            && ParentsExist(db.quads, db.reservas, casco.value)
                         then old(db.cascos)[Key(casco.value) := casco.value]
                         else old(db.cascos)
    ensures rowId != -1 <==> casco.Some? && w.Completed? && Key(casco.value) !in old(db.cascos)
                             && ParentsExist(db.quads, db.reservas, casco.value)
    ensures rowId != -1 ==> rowId > 0
  {
    if casco.None? || !TaskRuns(w) {
      return -1;
    }
    var r := CascoDao.Insert(db, casco.value);
    rowId := if w.Completed? && r.Returned? then r.value else -1;
  }

  /** `update`: the DAO count (1 or 0), or -1 for a null row or a failed wait. */
  method Update(db: AppDatabase, casco: Option<Casco>, w: Wait) returns (count: int)
    requires db.Valid()
    modifies db`cascos
    ensures db.Valid()
    ensures db.cascos == if casco.Some? && TaskRuns(w) && Key(casco.value) in old(db.cascos)
                         then old(db.cascos)[Key(casco.value) := casco.value]
                         else old(db.cascos)
    ensures count == if casco.None? || !w.Completed? then -1
                     else if Key(casco.value) in old(db.cascos) then 1 else 0
  {
    if casco.None? || !TaskRuns(w) {
      return -1;
    }
    var r := CascoDao.Update(db, casco.value);
    count := if w.Completed? then r else -1;
  }

  /** `delete`: the DAO count (1 or 0), or -1 for a null row or a failed wait. */
  method Delete(db: AppDatabase, casco: Option<Casco>, w: Wait) returns (count: int)
    requires db.Valid()
    modifies db`cascos
    ensures db.Valid()
    ensures db.cascos == if casco.Some? && TaskRuns(w) && Key(casco.value) in old(db.cascos)
                         then old(db.cascos) - {Key(casco.value)}
                         else old(db.cascos)
    ensures count == if casco.None? || !w.Completed? then -1
                     else if Key(casco.value) in old(db.cascos) then 1 else 0
  {
    if casco.None? || !TaskRuns(w) {
      return -1;
    }
    var r := CascoDao.Delete(db, casco.value);
    count := if w.Completed? then r else -1;
  }

  /**
   * `saveReservaConCascos`: hands `updateCascosForReserva(reserva.idReserva,
   * nuevosCascos)` to the executor without waiting. The model runs it to
   * its end: it commits, or rolls back when a new row lacks a parent.
   */
  method SaveReservaConCascos(db: AppDatabase, reserva: Reserva, nuevosCascos: seq<Casco>)
    requires db.Valid()
    modifies db`cascos, db`lastRowId
    ensures db.Valid()
    ensures db.cascos == if CascoDao.AllParentsExist(db.quads, db.reservas, nuevosCascos)
                         then CascoDao.ReplaceCascos(old(db.cascos), reserva.idReserva, nuevosCascos)
                         else old(db.cascos)
  {
    var _ := CascoDao.UpdateCascosForReserva(db, reserva.idReserva, nuevosCascos);
  }

  // -----------------------------------------------------------------------
  // The overlap check.

  /** `countOverlappingReservas(matricula, excludedId, from, to)`, left abstract. */
  type OverlapCount = (string, Int32, Int64, Int64) -> int

  /** Some selected quad has a positive overlap count. */
  predicate SomeOverlap(selected: seq<Casco>, from: Int64, to: Int64, currentId: Int32, count: OverlapCount)
  {
    exists i :: 0 <= i < |selected| && count(selected[i].matriculaQuad, currentId, from, to) > 0
  }

  /**
   * `checkOverlaps`: true as soon as one selected quad has a positive count,
   * false when none has, and true whenever the wait for the worker fails
   * (fail closed). `queried` is how many counts the worker asked for: up
   * to and including the first conflicting quad, and no further.
   */
  method CheckOverlaps(selected: seq<Casco>, fechaRecogida: Int64, fechaDevolucion: Int64,
                       currentReservaId: Int32, count: OverlapCount, w: Wait)
    returns (overlap: bool, ghost queried: nat)
    ensures overlap <==> !w.Completed? || SomeOverlap(selected, fechaRecogida, fechaDevolucion, currentReservaId, count)
    ensures w.Completed? ==> queried <= |selected|
    ensures w.Completed? ==> forall i :: 0 <= i < queried - 1 ==>
      count(selected[i].matriculaQuad, currentReservaId, fechaRecogida, fechaDevolucion) <= 0
    ensures w.Completed? && overlap ==>
      0 < queried && count(selected[queried - 1].matriculaQuad, currentReservaId, fechaRecogida, fechaDevolucion) > 0
    ensures w.Completed? && !overlap ==> queried == |selected|
  {
    queried := 0;
    if !w.Completed? {
      return true, 0;
    }
    var i := 0;
    while i < |selected|
      invariant 0 <= i <= |selected| && queried == i
      invariant forall j :: 0 <= j < i ==> count(selected[j].matriculaQuad, currentReservaId, fechaRecogida, fechaDevolucion) <= 0
    {
      var n := count(selected[i].matriculaQuad, currentReservaId, fechaRecogida, fechaDevolucion);
      queried := queried + 1;
      if n > 0 {
        return true, queried;
      }
      i := i + 1;
    }
    overlap := false;
  }

  /** An empty selection never overlaps once the worker answers. */
  lemma EmptySelectionNoOverlap(from: Int64, to: Int64, currentId: Int32, count: OverlapCount)
    ensures !SomeOverlap([], from, to, currentId, count)
  {
  }

  // -----------------------------------------------------------------------
  // No double booking.

  /** Closed date ranges meet; touching end points count. */
  predicate RangesMeet(r: Reserva, from: int, to: int)
  {
    r.fechaRecogida <= to && from <= r.fechaDevolucion
  }

  /** No quad is held by two distinct bookings whose date ranges meet. */
  ghost predicate NoDoubleBooking(reservas: map<Int32, Reserva>, cascos: map<CascoKey, Casco>)
  {
    forall k1, k2 :: k1 in cascos && k2 in cascos && k1.0 == k2.0 && k1.1 != k2.1
      && k1.1 in reservas && k2.1 in reservas
      ==> !RangesMeet(reservas[k1.1], reservas[k2.1].fechaRecogida, reservas[k2.1].fechaDevolucion)
  }

  /**
   * The assumption about the unseen query: whenever another booking holds
   * quad m over dates meeting [from, to], the count is positive.
   */
  ghost predicate CountFindsConflicts(count: OverlapCount, reservas: map<Int32, Reserva>, cascos: map<CascoKey, Casco>)
  {
    forall k, excluded: Int32, from: Int64, to: Int64 ::
      k in cascos && k.1 != excluded && k.1 in reservas && RangesMeet(reservas[k.1], from, to)
      ==> count(k.0, excluded, from, to) > 0
  }

  /**
   * If the check clears a booking's selection, replacing the booking's
   * helmet rows with it keeps the table free of double bookings.
   */
  lemma ReplaceKeepsNoDoubleBooking(reservas: map<Int32, Reserva>, cascos: map<CascoKey, Casco>,
                                    id: Int32, selected: seq<Casco>, count: OverlapCount)
    requires id in reservas
    requires NoDoubleBooking(reservas, cascos)
    requires CountFindsConflicts(count, reservas, cascos)
    requires forall i :: 0 <= i < |selected| ==> selected[i].idReserva == id
    requires !SomeOverlap(selected, reservas[id].fechaRecogida, reservas[id].fechaDevolucion, id, count)
    ensures NoDoubleBooking(reservas, CascoDao.ReplaceCascos(cascos, id, selected))
  {
    var after := CascoDao.ReplaceCascos(cascos, id, selected);
    CascoDao.ReplaceCascosSplit(cascos, id, selected);
    CascoDao.FirstOfKeys(selected);
    var r := reservas[id];
    forall k1, k2 | k1 in after && k2 in after && k1.0 == k2.0 && k1.1 != k2.1
      && k1.1 in reservas && k2.1 in reservas
      ensures !RangesMeet(reservas[k1.1], reservas[k2.1].fechaRecogida, reservas[k2.1].fechaDevolucion)
    {
      if k1.1 == id {
        var i :| 0 <= i < |selected| && Key(selected[i]) == k1;
        assert k2 in cascos;
        assert count(k2.0, id, r.fechaRecogida, r.fechaDevolucion) <= 0;
      } else if k2.1 == id {
        var i :| 0 <= i < |selected| && Key(selected[i]) == k2;
        assert k1 in cascos;
        assert count(k1.0, id, r.fechaRecogida, r.fechaDevolucion) <= 0;
      } else {
        assert k1 in cascos && k2 in cascos;
      }
    }
  }
}
