/**
 * `ReservaRepository`: validates a booking, then runs the DAO write on the
 * write executor and waits for it with a timeout. Sentinels: insert -1
 * when invalid or failed; update 0 when invalid and -1 when failed; delete
 * (which does not validate) -1 when failed.
 */
module ReservaRepository {
  import opened JavaLang
  import opened ReservaEntity
  import opened CascoEntity
  import opened Database
  import ReservaDao

  /**
   * `validateReserva`: present, a visible name, both dates positive, the
   * return not before the pick-up, and a non-negative total. The mobile
   * number is not inspected.
   */
  function ValidateReserva(reserva: Option<Reserva>): (ok: bool)
    ensures ok <==> reserva.Some? && reserva.value.nombreCliente.Some? && HasVisibleChar(reserva.value.nombreCliente.value)
                    && 0 < reserva.value.fechaRecogida <= reserva.value.fechaDevolucion
                    && reserva.value.precioTotal >= 0
  {
    reserva.Some?
    && ValidateNombre(reserva.value.nombreCliente).None?
    && ValidateFecha(reserva.value.fechaRecogida).None?
    && ValidateFecha(reserva.value.fechaDevolucion).None?
    && ValidateFechas(reserva.value.fechaRecogida, reserva.value.fechaDevolucion).None?
    && ValidatePrecio(reserva.value.precioTotal).None?
  }

  /** Validity does not depend on the mobile number. */
  lemma ValidateIgnoresMovil(reserva: Reserva, movil: Int32)
    ensures ValidateReserva(Some(SetNumeroMovil(reserva, movil))) == ValidateReserva(Some(reserva))
  {
  }

  /** `insert`: the new id, or -1 when invalid, ignored by the table or the wait fails. */
  method Insert(db: AppDatabase, reserva: Option<Reserva>, w: Wait) returns (rowId: Int32)
    requires db.Valid()
    modifies db`reservas, db`reservaSeq
    ensures db.Valid()
    ensures !ValidateReserva(reserva) || !TaskRuns(w) ==> rowId == -1 && db.reservas == old(db.reservas)
    ensures ValidateReserva(reserva) && TaskRuns(w) ==>
      if ReservaDao.InsertIgnored(old(db.reservas), old(db.reservaSeq), reserva.value)
      then db.reservas == old(db.reservas) && rowId == -1
      else
        var id := if reserva.value.idReserva == 0 then old(db.reservaSeq) + 1 else reserva.value.idReserva;
        id !in old(db.reservas)
        && db.reservas == old(db.reservas)[id := SetIdReserva(reserva.value, id)]
        && rowId == (if w.Completed? then id else -1)
  {
    if !ValidateReserva(reserva) {
      return -1;
    }
    if !TaskRuns(w) {
      return -1;
    }
    var r := ReservaDao.Insert(db, reserva.value);
    rowId := if w.Completed? then r else -1;
  }

  /** `update`: 0 when invalid or absent, 1 when replaced, -1 when the wait fails. */
  method Update(db: AppDatabase, reserva: Option<Reserva>, w: Wait) returns (count: int)
    requires db.Valid()
    modifies db`reservas
    ensures db.Valid()
    ensures db.reservas == if ValidateReserva(reserva) && TaskRuns(w) && reserva.value.idReserva in old(db.reservas)
                           then old(db.reservas)[reserva.value.idReserva := reserva.value]
                           else old(db.reservas)
    ensures !ValidateReserva(reserva) ==> count == 0
    ensures ValidateReserva(reserva) && !w.Completed? ==> count == -1
    ensures ValidateReserva(reserva) && w.Completed? ==> count == (if reserva.value.idReserva in old(db.reservas) then 1 else 0)
  {
    if !ValidateReserva(reserva) {
      return 0;
    }
    if !TaskRuns(w) {
      return -1;
    }
    var r := ReservaDao.Update(db, reserva.value);
    count := if w.Completed? then r.value else -1;
  }

  /**
   * `delete`: no validation. A null booking makes the job throw (-1); an
   * absent id deletes nothing (0).
   */
  method Delete(db: AppDatabase, reserva: Option<Reserva>, w: Wait) returns (count: int)
    requires db.Valid()
    modifies db`reservas, db`cascos
    ensures db.Valid()
    ensures reserva.Some? && TaskRuns(w) && reserva.value.idReserva in old(db.reservas) ==>
      db.reservas == old(db.reservas) - {reserva.value.idReserva}
      && db.cascos == WithoutReserva(old(db.cascos), reserva.value.idReserva)
    ensures !(reserva.Some? && TaskRuns(w) && reserva.value.idReserva in old(db.reservas)) ==>
      db.reservas == old(db.reservas) && db.cascos == old(db.cascos)
    ensures count == if reserva.None? || !w.Completed? then -1
                     else if reserva.value.idReserva in old(db.reservas) then 1 else 0
  {
    if reserva.None? || !TaskRuns(w) {
      return -1;
    }
    var r := ReservaDao.Delete(db, reserva.value);
    count := if w.Completed? then r else -1;
  }
}
