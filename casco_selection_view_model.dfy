/**
 * `CascoSelectionViewModel`: saves a booking together with its helmet rows,
 * and forwards the overlap check with the booking's own dates and id.
 */
module CascoSelectionViewModel {
  import opened JavaLang
  import opened ReservaEntity
  import opened CascoEntity
  import opened Database
  import ReservaRepository
  import CascoDao
  import CascoRepository

  /**
   * `saveReservaConCascos`: a booking with id 0 is inserted, any other is
   * updated; the results are discarded. Then the helmet rows of
   * `reserva.idReserva` (as passed in) are replaced, whatever the booking
   * write did.
   */
  method SaveReservaConCascos(db: AppDatabase, reserva: Reserva, nuevosCascos: seq<Casco>, w: Wait)
    requires db.Valid()
    modifies db`reservas, db`reservaSeq, db`cascos, db`lastRowId
    ensures db.Valid()
    ensures reserva.idReserva == 0 ==>
      db.reservas == if ReservaRepository.ValidateReserva(Some(reserva)) && TaskRuns(w) && old(db.reservaSeq) < INT_MAX
                     then old(db.reservas)[old(db.reservaSeq) + 1 := SetIdReserva(reserva, old(db.reservaSeq) + 1)]
                     else old(db.reservas)
    ensures reserva.idReserva != 0 ==>
      db.reservas == if ReservaRepository.ValidateReserva(Some(reserva)) && TaskRuns(w) && reserva.idReserva in old(db.reservas)
                     then old(db.reservas)[reserva.idReserva := reserva]
                     else old(db.reservas)
    ensures db.cascos == if CascoDao.AllParentsExist(db.quads, db.reservas, nuevosCascos)
                         then CascoDao.ReplaceCascos(old(db.cascos), reserva.idReserva, nuevosCascos)
                         else old(db.cascos)
  {
    if reserva.idReserva == 0 {
      var _ := ReservaRepository.Insert(db, Some(reserva), w);
    } else {
      var _ := ReservaRepository.Update(db, Some(reserva), w);
    }
    CascoRepository.SaveReservaConCascos(db, reserva, nuevosCascos);
  }

  /** `checkOverlaps(cascos, reserva)`: the check for the booking's own dates, excluding the booking itself. */
  method CheckOverlaps(cascos: seq<Casco>, reserva: Reserva, count: CascoRepository.OverlapCount, w: Wait)
    returns (overlap: bool)
    ensures overlap <==>
      !w.Completed? || CascoRepository.SomeOverlap(cascos, reserva.fechaRecogida, reserva.fechaDevolucion, reserva.idReserva, count)
  {
    ghost var queried;
    overlap, queried := CascoRepository.CheckOverlaps(cascos, reserva.fechaRecogida, reserva.fechaDevolucion,
                                                reserva.idReserva, count, w);
  }
}
