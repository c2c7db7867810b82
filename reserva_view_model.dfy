/**
 * `ReservaViewModel`: the (orderBy, filterType) pair that drives the
 * booking list, and the writes it forwards to the repository.
 */
module ReservaViewModel {
  import opened JavaLang
  import opened SqlOrder
  import opened ReservaEntity
  import opened CascoEntity
  import opened Database
  import ReservaDao
  import ReservaRepository

  class ReservaViewModel {
    var orderBy: string
    var filterType: string

    /** The list starts ordered by customer name, with every booking. */
    constructor ()
      ensures orderBy == "nombreCliente" && filterType == "Todas"
    {
      orderBy := "nombreCliente";
      filterType := "Todas";
    }

    /** `setOrderBy`: replaces the order, keeps the filter. */
    method SetOrderBy(o: string)
      modifies this`orderBy
      ensures orderBy == o
    {
      orderBy := o;
    }

    /** `setFilter`: replaces the filter, keeps the order. */
    method SetFilter(f: string)
      modifies this`filterType
      ensures filterType == f
    {
      filterType := f;
    }

    /**
     * `getAllReservas` at clock time `now`: the bookings the current filter
     * keeps, each once, ascending by the current order.
     */
    ghost function AllReservas(reservas: map<Int32, Reserva>, now: Int64): (r: seq<Reserva>)
      reads this
      ensures Distinct(r)
      ensures forall x :: x in r <==> x in reservas.Values && ReservaDao.MatchesFilter(x, filterType, now)
      ensures SortedBy(r, ReservaDao.ReservaKey(orderBy))
    {
      ReservaDao.GetOrderedReservas(reservas, orderBy, filterType, now)
    }

    /** `insert`: returns exactly what the repository returns. */
    method Insert(db: AppDatabase, reserva: Option<Reserva>, w: Wait) returns (rowId: Int32)
      requires db.Valid()
      modifies db`reservas, db`reservaSeq
      ensures db.Valid()
      ensures !ReservaRepository.ValidateReserva(reserva) || !TaskRuns(w) ==> rowId == -1 && db.reservas == old(db.reservas)
      ensures ReservaRepository.ValidateReserva(reserva) && TaskRuns(w) ==>
        if ReservaDao.InsertIgnored(old(db.reservas), old(db.reservaSeq), reserva.value)
        then db.reservas == old(db.reservas) && rowId == -1
        else
          var id := if reserva.value.idReserva == 0 then old(db.reservaSeq) + 1 else reserva.value.idReserva;
          id !in old(db.reservas)
          && db.reservas == old(db.reservas)[id := SetIdReserva(reserva.value, id)]
          && rowId == (if w.Completed? then id else -1)
    {
      rowId := ReservaRepository.Insert(db, reserva, w);
    }

    /** `update`: forwards to the repository and discards the count. */
    method Update(db: AppDatabase, reserva: Option<Reserva>, w: Wait)
      requires db.Valid()
      modifies db`reservas
      ensures db.Valid()
      ensures db.reservas == if ReservaRepository.ValidateReserva(reserva) && TaskRuns(w) && reserva.value.idReserva in old(db.reservas)
                             then old(db.reservas)[reserva.value.idReserva := reserva.value]
                             else old(db.reservas)
    {
      var _ := ReservaRepository.Update(db, reserva, w);
    }

    /** `delete`: forwards to the repository and discards the count. */
    method Delete(db: AppDatabase, reserva: Option<Reserva>, w: Wait)
      requires db.Valid()
      modifies db`reservas, db`cascos
      ensures db.Valid()
      ensures reserva.Some? && TaskRuns(w) && reserva.value.idReserva in old(db.reservas) ==>
        db.reservas == old(db.reservas) - {reserva.value.idReserva}
        && db.cascos == WithoutReserva(old(db.cascos), reserva.value.idReserva)
      ensures !(reserva.Some? && TaskRuns(w) && reserva.value.idReserva in old(db.reservas)) ==>
        db.reservas == old(db.reservas) && db.cascos == old(db.cascos)
    {
      var _ := ReservaRepository.Delete(db, reserva, w);
    }
  }
}
