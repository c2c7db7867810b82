/**
 * `ReservaDao`: insert with OR IGNORE and an AUTOINCREMENT id, update and
 * delete by id (a deleted booking takes its helmet rows with it), the
 * filtered and ordered listing, and the lookup by id.
 */
module ReservaDao {
  import opened JavaLang
  import opened SqlOrder
  import opened ReservaEntity
  import opened CascoEntity
  import opened Database

  /**
   * `insert`: an id of 0 asks for a generated one (Room binds it through
   * `nullif(?, 0)`), which is one above the largest id the table ever held;
   * a row with a null name or an id already present is ignored (-1). The
   * generated id is modelled as failing once the counter reaches the
   * largest `int`.
   */
  predicate InsertIgnored(reservas: map<Int32, Reserva>, reservaSeq: Int32, reserva: Reserva)
  {
    reserva.nombreCliente.None?
    || (reserva.idReserva == 0 && reservaSeq == INT_MAX)
    || (reserva.idReserva != 0 && reserva.idReserva in reservas)
  }

  method Insert(db: AppDatabase, reserva: Reserva) returns (rowId: Int32)
    requires db.Valid()
    modifies db`reservas, db`reservaSeq
    ensures db.Valid()
    ensures InsertIgnored(old(db.reservas), old(db.reservaSeq), reserva) ==>
      rowId == -1 && db.reservas == old(db.reservas)
    ensures !InsertIgnored(old(db.reservas), old(db.reservaSeq), reserva) ==>
      rowId == (if reserva.idReserva == 0 then old(db.reservaSeq) + 1 else reserva.idReserva)
      && rowId !in old(db.reservas)
      && db.reservas == old(db.reservas)[rowId := SetIdReserva(reserva, rowId)]
  {
    if reserva.nombreCliente.None? {
      return -1;
    }
    if reserva.idReserva == 0 {
      if db.reservaSeq == INT_MAX {
        return -1;
      }
      var id: Int32 := db.reservaSeq + 1;
      db.reservas := db.reservas[id := SetIdReserva(reserva, id)];
      db.reservaSeq := id;
      return id;
    }
    if reserva.idReserva in db.reservas {
      return -1;
    }
    db.reservas := db.reservas[reserva.idReserva := reserva];
    if reserva.idReserva > db.reservaSeq {
      db.reservaSeq := reserva.idReserva;
    }
    rowId := reserva.idReserva;
  }

  /**
   * `update` (UPDATE ... WHERE idReserva = ?): 1 when the id exists, 0 when it
   * does not; a null name on an existing row aborts the statement.
   */
  method Update(db: AppDatabase, reserva: Reserva) returns (r: DaoResult)
    requires db.Valid()
    modifies db`reservas
    ensures db.Valid()
    ensures reserva.idReserva !in old(db.reservas) ==> r == Returned(0) && db.reservas == old(db.reservas)
    ensures reserva.idReserva in old(db.reservas) ==>
      if reserva.nombreCliente.None? then r == Threw && db.reservas == old(db.reservas)
      else r == Returned(1) && db.reservas == old(db.reservas)[reserva.idReserva := reserva]
  {
    if reserva.idReserva !in db.reservas {
      return Returned(0);
    }
    if reserva.nombreCliente.None? {
      return Threw;
    }
    db.reservas := db.reservas[reserva.idReserva := reserva];
    r := Returned(1);
  }

  /** `delete` (by id): the number of rows deleted; the booking's helmet rows go too. */
  method Delete(db: AppDatabase, reserva: Reserva) returns (count: int)
    requires db.Valid()
    modifies db`reservas, db`cascos
    ensures db.Valid()
    ensures reserva.idReserva in old(db.reservas) ==>
      count == 1 && db.reservas == old(db.reservas) - {reserva.idReserva}
      && db.cascos == WithoutReserva(old(db.cascos), reserva.idReserva)
    ensures reserva.idReserva !in old(db.reservas) ==>
      count == 0 && db.reservas == old(db.reservas) && db.cascos == old(db.cascos)
  {
    if reserva.idReserva !in db.reservas {
      return 0;
    }
    db.reservas := db.reservas - {reserva.idReserva};
    db.cascos := WithoutReserva(db.cascos, reserva.idReserva);
    count := 1;
  }

  /** The WHERE clause of `getOrderedReservas` for one row. */
  predicate MatchesFilter(r: Reserva, filterType: string, now: Int64)
  {
    filterType == "Todas"
    || (filterType == "Previstas" && r.fechaRecogida > now)
    || (filterType == "Vigentes" && r.fechaRecogida <= now && r.fechaDevolucion >= now)
    || (filterType == "Caducadas" && r.fechaDevolucion < now)
  }

  /** The ORDER BY key `getOrderedReservas` uses for `orderBy`; unknown names order nothing. */
  function ReservaKey(orderBy: string): Reserva -> SortKey
  {
    (r: Reserva) =>
      if orderBy == "nombreCliente" then (if r.nombreCliente.None? then Null else Text(r.nombreCliente.value))
      else if orderBy == "numeroMovil" then Num(r.numeroMovil)
      else if orderBy == "fechaRecogida" then Num(r.fechaRecogida)
      else if orderBy == "fechaDevolucion" then Num(r.fechaDevolucion)
      else Null
  }

  /**
   * `getOrderedReservas(orderBy, filterType, now)`: every booking that passes
   * the filter, once, ascending by the chosen column.
   */
  ghost function GetOrderedReservas(reservas: map<Int32, Reserva>, orderBy: string, filterType: string, now: Int64): (r: seq<Reserva>)
    ensures Distinct(r)
    ensures forall x :: x in r <==> x in reservas.Values && MatchesFilter(x, filterType, now)
    ensures SortedBy(r, ReservaKey(orderBy))
  {
    var rows := set x | x in reservas.Values && MatchesFilter(x, filterType, now);
    SortSet(rows, ReservaKey(orderBy))
  }

  /** `getReservaById(id)`: the booking with that id, or null. */
  function GetReservaById(reservas: map<Int32, Reserva>, id: Int32): (r: Option<Reserva>)
    requires ReservasKeyed(reservas)
    ensures r.Some? <==> id in reservas
    ensures r.Some? ==> r.value.idReserva == id && r.value in reservas.Values
  {
    if id in reservas then Some(reservas[id]) else None
  }

  /** "Todas" lists every booking. */
  lemma TodasListsAll(reservas: map<Int32, Reserva>, orderBy: string, now: Int64)
    ensures forall x :: x in GetOrderedReservas(reservas, orderBy, "Todas", now) <==> x in reservas.Values
  {
  }

  /** A filter name outside the four known ones lists nothing. */
  lemma UnknownFilterListsNothing(reservas: map<Int32, Reserva>, orderBy: string, filterType: string, now: Int64)
    requires filterType !in {"Todas", "Previstas", "Vigentes", "Caducadas"}
    ensures GetOrderedReservas(reservas, orderBy, filterType, now) == []
  {
  }

  /**
   * For a booking whose return is not before its pick-up, exactly one of
   * "Previstas", "Vigentes" and "Caducadas" lists it.
   */
  lemma FiltersPartition(x: Reserva, now: Int64)
    requires x.fechaRecogida <= x.fechaDevolucion
    ensures MatchesFilter(x, "Previstas", now) || MatchesFilter(x, "Vigentes", now) || MatchesFilter(x, "Caducadas", now)
    ensures !(MatchesFilter(x, "Previstas", now) && MatchesFilter(x, "Vigentes", now))
    ensures !(MatchesFilter(x, "Previstas", now) && MatchesFilter(x, "Caducadas", now))
    ensures !(MatchesFilter(x, "Vigentes", now) && MatchesFilter(x, "Caducadas", now))
  {
  }

  /** Ordering by pick-up date lists the earliest pick-up first. */
  lemma OrderedByFechaRecogida(reservas: map<Int32, Reserva>, filterType: string, now: Int64)
    ensures var r := GetOrderedReservas(reservas, "fechaRecogida", filterType, now);
      forall i, j :: 0 <= i < j < |r| ==> r[i].fechaRecogida <= r[j].fechaRecogida
  {
    var r := GetOrderedReservas(reservas, "fechaRecogida", filterType, now);
    forall i, j | 0 <= i < j < |r| ensures r[i].fechaRecogida <= r[j].fechaRecogida {
      assert KeyLeq(ReservaKey("fechaRecogida")(r[i]), ReservaKey("fechaRecogida")(r[j]));
    }
  }

  /** Ordering by mobile number lists the smallest number first. */
  lemma OrderedByNumeroMovil(reservas: map<Int32, Reserva>, filterType: string, now: Int64)
    ensures var r := GetOrderedReservas(reservas, "numeroMovil", filterType, now);
      forall i, j :: 0 <= i < j < |r| ==> r[i].numeroMovil <= r[j].numeroMovil
  {
    var r := GetOrderedReservas(reservas, "numeroMovil", filterType, now);
    forall i, j | 0 <= i < j < |r| ensures r[i].numeroMovil <= r[j].numeroMovil {
      assert KeyLeq(ReservaKey("numeroMovil")(r[i]), ReservaKey("numeroMovil")(r[j]));
    }
  }
}
