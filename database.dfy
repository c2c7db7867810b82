/**
 * The Room database: the three tables as maps from primary key to row,
 * the AUTOINCREMENT counter of `Reserva` and a rowid source for the
 * other two tables. Room opens the database with foreign keys enforced,
 * so every helmet row names an existing quad and an existing booking.
 */
module Database {
  import opened JavaLang
  import opened QuadEntity
  import opened ReservaEntity
  import opened CascoEntity

  /** What a DAO call gives back: its return value, or an SQLiteException after rollback. */
  datatype DaoResult = Returned(value: int) | Threw

  /**
   * How `future.get(TIMEOUT)` on a task of the write executor ends.
   * Completed: the job ran and `get` returned its result or rethrew its
   * exception. Failed: the job threw for a reason outside this model (a
   * storage I/O error) and changed nothing. GaveUp: `get` timed out or was
   * interrupted; the job is not cancelled and its write still happens
   * later exactly when `writeLands` holds.
   */
  datatype Wait = Completed | Failed | GaveUp(writeLands: bool)

  /** Whether the submitted write takes effect. */
  predicate TaskRuns(w: Wait)
  {
    w.Completed? || (w.GaveUp? && w.writeLands)
  }

  /** Each quad is stored under its plate, with its NOT NULL type present. */
  ghost predicate QuadsKeyed(quads: map<string, Quad>)
  {
    forall m :: m in quads ==> quads[m].matricula == Some(m) && quads[m].tipo.Some?
  }

  /** Each booking is stored under its id, with its NOT NULL name present. */
  ghost predicate ReservasKeyed(reservas: map<Int32, Reserva>)
  {
    forall id :: id in reservas ==> reservas[id].idReserva == id && reservas[id].nombreCliente.Some?
  }

  /** The two foreign keys of `casco` hold: both parents of a helmet row exist. */
  predicate ParentsExist(quads: map<string, Quad>, reservas: map<Int32, Reserva>, c: Casco)
  {
    c.matriculaQuad in quads && c.idReserva in reservas
  }

  ghost predicate ReferencesExist(quads: map<string, Quad>, reservas: map<Int32, Reserva>, cascos: map<CascoKey, Casco>)
  {
    forall k :: k in cascos ==> ParentsExist(quads, reservas, cascos[k])
  }

  ghost predicate TablesOk(quads: map<string, Quad>, reservas: map<Int32, Reserva>, cascos: map<CascoKey, Casco>)
  {
    QuadsKeyed(quads) && ReservasKeyed(reservas) && KeyedByPrimaryKey(cascos)
    && ReferencesExist(quads, reservas, cascos)
  }

  class AppDatabase {
    var quads: map<string, Quad>
    var reservas: map<Int32, Reserva>
    var cascos: map<CascoKey, Casco>
    /** `sqlite_sequence` for `Reserva`: the largest id the table ever held. */
    var reservaSeq: Int32
    /** Rowids handed out to `quad` and `casco` rows (only their positivity is observed). */
    var lastRowId: nat

    ghost predicate Valid()
      reads this
    {
      TablesOk(quads, reservas, cascos)
      && (forall id :: id in reservas ==> id <= reservaSeq)
      && 0 !in reservas  // id 0 asks SQLite for a fresh id, so no row ever has it
      && reservaSeq >= 0
    }

    /** A freshly created database: empty tables. */
    constructor ()
      ensures Valid()
      ensures quads == map[] && reservas == map[] && cascos == map[]
      ensures reservaSeq == 0
    {
      quads := map[];
      reservas := map[];
      cascos := map[];
      reservaSeq := 0;
      lastRowId := 0;
    }
  }
}
