/**
 * `QuadRepository`: validates a quad, then runs the DAO write on the
 * write executor and waits for it with a timeout. Sentinels: insert -1
 * when invalid or failed; update 0 when invalid and -1 when failed; delete
 * 0 for a null quad or plate and -1 when failed.
 */
module QuadRepository {
  import opened JavaLang
  import opened QuadEntity
  import opened CascoEntity
  import opened Database
  import QuadDao

  /** `validateQuad`: present, with a well-formed plate, a positive price and a type. */
  function ValidateQuad(quad: Option<Quad>): (ok: bool)
    ensures ok <==> quad.Some? && quad.value.matricula.Some? && PlatePattern(quad.value.matricula.value)
                    && quad.value.precio > 0 && quad.value.tipo.Some?
  {
    quad.Some?
    && ValidateMatricula(quad.value.matricula).None?
    && ValidatePrecio(quad.value.precio).None?
    && ValidateTipo(quad.value.tipo).None?
  }

  /** For a valid quad the only way the IGNORE insert is skipped is a taken plate. */
  lemma ValidQuadInsertIgnoredIffTaken(quads: map<string, Quad>, quad: Quad)
    requires ValidateQuad(Some(quad))
    ensures QuadDao.CanInsert(quads, quad) <==> quad.matricula.value !in quads
  {
  }

  /** `insert`: the rowid, or -1 when the quad is invalid, its plate is taken or the wait fails. */
  method Insert(db: AppDatabase, quad: Option<Quad>, w: Wait) returns (rowId: int)
    requires db.Valid()
    modifies db`quads, db`lastRowId
    ensures db.Valid()
    ensures db.quads == if ValidateQuad(quad) && TaskRuns(w) && quad.value.matricula.value !in old(db.quads)
                        then old(db.quads)[quad.value.matricula.value := quad.value]
                        else old(db.quads)
    ensures rowId != -1 <==> ValidateQuad(quad) && w.Completed? && quad.value.matricula.value !in old(db.quads)
    ensures rowId != -1 ==> rowId > 0
  {
    if !ValidateQuad(quad) {
      return -1;
    }
    if !TaskRuns(w) {
      return -1;
    }
    var r := QuadDao.Insert(db, quad.value);
    rowId := if w.Completed? then r else -1;
  }

  /** `update`: 0 when invalid or absent, 1 when replaced, -1 when the wait fails. */
  method Update(db: AppDatabase, quad: Option<Quad>, w: Wait) returns (count: int)
    requires db.Valid()
    modifies db`quads
    ensures db.Valid()
    ensures db.quads == if ValidateQuad(quad) && TaskRuns(w) && quad.value.matricula.value in old(db.quads)
                        then old(db.quads)[quad.value.matricula.value := quad.value]
                        else old(db.quads)
    ensures !ValidateQuad(quad) ==> count == 0
    ensures ValidateQuad(quad) && !w.Completed? ==> count == -1
    ensures ValidateQuad(quad) && w.Completed? ==> count == (if quad.value.matricula.value in old(db.quads) then 1 else 0)
  {
    if !ValidateQuad(quad) {
      return 0;
    }
    if !TaskRuns(w) {
      return -1;
    }
    var r := QuadDao.Update(db, quad.value);
    count := if w.Completed? then r.value else -1;
  }

  /** `delete`: 0 for a null quad or plate (the plate format is not checked), else the DAO count or -1. */
  method Delete(db: AppDatabase, quad: Option<Quad>, w: Wait) returns (count: int)
    requires db.Valid()
    modifies db`quads, db`cascos
    ensures db.Valid()
    ensures quad.None? || quad.value.matricula.None? ==>
      count == 0 && db.quads == old(db.quads) && db.cascos == old(db.cascos)
    ensures quad.Some? && quad.value.matricula.Some? ==>
      var m := quad.value.matricula.value;
      (if TaskRuns(w) && m in old(db.quads)
       then db.quads == old(db.quads) - {m} && db.cascos == WithoutQuad(old(db.cascos), m)
       else db.quads == old(db.quads) && db.cascos == old(db.cascos))
      && count == (if !w.Completed? then -1 else if m in old(db.quads) then 1 else 0)
  {
    if quad.None? || quad.value.matricula.None? {
      return 0;
    }
    if !TaskRuns(w) {
      return -1;
    }
    var r := QuadDao.Delete(db, quad.value);
    count := if w.Completed? then r else -1;
  }
}
