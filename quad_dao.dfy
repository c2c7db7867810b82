/**
 * `QuadDao`: insert with OR IGNORE, update and delete by plate, and the
 * two queries. A deleted quad takes its helmet rows with it (cascade).
 */
module QuadDao {
  import opened JavaLang
  import opened SqlOrder
  import opened QuadEntity
  import opened CascoEntity
  import opened Database

  /** INSERT OR IGNORE adds the row unless the plate is taken or a NOT NULL column is null. */
  predicate CanInsert(quads: map<string, Quad>, quad: Quad)
  {
    quad.matricula.Some? && quad.tipo.Some? && quad.matricula.value !in quads
  }

  /** `insert`: the new rowid, or -1 when the row was ignored. */
  method Insert(db: AppDatabase, quad: Quad) returns (rowId: int)
    requires db.Valid()
    modifies db`quads, db`lastRowId
    ensures db.Valid()
    ensures CanInsert(old(db.quads), quad) ==> rowId > 0 && db.quads == old(db.quads)[quad.matricula.value := quad]
    ensures !CanInsert(old(db.quads), quad) ==> rowId == -1 && db.quads == old(db.quads)
  {
    if !CanInsert(db.quads, quad) {
      return -1;
    }
    db.quads := db.quads[quad.matricula.value := quad];
    db.lastRowId := db.lastRowId + 1;
    rowId := db.lastRowId;
  }

  /**
   * `update` (UPDATE ... WHERE matricula = ?): 1 when the plate exists, 0 when
   * it does not; a null NOT NULL column on an existing row aborts the statement.
   */
  method Update(db: AppDatabase, quad: Quad) returns (r: DaoResult)
    requires db.Valid()
    modifies db`quads
    ensures db.Valid()
    ensures quad.matricula.None? || quad.matricula.value !in old(db.quads) ==> r == Returned(0) && db.quads == old(db.quads)
    ensures quad.matricula.Some? && quad.matricula.value in old(db.quads) ==>
      if quad.tipo.None? then r == Threw && db.quads == old(db.quads)
      else r == Returned(1) && db.quads == old(db.quads)[quad.matricula.value := quad]
  {
    if quad.matricula.None? || quad.matricula.value !in db.quads {
      return Returned(0);
    }
    if quad.tipo.None? {
      return Threw;
    }
    db.quads := db.quads[quad.matricula.value := quad];
    r := Returned(1);
  }

  /** `delete` (by plate): the number of rows deleted; the quad's helmet rows go too. */
  method Delete(db: AppDatabase, quad: Quad) returns (count: int)
    requires db.Valid()
    modifies db`quads, db`cascos
    ensures db.Valid()
    ensures quad.matricula.Some? && quad.matricula.value in old(db.quads) ==>
      count == 1 && db.quads == old(db.quads) - {quad.matricula.value}
      && db.cascos == WithoutQuad(old(db.cascos), quad.matricula.value)
    ensures quad.matricula.None? || quad.matricula.value !in old(db.quads) ==>
      count == 0 && db.quads == old(db.quads) && db.cascos == old(db.cascos)
  {
    if quad.matricula.None? || quad.matricula.value !in db.quads {
      return 0;
    }
    var m := quad.matricula.value;
    db.quads := db.quads - {m};
    db.cascos := WithoutQuad(db.cascos, m);
    count := 1;
  }

  /** A nullable TEXT column as an ORDER BY key. */
  function TextKey(s: Option<string>): SortKey
  {
    if s.None? then Null else Text(s.value)
  }

  /** The ORDER BY key `getOrderedQuads` uses for `orderBy`; unknown names order nothing. */
  function QuadKey(orderBy: string): Quad -> SortKey
  {
    (q: Quad) =>
      if orderBy == "matricula" then TextKey(q.matricula)
      else if orderBy == "tipo" then (if q.tipo.None? then Null else Text(TipoName(q.tipo.value)))
      else if orderBy == "precio" then Num(q.precio)
      else Null
  }

  /** `getOrderedQuads(orderBy)`: every quad once, ascending by the chosen column. */
  ghost function GetOrderedQuads(quads: map<string, Quad>, orderBy: string): (r: seq<Quad>)
    ensures Distinct(r)
    ensures forall q :: q in r <==> q in quads.Values
    ensures SortedBy(r, QuadKey(orderBy))
  {
    SortSet(quads.Values, QuadKey(orderBy))
  }

  /** `getQuadByMatricula(m)`: the quad with that plate, or null. */
  function GetQuadByMatricula(quads: map<string, Quad>, m: string): (r: Option<Quad>)
    requires QuadsKeyed(quads)
    ensures r.Some? <==> m in quads
    ensures r.Some? ==> r.value.matricula == Some(m) && r.value in quads.Values
  {
    if m in quads then Some(quads[m]) else None
  }

  /** Ordering by price lists the cheapest first. */
  lemma OrderedByPrecio(quads: map<string, Quad>)
    ensures var r := GetOrderedQuads(quads, "precio");
      forall i, j :: 0 <= i < j < |r| ==> r[i].precio <= r[j].precio
  {
    var r := GetOrderedQuads(quads, "precio");
    forall i, j | 0 <= i < j < |r| ensures r[i].precio <= r[j].precio {
      assert KeyLeq(QuadKey("precio")(r[i]), QuadKey("precio")(r[j]));
    }
  }

  /** Ordering by plate lists the plates in code-point order. */
  lemma OrderedByMatricula(quads: map<string, Quad>)
    requires QuadsKeyed(quads)
    ensures var r := GetOrderedQuads(quads, "matricula");
      forall i, j :: 0 <= i < j < |r| ==>
        r[i].matricula.Some? && r[j].matricula.Some? && TextLeq(r[i].matricula.value, r[j].matricula.value)
  {
    var r := GetOrderedQuads(quads, "matricula");
    forall i, j | 0 <= i < j < |r|
      ensures r[i].matricula.Some? && r[j].matricula.Some? && TextLeq(r[i].matricula.value, r[j].matricula.value)
    {
      assert r[i] in quads.Values && r[j] in quads.Values;
      assert KeyLeq(QuadKey("matricula")(r[i]), QuadKey("matricula")(r[j]));
    }
  }

  lemma TipoKey(q: Quad)
    requires q.tipo.Some?
    ensures QuadKey("tipo")(q) == Text(TipoName(q.tipo.value))
  {
    assert "tipo" != "matricula" by { assert |"tipo"| != |"matricula"|; }
  }

  /** "Biplaza" sorts below "Monoplaza", and not the other way round. */
  lemma BiplazaBelowMonoplaza()
    ensures TextLeq(TipoName(Biplaza), TipoName(Monoplaza))
    ensures !TextLeq(TipoName(Monoplaza), TipoName(Biplaza))
  {
    assert TipoName(Biplaza)[0] == 'B' && TipoName(Monoplaza)[0] == 'M';
  }

  lemma TipoPair(a: Quad, b: Quad)
    requires a.tipo.Some? && b.tipo == Some(Biplaza)
    requires KeyLeq(QuadKey("tipo")(a), QuadKey("tipo")(b))
    ensures a.tipo == Some(Biplaza)
  {
    TipoKey(a);
    TipoKey(b);
    BiplazaBelowMonoplaza();
  }

  /** Ordering by type lists every "Biplaza" quad before every "Monoplaza" one. */
  lemma OrderedByTipo(quads: map<string, Quad>)
    requires QuadsKeyed(quads)
    ensures var r := GetOrderedQuads(quads, "tipo");
      forall i, j :: 0 <= i < j < |r| && r[j].tipo == Some(Biplaza) ==> r[i].tipo == Some(Biplaza)
  {
    var r := GetOrderedQuads(quads, "tipo");
    forall i, j | 0 <= i < j < |r| && r[j].tipo == Some(Biplaza) ensures r[i].tipo == Some(Biplaza) {
      assert r[i] in quads.Values;
      TipoPair(r[i], r[j]);
    }
  }

  /** An inserted quad is found again by its plate. */
  lemma InsertThenLookup(quads: map<string, Quad>, quad: Quad)
    requires QuadsKeyed(quads) && CanInsert(quads, quad)
    ensures QuadsKeyed(quads[quad.matricula.value := quad])
    ensures GetQuadByMatricula(quads[quad.matricula.value := quad], quad.matricula.value) == Some(quad)
  {
  }
}
