/**
 * `CascoDao`: insert with OR IGNORE, update and delete by the composite
 * key, the listings, the bulk delete for one booking and the transaction
 * that replaces a booking's helmet rows.
 */
module CascoDao {
  import opened JavaLang
  import opened SqlOrder
  import opened QuadEntity
  import opened ReservaEntity
  import opened CascoEntity
  import opened Database

  /**
   * `insert`: -1 when the key is taken; a row whose quad or booking is
   * missing violates a foreign key, which OR IGNORE does not cover, so the
   * statement throws.
   */
  method Insert(db: AppDatabase, casco: Casco) returns (r: DaoResult)
    requires db.Valid()
    modifies db`cascos, db`lastRowId
    ensures db.Valid()
    ensures r.Threw? <==> Key(casco) !in old(db.cascos) && !ParentsExist(db.quads, db.reservas, casco)
    ensures Key(casco) in old(db.cascos) ==> r == Returned(-1) && db.cascos == old(db.cascos)
    ensures r.Threw? ==> db.cascos == old(db.cascos)
    ensures Key(casco) !in old(db.cascos) && r.Returned? ==>
      r.value > 0 && db.cascos == old(db.cascos)[Key(casco) := casco]
  {
    if Key(casco) in db.cascos {
      return Returned(-1);
    }
    if !ParentsExist(db.quads, db.reservas, casco) {
      return Threw;
    }
    db.cascos := db.cascos[Key(casco) := casco];
    db.lastRowId := db.lastRowId + 1;
    r := Returned(db.lastRowId);
  }

  /** `update` (by key): 1 and the new row when the key exists, else 0. */
  method Update(db: AppDatabase, casco: Casco) returns (count: int)
    requires db.Valid()
    modifies db`cascos
    ensures db.Valid()
    ensures Key(casco) in old(db.cascos) ==> count == 1 && db.cascos == old(db.cascos)[Key(casco) := casco]
    ensures Key(casco) !in old(db.cascos) ==> count == 0 && db.cascos == old(db.cascos)
  {
    if Key(casco) !in db.cascos {
      return 0;
    }
    db.cascos := db.cascos[Key(casco) := casco];
    count := 1;
  }

  /** `delete` (by key): the number of rows deleted. */
  method Delete(db: AppDatabase, casco: Casco) returns (count: int)
    requires db.Valid()
    modifies db`cascos
    ensures db.Valid()
    ensures Key(casco) in old(db.cascos) ==> count == 1 && db.cascos == old(db.cascos) - {Key(casco)}
    ensures Key(casco) !in old(db.cascos) ==> count == 0 && db.cascos == old(db.cascos)
  {
    if Key(casco) !in db.cascos {
      return 0;
    }
    db.cascos := db.cascos - {Key(casco)};
    count := 1;
  }

  /** `deleteCascosByReservaId`: removes exactly the booking's helmet rows. */
  method DeleteCascosByReservaId(db: AppDatabase, idReserva: Int32)
    requires db.Valid()
    modifies db`cascos
    ensures db.Valid()
    ensures db.cascos == WithoutReserva(old(db.cascos), idReserva)
  {
    db.cascos := WithoutReserva(db.cascos, idReserva);
  }

  /** `getOrderedCascos`: every helmet row once, ascending by booking id. */
  ghost function GetOrderedCascos(cascos: map<CascoKey, Casco>): (r: seq<Casco>)
    ensures Distinct(r)
    ensures forall c :: c in r <==> c in cascos.Values
    ensures forall i, j :: 0 <= i < j < |r| ==> r[i].idReserva <= r[j].idReserva
  {
    var key := (c: Casco) => Num(c.idReserva);
    var r := SortSet(cascos.Values, key);
    assert forall i, j :: 0 <= i < j < |r| ==> KeyLeq(key(r[i]), key(r[j]));
    r
  }

  /**
   * `getCascosForReserva(id)`: the booking's helmet rows. The query has no
   * ORDER BY, so the model gives the rows as a set.
   */
  function GetCascosForReserva(cascos: map<CascoKey, Casco>, idReserva: Int32): (r: set<Casco>)
    requires KeyedByPrimaryKey(cascos)
    ensures forall c :: c in r <==> c in cascos.Values && c.idReserva == idReserva
  {
    set k | k in cascos && k.1 == idReserva :: cascos[k]
  }

  // -----------------------------------------------------------------------
  // The replacement transaction.

  /** The helmet table after inserting `cs` in order, each with OR IGNORE. */
  function InsertAll(t: map<CascoKey, Casco>, cs: seq<Casco>): map<CascoKey, Casco>
    decreases |cs|
  {
    if cs == [] then t
    else
      var before := InsertAll(t, cs[..|cs| - 1]);
      var c := cs[|cs| - 1];
      if Key(c) in before then before else before[Key(c) := c]
  }

  /** For each key in `cs`, the first element of `cs` with that key. */
  function FirstOf(cs: seq<Casco>): map<CascoKey, Casco>
  {
    InsertAll(map[], cs)
  }

  /** What `updateCascosForReserva(id, cs)` leaves when it commits. */
  function ReplaceCascos(t: map<CascoKey, Casco>, idReserva: Int32, cs: seq<Casco>): map<CascoKey, Casco>
  {
    InsertAll(WithoutReserva(t, idReserva), cs)
  }

  /** Every element of `cs` has both parents in the given tables. */
  predicate AllParentsExist(quads: map<string, Quad>, reservas: map<Int32, Reserva>, cs: seq<Casco>)
  {
    forall i :: 0 <= i < |cs| ==> ParentsExist(quads, reservas, cs[i])
  }

  /**
   * `updateCascosForReserva` (@Transaction): delete the booking's rows, then
   * insert each new row. It commits when every new row has both parents;
   * otherwise an insert throws and the whole transaction is rolled back.
   */
  method UpdateCascosForReserva(db: AppDatabase, idReserva: Int32, nuevosCascos: seq<Casco>) returns (committed: bool)
    requires db.Valid()
    modifies db`cascos, db`lastRowId
    ensures db.Valid()
    ensures committed <==> AllParentsExist(db.quads, db.reservas, nuevosCascos)
    ensures committed ==> db.cascos == ReplaceCascos(old(db.cascos), idReserva, nuevosCascos)
    ensures !committed ==> db.cascos == old(db.cascos)
  {
    var saved := db.cascos;
    DeleteCascosByReservaId(db, idReserva);
    var i := 0;
    while i < |nuevosCascos|
      invariant 0 <= i <= |nuevosCascos|
      invariant db.Valid()
      invariant db.cascos == InsertAll(WithoutReserva(saved, idReserva), nuevosCascos[..i])
      invariant AllParentsExist(db.quads, db.reservas, nuevosCascos[..i])
    {
      assert nuevosCascos[..i + 1][..i] == nuevosCascos[..i];
      var r := Insert(db, nuevosCascos[i]);
      if r.Threw? {
        db.cascos := saved;
        return false;
      }
      i := i + 1;
    }
    assert nuevosCascos[..i] == nuevosCascos;
    committed := true;
  }

  lemma {:induction false} InsertAllClosedForm(t: map<CascoKey, Casco>, cs: seq<Casco>)
    ensures InsertAll(t, cs) == FirstOf(cs) + t
    decreases |cs|
  {
    if cs != [] {
      InsertAllClosedForm(t, cs[..|cs| - 1]);
      InsertAllClosedForm(map[], cs[..|cs| - 1]);
    }
  }

  /** FirstOf(cs) holds a key exactly when some element of `cs` has it. */
  lemma {:induction false} FirstOfKeys(cs: seq<Casco>)
    ensures forall k :: k in FirstOf(cs) <==> exists i :: 0 <= i < |cs| && Key(cs[i]) == k
    decreases |cs|
  {
    if cs != [] {
      var init := cs[..|cs| - 1];
      FirstOfKeys(init);
      forall k ensures k in FirstOf(cs) <==> exists i :: 0 <= i < |cs| && Key(cs[i]) == k {
        if exists i :: 0 <= i < |cs| && Key(cs[i]) == k {
          var i :| 0 <= i < |cs| && Key(cs[i]) == k;
          if i < |cs| - 1 {
            assert Key(init[i]) == k;
          }
        }
        if k in FirstOf(init) {
          var i :| 0 <= i < |init| && Key(init[i]) == k;
          assert Key(cs[i]) == k;
        }
      }
    }
  }

  /** FirstOf(cs) maps a key to the first element of `cs` that has it. */
  lemma {:induction false} FirstOfFirst(cs: seq<Casco>, i: nat)
    requires i < |cs|
    requires forall j :: 0 <= j < i ==> Key(cs[j]) != Key(cs[i])
    ensures Key(cs[i]) in FirstOf(cs) && FirstOf(cs)[Key(cs[i])] == cs[i]
    decreases |cs|
  {
    var init := cs[..|cs| - 1];
    if i < |cs| - 1 {
      assert init[i] == cs[i];
      FirstOfFirst(init, i);
    } else {
      FirstOfKeys(init);
      assert forall j :: 0 <= j < |init| ==> Key(init[j]) != Key(cs[i]);
      assert Key(cs[i]) !in FirstOf(init);
      assert cs[|cs| - 1] == cs[i];
    }
  }

  /** Every row of FirstOf(cs) sits under its own key. */
  lemma {:induction false} FirstOfKeyed(cs: seq<Casco>)
    ensures KeyedByPrimaryKey(FirstOf(cs))
    decreases |cs|
  {
    if cs != [] {
      FirstOfKeyed(cs[..|cs| - 1]);
    }
  }

  lemma FirstOfSpec(cs: seq<Casco>)
    ensures forall k :: k in FirstOf(cs) <==> exists i :: 0 <= i < |cs| && Key(cs[i]) == k
    ensures forall i :: 0 <= i < |cs| && (forall j :: 0 <= j < i ==> Key(cs[j]) != Key(cs[i])) ==>
      Key(cs[i]) in FirstOf(cs) && FirstOf(cs)[Key(cs[i])] == cs[i]
    ensures KeyedByPrimaryKey(FirstOf(cs))
  {
    FirstOfKeys(cs);
    FirstOfKeyed(cs);
    forall i | 0 <= i < |cs| && (forall j :: 0 <= j < i ==> Key(cs[j]) != Key(cs[i]))
      ensures Key(cs[i]) in FirstOf(cs) && FirstOf(cs)[Key(cs[i])] == cs[i]
    {
      FirstOfFirst(cs, i);
    }
  }

  /**
   * When every new row belongs to the booking, replacing its rows leaves the
   * other bookings' rows as they were and gives the booking exactly the
   * first new row of each quad.
   */
  lemma ReplaceCascosSplit(t: map<CascoKey, Casco>, idReserva: Int32, cs: seq<Casco>)
    requires forall i :: 0 <= i < |cs| ==> cs[i].idReserva == idReserva
    ensures ReplaceCascos(t, idReserva, cs) == WithoutReserva(t, idReserva) + FirstOf(cs)
  {
    InsertAllClosedForm(WithoutReserva(t, idReserva), cs);
    FirstOfSpec(cs);
    var a, b := WithoutReserva(t, idReserva), FirstOf(cs);
    assert forall k :: k in b ==> k !in a by {
      forall k | k in b ensures k !in a {
        var i :| 0 <= i < |cs| && Key(cs[i]) == k;
      }
    }
    assert b + a == a + b;
  }

  /** Replacing a booking's rows twice with the same list is the same as once. */
  lemma ReplaceCascosIdempotent(t: map<CascoKey, Casco>, idReserva: Int32, cs: seq<Casco>)
    requires forall i :: 0 <= i < |cs| ==> cs[i].idReserva == idReserva
    ensures ReplaceCascos(ReplaceCascos(t, idReserva, cs), idReserva, cs) == ReplaceCascos(t, idReserva, cs)
  {
    var once := ReplaceCascos(t, idReserva, cs);
    ReplaceCascosSplit(t, idReserva, cs);
    ReplaceCascosSplit(once, idReserva, cs);
    FirstOfSpec(cs);
    assert WithoutReserva(once, idReserva) == WithoutReserva(t, idReserva) by {
      forall k | k in FirstOf(cs) ensures k.1 == idReserva {
        var i :| 0 <= i < |cs| && Key(cs[i]) == k;
      }
    }
  }

  /**
   * After the replacement commits with a list of distinct quads for the
   * booking, `getCascosForReserva` returns exactly that list's elements.
   */
  lemma CascosForReservaAfterReplace(t: map<CascoKey, Casco>, idReserva: Int32, cs: seq<Casco>)
    requires KeyedByPrimaryKey(t)
    requires forall i :: 0 <= i < |cs| ==> cs[i].idReserva == idReserva
    requires forall i, j :: 0 <= i < j < |cs| ==> cs[i].matriculaQuad != cs[j].matriculaQuad
    ensures KeyedByPrimaryKey(ReplaceCascos(t, idReserva, cs))
    ensures GetCascosForReserva(ReplaceCascos(t, idReserva, cs), idReserva) == set i | 0 <= i < |cs| :: cs[i]
  {
    var r := ReplaceCascos(t, idReserva, cs);
    ReplaceCascosSplit(t, idReserva, cs);
    FirstOfSpec(cs);
    forall c ensures c in GetCascosForReserva(r, idReserva) <==> c in set i | 0 <= i < |cs| :: cs[i] {
      if c in set i | 0 <= i < |cs| :: cs[i] {
        var i :| 0 <= i < |cs| && cs[i] == c;
        assert forall j :: 0 <= j < i ==> Key(cs[j]) != Key(cs[i]);
        assert r[Key(c)] == c;
      }
      if c in GetCascosForReserva(r, idReserva) {
        var k :| k in r && r[k] == c;
        assert k in FirstOf(cs);
        var i :| 0 <= i < |cs| && Key(cs[i]) == k;
        assert forall j :: 0 <= j < i ==> Key(cs[j]) != Key(cs[i]);
      }
    }
  }

  /** The replacement leaves every other booking's helmet rows untouched. */
  lemma ReplaceCascosKeepsOthers(t: map<CascoKey, Casco>, idReserva: Int32, cs: seq<Casco>, other: Int32)
    requires KeyedByPrimaryKey(t)
    requires forall i :: 0 <= i < |cs| ==> cs[i].idReserva == idReserva
    requires other != idReserva
    ensures KeyedByPrimaryKey(ReplaceCascos(t, idReserva, cs))
    ensures GetCascosForReserva(ReplaceCascos(t, idReserva, cs), other) == GetCascosForReserva(t, other)
  {
    ReplaceCascosSplit(t, idReserva, cs);
    FirstOfSpec(cs);
    var r := ReplaceCascos(t, idReserva, cs);
    forall k | k in FirstOf(cs) ensures k.1 == idReserva {
      var i :| 0 <= i < |cs| && Key(cs[i]) == k;
    }
    forall c ensures c in GetCascosForReserva(r, other) <==> c in GetCascosForReserva(t, other) {
      if c in GetCascosForReserva(t, other) {
        var k :| k in t && t[k] == c;
        assert r[k] == c;
      }
    }
  }
}
