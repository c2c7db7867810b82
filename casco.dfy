/**
 * The `Casco` entity (table `casco`): how many helmets go with one quad
 * in one booking. Its primary key is the pair (matriculaQuad, idReserva);
 * both columns are foreign keys with ON DELETE CASCADE, so deleting a
 * quad or a booking deletes its helmet rows. The entity itself does not
 * range-check `numCascos`.
 */
module CascoEntity {
  import opened JavaLang

  datatype Casco = Casco(numCascos: Int32, matriculaQuad: string, idReserva: Int32)

  /** The composite primary key. */
  type CascoKey = (string, Int32)

  function Key(c: Casco): CascoKey
  {
    (c.matriculaQuad, c.idReserva)
  }

  /** Every row of the table is stored under its own primary key. */
  ghost predicate KeyedByPrimaryKey(cascos: map<CascoKey, Casco>)
  {
    forall k :: k in cascos ==> Key(cascos[k]) == k
  }

  /** What the cascade leaves when the quad with plate `m` is deleted. */
  function WithoutQuad(cascos: map<CascoKey, Casco>, m: string): map<CascoKey, Casco>
  {
    map k | k in cascos && k.0 != m :: cascos[k]
  }

  /** What the cascade (and `deleteCascosByReservaId`) leaves when booking `id` goes. */
  function WithoutReserva(cascos: map<CascoKey, Casco>, id: int): map<CascoKey, Casco>
  {
    map k | k in cascos && k.1 != id :: cascos[k]
  }

  /** After the quad cascade no helmet row names the quad, and every other row survives. */
  lemma WithoutQuadSpec(cascos: map<CascoKey, Casco>, m: string)
    requires KeyedByPrimaryKey(cascos)
    ensures KeyedByPrimaryKey(WithoutQuad(cascos, m))
    ensures forall c :: c in WithoutQuad(cascos, m).Values <==> c in cascos.Values && c.matriculaQuad != m
  {
    var r := WithoutQuad(cascos, m);
    forall c ensures c in r.Values <==> c in cascos.Values && c.matriculaQuad != m {
      if c in cascos.Values && c.matriculaQuad != m {
        var k :| k in cascos && cascos[k] == c;
        assert r[k] == c;
      }
    }
  }

  /** After the booking cascade no helmet row names the booking, and every other row survives. */
  lemma WithoutReservaSpec(cascos: map<CascoKey, Casco>, id: int)
    requires KeyedByPrimaryKey(cascos)
    ensures KeyedByPrimaryKey(WithoutReserva(cascos, id))
    ensures forall c :: c in WithoutReserva(cascos, id).Values <==> c in cascos.Values && c.idReserva != id
  {
    var r := WithoutReserva(cascos, id);
    forall c ensures c in r.Values <==> c in cascos.Values && c.idReserva != id {
      if c in cascos.Values && c.idReserva != id {
        var k :| k in cascos && cascos[k] == c;
        assert r[k] == c;
      }
    }
  }
}
