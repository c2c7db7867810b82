/**
 * The Room type converters that store a `TipoQuad` as its name.
 */
module Converters {
  import opened JavaLang
  import opened QuadEntity

  /** The strings `TipoQuad.valueOf` accepts; any other throws IllegalArgumentException. */
  predicate IsTipoName(s: string)
  {
    s == "Monoplaza" || s == "Biplaza"
  }

  /** `fromString`: null stays null, a name becomes its constant. */
  function FromString(value: Option<string>): (r: Option<TipoQuad>)
    requires value.Some? ==> IsTipoName(value.value)
    ensures r.None? <==> value.None?
    ensures r.Some? ==> TipoName(r.value) == value.value
  {
    if value.None? then None
    else if value.value == "Monoplaza" then Some(Monoplaza)
    else Some(Biplaza)
  }

  /** `tipoQuadToString`: null stays null, a constant becomes its name. */
  function TipoQuadToString(tipo: Option<TipoQuad>): (r: Option<string>)
    ensures r.None? <==> tipo.None?
    ensures r.Some? ==> IsTipoName(r.value)
  {
    if tipo.None? then None else Some(TipoName(tipo.value))
  }

  /** Storing a type and reading it back gives the same type. */
  lemma FromStringOfToString(tipo: Option<TipoQuad>)
    ensures FromString(TipoQuadToString(tipo)) == tipo
  {
  }

  /** Reading a stored name and storing it again gives the same text. */
  lemma ToStringOfFromString(value: Option<string>)
    requires value.Some? ==> IsTipoName(value.value)
    ensures TipoQuadToString(FromString(value)) == value
  {
  }

  /** Distinct types are stored as distinct names. */
  lemma TipoNameInjective(a: TipoQuad, b: TipoQuad)
    ensures TipoName(a) == TipoName(b) <==> a == b
  {
    if a != b {
      assert TipoName(a)[0] != TipoName(b)[0];
    }
  }
}
