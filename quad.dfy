/**
 * The `Quad` entity (table `quad`): a rentable quad identified by its
 * plate (`matricula`), with a type, a price in cents and a description,
 * and the static validators the repository and the edit screen use.
 * A Java `null` is `None`.
 */
module QuadEntity {
  import opened JavaLang

  datatype TipoQuad = Monoplaza | Biplaza

  /** `Enum.name()`. */
  function TipoName(t: TipoQuad): string
  {
    match t
    case Monoplaza => "Monoplaza"
    case Biplaza => "Biplaza"
  }

  /** Seats of each type; the helmet count of a rental never exceeds it. */
  function Seats(t: TipoQuad): nat
  {
    match t
    case Monoplaza => 1
    case Biplaza => 2
  }

  datatype Quad = Quad(matricula: Option<string>, tipo: Option<TipoQuad>, precio: Int32, descripcion: Option<string>)

  const MSG_MATRICULA_NULA: string := "La matrícula no puede ser nula"
  const MSG_MATRICULA_LONGITUD: string := "La matrícula debe tener 7 caracteres"
  const MSG_MATRICULA_FORMATO: string := "La matrícula debe tener 4 números y 3 letras"
  const MSG_PRECIO: string := "El precio debe ser mayor que 0"
  const MSG_TIPO: string := "El tipo no puede ser nulo"

  /** The plate pattern `^[0-9]{4}[A-Za-z]{3}$`: four ASCII digits then three ASCII letters. */
  predicate PlatePattern(s: string)
  {
    |s| == 7 && AllDigits(s[..4]) && forall i :: 4 <= i < 7 ==> IsAsciiLetter(s[i])
  }

  /**
   * `validateMatricula`: None when valid, else the message of the first
   * failing check (null, then length, then pattern). The length is Java's
   * `String.length()`, counted in UTF-16 units.
   */
  function ValidateMatricula(m: Option<string>): (r: Option<string>)
    ensures r.None? <==> m.Some? && PlatePattern(m.value)
    ensures m.None? ==> r == Some(MSG_MATRICULA_NULA)
    ensures m.Some? && Utf16Length(m.value) != 7 ==> r == Some(MSG_MATRICULA_LONGITUD)
    ensures m.Some? && Utf16Length(m.value) == 7 && !PlatePattern(m.value) ==> r == Some(MSG_MATRICULA_FORMATO)
  {
    if m.None? then Some(MSG_MATRICULA_NULA)
    else
      PlateLength(m.value);
      if Utf16Length(m.value) != 7 then Some(MSG_MATRICULA_LONGITUD)
      else if !PlatePattern(m.value) then Some(MSG_MATRICULA_FORMATO)
      else None
  }

  /** A plate that matches the pattern is seven BMP chars, so seven UTF-16 units. */
  lemma PlateLength(s: string)
    ensures PlatePattern(s) ==> Utf16Length(s) == 7
  {
    if PlatePattern(s) {
      Utf16LengthOfBmp(s);
    }
  }

  /** `validatePrecio`: the price in cents must be strictly positive. */
  function ValidatePrecio(precio: Int32): (r: Option<string>)
    ensures r.None? <==> precio > 0
    ensures r.Some? ==> r.value == MSG_PRECIO
  {
    if precio <= 0 then Some(MSG_PRECIO) else None
  }

  /** `validateTipo`: the type must be present. */
  function ValidateTipo(tipo: Option<TipoQuad>): (r: Option<string>)
    ensures r.None? <==> tipo.Some?
    ensures r.Some? ==> r.value == MSG_TIPO
  {
    if tipo.None? then Some(MSG_TIPO) else None
  }

  /** The behaviour the unit tests pin down for the plate validator. */
  lemma ValidateMatriculaExamples()
    ensures ValidateMatricula(Some("1234ABC")) == None
    ensures ValidateMatricula(Some("1234abc")) == None
  {
  }

  /** The unit tests' plates of the wrong length. */
  lemma ValidateMatriculaLengthExamples()
    ensures ValidateMatricula(Some("1111AB")) == Some(MSG_MATRICULA_LONGITUD)
    ensures ValidateMatricula(Some("1111ABCD")) == Some(MSG_MATRICULA_LONGITUD)
    ensures ValidateMatricula(Some("")) == Some(MSG_MATRICULA_LONGITUD)
  {
    Utf16LengthOfBmp("1111AB");
    Utf16LengthOfBmp("1111ABCD");
  }

  /**
   * Plates of the right length that break the pattern, among them one with a
   * char outside the BMP: six chars but seven UTF-16 units, so Java's length
   * check passes and the pattern check rejects it.
   */
  lemma ValidateMatriculaPatternExamples()
    ensures ValidateMatricula(Some("ABC1234")) == Some(MSG_MATRICULA_FORMATO)
    ensures ValidateMatricula(Some("12\U{1F600}ABC")) == Some(MSG_MATRICULA_FORMATO)
  {
    Utf16LengthOfBmp("ABC1234");
    assert !IsAsciiDigit("ABC1234"[0]);
    assert !AllDigits("ABC1234"[..4]);
    NonBmpPlateLength();
    assert !IsAsciiDigit("12\U{1F600}ABC"[2]);
    assert !AllDigits("12\U{1F600}ABC"[..4]);
  }

  /** Six chars, one of them outside the BMP: seven UTF-16 units. */
  lemma NonBmpPlateLength()
    ensures Utf16Length("12\U{1F600}ABC") == 7
  {
    var e := "12\U{1F600}ABC";
    assert e[3..] == "ABC";
    Utf16LengthOfBmp("ABC");
    assert !InBmp(e[2]) && e[2..][1..] == e[3..];
    assert Utf16Length(e[2..]) == 5;
    assert e[1..][1..] == e[2..];
    assert Utf16Length(e[1..]) == 6;
  }
}
