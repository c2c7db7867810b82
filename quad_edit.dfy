/**
 * `QuadEdit`: the form that creates a quad or edits one. `handleSave` runs
 * its guards in order, stopping with a message at the first that fails,
 * converts the price from euros to cents and inserts (create mode) or
 * updates (edit mode, the plate forced back to the original key).
 */
module QuadEdit {
  import opened JavaLang
  import opened QuadEntity
  import opened Database
  import Converters
  import QuadRepository

  /**
   * What the form holds when a save button is pressed: the three text
   * fields, and the label of the checked type radio button (None: none
   * checked).
   */
  datatype QuadForm = QuadForm(matricula: string, precio: string, descripcion: string, tipo: Option<string>)

  /** The message a failing guard shows. */
  datatype Toast =
    | EmptyNotSaved         // a required field is empty, or no type is checked
    | PrecioNoNumerico      // the price text is not an `int`
    | TipoNoValido          // the checked label is not a type name
    | Invalid(message: string)  // a validator's message

  /** What `handleSave` decides: stop with a message, or write this quad. */
  datatype Decision = Reject(toast: Toast) | Write(quad: Quad)

  /** The screen after a save: still open with a message, or finished after a create or an update. */
  datatype Outcome = Stay(toast: Toast) | Finished(updated: bool)

  /** Euros to cents as the screen computes it: `precio * 100` in Java `int`. */
  function CentsAsWritten(euros: Int32): (c: Int32)
    ensures -21474836 <= euros <= 21474836 ==> c == 100 * euros
  {
    Wrap32(euros * 100)
  }

  /** Euros to cents without overflow: None when 100 × euros is not an `int`. */
  function CentsChecked(euros: Int32): (c: Option<Int32>)
    ensures c.Some? <==> INT_MIN <= 100 * euros <= INT_MAX
    ensures c.Some? ==> c.value == 100 * euros && (c.value > 0 <==> euros > 0)
  {
    var cents := 100 * euros;
    if INT_MIN <= cents <= INT_MAX then Some(cents) else None
  }

  /** Where the checked conversion gives a value, the screen's conversion gives the same. */
  lemma CentsAgree(euros: Int32)
    requires CentsChecked(euros).Some?
    ensures CentsAsWritten(euros) == CentsChecked(euros).value
  {
  }

  /**
   * The overflow: 42949673 euros is 4294967300 cents, which wraps to 4 in an
   * `int`; the price check sees 4 > 0 and the quad is saved at 0.04 euros.
   */
  lemma CentsOverflowAccepted()
    ensures CentsAsWritten(42949673) == 4
    ensures ValidatePrecio(CentsAsWritten(42949673)).None?
    ensures CentsChecked(42949673).None?
  {
  }

  /**
   * The guards of `handleSave`, in order: empty plate or price text; price
   * text not an `int`; no type checked; label not a type name; plate
   * invalid; price in cents not positive. The quad written carries the
   * original key in edit mode (`quadId`), the typed plate otherwise.
   */
  function Decide(form: QuadForm, quadId: Option<string>): (d: Decision)
    ensures d.Write? <==>
      form.matricula != [] && form.precio != [] && ParseInt(form.precio).Some?
      && form.tipo.Some? && Converters.IsTipoName(form.tipo.value) && PlatePattern(form.matricula)
      && CentsAsWritten(ParseInt(form.precio).value) > 0
    ensures form.matricula == [] || form.precio == [] ==> d == Reject(EmptyNotSaved)
    ensures form.matricula != [] && form.precio != [] && ParseInt(form.precio).None? ==> d == Reject(PrecioNoNumerico)
    ensures d.Reject? && d.toast.Invalid? ==>
      form.tipo.Some? && Converters.IsTipoName(form.tipo.value)
      && d.toast.message in {MSG_MATRICULA_LONGITUD, MSG_MATRICULA_FORMATO, MSG_PRECIO}
    ensures d.Write? ==>
      d.quad.matricula == Some(if quadId.Some? then quadId.value else form.matricula)
      && d.quad.tipo.Some? && TipoName(d.quad.tipo.value) == form.tipo.value
      && d.quad.precio == CentsAsWritten(ParseInt(form.precio).value) && d.quad.precio > 0
      && d.quad.descripcion == Some(form.descripcion)
    ensures d.Write? && quadId.None? ==> QuadRepository.ValidateQuad(Some(d.quad))
  {
    if form.matricula == [] || form.precio == [] then Reject(EmptyNotSaved)
    else match ParseInt(form.precio)
      case None => Reject(PrecioNoNumerico)
      case Some(euros) =>
        if form.tipo.None? then Reject(EmptyNotSaved)
        else if !Converters.IsTipoName(form.tipo.value) then Reject(TipoNoValido)
        else
          var tipo := Converters.FromString(form.tipo);
          match ValidateMatricula(Some(form.matricula))
          case Some(msg) => Reject(Invalid(msg))
          case None =>
            var cents := CentsAsWritten(euros);
            match ValidatePrecio(cents)
            case Some(msg) => Reject(Invalid(msg))
            case None =>
              Write(Quad(Some(if quadId.Some? then quadId.value else form.matricula), tipo, cents, Some(form.descripcion)))
  }

  /**
   * `handleSave`: on a failing guard the message and no write; otherwise
   * `update` in edit mode and `insert` in create mode, with the repository's
   * effect on the table, and the screen finishes whatever the write did.
   */
  method HandleSave(db: AppDatabase, form: QuadForm, quadId: Option<string>, w: Wait) returns (outcome: Outcome)
    requires db.Valid()
    modifies db`quads, db`lastRowId
    ensures db.Valid()
    ensures Decide(form, quadId).Reject? ==>
      outcome == Stay(Decide(form, quadId).toast) && db.quads == old(db.quads)
    ensures Decide(form, quadId).Write? ==>
      var q := Decide(form, quadId).quad;
      var m := q.matricula.value;
      outcome == Finished(quadId.Some?)
      && (quadId.Some? ==>
            db.quads == if QuadRepository.ValidateQuad(Some(q)) && TaskRuns(w) && m in old(db.quads)
                        then old(db.quads)[m := q] else old(db.quads))
      && (quadId.None? ==>
            db.quads == if TaskRuns(w) && m !in old(db.quads) then old(db.quads)[m := q] else old(db.quads))
  {
    var d := Decide(form, quadId);
    if d.Reject? {
      return Stay(d.toast);
    }
    if quadId.Some? {
      var _ := QuadRepository.Update(db, Some(d.quad), w);
    } else {
      var _ := QuadRepository.Insert(db, Some(d.quad), w);
    }
    outcome := Finished(quadId.Some?);
  }

  // ---------------------------------------------------------------------
  // Edit mode: the form as `setupEditMode` fills it from the quad's extras.

  /** `String.valueOf(precio / 100)`: the stored cents shown as whole euros. */
  function PriceText(precio: Int32): string
  {
    var euros: int := JavaDiv(precio, 100);
    IntToString(euros)
  }

  function UpperAscii(c: char): char
  {
    if 'a' <= c <= 'z' then (c as int - 32) as char else c
  }

  /** `String.equalsIgnoreCase`, for ASCII letters. */
  predicate EqualsIgnoreCase(a: string, b: string)
  {
    |a| == |b| && forall i :: 0 <= i < |a| ==> UpperAscii(a[i]) == UpperAscii(b[i])
  }

  /**
   * The form in edit mode: the plate, the price in whole euros, the
   * description (null shows as empty) and the radio whose type matches the
   * type extra ignoring case; `labels` are the two radio buttons' texts.
   */
  function EditForm(matricula: string, precio: Int32, descripcion: Option<string>, tipo: Option<string>,
                    labels: (string, string)): QuadForm
  {
    var checked :=
      if tipo.Some? && EqualsIgnoreCase("Monoplaza", tipo.value) then Some(labels.0)
      else if tipo.Some? && EqualsIgnoreCase("Biplaza", tipo.value) then Some(labels.1)
      else None;
    QuadForm(matricula, PriceText(precio), if descripcion.Some? then descripcion.value else "", checked)
  }

  /**
   * Opening a stored quad and saving it unchanged writes it back with the
   * cents dropped from its price; a price under one euro shows as 0 and the
   * save is refused.
   */
  lemma EditThenSave(q: Quad)
    requires q.matricula.Some? && PlatePattern(q.matricula.value)
    requires q.tipo.Some? && q.precio > 0 && q.descripcion.Some?
    ensures var d := Decide(EditForm(q.matricula.value, q.precio, q.descripcion,
                                     Some(TipoName(q.tipo.value)), ("Monoplaza", "Biplaza")), q.matricula);
      (q.precio >= 100 ==> d == Write(q.(precio := q.precio - q.precio % 100)))
      && (q.precio < 100 ==> d == Reject(Invalid(MSG_PRECIO)))
  {
    var euros: int := q.precio / 100;
    ParseIntOfIntToString(euros);
    var form := EditForm(q.matricula.value, q.precio, q.descripcion, Some(TipoName(q.tipo.value)), ("Monoplaza", "Biplaza"));
    assert form.tipo == Some(TipoName(q.tipo.value)) by {
      match q.tipo.value
      case Monoplaza =>
        assert EqualsIgnoreCase("Monoplaza", "Monoplaza");
      case Biplaza =>
        assert !EqualsIgnoreCase("Monoplaza", "Biplaza");
        assert EqualsIgnoreCase("Biplaza", "Biplaza");
    }
    assert form.precio != [] by {
      assert ParseInt(form.precio).Some?;
    }
    assert CentsAsWritten(euros) == q.precio - q.precio % 100;
  }
}
