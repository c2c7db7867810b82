/**
 * `ReservaEdit`: the booking form. `saveReservaAndContinue` runs its guards
 * in order, inserts a new booking (id 0) or updates the one being edited,
 * and continues to the helmet selection unless the resulting id is -1.
 */
module ReservaEdit {
  import opened JavaLang
  import opened ReservaEntity
  import opened Database
  import ReservaRepository
  import ReservaDao
  import ReservaViewModel

  /**
   * The form's fields when "next" is pressed. A date field is None while
   * empty, else the timestamp the date picker wrote.
   */
  datatype ReservaForm = ReservaForm(nombre: string, movil: string, fechaRecogida: Option<Int64>,
                                     fechaDevolucion: Option<Int64>)

  /** Why the screen stays put. */
  datatype Message =
    | NombreMovilObligatorios  // name or mobile empty
    | MovilNoValido            // the error set on the mobile field
    | SeleccioneFechas         // a date not chosen
    | ErrorAlGuardar           // the resulting id is -1

  /** Where the screen goes: stays with a message, or opens the helmet selection for a booking. */
  datatype Navigation = Stay(message: Message) | ToCascoEdit(idReserva: Int32, editMode: bool)

  /** The pattern `^[67][0-9]{8}$`: nine ASCII digits, the first a 6 or a 7. */
  predicate MobilePattern(s: string)
  {
    |s| == 9 && (s[0] == '6' || s[0] == '7') && AllDigits(s)
  }

  /** Every accepted mobile parses as an `int`, between 600000000 and 799999999. */
  lemma MobileParses(s: string)
    requires MobilePattern(s)
    ensures ParseInt(s).Some?
    ensures 600000000 <= ParseInt(s).value <= 799999999
    ensures ParseInt(s).value / 100000000 == Digit(s[0])
  {
    DigitsValueHead(s);
    DigitsValueBelow(s[1..]);
    assert Pow10(8) == 100000000;
    assert 6 <= Digit(s[0]) <= 7;
  }

  /** The mobile as a number; only asked of an accepted text. */
  function MobileValue(s: string): (v: Int32)
    requires MobilePattern(s)
    ensures ParseInt(s) == Some(v)
    ensures 600000000 <= v <= 799999999
  {
    MobileParses(s);
    ParseInt(s).value
  }

  /** Whether every guard of the form passes. */
  predicate FormComplete(form: ReservaForm)
  {
    form.nombre != [] && form.movil != [] && MobilePattern(form.movil)
    && form.fechaRecogida.Some? && form.fechaDevolucion.Some?
  }

  /** The booking built from a complete form. */
  function FormReserva(form: ReservaForm, id: Int32, precioTotal: Int32): (r: Reserva)
    requires FormComplete(form)
    ensures r.idReserva == id && r.nombreCliente == Some(form.nombre) && r.precioTotal == precioTotal
    ensures r.fechaRecogida == form.fechaRecogida.value && r.fechaDevolucion == form.fechaDevolucion.value
    ensures IntToString(r.numeroMovil) == form.movil
  {
    var v := MobileValue(form.movil);
    MobileDigits(form.movil);
    Reserva(id, Some(form.nombre), v, form.fechaRecogida.value, form.fechaDevolucion.value, precioTotal)
  }

  /** An accepted mobile is exactly what `String.valueOf` prints for its number. */
  lemma MobileDigits(s: string)
    requires MobilePattern(s)
    ensures IntToString(MobileValue(s)) == s
  {
    NatDigitsOfValue(s);
  }

  /** Digits without a leading zero are what `String.valueOf` prints for their value. */
  lemma {:induction false} NatDigitsOfValue(s: string)
    requires s != [] && AllDigits(s) && s[0] != '0'
    ensures NatDigits(DigitsValue(s)) == s
    decreases |s|
  {
    var init := s[..|s| - 1];
    if init == [] {
      assert s == [s[0]];
    } else {
      assert init[0] == s[0];
      DigitsValueHead(init);
      NatDigitsOfValue(init);
      assert NatDigits(DigitsValue(s)) == NatDigits(DigitsValue(init)) + [DigitChar(Digit(s[|s| - 1]))];
      assert s == init + [s[|s| - 1]];
    }
  }

  /**
   * The booking screen: the id of the booking being edited (`mRowId`, None
   * when creating), the price kept from the loaded booking, and the view
   * model it saves through.
   */
  class ReservaEdit {
    var rowId: Option<Int32>
    var currentPrecioTotal: Int32
    var viewModel: ReservaViewModel.ReservaViewModel

    /** Opened to create (no id) or to edit booking `rowId`; the price starts at 0. */
    constructor (rowId: Option<Int32>, viewModel: ReservaViewModel.ReservaViewModel)
      ensures this.rowId == rowId && this.viewModel == viewModel && currentPrecioTotal == 0
    {
      this.rowId := rowId;
      this.viewModel := viewModel;
      currentPrecioTotal := 0;
    }

    /** The observer of the edited booking: keeps its price (a null booking changes nothing). */
    method OnReservaLoaded(reserva: Option<Reserva>)
      modifies this`currentPrecioTotal
      ensures currentPrecioTotal == if reserva.Some? then reserva.value.precioTotal else old(currentPrecioTotal)
    {
      if reserva.Some? {
        currentPrecioTotal := reserva.value.precioTotal;
      }
    }

    /**
     * `saveReservaAndContinue`. The guards, in order: name or mobile empty;
     * mobile not matching; a date not chosen; each stays with no write. Then
     * a new booking (id 0) is inserted and the screen continues with the
     * id it got, or stays when the insert returned -1; an edited booking is
     * updated and the screen continues with its own id whatever the update
     * did. Continuing after a create always reaches the row just written.
     */
    method SaveReservaAndContinue(db: AppDatabase, form: ReservaForm, w: Wait) returns (nav: Navigation)
      requires db.Valid()
      modifies db`reservas, db`reservaSeq
      ensures db.Valid()
      ensures form.nombre == [] || form.movil == [] ==> nav == Stay(NombreMovilObligatorios)
      ensures form.nombre != [] && form.movil != [] && !MobilePattern(form.movil) ==> nav == Stay(MovilNoValido)
      ensures (form.nombre != [] && form.movil != [] && MobilePattern(form.movil)
               && (form.fechaRecogida.None? || form.fechaDevolucion.None?)) ==> nav == Stay(SeleccioneFechas)
      ensures !FormComplete(form) ==> db.reservas == old(db.reservas) && db.reservaSeq == old(db.reservaSeq)
      ensures FormComplete(form) && rowId.None? ==>
        var r := FormReserva(form, 0, currentPrecioTotal);
        var id := old(db.reservaSeq) + 1;
        var written := ReservaRepository.ValidateReserva(Some(r)) && TaskRuns(w) && old(db.reservaSeq) < INT_MAX;
        db.reservas == (if written then old(db.reservas)[id := SetIdReserva(r, id)] else old(db.reservas))
        && nav == (if written && w.Completed? then ToCascoEdit(id, false) else Stay(ErrorAlGuardar))
      ensures FormComplete(form) && rowId.Some? ==>
        var r := FormReserva(form, rowId.value, currentPrecioTotal);
        db.reservas == (if ReservaRepository.ValidateReserva(Some(r)) && TaskRuns(w) && r.idReserva in old(db.reservas)
                        then old(db.reservas)[r.idReserva := r] else old(db.reservas))
        && nav == (if rowId.value != -1 then ToCascoEdit(rowId.value, true) else Stay(ErrorAlGuardar))
      ensures nav.ToCascoEdit? && !nav.editMode ==>
        nav.idReserva in db.reservas && nav.idReserva !in old(db.reservas)
        && db.reservas[nav.idReserva].nombreCliente == Some(form.nombre)
        && IntToString(db.reservas[nav.idReserva].numeroMovil) == form.movil
    {
      if form.nombre == [] || form.movil == [] {
        return Stay(NombreMovilObligatorios);
      }
      if !MobilePattern(form.movil) {
        return Stay(MovilNoValido);
      }
      if form.fechaRecogida.None? || form.fechaDevolucion.None? {
        return Stay(SeleccioneFechas);
      }
      var id := if rowId.None? then 0 else rowId.value;
      var reserva := FormReserva(form, id, currentPrecioTotal);
      var idResultado: Int32;
      if rowId.None? {
        idResultado := viewModel.Insert(db, Some(reserva), w);
      } else {
        viewModel.Update(db, Some(reserva), w);
        idResultado := rowId.value;
      }
      if idResultado != -1 {
        nav := ToCascoEdit(idResultado, rowId.Some?);
      } else {
        nav := Stay(ErrorAlGuardar);
      }
    }
  }
}
