/**
 * `CascoEdit.saveData`: turns the quad selection into helmet rows for the
 * booking, totals the selected quads' prices in a Java `int`, and saves
 * both unless the overlap check objects.
 */
module CascoEdit {
  import opened JavaLang
  import opened QuadEntity
  import opened ReservaEntity
  import opened CascoEntity
  import opened Database
  import CascoDao
  import ReservaRepository
  import CascoRepository
  import CascoSelectionViewModel
  import opened CascoSelectionListAdapter

  /**
   * The price the inner loop adds for plate `m`: that of the first quad in
   * the list with the plate, or nothing (0) when no quad has it.
   */
  function FirstPrice(quads: seq<Quad>, m: string): Int32
    decreases |quads|
  {
    if quads == [] then 0
    else if quads[0].matricula == Some(m) then quads[0].precio
    else FirstPrice(quads[1..], m)
  }

  /** The first quad with the plate decides the price. */
  lemma {:induction false} FirstPriceAt(quads: seq<Quad>, m: string, i: nat)
    requires i < |quads| && quads[i].matricula == Some(m)
    requires forall j :: 0 <= j < i ==> quads[j].matricula != Some(m)
    ensures FirstPrice(quads, m) == quads[i].precio
    decreases i
  {
    if i > 0 {
      assert quads[0].matricula != Some(m);
      assert forall j :: 0 <= j < i - 1 ==> quads[1..][j] == quads[j + 1];
      FirstPriceAt(quads[1..], m, i - 1);
    }
  }

  /** A plate no quad has adds nothing. */
  lemma {:induction false} FirstPriceAbsent(quads: seq<Quad>, m: string)
    requires forall i :: 0 <= i < |quads| ==> quads[i].matricula != Some(m)
    ensures FirstPrice(quads, m) == 0
    decreases |quads|
  {
    if quads != [] {
      assert quads[0].matricula != Some(m);
      assert forall j :: 0 <= j < |quads| - 1 ==> quads[1..][j] == quads[j + 1];
      FirstPriceAbsent(quads[1..], m);
    }
  }

  /** The true (unbounded) sum of FirstPrice over a listing of plates. */
  function PriceSum(order: seq<string>, quads: seq<Quad>): int
    decreases |order|
  {
    if order == [] then 0 else PriceSum(order[..|order| - 1], quads) + FirstPrice(quads, order[|order| - 1])
  }

  /** The same sum over a set of plates, independent of any order. */
  ghost function SelectedTotal(keys: set<string>, quads: seq<Quad>): int
    decreases |keys|
  {
    if keys == {} then 0
    else
      var k :| k in keys;
      SelectedTotal(keys - {k}, quads) + FirstPrice(quads, k)
  }

  /** Any plate can be taken out of the set first. */
  lemma {:induction false} SelectedTotalRemove(keys: set<string>, quads: seq<Quad>, m: string)
    requires m in keys
    ensures SelectedTotal(keys, quads) == SelectedTotal(keys - {m}, quads) + FirstPrice(quads, m)
    decreases |keys|
  {
    var k :| k in keys && SelectedTotal(keys, quads) == SelectedTotal(keys - {k}, quads) + FirstPrice(quads, k);
    if k != m {
      SelectedTotalRemove(keys - {k}, quads, m);
      SelectedTotalRemove(keys - {m}, quads, k);
      assert keys - {k} - {m} == keys - {m} - {k};
    }
  }

  /** Each element of the listing once. */
  predicate NoDuplicates(order: seq<string>)
  {
    forall i, j :: 0 <= i < j < |order| ==> order[i] != order[j]
  }

  /** Summing along a duplicate-free listing gives the order-free total of its set. */
  lemma {:induction false} PriceSumIsSelectedTotal(order: seq<string>, quads: seq<Quad>)
    requires NoDuplicates(order)
    ensures PriceSum(order, quads) == SelectedTotal(set i | 0 <= i < |order| :: order[i], quads)
    decreases |order|
  {
    if order != [] {
      var init, last := order[..|order| - 1], order[|order| - 1];
      PriceSumIsSelectedTotal(init, quads);
      var s := set i | 0 <= i < |order| :: order[i];
      var sInit := set i | 0 <= i < |init| :: init[i];
      assert s - {last} == sInit by {
        forall x ensures x in s - {last} <==> x in sInit {
          if x in s - {last} {
            var i :| 0 <= i < |order| && order[i] == x;
            assert init[i] == x;
          }
          if x in sInit {
            var i :| 0 <= i < |init| && init[i] == x;
            assert order[i] == x;
          }
        }
      }
      SelectedTotalRemove(s, quads, last);
    }
  }

  /** A duplicate-free listing is as long as its set. */
  lemma {:induction false} ListingLength(order: seq<string>)
    requires NoDuplicates(order)
    ensures |set i | 0 <= i < |order| :: order[i]| == |order|
    decreases |order|
  {
    if order != [] {
      var init, last := order[..|order| - 1], order[|order| - 1];
      ListingLength(init);
      var s := set i | 0 <= i < |order| :: order[i];
      var sInit := set i | 0 <= i < |init| :: init[i];
      assert s == sInit + {last} by {
        forall x | x in s ensures x in sInit + {last} {
          var i :| 0 <= i < |order| && order[i] == x;
          if i < |init| {
            assert init[i] == x;
          }
        }
      }
      assert last !in sInit;
    }
  }

  /** `order` lists the keys of the selection, each once (its HashMap iteration order). */
  predicate IsListingOf(order: seq<string>, keys: set<string>)
  {
    NoDuplicates(order) && (set i | 0 <= i < |order| :: order[i]) == keys
  }

  /** Adding the next plate's first price to the wrapped running total keeps it the wrapped sum. */
  lemma RunningTotalStep(order: seq<string>, i: nat, quads: seq<Quad>, before: Int32, after: Int32)
    requires i < |order|
    requires before == Wrap32(PriceSum(order[..i], quads))
    requires after == Wrap32(before + FirstPrice(quads, order[i]))
    ensures after == Wrap32(PriceSum(order[..i + 1], quads))
  {
    assert order[..i + 1][..i] == order[..i];
    WrapAdd(PriceSum(order[..i], quads), FirstPrice(quads, order[i]));
  }

  /** The helmet rows `saveData` builds: one per selection entry, in iteration order. */
  function SelectionCascos(selection: map<string, Int32>, order: seq<string>, idReserva: Int32): (cs: seq<Casco>)
    requires forall i :: 0 <= i < |order| ==> order[i] in selection
    ensures |cs| == |order|
    ensures forall i :: 0 <= i < |cs| ==> cs[i].idReserva == idReserva
    ensures forall i :: 0 <= i < |cs| ==> cs[i].matriculaQuad == order[i] && cs[i].numCascos == selection[order[i]]
  {
    seq(|order|, i requires 0 <= i < |order| => Casco(selection[order[i]], order[i], idReserva))
  }

  /**
   * The loop of `saveData`: one row Casco(count, plate, idReserva) per
   * entry of the selection, and the `int` total of the first matching
   * quad's price per selected plate. The total does not depend on the
   * helmet counts or on the iteration order, and wraps like Java `int`.
   */
  method CollectSelection(selection: map<string, Int32>, order: seq<string>, quads: seq<Quad>, idReserva: Int32)
    returns (cascosAGuardar: seq<Casco>, precioTotal: Int32)
    requires IsListingOf(order, selection.Keys)
    requires forall i :: 0 <= i < |quads| ==> quads[i].matricula.Some?
    ensures cascosAGuardar == SelectionCascos(selection, order, idReserva)
    ensures |cascosAGuardar| == |selection|
    ensures precioTotal == Wrap32(SelectedTotal(selection.Keys, quads))
  {
    assert forall i :: 0 <= i < |order| ==> order[i] in selection;
    cascosAGuardar := [];
    precioTotal := 0;
    var i := 0;
    while i < |order|
      invariant 0 <= i <= |order|
      invariant |cascosAGuardar| == i
      invariant forall k :: 0 <= k < i ==> cascosAGuardar[k] == Casco(selection[order[k]], order[k], idReserva)
      invariant precioTotal == Wrap32(PriceSum(order[..i], quads))
    {
      var key := order[i];
      cascosAGuardar := cascosAGuardar + [Casco(selection[key], key, idReserva)];
      ghost var before := precioTotal;
      var j := 0;
      while j < |quads|
        invariant 0 <= j <= |quads|
        invariant forall k :: 0 <= k < j ==> quads[k].matricula != Some(key)
        invariant precioTotal == before
      {
        if quads[j].matricula.value == key {
          FirstPriceAt(quads, key, j);
          precioTotal := Wrap32(precioTotal + quads[j].precio);
          break;
        }
        j := j + 1;
      }
      if j == |quads| {
        FirstPriceAbsent(quads, key);
      }
      RunningTotalStep(order, i, quads, before, precioTotal);
      i := i + 1;
    }
    assert order[..i] == order;
    PriceSumIsSelectedTotal(order, quads);
    ListingLength(order);
  }

  datatype SaveOutcome =
    | NotLoaded    // the booking had not been loaded yet: nothing checked or saved
    | Overlapping  // the overlap check objected (or its wait failed): nothing saved
    | Saved        // the price was set and the booking and its helmet rows handed to the save

  /** Whether the booking dates of `a` and `b` agree (the price may differ). */
  predicate SameDates(a: Reserva, b: Reserva)
  {
    a.idReserva == b.idReserva && a.fechaRecogida == b.fechaRecogida && a.fechaDevolucion == b.fechaDevolucion
  }

  /** Only the dates of bookings matter for double booking. */
  lemma NoDoubleBookingSameDates(r1: map<Int32, Reserva>, r2: map<Int32, Reserva>, cascos: map<CascoKey, Casco>)
    requires r1.Keys == r2.Keys
    requires forall id :: id in r1 ==> SameDates(r1[id], r2[id])
    requires CascoRepository.NoDoubleBooking(r1, cascos)
    ensures CascoRepository.NoDoubleBooking(r2, cascos)
  {
  }

  /**
   * Saving booking `r` (same dates as its stored row) and replacing its
   * helmet rows by `cs`, which the overlap check passed, keeps the table
   * free of double booking, whichever of the two writes took effect.
   */
  lemma SaveKeepsNoDoubleBooking(reservas0: map<Int32, Reserva>, cascos0: map<CascoKey, Casco>,
                                 reservas1: map<Int32, Reserva>, cascos1: map<CascoKey, Casco>,
                                 r: Reserva, cs: seq<Casco>, count: CascoRepository.OverlapCount)
    requires r.idReserva in reservas0 && SameDates(reservas0[r.idReserva], r)
    requires reservas1 == reservas0 || reservas1 == reservas0[r.idReserva := r]
    requires cascos1 == cascos0 || cascos1 == CascoDao.ReplaceCascos(cascos0, r.idReserva, cs)
    requires forall i :: 0 <= i < |cs| ==> cs[i].idReserva == r.idReserva
    requires !CascoRepository.SomeOverlap(cs, r.fechaRecogida, r.fechaDevolucion, r.idReserva, count)
    requires CascoRepository.NoDoubleBooking(reservas0, cascos0)
    requires CascoRepository.CountFindsConflicts(count, reservas0, cascos0)
    ensures CascoRepository.NoDoubleBooking(reservas1, cascos1)
  {
    CascoRepository.ReplaceKeepsNoDoubleBooking(reservas0, cascos0, r.idReserva, cs, count);
    NoDoubleBookingSameDates(reservas0, reservas1, cascos0);
    NoDoubleBookingSameDates(reservas0, reservas1, CascoDao.ReplaceCascos(cascos0, r.idReserva, cs));
  }

  /**
   * The helmet-selection screen: the booking it edits (`mIdReserva`), that
   * booking as loaded from the database, the full quad list the prices
   * come from, and the selection adapter.
   */
  class CascoEdit {
    var idReserva: Int32
    var reservaActual: Option<Reserva>
    var listaCompletaQuads: seq<Quad>
    var adapter: CascoSelectionListAdapter

    /** Opened for booking `idReserva`; nothing has been loaded yet. */
    constructor (idReserva: Int32, adapter: CascoSelectionListAdapter)
      ensures this.idReserva == idReserva && this.adapter == adapter
      ensures reservaActual.None? && listaCompletaQuads == []
    {
      this.idReserva := idReserva;
      this.adapter := adapter;
      reservaActual := None;
      listaCompletaQuads := [];
    }

    /** The observer of `getReservaById(mIdReserva)`: keeps the loaded booking. */
    method OnReservaLoaded(reserva: Option<Reserva>)
      modifies this`reservaActual
      ensures reservaActual == reserva
    {
      reservaActual := reserva;
    }

    /** The observer of the quad list: keeps every quad for the price lookup. */
    method OnQuadsLoaded(quads: seq<Quad>)
      modifies this`listaCompletaQuads
      ensures listaCompletaQuads == quads
    {
      listaCompletaQuads := quads;
    }

    /**
     * `saveData`. Without a loaded booking nothing happens. Otherwise the rows
     * and the total are built; if the overlap check objects nothing is saved;
     * else the loaded booking gets the total as its price and is saved with
     * its rows. When the loaded booking is the stored row for `idReserva`,
     * the table had no double booking and the unseen count query finds every
     * conflict, the save leaves no double booking.
     */
    method SaveData(db: AppDatabase, order: seq<string>, count: CascoRepository.OverlapCount, wCheck: Wait, wWrite: Wait)
      returns (outcome: SaveOutcome)
      requires db.Valid()
      requires IsListingOf(order, adapter.selectionState.Keys)
      requires forall i :: 0 <= i < |listaCompletaQuads| ==> listaCompletaQuads[i].matricula.Some?
      modifies this`reservaActual, db`reservas, db`reservaSeq, db`cascos, db`lastRowId
      ensures db.Valid()
      ensures old(reservaActual).None? <==> outcome == NotLoaded
      ensures old(reservaActual).Some? ==>
        (outcome == Overlapping <==> !wCheck.Completed? || CascoRepository.SomeOverlap(
          SelectionCascos(adapter.selectionState, order, idReserva), old(reservaActual).value.fechaRecogida,
          old(reservaActual).value.fechaDevolucion, old(reservaActual).value.idReserva, count))
      ensures outcome != Saved ==>
        reservaActual == old(reservaActual) && db.reservas == old(db.reservas) && db.cascos == old(db.cascos)
        && db.reservaSeq == old(db.reservaSeq)
      ensures outcome == Saved ==>
        var r := SetPrecioTotal(old(reservaActual).value, Wrap32(SelectedTotal(adapter.selectionState.Keys, listaCompletaQuads)));
        var cs := SelectionCascos(adapter.selectionState, order, idReserva);
        reservaActual == Some(r)
        && (r.idReserva != 0 ==>
          db.reservas == if ReservaRepository.ValidateReserva(Some(r)) && TaskRuns(wWrite) && r.idReserva in old(db.reservas)
                         then old(db.reservas)[r.idReserva := r]
                         else old(db.reservas))
        && db.cascos == if CascoDao.AllParentsExist(db.quads, db.reservas, cs)
                        then CascoDao.ReplaceCascos(old(db.cascos), r.idReserva, cs)
                        else old(db.cascos)
      ensures outcome == Saved && old(reservaActual).value.idReserva == idReserva
        && idReserva in old(db.reservas) && old(db.reservas)[idReserva] == old(reservaActual).value
        && CascoRepository.NoDoubleBooking(old(db.reservas), old(db.cascos))
        && CascoRepository.CountFindsConflicts(count, old(db.reservas), old(db.cascos))
        ==> CascoRepository.NoDoubleBooking(db.reservas, db.cascos)
    {
      if reservaActual.None? {
        return NotLoaded;
      }
      var selection := adapter.GetSelectedData();
      var cascosAGuardar, precioTotal := CollectSelection(selection, order, listaCompletaQuads, idReserva);
      var overlap := CascoSelectionViewModel.CheckOverlaps(cascosAGuardar, reservaActual.value, count, wCheck);
      if overlap {
        return Overlapping;
      }
      ghost var loaded := reservaActual.value;
      reservaActual := Some(SetPrecioTotal(reservaActual.value, precioTotal));
      ghost var reservas0, cascos0 := db.reservas, db.cascos;
      CascoSelectionViewModel.SaveReservaConCascos(db, reservaActual.value, cascosAGuardar, wWrite);
      outcome := Saved;
      if loaded.idReserva == idReserva && idReserva in reservas0 && reservas0[idReserva] == loaded
        && CascoRepository.NoDoubleBooking(reservas0, cascos0)
        && CascoRepository.CountFindsConflicts(count, reservas0, cascos0)
      {
        SaveKeepsNoDoubleBooking(reservas0, cascos0, db.reservas, db.cascos, reservaActual.value, cascosAGuardar, count);
      }
    }
  }
}
