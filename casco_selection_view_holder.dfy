/**
 * `CascoSelectionViewHolder`: one row of the quad chooser, a checkbox and
 * a spinner of helmet counts, bound to the adapter's selection map.
 */
module CascoSelectionViewHolder {
  import opened JavaLang
  import opened QuadEntity
  import opened CascoSelectionListAdapter

  /** The spinner's choices: 0..1 for a single-seat quad, 0..2 for any other. */
  function HelmetOptions(tipo: Option<TipoQuad>): (r: seq<Int32>)
    ensures forall i :: 0 <= i < |r| ==> r[i] == i
    ensures tipo.Some? ==> |r| == Seats(tipo.value) + 1
    ensures tipo.None? ==> |r| == 3
  {
    if tipo == Some(Monoplaza) then [0, 1] else [0, 1, 2]
  }

  /** `Math.max(0, Math.min(stored, optionCount - 1))`. */
  function SpinnerPosition(stored: int, optionCount: nat): (pos: nat)
    requires optionCount > 0
    ensures pos < optionCount
    ensures 0 <= stored < optionCount ==> pos == stored
    ensures stored < 0 ==> pos == 0
    ensures stored >= optionCount ==> pos == optionCount - 1
  {
    if stored < 0 then 0 else if stored > optionCount - 1 then optionCount - 1 else stored
  }

  class CascoSelectionViewHolder {
    var matricula: string
    var options: seq<Int32>
    var checked: bool
    var spinnerEnabled: bool
    var spinnerPos: nat
    var adapter: CascoSelectionListAdapter?

    ghost predicate Valid()
      reads this
    {
      spinnerPos < |options| && adapter != null
    }

    constructor ()
      ensures adapter == null && !checked && !spinnerEnabled
    {
      matricula := "";
      options := [];
      checked := false;
      spinnerEnabled := false;
      spinnerPos := 0;
      adapter := null;
    }

    /**
     * `bind`: shows the quad's options, checks the box exactly when the plate
     * is a key of the selection (even with count 0), enables the spinner
     * then, and places the spinner on the stored count clamped to the options.
     */
    method Bind(quad: Quad, adapter: CascoSelectionListAdapter)
      requires quad.matricula.Some?
      modifies this
      ensures Valid() && this.adapter == adapter
      ensures matricula == quad.matricula.value
      ensures options == HelmetOptions(quad.tipo)
      ensures checked == (matricula in adapter.selectionState) && spinnerEnabled == checked
      ensures spinnerPos == SpinnerPosition(if checked then adapter.selectionState[matricula] else 0, |options|)
    {
      matricula := quad.matricula.value;
      options := HelmetOptions(quad.tipo);
      var isSelected := matricula in adapter.selectionState;
      var numCascosGuardado: int := if isSelected then adapter.selectionState[matricula] else 0;
      checked := isSelected;
      spinnerEnabled := isSelected;
      spinnerPos := SpinnerPosition(numCascosGuardado, |options|);
      this.adapter := adapter;
    }

    /**
     * The checkbox listener. Checking puts the plate with the spinner's
     * current count; unchecking removes the plate and resets the spinner to
     * 0. Either way the adapter's listener is notified.
     */
    method OnCheckedChanged(isChecked: bool)
      requires Valid()
      modifies this, adapter`selectionState, adapter`listenerCalls
      ensures Valid() && adapter == old(adapter) && matricula == old(matricula) && options == old(options)
      ensures checked == isChecked && spinnerEnabled == isChecked
      ensures isChecked ==>
        spinnerPos == old(spinnerPos) && adapter.selectionState == old(adapter.selectionState)[matricula := options[spinnerPos]]
      ensures !isChecked ==> spinnerPos == 0 && adapter.selectionState == old(adapter.selectionState) - {matricula}
      ensures adapter.listenerCalls == old(adapter.listenerCalls) + (if adapter.hasListener then 1 else 0)
    {
      checked := isChecked;
      if isChecked {
        var valSpinner := options[spinnerPos];
        adapter.selectionState := adapter.selectionState[matricula := valSpinner];
        spinnerEnabled := true;
      } else {
        adapter.selectionState := adapter.selectionState - {matricula};
        spinnerEnabled := false;
        spinnerPos := 0;
      }
      adapter.NotifyListener();
    }

    /**
     * The spinner listener: while the box is checked, stores the chosen
     * count for the plate and notifies; while unchecked, writes nothing.
     */
    method OnItemSelected(position: nat)
      requires Valid() && position < |options|
      modifies this`spinnerPos, adapter`selectionState, adapter`listenerCalls
      ensures Valid() && spinnerPos == position
      ensures checked ==>
        adapter.selectionState == old(adapter.selectionState)[matricula := options[position]]
        && adapter.listenerCalls == old(adapter.listenerCalls) + (if adapter.hasListener then 1 else 0)
      ensures !checked ==>
        adapter.selectionState == old(adapter.selectionState)
        && adapter.listenerCalls == old(adapter.listenerCalls)
    {
      spinnerPos := position;
      if checked {
        var numCascos := options[position];
        adapter.selectionState := adapter.selectionState[matricula := numCascos];
        adapter.NotifyListener();
      }
    }
  }

  /** Every count the spinner offers is within the quad's seats, for either type. */
  lemma OptionsWithinSeats(tipo: TipoQuad)
    ensures forall i :: 0 <= i < |HelmetOptions(Some(tipo))| ==> 0 <= HelmetOptions(Some(tipo))[i] <= Seats(tipo)
  {
  }
}
