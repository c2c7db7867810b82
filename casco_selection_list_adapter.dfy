/**
 * `CascoSelectionListAdapter`: the list of quads shown when choosing quads
 * for a booking, and the selection state, a map from plate to helmet
 * count. A plate is selected exactly when it is a key of the map.
 */
module CascoSelectionListAdapter {
  import opened JavaLang
  import opened QuadEntity
  import opened CascoEntity

  /** The entries `setInitialSelection(cs)` puts: each plate to its helmet count, later rows winning. */
  function SelectionOf(cs: seq<Casco>): map<string, Int32>
    decreases |cs|
  {
    if cs == [] then map[]
    else SelectionOf(cs[..|cs| - 1])[cs[|cs| - 1].matriculaQuad := cs[|cs| - 1].numCascos]
  }

  /**
   * SelectionOf(cs) has a key exactly for each plate in `cs`, and holds the
   * helmet count of the last row of `cs` with that plate.
   */
  lemma {:induction false} SelectionOfSpec(cs: seq<Casco>)
    ensures forall m :: m in SelectionOf(cs) <==> exists i :: 0 <= i < |cs| && cs[i].matriculaQuad == m
    ensures forall i :: 0 <= i < |cs| && (forall j :: i < j < |cs| ==> cs[j].matriculaQuad != cs[i].matriculaQuad) ==>
      SelectionOf(cs)[cs[i].matriculaQuad] == cs[i].numCascos
    decreases |cs|
  {
    if cs != [] {
      var init := cs[..|cs| - 1];
      SelectionOfSpec(init);
      forall m ensures m in SelectionOf(cs) <==> exists i :: 0 <= i < |cs| && cs[i].matriculaQuad == m {
        if m in SelectionOf(init) {
          var i :| 0 <= i < |init| && init[i].matriculaQuad == m;
          assert cs[i].matriculaQuad == m;
        }
        if exists i :: 0 <= i < |cs| && cs[i].matriculaQuad == m {
          var i :| 0 <= i < |cs| && cs[i].matriculaQuad == m;
          if i < |cs| - 1 {
            assert init[i].matriculaQuad == m;
          }
        }
      }
      forall i | 0 <= i < |cs| && (forall j :: i < j < |cs| ==> cs[j].matriculaQuad != cs[i].matriculaQuad)
        ensures SelectionOf(cs)[cs[i].matriculaQuad] == cs[i].numCascos
      {
        if i < |cs| - 1 {
          assert init[i] == cs[i];
          assert forall j :: i < j < |init| ==> init[j].matriculaQuad != init[i].matriculaQuad;
        }
      }
    }
  }

  class CascoSelectionListAdapter {
    var allQuads: seq<Quad>
    var selectionState: map<string, Int32>
    /** Whether an OnSelectionChangedListener is set. */
    var hasListener: bool
    /** How many times the listener has been invoked. */
    var listenerCalls: nat

    constructor ()
      ensures allQuads == [] && selectionState == map[]
      ensures !hasListener && listenerCalls == 0
    {
      allQuads := [];
      selectionState := map[];
      hasListener := false;
      listenerCalls := 0;
    }

    /** `getItemCount`. */
    function GetItemCount(): nat
      reads this
    {
      |allQuads|
    }

    /** `setAllQuads`: the list shown becomes `quads`; the selection is kept. */
    method SetAllQuads(quads: seq<Quad>)
      modifies this`allQuads
      ensures allQuads == quads
      ensures GetItemCount() == |quads|
    {
      allQuads := quads;
    }

    /**
     * `setInitialSelection`: puts each row's plate and helmet count into the
     * selection, in list order; keys already present stay.
     */
    method SetInitialSelection(cascos: seq<Casco>)
      modifies this`selectionState
      ensures selectionState == old(selectionState) + SelectionOf(cascos)
      ensures old(selectionState).Keys <= selectionState.Keys
    {
      var i := 0;
      while i < |cascos|
        invariant 0 <= i <= |cascos|
        invariant selectionState == old(selectionState) + SelectionOf(cascos[..i])
      {
        assert cascos[..i + 1][..i] == cascos[..i];
        selectionState := selectionState[cascos[i].matriculaQuad := cascos[i].numCascos];
        i := i + 1;
      }
      assert cascos[..i] == cascos;
    }

    /** `getSelectionState`. */
    function GetSelectionState(): map<string, Int32>
      reads this
    {
      selectionState
    }

    /** `getSelectedData`: the same map as `getSelectionState`. */
    function GetSelectedData(): map<string, Int32>
      reads this
    {
      GetSelectionState()
    }

    /** `setOnSelectionChangedListener`: sets (or, with null, clears) the listener. */
    method SetOnSelectionChangedListener(listener: bool)
      modifies this`hasListener
      ensures hasListener == listener
    {
      hasListener := listener;
    }

    /** `notifyListener`: invokes the listener once when one is set, else does nothing. */
    method NotifyListener()
      modifies this`listenerCalls
      ensures listenerCalls == old(listenerCalls) + (if hasListener then 1 else 0)
    {
      if hasListener {
        listenerCalls := listenerCalls + 1;
      }
    }

    /** `setSelectionState`: clear, then copy the given map in (nothing for null). */
    method SetSelectionState(existingState: Option<map<string, Int32>>)
      modifies this`selectionState
      ensures selectionState == if existingState.None? then map[] else existingState.value
    {
      selectionState := map[];
      if existingState.Some? {
        selectionState := selectionState + existingState.value;
      }
    }
  }
}
