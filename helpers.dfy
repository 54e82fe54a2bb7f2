/** The per-view state store: one `Helper` record per view id, created on
    first access, and the selection fingerprint used by the restore command. */
module Helpers {
  import opened Regions

  /** The value held by a `Helper`: the suppression flag and the history stack
      of complex selections, oldest first, top of the stack last. */
  datatype ViewState = ViewState(ignoreSelectionCommand: bool, lastSelections: seq<Selection>)

  /** The state of a freshly constructed `Helper`. */
  const INITIAL: ViewState := ViewState(false, [])

  /** The state record of one view, updated in place by the listener and the
      restore command. */
  class Helper {
    /** Set by the restore command so that the listener skips the change it causes. */
    var ignoreSelectionCommand: bool
    var lastSelections: seq<Selection>

    constructor ()
      ensures State() == INITIAL
    {
      ignoreSelectionCommand := false;
      lastSelections := [];
    }

    function State(): ViewState
      reads this
    {
      ViewState(ignoreSelectionCommand, lastSelections)
    }
  }

  /** The one process-wide map from view id to that view's `Helper`. */
  class HelperMap {
    var viewToHelperMap: map<int, Helper>

    /** Every view has its own record: no two ids share a `Helper`. */
    ghost predicate Valid()
      reads this
    {
      forall i, j :: i in viewToHelperMap && j in viewToHelperMap && i != j ==>
        viewToHelperMap[i] != viewToHelperMap[j]
    }

    constructor ()
      ensures Valid() && viewToHelperMap == map[]
    {
      viewToHelperMap := map[];
    }

    /** The state a lookup of `id` yields: the stored record, or the initial
        state of the record a lookup would create. */
    function StateOf(id: int): ViewState
      reads this, viewToHelperMap.Values
    {
      if id in viewToHelperMap then viewToHelperMap[id].State() else INITIAL
    }

    /** The abstract store: the state of every view that has a record. */
    ghost function States(): map<int, ViewState>
      reads this, viewToHelperMap.Values
    {
      map id | id in viewToHelperMap :: viewToHelperMap[id].State()
    }

    /** The record of `id`, as a set of objects one may modify. */
    function Footprint(id: int): set<object>
      reads this
    {
      if id in viewToHelperMap then {viewToHelperMap[id]} else {}
    }

    /** Changing the fields of the record of `id` alone changes the abstract
        store at `id` alone. */
    twostate lemma StatesAfterUpdate(id: int)
      requires old(Valid()) && viewToHelperMap == old(viewToHelperMap)
      requires id in viewToHelperMap
      requires forall h :: h in viewToHelperMap.Values && h != viewToHelperMap[id] ==> unchanged(h)
      ensures Valid()
      ensures States() == old(States())[id := viewToHelperMap[id].State()]
    {
      forall i | i in viewToHelperMap && i != id
        ensures viewToHelperMap[i].State() == old(viewToHelperMap[i].State())
      {
        assert viewToHelperMap[i] in viewToHelperMap.Values;
      }
    }

    /** `getOrConstructHelperForView`: returns the record of `view.id`,
        creating a fresh initial one only when the id has none. */
    method GetOrConstructHelperForView(view: View) returns (helper: Helper)
      requires Valid()
      modifies this
      ensures Valid()
      ensures helper in viewToHelperMap.Values && viewToHelperMap.Keys == old(viewToHelperMap.Keys) + {view.id}
      ensures view.id in old(viewToHelperMap) ==> viewToHelperMap == old(viewToHelperMap) && helper == viewToHelperMap[view.id]
      ensures view.id !in old(viewToHelperMap) ==> fresh(helper) && viewToHelperMap == old(viewToHelperMap)[view.id := helper]
      ensures helper.State() == old(StateOf(view.id))
      ensures States() == old(States())[view.id := old(StateOf(view.id))]
    {
      var mapping := viewToHelperMap;
      var viewID := view.id;
      if viewID !in mapping.Keys {
        var created := new Helper();
        viewToHelperMap := mapping[viewID := created];
      }
      helper := viewToHelperMap[viewID];
    }
  }

  /** A second update of the same id overrides the first. */
  lemma UpdateOverrides(m: map<int, ViewState>, id: int, first: ViewState, second: ViewState)
    ensures m[id := first][id := second] == m[id := second]
  {
  }

  /** `h` lists the (anchor, active end) pair of every region of `t`, in order. */
  predicate PairsOf(h: seq<(int, int)>, t: Selection) {
    |t| == |h| && forall i :: 0 <= i < |t| ==> h[i] == (t[i].a, t[i].b)
  }

  /** `hashSelection`: an order-sensitive fingerprint of a selection, the list
      of its regions' (anchor, active end) pairs. The fingerprint determines
      the selection: no other selection has the same pairs. */
  function HashSelection(sel: Selection): (h: seq<(int, int)>)
    ensures |h| == |sel|
    ensures forall i :: 0 <= i < |sel| ==> h[i].0 == sel[i].a && h[i].1 == sel[i].b
    ensures PairsOf(h, sel)
    ensures forall t: Selection :: PairsOf(h, t) ==> t == sel
  {
    seq(|sel|, i requires 0 <= i < |sel| => (sel[i].a, sel[i].b))
  }

  /** Two selections have the same fingerprint exactly when they are equal,
      so comparing fingerprints compares the selections. */
  lemma HashSelectionInjective(s: Selection, t: Selection)
    ensures HashSelection(s) == HashSelection(t) <==> s == t
  {
    if HashSelection(s) == HashSelection(t) {
      assert |s| == |t|;
      forall i | 0 <= i < |s|
        ensures s[i] == t[i]
      {
        assert HashSelection(s)[i] == HashSelection(t)[i];
      }
    }
  }
}
