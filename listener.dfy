/** The selection listener: classifies each selection change and pushes or
    replaces the top entry of the view's history. */
module Listener {
  import opened Regions
  import opened Helpers

  /** `isComplexSelection`: more than one region, or a first region that is
      not empty. */
  predicate IsComplexSelection(sel: Selection)
    requires |sel| > 0
    ensures !IsComplexSelection(sel) <==> |sel| == 1 && sel[0].Empty()
  {
    |sel| > 1 || sel[0].Size() > 0
  }

  /** `isSubsetOf(selectionA, selectionB)`: `selectionA` contains every region
      of `selectionB`. (The comment in the source reads the other way round;
      this is what the code tests.) */
  predicate IsSubsetOf(selectionA: Selection, selectionB: Selection)
    ensures IsSubsetOf(selectionA, selectionB) <==>
      forall r :: r in selectionB ==> SelectionContains(selectionA, r)
    ensures (forall r :: r in selectionB ==> r in selectionA) ==> IsSubsetOf(selectionA, selectionB)
  {
    forall j :: 0 <= j < |selectionB| ==> SelectionContains(selectionA, selectionB[j])
  }

  /** The history invariant: every entry is a complex selection. */
  predicate AllComplex(history: seq<Selection>) {
    forall i :: 0 <= i < |history| ==> |history[i]| > 0 && IsComplexSelection(history[i])
  }

  /** The top entry of a non-empty history. */
  function Top(history: seq<Selection>): Selection
    requires |history| > 0
  {
    history[|history| - 1]
  }

  /** The state after `on_selection_modified` sees selection `sel`. The
      selection is read only when the flag is clear. */
  function SelectionModified(s: ViewState, sel: Selection): (r: ViewState)
    requires s.ignoreSelectionCommand || |sel| > 0
    ensures !r.ignoreSelectionCommand
    ensures |s.lastSelections| <= |r.lastSelections| <= |s.lastSelections| + 1
    ensures AllComplex(s.lastSelections) ==> AllComplex(r.lastSelections)
  {
    var history := s.lastSelections;
    if s.ignoreSelectionCommand then ViewState(false, history)
    else if !IsComplexSelection(sel) then s
    else if |history| > 0 && IsSubsetOf(sel, Top(history)) then
      ViewState(false, history[..|history| - 1] + [sel])
    else
      ViewState(false, history + [sel])
  }

  /** A set flag is consumed: it is cleared and the history is kept, whatever
      the selection is. */
  lemma IgnoreFlagConsumed(s: ViewState, sel: Selection)
    requires s.ignoreSelectionCommand
    ensures SelectionModified(s, sel) == ViewState(false, s.lastSelections)
  {
  }

  /** A single cursor leaves the state as it is. */
  lemma SimpleSelectionIgnored(s: ViewState, p: int)
    requires !s.ignoreSelectionCommand
    ensures SelectionModified(s, [Cursor(p)]) == s
  {
  }

  /** Replace on expansion: when the selection contains every region of the
      top entry, the top entry becomes the selection and nothing else moves. */
  lemma ReplaceOnExpansion(s: ViewState, sel: Selection)
    requires !s.ignoreSelectionCommand && |sel| > 0 && IsComplexSelection(sel)
    requires |s.lastSelections| > 0 && IsSubsetOf(sel, Top(s.lastSelections))
    ensures var h := SelectionModified(s, sel).lastSelections;
      |h| == |s.lastSelections| && Top(h) == sel
      && h[..|h| - 1] == s.lastSelections[..|h| - 1]
  {
  }

  /** Push otherwise: the history grows by one exactly when the flag is clear,
      the selection is complex and it does not contain the whole top entry;
      the new top is then the selection and the old entries stay below it. */
  lemma PushOtherwise(s: ViewState, sel: Selection)
    requires s.ignoreSelectionCommand || |sel| > 0
    ensures var h := SelectionModified(s, sel).lastSelections;
      (|h| == |s.lastSelections| + 1 <==>
        !s.ignoreSelectionCommand && IsComplexSelection(sel)
        && (s.lastSelections == [] || !IsSubsetOf(sel, Top(s.lastSelections))))
      && (|h| == |s.lastSelections| + 1 ==> h == s.lastSelections + [sel])
  {
  }

  /** `on_selection_modified` on the store: only the record of `view.id`
      changes (it is created first when missing), and it changes as
      `SelectionModified` says. */
  method OnSelectionModified(helpers: HelperMap, view: View)
    requires helpers.Valid()
    requires helpers.StateOf(view.id).ignoreSelectionCommand || |view.sel| > 0
    modifies helpers, helpers.Footprint(view.id)
    ensures helpers.Valid()
    ensures helpers.viewToHelperMap.Keys == old(helpers.viewToHelperMap.Keys) + {view.id}
    ensures forall id :: id in old(helpers.viewToHelperMap) ==>
      helpers.viewToHelperMap[id] == old(helpers.viewToHelperMap[id])
    ensures helpers.States() ==
      old(helpers.States())[view.id := SelectionModified(old(helpers.StateOf(view.id)), view.sel)]
  {
    ghost var stored := helpers.States();
    var helper := helpers.GetOrConstructHelperForView(view);
    label Fetched:
    ghost var start := helper.State();
    assert helpers.States() == stored[view.id := start];
    if helper.ignoreSelectionCommand {
      helper.ignoreSelectionCommand := false;
    } else {
      var currentSelection := view.sel;
      if IsComplexSelection(currentSelection) {
        var currentRegions := currentSelection;
        var lastSelections := helper.lastSelections;
        var selectionWasExpanded := |lastSelections| > 0 && IsSubsetOf(currentSelection, Top(lastSelections));
        if selectionWasExpanded {
          helper.lastSelections := lastSelections[..|lastSelections| - 1] + [currentRegions];
        } else {
          helper.lastSelections := lastSelections + [currentRegions];
        }
      }
    }
    helpers.StatesAfterUpdate@Fetched(view.id);
    assert helper.State() == SelectionModified(start, view.sel);
    UpdateOverrides(stored, view.id, start, helper.State());
  }
}
