/** The two text commands: jump to the last region, and restore the last
    recorded selection from the view's history. */
module Commands {
  import opened Regions
  import opened Helpers
  import opened Listener

  /** The selection after `jump_to_last_region`: one cursor at the begin of
      the last region, in insertion order. */
  function Jump(sel: Selection): (r: Selection)
    requires |sel| > 0
    ensures |r| == 1 && r[0].Empty() && r[0].Begin() == sel[|sel| - 1].Begin()
    ensures sel[|sel| - 1].Contains(r[0])
    ensures !IsComplexSelection(r)
  {
    [Cursor(sel[|sel| - 1].Begin())]
  }

  /** The example of the test suite: two words selected, the cursor ends at
      the start of the second one. */
  lemma JumpExample()
    ensures Jump([Region(0, 4), Region(5, 9)]) == [Region(5, 5)]
  {
  }

  /** Jumping leaves a single cursor, so the listener records nothing for it. */
  lemma JumpIsNotRecorded(s: ViewState, sel: Selection)
    requires |sel| > 0 && !s.ignoreSelectionCommand
    ensures SelectionModified(s, Jump(sel)) == s
  {
  }

  /** `JumpToLastRegionCommand.run`: clear the selection, then add a cursor
      at the begin of what was its last region. */
  method JumpToLastRegion(view: View)
    requires |view.sel| > 0
    modifies view
    ensures view.sel == Jump(old(view.sel))
  {
    var selection := view.sel;
    var lastRegion := selection[|selection| - 1];
    var cursorPosition := lastRegion.Begin();
    view.Clear();
    view.Add(Cursor(cursorPosition));
  }

  /** Adding a frame changes nothing exactly when the selection already
      contains every region of the frame. */
  lemma {:induction false} AddAllUnchangedIff(sel: Selection, frame: seq<Region>)
    ensures AddAll(sel, frame) == sel <==> IsSubsetOf(sel, frame)
    decreases |frame|
  {
    if frame != [] {
      var init := frame[..|frame| - 1];
      var last := frame[|frame| - 1];
      var mid := AddAll(sel, init);
      AddAllUnchangedIff(sel, init);
      if IsSubsetOf(sel, frame) {
        assert IsSubsetOf(sel, init) by {
          forall j | 0 <= j < |init| ensures SelectionContains(sel, init[j]) {
            assert init[j] == frame[j];
          }
        }
        assert SelectionContains(sel, last);
      }
      if AddAll(sel, frame) == sel {
        assert |mid| == |sel|;
        assert mid == sel;
        forall j | 0 <= j < |frame| ensures SelectionContains(sel, frame[j]) {
          if j < |init| {
            assert frame[j] == init[j];
          }
        }
      }
    }
  }

  /** One pass of `AddLastSelectionCommand.run` past its guard: add the
      regions of the top entry to the selection, setting the flag before each
      one, then pop the top entry. */
  function RestoreOnce(s: ViewState, sel: Selection): (r: (ViewState, Selection))
    requires |s.lastSelections| > 0
    ensures r.0.lastSelections == s.lastSelections[..|s.lastSelections| - 1]
    ensures r.0.ignoreSelectionCommand <==> s.ignoreSelectionCommand || Top(s.lastSelections) != []
    ensures r.1 == AddAll(sel, Top(s.lastSelections))
    ensures HashSelection(sel) == HashSelection(r.1) <==> r.1 == sel
    ensures r.1 == sel <==> IsSubsetOf(sel, Top(s.lastSelections))
  {
    var frame := Top(s.lastSelections);
    var newSel := AddAll(sel, frame);
    HashSelectionInjective(sel, newSel);
    AddAllUnchangedIff(sel, frame);
    (ViewState(s.ignoreSelectionCommand || frame != [], s.lastSelections[..|s.lastSelections| - 1]), newSel)
  }

  /** The state and selection after `AddLastSelectionCommand.run`: with two or
      more entries, make one pass, and run again when the pass did not change
      the selection. */
  function Restore(s: ViewState, sel: Selection): (r: (ViewState, Selection))
    ensures |s.lastSelections| >= 2 ==> 1 <= |r.0.lastSelections| < |s.lastSelections|
    decreases |s.lastSelections|
  {
    if |s.lastSelections| < 2 then (s, sel)
    else
      var once := RestoreOnce(s, sel);
      if HashSelection(sel) == HashSelection(once.1) then Restore(once.0, once.1) else once
  }

  /** What a restore started with two or more entries does to the history and
      the selection: it pops the entries above a remaining history `h` of at
      least one entry; every popped entry but the last was already covered by
      the selection (so each rerun saw no change); the result is the
      selection with the last popped entry added; and it stopped with two or
      more entries left only because that entry changed the selection. */
  lemma {:induction false} RestoreSpec(s: ViewState, sel: Selection)
    requires |s.lastSelections| >= 2
    ensures var history, r := s.lastSelections, Restore(s, sel); var h := r.0.lastSelections;
      && h == history[..|h|]
      && r.1 == AddAll(sel, history[|h|])
      && (forall j :: |h| < j < |history| ==> IsSubsetOf(sel, history[j]))
      && (|h| >= 2 ==> !IsSubsetOf(sel, history[|h|]))
    decreases |s.lastSelections|
  {
    var once := RestoreOnce(s, sel);
    if once.1 == sel && |once.0.lastSelections| >= 2 {
      RestoreSpec(once.0, sel);
      RerunOutcome(s, sel);
    } else {
      StopOutcome(s, sel);
    }
  }

  /** The outcome `RestoreSpec` states, for history `history`, selection `sel`
      and result `r`. */
  ghost predicate RestoreOutcome(history: seq<Selection>, sel: Selection, r: (ViewState, Selection)) {
    var h := r.0.lastSelections;
    && |h| < |history|
    && h == history[..|h|]
    && r.1 == AddAll(sel, history[|h|])
    && (forall j :: |h| < j < |history| ==> IsSubsetOf(sel, history[j]))
    && (|h| >= 2 ==> !IsSubsetOf(sel, history[|h|]))
  }

  /** A pass that changed nothing with two or more entries left reruns, and
      the outcome of the rerun is the outcome of the whole command. */
  lemma RerunOutcome(s: ViewState, sel: Selection)
    requires |s.lastSelections| >= 2
    requires RestoreOnce(s, sel).1 == sel && |RestoreOnce(s, sel).0.lastSelections| >= 2
    requires RestoreOutcome(RestoreOnce(s, sel).0.lastSelections, sel, Restore(RestoreOnce(s, sel).0, sel))
    ensures RestoreOutcome(s.lastSelections, sel, Restore(s, sel))
  {
    var once := RestoreOnce(s, sel);
    var r := Restore(once.0, sel);
    Reruns(s, sel);
    assert IsSubsetOf(sel, Top(s.lastSelections));
    PoppedPrefix(s.lastSelections, once.0.lastSelections, sel, r);
  }

  /** A pass that changed nothing with two or more entries left is followed
      by a run on the popped state. */
  lemma Reruns(s: ViewState, sel: Selection)
    requires |s.lastSelections| >= 2
    requires RestoreOnce(s, sel).1 == sel && |RestoreOnce(s, sel).0.lastSelections| >= 2
    ensures Restore(s, sel) == Restore(RestoreOnce(s, sel).0, sel)
  {
  }

  /** A pass that changed the selection, or left fewer than two entries,
      ends the command. */
  lemma StopOutcome(s: ViewState, sel: Selection)
    requires |s.lastSelections| >= 2
    requires !(RestoreOnce(s, sel).1 == sel && |RestoreOnce(s, sel).0.lastSelections| >= 2)
    ensures RestoreOutcome(s.lastSelections, sel, Restore(s, sel))
  {
    assert Restore(s, sel) == RestoreOnce(s, sel);
  }

  /** The history bookkeeping of one rerun: what holds of the history after
      its top entry is popped, and of that top entry, holds of the history. */
  lemma PoppedPrefix(history: seq<Selection>, popped: seq<Selection>, sel: Selection, r: (ViewState, Selection))
    requires |history| >= 3 && popped == history[..|history| - 1]
    requires RestoreOutcome(popped, sel, r)
    requires IsSubsetOf(sel, history[|history| - 1])
    ensures RestoreOutcome(history, sel, r)
  {
    var h := r.0.lastSelections;
    assert popped[|h|] == history[|h|];
    forall j | |h| < j < |history|
      ensures IsSubsetOf(sel, history[j])
    {
      if j < |history| - 1 {
        assert popped[j] == history[j];
      }
    }
  }

  /** After a restore started with two or more entries, the flag is set
      exactly when it was set before or some popped entry had a region. */
  lemma {:induction false} RestoreFlag(s: ViewState, sel: Selection)
    requires |s.lastSelections| >= 2
    ensures var history, r := s.lastSelections, Restore(s, sel); var h := r.0.lastSelections;
      r.0.ignoreSelectionCommand <==>
        s.ignoreSelectionCommand || exists j :: |h| <= j < |history| && history[j] != []
    decreases |s.lastSelections|
  {
    var history := s.lastSelections;
    var once := RestoreOnce(s, sel);
    var h := Restore(s, sel).0.lastSelections;
    if HashSelection(sel) == HashSelection(once.1) && |once.0.lastSelections| >= 2 {
      RestoreFlag(once.0, once.1);
      assert forall j :: |h| <= j < |history| - 1 ==> history[j] == once.0.lastSelections[j];
      if Top(history) != [] {
        assert history[|history| - 1] != [];
      }
    } else {
      assert |h| == |history| - 1;
    }
  }

  /** Fewer than two entries: the command changes neither history nor selection. */
  lemma LowHistoryNoOp(s: ViewState, sel: Selection)
    requires |s.lastSelections| < 2
    ensures Restore(s, sel) == (s, sel)
  {
  }

  /** Restoring keeps the selection's existing regions in place and leaves it
      containing every region of every entry it popped. */
  lemma RestoreCoversPoppedEntries(s: ViewState, sel: Selection, j: int, k: int)
    requires |s.lastSelections| >= 2
    requires |Restore(s, sel).0.lastSelections| <= j < |s.lastSelections|
    requires 0 <= k < |s.lastSelections[j]|
    ensures |sel| <= |Restore(s, sel).1| && Restore(s, sel).1[..|sel|] == sel
    ensures SelectionContains(Restore(s, sel).1, s.lastSelections[j][k])
  {
    var r := Restore(s, sel);
    var history := s.lastSelections;
    RestoreSpec(s, sel);
    if j > |r.0.lastSelections| {
      assert IsSubsetOf(sel, history[j]);
      assert r.1 == sel + r.1[|sel|..];
      ContainsExtended(sel, r.1[|sel|..], history[j][k]);
    }
  }

  /** The history invariant survives a restore. */
  lemma RestoreKeepsAllComplex(s: ViewState, sel: Selection)
    requires AllComplex(s.lastSelections)
    ensures AllComplex(Restore(s, sel).0.lastSelections)
  {
    if |s.lastSelections| >= 2 {
      RestoreSpec(s, sel);
    }
  }

  /** Once a restore has popped an entry of a history of complex selections,
      the flag is set, so the next selection notification records nothing.
      The flag is set even when the restore changed nothing (see
      `RestoreTestTrace`); on a host that sends no notification for such a
      restore, the suppressed notification is the next, unrelated change. */
  lemma RestoreSuppressesNextNotification(s: ViewState, sel: Selection, next: Selection)
    requires AllComplex(s.lastSelections) && |s.lastSelections| >= 2
    ensures var r := Restore(s, sel);
      r.0.ignoreSelectionCommand
      && SelectionModified(r.0, next) == ViewState(false, r.0.lastSelections)
  {
    var r := Restore(s, sel);
    RestoreFlag(s, sel);
    var j := |r.0.lastSelections|;
    assert |s.lastSelections[j]| > 0;
  }

  /** The history of the test for the restore command: `[0,4]` then `[5,9]`,
      under the selection `[5,9]`. Merging `[5,9]` changes nothing, so the
      entry is popped and the rerun stops at the guard: one region is left,
      the history is `[0,4]`, and the flag is set although nothing changed. */
  lemma RestoreTestTrace()
    ensures Restore(ViewState(false, [[Region(0, 4)], [Region(5, 9)]]), [Region(5, 9)])
      == (ViewState(true, [[Region(0, 4)]]), [Region(5, 9)])
  {
    var s := ViewState(false, [[Region(0, 4)], [Region(5, 9)]]);
    var sel := [Region(5, 9)];
    assert Region(5, 9).Contains(Region(5, 9));
    assert IsSubsetOf(sel, Top(s.lastSelections));
    var once := RestoreOnce(s, sel);
    assert once.1 == sel;
    assert once.0 == ViewState(true, [[Region(0, 4)]]);
  }

  /** The loop of `AddLastSelectionCommand.run`: for each region of `frame`,
      set the flag, then add the region to the live selection. */
  method AddFrame(helper: Helper, view: View, frame: seq<Region>)
    modifies helper, view
    ensures view.sel == AddAll(old(view.sel), frame)
    ensures helper.lastSelections == old(helper.lastSelections)
    ensures helper.ignoreSelectionCommand == (old(helper.ignoreSelectionCommand) || frame != [])
  {
    for i := 0 to |frame|
      invariant helper.lastSelections == old(helper.lastSelections)
      invariant helper.ignoreSelectionCommand == (old(helper.ignoreSelectionCommand) || i > 0)
      invariant view.sel == AddAll(old(view.sel), frame[..i])
    {
      helper.ignoreSelectionCommand := true;
      view.Add(frame[i]);
      assert frame[..i + 1][..i] == frame[..i];
    }
    assert frame[..|frame|] == frame;
  }

  /** `AddLastSelectionCommand.run` on the store and the live selection:
      only the record of `view.id` and the selection change, as `Restore`
      says. */
  method AddLastSelection(helpers: HelperMap, view: View)
    requires helpers.Valid()
    modifies helpers, helpers.Footprint(view.id), view
    ensures helpers.Valid()
    ensures helpers.viewToHelperMap.Keys == old(helpers.viewToHelperMap.Keys) + {view.id}
    ensures forall id :: id in old(helpers.viewToHelperMap) ==>
      helpers.viewToHelperMap[id] == old(helpers.viewToHelperMap[id])
    ensures var r := Restore(old(helpers.StateOf(view.id)), old(view.sel));
      helpers.States() == old(helpers.States())[view.id := r.0] && view.sel == r.1
    decreases |helpers.StateOf(view.id).lastSelections|
  {
    ghost var stored := helpers.States();
    var helper := helpers.GetOrConstructHelperForView(view);
    if |helper.lastSelections| < 2 {
      return;
    }
    label Fetched:
    ghost var start, startSel := helper.State(), view.sel;
    ghost var fetched := helpers.States();
    var oldSelectionHash := HashSelection(view.sel);
    AddFrame(helper, view, Top(helper.lastSelections));
    var newSelectionHash := HashSelection(view.sel);
    helper.lastSelections := helper.lastSelections[..|helper.lastSelections| - 1];
    helpers.StatesAfterUpdate@Fetched(view.id);
    ghost var once := RestoreOnce(start, startSel);
    assert (helper.State(), view.sel) == once;
    assert helpers.States() == fetched[view.id := once.0];
    assert fetched == stored[view.id := start];
    UpdateOverrides(stored, view.id, start, once.0);
    var nothingChanged := oldSelectionHash == newSelectionHash;
    if nothingChanged {
      ghost var target := Restore(once.0, once.1);
      assert Restore(start, startSel) == target;
      assert helpers.StateOf(view.id) == once.0;
      // Run again: the top entry was already covered by the selection.
      AddLastSelection(helpers, view);
      assert helpers.States() == stored[view.id := once.0][view.id := target.0];
      UpdateOverrides(stored, view.id, once.0, target.0);
    } else {
      assert Restore(start, startSel) == once;
    }
  }
}
