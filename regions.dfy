/** Regions and selections of a text view, and the small part of the host
    editor's selection API that the plugin relies on.

    The host's own semantics of `Selection.contains` and `Selection.add`
    (merging overlapping regions, keeping them sorted) are not part of the
    plugin; they are modelled here by an explicit, minimal assumption:
    a selection contains a region when one of its regions spans it, and
    adding a region that is already contained changes nothing, while
    adding any other region appends it. */
module Regions {

  /** A region with anchor `a` and active end `b` (document offsets). The
      direction is kept: `a` may lie after `b`. */
  datatype Region = Region(a: int, b: int) {

    /** The lower of the two offsets. */
    function Begin(): int { if a < b then a else b }

    /** The higher of the two offsets. */
    function End(): int { if a < b then b else a }

    /** `len(region)`: the number of characters the region spans. */
    function Size(): (n: nat)
      ensures n == 0 <==> a == b
    {
      End() - Begin()
    }

    predicate Empty() { a == b }

    /** `Region.contains(region)`: `other` lies within this region. */
    predicate Contains(other: Region) {
      Begin() <= other.Begin() && other.End() <= End()
    }
  }

  /** An empty region (a cursor) at offset `p`, written `Region(p)` by the host. */
  function Cursor(p: int): (r: Region)
    ensures r.Empty() && r.Begin() == p && r.End() == p
  {
    Region(p, p)
  }

  /** The regions of a view's selection, in insertion order. */
  type Selection = seq<Region>

  /** Host assumption: `Selection.contains(r)` holds when some region of the
      selection spans `r`. */
  predicate SelectionContains(sel: Selection, r: Region)
    ensures r in sel ==> SelectionContains(sel, r)
    ensures sel == [] ==> !SelectionContains(sel, r)
  {
    ContainsSelf(r);
    exists i :: 0 <= i < |sel| && sel[i].Contains(r)
  }

  lemma ContainsSelf(r: Region)
    ensures r.Contains(r)
  {
  }

  /** A region contained in a selection stays contained in every selection
      that extends it. */
  lemma ContainsExtended(sel: Selection, more: Selection, r: Region)
    requires SelectionContains(sel, r)
    ensures SelectionContains(sel + more, r)
  {
    var i :| 0 <= i < |sel| && sel[i].Contains(r);
    assert (sel + more)[i] == sel[i];
  }

  /** Host assumption: `Selection.add(r)`. An already contained region leaves
      the selection as it is; any other region is appended. */
  function AddRegion(sel: Selection, r: Region): (res: Selection)
    ensures SelectionContains(res, r)
    ensures |sel| <= |res| <= |sel| + 1 && res[..|sel|] == sel
    ensures res == sel <==> SelectionContains(sel, r)
    ensures !SelectionContains(sel, r) ==> res == sel + [r]
  {
    if SelectionContains(sel, r) then sel
    else
      ContainsSelf(r);
      assert (sel + [r])[|sel|] == r;
      sel + [r]
  }

  /** The selection after adding the regions of `frame` one after another. */
  function AddAll(sel: Selection, frame: seq<Region>): (res: Selection)
    ensures |sel| <= |res| && res[..|sel|] == sel
    ensures forall j :: 0 <= j < |frame| ==> SelectionContains(res, frame[j])
    decreases |frame|
  {
    if frame == [] then sel
    else
      var init := frame[..|frame| - 1];
      var mid := AddAll(sel, init);
      var res := AddRegion(mid, frame[|frame| - 1]);
      assert res == mid + res[|mid|..];
      forall j | 0 <= j < |frame| - 1
        ensures SelectionContains(res, frame[j])
      {
        assert frame[j] == init[j];
        ContainsExtended(mid, res[|mid|..], frame[j]);
      }
      res
  }

  /** A view of the host editor: its stable id and its live selection. */
  class View {
    const id: int
    var sel: Selection

    constructor (id: int, sel: Selection)
      ensures this.id == id && this.sel == sel
    {
      this.id := id;
      this.sel := sel;
    }

    /** `Selection.clear()`. */
    method Clear()
      modifies this
      ensures sel == []
    {
      sel := [];
    }

    /** `Selection.add(r)`, under the host assumption above. */
    method Add(r: Region)
      modifies this
      ensures sel == AddRegion(old(sel), r)
    {
      sel := AddRegion(sel, r);
    }
  }
}
