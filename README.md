# MultiEditUtils selection history, modelled in Dafny

This project models the selection-history part of the MultiEditUtils plugin
for Sublime Text. The plugin keeps one record per view, with a
suppression flag and a stack of earlier "complex" selections. A selection
listener pushes each new complex selection onto that stack, or replaces
the top entry when the new selection only grew the previous one. The
"add last selection" command merges the top entry back into the live
selection, pops it, and runs again whenever the merge changed nothing.
The "jump to last region" command collapses the selection to one cursor
at the begin of its last region.

Files and modules:

- `regions.dfy`, module `Regions`: `Region(a, b)` with `Begin`, `End`,
  `Size`, `Empty` and `Contains`. It also holds `Selection` (a sequence of
  regions in insertion order) and the host calls the plugin uses:
  `SelectionContains`, `AddRegion` and `AddAll`. The `View` class holds a
  view id and the live selection, with `Clear` and `Add`.
- `helpers.dfy`, module `Helpers`: the `Helper` class, whose fields
  `ignoreSelectionCommand` and `lastSelections` are updated in place; its
  value `ViewState`; the `HelperMap` class, which holds the one shared
  `viewToHelperMap`; and `HashSelection`.
- `listener.dfy`, module `Listener`: the predicates `IsComplexSelection`
  and `IsSubsetOf`; the function `SelectionModified`, which gives the new
  state of one record; and the method `OnSelectionModified`, which updates
  the store.
- `commands.dfy`, module `Commands`: `Jump` and the method
  `JumpToLastRegion`; `RestoreOnce` and `Restore`, which give the effect of
  the add-last-selection command; and the methods `AddFrame` (the loop over
  the top entry) and `AddLastSelection` (the command, recursive as in the
  source).

The methods change objects: the `HelperMap`, the `Helper` of the view, and
the `View`. Their postconditions tie the new abstract store (`States()`)
and the new selection to the specification functions. The lemmas about
those functions state the behaviour the plugin promises.

Modelling decisions:

- **Host `Selection.add` and `Selection.contains`.** The host implements
  these, so they are not part of this model. The model assumes this minimal
  contract:
  - a selection contains a region when one of its regions spans it;
  - adding a region the selection already contains leaves the selection
    unchanged;
  - adding any other region appends it.
- **The map name at line 99.** As written, line 99 of
  `getOrConstructHelperForView` reads the bare name `viewToHelperMap`. Inside
  the static method that name does not resolve: Python looks it up among
  the locals and the module globals, not the class attributes. So every call
  raises `NameError`, and with it every call of the listener and of the
  restore command. The intended map is the class attribute of line 87
  (`Helper.viewToHelperMap`). The model follows that intent and keeps one
  shared map keyed by view id. `HelperMap.Valid` states that no two ids share
  a record.
- **What `isSubsetOf` tests.** The comment at line 79 says "A is a subset of
  B". The code at line 81 tests that A contains every region of B.
  `IsSubsetOf` models the code.
- **`hashSelection`.** It is modelled as the list of each region's
  (anchor, active end) pairs. `HashSelectionInjective` proves that two
  fingerprints are equal exactly when the two selections are equal.
- **Preconditions.** `isComplexSelection` reads `selection[0]` and the jump
  command reads `selection[-1]`, so both need a non-empty selection. The
  listener needs one only when the flag is clear, because with the flag set
  it returns before it reads the selection.
- **Event dispatch.** The restore command does not call the listener
  itself. `RestoreSuppressesNextNotification` shows that the next
  notification after a restore records nothing. The flag is set even when
  the restore changed nothing, as `RestoreTestTrace` shows. On a host that
  sends no notification for a change that did nothing, the suppressed
  notification is then the next, unrelated user change.

## Model

| member | source | states |
|---|---|---|
| `Regions.Region.Size` | MultiEditUtils.py:73 | The length of a region is zero exactly when its two ends coincide. |
| `Regions.Cursor` | MultiEditUtils.py:12 | `Region(p)` is an empty region whose begin and end are both `p`. |
| `Regions.SelectionContains` | MultiEditUtils.py:81 | Host assumption for `Selection.contains`: some region of the selection spans `r`. Under it, a region listed in the selection is contained, and the empty selection contains nothing. |
| `Regions.AddRegion` | MultiEditUtils.py:31 | Host assumption for `Selection.add`: afterwards the selection contains the region. The old regions stay in place, and at most one region is added. The selection is unchanged exactly when it already contained the region. Otherwise the result is the old selection with the region appended. |
| `Regions.AddAll` | MultiEditUtils.py:29-31 | Adding the regions of an entry one by one keeps the old regions as a prefix. Afterwards the selection contains every region of the entry. |
| `Regions.View.Clear` | MultiEditUtils.py:11 | After `clear()` the selection is empty. |
| `Regions.View.Add` | MultiEditUtils.py:31 | `add(r)` changes the live selection as `AddRegion` says. |
| `Helpers.HelperMap.constructor` | MultiEditUtils.py:87 | The shared map starts empty, and no two ids share a record. |
| `Helpers.Helper.constructor` | MultiEditUtils.py:89-93 | A new record has the flag clear and an empty history. |
| `Helpers.HelperMap.GetOrConstructHelperForView` | MultiEditUtils.py:96-106 | When the id is present, the map is unchanged and the stored record is returned, so repeated calls return the same record. When the id is absent, exactly one fresh initial record is inserted for it. Records of other ids are unchanged, and no record is shared between ids. |
| `Helpers.HashSelection` | MultiEditUtils.py:109-112 | The fingerprint determines the selection: the only selection whose regions give these (anchor, active end) pairs, in this order, is the one fingerprinted. So comparing fingerprints at line 37 compares the region lists by value and in order. The fingerprint has one entry per region. |
| `Helpers.HashSelectionInjective` | MultiEditUtils.py:109-112 | The fingerprints of two selections are equal exactly when the selections are equal, so comparing fingerprints compares region lists in order. |
| `Listener.IsComplexSelection` | MultiEditUtils.py:69-75 | A non-empty selection is not complex exactly when it is a single empty region. Any other selection is complex: more than one region, or one non-empty region. |
| `Listener.IsSubsetOf` | MultiEditUtils.py:78-81 | `IsSubsetOf(A, B)` holds exactly when A contains every region of B, as the code at line 81 tests. The comment at line 79 reads the relation the other way round. The predicate holds whenever every region listed in B is also listed in A. |
| `Listener.SelectionModified` | MultiEditUtils.py:46-66 | After any notification the flag is clear. The history keeps its length or grows by one. The invariant "every entry is a complex selection" is preserved. |
| `Listener.IgnoreFlagConsumed` | MultiEditUtils.py:51-53 | With the flag set, the listener clears it and keeps the history, whatever the selection is. |
| `Listener.SimpleSelectionIgnored` | MultiEditUtils.py:57 | With the flag clear, a single cursor leaves the state unchanged. |
| `Listener.ReplaceOnExpansion` | MultiEditUtils.py:59-64 | Suppose the selection is complex, the history is non-empty, and the selection contains every region of the top entry. Then the history keeps its length, its top is the selection, and all earlier entries are unchanged. |
| `Listener.PushOtherwise` | MultiEditUtils.py:57-66 | The history grows by one exactly when the flag is clear, the selection is complex, and either the history is empty or the selection does not contain the whole top entry. The history is then the old history with the selection appended. |
| `Listener.OnSelectionModified` | MultiEditUtils.py:46-66 | Only the record of the notified view changes, and it is created if missing. It changes as `SelectionModified` gives. All other records and map entries stay as they were. |
| `Commands.Jump` | MultiEditUtils.py:6-12 | Jump leaves exactly one region. It is empty, sits at `begin()` of the previous last region, lies within that region, and is not a complex selection. |
| `Commands.JumpExample` | tests/testMultiEditUtils.py:86-99 | Jumping from `[0,4], [5,9]` gives exactly `[5,5]`. |
| `Commands.JumpIsNotRecorded` | MultiEditUtils.py:10-12 | With the flag clear, the listener records nothing for the selection a jump leaves. |
| `Commands.JumpToLastRegion` | MultiEditUtils.py:6-12 | After `clear()` then `add(Region(begin))`, the live selection equals `Jump` of the old selection. |
| `Commands.AddAllUnchangedIff` | MultiEditUtils.py:33-39 | Merging an entry leaves the selection unchanged exactly when the selection already contained every region of the entry. This is the condition under which the command runs again. |
| `Commands.RestoreOnce` | MultiEditUtils.py:26-35 | One pass pops the top entry and sets the flag if the entry has a region. Its selection is the old one with the entry added. The before and after fingerprints match exactly when the old selection already contained the whole entry. |
| `Commands.Restore` | MultiEditUtils.py:18-40 | Started with two or more entries, the command terminates, pops at least one entry, and leaves at least one. |
| `Commands.RestoreSpec` | MultiEditUtils.py:29-40 | Started with two or more entries, the remaining history is a prefix of the old one. The result is the old selection merged with the last popped entry. Every earlier popped entry was already covered, so each rerun happened only when nothing changed. The command stops with two or more entries left only when the last merge changed the selection. |
| `Commands.RestoreFlag` | MultiEditUtils.py:29-31 | After a restore from two or more entries, the flag is set exactly when it was set before or some popped entry had a region. |
| `Commands.LowHistoryNoOp` | MultiEditUtils.py:23-24 | With fewer than two entries, neither the history nor the selection changes. |
| `Commands.RestoreCoversPoppedEntries` | MultiEditUtils.py:29-35 | The restored selection keeps the old regions as a prefix, and it contains every region of every popped entry. |
| `Commands.RestoreKeepsAllComplex` | MultiEditUtils.py:35 | Popping preserves the invariant that every history entry is complex. |
| `Commands.RestoreTestTrace` | tests/testMultiEditUtils.py:102-118 | The test's scenario, traced through the code at MultiEditUtils.py:18-40: history `[0,4]`, `[5,9]` under the selection `[5,9]`. The restore leaves the selection `[5,9]` (one region) and the history `[0,4]`, and it sets the flag although nothing changed. |
| `Commands.RestoreSuppressesNextNotification` | MultiEditUtils.py:29-31 | Suppose every history entry is complex and there are at least two entries. After a restore the flag is set, so the next notification only clears the flag and changes nothing else. |
| `Commands.AddFrame` | MultiEditUtils.py:29-31 | The loop sets the flag when the entry is non-empty, leaves the history alone, and adds every region of the entry to the live selection. |
| `Commands.AddLastSelection` | MultiEditUtils.py:18-40 | The command, recursive as in the source. Only the record of the view and the live selection change, and they change to what `Restore` gives. Other records are unchanged. |

## Left out

- Host selection semantics: the real `Selection.add` merges overlapping
  regions and keeps them sorted, and the real `Selection.contains` may test
  against the union of regions. Neither is part of this model. The model
  uses only the assumed contract described above.
- Event dispatch timing: when the host fires `on_selection_modified`, and
  whether it fires once per `add`, is decided by the host. The model lets
  the caller deliver notifications. If the host delivered one notification
  per `add`, each would find the flag set just before it. An `add` that
  changes nothing and fires no notification would leave the flag set for
  the next, unrelated change. The model does not tell these hosts apart.
- The `str(...)` text that `hashSelection` builds is replaced by a list of
  pairs, which compares equal under the same conditions.
- The two regions that `testAddLastSelection` asserts are not proved
  (tests/testMultiEditUtils.py:102-118). The test relies on a helper
  command, `test_multi_edit_utils`, that is not part of this model.
  `RestoreTestTrace` proves what the modelled code does instead, starting
  from the history `[0,4]`, `[5,9]` under the selection `[5,9]`. It leaves
  a single region: merging `[5,9]` changes nothing, the entry is popped,
  and the rerun stops at the fewer-than-two guard.
- `split_selection`, `normalize_region_ends`, `strip_selection`,
  `remove_empty_regions` and `split_selection_into_lines`: these commands
  are exercised by the tests, but their source is not part of this model.
- The `edit` argument of the commands is unused by the modelled code. The
  lifetime of the view map, and concurrency, are outside the single-threaded
  host model.
