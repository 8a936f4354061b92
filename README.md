# Via registry and object-list window, modelled in Dafny

This project models two small stateful parts of a PCB routing application.

**The via registry** (`BoardInfos`, `board_infos.dfy`) is the list of via descriptors ("via infos") that interactive and automatic routing may use. Each via info has a name, a padstack, a clearance class and an attach-to-SMD flag. The registry keeps them in insertion order and refuses an insertion whose name is already taken. The class `BrdViaInfoList` holds the list in a `seq` field. `Add` and `Remove` update it in place and keep the invariant `Valid()`: no two elements share a name. The read-only operations are methods. The two name scans are loops with an early exit, proved against the recursive specification function `FirstNamed` and the predicate `HasName`. `Added` and `Removed` are the value-level specifications of the two updates.

**The object-list window** (`GuiWin`, `gui_win.dfy`) is the abstract base of every window that lists board objects. `WindowObjectList` keeps:
- the display list, which is absent until the first recalculation;
- the set of selected positions;
- the information sub-windows it has opened, which may include nulls;
- its location and its visible/disposed flags.

A recalculation builds the list from scratch, adding the items the subclass supplies one at a time. Inversion fills an array of the unselected positions with a write cursor. Showing opens an information window (`WindowObjectInfo`) over a snapshot of the selected items, 30 pixels further right and down. Disposing the window disposes every non-null sub-window. Save writes the selected indices. Read first reads the saved array; a failed read returns false and changes nothing. Otherwise it lets the base window restore itself, which may show the window and so rebuild the list. After that it restores the indices, but only when a list exists and the saved array is non-empty.

Index-set functions describe the list widget's part:
- `Ascending` gives the selected indices in increasing order, as the widget reports them.
- `SetFrom` gives what the widget keeps of the indices it is told to select: those that are positions of the list.
- `Complement` is the inverted selection.
- `Restored` is the selection after a read.

Lemmas about these functions give the properties: the size of the inverted array, that the write cursor stays in bounds, that inverting twice is the identity, and that save followed by restore is a round trip.

Where one might expect otherwise, the model follows the code:
- A read of an empty saved array does not clear the current selection.
- Out-of-range restored indices are not rejected or reported. They reach the list widget, which the model takes to keep only the valid ones.
- A recalculation always starts with an empty selection. Nothing is remapped.

`Wrappers` (`wrappers.dfy`) holds `Option`. It stands for a Java reference that may be null, and for a stream read that may fail.

The methods `RegistryScenario`, `ShowAndInvertScenario` and `PersistScenario` are usage scenarios. They show that the contracts are strong enough to follow concrete sequences of calls: duplicate refusal, invert twice, show twice then dispose, and save then restore in a new window.

## Model

| member | source | states |
|---|---|---|
| BoardInfos.BrdViaInfoList.constructor | src/board/infos/BrdViaInfoList.java:36 | The registry starts empty, and so satisfies the unique-name invariant. |
| BoardInfos.BrdViaInfoList.Add | src/board/infos/BrdViaInfoList.java:42-50 | If some element already has the name: returns false and the list is unchanged. Otherwise: appends at the end and returns true. In both cases the unique-name invariant is preserved. |
| BoardInfos.Added | src/board/infos/BrdViaInfoList.java:42-50 | The list after an add keeps the old list as a prefix. It grows by one exactly when the name was new. The name is then present. Unique names stay unique. |
| BoardInfos.BrdViaInfoList.Iterator | src/board/infos/BrdViaInfoList.java:52-55 | Iteration yields the elements in list (insertion) order. |
| BoardInfos.BrdViaInfoList.Count | src/board/infos/BrdViaInfoList.java:60-63 | The count is the number of elements. |
| BoardInfos.BrdViaInfoList.Get | src/board/infos/BrdViaInfoList.java:68-73 | Requires 0 <= no < count, as the source's assert does. Returns the element at that position. |
| BoardInfos.FirstNamed | src/board/infos/BrdViaInfoList.java:78-85 | Returns None exactly when no element has the name. Otherwise returns the element at the first position with that name. |
| BoardInfos.BrdViaInfoList.GetByName | src/board/infos/BrdViaInfoList.java:78-85 | The early-exit scan returns the first element with the name, or None. |
| BoardInfos.BrdViaInfoList.NameExists | src/board/infos/BrdViaInfoList.java:90-97 | The scan returns true exactly when some element has the name. The result agrees with a name lookup that finds something. |
| BoardInfos.FirstIndexOf | src/board/infos/BrdViaInfoList.java:102-105 | For an element in the list: the position of its first occurrence. |
| BoardInfos.BrdViaInfoList.Remove | src/board/infos/BrdViaInfoList.java:102-105 | Returns true exactly when x was in the list. The new list is Removed of the old one. The unique-name invariant is preserved. |
| BoardInfos.Removed | src/board/infos/BrdViaInfoList.java:102-105 | If x is absent, the list is unchanged. Otherwise the first occurrence of x is deleted: the others keep their order, the length drops by one, and exactly one copy of x leaves the multiset of elements. Unique names stay unique. |
| BoardInfos.DeletionCounts | src/board/infos/BrdViaInfoList.java:104 | Deleting one position removes exactly one copy of that element. |
| BoardInfos.DeletionKeepsUnique | src/board/infos/BrdViaInfoList.java:104 | Deleting a position cannot create a duplicate name. |
| BoardInfos.AddedIsFound | src/board/infos/BrdViaInfoList.java:42-85 | After an add of a new name, lookup by that name returns the added element. |
| BoardInfos.FoundInUnique | src/board/infos/BrdViaInfoList.java:78-85 | In a list with unique names, lookup by an element's name returns that element. |
| BoardInfos.RemovedNameGone | src/board/infos/BrdViaInfoList.java:90-105 | After an element is removed from a list with unique names, no element has its name, and lookup by that name returns None. |
| GuiWin.Shift | src/gui/win/WindowObjectList.java:210-216 | A coordinate of the new window is the owner's plus 30. The int cast of the double sum saturates at the largest int. |
| GuiWin.Offset | src/gui/win/WindowObjectList.java:210-211 | The new window's location is the owner's moved by 30 in x and in y, unless a coordinate saturates. It is never left of or above the owner. |
| GuiWin.Ascending | src/gui/win/WindowObjectList.java:237 | The widget reports at most as many selected indices as the list has positions. |
| GuiWin.SetFrom | src/gui/win/WindowObjectList.java:247 | The widget's new selection is exactly the given indices that are positions of the list. |
| GuiWin.Restored | src/gui/win/WindowObjectList.java:290-294 | Without a list, or for an empty saved array, the selection is kept. Otherwise it becomes exactly the saved indices that are positions of the list. A selection within the list stays within it. |
| GuiWin.SelectedValues | src/gui/win/WindowObjectList.java:198 | There is one value per reported selected index. Each value is the item at some selected position, and the item at every selected position appears. |
| GuiWin.SelectedValuesSnoc | src/gui/win/WindowObjectList.java:198 | The selected values come in increasing index order, once per selected position: appending an item to the list appends its value exactly when its position is selected, after the earlier values. |
| GuiWin.AscendingSpec | src/gui/win/WindowObjectList.java:257-260 | The reported selected indices are strictly increasing. They are exactly the selected positions below the list length. |
| GuiWin.AscendingAgrees | src/gui/win/WindowObjectList.java:237 | The reported indices depend only on which positions below the length are selected. |
| GuiWin.AscendingCovers | src/gui/win/WindowObjectList.java:237 | For a selection of positions, the number of reported indices equals the number of selected positions. |
| GuiWin.AscendingPrefix | src/gui/win/WindowObjectList.java:239-245 | The unselected positions below i are a prefix of those below the list length. This bounds the write cursor. |
| GuiWin.PartitionLength | src/gui/win/WindowObjectList.java:239-245 | Each position below m is counted exactly once: as selected or as not selected. |
| GuiWin.InvertedLength | src/gui/win/WindowObjectList.java:237-245 | The inverted index array has length size - (number of selected). |
| GuiWin.SetFromAscending | src/gui/win/WindowObjectList.java:247 | Selecting the reported indices of a selection reproduces that selection. |
| GuiWin.InvertTwice | src/gui/win/WindowObjectList.java:237-247 | Inverting twice over the same list restores the original selection. |
| GuiWin.SaveRestoreRoundTrip | src/gui/win/WindowObjectList.java:255-296 | Reading back the saved indices of a selection on a list of the same length restores a non-empty selection. For an empty selection, the current selection is kept. |
| GuiWin.SelectedValuesEmpty | src/gui/win/WindowObjectList.java:198-202 | The selected values are as many as the selected positions. They are empty exactly when nothing is selected. |
| GuiWin.WindowObjectInfo.constructor | src/gui/win/WindowObjectList.java:209 | A new information window holds the given snapshot and is not disposed. |
| GuiWin.WindowObjectInfo.SetLocation | src/gui/win/WindowObjectList.java:212 | Placing a window sets its location only. |
| GuiWin.WindowObjectInfo.Dispose | src/gui/win/WindowObjectList.java:180 | Disposing marks the window disposed. Its location is kept, and doing it again changes nothing. |
| GuiWin.WindowObjectList.constructor | src/gui/win/WindowObjectList.java:48-57 | A new window has no list, no selection and no sub-windows. |
| GuiWin.WindowObjectList.SetVisible | src/gui/win/WindowObjectList.java:126-133 | Making the window visible recalculates the list first. Hiding it leaves the list and the selection as they are. |
| GuiWin.WindowObjectList.Recalculate | src/gui/win/WindowObjectList.java:135-149 | The list becomes exactly the supplied items, in order, built from a fresh empty list. The selection becomes empty. Nothing else changes. |
| GuiWin.WindowObjectList.AddToList | src/gui/win/WindowObjectList.java:186-189 | Appends the item to the end of the existing list. The selection and everything else are unchanged. |
| GuiWin.WindowObjectList.SelectIndices | src/gui/win/WindowObjectList.java:247 | The widget's selection becomes the given indices that are positions of the list. |
| GuiWin.WindowObjectList.InvertSelection | src/gui/win/WindowObjectList.java:231-248 | A no-op without a list. Otherwise the selection becomes exactly the unselected positions in [0, size). The loop writes each of them, in increasing order, within the array's bounds. |
| GuiWin.WindowObjectList.Show | src/gui/win/WindowObjectList.java:195-216 | With an empty selection, the sub-windows are unchanged. Otherwise exactly one fresh, undisposed window is appended. Its objects are the selected items in list order, and its location is the owner's offset by 30 in x and y. List, selection and location are unchanged. |
| GuiWin.WindowObjectList.Dispose | src/gui/win/WindowObjectList.java:174-184 | Every non-null sub-window ends up disposed, and nulls are skipped. The window itself is disposed. The sub-window collection and the list state are unchanged. |
| GuiWin.WindowObjectList.Save | src/gui/win/WindowObjectList.java:255-275 | Writes the selected indices in strictly increasing order, or an empty array when there is no list. An index is written exactly when it is selected. |
| GuiWin.WindowObjectList.Read | src/gui/win/WindowObjectList.java:278-296 | A failed read returns false and changes nothing. A successful read returns the base window's result. If the base window's restore shows the window, the list is rebuilt and the selection emptied first. After that, the selection is replaced by the saved indices only when a list exists and the saved array is non-empty. The sub-windows and location are unchanged. |

## Left out

- Swing widgets and layout (src/gui/win/WindowObjectList.java:64-124, 153-171): panels, buttons, tooltips, borders, the scroll pane, `pack()` and the mouse listener. These are presentation only.
- The branch at src/gui/win/WindowObjectList.java:151: it tests a Swing preferred-height property, not the item count. Only the choice of what the window presents depends on it, so it is not modelled.
- The list widget's own behaviour, which is not part of this model:
  - It is taken to keep exactly the in-range indices it is told to select (`SetFrom`).
  - It is taken to report selected indices in increasing order (`Ascending`).
  - It is taken to leave the selection alone when an item is appended at the end.
- `select_instances` and `SelectListener`, and the double-click that calls it: an opaque subclass hook that the window only forwards to. The model keeps no state for it.
- `fill_list` is a subclass hook. It is modelled as the sequence of items that `Recalculate` and `SetVisible` receive.
- `WindowObjectInfo.display` and the board coordinate transform are foreign calls. A new `WindowObjectInfo` over the snapshot stands in for the displayed window.
- The window-closing listener that calls `dispose` is event plumbing.
- Java object-stream serialization is not modelled:
  - `Save` returns the array it would write. A failed write only prints a message and changes no state.
  - `Read` receives the read's outcome as an `Option`.
  - A stream holding a null array would make the source fail at line 291, outside its try block, when a list exists: the test `gui_list != null` comes first and short-circuits. Save never writes a null array, so this is not modelled.
- `super.save` and `super.read` of the base window class are not part of this model. The result of `super.read` is a parameter of `Read`.
- GuiWin.WindowObjectList.Read: of the effects of `super.read` (line 290), the model captures only an optional `setVisible(true)`. The parameter `superShows` carries it with the items the recalculation adds. Any other state the base window restores, such as its location on screen, is not modelled: the model keeps `location` unchanged, and takes that restore to leave the list, the selection and the sub-windows alone.
- `GuiResources` and `ResourceBundle` lookups are localisation only.
- `BrdViaInfoList.print_info` (src/board/infos/BrdViaInfoList.java:107-133) is display formatting into an output panel that is not part of this model.
- src/specctra/varie/DsnPackageKeepout.java is a plain immutable record, with nothing to state beyond its constructor.
- Element equality in `Remove` is structural equality of the `ViaInfo` value. The source's `equals` for via infos is not part of this model.
- Iterator: models iteration as the element sequence. Removal through the Java iterator is not modelled.
- GuiWin.WindowObjectList.Show: requires a list. Without one, the source's list widget is null and the call fails, because the window is only shown after a recalculation.
- GuiWin.WindowObjectList.AddToList: requires a list, because it is only called from `fill_list` during a recalculation, after the list is created.
- GuiWin.WindowObjectList.Dispose: the model records disposal as a flag per window. It cannot observe how many times a window was disposed, only that each ends up disposed and that a repeated dispose changes nothing.
- List lengths and indices are unbounded integers. Java's 32-bit int limits on them are not modelled. Lists of 2^31 items are not reachable in the source.
