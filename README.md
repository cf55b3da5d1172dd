# ArcMenu preferences: verified model of the row lists and the visible-page restorer

This project models the behavioural core of ArcMenu's preferences window (GNOME Shell extension, GTK 4 / libadwaita) and proves its properties in Dafny.

- `row_lists.dfy`, module `RowLists`: the children of a `Gtk.ListBox` seen as a sequence of distinct rows. It defines the toolkit operations the widgets build on: `get_index`, `remove`, and `insert` with the toolkit's rule that an out-of-range position appends. It also defines the reorder a drop or a Move Up / Move Down performs (`Moved`). Lemmas cover these operations: a move is a permutation, the moved row lands at the target's index, the other rows keep their order, moving back undoes a move, and a move to a neighbour is a swap.
- `prefs_widgets.dfy`, module `PrefsWidgets`: the widgets of prefsWidgets.js as classes whose methods are the signal handlers.
  - `DragRow`: drag source and drop target handlers. They write the drag-session fields `dragRow`, `dragX`/`dragY`, `dragWidget` and `startIndex` on the parent `ListBox`.
  - `EditEntriesBox`: Move Up, Move Down, Delete, Modify, Change.
  - `StackListBox`: selection, the `row-selected` handler that drives the settings stack and header, `addRow`, and separator headers.
  - `IconGrid`: the counting `add`.
  - Emitted signals are appended to a `SignalLog`.
- `prefs.dfy`, module `Prefs`: the window of prefs.js.
  - `populateWindow` rebuilds the four top-level pages.
  - `setVisiblePage` turns the stored `prefs-visible-page` indicator into a page, a main-leaflet child, a sub-leaflet child and an active layout. It then stores `MAIN`.
  - The two listeners of `fillPreferencesWindow`.
  - The if-chain is also given as a table, `Navigation`, over a pure `WindowState`. The classes `Window` and `Settings` are proved against it.
  - `setVisiblePage` and the settings listener are mutually recursive methods. Their termination proof shows that the reset write never leads back into navigation.
- `options.dfy`, module `Options`: the optional value that stands for `null`.

## Model

| member | source | states |
|---|---|---|
| RowLists.IndexOf | prefsWidgets.js:175-176 | `get_index()`: -1 exactly when the row is not a child; otherwise the position of the row's first occurrence |
| RowLists.Slot | prefsWidgets.js:484 | an insert position outside 0..n (as -1) appends; one inside is used as is |
| RowLists.IndexOfDistinct | prefsWidgets.js:150 | in a list of distinct rows, the row at position k reports index k |
| RowLists.RemoveRowIsRemoveAt | prefsWidgets.js:182 | `remove(row)` of a child takes out exactly the child's position |
| RowLists.RemoveAtSpec | prefsWidgets.js:350 | removing position i loses exactly that row (multiset) and keeps the other rows in order |
| RowLists.RemoveAtDistinct | prefsWidgets.js:350 | after removal no copy of the row remains and the list stays duplicate-free |
| RowLists.RemoveRowSpec | prefsWidgets.js:348-354 | Delete: the length drops by one, the row is gone, the others keep their order, and no duplicate appears |
| RowLists.InsertThenRemove | prefsWidgets.js:184 | `insert(row, pos)` places the row at its slot; taking it out again gives back the old list |
| RowLists.MovedAt | prefsWidgets.js:182-184 | every row of a reordered list comes from the old list at `Origin(i, j, k)`, an independent pointwise description of the move |
| RowLists.OriginInverse | prefsWidgets.js:182-184 | the pointwise description of moving j to i inverts that of moving i to j |
| RowLists.MoveUndone | prefsWidgets.js:182-184 | dropping the moved row back on its old place restores the list |
| RowLists.MovedPermutes | prefsWidgets.js:182-184 | a drop reorder keeps the length and the multiset of rows and keeps them distinct |
| RowLists.MovedLandsAtTarget | prefsWidgets.js:174-184 | the dragged row lands at the target's former index, and without it both lists are the same sequence (relative order kept) |
| RowLists.AdjacentMoveSwaps | prefsWidgets.js:317-320 | moving a row one place up or down exchanges it with its neighbour |
| PrefsWidgets.SignalLog.Emit | prefsWidgets.js:189 | an emitted signal is appended to the log after the earlier ones |
| PrefsWidgets.GdkDrop.ReadValueAsync | prefsWidgets.js:177 | the dragged value is requested from the drop |
| PrefsWidgets.GdkDrop.OnValueRead | prefsWidgets.js:186-188 | once the dragged value is read, the drop is finished with MOVE |
| PrefsWidgets.ListBox.GetIndex | prefsWidgets.js:175 | a row's index is -1 exactly when it is not a child, and the row sits at that index otherwise |
| PrefsWidgets.ListBox.Insert | prefsWidgets.js:184 | the list becomes `InsertAt(rows, pos, row)` |
| PrefsWidgets.ListBox.Remove | prefsWidgets.js:182 | the list becomes `RemoveRow(rows, row)`; a row that is not a child leaves it unchanged |
| PrefsWidgets.ListBox.Show | prefsWidgets.js:183 | `show()`: the list is visible afterwards |
| PrefsWidgets.ListBox.HighlightRow | prefsWidgets.js:151 | `drag_highlight_row(row)`: that row, and only it, is highlighted |
| PrefsWidgets.ListBox.UnhighlightRow | prefsWidgets.js:169 | `drag_unhighlight_row()`: no row is highlighted |
| PrefsWidgets.DragRow.OnPrepare | prefsWidgets.js:129-137 | the cursor offset is stored on the parent list |
| PrefsWidgets.DragRow.OnDragBegin | prefsWidgets.js:113-127 | the list records the row as dragged and its ghost image; the icon's hotspot is the stored offset |
| PrefsWidgets.DragRow.OnDragEnd | prefsWidgets.js:139-144 | the ghost image is released and no row stays highlighted, drop or not |
| PrefsWidgets.DragRow.OnDragEnter | prefsWidgets.js:146-165 | `startIndex` becomes the entered row's index, that row is highlighted, and the handler returns true |
| PrefsWidgets.DragRow.OnDragLeave | prefsWidgets.js:167-170 | the highlight is cleared |
| PrefsWidgets.DragRow.OnDrop | prefsWidgets.js:172-191 | on itself: list, visibility and log unchanged; otherwise the list becomes `Moved(s, from, to)` and exactly one `drag-drop-done` is emitted; the value is requested in both cases and true is returned |
| PrefsWidgets.EditEntriesBox.OnMoveUp | prefsWidgets.js:314-324 | index > 0: moved one up; at 0: unchanged; list shown, popover closed, `row-changed` emitted either way |
| PrefsWidgets.EditEntriesBox.OnMoveDown | prefsWidgets.js:330-341 | index + 1 < length: moved one down; last row: unchanged; `row-changed` emitted either way |
| PrefsWidgets.EditEntriesBox.OnDelete | prefsWidgets.js:348-354 | the list becomes `RemoveRow(s, row)`, stays distinct, and `row-deleted` is emitted |
| PrefsWidgets.EditEntriesBox.OnModify | prefsWidgets.js:281-284 | popover closed, `modify` emitted |
| PrefsWidgets.EditEntriesBox.OnChange | prefsWidgets.js:291-294 | popover closed, `change` emitted |
| PrefsWidgets.LastNamed | prefsWidgets.js:408-414 | the last position whose stack name matches; -1 when no row matches |
| PrefsWidgets.StackListBox.OnRowSelected | prefsWidgets.js:383-389 | a real row: the stack shows its stack name and the header its name in bold; null: the frame is unchanged |
| PrefsWidgets.StackListBox.SelectRow | prefsWidgets.js:412 | the selection becomes the row; the frame stays as it was when the selection does not change or is cleared (null) |
| PrefsWidgets.StackListBox.SelectRowAtIndex | prefsWidgets.js:404-406 | the row at the index is selected; an index outside the list selects nothing and leaves the stack and header as they were |
| PrefsWidgets.StackListBox.SelectFirstRow | prefsWidgets.js:400-402 | the first row is selected; an empty list selects nothing and leaves the stack and header as they were |
| PrefsWidgets.StackListBox.SelectRowByName | prefsWidgets.js:408-414 | the last row with that stack name ends up selected, with the frame showing it; with no such row the selection and the frame are unchanged |
| PrefsWidgets.StackListBox.AddRow | prefsWidgets.js:416-451 | one row is appended with its stack name, translatable name, icon and next page, under a fresh id |
| PrefsWidgets.StackListBox.SetSeparatorIndices | prefsWidgets.js:453-464 | the rows whose index is in the array get a separator header, in addition to the rows already separated; no other row gains one |
| PrefsWidgets.StackListBox.UpdateHeaders | prefsWidgets.js:454-463 | applying the header function to every row separates exactly the rows whose index is listed |
| PrefsWidgets.StackListBox.UpdateHeader | prefsWidgets.js:455-462 | one row gets a separator exactly when its index occurs in the array |
| PrefsWidgets.IconGrid.Add | prefsWidgets.js:483-486 | the widget is appended at the end and the count stays equal to the number of children |
| Prefs.Decode | prefs.js:50-89 | the branch the if-chain takes for a stored value: that destination's code, or none when no branch matches |
| Prefs.DecodeCode | prefs.js:50-89 | every destination's code selects that destination's branch |
| Prefs.FindNamed | prefs.js:51 | the page a name selects is attached under that name; no page means no page has that name |
| Prefs.Window.LeafletPage | prefs.js:54-55 | the visible page's leaflets exist exactly when it has an entry (otherwise reading them throws) |
| Prefs.Window.NewPage | prefs.js:28 | a new page with a fresh id; a MenuPage comes with its leaflets |
| Prefs.Window.OnVisiblePageNotify | prefs.js:113-118 | when the MenuPage is visible, its main leaflet shows the main view |
| Prefs.Window.Show | prefs.js:113-118 | the visible page becomes the given one; the `notify::visible-page` listener runs exactly when that is a change (`ShowSpec`) |
| Prefs.Window.SetVisiblePageName | prefs.js:51 | the state becomes `ShowNamedSpec`: an unknown name changes nothing; the notification fires on a change |
| Prefs.Window.Add | prefs.js:29 | the page is appended; the first page added becomes visible |
| Prefs.Window.Remove | prefs.js:22 | the page is detached; if it was visible, the first remaining page is shown |
| Prefs.Window.Go | prefs.js:52-89 | one branch of the chain: the state and the outcome are `GoSpec(state, target)`; `false` when the visible page has no leaflets (TypeError) |
| Prefs.Window.SetMainChild | prefs.js:55 | only the main-leaflet child of that page changes |
| Prefs.Window.SetSubChild | prefs.js:60 | only the sub-leaflet child of that page changes |
| Prefs.Window.SetActiveLayout | prefs.js:78 | only the tweaks page's active layout changes |
| Prefs.Navigate | prefs.js:50-89 | the if-chain: an unknown value leaves the window as it is; a known one gives `GoSpec` of its branch, with its outcome |
| Prefs.SetVisiblePage | prefs.js:46-92 | window, stored value and outcome equal `Restore(Navigation, state, value)` |
| Prefs.OnPrefsVisiblePageChanged | prefs.js:103-106 | MAIN: nothing happens; otherwise `setVisiblePage` runs; terminates |
| Prefs.RemovePages | prefs.js:21-23 | every page on `window.pages` is removed and the window is left empty |
| Prefs.AttachPage | prefs.js:28-30 | a new page is built, added and pushed; the first one becomes visible |
| Prefs.AttachPages | prefs.js:26-42 | `window.pages` and the window's children become General, Menu, MenuButton and About, fresh, in order; the GeneralPage is visible; only the new MenuPage gains leaflets |
| Prefs.PopulateWindow | prefs.js:20-44 | `window.pages` is the four new pages in order; the window equals `Restore` applied to the rebuilt window |
| Prefs.RestoreKeepsPages | prefs.js:46-92 | navigation never attaches or detaches a page and keeps the window's invariant |
| Prefs.RestoreResets | prefs.js:91 | MAIN is stored afterwards exactly when the chain ran to its end; an unknown value navigates nowhere |
| Prefs.ResetIsQuiet | prefs.js:103-106 | the reset write lets the listener do nothing: no second navigation |
| Prefs.PopulatedFinds | prefs.js:27-41 | in a populated window every page name is found, 'vPage' is not |
| Prefs.PlainDestinations | prefs.js:50-83 | MAIN and GENERAL show the GeneralPage, BUTTON_APPEARANCE the MenuButtonPage, ABOUT the AboutPage |
| Prefs.MenuDestinations | prefs.js:52-89 | CUSTOMIZE_MENU shows the main view; MENU_LAYOUT, LAYOUT_TWEAKS and MENU_THEME show the MenuPage's sub-leaflet on the layouts, tweaks and theme page |
| Prefs.RunnerTweaksAsWritten | prefs.js:72-79 | 'vPage' leaves the visible page; on the MenuPage the tweaks page gets RUNNER; elsewhere the branch throws and nothing is reset |
| Prefs.ShowKeeps | prefs.js:113-118 | showing a page and its notification change only the visible page and existing leaflets |
| Prefs.RemoveFirst | prefs.js:22 | removing the first child leaves the rest and keeps the invariant |
| Prefs.RemovePrefix | prefs.js:21-23 | removing the first k pages leaves the others and keeps the invariant |
| Prefs.AddShows | prefs.js:29 | `add()` on an empty window shows the page; otherwise it only appends |
| Prefs.RebuiltIsPopulated | prefs.js:20-41 | after the rebuild the window holds the four new pages in order, none of the old ones, and shows the GeneralPage |
| Prefs.PopulateKeepsFourPages | prefs.js:20-44 | whatever the stored value, the window ends with exactly General, Menu, MenuButton and About and no old page |
| Prefs.RunnerTweaksOnOpenThrows | prefs.js:72-79 | opening with RUNNER_TWEAKS stored throws, stays on the GeneralPage and keeps RUNNER_TWEAKS stored |
| Prefs.IntendedRunnerTweaks | prefs.js:72-79 | with the MenuPage requested, RUNNER_TWEAKS reaches the tweaks page with the RUNNER layout and stores MAIN |
| Prefs.IntendedRestoreCompletes | prefs.js:72-79 | with the MenuPage requested, every stored value completes and MAIN is stored; RUNNER_TWEAKS reaches the tweaks page with RUNNER |

## Left out

- `createDragRow` (prefsWidgets.js:194-251) and all visual construction are left out. This covers margins, alignment, icons, labels, the `Button`, `DialogWindow`, `Tile` and `MenuLayoutRow` widgets, and the layout of the edit popover. The drag image is represented only by the `DragVisual` value.
- The auto-scroll code in drag-enter (prefsWidgets.js:156-164) is not modelled. It cannot run, because `scrolledWindow` is null from line 99 and never reassigned.
- `Gdk.ContentProvider`, `set_state_flags` and the asynchronous read are not modelled. The read is represented by `GdkDrop.ReadValueAsync` and its callback `OnValueRead`.
- `getRowAtIndex` and `getSelectedRow` (prefsWidgets.js:392-398) are left out. They call `get_children()`, which GTK 4 list rows do not have.
- The cursor offsets are kept as `real` values. No floating-point rounding is modelled.
- PrefsWidgets.DragRow.OnDrop: requires the dragged row to be a child of the same list. A drag from another list, or with no dragged row, would make `get_index`/`remove` act on a foreign or null row.
- PrefsWidgets.StackListBox.SetSeparatorIndices: the header function is modelled as run once over the current rows. Later re-runs by the toolkit, and the `Gtk.Separator` widgets themselves, are not modelled.
- PrefsWidgets.EditEntriesBox.OnMoveUp, PrefsWidgets.EditEntriesBox.OnMoveDown and PrefsWidgets.EditEntriesBox.OnDelete: require the box's row to be a child of its list. For a detached row `get_parent()` is null, and `parent.show()` or `parent.remove()` (prefsWidgets.js:321, 338, 350) would throw; that error path is not modelled.
- PrefsWidgets.StackListBox.OnRowSelected: assumes the settings stack has a child for every row's stack name. `set_visible_child_name` with a name the stack lacks would leave its visible child as it was; the stack's children are not part of this model.
- Gettext `_()` is the identity.
- The host set-up in `fillPreferencesWindow` is not modelled: icon-theme search path, window size, title and `ExtensionUtils.getSettings()`.
- The page classes `GeneralPage`, `MenuPage`, `MenuButtonPage` and `AboutPage` are not part of this model. Each page is represented as follows:
  - It is a value `Page(kind, id)`.
  - Its name is assumed to be its class name.
  - Only a MenuPage has `mainLeaflet`/`subLeaflet`.
  - The leaflet state a new MenuPage starts in is a parameter, `Window.menuInit`.
- The values of `Constants.PrefsVisiblePage` (constants.js) are not part of this model. `Code` assumes MAIN = 0 and distinct values for the others; the proofs use nothing more.
- The toolkit behaviour the model assumes:
  - A window's first added page becomes visible.
  - Removing the visible page shows the first remaining one.
  - `notify::visible-page` fires only when the visible page changes.
  - An unknown page name changes nothing.
  - `select_row` emits `row-selected` only on a change.
  - A settings stack has a child for every stack name its list's rows carry; an unknown name given to a stack would change nothing.
  - `insert` with a position outside the list appends.
- Settings writes notify the listener synchronously, on the single UI thread. Other keys of the settings schema are not modelled.
- A TypeError thrown inside `setVisiblePage` is modelled as an outcome `completed == false` that skips the rest of the function. Its propagation out of `fillPreferencesWindow` is not modelled.

## Findings

| source | as written | input that shows it | evidently intended | confidence | as-written member | corrected member |
|---|---|---|---|---|---|---|
| prefs.js:72-79 | the RUNNER_TWEAKS branch asks for page `'vPage'`. No page has that name, so the GeneralPage that `populateWindow` shows stays visible. `page.subLeaflet` is then undefined, and the branch throws before the reset at line 91. | open the preferences with `prefs-visible-page` = RUNNER_TWEAKS | request `'MenuPage'`, as the other leaflet branches do; the tweaks page then shows the RUNNER layout and MAIN is stored | medium, not executed (depends on GeneralPage having no `subLeaflet`) | Prefs.RunnerTweaksOnOpenThrows | Prefs.IntendedRestoreCompletes |

`Prefs.SetVisiblePage` follows the code as written. The corrected table is `Prefs.IntendedNavigation`, used through the same `Prefs.Restore`.
