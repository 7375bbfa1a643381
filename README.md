# List-view part and folders panel, modelled in Dafny

This project models the decision logic of two file-manager components.

- **The list-view part** (`konq_listview.cc`), in module `ListView`:
  - selecting and unselecting rows by wildcard pattern;
  - select-all, unselect-all and invert;
  - recomputing column visibility and persisting the visible column names per protocol;
  - which actions a selection enables;
  - the URL list that copy and cut put on the clipboard;
  - the single-item requests (paste onto, properties of, and MIME-type editing of the selected row);
  - the icon size chosen from three toggles;
  - the widget and XML file chosen for a view mode.
- **The folders side panel** (`folderspanel.cpp`), in module `Folders`:
  - the URL-change guard for invalid and search URLs;
  - the base URL of the tree;
  - `loadTree` with its refresh, lookup and expansion steps;
  - the "selection owed" flag (`m_updateCurrentItem`) that `slotLoadingCompleted` honours;
  - "select exactly this row";
  - lazy, at-most-once creation of the controller;
  - the rename guard;
  - the null-item and negative-index guards on activation, middle click and drop.

The external objects are replaced by plain state:

- The list view's rows are a `seq<Item>`. Each item holds its filename text, URL, directory, MIME type and selected flag.
- The folders panel's model is a directory, a URL→row map and a row sequence.
- Its selection manager is a current index plus a set of indices.
- Everything either component asks of the framework is recorded rather than performed. The panel appends to an `effects` log (refresh, expand, scroll, fade-in, change URL, rename, drop, edit). The list view counts the signals it delivers, the selection-summary updates, the repaints and the content rebuilds.

The wildcard matcher is the parameter `matches(pattern, text)`. Nothing is assumed about it: it may anchor the match or not. Every sweep property holds for every matcher.

Each state-changing method is proved against a pure function:

- The sweep's rows are `Sweep(old(items), …)`.
- After a column toggle the descriptors are `Refreshed(old(columns))` and the configuration is `WriteEntry(…, Displayed(columns))`.
- After a panel step the state is `TreeAfterLoad`, `TreeAfterCompletion` and so on, applied to `old(Tree())`.

What the source promises is then proved about those functions as lemmas.

Three details of the code that the model keeps:

- The matcher stays abstract: the code calls the toolkit's wildcard `re.match(...) != -1`, and its anchoring is not visible.
- A non-local base URL keeps everything but its path, which becomes "/".
- Any protocol that contains "search" is ignored, as is any invalid URL.

## Model

| member | source | states |
|---|---|---|
| `ListView.Sweep` | konqueror/listview/konq_listview.cc:331-333 | the rows after a sweep, row by row in the same order: each row is marked on its own (set to the value if its filename text matches, else kept) |
| `ListView.SweepSetsExactlyMatching` | konqueror/listview/konq_listview.cc:331-333 | a sweep sets exactly the rows whose filename text matches to the given value; non-matching rows keep their state; row count and order are unchanged |
| `ListView.SweepIdempotent` | konqueror/listview/konq_listview.cc:331-333 | selecting (or unselecting) twice with the same pattern gives the same rows as once |
| `ListView.SweepAbsorbs` | konqueror/listview/konq_listview.cc:360-362 | of two sweeps with the same pattern the second decides (unselect after select equals unselect alone) |
| `ListView.SelectThenUnselectRestores` | konqueror/listview/konq_listview.cc:347-374 | select then unselect with one pattern restores every non-matching row and every matching row that was unselected before |
| `ListView.KonqListView.EmitSelectionChanged` | konqueror/listview/konq_listview.cc:343 | `selectionChanged` is delivered exactly when the widget's signals are not blocked |
| `ListView.KonqListView.SetItemSelected` | konqueror/listview/konq_listview.cc:333 | one row's flag is set and nothing else in the rows changes; the toolkit signals the change unless signals are blocked |
| `ListView.KonqListView.SweepMatching` | konqueror/listview/konq_listview.cc:327-336 | with signals blocked throughout, the rows become `Sweep(old rows)`; no signal escapes; signals are unblocked and the view repainted once |
| `ListView.KonqListView.SlotSelect` | konqueror/listview/konq_listview.cc:318-345 | an accepted empty pattern changes nothing and sends nothing; otherwise the matching rows are selected if accepted, `selectionChanged` is delivered exactly once (also when cancelled) and the summary refreshed once |
| `ListView.KonqListView.SlotUnselect` | konqueror/listview/konq_listview.cc:347-374 | as SlotSelect, with matching rows unselected |
| `ListView.KonqListView.SlotSelectAll` | konqueror/listview/konq_listview.cc:376-382 | rows become all selected; one `selectionChanged`; one summary refresh |
| `ListView.KonqListView.SlotUnselectAll` | konqueror/listview/konq_listview.cc:384-390 | rows become all unselected; one `selectionChanged`; one summary refresh |
| `ListView.KonqListView.SlotInvertSelection` | konqueror/listview/konq_listview.cc:393-400 | every row's flag is flipped; one repaint, one `selectionChanged`, one summary refresh |
| `ListView.SetAll` | konqueror/listview/konq_listview.cc:378 | the toolkit's select-all: every row, in the same order, with its flag set to the value |
| `ListView.Inverted` | konqueror/listview/konq_listview.cc:395 | the toolkit's invert: every row, in the same order, with its flag flipped |
| `ListView.SelectAllAndUnselectAll` | konqueror/listview/konq_listview.cc:376-390 | after select-all every row is selected, after unselect-all none is; nothing but the flags changes |
| `ListView.InvertInvolutive` | konqueror/listview/konq_listview.cc:393-400 | inverting twice restores the original rows |
| `ListView.InvertComplements` | konqueror/listview/konq_listview.cc:393-400 | the rows selected before and after an inversion together count every row exactly once |
| `ListView.Selected` | konqueror/listview/konq_listview.cc:131-132 | the selection lists only selected rows and every selected row, no more than there are rows |
| `ListView.Enablement` | konqueror/listview/konq_listview.cc:145-166 | copy, cut, del and shred go together and need a selection; trash implies del; pastecut equals pastecopy; editMimeType exactly when one row is selected; paste and properties only then, and then copy is enabled too |
| `ListView.UpdateActions` | konqueror/listview/konq_listview.cc:127-167 | copy, cut, del, shred: selection non-empty; trash: non-empty and no selected row's directory is the trash path; pastecut, pastecopy: exactly one selected and a clipboard non-empty; properties: exactly one and the dialog can show it; editMimeType: exactly one |
| `ListView.Copy` | konqueror/listview/konq_listview.cc:169-191 | cut and copy put one URL per selected row on the clipboard, in selection order |
| `ListView.SoleSelected` | konqueror/listview/konq_listview.cc:195-197 | there is a sole selected row exactly when one row is selected; it is then one of the rows, selected, and every selected row equals it |
| `ListView.PasteSelection` | konqueror/listview/konq_listview.cc:193-199 | paste targets the single selected row's URL with the given move flag; any other selection count hits the fatal assertion |
| `ListView.Properties` | konqueror/listview/konq_listview.cc:223-229 | the properties dialog opens for the single selected row; otherwise the assertion fails |
| `ListView.EditMimeTypeOf` | konqueror/listview/konq_listview.cc:231-237 | the MIME-type editor opens for the single selected row's type; otherwise the assertion fails |
| `ListView.EnabledRequestsDoNotAbort` | konqueror/listview/konq_listview.cc:153-166 | when pastecut, pastecopy, properties or editMimeType is enabled, the request it triggers never hits the assertion |
| `ListView.DefaultColumns` | konqueror/listview/konq_listview.cc:268-276 | nine descriptors named Type, Size, Modified, Accessed, Created, Permissions, Owner, Group, Link; none displayed; toggles unchecked and enabled |
| `ListView.Refreshed` | konqueror/listview/konq_listview.cc:417-418 | recomputing the flags keeps the descriptors' count and names |
| `ListView.RefreshedIsSynced` | konqueror/listview/konq_listview.cc:417-418 | after recomputation every flag equals checked-and-enabled of its toggle, and nothing else changed |
| `ListView.WithToggle` | konqueror/listview/konq_listview.cc:454-462 | setting a column's toggle changes only that descriptor, and in it only the toggle's checked state |
| `ListView.ToggleOffThenOnRestores` | konqueror/listview/konq_listview.cc:417-433 | switching a shown column off and on again restores the descriptors, and so the persisted list |
| `ListView.Displayed` | konqueror/listview/konq_listview.cc:428-432 | the persisted list has no more names than there are descriptors; it is all names when every descriptor is displayed and empty when none is |
| `ListView.DisplayedIsSubsequence` | konqueror/listview/konq_listview.cc:428-432 | the persisted list is a subsequence of the descriptor names: descriptor order, names only left out |
| `ListView.DisplayedMembership` | konqueror/listview/konq_listview.cc:429-432 | a name is persisted exactly when a displayed descriptor carries it |
| `ListView.PersistedColumnsOrdered` | konqueror/listview/konq_listview.cc:268-276 | for the part's descriptors the persisted list is a subsequence of Type, Size, Modified, Accessed, Created, Permissions, Owner, Group, Link |
| `ListView.GroupName` | konqueror/listview/konq_listview.cc:426 | the group starts with "ListView_" and the protocol is read back from position 9 |
| `ListView.GroupNameInjective` | konqueror/listview/konq_listview.cc:426 | `"ListView_" + protocol` differs for different protocols, so each protocol keeps its own column set |
| `ListView.WriteEntry` | konqueror/listview/konq_listview.cc:427-434 | the written entry holds the new list; every other entry and group is kept |
| `ListView.KonqListView.SlotColumnToggled` | konqueror/listview/konq_listview.cc:414-435 | every flag becomes checked-and-enabled of its toggle; contents rebuilt once; entry "Columns" of group "ListView_" + protocol holds the displayed names in descriptor order |
| `ListView.KonqListView.SetColumnToggle` | konqueror/listview/konq_listview.cc:454-462 | switching one toggle to a new state runs the column slot on the updated descriptors, and every flag mirrors its toggle before and after |
| `ListView.IconSizeFor` | konqueror/listview/konq_listview.cc:404-406 | Large iff the large toggle is checked; Medium iff not large and medium is checked; Small iff neither |
| `ListView.IconSizeByPriority` | konqueror/listview/konq_listview.cc:402-408 | the small toggle is never consulted; with exclusive toggles the checked one wins |
| `ListView.KonqListView.SlotIconSizeToggled` | konqueror/listview/konq_listview.cc:402-408 | the icon size becomes the toggles' choice; the contents are rebuilt once |
| `ListView.KonqListView.ChooseIconSize` | konqueror/listview/konq_listview.cc:480-494 | picking a size in the exclusive group leaves only its toggle checked and makes it the icon size |
| `ListView.ViewKindFor` | konqueror/listview/konq_listview.cc:246-263 | "TextView" gives the text view, "MixedTree" the tree view, every other mode the detailed list view |
| `ListView.XmlFileFor` | konqueror/listview/konq_listview.cc:249-261 | konq_textview.rc exactly for the text view, konq_treeview.rc exactly for the tree view, konq_detailedlistview.rc exactly for the detailed list |
| `ListView.XmlFileIdentifiesKind` | konqueror/listview/konq_listview.cc:249-261 | each widget has its own XML file |
| `ListView.KonqListView.constructor` | konqueror/listview/konq_listview.cc:239-288 | the widget and XML file follow the mode; the nine descriptors are created undisplayed; the small icon toggle is checked |
| `ListView.KonqListView.OpenUrl` | konqueror/listview/konq_listview.cc:293-302 | the part remembers the URL and its protocol, asks for the decoded URL as window caption (appended to the caption log), and returns the widget's verdict; the rows become the lister's listing |
| `Folders.ContainsExactly` | src/panels/folders/folderspanel.cpp:97 | the substring test holds exactly when the piece sits at some position of the text |
| `Folders.IgnoredExactly` | src/panels/folders/folderspanel.cpp:97-101 | a URL is ignored exactly when it is invalid or "search" sits somewhere in its protocol |
| `Folders.SearchProtocolsIgnored` | src/panels/folders/folderspanel.cpp:97-101 | every protocol containing "search" is ignored |
| `Folders.LocalFilesFollowed` | src/panels/folders/folderspanel.cpp:97-101 | a valid local URL is followed |
| `Folders.BaseUrl` | src/panels/folders/folderspanel.cpp:304-312 | the root directory for a local URL; otherwise the same URL with path "/" |
| `Folders.SameBaseExactlyWhenSameSite` | src/panels/folders/folderspanel.cpp:304-318 | two URLs share a base iff same protocol and both local, or equal apart from the path; so the tree is refreshed exactly on a change of site |
| `Folders.BaseUrlStable` | src/panels/folders/folderspanel.cpp:304-315 | the base of a base is itself; no base equals a new model's empty directory |
| `Folders.FoundRowCarriesUrl` | src/panels/folders/folderspanel.cpp:320-321 | in a consistent model a non-negative index for a URL names a file item carrying that URL |
| `Folders.TreeAfterSelect` | src/panels/folders/folderspanel.cpp:331-339 | the index becomes current and the only selection; the model and the owed flag are untouched; one effect is appended |
| `Folders.TreeAfterRefresh` | src/panels/folders/folderspanel.cpp:315-318 | the model shows the base, has no rows and finds no URL; a selection is owed; the selection is untouched; one effect is appended |
| `Folders.TreeAfterLoad` | src/panels/folders/folderspanel.cpp:298-329 | the model ends on the base; with nothing owed the selection is exactly the current item and the model was not refreshed; with a selection owed the selection is untouched; effects are only appended, at least one |
| `Folders.LoadSelectsRowOfUrl` | src/panels/folders/folderspanel.cpp:320-322 | when loading selects at once, the selected row is the item of the URL itself |
| `Folders.TreeAfterCompletion` | src/panels/folders/folderspanel.cpp:267-286 | nothing is owed afterwards; the model is untouched; an owed selection becomes exactly the URL's row; otherwise the selection is kept; effects are only appended |
| `Folders.CompletionSelectsRowOfUrl` | src/panels/folders/folderspanel.cpp:283-285 | when completion selects the owed row of a URL the model knows, that row is the item of the URL |
| `Folders.LoadTreeOutcome` | src/panels/folders/folderspanel.cpp:298-329 | refresh exactly when the model shows another directory than the base; the flag ends true iff a refresh was issued or the URL had no row; a row found gives selection exactly that row; otherwise the selection is untouched and expansion of the parents is requested |
| `Folders.LoadTreeTwice` | src/panels/folders/folderspanel.cpp:298-329 | loading the same URL again changes neither directory, selection nor flag |
| `Folders.CompletionOutcome` | src/panels/folders/folderspanel.cpp:267-286 | flag set: the current URL's row becomes the only selection and the flag is cleared; flag clear: selection unchanged; fade-in scheduled exactly while opacity is 0 |
| `Folders.LoadThenCompleteSelectsTarget` | src/panels/folders/folderspanel.cpp:279-328 | load, model loaded with a row for the URL, completion: nothing is owed; the only selection is the URL's row in the loaded model if a selection was owed, and the index found at load time if the row was found at once |
| `Folders.LoadKeepsModelConsistent` | src/panels/folders/folderspanel.cpp:314-318 | loading keeps the URL index consistent with the rows |
| `Folders.RenameGuard` | src/panels/folders/folderspanel.cpp:256-265 | resubmitting the current name never renames, whatever the role |
| `Folders.FoldersPanel.constructor` | src/panels/folders/folderspanel.cpp:48-54 | no selection owed, no controller |
| `Folders.FoldersPanel.UpdateCurrentItem` | src/panels/folders/folderspanel.cpp:331-339 | the current item is the index and the selection exactly that index; the view scrolls to it |
| `Folders.FoldersPanel.RefreshModelDirectory` | src/panels/folders/folderspanel.cpp:315-318 | the model shows the base and is empty until its load completes; the refresh is requested |
| `Folders.FoldersPanel.LoadTree` | src/panels/folders/folderspanel.cpp:298-329 | the new state is `TreeAfterLoad(old state, url)` (see LoadTreeOutcome) |
| `Folders.FoldersPanel.UrlChanged` | src/panels/folders/folderspanel.cpp:95-108 | refused and no change for an invalid URL or a protocol containing "search"; otherwise accepted, and the tree is loaded only if the controller exists |
| `Folders.FoldersPanel.ShowEvent` | src/panels/folders/folderspanel.cpp:110-186 | a spontaneous event changes nothing; otherwise the controller exists afterwards, created at most once, with an empty model and a transparent view, and the tree is loaded |
| `Folders.FoldersPanel.DirectoryLoaded` | src/panels/folders/folderspanel.cpp:145-147 | the model's finished load replaces its index and rows |
| `Folders.FoldersPanel.SlotLoadingCompleted` | src/panels/folders/folderspanel.cpp:267-286 | the new state is `TreeAfterCompletion(old state, url, opacity is 0)` (see CompletionOutcome) |
| `Folders.FoldersPanel.StartFadeInAnimation` | src/panels/folders/folderspanel.cpp:288-296 | the view is no longer transparent |
| `Folders.FoldersPanel.SlotItemActivated` | src/panels/folders/folderspanel.cpp:198-204 | `changeUrl` with the left button only for an index with a file item |
| `Folders.FoldersPanel.SlotItemMiddleClicked` | src/panels/folders/folderspanel.cpp:206-212 | `changeUrl` with the middle button only for an index with a file item |
| `Folders.FoldersPanel.SlotItemDropEvent` | src/panels/folders/folderspanel.cpp:238-254 | a drop is handed on only for an index ≥ 0 with a file item, to that item's URL |
| `Folders.FoldersPanel.SlotRoleEditingFinished` | src/panels/folders/folderspanel.cpp:256-265 | a rename of the edited item's URL to the new name is issued exactly when the rename guard allows it |
| `Folders.FoldersPanel.Rename` | src/panels/folders/folderspanel.cpp:89-93 | inline editing of the name role starts on the item's row |

## Left out

- `src/views/dolphinfileitemlistwidget.h` declares a cache refresh and an overlay-pixmap painter. It has no logic of its own to model.
- The plugin factory, the `KInstance` and the `extern "C"` entry point (konq_listview.cc:57-109) are library wiring.
- Mostly UI or plain forwarding, so not modelled:
  - scroll offsets; `reparseConfiguration`; `setSaveViewPropertiesLocally`; `slotShowDot`; `closeURL`; `guiActivateEvent`;
  - the empty `slotBackgroundColor`, `slotBackgroundImage` and `slotReloadTree`;
  - the folders panel's hidden-files and auto-scrolling settings, key handling and destructor;
  - widget construction, palette, layout, style options and item sizes (folderspanel.cpp:121-181).
- The folders panel's context-menu slots (folderspanel.cpp:214-236) hand the item at the index, or a null item, to a context menu that is not part of this model.
- Signal/slot dispatch is not modelled as calls. The part counts the `selectionChanged` signals it would deliver; it does not run `updateActions` on each. The toolkit's own emissions inside `selectAll` and `invertSelection` are not modelled.
- Each per-row `setSelected` is modelled as signalling a change unless signals are blocked. That is the toolkit's behaviour the sweep blocks against.
- `createColumns` and `updateListContents` render the widget. They are modelled only as a count of content rebuilds.
- `ListView.DefaultColumns`: the `ColumnInfo` constructor is not part of this model. The model takes its first argument ("Type", "Size", "Modified", …) as the `name` that line 431 persists, and keeps the second ("Type", "Size", "Date", …) as `desktopName`.
- The `0` argument of each `ColumnInfo` is not modelled. The state of a descriptor's toggle action is kept inside the descriptor rather than in a separate action object.
- Clipboard contents, `KIO::pasteClipboard`, `KPropertiesDialog`, `KonqOperations`, `DragAndDropHelper` and the drop-event conversion are foreign calls. They appear only as requests or effects. `KPropertiesDialog::canDisplay` is the parameter `canDisplay`.
- The configuration is a map from group to entry to list. `sync()` and reading the columns back at start-up are not modelled.
- `ListView.KonqListView.OpenUrl`: the widget's `openURL` lists asynchronously and its result is not visible here. The model installs the lister's rows at once, and takes the widget's result and the decoded form of the URL as parameters.
- The widget's initial icon size is set in `konq_listviewwidget.cc`, which is not part of this model. The model starts from Small, the toggle this part checks.
- `ListView.KonqListView.ChooseIconSize`: the exclusive group fires `toggled` once for each toggle that changes. The model calls the slot once. The resulting size is the same, because the slot reads only the toggle states. Picking the size whose toggle is already the only checked one is assumed to change no toggle. A plain toggle action may instead uncheck itself; that case is not modelled.
- The `QTimer::singleShot` delay and the opacity animation are not modelled. Opacity is only "still 0 or not". `StartFadeInAnimation` stands for the timer firing and the animation leaving 0.
- Directory loading belongs to the library and is asynchronous. `DirectoryLoaded` is its completion, an input event.
- `refreshDirectory` is modelled as: the model shows the new directory at once, and its rows are empty until that load completes. So after a refresh, `loadTree` always requests the parents' expansion.
- `Folders.LoadThenCompleteSelectsTarget`: the model does not remap the current item and the selection when the library inserts, removes or clears rows. A row found at once therefore stays selected by the index it had at load time, even if a later load moves rows.
- `Folders.FoldersPanel.UpdateCurrentItem`: the selection manager's own range checks are not modelled. An index of -1 (a URL still missing after loading) becomes the current item and the selection as it stands.
- `Folders.IsLocalFile` is modelled as "protocol is file". The URL class's further host checks are not modelled.
- The root path is modelled as the Unix "/".
- `Panel::setUrl` sets the URL before `urlChanged` runs. `panel.cpp` is not part of this model, so `url` is a field the caller assigns.
- The `Q_ASSERT(m_controller)` of `loadTree`, and the slots that are connected only once the controller exists, become `requires hasController`.
- A null file item's text and URL are modelled as empty. The rename slot does not guard against a null item.
