# Simple-Prompt-Note in Dafny

Simple-Prompt-Note is a browser extension for writing prompts. It has a
tabbed editor for drawing and LLM prompts and a dictionary of reusable
prompt snippets ("items"). The items are grouped into coloured categories.
This project models the extension's core and proves properties of it:

- **Storage** (`storage_types.dfy`, `merge.dfy`, `storage.dfy`). One stored
  record holds the settings and the library. A separate version marker sits
  beside it. Every read runs the version check. When the marker is older
  than 4, the read merges the shipped default catalog into the stored
  library. It keeps every user category and item and adds only the missing
  ones. It then writes the result back with marker 4. Saving settings or the
  library is a read followed by a write of the whole record. Import, export
  and reset complete the interface. The storage is the `Storage.Store`
  class. Its two fields are the two storage keys. Each storage call that can
  throw is a `Faults` flag chosen by the caller.
- **Merge** (`merge.dfy`). `MergeDefaultLibrary` is the source's two
  nested loops. It is proved equal to the recursive specification
  `MergeLibrary`. The lemmas about `MergeLibrary` cover four facts:
  - stored data is kept (`Extends`);
  - the catalog is covered afterwards;
  - the merge is idempotent;
  - with distinct catalog names, the merge has a closed form.
- **Dictionary panel** (`dictionary.dfy`). The library edits that the
  handlers compute are pure functions. They cover deleting, editing and
  adding items, and renaming, deleting and adding categories. Each has
  lemmas that say exactly what changes. The handlers themselves are methods
  of the `DictionaryPanel` class. They update the form fields and the
  expanded-category set, and they save through the store.
- **Application shell** (`app.dfy`). The tab list keeps three things true:
  at least one tab, distinct ids, and an active id that names a tab. The
  model covers content changes, adding text from the dictionary, and
  adding, deleting and renaming tabs. It also covers "save the active tab's
  text to the library", which reads the stored library, builds the new one
  and saves it.
- **Storage hooks** (`hooks.dfy`). The settings hook overlays every saved
  partial onto its local copy. The library hook's `addItem` and
  `removeItem` copy the array shallowly. They then `push` or `splice` on a
  category object that the shown array shares. The model keeps that
  sharing. Categories are `CategoryObject` references, and the contracts
  say what every index holding the changed object sees.
- **Workbench** (`workbench.dfy`): prompt blocks typed into an input field,
  a selection of block ids, and the clipboard text.
- **Save-to-library dialog** (`save_modal.dfy`): the form, its reset when
  it opens, and the validation that decides what reaches the shell's save
  handler.

Shared helpers live in `text.dfy`:
- ECMAScript `trim` (the WhiteSpace and LineTerminator code points);
- `join`;
- the decimal rendering of a number.

`lists.dfy` holds the helpers for the JavaScript list idioms:
- `filter` by index;
- `filter` by key;
- `findIndex`;
- `map` at one index;
- `splice(start, 1)` with its clamping;
- the Set toggle.

Inputs stand in for the browser:
- Confirm dialogs are `confirmed` booleans.
- Alerts are results, such as `refused`, `blank`, `saved` and
  `SaveOutcome`.
- `Date.now()` ids are `freshId` parameters.
- The default catalog (`defaultSettings`, `defaultLibrary`) is an abstract
  `Catalog` value.

Some behaviour of the source is worth knowing, and the lemmas state it
(none of it is claimed as a defect):
- A failed read inside `saveSettings` or `saveLibrary` makes `getData`
  return the defaults. Those defaults are then written over the user's
  record (`Storage.FailedReadDuringSaveSettings`).
- A failed upgrade write still sets the marker to 4. The unmerged record is
  then returned as stored from then on (`Storage.FailedUpgradeIsNotRetried`).
  A stale record without a library gets the same treatment
  (`Storage.LibrarylessStaleRecord`).
- Saving to an existing category whose index holds none saves the library
  unchanged. The dialog's index 0 on an empty library is one such case
  (`App.SaveToEmptyLibraryDropsItem`).
- Deleting a category does not renumber the expanded-category set.
  Expansion stays with the index, not with the category, so the categories
  after the deleted one can change between expanded and collapsed
  (`Dictionary.ExpandedNotReindexed`).
- `removeItem` with a negative index removes counting from the end, as
  `splice` does (`Lists.SpliceCases`).

## Model

| member | source | states |
|---|---|---|
| StorageTypes.SpreadFull | src/utils/storage.ts:182-185 | a stored record that has every settings field comes back from `{...defaultSettings, ...stored}` verbatim |
| StorageTypes.SpreadEmpty | src/utils/storage.ts:182-185 | a stored record with no settings fields reads as the default settings |
| StorageTypes.SpreadOverlay | src/utils/storage.ts:184-189 | overlaying a partial and then filling in from the defaults equals filling in first and overlaying afterwards |
| StorageTypes.FullSpread | src/utils/storage.ts:124 | a partial overlaid on complete settings gives complete settings |
| Text.TrimStart | src/components/Dictionary.tsx:70 | the result is a suffix of the input, starts with no whitespace, and only whitespace was dropped |
| Text.TrimEnd | src/components/Dictionary.tsx:70 | the result is a prefix of the input, ends with no whitespace, and only whitespace was dropped |
| Text.TrimSlice | src/components/Dictionary.tsx:70 | the trimmed string is the slice of the input that starts right after the leading whitespace |
| Text.TrimTrailing | src/components/Dictionary.tsx:70 | everything of the input after the trimmed string is whitespace |
| Text.TrimShape | src/components/Dictionary.tsx:70 | `trim()` returns a contiguous slice of the input with no whitespace at either end, and everything outside the slice is whitespace |
| Text.BlankIffAllSpace | src/components/Dictionary.tsx:70 | `!s.trim()` holds exactly when every character is whitespace |
| Text.TrimIdempotent | src/components/Dictionary.tsx:78 | trimming a trimmed string changes nothing |
| Text.NotBlankTrimNonEmpty | src/components/Workbench.tsx:26-27 | a string that is not blank trims to a non-empty string |
| Text.JoinSnoc | src/components/Workbench.tsx:57 | joining one more part appends the separator and the part |
| Text.JoinConcat | src/components/Workbench.tsx:57 | joining a concatenation is joining each half with the separator between them |
| Text.JoinLength | src/components/Workbench.tsx:57 | the joined length is the parts' lengths plus one separator per gap |
| Text.DigitChar | src/App.tsx:68 | a digit is rendered as the character of that value |
| Text.Decimal | src/App.tsx:68 | `${n}` is a non-empty string of decimal digits that starts with 0 only for 0 |
| Text.DecimalRoundTrip | src/App.tsx:68 | reading the decimal rendering back gives the number |
| Merge.FindCategory | src/utils/storage.ts:151-153 | the first index holding the category name, or -1 when there is none |
| Merge.MissingItemsExactly | src/utils/storage.ts:158-164 | a catalog item is appended exactly when its label is not among the existing labels, in catalog order, and nothing is appended when all labels are present |
| Merge.MergeLibraryStep | src/utils/storage.ts:150-169 | merging one more catalog category applies one iteration of the outer loop |
| Merge.MissingItemsStep | src/utils/storage.ts:160-164 | considering one more catalog item appends it exactly when its label is not among the existing labels |
| Merge.MergeDefaultLibrary | src/utils/storage.ts:147-172 | the loops compute exactly the merge specification `MergeLibrary` |
| Merge.ExtendsTransitive | src/utils/storage.ts:148 | keeping every category and item is transitive |
| Merge.MergeCategoryExtends | src/utils/storage.ts:155-168 | one merge step keeps every category at its index with its name, colour and items as a prefix |
| Merge.MergeLibraryExtends | src/utils/storage.ts:147-172 | the merge keeps every stored category at its index with its name, colour and items as a prefix of the merged items |
| Merge.MergeKeepsLabels | src/utils/storage.ts:147-172 | every stored label is still present in its category after the merge |
| Merge.UnmatchedExactly | src/utils/storage.ts:165-168 | the appended catalog categories are exactly those whose name no stored category has, in catalog order |
| Merge.FindCategoryPrefix | src/utils/storage.ts:151-153 | a search over a longer list that begins with the same names finds the same first index |
| Merge.FindCategorySnoc | src/utils/storage.ts:151-153 | searching a list with one more category at the end |
| Merge.DistinctNamesSnoc | src/utils/storage.ts:150 | distinct catalog names stay distinct in a prefix, and the last name differs from the earlier ones |
| Merge.UpdatedSnoc | src/utils/storage.ts:155-164 | how a stored category's merged form changes when one more catalog category is considered |
| Merge.UnmatchedSnoc | src/utils/storage.ts:165-168 | the unmatched catalog categories of one more category |
| Merge.ClosedFormStepMatched | src/utils/storage.ts:155-164 | the closed form survives a catalog category that matches a stored one |
| Merge.AppendedNamesDiffer | src/utils/storage.ts:165-168 | categories appended so far carry names that differ from a later catalog name |
| Merge.ClosedFormStepUnmatched | src/utils/storage.ts:165-168 | the closed form survives a catalog category that matches no stored one |
| Merge.MergeLibraryClosedForm | src/utils/storage.ts:147-172 | with distinct catalog names, the merge is the stored library with each first-matched category's missing items appended, followed by the unmatched catalog categories |
| Merge.MissingItemsAllNew | src/utils/storage.ts:160-164 | when no catalog label is present, every catalog item is appended |
| Merge.CoveredIsFixed | src/utils/storage.ts:155-164 | merging a category the library already covers changes nothing |
| Merge.MergeCategoryCovers | src/utils/storage.ts:155-168 | after one merge step the catalog category is covered |
| Merge.ExtendsKeepsCovers | src/utils/storage.ts:147-172 | later merge steps keep earlier categories covered |
| Merge.MergeLibraryCoversAll | src/utils/storage.ts:147-172 | after the merge every catalog category is covered |
| Merge.CoveredLibraryIsFixed | src/utils/storage.ts:147-172 | a library covering the whole catalog is left unchanged |
| Merge.MergeIdempotent | src/utils/storage.ts:147-172 | merging the merged library again with the same catalog changes nothing |
| Storage.ReadData | src/utils/storage.ts:108-144 | getData: the stored record with a current marker; the upgraded record stored with marker 4 on a stale marker; otherwise the defaults, with only marker 4 written |
| Storage.ReadMarker | src/utils/storage.ts:113-138 | the marker is only ever written as 4, no read leaves the store stale, and a marker at or below 4 never decreases |
| Storage.ReadRecord | src/utils/storage.ts:116-143 | only a successful stale read writes the record, and it writes what it returns; with no record stored, none is created and the defaults are returned |
| Storage.UpgradeKeepsUserData | src/utils/storage.ts:120-124 | the upgrade keeps every stored category and item, covers the catalog, and keeps the settings getSettings shows |
| Storage.ReadTwice | src/utils/storage.ts:108-144 | a second read leaves the storage as the first left it, and after a clean first read it returns the same record |
| Storage.UpgradeIsFinal | src/utils/storage.ts:120-128 | merging an upgraded library again with the catalog changes nothing |
| Storage.LibrarylessStaleRecord | src/utils/storage.ts:116-143 | a stale record without a library reads once as the defaults with the marker set, then as stored |
| Storage.FailedUpgradeIsNotRetried | src/utils/storage.ts:125-138 | when the upgrade write fails, the read returns the defaults, the marker becomes 4, and later reads return the unmerged record |
| Storage.SaveSettingsThenRead | src/utils/storage.ts:187-191 | after a successful saveSettings, getSettings shows the earlier settings with exactly the partial's fields replaced, and getLibrary is unchanged |
| Storage.SaveLibraryThenRead | src/utils/storage.ts:198-202 | after a successful saveLibrary, getLibrary returns exactly the saved library and getSettings is unchanged |
| Storage.FailedReadDuringSaveSettings | src/utils/storage.ts:133-143 | a failed read inside saveSettings persists the defaults with the partial overlaid, replacing the user's library |
| Storage.ImportThenRead | src/utils/storage.ts:209-218 | an imported record reads back verbatim with a current marker and upgraded with a stale one |
| Storage.Store.GetData | src/utils/storage.ts:108-144 | the returned record and the new storage are those of `ReadData` |
| Storage.Store.SaveData | src/utils/storage.ts:174-180 | the record is replaced unless the write fails, and the marker is untouched |
| Storage.Store.GetSettings | src/utils/storage.ts:182-185 | the settings are the read record's settings over the defaults |
| Storage.Store.SaveSettings | src/utils/storage.ts:187-191 | the storage is the read's storage with the record's settings overlaid by the partial |
| Storage.Store.GetLibrary | src/utils/storage.ts:193-196 | the read record's library, or the default library when it has none |
| Storage.Store.SaveLibrary | src/utils/storage.ts:198-202 | the storage is the read's storage with the record's library replaced |
| Storage.Store.ExportData | src/utils/storage.ts:204-207 | the exported record is the one getData returns |
| Storage.Store.ImportData | src/utils/storage.ts:209-218 | a parsed record is stored verbatim and the answer is true; a parse failure stores nothing and answers false |
| Storage.Store.ResetData | src/utils/storage.ts:220-228 | the storage holds the defaults and marker 4 |
| Storage.ResetThenRead | src/utils/storage.ts:220-228 | after a reset, getSettings and getLibrary return the defaults and the marker reads 4 |
| Storage.FirstInstall | src/utils/storage.ts:137-143 | with nothing stored, reads return the defaults and store only the marker |
| Lists.RemoveIndex | src/components/Dictionary.tsx:52 | `filter((_, i) => i !== k)` drops exactly index k, and an index outside the list drops nothing |
| Lists.RemoveIndexShifts | src/components/Dictionary.tsx:52 | earlier elements stay put and later ones shift down by one |
| Lists.RemoveIndexLast | src/components/Dictionary.tsx:52 | removing the element just appended restores the list |
| Lists.UpdateAtIndex | src/components/Dictionary.tsx:48-56 | `map` with an index test changes the element at that index and nothing else, and an index outside the list changes nothing |
| Lists.SpliceStart | src/hooks/useStorage.ts:65 | the index `splice` uses: negative starts count from the end and are clamped to 0, and starts past the end are clamped to the length |
| Lists.SpliceCases | src/hooks/useStorage.ts:65 | `splice(start, 1)` removes the element at a valid start, counts from the end for a negative one, and removes nothing past the end |
| Lists.RemoveKey | src/App.tsx:82 | `filter(x => x.id !== id)` keeps exactly the elements with other keys |
| Lists.FindKey | src/App.tsx:49 | the first index carrying the key, or -1 when no element carries it |
| Lists.FindKeySameKeys | src/App.tsx:49 | the search depends only on the keys: lists with the same key at every index find a key at the same index |
| Lists.RemoveKeyCount | src/components/Workbench.tsx:50 | the filter drops as many elements as carry the key, and nothing when none does |
| Lists.RemoveKeyConcat | src/components/Workbench.tsx:50 | filtering a concatenation filters each part and keeps them in order, so blocks with repeated ids keep their relative order too |
| Lists.RemoveKeyNone | src/App.tsx:82 | when no element carries the key, the filter returns the list unchanged |
| Lists.RemoveKeyAt | src/App.tsx:82 | with distinct ids, filtering out a present id removes exactly the index where that id is found, so the others keep their order |
| Lists.DistinctCountAtMostOne | src/App.tsx:82 | with distinct ids at most one element carries a given id |
| Lists.FindKeyOfMember | src/App.tsx:49 | with distinct ids, looking up an element's id finds that element |
| Lists.RemoveKeyLength | src/App.tsx:82 | with distinct ids the filter drops exactly one element when the id is present, and none otherwise |
| Lists.RemoveKeyDistinct | src/App.tsx:82 | filtering keeps the ids distinct |
| Lists.Toggle | src/components/Dictionary.tsx:30-38 | the element's membership flips and no other membership changes |
| Lists.ToggleTwice | src/components/Dictionary.tsx:30-38 | toggling twice restores the set |
| Dictionary.SaveEdit | src/components/Dictionary.tsx:69-84 | an edit saves exactly when an item is being edited and neither the label nor the content is blank |
| Dictionary.AddItem | src/components/Dictionary.tsx:93-109 | an add saves exactly when neither the label nor the content is blank |
| Dictionary.RenameCategory | src/components/Dictionary.tsx:125-133 | a rename saves exactly when a category is being edited and the name is not blank |
| Dictionary.DeleteCategory | src/components/Dictionary.tsx:145 | one category fewer exactly when the index holds one |
| Dictionary.AddCategory | src/components/Dictionary.tsx:155-164 | an add saves exactly when the name is not blank, and appends one category after the unchanged others |
| Dictionary.AddCategoryAppendsOne | src/components/Dictionary.tsx:155-164 | a valid add appends exactly `{category: name.trim(), colorType, items: []}`, the name is non-empty and trimmed, and the item count stays |
| Dictionary.ItemCountAt | src/components/Dictionary.tsx:48-56 | replacing one category changes the item count by the difference of its item counts |
| Dictionary.DeleteItemRemovesOne | src/components/Dictionary.tsx:44-60 | deleting a valid item removes exactly that item from its category; other categories, the names and the colours stay, and the item count drops by one |
| Dictionary.OutOfRangeIsNoOp | src/components/Dictionary.tsx:48-56 | indices that address nothing leave the library as it was for delete-item, delete-category, add-item, save-edit and rename |
| Dictionary.SaveEditChangesOneItem | src/components/Dictionary.tsx:69-84 | a saved edit gives the addressed item the trimmed label and content, keeps its preview, and changes nothing else |
| Dictionary.SaveEditIdempotent | src/components/Dictionary.tsx:69-84 | saving the same edit twice gives what saving it once gave |
| Dictionary.AddItemAppendsOne | src/components/Dictionary.tsx:93-109 | a valid add appends one item with the trimmed label and content and no preview to that category only |
| Dictionary.AddThenDeleteItem | src/components/Dictionary.tsx:44-116 | deleting the item just added restores the library |
| Dictionary.RenameKeepsContents | src/components/Dictionary.tsx:125-133 | a rename changes only that category's name, to the trimmed name, and keeps its colour and items |
| Dictionary.DeleteCategoryRemovesOne | src/components/Dictionary.tsx:141-147 | deleting a valid category removes exactly it, and the others keep their order |
| Dictionary.AddThenDeleteCategory | src/components/Dictionary.tsx:141-166 | deleting the category just added restores the library |
| Dictionary.ExpandedAfterDelete | src/components/Dictionary.tsx:150-152 | the deleted index leaves the expanded set and every other index keeps its membership |
| Dictionary.ExpandedNotReindexed | src/components/Dictionary.tsx:145-152 | after deleting category ci, the expanded category from ci + 1 moves to ci and shows collapsed, while index ci + 1 stays expanded and shows the category from ci + 2 |
| Dictionary.DictionaryPanel.constructor | src/components/Dictionary.tsx:14-28 | the first category expanded, every form empty, and the new category colour blue |
| Dictionary.DictionaryPanel.ToggleCategory | src/components/Dictionary.tsx:30-38 | the index's expanded state flips; the frame is the expanded set alone, so every form field keeps its value |
| Dictionary.DictionaryPanel.HandleDeleteItem | src/components/Dictionary.tsx:44-60 | without confirmation nothing happens; with it the item is deleted and that library is saved |
| Dictionary.DictionaryPanel.HandleStartEdit | src/components/Dictionary.tsx:62-67 | the edit form holds the item's address, label and content; only those three fields are in the frame, so the expanded set and the other forms keep their values |
| Dictionary.DictionaryPanel.HandleSaveEdit | src/components/Dictionary.tsx:69-91 | a valid edit is saved and the edit form is cleared; otherwise the edit form and the store are unchanged; only the edit form and the store are in the frame, so the expanded set and the other forms keep their values |
| Dictionary.DictionaryPanel.HandleAddNewItem | src/components/Dictionary.tsx:93-116 | a valid add is saved and the add form is closed and cleared; otherwise the add form and the store are unchanged; only the add form and the store are in the frame, so the expanded set and the other forms keep their values |
| Dictionary.DictionaryPanel.HandleStartEditCategory | src/components/Dictionary.tsx:119-123 | the edited name is the category's name, or empty for an index holding none; only the rename form is in the frame, so the expanded set and the other forms keep their values |
| Dictionary.DictionaryPanel.HandleSaveCategoryEdit | src/components/Dictionary.tsx:125-139 | a valid rename is saved and the rename form cleared; otherwise the rename form and the store are unchanged; only the rename form and the store are in the frame, so the expanded set and the other forms keep their values |
| Dictionary.DictionaryPanel.HandleDeleteCategory | src/components/Dictionary.tsx:141-153 | with confirmation the category is deleted, saved and dropped from the expanded set; without it nothing is saved; only the expanded set and the store are in the frame, so every form keeps its values |
| Dictionary.DictionaryPanel.HandleAddNewCategory | src/components/Dictionary.tsx:155-173 | a valid add appends the empty category with the trimmed name and the chosen colour, saves it, resets the form with colour blue and expands the new last index; otherwise the form, the expanded set and the store are unchanged; the item forms and the rename form are outside the frame |
| App.ActiveTab | src/App.tsx:49 | the tab whose id is the active id, or the first tab when none has it |
| App.DefaultTabsValid | src/App.tsx:20-28 | the three initial tabs are valid, with the first one active |
| App.ContentChangeOnlyActive | src/App.tsx:51-55 | a content change gives the active tab the text, leaves every other tab alone, and keeps the list valid |
| App.ContentChangeWithoutActive | src/App.tsx:49-55 | when the active id names no tab, a content change alters nothing, although the first tab is shown |
| App.AppendWithSeparator | src/App.tsx:57-63 | the item's text alone on an empty tab, and otherwise the current text, `, ` and the item's text |
| App.JoinNonEmpty | src/App.tsx:60 | a join whose last part is non-empty is non-empty |
| App.AppendAllIsJoin | src/App.tsx:57-63 | adding non-empty items one by one to an empty tab gives their texts joined with `, ` |
| App.AddFromDictionaryExtends | src/App.tsx:57-63 | adding from the dictionary extends the active tab's text and keeps the list valid |
| App.WithNewTab | src/App.tsx:65-74 | adding a tab keeps the existing tabs and appends one |
| App.AddTabActivates | src/App.tsx:65-74 | with a fresh id the list stays valid, and the new empty LLM tab named after the new tab count is active |
| App.WithoutTab | src/App.tsx:76-87 | the delete is refused exactly when one tab is left |
| App.DeleteTabFilters | src/App.tsx:82 | exactly the tab with that id is removed: the new list is the old one with that tab's index removed when the id exists, and the old list otherwise; one tab fewer or none |
| App.DeleteTabFirst | src/App.tsx:84-85 | the first remaining tab, which becomes active when the active tab is deleted, is the old second tab if the first was deleted and the old first tab otherwise |
| App.DeleteTabKeepsActive | src/App.tsx:82-86 | the list stays valid, and the active tab is kept or, when it was deleted, falls back to the first remaining tab |
| App.DeleteLastTabRefused | src/App.tsx:78-80 | the last tab cannot be deleted |
| App.RenameOnlyThatTab | src/App.tsx:95-103 | a rename gives only that tab the trimmed name, a blank name or empty id changes nothing, and the list stays valid |
| App.SaveToLibraryEdit | src/App.tsx:147-163 | the save throws exactly for `'new'` without a non-empty name and a colour |
| App.SaveToLibraryOutcomes | src/App.tsx:140-163 | `'new'` appends a category holding only the new item; an index appends the item to that category only; an index holding no category leaves the library unchanged |
| App.SaveToEmptyLibraryDropsItem | src/App.tsx:154-160 | saving into category 0 of an empty library saves the empty library |
| App.AppState.constructor | src/App.tsx:27-35 | the default tabs with the first one active, no rename in progress and the dialog closed |
| App.AppState.HandleContentChange | src/App.tsx:51-55 | the active tab gets the text and the list stays valid; the rename state, the shown library and the dialog flag keep their values |
| App.AppState.HandleAddFromDictionary | src/App.tsx:57-63 | the active tab's text is extended with the separator and the item's text; the rename state, the shown library and the dialog flag keep their values |
| App.AppState.HandleClear | src/App.tsx:118-120 | the active tab's text becomes empty; the rename state, the shown library and the dialog flag keep their values |
| App.AppState.HandleAddTab | src/App.tsx:65-74 | the new tab is appended and is active; the rename state, the shown library and the dialog flag keep their values |
| App.AppState.HandleDeleteTab | src/App.tsx:76-87 | refused for the last tab; otherwise the tab is gone and the list stays valid; the rename state, the shown library and the dialog flag keep their values |
| App.AppState.HandleStartEditTab | src/App.tsx:89-93 | the rename field holds the tab's id and name; the tabs, the shown library and the dialog flag keep their values |
| App.AppState.HandleSaveTabName | src/App.tsx:95-103 | the rename is applied when possible, and the rename state is cleared either way |
| App.AppState.HandleKeyDown | src/App.tsx:105-112 | Enter saves the rename, Escape cancels it, and other keys change nothing; for every key the shown library and the dialog flag keep their values |
| App.AppState.HandleSaveToLibraryClick | src/App.tsx:122-128 | the dialog opens exactly when the active tab's text is not blank; the tabs, the rename state and the shown library keep their values |
| App.AppState.HandleSaveToLibrary | src/App.tsx:130-173 | the stored library is read, the new library is saved and shown, and the dialog closes; where the arguments make it throw, only the read has happened; the tabs and the rename state keep their values |
| Hooks.LocalSettings | src/hooks/useStorage.ts:28 | the local settings stay absent exactly while none are loaded |
| Hooks.LocalSettingsFields | src/hooks/useStorage.ts:28 | each of the nine local fields is the partial's where it has one and the loaded one otherwise, and an empty partial changes nothing |
| Hooks.LocalSettingsCompose | src/hooks/useStorage.ts:26-29 | two updates in a row leave the local copy where one update with the second partial spread over the first leaves it |
| Hooks.LocalSettingsMatchStore | src/hooks/useStorage.ts:26-29 | when the copy is what saveSettings read, the copy after the update is what getSettings then returns |
| Hooks.SettingsHook.Load | src/hooks/useStorage.ts:19-24 | the hook holds the settings getSettings returns |
| Hooks.SettingsHook.UpdateSettings | src/hooks/useStorage.ts:26-29 | the partial is saved and overlaid on the local copy |
| Hooks.AliasedUpdate | src/hooks/useStorage.ts:55-57 | when no category object appears twice, changing one object is an update of that one index |
| Hooks.PushThenSplice | src/hooks/useStorage.ts:57-65 | pushing an item and splicing it off at its index restores the items |
| Hooks.PushThenSpliceLibrary | src/hooks/useStorage.ts:54-68 | adding an item to a category and removing it at its index restores the library |
| Hooks.LibraryHook.UpdateLibrary | src/hooks/useStorage.ts:49-52 | the library is saved and then shown |
| Hooks.LibraryHook.AddItem | src/hooks/useStorage.ts:54-60 | with a category at the index, its items gain the item at the end, seen by every index sharing the object, and that library is saved; otherwise nothing changes and nothing is saved |
| Hooks.LibraryHook.RemoveItem | src/hooks/useStorage.ts:62-68 | with a category at the index, its items lose what `splice(itemIndex, 1)` removes and the library is saved even when nothing was removed; otherwise nothing changes |
| Hooks.AddThenRemove | src/hooks/useStorage.ts:54-68 | adding then removing an item restores the shown library, and the store then returns it |
| Workbench.BlocksAfterKey | src/components/Workbench.tsx:23-37 | a block is added exactly for Enter or `,` with input that is not blank, after the unchanged earlier blocks |
| Workbench.NewBlockShape | src/components/Workbench.tsx:26-32 | the new block has the fresh id, content equal to the trimmed input, which is non-empty with no whitespace at either end, and type tag exactly in drawing mode |
| Workbench.CopyTextLength | src/components/Workbench.tsx:56-59 | the copy text is empty without blocks, the single block's text with one, and otherwise the texts' lengths plus one separator per gap |
| Workbench.CommitExtendsCopy | src/components/Workbench.tsx:23-37 | a commit extends the copy text by the separator and the trimmed input |
| Workbench.RemoveBlockDropsId | src/components/Workbench.tsx:50 | removing by id drops exactly the blocks with that id, and an absent id changes nothing |
| Workbench.CountKeyZero | src/components/Workbench.tsx:50 | no block with the id means a count of zero |
| Workbench.CommitThenRemove | src/components/Workbench.tsx:23-54 | removing a just-committed block with a fresh id restores the list |
| Workbench.Panel.HandleInputKeyDown | src/components/Workbench.tsx:23-37 | a commit appends the block and clears the input; otherwise the blocks and the input stay |
| Workbench.Panel.HandleBlockClick | src/components/Workbench.tsx:39-47 | the id's selection flips |
| Workbench.Panel.HandleRemoveBlock | src/components/Workbench.tsx:49-54 | the blocks with the id go, and so does the id from the selection |
| Workbench.Panel.HandleCopy | src/components/Workbench.tsx:56-59 | the clipboard text is the block texts in order, joined with `, ` in drawing mode and a blank line otherwise; it is empty without blocks and is the one text for one block; its length is the texts' lengths plus one separator per gap |
| Workbench.Panel.HandleClear | src/components/Workbench.tsx:61-64 | no blocks and nothing selected |
| SaveModal.ValidateOutcomes | src/components/SaveToLibraryModal.tsx:43-58 | a blank label alerts; a blank new-category name alerts; every request carries a non-empty trimmed label and either `'new'` with the trimmed non-empty name and the colour, or the selected index |
| SaveModal.RequestIsAccepted | src/components/SaveToLibraryModal.tsx:54-56 | no request from the dialog makes the shell's save throw, and a new category holds exactly the new item |
| SaveModal.SaveForm.constructor | src/components/SaveToLibraryModal.tsx:25-29 | the form starts reset to the default name, category 0 and the mode's colour |
| SaveModal.SaveForm.Open | src/components/SaveToLibraryModal.tsx:31-39 | opening resets the label, the selection, the new-category flag, the name and the colour |
| SaveModal.SaveForm.HandleSave | src/components/SaveToLibraryModal.tsx:43-58 | the label alert exactly when the label is blank; the name alert exactly when the label is filled, a new category is being created and its name is blank; otherwise the request carries the trimmed, non-empty label and either the new category's trimmed, non-empty name and colour, or the chosen index with no name or colour |
| SaveModal.OpenThenSave | src/components/SaveToLibraryModal.tsx:31-58 | saving straight after opening sends category 0 with the trimmed tab name, or alerts when the name is blank |

## Left out

- chrome.storage I/O is modelled as the two fields of `Storage.Store`. A call that throws is a `Faults` flag. The write at src/utils/storage.ts:138 and the write in resetData are assumed to succeed. When they fail, the promise rejects, and that path is not modelled.
- JSON text: export returns the record, not its JSON text. Import takes the result of `JSON.parse` as an `Option<AppData>`: a parse failure, or a well-typed record whose settings fields may be absent and whose library may be absent. The source checks no shape, and three kinds of parse result fall outside that type:
  - a falsy or non-object value (`importData("null")`, `importData("0")`), which getData then treats as no stored record (src/utils/storage.ts:116);
  - a category without an `items` array, on which `existingCategory.items.map` (src/utils/storage.ts:158) throws inside getData's try block, so the read returns the defaults with marker 4;
  - a settings field holding `null`, which the spreads at src/utils/storage.ts:184 and 189 keep as `null`, while an absent field (`None`) falls back to the default.
- Strings are sequences of code points, not UTF-16 code units. `trim` uses the ECMAScript whitespace set on code points.
- Integer indices only: a fractional or NaN index from JavaScript is not modelled.
- The async ordering of saves and state updates is not modelled. Neither are races between overlapping read-modify-write saves or stale closures over `library` in the hooks.
- The initial load effects (useLibrary's loadLibrary, the copy into localLibrary in src/App.tsx:43-47) are not modelled beyond `Hooks.SettingsHook.Load` and `Hooks.LibraryHook.UpdateLibrary`.
- The default catalog strings are an abstract `Catalog` value. The source returns the `defaultLibrary` object itself and later pushes into it in place. That sharing is not visible, because the catalog is a value.
- `App.AppState.HandleAddTab` requires a fresh id, and the tab invariant requires distinct ids. The source relies on `Date.now()` for both.
- The shell's handleCopy (src/App.tsx:114-116) is left out: it writes the active tab's text, which `App.ActiveTab` gives.
- src/utils/deepseek.ts, the translate, polish and custom handlers, src/content.tsx, src/background.ts, src/hooks/useTheme.ts and src/components/SettingsModal.tsx are left out. They are network, DOM, messaging and form code. Their storage calls are the modelled ones.
- Rendering, hover state and the alert texts are left out.
- Hooks.LibraryHook.AddItem: the array the hook shows afterwards is a new array holding the same objects. The model keeps the same sequence of references.
