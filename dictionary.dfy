/** The dictionary panel: the library edits its handlers compute from the
    library they are given (each a copy built with map, filter or spread),
    and the panel state those handlers update. Every edit is handed to the
    parent and saved through saveLibrary. */
module Dictionary {
  import opened StorageTypes
  import opened Text
  import opened Lists
  import Storage

  /** An item addressed by category index and index within the category. */
  datatype ItemRef = ItemRef(categoryIdx: int, itemIdx: int)

  /** The number of items across all categories. */
  function ItemCount(lib: Library): nat
    decreases |lib|
  {
    if |lib| == 0 then 0 else ItemCount(lib[..|lib| - 1]) + |lib[|lib| - 1].items|
  }

  /** handleDeleteItem: the category at ci keeps every item except the one at ii. */
  function DeleteItem(lib: Library, ci: int, ii: int): (r: Library)
    ensures |r| == |lib|
  {
    UpdateAt(lib, ci, (c: LibraryCategory) => c.(items := RemoveIndex(c.items, ii)))
  }

  /** The item an edit stores: `{ ...item, label, content }` with the
      trimmed values, so the preview is kept. */
  function Edited(item: LibraryItem, labelText: string, content: string): LibraryItem {
    item.(labelText := Trim(labelText), content := Trim(content))
  }

  /** handleSaveEdit: None when the handler returns early (nothing is being
      edited, or the label or content is blank). Otherwise the edited item
      gets the trimmed label and content and keeps everything else. */
  function SaveEdit(lib: Library, editing: Option<ItemRef>, labelText: string, content: string): (r: Option<Library>)
    ensures r.Some? <==> editing.Some? && !IsBlank(labelText) && !IsBlank(content)
    ensures r.Some? ==> |r.value| == |lib|
  {
    if editing.None? || IsBlank(labelText) || IsBlank(content) then None
    else
      var e := editing.value;
      Some(UpdateAt(lib, e.categoryIdx, (c: LibraryCategory) =>
        c.(items := UpdateAt(c.items, e.itemIdx, (it: LibraryItem) => Edited(it, labelText, content)))))
  }

  /** handleAddNewItem: None on a blank label or content; otherwise the
      category at ci gains the trimmed item, without a preview, at its end. */
  function AddItem(lib: Library, ci: int, labelText: string, content: string): (r: Option<Library>)
    ensures r.Some? <==> !IsBlank(labelText) && !IsBlank(content)
    ensures r.Some? ==> |r.value| == |lib|
  {
    if IsBlank(labelText) || IsBlank(content) then None
    else
      var item := LibraryItem(Trim(labelText), Trim(content), None);
      Some(UpdateAt(lib, ci, (c: LibraryCategory) => c.(items := c.items + [item])))
  }

  /** handleSaveCategoryEdit: None when no category is being edited or the
      name is blank; otherwise the edited category gets the trimmed name. */
  function RenameCategory(lib: Library, editing: Option<int>, name: string): (r: Option<Library>)
    ensures r.Some? <==> editing.Some? && !IsBlank(name)
    ensures r.Some? ==> |r.value| == |lib|
  {
    if editing.None? || IsBlank(name) then None
    else Some(UpdateAt(lib, editing.value, (c: LibraryCategory) => c.(category := Trim(name))))
  }

  /** handleDeleteCategory: `library.filter((_, idx) => idx !== categoryIdx)`. */
  function DeleteCategory(lib: Library, ci: int): (r: Library)
    ensures |r| == if 0 <= ci < |lib| then |lib| - 1 else |lib|
  {
    RemoveIndex(lib, ci)
  }

  /** handleAddNewCategory: None on a blank name; otherwise an empty category
      with the trimmed name and the chosen colour is appended. */
  function AddCategory(lib: Library, name: string, color: ColorType): (r: Option<Library>)
    ensures r.Some? <==> !IsBlank(name)
    ensures r.Some? ==> |r.value| == |lib| + 1 && r.value[..|lib|] == lib
  {
    if IsBlank(name) then None
    else Some(lib + [LibraryCategory(Trim(name), color, [])])
  }

  // ---------------------------------------------------------------------
  // What the edits change and what they keep.

  lemma {:induction false} ItemCountAt(lib: Library, ci: int, c: LibraryCategory)
    requires 0 <= ci < |lib|
    ensures ItemCount(lib[ci := c]) == ItemCount(lib) - |lib[ci].items| + |c.items|
    decreases |lib|
  {
    var pre := lib[..|lib| - 1];
    var lib' := lib[ci := c];
    assert lib'[..|lib| - 1] == if ci == |lib| - 1 then pre else pre[ci := c];
    if ci < |lib| - 1 {
      ItemCountAt(pre, ci, c);
    }
  }

  /** Deleting a valid item removes exactly that item: the category keeps its
      name and colour, the items before it stay in place, the later ones move
      down by one, every other category is unchanged and the library holds one
      item fewer. */
  lemma DeleteItemRemovesOne(lib: Library, ci: int, ii: int)
    requires 0 <= ci < |lib| && 0 <= ii < |lib[ci].items|
    ensures var r := DeleteItem(lib, ci, ii);
      && r == lib[ci := lib[ci].(items := lib[ci].items[..ii] + lib[ci].items[ii + 1..])]
      && r[ci].category == lib[ci].category && r[ci].colorType == lib[ci].colorType
      && ItemCount(r) == ItemCount(lib) - 1
  {
    UpdateAtIndex(lib, ci, (c: LibraryCategory) => c.(items := RemoveIndex(c.items, ii)));
    var r := DeleteItem(lib, ci, ii);
    ItemCountAt(lib, ci, r[ci]);
  }

  /** Indices that address nothing leave the library as it was. */
  lemma OutOfRangeIsNoOp(lib: Library, ci: int, ii: int, labelText: string, content: string)
    ensures !(0 <= ci < |lib|) ==> DeleteItem(lib, ci, ii) == lib && DeleteCategory(lib, ci) == lib
    ensures 0 <= ci < |lib| && !(0 <= ii < |lib[ci].items|) ==> DeleteItem(lib, ci, ii) == lib
    ensures !(0 <= ci < |lib|) && !IsBlank(labelText) && !IsBlank(content) ==>
      SaveEdit(lib, Some(ItemRef(ci, ii)), labelText, content) == Some(lib)
      && AddItem(lib, ci, labelText, content) == Some(lib)
      && RenameCategory(lib, Some(ci), labelText) == Some(lib)
  {
    UpdateAtIndex(lib, ci, (c: LibraryCategory) => c.(items := RemoveIndex(c.items, ii)));
    if !(0 <= ci < |lib|) && !IsBlank(labelText) && !IsBlank(content) {
      UpdateAtIndex(lib, ci, (c: LibraryCategory) =>
        c.(items := UpdateAt(c.items, ii, (it: LibraryItem) => Edited(it, labelText, content))));
      var item := LibraryItem(Trim(labelText), Trim(content), None);
      UpdateAtIndex(lib, ci, (c: LibraryCategory) => c.(items := c.items + [item]));
      UpdateAtIndex(lib, ci, (c: LibraryCategory) => c.(category := Trim(labelText)));
    }
  }

  /** A saved edit changes only the labelText and content of the addressed item,
      to the trimmed values, and keeps its preview. */
  lemma SaveEditChangesOneItem(lib: Library, e: ItemRef, labelText: string, content: string)
    requires !IsBlank(labelText) && !IsBlank(content)
    requires 0 <= e.categoryIdx < |lib| && 0 <= e.itemIdx < |lib[e.categoryIdx].items|
    ensures var r := SaveEdit(lib, Some(e), labelText, content).value;
      var before := lib[e.categoryIdx].items[e.itemIdx];
      && r == lib[e.categoryIdx := lib[e.categoryIdx].(items :=
           lib[e.categoryIdx].items[e.itemIdx := LibraryItem(Trim(labelText), Trim(content), before.preview)])]
      && Trim(labelText) != "" && Trim(content) != ""
      && ItemCount(r) == ItemCount(lib)
  {
    var ci, ii := e.categoryIdx, e.itemIdx;
    UpdateAtIndex(lib, ci, (c: LibraryCategory) =>
      c.(items := UpdateAt(c.items, ii, (it: LibraryItem) => Edited(it, labelText, content))));
    UpdateAtIndex(lib[ci].items, ii, (it: LibraryItem) => Edited(it, labelText, content));
    var r := SaveEdit(lib, Some(e), labelText, content).value;
    ItemCountAt(lib, ci, r[ci]);
  }

  /** Saving the same edit twice gives what saving it once gave. */
  lemma SaveEditIdempotent(lib: Library, e: ItemRef, labelText: string, content: string)
    requires SaveEdit(lib, Some(e), labelText, content).Some?
    ensures SaveEdit(SaveEdit(lib, Some(e), labelText, content).value, Some(e), labelText, content)
         == SaveEdit(lib, Some(e), labelText, content)
  {
    var ci, ii := e.categoryIdx, e.itemIdx;
    var r := SaveEdit(lib, Some(e), labelText, content).value;
    UpdateAtIndex(lib, ci, (c: LibraryCategory) =>
      c.(items := UpdateAt(c.items, ii, (it: LibraryItem) => Edited(it, labelText, content))));
    UpdateAtIndex(r, ci, (c: LibraryCategory) =>
      c.(items := UpdateAt(c.items, ii, (it: LibraryItem) => Edited(it, labelText, content))));
    if 0 <= ci < |lib| {
      UpdateAtIndex(lib[ci].items, ii, (it: LibraryItem) => Edited(it, labelText, content));
      UpdateAtIndex(r[ci].items, ii, (it: LibraryItem) => Edited(it, labelText, content));
      if 0 <= ii < |lib[ci].items| {
        var x := lib[ci].items[ii];
        assert r[ci].items[ii] == Edited(x, labelText, content);
        assert Edited(Edited(x, labelText, content), labelText, content) == Edited(x, labelText, content);
        assert r[ci].items[ii := Edited(r[ci].items[ii], labelText, content)] == r[ci].items;
        assert r[ci := r[ci].(items := r[ci].items)] == r;
      } else {
        assert r == lib[ci := lib[ci]];
        assert r == lib;
      }
    }
  }

  /** A valid add puts one trimmed item without a preview at the end of the
      addressed category and changes nothing else. */
  lemma AddItemAppendsOne(lib: Library, ci: int, labelText: string, content: string)
    requires !IsBlank(labelText) && !IsBlank(content) && 0 <= ci < |lib|
    ensures var r := AddItem(lib, ci, labelText, content).value;
      && r == lib[ci := lib[ci].(items := lib[ci].items + [LibraryItem(Trim(labelText), Trim(content), None)])]
      && ItemCount(r) == ItemCount(lib) + 1
  {
    var item := LibraryItem(Trim(labelText), Trim(content), None);
    UpdateAtIndex(lib, ci, (c: LibraryCategory) => c.(items := c.items + [item]));
    var r := AddItem(lib, ci, labelText, content).value;
    ItemCountAt(lib, ci, r[ci]);
  }

  /** Deleting the item just added restores the library. */
  lemma AddThenDeleteItem(lib: Library, ci: int, labelText: string, content: string)
    requires !IsBlank(labelText) && !IsBlank(content) && 0 <= ci < |lib|
    ensures DeleteItem(AddItem(lib, ci, labelText, content).value, ci, |lib[ci].items|) == lib
  {
    var item := LibraryItem(Trim(labelText), Trim(content), None);
    UpdateAtIndex(lib, ci, (c: LibraryCategory) => c.(items := c.items + [item]));
    var r := AddItem(lib, ci, labelText, content).value;
    UpdateAtIndex(r, ci, (c: LibraryCategory) => c.(items := RemoveIndex(c.items, |lib[ci].items|)));
    RemoveIndexLast(lib[ci].items, item);
    assert DeleteItem(r, ci, |lib[ci].items|)[ci] == lib[ci];
  }

  /** A rename changes only the addressed category's name, to the trimmed
      name; its colour and items stay. */
  lemma RenameKeepsContents(lib: Library, ci: int, name: string)
    requires !IsBlank(name) && 0 <= ci < |lib|
    ensures var r := RenameCategory(lib, Some(ci), name).value;
      && r == lib[ci := LibraryCategory(Trim(name), lib[ci].colorType, lib[ci].items)]
      && ItemCount(r) == ItemCount(lib)
  {
    UpdateAtIndex(lib, ci, (c: LibraryCategory) => c.(category := Trim(name)));
    var r := RenameCategory(lib, Some(ci), name).value;
    ItemCountAt(lib, ci, r[ci]);
  }

  /** Deleting a valid category removes exactly it; the others keep their
      relative order. */
  lemma DeleteCategoryRemovesOne(lib: Library, ci: int)
    requires 0 <= ci < |lib|
    ensures DeleteCategory(lib, ci) == lib[..ci] + lib[ci + 1..]
    ensures forall j :: 0 <= j < ci ==> DeleteCategory(lib, ci)[j] == lib[j]
    ensures forall j :: ci <= j < |lib| - 1 ==> DeleteCategory(lib, ci)[j] == lib[j + 1]
  {
    RemoveIndexShifts(lib, ci);
  }

  /** A valid add appends one empty category with the trimmed, non-empty
      name and the chosen colour; the existing categories and the item count
      stay. */
  lemma AddCategoryAppendsOne(lib: Library, name: string, color: ColorType)
    requires !IsBlank(name)
    ensures AddCategory(lib, name, color).value == lib + [LibraryCategory(Trim(name), color, [])]
    ensures ItemCount(AddCategory(lib, name, color).value) == ItemCount(lib)
    ensures Trim(name) != "" && Trim(Trim(name)) == Trim(name)
  {
    NotBlankTrimNonEmpty(name);
    TrimIdempotent(name);
    var c := LibraryCategory(Trim(name), color, []);
    assert (lib + [c])[..|lib|] == lib;
  }

  /** Deleting the category just added restores the library. */
  lemma AddThenDeleteCategory(lib: Library, name: string, color: ColorType)
    requires !IsBlank(name)
    ensures DeleteCategory(AddCategory(lib, name, color).value, |lib|) == lib
  {
    RemoveIndexLast(lib, LibraryCategory(Trim(name), color, []));
  }

  // ---------------------------------------------------------------------
  // The expanded-category set.

  /** What handleDeleteCategory does to the expanded set: it drops the deleted
      index and leaves every other index as it was. */
  function ExpandedAfterDelete(expanded: set<int>, ci: int): (r: set<int>)
    ensures ci !in r && forall j :: j != ci ==> (j in r <==> j in expanded)
  {
    expanded - {ci}
  }

  /** The expanded set is not re-indexed: after deleting category ci, a
      category that was expanded at ci + 1 now sits at ci, unexpanded, while
      index ci + 1 stays expanded and now shows the category that was at
      ci + 2. */
  lemma ExpandedNotReindexed(lib: Library, ci: int)
    requires 0 <= ci && ci + 2 < |lib|
    ensures var r := DeleteCategory(lib, ci);
      var e := ExpandedAfterDelete({ci + 1}, ci);
      && r[ci] == lib[ci + 1] && ci !in e
      && r[ci + 1] == lib[ci + 2] && ci + 1 in e
  {
    DeleteCategoryRemovesOne(lib, ci);
  }

  // ---------------------------------------------------------------------
  // The panel.

  class DictionaryPanel {
    var expanded: set<int>
    var editingItem: Option<ItemRef>
    var editLabel: string
    var editContent: string
    var showAddForm: Option<int>
    var newLabel: string
    var newContent: string
    var editingCategory: Option<int>
    var editCategoryName: string
    var showAddCategory: bool
    var newCategoryName: string
    var newCategoryColor: ColorType

    /** The item being edited and its two fields. */
    function ItemEdit(): (Option<ItemRef>, string, string)
      reads this
    {
      (editingItem, editLabel, editContent)
    }

    /** The add-item form: the category it is open for and its two fields. */
    function AddItemForm(): (Option<int>, string, string)
      reads this
    {
      (showAddForm, newLabel, newContent)
    }

    /** The category being renamed and the name typed so far. */
    function CategoryEdit(): (Option<int>, string)
      reads this
    {
      (editingCategory, editCategoryName)
    }

    /** The add-category form: whether it shows, the name and the colour. */
    function AddCategoryForm(): (bool, string, ColorType)
      reads this
    {
      (showAddCategory, newCategoryName, newCategoryColor)
    }

    /** The initial state: the first category expanded, every form empty. */
    constructor ()
      ensures expanded == {0} && editingItem.None? && showAddForm.None? && editingCategory.None?
      ensures editLabel == "" && editContent == "" && newLabel == "" && newContent == ""
      ensures editCategoryName == "" && !showAddCategory && newCategoryName == "" && newCategoryColor == Blue
    {
      expanded := {0};
      editingItem := None;
      editLabel, editContent := "", "";
      showAddForm := None;
      newLabel, newContent := "", "";
      editingCategory := None;
      editCategoryName := "";
      showAddCategory := false;
      newCategoryName := "";
      newCategoryColor := Blue;
    }

    method ToggleCategory(index: int)
      modifies this`expanded
      ensures expanded == Toggle(old(expanded), index)
      ensures ItemEdit() == old(ItemEdit()) && AddItemForm() == old(AddItemForm())
      ensures CategoryEdit() == old(CategoryEdit()) && AddCategoryForm() == old(AddCategoryForm())
    {
      var newExpanded := expanded;
      if index in newExpanded {
        newExpanded := newExpanded - {index};
      } else {
        newExpanded := newExpanded + {index};
      }
      expanded := newExpanded;
    }

    /** handleDeleteItem. `confirmed` is the answer to the confirm dialog;
        `changed` is what reaches onLibraryChange. */
    method HandleDeleteItem(library: Library, ci: int, ii: int, confirmed: bool, store: Storage.Store, f: Storage.Faults)
      returns (changed: Option<Library>)
      modifies store
      ensures changed == if confirmed then Some(DeleteItem(library, ci, ii)) else None
      ensures store.State() == if confirmed
        then Storage.AfterSaveLibrary(store.catalog, old(store.State()), DeleteItem(library, ci, ii), f)
        else old(store.State())
    {
      if !confirmed {
        return None;
      }
      var newLibrary := DeleteItem(library, ci, ii);
      changed := Some(newLibrary);
      store.SaveLibrary(newLibrary, f);
    }

    method HandleStartEdit(ci: int, ii: int, item: LibraryItem)
      modifies this`editingItem, this`editLabel, this`editContent
      ensures editingItem == Some(ItemRef(ci, ii)) && editLabel == item.labelText && editContent == item.content
      ensures expanded == old(expanded) && AddItemForm() == old(AddItemForm())
      ensures CategoryEdit() == old(CategoryEdit()) && AddCategoryForm() == old(AddCategoryForm())
    {
      editingItem := Some(ItemRef(ci, ii));
      editLabel := item.labelText;
      editContent := item.content;
    }

    method HandleSaveEdit(library: Library, store: Storage.Store, f: Storage.Faults)
      returns (changed: Option<Library>)
      modifies this`editingItem, this`editLabel, this`editContent, store
      ensures changed == SaveEdit(library, old(editingItem), old(editLabel), old(editContent))
      ensures changed.Some? ==> (editingItem.None? && editLabel == "" && editContent == ""
        && store.State() == Storage.AfterSaveLibrary(store.catalog, old(store.State()), changed.value, f))
      ensures changed.None? ==> ItemEdit() == old(ItemEdit()) && store.State() == old(store.State())
    {
      if editingItem.None? || IsBlank(editLabel) || IsBlank(editContent) {
        return None;
      }
      var newLibrary := SaveEdit(library, editingItem, editLabel, editContent).value;
      changed := Some(newLibrary);
      store.SaveLibrary(newLibrary, f);
      editingItem := None;
      editLabel := "";
      editContent := "";
    }

    method HandleAddNewItem(library: Library, ci: int, store: Storage.Store, f: Storage.Faults)
      returns (changed: Option<Library>)
      modifies this`showAddForm, this`newLabel, this`newContent, store
      ensures changed == AddItem(library, ci, old(newLabel), old(newContent))
      ensures changed.Some? ==> (showAddForm.None? && newLabel == "" && newContent == ""
        && store.State() == Storage.AfterSaveLibrary(store.catalog, old(store.State()), changed.value, f))
      ensures changed.None? ==> AddItemForm() == old(AddItemForm()) && store.State() == old(store.State())
    {
      if IsBlank(newLabel) || IsBlank(newContent) {
        return None;
      }
      var newLibrary := AddItem(library, ci, newLabel, newContent).value;
      changed := Some(newLibrary);
      store.SaveLibrary(newLibrary, f);
      showAddForm := None;
      newLabel := "";
      newContent := "";
    }

    /** handleStartEditCategory: `library[idx]?.category || ''`. */
    method HandleStartEditCategory(library: Library, ci: int)
      modifies this`editingCategory, this`editCategoryName
      ensures editingCategory == Some(ci)
      ensures editCategoryName == if 0 <= ci < |library| then library[ci].category else ""
      ensures expanded == old(expanded) && ItemEdit() == old(ItemEdit())
      ensures AddItemForm() == old(AddItemForm()) && AddCategoryForm() == old(AddCategoryForm())
    {
      editingCategory := Some(ci);
      editCategoryName := if 0 <= ci < |library| then library[ci].category else "";
    }

    method HandleSaveCategoryEdit(library: Library, store: Storage.Store, f: Storage.Faults)
      returns (changed: Option<Library>)
      modifies this`editingCategory, this`editCategoryName, store
      ensures changed == RenameCategory(library, old(editingCategory), old(editCategoryName))
      ensures changed.Some? ==> (editingCategory.None? && editCategoryName == ""
        && store.State() == Storage.AfterSaveLibrary(store.catalog, old(store.State()), changed.value, f))
      ensures changed.None? ==> CategoryEdit() == old(CategoryEdit()) && store.State() == old(store.State())
    {
      if editingCategory.None? || IsBlank(editCategoryName) {
        return None;
      }
      var newLibrary := RenameCategory(library, editingCategory, editCategoryName).value;
      changed := Some(newLibrary);
      store.SaveLibrary(newLibrary, f);
      editingCategory := None;
      editCategoryName := "";
    }

    method HandleDeleteCategory(library: Library, ci: int, confirmed: bool, store: Storage.Store, f: Storage.Faults)
      returns (changed: Option<Library>)
      modifies this`expanded, store
      ensures changed == if confirmed then Some(DeleteCategory(library, ci)) else None
      ensures expanded == if confirmed then ExpandedAfterDelete(old(expanded), ci) else old(expanded)
      ensures store.State() == if confirmed
        then Storage.AfterSaveLibrary(store.catalog, old(store.State()), DeleteCategory(library, ci), f)
        else old(store.State())
      ensures ItemEdit() == old(ItemEdit()) && AddItemForm() == old(AddItemForm())
      ensures CategoryEdit() == old(CategoryEdit()) && AddCategoryForm() == old(AddCategoryForm())
    {
      if !confirmed {
        return None;
      }
      var newLibrary := DeleteCategory(library, ci);
      changed := Some(newLibrary);
      store.SaveLibrary(newLibrary, f);
      var newExpanded := expanded;
      newExpanded := newExpanded - {ci};
      expanded := newExpanded;
    }

    method HandleAddNewCategory(library: Library, store: Storage.Store, f: Storage.Faults)
      returns (changed: Option<Library>)
      modifies this`expanded, this`showAddCategory, this`newCategoryName, this`newCategoryColor, store
      ensures changed == AddCategory(library, old(newCategoryName), old(newCategoryColor))
      ensures changed.Some? ==>
        && !showAddCategory && newCategoryName == "" && newCategoryColor == Blue
        && expanded == old(expanded) + {|library|}
        && store.State() == Storage.AfterSaveLibrary(store.catalog, old(store.State()), changed.value, f)
      ensures changed.Some? ==> changed.value == library + [LibraryCategory(Trim(old(newCategoryName)), old(newCategoryColor), [])]
      ensures changed.None? ==> (AddCategoryForm() == old(AddCategoryForm()) && expanded == old(expanded)
        && store.State() == old(store.State()))
    {
      if IsBlank(newCategoryName) {
        return None;
      }
      AddCategoryAppendsOne(library, newCategoryName, newCategoryColor);
      var newLibrary := AddCategory(library, newCategoryName, newCategoryColor).value;
      changed := Some(newLibrary);
      store.SaveLibrary(newLibrary, f);
      showAddCategory := false;
      newCategoryName := "";
      newCategoryColor := Blue;
      expanded := expanded + {|newLibrary| - 1};
    }
  }
}
