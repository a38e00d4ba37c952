/** The application shell: the tab list with its active tab and the tab being
    renamed, the text of the active tab, and saving that text into the
    library. */
module App {
  import opened StorageTypes
  import opened Text
  import opened Lists
  import Storage

  datatype Mode = Drawing | Llm

  datatype Tab = Tab(id: string, name: string, mode: Mode, content: string)

  function TabId(t: Tab): string {
    t.id
  }

  /** The tabs and the id of the active tab. */
  datatype TabList = TabList(tabs: seq<Tab>, activeId: string)

  /** The three tabs the application starts with, the first one active. */
  const DefaultTabs: seq<Tab> := [
    Tab("1", "MJ绘图", Drawing, ""),
    Tab("2", "代码助手", Llm, ""),
    Tab("3", "文案润色", Llm, "")]

  /** What the handlers keep true: at least one tab, distinct ids (ids come
      from the clock), and the active id names a tab. */
  predicate ValidTabs(t: TabList) {
    && |t.tabs| > 0
    && DistinctKeys(t.tabs, TabId)
    && FindKey(t.tabs, TabId, t.activeId) >= 0
  }

  /** `tabs.find(t => t.id === activeTabId) || tabs[0]`. */
  function ActiveTab(t: TabList): (r: Tab)
    requires |t.tabs| > 0
    ensures r in t.tabs
    ensures FindKey(t.tabs, TabId, t.activeId) >= 0 ==> r.id == t.activeId
    ensures FindKey(t.tabs, TabId, t.activeId) < 0 ==> r == t.tabs[0]
  {
    var i := FindKey(t.tabs, TabId, t.activeId);
    if i >= 0 then t.tabs[i] else t.tabs[0]
  }

  /** The preconditions hold initially. */
  lemma DefaultTabsValid()
    ensures ValidTabs(TabList(DefaultTabs, "1"))
    ensures ActiveTab(TabList(DefaultTabs, "1")) == DefaultTabs[0]
  {
    assert FindKey(DefaultTabs, TabId, "1") == 0;
  }

  // ---------------------------------------------------------------------
  // Tab contents.

  /** handleContentChange: the tab whose id is the active id gets the text. */
  function WithContent(t: TabList, content: string): (r: TabList)
    ensures |r.tabs| == |t.tabs| && r.activeId == t.activeId
  {
    TabList(seq(|t.tabs|, i requires 0 <= i < |t.tabs| =>
      if t.tabs[i].id == t.activeId then t.tabs[i].(content := content) else t.tabs[i]), t.activeId)
  }

  /** A content change reaches the active tab and no other: every other tab is
      unchanged, the active one differs only in its text, and the tab list
      stays valid. */
  lemma ContentChangeOnlyActive(t: TabList, content: string)
    requires ValidTabs(t)
    ensures var r := WithContent(t, content);
      && ValidTabs(r)
      && ActiveTab(r) == ActiveTab(t).(content := content)
      && forall i :: 0 <= i < |t.tabs| && t.tabs[i].id != t.activeId ==> r.tabs[i] == t.tabs[i]
  {
    var r := WithContent(t, content);
    var k := FindKey(t.tabs, TabId, t.activeId);
    assert forall i :: 0 <= i < |t.tabs| ==> r.tabs[i].id == t.tabs[i].id;
    assert DistinctKeys(r.tabs, TabId);
    assert FindKey(r.tabs, TabId, t.activeId) == k;
  }

  /** The fallback to the first tab only shows a tab: when the active id names
      no tab, a content change alters nothing. */
  lemma ContentChangeWithoutActive(t: TabList, content: string)
    requires FindKey(t.tabs, TabId, t.activeId) < 0
    ensures WithContent(t, content) == t
  {
    assert WithContent(t, content).tabs == t.tabs;
  }

  /** The text handleAddFromDictionary writes: the item's text after a `, `
      separator, or alone when the current text is empty. */
  function AppendWithSeparator(current: string, addition: string): (r: string)
    ensures current == "" ==> r == addition
    ensures current != "" ==> r == current + ", " + addition
  {
    current + (if current != "" then ", " else "") + addition
  }

  /** Adding several dictionary items one after another. */
  function AppendAll(current: string, additions: seq<string>): string
    decreases |additions|
  {
    if |additions| == 0 then current
    else AppendWithSeparator(AppendAll(current, additions[..|additions| - 1]), additions[|additions| - 1])
  }

  lemma {:induction false} JoinNonEmpty(parts: seq<string>, sep: string)
    requires |parts| > 0 && parts[|parts| - 1] != ""
    ensures Join(parts, sep) != ""
  {
    JoinLength(parts, sep);
    if |parts| > 1 {
      assert TotalLength(parts) >= |parts[|parts| - 1]|;
    }
  }

  /** Starting from an empty tab, adding non-empty items one after another
      yields their texts joined with `, `. */
  lemma {:induction false} AppendAllIsJoin(additions: seq<string>)
    requires forall i :: 0 <= i < |additions| ==> additions[i] != ""
    ensures AppendAll("", additions) == Join(additions, ", ")
    decreases |additions|
  {
    if |additions| > 1 {
      var pre := additions[..|additions| - 1];
      AppendAllIsJoin(pre);
      JoinNonEmpty(pre, ", ");
    }
  }

  /** handleAddFromDictionary on the tab list. */
  function WithItemAdded(t: TabList, item: LibraryItem): (r: TabList)
    requires |t.tabs| > 0
    ensures |r.tabs| == |t.tabs| && r.activeId == t.activeId
  {
    WithContent(t, AppendWithSeparator(ActiveTab(t).content, item.content))
  }

  /** Adding an item from the dictionary extends the active tab's text. */
  lemma AddFromDictionaryExtends(t: TabList, item: LibraryItem)
    requires ValidTabs(t)
    ensures var r := WithItemAdded(t, item);
      && ValidTabs(r)
      && ActiveTab(r).content == AppendWithSeparator(ActiveTab(t).content, item.content)
  {
    ContentChangeOnlyActive(t, AppendWithSeparator(ActiveTab(t).content, item.content));
  }

  // ---------------------------------------------------------------------
  // Adding, deleting and renaming tabs.

  /** The name handleAddTab gives tab number n. */
  function NewTabName(n: nat): string {
    "新标签 " + Decimal(n)
  }

  /** handleAddTab: an empty LLM tab named after the new tab count, made active. */
  function WithNewTab(t: TabList, id: string): (r: TabList)
    ensures |r.tabs| == |t.tabs| + 1 && r.tabs[..|t.tabs|] == t.tabs
  {
    TabList(t.tabs + [Tab(id, NewTabName(|t.tabs| + 1), Llm, "")], id)
  }

  /** Adding a tab with a fresh id keeps the list valid and makes the new,
      empty tab active; its name carries the new number of tabs. */
  lemma AddTabActivates(t: TabList, id: string)
    requires ValidTabs(t) && FindKey(t.tabs, TabId, id) < 0
    ensures var r := WithNewTab(t, id);
      && ValidTabs(r)
      && ActiveTab(r) == Tab(id, NewTabName(|t.tabs| + 1), Llm, "")
      && NewTabName(|t.tabs| + 1) == "新标签 " + Decimal(|r.tabs|)
      && ParseDecimal(Decimal(|r.tabs|)) == |r.tabs|
  {
    var r := WithNewTab(t, id);
    var n := |t.tabs|;
    assert forall i :: 0 <= i < n ==> r.tabs[i] == t.tabs[i];
    assert forall i :: 0 <= i < n ==> TabId(t.tabs[i]) != id;
    assert DistinctKeys(r.tabs, TabId);
    FindKeyOfMember(r.tabs, TabId, r.tabs[n]);
    DecimalRoundTrip(n + 1);
  }

  /** handleDeleteTab: None when only one tab is left (the alert); otherwise
      the tab with that id is filtered out and, if it was active, the first
      remaining tab becomes active. */
  function WithoutTab(t: TabList, tabId: string): (r: Option<TabList>)
    requires ValidTabs(t)
    ensures r.None? <==> |t.tabs| <= 1
  {
    if |t.tabs| <= 1 then None
    else
      var newTabs := RemoveKey(t.tabs, TabId, tabId);
      RemoveKeyLength(t.tabs, TabId, tabId);
      Some(TabList(newTabs, if t.activeId == tabId then newTabs[0].id else t.activeId))
  }

  /** Deleting a tab filters out exactly the tab with that id: one tab fewer
      when the id names a tab, none otherwise. The others keep their order:
      the result is the list with the tab's index removed, or the list itself. */
  lemma DeleteTabFilters(t: TabList, tabId: string)
    requires ValidTabs(t) && |t.tabs| > 1
    ensures WithoutTab(t, tabId).value.tabs == RemoveKey(t.tabs, TabId, tabId)
    ensures FindKey(t.tabs, TabId, tabId) >= 0 ==>
      WithoutTab(t, tabId).value.tabs == RemoveIndex(t.tabs, FindKey(t.tabs, TabId, tabId))
    ensures FindKey(t.tabs, TabId, tabId) < 0 ==> WithoutTab(t, tabId).value.tabs == t.tabs
    ensures |WithoutTab(t, tabId).value.tabs| ==
      (if FindKey(t.tabs, TabId, tabId) >= 0 then |t.tabs| - 1 else |t.tabs|)
    ensures forall x :: x in WithoutTab(t, tabId).value.tabs <==> x in t.tabs && x.id != tabId
  {
    RemoveKeyLength(t.tabs, TabId, tabId);
    if FindKey(t.tabs, TabId, tabId) >= 0 {
      RemoveKeyAt(t.tabs, TabId, tabId);
    } else {
      RemoveKeyNone(t.tabs, TabId, tabId);
    }
  }

  /** The first remaining tab, which becomes active when the active tab is
      deleted, is the old second tab when the first was deleted and the old
      first tab otherwise. */
  lemma DeleteTabFirst(t: TabList, tabId: string)
    requires ValidTabs(t) && |t.tabs| > 1
    ensures WithoutTab(t, tabId).value.tabs[0] ==
      (if t.tabs[0].id == tabId then t.tabs[1] else t.tabs[0])
  {
    DeleteTabFilters(t, tabId);
  }

  /** After a delete the list stays valid and the active tab is kept, or
      falls back to the first remaining tab when it was the one deleted. */
  lemma DeleteTabKeepsActive(t: TabList, tabId: string)
    requires ValidTabs(t) && |t.tabs| > 1
    ensures var r := WithoutTab(t, tabId).value;
      && ValidTabs(r)
      && (t.activeId == tabId ==> ActiveTab(r) == r.tabs[0])
      && (t.activeId != tabId ==> ActiveTab(r) == ActiveTab(t))
  {
    var r := WithoutTab(t, tabId).value;
    RemoveKeyDistinct(t.tabs, TabId, tabId);
    if t.activeId == tabId {
      assert FindKey(r.tabs, TabId, r.activeId) == 0;
    } else {
      var a := ActiveTab(t);
      assert a in r.tabs;
      FindKeyOfMember(r.tabs, TabId, a);
    }
  }

  /** The last tab cannot be deleted. */
  lemma DeleteLastTabRefused(t: TabList, tabId: string)
    requires ValidTabs(t) && |t.tabs| == 1
    ensures WithoutTab(t, tabId).None?
  {
  }

  /** handleSaveTabName: when a tab is being renamed (a non-empty id) and the
      new name is not blank, that tab gets the trimmed name. */
  function WithTabName(t: TabList, editing: Option<string>, name: string): (r: TabList)
    ensures |r.tabs| == |t.tabs| && r.activeId == t.activeId
  {
    if editing.Some? && editing.value != "" && !IsBlank(name) then
      TabList(seq(|t.tabs|, i requires 0 <= i < |t.tabs| =>
        if t.tabs[i].id == editing.value then t.tabs[i].(name := Trim(name)) else t.tabs[i]), t.activeId)
    else t
  }

  /** A rename changes only the name of the tab being renamed, to the trimmed
      name, and keeps the list valid; a blank name changes nothing. */
  lemma RenameOnlyThatTab(t: TabList, id: string, name: string)
    requires ValidTabs(t)
    ensures var r := WithTabName(t, Some(id), name);
      && ValidTabs(r)
      && (IsBlank(name) || id == "" ==> r == t)
      && (forall i :: 0 <= i < |t.tabs| ==>
            r.tabs[i] == if t.tabs[i].id == id && id != "" && !IsBlank(name)
                         then t.tabs[i].(name := Trim(name)) else t.tabs[i])
  {
    var r := WithTabName(t, Some(id), name);
    assert forall i :: 0 <= i < |t.tabs| ==> TabId(r.tabs[i]) == TabId(t.tabs[i]);
    assert DistinctKeys(r.tabs, TabId);
    FindKeySameKeys(r.tabs, TabId, t.tabs, TabId, t.activeId);
  }

  // ---------------------------------------------------------------------
  // Saving the active tab's text into the library.

  /** The first argument of onSave: 'new' or a category index. */
  datatype SaveTarget = NewCategory | Existing(index: int)

  /** The library handleSaveToLibrary saves, or None where it throws.
      `'new'` with a non-empty name and a colour appends a category holding
      only the new item; an index appends the item to that category (an index
      holding no category changes nothing); anything else throws. */
  function SaveToLibraryEdit(lib: Library, target: SaveTarget, labelText: string, content: string,
                             name: Option<string>, color: Option<ColorType>): (r: Option<Library>)
    ensures r.None? <==> target.NewCategory? && (name.None? || name.value == "" || color.None?)
  {
    var item := LibraryItem(labelText, content, None);
    if target.NewCategory? && name.Some? && name.value != "" && color.Some? then
      Some(lib + [LibraryCategory(name.value, color.value, [item])])
    else if target.Existing? then
      Some(UpdateAt(lib, target.index, (c: LibraryCategory) => c.(items := c.items + [item])))
    else None
  }

  /** The three outcomes of handleSaveToLibrary. */
  lemma SaveToLibraryOutcomes(lib: Library, target: SaveTarget, labelText: string, content: string,
                              name: Option<string>, color: Option<ColorType>)
    ensures var item := LibraryItem(labelText, content, None);
      var r := SaveToLibraryEdit(lib, target, labelText, content, name, color);
      && (r.Some? && target.NewCategory? ==> r.value == lib + [LibraryCategory(name.value, color.value, [item])])
      && (target.Existing? && 0 <= target.index < |lib| ==>
            r.value == lib[target.index := lib[target.index].(items := lib[target.index].items + [item])])
      && (target.Existing? && !(0 <= target.index < |lib|) ==> r.value == lib)
  {
    var item := LibraryItem(labelText, content, None);
    if target.Existing? {
      UpdateAtIndex(lib, target.index, (c: LibraryCategory) => c.(items := c.items + [item]));
    }
  }

  /** Saving into category 0 of an empty library saves the library unchanged:
      the item is dropped although the save is reported as done. */
  lemma SaveToEmptyLibraryDropsItem(labelText: string, content: string)
    ensures SaveToLibraryEdit([], Existing(0), labelText, content, None, None) == Some([])
  {
    SaveToLibraryOutcomes([], Existing(0), labelText, content, None, None);
  }

  // ---------------------------------------------------------------------
  // The application state.

  class AppState {
    var tabs: seq<Tab>
    var activeTabId: string
    var editingTabId: Option<string>
    var editingTabName: string
    var localLibrary: Library
    var isSaveModalOpen: bool

    function Tabs(): TabList
      reads this
    {
      TabList(tabs, activeTabId)
    }

    predicate Valid()
      reads this
    {
      ValidTabs(Tabs())
    }

    function Active(): Tab
      reads this
      requires Valid()
    {
      ActiveTab(Tabs())
    }

    /** The rename in progress: the tab id and the name typed so far. */
    function Rename(): (Option<string>, string)
      reads this
    {
      (editingTabId, editingTabName)
    }

    constructor ()
      ensures Valid() && tabs == DefaultTabs && activeTabId == "1"
      ensures editingTabId.None? && editingTabName == "" && localLibrary == [] && !isSaveModalOpen
    {
      tabs := DefaultTabs;
      activeTabId := "1";
      editingTabId := None;
      editingTabName := "";
      localLibrary := [];
      isSaveModalOpen := false;
      DefaultTabsValid();
    }

    method HandleContentChange(content: string)
      requires Valid()
      modifies this
      ensures Valid() && Tabs() == WithContent(old(Tabs()), content)
      ensures Active() == old(Active()).(content := content)
      ensures Rename() == old(Rename()) && localLibrary == old(localLibrary)
      ensures isSaveModalOpen == old(isSaveModalOpen)
    {
      ContentChangeOnlyActive(Tabs(), content);
      tabs := WithContent(Tabs(), content).tabs;
    }

    method HandleAddFromDictionary(item: LibraryItem)
      requires Valid()
      modifies this
      ensures Valid() && Tabs() == WithItemAdded(old(Tabs()), item)
      ensures Active().content == AppendWithSeparator(old(Active()).content, item.content)
      ensures Rename() == old(Rename()) && localLibrary == old(localLibrary)
      ensures isSaveModalOpen == old(isSaveModalOpen)
    {
      var currentContent := Active().content;
      var separator := if currentContent != "" then ", " else "";
      var newContent := currentContent + separator + item.content;
      HandleContentChange(newContent);
    }

    /** handleClear: the active tab's text becomes empty. */
    method HandleClear()
      requires Valid()
      modifies this
      ensures Valid() && Tabs() == WithContent(old(Tabs()), "")
      ensures Active().content == ""
      ensures Rename() == old(Rename()) && localLibrary == old(localLibrary)
      ensures isSaveModalOpen == old(isSaveModalOpen)
    {
      HandleContentChange("");
    }

    /** handleAddTab; `freshId` stands for `Date.now().toString()`, which the
        id of no existing tab equals. */
    method HandleAddTab(freshId: string)
      requires Valid() && FindKey(tabs, TabId, freshId) < 0
      modifies this
      ensures Valid() && Tabs() == WithNewTab(old(Tabs()), freshId)
      ensures Active() == Tab(freshId, NewTabName(|old(tabs)| + 1), Llm, "")
      ensures Rename() == old(Rename()) && localLibrary == old(localLibrary)
      ensures isSaveModalOpen == old(isSaveModalOpen)
    {
      AddTabActivates(Tabs(), freshId);
      var newTab := Tab(freshId, NewTabName(|tabs| + 1), Llm, "");
      tabs := tabs + [newTab];
      activeTabId := newTab.id;
    }

    /** handleDeleteTab; `refused` is the alert shown for the last tab. */
    method HandleDeleteTab(tabId: string) returns (refused: bool)
      requires Valid()
      modifies this
      ensures Valid()
      ensures refused <==> |old(tabs)| <= 1
      ensures refused ==> Tabs() == old(Tabs())
      ensures !refused ==> Tabs() == WithoutTab(old(Tabs()), tabId).value
      ensures Rename() == old(Rename()) && localLibrary == old(localLibrary)
      ensures isSaveModalOpen == old(isSaveModalOpen)
    {
      if |tabs| <= 1 {
        return true;
      }
      DeleteTabKeepsActive(Tabs(), tabId);
      var newTabs := RemoveKey(tabs, TabId, tabId);
      tabs := newTabs;
      if activeTabId == tabId {
        activeTabId := newTabs[0].id;
      }
      refused := false;
    }

    method HandleStartEditTab(tab: Tab)
      modifies this
      ensures editingTabId == Some(tab.id) && editingTabName == tab.name
      ensures Tabs() == old(Tabs()) && localLibrary == old(localLibrary)
      ensures isSaveModalOpen == old(isSaveModalOpen)
    {
      editingTabId := Some(tab.id);
      editingTabName := tab.name;
    }

    /** handleSaveTabName: rename if possible, then clear the editing state. */
    method HandleSaveTabName()
      requires Valid()
      modifies this
      ensures Valid() && Tabs() == WithTabName(old(Tabs()), old(editingTabId), old(editingTabName))
      ensures editingTabId.None? && editingTabName == ""
      ensures localLibrary == old(localLibrary) && isSaveModalOpen == old(isSaveModalOpen)
    {
      if editingTabId.Some? {
        RenameOnlyThatTab(Tabs(), editingTabId.value, editingTabName);
      }
      tabs := WithTabName(Tabs(), editingTabId, editingTabName).tabs;
      editingTabId := None;
      editingTabName := "";
    }

    /** handleKeyDown in the rename field: Enter saves, Escape cancels. */
    method HandleKeyDown(key: string)
      requires Valid()
      modifies this
      ensures Valid()
      ensures key == "Enter" ==> Tabs() == WithTabName(old(Tabs()), old(editingTabId), old(editingTabName))
      ensures key != "Enter" ==> Tabs() == old(Tabs())
      ensures key == "Enter" || key == "Escape" ==> editingTabId.None? && editingTabName == ""
      ensures key != "Enter" && key != "Escape" ==> Rename() == old(Rename())
      ensures localLibrary == old(localLibrary) && isSaveModalOpen == old(isSaveModalOpen)
    {
      if key == "Enter" {
        HandleSaveTabName();
      } else if key == "Escape" {
        editingTabId := None;
        editingTabName := "";
      }
    }

    /** handleSaveToLibraryClick; `blank` is the alert for an empty text. */
    method HandleSaveToLibraryClick() returns (blank: bool)
      requires Valid()
      modifies this
      ensures Valid() && blank == IsBlank(Active().content)
      ensures isSaveModalOpen == (old(isSaveModalOpen) || !blank)
      ensures Tabs() == old(Tabs()) && localLibrary == old(localLibrary)
      ensures Rename() == old(Rename())
    {
      blank := IsBlank(Active().content);
      if !blank {
        isSaveModalOpen := true;
      }
    }

    /** handleSaveToLibrary: read the stored library, build the new one, save
        it, then show it and close the dialog. Where the arguments make it
        throw, the read has happened but nothing is saved and the dialog stays
        open; `saved` tells which alert is shown. */
    method HandleSaveToLibrary(target: SaveTarget, labelText: string, name: Option<string>, color: Option<ColorType>,
                               store: Storage.Store, readFaults: Storage.Faults, saveFaults: Storage.Faults)
      returns (saved: bool)
      requires Valid()
      modifies this, store
      ensures Valid() && Tabs() == old(Tabs()) && Rename() == old(Rename())
      ensures var read := Storage.ReadData(store.catalog, old(store.State()), readFaults);
        var r := SaveToLibraryEdit(Storage.LibraryOf(store.catalog, read.data), target, labelText,
                                   old(Active()).content, name, color);
        && saved == r.Some?
        && (r.Some? ==>
              (localLibrary == r.value && !isSaveModalOpen
               && store.State() == Storage.AfterSaveLibrary(store.catalog, read.after, r.value, saveFaults)))
        && (r.None? ==>
              (localLibrary == old(localLibrary) && isSaveModalOpen == old(isSaveModalOpen)
               && store.State() == read.after))
    {
      var currentLibrary := store.GetLibrary(readFaults);
      var newLibrary := SaveToLibraryEdit(currentLibrary, target, labelText, Active().content, name, color);
      if newLibrary.None? {
        return false;
      }
      store.SaveLibrary(newLibrary.value, saveFaults);
      localLibrary := newLibrary.value;
      isSaveModalOpen := false;
      saved := true;
    }
  }
}
