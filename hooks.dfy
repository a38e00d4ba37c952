/** The two storage hooks of the UI: the settings hook keeps a local copy of
    the settings and overlays each saved partial on it; the library hook
    keeps the library as an array of mutable category objects, and its
    addItem and removeItem change one category object in place before saving
    the whole library. */
module Hooks {
  import opened StorageTypes
  import opened Lists
  import Storage

  // ---------------------------------------------------------------------
  // useSettings.

  /** The local settings after updateSettings: the partial spread over the
      settings already loaded, and still nothing while nothing is loaded. */
  function LocalSettings(prev: Option<Settings>, p: PartialSettings): (r: Option<Settings>)
    ensures r.Some? <==> prev.Some?
  {
    if prev.Some? then Some(Spread(prev.value, p)) else None
  }

  /** Each field of the local copy is the partial's field where it has one,
      and the loaded field otherwise. */
  lemma LocalSettingsFields(prev: Settings, p: PartialSettings)
    ensures var r := LocalSettings(Some(prev), p).value;
      && r.apiKey == PickOr(p.apiKey, prev.apiKey)
      && r.apiBaseUrl == PickOr(p.apiBaseUrl, prev.apiBaseUrl)
      && r.model == PickOr(p.model, prev.model)
      && r.theme == PickOr(p.theme, prev.theme)
      && r.language == PickOr(p.language, prev.language)
      && r.translatePrompt == PickOr(p.translatePrompt, prev.translatePrompt)
      && r.polishPrompt == PickOr(p.polishPrompt, prev.polishPrompt)
      && r.customPrompt == PickOr(p.customPrompt, prev.customPrompt)
      && r.customLabel == PickOr(p.customLabel, prev.customLabel)
      && (p == EmptySettings ==> r == prev)
  {
    SpreadEmpty(prev);
  }

  /** Two updates in a row leave the local copy where one update with the
      second partial spread over the first would: `{...{...prev, ...p}, ...q}`
      is `{...prev, ...{...p, ...q}}`. */
  lemma LocalSettingsCompose(prev: Option<Settings>, p: PartialSettings, q: PartialSettings)
    ensures LocalSettings(LocalSettings(prev, p), q) == LocalSettings(prev, Overlay(p, q))
  {
    if prev.Some? {
      SpreadOverlay(prev.value, p, q);
    }
  }

  /** When the loaded copy is what saveSettings itself read, and the save and
      the next read succeed, the local copy after updateSettings is what
      getSettings then returns. */
  lemma LocalSettingsMatchStore(c: Catalog, s: Storage.StoreState, prev: Option<Settings>,
                                p: PartialSettings, f1: Storage.Faults, f2: Storage.Faults)
    requires !f1.saveWriteFails && !f2.readFails
    requires prev == Some(Storage.SettingsOf(c, Storage.ReadData(c, s, f1).data))
    ensures LocalSettings(prev, p)
         == Some(Storage.SettingsOf(c, Storage.ReadData(c, Storage.AfterSaveSettings(c, s, p, f1), f2).data))
  {
    Storage.SaveSettingsThenRead(c, s, p, f1, f2);
  }

  class SettingsHook {
    var settings: Option<Settings>

    constructor ()
      ensures settings.None?
    {
      settings := None;
    }

    /** loadSettings: the settings getSettings returns. */
    method Load(store: Storage.Store, f: Storage.Faults)
      modifies this, store
      ensures var r := Storage.ReadData(store.catalog, old(store.State()), f);
        settings == Some(Storage.SettingsOf(store.catalog, r.data)) && store.State() == r.after
    {
      var data := store.GetSettings(f);
      settings := Some(data);
    }

    /** updateSettings: save the partial, then overlay it on the local copy. */
    method UpdateSettings(p: PartialSettings, store: Storage.Store, f: Storage.Faults)
      modifies this, store
      ensures store.State() == Storage.AfterSaveSettings(store.catalog, old(store.State()), p, f)
      ensures settings == LocalSettings(old(settings), p)
    {
      store.SaveSettings(p, f);
      if settings.Some? {
        settings := Some(Spread(settings.value, p));
      }
    }
  }

  // ---------------------------------------------------------------------
  // useLibrary.

  /** One category as a mutable object: `push` and `splice` change its item
      array in place. */
  class CategoryObject {
    var category: string
    var colorType: ColorType
    var items: seq<LibraryItem>

    constructor (c: LibraryCategory)
      ensures Value() == c
    {
      category := c.category;
      colorType := c.colorType;
      items := c.items;
    }

    /** The category this object holds right now. */
    function Value(): LibraryCategory
      reads this
    {
      LibraryCategory(category, colorType, items)
    }
  }

  /** The library the objects hold right now. */
  function Values(cs: seq<CategoryObject>): (r: Library)
    reads set i | 0 <= i < |cs| :: cs[i]
    ensures |r| == |cs|
  {
    seq(|cs|, i requires 0 <= i < |cs| reads set j | 0 <= j < |cs| :: cs[j] => cs[i].Value())
  }

  /** No category object appears twice in the array. */
  predicate Unaliased(cs: seq<CategoryObject>) {
    forall i, j :: 0 <= i < j < |cs| ==> cs[i] != cs[j]
  }

  /** What the array sees after one of its objects changes its items to
      `items`: every index holding that object sees the new items, every
      other index what it saw. When no object appears twice this is an update
      of that one index. */
  lemma {:induction false} AliasedUpdate(before: Library, after: Library, cs: seq<CategoryObject>, ci: int,
                                         g: LibraryCategory -> LibraryCategory)
    requires |before| == |cs| == |after| && 0 <= ci < |cs| && Unaliased(cs)
    requires forall j :: 0 <= j < |cs| ==> after[j] == if cs[j] == cs[ci] then g(before[j]) else before[j]
    ensures after == UpdateAt(before, ci, g)
  {
    UpdateAtIndex(before, ci, g);
    forall j | 0 <= j < |cs|
      ensures after[j] == UpdateAt(before, ci, g)[j]
    {
      if j != ci {
        assert cs[j] != cs[ci];
      }
    }
  }

  /** Pushing an item and splicing it off again leaves the items as before. */
  lemma PushThenSplice(items: seq<LibraryItem>, item: LibraryItem)
    ensures Splice1(items + [item], |items|) == items
  {
    RemoveIndexLast(items, item);
  }

  class LibraryHook {
    var library: seq<CategoryObject>

    constructor ()
      ensures library == []
    {
      library := [];
    }

    function Snapshot(): Library
      reads this, set i | 0 <= i < |library| :: library[i]
    {
      Values(library)
    }

    /** updateLibrary: save the library, then show it. */
    method UpdateLibrary(objects: seq<CategoryObject>, store: Storage.Store, f: Storage.Faults)
      modifies this, store
      ensures library == objects
      ensures store.State() == Storage.AfterSaveLibrary(store.catalog, old(store.State()), Values(objects), f)
    {
      store.SaveLibrary(Values(objects), f);
      library := objects;
    }

    /** addItem: the array is copied, but the category object at the index
        is shared with the shown array, and the item is pushed onto it. The
        library saved is the one every holder of that object sees. An index
        holding no category does nothing. */
    method AddItem(ci: int, item: LibraryItem, store: Storage.Store, f: Storage.Faults)
      modifies store, set i | 0 <= i < |library| :: library[i]
      ensures 0 <= ci < |library| ==>
        && library[ci].items == old(library[ci].items) + [item]
        && (forall j :: 0 <= j < |library| ==>
              Snapshot()[j] == if library[j] == library[ci] then old(Snapshot()[j]).(items := old(Snapshot()[j]).items + [item])
                               else old(Snapshot()[j]))
        && (Unaliased(library) ==>
              Snapshot() == UpdateAt(old(Snapshot()), ci, (c: LibraryCategory) => c.(items := c.items + [item])))
        && store.State() == Storage.AfterSaveLibrary(store.catalog, old(store.State()), Snapshot(), f)
      ensures !(0 <= ci < |library|) ==> Snapshot() == old(Snapshot()) && store.State() == old(store.State())
    {
      var newLibrary := library;
      if 0 <= ci < |newLibrary| {
        newLibrary[ci].items := newLibrary[ci].items + [item];
        if Unaliased(library) {
          AliasedUpdate(old(Snapshot()), Snapshot(), library, ci,
                        (c: LibraryCategory) => c.(items := c.items + [item]));
        }
        ghost var shown := Snapshot();
        store.SaveLibrary(Values(newLibrary), f);
        assert Snapshot() == shown;
      }
    }

    /** removeItem: like addItem, with `splice(itemIndex, 1)` on the shared
        category object; the library is saved whenever the category exists,
        whether or not an item was removed. */
    method RemoveItem(ci: int, ii: int, store: Storage.Store, f: Storage.Faults)
      modifies store, set i | 0 <= i < |library| :: library[i]
      ensures 0 <= ci < |library| ==>
        && library[ci].items == Splice1(old(library[ci].items), ii)
        && (forall j :: 0 <= j < |library| ==>
              Snapshot()[j] == if library[j] == library[ci] then old(Snapshot()[j]).(items := Splice1(old(library[ci].items), ii))
                               else old(Snapshot()[j]))
        && (Unaliased(library) ==>
              Snapshot() == UpdateAt(old(Snapshot()), ci, (c: LibraryCategory) => c.(items := Splice1(c.items, ii))))
        && store.State() == Storage.AfterSaveLibrary(store.catalog, old(store.State()), Snapshot(), f)
      ensures !(0 <= ci < |library|) ==> Snapshot() == old(Snapshot()) && store.State() == old(store.State())
    {
      var newLibrary := library;
      if 0 <= ci < |newLibrary| {
        newLibrary[ci].items := Splice1(newLibrary[ci].items, ii);
        if Unaliased(library) {
          AliasedUpdate(old(Snapshot()), Snapshot(), library, ci,
                        (c: LibraryCategory) => c.(items := Splice1(c.items, ii)));
        }
        ghost var shown := Snapshot();
        store.SaveLibrary(Values(newLibrary), f);
        assert Snapshot() == shown;
      }
    }
  }

  /** On the library as a value: pushing an item onto a category and
      splicing it off again at its index restores the library. */
  lemma PushThenSpliceLibrary(lib: Library, ci: int, item: LibraryItem, n: int)
    requires 0 <= ci < |lib| && n == |lib[ci].items|
    ensures UpdateAt(UpdateAt(lib, ci, (c: LibraryCategory) => c.(items := c.items + [item])),
                     ci, (c: LibraryCategory) => c.(items := Splice1(c.items, n))) == lib
  {
    var push := (c: LibraryCategory) => c.(items := c.items + [item]);
    var splice := (c: LibraryCategory) => c.(items := Splice1(c.items, n));
    UpdateAtIndex(lib, ci, push);
    var mid := UpdateAt(lib, ci, push);
    UpdateAtIndex(mid, ci, splice);
    PushThenSplice(lib[ci].items, item);
    assert mid[ci := splice(mid[ci])] == lib;
  }

  /** Adding an item to a category held by no other index and removing it
      again at its index leaves the library as shown before, and a
      successful save followed by a successful read returns that library. */
  method AddThenRemove(hook: LibraryHook, ci: int, item: LibraryItem, store: Storage.Store, f: Storage.Faults)
    requires 0 <= ci < |hook.library| && Unaliased(hook.library)
    requires !f.readFails && !f.saveWriteFails
    modifies store, set i | 0 <= i < |hook.library| :: hook.library[i]
    ensures hook.Snapshot() == old(hook.Snapshot())
    ensures Storage.LibraryOf(store.catalog, Storage.ReadData(store.catalog, store.State(), f).data) == hook.Snapshot()
  {
    var n := |hook.library[ci].items|;
    ghost var before := hook.Snapshot();
    hook.AddItem(ci, item, store, f);
    label mid:
    hook.RemoveItem(ci, n, store, f);
    PushThenSpliceLibrary(before, ci, item, n);
    Storage.SaveLibraryThenRead(store.catalog, old@mid(store.State()), hook.Snapshot(), f, f);
  }
}
