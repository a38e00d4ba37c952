/** The versioned store: one record under the data key and a separate library
    version marker. Every read goes through the version check, which merges
    the default catalog into a stale stored library; writes replace the whole
    record. Storage failures are inputs: a failed read falls back to the
    defaults, a failed write is swallowed. */
module Storage {
  import opened StorageTypes
  import opened Merge

  /** The two storage keys: the record and the version marker. */
  datatype StoreState = StoreState(blob: Option<AppData>, version: Option<int>)

  /** Which storage calls throw during one operation: the read in getData,
      the combined write of a merge result in getData, and the write in
      saveData (whose failure is logged and swallowed). */
  datatype Faults = Faults(readFails: bool, upgradeWriteFails: bool, saveWriteFails: bool)

  const NoFaults := Faults(false, false, false)

  /** What getData returns and the storage it leaves behind. */
  datatype Read = Read(data: AppData, after: StoreState)

  /** `result[LIBRARY_VERSION_KEY] || 0`: a missing marker reads as 0. */
  function SavedVersion(v: Option<int>): int {
    if v.Some? then v.value else 0
  }

  predicate IsStale(s: StoreState) {
    SavedVersion(s.version) < CURRENT_LIBRARY_VERSION
  }

  /** The record a stale read stores: the library merged with the catalog and
      the default settings filled in under the stored ones. */
  function Upgrade(c: Catalog, d: AppData): AppData
    requires d.library.Some?
  {
    AppData(Overlay(Full(c.settings), d.settings), Some(MergeLibrary(d.library.value, c.library)))
  }

  /** getData. With a record present: a current marker returns the record as
      stored; a stale marker stores the upgraded record together with marker 4
      and returns it. Otherwise — no record, a failed read, a stale record
      without a library (spreading it throws), or a failed upgrade write —
      only marker 4 is written and the defaults are returned. */
  function ReadData(c: Catalog, s: StoreState, f: Faults): Read {
    if !f.readFails && s.blob.Some? && !IsStale(s) then
      Read(s.blob.value, s)
    else if !f.readFails && s.blob.Some? && s.blob.value.library.Some? && !f.upgradeWriteFails then
      var d := Upgrade(c, s.blob.value);
      Read(d, StoreState(Some(d), Some(CURRENT_LIBRARY_VERSION)))
    else
      Read(DefaultData(c), s.(version := Some(CURRENT_LIBRARY_VERSION)))
  }

  /** saveData: the record is replaced, unless the write fails. */
  function SavedState(s: StoreState, d: AppData, writeFails: bool): StoreState {
    if writeFails then s else s.(blob := Some(d))
  }

  /** What getSettings makes of a record: `{ ...defaultSettings, ...data.settings }`. */
  function SettingsOf(c: Catalog, d: AppData): Settings {
    Spread(c.settings, d.settings)
  }

  /** What getLibrary makes of a record: `data.library || defaultLibrary`. */
  function LibraryOf(c: Catalog, d: AppData): Library {
    if d.library.Some? then d.library.value else c.library
  }

  // ---------------------------------------------------------------------
  // Properties of the version check.

  /** The marker is written only with the value 4, and after any read the
      store is no longer stale. A marker at or below 4 never decreases. */
  lemma ReadMarker(c: Catalog, s: StoreState, f: Faults)
    ensures var r := ReadData(c, s, f);
      && (r.after.version == s.version || r.after.version == Some(CURRENT_LIBRARY_VERSION))
      && !IsStale(r.after)
      && (SavedVersion(s.version) <= CURRENT_LIBRARY_VERSION ==> SavedVersion(s.version) <= SavedVersion(r.after.version))
  {
  }

  /** The record is written only by a stale read that succeeds, and then it is
      exactly what the read returns; without a record none is created. */
  lemma ReadRecord(c: Catalog, s: StoreState, f: Faults)
    ensures var r := ReadData(c, s, f);
      && (r.after.blob != s.blob ==> IsStale(s) && r.after.blob == Some(r.data))
      && (s.blob.None? ==> r.after.blob.None? && r.data == DefaultData(c))
      && (!f.readFails && s.blob.Some? && !IsStale(s) ==> r.data == s.blob.value && r.after == s)
  {
  }

  /** The upgrade keeps the user's data: every stored category keeps its index,
      name and colour, every stored item its position; the catalog is then
      fully present; and the settings getSettings shows are unchanged. */
  lemma UpgradeKeepsUserData(c: Catalog, d: AppData)
    requires d.library.Some?
    ensures Extends(d.library.value, Upgrade(c, d).library.value)
    ensures forall j :: 0 <= j < |c.library| ==> Covers(Upgrade(c, d).library.value, c.library[j])
    ensures SettingsOf(c, Upgrade(c, d)) == SettingsOf(c, d)
  {
    MergeLibraryExtends(d.library.value, c.library);
    MergeLibraryCoversAll(d.library.value, c.library);
  }

  /** The transition happens at most once: a second read leaves the storage as
      the first read left it, whatever faults either read meets, as long as the
      marker was not written by a later release. When the first read met no
      fault and the record it found had a library, the second read returns the
      same record, so the merge is not applied again. */
  lemma ReadTwice(c: Catalog, s: StoreState, f1: Faults, f2: Faults)
    requires SavedVersion(s.version) <= CURRENT_LIBRARY_VERSION
    ensures ReadData(c, ReadData(c, s, f1).after, f2).after == ReadData(c, s, f1).after
    ensures (f1 == NoFaults && !f2.readFails && (s.blob.Some? ==> s.blob.value.library.Some?))
              ==> ReadData(c, ReadData(c, s, f1).after, f2).data == ReadData(c, s, f1).data
  {
    var r1 := ReadData(c, s, f1);
    ReadMarker(c, s, f1);
  }

  /** The merge touches the library only once per stale period: a read right
      after a successful upgrade finds the merged library and merging it again
      would change nothing either. */
  lemma UpgradeIsFinal(c: Catalog, d: AppData)
    requires d.library.Some?
    ensures MergeLibrary(Upgrade(c, d).library.value, c.library) == Upgrade(c, d).library.value
  {
    MergeIdempotent(d.library.value, c.library);
  }

  /** A record whose marker is stale but which has no library is never
      merged: the first read returns the defaults and bumps the marker, and
      from then on the record is returned as stored. */
  lemma LibrarylessStaleRecord(c: Catalog, s: StoreState)
    requires s.blob.Some? && s.blob.value.library.None? && IsStale(s)
    ensures ReadData(c, s, NoFaults) == Read(DefaultData(c), s.(version := Some(CURRENT_LIBRARY_VERSION)))
    ensures ReadData(c, ReadData(c, s, NoFaults).after, NoFaults).data == s.blob.value
  {
  }

  /** A failed upgrade write still bumps the marker, so the record that could
      not be upgraded is returned unmerged by every later read. */
  lemma FailedUpgradeIsNotRetried(c: Catalog, s: StoreState)
    requires s.blob.Some? && s.blob.value.library.Some? && IsStale(s)
    ensures var f := Faults(false, true, false);
      && ReadData(c, s, f).data == DefaultData(c)
      && ReadData(c, ReadData(c, s, f).after, NoFaults).data == s.blob.value
  {
  }

  // ---------------------------------------------------------------------
  // Properties of the accessors, stated on the storage they leave.

  /** The storage saveSettings leaves: the record getData returned, with the
      partial overlaid on its settings. */
  function AfterSaveSettings(c: Catalog, s: StoreState, p: PartialSettings, f: Faults): StoreState {
    var r := ReadData(c, s, f);
    SavedState(r.after, r.data.(settings := Overlay(r.data.settings, p)), f.saveWriteFails)
  }

  /** The storage saveLibrary leaves: the record getData returned, with its
      library replaced verbatim. */
  function AfterSaveLibrary(c: Catalog, s: StoreState, lib: Library, f: Faults): StoreState {
    var r := ReadData(c, s, f);
    SavedState(r.after, r.data.(library := Some(lib)), f.saveWriteFails)
  }

  /** After a successful saveSettings, getSettings shows the settings it showed
      before with exactly the fields of the partial replaced, and getLibrary
      shows the library it showed before. */
  lemma SaveSettingsThenRead(c: Catalog, s: StoreState, p: PartialSettings, f1: Faults, f2: Faults)
    requires !f1.saveWriteFails && !f2.readFails
    ensures var before := ReadData(c, s, f1).data;
      var after := ReadData(c, AfterSaveSettings(c, s, p, f1), f2).data;
      && SettingsOf(c, after) == Spread(SettingsOf(c, before), p)
      && LibraryOf(c, after) == LibraryOf(c, before)
  {
    var r := ReadData(c, s, f1);
    ReadMarker(c, s, f1);
    SpreadOverlay(c.settings, r.data.settings, p);
  }

  /** After a successful saveLibrary, getLibrary returns exactly the library
      saved, and getSettings shows the settings it showed before. */
  lemma SaveLibraryThenRead(c: Catalog, s: StoreState, lib: Library, f1: Faults, f2: Faults)
    requires !f1.saveWriteFails && !f2.readFails
    ensures var before := ReadData(c, s, f1).data;
      var after := ReadData(c, AfterSaveLibrary(c, s, lib, f1), f2).data;
      && LibraryOf(c, after) == lib
      && SettingsOf(c, after) == SettingsOf(c, before)
  {
    ReadMarker(c, s, f1);
  }

  /** A failed read inside saveSettings makes it persist the defaults: the
      user's stored library is replaced by the default library. */
  lemma FailedReadDuringSaveSettings(c: Catalog, s: StoreState, p: PartialSettings)
    ensures AfterSaveSettings(c, s, p, Faults(true, false, false)).blob
         == Some(AppData(Overlay(Full(c.settings), p), Some(c.library)))
  {
  }

  /** The storage a successful importData leaves, read back: with a current
      marker the imported record comes back verbatim; with a stale marker it
      is upgraded like any stale record. */
  lemma ImportThenRead(c: Catalog, s: StoreState, d: AppData)
    ensures !IsStale(s) ==> ReadData(c, SavedState(s, d, false), NoFaults).data == d
    ensures IsStale(s) && d.library.Some? ==> ReadData(c, SavedState(s, d, false), NoFaults).data == Upgrade(c, d)
  {
  }

  // ---------------------------------------------------------------------
  // The store as the application sees it.

  class Store {
    /** The catalog of this release: defaultSettings and defaultLibrary. */
    const catalog: Catalog
    var blob: Option<AppData>
    var version: Option<int>

    constructor (catalog: Catalog, blob: Option<AppData>, version: Option<int>)
      ensures this.catalog == catalog && this.blob == blob && this.version == version
    {
      this.catalog := catalog;
      this.blob := blob;
      this.version := version;
    }

    function State(): StoreState
      reads this
    {
      StoreState(blob, version)
    }

    /** getData: read both keys, check the marker, upgrade a stale record. */
    method GetData(f: Faults) returns (data: AppData)
      modifies this
      ensures var r := ReadData(catalog, old(State()), f); data == r.data && State() == r.after
    {
      if !f.readFails {
        var savedVersion := SavedVersion(version);
        var needsLibraryUpdate := savedVersion < CURRENT_LIBRARY_VERSION;
        if blob.Some? {
          data := blob.value;
          if !needsLibraryUpdate {
            return;
          }
          // `[...data.library]` throws when the record has no library.
          if data.library.Some? {
            var merged := MergeDefaultLibrary(data.library.value, catalog.library);
            data := data.(library := Some(merged));
            data := data.(settings := Overlay(Full(catalog.settings), data.settings));
            if !f.upgradeWriteFails {
              blob, version := Some(data), Some(CURRENT_LIBRARY_VERSION);
              return;
            }
          }
        }
      }
      version := Some(CURRENT_LIBRARY_VERSION);
      data := DefaultData(catalog);
    }

    /** saveData: write the record; a failure is swallowed. */
    method SaveData(data: AppData, writeFails: bool)
      modifies this
      ensures State() == SavedState(old(State()), data, writeFails)
    {
      if !writeFails {
        blob := Some(data);
      }
    }

    method GetSettings(f: Faults) returns (settings: Settings)
      modifies this
      ensures var r := ReadData(catalog, old(State()), f);
        settings == SettingsOf(catalog, r.data) && State() == r.after
    {
      var data := GetData(f);
      settings := Spread(catalog.settings, data.settings);
    }

    method SaveSettings(settings: PartialSettings, f: Faults)
      modifies this
      ensures State() == AfterSaveSettings(catalog, old(State()), settings, f)
    {
      var data := GetData(f);
      data := data.(settings := Overlay(data.settings, settings));
      SaveData(data, f.saveWriteFails);
    }

    method GetLibrary(f: Faults) returns (library: Library)
      modifies this
      ensures var r := ReadData(catalog, old(State()), f);
        library == LibraryOf(catalog, r.data) && State() == r.after
    {
      var data := GetData(f);
      library := if data.library.Some? then data.library.value else catalog.library;
    }

    method SaveLibrary(library: Library, f: Faults)
      modifies this
      ensures State() == AfterSaveLibrary(catalog, old(State()), library, f)
    {
      var data := GetData(f);
      data := data.(library := Some(library));
      SaveData(data, f.saveWriteFails);
    }

    /** exportData: the record getData returns (its JSON text is not modelled). */
    method ExportData(f: Faults) returns (data: AppData)
      modifies this
      ensures var r := ReadData(catalog, old(State()), f); data == r.data && State() == r.after
    {
      data := GetData(f);
    }

    /** importData on the result of JSON.parse: None when parsing threw. The
        parsed record is stored verbatim and the marker is not touched; the
        answer is true even when the write then fails silently. */
    method ImportData(parsed: Option<AppData>, writeFails: bool) returns (ok: bool)
      modifies this
      ensures ok == parsed.Some?
      ensures State() == if parsed.Some? then SavedState(old(State()), parsed.value, writeFails) else old(State())
    {
      if parsed.None? {
        return false;
      }
      SaveData(parsed.value, writeFails);
      ok := true;
    }

    /** resetData: the defaults and marker 4, in one write. */
    method ResetData()
      modifies this
      ensures State() == StoreState(Some(DefaultData(catalog)), Some(CURRENT_LIBRARY_VERSION))
    {
      blob, version := Some(DefaultData(catalog)), Some(CURRENT_LIBRARY_VERSION);
    }
  }

  /** After resetData, getSettings and getLibrary return exactly the default
      settings and the default library, and the marker reads 4, whatever was
      stored before. */
  method ResetThenRead(c: Catalog, blob: Option<AppData>, version: Option<int>)
    returns (settings: Settings, library: Library, marker: Option<int>)
    ensures settings == c.settings && library == c.library && marker == Some(CURRENT_LIBRARY_VERSION)
  {
    var store := new Store(c, blob, version);
    store.ResetData();
    settings := store.GetSettings(NoFaults);
    library := store.GetLibrary(NoFaults);
    marker := store.version;
    SpreadFull(c.settings, c.settings);
  }

  /** First install: with nothing stored, a read returns the defaults and
      stores only the marker, so a second read returns the defaults again. */
  method FirstInstall(c: Catalog) returns (first: AppData, second: AppData, stored: Option<AppData>, marker: Option<int>)
    ensures first == DefaultData(c) && second == DefaultData(c)
    ensures stored.None? && marker == Some(CURRENT_LIBRARY_VERSION)
  {
    var store := new Store(c, None, None);
    first := store.GetData(NoFaults);
    second := store.GetData(NoFaults);
    stored, marker := store.blob, store.version;
  }
}
