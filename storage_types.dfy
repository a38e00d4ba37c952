/** The persisted data model of the prompt library: settings, library items,
    categories and the stored record, with the object-spread overlays the
    storage layer applies to settings. */
module StorageTypes {

  datatype Option<T> = None | Some(value: T)

  datatype Theme = System | Light | Dark
  datatype Language = Zh | En

  /** `'blue'` marks a drawing category, `'purple'` an LLM category. */
  datatype ColorType = Blue | Purple

  /** A complete settings record. */
  datatype Settings = Settings(
    apiKey: string,
    apiBaseUrl: string,
    model: string,
    theme: Theme,
    language: Language,
    translatePrompt: string,
    polishPrompt: string,
    customPrompt: string,
    customLabel: string)

  /** A settings object in which any field may be absent: the argument of
      saveSettings, and what a stored or imported record may hold. */
  datatype PartialSettings = PartialSettings(
    apiKey: Option<string>,
    apiBaseUrl: Option<string>,
    model: Option<string>,
    theme: Option<Theme>,
    language: Option<Language>,
    translatePrompt: Option<string>,
    polishPrompt: Option<string>,
    customPrompt: Option<string>,
    customLabel: Option<string>)

  datatype LibraryItem = LibraryItem(labelText: string, content: string, preview: Option<string>)

  datatype LibraryCategory = LibraryCategory(category: string, colorType: ColorType, items: seq<LibraryItem>)

  type Library = seq<LibraryCategory>

  /** The record kept under the storage key. Its settings may lack fields and
      its library may be absent: nothing validates what importData stores. */
  datatype AppData = AppData(settings: PartialSettings, library: Option<Library>)

  /** The default catalog shipped with a release: defaultSettings and defaultLibrary. */
  datatype Catalog = Catalog(settings: Settings, library: Library)

  /** The revision of the default library this release ships. */
  const CURRENT_LIBRARY_VERSION: int := 4

  const EmptySettings := PartialSettings(None, None, None, None, None, None, None, None, None)

  function Pick<T>(top: Option<T>, base: Option<T>): Option<T> {
    if top.Some? then top else base
  }

  function PickOr<T>(top: Option<T>, base: T): T {
    if top.Some? then top.value else base
  }

  /** `{ ...base, ...top }` on two partial records: a field present in top wins. */
  function Overlay(base: PartialSettings, top: PartialSettings): PartialSettings {
    PartialSettings(
      Pick(top.apiKey, base.apiKey),
      Pick(top.apiBaseUrl, base.apiBaseUrl),
      Pick(top.model, base.model),
      Pick(top.theme, base.theme),
      Pick(top.language, base.language),
      Pick(top.translatePrompt, base.translatePrompt),
      Pick(top.polishPrompt, base.polishPrompt),
      Pick(top.customPrompt, base.customPrompt),
      Pick(top.customLabel, base.customLabel))
  }

  /** A complete record seen as a partial one with every field present. */
  function Full(s: Settings): PartialSettings {
    PartialSettings(
      Some(s.apiKey), Some(s.apiBaseUrl), Some(s.model), Some(s.theme), Some(s.language),
      Some(s.translatePrompt), Some(s.polishPrompt), Some(s.customPrompt), Some(s.customLabel))
  }

  /** `{ ...base, ...top }` with a complete base: the result is complete. */
  function Spread(base: Settings, top: PartialSettings): Settings {
    Settings(
      PickOr(top.apiKey, base.apiKey),
      PickOr(top.apiBaseUrl, base.apiBaseUrl),
      PickOr(top.model, base.model),
      PickOr(top.theme, base.theme),
      PickOr(top.language, base.language),
      PickOr(top.translatePrompt, base.translatePrompt),
      PickOr(top.polishPrompt, base.polishPrompt),
      PickOr(top.customPrompt, base.customPrompt),
      PickOr(top.customLabel, base.customLabel))
  }

  /** A stored record that has every field comes back verbatim. */
  lemma SpreadFull(base: Settings, s: Settings)
    ensures Spread(base, Full(s)) == s
  {
  }

  /** A stored record with no fields gives the base (the defaults) back. */
  lemma SpreadEmpty(base: Settings)
    ensures Spread(base, EmptySettings) == base
  {
  }

  /** Overlaying partials first and then filling in from the base is the
      same as filling in first and overlaying afterwards. */
  lemma SpreadOverlay(base: Settings, p: PartialSettings, q: PartialSettings)
    ensures Spread(base, Overlay(p, q)) == Spread(Spread(base, p), q)
  {
  }

  /** A partial overlaid on a complete record stays complete. */
  lemma FullSpread(base: Settings, p: PartialSettings)
    ensures Full(Spread(base, p)) == Overlay(Full(base), p)
  {
  }

  /** `{ settings: defaultSettings, library: defaultLibrary }`. */
  function DefaultData(c: Catalog): AppData {
    AppData(Full(c.settings), Some(c.library))
  }
}
