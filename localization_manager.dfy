/**
 * `LocalizationManagerBase`: the current language (restored lazily from a persisted
 * integer), lookups in a map from language to `LocaleEntry` that is built lazily from
 * the provider's list, and `ReplaceWithProvider`, which clears and merges that map.
 *
 * PlayerPrefs is the field `stored` (the value under "localization_lang_persist"),
 * `Enum.IsDefined` the parameter `isDefined`, and `CurrentLanguageChangedEvent` the log
 * `languageChanged` of the languages it was raised with.
 */
module LocalizationManager {
  import opened Wrappers
  import opened Languages
  import opened LocaleEntries
  import opened RawString
  import CsvProvider

  // ---------------------------------------------------------------------------
  // Values
  // ---------------------------------------------------------------------------

  /**
   * `GetLocalized(key, language)` on the texts of each language: a language with no
   * entry gives the key itself; otherwise the entry's `GetValue` (which falls back to the
   * key) has its escape tokens expanded.
   */
  function Localized(tables: map<Language, map<string, string>>, key: string, language: Language): string
  {
    if language !in tables then key
    else
      var value := Lookup(tables[language], key);
      if value == "" then key else ProcessRawString(value)
  }

  lemma LocalizedNoEntry(tables: map<Language, map<string, string>>, key: string, language: Language)
    requires language !in tables
    ensures Localized(tables, key, language) == key
  {
  }

  /**
   * A key with no text in an existing table gives the key back with its escape tokens
   * expanded: the key itself when it holds no backslash.
   */
  lemma LocalizedMissingText(tables: map<Language, map<string, string>>, key: string, language: Language)
    requires language in tables
    requires key !in tables[language] || tables[language][key] == ""
    ensures Localized(tables, key, language) == ProcessRawString(key)
    ensures Backslash !in key ==> Localized(tables, key, language) == key
  {
  }

  /** A stored text is shown with each `\n` and `\r\n` token turned into a line break. */
  lemma LocalizedStoredText(tables: map<Language, map<string, string>>, key: string, language: Language,
                            pieces: seq<Piece>)
    requires language in tables && key in tables[language]
    requires tables[language][key] == Authored(pieces) != ""
    requires forall p | p in pieces :: PlainText(p)
    ensures Localized(tables, key, language) == Displayed(pieces)
  {
    ExpandsTokens(pieces);
  }

  /**
   * The lazily built map: the provider's entries grouped by language, keeping the first
   * entry of each language (a later duplicate is only reported).
   */
  function BuildMap(es: seq<LocaleEntry>): (m: map<Language, LocaleEntry>)
    ensures forall l :: l in m <==> exists k | 0 <= k < |es| :: es[k].language == l
    ensures forall l | l in m :: m[l].language == l
    ensures forall l | l in m :: exists k | 0 <= k < |es| :: (m[l] == es[k] &&
      forall j | 0 <= j < k :: es[j].language != l)
  {
    if es == [] then map[]
    else
      var rest := BuildMap(es[1..]);
      assert forall l | l in rest :: exists k | 1 <= k < |es| :: (rest[l] == es[k] &&
        forall j | 1 <= j < k :: es[j].language != l);
      rest[es[0].language := es[0]]
  }

  /** The languages of the entries `es`. */
  function LanguagesOf(es: seq<LocaleEntry>): (ls: set<Language>)
    ensures forall l :: l in ls <==> exists k | 0 <= k < |es| :: es[k].language == l
  {
    if es == [] then {}
    else
      var init := es[..|es| - 1];
      assert forall k | 0 <= k < |init| :: init[k] == es[k];
      LanguagesOf(init) + {es[|es| - 1].language}
  }

  lemma LanguagesOfSnoc(es: seq<LocaleEntry>, i: nat)
    requires i < |es|
    ensures LanguagesOf(es[..i + 1]) == LanguagesOf(es[..i]) + {es[i].language}
  {
    assert es[..i + 1][..i] == es[..i];
  }

  /** The walk's result, as texts: the `MergeTables` of the two maps. */
  lemma WalkComplete(m: map<Language, LocaleEntry>, mineTexts: map<Language, map<string, string>>,
                     theirsTexts: map<Language, map<string, string>>)
    requires forall l :: l in m <==> l in mineTexts || l in theirsTexts
    requires forall l | l in m :: m[l].texts == Manager.Expected(mineTexts, theirsTexts, theirsTexts.Keys, l)
    ensures TextsOf(m) == MergeTables(mineTexts, theirsTexts)
  {
    var a, b := TextsOf(m), MergeTables(mineTexts, theirsTexts);
    forall l
      ensures l in a <==> l in b
    {
    }
    assert a.Keys == b.Keys;
    forall l | l in a
      ensures a[l] == b[l]
    {
      assert a[l] == m[l].texts == Manager.Expected(mineTexts, theirsTexts, theirsTexts.Keys, l);
    }
  }

  /** The walk's result, as entry objects: the `MergeEntries` of the two maps. */
  lemma WalkEntries(m: map<Language, LocaleEntry>, mine: map<Language, LocaleEntry>,
                    theirs: map<Language, LocaleEntry>)
    requires forall l :: l in m <==> l in mine || l in theirs
    requires forall l | l in m :: m[l] == if l in mine then mine[l] else theirs[l]
    ensures m == MergeEntries(mine, theirs)
  {
    var b := MergeEntries(mine, theirs);
    forall l
      ensures l in m <==> l in b
    {
    }
    assert m.Keys == b.Keys;
    forall l | l in m
      ensures m[l] == b[l]
    {
    }
  }

  /** The map's languages are the list's languages. */
  lemma BuildMapLanguages(es: seq<LocaleEntry>)
    ensures BuildMap(es).Keys == LanguagesOf(es)
  {
  }

  /** `BuildMapFirst`, with the earlier languages given as a set. */
  lemma BuildMapAt(es: seq<LocaleEntry>, i: nat)
    requires i < |es| && es[i].language !in LanguagesOf(es[..i])
    ensures es[i].language in BuildMap(es) && BuildMap(es)[es[i].language] == es[i]
  {
    assert forall j | 0 <= j < i :: es[..i][j] == es[j];
    BuildMapFirst(es, i);
  }

  /** The entry the map keeps for a language is the first of that language in the list. */
  lemma BuildMapFirst(es: seq<LocaleEntry>, i: nat)
    requires i < |es| && forall j | 0 <= j < i :: es[j].language != es[i].language
    ensures es[i].language in BuildMap(es) && BuildMap(es)[es[i].language] == es[i]
  {
    var m := BuildMap(es);
    var l := es[i].language;
    var k :| 0 <= k < |es| && m[l] == es[k] && forall j | 0 <= j < k :: es[j].language != l;
    assert es[k].language == l;
  }

  /** `GetValue` applied to every key of `texts`: an empty text becomes its key. */
  function Merged(texts: map<string, string>, keys: set<string>): map<string, string>
  {
    map k | k in keys :: Lookup(texts, k)
  }

  /** `Merged` built one key at a time, in the order `keys` lists them. */
  function MergedInOrder(texts: map<string, string>, keys: seq<string>): (r: map<string, string>)
    ensures forall k :: k in r <==> k in keys
  {
    if keys == [] then map[]
    else
      var last := keys[|keys| - 1];
      assert forall k | k in keys[..|keys| - 1] :: k in keys;
      MergedInOrder(texts, keys[..|keys| - 1])[last := Lookup(texts, last)]
  }

  lemma {:induction false} MergedInOrderIsMerged(texts: map<string, string>, keys: seq<string>)
    ensures MergedInOrder(texts, keys) == Merged(texts, set k | k in keys)
  {
    if keys != [] {
      var init := keys[..|keys| - 1];
      MergedInOrderIsMerged(texts, init);
      assert (set k | k in keys) == (set k | k in init) + {keys[|keys| - 1]} by {
        assert keys == init + [keys[|keys| - 1]];
      }
    }
  }

  lemma UpdateUnion(a: map<string, string>, b: map<string, string>, k: string, v: string)
    ensures (a + b)[k := v] == a + b[k := v]
  {
  }

  /**
   * The map after `ReplaceWithProvider`, as texts: languages only the manager has are
   * kept, languages only the provider has are taken over, and for a language both have,
   * every provider key is overwritten with the provider's `GetValue` while the keys the
   * provider lacks are kept.
   */
  function MergeTables(mine: map<Language, map<string, string>>, theirs: map<Language, map<string, string>>)
    : map<Language, map<string, string>>
  {
    map l | l in mine.Keys + theirs.Keys ::
      if l in mine && l in theirs then mine[l] + Merged(theirs[l], theirs[l].Keys)
      else if l in mine then mine[l]
      else theirs[l]
  }

  lemma MergeKeepsOwnKeys(mine: map<Language, map<string, string>>, theirs: map<Language, map<string, string>>,
                          l: Language, key: string)
    requires l in mine && key in mine[l]
    requires l !in theirs || key !in theirs[l]
    ensures l in MergeTables(mine, theirs) && key in MergeTables(mine, theirs)[l]
    ensures MergeTables(mine, theirs)[l][key] == mine[l][key]
  {
  }

  lemma MergeOverwrites(mine: map<Language, map<string, string>>, theirs: map<Language, map<string, string>>,
                        l: Language, key: string)
    requires l in theirs && key in theirs[l]
    ensures l in MergeTables(mine, theirs) && key in MergeTables(mine, theirs)[l]
    ensures MergeTables(mine, theirs)[l][key] ==
      (if l in mine || theirs[l][key] != "" then Lookup(theirs[l], key) else theirs[l][key])
    ensures l in mine && theirs[l][key] == "" ==> MergeTables(mine, theirs)[l][key] == key
  {
  }

  /** After a merge, a lookup in any language the provider has sees the provider's text. */
  lemma MergeLookup(mine: map<Language, map<string, string>>, theirs: map<Language, map<string, string>>,
                    l: Language, key: string)
    requires l in theirs && key in theirs[l] && theirs[l][key] != ""
    ensures Localized(MergeTables(mine, theirs), key, l) == Localized(theirs, key, l)
  {
  }

  /**
   * The map after `ReplaceWithProvider`, as entry objects: a language the manager has
   * keeps its entry, any other language gets the provider's entry.
   */
  function MergeEntries(mine: map<Language, LocaleEntry>, theirs: map<Language, LocaleEntry>)
    : map<Language, LocaleEntry>
  {
    map l | l in mine.Keys + theirs.Keys :: if l in mine then mine[l] else theirs[l]
  }

  /** Merging no provider changes nothing. */
  lemma MergeNothing(mine: map<Language, map<string, string>>)
    ensures MergeTables(mine, map[]) == mine
  {
  }

  /** A fresh map (clear) holds exactly the provider's languages, with their texts. */
  lemma MergeIntoEmpty(theirs: map<Language, map<string, string>>)
    ensures MergeTables(map[], theirs) == theirs
  {
  }

  /**
   * `RestoreServiceState` on the stored value: a stored code that is a defined language
   * wins, otherwise the default. (An undefined stored code makes the source re-enter
   * itself; callers exclude it.)
   */
  function Restored(stored: Option<int>, defaultLanguage: Language, isDefined: int -> bool): Language
    requires stored.None? || isDefined(stored.value)
  {
    if stored.Some? then stored.value else defaultLanguage
  }

  lemma RestoredChoice(stored: Option<int>, defaultLanguage: Language, isDefined: int -> bool)
    requires stored.None? || isDefined(stored.value)
    ensures stored.Some? ==> Restored(stored, defaultLanguage, isDefined) == stored.value
    ensures stored.None? ==> Restored(stored, defaultLanguage, isDefined) == defaultLanguage
  {
  }

  /** The texts held by the entries of `m`. */
  ghost function TextsOf(m: map<Language, LocaleEntry>): map<Language, map<string, string>>
    reads m.Values
  {
    map l | l in m :: m[l].texts
  }

  /** The entries `es` set aside for `foreach`: none of them is in an enumeration. */
  ghost predicate NotEnumerating(es: seq<LocaleEntry>)
    reads es
  {
    forall k | 0 <= k < |es| :: es[k].queue.None?
  }

  // ---------------------------------------------------------------------------
  // The manager
  // ---------------------------------------------------------------------------

  class Manager {
    const provider: CsvProvider.CsvLocalizationProvider
    const defaultLanguage: Language
    /** `Enum.IsDefined(typeof(SystemLanguage), i)`. */
    const isDefined: int -> bool
    /** `_localesMap.IsValueCreated`. */
    var built: bool
    /** `_localesMap.Value`, once created. */
    var localesMap: map<Language, LocaleEntry>
    /** `_currentLanguage`: `None` until first resolved. */
    var currentLanguage: Option<Language>
    /** PlayerPrefs under "localization_lang_persist". */
    var stored: Option<int>
    /** The languages `CurrentLanguageChangedEvent` was raised with, in order. */
    var languageChanged: seq<Language>

    constructor (provider: CsvProvider.CsvLocalizationProvider, defaultLanguage: Language,
                 isDefined: int -> bool, stored: Option<int>)
      ensures this.provider == provider && this.defaultLanguage == defaultLanguage
      ensures this.isDefined == isDefined && this.stored == stored
      ensures Valid() && !built && currentLanguage == None && languageChanged == []
    {
      this.provider := provider;
      this.defaultLanguage := defaultLanguage;
      this.isDefined := isDefined;
      this.stored := stored;
      built := false;
      localesMap := map[];
      currentLanguage := None;
      languageChanged := [];
    }

    ghost predicate Valid()
      reads this, localesMap.Values
    {
      (!built ==> localesMap == map[]) &&
      forall l | l in localesMap :: localesMap[l].language == l
    }

    /**
     * The lazy map can be used: it was built already, or the provider is initialised
     * (the `Locales` getter asserts it) and its list is not null.
     */
    predicate Ready()
      reads this, provider
    {
      built || (provider.isInited && provider.hasLocales)
    }

    /** The map `_localesMap.Value` yields, built now when it was not yet. */
    function Table(): (m: map<Language, LocaleEntry>)
      requires Ready()
      reads this, provider
      ensures forall l | l in m :: m[l].language == l || (built && l in localesMap && m[l] == localesMap[l])
    {
      if built then localesMap else BuildMap(provider.locales)
    }

    /** Resolving `CurrentLanguage` terminates: nothing is stored, or the stored code is defined. */
    predicate CanResolve()
      reads this
    {
      currentLanguage.Some? || stored.None? || isDefined(stored.value)
    }

    /** The language `CurrentLanguage` yields, resolving it now when it was not yet. */
    function Resolved(): Language
      requires CanResolve()
      reads this
    {
      if currentLanguage.Some? then currentLanguage.value else Restored(stored, defaultLanguage, isDefined)
    }

    /** Forces `_localesMap`. */
    method EnsureMap()
      requires Valid() && Ready()
      modifies this`built, this`localesMap
      ensures Valid() && built && localesMap == old(Table())
    {
      if !built {
        localesMap := BuildMap(provider.locales);
        built := true;
      }
    }

    /** `RestoreServiceState(defaultLanguage)` on the branch that terminates. */
    function RestoreServiceState(defaultLanguage: Language): (l: Language)
      requires stored.None? || isDefined(stored.value)
      reads this
      ensures stored.Some? ==> l == stored.value
      ensures stored.None? ==> l == defaultLanguage
    {
      RestoredChoice(stored, defaultLanguage, isDefined);
      Restored(stored, defaultLanguage, isDefined)
    }

    /** The `CurrentLanguage` getter: `_currentLanguage ??= RestoreServiceState(_defaultLanguage)`. */
    method GetCurrentLanguage() returns (l: Language)
      requires CanResolve()
      modifies this`currentLanguage
      ensures l == old(Resolved()) && currentLanguage == Some(l)
      ensures old(currentLanguage).Some? ==> currentLanguage == old(currentLanguage)
    {
      if currentLanguage.None? {
        currentLanguage := Some(RestoreServiceState(defaultLanguage));
      }
      l := currentLanguage.value;
    }

    /** The protected `CurrentLanguage` setter: an equal value changes nothing. */
    method SetCurrentLanguageValue(value: Language)
      modifies this`currentLanguage, this`languageChanged
      ensures currentLanguage == Some(value)
      ensures languageChanged ==
        old(languageChanged) + (if old(currentLanguage) == Some(value) then [] else [value])
    {
      if currentLanguage == Some(value) {
        return;
      }
      currentLanguage := Some(value);
      languageChanged := languageChanged + [value];
    }

    /**
     * `SetCurrentLanguage`: a language equal to the resolved current one changes nothing
     * (beyond resolving it); another one is set, announced once and persisted.
     */
    method SetCurrentLanguage(lang: Language)
      requires CanResolve()
      modifies this`currentLanguage, this`languageChanged, this`stored
      ensures currentLanguage == Some(lang)
      ensures old(Resolved()) == lang ==> stored == old(stored) && languageChanged == old(languageChanged)
      ensures old(Resolved()) != lang ==>
        stored == Some(lang) && languageChanged == old(languageChanged) + [lang]
    {
      var current := GetCurrentLanguage();
      if lang == current {
        return;
      }
      SetCurrentLanguageValue(lang);
      var persisted := GetCurrentLanguage();
      stored := Some(persisted);
    }

    /** `GetLocalized(key, language)`, forcing the lazy map. */
    method GetLocalized(key: string, language: Language) returns (r: string)
      requires Valid() && Ready()
      modifies this`built, this`localesMap
      ensures Valid() && built && localesMap == old(Table())
      ensures r == Localized(TextsOf(localesMap), key, language)
    {
      EnsureMap();
      if language !in localesMap {
        return key;
      }
      var value := localesMap[language].GetValue(key);
      r := if value == "" then key else ProcessRawString(value);
    }

    /** `GetLocalized(key)`: the lookup in the current language. */
    method GetLocalizedCurrent(key: string) returns (r: string)
      requires Valid() && Ready() && CanResolve()
      modifies this`built, this`localesMap, this`currentLanguage
      ensures Valid() && built && localesMap == old(Table())
      ensures currentLanguage == Some(old(Resolved()))
      ensures r == Localized(TextsOf(localesMap), key, old(Resolved()))
    {
      var language := GetCurrentLanguage();
      r := GetLocalized(key, language);
    }

    /**
     * The inner `foreach (var key in entry) oldEntry.SetValue(key, entry.GetValue(key))`.
     * The source entry may be the target itself.
     */
    static method MergeEntry(target: LocaleEntry, source: LocaleEntry)
      requires source.queue.None?
      modifies target`texts, source`queue
      ensures target.texts == old(target.texts) + Merged(old(source.texts), old(source.texts).Keys)
      ensures source.queue.None?
      ensures source != target ==> source.texts == old(source.texts)
    {
      ghost var original := source.texts;
      var keys, ok := source.Keys();
      for j := 0 to |keys|
        invariant target.texts == old(target.texts) + MergedInOrder(original, keys[..j])
        invariant source.texts == if source == target then target.texts else original
        invariant source.queue.None?
      {
        var key := keys[j];
        assert key !in keys[..j];
        ghost var done := MergedInOrder(original, keys[..j]);
        CopyKey(target, source, key, original, old(target.texts), done);
        assert keys[..j + 1][..j] == keys[..j] && keys[..j + 1][j] == key;
        assert MergedInOrder(original, keys[..j + 1]) == done[key := Lookup(original, key)];
      }
      assert keys[..|keys|] == keys;
      MergedInOrderIsMerged(original, keys);
      ListingElements(keys, original.Keys);
    }

    /**
     * One step of `MergeEntry`: `oldEntry.SetValue(key, entry.GetValue(key))` for a key
     * not merged yet, so that the lookup sees the source's original text even when the
     * source is the target.
     */
    static method CopyKey(target: LocaleEntry, source: LocaleEntry, key: string,
                          ghost original: map<string, string>, ghost base: map<string, string>,
                          ghost done: map<string, string>)
      requires target.texts == base + done && key !in done
      requires source.texts == if source == target then target.texts else original
      requires source == target ==> base == original
      modifies target`texts
      ensures target.texts == base + done[key := Lookup(original, key)]
      ensures source.texts == if source == target then target.texts else original
    {
      var value := source.GetValue(key);
      assert value == Lookup(original, key);
      target.SetValue(key, value);
      UpdateUnion(base, done, key, value);
    }

    /** The provider's entries, which `ReplaceWithProvider` enumerates. */
    static function EntriesOf(p: CsvProvider.CsvLocalizationProvider?): set<LocaleEntry>
      reads p
    {
      if p == null then {} else set e | e in p.locales
    }

    /**
     * The walk of `ReplaceWithProvider` after the languages `seen`: the map holds the
     * languages it started with (`mine`) and those seen, each seen language merged or
     * added, and the provider's entries not yet reached untouched.
     */
    ghost predicate Walk(mine: map<Language, LocaleEntry>, mineTexts: map<Language, map<string, string>>,
                         theirs: map<Language, LocaleEntry>, theirsTexts: map<Language, map<string, string>>,
                         seen: set<Language>)
      reads this, localesMap.Values, theirs.Values
    {
      Valid() && built &&
      (forall l | l in theirs :: theirs[l].language == l) &&
      mineTexts.Keys == mine.Keys && theirsTexts.Keys == theirs.Keys && seen <= theirs.Keys &&
      (forall l :: l in localesMap <==> l in mine || l in seen) &&
      (forall l | l in localesMap :: localesMap[l] == if l in mine then mine[l] else theirs[l]) &&
      (forall l | l in localesMap :: localesMap[l].texts == Expected(mineTexts, theirsTexts, seen, l)) &&
      (forall l | l in theirs && l !in seen :: theirs[l].texts == theirsTexts[l] && theirs[l].queue.None?)
    }

    /** The texts of language `l` once the languages `seen` have been walked. */
    static ghost function Expected(mineTexts: map<Language, map<string, string>>,
                                   theirsTexts: map<Language, map<string, string>>,
                                   seen: set<Language>, l: Language): map<string, string>
    {
      if l in mineTexts && l in seen && l in theirsTexts then
        mineTexts[l] + Merged(theirsTexts[l], theirsTexts[l].Keys)
      else if l in mineTexts then mineTexts[l]
      else if l in theirsTexts then theirsTexts[l]
      else map[]
    }

    /** The map's entry for the language of `entry`, as a set: empty when there is none. */
    function Slot(entry: LocaleEntry): set<LocaleEntry>
      reads this
    {
      if entry.language in localesMap then {localesMap[entry.language]} else {}
    }

    /** The walk reaches a language the map has: the provider's entry is merged into it. */
    method AbsorbInto(entry: LocaleEntry, ghost es: seq<LocaleEntry>, ghost mine: map<Language, LocaleEntry>,
                      ghost mineTexts: map<Language, map<string, string>>,
                      ghost theirs: map<Language, LocaleEntry>,
                      ghost theirsTexts: map<Language, map<string, string>>, ghost seen: set<Language>)
      requires Walk(mine, mineTexts, theirs, theirsTexts, seen) && NotEnumerating(es)
      requires entry.language in theirs && theirs[entry.language] == entry && entry.language !in seen
      requires entry.language in localesMap
      modifies Slot(entry)`texts, entry`queue
      ensures Walk(mine, mineTexts, theirs, theirsTexts, seen + {entry.language})
      ensures entry.queue.None? && NotEnumerating(es)
    {
      var l0 := entry.language;
      var target := localesMap[l0];
      assert l0 in mine && target == mine[l0] && target.texts == mineTexts[l0];
      assert entry.texts == theirsTexts[l0];
      MergeEntry(target, entry);
      forall l | l in localesMap
        ensures localesMap[l].texts == Expected(mineTexts, theirsTexts, seen + {l0}, l)
      {
        if l != l0 {
          assert localesMap[l].language == l && localesMap[l] != target;
        }
      }
      forall l | l in theirs && l !in seen + {l0}
        ensures theirs[l].texts == theirsTexts[l] && theirs[l].queue.None?
      {
        assert theirs[l].language == l && theirs[l] != target;
      }
    }

    /** The walk reaches a language the map lacks: the provider's entry is added. */
    method AbsorbNew(entry: LocaleEntry, ghost es: seq<LocaleEntry>, ghost mine: map<Language, LocaleEntry>,
                     ghost mineTexts: map<Language, map<string, string>>,
                     ghost theirs: map<Language, LocaleEntry>,
                     ghost theirsTexts: map<Language, map<string, string>>, ghost seen: set<Language>)
      requires Walk(mine, mineTexts, theirs, theirsTexts, seen) && NotEnumerating(es)
      requires entry.language in theirs && theirs[entry.language] == entry && entry.language !in seen
      requires entry.language !in localesMap
      modifies this`localesMap
      ensures Walk(mine, mineTexts, theirs, theirsTexts, seen + {entry.language})
      ensures entry.queue.None? && NotEnumerating(es)
    {
      var l := entry.language;
      localesMap := localesMap[l := entry];
      assert localesMap[l].texts == theirsTexts[l] == Expected(mineTexts, theirsTexts, seen + {l}, l);
      assert forall m | m != l :: (Expected(mineTexts, theirsTexts, seen + {l}, m) ==
        Expected(mineTexts, theirsTexts, seen, m));
    }

    /** One step of the walk: the first provider entry of a language is merged or added. */
    method Absorb(entry: LocaleEntry, ghost es: seq<LocaleEntry>, ghost mine: map<Language, LocaleEntry>,
                  ghost mineTexts: map<Language, map<string, string>>,
                  ghost theirs: map<Language, LocaleEntry>,
                  ghost theirsTexts: map<Language, map<string, string>>, ghost seen: set<Language>)
      requires Walk(mine, mineTexts, theirs, theirsTexts, seen) && NotEnumerating(es)
      requires entry.language in theirs && theirs[entry.language] == entry && entry.language !in seen
      modifies this`localesMap, Slot(entry)`texts, entry`queue
      ensures Walk(mine, mineTexts, theirs, theirsTexts, seen + {entry.language})
      ensures entry.queue.None? && NotEnumerating(es)
    {
      if entry.language in localesMap {
        AbsorbInto(entry, es, mine, mineTexts, theirs, theirsTexts, seen);
      } else {
        AbsorbNew(entry, es, mine, mineTexts, theirs, theirsTexts, seen);
      }
    }

    /** The walk at position `i` of the provider's list: absorbed unless its language was seen. */
    method AbsorbAt(es: seq<LocaleEntry>, i: nat, ghost mine: map<Language, LocaleEntry>,
                    ghost mineTexts: map<Language, map<string, string>>,
                    ghost theirs: map<Language, LocaleEntry>,
                    ghost theirsTexts: map<Language, map<string, string>>, seen: set<Language>)
      returns (seen': set<Language>)
      requires i < |es| && Walk(mine, mineTexts, theirs, theirsTexts, seen)
      requires seen == LanguagesOf(es[..i]) && NotEnumerating(es) && theirs == BuildMap(es)
      modifies this`localesMap, mine.Values`texts, es`queue
      ensures Walk(mine, mineTexts, theirs, theirsTexts, seen') && NotEnumerating(es)
      ensures seen' == LanguagesOf(es[..i + 1])
    {
      var entry := es[i];
      LanguagesOfSnoc(es, i);
      seen' := seen;
      if entry.language !in seen {
        BuildMapAt(es, i);
        assert Slot(entry) <= mine.Values;
        Absorb(entry, es, mine, mineTexts, theirs, theirsTexts, seen);
        seen' := seen + {entry.language};
      }
    }

    /** The walk over all of the provider's entries, each language once, in list order. */
    method AbsorbAll(es: seq<LocaleEntry>, ghost mine: map<Language, LocaleEntry>,
                     ghost mineTexts: map<Language, map<string, string>>,
                     ghost theirs: map<Language, LocaleEntry>,
                     ghost theirsTexts: map<Language, map<string, string>>)
      requires Walk(mine, mineTexts, theirs, theirsTexts, {}) && localesMap == mine
      requires NotEnumerating(es) && theirs == BuildMap(es)
      modifies this`localesMap, localesMap.Values`texts, es`queue
      ensures Walk(mine, mineTexts, theirs, theirsTexts, theirs.Keys) && NotEnumerating(es)
    {
      var seen: set<Language> := {};
      for i := 0 to |es|
        invariant Walk(mine, mineTexts, theirs, theirsTexts, seen)
        invariant seen == LanguagesOf(es[..i])
        invariant NotEnumerating(es)
      {
        seen := AbsorbAt(es, i, mine, mineTexts, theirs, theirsTexts, seen);
      }
      assert es[..|es|] == es;
      BuildMapLanguages(es);
    }

    /**
     * The `foreach` of `ReplaceWithProvider` over the list `es`, on the built map: the
     * first entry of each language is merged into the map's entry, or added.
     */
    method MergeList(es: seq<LocaleEntry>)
      requires Valid() && built && NotEnumerating(es)
      modifies this`localesMap, localesMap.Values`texts, es`queue
      ensures Valid() && built && NotEnumerating(es)
      ensures localesMap == MergeEntries(old(localesMap), BuildMap(es))
      ensures TextsOf(localesMap) == MergeTables(old(TextsOf(localesMap)), old(TextsOf(BuildMap(es))))
      ensures forall e | e in es && e !in old(localesMap.Values) :: e.texts == old(e.texts)
    {
      ghost var mine := localesMap;
      ghost var mineTexts := TextsOf(localesMap);
      ghost var theirs := BuildMap(es);
      ghost var theirsTexts := TextsOf(theirs);
      StartWalk(es, mine, mineTexts, theirs, theirsTexts);
      AbsorbAll(es, mine, mineTexts, theirs, theirsTexts);
      FinishWalk(mine, mineTexts, theirs, theirsTexts);
    }

    /** Before the walk: nothing seen, the map as it was, every provider entry untouched. */
    lemma StartWalk(es: seq<LocaleEntry>, mine: map<Language, LocaleEntry>,
                    mineTexts: map<Language, map<string, string>>,
                    theirs: map<Language, LocaleEntry>, theirsTexts: map<Language, map<string, string>>)
      requires Valid() && built && NotEnumerating(es)
      requires mine == localesMap && mineTexts == TextsOf(localesMap)
      requires theirs == BuildMap(es) && theirsTexts == TextsOf(theirs)
      ensures Walk(mine, mineTexts, theirs, theirsTexts, {})
    {
      forall l | l in theirs
        ensures theirs[l].texts == theirsTexts[l] && theirs[l].queue.None?
      {
        var k :| 0 <= k < |es| && theirs[l] == es[k] && forall j | 0 <= j < k :: es[j].language != l;
      }
      forall l | l in localesMap
        ensures localesMap[l].texts == Expected(mineTexts, theirsTexts, {}, l)
      {
        assert l in mineTexts;
      }
    }

    /** After the walk over every provider language: the merged map. */
    lemma FinishWalk(mine: map<Language, LocaleEntry>, mineTexts: map<Language, map<string, string>>,
                     theirs: map<Language, LocaleEntry>, theirsTexts: map<Language, map<string, string>>)
      requires Walk(mine, mineTexts, theirs, theirsTexts, theirs.Keys)
      ensures Valid() && built
      ensures localesMap == MergeEntries(mine, theirs)
      ensures TextsOf(localesMap) == MergeTables(mineTexts, theirsTexts)
    {
      WalkComplete(localesMap, mineTexts, theirsTexts);
      WalkEntries(localesMap, mine, theirs);
    }

    /** The first half of `ReplaceWithProvider`: the map is forced, then emptied when `clear`. */
    method Prepare(clear: bool)
      requires Valid() && Ready()
      modifies this`built, this`localesMap
      ensures Valid() && built
      ensures localesMap == if clear then map[] else old(Table())
      ensures TextsOf(localesMap) == if clear then map[] else old(TextsOf(Table()))
    {
      EnsureMap();
      if clear {
        localesMap := map[];
      }
    }

    /** `ReplaceWithProvider` with a non-null provider whose list is `es`. */
    method ReplaceWithList(es: seq<LocaleEntry>, clear: bool)
      requires Valid() && Ready() && NotEnumerating(es)
      modifies this`built, this`localesMap, Table().Values`texts, es`queue
      ensures Valid() && built && NotEnumerating(es)
      ensures localesMap == MergeEntries(if clear then map[] else old(Table()), BuildMap(es))
      ensures TextsOf(localesMap) == MergeTables(if clear then map[] else old(TextsOf(Table())),
                                                 old(TextsOf(BuildMap(es))))
      ensures forall e | e in es && (clear || e !in old(Table().Values)) :: e.texts == old(e.texts)
      ensures clear ==> forall e | e in old(Table().Values) :: e.texts == old(e.texts)
    {
      ghost var theirs := BuildMap(es);
      ghost var theirsTexts := TextsOf(theirs);
      ghost var before := Table();
      ghost var beforeTexts := TextsOf(before);
      Prepare(clear);
      assert TextsOf(theirs) == theirsTexts;
      ghost var mid := localesMap;
      assert mid == (if clear then map[] else before) && TextsOf(mid) == (if clear then map[] else beforeTexts);
      MergeList(es);
      assert BuildMap(es) == theirs;
    }

    /**
     * `ReplaceWithProvider(provider, clear)`: forces the map, empties it when `clear`,
     * and stops there when the provider is null. Otherwise it walks the provider's
     * entries keeping the first of each language: an entry whose language the map has is
     * merged key by key into the map's entry, any other entry object is added as it is.
     */
    method ReplaceWithProvider(p: CsvProvider.CsvLocalizationProvider?, clear: bool)
      requires Valid() && Ready()
      requires p != null ==> p.isInited && p.hasLocales && NotEnumerating(p.locales)
      modifies this`built, this`localesMap, Table().Values`texts, EntriesOf(p)`queue
      ensures Valid() && built
      ensures localesMap == MergeEntries(if clear then map[] else old(Table()),
                                         if p == null then map[] else old(BuildMap(p.locales)))
      ensures TextsOf(localesMap) == MergeTables(
        if clear then map[] else old(TextsOf(Table())),
        if p == null then map[] else old(TextsOf(BuildMap(p.locales))))
      ensures p != null ==> NotEnumerating(old(p.locales))
      ensures forall e | e in old(EntriesOf(p)) && (clear || e !in old(Table().Values)) ::
        e.texts == old(e.texts)
      ensures clear ==> forall e | e in old(Table().Values) :: e.texts == old(e.texts)
    {
      if p == null {
        Prepare(clear);
        MergeNothing(TextsOf(localesMap));
        assert localesMap == MergeEntries(localesMap, map[]);
        return;
      }
      assert forall e | e in p.locales :: e in EntriesOf(p);
      ReplaceWithList(p.locales, clear);
    }
  }
}
