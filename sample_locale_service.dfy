/**
 * `Sample.LocaleService`: the concrete older service of the sample, which knows the
 * column titles "ru_ru" and "en_us" and supports exactly Russian and English.
 */
module SampleLocaleService {
  import opened Wrappers
  import opened Languages
  import Csv
  import BaseLocaleService

  /** `IsLanguageSupported`. */
  predicate IsLanguageSupported(lang: Language)
  {
    lang == Russian || lang == English
  }

  /** `KeyToLanguage`: `None` where it throws `NotSupportedException`. */
  function KeyToLanguage(key: string): Option<Language>
  {
    if key == "ru_ru" then Some(Russian)
    else if key == "en_us" then Some(English)
    else None
  }

  /** The languages the column titles name are exactly the supported ones. */
  lemma TitlesNameSupported(lang: Language)
    ensures IsLanguageSupported(lang) <==> exists key :: KeyToLanguage(key) == Some(lang)
  {
    if lang == Russian {
      assert KeyToLanguage("ru_ru") == Some(lang);
    } else if lang == English {
      assert KeyToLanguage("en_us") == Some(lang);
    }
  }

  /** A header with any other title makes parsing throw, so `AddLocaleCsv` returns false. */
  lemma UnknownTitleRejected(m: map<Language, BaseLocaleService.Texts>, raw: string, title: string)
    requires raw != "" && |BaseLocaleService.SplitLines(raw)| > 1
    requires |Csv.Separate(BaseLocaleService.SplitLines(raw)[0]).columns| >= 2
    requires title in Csv.Separate(BaseLocaleService.SplitLines(raw)[0]).columns[1..]
    requires title != "ru_ru" && title != "en_us"
    ensures BaseLocaleService.Parsed(m, KeyToLanguage, raw).Err?
  {
    BaseLocaleService.ParsedRejects(m, KeyToLanguage, raw);
  }

  /** Parsing only ever adds tables for supported languages. */
  lemma ParsedSupported(m: map<Language, BaseLocaleService.Texts>, raw: string)
    requires BaseLocaleService.Parsed(m, KeyToLanguage, raw).Ok?
    ensures forall l | l in BaseLocaleService.Parsed(m, KeyToLanguage, raw).value ::
      l in m || IsLanguageSupported(l)
  {
    var lines := BaseLocaleService.SplitLines(raw);
    if raw != "" && |lines| > 1 && |Csv.Separate(lines[0]).columns| >= 2 {
      var titles := Csv.Separate(lines[0]).columns[1..];
      var hs := BaseLocaleService.HeaderLanguages(KeyToLanguage, titles);
      BaseLocaleService.HeaderLanguagesRead(KeyToLanguage, titles);
      BaseLocaleService.ParsedLanguages(m, KeyToLanguage, raw, hs.value);
      forall l | l in hs.value
        ensures IsLanguageSupported(l)
      {
        var k :| 0 <= k < |hs.value| && hs.value[k] == l;
        assert KeyToLanguage(titles[k]) == Some(l);
      }
    }
  }

  /**
   * The restored language is Russian, English or the system language: the candidate (a
   * defined stored code, else the default) is kept when it is Russian or English, and
   * any other candidate gives way to the system language.
   */
  lemma RestoredIsSupportedOrSystem(stored: Option<int>, defaultLanguage: Language,
                                    isDefined: int -> bool, systemLanguage: Language)
    ensures var r := BaseLocaleService.RestoredLanguage(stored, defaultLanguage, isDefined,
                                                        IsLanguageSupported, systemLanguage);
      r == Russian || r == English || r == systemLanguage
    ensures var r := BaseLocaleService.RestoredLanguage(stored, defaultLanguage, isDefined,
                                                        IsLanguageSupported, systemLanguage);
      var lang := if stored.Some? && isDefined(stored.value) then stored.value else defaultLanguage;
      (lang == Russian || lang == English ==> r == lang) &&
      (lang != Russian && lang != English ==> r == systemLanguage)
  {
  }

  /** The sample service: the base service with the sample's two maps. */
  method NewLocaleService(isDefined: int -> bool, systemLanguage: Language, stored: Option<int>)
    returns (s: BaseLocaleService.LocaleServiceBase)
    ensures fresh(s) && s.Valid()
    ensures s.keyToLanguage == KeyToLanguage && s.isSupported == IsLanguageSupported
    ensures s.isDefined == isDefined && s.systemLanguage == systemLanguage && s.stored == stored
    ensures s.currentLanguage == systemLanguage && !s.isReady && !s.isInitialized
    ensures s.localesMap == map[]
  {
    s := new BaseLocaleService.LocaleServiceBase(KeyToLanguage, IsLanguageSupported, isDefined,
                                                 systemLanguage, stored);
  }
}
