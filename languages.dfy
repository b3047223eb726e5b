/**
 * Types shared by both generations of the library: languages, format arguments and the
 * formatting function, which is supplied from outside.
 */
module Languages {
  import opened Wrappers

  /**
   * A value of `UnityEngine.SystemLanguage`, by its integer code. The persisted language
   * is stored as that code, and `(SystemLanguage)i` is the identity on codes.
   */
  type Language = int

  const Chinese: Language := 6
  const English: Language := 10
  const French: Language := 14
  const German: Language := 15
  const Russian: Language := 30
  const Unknown: Language := 42

  /** A boxed format argument, represented by its text. */
  datatype Arg = Arg(text: string)

  /** `string.Format(template, args)`: supplied by the caller and not interpreted here. */
  type Formatter = (string, seq<Arg>) -> string

  /**
   * `GetLocalized(key, language)` of the manager or service as it stands when it is
   * called: its answer changes as sources are merged or the service becomes ready, so
   * each call that recomputes a string receives it anew.
   */
  type Localizer = (string, Language) -> string

  /** The `FormatArgs` getter is `_formatArgs.ToArray()`, which throws on a null array. */
  datatype ArgsError = ArgumentNull

  /**
   * The text a localised string shows: the lookup of `key` in `language`, passed through
   * `string.Format` only when format arguments are set. Both generations compute it so.
   */
  function Computed(localize: Localizer, format: Formatter, key: string,
                    args: Option<seq<Arg>>, language: Language): string
  {
    var text := localize(key, language);
    if args.Some? then format(text, args.value) else text
  }
}
