/**
 * `Base.LocaleService.LocalString`: the reactive string of the older service. Unlike the
 * newer one it computes nothing when it is created (its value stays empty until the
 * first change), its `TextChangedEvent` carries the value that was replaced, and
 * disposing it only unsubscribes.
 *
 * The service is seen through `ILocaleService`: each member that recomputes the value
 * receives the service's `GetLocalized(key, language)` as it stands at that call (the
 * function `localize`, which gives the key itself until the service is ready) and its
 * `CurrentLanguage`.
 * `TextChangedEvent` is the flag `listening` and the log `replaced` of the old values
 * it was raised with.
 */
module LocaleServiceStrings {
  import opened Wrappers
  import opened Languages

  class LocalString {
    /** `string.Format`. */
    const format: Formatter
    /** `_value`. */
    var value: string
    /** `_key`. */
    var key: string
    /** `_formatArgs`: `None` for a null array. */
    var formatArgs: Option<seq<Arg>>
    /** `_isDisposed`. */
    var isDisposed: bool
    /** `OnUpdateValue` is subscribed to the service's `CurrentLanguageChangedEvent`. */
    var subscribed: bool
    /** `TextChangedEvent != null`. */
    var listening: bool
    /** The old values `TextChangedEvent` was raised with, in order. */
    var replaced: seq<string>

    /** Stores the key and the arguments and subscribes; the value stays empty. */
    constructor (format: Formatter, key: string, formatArgs: Option<seq<Arg>>)
      ensures this.format == format
      ensures this.key == key && this.formatArgs == formatArgs
      ensures value == ""
      ensures !isDisposed && subscribed && !listening && replaced == []
    {
      this.format := format;
      this.key := key;
      this.formatArgs := formatArgs;
      value := "";
      isDisposed := false;
      subscribed := true;
      listening := false;
      replaced := [];
    }

    /** `TextChangedEvent += handler`. */
    method Listen()
      modifies this`listening
      ensures listening
    {
      listening := true;
    }

    /** The `Value` setter: a different value is stored and the one it replaces reported once. */
    method SetValue(v: string)
      modifies this`value, this`replaced
      ensures value == v
      ensures replaced == old(replaced) + (if v != old(value) && listening then [old(value)] else [])
    {
      if v == value {
        return;
      }
      var oldValue := value;
      value := v;
      if listening {
        replaced := replaced + [oldValue];
      }
    }

    /**
     * `OnUpdateValue(language)`, the handler of `CurrentLanguageChangedEvent`: inert once
     * disposed, otherwise the value is recomputed for `language`.
     */
    method OnUpdateValue(localize: Localizer, language: Language)
      modifies this`value, this`replaced
      ensures isDisposed ==> value == old(value) && replaced == old(replaced)
      ensures !isDisposed ==>
        var v := Computed(localize, format, key, formatArgs, language);
        value == v &&
        replaced == old(replaced) + (if v != old(value) && listening then [old(value)] else [])
    {
      if isDisposed {
        return;
      }
      var text := localize(key, language);
      if formatArgs.Some? {
        text := format(text, formatArgs.value);
      }
      SetValue(text);
    }

    /** The `Key` setter: an equal key changes nothing, another is stored and applied at once. */
    method SetKey(localize: Localizer, k: string, current: Language)
      modifies this`key, this`value, this`replaced
      ensures key == k
      ensures k == old(key) || isDisposed ==> value == old(value) && replaced == old(replaced)
      ensures k != old(key) && !isDisposed ==>
        var v := Computed(localize, format, k, formatArgs, current);
        value == v &&
        replaced == old(replaced) + (if v != old(value) && listening then [old(value)] else [])
    {
      if k == key {
        return;
      }
      key := k;
      OnUpdateValue(localize, current);
    }

    /** The `FormatArgs` setter: the list is replaced by a copy (null stays null) and applied. */
    method SetFormatArgs(localize: Localizer, args: Option<seq<Arg>>, current: Language)
      modifies this`formatArgs, this`value, this`replaced
      ensures formatArgs == args
      ensures isDisposed ==> value == old(value) && replaced == old(replaced)
      ensures !isDisposed ==>
        var v := Computed(localize, format, key, args, current);
        value == v &&
        replaced == old(replaced) + (if v != old(value) && listening then [old(value)] else [])
    {
      formatArgs := args;
      OnUpdateValue(localize, current);
    }

    /** The `FormatArgs` getter: a copy of the arguments, or the exception of a null array. */
    function GetFormatArgs(): (r: Result<seq<Arg>, ArgsError>)
      reads this`formatArgs
      ensures formatArgs.None? <==> r == Err(ArgumentNull)
      ensures formatArgs.Some? ==> r == Ok(formatArgs.value)
    {
      if formatArgs.None? then Err(ArgumentNull) else Ok(formatArgs.value)
    }

    /**
     * `Dispose`: the first call unsubscribes from the service, later calls do nothing.
     * The handlers of `TextChangedEvent` stay attached, but the value is frozen.
     */
    method Dispose()
      modifies this`isDisposed, this`subscribed
      ensures isDisposed
      ensures !old(isDisposed) ==> !subscribed
      ensures old(isDisposed) ==> subscribed == old(subscribed)
    {
      if isDisposed {
        return;
      }
      isDisposed := true;
      subscribed := false;
    }
  }
}
