/**
 * `Base.Localization.LocalString`: a localised string that follows its key, its format
 * arguments and the manager's current language, and reports each change of its value.
 *
 * The manager is seen through `ILocalizationManager`: each member that recomputes the
 * value receives the manager's `GetLocalized(key, language)` as it stands at that call
 * (the function `localize`) and its `CurrentLanguage`. `ValueChangedEvent` is the flag `listening` (some handler is attached) and
 * the log `changes` of the values it was raised with.
 */
module LocalStrings {
  import opened Wrappers
  import opened Languages

  class LocalString {
    /** `string.Format`. */
    const format: Formatter
    /** `_value`. */
    var value: string
    /** `_key`. */
    var key: string
    /** `_formatArgs`: `None` for a null array. */
    var formatArgs: Option<seq<Arg>>
    /** `_isDisposed`. */
    var isDisposed: bool
    /** `OnCurrentLanguageChangedEvent` is subscribed to the manager's `CurrentLanguageChangedEvent`. */
    var subscribed: bool
    /** `ValueChangedEvent != null`. */
    var listening: bool
    /** The values `ValueChangedEvent` was raised with, in order. */
    var changes: seq<string>

    /**
     * Subscribes to the manager, then computes the value for the current language at
     * once. No handler can be attached yet, so nothing is reported.
     */
    constructor (localize: Localizer, format: Formatter, key: string,
                 formatArgs: Option<seq<Arg>>, current: Language)
      ensures this.format == format
      ensures this.key == key && this.formatArgs == formatArgs
      ensures value == Computed(localize, format, key, formatArgs, current)
      ensures !isDisposed && subscribed && !listening && changes == []
    {
      this.format := format;
      this.key := key;
      this.formatArgs := formatArgs;
      value := Computed(localize, format, key, formatArgs, current);
      isDisposed := false;
      subscribed := true;
      listening := false;
      changes := [];
    }

    /** `ValueChangedEvent += handler`. */
    method Listen()
      modifies this`listening
      ensures listening
    {
      listening := true;
    }

    /** The `Value` setter: a different value is stored and reported once, an equal one is ignored. */
    method SetValue(v: string)
      modifies this`value, this`changes
      ensures value == v
      ensures changes == old(changes) + (if v != old(value) && listening then [v] else [])
    {
      if v == value {
        return;
      }
      value := v;
      if listening {
        changes := changes + [value];
      }
    }

    /** `OnUpdateValue(language)`: inert once disposed, otherwise the value is recomputed. */
    method OnUpdateValue(localize: Localizer, language: Language)
      modifies this`value, this`changes
      ensures isDisposed ==> value == old(value) && changes == old(changes)
      ensures !isDisposed ==>
        var v := Computed(localize, format, key, formatArgs, language);
        value == v && changes == old(changes) + (if v != old(value) && listening then [v] else [])
    {
      if isDisposed {
        return;
      }
      var text := localize(key, language);
      if formatArgs.Some? {
        text := format(text, formatArgs.value);
      }
      SetValue(text);
    }

    /** The manager's `CurrentLanguageChangedEvent`: recompute with the notified language. */
    method OnCurrentLanguageChanged(localize: Localizer, language: Language)
      modifies this`value, this`changes
      ensures isDisposed ==> value == old(value) && changes == old(changes)
      ensures !isDisposed ==>
        var v := Computed(localize, format, key, formatArgs, language);
        value == v && changes == old(changes) + (if v != old(value) && listening then [v] else [])
    {
      OnUpdateValue(localize, language);
    }

    /** `ToString` and the `Value` getter. */
    function ToString(): (r: string)
      reads this`value
      ensures r == value
    {
      value
    }

    /** The `Key` setter: an equal key changes nothing, another is stored and applied at once. */
    method SetKey(localize: Localizer, k: string, current: Language)
      modifies this`key, this`value, this`changes
      ensures key == k
      ensures k == old(key) ==> value == old(value) && changes == old(changes)
      ensures k != old(key) && isDisposed ==> value == old(value) && changes == old(changes)
      ensures k != old(key) && !isDisposed ==>
        var v := Computed(localize, format, k, formatArgs, current);
        value == v && changes == old(changes) + (if v != old(value) && listening then [v] else [])
    {
      if k == key {
        return;
      }
      key := k;
      OnUpdateValue(localize, current);
    }

    /** The `FormatArgs` setter: the list is replaced by a copy (null stays null) and applied. */
    method SetFormatArgs(localize: Localizer, args: Option<seq<Arg>>, current: Language)
      modifies this`formatArgs, this`value, this`changes
      ensures formatArgs == args
      ensures isDisposed ==> value == old(value) && changes == old(changes)
      ensures !isDisposed ==>
        var v := Computed(localize, format, key, args, current);
        value == v && changes == old(changes) + (if v != old(value) && listening then [v] else [])
    {
      formatArgs := args;
      OnUpdateValue(localize, current);
    }

    /** The `FormatArgs` getter: a copy of the arguments, or the exception of a null array. */
    function GetFormatArgs(): (r: Result<seq<Arg>, ArgsError>)
      reads this`formatArgs
      ensures formatArgs.None? <==> r == Err(ArgumentNull)
      ensures formatArgs.Some? ==> r == Ok(formatArgs.value)
    {
      if formatArgs.None? then Err(ArgumentNull) else Ok(formatArgs.value)
    }

    /**
     * `Dispose`: the first call unsubscribes from the manager and drops every handler of
     * `ValueChangedEvent`; later calls do nothing.
     */
    method Dispose()
      modifies this`isDisposed, this`subscribed, this`listening
      ensures isDisposed
      ensures !old(isDisposed) ==> !subscribed && !listening
      ensures old(isDisposed) ==> subscribed == old(subscribed) && listening == old(listening)
    {
      if isDisposed {
        return;
      }
      isDisposed := true;
      subscribed := false;
      listening := false;
    }
  }
}
