# lib-localizer, modelled in Dafny

lib-localizer is a run-time localisation library for Unity. It reads translation
tables in a comma-separated format. It resolves a key to the text of a language, and
the strings bound to a key follow changes of the current language. The repository
holds two generations of the library, and this project models both.

**The newer generation (`Base/Localization`):**

- `CSV` is the table tokenizer. Module `Csv` holds:
  - the field state machine `SeparateLine`, written as a step function over a scan state;
  - `Parse`, which joins physical lines with a newline while a quote is open and
    re-scans the joined buffer each time;
  - the physical line splitter of `StringReader.ReadLine`.
- `LocaleEntry` (module `LocaleEntries`) is a key-to-text map. Its lookup falls back
  to the key itself, and the entry is also its own key enumerator, built on a
  snapshot queue.
- `CSVLocalizationProvider` (module `CsvProvider`) turns the records of each source
  into per-language entries. The header row names the languages, and column 0 holds the key.
- `LocalizationManagerBase` (module `LocalizationManager`) provides:
  - the lazily built language map (the first entry of each language wins);
  - the lazily restored current language, and the setter that does nothing when the
    language is unchanged;
  - lookup with a fallback to the key at both levels, plus expansion of the escape
    tokens `\n` and `\r\n` (module `RawString`);
  - `ReplaceWithProvider`, which clears and/or merges.
- `LocalString` (module `LocalStrings`) is the reactive string. It computes its value
  at construction and reports the new value each time the value changes.

**The older generation (`Base/LocaleService`):**

- `LocaleServiceBase` (module `BaseLocaleService`) has:
  - its own single-line `SeparateLine`, proved to give the same columns as the newer one;
  - `ParseLocales`, which splits lines first, so a field cannot span lines;
  - a ready flag raised once, when the countdown of loaded sources reaches zero;
  - a lookup that gives the key until the service is ready;
  - a restore step that falls back to the system language.
- Its `LocalString` (module `LocaleServiceStrings`) computes no initial value and
  reports the *previous* value on each change.
- `Sample/LocaleService` (module `SampleLocaleService`) supplies the concrete maps
  from column title to language and the supported languages.

**Modelling choices:**

- Objects whose fields the source updates are classes with `modifies` frames. Their
  methods are proved equal to functions on values, and the properties are lemmas
  about those functions.
- Events are logs of the payloads they were raised with, or counters of the raises.
- `string.Format`, PlayerPrefs, `Application.systemLanguage` and `Enum.IsDefined`
  are parameters or fields:
  - `format` is a function parameter;
  - PlayerPrefs is `stored: Option<int>`;
  - `systemLanguage` is a constant;
  - `isDefined` is a predicate.
- `SystemLanguage` is `int`, with the enum's own codes for the languages used.

Where the library's documented behaviour and its code differ, the model follows the code:

- A data row with more columns than the header does not go unnoticed: it indexes past
  the header array, and that is an error.
- With "clear", the whole map is emptied, not only the languages missing from the new source.
- A missing key gives `ProcessRawString(key)`, which is the key itself whenever the
  key contains no backslash.
- An empty physical line outside a continuation gives a record with one empty field;
  it is not skipped.
- A doubled quote collapses to one quote outside quoted fields too, so `a""b` is the
  field `a"b`; a lone quote inside an unquoted field is kept.

## Model

| member | source | states |
|---|---|---|
| RawString.ProcessRawString | Assets/Scripts/Base/Localization/LocalizationManagerBase.cs:233-237 | text without a backslash is returned unchanged, and the result is never longer than the input |
| RawString.PlainPrefix | Assets/Scripts/Base/Localization/LocalizationManagerBase.cs:27 | a prefix without a backslash passes through untouched, and the rest is processed on its own |
| RawString.ExpandsTokens | Assets/Scripts/Base/Localization/LocalizationManagerBase.cs:27 | text made of token-free pieces and `\n`/`\r\n` tokens is displayed with exactly one line break per token and every other character kept |
| Csv.IndexOf | Assets/Scripts/Base/Localization/Template/CSV.cs:70-94 | the index of the first occurrence of the character, or the length when it does not occur |
| Csv.SplitOn | Assets/Scripts/Base/Localization/Template/CSV.cs:70-94 | a comma split always has at least one part |
| Csv.SplitOnPartsLackSeparator | Assets/Scripts/Base/Localization/Template/CSV.cs:74-94 | no part of a split contains the separator |
| Csv.SplitOnJoin | Assets/Scripts/Base/Localization/Template/CSV.cs:74-94 | joining the parts gives back the text, and there is one more part than separators |
| Csv.CountAppend | Assets/Scripts/Base/Localization/Template/CSV.cs:74-94 | separator counts add up over concatenation |
| Csv.CountPrefix | Assets/Scripts/Base/Localization/Template/CSV.cs:74-94 | a prefix without the separator counts zero of it |
| Csv.BreakAt | Assets/Scripts/Base/Localization/Template/CSV.cs:27-30 | the position of the first line break (`\n` or `\r`), or the length |
| Csv.ReadLines | Assets/Scripts/Base/Localization/Template/CSV.cs:27-30 | `StringReader.ReadLine`'s lines contain no line break, and empty text has no line at all |
| Csv.ReadLinesTerminated | Assets/Scripts/Base/Localization/Template/CSV.cs:27-30 | lines each terminated by `\n`, `\r\n` or `\r` read back as the same lines, so no final empty line appears |
| Csv.TerminatedStart | Assets/Scripts/Base/Localization/Template/CSV.cs:27-30 | text terminated with `\r` never starts with `\n` |
| Csv.ReadLinesCons | Assets/Scripts/Base/Localization/Template/CSV.cs:27-30 | a terminated first line is read as one line, and the rest is read on its own |
| Csv.BreakAtIs | Assets/Scripts/Base/Localization/Template/CSV.cs:27-30 | the first break character is found at its index |
| Csv.Step | Assets/Scripts/Base/Localization/Template/CSV.cs:72-117 | one character of the state machine keeps the scan state well formed |
| Csv.RunFrom | Assets/Scripts/Base/Localization/Template/CSV.cs:70-117 | the scan of a whole string keeps the state well formed |
| Csv.Separate | Assets/Scripts/Base/Localization/Template/CSV.cs:50-123 | every logical line gives at least one field |
| Csv.RunFromAppend | Assets/Scripts/Base/Localization/Template/CSV.cs:70-117 | scanning a concatenation is scanning the first part, then the second from where the first ended |
| Csv.LiteralRun | Assets/Scripts/Base/Localization/Template/CSV.cs:112-116 | text without quotes (and without commas, unless inside an open quote) is copied to the buffer verbatim |
| Csv.PlainCellsRender | Assets/Scripts/Base/Localization/Template/CSV.cs:74-94 | plain cells render as the comma join of their texts, one cell per text |
| Csv.EscapeNoQuote | Assets/Scripts/Base/Localization/Template/CSV.cs:101-108 | escaping text without quotes leaves it unchanged |
| Csv.QuotableTail | Assets/Scripts/Base/Localization/Template/CSV.cs:95-111 | text that survives quoting still does after its first character |
| Csv.EscapedHead | Assets/Scripts/Base/Localization/Template/CSV.cs:101-108 | inside an open quote, a doubled quote stores one quote and any other character is stored as itself |
| Csv.EscapedRun | Assets/Scripts/Base/Localization/Template/CSV.cs:95-111 | the escaped form of quotable text leaves exactly that text in the buffer, with the quote still open |
| Csv.CellRun | Assets/Scripts/Base/Localization/Template/CSV.cs:58-122 | a rendered plain or quoted cell, followed by a comma or the end of the buffer, emits exactly its text as one field |
| Csv.CellsRun | Assets/Scripts/Base/Localization/Template/CSV.cs:58-122 | a rendered row of cells emits exactly the texts of its cells |
| Csv.RenderRoundTrip | Assets/Scripts/Base/Localization/Template/CSV.cs:50-123 | separating a rendered row of well-formed cells is complete and gives back their texts: quote stripping, doubled-quote collapse and literal commas |
| Csv.NoQuoteLine | Assets/Scripts/Base/Localization/Template/CSV.cs:70-119 | a line without quotes gives exactly (commas + 1) fields, completely, and joining them with commas gives back the line verbatim |
| Csv.JoinNoQuote | Assets/Scripts/Base/Localization/Template/CSV.cs:70-94 | no part of a quote-free join contains a quote |
| Csv.OpenQuoteLine | Assets/Scripts/Base/Localization/Template/CSV.cs:95-99 | a line whose quote never closes is incomplete, and its one pending field is the text after the quote |
| Csv.DoubledQuoteExample | Assets/Scripts/Base/Localization/Template/CSV.cs:101-108 | `"a""b"` gives the one field `a"b` |
| Csv.SwallowedQuote | Assets/Scripts/Base/Localization/Template/CSV.cs:92-99 | a quote right after a literal comma inside quotes takes the field-start branch and is dropped |
| Csv.QuoteNotClosing | Assets/Scripts/Base/Localization/Template/CSV.cs:95-111 | inside an open quote, a quote followed by anything but a comma or another quote is kept and does not close the field |
| Csv.EmptyQuotedExample | Assets/Scripts/Base/Localization/Template/CSV.cs:101-108 | the field `""` gives the empty string |
| Csv.UnquotedRun | Assets/Scripts/Base/Localization/Template/CSV.cs:95-111 | outside quotes, text without a comma enters the buffer with the second quote of every adjacent pair dropped, and no quoted field opens |
| Csv.UnquotedField | Assets/Scripts/Base/Localization/Template/CSV.cs:58-122 | a line that holds no comma and does not start with a quote is one complete field: the line with the second quote of every pair dropped, a lone quote kept |
| Csv.CollapsedEscape | Assets/Scripts/Base/Localization/Template/CSV.cs:101-108 | dropping the second quote of each pair undoes quote doubling, for every text |
| Csv.EscapeKeeps | Assets/Scripts/Base/Localization/Template/CSV.cs:101-108 | quote doubling adds only quotes: every other character is in the escaped text exactly when it is in the text, and the escaped text starts with a quote exactly when the text does |
| Csv.UnquotedEscaped | Assets/Scripts/Base/Localization/Template/CSV.cs:101-108 | a comma-free field that does not start with a quote, written with its quotes doubled but not enclosed, reads back as its text |
| Csv.DoubledOutsideQuotesExample | Assets/Scripts/Base/Localization/Template/CSV.cs:101-108 | `a""b` gives the one field `a"b` although no quote opened the field |
| Csv.LoneQuoteExample | Assets/Scripts/Base/Localization/Template/CSV.cs:101-108 | `a"b` gives the one field `a"b`: a lone quote outside quotes is kept |
| Csv.SeparateLine | Assets/Scripts/Base/Localization/Template/CSV.cs:50-123 | the loop over the characters (with `b2s` after each field) computes exactly `Separate`: the completion flag and the fields |
| Csv.Assemble | Assets/Scripts/Base/Localization/Template/CSV.cs:30-45 | no more records than physical lines, and every record has at least one field |
| Csv.AssembleAppend | Assets/Scripts/Base/Localization/Template/CSV.cs:30-45 | the records of two runs of lines are those of the first, then those of the second from the pending text the first left |
| Csv.OpenRecordNeverYielded | Assets/Scripts/Base/Localization/Template/CSV.cs:30-47 | while no quote arrives, an open record stays pending and nothing is yielded |
| Csv.OpenThroughout | Assets/Scripts/Base/Localization/Template/CSV.cs:30-45 | lines that each leave the logical line pending yield no record |
| Csv.UnterminatedTailDropped | Assets/Scripts/Base/Localization/Template/CSV.cs:30-47 | after complete records, a tail of lines every prefix of which leaves a record pending (a record still open when the input ends) adds no record: the records are those before it |
| Csv.QuoteFreeTailDropped | Assets/Scripts/Base/Localization/Template/CSV.cs:30-47 | in particular, a line that opens a quote followed only by quote-free lines is dropped at the end of the input |
| Csv.OpenTailLine | Assets/Scripts/Base/Localization/Template/CSV.cs:95-111 | the logical line `"a`, newline, `b""c` leaves its quoted field open |
| Csv.OpenPair | Assets/Scripts/Base/Localization/Template/CSV.cs:30-47 | when a line leaves the record open and the line joined to it still does, the record is pending after each of the two lines |
| Csv.OpenTailExample | Assets/Scripts/Base/Localization/Template/CSV.cs:30-47 | the final lines `"a` and `b""c` are dropped |
| Csv.MultiLineField | Assets/Scripts/Base/Localization/Template/CSV.cs:30-45 | a line that opens a quote and a line that closes it give one record whose field joins both with a newline |
| Csv.QuotableWithoutQuotes | Assets/Scripts/Base/Localization/Template/CSV.cs:95-111 | quote-free text that does not end in a comma survives quoting |
| Csv.NoQuoteRecords | Assets/Scripts/Base/Localization/Template/CSV.cs:30-45 | without quotes, each physical line is one record split at its commas (an empty line gives one empty field) |
| Csv.Parse | Assets/Scripts/Base/Localization/Template/CSV.cs:19-48 | the loop yields exactly `ParseRecords(raw)`: nothing for empty text, and otherwise the records of its physical lines, joined while a quote is open |
| LocaleEntries.LookupAfterSet | Assets/Scripts/Base/Localization/LocaleEntry.cs:38-58 | after a set, the key reads back as the value, or as the key itself when the value is empty |
| LocaleEntries.LookupOtherKey | Assets/Scripts/Base/Localization/LocaleEntry.cs:38-58 | a set leaves the lookup of every other key unchanged |
| LocaleEntries.LookupNonEmpty | Assets/Scripts/Base/Localization/LocaleEntry.cs:48-58 | a lookup of a non-empty key is never empty |
| LocaleEntries.ListingElements | Assets/Scripts/Base/Localization/LocaleEntry.cs:77-89 | the elements of a key listing are exactly the key set |
| LocaleEntries.KeySnapshot | Assets/Scripts/Base/Localization/LocaleEntry.cs:81 | the queue snapshot lists every key of the map exactly once |
| LocaleEntries.LocaleEntry.constructor | Assets/Scripts/Base/Localization/LocaleEntry.cs:23-31 | the language is fixed as given, the map is empty and no enumeration is in progress |
| LocaleEntries.LocaleEntry.SetValue | Assets/Scripts/Base/Localization/LocaleEntry.cs:38-41 | inserts or overwrites one key and leaves every other key as it was |
| LocaleEntries.LocaleEntry.GetValue | Assets/Scripts/Base/Localization/LocaleEntry.cs:48-59 | the stored text when present and non-empty, otherwise the key itself |
| LocaleEntries.LocaleEntry.MoveNext | Assets/Scripts/Base/Localization/LocaleEntry.cs:77-89 | the first call snapshots every key once and is false on an empty map; later calls dequeue one key; dequeuing an empty queue throws |
| LocaleEntries.LocaleEntry.Current | Assets/Scripts/Base/Localization/LocaleEntry.cs:96-109 | the head of the queue, and null before the first `MoveNext`, after `Dispose` and at the end |
| LocaleEntries.LocaleEntry.Dispose | Assets/Scripts/Base/Localization/LocaleEntry.cs:98-107 | discards the snapshot, and does nothing when none was taken |
| LocaleEntries.LocaleEntry.Reset | Assets/Scripts/Base/Localization/LocaleEntry.cs:91-94 | the same as `Dispose`: the next enumeration starts afresh |
| LocaleEntries.LocaleEntry.Keys | Assets/Scripts/Base/Localization/LocaleEntry.cs:68-107 | a `foreach` from a fresh state visits every key exactly once; a left-open enumeration resumes and an exhausted one throws |
| CsvProvider.AsLanguage | Assets/Scripts/Base/Localization/Template/CSVLocalizationProvider.cs:131-143 | exactly "ru", "en", "de", "fr" and "ch" are accepted, and anything else is `NotSupported` with that text |
| CsvProvider.AsLanguageInjective | Assets/Scripts/Base/Localization/Template/CSVLocalizationProvider.cs:131-143 | accepted abbreviations are never Unknown, and distinct ones give distinct languages |
| CsvProvider.HeaderLanguages | Assets/Scripts/Base/Localization/Template/CSVLocalizationProvider.cs:93-95 | either every title maps, column by column, or the error is that of the first title that does not |
| CsvProvider.FirstIndex | Assets/Scripts/Base/Localization/Template/CSVLocalizationProvider.cs:118 | `First(entry => entry.Language == lang)`: the first index with that language, or none when no entry has it |
| CsvProvider.EmptyTables | Assets/Scripts/Base/Localization/Template/CSVLocalizationProvider.cs:96-99 | for the first source, one new empty entry per header column, Unknown included |
| CsvProvider.WriteRow | Assets/Scripts/Base/Localization/Template/CSVLocalizationProvider.cs:114-120 | a row keeps the number and the languages of the entries |
| CsvProvider.FirstIndexByLanguage | Assets/Scripts/Base/Localization/Template/CSVLocalizationProvider.cs:118 | the first index depends only on the languages of the entries |
| CsvProvider.AddMissingExtends | Assets/Scripts/Base/Localization/Template/CSVLocalizationProvider.cs:100-109 | a later source keeps the existing entries and appends only empty entries for new header languages other than Unknown, each once |
| CsvProvider.AddMissingCovers | Assets/Scripts/Base/Localization/Template/CSVLocalizationProvider.cs:100-109 | afterwards every header language other than Unknown has an entry |
| CsvProvider.WriteStep | Assets/Scripts/Base/Localization/Template/CSVLocalizationProvider.cs:116-119 | one column write keeps the number and languages of the entries |
| CsvProvider.WriteStepKeepsFirst | Assets/Scripts/Base/Localization/Template/CSVLocalizationProvider.cs:116-119 | a write never changes which entry comes first for a language |
| CsvProvider.RowErrors | Assets/Scripts/Base/Localization/Template/CSVLocalizationProvider.cs:115-117 | a row fails exactly when it has more columns than the header, and the failure is the index error |
| CsvProvider.RowOnlyKey | Assets/Scripts/Base/Localization/Template/CSVLocalizationProvider.cs:114-120 | a row changes no key other than the one in its column 0 |
| CsvProvider.RowTargets | Assets/Scripts/Base/Localization/Template/CSVLocalizationProvider.cs:114-120 | an entry that is not the first for its language, or whose language no remaining column names, is untouched |
| CsvProvider.RowLastWins | Assets/Scripts/Base/Localization/Template/CSVLocalizationProvider.cs:114-120 | the first entry of a column's language holds that column's text under the key, when no later column names the same language |
| CsvProvider.ApplyRecordConsistent | Assets/Scripts/Base/Localization/Template/CSVLocalizationProvider.cs:88-121 | a record keeps every header language covered, and `First` never fails to find an entry |
| CsvProvider.ApplyRecordsNeverMissing | Assets/Scripts/Base/Localization/Template/CSVLocalizationProvider.cs:88-121 | over a whole source, `First` never fails to find an entry |
| CsvProvider.SourceErrors | Assets/Scripts/Base/Localization/Template/CSVLocalizationProvider.cs:82-143 | the only failures of a run of sources are an unsupported abbreviation and an index past the header |
| CsvProvider.ColumnWritesUntouched | Assets/Scripts/Base/Localization/Template/CSVLocalizationProvider.cs:114-120 | a key that no row writes in the column keeps its text |
| CsvProvider.ColumnWritesLast | Assets/Scripts/Base/Localization/Template/CSVLocalizationProvider.cs:114-120 | the last row that writes the column for a key decides its text |
| CsvProvider.RowColumn | Assets/Scripts/Base/Localization/Template/CSVLocalizationProvider.cs:114-120 | a row writes its column `i` under its key into the first entry of that column's language and changes nothing else there, when no other column names the language |
| CsvProvider.RowsColumn | Assets/Scripts/Base/Localization/Template/CSVLocalizationProvider.cs:84-121 | after the header, the rows write column `i` into the first entry of its language in row order, and that entry stays first |
| CsvProvider.RowsColumnTexts | Assets/Scripts/Base/Localization/Template/CSVLocalizationProvider.cs:84-121 | the same on the entry list: the first entry of the column's language ends up with its old texts and column `i` of each row written over them in row order, and stays first |
| CsvProvider.FirstIndexPrefix | Assets/Scripts/Base/Localization/Template/CSVLocalizationProvider.cs:100-109 | appending entries never changes which entry is first for a language that had one |
| CsvProvider.HeaderColumn | Assets/Scripts/Base/Localization/Template/CSVLocalizationProvider.cs:96-109 | the header leaves the language of column `i` first at the entry it had, or at a new empty one |
| CsvProvider.HeaderRecord | Assets/Scripts/Base/Localization/Template/CSVLocalizationProvider.cs:94-111 | a header that does not throw names the language of column `i` in that column only, and leaves it first at its earlier texts |
| CsvProvider.RecordsColumn | Assets/Scripts/Base/Localization/Template/CSVLocalizationProvider.cs:82-123 | `SourceColumn` on the records of a source |
| CsvProvider.SourceColumn | Assets/Scripts/Base/Localization/Template/CSVLocalizationProvider.cs:82-123 | a source that does not throw leaves the first entry of the language of a column holding its earlier texts (none if new) with that column of every long-enough row written over them in row order; an entry first before stays first |
| CsvProvider.ApplySourcesSnoc | Assets/Scripts/Base/Localization/Template/CSVLocalizationProvider.cs:54-57 | applying sources and then one more is the run over all of them |
| CsvProvider.LastRecordsWin | Assets/Scripts/Base/Localization/Template/CSVLocalizationProvider.cs:82-123 | `LaterSourceWins` on the records of the last source |
| CsvProvider.LaterSourceWins | Assets/Scripts/Base/Localization/Template/CSVLocalizationProvider.cs:54-57 | after a run of sources without an exception, a key that the last source writes under a language reads the text of that source's last row for it, whatever earlier sources held |
| CsvProvider.CsvLocalizationProvider.constructor | Assets/Scripts/Base/Localization/Template/CSVLocalizationProvider.cs:19-20 | not initialised, with no entry list |
| CsvProvider.CsvLocalizationProvider.Locales | Assets/Scripts/Base/Localization/Template/CSVLocalizationProvider.cs:24-31 | once initialised, the entry list (null before any source was read) |
| CsvProvider.CsvLocalizationProvider.SetIsInited | Assets/Scripts/Base/Localization/Template/CSVLocalizationProvider.cs:62-72 | the flag is set, and `InitCompleteEvent` fires exactly when the value changes |
| CsvProvider.CsvLocalizationProvider.FindFirst | Assets/Scripts/Base/Localization/Template/CSVLocalizationProvider.cs:118 | the loop finds `FirstIndex` |
| CsvProvider.CsvLocalizationProvider.CreateEntries | Assets/Scripts/Base/Localization/Template/CSVLocalizationProvider.cs:96-99 | fresh entries, one per header column |
| CsvProvider.CsvLocalizationProvider.AppendEntry | Assets/Scripts/Base/Localization/Template/CSVLocalizationProvider.cs:106-109 | appends one fresh empty entry and keeps the others |
| CsvProvider.CsvLocalizationProvider.AddMissingEntries | Assets/Scripts/Base/Localization/Template/CSVLocalizationProvider.cs:100-109 | the list becomes `AddMissing` of the old one: existing entries are reused and new ones are fresh |
| CsvProvider.CsvLocalizationProvider.WriteRowEntries | Assets/Scripts/Base/Localization/Template/CSVLocalizationProvider.cs:114-120 | the entries' texts become `WriteRow` of the old ones, with its error |
| CsvProvider.CsvLocalizationProvider.ApplyRecordEntries | Assets/Scripts/Base/Localization/Template/CSVLocalizationProvider.cs:88-120 | one record is read as a header or as a data row, exactly as `ApplyRecord` |
| CsvProvider.CsvLocalizationProvider.ApplyCsvRawData | Assets/Scripts/Base/Localization/Template/CSVLocalizationProvider.cs:82-123 | the entries become `ApplySource` of the old ones, with its error |
| CsvProvider.CsvLocalizationProvider.ApplyAll | Assets/Scripts/Base/Localization/Template/CSVLocalizationProvider.cs:53-57 | the sources are applied in order, stopping at the first error, exactly as `ApplySources`, so a later source's text for a key and language wins (`LaterSourceWins`) |
| CsvProvider.CsvLocalizationProvider.Init | Assets/Scripts/Base/Localization/Template/CSVLocalizationProvider.cs:37-60 | a second call logs an error and changes nothing; the first applies every source and becomes initialised, firing `InitCompleteEvent` once, unless a source throws; the texts are those of `ApplySources`, so later sources overwrite earlier ones |
| LocalizationManager.LocalizedNoEntry | Assets/Scripts/Base/Localization/LocalizationManagerBase.cs:92-101 | a language with no entry gives the key unchanged |
| LocalizationManager.LocalizedMissingText | Assets/Scripts/Base/Localization/LocalizationManagerBase.cs:94-96 | a missing key or an empty cell gives `ProcessRawString(key)`, which is the key itself when it has no backslash |
| LocalizationManager.LocalizedStoredText | Assets/Scripts/Base/Localization/LocalizationManagerBase.cs:94-96 | a stored text is displayed with its escape tokens expanded |
| LocalizationManager.BuildMap | Assets/Scripts/Base/Localization/LocalizationManagerBase.cs:41-56 | the lazily built map has exactly the languages of the list, each mapped to the first entry of that language |
| LocalizationManager.LanguagesOf | Assets/Scripts/Base/Localization/LocalizationManagerBase.cs:41-56 | exactly the languages of the entries |
| LocalizationManager.LanguagesOfSnoc | Assets/Scripts/Base/Localization/LocalizationManagerBase.cs:172-182 | the languages of a longer prefix add that entry's language |
| LocalizationManager.WalkComplete | Assets/Scripts/Base/Localization/LocalizationManagerBase.cs:172-182 | once every language is walked, the texts are the merge of the two tables |
| LocalizationManager.WalkEntries | Assets/Scripts/Base/Localization/LocalizationManagerBase.cs:172-182 | once every language is walked, the entries are the merge of the two maps |
| LocalizationManager.BuildMapLanguages | Assets/Scripts/Base/Localization/LocalizationManagerBase.cs:41-56 | the map's keys are the languages of the list |
| LocalizationManager.BuildMapAt | Assets/Scripts/Base/Localization/LocalizationManagerBase.cs:41-56 | an entry whose language is new at its index is the one the map keeps |
| LocalizationManager.BuildMapFirst | Assets/Scripts/Base/Localization/LocalizationManagerBase.cs:41-56 | when the provider lists a language twice, the map keeps the first entry |
| LocalizationManager.MergedInOrder | Assets/Scripts/Base/Localization/LocalizationManagerBase.cs:174-177 | a key-by-key copy defines exactly the keys copied |
| LocalizationManager.MergedInOrderIsMerged | Assets/Scripts/Base/Localization/LocalizationManagerBase.cs:174-177 | the copy does not depend on the order of the keys |
| LocalizationManager.UpdateUnion | Assets/Scripts/Base/Localization/LocalizationManagerBase.cs:174-177 | a set after a union is the union with the set |
| LocalizationManager.MergeKeepsOwnKeys | Assets/Scripts/Base/Localization/LocalizationManagerBase.cs:172-182 | a merge leaves intact the keys the provider lacks |
| LocalizationManager.MergeOverwrites | Assets/Scripts/Base/Localization/LocalizationManagerBase.cs:172-182 | an existing language takes the provider's `GetValue`, so an empty cell stores the key; a new language is the provider's entry as it is |
| LocalizationManager.MergeLookup | Assets/Scripts/Base/Localization/LocalizationManagerBase.cs:172-182 | after a merge, a non-empty provider text is what a lookup gives |
| LocalizationManager.MergeNothing | Assets/Scripts/Base/Localization/LocalizationManagerBase.cs:172-182 | merging an empty provider changes nothing |
| LocalizationManager.MergeIntoEmpty | Assets/Scripts/Base/Localization/LocalizationManagerBase.cs:145-182 | after a clear, the merge is the provider's table |
| LocalizationManager.RestoredChoice | Assets/Scripts/Base/Localization/LocalizationManagerBase.cs:211-223 | a persisted defined language wins, and otherwise the default is used |
| LocalizationManager.Manager.constructor | Assets/Scripts/Base/Localization/LocalizationManagerBase.cs:38-57 | neither the map nor the current language is resolved yet |
| LocalizationManager.Manager.Table | Assets/Scripts/Base/Localization/LocalizationManagerBase.cs:41-56 | the lazy map: the one built already, or the one built from the provider's list |
| LocalizationManager.Manager.EnsureMap | Assets/Scripts/Base/Localization/LocalizationManagerBase.cs:41-56 | builds the map once, and keeps it afterwards |
| LocalizationManager.Manager.RestoreServiceState | Assets/Scripts/Base/Localization/LocalizationManagerBase.cs:211-231 | a persisted, defined language, and otherwise the default |
| LocalizationManager.Manager.GetCurrentLanguage | Assets/Scripts/Base/Localization/LocalizationManagerBase.cs:61-63 | resolved once through the restore step and cached |
| LocalizationManager.Manager.SetCurrentLanguageValue | Assets/Scripts/Base/Localization/LocalizationManagerBase.cs:64-69 | an equal value does nothing; another is stored, and the event fires once with it |
| LocalizationManager.Manager.SetCurrentLanguage | Assets/Scripts/Base/Localization/LocalizationManagerBase.cs:74-83 | an unchanged language does nothing; a change fires once and persists the code |
| LocalizationManager.Manager.GetLocalized | Assets/Scripts/Base/Localization/LocalizationManagerBase.cs:90-102 | the lookup on the lazily built map's texts |
| LocalizationManager.Manager.GetLocalizedCurrent | Assets/Scripts/Base/Localization/LocalizationManagerBase.cs:85-88 | the lookup in the current language |
| LocalizationManager.Manager.MergeEntry | Assets/Scripts/Base/Localization/LocalizationManagerBase.cs:174-177 | the target gains every key of the source with its `GetValue`, also when both are the same entry |
| LocalizationManager.Manager.CopyKey | Assets/Scripts/Base/Localization/LocalizationManagerBase.cs:176 | one key is copied with the source's original lookup |
| LocalizationManager.Manager.AbsorbInto | Assets/Scripts/Base/Localization/LocalizationManagerBase.cs:172-177 | a language already present is merged key by key |
| LocalizationManager.Manager.AbsorbNew | Assets/Scripts/Base/Localization/LocalizationManagerBase.cs:178-181 | a new language is added as the provider's entry |
| LocalizationManager.Manager.Absorb | Assets/Scripts/Base/Localization/LocalizationManagerBase.cs:172-182 | one group of the provider merged or added |
| LocalizationManager.Manager.AbsorbAt | Assets/Scripts/Base/Localization/LocalizationManagerBase.cs:156-182 | only the first entry of each language is taken |
| LocalizationManager.Manager.AbsorbAll | Assets/Scripts/Base/Localization/LocalizationManagerBase.cs:156-183 | the walk over the provider's list reaches every language |
| LocalizationManager.Manager.MergeList | Assets/Scripts/Base/Localization/LocalizationManagerBase.cs:156-183 | the map becomes the merge of the old one and the provider's first entries, texts included; a listed entry that was not in the old map keeps its texts |
| LocalizationManager.Manager.StartWalk | Assets/Scripts/Base/Localization/LocalizationManagerBase.cs:156-160 | the walk starts from the current map |
| LocalizationManager.Manager.FinishWalk | Assets/Scripts/Base/Localization/LocalizationManagerBase.cs:183 | the walk ends at the merge |
| LocalizationManager.Manager.Prepare | Assets/Scripts/Base/Localization/LocalizationManagerBase.cs:145-149 | clear empties the whole map; otherwise the map is kept |
| LocalizationManager.Manager.ReplaceWithList | Assets/Scripts/Base/Localization/LocalizationManagerBase.cs:143-184 | the (optionally cleared) map merged with the provider's list; listed entries outside the old map keep their texts, and with clear neither the old map's entries nor the listed ones change texts |
| LocalizationManager.Manager.ReplaceWithProvider | Assets/Scripts/Base/Localization/LocalizationManagerBase.cs:143-184 | clear empties the map first, a null provider then returns, and otherwise the provider is merged; provider entries outside the old map keep their texts, and with clear neither the old map's entries nor the listed ones change texts |
| LocalStrings.LocalString.constructor | Assets/Scripts/Base/Localization/LocalString.cs:56-66 | subscribes and at once computes the value for the current language, formatted only when arguments exist |
| LocalStrings.LocalString.Listen | Assets/Scripts/Base/Localization/LocalString.cs:98 | a handler is attached |
| LocalStrings.LocalString.SetValue | Assets/Scripts/Base/Localization/LocalString.cs:84-93 | a different value is stored and `ValueChangedEvent` fires once with the new value; an equal one is ignored |
| LocalStrings.LocalString.OnUpdateValue | Assets/Scripts/Base/Localization/LocalString.cs:68-79 | inert once disposed; otherwise the value is recomputed for the language with the manager's lookup as it stands at this call |
| LocalStrings.LocalString.OnCurrentLanguageChanged | Assets/Scripts/Base/Localization/LocalString.cs:40-43 | a language change recomputes with the notified language, the manager's present lookup and the same key and arguments |
| LocalStrings.LocalString.ToString | Assets/Scripts/Base/Localization/LocalString.cs:45-48 | the cached value |
| LocalStrings.LocalString.SetKey | Assets/Scripts/Base/Localization/LocalString.cs:103-112 | an equal key does nothing; another is stored and applied at once in the current language |
| LocalStrings.LocalString.SetFormatArgs | Assets/Scripts/Base/Localization/LocalString.cs:117-123 | the whole list is replaced (null stays null) and the value recomputed |
| LocalStrings.LocalString.GetFormatArgs | Assets/Scripts/Base/Localization/LocalString.cs:124 | a copy of the arguments, or the exception of a null array |
| LocalStrings.LocalString.Dispose | Assets/Scripts/Base/Localization/LocalString.cs:28-36 | idempotent: the first call unsubscribes and drops every handler |
| LocaleServiceStrings.LocalString.constructor | Assets/Scripts/Base/LocaleService/LocalString.cs:13-37 | the value starts empty; the constructor only subscribes |
| LocaleServiceStrings.LocalString.Listen | Assets/Scripts/Base/LocaleService/LocalString.cs:66 | a handler is attached |
| LocaleServiceStrings.LocalString.SetValue | Assets/Scripts/Base/LocaleService/LocalString.cs:51-61 | a different value is stored and `TextChangedEvent` fires once with the previous value; an equal one is ignored |
| LocaleServiceStrings.LocalString.OnUpdateValue | Assets/Scripts/Base/LocaleService/LocalString.cs:39-46 | inert once disposed; otherwise the value is recomputed with the service's lookup as it stands at this call (the key before the service is ready), formatted when arguments exist |
| LocaleServiceStrings.LocalString.SetKey | Assets/Scripts/Base/LocaleService/LocalString.cs:71-80 | an equal key does nothing; another is stored and applied in the current language |
| LocaleServiceStrings.LocalString.SetFormatArgs | Assets/Scripts/Base/LocaleService/LocalString.cs:85-93 | the list is replaced and the value recomputed |
| LocaleServiceStrings.LocalString.GetFormatArgs | Assets/Scripts/Base/LocaleService/LocalString.cs:92 | a copy of the arguments, or the exception of a null array |
| LocaleServiceStrings.LocalString.Dispose | Assets/Scripts/Base/LocaleService/LocalString.cs:21-27 | idempotent and unsubscribes; handlers stay attached, and the disposed flag freezes the value |
| BaseLocaleService.Pieces | Assets/Scripts/Base/LocaleService/LocaleServiceBase.cs:312 | the pieces of a split at `\n` contain no `\n` |
| BaseLocaleService.NonEmpty | Assets/Scripts/Base/LocaleService/LocaleServiceBase.cs:312 | removing empty entries keeps only non-empty pieces of the input |
| BaseLocaleService.SplitLines | Assets/Scripts/Base/LocaleService/LocaleServiceBase.cs:312 | the split at `\n` and `\r\n` gives only non-empty lines without `\n` |
| BaseLocaleService.PiecesCons | Assets/Scripts/Base/LocaleService/LocaleServiceBase.cs:312 | a terminated first line is split off as one piece |
| BaseLocaleService.SplitLinesTerminated | Assets/Scripts/Base/LocaleService/LocaleServiceBase.cs:312 | non-empty lines each terminated by `\n` or `\r\n` split back into the same lines |
| BaseLocaleService.PiecesTerminated | Assets/Scripts/Base/LocaleService/LocaleServiceBase.cs:312 | terminated lines split into those lines and one final empty piece |
| BaseLocaleService.NonEmptyLast | Assets/Scripts/Base/LocaleService/LocaleServiceBase.cs:312 | removing empty entries drops the final empty piece and nothing else |
| BaseLocaleService.LoneCarriageReturn | Assets/Scripts/Base/LocaleService/LocaleServiceBase.cs:312 | a lone `\r` stays inside the line here, while the newer generation's reader breaks the line there |
| BaseLocaleService.SeparateLine | Assets/Scripts/Base/LocaleService/LocaleServiceBase.cs:364-438 | the queue-driven loop gives exactly the columns of the newer generation's state machine, on the same line |
| BaseLocaleService.OpenQuoteRunsToEnd | Assets/Scripts/Base/LocaleService/LocaleServiceBase.cs:364-438 | an unterminated quoted field runs to the end of the line, the quote stripped |
| BaseLocaleService.HeaderLanguages | Assets/Scripts/Base/LocaleService/LocaleServiceBase.cs:326-334 | one language per title when the header is read |
| BaseLocaleService.HeaderLanguagesRead | Assets/Scripts/Base/LocaleService/LocaleServiceBase.cs:326-334 | the header is read exactly when every title maps, and each column gets its title's language |
| BaseLocaleService.Ids | Assets/Scripts/Base/LocaleService/LocaleServiceBase.cs:326-334 | one entry per header column: the registered one, or a new one for that column |
| BaseLocaleService.Register | Assets/Scripts/Base/LocaleService/LocaleServiceBase.cs:348-359 | registration adds exactly the header languages to the map's languages |
| BaseLocaleService.ColumnTextsUntouched | Assets/Scripts/Base/LocaleService/LocaleServiceBase.cs:335-344 | a key that no row writes in a column keeps its text |
| BaseLocaleService.IdsDistinct | Assets/Scripts/Base/LocaleService/LocaleServiceBase.cs:326-334 | distinct header languages refer to distinct entries |
| BaseLocaleService.WriteColumnsAt | Assets/Scripts/Base/LocaleService/LocaleServiceBase.cs:337-343 | a row writes column k+1 under its key into the entry of column k when the row is long enough, and only the entry of column k |
| BaseLocaleService.WriteLinesAt | Assets/Scripts/Base/LocaleService/LocaleServiceBase.cs:335-344 | after all rows, each column's entry holds exactly that column's texts over the starting texts |
| BaseLocaleService.RegisterKeeps | Assets/Scripts/Base/LocaleService/LocaleServiceBase.cs:348-359 | languages not in the header keep their tables |
| BaseLocaleService.RegisterAt | Assets/Scripts/Base/LocaleService/LocaleServiceBase.cs:348-359 | each header language is registered with its column's entry |
| BaseLocaleService.IdsShared | Assets/Scripts/Base/LocaleService/LocaleServiceBase.cs:326-334 | two columns share one entry exactly when they name the same registered language; a new language gets an entry per column |
| BaseLocaleService.RegisterLast | Assets/Scripts/Base/LocaleService/LocaleServiceBase.cs:348-359 | a language named by several columns is registered with the entry of its last column |
| BaseLocaleService.ParsedNothing | Assets/Scripts/Base/LocaleService/LocaleServiceBase.cs:309-324 | empty text, fewer than two non-empty lines, or a header of fewer than two columns changes nothing |
| BaseLocaleService.ParsedRejects | Assets/Scripts/Base/LocaleService/LocaleServiceBase.cs:326-334 | parsing fails exactly when some header title after column 0 has no language |
| BaseLocaleService.ParsedLanguages | Assets/Scripts/Base/LocaleService/LocaleServiceBase.cs:307-360 | a read header succeeds, adds exactly its languages and keeps every other table |
| BaseLocaleService.ParsedColumn | Assets/Scripts/Base/LocaleService/LocaleServiceBase.cs:307-360 | with distinct header languages, each language's table is its old texts (or none) with that column of every row written over them |
| BaseLocaleService.ParsedNewLanguageLast | Assets/Scripts/Base/LocaleService/LocaleServiceBase.cs:307-360 | a new language named by several columns ends up with the texts of its last column only |
| BaseLocaleService.WriteRow | Assets/Scripts/Base/LocaleService/LocaleServiceBase.cs:337-343 | the inner loop sets columns 1..min(row, header)−1, as `WriteColumns` |
| BaseLocaleService.WriteAll | Assets/Scripts/Base/LocaleService/LocaleServiceBase.cs:335-344 | the loop over the data lines computes `WriteLines` |
| BaseLocaleService.RestoredLanguage | Assets/Scripts/Base/LocaleService/LocaleServiceBase.cs:226-242 | the candidate is a defined persisted code, else the default; a supported candidate is chosen, an unsupported one (stored or default) gives the system language, and nothing else is ever chosen |
| BaseLocaleService.LocaleServiceBase.constructor | Assets/Scripts/Base/LocaleService/LocaleServiceBase.cs:48-54 | the system language is current, and nothing is initialised, ready or loaded |
| BaseLocaleService.LocaleServiceBase.SetCurrentLanguageValue | Assets/Scripts/Base/LocaleService/LocaleServiceBase.cs:66-76 | an equal value does nothing; otherwise the event carries (new, previous) |
| BaseLocaleService.LocaleServiceBase.BecomeReady | Assets/Scripts/Base/LocaleService/LocaleServiceBase.cs:111-122 | `IsReady` goes false→true once, and `ReadyEvent` has fired exactly once |
| BaseLocaleService.LocaleServiceBase.Initialize | Assets/Scripts/Base/LocaleService/LocaleServiceBase.cs:80-89 | one-shot: a second call, or one on a ready service, logs an error and changes nothing |
| BaseLocaleService.LocaleServiceBase.ManifestLoaded | Assets/Scripts/Base/LocaleService/LocaleServiceBase.cs:91-108 | the countdown is the number of non-empty manifest lines, and zero sources (or a failed manifest) make the service ready at once |
| BaseLocaleService.LocaleServiceBase.LocaleLoaded | Assets/Scripts/Base/LocaleService/LocaleServiceBase.cs:280-300 | a completed load, failed or not, parses its text and counts down, and the service gets ready at zero; a parse that throws changes nothing |
| BaseLocaleService.LocaleServiceBase.SetCurrentLanguage | Assets/Scripts/Base/LocaleService/LocaleServiceBase.cs:126-131 | an equal language does nothing; a change fires once with (new, previous) and persists |
| BaseLocaleService.LocaleServiceBase.GetLocalized | Assets/Scripts/Base/LocaleService/LocaleServiceBase.cs:133-156 | the key while not ready; afterwards the key for a language without table, and otherwise the processed text or the key |
| BaseLocaleService.LocaleServiceBase.Localizer | Assets/Scripts/Base/LocaleService/LocaleServiceBase.cs:133-156 | the lookup handed to a localised string answers as `GetLocalized` on the service's present state |
| BaseLocaleService.LocaleServiceBase.AddLocaleCsv | Assets/Scripts/Base/LocaleService/LocaleServiceBase.cs:205-216 | false exactly when parsing throws, and the map is then unchanged |
| BaseLocaleService.LocaleServiceBase.PersistCurrentState | Assets/Scripts/Base/LocaleService/LocaleServiceBase.cs:220-224 | the current language is stored |
| BaseLocaleService.LocaleServiceBase.RestorePersistingState | Assets/Scripts/Base/LocaleService/LocaleServiceBase.cs:226-242 | the restored language becomes current, and an undefined stored code is overwritten with it |
| BaseLocaleService.LocaleServiceBase.ReadHeader | Assets/Scripts/Base/LocaleService/LocaleServiceBase.cs:326-334 | the header is read exactly when every title maps, reusing registered tables |
| BaseLocaleService.LocaleServiceBase.ParseLocales | Assets/Scripts/Base/LocaleService/LocaleServiceBase.cs:307-360 | the nested loops compute `Parsed`: on success the map is replaced by it, on an exception it is unchanged |
| BaseLocaleService.LocaleServiceBase.RegisterAll | Assets/Scripts/Base/LocaleService/LocaleServiceBase.cs:348-359 | new tables are registered only at the end, as `Register` |
| SampleLocaleService.TitlesNameSupported | Assets/Scripts/Sample/LocaleService.cs:13-33 | a language is supported exactly when some column title maps to it |
| SampleLocaleService.UnknownTitleRejected | Assets/Scripts/Sample/LocaleService.cs:26-35 | a title other than "ru_ru" and "en_us" makes the parse fail, so `AddLocaleCsv` gives false |
| SampleLocaleService.ParsedSupported | Assets/Scripts/Sample/LocaleService.cs:13-33 | a successful parse adds only supported languages |
| SampleLocaleService.RestoredIsSupportedOrSystem | Assets/Scripts/Sample/LocaleService.cs:13-24 | the restored language is Russian, English or the system language: a Russian or English candidate (defined stored code, else the default) is kept, any other gives the system language |
| SampleLocaleService.NewLocaleService | Assets/Scripts/Sample/LocaleService.cs:7-35 | a service with the sample's maps, in its initial state |

## Left out

- The Unity UI bindings are not modelled. These are the `Localize` methods, the
  `Apply*Controller` helpers, the text and TextMeshPro controllers and the editor
  script. They are engine plumbing.
- Network loading and concurrency are not modelled:
  - the `UnityWebRequest`s of `LoadManifest`/`LoadLocale`;
  - the `Mutex`;
  - `GetPath`.
- How loading is modelled instead:
  - The manifest arrives through `ManifestLoaded` and each source through `LocaleLoaded`,
    as sequential calls.
  - A text of `None` stands for a failed request.
  - A load that completes before the manifest loop ends is not told apart.
- Dependency injection and the sample's wiring are not modelled: the installer, the
  scene behaviour, and the sample manager, provider and controllers.
- The sample service's persist key, manifest name and path strings are not modelled.
  PlayerPrefs is one stored value per class.
- `string.Format` is an uninterpreted parameter. Placeholder mismatches and culture
  formatting are not modelled.
- Other foreign calls are parameters:
  - `Application.systemLanguage`;
  - `Enum.IsDefined`.
- The `Regex` of `ProcessRawString` is written as an explicit left-to-right scan.
- `TextAsset` selection in `CSVLocalizationProvider.Init` is not modelled. The sources
  are given as a list of raw strings.
- Dictionary enumeration order is unspecified in .NET:
  - The key snapshot of `LocaleEntry` is some listing of the keys.
  - The merge is proved independent of key order.
- `GroupBy` yields its groups in the order each language first appears, with the
  entries of a group in list order. The model takes the groups in that order and uses
  the first entry of each.
- Debug logging is mostly not modelled. `loggedErrors` counts only these reports:
  - a second `Initialize` of the service (LocaleServiceBase.cs:82-86);
  - a second `Init` of the provider (CSVLocalizationProvider.cs:39-43);
  - a failed manifest or locale request (LocaleServiceBase.cs:255-258 and 285-288).
- BaseLocaleService.LocaleServiceBase.GetLocalized: the error it logs when called before
  the service is ready (LocaleServiceBase.cs:140-143) is not counted. It is modelled as a
  function, so that `Localizer` can hand it to the local strings; only the returned key
  is modelled.
- LocalizationManager.Manager.ReplaceWithProvider: the duplicate-language log
  (LocalizationManagerBase.cs:161-167) is not modelled, and neither is the same log of
  the lazy map (LocalizationManagerBase.cs:47-53). Both are compiled only under `DEBUG`
  or in the editor; the model keeps the first entry of each language either way.
- The "Trying to localize twice" logs belong to the `Localize` methods, which are not
  modelled.
- C# null strings are not modelled. Null raw text is the empty text.
- A provider whose `Locales` is null at the first lookup is not modelled: the manager
  requires an initialised provider that has an entry list. A null provider is modelled
  in `ReplaceWithProvider`.
- LocalizationManager.Manager.ReplaceWithProvider and ReplaceWithList require that no
  entry they read is in the middle of a `foreach` (`NotEnumerating`). The library never
  leaves one there, because `foreach` disposes the enumerator. A caller that drives
  `MoveNext` by hand and then merges would resume that enumeration; this is not modelled.
- Unity `Assert` calls are preconditions:
  - `Locales` requires an initialised provider;
  - `BecomeReady` requires an initialised service;
  - `ManifestLoaded` requires the countdown not to be running.
- CsvProvider.ApplyRecord: the `Assert` that every record has more than one column
  is a check on parsed data, so it is not a precondition. A one-column record is processed as
  the code does with assertions compiled out.
- LocalizationManager.Manager.RestoreServiceState re-enters itself without end when the
  stored code is undefined. The precondition `CanResolve` excludes that case.
- Event wiring is modelled as direct calls. The event payloads are logs, and the
  handlers are the `OnCurrentLanguageChanged`/`OnUpdateValue` methods. The older
  interface's mismatched event types are not modelled.
- BaseLocaleService.LocaleServiceBase.GetLocalizedCurrent has no contract of its own.
  It is `GetLocalized` at the current language.
- The older `LocaleEntry` objects are modelled as text maps, plus an identity `Id`
  used during one parse. This keeps the source's aliasing: two header columns that name
  a registered language both write its one entry, while two columns that name a new
  language each get a new entry, and the last one registered wins (`IdsShared`,
  `ParsedNewLanguageLast`). No lemma states the texts of a registered language named by
  two columns: `WriteColumns` defines them (within a row the later column wins).
