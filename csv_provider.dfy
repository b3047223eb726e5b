/**
 * `CSVLocalizationProvider`: builds the list of `LocaleEntry` objects from CSV sources.
 * The first record of each source is its header (a key column, then one language
 * abbreviation per column); every later record is a key followed by one text per column.
 *
 * Each source is described first on values (`Table` stands for one entry's language and
 * texts) by `ApplySource`, a fold over the records with the same early exits as the
 * exceptions of the source; the class then keeps a list of entry objects that the proof
 * ties to those values.
 */
module CsvProvider {
  import opened Wrappers
  import opened Languages
  import opened LocaleEntries
  import Csv

  /** The exceptions that can escape `ApplyCsvRawData`. */
  datatype ProviderError =
    | NotSupported(abbreviation: string)  // AsLanguage: unknown header abbreviation
    | IndexOutOfRange                     // header[i]: a row wider than its header
    | NoMatchingEntry                     // Enumerable.First found no entry (never happens)

  /** The header abbreviations the provider understands. */
  function AsLanguage(raw: string): (r: Result<Language, ProviderError>)
    ensures r.Ok? <==> raw in {"ru", "en", "de", "fr", "ch"}
    ensures r.Err? ==> r.error == NotSupported(raw)
  {
    match raw
    case "ru" => Ok(Russian)
    case "en" => Ok(English)
    case "de" => Ok(German)
    case "fr" => Ok(French)
    case "ch" => Ok(Chinese)
    case _ => Err(NotSupported(raw))
  }

  /** Distinct abbreviations name distinct languages, none of them `Unknown`. */
  lemma AsLanguageInjective(a: string, b: string)
    requires AsLanguage(a).Ok? && AsLanguage(b).Ok?
    ensures AsLanguage(a).value != Unknown
    ensures AsLanguage(a).value == AsLanguage(b).value ==> a == b
  {
  }

  /**
   * `columns.Skip(1).Select(AsLanguage).ToArray()`, evaluated in order: the first
   * unsupported abbreviation throws.
   */
  function HeaderLanguages(abbreviations: seq<string>): (r: Result<seq<Language>, ProviderError>)
    ensures r.Ok? ==> (|r.value| == |abbreviations| &&
      forall i | 0 <= i < |abbreviations| :: AsLanguage(abbreviations[i]) == Ok(r.value[i]))
    ensures r.Err? ==> exists i | 0 <= i < |abbreviations| ::
      AsLanguage(abbreviations[i]) == Err(r.error) &&
      forall j | 0 <= j < i :: AsLanguage(abbreviations[j]).Ok?
  {
    if abbreviations == [] then Ok([])
    else
      match AsLanguage(abbreviations[0])
      case Err(e) => Err(e)
      case Ok(l) =>
        match HeaderLanguages(abbreviations[1..])
        case Err(e) =>
          assert forall j | 0 < j <= |abbreviations[1..]| :: abbreviations[1..][j - 1] == abbreviations[j];
          Err(e)
        case Ok(ls) => Ok([l] + ls)
  }

  /** One entry's language and texts, as values. */
  datatype Table = Table(language: Language, texts: map<string, string>)

  /** `_locales.First(e => e.Language == lang)`, by index. */
  function FirstIndex(ts: seq<Table>, lang: Language): (r: Option<nat>)
    ensures r.Some? ==> (r.value < |ts| && ts[r.value].language == lang &&
      forall k | 0 <= k < r.value :: ts[k].language != lang)
    ensures r.None? ==> forall k | 0 <= k < |ts| :: ts[k].language != lang
  {
    if ts == [] then None
    else if ts[0].language == lang then Some(0)
    else
      match FirstIndex(ts[1..], lang)
      case None => None
      case Some(k) => Some(k + 1)
  }

  /** True when some table has language `lang`. */
  predicate HasLanguage(ts: seq<Table>, lang: Language)
  {
    exists k | 0 <= k < |ts| :: ts[k].language == lang
  }

  /** `header.Select(language => new LocaleEntry(language))`: duplicates and `Unknown` included. */
  function EmptyTables(header: seq<Language>): (ts: seq<Table>)
    ensures |ts| == |header|
    ensures forall i | 0 <= i < |header| :: ts[i] == Table(header[i], map[])
  {
    seq(|header|, i requires 0 <= i < |header| => Table(header[i], map[]))
  }

  /**
   * The lazily evaluated `Where` over the header: each language that is not `Unknown`
   * and has no entry yet, checked against the list as it grows, gets a new empty entry.
   */
  function AddMissing(ts: seq<Table>, header: seq<Language>): seq<Table>
    decreases |header|
  {
    if header == [] then ts
    else
      var l := header[0];
      AddMissing(if l != Unknown && FirstIndex(ts, l).None? then ts + [Table(l, map[])] else ts, header[1..])
  }

  /** Rows are read against the header of their own source. */
  datatype Load = Load(locales: Option<seq<Table>>, header: Option<seq<Language>>)

  /** What is left after a step, and the exception that stopped it, if one did. */
  datatype Outcome<S> = Outcome(state: S, error: Option<ProviderError>)

  /** `entry.SetValue(key, columns[i])` for `i = from ..`, stopping at the first exception. */
  function WriteRow(ts: seq<Table>, header: seq<Language>, columns: seq<string>, from: nat): (r: Outcome<seq<Table>>)
    requires |columns| >= 1
    ensures |r.state| == |ts|
    ensures forall k | 0 <= k < |ts| :: r.state[k].language == ts[k].language
    decreases |columns| - from
  {
    if from >= |columns| then Outcome(ts, None)
    else if from >= |header| then Outcome(ts, Some(IndexOutOfRange))
    else
      match FirstIndex(ts, header[from])
      case None => Outcome(ts, Some(NoMatchingEntry))
      case Some(k) =>
        var t := ts[k];
        WriteRow(ts[k := Table(t.language, t.texts[columns[0] := columns[from]])], header, columns, from + 1)
  }

  /** One record of a source: the header when none has been read yet, a row otherwise. */
  function ApplyRecord(ld: Load, columns: seq<string>): Outcome<Load>
    requires |columns| >= 1
  {
    match ld.header
    case None =>
      (match HeaderLanguages(columns[1..])
       case Err(e) => Outcome(ld, Some(e))
       case Ok(ls) =>
         var header := [Unknown] + ls;
         var locales := if ld.locales.None? then EmptyTables(header) else AddMissing(ld.locales.value, header);
         Outcome(Load(Some(locales), Some(header)), None))
    case Some(header) =>
      var w := WriteRow(if ld.locales.Some? then ld.locales.value else [], header, columns, 1);
      Outcome(Load(if ld.locales.Some? then Some(w.state) else ld.locales, ld.header), w.error)
  }

  /** The records of one source in order, stopping at the first exception. */
  function ApplyRecords(ld: Load, records: seq<seq<string>>): Outcome<Load>
    requires forall r | r in records :: |r| >= 1
    decreases |records|
  {
    if records == [] then Outcome(ld, None)
    else
      var o := ApplyRecord(ld, records[0]);
      if o.error.Some? then o else ApplyRecords(o.state, records[1..])
  }

  /** `ApplyCsvRawData(rawData)` on the list `locales` (`None` while it is null). */
  function ApplySource(locales: Option<seq<Table>>, raw: string): Outcome<Option<seq<Table>>>
  {
    var o := ApplyRecords(Load(locales, None), Csv.ParseRecords(raw));
    Outcome(o.state.locales, o.error)
  }

  /** The sources of `Init` in order; an exception ends `Init` there. */
  function ApplySources(locales: Option<seq<Table>>, raws: seq<string>): Outcome<Option<seq<Table>>>
    decreases |raws|
  {
    if raws == [] then Outcome(locales, None)
    else
      var o := ApplySource(locales, raws[0]);
      if o.error.Some? then o else ApplySources(o.state, raws[1..])
  }

  // ---------------------------------------------------------------------------
  // Properties of the fold
  // ---------------------------------------------------------------------------

  /** `FirstIndex` looks only at languages. */
  lemma {:induction false} FirstIndexByLanguage(ts: seq<Table>, us: seq<Table>, lang: Language)
    requires |ts| == |us|
    requires forall k | 0 <= k < |ts| :: ts[k].language == us[k].language
    ensures FirstIndex(ts, lang) == FirstIndex(us, lang)
  {
    if ts != [] && ts[0].language != lang {
      FirstIndexByLanguage(ts[1..], us[1..], lang);
    }
  }

  /**
   * A later source keeps every existing entry in place and appends one new, empty entry
   * for each header language that is not `Unknown` and had none; afterwards every such
   * language has an entry.
   */
  lemma {:induction false} AddMissingExtends(ts: seq<Table>, header: seq<Language>)
    ensures var r := AddMissing(ts, header);
      |ts| <= |r| && r[..|ts|] == ts &&
      (forall k | |ts| <= k < |r| ::
        r[k].texts == map[] && r[k].language != Unknown && r[k].language in header &&
        FirstIndex(ts, r[k].language).None?) &&
      (forall i, j | |ts| <= i < j < |r| :: r[i].language != r[j].language)
    decreases |header|
  {
    if header != [] {
      var l := header[0];
      var next := if l != Unknown && FirstIndex(ts, l).None? then ts + [Table(l, map[])] else ts;
      AddMissingExtends(next, header[1..]);
      var r := AddMissing(next, header[1..]);
      assert r == AddMissing(ts, header);
      assert r[..|next|] == next;
      assert r[..|ts|] == next[..|ts|] == ts;
      if l != Unknown && FirstIndex(ts, l).None? {
        assert next[|ts|].language == l;
        assert FirstIndex(next, l).Some?;
      }
      forall k | |ts| <= k < |r|
        ensures r[k].texts == map[] && r[k].language != Unknown && r[k].language in header &&
          FirstIndex(ts, r[k].language).None?
      {
        if k >= |next| {
          var x := r[k].language;
          assert FirstIndex(next, x).None?;
          assert forall m | 0 <= m < |ts| :: ts[m] == next[m];
        } else {
          assert next != ts && r[k] == next[k] == Table(l, map[]);
        }
      }
    }
  }

  /** After `AddMissing`, every header language other than `Unknown` has an entry. */
  lemma {:induction false} AddMissingCovers(ts: seq<Table>, header: seq<Language>)
    ensures forall l | l in header && l != Unknown :: FirstIndex(AddMissing(ts, header), l).Some?
    decreases |header|
  {
    if header != [] {
      var l := header[0];
      var next := if l != Unknown && FirstIndex(ts, l).None? then ts + [Table(l, map[])] else ts;
      AddMissingCovers(next, header[1..]);
      AddMissingExtends(next, header[1..]);
      var r := AddMissing(next, header[1..]);
      assert r == AddMissing(ts, header);
      forall m | m in header && m != Unknown
        ensures FirstIndex(r, m).Some?
      {
        if m in header[1..] {
        } else {
          assert m == l;
          if FirstIndex(ts, l).None? {
            assert next[|ts|].language == l;
          }
          var k := FirstIndex(next, l).value;
          assert r[..|next|] == next;
          assert r[k] == next[k];
        }
      }
    }
  }

  /** Every column past the key has an entry to write to. */
  predicate Covered(ts: seq<Table>, header: seq<Language>)
  {
    forall i | 1 <= i < |header| :: FirstIndex(ts, header[i]).Some?
  }

  /** The table `WriteRow` writes column `from` into, when it writes one. */
  function WriteStep(ts: seq<Table>, header: seq<Language>, columns: seq<string>, from: nat): (next: seq<Table>)
    requires |columns| >= 1 && from < |columns| && from < |header| && FirstIndex(ts, header[from]).Some?
    ensures |next| == |ts| && forall k | 0 <= k < |ts| :: next[k].language == ts[k].language
  {
    var k := FirstIndex(ts, header[from]).value;
    ts[k := Table(ts[k].language, ts[k].texts[columns[0] := columns[from]])]
  }

  /** One write changes no entry's language, so the first entry of every language stays put. */
  lemma WriteStepKeepsFirst(ts: seq<Table>, header: seq<Language>, columns: seq<string>, from: nat)
    requires |columns| >= 1 && from < |columns| && from < |header| && FirstIndex(ts, header[from]).Some?
    ensures forall l :: FirstIndex(WriteStep(ts, header, columns, from), l) == FirstIndex(ts, l)
  {
    var next := WriteStep(ts, header, columns, from);
    forall l ensures FirstIndex(next, l) == FirstIndex(ts, l) {
      FirstIndexByLanguage(next, ts, l);
    }
  }

  /** A row with a covered header throws exactly when it is wider than the header. */
  lemma {:induction false} RowErrors(ts: seq<Table>, header: seq<Language>, columns: seq<string>, from: nat)
    requires |columns| >= 1 && from >= 1 && Covered(ts, header)
    ensures var r := WriteRow(ts, header, columns, from);
      (r.error.Some? <==> from < |columns| && |header| < |columns|) &&
      (r.error.Some? ==> r.error == Some(IndexOutOfRange))
    decreases |columns| - from
  {
    if from < |columns| && from < |header| {
      WriteStepKeepsFirst(ts, header, columns, from);
      RowErrors(WriteStep(ts, header, columns, from), header, columns, from + 1);
    }
  }

  /** A row changes nothing but the text of its own key. */
  lemma {:induction false} RowOnlyKey(ts: seq<Table>, header: seq<Language>, columns: seq<string>, from: nat)
    requires |columns| >= 1
    ensures var r := WriteRow(ts, header, columns, from);
      forall k | 0 <= k < |ts| :: r.state[k].texts - {columns[0]} == ts[k].texts - {columns[0]}
    decreases |columns| - from
  {
    if from < |columns| && from < |header| && FirstIndex(ts, header[from]).Some? {
      var next := WriteStep(ts, header, columns, from);
      RowOnlyKey(next, header, columns, from + 1);
      assert forall k | 0 <= k < |ts| :: next[k].texts - {columns[0]} == ts[k].texts - {columns[0]};
    }
  }

  /**
   * A row changes only the first entry of each of its columns' languages: later entries
   * of a language (a header naming it twice) and entries of other languages are kept.
   */
  lemma {:induction false} RowTargets(ts: seq<Table>, header: seq<Language>, columns: seq<string>, from: nat, k: nat)
    requires |columns| >= 1 && k < |ts|
    requires FirstIndex(ts, ts[k].language) != Some(k) ||
      forall i | from <= i < |columns| && i < |header| :: header[i] != ts[k].language
    ensures WriteRow(ts, header, columns, from).state[k] == ts[k]
    decreases |columns| - from
  {
    if from < |columns| && from < |header| && FirstIndex(ts, header[from]).Some? {
      var next := WriteStep(ts, header, columns, from);
      WriteStepKeepsFirst(ts, header, columns, from);
      assert next[k] == ts[k];
      RowTargets(next, header, columns, from + 1, k);
    }
  }

  /** For each language the row writes, the last column of that language wins. */
  lemma {:induction false} RowLastWins(ts: seq<Table>, header: seq<Language>, columns: seq<string>, from: nat, i: nat)
    requires |columns| >= 1 && Covered(ts, header) && 1 <= from <= i < |columns| && i < |header|
    requires forall j | i < j < |columns| && j < |header| :: header[j] != header[i]
    ensures var t := WriteRow(ts, header, columns, from).state[FirstIndex(ts, header[i]).value];
      columns[0] in t.texts && t.texts[columns[0]] == columns[i]
    decreases |columns| - from
  {
    var next := WriteStep(ts, header, columns, from);
    WriteStepKeepsFirst(ts, header, columns, from);
    if i == from {
      var k0 := FirstIndex(ts, header[from]).value;
      RowTargets(next, header, columns, from + 1, k0);
    } else {
      RowLastWins(next, header, columns, from + 1, i);
    }
  }

  /** Once a header has been read, every column it names past the key has an entry. */
  predicate Consistent(ld: Load)
  {
    ld.header.Some? ==> ld.locales.Some? && Covered(ld.locales.value, ld.header.value)
  }

  lemma ApplyRecordConsistent(ld: Load, columns: seq<string>)
    requires |columns| >= 1 && Consistent(ld)
    ensures var o := ApplyRecord(ld, columns);
      Consistent(o.state) && o.error != Some(NoMatchingEntry)
  {
    var o := ApplyRecord(ld, columns);
    match ld.header
    case None =>
      var hl := HeaderLanguages(columns[1..]);
      if hl.Ok? {
        var header := [Unknown] + hl.value;
        var ts := o.state.locales.value;
        forall i | 1 <= i < |header| ensures FirstIndex(ts, header[i]).Some? {
          if ld.locales.None? {
            assert ts[i].language == header[i];
          } else {
            AsLanguageInjective(columns[1..][i - 1], columns[1..][i - 1]);
            assert header[i] in header && header[i] != Unknown;
            AddMissingCovers(ld.locales.value, header);
          }
        }
      }
    case Some(header) =>
      var ts := ld.locales.value;
      RowErrors(ts, header, columns, 1);
      var w := WriteRow(ts, header, columns, 1);
      forall l ensures FirstIndex(w.state, l) == FirstIndex(ts, l) {
        FirstIndexByLanguage(w.state, ts, l);
      }
  }

  lemma {:induction false} ApplyRecordsNeverMissing(ld: Load, records: seq<seq<string>>)
    requires forall r | r in records :: |r| >= 1
    requires Consistent(ld)
    ensures ApplyRecords(ld, records).error != Some(NoMatchingEntry)
    decreases |records|
  {
    if records != [] {
      assert records[0] in records;
      ApplyRecordConsistent(ld, records[0]);
      var o := ApplyRecord(ld, records[0]);
      if o.error.None? {
        assert forall r | r in records[1..] :: r in records;
        ApplyRecordsNeverMissing(o.state, records[1..]);
      }
    }
  }

  /**
   * `First` never throws: a source can only fail on an unsupported header abbreviation
   * or on a row wider than its header.
   */
  lemma {:induction false} SourceErrors(locales: Option<seq<Table>>, raws: seq<string>)
    ensures var e := ApplySources(locales, raws).error;
      e.None? || e.value.NotSupported? || e.value == IndexOutOfRange
    decreases |raws|
  {
    if raws != [] {
      ApplyRecordsNeverMissing(Load(locales, None), Csv.ParseRecords(raws[0]));
      var o := ApplySource(locales, raws[0]);
      if o.error.None? {
        SourceErrors(o.state, raws[1..]);
      }
    }
  }

  // ---------------------------------------------------------------------------
  // What a source leaves behind
  // ---------------------------------------------------------------------------

  /** Column `i` of each row long enough to have it, written in row order under the row's key. */
  function ColumnWrites(texts: map<string, string>, rows: seq<seq<string>>, i: nat): map<string, string>
    decreases |rows|
  {
    if rows == [] then texts
    else
      var next := if i < |rows[0]| then texts[rows[0][0] := rows[0][i]] else texts;
      ColumnWrites(next, rows[1..], i)
  }

  /** A key that no row writes in column `i` keeps its text. */
  lemma {:induction false} ColumnWritesUntouched(texts: map<string, string>, rows: seq<seq<string>>,
                                                 i: nat, key: string)
    requires forall n | 0 <= n < |rows| && i < |rows[n]| :: rows[n][0] != key
    ensures key in ColumnWrites(texts, rows, i) <==> key in texts
    ensures key in texts ==> ColumnWrites(texts, rows, i)[key] == texts[key]
    decreases |rows|
  {
    if rows != [] {
      var next := if i < |rows[0]| then texts[rows[0][0] := rows[0][i]] else texts;
      assert forall n | 0 <= n < |rows[1..]| :: rows[1..][n] == rows[n + 1];
      ColumnWritesUntouched(next, rows[1..], i, key);
    }
  }

  /** The last row that writes column `i` for a key decides that key's text. */
  lemma {:induction false} ColumnWritesLast(texts: map<string, string>, rows: seq<seq<string>>,
                                            i: nat, m: nat)
    requires m < |rows| && i < |rows[m]|
    requires forall n | m < n < |rows| && i < |rows[n]| :: rows[n][0] != rows[m][0]
    ensures var t := ColumnWrites(texts, rows, i); rows[m][0] in t && t[rows[m][0]] == rows[m][i]
    decreases |rows|
  {
    var next := if i < |rows[0]| then texts[rows[0][0] := rows[0][i]] else texts;
    assert forall n | 0 <= n < |rows[1..]| :: rows[1..][n] == rows[n + 1];
    if m == 0 {
      ColumnWritesUntouched(next, rows[1..], i, rows[0][0]);
    } else {
      ColumnWritesLast(next, rows[1..], i, m - 1);
    }
  }

  /** `l` is named by column `i` of `header` and by no other column past the key. */
  predicate OnlyColumn(header: seq<Language>, i: nat)
  {
    1 <= i < |header| && forall j | 1 <= j < |header| && j != i :: header[j] != header[i]
  }

  /**
   * One row writes column `i` into the first entry of that column's language and leaves
   * its other texts alone, when no other column names the language.
   */
  lemma RowColumn(ts: seq<Table>, header: seq<Language>, columns: seq<string>, i: nat)
    requires |columns| >= 1 && Covered(ts, header) && OnlyColumn(header, i)
    ensures var k := FirstIndex(ts, header[i]).value;
      WriteRow(ts, header, columns, 1).state[k].texts ==
        if i < |columns| then ts[k].texts[columns[0] := columns[i]] else ts[k].texts
  {
    var k := FirstIndex(ts, header[i]).value;
    var t := WriteRow(ts, header, columns, 1).state[k].texts;
    if i < |columns| {
      RowLastWins(ts, header, columns, 1, i);
      RowOnlyKey(ts, header, columns, 1);
      assert t - {columns[0]} == ts[k].texts - {columns[0]};
      forall x ensures x in t <==> x in ts[k].texts[columns[0] := columns[i]] {
        assert x != columns[0] ==> (x in t <==> x in t - {columns[0]});
      }
      forall x | x in t ensures t[x] == ts[k].texts[columns[0] := columns[i]][x] {
        if x != columns[0] {
          assert x in t - {columns[0]};
        }
      }
    } else {
      RowTargets(ts, header, columns, 1, k);
    }
  }

  /**
   * Once the header is read, the rows that follow write column `i` of each row into the
   * first entry of its language, in row order, when no other column names that language;
   * the first entry of the language stays where it is.
   */
  lemma {:induction false} RowsColumn(ld: Load, rows: seq<seq<string>>, i: nat)
    requires forall r | r in rows :: |r| >= 1
    requires Consistent(ld) && ld.header.Some? && OnlyColumn(ld.header.value, i)
    ensures var o := ApplyRecords(ld, rows);
      var l := ld.header.value[i];
      var k := FirstIndex(ld.locales.value, l).value;
      o.error.None? ==>
        o.state.locales.Some? && FirstIndex(o.state.locales.value, l) == Some(k) &&
        o.state.locales.value[k].texts == ColumnWrites(ld.locales.value[k].texts, rows, i)
    decreases |rows|
  {
    if rows != [] {
      var header := ld.header.value;
      var ts := ld.locales.value;
      var l := header[i];
      var k := FirstIndex(ts, l).value;
      assert rows[0] in rows;
      assert forall r | r in rows[1..] :: r in rows;
      var o1 := ApplyRecord(ld, rows[0]);
      var w := WriteRow(ts, header, rows[0], 1);
      assert o1.state == Load(Some(w.state), ld.header);
      ApplyRecordConsistent(ld, rows[0]);
      RowColumn(ts, header, rows[0], i);
      FirstIndexByLanguage(w.state, ts, l);
      if o1.error.None? {
        RowsColumn(o1.state, rows[1..], i);
      }
    }
  }

  /** The texts of the first entry of `l`, if the list exists and has one. */
  function FirstTexts(locales: Option<seq<Table>>, l: Language): Option<map<string, string>>
  {
    if locales.Some? && FirstIndex(locales.value, l).Some? then
      Some(locales.value[FirstIndex(locales.value, l).value].texts)
    else None
  }

  /** The texts a source starts from for `l`: those of its first entry, none when there is none. */
  function Earlier(locales: Option<seq<Table>>, l: Language): map<string, string>
  {
    match FirstTexts(locales, l)
    case Some(t) => t
    case None => map[]
  }

  /** An entry that was first for `l` before is still first for it after. */
  predicate StaysFirst(before: Option<seq<Table>>, after: Option<seq<Table>>, l: Language)
  {
    before.Some? && FirstIndex(before.value, l).Some? ==>
      after.Some? && FirstIndex(after.value, l) == FirstIndex(before.value, l)
  }

  /** A list extended at the end finds a language where it found it before. */
  lemma FirstIndexPrefix(ts: seq<Table>, r: seq<Table>, l: Language)
    requires |ts| <= |r| && r[..|ts|] == ts && FirstIndex(ts, l).Some?
    ensures FirstIndex(r, l) == FirstIndex(ts, l)
  {
    var k := FirstIndex(ts, l).value;
    assert r[k] == ts[k];
    assert forall m | 0 <= m < k :: r[m] == ts[m];
  }

  /**
   * The header of a source puts the language of column `i` first at the entry it already
   * had, or at a new empty entry.
   */
  lemma HeaderColumn(locales: Option<seq<Table>>, header: seq<Language>, i: nat)
    requires OnlyColumn(header, i) && header[0] == Unknown && header[i] != Unknown
    ensures var ts := if locales.None? then EmptyTables(header) else AddMissing(locales.value, header);
      FirstTexts(Some(ts), header[i]) == Some(Earlier(locales, header[i])) &&
      StaysFirst(locales, Some(ts), header[i])
  {
    var l := header[i];
    if locales.None? {
      var ts := EmptyTables(header);
      assert ts[i].language == l;
      assert forall m | 0 <= m < i :: ts[m].language == header[m] != l;
    } else {
      var ts := AddMissing(locales.value, header);
      AddMissingExtends(locales.value, header);
      AddMissingCovers(locales.value, header);
      assert l in header;
      if FirstIndex(locales.value, l).Some? {
        FirstIndexPrefix(locales.value, ts, l);
      }
    }
  }

  /** The header record of a source, read against the columns' abbreviations. */
  lemma HeaderRecord(locales: Option<seq<Table>>, h: seq<string>, i: nat)
    requires 1 <= i < |h| && forall j | 1 <= j < |h| && j != i :: h[j] != h[i]
    ensures var o := ApplyRecord(Load(locales, None), h);
      o.error.None? ==>
        AsLanguage(h[i]).Ok? && Consistent(o.state) && o.state.header.Some? &&
        OnlyColumn(o.state.header.value, i) && o.state.header.value[i] == AsLanguage(h[i]).value &&
        FirstTexts(o.state.locales, AsLanguage(h[i]).value) == Some(Earlier(locales, AsLanguage(h[i]).value)) &&
        StaysFirst(locales, o.state.locales, AsLanguage(h[i]).value)
  {
    var ld := Load(locales, None);
    ApplyRecordConsistent(ld, h);
    var hl := HeaderLanguages(h[1..]);
    if hl.Ok? {
      var header := [Unknown] + hl.value;
      assert forall j | 1 <= j < |h| :: AsLanguage(h[j]) == Ok(header[j]) by {
        assert forall j | 1 <= j < |h| :: h[1..][j - 1] == h[j];
      }
      forall j | 1 <= j < |header| && j != i ensures header[j] != header[i] {
        AsLanguageInjective(h[j], h[i]);
      }
      AsLanguageInjective(h[i], h[i]);
      HeaderColumn(locales, header, i);
    }
  }

  /** `RowsColumn` stated on the list of entries. */
  lemma RowsColumnTexts(ld: Load, rows: seq<seq<string>>, i: nat)
    requires forall r | r in rows :: |r| >= 1
    requires Consistent(ld) && ld.header.Some? && OnlyColumn(ld.header.value, i)
    ensures var o := ApplyRecords(ld, rows);
      var l := ld.header.value[i];
      o.error.None? ==>
        FirstTexts(ld.locales, l).Some? &&
        FirstTexts(o.state.locales, l) == Some(ColumnWrites(FirstTexts(ld.locales, l).value, rows, i)) &&
        StaysFirst(ld.locales, o.state.locales, l)
  {
    RowsColumn(ld, rows, i);
  }

  /** `SourceColumn` on the records of the source. */
  lemma RecordsColumn(locales: Option<seq<Table>>, records: seq<seq<string>>, i: nat)
    requires forall r | r in records :: |r| >= 1
    requires |records| >= 1 && 1 <= i < |records[0]|
    requires forall j | 1 <= j < |records[0]| && j != i :: records[0][j] != records[0][i]
    ensures var o := ApplyRecords(Load(locales, None), records);
      o.error.None? ==>
        AsLanguage(records[0][i]).Ok? &&
        var l := AsLanguage(records[0][i]).value;
        FirstTexts(o.state.locales, l) == Some(ColumnWrites(Earlier(locales, l), records[1..], i)) &&
        StaysFirst(locales, o.state.locales, l)
  {
    var o1 := ApplyRecord(Load(locales, None), records[0]);
    HeaderRecord(locales, records[0], i);
    if o1.error.None? {
      assert records[0] in records;
      assert forall r | r in records[1..] :: r in records;
      RowsColumnTexts(o1.state, records[1..], i);
    }
  }

  /**
   * A source that does not throw, whose header names the language of its column `i` in
   * no other column, leaves the first entry of that language holding its earlier texts
   * (none when it is new) overwritten by column `i` of every row long enough to have it,
   * in row order; an entry that was already first for the language stays first.
   */
  lemma SourceColumn(locales: Option<seq<Table>>, raw: string, i: nat)
    requires |Csv.ParseRecords(raw)| >= 1 && 1 <= i < |Csv.ParseRecords(raw)[0]|
    requires var h := Csv.ParseRecords(raw)[0]; forall j | 1 <= j < |h| && j != i :: h[j] != h[i]
    ensures var o := ApplySource(locales, raw);
      var records := Csv.ParseRecords(raw);
      o.error.None? ==>
        AsLanguage(records[0][i]).Ok? &&
        var l := AsLanguage(records[0][i]).value;
        FirstTexts(o.state, l) == Some(ColumnWrites(Earlier(locales, l), records[1..], i)) &&
        StaysFirst(locales, o.state, l)
  {
    RecordsColumn(locales, Csv.ParseRecords(raw), i);
  }

  /** `ApplySources` over `raws + [last]`: the run over `raws`, then `last` unless it threw. */
  lemma {:induction false} ApplySourcesSnoc(locales: Option<seq<Table>>, raws: seq<string>, last: string)
    ensures var o := ApplySources(locales, raws);
      ApplySources(locales, raws + [last]) == if o.error.Some? then o else ApplySource(o.state, last)
    decreases |raws|
  {
    if raws == [] {
      assert raws + [last] == [last];
    } else {
      assert (raws + [last])[0] == raws[0] && (raws + [last])[1..] == raws[1..] + [last];
      var o := ApplySource(locales, raws[0]);
      if o.error.None? {
        ApplySourcesSnoc(o.state, raws[1..], last);
      }
    }
  }

  /** `LaterSourceWins` on the records of the last source. */
  lemma LastRecordsWin(before: Option<seq<Table>>, records: seq<seq<string>>, i: nat, m: nat)
    requires forall r | r in records :: |r| >= 1
    requires |records| >= 1 && 1 <= i < |records[0]|
    requires forall j | 1 <= j < |records[0]| && j != i :: records[0][j] != records[0][i]
    requires 1 <= m < |records| && i < |records[m]|
    requires forall n | m < n < |records| && i < |records[n]| :: records[n][0] != records[m][0]
    ensures var o := ApplyRecords(Load(before, None), records);
      o.error.None? ==>
        AsLanguage(records[0][i]).Ok? &&
        var t := FirstTexts(o.state.locales, AsLanguage(records[0][i]).value);
        t.Some? && records[m][0] in t.value && t.value[records[m][0]] == records[m][i]
  {
    RecordsColumn(before, records, i);
    if AsLanguage(records[0][i]).Ok? {
      var rows := records[1..];
      assert forall n | m - 1 < n < |rows| && i < |rows[n]| :: rows[n][0] != rows[m - 1][0] by {
        assert forall n | 0 <= n < |rows| :: rows[n] == records[n + 1];
      }
      ColumnWritesLast(Earlier(before, AsLanguage(records[0][i]).value), rows, i, m - 1);
    }
  }

  /**
   * Later sources overwrite earlier ones: after a run of sources without an exception,
   * a key that the last source writes in a column whose language no other column of its
   * header names reads, in the first entry of that language, the text of the last row of
   * that source that writes it there, whatever the earlier sources held.
   */
  lemma LaterSourceWins(locales: Option<seq<Table>>, raws: seq<string>, last: string, i: nat, m: nat)
    requires |Csv.ParseRecords(last)| >= 1 && 1 <= i < |Csv.ParseRecords(last)[0]|
    requires var h := Csv.ParseRecords(last)[0]; forall j | 1 <= j < |h| && j != i :: h[j] != h[i]
    requires var rs := Csv.ParseRecords(last); 1 <= m < |rs| && i < |rs[m]|
    requires var rs := Csv.ParseRecords(last);
      forall n | m < n < |rs| && i < |rs[n]| :: rs[n][0] != rs[m][0]
    ensures var o := ApplySources(locales, raws + [last]);
      var rs := Csv.ParseRecords(last);
      o.error.None? ==>
        AsLanguage(rs[0][i]).Ok? &&
        var t := FirstTexts(o.state, AsLanguage(rs[0][i]).value);
        t.Some? && rs[m][0] in t.value && t.value[rs[m][0]] == rs[m][i]
  {
    ApplySourcesSnoc(locales, raws, last);
    var o := ApplySources(locales, raws);
    if o.error.None? {
      LastRecordsWin(o.state, Csv.ParseRecords(last), i, m);
    }
  }

  // ---------------------------------------------------------------------------
  // The provider object
  // ---------------------------------------------------------------------------

  /** The entry objects `es` hold, in order, the languages and texts of `ts`. */
  ghost predicate Models(es: seq<LocaleEntry>, ts: seq<Table>)
    reads es
  {
    |es| == |ts| &&
    forall k | 0 <= k < |es| :: es[k].language == ts[k].language && es[k].texts == ts[k].texts
  }

  /** No entry object appears twice. */
  ghost predicate Distinct(es: seq<LocaleEntry>)
  {
    forall i, j | 0 <= i < j < |es| :: es[i] != es[j]
  }

  /** `b` is `a` with entries appended. */
  ghost predicate Extends(a: seq<LocaleEntry>, b: seq<LocaleEntry>)
  {
    |a| <= |b| && forall k | 0 <= k < |a| :: b[k] == a[k]
  }

  class CsvLocalizationProvider {
    /** `_locales != null`. */
    var hasLocales: bool
    /** `_locales`, empty while it is null. */
    var locales: seq<LocaleEntry>
    /** `_isInited`. */
    var isInited: bool
    /** The number of times `InitCompleteEvent` was raised. */
    var initCompleteEvents: nat
    /** The number of `Debug.LogError` messages. */
    var loggedErrors: nat
    /** The languages and texts of `locales`. */
    ghost var tables: seq<Table>

    ghost predicate Valid()
      reads this, locales
    {
      (hasLocales || locales == []) && Distinct(locales) && Models(locales, tables) &&
      forall e | e in locales :: e.queue.None?
    }

    /** The list as values: `None` while `_locales` is null. */
    ghost function Snapshot(): Option<seq<Table>>
      reads this
    {
      if hasLocales then Some(tables) else None
    }

    constructor ()
      ensures Valid() && Snapshot() == None
      ensures !isInited && initCompleteEvents == 0 && loggedErrors == 0
    {
      hasLocales := false;
      locales := [];
      isInited := false;
      initCompleteEvents := 0;
      loggedErrors := 0;
      tables := [];
    }

    /**
     * The `Locales` getter, whose `Assert.IsTrue(_isInited)` is its precondition: the list
     * as it is, null when no source had a header.
     */
    function Locales(): (r: Option<seq<LocaleEntry>>)
      reads this
      requires isInited
      ensures r.Some? <==> hasLocales
      ensures r.Some? ==> r.value == locales
    {
      if hasLocales then Some(locales) else None
    }

    /** The `IsInited` setter: `InitCompleteEvent` is raised on each change. */
    method SetIsInited(value: bool)
      modifies this`isInited, this`initCompleteEvents
      ensures isInited == value
      ensures initCompleteEvents == old(initCompleteEvents) + (if old(isInited) == value then 0 else 1)
    {
      if value == isInited {
        return;
      }
      isInited := value;
      initCompleteEvents := initCompleteEvents + 1;
    }

    /** `_locales.First(e => e.Language == lang)`, by index. */
    method FindFirst(lang: Language) returns (r: Option<nat>)
      requires Valid()
      ensures r == FirstIndex(tables, lang)
    {
      for k := 0 to |locales|
        invariant forall m | 0 <= m < k :: tables[m].language != lang
      {
        if locales[k].language == lang {
          return Some(k);
        }
      }
      return None;
    }

    /** `header.Select(language => new LocaleEntry(language)).ToList()`. */
    method CreateEntries(header: seq<Language>)
      requires Valid() && !hasLocales
      modifies this
      ensures Valid() && hasLocales && tables == EmptyTables(header)
      ensures forall e | e in locales :: fresh(e)
      ensures isInited == old(isInited) && initCompleteEvents == old(initCompleteEvents)
      ensures loggedErrors == old(loggedErrors)
    {
      locales := [];
      tables := [];
      for i := 0 to |header|
        invariant !hasLocales && tables == EmptyTables(header[..i])
        invariant Distinct(locales)
        invariant Models(locales, tables)
        invariant forall e | e in locales :: e.queue.None?
        invariant forall e | e in locales :: fresh(e)
        invariant isInited == old(isInited) && initCompleteEvents == old(initCompleteEvents)
        invariant loggedErrors == old(loggedErrors)
      {
        var e := new LocaleEntry(header[i]);
        locales := locales + [e];
        tables := tables + [Table(header[i], map[])];
        assert header[..i + 1] == header[..i] + [header[i]];
        assert tables == EmptyTables(header[..i + 1]);
      }
      assert header[..|header|] == header;
      hasLocales := true;
    }

    /** `_locales.Add(new LocaleEntry(language))`. */
    method AppendEntry(l: Language)
      requires Valid() && hasLocales
      modifies this`locales, this`tables
      ensures Valid() && hasLocales && tables == old(tables) + [Table(l, map[])]
      ensures Extends(old(locales), locales) && |locales| == |old(locales)| + 1
      ensures fresh(locales[|locales| - 1])
    {
      var e := new LocaleEntry(l);
      locales := locales + [e];
      tables := tables + [Table(l, map[])];
    }

    /** The loop over the lazily filtered header that appends the languages with no entry. */
    method AddMissingEntries(header: seq<Language>)
      requires Valid() && hasLocales
      modifies this
      ensures Valid() && hasLocales && tables == AddMissing(old(tables), header)
      ensures Extends(old(locales), locales)
      ensures forall k | |old(locales)| <= k < |locales| :: fresh(locales[k])
      ensures isInited == old(isInited) && initCompleteEvents == old(initCompleteEvents)
      ensures loggedErrors == old(loggedErrors)
    {
      for i := 0 to |header|
        invariant Valid() && hasLocales
        invariant AddMissing(tables, header[i..]) == AddMissing(old(tables), header)
        invariant Extends(old(locales), locales)
        invariant forall k | |old(locales)| <= k < |locales| :: fresh(locales[k])
        invariant isInited == old(isInited) && initCompleteEvents == old(initCompleteEvents)
        invariant loggedErrors == old(loggedErrors)
      {
        var l := header[i];
        assert header[i..][0] == l && header[i..][1..] == header[i + 1..];
        if l != Unknown {
          var first := FindFirst(l);
          if first.None? {
            AppendEntry(l);
          }
        }
      }
      assert header[|header|..] == [];
    }

    /** The loop writing one data row into the entries, against the source's header. */
    method WriteRowEntries(header: seq<Language>, columns: seq<string>) returns (error: Option<ProviderError>)
      requires Valid() && hasLocales && |columns| >= 1
      modifies this`tables, locales
      ensures Valid()
      ensures var w := WriteRow(old(tables), header, columns, 1); tables == w.state && error == w.error
    {
      var key := columns[0];
      var i := 1;
      while i < |columns|
        invariant Valid() && 1 <= i
        invariant WriteRow(tables, header, columns, i) == WriteRow(old(tables), header, columns, 1)
        decreases |columns| - i
      {
        if i >= |header| {
          return Some(IndexOutOfRange);
        }
        var first := FindFirst(header[i]);
        if first.None? {
          return Some(NoMatchingEntry);
        }
        var k := first.value;
        var entry := locales[k];
        entry.SetValue(key, columns[i]);
        tables := tables[k := Table(tables[k].language, tables[k].texts[key := columns[i]])];
        i := i + 1;
      }
      return None;
    }

    /** The body of the record loop: the header when none was read yet, a row otherwise. */
    method ApplyRecordEntries(header: Option<seq<Language>>, columns: seq<string>)
      returns (next: Option<seq<Language>>, error: Option<ProviderError>)
      requires Valid() && (header.Some? ==> hasLocales) && |columns| >= 1
      modifies this, locales
      ensures Valid() && (next.Some? ==> hasLocales)
      ensures var o := ApplyRecord(Load(old(Snapshot()), header), columns);
        Load(Snapshot(), next) == o.state && error == o.error
      ensures Extends(old(locales), locales)
      ensures forall k | |old(locales)| <= k < |locales| :: fresh(locales[k])
      ensures isInited == old(isInited) && initCompleteEvents == old(initCompleteEvents)
      ensures loggedErrors == old(loggedErrors)
    {
      next := header;
      if header.None? {
        var languages := HeaderLanguages(columns[1..]);
        if languages.Err? {
          return next, Some(languages.error);
        }
        var h := [Unknown] + languages.value;
        if !hasLocales {
          CreateEntries(h);
          assert forall k | 0 <= k < |locales| :: locales[k] in locales;
        } else {
          AddMissingEntries(h);
        }
        return Some(h), None;
      }
      error := WriteRowEntries(header.value, columns);
    }

    /** `ApplyCsvRawData`: one CSV source, applied record by record. */
    method ApplyCsvRawData(raw: string) returns (error: Option<ProviderError>)
      requires Valid()
      modifies this, locales
      ensures Valid()
      ensures var o := ApplySource(old(Snapshot()), raw); Snapshot() == o.state && error == o.error
      ensures Extends(old(locales), locales)
      ensures forall k | |old(locales)| <= k < |locales| :: fresh(locales[k])
      ensures isInited == old(isInited) && initCompleteEvents == old(initCompleteEvents)
      ensures loggedErrors == old(loggedErrors)
    {
      var records := Csv.Parse(raw);
      assert forall x | x in records :: |x| >= 1;
      var header: Option<seq<Language>> := None;
      var r := 0;
      while r < |records|
        invariant 0 <= r <= |records| && Valid()
        invariant forall x | x in records[r..] :: |x| >= 1
        invariant header.Some? ==> hasLocales
        invariant ApplyRecords(Load(Snapshot(), header), records[r..]) ==
          ApplyRecords(Load(old(Snapshot()), None), records)
        invariant Extends(old(locales), locales)
        invariant forall k | |old(locales)| <= k < |locales| :: fresh(locales[k])
        invariant forall e | e in locales :: e in old(locales) || fresh(e)
        invariant isInited == old(isInited) && initCompleteEvents == old(initCompleteEvents)
        invariant loggedErrors == old(loggedErrors)
        decreases |records| - r
      {
        assert records[r] in records;
        assert records[r..][0] == records[r] && records[r..][1..] == records[r + 1..];
        header, error := ApplyRecordEntries(header, records[r]);
        if error.Some? {
          return error;
        }
        r := r + 1;
      }
      assert records[r..] == [];
      return None;
    }

    /** The loop of `Init`: each source applied in turn, stopping at the first error. */
    method ApplyAll(raws: seq<string>) returns (error: Option<ProviderError>)
      requires Valid()
      modifies this, locales
      ensures Valid()
      ensures var o := ApplySources(old(Snapshot()), raws); Snapshot() == o.state && error == o.error
      ensures Extends(old(locales), locales)
      ensures forall k | |old(locales)| <= k < |locales| :: fresh(locales[k])
      ensures isInited == old(isInited) && initCompleteEvents == old(initCompleteEvents)
      ensures loggedErrors == old(loggedErrors)
    {
      for i := 0 to |raws|
        invariant Valid() && isInited == old(isInited)
        invariant ApplySources(Snapshot(), raws[i..]) == ApplySources(old(Snapshot()), raws)
        invariant Extends(old(locales), locales)
        invariant forall k | |old(locales)| <= k < |locales| :: fresh(locales[k])
        invariant forall e | e in locales :: e in old(locales) || fresh(e)
        invariant initCompleteEvents == old(initCompleteEvents) && loggedErrors == old(loggedErrors)
      {
        assert raws[i..][0] == raws[i] && raws[i..][1..] == raws[i + 1..];
        error := ApplyCsvRawData(raws[i]);
        if error.Some? {
          return error;
        }
      }
      assert raws[|raws|..] == [];
      return None;
    }

    /**
     * `Init`: a provider is initialised once; each source is applied in order, and only
     * when all of them were applied without an exception is it marked initialised.
     */
    method Init(raws: seq<string>) returns (error: Option<ProviderError>)
      requires Valid()
      modifies this, locales
      ensures Valid()
      ensures old(isInited) ==>
        Snapshot() == old(Snapshot()) && locales == old(locales) && error == None &&
        isInited && initCompleteEvents == old(initCompleteEvents) &&
        loggedErrors == old(loggedErrors) + 1
      ensures !old(isInited) ==>
        var o := ApplySources(old(Snapshot()), raws);
        Snapshot() == o.state && error == o.error && isInited == o.error.None? &&
        initCompleteEvents == old(initCompleteEvents) + (if o.error.None? then 1 else 0) &&
        loggedErrors == old(loggedErrors)
      ensures Extends(old(locales), locales)
      ensures forall k | |old(locales)| <= k < |locales| :: fresh(locales[k])
    {
      if isInited {
        loggedErrors := loggedErrors + 1;
        return None;
      }
      error := ApplyAll(raws);
      if error.Some? {
        return error;
      }
      SetIsInited(true);
      return None;
    }
  }
}
