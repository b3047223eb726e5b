/**
 * `Base.LocaleService.LocaleServiceBase`, the older localisation service: its own
 * single-line `SeparateLine`, a `ParseLocales` that splits the text into lines first, a
 * ready flag that flips once when every requested source has completed, and lookups that
 * return the key until then.
 *
 * The inner `LocaleEntry` objects never leave the service, so the model keeps only their
 * texts: `localesMap` maps each language to the texts of the entry registered for it.
 * While one text is parsed, the entries its header refers to are named by an `Id`: the
 * entry already registered for a language, or the one created for a header column.
 *
 * `KeyToLanguage` and `IsLanguageSupported` are the parameters `keyToLanguage` and
 * `isSupported` (a title `KeyToLanguage` throws on maps to `None`), `Enum.IsDefined` is
 * `isDefined`, `Application.systemLanguage` is `systemLanguage`, and PlayerPrefs is the
 * field `stored` (the value under the service's persist key).
 */
module BaseLocaleService {
  import opened Wrappers
  import opened Languages
  import opened LocaleEntries
  import opened RawString
  import Csv
  import LocalizationManager

  /** The texts of one `LocaleEntry`, keyed by localisation key. */
  type Texts = map<string, string>

  // ---------------------------------------------------------------------------
  // Lines: string.Split(new[] {"\n", "\r\n"}, StringSplitOptions.RemoveEmptyEntries)
  // ---------------------------------------------------------------------------

  /** A piece before `\n` loses the `\r` of a `\r\n` separator. */
  function DropCr(p: string): string
  {
    if p != [] && p[|p| - 1] == '\r' then p[..|p| - 1] else p
  }

  /** The pieces between separators `\n` and `\r\n`; a lone `\r` is ordinary text. */
  function Pieces(s: string): (ps: seq<string>)
    ensures forall p | p in ps :: '\n' !in p
    decreases |s|
  {
    var i := Csv.IndexOf(s, '\n');
    assert '\n' !in s[..i] by {
      assert forall k | 0 <= k < i :: s[..i][k] == s[k];
    }
    if i == |s| then [s] else [DropCr(s[..i])] + Pieces(s[i + 1..])
  }

  /** `RemoveEmptyEntries`. */
  function NonEmpty(ps: seq<string>): (r: seq<string>)
    ensures forall l | l in r :: l in ps && l != ""
  {
    if ps == [] then [] else (if ps[0] == "" then [] else [ps[0]]) + NonEmpty(ps[1..])
  }

  /** The non-empty lines of `s`, split at `\n` and `\r\n`. */
  function SplitLines(s: string): (lines: seq<string>)
    ensures forall l | l in lines :: l != "" && '\n' !in l
  {
    NonEmpty(Pieces(s))
  }

  /** A line followed by its separator, then more text. */
  lemma PiecesCons(l: string, t: string, rest: string)
    requires t == "\n" || t == "\r\n"
    requires '\n' !in l && (t == "\n" ==> l == [] || l[|l| - 1] != '\r')
    ensures Pieces(l + t + rest) == [l] + Pieces(rest)
  {
    var s := l + t + rest;
    var i := |l| + |t| - 1;
    assert s[i] == '\n';
    assert forall k | 0 <= k < i :: s[k] != '\n' by {
      forall k | 0 <= k < i ensures s[k] != '\n' {
        if k < |l| {
          assert s[k] == l[k] && l[k] in l;
        } else {
          assert s[k] == '\r';
        }
      }
    }
    var j := Csv.IndexOf(s, '\n');
    assert j == i;
    assert s[i + 1..] == rest;
    if t == "\n" {
      assert s[..i] == l;
    } else {
      assert s[..i] == l + "\r";
      assert DropCr(s[..i]) == l;
    }
  }

  /**
   * Lines written each with the separator `\n` or `\r\n` are read back exactly, when none
   * is empty or holds `\n` (and, with `\n`, none ends with `\r`).
   */
  lemma {:induction false} SplitLinesTerminated(ls: seq<string>, t: string)
    requires t == "\n" || t == "\r\n"
    requires forall l | l in ls :: l != "" && '\n' !in l && (t == "\n" ==> l[|l| - 1] != '\r')
    ensures SplitLines(Csv.Terminated(ls, t)) == ls
  {
    PiecesTerminated(ls, t);
    NonEmptyLast(ls);
  }

  lemma {:induction false} PiecesTerminated(ls: seq<string>, t: string)
    requires t == "\n" || t == "\r\n"
    requires forall l | l in ls :: l != "" && '\n' !in l && (t == "\n" ==> l[|l| - 1] != '\r')
    ensures Pieces(Csv.Terminated(ls, t)) == ls + [""]
  {
    if ls == [] {
      assert Csv.IndexOf("", '\n') == 0;
    } else {
      assert ls[0] in ls;
      assert forall l | l in ls[1..] :: l in ls;
      var rest := Csv.Terminated(ls[1..], t);
      assert Csv.Terminated(ls, t) == ls[0] + t + rest;
      PiecesCons(ls[0], t, rest);
      PiecesTerminated(ls[1..], t);
      ConsSnoc(ls, "");
    }
  }

  lemma ConsSnoc<T>(xs: seq<T>, y: T)
    requires xs != []
    ensures xs + [y] == [xs[0]] + (xs[1..] + [y])
  {
  }

  lemma {:induction false} NonEmptyLast(ls: seq<string>)
    requires forall l | l in ls :: l != ""
    ensures NonEmpty(ls + [""]) == ls
  {
    if ls == [] {
      assert NonEmpty([""]) == [] + NonEmpty([]);
    } else {
      assert ls[0] in ls;
      assert (ls + [""])[1..] == ls[1..] + [""];
      assert forall l | l in ls[1..] :: l in ls;
      NonEmptyLast(ls[1..]);
      assert ls == [ls[0]] + ls[1..];
    }
  }

  /** A lone `\r` does not end a line here, unlike in `StringReader.ReadLine`. */
  lemma LoneCarriageReturn()
    ensures SplitLines("a\rb") == ["a\rb"]
    ensures Csv.ReadLines("a\rb") == ["a", "b"]
  {
    assert Csv.IndexOf("a\rb", '\n') == 3;
    assert Csv.BreakAt("a\rb") == 1;
    assert "a\rb"[..1] == "a" && "a\rb"[2..] == "b";
    assert Csv.BreakAt("b") == 1;
    assert "b"[..1] == "b" && Csv.ReadLines("b") == ["b"];
  }

  // ---------------------------------------------------------------------------
  // SeparateLine
  // ---------------------------------------------------------------------------

  /**
   * `SeparateLine`: cuts one line into columns. Its `b2s` also resets `prev` and
   * `quoted` after every field, which the shared scanner does where it emits a field, so
   * the columns are exactly those of `CSV.SeparateLine`; but there is no continuation,
   * and an unterminated quoted field runs to the end of the line.
   */
  method SeparateLine(line: string) returns (columns: seq<string>)
    ensures columns == Csv.Separate(line).columns
  {
    columns := [];
    var buffer: string := [];
    var prev := Csv.Separator;
    var quoted := false;
    for i := 0 to |line|
      invariant Csv.Pending(Csv.Scan(columns, buffer, prev, quoted))
      invariant Csv.RunFrom(Csv.Scan(columns, buffer, prev, quoted), line[i..]) ==
                Csv.RunFrom(Csv.Start, line)
    {
      ghost var before := Csv.Scan(columns, buffer, prev, quoted);
      var c := line[i];
      if c == Csv.Separator {
        if quoted && prev != Csv.Quote {
          buffer := buffer + [c];
          prev := c;
        } else {
          // b2s
          if quoted && prev == Csv.Quote {
            buffer := buffer[..|buffer| - 1];
          }
          columns := columns + [buffer];
          buffer := [];
          prev := Csv.Separator;
          quoted := false;
        }
      } else if c == Csv.Quote {
        if prev == Csv.Separator {
          quoted := true;
          prev := Csv.Nul;
        } else if prev == Csv.Quote {
          prev := Csv.Nul;
        } else {
          buffer := buffer + [c];
          prev := c;
        }
      } else {
        buffer := buffer + [c];
        prev := c;
      }
      assert Csv.Scan(columns, buffer, prev, quoted) == Csv.Step(before, line[i]);
      assert line[i..][1..] == line[i + 1..];
    }
    assert line[|line|..] == [];
    // the final b2s
    if quoted && prev == Csv.Quote {
      buffer := buffer[..|buffer| - 1];
    }
    columns := columns + [buffer];
  }

  /** A quote that is never closed takes the rest of the line as one field. */
  lemma OpenQuoteRunsToEnd(g: string)
    requires Csv.Quote !in g
    ensures Csv.Separate([Csv.Quote] + g).columns == [g]
  {
    Csv.OpenQuoteLine(g);
  }

  // ---------------------------------------------------------------------------
  // ParseLocales on values
  // ---------------------------------------------------------------------------

  /** The exception `KeyToLanguage` throws on a column title it does not know. */
  datatype ParseError = KeyRejected

  /**
   * The entry a header column refers to: the one already registered for a language, or
   * the one created for the column (a language missing from the map gets a new entry for
   * each column that names it).
   */
  datatype Id = Existing(language: Language) | Created(column: nat)

  /** The languages of the header titles after column 0, unless some title is rejected. */
  function HeaderLanguages(keyToLanguage: string -> Option<Language>, titles: seq<string>)
    : (r: Option<seq<Language>>)
    ensures r.Some? ==> |r.value| == |titles|
    decreases |titles|
  {
    if titles == [] then Some([])
    else
      var init := HeaderLanguages(keyToLanguage, titles[..|titles| - 1]);
      var last := keyToLanguage(titles[|titles| - 1]);
      if init.None? || last.None? then None else Some(init.value + [last.value])
  }

  /** The header is read when every title maps to a language, each in its column. */
  lemma {:induction false} HeaderLanguagesRead(keyToLanguage: string -> Option<Language>,
                                               titles: seq<string>)
    ensures HeaderLanguages(keyToLanguage, titles).Some? <==>
      forall k | 0 <= k < |titles| :: keyToLanguage(titles[k]).Some?
    ensures HeaderLanguages(keyToLanguage, titles).Some? ==>
      forall k | 0 <= k < |titles| ::
        keyToLanguage(titles[k]) == Some(HeaderLanguages(keyToLanguage, titles).value[k])
    decreases |titles|
  {
    if titles != [] {
      var init := titles[..|titles| - 1];
      HeaderLanguagesRead(keyToLanguage, init);
      assert forall k | 0 <= k < |init| :: init[k] == titles[k];
    }
  }

  /** The entries the header columns after column 0 refer to, in column order. */
  function Ids(m: map<Language, Texts>, hs: seq<Language>): (ids: seq<Id>)
    ensures |ids| == |hs|
  {
    seq(|hs|, k requires 0 <= k < |hs| => if hs[k] in m then Existing(hs[k]) else Created(k + 1))
  }

  /** The texts an entry starts with: those registered for its language, or none. */
  function StartTexts(m: map<Language, Texts>, id: Id): Texts
  {
    if id.Existing? && id.language in m then m[id.language] else map[]
  }

  /** The texts of entry `id`, where `tables` holds those written so far. */
  function Get(m: map<Language, Texts>, tables: map<Id, Texts>, id: Id): Texts
  {
    if id in tables then tables[id] else StartTexts(m, id)
  }

  function Min(a: int, b: int): int
  {
    if a <= b then a else b
  }

  /** One data row: column `j` for `1 <= j < limit` is set under the key in column 0. */
  function WriteColumns(m: map<Language, Texts>, tables: map<Id, Texts>, ids: seq<Id>,
                        row: seq<string>, limit: nat): map<Id, Texts>
    requires 1 <= |row| && limit <= |row| && limit <= |ids| + 1
    decreases limit
  {
    if limit <= 1 then tables
    else
      var t := WriteColumns(m, tables, ids, row, limit - 1);
      var id := ids[limit - 2];
      t[id := Get(m, t, id)[row[0] := row[limit - 1]]]
  }

  /** The data rows of `lines`, each written up to the shorter of the row and the header. */
  function WriteLines(m: map<Language, Texts>, tables: map<Id, Texts>, ids: seq<Id>,
                      lines: seq<string>): map<Id, Texts>
    decreases |lines|
  {
    if lines == [] then tables
    else
      var t := WriteLines(m, tables, ids, lines[..|lines| - 1]);
      var row := Csv.Separate(lines[|lines| - 1]).columns;
      WriteColumns(m, t, ids, row, Min(|row|, |ids| + 1))
  }

  /** The entries of the header registered under their languages, left to right. */
  function Register(m: map<Language, Texts>, hs: seq<Language>, ids: seq<Id>,
                    tables: map<Id, Texts>): (r: map<Language, Texts>)
    requires |ids| == |hs|
    ensures r.Keys == m.Keys + (set l | l in hs)
    decreases |hs|
  {
    if hs == [] then m
    else
      var n := |hs| - 1;
      assert hs == hs[..n] + [hs[n]];
      assert (set l | l in hs) == (set l | l in hs[..n]) + {hs[n]};
      Register(m, hs[..n], ids[..n], tables)[hs[n] := Get(m, tables, ids[n])]
  }

  /**
   * The map after `ParseLocales(raw)` on the map `m`, or the exception it throws. Empty
   * text, a text with fewer than two non-empty lines and a header with fewer than two
   * columns change nothing. Otherwise the header names the entries, each data row writes
   * into them, and they are registered at the end.
   */
  function Parsed(m: map<Language, Texts>, keyToLanguage: string -> Option<Language>, raw: string)
    : Result<map<Language, Texts>, ParseError>
  {
    var lines := SplitLines(raw);
    if raw == "" || |lines| <= 1 then Ok(m)
    else
      var header := Csv.Separate(lines[0]).columns;
      if |header| < 2 then Ok(m)
      else
        var hs := HeaderLanguages(keyToLanguage, header[1..]);
        if hs.None? then Err(KeyRejected)
        else
          var ids := Ids(m, hs.value);
          Ok(Register(m, hs.value, ids, WriteLines(m, map[], ids, lines[1..])))
  }

  // ---------------------------------------------------------------------------
  // What ParseLocales does
  // ---------------------------------------------------------------------------

  /** The texts of column `j` written over `t`, one data row after the other. */
  function ColumnTexts(t: Texts, lines: seq<string>, j: nat): Texts
    decreases |lines|
  {
    if lines == [] then t
    else
      var before := ColumnTexts(t, lines[..|lines| - 1], j);
      var row := Csv.Separate(lines[|lines| - 1]).columns;
      if j < |row| then before[row[0] := row[j]] else before
  }

  /** A key that no row covering column `j` names keeps its text. */
  lemma {:induction false} ColumnTextsUntouched(t: Texts, lines: seq<string>, j: nat, key: string)
    requires forall i | 0 <= i < |lines| ::
      var row := Csv.Separate(lines[i]).columns; j < |row| ==> row[0] != key
    ensures key in ColumnTexts(t, lines, j) <==> key in t
    ensures key in t ==> ColumnTexts(t, lines, j)[key] == t[key]
    decreases |lines|
  {
    if lines != [] {
      var init := lines[..|lines| - 1];
      assert forall i | 0 <= i < |init| :: init[i] == lines[i];
      ColumnTextsUntouched(t, init, j, key);
    }
  }

  /** Header columns that name different languages refer to different entries. */
  predicate Distinct(hs: seq<Language>)
  {
    forall a, b | 0 <= a < b < |hs| :: hs[a] != hs[b]
  }

  lemma IdsDistinct(m: map<Language, Texts>, hs: seq<Language>, a: nat, b: nat)
    requires Distinct(hs) && a < |hs| && b < |hs| && a != b
    ensures Ids(m, hs)[a] != Ids(m, hs)[b]
  {
    assert hs[a] != hs[b];
  }

  /** One row touches the entry of column `k + 1` only at that column. */
  lemma {:induction false} WriteColumnsAt(m: map<Language, Texts>, tables: map<Id, Texts>,
                                          ids: seq<Id>, row: seq<string>, limit: nat, k: nat)
    requires 1 <= |row| && limit <= |row| && limit <= |ids| + 1 && k < |ids|
    requires forall k' | 0 <= k' < |ids| && k' != k :: ids[k'] != ids[k]
    ensures Get(m, WriteColumns(m, tables, ids, row, limit), ids[k]) ==
      if k + 1 < limit then Get(m, tables, ids[k])[row[0] := row[k + 1]] else Get(m, tables, ids[k])
    decreases limit
  {
    if limit > 1 {
      WriteColumnsAt(m, tables, ids, row, limit - 1, k);
    }
  }

  /** The entry of column `k + 1` receives exactly that column of every row. */
  lemma {:induction false} WriteLinesAt(m: map<Language, Texts>, ids: seq<Id>, lines: seq<string>,
                                        k: nat)
    requires k < |ids|
    requires forall k' | 0 <= k' < |ids| && k' != k :: ids[k'] != ids[k]
    ensures Get(m, WriteLines(m, map[], ids, lines), ids[k]) ==
      ColumnTexts(StartTexts(m, ids[k]), lines, k + 1)
    decreases |lines|
  {
    if lines != [] {
      var init := lines[..|lines| - 1];
      WriteLinesAt(m, ids, init, k);
      var row := Csv.Separate(lines[|lines| - 1]).columns;
      WriteColumnsAt(m, WriteLines(m, map[], ids, init), ids, row, Min(|row|, |ids| + 1), k);
    }
  }

  /** A language the header does not name keeps its texts. */
  lemma {:induction false} RegisterKeeps(m: map<Language, Texts>, hs: seq<Language>, ids: seq<Id>,
                                         tables: map<Id, Texts>)
    requires |ids| == |hs|
    ensures forall l | l in m && l !in hs :: Register(m, hs, ids, tables)[l] == m[l]
    decreases |hs|
  {
    if hs != [] {
      var n := |hs| - 1;
      RegisterKeeps(m, hs[..n], ids[..n], tables);
      assert forall l | l !in hs :: l !in hs[..n];
    }
  }

  /** With distinct languages, each is registered with the entry of its own column. */
  lemma {:induction false} RegisterAt(m: map<Language, Texts>, hs: seq<Language>, ids: seq<Id>,
                                      tables: map<Id, Texts>, k: nat)
    requires |ids| == |hs| && Distinct(hs) && k < |hs|
    ensures Register(m, hs, ids, tables)[hs[k]] == Get(m, tables, ids[k])
    decreases |hs|
  {
    var n := |hs| - 1;
    if k < n {
      assert hs[n] != hs[k];
      assert hs[..n][k] == hs[k] && ids[..n][k] == ids[k];
      assert Distinct(hs[..n]) by {
        assert forall a | 0 <= a < n :: hs[..n][a] == hs[a];
      }
      RegisterAt(m, hs[..n], ids[..n], tables, k);
    }
  }

  /**
   * A text whose non-empty lines are too few, or whose header has too few columns,
   * changes nothing; neither does the empty text.
   */
  lemma ParsedNothing(m: map<Language, Texts>, keyToLanguage: string -> Option<Language>, raw: string)
    requires raw == "" || |SplitLines(raw)| <= 1 ||
             |Csv.Separate(SplitLines(raw)[0]).columns| < 2
    ensures Parsed(m, keyToLanguage, raw) == Ok(m)
  {
  }

  /** Otherwise the text is rejected exactly when a header title after column 0 is. */
  lemma ParsedRejects(m: map<Language, Texts>, keyToLanguage: string -> Option<Language>, raw: string)
    requires raw != "" && |SplitLines(raw)| > 1
    requires |Csv.Separate(SplitLines(raw)[0]).columns| >= 2
    ensures Parsed(m, keyToLanguage, raw).Err? <==>
      exists t | t in Csv.Separate(SplitLines(raw)[0]).columns[1..] :: keyToLanguage(t).None?
  {
    var titles := Csv.Separate(SplitLines(raw)[0]).columns[1..];
    HeaderLanguagesRead(keyToLanguage, titles);
  }

  /**
   * An accepted text registers the header's languages and leaves every other language's
   * texts as they were.
   */
  lemma ParsedLanguages(m: map<Language, Texts>, keyToLanguage: string -> Option<Language>,
                        raw: string, hs: seq<Language>)
    requires raw != "" && |SplitLines(raw)| > 1
    requires |Csv.Separate(SplitLines(raw)[0]).columns| >= 2
    requires HeaderLanguages(keyToLanguage, Csv.Separate(SplitLines(raw)[0]).columns[1..]) == Some(hs)
    ensures Parsed(m, keyToLanguage, raw).Ok?
    ensures Parsed(m, keyToLanguage, raw).value.Keys == m.Keys + (set l | l in hs)
    ensures forall l | l in m && l !in hs :: Parsed(m, keyToLanguage, raw).value[l] == m[l]
  {
    var lines := SplitLines(raw);
    var ids := Ids(m, hs);
    var tables := WriteLines(m, map[], ids, lines[1..]);
    assert Parsed(m, keyToLanguage, raw) == Ok(Register(m, hs, ids, tables));
    RegisterKeeps(m, hs, ids, tables);
  }

  /**
   * When the header names each language once, the language of column `k + 1` ends up
   * with its earlier texts (none if it was new) overwritten by that column of every data
   * row long enough to have it, in row order.
   */
  lemma ParsedColumn(m: map<Language, Texts>, keyToLanguage: string -> Option<Language>,
                     raw: string, hs: seq<Language>, k: nat)
    requires raw != "" && |SplitLines(raw)| > 1
    requires |Csv.Separate(SplitLines(raw)[0]).columns| >= 2
    requires HeaderLanguages(keyToLanguage, Csv.Separate(SplitLines(raw)[0]).columns[1..]) == Some(hs)
    requires Distinct(hs) && k < |hs|
    ensures Parsed(m, keyToLanguage, raw).Ok?
    ensures hs[k] in Parsed(m, keyToLanguage, raw).value
    ensures Parsed(m, keyToLanguage, raw).value[hs[k]] ==
      ColumnTexts(if hs[k] in m then m[hs[k]] else map[], SplitLines(raw)[1..], k + 1)
  {
    var lines := SplitLines(raw);
    var ids := Ids(m, hs);
    forall k' | 0 <= k' < |ids| && k' != k
      ensures ids[k'] != ids[k]
    {
      IdsDistinct(m, hs, k', k);
    }
    WriteLinesAt(m, ids, lines[1..], k);
    RegisterAt(m, hs, ids, WriteLines(m, map[], ids, lines[1..]), k);
  }

  /**
   * Two header columns share one entry exactly when they are the same column or name
   * the same language that was already registered; a language new to the map gets a
   * separate entry for each column that names it.
   */
  lemma IdsShared(m: map<Language, Texts>, hs: seq<Language>, a: nat, b: nat)
    requires a < |hs| && b < |hs|
    ensures Ids(m, hs)[a] == Ids(m, hs)[b] <==> a == b || (hs[a] == hs[b] && hs[a] in m)
  {
  }

  /** No header column after column `k` names the language of column `k`. */
  predicate LastColumn(hs: seq<Language>, k: nat)
  {
    k < |hs| && forall j | k < j < |hs| :: hs[j] != hs[k]
  }

  /** Registration goes left to right, so a language gets the entry of its last column. */
  lemma {:induction false} RegisterLast(m: map<Language, Texts>, hs: seq<Language>, ids: seq<Id>,
                                        tables: map<Id, Texts>, k: nat)
    requires |ids| == |hs| && LastColumn(hs, k)
    ensures Register(m, hs, ids, tables)[hs[k]] == Get(m, tables, ids[k])
    decreases |hs|
  {
    var n := |hs| - 1;
    var before := Register(m, hs[..n], ids[..n], tables);
    assert Register(m, hs, ids, tables) == before[hs[n] := Get(m, tables, ids[n])];
    if k < n {
      assert hs[n] != hs[k];
      assert hs[..n][k] == hs[k] && ids[..n][k] == ids[k];
      assert LastColumn(hs[..n], k) by {
        assert forall j | k < j < n :: hs[..n][j] == hs[j];
      }
      RegisterLast(m, hs[..n], ids[..n], tables, k);
      assert before[hs[k]] == Get(m, tables, ids[k]);
    } else {
      assert k == n;
    }
  }

  /**
   * A header that names a language new to the map in several columns: the language ends
   * up with the texts of its last column only, the entries of its other columns being
   * dropped when the last one is registered.
   */
  lemma ParsedNewLanguageLast(m: map<Language, Texts>, keyToLanguage: string -> Option<Language>,
                              raw: string, hs: seq<Language>, k: nat)
    requires raw != "" && |SplitLines(raw)| > 1
    requires |Csv.Separate(SplitLines(raw)[0]).columns| >= 2
    requires HeaderLanguages(keyToLanguage, Csv.Separate(SplitLines(raw)[0]).columns[1..]) == Some(hs)
    requires LastColumn(hs, k) && hs[k] !in m
    ensures Parsed(m, keyToLanguage, raw).Ok?
    ensures hs[k] in Parsed(m, keyToLanguage, raw).value
    ensures Parsed(m, keyToLanguage, raw).value[hs[k]] == ColumnTexts(map[], SplitLines(raw)[1..], k + 1)
  {
    var lines := SplitLines(raw);
    var ids := Ids(m, hs);
    forall k' | 0 <= k' < |ids| && k' != k
      ensures ids[k'] != ids[k]
    {
      IdsShared(m, hs, k', k);
    }
    WriteLinesAt(m, ids, lines[1..], k);
    RegisterLast(m, hs, ids, WriteLines(m, map[], ids, lines[1..]), k);
  }

  // ---------------------------------------------------------------------------
  // ParseLocales, imperatively
  // ---------------------------------------------------------------------------

  /** The inner loop over one data row: `locales[j].SetValue(columns[0], columns[j])`. */
  method WriteRow(m: map<Language, Texts>, tables: map<Id, Texts>, ids: seq<Id>, row: seq<string>)
    returns (t: map<Id, Texts>)
    requires |row| >= 1
    ensures t == WriteColumns(m, tables, ids, row, Min(|row|, |ids| + 1))
  {
    var key := row[0];
    var limit := Min(|row|, |ids| + 1);
    t := tables;
    for j := 1 to limit
      invariant t == WriteColumns(m, tables, ids, row, j)
    {
      var id := ids[j - 1];
      t := t[id := Get(m, t, id)[key := row[j]]];
    }
  }

  /** The data lines, each separated into a row and written; `WriteLines` is the result. */
  method WriteAll(m: map<Language, Texts>, ids: seq<Id>, lines: seq<string>)
    returns (tables: map<Id, Texts>)
    ensures tables == WriteLines(m, map[], ids, lines)
  {
    tables := map[];
    for i := 0 to |lines|
      invariant tables == WriteLines(m, map[], ids, lines[..i])
    {
      var columns := SeparateLine(lines[i]);
      assert lines[..i + 1][..i] == lines[..i] && lines[..i + 1][i] == lines[i];
      tables := WriteRow(m, tables, ids, columns);
    }
    assert lines[..|lines|] == lines;
  }

  // ---------------------------------------------------------------------------
  // The service
  // ---------------------------------------------------------------------------

  /** The arguments of one `CurrentLanguageChangedEvent`: the new and the previous language. */
  datatype LanguageChange = LanguageChange(current: Language, previous: Language)

  /**
   * The changes lead from `initial` to `current`: each starts where the one before it
   * ended, and none keeps the language it started from.
   */
  predicate Chain(changes: seq<LanguageChange>, initial: Language, current: Language)
    decreases |changes|
  {
    if changes == [] then current == initial
    else
      var n := |changes| - 1;
      changes[n].current == current && changes[n].current != changes[n].previous &&
      Chain(changes[..n], initial, changes[n].previous)
  }

  /**
   * `RestorePersistingState(defaultLanguage)`'s choice: a stored code that is a defined
   * language wins over the default, and a language the service does not support is
   * replaced by the system language.
   */
  function RestoredLanguage(stored: Option<int>, defaultLanguage: Language, isDefined: int -> bool,
                            isSupported: Language -> bool, systemLanguage: Language): (r: Language)
    ensures r == systemLanguage || isSupported(r)
    ensures stored.Some? && isDefined(stored.value) && isSupported(stored.value) ==> r == stored.value
    ensures stored.Some? && isDefined(stored.value) && !isSupported(stored.value) ==> r == systemLanguage
    ensures (stored.None? || !isDefined(stored.value)) && isSupported(defaultLanguage) ==>
      r == defaultLanguage
    ensures (stored.None? || !isDefined(stored.value)) && !isSupported(defaultLanguage) ==>
      r == systemLanguage
    ensures r != systemLanguage ==>
      r == defaultLanguage || (stored.Some? && isDefined(stored.value) && r == stored.value)
  {
    var lang := if stored.Some? && isDefined(stored.value) then stored.value else defaultLanguage;
    if isSupported(lang) then lang else systemLanguage
  }

  class LocaleServiceBase {
    /** `KeyToLanguage`: `None` where it throws. */
    const keyToLanguage: string -> Option<Language>
    /** `IsLanguageSupported`. */
    const isSupported: Language -> bool
    /** `Enum.IsDefined(typeof(SystemLanguage), _)`. */
    const isDefined: int -> bool
    /** `Application.systemLanguage`. */
    const systemLanguage: Language
    /** `_currentLanguage`. */
    var currentLanguage: Language
    /** `_isReady`. */
    var isReady: bool
    /** `_isInitialized`. */
    var isInitialized: bool
    /** `_numLoadedLocales`: the sources still outstanding. */
    var numLoadedLocales: int
    /** `_localesMap`, by the texts of each registered entry. */
    var localesMap: map<Language, Texts>
    /** The persisted code in PlayerPrefs, if any. */
    var stored: Option<int>
    /** The arguments `CurrentLanguageChangedEvent` was raised with, in order. */
    var languageChanges: seq<LanguageChange>
    /** How often `ReadyEvent` was raised. */
    var readyEvents: nat
    /** How many errors `Debug.LogError` reported. */
    var loggedErrors: nat

    /**
     * The language changes lead from the system language to the current one, `ReadyEvent`
     * is raised exactly when the service is ready, and only an initialised service gets ready.
     */
    ghost predicate Valid()
      reads this
    {
      Chain(languageChanges, systemLanguage, currentLanguage) &&
      readyEvents == (if isReady then 1 else 0) &&
      (isReady ==> isInitialized)
    }

    constructor (keyToLanguage: string -> Option<Language>, isSupported: Language -> bool,
                 isDefined: int -> bool, systemLanguage: Language, stored: Option<int>)
      ensures Valid()
      ensures this.keyToLanguage == keyToLanguage && this.isSupported == isSupported
      ensures this.isDefined == isDefined && this.systemLanguage == systemLanguage
      ensures this.stored == stored
      ensures currentLanguage == systemLanguage && !isReady && !isInitialized
      ensures numLoadedLocales == 0 && localesMap == map[]
      ensures languageChanges == [] && readyEvents == 0 && loggedErrors == 0
    {
      this.keyToLanguage := keyToLanguage;
      this.isSupported := isSupported;
      this.isDefined := isDefined;
      this.systemLanguage := systemLanguage;
      this.stored := stored;
      currentLanguage := systemLanguage;
      isReady := false;
      isInitialized := false;
      numLoadedLocales := 0;
      localesMap := map[];
      languageChanges := [];
      readyEvents := 0;
      loggedErrors := 0;
    }

    /** The private `CurrentLanguage` setter: an equal value changes nothing. */
    method SetCurrentLanguageValue(value: Language)
      requires Valid()
      modifies this`currentLanguage, this`languageChanges
      ensures Valid()
      ensures currentLanguage == value
      ensures languageChanges == old(languageChanges) +
        (if value == old(currentLanguage) then [] else [LanguageChange(value, old(currentLanguage))])
    {
      if value == currentLanguage {
        return;
      }
      var args := LanguageChange(value, currentLanguage);
      currentLanguage := value;
      languageChanges := languageChanges + [args];
      assert languageChanges[..|languageChanges| - 1] == old(languageChanges);
    }

    /** The private `IsReady` setter, which is only ever given `true`: it flips once. */
    method BecomeReady()
      requires Valid() && isInitialized
      modifies this`isReady, this`readyEvents
      ensures Valid() && isReady
      ensures readyEvents == 1
    {
      if isReady {
        return;
      }
      isReady := true;
      readyEvents := readyEvents + 1;
    }

    /**
     * `Initialize`: a second call, or one on a service already ready, only logs an error.
     * The first marks the service initialised and requests the manifest, whose arrival is
     * `ManifestLoaded`.
     */
    method Initialize()
      requires Valid()
      modifies this`isInitialized, this`loggedErrors
      ensures Valid()
      ensures old(isReady || isInitialized) ==>
        isInitialized == old(isInitialized) && loggedErrors == old(loggedErrors) + 1
      ensures !old(isReady || isInitialized) ==> isInitialized && loggedErrors == old(loggedErrors)
    {
      if isReady || isInitialized {
        loggedErrors := loggedErrors + 1;
        return;
      }
      isInitialized := true;
    }

    /**
     * The manifest callback of `Initialize`: `text` is the downloaded manifest, `None`
     * when the request failed (which logs an error and counts as no sources). The
     * countdown is set to the number of sources named; the result is their file names,
     * each of which is requested and completes through `LocaleLoaded`. With no sources
     * the service is ready at once.
     */
    method ManifestLoaded(text: Option<string>) returns (names: seq<string>)
      requires Valid() && isInitialized && numLoadedLocales <= 0
      modifies this`numLoadedLocales, this`isReady, this`readyEvents, this`loggedErrors
      ensures Valid()
      ensures names == (if text.None? then [] else SplitLines(text.value))
      ensures numLoadedLocales == |names|
      ensures isReady == (old(isReady) || names == [])
      ensures loggedErrors == old(loggedErrors) + (if text.None? then 1 else 0)
    {
      if text.None? {
        loggedErrors := loggedErrors + 1;
        names := [];
      } else {
        names := SplitLines(text.value);
      }
      numLoadedLocales := |names|;
      if numLoadedLocales <= 0 {
        BecomeReady();
      }
    }

    /**
     * The completion of one source requested by the manifest: `raw` is its text, `None`
     * when the request failed (which logs an error). A text is parsed; when parsing throws,
     * the exception leaves the callback, so the countdown is not decremented. Otherwise the
     * countdown goes down by one, and at zero or below the service becomes ready.
     */
    method LocaleLoaded(raw: Option<string>) returns (r: Result<(), ParseError>)
      requires Valid() && isInitialized
      modifies this`localesMap, this`numLoadedLocales, this`isReady, this`readyEvents,
               this`loggedErrors
      ensures Valid()
      ensures r.Err? <==> raw.Some? && Parsed(old(localesMap), keyToLanguage, raw.value).Err?
      ensures r.Err? ==>
        localesMap == old(localesMap) && numLoadedLocales == old(numLoadedLocales) &&
        isReady == old(isReady) && loggedErrors == old(loggedErrors)
      ensures r.Ok? ==>
        localesMap == (if raw.None? then old(localesMap)
                       else Parsed(old(localesMap), keyToLanguage, raw.value).value) &&
        numLoadedLocales == old(numLoadedLocales) - 1 &&
        isReady == (old(isReady) || numLoadedLocales <= 0) &&
        loggedErrors == old(loggedErrors) + (if raw.None? then 1 else 0)
    {
      if raw.None? {
        loggedErrors := loggedErrors + 1;
      } else {
        r := ParseLocales(raw.value);
        if r.Err? {
          return;
        }
      }
      r := Ok(());
      numLoadedLocales := numLoadedLocales - 1;
      if numLoadedLocales <= 0 {
        BecomeReady();
      }
    }

    /** `SetCurrentLanguage`: an equal language changes nothing; another is set and persisted. */
    method SetCurrentLanguage(lang: Language)
      requires Valid()
      modifies this`currentLanguage, this`languageChanges, this`stored
      ensures Valid()
      ensures lang == old(currentLanguage) ==>
        currentLanguage == old(currentLanguage) && languageChanges == old(languageChanges) &&
        stored == old(stored)
      ensures lang != old(currentLanguage) ==>
        currentLanguage == lang && stored == Some(lang) &&
        languageChanges == old(languageChanges) + [LanguageChange(lang, old(currentLanguage))]
    {
      if lang == currentLanguage {
        return;
      }
      SetCurrentLanguageValue(lang);
      PersistCurrentState();
    }

    /**
     * `GetLocalized(key, language)`: the key itself until the service is ready; then the
     * lookup rule of the newer manager (the key when the language has no entry, otherwise
     * the entry's text, or the key, with its escape tokens expanded).
     */
    function GetLocalized(key: string, language: Language): (r: string)
      reads this`isReady, this`localesMap
      ensures !isReady ==> r == key
      ensures isReady ==> r == LocalizationManager.Localized(localesMap, key, language)
    {
      if !isReady then key
      else if language !in localesMap then key
      else
        var value := Lookup(localesMap[language], key);
        if value == "" then key else ProcessRawString(value)
    }

    /** `GetLocalized` as a function of the state it reads now, as a localised string receives it. */
    function Localizer(): (f: Localizer)
      reads this`isReady, this`localesMap
      ensures forall k, l :: f(k, l) == GetLocalized(k, l)
    {
      var ready := isReady;
      var m := localesMap;
      (k: string, l: Language) => if !ready then k else LocalizationManager.Localized(m, k, l)
    }

    /** `GetLocalized(key)`: the lookup in the current language. */
    function GetLocalizedCurrent(key: string): string
      reads this`isReady, this`localesMap, this`currentLanguage
    {
      GetLocalized(key, currentLanguage)
    }

    /** `AddLocaleCsv`: parses the text; false when parsing throws, which changes nothing. */
    method AddLocaleCsv(rawData: string) returns (ok: bool)
      modifies this`localesMap
      ensures ok <==> Parsed(old(localesMap), keyToLanguage, rawData).Ok?
      ensures localesMap ==
        if ok then Parsed(old(localesMap), keyToLanguage, rawData).value else old(localesMap)
    {
      var r := ParseLocales(rawData);
      ok := r.Ok?;
    }

    /** `PersistCurrentState`: stores the current language's code. */
    method PersistCurrentState()
      modifies this`stored
      ensures stored == Some(currentLanguage)
    {
      stored := Some(currentLanguage);
    }

    /**
     * `RestorePersistingState(defaultLanguage)`: sets the current language to the
     * restored choice; a stored code that is not a defined language is overwritten with it.
     */
    method RestorePersistingState(defaultLanguage: Language)
      requires Valid()
      modifies this`currentLanguage, this`languageChanges, this`stored
      ensures Valid()
      ensures var l := RestoredLanguage(old(stored), defaultLanguage, isDefined, isSupported,
                                        systemLanguage);
        currentLanguage == l &&
        languageChanges == old(languageChanges) +
          (if l == old(currentLanguage) then [] else [LanguageChange(l, old(currentLanguage))]) &&
        stored == (if old(stored).Some? && !isDefined(old(stored).value) then Some(l) else old(stored))
    {
      var persist := false;
      var lang := defaultLanguage;
      if stored.Some? {
        var i := stored.value;
        persist := !isDefined(i);
        if !persist {
          lang := i;
        }
      }
      SetCurrentLanguageValue(if isSupported(lang) then lang else systemLanguage);
      if persist {
        PersistCurrentState();
      }
    }

    /** `ReadHeader` is the `i == 0` turn of `ParseLocales`: the header's entries, column by column. */
    method ReadHeader(header: seq<string>) returns (hs: seq<Language>, ids: seq<Id>, ok: bool)
      requires |header| >= 1
      ensures ok <==> HeaderLanguages(keyToLanguage, header[1..]).Some?
      ensures ok ==> HeaderLanguages(keyToLanguage, header[1..]) == Some(hs) && ids == Ids(localesMap, hs)
    {
      hs := [];
      ids := [];
      for j := 1 to |header|
        invariant HeaderLanguages(keyToLanguage, header[1..j]) == Some(hs)
        invariant ids == Ids(localesMap, hs)
      {
        var language := keyToLanguage(header[j]);
        if language.None? {
          HeaderLanguagesRead(keyToLanguage, header[1..]);
          assert header[1..][j - 1] == header[j];
          return hs, ids, false;
        }
        assert header[1..j + 1][..j - 1] == header[1..j];
        hs := hs + [language.value];
        ids := ids + [if language.value in localesMap then Existing(language.value) else Created(j)];
      }
      assert header[1..|header|] == header[1..];
      ok := true;
    }

    /**
     * `ParseLocales(raw)`: the result of `Parsed`, or the exception it throws, in which
     * case nothing has changed. The header turn of the loop over lines is taken before the
     * loop over the data lines.
     */
    method ParseLocales(raw: string) returns (r: Result<(), ParseError>)
      modifies this`localesMap
      ensures r.Err? <==> Parsed(old(localesMap), keyToLanguage, raw).Err?
      ensures localesMap ==
        if r.Ok? then Parsed(old(localesMap), keyToLanguage, raw).value else old(localesMap)
    {
      r := Ok(());
      if raw == "" {
        return;
      }
      var lines := SplitLines(raw);
      if |lines| <= 1 {
        // "Locale map is empty."
        return;
      }
      var header := SeparateLine(lines[0]);
      if |header| < 2 {
        // "Locale map is empty."
        return;
      }
      var hs, ids, ok := ReadHeader(header);
      if !ok {
        return Err(KeyRejected);
      }
      var tables := WriteAll(localesMap, ids, lines[1..]);
      assert Parsed(localesMap, keyToLanguage, raw) == Ok(Register(localesMap, hs, ids, tables));
      RegisterAll(hs, ids, tables);
    }

    /** The final loop of `ParseLocales`: `_localesMap[loc.Key] = loc` for each header entry. */
    method RegisterAll(hs: seq<Language>, ids: seq<Id>, tables: map<Id, Texts>)
      requires |ids| == |hs|
      modifies this`localesMap
      ensures localesMap == Register(old(localesMap), hs, ids, tables)
    {
      var m := localesMap;
      for k := 0 to |hs|
        invariant localesMap == Register(m, hs[..k], ids[..k], tables)
      {
        localesMap := localesMap[hs[k] := Get(m, tables, ids[k])];
        assert hs[..k + 1][..k] == hs[..k] && ids[..k + 1][..k] == ids[..k];
      }
      assert hs[..|hs|] == hs && ids[..|ids|] == ids;
    }
  }
}
