/**
 * The CSV tokenizer of the localisation library (`CSV.Parse` and `CSV.SeparateLine`),
 * together with the line splitting of `StringReader.ReadLine` that feeds it.
 *
 * `SeparateLine` is a one-pass character state machine. Its state is the list of
 * columns cut so far, the character buffer of the current field, the previous
 * character `prev` and the `quoted` flag. `Scan` below is that state, `Step` is one
 * turn of the loop and `RunFrom` folds `Step` over a string; the method `SeparateLine`
 * is proved to compute exactly the fold, and the lemmas say what the fold means.
 */
module Csv {

  const Separator: char := ','
  const Quote: char := '"'
  const Nul: char := '\0'

  // ---------------------------------------------------------------------------
  // Joining and splitting helpers
  // ---------------------------------------------------------------------------

  /** `parts` joined with `sep` between consecutive parts. */
  function Join(parts: seq<string>, sep: string): string
  {
    if parts == [] then ""
    else if |parts| == 1 then parts[0]
    else parts[0] + sep + Join(parts[1..], sep)
  }

  /** Number of occurrences of `c` in `s`. */
  function Count(s: string, c: char): nat
  {
    if s == [] then 0 else (if s[0] == c then 1 else 0) + Count(s[1..], c)
  }

  /** Index of the first `c` in `s`, or `|s|` when there is none. */
  function IndexOf(s: string, c: char): (i: nat)
    ensures i <= |s|
    ensures forall k :: 0 <= k < i ==> s[k] != c
    ensures i < |s| ==> s[i] == c
  {
    if s == [] || s[0] == c then 0 else 1 + IndexOf(s[1..], c)
  }

  /** The pieces of `s` between occurrences of `c`: a reference definition of splitting. */
  function SplitOn(s: string, c: char): (parts: seq<string>)
    ensures |parts| >= 1
    decreases |s|
  {
    var i := IndexOf(s, c);
    if i == |s| then [s] else [s[..i]] + SplitOn(s[i + 1..], c)
  }

  lemma {:induction false} SplitOnPartsLackSeparator(s: string, c: char)
    ensures forall p | p in SplitOn(s, c) :: c !in p
    decreases |s|
  {
    var i := IndexOf(s, c);
    assert forall k :: 0 <= k < i ==> s[..i][k] != c;
    if i < |s| {
      SplitOnPartsLackSeparator(s[i + 1..], c);
    } else {
      assert s[..i] == s;
    }
  }

  /** Splitting and joining undo each other, and splitting yields one piece more than there are separators. */
  lemma {:induction false} SplitOnJoin(s: string, c: char)
    ensures Join(SplitOn(s, c), [c]) == s
    ensures |SplitOn(s, c)| == Count(s, c) + 1
    decreases |s|
  {
    var i := IndexOf(s, c);
    CountPrefix(s, i, c);
    if i < |s| {
      var rest := SplitOn(s[i + 1..], c);
      SplitOnJoin(s[i + 1..], c);
      assert SplitOn(s, c) == [s[..i]] + rest;
      assert ([s[..i]] + rest)[1..] == rest;
      assert Join(SplitOn(s, c), [c]) == s[..i] + [c] + Join(rest, [c]);
      assert s == s[..i] + [c] + s[i + 1..];
      CountAppend(s[..i] + [c], s[i + 1..], c);
      CountAppend(s[..i], [c], c);
      assert Count([c], c) == 1;
    } else {
      assert s[..i] == s;
    }
  }

  lemma {:induction false} CountAppend(a: string, b: string, c: char)
    ensures Count(a + b, c) == Count(a, c) + Count(b, c)
  {
    if a != [] {
      assert (a + b)[0] == a[0];
      assert (a + b)[1..] == a[1..] + b;
      CountAppend(a[1..], b, c);
    } else {
      assert a + b == b;
    }
  }

  lemma {:induction false} CountPrefix(s: string, i: nat, c: char)
    requires i <= |s|
    requires forall k :: 0 <= k < i ==> s[k] != c
    ensures Count(s[..i], c) == 0
  {
    if i > 0 {
      assert s[..i][1..] == s[1..][..i - 1];
      CountPrefix(s[1..], i - 1, c);
    }
  }

  // ---------------------------------------------------------------------------
  // Physical lines: System.IO.StringReader.ReadLine
  // ---------------------------------------------------------------------------

  predicate IsBreak(c: char)
  {
    c == '\n' || c == '\r'
  }

  /** Index of the first line-break character in `s`, or `|s|`. */
  function BreakAt(s: string): (i: nat)
    ensures i <= |s|
    ensures forall k :: 0 <= k < i ==> !IsBreak(s[k])
    ensures i < |s| ==> IsBreak(s[i])
  {
    if s == [] || IsBreak(s[0]) then 0 else 1 + BreakAt(s[1..])
  }

  /**
   * The lines `ReadLine` returns until it returns null: a line ends at `\n`, `\r\n` or `\r`,
   * the terminator is not part of the line, and text that ends with a terminator
   * yields no further empty line.
   */
  function ReadLines(s: string): (lines: seq<string>)
    ensures forall l, k | l in lines && 0 <= k < |l| :: !IsBreak(l[k])
    ensures s == [] <==> lines == []
    decreases |s|
  {
    if s == [] then []
    else
      var i := BreakAt(s);
      var rest := if i == |s| then []
                  else if s[i] == '\r' && i + 1 < |s| && s[i + 1] == '\n' then s[i + 2..]
                  else s[i + 1..];
      [s[..i]] + ReadLines(rest)
  }

  /** The three line terminators `ReadLine` recognises. */
  predicate IsTerminator(t: string)
  {
    t == "\n" || t == "\r\n" || t == "\r"
  }

  predicate BreakFree(l: string)
  {
    forall k :: 0 <= k < |l| ==> !IsBreak(l[k])
  }

  /** Every line followed by the terminator `t`. */
  function Terminated(lines: seq<string>, t: string): string
  {
    if lines == [] then "" else lines[0] + t + Terminated(lines[1..], t)
  }

  /** Reading back lines that were each written with a terminator gives exactly those lines. */
  lemma {:induction false} ReadLinesTerminated(lines: seq<string>, t: string)
    requires IsTerminator(t)
    requires forall l | l in lines :: BreakFree(l)
    ensures ReadLines(Terminated(lines, t)) == lines
  {
    if lines != [] {
      var tail := Terminated(lines[1..], t);
      assert lines[0] in lines;
      TerminatedStart(lines[1..], t);
      ReadLinesCons(lines[0], t, tail);
      ReadLinesTerminated(lines[1..], t);
    }
  }

  /** Text written with "\r" terminators never starts with '\n'. */
  lemma TerminatedStart(lines: seq<string>, t: string)
    requires IsTerminator(t)
    requires forall l | l in lines :: BreakFree(l)
    ensures t == "\r" && Terminated(lines, t) != [] ==> Terminated(lines, t)[0] != '\n'
  {
    if lines != [] && t == "\r" {
      assert lines[0] in lines;
      assert BreakFree(lines[0]);
      if lines[0] != [] {
        assert Terminated(lines, t)[0] == lines[0][0];
      } else {
        assert Terminated(lines, t)[0] == '\r';
      }
    }
  }

  /** One line and its terminator, followed by text that does not extend the terminator. */
  lemma ReadLinesCons(l: string, t: string, tail: string)
    requires IsTerminator(t) && BreakFree(l)
    requires t == "\r" && tail != [] ==> tail[0] != '\n'
    ensures ReadLines(l + t + tail) == [l] + ReadLines(tail)
  {
    var s := l + t + tail;
    assert forall k :: 0 <= k < |l| ==> s[k] == l[k];
    assert s[|l|] == t[0] && IsBreak(t[0]);
    BreakAtIs(s, |l|);
    assert s[..|l|] == l;
    if t == "\r\n" {
      assert s[|l| + 1] == '\n';
      assert s[|l| + 2..] == tail;
    } else {
      assert s[|l| + 1..] == tail;
    }
  }

  lemma {:induction false} BreakAtIs(s: string, i: nat)
    requires i < |s| && IsBreak(s[i])
    requires forall k :: 0 <= k < i ==> !IsBreak(s[k])
    ensures BreakAt(s) == i
  {
    if i > 0 {
      BreakAtIs(s[1..], i - 1);
    }
  }

  // ---------------------------------------------------------------------------
  // The field state machine of SeparateLine
  // ---------------------------------------------------------------------------

  /** The locals of `SeparateLine`: columns cut so far, the field buffer, `prev` and `quoted`. */
  datatype Scan = Scan(columns: seq<string>, buffer: string, prev: char, quoted: bool)

  /** The state before the first character: `prev` starts as the separator. */
  const Start: Scan := Scan([], [], Separator, false)

  /** A `prev` equal to the quote always stands for the buffer's last character. */
  predicate Pending(st: Scan)
  {
    st.prev == Quote ==> |st.buffer| > 0 && st.buffer[|st.buffer| - 1] == Quote
  }

  /** The text `b2s` emits: the buffer, without its last character when that is a closing quote. */
  function FieldText(st: Scan): string
    requires Pending(st)
  {
    if st.quoted && st.prev == Quote then st.buffer[..|st.buffer| - 1] else st.buffer
  }

  /** `b2s`: emit the current field and clear the buffer. */
  function Emit(st: Scan): Scan
    requires Pending(st)
  {
    st.(columns := st.columns + [FieldText(st)], buffer := [])
  }

  /** One turn of the `foreach` loop of `SeparateLine`. */
  function Step(st: Scan, c: char): (r: Scan)
    requires Pending(st)
    ensures Pending(r)
  {
    if c == Separator then
      if st.quoted then
        if st.prev == Quote then Emit(st).(quoted := false, prev := c)
        else st.(buffer := st.buffer + [c], prev := c)
      else Emit(st).(prev := c)
    else if c == Quote then
      if st.prev == Separator then st.(quoted := true, prev := Nul)
      else if st.prev == Quote then st.(prev := Nul)
      else st.(buffer := st.buffer + [c], prev := c)
    else st.(buffer := st.buffer + [c], prev := c)
  }

  /** `Step` folded over `s`, first character first. */
  function RunFrom(st: Scan, s: string): (r: Scan)
    requires Pending(st)
    ensures Pending(r)
    decreases |s|
  {
    if s == [] then st else RunFrom(Step(st, s[0]), s[1..])
  }

  /** What `SeparateLine` returns: whether the line is complete, and the columns it cut. */
  datatype Fields = Fields(complete: bool, columns: seq<string>)

  /**
   * The result of `SeparateLine(line)`. After the loop one more field is emitted, and the
   * line is complete unless a quoted field is still open, that is, unless `quoted` holds
   * and the last character was not a closing quote.
   */
  function Separate(line: string): (r: Fields)
    ensures |r.columns| >= 1
  {
    var st := RunFrom(Start, line);
    Fields(!(st.quoted && st.prev != Quote), Emit(st).columns)
  }

  /** Running over `a + b` is running over `a`, then over `b`. */
  lemma {:induction false} RunFromAppend(st: Scan, a: string, b: string)
    requires Pending(st)
    ensures RunFrom(st, a + b) == RunFrom(RunFrom(st, a), b)
    decreases |a|
  {
    if a != [] {
      assert (a + b)[0] == a[0];
      assert (a + b)[1..] == a[1..] + b;
      RunFromAppend(Step(st, a[0]), a[1..], b);
    } else {
      assert a + b == b;
    }
  }

  lemma RunOne(st: Scan, c: char)
    requires Pending(st)
    ensures RunFrom(st, [c]) == Step(st, c)
  {
    assert [c][1..] == [];
  }

  lemma RunTwo(st: Scan, c: char, d: char)
    requires Pending(st)
    ensures RunFrom(st, [c, d]) == Step(Step(st, c), d)
  {
    assert [c, d][0] == c && [c, d][1..] == [d];
    RunOne(Step(st, c), d);
  }

  /**
   * Text without quotes is copied into the buffer, when it has no separator either
   * or when it stands inside an open quoted field.
   */
  lemma {:induction false} LiteralRun(st: Scan, t: string)
    requires Pending(st)
    requires Quote !in t
    requires (st.quoted && st.prev != Quote) || Separator !in t
    ensures RunFrom(st, t) == st.(buffer := st.buffer + t, prev := if t == [] then st.prev else t[|t| - 1])
    decreases |t|
  {
    if t != [] {
      var s1 := Step(st, t[0]);
      assert s1 == st.(buffer := st.buffer + [t[0]], prev := t[0]);
      assert t[1..] == [] || t[|t| - 1] == t[1..][|t[1..]| - 1];
      LiteralRun(s1, t[1..]);
      assert st.buffer + [t[0]] + t[1..] == st.buffer + t;
    }
  }

  // ---------------------------------------------------------------------------
  // Meaning of the state machine: plain and quoted cells
  // ---------------------------------------------------------------------------

  /** A cell as a writer of the table would render it: verbatim, or between quotes. */
  datatype Cell = Plain(text: string) | Quoted(text: string)

  /** No comma in the text is followed by a quote, and the text does not end with a comma. */
  predicate Quotable(t: string)
  {
    forall k :: 0 <= k < |t| && t[k] == Separator ==> k + 1 < |t| && t[k + 1] != Quote
  }

  /** Plain cells hold neither separator nor quote; quoted cells must be `Quotable`. */
  predicate WellFormed(c: Cell)
  {
    match c
    case Plain(t) => Separator !in t && Quote !in t
    case Quoted(t) => Quotable(t)
  }

  /** Every quote doubled. */
  function Escape(t: string): string
  {
    if t == [] then [] else (if t[0] == Quote then [Quote, Quote] else [t[0]]) + Escape(t[1..])
  }

  function RenderCell(c: Cell): string
  {
    match c
    case Plain(t) => t
    case Quoted(t) => [Quote] + Escape(t) + [Quote]
  }

  /** Cells rendered and joined with the separator. */
  function Render(cells: seq<Cell>): string
  {
    if cells == [] then ""
    else if |cells| == 1 then RenderCell(cells[0])
    else RenderCell(cells[0]) + [Separator] + Render(cells[1..])
  }

  function Texts(cells: seq<Cell>): seq<string>
  {
    if cells == [] then [] else [cells[0].text] + Texts(cells[1..])
  }

  function PlainCells(parts: seq<string>): seq<Cell>
  {
    if parts == [] then [] else [Plain(parts[0])] + PlainCells(parts[1..])
  }

  lemma {:induction false} PlainCellsRender(parts: seq<string>)
    requires forall p | p in parts :: Separator !in p && Quote !in p
    ensures |PlainCells(parts)| == |parts|
    ensures forall c | c in PlainCells(parts) :: WellFormed(c)
    ensures Render(PlainCells(parts)) == Join(parts, [Separator])
    ensures Texts(PlainCells(parts)) == parts
  {
    if parts != [] {
      PlainCellsRender(parts[1..]);
      assert PlainCells(parts)[1..] == PlainCells(parts[1..]);
    }
  }

  lemma {:induction false} EscapeNoQuote(t: string)
    requires Quote !in t
    ensures Escape(t) == t
  {
    if t != [] {
      EscapeNoQuote(t[1..]);
    }
  }

  lemma QuotableTail(t: string)
    requires t != [] && Quotable(t)
    ensures Quotable(t[1..])
  {
    forall k | 0 <= k < |t[1..]| && t[1..][k] == Separator
      ensures k + 1 < |t[1..]| && t[1..][k + 1] != Quote
    {
      assert t[k + 1] == Separator;
    }
  }

  /** One escaped character inside an open quoted field: a doubled quote collapses to one. */
  lemma EscapedHead(st: Scan, x: char)
    requires Pending(st) && st.quoted && st.prev != Quote
    requires st.prev == Separator ==> x != Quote
    ensures RunFrom(st, if x == Quote then [Quote, Quote] else [x]) ==
      st.(buffer := st.buffer + [x], prev := if x == Quote then Nul else x)
  {
    if x == Quote {
      RunTwo(st, Quote, Quote);
    } else {
      RunOne(st, x);
    }
  }

  /** Inside an open quoted field, escaped text is decoded: doubled quotes collapse to one. */
  lemma {:induction false} EscapedRun(st: Scan, t: string)
    requires Pending(st) && st.quoted && st.prev != Quote
    requires st.prev == Separator ==> t != [] && t[0] != Quote
    requires Quotable(t)
    ensures var r := RunFrom(st, Escape(t));
      r.columns == st.columns && r.buffer == st.buffer + t && r.quoted &&
      r.prev != Quote && r.prev != Separator
    decreases |t|
  {
    if t != [] {
      var x := t[0];
      var head: string := if x == Quote then [Quote, Quote] else [x];
      assert Escape(t) == head + Escape(t[1..]);
      RunFromAppend(st, head, Escape(t[1..]));
      EscapedHead(st, x);
      var s1 := RunFrom(st, head);
      QuotableTail(t);
      assert x == Separator ==> 1 < |t| && t[1..][0] == t[1] != Quote;
      EscapedRun(s1, t[1..]);
      assert st.buffer + [x] + t[1..] == st.buffer + t;
    }
  }

  /** The state at the start of a field, right after a separator (or at the start of the line). */
  predicate FieldStart(st: Scan)
  {
    st.buffer == [] && st.prev == Separator && !st.quoted
  }

  /**
   * A well-formed cell read from the start of a field leaves a state in which a comma
   * or the end of the line emits exactly the cell's text and closes the field.
   */
  lemma {:induction false} CellRun(st: Scan, c: Cell)
    requires FieldStart(st) && WellFormed(c)
    ensures var r := RunFrom(st, RenderCell(c));
      Step(r, Separator) == Scan(st.columns + [c.text], [], Separator, false) &&
      Emit(r).columns == st.columns + [c.text] &&
      !(r.quoted && r.prev != Quote)
  {
    match c
    case Plain(t) =>
      LiteralRun(st, t);
      assert st.buffer + t == t;
      assert t != [] ==> t[|t| - 1] in t;
      var r := RunFrom(st, t);
      assert r == st.(buffer := t, prev := if t == [] then Separator else t[|t| - 1]);
      assert FieldText(r) == t;
    case Quoted(t) =>
      var s0 := Step(st, Quote);
      assert s0 == st.(quoted := true, prev := Nul);
      RunFromAppend(st, [Quote], Escape(t) + [Quote]);
      RunFromAppend(s0, Escape(t), [Quote]);
      EscapedRun(s0, t);
      var s1 := RunFrom(s0, Escape(t));
      var r := RunFrom(s1, [Quote]);
      assert r == Step(s1, Quote);
      assert r == s1.(buffer := t + [Quote], prev := Quote);
      assert ([Quote] + Escape(t)) + [Quote] == [Quote] + (Escape(t) + [Quote]);
      assert (t + [Quote])[..|t|] == t;
  }

  /** Cells rendered one after another from the start of a field: all their texts are emitted. */
  lemma {:induction false} CellsRun(st: Scan, cells: seq<Cell>)
    requires FieldStart(st) && |cells| >= 1
    requires forall c | c in cells :: WellFormed(c)
    ensures var r := RunFrom(st, Render(cells));
      Emit(r).columns == st.columns + Texts(cells) && !(r.quoted && r.prev != Quote)
    decreases |cells|
  {
    CellRun(st, cells[0]);
    if |cells| == 1 {
      assert Texts(cells) == [cells[0].text];
    } else {
      var rest := cells[1..];
      var head := RenderCell(cells[0]);
      assert Render(cells) == head + [Separator] + Render(rest);
      var r0 := RunFrom(st, head);
      RunFromAppend(st, head + [Separator], Render(rest));
      RunFromAppend(st, head, [Separator]);
      RunOne(r0, Separator);
      var s1 := Scan(st.columns + [cells[0].text], [], Separator, false);
      assert RunFrom(st, head + [Separator]) == s1;
      assert forall c | c in rest :: c in cells;
      CellsRun(s1, rest);
      assert Texts(cells) == [cells[0].text] + Texts(rest);
    }
  }

  /**
   * Round trip: a line rendered from well-formed cells (plain text, or quoted text with
   * its quotes doubled) is complete and separates into exactly the cells' texts.
   */
  lemma RenderRoundTrip(cells: seq<Cell>)
    requires |cells| >= 1
    requires forall c | c in cells :: WellFormed(c)
    ensures Separate(Render(cells)) == Fields(true, Texts(cells))
  {
    CellsRun(Start, cells);
  }

  /**
   * A line without quotes is complete and splits at every comma: it yields one field
   * more than it has commas, and joining the fields with commas gives the line back.
   */
  lemma NoQuoteLine(line: string)
    requires Quote !in line
    ensures Separate(line) == Fields(true, SplitOn(line, Separator))
    ensures |Separate(line).columns| == Count(line, Separator) + 1
    ensures Join(Separate(line).columns, [Separator]) == line
  {
    var parts := SplitOn(line, Separator);
    SplitOnPartsLackSeparator(line, Separator);
    SplitOnJoin(line, Separator);
    JoinNoQuote(line, parts);
    PlainCellsRender(parts);
    RenderRoundTrip(PlainCells(parts));
  }

  lemma {:induction false} JoinNoQuote(line: string, parts: seq<string>)
    requires Join(parts, [Separator]) == line && Quote !in line
    ensures forall p | p in parts :: Quote !in p
    decreases |parts|
  {
    if |parts| > 1 {
      assert line == parts[0] + [Separator] + Join(parts[1..], [Separator]);
      JoinNoQuote(Join(parts[1..], [Separator]), parts[1..]);
    }
  }

  /** An opening quote that is never closed: the line is incomplete and the whole rest is one field. */
  lemma OpenQuoteLine(g: string)
    requires Quote !in g
    ensures Separate([Quote] + g) == Fields(false, [g])
  {
    var s0 := Step(Start, Quote);
    assert s0 == Scan([], [], Nul, true);
    RunOne(Start, Quote);
    RunFromAppend(Start, [Quote], g);
    LiteralRun(s0, g);
    assert g != [] ==> g[|g| - 1] in g;
    var st := RunFrom(Start, [Quote] + g);
    assert st == Scan([], g, if g == [] then Nul else g[|g| - 1], true);
    assert st.prev != Quote;
    assert Emit(st).columns == [g];
  }

  /** `"a""b"` is the field `a"b`. */
  lemma DoubledQuoteExample()
    ensures Separate("\"a\"\"b\"") == Fields(true, ["a\"b"])
  {
    assert Quotable("a\"b");
    assert RenderCell(Quoted("a\"b")) == "\"a\"\"b\"";
    assert Render([Quoted("a\"b")]) == "\"a\"\"b\"";
    RenderRoundTrip([Quoted("a\"b")]);
  }

  /**
   * `prev` becomes the separator after every comma, a literal one inside quotes too, so a
   * quote right after such a comma takes the field-start branch and is dropped.
   */
  lemma SwallowedQuote(st: Scan)
    requires Pending(st) && st.quoted && st.prev != Quote
    ensures RunFrom(st, [Separator, Quote]) == st.(buffer := st.buffer + [Separator], prev := Nul)
  {
    RunTwo(st, Separator, Quote);
  }

  /**
   * A quote inside a quoted field followed by anything but a comma or a second quote is
   * kept as text, and the field stays open.
   */
  lemma QuoteNotClosing(st: Scan, x: char)
    requires Pending(st) && st.quoted && st.prev != Quote && st.prev != Separator
    requires x != Separator && x != Quote
    ensures RunFrom(st, [Quote, x]) == st.(buffer := st.buffer + [Quote, x], prev := x)
  {
    RunTwo(st, Quote, x);
  }

  /** The quoted field `""` is the empty text. */
  lemma EmptyQuotedExample()
    ensures Separate("\"\"") == Fields(true, [""])
  {
    assert Quotable("");
    assert RenderCell(Quoted("")) == "\"\"";
    assert Render([Quoted("")]) == "\"\"";
    RenderRoundTrip([Quoted("")]);
  }

  /**
   * The text an unquoted field stores: the second quote of each pair of adjacent quotes
   * is dropped, as inside quotes (`afterQuote`: the previous character was a kept quote).
   */
  function Collapsed(t: string, afterQuote: bool): string
  {
    if t == [] then []
    else if t[0] == Quote && afterQuote then Collapsed(t[1..], false)
    else [t[0]] + Collapsed(t[1..], t[0] == Quote)
  }

  /** Outside quotes, separator-free text enters the buffer with doubled quotes collapsed. */
  lemma {:induction false} UnquotedRun(st: Scan, t: string)
    requires Pending(st) && !st.quoted
    requires Separator !in t
    requires st.prev == Separator ==> t == [] || t[0] != Quote
    ensures var r := RunFrom(st, t);
      r.columns == st.columns && !r.quoted && r.buffer == st.buffer + Collapsed(t, st.prev == Quote)
    decreases |t|
  {
    if t != [] {
      var s1 := Step(st, t[0]);
      assert t[0] in t;
      assert s1.prev != Separator && s1.columns == st.columns && !s1.quoted;
      assert forall c | c in t[1..] :: c in t;
      UnquotedRun(s1, t[1..]);
      if t[0] == Quote && st.prev == Quote {
        assert s1.buffer == st.buffer && !(s1.prev == Quote);
      } else {
        assert s1.buffer == st.buffer + [t[0]] && (s1.prev == Quote <==> t[0] == Quote);
        assert st.buffer + [t[0]] + Collapsed(t[1..], t[0] == Quote) ==
          st.buffer + ([t[0]] + Collapsed(t[1..], t[0] == Quote));
      }
    }
  }

  /**
   * Doubled quotes collapse outside quotes too: a line that does not start with a quote
   * and holds no separator is one complete column holding the line with the second quote
   * of every pair dropped; a quote on its own is kept.
   */
  lemma UnquotedField(t: string)
    requires Separator !in t && (t == [] || t[0] != Quote)
    ensures Separate(t) == Fields(true, [Collapsed(t, false)])
  {
    UnquotedRun(Start, t);
    var st := RunFrom(Start, t);
    assert st.buffer == Collapsed(t, false) && !st.quoted;
    assert Emit(st).columns == [] + [st.buffer];
  }

  /** Collapsing undoes escaping. */
  lemma {:induction false} CollapsedEscape(u: string)
    ensures Collapsed(Escape(u), false) == u
  {
    if u != [] {
      CollapsedEscape(u[1..]);
      if u[0] == Quote {
        assert Escape(u) == [Quote, Quote] + Escape(u[1..]);
        assert Escape(u)[1..] == [Quote] + Escape(u[1..]);
        assert ([Quote] + Escape(u[1..]))[1..] == Escape(u[1..]);
      } else {
        assert Escape(u) == [u[0]] + Escape(u[1..]);
        assert Escape(u)[1..] == Escape(u[1..]);
      }
    }
  }

  /** Escaping adds quotes and nothing else. */
  lemma {:induction false} EscapeKeeps(u: string, c: char)
    requires c != Quote
    ensures c in Escape(u) <==> c in u
    ensures Escape(u) != [] && Escape(u)[0] == Quote <==> u != [] && u[0] == Quote
  {
    if u != [] {
      EscapeKeeps(u[1..], c);
      var head: string := if u[0] == Quote then [Quote, Quote] else [u[0]];
      assert Escape(u) == head + Escape(u[1..]);
      assert c in u <==> c == u[0] || c in u[1..];
    }
  }

  /**
   * So a field written with its quotes doubled but without the surrounding quotes still
   * reads back as its text.
   */
  lemma UnquotedEscaped(u: string)
    requires Separator !in u && (u == [] || u[0] != Quote)
    ensures Separate(Escape(u)) == Fields(true, [u])
  {
    EscapeKeeps(u, Separator);
    UnquotedField(Escape(u));
    CollapsedEscape(u);
  }

  /** `a""b`: the pair collapses although no quote opened the field. */
  lemma DoubledOutsideQuotesExample()
    ensures Separate("a\"\"b") == Fields(true, ["a\"b"])
  {
    UnquotedField("a\"\"b");
    assert Collapsed("a\"\"b", false) == "a\"b";
  }

  /** `a"b`: a lone quote inside an unquoted field is kept. */
  lemma LoneQuoteExample()
    ensures Separate("a\"b") == Fields(true, ["a\"b"])
  {
    UnquotedField("a\"b");
    assert Collapsed("a\"b", false) == "a\"b";
  }

  // ---------------------------------------------------------------------------
  // SeparateLine, imperatively
  // ---------------------------------------------------------------------------

  /**
   * `CSV.SeparateLine`: cuts one logical line into columns. The shared `columns` list of
   * the source is returned as a value; `complete` is the source's return value.
   */
  method SeparateLine(line: string) returns (complete: bool, columns: seq<string>)
    ensures Fields(complete, columns) == Separate(line)
  {
    columns := [];
    var buffer: string := [];
    var prev := Separator;
    var quoted := false;
    for i := 0 to |line|
      invariant Pending(Scan(columns, buffer, prev, quoted))
      invariant RunFrom(Scan(columns, buffer, prev, quoted), line[i..]) == RunFrom(Start, line)
    {
      ghost var before := Scan(columns, buffer, prev, quoted);
      var c := line[i];
      if c == Separator {
        if quoted {
          if prev == Quote {
            // b2s drops the closing quote
            columns := columns + [buffer[..|buffer| - 1]];
            buffer := [];
            quoted := false;
          } else {
            buffer := buffer + [c];
          }
        } else {
          columns := columns + [buffer];
          buffer := [];
        }
        prev := c;
      } else if c == Quote {
        if prev == Separator {
          quoted := true;
          prev := Nul;
        } else if prev == Quote {
          prev := Nul;
        } else {
          buffer := buffer + [c];
          prev := c;
        }
      } else {
        buffer := buffer + [c];
        prev := c;
      }
      assert Scan(columns, buffer, prev, quoted) == Step(before, line[i]);
      assert line[i..][1..] == line[i + 1..];
    }
    assert line[|line|..] == [];
    if quoted && prev == Quote {
      columns := columns + [buffer[..|buffer| - 1]];
    } else {
      columns := columns + [buffer];
    }
    quoted := quoted && prev != Quote;
    complete := !quoted;
  }

  // ---------------------------------------------------------------------------
  // Parse: records from physical lines, with continuation of open quotes
  // ---------------------------------------------------------------------------

  /** The logical line after physical line `next` is read while `pending` is accumulated. */
  function Extend(pending: string, next: string): string
  {
    if pending == "" then next else pending + "\n" + next
  }

  /**
   * The records `Parse` yields from the physical `lines`, when `pending` has been
   * accumulated and not yet yielded. A line that leaves a quote open is kept and the
   * next physical line appended to it with `\n`; the whole buffer is separated again.
   */
  function Assemble(pending: string, lines: seq<string>): (records: seq<seq<string>>)
    ensures |records| <= |lines|
    ensures forall r | r in records :: |r| >= 1
    decreases |lines|
  {
    if lines == [] then []
    else
      var line := Extend(pending, lines[0]);
      var f := Separate(line);
      if f.complete then [f.columns] + Assemble("", lines[1..])
      else Assemble(line, lines[1..])
  }

  /** The logical line still pending once all of `lines` has been read. */
  function PendingAfter(pending: string, lines: seq<string>): string
    decreases |lines|
  {
    if lines == [] then pending
    else
      var line := Extend(pending, lines[0]);
      if Separate(line).complete then PendingAfter("", lines[1..]) else PendingAfter(line, lines[1..])
  }

  /** Everything `CSV.Parse(raw)` yields, in order; empty (or null) text yields nothing. */
  function ParseRecords(raw: string): seq<seq<string>>
  {
    if raw == "" then [] else Assemble("", ReadLines(raw))
  }

  lemma {:induction false} AssembleAppend(pending: string, xs: seq<string>, ys: seq<string>)
    ensures Assemble(pending, xs + ys) == Assemble(pending, xs) + Assemble(PendingAfter(pending, xs), ys)
    decreases |xs|
  {
    if xs != [] {
      assert (xs + ys)[0] == xs[0];
      assert (xs + ys)[1..] == xs[1..] + ys;
      var line := Extend(pending, xs[0]);
      if Separate(line).complete {
        AssembleAppend("", xs[1..], ys);
      } else {
        AssembleAppend(line, xs[1..], ys);
      }
    } else {
      assert xs + ys == ys;
    }
  }

  /** While no quote arrives, an open quoted record stays open and nothing is yielded. */
  lemma {:induction false} OpenRecordNeverYielded(g: string, more: seq<string>)
    requires Quote !in g
    requires forall m | m in more :: Quote !in m
    ensures Assemble([Quote] + g, more) == []
    ensures PendingAfter([Quote] + g, more) != ""
    decreases |more|
  {
    if more != [] {
      var g' := g + "\n" + more[0];
      assert Extend([Quote] + g, more[0]) == [Quote] + g';
      OpenQuoteLine(g');
      OpenRecordNeverYielded(g', more[1..]);
    }
  }

  /**
   * Lines that each leave the record open, starting from `pending`, yield nothing: a
   * record is only yielded when a line completes it.
   */
  lemma {:induction false} OpenThroughout(pending: string, lines: seq<string>)
    requires forall i | 1 <= i <= |lines| :: PendingAfter(pending, lines[..i]) != ""
    ensures Assemble(pending, lines) == []
    decreases |lines|
  {
    if lines != [] {
      var line := Extend(pending, lines[0]);
      assert lines[..1][0] == lines[0] && lines[..1][1..] == [];
      assert PendingAfter(pending, lines[..1]) != "";
      assert !Separate(line).complete;
      forall i | 1 <= i <= |lines[1..]| ensures PendingAfter(line, lines[1..][..i]) != "" {
        assert lines[..i + 1][0] == lines[0] && lines[..i + 1][1..] == lines[1..][..i];
        assert PendingAfter(pending, lines[..i + 1]) != "";
      }
      OpenThroughout(line, lines[1..]);
    }
  }

  /**
   * When the input ends inside a record that is still open (after the records of `done`,
   * no prefix of `tail` brings the pending logical line back to empty), that partial
   * record is dropped: what was yielded before it is all there is.
   */
  lemma UnterminatedTailDropped(done: seq<string>, tail: seq<string>)
    requires PendingAfter("", done) == ""
    requires forall i | 1 <= i <= |tail| :: PendingAfter("", tail[..i]) != ""
    ensures Assemble("", done + tail) == Assemble("", done)
  {
    AssembleAppend("", done, tail);
    OpenThroughout("", tail);
  }

  /** The logical line `"a` + newline + `b""c` leaves its quoted field open. */
  lemma OpenTailLine()
    ensures !Separate("\"a\nb\"\"c").complete
  {
    var whole := "\"a\nb\"\"c";
    assert whole == [Quote] + "a\nb" + [Quote, Quote] + "c";
    var s1 := RunFrom(Start, [Quote]);
    RunOne(Start, Quote);
    LiteralRun(s1, "a\nb");
    var s2 := RunFrom(s1, "a\nb");
    RunTwo(s2, Quote, Quote);
    var s3 := RunFrom(s2, [Quote, Quote]);
    LiteralRun(s3, "c");
    RunFromAppend(Start, [Quote], "a\nb");
    RunFromAppend(Start, [Quote] + "a\nb", [Quote, Quote]);
    RunFromAppend(Start, [Quote] + "a\nb" + [Quote, Quote], "c");
  }

  /** Two lines that each leave the record open: the pending line never becomes empty. */
  lemma OpenPair(x: string, y: string)
    requires !Separate(x).complete && !Separate(Extend(x, y)).complete
    ensures forall i | 1 <= i <= 2 :: PendingAfter("", [x, y][..i]) != ""
  {
    assert [x, y][..1] == [x] && [x, y][..2] == [x, y];
    assert PendingAfter("", [x]) == x;
    assert PendingAfter("", [x, y]) == PendingAfter(x, [y]) == Extend(x, y);
  }

  /** For instance, the lines `"a` and `b""c` at the end of the input are dropped. */
  lemma OpenTailExample(done: seq<string>)
    requires PendingAfter("", done) == ""
    ensures Assemble("", done + ["\"a", "b\"\"c"]) == Assemble("", done)
  {
    OpenQuoteLine("a");
    OpenTailLine();
    assert Extend("\"a", "b\"\"c") == "\"a\nb\"\"c";
    OpenPair("\"a", "b\"\"c");
    UnterminatedTailDropped(done, ["\"a", "b\"\"c"]);
  }

  /**
   * In particular, a line that opens a quote, followed only by lines without quotes,
   * is dropped when the input ends.
   */
  lemma QuoteFreeTailDropped(done: seq<string>, g: string, more: seq<string>)
    requires PendingAfter("", done) == ""
    requires Quote !in g
    requires forall m | m in more :: Quote !in m
    ensures Assemble("", done + [[Quote] + g] + more) == Assemble("", done)
  {
    var tail := [[Quote] + g] + more;
    assert done + [[Quote] + g] + more == done + tail;
    AssembleAppend("", done, tail);
    OpenQuoteLine(g);
    assert tail[0] == [Quote] + g && tail[1..] == more;
    assert Extend("", [Quote] + g) == [Quote] + g;
    OpenRecordNeverYielded(g, more);
    assert Assemble("", tail) == [];
  }

  /**
   * Multi-line continuation: a line that opens a quote, followed by a line that closes it,
   * yields one record whose single field holds both lines joined by a newline.
   */
  lemma MultiLineField(a: string, b: string, rest: seq<string>)
    requires Quote !in a && Quote !in b
    requires b == [] || b[|b| - 1] != Separator
    ensures Assemble("", [[Quote] + a, b + [Quote]] + rest) == [[a + "\n" + b]] + Assemble("", rest)
  {
    var lines := [[Quote] + a, b + [Quote]] + rest;
    OpenQuoteLine(a);
    var t := a + "\n" + b;
    var second := Extend([Quote] + a, b + [Quote]);
    assert second == [Quote] + t + [Quote];
    EscapeNoQuote(t);
    assert Quote !in t;
    assert t[|t| - 1] == (if b == [] then '\n' else b[|b| - 1]);
    QuotableWithoutQuotes(t);
    assert Render([Quoted(t)]) == second;
    RenderRoundTrip([Quoted(t)]);
    assert Texts([Quoted(t)]) == [t];
    assert Separate(second) == Fields(true, [t]);
    assert lines[0] == [Quote] + a && lines[1..][0] == b + [Quote];
    assert Extend("", [Quote] + a) == [Quote] + a;
    assert !Separate([Quote] + a).complete;
    assert Assemble("", lines) == Assemble([Quote] + a, lines[1..]);
    assert lines[1..][1..] == rest;
  }

  lemma QuotableWithoutQuotes(t: string)
    requires Quote !in t
    requires t == [] || t[|t| - 1] != Separator
    ensures Quotable(t)
  {
    forall k | 0 <= k < |t| && t[k] == Separator ensures k + 1 < |t| && t[k + 1] != Quote {
      if k + 1 < |t| {
        assert t[k + 1] in t;
      }
    }
  }

  /** Text without quotes: every physical line is one record, split at its commas. */
  lemma {:induction false} NoQuoteRecords(lines: seq<string>)
    requires forall l | l in lines :: Quote !in l
    ensures Assemble("", lines) == seq(|lines|, i requires 0 <= i < |lines| => SplitOn(lines[i], Separator))
  {
    if lines != [] {
      NoQuoteLine(lines[0]);
      NoQuoteRecords(lines[1..]);
    }
  }

  /**
   * `CSV.Parse`: reads the physical lines of `raw` and yields a snapshot of the
   * columns each time `SeparateLine` reports a complete logical line.
   */
  method Parse(raw: string) returns (records: seq<seq<string>>)
    ensures records == ParseRecords(raw)
  {
    records := [];
    if raw == "" {
      return;
    }
    var lines := ReadLines(raw);
    var line := "";
    for i := 0 to |lines|
      invariant records + Assemble(line, lines[i..]) == Assemble("", lines)
    {
      ghost var before := line;
      if line == "" {
        line := lines[i];
      } else {
        line := line + "\n" + lines[i];
      }
      assert line == Extend(before, lines[i]);
      var complete, columns := SeparateLine(line);
      assert lines[i..][0] == lines[i] && lines[i..][1..] == lines[i + 1..];
      assert Assemble(before, lines[i..]) ==
        if complete then [columns] + Assemble("", lines[i + 1..]) else Assemble(line, lines[i + 1..]);
      if complete {
        line := "";
        records := records + [columns];
      }
    }
    assert lines[|lines|..] == [];
  }
}
