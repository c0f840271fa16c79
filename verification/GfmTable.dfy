/** The pipe tables of src/generator/markdown.ts, and a reader of such tables. */
module GfmTable {
  import opened Text

  // ---------------------------------------------------------------- writing

  /** `s.replace(/c/g, with)` for a single character. */
  function ReplaceAll(s: string, c: char, with_: string): string {
    if s == "" then "" else (if s[0] == c then with_ else [s[0]]) + ReplaceAll(s[1..], c, with_)
  }

  /** `s.replace(/\r?\n/g, ' ')` */
  function ReplaceBreaks(s: string): string {
    if s == "" then ""
    else if s[0] == '\n' then " " + ReplaceBreaks(s[1..])
    else if s[0] == '\r' && |s| > 1 && s[1] == '\n' then " " + ReplaceBreaks(s[2..])
    else [s[0]] + ReplaceBreaks(s[1..])
  }

  function CollapseBreaks(s: string): string {
    Trim(ReplaceBreaks(s))
  }

  function EscapeTableCell(s: string): string {
    CollapseBreaks(ReplaceAll(ReplaceAll(s, '\\', "\\\\"), '|', "\\|"))
  }

  function EscapeCells(cells: seq<string>): seq<string> {
    seq(|cells|, k requires 0 <= k < |cells| => EscapeTableCell(cells[k]))
  }

  function PipeRow(parts: seq<string>): string {
    "| " + Join(parts, " | ") + " |"
  }

  function RenderPipeRow(cells: seq<string>): string {
    PipeRow(EscapeCells(cells))
  }

  function Chunks<T>(cells: seq<T>, columns: nat): seq<seq<T>>
    requires columns > 0
    decreases |cells|
  {
    if cells == [] then []
    else
      var n := Min(columns, |cells|);
      [cells[..n]] + Chunks(cells[n..], columns)
  }

  lemma ChunksFrom<T>(cells: seq<T>, i: nat, columns: nat)
    requires columns > 0 && i <= |cells|
    ensures var end := Min(i + columns, |cells|);
            Chunks(cells[i..], columns) == if i == |cells| then [] else [cells[i..end]] + Chunks(cells[end..], columns)
  {
    if i < |cells| {
      var rest, end := cells[i..], Min(i + columns, |cells|);
      assert rest[..end - i] == cells[i..end] && rest[end - i..] == cells[end..];
    }
  }

  method ChunkIntoRows<T>(cells: seq<T>, columns: nat) returns (rows: seq<seq<T>>)
    requires columns > 0
    ensures rows == Chunks(cells, columns)
  {
    hide Chunks;
    rows := [];
    var i := 0;
    assert cells[0..] == cells;
    while i < |cells|
      invariant rows + Chunks(cells[Min(i, |cells|)..], columns) == Chunks(cells, columns)
      decreases |cells| - i
    {
      ChunksFrom(cells, i, columns);
      rows := rows + [cells[i..Min(i + columns, |cells|)]];
      i := i + columns;
    }
    ChunksFrom(cells, |cells|, columns);
  }

  function RenderRows(rows: seq<seq<string>>): seq<string> {
    seq(|rows|, k requires 0 <= k < |rows| => RenderPipeRow(rows[k]))
  }

  function TableLines(cells: seq<string>, columns: nat): seq<string>
    requires columns > 0 && cells != []
  {
    var rows := Chunks(cells, columns);
    var separator := PipeRow(seq(columns, _ => "---"));
    [RenderPipeRow(rows[0]), separator] + RenderRows(rows[1..])
  }

  /** The first row is the header; without cells there is no table. */
  function RenderTable(cells: seq<string>, columns: nat): string
    requires columns > 0
  {
    if cells == [] then "" else "\n" + Join(TableLines(cells, columns), "\n")
  }

  // ---------------------------------------------------------------- reading

  /** Characters before the first pipe that no backslash escapes. */
  function CellLength(s: string): (n: nat)
    ensures n <= |s| && (n < |s| ==> s[n] == '|')
  {
    if s == "" || s[0] == '|' then 0
    else if s[0] == '\\' && |s| > 1 then 2 + CellLength(s[2..])
    else 1 + CellLength(s[1..])
  }

  function SplitCells(s: string): (parts: seq<string>)
    ensures parts != []
    decreases |s|
  {
    var n := CellLength(s);
    if n == |s| then [s] else [s[..n]] + SplitCells(s[n + 1..])
  }

  predicate IsPunctuation(c: char) {
    '!' <= c <= '/' || ':' <= c <= '@' || '[' <= c <= '`' || '{' <= c <= '~'
  }

  /** A backslash before ASCII punctuation stands for the punctuation. */
  function Unescape(s: string): string {
    if s == "" then ""
    else if s[0] == '\\' && |s| > 1 && IsPunctuation(s[1]) then [s[1]] + Unescape(s[2..])
    else [s[0]] + Unescape(s[1..])
  }

  function ReadCells(parts: seq<string>): seq<string> {
    seq(|parts|, k requires 0 <= k < |parts| => Unescape(Trim(parts[k])))
  }

  /** The cells between the leading and the trailing pipe of a row. */
  function ReadRow(row: string): seq<string> {
    var parts := SplitCells(row);
    if |parts| < 2 then [] else ReadCells(parts[1..|parts| - 1])
  }

  function ReadRows(lines: seq<string>): seq<seq<string>> {
    seq(|lines|, k requires 0 <= k < |lines| => ReadRow(lines[k]))
  }

  predicate InLine(c: char) {
    c != '\n' && c != '\r'
  }

  /** The lines of a text (section 2.1 of the GFM specification): they end at CR, LF or CRLF. */
  function Lines(s: string): (lines: seq<string>)
    ensures lines != []
    decreases |s|
  {
    var n := Span(s, InLine);
    if n == |s| then [s]
    else
      var next := if s[n] == '\r' && CharAt(s, n + 1, '\n') then n + 2 else n + 1;
      [s[..n]] + Lines(s[next..])
  }

  /** Hyphens, with a colon before or behind them or none. */
  predicate IsDelimiter(cell: string) {
    var start := if CharAt(cell, 0, ':') then cell[1..] else cell;
    var hyphens := if start != "" && start[|start| - 1] == ':' then start[..|start| - 1] else start;
    hyphens != "" && forall k :: 0 <= k < |hyphens| ==> hyphens[k] == '-'
  }

  predicate IsDelimiterRow(cells: seq<string>) {
    forall k :: 0 <= k < |cells| ==> IsDelimiter(cells[k])
  }

  /**
   Header and body of a table (section 4.10 of the GFM specification): the second row must be a
   delimiter row with as many cells as the header, or there is no table.
   */
  function ReadLines(lines: seq<string>): seq<seq<string>> {
    if |lines| < 2 then []
    else
      var header, delimiters := ReadRow(lines[0]), ReadRow(lines[1]);
      if |delimiters| == |header| && IsDelimiterRow(delimiters) then ReadRows(lines[..1] + lines[2..]) else []
  }

  /** The table behind a line break. */
  function ReadTable(text: string): seq<seq<string>> {
    ReadLines(Lines(text)[1..])
  }

  // ---------------------------------------------------------------- escaping

  function Escape(s: string): string {
    if s == "" then ""
    else (if s[0] == '\\' || s[0] == '|' then ['\\', s[0]] else [s[0]]) + Escape(s[1..])
  }

  lemma {:induction false} ReplaceConcat(a: string, b: string, c: char, with_: string)
    ensures ReplaceAll(a + b, c, with_) == ReplaceAll(a, c, with_) + ReplaceAll(b, c, with_)
  {
    if a == "" {
      assert a + b == b;
    } else {
      assert (a + b)[1..] == a[1..] + b;
      ReplaceConcat(a[1..], b, c, with_);
    }
  }

  /** Escaping backslashes first and pipes second escapes each character once. */
  lemma {:induction false} TwoReplacements(s: string)
    ensures ReplaceAll(ReplaceAll(s, '\\', "\\\\"), '|', "\\|") == Escape(s)
  {
    if s != "" {
      var first := if s[0] == '\\' then "\\\\" else [s[0]];
      var rest := ReplaceAll(s[1..], '\\', "\\\\");
      TwoReplacements(s[1..]);
      ReplaceConcat(first, rest, '|', "\\|");
      if s[0] == '\\' {
        assert ReplaceAll("\\\\", '|', "\\|") == "\\\\" by {
          assert "\\\\"[1..] == "\\";
          assert "\\"[1..] == "";
        }
      } else {
        assert [s[0]][1..] == "";
      }
    }
  }

  /** What replacing breaks does at the head of an escaped text. */
  lemma BreaksAt(c: char, rest: string)
    requires c != '\r' && c != '\n'
    ensures ReplaceBreaks([c] + rest) == [c] + ReplaceBreaks(rest)
  {
    assert ([c] + rest)[1..] == rest;
  }

  lemma EscapeTail(s: string)
    requires s != "" && s[0] != '\\' && s[0] != '|'
    ensures Escape(s) == [s[0]] + Escape(s[1..]) && Escape(s)[1..] == Escape(s[1..])
    ensures |s| > 1 ==> |Escape(s)| > 1 && (Escape(s)[1] == '\n' <==> s[1] == '\n')
  {
  }

  lemma {:induction false} BreaksEscape(s: string)
    ensures ReplaceBreaks(Escape(s)) == Escape(ReplaceBreaks(s))
    decreases |s|
  {
    if s != "" {
      BreaksEscape(s[1..]);
      var e := Escape(s[1..]);
      if s[0] == '\\' || s[0] == '|' {
        BreaksAt('\\', [s[0]] + e);
        BreaksAt(s[0], e);
        assert Escape(s) == ['\\'] + ([s[0]] + e);
      } else {
        EscapeTail(s);
        if s[0] == '\r' && |s| > 1 && s[1] == '\n' {
          BreaksEscape(s[2..]);
          EscapeTail(s[1..]);
          assert s[1..][1..] == s[2..];
          assert Escape(s)[2..] == Escape(s[2..]);
        }
      }
    }
  }

  lemma {:induction false} EscapeConcat(a: string, b: string)
    ensures Escape(a + b) == Escape(a) + Escape(b)
  {
    if a == "" {
      assert a + b == b;
    } else {
      assert (a + b)[1..] == a[1..] + b;
      EscapeConcat(a[1..], b);
    }
  }

  lemma {:induction false} TrimStartEscape(s: string)
    ensures TrimStart(Escape(s)) == Escape(TrimStart(s))
  {
    if s != "" && IsSpace(s[0]) {
      assert Escape(s)[1..] == Escape(s[1..]);
      TrimStartEscape(s[1..]);
    }
  }

  lemma {:induction false} TrimEndEscape(s: string)
    ensures TrimEnd(Escape(s)) == Escape(TrimEnd(s))
  {
    if s != "" {
      var init, last := s[..|s| - 1], s[|s| - 1];
      EscapeConcat(init, [last]);
      assert s == init + [last];
      assert [last][1..] == "";
      if IsSpace(last) {
        assert Escape(s)[..|Escape(s)| - 1] == Escape(init);
        TrimEndEscape(init);
      }
    }
  }

  /** An escaped cell is its break-collapsed text, escaped. */
  lemma EscapedCell(s: string)
    ensures EscapeTableCell(s) == Escape(CollapseBreaks(s))
  {
    TwoReplacements(s);
    BreaksEscape(s);
    TrimStartEscape(ReplaceBreaks(s));
    TrimEndEscape(TrimStart(ReplaceBreaks(s)));
  }

  lemma {:induction false} UnescapeEscape(s: string)
    ensures Unescape(Escape(s)) == s
  {
    if s != "" {
      UnescapeEscape(s[1..]);
      UnescapeStep(s[0], Escape(s[1..]));
    }
  }

  lemma UnescapeStep(c: char, rest: string)
    ensures Unescape((if c == '\\' || c == '|' then ['\\', c] else [c]) + rest) == [c] + Unescape(rest)
  {
    if c == '\\' || c == '|' {
      assert (['\\', c] + rest)[2..] == rest;
    } else {
      assert ([c] + rest)[1..] == rest;
    }
  }

  lemma CellLengthPlain(c: char, rest: string)
    requires c != '\\' && c != '|'
    ensures CellLength([c] + rest) == 1 + CellLength(rest)
  {
    assert ([c] + rest)[1..] == rest;
  }

  lemma CellLengthEscaped(c: char, rest: string)
    ensures CellLength(['\\', c] + rest) == 2 + CellLength(rest)
  {
    assert (['\\', c] + rest)[2..] == rest;
  }

  /** No pipe of an escaped text ends a cell. */
  lemma {:induction false} CellLengthEscape(s: string, rest: string)
    requires rest != "" && rest[0] == '|'
    ensures CellLength(Escape(s) + ([' '] + rest)) == |Escape(s)| + 1
  {
    hide CellLength;
    var behind := [' '] + rest;
    if s == "" {
      assert Escape(s) + behind == behind;
      CellLengthPlain(' ', rest);
      PipeEndsCell(rest);
    } else {
      var more := Escape(s[1..]);
      CellLengthEscape(s[1..], rest);
      if s[0] == '\\' || s[0] == '|' {
        CellLengthEscaped(s[0], more + behind);
        Assoc(['\\', s[0]], more, behind);
      } else {
        CellLengthPlain(s[0], more + behind);
        Assoc([s[0]], more, behind);
      }
    }
  }

  lemma PipeEndsCell(s: string)
    requires s != "" && s[0] == '|'
    ensures CellLength(s) == 0
  {
  }

  lemma SplitAtPipe(cell: string, rest: string)
    requires CellLength(cell + (['|'] + rest)) == |cell|
    ensures SplitCells(cell + (['|'] + rest)) == [cell] + SplitCells(rest)
  {
    hide CellLength;
    var s := cell + (['|'] + rest);
    assert s[..|cell|] == cell && s[|cell| + 1..] == rest;
  }

  function Pad(cell: string): string {
    [' '] + EscapeTableCell(cell) + [' ']
  }

  /** One rendered cell, with its padding, is one part of the split. */
  lemma SplitOneCell(cell: string, rest: string)
    ensures SplitCells(Pad(cell) + (['|'] + rest)) == [Pad(cell)] + SplitCells(rest)
  {
    hide CellLength, SplitCells, EscapeTableCell, Escape;
    var escaped, behind := EscapeTableCell(cell), ['|'] + rest;
    EscapedCell(cell);
    CellLengthEscape(CollapseBreaks(cell), behind);
    CellLengthPlain(' ', escaped + ([' '] + behind));
    assert Pad(cell) + behind == [' '] + (escaped + ([' '] + behind)) by {
      Assoc([' '] + escaped, [' '], behind);
      Assoc([' '], escaped, [' '] + behind);
    }
    SplitAtPipe(Pad(cell), rest);
  }

  // ---------------------------------------------------------------- trimming

  predicate Trimmed(s: string) {
    s == "" || (!IsSpace(s[0]) && !IsSpace(s[|s| - 1]))
  }

  lemma {:induction false} TrimStartDone(s: string)
    ensures TrimStart(s) == "" || !IsSpace(TrimStart(s)[0])
  {
    if s != "" && IsSpace(s[0]) {
      TrimStartDone(s[1..]);
    }
  }

  lemma {:induction false} TrimEndDone(s: string)
    ensures TrimEnd(s) <= s && (TrimEnd(s) == "" || !IsSpace(TrimEnd(s)[|TrimEnd(s)| - 1]))
  {
    if s != "" && IsSpace(s[|s| - 1]) {
      TrimEndDone(s[..|s| - 1]);
    }
  }

  lemma TrimTrimmed(s: string)
    ensures Trimmed(Trim(s))
  {
    TrimStartDone(s);
    TrimEndDone(TrimStart(s));
    var t := TrimStart(s);
    assert Trim(s) != "" ==> Trim(s)[0] == t[0];
  }

  lemma PaddedTrim(s: string)
    requires Trimmed(s)
    ensures Trim([' '] + s + [' ']) == s
  {
    assert ([' '] + s + [' '])[1..] == s + [' '];
    if s == "" {
      assert s + [' '] == [' '];
      assert TrimStart([' ']) == TrimStart([' '][1..]) == "";
    } else {
      assert TrimStart(s + [' ']) == s + [' '];
      assert (s + [' '])[..|s|] == s;
      assert TrimEnd(s + [' ']) == TrimEnd(s) == s;
    }
  }

  lemma {:induction false} EscapeTrimmed(s: string)
    requires Trimmed(s)
    ensures Trimmed(Escape(s))
  {
    if s != "" {
      var init, last := s[..|s| - 1], s[|s| - 1];
      EscapeConcat(init, [last]);
      assert s == init + [last];
      assert [last][1..] == "";
    }
  }

  // ---------------------------------------------------------------- line breaks

  /** Every line break, LF or CRLF, becomes one blank; all else stays. */
  lemma {:induction false} BreakBecomesBlank(a: string, ending: string, b: string)
    requires '\n' !in a
    requires ending == "\r\n" || (ending == "\n" && (a != "" ==> a[|a| - 1] != '\r'))
    ensures ReplaceBreaks(a) == a && ReplaceBreaks(a + (ending + b)) == a + (" " + ReplaceBreaks(b))
    decreases |a|
  {
    var s := a + (ending + b);
    if a == "" {
      assert s == ending + b && s[|ending|..] == b && s[0] == ending[0];
      assert a + (" " + ReplaceBreaks(b)) == " " + ReplaceBreaks(b);
    } else {
      BreakBecomesBlank(a[1..], ending, b);
      assert s[0] == a[0] && s[1..] == a[1..] + (ending + b);
      assert |a| > 1 ==> s[1] == a[1];
      Assoc([a[0]], a[1..], " " + ReplaceBreaks(b));
      assert [a[0]] + a[1..] == a;
    }
  }

  /** A cell's text is collapsed by replacing its breaks and trimming. */
  lemma CollapseIff(s: string, t: string)
    ensures CollapseBreaks(s) == t
       <==> && (t != "" ==> t[0] !in WHITE_SPACE && t[|t| - 1] !in WHITE_SPACE)
            && exists lead, trail :: ReplaceBreaks(s) == lead + (t + trail) && AllWhite(lead) && AllWhite(trail)
  {
    hide AllWhite;
    TrimIff(ReplaceBreaks(s), t);
  }

  // ---------------------------------------------------------------- round trips

  function Collapsed(cells: seq<string>): (texts: seq<string>)
    ensures |texts| == |cells| && forall k :: 0 <= k < |cells| ==> texts[k] == CollapseBreaks(cells[k])
  {
    seq(|cells|, k requires 0 <= k < |cells| => CollapseBreaks(cells[k]))
  }

  function Padded(cells: seq<string>): seq<string> {
    seq(|cells|, k requires 0 <= k < |cells| => Pad(cells[k]))
  }

  /** What follows the leading pipe of a row. */
  function BehindPipe(cells: seq<string>): string
    requires cells != []
  {
    Pad(cells[0]) + (['|'] + if |cells| == 1 then "" else BehindPipe(cells[1..]))
  }

  lemma {:induction false} RowText(cells: seq<string>)
    requires cells != []
    ensures [' '] + Join(EscapeCells(cells), " | ") + " |" == BehindPipe(cells)
  {
    hide EscapeTableCell;
    var cell, more := EscapeTableCell(cells[0]), Join(EscapeCells(cells[1..]), " | ");
    assert EscapeCells(cells)[1..] == EscapeCells(cells[1..]);
    if |cells| == 1 {
      assert Join(EscapeCells(cells), " | ") == cell;
      assert [' '] + cell + " |" == ([' '] + cell + [' ']) + (['|'] + "");
    } else {
      RowText(cells[1..]);
      assert Join(EscapeCells(cells), " | ") == cell + " | " + more;
      assert [' '] + (cell + " | " + more) + " |" == ([' '] + cell + [' ']) + (['|'] + ([' '] + more + " |"));
    }
  }

  /** Behind the leading pipe: one padded part for each cell, and nothing after the last pipe. */
  lemma {:induction false} SplitPadded(cells: seq<string>)
    requires cells != []
    ensures SplitCells(BehindPipe(cells)) == Padded(cells) + [""]
  {
    hide SplitCells, Pad;
    assert Padded(cells) == [Pad(cells[0])] + Padded(cells[1..]);
    if |cells| == 1 {
      SplitOneCell(cells[0], "");
      NoCellsLeft();
    } else {
      SplitPadded(cells[1..]);
      SplitOneCell(cells[0], BehindPipe(cells[1..]));
    }
  }

  lemma NoCellsLeft()
    ensures SplitCells("") == [""]
  {
  }

  /** Reading a rendered row gives back every cell's break-collapsed text. */
  lemma RowRoundTrip(cells: seq<string>)
    requires cells != []
    ensures ReadRow(RenderPipeRow(cells)) == Collapsed(cells)
  {
    hide EscapeTableCell, SplitCells, Unescape, Trim, Pad, BehindPipe;
    SplitPadded(cells);
    SplitLeadingPipe(BehindPipe(cells));
    assert RenderPipeRow(cells) == ['|'] + BehindPipe(cells) by {
      RowText(cells);
      assert "| " + Join(EscapeCells(cells), " | ") + " |" == ['|'] + ([' '] + Join(EscapeCells(cells), " | ") + " |");
    }
    var parts := SplitCells(RenderPipeRow(cells));
    assert parts[1..|parts| - 1] == Padded(cells);
    forall k | 0 <= k < |cells| ensures Unescape(Trim(Padded(cells)[k])) == CollapseBreaks(cells[k]) {
      CellRoundTrip(cells[k]);
    }
  }

  lemma SplitLeadingPipe(s: string)
    ensures SplitCells(['|'] + s) == [""] + SplitCells(s)
  {
    assert (['|'] + s)[..0] == "" && (['|'] + s)[1..] == s;
  }

  lemma CellRoundTrip(cell: string)
    ensures Unescape(Trim(Pad(cell))) == CollapseBreaks(cell)
  {
    hide Unescape, Trim, Escape, Trimmed;
    var text := CollapseBreaks(cell);
    EscapedCell(cell);
    TrimTrimmed(ReplaceBreaks(cell));
    EscapeTrimmed(text);
    PaddedTrim(Escape(text));
    UnescapeEscape(text);
  }

  function Flatten<T>(rows: seq<seq<T>>): seq<T> {
    if rows == [] then [] else rows[0] + Flatten(rows[1..])
  }

  /** A simple grid chunks into exactly its rows, whose concatenation is the input. */
  lemma {:induction false} ChunksOfGrid<T>(cells: seq<T>, rows: nat, columns: nat)
    requires columns > 0 && |cells| == rows * columns
    ensures |Chunks(cells, columns)| == rows
    ensures forall k :: 0 <= k < rows ==> |Chunks(cells, columns)[k]| == columns
    ensures Flatten(Chunks(cells, columns)) == cells
    decreases rows
  {
    if rows > 0 {
      OneRowLess(rows, columns);
      var rest := Chunks(cells[columns..], columns);
      ChunksOfGrid(cells[columns..], rows - 1, columns);
      assert Chunks(cells, columns) == [cells[..columns]] + rest;
      hide Chunks;
      assert ([cells[..columns]] + rest)[1..] == rest;
      assert cells == cells[..columns] + cells[columns..];
    }
  }

  lemma OneRowLess(rows: nat, columns: nat)
    requires rows > 0
    ensures rows * columns - columns == (rows - 1) * columns >= 0
  {
  }

  lemma {:induction false} NoBreakLeft(s: string)
    ensures '\n' !in ReplaceBreaks(s)
    decreases |s|
  {
    if s != "" {
      NoBreakLeft(s[1..]);
      if |s| > 1 {
        NoBreakLeft(s[2..]);
      }
    }
  }

  lemma {:induction false} EscapeChars(s: string, c: char)
    requires c != '\\'
    ensures c in Escape(s) <==> c in s
  {
    if s != "" {
      EscapeChars(s[1..], c);
    }
  }

  lemma {:induction false} TrimChars(s: string, c: char)
    requires c !in s
    ensures c !in TrimStart(s) && c !in TrimEnd(s)
  {
    if s != "" {
      TrimChars(s[1..], c);
      TrimChars(s[..|s| - 1], c);
    }
  }

  lemma {:induction false} JoinChars(parts: seq<string>, separator: string, c: char)
    requires c !in separator
    ensures c in Join(parts, separator) <==> exists k :: 0 <= k < |parts| && c in parts[k]
  {
    if |parts| > 1 {
      var rest := parts[1..];
      JoinChars(rest, separator, c);
      assert forall k :: 0 < k < |parts| ==> parts[k] == rest[k - 1];
      if c in Join(rest, separator) {
        var k :| 0 <= k < |rest| && c in rest[k];
        assert c in parts[k + 1];
      }
    }
  }

  predicate OneLine(s: string) {
    '\n' !in s && '\r' !in s
  }

  /** No carriage return without a newline inside any cell. */
  predicate NoLoneReturn(cells: seq<string>) {
    forall cell :: cell in cells ==> '\r' !in CollapseBreaks(cell)
  }

  lemma CellChars(cell: string)
    ensures '\n' !in EscapeTableCell(cell)
    ensures '\r' in EscapeTableCell(cell) <==> '\r' in CollapseBreaks(cell)
  {
    hide Escape, TrimStart, TrimEnd;
    EscapedCell(cell);
    NoBreakLeft(cell);
    TrimChars(ReplaceBreaks(cell), '\n');
    TrimChars(TrimStart(ReplaceBreaks(cell)), '\n');
    EscapeChars(CollapseBreaks(cell), '\n');
    EscapeChars(CollapseBreaks(cell), '\r');
  }

  /**
   A rendered row never holds a newline, and it stays on one line if and only if no cell holds a
   carriage return that no newline follows.
   */
  lemma RowOnOneLine(cells: seq<string>)
    ensures '\n' !in RenderPipeRow(cells)
    ensures OneLine(RenderPipeRow(cells)) <==> NoLoneReturn(cells)
  {
    hide EscapeTableCell, CollapseBreaks;
    var parts := EscapeCells(cells);
    forall k | 0 <= k < |cells|
      ensures '\n' !in parts[k] && ('\r' in parts[k] <==> '\r' in CollapseBreaks(cells[k]))
    {
      CellChars(cells[k]);
    }
    JoinChars(parts, " | ", '\n');
    JoinChars(parts, " | ", '\r');
    if '\r' in Join(parts, " | ") {
      var k :| 0 <= k < |parts| && '\r' in parts[k];
      assert cells[k] in cells;
    }
    if !NoLoneReturn(cells) {
      var cell :| cell in cells && '\r' in CollapseBreaks(cell);
      var k :| 0 <= k < |cells| && cells[k] == cell;
      assert '\r' in parts[k];
    }
  }

  function CollapsedRows(rows: seq<seq<string>>): seq<seq<string>> {
    seq(|rows|, k requires 0 <= k < |rows| => Collapsed(rows[k]))
  }

  /** A line ending, with the text behind it: no newline that would belong to it. */
  predicate IsEnding(ending: string, behind: string) {
    ending == "\n" || ending == "\r\n" || (ending == "\r" && !CharAt(behind, 0, '\n'))
  }

  lemma LinesHead(s: string, n: nat, k: nat)
    requires n == Span(s, InLine) < |s|
    requires k == (if s[n] == '\r' && CharAt(s, n + 1, '\n') then 2 else 1)
    ensures n + k <= |s| && Lines(s) == [s[..n]] + Lines(s[n + k..])
  {
    hide Span;
  }

  lemma FirstLine(head: string, ending: string, behind: string)
    requires OneLine(head) && IsEnding(ending, behind)
    ensures Lines(head + (ending + behind)) == [head] + Lines(behind)
  {
    var s := head + (ending + behind);
    var n := |head|;
    assert s[n] == ending[0] && s[..n] == head;
    SpanUnique(s, InLine, n);
    hide Lines;
    assert n + 1 < |s| ==> s[n + 1] == (ending + behind)[1];
    assert s[n + |ending|..] == behind;
    LinesHead(s, n, |ending|);
  }

  lemma CutLine(s: string) returns (head: string, ending: string, behind: string)
    requires !OneLine(s)
    ensures s == head + (ending + behind) && OneLine(head) && IsEnding(ending, behind)
  {
    hide Span;
    var n := Span(s, InLine);
    assert n < |s|;
    var k := if s[n] == '\r' && CharAt(s, n + 1, '\n') then 2 else 1;
    head, ending, behind := s[..n], s[n..n + k], s[n + k..];
  }

  lemma AssocLine(head: string, ending: string, more: string, rest: string)
    ensures (head + (ending + more)) + rest == head + (ending + (more + rest))
  {
  }

  /** A newline behind a text that ends in no carriage return separates the lines of both. */
  lemma {:induction false} LinesAppend(a: string, rest: string)
    requires a != "" ==> a[|a| - 1] != '\r'
    ensures Lines(a + ("\n" + rest)) == Lines(a) + Lines(rest)
    decreases |a|
  {
    hide Lines;
    if OneLine(a) {
      FirstLine(a, "\n", rest);
      LineCount(a);
    } else {
      var head, ending, more := CutLine(a);
      assert more != "" ==> more[|more| - 1] == a[|a| - 1];
      assert more == "" ==> ending[|ending| - 1] == a[|a| - 1];
      FirstLine(head, ending, more);
      FirstLine(head, ending, more + ("\n" + rest));
      AssocLine(head, ending, more, "\n" + rest);
      LinesAppend(more, rest);
    }
  }

  lemma LineCount(s: string)
    ensures |Lines(s)| == 1 <==> OneLine(s)
    ensures OneLine(s) ==> Lines(s) == [s]
  {
    var n := Span(s, InLine);
    if n < |s| {
      assert s[n] in s;
    }
  }

  function AllLines(texts: seq<string>): (lines: seq<string>)
    ensures |lines| >= |texts|
  {
    if texts == [] then [] else Lines(texts[0]) + AllLines(texts[1..])
  }

  predicate EndsInPipe(s: string) {
    s != "" && s[|s| - 1] == '|'
  }

  lemma {:induction false} JoinedLines(texts: seq<string>)
    requires texts != [] && forall k :: 0 <= k < |texts| ==> EndsInPipe(texts[k])
    ensures Lines(Join(texts, "\n")) == AllLines(texts)
  {
    hide Lines;
    if |texts| == 1 {
      assert texts[1..] == [];
    } else {
      JoinedLines(texts[1..]);
      LinesAppend(texts[0], Join(texts[1..], "\n"));
      Assoc(texts[0], "\n", Join(texts[1..], "\n"));
    }
  }

  /** Every text is one line exactly when there are no more lines than texts. */
  lemma {:induction false} CountLines(texts: seq<string>)
    ensures (forall k :: 0 <= k < |texts| ==> OneLine(texts[k])) <==> |AllLines(texts)| == |texts|
    ensures |AllLines(texts)| == |texts| ==> AllLines(texts) == texts
  {
    if texts != [] {
      hide Lines, OneLine;
      LineCount(texts[0]);
      CountLines(texts[1..]);
      assert forall k :: 0 < k < |texts| ==> texts[k] == texts[1..][k - 1];
    }
  }

  lemma {:induction false} FlattenElements<T>(rows: seq<seq<T>>, x: T)
    ensures x in Flatten(rows) <==> exists k :: 0 <= k < |rows| && x in rows[k]
  {
    if rows != [] {
      var rest := rows[1..];
      FlattenElements(rest, x);
      assert forall k :: 0 < k < |rows| ==> rows[k] == rest[k - 1];
      if x in Flatten(rest) {
        var k :| 0 <= k < |rest| && x in rest[k];
        assert x in rows[k + 1];
      }
    }
  }

  lemma ReturnsByRow(cells: seq<string>, rows: seq<seq<string>>)
    requires Flatten(rows) == cells
    ensures NoLoneReturn(cells) <==> forall k :: 0 <= k < |rows| ==> NoLoneReturn(rows[k])
  {
    hide CollapseBreaks, Flatten;
    forall x ensures x in cells <==> exists k :: 0 <= k < |rows| && x in rows[k] {
      FlattenElements(rows, x);
    }
    if !NoLoneReturn(cells) {
      var x :| x in cells && '\r' in CollapseBreaks(x);
      var k :| 0 <= k < |rows| && x in rows[k];
      assert !NoLoneReturn(rows[k]);
    }
  }

  /**
   Reading a rendered simple grid gives back its rows, cell by cell, if and only if no cell holds
   a carriage return that no newline follows.
   */
  lemma TableRoundTrip(cells: seq<string>, rows: nat, columns: nat)
    requires rows > 0 && columns > 0 && |cells| == rows * columns
    ensures ReadTable(RenderTable(cells, columns)) == CollapsedRows(Chunks(cells, columns)) <==> NoLoneReturn(cells)
  {
    hide RenderPipeRow, ReadRow, Chunks, Lines, ReadTable, NoLoneReturn, OneLine, Flatten, PipeRow, IsDelimiterRow;
    assert rows * columns >= columns;
    ChunksOfGrid(cells, rows, columns);
    var chunks := Chunks(cells, columns);
    var lines := TableLines(cells, columns);
    ReturnsByRow(cells, chunks);
    TableLinesShape(chunks, columns);
    ReadRendered(lines);
    RowRoundTrip(chunks[0]);
    DelimitersRead(columns);
    assert lines[0] == RenderPipeRow(chunks[0]);
    assert ReadLines(lines) == ReadRows(lines[..1] + lines[2..]);
    hide ReadLines;
    if NoLoneReturn(cells) {
      forall k | 0 <= k < rows ensures ReadRows(lines[..1] + lines[2..])[k] == Collapsed(chunks[k]) {
        assert (lines[..1] + lines[2..])[k] == RenderPipeRow(chunks[k]);
        RowRoundTrip(chunks[k]);
      }
    }
  }

  /** The separator row reads as one delimiter for each column. */
  lemma DelimitersRead(columns: nat)
    requires columns > 0
    ensures var read := ReadRow(PipeRow(seq(columns, _ => "---")));
            |read| == columns && IsDelimiterRow(read)
  {
    hide ReadRow, CollapseBreaks, EscapeTableCell, PipeRow;
    var dashes := seq(columns, _ => "---");
    DashesStay();
    assert EscapeCells(dashes) == dashes && Collapsed(dashes) == dashes;
    RowRoundTrip(dashes);
  }

  lemma DashesStay()
    ensures EscapeTableCell("---") == CollapseBreaks("---") == "---" && IsDelimiter("---")
  {
    var s := "---";
    assert s[1..] == "--" && "--"[1..] == "-" && "-"[1..] == "";
    ReplaceDashes('\\', "\\\\");
    ReplaceDashes('|', "\\|");
    assert ReplaceBreaks(s) == s;
    assert TrimStart(s) == s && TrimEnd(s) == s;
  }

  lemma ReplaceDashes(c: char, with_: string)
    requires c != '-'
    ensures ReplaceAll("---", c, with_) == "---"
  {
    var s := "---";
    assert s[1..] == "--" && "--"[1..] == "-" && "-"[1..] == "";
    assert ReplaceAll("-", c, with_) == "-";
    assert ReplaceAll("--", c, with_) == "--";
  }

  lemma TableLinesShape(rows: seq<seq<string>>, columns: nat)
    requires rows != []
    ensures var lines := [RenderPipeRow(rows[0]), PipeRow(seq(columns, _ => "---"))] + RenderRows(rows[1..]);
            && (forall k :: 0 <= k < |lines| ==> EndsInPipe(lines[k]))
            && ((forall k :: 0 <= k < |lines| ==> OneLine(lines[k]))
                <==> forall k :: 0 <= k < |rows| ==> NoLoneReturn(rows[k]))
  {
    hide RenderPipeRow, PipeRow, NoLoneReturn, OneLine, EndsInPipe;
    var texts := RenderRows(rows);
    assert RenderRows(rows[1..]) == texts[1..];
    SeparatorLine(columns);
    forall k | 0 <= k < |rows| ensures EndsInPipe(texts[k]) && (OneLine(texts[k]) <==> NoLoneReturn(rows[k])) {
      RowOnOneLine(rows[k]);
      RowEndsInPipe(rows[k]);
    }
    SeparatorInserted(texts, PipeRow(seq(columns, _ => "---")));
    assert forall k :: 0 <= k < |rows| ==> (OneLine(texts[k]) <==> NoLoneReturn(rows[k]));
  }

  lemma SeparatorInserted(texts: seq<string>, separator: string)
    requires texts != [] && forall k :: 0 <= k < |texts| ==> EndsInPipe(texts[k])
    requires OneLine(separator) && EndsInPipe(separator)
    ensures var lines := [texts[0], separator] + texts[1..];
            && (forall k :: 0 <= k < |lines| ==> EndsInPipe(lines[k]))
            && ((forall k :: 0 <= k < |lines| ==> OneLine(lines[k]))
                <==> forall k :: 0 <= k < |texts| ==> OneLine(texts[k]))
  {
    hide OneLine, EndsInPipe;
    var lines := [texts[0], separator] + texts[1..];
    assert forall k :: 2 <= k < |lines| ==> lines[k] == texts[k - 1];
    forall k | 0 < k < |texts| ensures texts[k] == lines[k + 1] {
    }
    assert texts[0] == lines[0];
  }

  lemma RowEndsInPipe(cells: seq<string>)
    ensures EndsInPipe(RenderPipeRow(cells))
  {
  }

  lemma SeparatorLine(columns: nat)
    ensures OneLine(PipeRow(seq(columns, _ => "---"))) && EndsInPipe(PipeRow(seq(columns, _ => "---")))
  {
    JoinChars(seq(columns, _ => "---"), " | ", '\n');
    JoinChars(seq(columns, _ => "---"), " | ", '\r');
  }

  lemma ReadRendered(lines: seq<string>)
    requires |lines| >= 2 && forall k :: 0 <= k < |lines| ==> EndsInPipe(lines[k])
    ensures var read := ReadTable("\n" + Join(lines, "\n"));
            if forall k :: 0 <= k < |lines| ==> OneLine(lines[k]) then read == ReadLines(lines)
            else read == [] || |read| > |lines| - 1
  {
    hide ReadRow, Lines, OneLine, EndsInPipe, IsDelimiterRow, ReadLines, AllLines;
    var all := AllLines(lines);
    JoinedLines(lines);
    CountLines(lines);
    LinesAppend("", Join(lines, "\n"));
    EmptyLine();
    assert "" + ("\n" + Join(lines, "\n")) == "\n" + Join(lines, "\n");
    assert ([""] + all)[1..] == all;
    RowsRead(all);
  }

  lemma RowsRead(lines: seq<string>)
    ensures ReadLines(lines) == [] || |ReadLines(lines)| == |lines| - 1
  {
  }

  lemma EmptyLine()
    ensures Lines("") == [""]
  {
  }

  /** The failing case: a lone carriage return stays in its cell, where it ends the line. */
  lemma LoneReturnBreaksRow()
    ensures '\r' in RenderPipeRow(["a\rb"])
    ensures ReadTable(RenderTable(["a\rb"], 1)) != CollapsedRows(Chunks(["a\rb"], 1))
  {
    var cell := "a\rb";
    assert cell[1..] == "\rb" && "\rb"[1..] == "b" && "b"[1..] == "";
    assert ReplaceBreaks(cell) == cell;
    assert CollapseBreaks(cell) == cell;
    hide CollapseBreaks, RenderPipeRow, ReadTable, RenderTable, Chunks;
    assert cell[1] in cell && cell in [cell];
    RowOnOneLine([cell]);
    TableRoundTrip([cell], 1, 1);
  }
}
