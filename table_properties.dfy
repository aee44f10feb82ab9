/** What `html_table_to_markdown` guarantees, proved about the model in
    SyncScript: how a cell is escaped, that a reader of the pipe table
    finds exactly the columns that were written, which rows produce which
    lines, and how the lines are joined. */
module TableProperties {
  import opened PyStr
  import opened GfmRow
  import opened SyncScript

  // ---------------------------------------------------------------------
  // Escaping one cell

  /** The escape of one character, as the two replacements together act on it. */
  function EscapeChar(c: char): string {
    if c == '|' then "\\|" else if c == '\n' then " " else [c]
  }

  /** A character-by-character escape, the reference for EscapeCell. */
  function EscapeEach(s: string): string {
    if s == [] then [] else EscapeChar(s[0]) + EscapeEach(s[1..])
  }

  /** The two `str.replace` passes of the source act as one pass that
      escapes each character on its own. */
  lemma {:induction false} EscapeCellCharwise(text: string)
    ensures EscapeCell(text) == EscapeEach(text)
  {
    if text != [] {
      var first := if text[0] == '|' then "\\|" else [text[0]];
      var rest := Replace(text[1..], '|', "\\|");
      assert Replace(text, '|', "\\|") == first + rest;
      ReplaceAppend(first, rest, '\n', " ");
      if text[0] == '\n' {
        assert Replace(first, '\n', " ") == " " + Replace([], '\n', " ");
      }
      assert Replace(first, '\n', " ") == EscapeChar(text[0]);
      EscapeCellCharwise(text[1..]);
    }
  }

  lemma {:induction false} EscapeEachHasNoBarePipe(s: string, prev: char)
    ensures BarePipes(EscapeEach(s), prev) == 0
  {
    if s != [] {
      var e := EscapeChar(s[0]);
      BarePipesAppend(e, EscapeEach(s[1..]), prev);
      if s[0] == '|' {
        assert BarePipes(e, prev) == BarePipes("|", '\\') + 0;
      } else {
        assert BarePipes(e, prev) == BarePipes([], e[0]) + 0;
      }
      EscapeEachHasNoBarePipe(s[1..], LastOr(e, prev));
    }
  }

  /** Every `|` of an escaped cell is preceded by a backslash, whatever
      comes before the cell: no escaped cell holds a column delimiter. */
  lemma EscapedCellHasNoBarePipe(text: string, prev: char)
    ensures BarePipes(EscapeCell(text), prev) == 0
  {
    EscapeCellCharwise(text);
    EscapeEachHasNoBarePipe(text, prev);
  }

  lemma {:induction false} UnescapeEscapeEach(s: string)
    ensures Unescape(EscapeEach(s)) == Replace(s, '\n', " ")
  {
    if s != [] {
      var tail := EscapeEach(s[1..]);
      UnescapeEscapeEach(s[1..]);
      if s[0] == '|' {
        assert ("\\|" + tail)[2..] == tail;
      } else {
        var e := EscapeChar(s[0]);
        assert |e| == 1 && e[0] != '|';
        assert tail != [] ==> tail[0] == EscapeChar(s[1])[0] && tail[0] != '|';
        assert (e + tail)[1..] == tail;
        assert Unescape(e + tail) == e + Unescape(tail);
      }
    }
  }

  /** Unescaping an escaped cell gives back its text with every newline
      turned into a space: the pipes survive the round trip unchanged. */
  lemma UnescapeEscapeCell(text: string)
    ensures Unescape(EscapeCell(text)) == Replace(text, '\n', " ")
    ensures '\n' !in text ==> Unescape(EscapeCell(text)) == text
  {
    EscapeCellCharwise(text);
    UnescapeEscapeEach(text);
    if '\n' !in text {
      ReplaceWithoutTarget(text, '\n', " ");
    }
  }

  // ---------------------------------------------------------------------
  // Reading a row line back

  /** ` a | b | ... |`: a row line after its leading pipe. */
  function Cols(texts: seq<string>): string {
    if texts == [] then [] else " " + texts[0] + " |" + Cols(texts[1..])
  }

  function Padded(texts: seq<string>): seq<string> {
    seq(|texts|, k requires 0 <= k < |texts| => " " + texts[k] + " ")
  }

  lemma ConsColumn(first: string, joined: string, cols: string)
    requires "| " + joined + " |" == "|" + cols
    ensures "| " + (first + " | " + joined) + " |" == "|" + (" " + first + " |" + cols)
  {
    assert cols == ("|" + cols)[1..] == " " + joined + " |";
  }

  lemma {:induction false} FormatRowAsCols(texts: seq<string>)
    requires texts != []
    ensures FormatRow(texts) == "|" + Cols(texts)
  {
    var first := texts[0];
    if |texts| == 1 {
      assert Cols(texts) == " " + first + " |" + [];
      assert Join(texts, " | ") == first;
    } else {
      FormatRowAsCols(texts[1..]);
      assert Join(texts, " | ") == first + " | " + Join(texts[1..], " | ");
      assert Cols(texts) == " " + first + " |" + Cols(texts[1..]);
      ConsColumn(first, Join(texts[1..], " | "), Cols(texts[1..]));
    }
  }

  lemma PaddedCellHasNoBarePipe(text: string, prev: char)
    requires BarePipes(text, ' ') == 0
    ensures BarePipes(" " + text + " ", prev) == 0
  {
    BarePipesAppend([' '], text + " ", prev);
    BarePipesAppend(text, " ", ' ');
    assert text + " " == (" " + text + " ")[1..];
  }

  lemma SplitAtDelimiter(rest: string)
    ensures SplitCells("|" + rest, ' ') == [[]] + SplitCells(rest, '|')
  {
  }

  lemma ColsCons(texts: seq<string>)
    requires texts != []
    ensures Cols(texts) == (" " + texts[0] + " ") + ("|" + Cols(texts[1..]))
  {
  }

  lemma {:induction false} SplitCols(texts: seq<string>, prev: char)
    requires forall k :: 0 <= k < |texts| ==> BarePipes(texts[k], ' ') == 0
    ensures SplitCells(Cols(texts), prev) == Padded(texts) + [[]]
  {
    if texts != [] {
      var cell := " " + texts[0] + " ";
      var later := Cols(texts[1..]);
      ColsCons(texts);
      PaddedCellHasNoBarePipe(texts[0], prev);
      SplitCellsAppend(cell, "|" + later, prev);
      assert LastOr(cell, prev) == ' ';
      SplitAtDelimiter(later);
      SplitCols(texts[1..], '|');
      assert cell + [] == cell;
      assert SplitCells(Cols(texts), prev) == [cell] + (Padded(texts[1..]) + [[]]);
      assert Padded(texts) == [cell] + Padded(texts[1..]);
      assert [cell] + (Padded(texts[1..]) + [[]]) == ([cell] + Padded(texts[1..])) + [[]];
    }
  }

  lemma FormatRowPieces(texts: seq<string>)
    requires texts != []
    requires forall k :: 0 <= k < |texts| ==> BarePipes(texts[k], ' ') == 0
    ensures SplitCells(FormatRow(texts), LineStart) == [[]] + Padded(texts) + [[]]
  {
    var line := FormatRow(texts);
    FormatRowAsCols(texts);
    assert line[0] == '|' && line[1..] == Cols(texts);
    SplitCols(texts, '|');
  }

  lemma ReadPieces(line: string, texts: seq<string>)
    requires SplitCells(line, LineStart) == [[]] + Padded(texts) + [[]]
    ensures ReadRow(line) == texts
  {
    var pieces := SplitCells(line, LineStart);
    var cells := ReadRow(line);
    assert |cells| == |texts|;
    forall k | 0 <= k < |texts|
      ensures cells[k] == texts[k]
    {
      var piece := " " + texts[k] + " ";
      assert pieces[k + 1] == piece;
      assert piece[1..|piece| - 1] == texts[k];
      assert cells[k] == Unpad(piece);
    }
  }

  /** A row line built from cell texts without delimiter pipes reads back as
      exactly those cells, in order, and holds one more delimiter than cells. */
  lemma FormatRowReadsBack(texts: seq<string>)
    requires texts != []
    requires forall k :: 0 <= k < |texts| ==> BarePipes(texts[k], ' ') == 0
    ensures ReadRow(FormatRow(texts)) == texts
    ensures BarePipes(FormatRow(texts), LineStart) == |texts| + 1
  {
    FormatRowPieces(texts);
    ReadPieces(FormatRow(texts), texts);
  }

  /** The line of a row with cells has exactly one delimiter pipe more than
      the row has cells, reads back as the escaped cells in their order, and
      unescaping each gives back the cell's text with newlines as spaces. */
  lemma RowLineColumns(cells: Row)
    requires cells != []
    ensures BarePipes(RowLine(cells), LineStart) == |cells| + 1
    ensures ReadRow(RowLine(cells)) == EscapeRow(cells)
    ensures forall k :: 0 <= k < |cells| ==>
              Unescape(ReadRow(RowLine(cells))[k]) == Replace(cells[k], '\n', " ")
  {
    var texts := EscapeRow(cells);
    forall k | 0 <= k < |texts|
      ensures BarePipes(texts[k], ' ') == 0
    {
      EscapedCellHasNoBarePipe(cells[k], ' ');
    }
    FormatRowReadsBack(texts);
    forall k | 0 <= k < |cells|
      ensures Unescape(texts[k]) == Replace(cells[k], '\n', " ")
    {
      UnescapeEscapeCell(cells[k]);
    }
  }

  /** The separator for `columns` columns reads back as `columns` cells of `---`. */
  lemma SeparatorColumns(columns: nat)
    requires columns > 0
    ensures BarePipes(SeparatorLine(columns), LineStart) == columns + 1
    ensures ReadRow(SeparatorLine(columns)) == seq(columns, k => "---")
  {
    var dashes: seq<string> := seq(columns, k => "---");
    forall k | 0 <= k < columns
      ensures BarePipes(dashes[k], ' ') == 0
    {
      assert BarePipes("---", ' ') == BarePipes("--", '-') == BarePipes("-", '-') == 0;
    }
    FormatRowReadsBack(dashes);
  }

  // ---------------------------------------------------------------------
  // Which rows give which lines

  /** The rows that have cells, in their order: a filter, the reference for
      the source's `continue`. */
  function NonEmptyRows(rows: Table): Table {
    if rows == [] then []
    else (if rows[0] == [] then [] else [rows[0]]) + NonEmptyRows(rows[1..])
  }

  function RowLines(rows: Table): seq<string> {
    seq(|rows|, k requires 0 <= k < |rows| => RowLine(rows[k]))
  }

  /** The lines of the header row: its line and the separator, or nothing
      when it has no cells. */
  function HeaderLines(first: Row): seq<string> {
    if first == [] then [] else [RowLine(first), SeparatorLine(|first|)]
  }

  lemma {:induction false} NonEmptyRowsAppend(a: Table, b: Table)
    ensures NonEmptyRows(a + b) == NonEmptyRows(a) + NonEmptyRows(b)
  {
    if a == [] {
      assert a + b == b;
    } else {
      assert (a + b)[1..] == a[1..] + b;
      NonEmptyRowsAppend(a[1..], b);
    }
  }

  lemma {:induction false} NonEmptyRowsNone(rows: Table)
    ensures NonEmptyRows(rows) == [] <==> forall i :: 0 <= i < |rows| ==> rows[i] == []
  {
    if rows != [] {
      NonEmptyRowsNone(rows[1..]);
      assert forall i :: 1 <= i < |rows| ==> rows[i] == rows[1..][i - 1];
    }
  }

  lemma RowLinesAppend(a: Table, b: Table)
    ensures RowLines(a + b) == RowLines(a) + RowLines(b)
  {
  }

  /** A row after index 0 contributes the line of its filtered self. */
  lemma LaterRowOutput(rows: Table, i: nat)
    requires 0 < i < |rows|
    ensures RowOutput(rows, i) == RowLines(NonEmptyRows([rows[i]]))
  {
  }

  lemma LinesUpToOne(rows: Table)
    requires rows != []
    ensures LinesUpTo(rows, 1) == HeaderLines(rows[0]) + RowLines(NonEmptyRows(rows[1..1]))
  {
  }

  lemma FilterLast(rows: Table, n: nat)
    requires 1 < n <= |rows|
    ensures RowLines(NonEmptyRows(rows[1..n]))
         == RowLines(NonEmptyRows(rows[1..n - 1])) + RowLines(NonEmptyRows([rows[n - 1]]))
  {
    var earlier := rows[1..n - 1];
    var last := [rows[n - 1]];
    assert rows[1..n] == earlier + last;
    NonEmptyRowsAppend(earlier, last);
    RowLinesAppend(NonEmptyRows(earlier), NonEmptyRows(last));
  }

  lemma Regroup(whole: seq<string>, before: seq<string>, header: seq<string>,
                middle: seq<string>, last: seq<string>)
    requires before == header + middle && whole == before + last
    ensures whole == header + (middle + last)
  {
  }

  lemma LinesUpToLast(rows: Table, n: nat)
    requires 0 < n <= |rows|
    ensures LinesUpTo(rows, n) == LinesUpTo(rows, n - 1) + RowOutput(rows, n - 1)
  {
  }

  lemma LinesUpToNext(rows: Table, n: nat, header: seq<string>)
    requires 1 < n <= |rows|
    requires LinesUpTo(rows, n - 1) == header + RowLines(NonEmptyRows(rows[1..n - 1]))
    ensures LinesUpTo(rows, n) == header + RowLines(NonEmptyRows(rows[1..n]))
  {
    LinesUpToLast(rows, n);
    LaterRowOutput(rows, n - 1);
    FilterLast(rows, n);
    Regroup(LinesUpTo(rows, n), LinesUpTo(rows, n - 1), header,
            RowLines(NonEmptyRows(rows[1..n - 1])), RowLines(NonEmptyRows([rows[n - 1]])));
  }

  lemma {:induction false} LinesUpToAsFilter(rows: Table, n: nat)
    requires 1 <= n <= |rows|
    ensures LinesUpTo(rows, n) == HeaderLines(rows[0]) + RowLines(NonEmptyRows(rows[1..n]))
  {
    if n == 1 {
      LinesUpToOne(rows);
    } else {
      LinesUpToAsFilter(rows, n - 1);
      LinesUpToNext(rows, n, HeaderLines(rows[0]));
    }
  }

  /** The lines of the result, described without the loop: the header lines
      of the row at index 0, then the line of every later row that has
      cells, in source order. */
  lemma LinesAsFilter(rows: Table)
    requires rows != []
    ensures MarkdownLines(rows) == HeaderLines(rows[0]) + RowLines(NonEmptyRows(rows[1..]))
  {
    LinesUpToAsFilter(rows, |rows|);
    assert rows[1..|rows|] == rows[1..];
  }

  /** One line per row with cells, plus the separator when the row at index
      0 has cells. */
  lemma LineCount(rows: Table)
    ensures |MarkdownLines(rows)|
         == |NonEmptyRows(rows)| + (if rows != [] && rows[0] != [] then 1 else 0)
  {
    if rows != [] {
      LinesAsFilter(rows);
    }
  }

  /** When the row at index 0 has cells, the result opens with its line and
      the separator, which has as many columns as that line. */
  lemma HeaderThenSeparator(rows: Table)
    requires rows != [] && rows[0] != []
    ensures |MarkdownLines(rows)| >= 2
    ensures MarkdownLines(rows)[0] == RowLine(rows[0])
    ensures MarkdownLines(rows)[1] == SeparatorLine(|rows[0]|)
    ensures |ReadRow(MarkdownLines(rows)[1])| == |ReadRow(MarkdownLines(rows)[0])| == |rows[0]|
  {
    LinesAsFilter(rows);
    RowLineColumns(rows[0]);
    SeparatorColumns(|rows[0]|);
  }

  /** When the first `tr` has no cells, no separator is emitted at all:
      every line is the line of a row with cells. */
  lemma FirstRowWithoutCells(rows: Table)
    requires rows != [] && rows[0] == []
    ensures MarkdownLines(rows) == RowLines(NonEmptyRows(rows))
  {
    LinesAsFilter(rows);
    assert HeaderLines(rows[0]) == [];
    assert NonEmptyRows(rows) == [] + NonEmptyRows(rows[1..]);
  }

  lemma RowLineOfA()
    ensures RowLine(["a"]) == "| a |"
  {
  }

  /** For instance, a table whose first `tr` has no cells comes out
      without a separator ... */
  lemma LeadingRowWithoutCellsExample()
    ensures TableToMarkdown([[], ["a"]]) == "| a |"
  {
    var rows: Table := [[], ["a"]];
    RowLineOfA();
    assert RowOutput(rows, 0) == [];
    assert RowOutput(rows, 1) == [RowLine(["a"])];
    assert LinesUpTo(rows, 1) == [] + [];
    assert MarkdownLines(rows) == LinesUpTo(rows, 1) + RowOutput(rows, 1);
  }

  /** ... while the same table without that `tr` gets one. */
  lemma HeaderRowExample()
    ensures TableToMarkdown([["a"]]) == "| a |\n| --- |"
  {
  }

  lemma NonEmptyRowsDropEmpty(a: Table, b: Table)
    ensures NonEmptyRows(a + ([[]] + b)) == NonEmptyRows(a + b)
  {
    NonEmptyRowsAppend(a, [[]] + b);
    NonEmptyRowsAppend([[]], b);
    assert NonEmptyRows([[]]) == [] + NonEmptyRows([]);
    NonEmptyRowsAppend(a, b);
  }

  /** Removing a row without cells anywhere after index 0 leaves the result unchanged. */
  lemma SkipRowWithoutCells(rows: Table, k: nat)
    requires 0 < k < |rows| && rows[k] == []
    ensures TableToMarkdown(rows[..k] + rows[k + 1..]) == TableToMarkdown(rows)
  {
    var shorter := rows[..k] + rows[k + 1..];
    LinesAsFilter(rows);
    LinesAsFilter(shorter);
    assert shorter[0] == rows[0];
    assert rows[1..] == rows[1..k] + ([[]] + rows[k + 1..]);
    assert shorter[1..] == rows[1..k] + rows[k + 1..];
    NonEmptyRowsDropEmpty(rows[1..k], rows[k + 1..]);
    assert MarkdownLines(shorter) == MarkdownLines(rows);
  }

  // ---------------------------------------------------------------------
  // Joining the lines

  lemma FormatRowHasNoNewline(texts: seq<string>)
    requires forall k :: 0 <= k < |texts| ==> '\n' !in texts[k]
    ensures '\n' !in FormatRow(texts)
  {
    JoinAvoids(texts, " | ", '\n');
  }

  lemma {:induction false} LinesHaveNoNewline(rows: Table, n: nat)
    requires n <= |rows|
    ensures forall k :: 0 <= k < |LinesUpTo(rows, n)| ==> '\n' !in LinesUpTo(rows, n)[k]
  {
    if n > 0 {
      LinesHaveNoNewline(rows, n - 1);
      var r := rows[n - 1];
      if r != [] {
        FormatRowHasNoNewline(EscapeRow(r));
        FormatRowHasNoNewline(seq(|r|, k => "---"));
      }
    }
  }

  /** The result is empty exactly when no row has cells (in particular when
      there are no rows at all). */
  lemma EmptyResult(rows: Table)
    ensures TableToMarkdown(rows) == "" <==> forall i :: 0 <= i < |rows| ==> rows[i] == []
  {
    NonEmptyRowsNone(rows);
    if rows != [] {
      LinesAsFilter(rows);
      LineCount(rows);
      var lines := MarkdownLines(rows);
      if lines != [] {
        JoinStartsWithFirst(lines, "\n");
        assert lines[0][0] == '|';
      }
    }
  }

  /** No line holds a `\n`, and the lines are joined without a trailing
      newline: splitting the result at its `\n` characters gives back
      exactly the lines, in order. (A carriage return inside a cell is not
      replaced and stays in its line.) */
  lemma SplitResultIntoLines(rows: Table)
    requires MarkdownLines(rows) != []
    ensures Split(TableToMarkdown(rows), '\n') == MarkdownLines(rows)
  {
    LinesHaveNoNewline(rows, |rows|);
    SplitJoin(MarkdownLines(rows), '\n');
  }
}
