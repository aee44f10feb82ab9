/** `html_table_to_markdown` of sync_script.py: an HTML table, already
    reduced to its rows of cell texts, becomes a GitHub Flavored Markdown
    pipe table. A row is the sequence of the texts of its `th`/`td` cells
    (what `cell.get_text(separator=' ', strip=True)` yields), so a `tr`
    without cells is the empty sequence. */
module SyncScript {
  import opened PyStr

  type Row = seq<string>
  type Table = seq<Row>

  /** The text of one cell made safe for a table line: first every `|`
      becomes `\|`, then every newline becomes a space. */
  function EscapeCell(text: string): (r: string)
    ensures '\n' !in r
  {
    Replace(Replace(text, '|', "\\|"), '\n', " ")
  }

  function EscapeRow(cells: Row): seq<string> {
    seq(|cells|, k requires 0 <= k < |cells| => EscapeCell(cells[k]))
  }

  /** `'| ' + ' | '.join(texts) + ' |'`. */
  function FormatRow(texts: seq<string>): string {
    "| " + Join(texts, " | ") + " |"
  }

  /** The Markdown line of a row that has cells. */
  function RowLine(cells: Row): string {
    FormatRow(EscapeRow(cells))
  }

  /** The header separator: one `---` per column. */
  function SeparatorLine(columns: nat): string {
    FormatRow(seq(columns, k => "---"))
  }

  /** The lines the row at enumeration index `i` appends: none when it has
      no cells, its row line otherwise, followed by the separator when it is
      the row at index 0. */
  function RowOutput(rows: Table, i: nat): seq<string>
    requires i < |rows|
  {
    if rows[i] == [] then []
    else [RowLine(rows[i])] + (if i == 0 then [SeparatorLine(|rows[i]|)] else [])
  }

  /** The lines appended by the first `n` rows. */
  function LinesUpTo(rows: Table, n: nat): seq<string>
    requires n <= |rows|
  {
    if n == 0 then [] else LinesUpTo(rows, n - 1) + RowOutput(rows, n - 1)
  }

  /** The whole of `markdown_lines` once every row has been visited. */
  function MarkdownLines(rows: Table): seq<string> {
    LinesUpTo(rows, |rows|)
  }

  /** The converter's result: the empty string for a table without rows,
      otherwise its lines joined by newlines. */
  function TableToMarkdown(rows: Table): string {
    if rows == [] then "" else Join(MarkdownLines(rows), "\n")
  }

  /** The converter as the source runs it: one pass over the rows, an inner
      pass over the cells, lines appended one at a time and joined at the end. */
  method HtmlTableToMarkdown(rows: Table) returns (markdown: string)
    ensures markdown == TableToMarkdown(rows)
  {
    if |rows| == 0 {
      return "";
    }
    var markdownLines: seq<string> := [];
    for i := 0 to |rows|
      invariant markdownLines == LinesUpTo(rows, i)
    {
      var cells := rows[i];
      if |cells| == 0 {
        assert LinesUpTo(rows, i + 1) == markdownLines + [];
        continue;
      }
      var cellTexts: seq<string> := [];
      for j := 0 to |cells|
        invariant |cellTexts| == j
        invariant forall k :: 0 <= k < j ==> cellTexts[k] == EscapeCell(cells[k])
      {
        var text := Replace(cells[j], '|', "\\|");
        text := Replace(text, '\n', " ");
        cellTexts := cellTexts + [text];
      }
      assert cellTexts == EscapeRow(cells);
      var markdownRow := "| " + Join(cellTexts, " | ") + " |";
      assert markdownRow == RowLine(cells);
      markdownLines := markdownLines + [markdownRow];
      if i == 0 {
        var separator := "| " + Join(seq(|cellTexts|, k => "---"), " | ") + " |";
        assert separator == SeparatorLine(|cells|);
        markdownLines := markdownLines + [separator];
      }
      assert LinesUpTo(rows, i + 1) == LinesUpTo(rows, i) + RowOutput(rows, i);
    }
    markdown := Join(markdownLines, "\n");
  }
}
