# html_table_to_markdown, modelled in Dafny

`sync_script.py` fetches a wiki page and converts its HTML to Markdown. Its
table converter, `html_table_to_markdown`, turns an HTML table into a
GitHub Flavored Markdown pipe table (the "Tables (extension)" section, 4.10,
of the GFM specification). This project models that converter and proves
what it guarantees.

The table is taken as the converter sees it once BeautifulSoup has done its
part: a sequence of rows (`find_all('tr')`), each row the sequence of its
cell texts (`find_all(['th', 'td'])`, then
`cell.get_text(separator=' ', strip=True)` per cell). A `tr` without cells
is an empty row.

Files:

- `py_str.dfy`, module `PyStr`: `str.replace` with a one-character pattern
  and `str.join`, which the converter calls, and `str.split`, used only to
  read the joined result back. It also proves that splitting a join gives
  back its parts.
- `gfm_row.dfy`, module `GfmRow`: how a pipe-table reader takes a row line
  apart. A `|` not preceded by a backslash is a column delimiter, and `\|`
  is a literal pipe. This is the reading side the output is checked against.
- `sync_script.dfy`, module `SyncScript`: the converter. `TableToMarkdown`
  is the specification function. `HtmlTableToMarkdown` is the loop as the
  source writes it: `continue` on a row without cells, an inner loop that
  escapes each cell, lines appended one at a time, and one join at the end.
  It is proved equal to `TableToMarkdown`.
- `table_properties.dfy`, module `TableProperties`: the properties.
  - Escaping: the two `replace` passes equal one per-character escape. No
    escaped cell holds a delimiter pipe. Unescaping gives the text back, with
    each newline turned into a space.
  - Row lines: a row line reads back as exactly its escaped cells, in order,
    and has one more delimiter than cells. So escaped pipes never shift
    columns. The separator reads back as one `---` per column of the row at
    index 0.
  - Which rows give lines: a filter definition of the output lines. Rows
    without cells are skipped, and a separator follows the row at index 0
    only when that row has cells. Also proved here: the line count, the
    empty result, and that splitting the result on newlines gives back the
    lines.

Behaviour of the code worth knowing:

- A table of R rows does not always give R+1 lines: the code gives one line
  per row that has cells, plus one separator line when the row at index 0
  has cells (`LineCount`).
- The result is empty for a table with no rows, and also when rows exist
  but none has cells (`EmptyResult`).
- If the first `tr` has no cells, no separator is ever written. The
  `continue` runs before the `i == 0` test, so the output has no header row
  (`FirstRowWithoutCells`, `LeadingRowWithoutCellsExample`).
- Only `\n` is replaced inside a cell. A carriage return in a cell's text
  stays in its row line, so a reader that also ends lines at a carriage
  return would see that row broken in two (not executed; an observation
  from the code of sync_script.py:29-31).

## Model

| member | source | states |
|---|---|---|
| PyStr.Replace | sync_script.py:29-31 | `str.replace` on one character: when the replacement does not contain the target, no occurrence of the target is left |
| PyStr.SplitJoin | sync_script.py:43 | splitting `'\n'.join(lines)` at its newlines gives back the lines when none contains a newline |
| SyncScript.EscapeCell | sync_script.py:27-32 | an escaped cell text never contains a newline |
| SyncScript.HtmlTableToMarkdown | sync_script.py:8-43 | the loop over `enumerate(rows)`, with its `continue`, its inner cell loop and the appends to `markdown_lines`, returns exactly `TableToMarkdown(rows)` |
| TableProperties.EscapeCellCharwise | sync_script.py:29-31 | replacing each pipe by backslash-pipe and then each newline by a space escapes every character on its own (pipe to backslash-pipe, newline to space, anything else kept) |
| TableProperties.EscapedCellHasNoBarePipe | sync_script.py:29 | every pipe of an escaped cell is preceded by a backslash, whatever precedes the cell |
| TableProperties.UnescapeEscapeCell | sync_script.py:27-32 | unescaping an escaped cell gives back the cell text with newlines as spaces, and the text itself when it has no newline |
| TableProperties.FormatRowReadsBack | sync_script.py:35 | the row line (a pipe, then the texts joined by space-pipe-space, then a closing pipe) over texts without delimiter pipes reads back as exactly those texts, in order, with `len(texts) + 1` delimiter pipes |
| TableProperties.RowLineColumns | sync_script.py:25-36 | the line of a row with cells has exactly cells + 1 delimiter pipes, reads back as its escaped cells left to right, and unescaping each gives the cell text with newlines as spaces |
| TableProperties.SeparatorColumns | sync_script.py:40 | the separator for n columns has n + 1 delimiter pipes and reads back as n cells of `---` |
| TableProperties.LinesAsFilter | sync_script.py:18-41 | the output lines are the header lines of the row at index 0, then the line of every later row with cells, in source order |
| TableProperties.LineCount | sync_script.py:18-43 | the number of lines is the number of rows with cells, plus one when the row at index 0 has cells |
| TableProperties.HeaderThenSeparator | sync_script.py:38-41 | when the row at index 0 has cells, the first line is its row line and the second the separator, with as many columns as that row |
| TableProperties.FirstRowWithoutCells | sync_script.py:18-22 | when the first `tr` has no cells, the output is only the lines of the rows with cells, with no separator |
| TableProperties.LeadingRowWithoutCellsExample | sync_script.py:39-41 | a table of an empty `tr` and a `tr` with one cell `a` converts to the single line for `a`, with no separator |
| TableProperties.HeaderRowExample | sync_script.py:35-43 | a table with one cell `a` converts to the line for `a`, a newline, and the one-column separator |
| TableProperties.SkipRowWithoutCells | sync_script.py:20-22 | removing a row without cells at any index after 0 leaves the result unchanged |
| TableProperties.EmptyResult | sync_script.py:12-14 | the result is the empty string exactly when no row has cells, which includes a table with no rows |
| TableProperties.SplitResultIntoLines | sync_script.py:31-43 | splitting the result at its `\n` characters gives back exactly the lines, in order: no row line holds a `\n` and there is no trailing newline |

## Left out

- HTML parsing and cell-text extraction (`find_all`, `get_text` with `strip=True`): BeautifulSoup library behaviour. The model takes each cell's text as given.
- `confluence_to_markdown` (sync_script.py:45 onward): it is not part of this model. Its source stops partway through a line, so its behaviour cannot be read.
- list.py (`filter_pages_with_dates`): it is not part of this model. It only prints, and its logic is two library regular-expression calls.
- Environment variables, the HTTP request, file writing and process exit: I/O outside the converter.
- GfmRow.ReadRow: strips exactly one padding space on each side of a cell, which is what the writer adds. A full GFM reader trims all surrounding whitespace, so a cell text that begins or ends with a space would read back trimmed.
