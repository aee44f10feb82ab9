/** How a reader of a GitHub Flavored Markdown pipe table (the "Tables
    (extension)" section, 4.10, of the GFM specification) takes one row line
    apart: every `|` not preceded by a backslash is a column delimiter, and
    `\|` stands for a literal pipe inside a cell. This is the reading side
    that the converter's output is checked against. */
module GfmRow {

  /** The character taken to precede the first character of a line: a line
      starts right after a newline, so its first `|` is never escaped. */
  const LineStart: char := '\n'

  /** The character just before the end of `s`, given that `prev` came just before `s`. */
  function LastOr(s: string, prev: char): char {
    if s == [] then prev else s[|s| - 1]
  }

  /** The number of delimiter pipes in `s` (pipes not preceded by a
      backslash), given that `prev` came just before `s`. */
  function BarePipes(s: string, prev: char): nat {
    if s == [] then 0
    else (if s[0] == '|' && prev != '\\' then 1 else 0) + BarePipes(s[1..], s[0])
  }

  /** The pieces of `s` between its delimiter pipes, in order. */
  function SplitCells(s: string, prev: char): (r: seq<string>)
    ensures |r| == BarePipes(s, prev) + 1
  {
    if s == [] then [[]]
    else if s[0] == '|' && prev != '\\' then [[]] + SplitCells(s[1..], '|')
    else
      var rest := SplitCells(s[1..], s[0]);
      [[s[0]] + rest[0]] + rest[1..]
  }

  /** A cell piece without the one space of padding on either side. */
  function Unpad(piece: string): string {
    if |piece| >= 2 && piece[0] == ' ' && piece[|piece| - 1] == ' ' then piece[1..|piece| - 1]
    else piece
  }

  /** The cells of a row line `| a | b |`: the pieces between its first and
      last delimiter pipe, unpadded. */
  function ReadRow(line: string): (cells: seq<string>) {
    var pieces := SplitCells(line, LineStart);
    if |pieces| < 2 then []
    else seq(|pieces| - 2, k requires 0 <= k < |pieces| - 2 => Unpad(pieces[k + 1]))
  }

  /** Turns every `\|` of a cell back into `|`. */
  function Unescape(s: string): string {
    if |s| >= 2 && s[0] == '\\' && s[1] == '|' then "|" + Unescape(s[2..])
    else if s == [] then []
    else [s[0]] + Unescape(s[1..])
  }

  lemma {:induction false} BarePipesAppend(a: string, b: string, prev: char)
    ensures BarePipes(a + b, prev) == BarePipes(a, prev) + BarePipes(b, LastOr(a, prev))
  {
    if a == [] {
      assert a + b == b;
    } else {
      assert (a + b)[1..] == a[1..] + b;
      BarePipesAppend(a[1..], b, a[0]);
      assert LastOr(a[1..], a[0]) == LastOr(a, prev);
    }
  }

  /** A prefix without delimiter pipes stays glued to the first piece of what follows it. */
  lemma {:induction false} SplitCellsAppend(a: string, b: string, prev: char)
    requires BarePipes(a, prev) == 0
    ensures SplitCells(a + b, prev)
         == [a + SplitCells(b, LastOr(a, prev))[0]] + SplitCells(b, LastOr(a, prev))[1..]
  {
    var pieces := SplitCells(b, LastOr(a, prev));
    if a == [] {
      assert a + b == b && a + pieces[0] == pieces[0];
      assert pieces == [pieces[0]] + pieces[1..];
    } else {
      assert (a + b)[1..] == a[1..] + b;
      assert LastOr(a[1..], a[0]) == LastOr(a, prev);
      SplitCellsAppend(a[1..], b, a[0]);
      assert [a[0]] + (a[1..] + pieces[0]) == a + pieces[0];
    }
  }
}
