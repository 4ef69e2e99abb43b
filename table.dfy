/** `src/formatters/table.js`: an HTML table becomes a Markdown grid when its
    columns fit in 96 UTF-16 code units, and an indented list otherwise; every table
    of the page is replaced by a placeholder as the code blocks are.

    The first half of the module defines the rendering as functions on the
    cell texts and proves what it promises; the second half is the source's
    loops, each proved to compute its function. */
module Table {
  import opened Wrappers
  import opened Text
  import opened Rewrite
  import opened Markup
  import opened Html
  import opened Vault

  /** A table whose columns add up to this many characters or more is
      rendered as a list. */
  const MaxWidth: nat := 96

  /** The narrowest a grid column is rendered. */
  const MinColumnWidth: nat := 3

  /** `/<caption[^>]*>((?:.|\n)*)<\/caption>/i`: the hit's text is the
      captured body, up to the last reachable closing tag. */
  function CaptionAt(s: string, i: nat): Option<Hit> {
    GreedyElementAt(["<", "cC", "aA", "pP", "tT", "iI", "oO", "nN"],
                    ["<", "/", "cC", "aA", "pP", "tT", "iI", "oO", "nN", ">"], s, i)
  }

  /** `/(<tr[^>]*>(?:.|\n)*?<\/tr>)/gi` */
  function RowAt(s: string, i: nat): Option<Hit> {
    ElementAt(["<", "tT", "rR"], ["<", "/", "tT", "rR", ">"], s, i)
  }

  /** `/<t[h|d][^>]*>(?:.|\n)*?<\/t[h|d]>/gi`: the class `[h|d]` also
      admits a `|`. */
  function CellAt(s: string, i: nat): Option<Hit> {
    ElementAt(["<", "tT", "hHdD|"], ["<", "/", "tT", "hHdD|", ">"], s, i)
  }

  /** `/(<table[^>]*>(?:.|\n)*?<\/table>)/gi` */
  function TableAt(s: string, i: nat): Option<Hit> {
    ElementAt(["<", "tT", "aA", "bB", "lL", "eE"], ["<", "/", "tT", "aA", "bB", "lL", "eE", ">"], s, i)
  }

  /** The text of a cell or caption: tags and line breaks removed, entities
      decoded, surrounding white space trimmed. */
  function Clean(str: string, decode: string -> string): (r: string)
    ensures r != [] ==> !IsSpace(r[0]) && !IsSpace(r[|r| - 1])
  {
    Trim(decode(StripNewlines(StripTags(str))))
  }

  /** `str` padded with spaces on the right to `width` UTF-16 code units,
      the unit JavaScript's `length` counts; a longer `str` is left as it
      is. */
  function Ljust(str: string, width: nat): (r: string)
    ensures Utf16Length(r) == if Utf16Length(str) >= width then Utf16Length(str) else width
    ensures |str| <= |r| && r[..|str|] == str
    ensures forall k :: |str| <= k < |r| ==> r[k] == ' '
  {
    var len := Utf16Length(str);
    if len >= width then str
    else
      Utf16LengthConcat(str, Repeat(' ', width - len));
      Utf16LengthRepeat(' ', width - len);
      str + Repeat(' ', width - len)
  }

  /** Padding to a width already reached changes nothing, and padding is
      undone by trimming the spaces it added. */
  lemma LjustProperties(str: string, width: nat)
    ensures Utf16Length(str) >= width ==> Ljust(str, width) == str
    ensures Ljust(Ljust(str, width), width) == Ljust(str, width)
    ensures (str == [] || str[|str| - 1] != ' ') ==> TrimSpacesRight(Ljust(str, width)) == str
  {
    var r := Ljust(str, width);
    if str == [] || str[|str| - 1] != ' ' {
      TrimSpacesRightOfPadded(str, r);
    }
  }

  /** Reference inverse of `Ljust`: the text with its trailing spaces
      removed. */
  function TrimSpacesRight(s: string): (r: string)
    ensures |r| <= |s| && r == s[..|r|]
    decreases |s|
  {
    if s != [] && s[|s| - 1] == ' ' then TrimSpacesRight(s[..|s| - 1]) else s
  }

  lemma {:induction false} TrimSpacesRightOfPadded(str: string, r: string)
    requires |str| <= |r| && r[..|str|] == str
    requires forall k :: |str| <= k < |r| ==> r[k] == ' '
    requires str == [] || str[|str| - 1] != ' '
    ensures TrimSpacesRight(r) == str
    decreases |r|
  {
    if |r| == |str| {
      assert r == r[..|str|];
    } else {
      assert r[..|r| - 1][..|str|] == str;
      TrimSpacesRightOfPadded(str, r[..|r| - 1]);
    }
  }

  /** The cleaned texts of the given cells, in order. */
  function CleanAll(cols: seq<string>, decode: string -> string): (r: seq<string>)
    ensures |r| == |cols| && forall c :: 0 <= c < |r| ==> r[c] == Clean(cols[c], decode)
  {
    seq(|cols|, c requires 0 <= c < |cols| => Clean(cols[c], decode))
  }

  /** The cleaned texts of the cells of one row, in order. */
  function Cells(row: string, decode: string -> string): seq<string> {
    CleanAll(MatchAll(row, CellAt), decode)
  }

  /** The cell texts of every row of the table, row by row. */
  function Items(rows: seq<string>, decode: string -> string): (r: seq<seq<string>>)
    ensures |r| == |rows| && forall k :: 0 <= k < |r| ==> r[k] == Cells(rows[k], decode)
  {
    seq(|rows|, k requires 0 <= k < |rows| => Cells(rows[k], decode))
  }

  /** The number of cells of the longest row (0 for no rows). */
  function MaxCols(items: seq<seq<string>>): (n: nat)
    decreases |items|
  {
    if items == [] then 0
    else
      var m := MaxCols(items[..|items| - 1]);
      if |items[|items| - 1]| > m then |items[|items| - 1]| else m
  }

  /** `MaxCols` is the largest row length: no row is longer, and some row
      has that length unless it is 0. */
  lemma {:induction false} MaxColsIsMaximum(items: seq<seq<string>>)
    ensures forall r :: 0 <= r < |items| ==> |items[r]| <= MaxCols(items)
    ensures MaxCols(items) == 0 || exists r :: 0 <= r < |items| && |items[r]| == MaxCols(items)
    decreases |items|
  {
    if items != [] {
      var n := |items| - 1;
      MaxColsIsMaximum(items[..n]);
      assert forall r :: 0 <= r < n ==> items[..n][r] == items[r];
    }
  }

  /** A row extended with empty cells to `n` cells. */
  function PadRow(row: seq<string>, n: nat): (r: seq<string>)
    ensures |r| == if |row| >= n then |row| else n
    ensures r[..|row|] == row && forall c :: |row| <= c < |r| ==> r[c] == ""
  {
    if |row| >= n then row else row + seq(n - |row|, _ => "")
  }

  /** Every row extended to `n` cells. */
  function Normalize(items: seq<seq<string>>, n: nat): (r: seq<seq<string>>)
    ensures |r| == |items| && forall k :: 0 <= k < |r| ==> r[k] == PadRow(items[k], n)
  {
    seq(|items|, k requires 0 <= k < |items| => PadRow(items[k], n))
  }

  /** Every row has exactly `n` cells. */
  predicate Rectangular(items: seq<seq<string>>, n: nat) {
    forall r :: 0 <= r < |items| ==> |items[r]| == n
  }

  /** Extending every row to the longest row's length makes the table
      rectangular and keeps every original cell in place. */
  lemma NormalizeRectangular(items: seq<seq<string>>)
    ensures Rectangular(Normalize(items, MaxCols(items)), MaxCols(items))
    ensures forall r, c :: 0 <= r < |items| && 0 <= c < |items[r]| ==> Normalize(items, MaxCols(items))[r][c] == items[r][c]
  {
    var n := MaxCols(items);
    MaxColsIsMaximum(items);
    forall r, c | 0 <= r < |items| && 0 <= c < |items[r]|
      ensures Normalize(items, n)[r][c] == items[r][c]
    {
      assert PadRow(items[r], n)[..|items[r]|][c] == items[r][c];
    }
  }

  /** The width of column `c` over the first `k` rows: the minimum width or
      the longest of their cells in that column, in UTF-16 code units. */
  function ColumnWidth(items: seq<seq<string>>, n: nat, c: nat, k: nat): (w: nat)
    requires Rectangular(items, n) && c < n && k <= |items|
    decreases k
  {
    if k == 0 then MinColumnWidth
    else
      var w := ColumnWidth(items, n, c, k - 1);
      var len := Utf16Length(items[k - 1][c]);
      if len > w then len else w
  }

  /** The column width is at least 3, at least the length of every cell in
      the column, and is 3 or the length of one of them, lengths counted in
      UTF-16 code units as JavaScript's `length` counts them. */
  lemma {:induction false} ColumnWidthIsMaximum(items: seq<seq<string>>, n: nat, c: nat, k: nat)
    requires Rectangular(items, n) && c < n && k <= |items|
    ensures ColumnWidth(items, n, c, k) >= MinColumnWidth
    ensures forall r :: 0 <= r < k ==> Utf16Length(items[r][c]) <= ColumnWidth(items, n, c, k)
    ensures ColumnWidth(items, n, c, k) == MinColumnWidth
         || exists r :: 0 <= r < k && Utf16Length(items[r][c]) == ColumnWidth(items, n, c, k)
    decreases k
  {
    if k > 0 {
      ColumnWidthIsMaximum(items, n, c, k - 1);
    }
  }

  /** The widths of all `n` columns over all rows. */
  function Widths(items: seq<seq<string>>, n: nat): (r: seq<nat>)
    requires Rectangular(items, n)
    ensures |r| == n && forall c :: 0 <= c < n ==> r[c] == ColumnWidth(items, n, c, |items|)
  {
    seq(n, c requires 0 <= c < n => ColumnWidth(items, n, c, |items|))
  }

  /** The sum of the widths. */
  function Sum(widths: seq<nat>): nat
    decreases |widths|
  {
    if widths == [] then 0 else Sum(widths[..|widths| - 1]) + widths[|widths| - 1]
  }

  /** Widths of at least 3 each add up to at least 3 per column. */
  lemma {:induction false} SumAtLeast(widths: seq<nat>)
    requires forall c :: 0 <= c < |widths| ==> widths[c] >= MinColumnWidth
    ensures Sum(widths) >= MinColumnWidth * |widths|
    decreases |widths|
  {
    if widths != [] {
      SumAtLeast(widths[..|widths| - 1]);
    }
  }

  /** `"|"`, then every cell followed by a `|`. */
  function RowLine(cells: seq<string>): string
    decreases |cells|
  {
    if cells == [] then "|" else RowLine(cells[..|cells| - 1]) + cells[|cells| - 1] + "|"
  }

  /** A line of cells as wide as their columns is one code unit longer than
      the columns and their separators together. */
  lemma {:induction false} RowLineLength(cells: seq<string>, widths: seq<nat>)
    requires |cells| == |widths| && forall c :: 0 <= c < |cells| ==> Utf16Length(cells[c]) == widths[c]
    ensures Utf16Length(RowLine(cells)) == Sum(widths) + |widths| + 1
    ensures RowLine(cells) != [] && RowLine(cells)[0] == '|' && RowLine(cells)[|RowLine(cells)| - 1] == '|'
    decreases |cells|
  {
    if cells != [] {
      var n := |cells| - 1;
      RowLineLength(cells[..n], widths[..n]);
      Utf16LengthConcat(RowLine(cells[..n]), cells[n]);
      Utf16LengthConcat(RowLine(cells[..n]) + cells[n], "|");
    }
  }

  /** Each cell padded to its column's width. */
  function Padded(items: seq<seq<string>>, n: nat, widths: seq<nat>): (r: seq<seq<string>>)
    requires Rectangular(items, n) && |widths| == n
    ensures |r| == |items| && Rectangular(r, n)
    ensures forall k, c :: 0 <= k < |r| && 0 <= c < n ==> r[k][c] == Ljust(items[k][c], widths[c])
  {
    seq(|items|, k requires 0 <= k < |items| => seq(n, c requires 0 <= c < n => Ljust(items[k][c], widths[c])))
  }

  /** The cells of the separator line: one run of `-` per column. */
  function Rules(widths: seq<nat>): (r: seq<string>)
    ensures |r| == |widths| && forall c :: 0 <= c < |r| ==> r[c] == Repeat('-', widths[c])
  {
    seq(|widths|, c requires 0 <= c < |widths| => Repeat('-', widths[c]))
  }

  /** The lines of rows 1 to `k - 1`, each ended by a line feed. */
  function DataLines(padded: seq<seq<string>>, k: nat): string
    requires k <= |padded|
    decreases k
  {
    if k <= 1 then "" else DataLines(padded, k - 1) + RowLine(padded[k - 1]) + "\n"
  }

  /** The grid of the padded cells: the first row as the header line, the
      separator line, then the other rows; nothing when there is no column. */
  function Grid(padded: seq<seq<string>>, n: nat, widths: seq<nat>): string
    requires Rectangular(padded, n) && |widths| == n
  {
    if |padded| > 0 && n > 0 then
      (if |padded| > 1 then RowLine(padded[0]) else "") + "\n"
      + RowLine(Rules(widths)) + "\n"
      + DataLines(padded, |padded|)
    else ""
  }

  /** One entry of the list: the bullet, `header: ` when the header is not
      empty, the cell, and a line feed; nothing when both are empty. */
  function Entry(header: string, cell: string, bullet: string): string {
    if header != "" || cell != "" then
      bullet + (if header != "" then header + ": " else "") + cell + "\n"
    else ""
  }

  /** The entries of row `r` for its first `c` columns: the first column at
      the top level, the others indented under it. */
  function RowEntries(items: seq<seq<string>>, n: nat, r: nat, c: nat): string
    requires Rectangular(items, n) && 0 < |items| && r < |items| && c <= n
    decreases c
  {
    if c == 0 then ""
    else RowEntries(items, n, r, c - 1) + Entry(items[0][c - 1], items[r][c - 1], if c == 1 then "* " else "  * ")
  }

  /** The entries of rows 1 to `k - 1`. */
  function ListRows(items: seq<seq<string>>, n: nat, k: nat): string
    requires Rectangular(items, n) && 0 < |items| && k <= |items|
    decreases k
  {
    if k <= 1 then "" else ListRows(items, n, k - 1) + RowEntries(items, n, k - 1, n)
  }

  /** The list form of a wide table: a blank line, then each data row with
      the first row's cells as labels. */
  function List(items: seq<seq<string>>, n: nat): string
    requires Rectangular(items, n) && 0 < |items|
  {
    "\n" + ListRows(items, n, |items|)
  }

  /** The cleaned caption followed by a blank line, or nothing when the
      table has no caption. */
  function CaptionPrefix(table: string, decode: string -> string): (r: string)
    ensures r == "" || (|r| >= 2 && r[|r| - 2..] == "\n\n")
    ensures r == "" <==> FirstHit(table, 0, CaptionAt).None?
  {
    match FirstHit(table, 0, CaptionAt)
    case None => ""
    case Some(p) =>
      var r := Clean(CaptionAt(table, p).value.text, decode) + "\n\n";
      assert r[|r| - 2..] == "\n\n";
      r
  }

  /** The grid or list of the rows: the grid when the columns add up to
      fewer than 96 characters, the list when not. */
  function Body(rows: seq<string>, decode: string -> string): string {
    var items := Items(rows, decode);
    var n := MaxCols(items);
    NormalizeRectangular(items);
    var full := Normalize(items, n);
    var widths := Widths(full, n);
    if Sum(widths) < MaxWidth then Grid(Padded(full, n, widths), n, widths)
    else if 0 < |full| then List(full, n)
    else ""
  }

  /** The Markdown for one HTML table: nothing when it has fewer than two
      rows; otherwise a line feed, the caption, and the grid or list. */
  function TableMarkdown(table: string, decode: string -> string): string
  {
    var rows := MatchAll(table, RowAt);
    if |rows| < 2 then "" else "\n" + CaptionPrefix(table, decode) + Body(rows, decode)
  }

  /** A table converts to nothing exactly when it has fewer than two rows;
      otherwise its Markdown starts on a line of its own. */
  lemma TableMarkdownEmptyIff(table: string, decode: string -> string)
    ensures TableMarkdown(table, decode) == "" <==> |MatchAll(table, RowAt)| < 2
    ensures TableMarkdown(table, decode) != "" ==> TableMarkdown(table, decode)[0] == '\n'
  {
  }

  /** Padded to the column widths, every cell of a column has the column's
      width, so every line of the grid, the separator included, has the
      length in UTF-16 code units: the widths, one `|` per column, and the
      leading `|`. */
  lemma GridLinesAligned(items: seq<seq<string>>, n: nat, r: nat)
    requires Rectangular(items, n) && r < |items|
    ensures var widths := Widths(items, n);
      && Utf16Length(RowLine(Padded(items, n, widths)[r])) == Sum(widths) + n + 1
      && Utf16Length(RowLine(Rules(widths))) == Sum(widths) + n + 1
  {
    var widths := Widths(items, n);
    var padded := Padded(items, n, widths);
    forall c | 0 <= c < n ensures Utf16Length(padded[r][c]) == widths[c] {
      ColumnWidthIsMaximum(items, n, c, |items|);
    }
    RowLineLength(padded[r], widths);
    var rules := Rules(widths);
    forall c | 0 <= c < n ensures Utf16Length(rules[c]) == widths[c] {
      Utf16LengthRepeat('-', widths[c]);
    }
    RowLineLength(rules, widths);
  }

  /** A table of 32 columns or more never fits: it is rendered as a list. */
  lemma ManyColumnsMakeList(items: seq<seq<string>>, n: nat)
    requires Rectangular(items, n) && n * MinColumnWidth >= MaxWidth
    ensures Sum(Widths(items, n)) >= MaxWidth
  {
    var widths := Widths(items, n);
    forall c | 0 <= c < n ensures widths[c] >= MinColumnWidth {
      ColumnWidthIsMaximum(items, n, c, |items|);
    }
    SumAtLeast(widths);
  }

  /** A row contributes nothing to the list exactly when it and the header
      row are empty in every column. */
  lemma {:induction false} RowEntriesEmptyIff(items: seq<seq<string>>, n: nat, r: nat, c: nat)
    requires Rectangular(items, n) && 0 < |items| && r < |items| && c <= n
    ensures RowEntries(items, n, r, c) == "" <==> forall j :: 0 <= j < c ==> items[0][j] == "" && items[r][j] == ""
    decreases c
  {
    if c > 0 {
      RowEntriesEmptyIff(items, n, r, c - 1);
      var bullet := if c == 1 then "* " else "  * ";
      var before := RowEntries(items, n, r, c - 1);
      var e := Entry(items[0][c - 1], items[r][c - 1], bullet);
      assert RowEntries(items, n, r, c) == before + e;
      EntryEmptyIff(items[0][c - 1], items[r][c - 1], bullet);
      ConcatEmptyIff(before, e);
      ColumnsEmptyStep(items, r, c);
    }
  }

  /** Two strings concatenate to the empty string exactly when both are
      empty. */
  lemma ConcatEmptyIff(a: string, b: string)
    ensures a + b == "" <==> a == "" && b == ""
  {
    assert |a + b| == |a| + |b|;
  }

  /** The first `c` columns of the header and of row `r` are empty exactly
      when the first `c - 1` are and column `c - 1` is. */
  lemma ColumnsEmptyStep(items: seq<seq<string>>, r: nat, c: nat)
    requires 0 < |items| && r < |items| && 0 < c <= |items[0]| && c <= |items[r]|
    ensures (forall j :: 0 <= j < c ==> items[0][j] == "" && items[r][j] == "")
        <==> (forall j :: 0 <= j < c - 1 ==> items[0][j] == "" && items[r][j] == "")
             && items[0][c - 1] == "" && items[r][c - 1] == ""
  {
  }

  /** An entry is empty exactly when its header and its cell are. */
  lemma EntryEmptyIff(header: string, cell: string, bullet: string)
    requires bullet != ""
    ensures Entry(header, cell, bullet) == "" <==> header == "" && cell == ""
  {
    if header != "" || cell != "" {
      assert |Entry(header, cell, bullet)| >= |bullet|;
    }
  }

  // The loops of `convertTableToMarkdown`, each proved to compute the
  // function above that it stands for.

  /** Cleans the cells of one row, in order. */
  method CleanCells(cols: seq<string>, decode: string -> string) returns (itemCols: seq<string>)
    ensures itemCols == CleanAll(cols, decode)
  {
    ghost var cells := CleanAll(cols, decode);
    itemCols := [];
    var c := 0;
    while c < |cols|
      invariant 0 <= c <= |cols|
      invariant itemCols == cells[..c]
    {
      itemCols := itemCols + [Clean(cols[c], decode)];
      PrefixStep(cells, c);
      c := c + 1;
    }
    PrefixWhole(cells);
  }

  /** Parses every row into its cleaned cells. */
  method ParseRows(rows: seq<string>, decode: string -> string) returns (items: seq<seq<string>>)
    ensures items == Items(rows, decode)
  {
    ghost var spec := Items(rows, decode);
    items := [];
    var r := 0;
    while r < |rows|
      invariant 0 <= r <= |rows|
      invariant items == spec[..r]
    {
      var cols := MatchAll(rows[r], CellAt);
      var itemCols := CleanCells(cols, decode);
      items := items + [itemCols];
      PrefixStep(spec, r);
      r := r + 1;
    }
    PrefixWhole(spec);
  }

  /** The length of the longest row. */
  method CountColumns(items: seq<seq<string>>) returns (nCols: nat)
    ensures nCols == MaxCols(items)
  {
    nCols := 0;
    var r := 0;
    while r < |items|
      invariant 0 <= r <= |items|
      invariant nCols == MaxCols(items[..r])
    {
      assert items[..r + 1][..r] == items[..r];
      if |items[r]| > nCols {
        nCols := |items[r]|;
      }
      r := r + 1;
    }
    PrefixWhole(items);
  }

  /** Extends every row with empty cells to `nCols` cells, one cell at a
      time. */
  method NormalizeColumns(items: seq<seq<string>>, nCols: nat) returns (out: seq<seq<string>>)
    ensures out == Normalize(items, nCols)
  {
    out := items;
    var r := 0;
    while r < |out|
      invariant 0 <= r <= |out| == |items|
      invariant forall k :: 0 <= k < r ==> out[k] == PadRow(items[k], nCols)
      invariant forall k :: r <= k < |out| ==> out[k] == items[k]
    {
      while |out[r]| < nCols
        invariant |out| == |items|
        invariant |items[r]| <= |out[r]| && (|out[r]| > nCols ==> out[r] == items[r])
        invariant out[r][..|items[r]|] == items[r]
        invariant forall c :: |items[r]| <= c < |out[r]| ==> out[r][c] == ""
        invariant forall k :: 0 <= k < |out| && k != r ==> out[k] == (if k < r then PadRow(items[k], nCols) else items[k])
        decreases nCols - |out[r]|
      {
        out := out[r := out[r] + [""]];
      }
      assert out[r] == PadRow(items[r], nCols);
      r := r + 1;
    }
  }

  /** Starts every column at the minimum width and widens it to each
      longer cell, row by row. */
  method ComputeWidths(items: seq<seq<string>>, nCols: nat) returns (columnWidths: seq<nat>)
    requires Rectangular(items, nCols)
    ensures columnWidths == Widths(items, nCols)
  {
    columnWidths := [];
    var c := 0;
    while c < nCols
      invariant 0 <= c <= nCols && |columnWidths| == c
      invariant forall j :: 0 <= j < c ==> columnWidths[j] == ColumnWidth(items, nCols, j, 0)
    {
      columnWidths := columnWidths + [MinColumnWidth];
      c := c + 1;
    }
    var r := 0;
    while r < |items|
      invariant 0 <= r <= |items| && |columnWidths| == nCols
      invariant forall j :: 0 <= j < nCols ==> columnWidths[j] == ColumnWidth(items, nCols, j, r)
    {
      c := 0;
      while c < nCols
        invariant 0 <= c <= nCols && |columnWidths| == nCols
        invariant forall j :: 0 <= j < c ==> columnWidths[j] == ColumnWidth(items, nCols, j, r + 1)
        invariant forall j :: c <= j < nCols ==> columnWidths[j] == ColumnWidth(items, nCols, j, r)
      {
        var len := Utf16Length(items[r][c]);
        if len > columnWidths[c] {
          columnWidths := columnWidths[c := len];
        }
        c := c + 1;
      }
      r := r + 1;
    }
  }

  /** The sum of the column widths. */
  method TotalWidth(columnWidths: seq<nat>) returns (totalWidth: nat)
    ensures totalWidth == Sum(columnWidths)
  {
    totalWidth := 0;
    var c := 0;
    while c < |columnWidths|
      invariant 0 <= c <= |columnWidths|
      invariant totalWidth == Sum(columnWidths[..c])
    {
      assert columnWidths[..c + 1][..c] == columnWidths[..c];
      totalWidth := totalWidth + columnWidths[c];
      c := c + 1;
    }
    PrefixWhole(columnWidths);
  }

  /** Pads every cell to its column's width, in place. */
  method PadCells(items: seq<seq<string>>, nCols: nat, columnWidths: seq<nat>) returns (out: seq<seq<string>>)
    requires Rectangular(items, nCols) && |columnWidths| == nCols
    ensures out == Padded(items, nCols, columnWidths)
  {
    ghost var spec := Padded(items, nCols, columnWidths);
    out := items;
    var r := 0;
    while r < |out|
      invariant 0 <= r <= |out| == |items| && Rectangular(out, nCols)
      invariant forall k :: 0 <= k < r ==> out[k] == spec[k]
      invariant forall k :: r <= k < |out| ==> out[k] == items[k]
    {
      var c := 0;
      while c < nCols
        invariant 0 <= c <= nCols && |out| == |items| && Rectangular(out, nCols)
        invariant forall j :: 0 <= j < c ==> out[r][j] == spec[r][j]
        invariant forall j :: c <= j < nCols ==> out[r][j] == items[r][j]
        invariant forall k :: 0 <= k < |out| && k != r ==> out[k] == (if k < r then spec[k] else items[k])
      {
        out := out[r := out[r][c := Ljust(out[r][c], columnWidths[c])]];
        c := c + 1;
      }
      assert out[r] == spec[r];
      r := r + 1;
    }
    assert out == spec;
  }

  /** One more cell on a line. */
  lemma RowLineStep(cells: seq<string>, c: nat)
    requires c < |cells|
    ensures RowLine(cells[..c + 1]) == RowLine(cells[..c]) + cells[c] + "|"
  {
    assert cells[..c + 1][..c] == cells[..c];
  }

  /** Appends the line `|cell|cell|...|` of `cells` to `result`. */
  method AppendRowLine(result: string, cells: seq<string>) returns (out: string)
    ensures out == result + RowLine(cells)
  {
    out := result + "|";
    var c := 0;
    while c < |cells|
      invariant 0 <= c <= |cells|
      invariant out == result + RowLine(cells[..c])
    {
      RowLineStep(cells, c);
      out := out + cells[c] + "|";
      Associative(result, RowLine(cells[..c]), cells[c]);
      Associative(result, RowLine(cells[..c]) + cells[c], "|");
      c := c + 1;
    }
    PrefixWhole(cells);
  }

  /** Appends one line per data row. */
  method AppendDataLines(result: string, items: seq<seq<string>>) returns (out: string)
    requires 0 < |items|
    ensures out == result + DataLines(items, |items|)
  {
    out := result;
    var r := 1;
    while r < |items|
      invariant 1 <= r <= |items|
      invariant out == result + DataLines(items, r)
    {
      ghost var before := DataLines(items, r);
      out := AppendRowLine(out, items[r]);
      out := out + "\n";
      Associative(result, before, RowLine(items[r]));
      Associative(result, before + RowLine(items[r]), "\n");
      r := r + 1;
    }
  }

  /** Writes the grid of the padded cells: header line, separator line and
      one line per data row. */
  method RenderGrid(items: seq<seq<string>>, nCols: nat, columnWidths: seq<nat>) returns (result: string)
    requires Rectangular(items, nCols) && |columnWidths| == nCols
    ensures result == Grid(items, nCols, columnWidths)
  {
    result := "";
    var nRows := |items|;
    if nRows > 0 && nCols > 0 {
      if nRows > 1 {
        result := AppendRowLine(result, items[0]);
      }
      result := result + "\n";
      result := AppendRowLine(result, Rules(columnWidths));
      result := result + "\n";
      result := AppendDataLines(result, items);
    }
  }

  /** Appends the list entry of one cell under its header. */
  method AppendEntry(result: string, header: string, cell: string, bullet: string) returns (out: string)
    ensures out == result + Entry(header, cell, bullet)
  {
    out := result;
    if header != "" || cell != "" {
      out := out + bullet;
    }
    if header != "" {
      out := out + header + ": ";
    }
    if cell != "" {
      out := out + cell;
    }
    if header != "" || cell != "" {
      out := out + "\n";
    }
  }

  /** Appends the entries of data row `r`: its first column at the top
      level, the other columns indented under it, each labelled by the
      header row's cell. */
  method AppendRowEntries(result: string, items: seq<seq<string>>, nCols: nat, r: nat) returns (out: string)
    requires Rectangular(items, nCols) && r < |items| && 0 < nCols
    ensures out == result + RowEntries(items, nCols, r, nCols)
  {
    out := AppendEntry(result, items[0][0], items[r][0], "* ");
    assert RowEntries(items, nCols, r, 1) == Entry(items[0][0], items[r][0], "* ");
    var c := 1;
    while c < nCols
      invariant 1 <= c <= nCols
      invariant out == result + RowEntries(items, nCols, r, c)
    {
      ghost var before := RowEntries(items, nCols, r, c);
      out := AppendEntry(out, items[0][c], items[r][c], "  * ");
      Associative(result, before, Entry(items[0][c], items[r][c], "  * "));
      c := c + 1;
    }
  }

  /** Writes the list form: a blank line, then the entries of every data
      row. */
  method RenderList(items: seq<seq<string>>, nCols: nat) returns (result: string)
    requires Rectangular(items, nCols) && 0 < |items| && 0 < nCols
    ensures result == List(items, nCols)
  {
    result := "\n";
    var r := 1;
    while r < |items|
      invariant 1 <= r <= |items|
      invariant result == "\n" + ListRows(items, nCols, r)
    {
      ghost var before := ListRows(items, nCols, r);
      result := AppendRowEntries(result, items, nCols, r);
      Associative("\n", before, RowEntries(items, nCols, r, nCols));
      r := r + 1;
    }
  }

  /** The rows parsed, made rectangular, measured and rendered as a grid or
      as a list. */
  method RenderRows(rows: seq<string>, decode: string -> string) returns (result: string)
    ensures result == Body(rows, decode)
  {
    var items := ParseRows(rows, decode);
    var nCols := CountColumns(items);
    NormalizeRectangular(items);
    items := NormalizeColumns(items, nCols);
    var columnWidths := ComputeWidths(items, nCols);
    var totalWidth := TotalWidth(columnWidths);
    if totalWidth < MaxWidth {
      items := PadCells(items, nCols, columnWidths);
      result := RenderGrid(items, nCols, columnWidths);
    } else if 0 < |items| {
      result := RenderList(items, nCols);
    } else {
      result := "";
    }
  }

  /** `convertTableToMarkdown`: a line feed, the caption, then the rows;
      nothing for fewer than two rows. */
  method ConvertTableToMarkdown(table: string, decode: string -> string) returns (result: string)
    ensures result == TableMarkdown(table, decode)
  {
    result := "\n";
    var caption := FirstHit(table, 0, CaptionAt);
    if caption.Some? {
      var text := Clean(CaptionAt(table, caption.value).value.text, decode);
      assert CaptionPrefix(table, decode) == text + "\n\n";
      result := result + text + "\n\n";
      assert result == "\n" + (text + "\n\n");
    }
    assert result == "\n" + CaptionPrefix(table, decode);
    var rows := MatchAll(table, RowAt);
    var nRows := |rows|;
    if nRows < 2 {
      return "";
    }
    var body := RenderRows(rows, decode);
    result := result + body;
    assert result == "\n" + CaptionPrefix(table, decode) + Body(rows, decode);
  }

  /** The placeholder of the `t`-th table of one call; `nonce` stands for
      `Math.random()`. */
  function TableToken(t: nat, nonce: nat -> string): string {
    "urltomarkdowntableplaceholder" + NatToString(t) + nonce(t)
  }

  /** The records one call appends, in table order. */
  function TableRecords(tables: seq<string>, decode: string -> string, nonce: nat -> string): (r: seq<Record>)
    ensures |r| == |tables|
    ensures forall t :: 0 <= t < |r| ==> r[t] == Record(TableToken(t, nonce), TableMarkdown(tables[t], decode))
  {
    seq(|tables|, t requires 0 <= t < |tables| => Record(TableToken(t, nonce), TableMarkdown(tables[t], decode)))
  }

  /** The placeholders of one call, in table order. */
  function TableTokens(n: nat, nonce: nat -> string): (r: seq<string>)
    ensures |r| == n && forall t :: 0 <= t < n ==> r[t] == TableToken(t, nonce)
  {
    seq(n, t requires 0 <= t < n => TableToken(t, nonce))
  }

  /** The loop of `formatTables` over the tables found: each table's
      Markdown is recorded at the next free index of `vault`, and its first
      occurrence in the page is replaced by its wrapped placeholder. */
  method StashTables(html: string, tables: seq<string>, vault: Replacements, decode: string -> string, nonce: nat -> string)
    returns (out: string)
    modifies vault
    ensures vault.records == old(vault.records) + TableRecords(tables, decode, nonce)
    ensures out == Splice(html, tables, TableTokens(|tables|, nonce))
  {
    var start := |vault.records|;
    ghost var tokens := TableTokens(|tables|, nonce);
    ghost var records := TableRecords(tables, decode, nonce);
    out := html;
    var t := 0;
    while t < |tables|
      invariant 0 <= t <= |tables|
      invariant vault.records == old(vault.records) + records[..t]
      invariant out == Splice(html, tables[..t], tokens[..t])
    {
      var table := tables[t];
      var markdown := ConvertTableToMarkdown(table, decode);
      var placeholder := TableToken(t, nonce);
      vault.Put(start + t, Record(placeholder, markdown));
      PrefixStep(records, t);
      Associative(old(vault.records), records[..t], [records[t]]);
      SpliceStep(html, tables, tokens, t);
      out := ReplaceFirst(out, table, Wrapped(placeholder));
      t := t + 1;
    }
    PrefixWhole(tables);
    PrefixWhole(tokens);
    PrefixWhole(records);
  }

  /** Rewrites every `<table>` element of `html` into a placeholder,
      appending one record per table to `vault` after the records already
      there. */
  method FormatTables(html: string, vault: Replacements, decode: string -> string, nonce: nat -> string)
    returns (out: string)
    modifies vault
    ensures var tables := MatchAll(html, TableAt);
      && vault.records == old(vault.records) + TableRecords(tables, decode, nonce)
      && out == Splice(html, tables, TableTokens(|tables|, nonce))
  {
    var tables := MatchAll(html, TableAt);
    out := StashTables(html, tables, vault, decode, nonce);
  }
}
