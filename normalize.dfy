/** The table normaliser: turns whatever the caller hands over as a table (an
    HTML string, a Markdown string, a list of rows, any other value) into one
    HTML table string, or into "" when there is no table at all. */
module Normalize {
  import opened Text
  import opened PyValues

  /** One generated `<tr>`: the tag of its cells (`th` or `td`) and their texts. */
  datatype Row = Row(cellTag: string, cells: seq<string>)

  /** `''.join(f'<{tag}>{cell}</{tag}>' for cell in cells)`. */
  function RenderCells(tag: string, cells: seq<string>): string
    decreases |cells|
  {
    if cells == [] then ""
    else RenderCells(tag, cells[..|cells| - 1]) + "<" + tag + ">" + cells[|cells| - 1] + "</" + tag + ">"
  }

  /** `f"<tr>{...}</tr>"`. */
  function RenderRow(row: Row): string {
    "<tr>" + RenderCells(row.cellTag, row.cells) + "</tr>"
  }

  /** The rows one after the other. */
  function RenderRows(rows: seq<Row>): string
    decreases |rows|
  {
    if rows == [] then "" else RenderRows(rows[..|rows| - 1]) + RenderRow(rows[|rows| - 1])
  }

  /** A whole generated table: `<table>`, the rows, `</table>`. */
  function RenderTable(rows: seq<Row>): string {
    "<table>" + RenderRows(rows) + "</table>"
  }

  /** The HTML part each row contributes to the source's `html_parts` list. */
  function RowParts(rows: seq<Row>): (parts: seq<string>)
    ensures |parts| == |rows|
  {
    seq(|rows|, i requires 0 <= i < |rows| => RenderRow(rows[i]))
  }

  /** One loop step of the converters: appending row `i`'s part to the parts
      of the rows before it. */
  lemma AppendRowPart(parts: seq<string>, rows: seq<Row>, i: nat)
    requires i < |rows| && parts == ["<table>"] + RowParts(rows[..i])
    ensures parts + [RenderRow(rows[i])] == ["<table>"] + RowParts(rows[..i + 1])
  {
  }

  /** Joining `<table>`, the rows' parts and `</table>` gives the rendered table. */
  lemma TableParts(rows: seq<Row>)
    ensures Concat(["<table>"] + RowParts(rows) + ["</table>"]) == RenderTable(rows)
  {
    RowPartsConcat(rows);
    ConcatAppend(["<table>"] + RowParts(rows), "</table>");
    ConcatFront("<table>", RowParts(rows));
  }

  lemma {:induction false} RowPartsConcat(rows: seq<Row>)
    ensures Concat(RowParts(rows)) == RenderRows(rows)
    decreases |rows|
  {
    if rows != [] {
      var n := |rows|;
      assert RowParts(rows)[..n - 1] == RowParts(rows[..n - 1]);
      RowPartsConcat(rows[..n - 1]);
    }
  }

  /** A single value wrapped as one cell of one row. */
  function WrapCell(text: string): string {
    "<table><tr><td>" + text + "</td></tr></table>"
  }

  // ---------------------------------------------------------------------------
  // Markdown tables

  /** `[p.strip() for p in pieces if p.strip()]`: the stripped pieces that are
      not empty, in order. */
  function StripNonEmpty(pieces: seq<string>): (r: seq<string>)
    ensures |r| <= |pieces|
    ensures forall i :: 0 <= i < |r| ==> r[i] != ""
    decreases |pieces|
  {
    if pieces == [] then []
    else
      var s := Strip(pieces[0]);
      (if s != "" then [s] else []) + StripNonEmpty(pieces[1..])
  }

  /** Each kept piece is a stripped input piece. */
  lemma {:induction false} StripNonEmptyFrom(pieces: seq<string>, k: nat)
    requires k < |StripNonEmpty(pieces)|
    ensures exists i :: 0 <= i < |pieces| && StripNonEmpty(pieces)[k] == Strip(pieces[i])
    decreases |pieces|
  {
    var s := Strip(pieces[0]);
    var rest := StripNonEmpty(pieces[1..]);
    if s != "" && k == 0 {
      assert StripNonEmpty(pieces)[0] == Strip(pieces[0]);
    } else {
      var k' := if s != "" then k - 1 else k;
      assert StripNonEmpty(pieces)[k] == rest[k'];
      StripNonEmptyFrom(pieces[1..], k');
      var i :| 0 <= i < |pieces[1..]| && rest[k'] == Strip(pieces[1..][i]);
      assert pieces[1..][i] == pieces[i + 1];
    }
  }

  /** A piece that is not blank is kept, stripped. */
  lemma {:induction false} StripNonEmptyKeeps(pieces: seq<string>, i: nat)
    requires i < |pieces| && Strip(pieces[i]) != ""
    ensures Strip(pieces[i]) in StripNonEmpty(pieces)
    decreases |pieces|
  {
    if i > 0 {
      StripNonEmptyKeeps(pieces[1..], i - 1);
      assert pieces[1..][i - 1] == pieces[i];
    }
  }

  /** Pieces that are already stripped and not empty are all kept, unchanged. */
  lemma {:induction false} StripNonEmptyStripped(pieces: seq<string>)
    requires forall k :: 0 <= k < |pieces| ==> IsStripped(pieces[k])
    ensures StripNonEmpty(pieces) == pieces
    decreases |pieces|
  {
    if pieces != [] {
      StripStripped(pieces[0]);
      StripNonEmptyStripped(pieces[1..]);
      assert [pieces[0]] + pieces[1..] == pieces;
    }
  }

  /** `[line for line in lines if '|' in line]`. */
  function PipeLines(lines: seq<string>): (r: seq<string>)
    ensures |r| <= |lines|
    decreases |lines|
  {
    if lines == [] then []
    else (if '|' in lines[0] then [lines[0]] else []) + PipeLines(lines[1..])
  }

  /** `PipeLines` keeps exactly the lines that hold a `|`. */
  lemma {:induction false} PipeLinesMember(lines: seq<string>, x: string)
    ensures x in PipeLines(lines) <==> x in lines && '|' in x
    decreases |lines|
  {
    if lines != [] {
      PipeLinesMember(lines[1..], x);
      assert lines == [lines[0]] + lines[1..];
    }
  }

  /** `re.match(r'^[\s\|\-:]+$', line)`: the line is not empty and made only of
      white space, `|`, `-` and `:` (the separator row under a header). */
  predicate IsSeparatorLine(line: string) {
    |line| > 0 && forall i :: 0 <= i < |line| ==> IsSpace(line[i]) || line[i] in "|-:"
  }

  /** `[line for line in lines if not re.match(...)]`. */
  function DataLines(lines: seq<string>): (r: seq<string>)
    ensures |r| <= |lines|
    decreases |lines|
  {
    if lines == [] then []
    else (if !IsSeparatorLine(lines[0]) then [lines[0]] else []) + DataLines(lines[1..])
  }

  /** `DataLines` keeps exactly the lines that are not separators. */
  lemma {:induction false} DataLinesMember(lines: seq<string>, x: string)
    ensures x in DataLines(lines) <==> x in lines && !IsSeparatorLine(x)
    decreases |lines|
  {
    if lines != [] {
      DataLinesMember(lines[1..], x);
      assert lines == [lines[0]] + lines[1..];
    }
  }

  /** The non-blank lines of a Markdown text, stripped. */
  function MarkdownLines(markdown: string): seq<string> {
    StripNonEmpty(Split(markdown, '\n'))
  }

  /** `[cell.strip() for cell in line.split('|') if cell.strip()]`. */
  function Cells(line: string): seq<string> {
    StripNonEmpty(Split(line, '|'))
  }

  /** The rows a Markdown table yields: data line `i` gives one row of its
      cells, with header cells for the first line and data cells after it. */
  function MarkdownRows(dataLines: seq<string>): (rows: seq<Row>)
    ensures |rows| == |dataLines|
  {
    seq(|dataLines|, i requires 0 <= i < |dataLines| => Row(CellTag(i), Cells(dataLines[i])))
  }

  /** `"th" if i == 0 else "td"`: header cells on the first data line only. */
  function CellTag(i: int): string {
    if i == 0 then "th" else "td"
  }

  /** What `_markdown_to_html` returns: "" when no line holds a `|`, and
      otherwise the table of the rows of the lines that are not separators. */
  function MarkdownHtml(markdown: string): string {
    var tableLines := PipeLines(MarkdownLines(markdown));
    if tableLines == [] then "" else RenderTable(MarkdownRows(DataLines(tableLines)))
  }

  /** A line that is not blank and not a separator has at least one cell, so
      the source's `if cells:` guard never skips a data line. */
  lemma DataLineHasCells(line: string)
    requires line != "" && !IsSeparatorLine(line)
    ensures Cells(line) != []
  {
    var k :| 0 <= k < |line| && !IsSpace(line[k]) && line[k] !in "|-:";
    var c := line[k];
    SplitCovers(line, '|', c);
    var pieces := Split(line, '|');
    var i :| 0 <= i < |pieces| && c in pieces[i];
    StripKeeps(pieces[i], c);
    StripNonEmptyKeeps(pieces, i);
  }

  /** Every Markdown cell is a stripped, non-empty text without `|`. */
  lemma CellFacts(line: string, k: nat)
    requires k < |Cells(line)|
    ensures IsStripped(Cells(line)[k]) && '|' !in Cells(line)[k]
  {
    var pieces := Split(line, '|');
    StripNonEmptyFrom(pieces, k);
    var i :| 0 <= i < |pieces| && Cells(line)[k] == Strip(pieces[i]);
    StripEmpty(pieces[i]);
    StripEnds(pieces[i]);
    SplitPieces(line, '|');
    if '|' in Strip(pieces[i]) {
      StripAdds(pieces[i], '|');
    }
  }

  /** Round trip: the cells of a line written as stripped, non-empty cells
      without `|` joined by `|` are those cells. */
  lemma CellsJoin(cells: seq<string>)
    requires |cells| >= 1
    requires forall k :: 0 <= k < |cells| ==> IsStripped(cells[k]) && '|' !in cells[k]
    ensures Cells(Join(cells, "|")) == cells
  {
    SplitJoin(cells, '|');
    StripNonEmptyStripped(cells);
  }

  /** Every data line of stripped non-blank lines has cells. */
  lemma EveryDataLineHasCells(lines: seq<string>, i: nat)
    requires forall k :: 0 <= k < |lines| ==> lines[k] != ""
    requires i < |DataLines(PipeLines(lines))|
    ensures Cells(DataLines(PipeLines(lines))[i]) != []
  {
    var line := DataLines(PipeLines(lines))[i];
    DataLinesMember(PipeLines(lines), line);
    PipeLinesMember(lines, line);
    DataLineHasCells(line);
  }

  /** A Markdown text yields a table exactly when one of its characters is
      `|`; otherwise `_markdown_to_html` returns "". */
  lemma MarkdownHtmlEmpty(markdown: string)
    ensures MarkdownHtml(markdown) == "" <==> '|' !in markdown
  {
    var pieces := Split(markdown, '\n');
    var lines := MarkdownLines(markdown);
    if '|' in markdown {
      SplitCovers(markdown, '\n', '|');
      var i :| 0 <= i < |pieces| && '|' in pieces[i];
      StripKeeps(pieces[i], '|');
      StripNonEmptyKeeps(pieces, i);
      PipeLinesMember(lines, Strip(pieces[i]));
    } else if PipeLines(lines) != [] {
      var x := PipeLines(lines)[0];
      PipeLinesMember(lines, x);
      var k :| 0 <= k < |lines| && lines[k] == x;
      StripNonEmptyFrom(pieces, k);
      var i :| 0 <= i < |pieces| && x == Strip(pieces[i]);
      StripAdds(pieces[i], '|');
      SplitPieceChars(markdown, '\n', i, '|');
    }
  }

  /** The two-column example: a header line, a separator line and one data
      line give a header row and one data row. */
  lemma MarkdownExample(md: string)
    requires md == "a|b\n--|--\n1|2"
    ensures MarkdownHtml(md)
         == RenderTable([Row("th", ["a", "b"]), Row("td", ["1", "2"])])
  {
    ExampleLines(md);
    ExampleDataLines();
    ExampleCells();
    var rows := MarkdownRows(["a|b", "1|2"]);
    assert rows == [Row("th", ["a", "b"]), Row("td", ["1", "2"])];
  }

  lemma ExampleLines(md: string)
    requires md == "a|b\n--|--\n1|2"
    ensures MarkdownLines(md) == ["a|b", "--|--", "1|2"]
  {
    var given := ["a|b", "--|--", "1|2"];
    assert Join(given, "\n") == md;
    SplitJoin(given, '\n');
    StripNonEmptyStripped(given);
  }

  lemma ExampleDataLines()
    ensures PipeLines(["a|b", "--|--", "1|2"]) == ["a|b", "--|--", "1|2"]
    ensures DataLines(["a|b", "--|--", "1|2"]) == ["a|b", "1|2"]
  {
    assert IsSeparatorLine("--|--");
    assert !IsSeparatorLine("a|b") by { assert "a|b"[0] == 'a'; }
    assert !IsSeparatorLine("1|2") by { assert "1|2"[0] == '1'; }
  }

  lemma ExampleCells()
    ensures Cells("a|b") == ["a", "b"] && Cells("1|2") == ["1", "2"]
  {
    assert Join(["a", "b"], "|") == "a|b";
    CellsJoin(["a", "b"]);
    assert Join(["1", "2"], "|") == "1|2";
    CellsJoin(["1", "2"]);
  }

  /** `_markdown_to_html`: builds the list of HTML parts row by row and joins it. */
  method MarkdownToHtml(markdown: string) returns (html: string)
    ensures html == MarkdownHtml(markdown)
  {
    var lines := MarkdownLines(markdown);
    var tableLines := PipeLines(lines);
    if tableLines == [] {
      return "";
    }
    var parts := ["<table>"];
    var dataLines := DataLines(tableLines);
    ghost var rows := MarkdownRows(dataLines);
    var i := 0;
    while i < |dataLines|
      invariant 0 <= i <= |dataLines|
      invariant parts == ["<table>"] + RowParts(rows[..i])
    {
      var cells := Cells(dataLines[i]);
      EveryDataLineHasCells(lines, i);
      if cells != [] {
        var tag := CellTag(i);
        AppendRowPart(parts, rows, i);
        parts := parts + [RenderRow(Row(tag, cells))];
      }
      i := i + 1;
    }
    parts := parts + ["</table>"];
    assert rows[..i] == rows;
    TableParts(rows);
    html := Concat(parts);
  }

  // ---------------------------------------------------------------------------
  // Lists of rows

  /** The cells of one list item: a dict gives its values in order, a list its
      elements, anything else one cell of its `str()`; each cell prints as `str()`. */
  function RowCells(item: Value): seq<string> {
    match item
    case Dict(entries) => seq(|entries|, i requires 0 <= i < |entries| => Show(entries[i].value))
    case List(items) => seq(|items|, i requires 0 <= i < |items| => Show(items[i]))
    case _ => [Show(item)]
  }

  /** What `_list_to_html` returns: "" for an empty list, otherwise a table with
      exactly one row of data cells per item, in order. */
  function ListHtml(data: seq<Value>): string {
    if data == [] then ""
    else RenderTable(seq(|data|, i requires 0 <= i < |data| => Row("td", RowCells(data[i]))))
  }

  /** `_list_to_html`: appends one `<tr>` per item to the list of HTML parts. */
  method ListToHtml(data: seq<Value>) returns (html: string)
    ensures html == ListHtml(data)
  {
    if data == [] {
      return "";
    }
    ghost var rows := seq(|data|, i requires 0 <= i < |data| => Row("td", RowCells(data[i])));
    var parts := ["<table>"];
    var i := 0;
    while i < |data|
      invariant 0 <= i <= |data|
      invariant parts == ["<table>"] + RowParts(rows[..i])
    {
      var cells := RowCells(data[i]);
      AppendRowPart(parts, rows, i);
      parts := parts + [RenderRow(Row("td", cells))];
      i := i + 1;
    }
    parts := parts + ["</table>"];
    assert rows[..i] == rows;
    TableParts(rows);
    html := Concat(parts);
  }

  // ---------------------------------------------------------------------------
  // The normaliser

  /** A table value the normaliser turns into "": `None`, a string of white
      space only, or an empty list. */
  predicate EmptyTable(value: Value) {
    value.None? || (value.Str? && IsBlank(value.s)) || (value.List? && value.items == [])
  }

  /** `_normalize_to_html`, its cases tried in the source's order. It returns
      "" exactly for an empty table value; every other value becomes a table. */
  function NormalizeToHtml(value: Value): (html: string)
    ensures html == "" <==> EmptyTable(value)
  {
    match value
    case None => ""
    case Str(s) =>
      StripEmpty(s);
      if Strip(s) == "" then ""
      else if Contains(Lower(s), "<table") then s
      else if '|' in s then MarkdownHtmlEmpty(s); MarkdownHtml(s)
      else WrapCell(s)
    case List(items) => ListHtml(items)
    case _ => WrapCell(Show(value))
  }

  /** Whatever the normaliser returns that is not "" holds `<table`, in any
      letter case: the caller can always look for a table in it. */
  lemma NormalizeHasTable(value: Value)
    requires NormalizeToHtml(value) != ""
    ensures Contains(Lower(NormalizeToHtml(value)), "<table")
  {
    var html := NormalizeToHtml(value);
    match value
    case Str(s) =>
      if !Contains(Lower(s), "<table") {
        TableTagFound(html);
      }
    case _ =>
      TableTagFound(html);
  }

  /** A text that starts with `<table` contains it once lowered. */
  lemma TableTagFound(html: string)
    requires StartsWith(html, "<table")
    ensures Contains(Lower(html), "<table")
  {
    assert Lower(html)[..6] == "<table";
  }
}
