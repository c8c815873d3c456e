/** `generateMarkdown` of src/ui/utils/TableBuilderUtils.ts: the table
    builder's state written as a note with a `table-roller` frontmatter
    block, a heading, the directives and a pipe table. Its partners are the
    readers: every written line is read back by the line-level parsing of
    src/services/TableParser.ts and src/services/tables/table-parser.ts. */
module MarkdownExport {
  import opened Outcomes
  import opened Strings
  import opened Seqs
  import opened Columns
  import Markdown
  import TableParser
  import LegacyParser
  import Records
  import BodyParser

  // ---------------------------------------------------------------------------
  // pipe lines

  /** A cell between its two spaces. */
  function Pad(c: string): string {
    " " + c + " "
  }

  /** `'| ' + cells.join(' | ') + ' |'`. */
  function PipeLine(cells: seq<string>): string {
    "| " + Join(cells, " | ") + " |"
  }

  /** `'|' + headers.map(() => '----').join('|') + '|'`. */
  function SeparatorLine(n: nat): string {
    "|" + Join(seq(n, _ => "----"), "|") + "|"
  }

  /** What a cell must be for a pipe line to carry it: no pipe, no line
      break, and nothing for `trim` to take off. */
  predicate Cell(c: string) {
    '|' !in c && NoLineTerminator(c) && TrimmedEnds(c)
  }

  predicate Cells(cells: seq<string>) {
    forall j | 0 <= j < |cells| :: Cell(cells[j])
  }

  lemma {:induction false} JoinSnoc(parts: seq<string>, x: string, sep: string)
    requires |parts| >= 1
    ensures Join(parts + [x], sep) == Join(parts, sep) + sep + x
    decreases |parts|
  {
    if |parts| > 1 {
      assert (parts + [x])[1..] == parts[1..] + [x];
      JoinSnoc(parts[1..], x, sep);
    }
  }

  /** Joining with ` | ` is joining the padded cells with `|`. */
  lemma {:induction false} PaddedJoin(cells: seq<string>)
    requires |cells| >= 1
    ensures " " + Join(cells, " | ") + " " == Join(Map(cells, Pad), "|")
    decreases |cells|
  {
    if |cells| > 1 {
      PaddedJoin(cells[1..]);
      assert Map(cells, Pad) == [Pad(cells[0])] + Map(cells[1..], Pad);
      JoinCons(Pad(cells[0]), Map(cells[1..], Pad), "|");
    }
  }

  /** A line framed by pipes is the join of its pieces with an empty piece at each end. */
  lemma {:induction false} Framed(parts: seq<string>)
    requires |parts| >= 1
    ensures "|" + Join(parts, "|") + "|" == Join([""] + parts + [""], "|")
  {
    JoinSnoc(parts, "", "|");
    assert [""] + parts + [""] == [""] + (parts + [""]);
    JoinCons("", parts + [""], "|");
  }

  /** Trimming a padded cell gives the cell. */
  lemma {:induction false} PadTrim(c: string)
    requires TrimmedEnds(c)
    ensures Trim(Pad(c)) == c
  {
    var s := Pad(c);
    if c == "" {
      assert s == "  ";
      SpaceRunFromExact(s, 0, 2);
    } else {
      assert s[1..1 + |c|] == c;
      assert TrimmedAt(s, c, 1);
      TrimUnique(s, c, 1);
    }
  }

  /** The pipe pieces of a written line: the padded cells between two empty pieces. */
  lemma {:induction false} PipeLineSplit(cells: seq<string>)
    requires |cells| >= 1 && Cells(cells)
    ensures Split(PipeLine(cells), "|") == [""] + Map(cells, Pad) + [""]
  {
    var padded := Map(cells, Pad);
    PaddedJoin(cells);
    assert PipeLine(cells) == "|" + Join(padded, "|") + "|";
    Framed(padded);
    var pieces := [""] + padded + [""];
    forall i | 0 <= i < |pieces| ensures '|' !in pieces[i] {
      if 0 < i < |pieces| - 1 {
        assert pieces[i] == " " + cells[i - 1] + " ";
      }
    }
    SplitJoin(pieces, '|');
  }

  /** `line.split('|').map(c => c.trim())` of a written line: the cells between two empty pieces. */
  lemma {:induction false} PipeCellsRead(cells: seq<string>)
    requires |cells| >= 1 && Cells(cells)
    ensures Markdown.PipeCells(PipeLine(cells)) == [""] + cells + [""]
  {
    PipeLineSplit(cells);
    forall j | 0 <= j < |cells| ensures Trim(Pad(cells[j])) == cells[j] {
      PadTrim(cells[j]);
    }
    assert Trim("") == "";
  }

  /** Dropping a trailing empty cell from non-empty cells leaves them as they are. */
  lemma {:induction false} NonEmptyFilled(xs: seq<string>)
    requires forall j | 0 <= j < |xs| :: xs[j] != ""
    ensures Markdown.NonEmpty(xs + [""]) == xs
    decreases |xs|
  {
    if |xs| == 0 {
      assert Markdown.NonEmpty([""]) == Markdown.NonEmpty([]);
    } else {
      assert (xs + [""])[1..] == xs[1..] + [""];
      NonEmptyFilled(xs[1..]);
      assert [xs[0]] + xs[1..] == xs;
    }
  }

  /** The header line is read back as the column names by both parsers. */
  lemma {:induction false} HeaderLineRead(names: seq<string>)
    requires |names| >= 1 && Cells(names) && forall j | 0 <= j < |names| :: names[j] != ""
    ensures Markdown.NonEmpty(Markdown.PipeCells(PipeLine(names))) == names
    ensures BodyParser.HeadersOf(PipeLine(names)) == names
  {
    PipeCellsRead(names);
    NonEmptyPadded(names);
  }

  /** The empty cells around a pipe line's cells are dropped, and only they. */
  lemma {:induction false} NonEmptyPadded(xs: seq<string>)
    requires forall j | 0 <= j < |xs| :: xs[j] != ""
    ensures Markdown.NonEmpty([""] + xs + [""]) == xs
  {
    assert ([""] + xs + [""])[1..] == xs + [""];
    NonEmptyFilled(xs);
  }

  /** A row line is read back as its cells by `parseTable`. */
  lemma {:induction false} RowLineRead(cells: seq<string>)
    requires |cells| >= 1 && Cells(cells)
    ensures TableParser.DataCells(PipeLine(cells), |cells|) == cells
  {
    PipeCellsRead(cells);
  }

  /** A row line is read back as its cells by `parseTableBody`. */
  lemma {:induction false} BodyRowLineRead(cells: seq<string>)
    requires |cells| >= 1 && Cells(cells)
    ensures BodyParser.RowCells(PipeLine(cells), |cells|) == cells
  {
    var line := PipeLine(cells);
    var padded := Map(cells, Pad);
    PaddedJoin(cells);
    assert BodyParser.StripPipes(line) == Join(padded, "|") by {
      assert line == "|" + Join(padded, "|") + "|";
      assert line[1..] == Join(padded, "|") + "|";
    }
    forall i | 0 <= i < |padded| ensures '|' !in padded[i] {
      assert padded[i] == " " + cells[i] + " ";
    }
    SplitJoin(padded, '|');
    forall j | 0 <= j < |cells| ensures Trim(padded[j]) == cells[j] {
      PadTrim(cells[j]);
    }
  }

  /** The separator line has one `----` piece per column between two empty pieces. */
  lemma {:induction false} SeparatorRead(n: nat)
    requires n >= 1
    ensures Split(SeparatorLine(n), "|") == [""] + seq(n, _ => "----") + [""]
  {
    var dashes: seq<string> := seq(n, _ => "----");
    Framed(dashes);
    SplitJoin([""] + dashes + [""], '|');
  }

  // ---------------------------------------------------------------------------
  // the note

  /** The frontmatter block and the heading. */
  function Preamble(name: string): seq<string> {
    ["---", "table-roller: true", "---", "", "# " + name, ""]
  }

  /** The `private` and `reroll` directives, with a blank line after them when there are any. */
  function Directives(isPrivate: bool, reroll: Option<string>): (lines: seq<string>)
    ensures |lines| == (if isPrivate then 1 else 0) + (if TableParser.Truthy(reroll) then 1 else 0)
      + (if isPrivate || TableParser.Truthy(reroll) then 1 else 0)
    ensures isPrivate ==> lines[0] == "private: true"
    ensures TableParser.Truthy(reroll) ==> lines[if isPrivate then 1 else 0] == "reroll: " + reroll.value
    ensures |lines| > 0 ==> lines[|lines| - 1] == ""
  {
    (if isPrivate then ["private: true"] else [])
      + (if TableParser.Truthy(reroll) then ["reroll: " + reroll.value] else [])
      + (if isPrivate || TableParser.Truthy(reroll) then [""] else [])
  }

  function RowLines(rows: seq<RowData>, columns: seq<ColumnConfig>): (lines: seq<string>)
    ensures |lines| == |rows| && forall i | 0 <= i < |rows| :: lines[i] == PipeLine(CellTexts(rows[i], columns))
  {
    Map(rows, (row: RowData) => PipeLine(CellTexts(row, columns)))
  }

  /** The table itself: the header line, the separator line and one line per row. */
  function GridLines(s: TableState): seq<string> {
    [PipeLine(ColumnNames(s.columns)), SeparatorLine(|s.columns|)] + RowLines(s.rows, s.columns)
  }

  /** The lines `generateMarkdown` collects. */
  function MarkdownLines(s: TableState): seq<string> {
    Preamble(s.tableName) + Directives(s.isPrivate, s.tableReroll) + GridLines(s)
  }

  /** `generateMarkdown(state)`. */
  function GenerateMarkdown(s: TableState): string {
    Join(MarkdownLines(s), "\n")
  }

  /** Where the header line sits: after the preamble and the directives. */
  function HeaderAt(s: TableState): nat {
    6 + |Directives(s.isPrivate, s.tableReroll)|
  }

  /** A state whose every written line reads back: a heading text and
      cells that survive `trim` and hold no pipe or line break. */
  predicate Writable(s: TableState) {
    |s.columns| >= 1
    && s.tableName != "" && !IsWhitespace(s.tableName[0]) && NoLineTerminator(s.tableName)
    && (s.tableReroll.Some? ==> NoLineTerminator(s.tableReroll.value))
    && Cells(ColumnNames(s.columns)) && (forall j | 0 <= j < |s.columns| :: s.columns[j].name != "")
    && forall i | 0 <= i < |s.rows| :: Cells(CellTexts(s.rows[i], s.columns))
  }

  /** A line without line breaks holds no line feed. */
  lemma {:induction false} NoFeed(line: string)
    requires NoLineTerminator(line)
    ensures '\n' !in line
  {
    assert forall i | 0 <= i < |line| :: line[i] != '\n';
  }

  /** A pipe line of cells holds no line feed. */
  lemma {:induction false} PipeLineOneLine(cells: seq<string>)
    requires Cells(cells)
    ensures '\n' !in PipeLine(cells)
  {
    forall j | 0 <= j < |cells| ensures '\n' !in cells[j] {
      NoFeed(cells[j]);
    }
    JoinFree(cells, " | ", '\n');
  }

  /** Every collected line is a single line. */
  lemma {:induction false} LinesOneLine(s: TableState)
    requires Writable(s)
    ensures forall i | 0 <= i < |MarkdownLines(s)| :: '\n' !in MarkdownLines(s)[i]
  {
    NoFeed(s.tableName);
    if s.tableReroll.Some? {
      NoFeed(s.tableReroll.value);
    }
    PipeLineOneLine(ColumnNames(s.columns));
    assert '\n' !in SeparatorLine(|s.columns|) by {
      JoinFree(seq(|s.columns|, _ => "----"), "|", '\n');
    }
    var rows := RowLines(s.rows, s.columns);
    forall i | 0 <= i < |s.rows| ensures '\n' !in rows[i] {
      PipeLineOneLine(CellTexts(s.rows[i], s.columns));
    }
  }

  /** The note splits back into the collected lines. */
  lemma {:induction false} MarkdownLinesRead(s: TableState)
    requires Writable(s)
    ensures Split(GenerateMarkdown(s), "\n") == MarkdownLines(s)
  {
    LinesOneLine(s);
    SplitJoin(MarkdownLines(s), '\n');
  }

  /** The heading line gives the table name back. */
  lemma {:induction false} HeadingRead(name: string)
    requires name != "" && !IsWhitespace(name[0]) && NoLineTerminator(name)
    ensures Markdown.HeadingText("# " + name) == Some(name)
  {
    var line := "# " + name;
    assert Markdown.HashRun(line, 1) == 0;
    assert Markdown.HashRun(line, 0) == 1;
    SpaceRunFromExact(line, 1, 1);
    assert line[2..] == name;
    assert forall i | 2 <= i < |line| :: line[i] == name[i - 2];
  }

  /** The `reroll:` line gives the reroll text back. */
  lemma {:induction false} RerollLineRead(v: string)
    requires v != "" && !IsWhitespace(v[0]) && NoLineTerminator(v)
    ensures TableParser.RerollDirective("reroll: " + v) == Some(v)
  {
    var line := "reroll: " + v;
    assert line[..7] == "reroll:";
    assert ToLower("reroll:") == "reroll:";
    SpaceRunFromExact(line, 7, 1);
    assert line[8..] == v;
    assert forall i | 8 <= i < |line| :: line[i] == v[i - 8];
  }

  /** The `private:` line marks the table private. */
  lemma {:induction false} PrivateLineRead()
    ensures TableParser.PrivateDirective("private: true")
  {
    var line := "private: true";
    assert line[..8] == "private:";
    assert ToLower("private:") == "private:";
    SpaceRunFromExact(line, 8, 1);
    assert line[9..] == "true";
    assert ToLower("true") == "true";
  }

  /** Every line of the note reads back: the heading as the name, the header
      line as the column names, and each row line as its row's cells. */
  lemma {:induction false} MarkdownRead(s: TableState)
    requires Writable(s)
    ensures var lines := Split(GenerateMarkdown(s), "\n");
      |lines| == HeaderAt(s) + 2 + |s.rows|
      && Markdown.HeadingText(lines[4]) == Some(s.tableName)
      && Markdown.NonEmpty(Markdown.PipeCells(lines[HeaderAt(s)])) == ColumnNames(s.columns)
      && forall i | 0 <= i < |s.rows| ::
           TableParser.DataCells(lines[HeaderAt(s) + 2 + i], |s.columns|) == CellTexts(s.rows[i], s.columns)
  {
    MarkdownLinesRead(s);
    LinesShape(s);
    var lines := MarkdownLines(s);
    var h := HeaderAt(s);
    HeadingRead(s.tableName);
    HeaderLineRead(ColumnNames(s.columns));
    forall i | 0 <= i < |s.rows|
      ensures TableParser.DataCells(lines[h + 2 + i], |s.columns|) == CellTexts(s.rows[i], s.columns)
    {
      RowLineRead(CellTexts(s.rows[i], s.columns));
    }
  }

  /** The table written for a state reads back through `parseTable` as a
      grid whose headers are the column names and whose row `i` is built
      from row `i`'s cells; a table without rows does not read back, since
      `parseTable` wants a data line. */
  lemma {:induction false} GridRead(s: TableState)
    requires Writable(s)
    ensures MarkdownLines(s)[HeaderAt(s)..] == GridLines(s)
    ensures TableParser.ParseGrid(GridLines(s)).None? <==> |s.rows| == 0
    ensures TableParser.ParseGrid(GridLines(s)).Some? ==>
      var g := TableParser.ParseGrid(GridLines(s)).value;
      g.headers == ColumnNames(s.columns)
      && |g.rows| == |s.rows|
      && forall i | 0 <= i < |s.rows| :: g.rows[i] == TableParser.RowOf(ColumnNames(s.columns), CellTexts(s.rows[i], s.columns))
  {
    var lines := GridLines(s);
    var names := ColumnNames(s.columns);
    var body := RowLines(s.rows, s.columns);
    assert MarkdownLines(s)[HeaderAt(s)..] == lines;
    assert lines[2..] == body;
    HeaderLineRead(names);
    forall i | 0 <= i < |body| ensures TableParser.DataCells(body[i], |names|) == CellTexts(s.rows[i], s.columns) {
      RowLineRead(CellTexts(s.rows[i], s.columns));
    }
    TableParser.DataRowsAll(body, names);
  }

  /** The row built from a full line of cells holds, under a header no
      later header repeats, that header's cell. */
  lemma {:induction false} RowCell(names: seq<string>, cells: seq<string>, row: Records.Record<string>, j: nat)
    requires row == TableParser.RowOf(names, cells)
    requires |cells| == |names| && j < |names|
    requires forall h | j < h < |names| :: names[h] != names[j]
    ensures Records.Get(row, names[j]) == Some(cells[j])
  {
    TableParser.RowOfCell(names, cells, j);
  }

  /** Read back through `parseTable`, row `i` holds under each column name
      the text of that row's cell, when no later column has the same name. */
  lemma {:induction false} GridCellRead(s: TableState, i: nat, j: nat)
    requires Writable(s)
    requires i < |s.rows| && j < |s.columns|
    requires forall h | j < h < |s.columns| :: s.columns[h].name != s.columns[j].name
    ensures TableParser.ParseGrid(GridLines(s)).Some?
    ensures |TableParser.ParseGrid(GridLines(s)).value.rows| == |s.rows|
    ensures Records.Get(TableParser.ParseGrid(GridLines(s)).value.rows[i], s.columns[j].name)
      == Some(CellText(s.rows[i], CellKey(s.columns[j])))
  {
    GridRead(s);
    var g := TableParser.ParseGrid(GridLines(s)).value;
    RowCell(ColumnNames(s.columns), CellTexts(s.rows[i], s.columns), g.rows[i], j);
  }

  /** A written row line reads back through `parseRow` as its cells. */
  lemma {:induction false} LegacyRowRead(cells: seq<string>)
    requires |cells| >= 1 && Cells(cells)
    ensures LegacyParser.ParseRow(PipeLine(cells)) == cells
  {
    PipeCellsRead(cells);
  }

  /** The table written for a state reads back through the command-line
      parser as a grid whose headers are the column names and whose row `i`
      is built from row `i`'s cells, rows or none. */
  lemma {:induction false} LegacyGridRead(s: TableState)
    requires Writable(s)
    ensures LegacyParser.ParseTable(GridLines(s)).Some?
    ensures var g := LegacyParser.ParseTable(GridLines(s)).value;
      g.headers == ColumnNames(s.columns)
      && |g.rows| == |s.rows|
      && forall i | 0 <= i < |s.rows| :: g.rows[i] == TableParser.RowOf(ColumnNames(s.columns), CellTexts(s.rows[i], s.columns))
  {
    var lines := GridLines(s);
    var names := ColumnNames(s.columns);
    var body := RowLines(s.rows, s.columns);
    assert lines[2..] == body;
    LegacyRowRead(names);
    forall i | 0 <= i < |body| ensures LegacyParser.ParseRow(body[i]) == CellTexts(s.rows[i], s.columns) {
      LegacyRowRead(CellTexts(s.rows[i], s.columns));
    }
    LegacyParser.DataRowsAll(body, names);
  }

  /** Read back through the command-line parser, row `i` holds under each
      column name the text of that row's cell, when no later column has the
      same name. */
  lemma {:induction false} LegacyCellRead(s: TableState, i: nat, j: nat)
    requires Writable(s)
    requires i < |s.rows| && j < |s.columns|
    requires forall h | j < h < |s.columns| :: s.columns[h].name != s.columns[j].name
    ensures LegacyParser.ParseTable(GridLines(s)).Some?
    ensures |LegacyParser.ParseTable(GridLines(s)).value.rows| == |s.rows|
    ensures Records.Get(LegacyParser.ParseTable(GridLines(s)).value.rows[i], s.columns[j].name)
      == Some(CellText(s.rows[i], CellKey(s.columns[j])))
  {
    LegacyGridRead(s);
    var g := LegacyParser.ParseTable(GridLines(s)).value;
    RowCell(ColumnNames(s.columns), CellTexts(s.rows[i], s.columns), g.rows[i], j);
  }

  /** Where each part of the note sits among its lines. */
  lemma {:induction false} LinesShape(s: TableState)
    ensures var lines := MarkdownLines(s);
      |lines| == HeaderAt(s) + 2 + |s.rows|
      && lines[4] == "# " + s.tableName
      && lines[HeaderAt(s)] == PipeLine(ColumnNames(s.columns))
      && forall i | 0 <= i < |s.rows| :: lines[HeaderAt(s) + 2 + i] == PipeLine(CellTexts(s.rows[i], s.columns))
  {
    var lines := MarkdownLines(s);
    var h := HeaderAt(s);
    assert lines[4] == "# " + s.tableName;
    assert lines[h] == PipeLine(ColumnNames(s.columns));
    forall i | 0 <= i < |s.rows|
      ensures lines[h + 2 + i] == PipeLine(CellTexts(s.rows[i], s.columns))
    {
      assert lines[h + 2 + i] == RowLines(s.rows, s.columns)[i];
    }
  }

  /** The directive lines read back as the private flag and the reroll text. */
  lemma {:induction false} DirectivesRead(s: TableState)
    requires s.tableReroll.Some? ==> s.tableReroll.value != "" ==> !IsWhitespace(s.tableReroll.value[0]) && NoLineTerminator(s.tableReroll.value)
    ensures var lines := MarkdownLines(s);
      (s.isPrivate ==> TableParser.PrivateDirective(lines[6]))
      && (TableParser.Truthy(s.tableReroll) ==>
            TableParser.RerollDirective(lines[if s.isPrivate then 7 else 6]) == s.tableReroll)
  {
    var d := Directives(s.isPrivate, s.tableReroll);
    var lines := MarkdownLines(s);
    assert forall i | 0 <= i < |d| :: lines[6 + i] == d[i];
    if s.isPrivate {
      PrivateLineRead();
    }
    if TableParser.Truthy(s.tableReroll) {
      RerollLineRead(s.tableReroll.value);
    }
  }
}
