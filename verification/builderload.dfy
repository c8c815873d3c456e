/** The two ways src/ui/io/TableBuilderIO.ts fills the builder from outside
    the builder: `loadParsedTable`, which turns a table the parser read from
    a note back into builder state, and `importFromClipboard`, which reads
    a pasted Markdown pipe table. The parsed note, the clipboard text and
    the notices are parameters or left out. */
module BuilderLoad {
  import opened Outcomes
  import opened Strings
  import opened Records
  import opened Seqs
  import opened Columns
  import Markdown
  import MarkdownExport
  import TableParser
  import Tables
  import Ranges

  // ---------------------------------------------------------------------------
  // loadParsedTable

  /** The column for a key of a parsed table: a reroll column when the name
      is `reroll` in any case, a regular column otherwise. */
  function LoadedColumn(name: string): (c: ColumnConfig)
    ensures c.name == name && c.diceNotation.None? && c.kind != DiceType
    ensures c.kind == RerollType <==> ToLower(name) == "reroll"
  {
    if ToLower(name) == "reroll" then ColumnConfig(name, RerollType, None)
    else ColumnConfig(name, RegularType, None)
  }

  function LoadedColumns(names: seq<string>): (cs: seq<ColumnConfig>)
    ensures |cs| == |names| && forall j | 0 <= j < |names| :: cs[j] == LoadedColumn(names[j])
  {
    seq(|names|, j requires 0 <= j < |names| => LoadedColumn(names[j]))
  }

  /** The row for a dice entry: the range as text, then every column of
      the entry, then the entry's reroll when it is not empty. */
  function EntryRow(e: Tables.DiceEntry): (row: RowData)
    ensures UniqueKeys(row)
  {
    var base := PutAll([(RangeKey, Ranges.RenderRange(e.min, e.max))], e.columns);
    if TableParser.Truthy(e.reroll) then Put(base, "reroll", e.reroll.value) else base
  }

  /** A key's value after the entry's columns are written over a record:
      the entry's value when the entry has the key, the record's otherwise. */
  lemma {:induction false} PutAllGet(r: RowData, cols: Record<string>, k: string)
    requires UniqueKeys(cols)
    ensures Get(PutAll(r, cols), k) == if HasKey(cols, k) then Get(cols, k) else Get(r, k)
  {
    if HasKey(cols, k) {
      var i := IndexOf(cols, k).value;
      GetAt(cols, i);
      PutAllLastWins(r, cols, i);
    } else {
      PutAllKeeps(r, cols, k);
    }
  }

  /** Every cell of an entry's row: the reroll when the entry has one, then
      the entry's own columns, then the range text; no other key is set. */
  lemma {:induction false} EntryRowGet(e: Tables.DiceEntry, k: string)
    requires UniqueKeys(e.columns)
    ensures Get(EntryRow(e), k) ==
      if k == "reroll" && TableParser.Truthy(e.reroll) then Some(e.reroll.value)
      else if HasKey(e.columns, k) then Get(e.columns, k)
      else if k == RangeKey then Some(Ranges.RenderRange(e.min, e.max))
      else None
  {
    var base: RowData := [(RangeKey, Ranges.RenderRange(e.min, e.max))];
    PutAllGet(base, e.columns, k);
    GetAt(base, 0);
    if k != RangeKey {
      assert !HasKey(base, k);
    }
  }

  /** The range cell of an entry's row reads back, through the parser's
      range reading, as the entry's bounds, unless a column of the entry is
      itself called `range`. */
  lemma {:induction false} EntryRangeRead(e: Tables.DiceEntry)
    requires UniqueKeys(e.columns) && !HasKey(e.columns, RangeKey)
    ensures Ranges.ParserRange(CellText(EntryRow(e), RangeKey)) == Ranges.Bounds(e.min, e.max)
  {
    EntryRowGet(e, RangeKey);
    Ranges.ParserRangeRender(e.min, e.max);
  }

  /** The columns after the dice column: the keys of the first entry. */
  function EntryColumnNames(entries: seq<Tables.DiceEntry>): seq<string> {
    if |entries| > 0 then KeysOf(entries[0].columns) else []
  }

  /** `loadParsedTable(tableName, table)`: the state the builder takes. */
  function LoadParsedTable(name: string, t: Tables.Table): (s: TableState)
    ensures s.tableName == name && s.isPrivate == t.isPrivate && s.tableReroll == t.reroll
    ensures t.DiceTable? ==>
      |s.columns| == 1 + |EntryColumnNames(t.entries)|
      && s.columns[0] == ColumnConfig(t.dice, DiceType, Some(t.dice))
      && (forall j | 1 <= j < |s.columns| :: s.columns[j] == LoadedColumn(EntryColumnNames(t.entries)[j - 1]))
      && |s.rows| == |t.entries| && forall i | 0 <= i < |t.entries| :: s.rows[i] == EntryRow(t.entries[i])
    ensures t.SimpleTable? ==>
      ColumnNames(s.columns) == t.headers && s.rows == t.rows
      && forall j | 0 <= j < |t.headers| :: s.columns[j] == LoadedColumn(t.headers[j])
  {
    match t
    case DiceTable(dice, entries, reroll, isPrivate) =>
      var columns := [ColumnConfig(dice, DiceType, Some(dice))] + LoadedColumns(EntryColumnNames(entries));
      TableState(name, columns, Map(entries, EntryRow), isPrivate, reroll)
    case SimpleTable(headers, rows, reroll, isPrivate) =>
      TableState(name, LoadedColumns(headers), rows, isPrivate, reroll)
  }

  /** The cell a non-dice column shows for an entry's row: the entry's
      reroll under `reroll` when it has one, the entry's own value otherwise. */
  lemma {:induction false} EntryCell(e: Tables.DiceEntry, c: ColumnConfig)
    requires UniqueKeys(e.columns) && c.kind != DiceType && c.name != RangeKey
    ensures CellText(EntryRow(e), CellKey(c))
      == if c.name == "reroll" && TableParser.Truthy(e.reroll) then e.reroll.value else CellText(e.columns, c.name)
  {
    EntryRowGet(e, c.name);
  }

  /** What the builder shows for a loaded dice entry is the entry: the
      range cell reads back as its bounds, and every other column's cell is
      the entry's value under that column's name (a `reroll` column shows
      the entry's reroll when it has one, and a column named `range` shows
      the range). */
  lemma {:induction false} LoadedDiceCells(name: string, t: Tables.Table, i: nat)
    requires t.DiceTable? && i < |t.entries|
    requires UniqueKeys(t.entries[i].columns) && !HasKey(t.entries[i].columns, RangeKey)
    ensures var s := LoadParsedTable(name, t);
      var e := t.entries[i];
      var cells := CellTexts(s.rows[i], s.columns);
      Ranges.ParserRange(cells[0]) == Ranges.Bounds(e.min, e.max)
      && forall j | 1 <= j < |s.columns| && s.columns[j].name != RangeKey ::
           cells[j] == (if s.columns[j].name == "reroll" && TableParser.Truthy(e.reroll) then e.reroll.value
                        else CellText(e.columns, s.columns[j].name))
  {
    var s := LoadParsedTable(name, t);
    var e := t.entries[i];
    var row := s.rows[i];
    assert row == EntryRow(e);
    EntryRangeRead(e);
    forall j | 1 <= j < |s.columns| && s.columns[j].name != RangeKey
      ensures CellText(row, CellKey(s.columns[j]))
        == (if s.columns[j].name == "reroll" && TableParser.Truthy(e.reroll) then e.reroll.value
            else CellText(e.columns, s.columns[j].name))
    {
      EntryCell(e, s.columns[j]);
    }
  }

  // ---------------------------------------------------------------------------
  // importFromClipboard

  /** `l.trim().includes('|')`. */
  predicate HasPipe(line: string) {
    '|' in Trim(line)
  }

  /** The lines of the pasted text that hold a pipe. */
  function PipedLines(text: string): (lines: seq<string>)
    ensures forall i | 0 <= i < |lines| :: HasPipe(lines[i])
    ensures Filtered(lines, Split(text, "\n"), HasPipe)
  {
    Filter(Split(text, "\n"), HasPipe)
  }

  /** The column for a pasted header: dice for a notation such as `d20` or
      `2d6` (kept in lower case), reroll for `reroll` in any case, regular
      otherwise. */
  function ImportColumn(h: string): (c: ColumnConfig)
    ensures c.name == h
    ensures c.kind == DiceType <==> TableParser.IsDiceHeader(h)
    ensures c.kind == RerollType <==> !TableParser.IsDiceHeader(h) && TableParser.IsRerollHeader(h)
    ensures c.kind == DiceType ==> c.diceNotation == Some(ToLower(h))
  {
    if TableParser.IsDiceHeader(h) then ColumnConfig(h, DiceType, Some(ToLower(h)))
    else if TableParser.IsRerollHeader(h) then ColumnConfig(h, RerollType, None)
    else ColumnConfig(h, RegularType, None)
  }

  function ImportColumns(headers: seq<string>): (cs: seq<ColumnConfig>)
    ensures |cs| == |headers| && forall j | 0 <= j < |headers| :: cs[j] == ImportColumn(headers[j])
    ensures ColumnNames(cs) == headers
  {
    seq(|headers|, j requires 0 <= j < |headers| => ImportColumn(headers[j]))
  }

  /** The row a pasted line gives: each column's key gets the column's
      cell, or `''` past the end of a short line. */
  function CellRow(columns: seq<ColumnConfig>, cells: seq<string>): (row: RowData)
    ensures UniqueKeys(row)
  {
    PutAll([], seq(|columns|, j requires 0 <= j < |columns| => (CellKey(columns[j]), TableParser.CellOr(cells, j))))
  }

  /** Columns whose cells go under different keys. */
  predicate DistinctKeys(columns: seq<ColumnConfig>) {
    forall j, k | 0 <= j < k < |columns| :: CellKey(columns[j]) != CellKey(columns[k])
  }

  /** With distinct keys every column reads its own cell back from the row. */
  lemma {:induction false} CellRowGet(columns: seq<ColumnConfig>, cells: seq<string>, j: nat)
    requires DistinctKeys(columns) && j < |columns|
    ensures Get(CellRow(columns, cells), CellKey(columns[j])) == Some(TableParser.CellOr(cells, j))
  {
    var pairs := seq(|columns|, j requires 0 <= j < |columns| => (CellKey(columns[j]), TableParser.CellOr(cells, j)));
    PutAllLastWins([], pairs, j);
  }

  /** The rows of the pasted lines after the separator: a line with no cell
      after its first pipe is skipped. */
  function ImportRows(columns: seq<ColumnConfig>, lines: seq<string>): (rows: seq<RowData>)
    ensures |rows| <= |lines|
    ensures (forall i | 0 <= i < |lines| :: |TableParser.DataCells(lines[i], |columns|)| > 0) ==>
      |rows| == |lines| && forall i | 0 <= i < |lines| :: rows[i] == CellRow(columns, TableParser.DataCells(lines[i], |columns|))
    decreases |lines|
  {
    if |lines| == 0 then []
    else
      var cells := TableParser.DataCells(lines[0], |columns|);
      var rest := ImportRows(columns, lines[1..]);
      assert forall i | 1 <= i < |lines| :: lines[1..][i - 1] == lines[i];
      if |cells| > 0 then [CellRow(columns, cells)] + rest else rest
  }

  /** The row a kept pasted line becomes. */
  function RowFrom(columns: seq<ColumnConfig>): string -> RowData {
    line => CellRow(columns, TableParser.DataCells(line, |columns|))
  }

  /** The rows are the rows of the pasted lines that keep some cell, in line
      order, one for each such line. */
  lemma {:induction false} ImportRowsInOrder(columns: seq<ColumnConfig>, lines: seq<string>)
    ensures ImportRows(columns, lines) == Map(Filter(lines, TableParser.HasCells(|columns|)), RowFrom(columns))
    ensures exists kept :: Filtered(kept, lines, TableParser.HasCells(|columns|)) && ImportRows(columns, lines) == Map(kept, RowFrom(columns))
    decreases |lines|
  {
    var p := TableParser.HasCells(|columns|);
    var f := RowFrom(columns);
    if |lines| > 0 {
      ImportRowsInOrder(columns, lines[1..]);
      assert p(lines[0]) == (|TableParser.DataCells(lines[0], |columns|)| > 0);
      assert f(lines[0]) == CellRow(columns, TableParser.DataCells(lines[0], |columns|));
      MapCons(lines[0], Filter(lines[1..], p), f);
    }
    assert Filtered(Filter(lines, p), lines, p);
  }

  /** `importFromClipboard()` on the pasted text: nothing when fewer than
      two lines hold a pipe or the first of them has no header, otherwise an
      `Imported Table` of the columns the headers name and the rows of the
      lines after the second. */
  function ImportFromClipboard(text: string): (r: Option<TableState>)
    ensures var lines := PipedLines(text);
      r.None? <==> |lines| < 2 || Markdown.NonEmpty(Markdown.PipeCells(lines[0])) == []
    ensures r.Some? ==>
      var lines := PipedLines(text);
      var headers := Markdown.NonEmpty(Markdown.PipeCells(lines[0]));
      r.value == TableState("Imported Table", ImportColumns(headers), ImportRows(ImportColumns(headers), lines[2..]), false, None)
  {
    var lines := PipedLines(text);
    if |lines| < 2 then None
    else
      var headers := Markdown.NonEmpty(Markdown.PipeCells(lines[0]));
      if headers == [] then None
      else
        var columns := ImportColumns(headers);
        Some(TableState("Imported Table", columns, ImportRows(columns, lines[2..]), false, None))
  }

  /** A pipe line or separator line holds its pipe after trimming. */
  lemma {:induction false} FramedHasPipe(line: string)
    requires |line| >= 2 && line[0] == '|' && line[|line| - 1] == '|'
    ensures HasPipe(line)
  {
    assert TrimmedAt(line, line, 0);
    TrimUnique(line, line, 0);
  }

  /** Every line of the block holds a pipe and no line feed. */
  lemma {:induction false} GridLinesPiped(s: TableState)
    requires MarkdownExport.Writable(s)
    ensures forall i | 0 <= i < |MarkdownExport.GridLines(s)| :: HasPipe(MarkdownExport.GridLines(s)[i]) && '\n' !in MarkdownExport.GridLines(s)[i]
  {
    var b := MarkdownExport.GridLines(s);
    var rows := MarkdownExport.RowLines(s.rows, s.columns);
    MarkdownExport.PipeLineOneLine(ColumnNames(s.columns));
    assert '\n' !in MarkdownExport.SeparatorLine(|s.columns|) by {
      JoinFree(seq(|s.columns|, _ => "----"), "|", '\n');
    }
    forall i | 0 <= i < |b| ensures HasPipe(b[i]) && '\n' !in b[i] {
      if i >= 2 {
        assert b[i] == rows[i - 2];
        MarkdownExport.PipeLineOneLine(CellTexts(s.rows[i - 2], s.columns));
      }
      FramedHasPipe(b[i]);
    }
  }

  /** The pasted block keeps all its lines. */
  lemma {:induction false} BlockPiped(s: TableState)
    requires MarkdownExport.Writable(s)
    ensures PipedLines(Join(MarkdownExport.GridLines(s), "\n")) == MarkdownExport.GridLines(s)
  {
    GridLinesPiped(s);
    SplitJoin(MarkdownExport.GridLines(s), '\n');
    FilterAll(MarkdownExport.GridLines(s), HasPipe);
  }

  /** The import reads the header line's names and the rows of the lines
      after the separator. */
  lemma {:induction false} ImportBlock(s: TableState)
    requires MarkdownExport.Writable(s)
    ensures var columns := ImportColumns(ColumnNames(s.columns));
      ImportFromClipboard(Join(MarkdownExport.GridLines(s), "\n"))
        == Some(TableState("Imported Table", columns, ImportRows(columns, MarkdownExport.RowLines(s.rows, s.columns)), false, None))
  {
    var b := MarkdownExport.GridLines(s);
    BlockPiped(s);
    MarkdownExport.HeaderLineRead(ColumnNames(s.columns));
    assert b[0] == MarkdownExport.PipeLine(ColumnNames(s.columns));
    assert b[2..] == MarkdownExport.RowLines(s.rows, s.columns);
  }

  /** Each row line of the block gives the row of its cells. */
  lemma {:induction false} ImportBlockRows(s: TableState, columns: seq<ColumnConfig>)
    requires MarkdownExport.Writable(s) && |columns| == |s.columns|
    ensures var rows := ImportRows(columns, MarkdownExport.RowLines(s.rows, s.columns));
      |rows| == |s.rows| && forall i | 0 <= i < |s.rows| :: rows[i] == CellRow(columns, CellTexts(s.rows[i], s.columns))
  {
    var rowLines := MarkdownExport.RowLines(s.rows, s.columns);
    forall i | 0 <= i < |rowLines|
      ensures TableParser.DataCells(rowLines[i], |columns|) == CellTexts(s.rows[i], s.columns)
    {
      MarkdownExport.RowLineRead(CellTexts(s.rows[i], s.columns));
    }
  }

  /** Importing the pipe block the builder writes for a state gives back
      its column names and, column by column, every cell of every row, when
      the detected columns keep their cells under different keys. */
  lemma {:induction false} ImportRoundTrip(s: TableState)
    requires MarkdownExport.Writable(s)
    requires DistinctKeys(ImportColumns(ColumnNames(s.columns)))
    ensures var r := ImportFromClipboard(Join(MarkdownExport.GridLines(s), "\n"));
      r.Some? && ColumnNames(r.value.columns) == ColumnNames(s.columns) && |r.value.rows| == |s.rows|
      && forall i, j | 0 <= i < |s.rows| && 0 <= j < |s.columns| ::
           CellText(r.value.rows[i], CellKey(r.value.columns[j])) == CellTexts(s.rows[i], s.columns)[j]
  {
    var columns := ImportColumns(ColumnNames(s.columns));
    ImportBlock(s);
    ImportBlockRows(s, columns);
    var rows := ImportRows(columns, MarkdownExport.RowLines(s.rows, s.columns));
    forall i, j | 0 <= i < |s.rows| && 0 <= j < |s.columns|
      ensures CellText(rows[i], CellKey(columns[j])) == CellTexts(s.rows[i], s.columns)[j]
    {
      CellRowGet(columns, CellTexts(s.rows[i], s.columns), j);
    }
  }
}
