/** `TableParser` of tableParser.js, the parser of the command-line
    generation: every table of a Markdown text, by name, as headers and
    rows of cells. A heading names the next table; a table without one is
    named after a default name and a running count. */
module LegacyParser {
  import opened Outcomes
  import opened Strings
  import opened Records
  import opened Markdown
  import opened Seqs
  import TableParser

  /** `{ headers, rows }`. */
  type Grid = TableParser.Grid

  /** `parseRow`: the trimmed pipe-separated pieces without the first and the last. */
  function ParseRow(line: string): (cells: seq<string>)
    ensures |PipeCells(line)| >= 2 ==> |cells| == |PipeCells(line)| - 2
    ensures |PipeCells(line)| < 2 ==> cells == []
    ensures forall i | 0 <= i < |cells| :: cells[i] == PipeCells(line)[i + 1]
  {
    var all := PipeCells(line);
    if |all| < 2 then [] else all[1..|all| - 1]
  }

  /** The rows of `parseTable`: one per line with at least one cell, each header mapped to its cell or ''. */
  function DataRows(lines: seq<string>, headers: seq<string>): (rows: seq<Record<string>>)
    ensures |rows| <= |lines|
    ensures forall i | 0 <= i < |rows| :: UniqueKeys(rows[i])
    ensures (forall i | 0 <= i < |lines| :: ParseRow(lines[i]) != []) ==> |rows| == |lines|
    decreases |lines|
  {
    if |lines| == 0 then []
    else
      var cells := ParseRow(lines[0]);
      var rest := DataRows(lines[1..], headers);
      assert forall i | 1 <= i < |lines| :: lines[i] == lines[1..][i - 1];
      if |cells| > 0 then [TableParser.RowOf(headers, cells)] + rest else rest
  }

  /** The test `parseTable` puts to a data line: is its row non-empty. */
  function HasRow(): string -> bool {
    line => ParseRow(line) != []
  }

  /** The row a kept data line becomes. */
  function RowFrom(headers: seq<string>): string -> Record<string> {
    line => TableParser.RowOf(headers, ParseRow(line))
  }

  /** The rows are the rows of the lines with a non-empty row, in line
      order, one for each such line. */
  lemma {:induction false} DataRowsInOrder(lines: seq<string>, headers: seq<string>)
    ensures DataRows(lines, headers) == Map(Filter(lines, HasRow()), RowFrom(headers))
    ensures exists kept :: Filtered(kept, lines, HasRow()) && DataRows(lines, headers) == Map(kept, RowFrom(headers))
    decreases |lines|
  {
    var p := HasRow();
    var f := RowFrom(headers);
    if |lines| > 0 {
      DataRowsInOrder(lines[1..], headers);
      assert p(lines[0]) == (ParseRow(lines[0]) != []);
      assert f(lines[0]) == TableParser.RowOf(headers, ParseRow(lines[0]));
      MapCons(lines[0], Filter(lines[1..], p), f);
    }
    assert Filtered(Filter(lines, p), lines, p);
  }

  /** When every data line has a non-empty row, row `k` is the row of line `k`. */
  lemma {:induction false} DataRowsAll(lines: seq<string>, headers: seq<string>)
    requires forall i | 0 <= i < |lines| :: ParseRow(lines[i]) != []
    ensures |DataRows(lines, headers)| == |lines|
    ensures forall k | 0 <= k < |lines| :: DataRows(lines, headers)[k] == TableParser.RowOf(headers, ParseRow(lines[k]))
  {
    DataRowsInOrder(lines, headers);
    var p := HasRow();
    var f := RowFrom(headers);
    assert forall i | 0 <= i < |lines| :: p(lines[i]);
    FilterAll(lines, p);
    var rows := Map(lines, f);
    assert DataRows(lines, headers) == rows;
    forall k | 0 <= k < |lines| ensures rows[k] == TableParser.RowOf(headers, ParseRow(lines[k])) {
      assert rows[k] == f(lines[k]);
    }
  }

  /** When every data line has a non-empty row, each header reads the cell
      of its own line under it, or '' when that line is short; a repeated
      header reads the cell of its last occurrence. */
  lemma {:induction false} DataRowsCell(lines: seq<string>, headers: seq<string>, k: nat, j: nat)
    requires forall i | 0 <= i < |lines| :: ParseRow(lines[i]) != []
    requires k < |lines| && j < |headers|
    requires forall h | j < h < |headers| :: headers[h] != headers[j]
    ensures |DataRows(lines, headers)| == |lines|
    ensures Get(DataRows(lines, headers)[k], headers[j]) == Some(TableParser.CellOr(ParseRow(lines[k]), j))
  {
    DataRowsAll(lines, headers);
    TableParser.RowOfCell(headers, ParseRow(lines[k]), j);
  }

  /** `parseTable`: `null` for fewer than two lines; the second line is the separator. */
  function ParseTable(lines: seq<string>): (o: Option<Grid>)
    ensures o.None? <==> |lines| < 2
    ensures o.Some? ==> o.value.headers == ParseRow(lines[0])
    ensures o.Some? ==> o.value.rows == DataRows(lines[2..], ParseRow(lines[0]))
  {
    if |lines| < 2 then None
    else Some(TableParser.Grid(ParseRow(lines[0]), DataRows(lines[2..], ParseRow(lines[0]))))
  }

  /** The name of the `count`-th table without a heading. */
  function DefaultTableName(defaultName: string, count: nat): (name: string)
    ensures count == 1 ==> name == defaultName
    ensures count != 1 ==> name == defaultName + NatToString(count)
  {
    if count == 1 then defaultName else defaultName + NatToString(count)
  }

  /** The loop state of `parseTables`. */
  datatype ScanState = ScanState(
    tables: Record<Grid>,
    name: Option<string>,
    block: seq<string>,
    inTable: bool,
    count: nat)

  /** A pipe line: it joins the current table or starts a new one. */
  function OnPipe(st: ScanState, line: string, defaultName: string): (st': ScanState)
    ensures st'.inTable && st'.tables == st.tables
    ensures st'.block == (if st.inTable then st.block else []) + [line]
    ensures !st.inTable && !TableParser.Truthy(st.name) ==>
      st'.count == st.count + 1 && st'.name == Some(DefaultTableName(defaultName, st.count + 1))
    ensures st.inTable || TableParser.Truthy(st.name) ==> st'.count == st.count && st'.name == st.name
  {
    var st1 :=
      if st.inTable then st
      else if TableParser.Truthy(st.name) then st.(inTable := true, block := [])
      else st.(inTable := true, block := [], count := st.count + 1, name := Some(DefaultTableName(defaultName, st.count + 1)));
    st1.(block := st1.block + [line])
  }

  /** Storing a finished table under its name, when it parses and a name is set. */
  function Flush(st: ScanState): (tables: Record<Grid>)
    ensures ParseTable(st.block).Some? && TableParser.Truthy(st.name) ==>
      tables == Put(st.tables, st.name.value, ParseTable(st.block).value)
    ensures ParseTable(st.block).None? || !TableParser.Truthy(st.name) ==> tables == st.tables
  {
    match ParseTable(st.block)
    case Some(g) => if TableParser.Truthy(st.name) then Put(st.tables, st.name.value, g) else st.tables
    case None => st.tables
  }

  /** Any other line ends the table being collected, and its name is forgotten. */
  function OnOther(st: ScanState): (st': ScanState)
    ensures st.inTable && st.block != [] ==>
      st'.tables == Flush(st) && !st'.inTable && st'.block == [] && st'.name.None? && st'.count == st.count
    ensures !(st.inTable && st.block != []) ==> st' == st
  {
    if st.inTable && |st.block| > 0 then st.(tables := Flush(st), inTable := false, block := [], name := None)
    else st
  }

  /** One trimmed line of the loop in `parseTables`. A heading only sets the
      name, even in the middle of a table, which it does not end. */
  function StepLine(st: ScanState, line: string, defaultName: string): ScanState {
    match HeadingText(line)
    case Some(h) => st.(name := Some(Trim(h)))
    case None => if HasPipe(line) then OnPipe(st, line, defaultName) else OnOther(st)
  }

  function ScanLines(st: ScanState, lines: seq<string>, defaultName: string): ScanState
    decreases |lines|
  {
    if |lines| == 0 then st else ScanLines(StepLine(st, Trim(lines[0]), defaultName), lines[1..], defaultName)
  }

  /** After the last line: a table still open is stored, named by default if it has no name. */
  function Finish(st: ScanState, defaultName: string): (tables: Record<Grid>)
    ensures !(st.inTable && st.block != []) ==> tables == st.tables
    ensures st.inTable && st.block != [] && TableParser.Truthy(st.name) ==>
      tables == Flush(st)
  {
    if st.inTable && |st.block| > 0 then
      var st1 :=
        if TableParser.Truthy(st.name) then st
        else st.(count := st.count + 1, name := Some(DefaultTableName(defaultName, st.count + 1)));
      match ParseTable(st1.block)
      case Some(g) => Put(st1.tables, st1.name.value, g)
      case None => st1.tables
    else st.tables
  }

  const Start: ScanState := ScanState([], None, [], false, 0)

  /** `TableParser.parseTables(content, defaultName)`. */
  function ParseTables(content: string, defaultName: string): (tables: Record<Grid>)
    ensures UniqueKeys(tables)
  {
    var st := ScanLines(Start, Split(content, "\n"), defaultName);
    ScanLinesUnique(Start, Split(content, "\n"), defaultName);
    Finish(st, defaultName)
  }

  lemma {:induction false} ScanLinesUnique(st: ScanState, lines: seq<string>, defaultName: string)
    requires UniqueKeys(st.tables)
    ensures UniqueKeys(ScanLines(st, lines, defaultName).tables)
    decreases |lines|
  {
    if |lines| > 0 {
      ScanLinesUnique(StepLine(st, Trim(lines[0]), defaultName), lines[1..], defaultName);
    }
  }

  /** A heading names only the table that follows it: once that table ends, the name is gone. */
  lemma {:induction false} TableEndForgetsName(st: ScanState, line: string, defaultName: string)
    requires st.inTable && st.block != []
    requires HeadingText(line).None? && !HasPipe(line)
    ensures StepLine(st, line, defaultName).name.None?
    ensures !StepLine(st, line, defaultName).inTable
  {
  }

  /** A pipe line with no name set starts the next numbered table. */
  lemma {:induction false} UnnamedTableNumbered(st: ScanState, line: string, defaultName: string)
    requires !st.inTable && st.name.None?
    requires HeadingText(line).None? && HasPipe(line)
    ensures StepLine(st, line, defaultName).name == Some(DefaultTableName(defaultName, st.count + 1))
  {
  }

  /** A table that runs to the end of the input is stored under its name, replacing any earlier one. */
  lemma {:induction false} LastTableStored(st: ScanState, defaultName: string)
    requires st.inTable && |st.block| >= 2 && TableParser.Truthy(st.name)
    ensures Get(Finish(st, defaultName), st.name.value) == ParseTable(st.block)
  {
  }
}
