/** `TableParser` of src/services/TableParser.ts: a Markdown document with
    frontmatter becomes named tables. Headings name the next table, `reroll:`
    and `private:` lines after a heading set table options, consecutive lines
    holding a pipe form a table, and a table whose headers include a dice
    notation becomes a dice table whose rows carry ranges. */
module TableParser {
  import opened Outcomes
  import opened Strings
  import opened Records
  import opened Markdown
  import opened Frontmatter
  import opened Ranges
  import Dice
  import opened Tables
  import opened Seqs

  /** The result of `parseTable`: `{ headers, rows }`. */
  datatype Grid = Grid(headers: seq<string>, rows: seq<Record<string>>)

  /** The result of `parseTables`. */
  datatype ParsedTable = ParsedTable(
    tables: Record<Table>,
    frontmatter: Record<FmValue>,
    isTableFile: bool,
    namespace: string)

  /** JavaScript truthiness of an optional string. */
  predicate Truthy(o: Option<string>) {
    o.Some? && o.value != ""
  }

  /** `if (x) table.reroll = x`: only a non-empty text is kept. */
  function KeepTruthy(o: Option<string>): (r: Option<string>)
    ensures r.Some? <==> Truthy(o)
    ensures r.Some? ==> r == o
  {
    if Truthy(o) then o else None
  }

  // ---------------------------------------------------------------------------
  // parseTable

  /** `.filter((_, idx) => idx > 0 && idx <= width)` on the trimmed pipe cells. */
  function DataCells(line: string, width: nat): (cells: seq<string>)
    ensures |cells| <= width && |cells| <= |PipeCells(line)| - 1
    ensures |cells| == width || |cells| == |PipeCells(line)| - 1
    ensures forall i | 0 <= i < |cells| :: cells[i] == PipeCells(line)[i + 1]
  {
    var all := PipeCells(line);
    all[1..if |all| < width + 1 then |all| else width + 1]
  }

  /** `cells[idx] || ''`. */
  function CellOr(cells: seq<string>, i: nat): string {
    if i < |cells| then cells[i] else ""
  }

  /** `headers.forEach((header, idx) => { row[header] = cells[idx] || '' })`. */
  function RowOf(headers: seq<string>, cells: seq<string>): (row: Record<string>)
    ensures UniqueKeys(row)
  {
    PutAll([], seq(|headers|, i requires 0 <= i < |headers| => (headers[i], CellOr(cells, i))))
  }

  /** Every header maps to its own cell, or to '' when the line is short;
      a repeated header takes the cell of its last occurrence. */
  lemma {:induction false} RowOfCell(headers: seq<string>, cells: seq<string>, i: nat)
    requires i < |headers|
    requires forall j | i < j < |headers| :: headers[j] != headers[i]
    ensures Get(RowOf(headers, cells), headers[i]) == Some(CellOr(cells, i))
  {
    var pairs := seq(|headers|, i requires 0 <= i < |headers| => (headers[i], CellOr(cells, i)));
    PutAllLastWins([], pairs, i);
  }

  /** The data rows: one per line from the third on that keeps some cell. */
  function DataRows(lines: seq<string>, headers: seq<string>): (rows: seq<Record<string>>)
    ensures |rows| <= |lines|
    ensures |headers| > 0 && (forall i | 0 <= i < |lines| :: HasPipe(lines[i])) ==> |rows| == |lines|
    ensures forall i | 0 <= i < |rows| :: UniqueKeys(rows[i])
    decreases |lines|
  {
    if |lines| == 0 then []
    else
      var cells := DataCells(lines[0], |headers|);
      var rest := DataRows(lines[1..], headers);
      if |cells| > 0 then
        [RowOf(headers, cells)] + rest
      else
        assert |headers| > 0 ==> !HasPipe(lines[0]) by {
          if |headers| > 0 && HasPipe(lines[0]) {
            SplitHasTwoParts(lines[0], '|');
          }
        }
        rest
  }

  /** The test `parseTable` puts to a data line: does it keep some cell. */
  function HasCells(width: nat): string -> bool {
    line => |DataCells(line, width)| > 0
  }

  /** The row a kept data line becomes. */
  function RowFrom(headers: seq<string>): string -> Record<string> {
    line => RowOf(headers, DataCells(line, |headers|))
  }

  /** The rows are the rows of the lines that keep some cell, in line
      order, one for each such line. */
  lemma {:induction false} DataRowsInOrder(lines: seq<string>, headers: seq<string>)
    ensures DataRows(lines, headers) == Map(Filter(lines, HasCells(|headers|)), RowFrom(headers))
    ensures exists kept :: Filtered(kept, lines, HasCells(|headers|)) && DataRows(lines, headers) == Map(kept, RowFrom(headers))
    decreases |lines|
  {
    var p := HasCells(|headers|);
    var f := RowFrom(headers);
    if |lines| > 0 {
      DataRowsInOrder(lines[1..], headers);
      assert p(lines[0]) == (|DataCells(lines[0], |headers|)| > 0);
      assert f(lines[0]) == RowOf(headers, DataCells(lines[0], |headers|));
      MapCons(lines[0], Filter(lines[1..], p), f);
    }
    assert Filtered(Filter(lines, p), lines, p);
  }

  /** When every data line keeps some cell, row `k` is the row of line `k`. */
  lemma {:induction false} DataRowsAll(lines: seq<string>, headers: seq<string>)
    requires forall i | 0 <= i < |lines| :: |DataCells(lines[i], |headers|)| > 0
    ensures |DataRows(lines, headers)| == |lines|
    ensures forall k | 0 <= k < |lines| :: DataRows(lines, headers)[k] == RowOf(headers, DataCells(lines[k], |headers|))
  {
    DataRowsInOrder(lines, headers);
    var p := HasCells(|headers|);
    var f := RowFrom(headers);
    assert forall i | 0 <= i < |lines| :: p(lines[i]);
    FilterAll(lines, p);
    var rows := Map(lines, f);
    assert DataRows(lines, headers) == rows;
    forall k | 0 <= k < |lines| ensures rows[k] == RowOf(headers, DataCells(lines[k], |headers|)) {
      assert rows[k] == f(lines[k]);
    }
  }

  /** In the rows of a table whose data lines all keep a cell, each header
      reads the cell of its own line under it, or '' when that line is
      short; a repeated header reads the cell of its last occurrence. */
  lemma {:induction false} DataRowsCell(lines: seq<string>, headers: seq<string>, k: nat, j: nat)
    requires forall i | 0 <= i < |lines| :: |DataCells(lines[i], |headers|)| > 0
    requires k < |lines| && j < |headers|
    requires forall h | j < h < |headers| :: headers[h] != headers[j]
    ensures |DataRows(lines, headers)| == |lines|
    ensures Get(DataRows(lines, headers)[k], headers[j]) == Some(CellOr(DataCells(lines[k], |headers|), j))
  {
    DataRowsAll(lines, headers);
    RowOfCell(headers, DataCells(lines[k], |headers|), j);
  }

  /** A line that holds the separator splits into at least two pieces. */
  lemma {:induction false} SplitHasTwoParts(s: string, c: char)
    requires c in s
    ensures |Split(s, [c])| >= 2
    decreases |s|
  {
    if s[0] == c {
      assert s[..1] == [c];
    } else {
      assert c in s[1..] by {
        var i :| 0 <= i < |s| && s[i] == c;
        assert s[1..][i - 1] == c;
      }
      SplitHasTwoParts(s[1..], c);
      assert s[..1] != [c];
    }
  }

  /** `parseTable(lines)`: `null` for fewer than three lines or no header. */
  function ParseGrid(lines: seq<string>): (o: Option<Grid>)
    ensures o.None? <==> |lines| < 3 || NonEmpty(PipeCells(lines[0])) == []
    ensures o.Some? ==> o.value.headers == NonEmpty(PipeCells(lines[0]))
    ensures o.Some? ==> |o.value.rows| <= |lines| - 2
    ensures o.Some? && (forall i | 2 <= i < |lines| :: HasPipe(lines[i])) ==> |o.value.rows| == |lines| - 2
    ensures o.Some? ==> o.value.rows == DataRows(lines[2..], o.value.headers)
  {
    if |lines| < 3 then None
    else
      var headers := NonEmpty(PipeCells(lines[0]));
      if headers == [] then None
      else
        assert forall i | 0 <= i < |lines| - 2 :: lines[2..][i] == lines[i + 2];
        Some(Grid(headers, DataRows(lines[2..], headers)))
  }

  // ---------------------------------------------------------------------------
  // processTable and processDiceTable

  /** `/^\d*d\d+$/i.test(h.trim())`. */
  predicate IsDiceHeader(h: string) {
    Dice.PlainNotation(Trim(h)).Some?
  }

  /** `/^reroll$/i.test(h.trim())`. */
  predicate IsRerollHeader(h: string) {
    ToLower(Trim(h)) == "reroll"
  }

  /** `headers.find(h => /^\d*d\d+$/i.test(h.trim()))`, as a position. */
  function FirstDiceHeader(headers: seq<string>): (o: Option<nat>)
    ensures o.None? <==> forall i | 0 <= i < |headers| :: !IsDiceHeader(headers[i])
    ensures o.Some? ==> o.value < |headers| && IsDiceHeader(headers[o.value])
    ensures o.Some? ==> forall j | 0 <= j < o.value :: !IsDiceHeader(headers[j])
  {
    FirstWhere(headers, IsDiceHeader)
  }

  /** `headers.find(h => /^reroll$/i.test(h.trim()))`. */
  function FirstRerollHeader(headers: seq<string>): (o: Option<string>)
    ensures o.None? <==> forall i | 0 <= i < |headers| :: !IsRerollHeader(headers[i])
    ensures o.Some? ==> o.value in headers && IsRerollHeader(o.value)
  {
    match FirstWhere(headers, IsRerollHeader)
    case Some(i) => Some(headers[i])
    case None => None
  }

  /** `key.toLowerCase().trim() === rerollHeader.toLowerCase().trim()`, when a reroll header exists. */
  predicate IsRerollKey(key: string, rerollHeader: Option<string>) {
    rerollHeader.Some? && Trim(ToLower(key)) == Trim(ToLower(rerollHeader.value))
  }

  /** A trimmed reroll cell that names something: not empty and not a dash placeholder. */
  predicate NamesReroll(t: string) {
    t != "" && t != "\U{2014}" && t != "-"
  }

  /** How `processDiceTable` treats one cell of a row. */
  datatype CellKind = Hidden | RerollCell(text: string) | Display

  /** The dice cell and blank cells are skipped, a reroll cell is never
      displayed and counts only when its trimmed text names something. */
  function KindOf(cell: (string, string), diceHeader: string, rerollHeader: Option<string>): CellKind {
    if cell.0 == diceHeader then Hidden
    else if IsRerollKey(cell.0, rerollHeader) then
      if NamesReroll(Trim(cell.1)) then RerollCell(Trim(cell.1)) else Hidden
    else if IsBlank(cell.1) then Hidden
    else Display
  }

  /** The cells of one row read in order: the display columns and the row reroll. */
  datatype CellScan = CellScan(columns: Record<string>, reroll: Option<string>)

  /** The test a classification puts to a cell: is it displayed. */
  function Displayed(kind: ((string, string)) -> CellKind): ((string, string)) -> bool {
    cell => kind(cell).Display?
  }

  /** The loop over the cells of a row, for any classification of cells:
      displayed cells are collected in order and a later reroll cell replaces an earlier one. */
  function ScanCells(row: Record<string>, kind: ((string, string)) -> CellKind): (c: CellScan)
    ensures forall i | 0 <= i < |c.columns| :: kind(c.columns[i]).Display?
    ensures forall i | 0 <= i < |row| :: kind(row[i]).Display? ==> row[i] in c.columns
    ensures forall x | x in c.columns :: x in row
    ensures c.reroll.None? <==> forall i | 0 <= i < |row| :: !kind(row[i]).RerollCell?
    decreases |row|
  {
    if |row| == 0 then CellScan([], None)
    else
      var rest := ScanCells(row[1..], kind);
      assert forall i | 1 <= i < |row| :: row[i] == row[1..][i - 1];
      match kind(row[0])
      case Hidden => rest
      case RerollCell(t) => if rest.reroll.None? then CellScan(rest.columns, Some(t)) else rest
      case Display => CellScan([row[0]] + rest.columns, rest.reroll)
  }

  /** The displayed cells come out exactly as the row holds them: in row
      order and each as often, so the first displayed cell of the row is
      the first of the scan. */
  lemma {:induction false} ScanCellsInOrder(row: Record<string>, kind: ((string, string)) -> CellKind)
    ensures Filtered(ScanCells(row, kind).columns, row, Displayed(kind))
    decreases |row|
  {
    if |row| > 0 {
      ScanCellsInOrder(row[1..], kind);
      assert Displayed(kind)(row[0]) == kind(row[0]).Display?;
      FilteredCons(ScanCells(row[1..], kind).columns, row, Displayed(kind));
    }
  }

  /** The first displayed cell of the row is the first cell of the scan,
      the one whose value becomes the entry's `result`. */
  lemma {:induction false} ScanCellsFirst(row: Record<string>, kind: ((string, string)) -> CellKind, i: nat)
    requires i < |row| && kind(row[i]).Display?
    requires forall j | 0 <= j < i :: !kind(row[j]).Display?
    ensures |ScanCells(row, kind).columns| > 0 && ScanCells(row, kind).columns[0] == row[i]
  {
    ScanCellsInOrder(row, kind);
    FilteredFirst(ScanCells(row, kind).columns, row, Displayed(kind), i);
  }

  /** The reroll of a row is the text of its last naming reroll cell. */
  lemma {:induction false} ScanCellsLastReroll(row: Record<string>, kind: ((string, string)) -> CellKind, i: nat)
    requires i < |row| && kind(row[i]).RerollCell?
    requires forall j | i < j < |row| :: !kind(row[j]).RerollCell?
    ensures ScanCells(row, kind).reroll == Some(kind(row[i]).text)
    decreases i
  {
    var rest := row[1..];
    assert forall j | i - 1 < j < |rest| :: rest[j] == row[j + 1];
    if i > 0 {
      ScanCellsLastReroll(rest, kind, i - 1);
    }
  }

  /** The loop over `Object.entries(row)` in `processDiceTable`. */
  function ReadCells(row: Record<string>, diceHeader: string, rerollHeader: Option<string>): (c: CellScan)
    ensures c == ScanCells(row, cell => KindOf(cell, diceHeader, rerollHeader))
    ensures forall i | 0 <= i < |c.columns| :: KindOf(c.columns[i], diceHeader, rerollHeader).Display?
    ensures forall i | 0 <= i < |row| :: KindOf(row[i], diceHeader, rerollHeader).Display? ==> row[i] in c.columns
    ensures forall x | x in c.columns :: x in row
    ensures c.reroll.None? <==> forall i | 0 <= i < |row| :: !KindOf(row[i], diceHeader, rerollHeader).RerollCell?
  {
    ScanCells(row, cell => KindOf(cell, diceHeader, rerollHeader))
  }

  /** The cell values, in order. */
  function ValuesOf(columns: Record<string>): (vs: seq<string>)
    ensures |vs| == |columns|
    ensures forall i | 0 <= i < |vs| :: vs[i] == columns[i].1
  {
    seq(|columns|, i requires 0 <= i < |columns| => columns[i].1)
  }

  /** The entry fields that come from the displayed cells: the first value
      is the result and the others, joined by ` | `, the details. */
  function EntryFrom(b: Bounds, c: CellScan): (e: DiceEntry)
    ensures e.min == b.min && e.max == b.max && e.columns == c.columns && e.reroll == c.reroll
    ensures e.columns == [] ==> e.result == ""
    ensures e.columns != [] ==> e.result == e.columns[0].1
    ensures e.details.Some? <==> |e.columns| >= 2
    ensures e.details.Some? ==> e.details.value == Join(ValuesOf(e.columns)[1..], " | ")
  {
    var shown := ValuesOf(c.columns);
    DiceEntry(
      b.min, b.max,
      if |shown| > 0 then shown[0] else "",
      if |shown| > 1 then Some(Join(shown[1..], " | ")) else None,
      c.reroll,
      c.columns)
  }

  /** One entry of a dice table, built from one row. */
  function EntryOf(row: Record<string>, diceHeader: string, rerollHeader: Option<string>): (e: DiceEntry)
    ensures Bounds(e.min, e.max) == ParserRange(Get(row, diceHeader).GetOr(""))
    ensures e == EntryFrom(Bounds(e.min, e.max), ReadCells(row, diceHeader, rerollHeader))
  {
    EntryFrom(ParserRange(Get(row, diceHeader).GetOr("")), ReadCells(row, diceHeader, rerollHeader))
  }

  /** `processDiceTable`: one entry per row, in row order. */
  function ProcessDiceTable(g: Grid, diceHeader: string, reroll: Option<string>, isPrivate: bool): (t: Table)
    ensures t.DiceTable? && t.dice == ToLower(diceHeader)
    ensures |t.entries| == |g.rows|
    ensures forall i | 0 <= i < |g.rows| :: t.entries[i] == EntryOf(g.rows[i], diceHeader, FirstRerollHeader(g.headers))
    ensures t.reroll == KeepTruthy(reroll) && t.isPrivate == isPrivate
  {
    var rh := FirstRerollHeader(g.headers);
    DiceTable(
      ToLower(diceHeader),
      seq(|g.rows|, i requires 0 <= i < |g.rows| => EntryOf(g.rows[i], diceHeader, rh)),
      KeepTruthy(reroll),
      isPrivate)
  }

  /** `processTable`: a dice table iff some header is a dice notation; the first such header names the dice. */
  function ProcessTable(g: Grid, reroll: Option<string>, isPrivate: bool): (t: Table)
    ensures t.DiceTable? <==> exists i | 0 <= i < |g.headers| :: IsDiceHeader(g.headers[i])
    ensures t.DiceTable? ==> t == ProcessDiceTable(g, g.headers[FirstDiceHeader(g.headers).value], reroll, isPrivate)
    ensures t.SimpleTable? ==> t == SimpleTable(g.headers, g.rows, KeepTruthy(reroll), isPrivate)
  {
    match FirstDiceHeader(g.headers)
    case Some(i) => ProcessDiceTable(g, g.headers[i], reroll, isPrivate)
    case None => SimpleTable(g.headers, g.rows, KeepTruthy(reroll), isPrivate)
  }

  // ---------------------------------------------------------------------------
  // parseTables

  /** `line.match(/^reroll:\s*(.+)$/i)`: the captured table list. */
  function RerollDirective(line: string): (o: Option<string>)
    ensures o.Some? ==> |line| >= 7 && ToLower(line[..7]) == "reroll:"
  {
    if |line| >= 7 && ToLower(line[..7]) == "reroll:" then SpacesThenRest(line, 7, 0) else None
  }

  /** `/^private:\s*(true|yes|1)$/i`. A space run is greedy and none of the
      alternatives starts with a space, so the rest after the run must be one of them. */
  predicate PrivateDirective(line: string) {
    |line| >= 8 && ToLower(line[..8]) == "private:"
      && var rest := ToLower(line[8 + SpaceRunFrom(line, 8)..]);
         rest == "true" || rest == "yes" || rest == "1"
  }

  /** The loop state of `parseTables`. */
  datatype ScanState = ScanState(
    tables: Record<Table>,
    name: Option<string>,
    reroll: Option<string>,
    isPrivate: bool,
    block: seq<string>,
    inTable: bool,
    count: nat)

  /** Storing the collected block under the current name, when it parses and a name is set. */
  function Flush(st: ScanState): (tables: Record<Table>)
    ensures ParseGrid(st.block).Some? && Truthy(st.name) ==>
      tables == Put(st.tables, st.name.value, ProcessTable(ParseGrid(st.block).value, st.reroll, st.isPrivate))
    ensures ParseGrid(st.block).None? || !Truthy(st.name) ==> tables == st.tables
  {
    match ParseGrid(st.block)
    case Some(g) =>
      if Truthy(st.name) then Put(st.tables, st.name.value, ProcessTable(g, st.reroll, st.isPrivate))
      else st.tables
    case None => st.tables
  }

  /** The name given to the `n`-th table that has no heading. */
  function DefaultName(namespace: string, n: nat): string {
    namespace + NatToString(n)
  }

  /** A heading: the table being collected is stored and the heading names the next one. */
  function OnHeading(st: ScanState, title: string): (st': ScanState)
    ensures st'.name == Some(title) && st'.count == st.count
    ensures st.inTable && st.block != [] ==>
      st'.tables == Flush(st) && !st'.inTable && st'.block == [] && st'.reroll.None? && !st'.isPrivate
    ensures !(st.inTable && st.block != []) ==> st' == st.(name := Some(title))
  {
    if st.inTable && |st.block| > 0 then
      st.(tables := Flush(st), inTable := false, block := [], reroll := None, isPrivate := false, name := Some(title))
    else st.(name := Some(title))
  }

  /** A line holding a pipe: it joins the current table or starts a new one,
      numbered after the previous unnamed tables when no heading named it. */
  function OnPipe(st: ScanState, line: string, namespace: string): (st': ScanState)
    ensures st'.inTable && st'.tables == st.tables
    ensures st'.block == (if st.inTable then st.block else []) + [line]
    ensures !st.inTable && !Truthy(st.name) ==>
      st'.count == st.count + 1 && st'.name == Some(DefaultName(namespace, st.count + 1))
    ensures st.inTable || Truthy(st.name) ==> st'.count == st.count && st'.name == st.name
  {
    var st1 :=
      if st.inTable then st
      else if Truthy(st.name) then st.(inTable := true, block := [])
      else st.(inTable := true, block := [], count := st.count + 1, name := Some(DefaultName(namespace, st.count + 1)));
    st1.(block := st1.block + [line])
  }

  /** Any other line ends the table being collected and forgets its name and options. */
  function OnOther(st: ScanState): (st': ScanState)
    ensures st.inTable && st.block != [] ==>
      st'.tables == Flush(st) && !st'.inTable && st'.block == [] && st'.name.None? && st'.reroll.None? && !st'.isPrivate
    ensures !(st.inTable && st.block != []) ==> st' == st
  {
    if st.inTable && |st.block| > 0 then
      st.(tables := Flush(st), inTable := false, block := [], name := None, reroll := None, isPrivate := false)
    else st
  }

  /** The options `reroll:` and `private:` are read only after a heading and before its table. */
  predicate TakesOptions(st: ScanState) {
    Truthy(st.name) && !st.inTable
  }

  /** One trimmed line of the loop in `parseTables`. */
  function StepLine(st: ScanState, line: string, namespace: string): ScanState {
    match HeadingText(line)
    case Some(h) => OnHeading(st, Trim(h))
    case None =>
      var directive := RerollDirective(line);
      if directive.Some? && TakesOptions(st) then st.(reroll := Some(Trim(directive.value)))
      else if PrivateDirective(line) && TakesOptions(st) then st.(isPrivate := true)
      else if HasPipe(line) then OnPipe(st, line, namespace)
      else OnOther(st)
  }

  function ScanLines(st: ScanState, lines: seq<string>, namespace: string): ScanState
    decreases |lines|
  {
    if |lines| == 0 then st else ScanLines(StepLine(st, Trim(lines[0]), namespace), lines[1..], namespace)
  }

  /** After the last line: a table still open is stored too. */
  function Finish(st: ScanState): (tables: Record<Table>)
    ensures st.inTable && st.block != [] ==> tables == Flush(st)
    ensures !(st.inTable && st.block != []) ==> tables == st.tables
  {
    if st.inTable && |st.block| > 0 then Flush(st) else st.tables
  }

  const Start: ScanState := ScanState([], None, None, false, [], false, 0)

  /** The stored tables form a JavaScript object whose keys are all non-empty names. */
  predicate NamedTables(tables: Record<Table>) {
    UniqueKeys(tables) && forall i | 0 <= i < |tables| :: tables[i].0 != ""
  }

  /** Storing under a non-empty name keeps the tables named. */
  lemma {:induction false} PutNamed(tables: Record<Table>, k: string, t: Table)
    requires NamedTables(tables) && k != ""
    ensures NamedTables(Put(tables, k, t))
  {
    var r := Put(tables, k, t);
    if HasKey(tables, k) {
      assert forall i | 0 <= i < |r| :: r[i].0 == KeysOf(r)[i] == KeysOf(tables)[i];
    }
  }

  lemma {:induction false} FlushNamed(st: ScanState)
    requires NamedTables(st.tables)
    ensures NamedTables(Flush(st))
  {
    var o := ParseGrid(st.block);
    if o.Some? && Truthy(st.name) {
      PutNamed(st.tables, st.name.value, ProcessTable(o.value, st.reroll, st.isPrivate));
    }
  }

  /** A line either leaves the stored tables alone or stores the table being collected. */
  lemma {:induction false} StepLineTables(st: ScanState, line: string, namespace: string)
    ensures var tables := StepLine(st, line, namespace).tables; tables == st.tables || tables == Flush(st)
  {
    match HeadingText(line)
    case Some(h) =>
    case None =>
      if !(RerollDirective(line).Some? && TakesOptions(st)) && !(PrivateDirective(line) && TakesOptions(st)) {
        if HasPipe(line) {
          assert StepLine(st, line, namespace) == OnPipe(st, line, namespace);
        } else {
          assert StepLine(st, line, namespace) == OnOther(st);
        }
      }
  }

  lemma {:induction false} StepLineNamed(st: ScanState, line: string, namespace: string)
    requires NamedTables(st.tables)
    ensures NamedTables(StepLine(st, line, namespace).tables)
  {
    StepLineTables(st, line, namespace);
    FlushNamed(st);
  }

  /** Scanning any lines keeps every stored table under a non-empty name. */
  lemma {:induction false} ScanLinesNamed(st: ScanState, lines: seq<string>, namespace: string)
    requires NamedTables(st.tables)
    ensures NamedTables(ScanLines(st, lines, namespace).tables)
    decreases |lines|
  {
    if |lines| > 0 {
      var st1 := StepLine(st, Trim(lines[0]), namespace);
      StepLineNamed(st, Trim(lines[0]), namespace);
      ScanLinesNamed(st1, lines[1..], namespace);
    }
  }

  /** `TableParser.parseTables(content, namespace)`. */
  function ParseTables(content: string, namespace: string): (p: ParsedTable)
    ensures p.isTableFile <==> FlagSet(ExtractFrontmatter(content).0, "table-roller")
    ensures p.frontmatter == ExtractFrontmatter(content).0
    ensures p.namespace == namespace
    ensures NamedTables(p.tables)
  {
    var (fm, body) := ExtractFrontmatter(content);
    var st := ScanLines(Start, Split(body, "\n"), namespace);
    ScanLinesNamed(Start, Split(body, "\n"), namespace);
    FlushNamed(st);
    ParsedTable(Finish(st), fm, FlagSet(fm, "table-roller"), namespace)
  }

  /** A table that runs to the end of the input is stored under its name. */
  lemma {:induction false} OpenTableStored(st: ScanState)
    requires st.inTable && st.block != [] && Truthy(st.name) && ParseGrid(st.block).Some?
    ensures Get(Finish(st), st.name.value) == Some(ProcessTable(ParseGrid(st.block).value, st.reroll, st.isPrivate))
  {
  }

  /** A pipe line outside a table, with no heading naming it, starts the next numbered table. */
  lemma {:induction false} UnnamedTableCounted(st: ScanState, line: string, namespace: string)
    requires !st.inTable && !Truthy(st.name)
    requires HasPipe(line) && HeadingText(line).None?
    ensures StepLine(st, line, namespace).name == Some(namespace + NatToString(st.count + 1))
    ensures StepLine(st, line, namespace).inTable
  {
  }
}
