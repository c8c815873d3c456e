/** The state edits of src/ui/utils/TableBuilderUtils.ts. Each one returns a
    new `TableState` built by spreading `...state`, so each contract says
    what changes and that the rest of the state is what it was. */
module BuilderUtils {
  import opened Outcomes
  import opened Records
  import opened Seqs
  import opened Columns
  import opened JsArrays
  import RowGen

  /** Rows are JavaScript objects: no row holds a key twice. */
  predicate WellFormed(s: TableState) {
    forall i | 0 <= i < |s.rows| :: UniqueKeys(s.rows[i])
  }

  // ---------------------------------------------------------------------------
  // table options

  /** `updateTableName`. */
  function UpdateTableName(s: TableState, tableName: string): (r: TableState)
    ensures r.tableName == tableName && r.(tableName := s.tableName) == s
  {
    s.(tableName := tableName)
  }

  /** `updatePrivateFlag`. */
  function UpdatePrivateFlag(s: TableState, isPrivate: bool): (r: TableState)
    ensures r.isPrivate == isPrivate && r.(isPrivate := s.isPrivate) == s
  {
    s.(isPrivate := isPrivate)
  }

  /** `updateTableReroll`; `None` clears it. */
  function UpdateTableReroll(s: TableState, tableReroll: Option<string>): (r: TableState)
    ensures r.tableReroll == tableReroll && r.(tableReroll := s.tableReroll) == s
  {
    s.(tableReroll := tableReroll)
  }

  // ---------------------------------------------------------------------------
  // columns

  /** `insertColumn`: `columns.splice(index, 0, column)` on a copy. Removing
      the column again at the position it went to gives the old columns. */
  function InsertColumn(s: TableState, column: ColumnConfig, index: int): (r: TableState)
    ensures |r.columns| == |s.columns| + 1
    ensures r.columns[SpliceStart(|s.columns|, index)] == column
    ensures RemoveAt(r.columns, SpliceStart(|s.columns|, index)) == s.columns
    ensures r.(columns := s.columns) == s
  {
    var k := SpliceStart(|s.columns|, index);
    RemoveInserted(s.columns, k, column);
    s.(columns := InsertAt(s.columns, index, column))
  }

  /** `addColumn`: the same as inserting at the end. */
  function AddColumn(s: TableState, column: ColumnConfig): (r: TableState)
    ensures r == InsertColumn(s, column, |s.columns|)
  {
    assert s.columns[..|s.columns|] + [column] + s.columns[|s.columns|..] == s.columns + [column];
    s.(columns := s.columns + [column])
  }

  /** `delete newRow[key]` on every row. */
  function DropKey(rows: seq<RowData>, key: string): (r: seq<RowData>)
    requires forall i | 0 <= i < |rows| :: UniqueKeys(rows[i])
    ensures |r| == |rows|
    ensures forall i | 0 <= i < |rows| :: r[i] == Delete(rows[i], key)
  {
    seq(|rows|, i requires 0 <= i < |rows| => Delete(rows[i], key))
  }

  /** What `removeColumn` runs into when `columns[index]` is `undefined`. */
  const NoColumnError: string := "Cannot read properties of undefined (reading 'type')"

  /** `removeColumn`: the column goes, and so does its cell in every row;
      every other cell stays. An index that names no column throws. */
  function RemoveColumn(s: TableState, index: int): (r: Result<TableState>)
    requires WellFormed(s)
    ensures r.Err? <==> !(0 <= index < |s.columns|)
    ensures r.Ok? ==> r.value.columns == s.columns[..index] + s.columns[index + 1..]
    ensures r.Ok? ==> |r.value.rows| == |s.rows| && WellFormed(r.value)
    ensures r.Ok? ==> forall i | 0 <= i < |s.rows| :: !HasKey(r.value.rows[i], CellKey(s.columns[index]))
    ensures r.Ok? ==> forall i, k | 0 <= i < |s.rows| && k != CellKey(s.columns[index]) ::
      Get(r.value.rows[i], k) == Get(s.rows[i], k)
    ensures r.Ok? ==> r.value.(columns := s.columns, rows := s.rows) == s
  {
    if 0 <= index < |s.columns| then
      var rows := DropKey(s.rows, CellKey(s.columns[index]));
      Ok(s.(columns := RemoveAt(s.columns, index), rows := rows))
    else Err(NoColumnError)
  }

  /** Putting a removed column back where it was restores the columns, and
      the whole state when no row held a cell for it. */
  lemma {:induction false} RemoveColumnUndone(s: TableState, index: int)
    requires WellFormed(s) && 0 <= index < |s.columns|
    ensures InsertColumn(RemoveColumn(s, index).value, s.columns[index], index).columns == s.columns
    ensures (forall i | 0 <= i < |s.rows| :: !HasKey(s.rows[i], CellKey(s.columns[index]))) ==>
      InsertColumn(RemoveColumn(s, index).value, s.columns[index], index) == s
  {
    var r := RemoveColumn(s, index).value;
    assert r.columns == RemoveAt(s.columns, index);
    InsertRemoved(s.columns, index);
  }

  /** `reorderColumns`: the column at `fromIndex` is taken out and put in at
      `toIndex`, both normalised the way `splice` does. The source would
      insert `undefined` when `fromIndex` names no column; that case is
      excluded. */
  function ReorderColumns(s: TableState, fromIndex: int, toIndex: int): (r: TableState)
    requires SpliceStart(|s.columns|, fromIndex) < |s.columns|
    ensures |r.columns| == |s.columns| && multiset(r.columns) == multiset(s.columns)
    ensures r.columns[SpliceStart(|s.columns| - 1, toIndex)] == s.columns[SpliceStart(|s.columns|, fromIndex)]
    ensures r.(columns := s.columns) == s
  {
    var moved := s.columns[SpliceStart(|s.columns|, fromIndex)];
    s.(columns := InsertAt(RemoveAt(s.columns, fromIndex), toIndex, moved))
  }

  /** Moving a column back from where it went restores the state. */
  lemma {:induction false} ReorderUndone(s: TableState, fromIndex: int, toIndex: int)
    requires 0 <= fromIndex < |s.columns| && 0 <= toIndex < |s.columns|
    ensures ReorderColumns(ReorderColumns(s, fromIndex, toIndex), toIndex, fromIndex) == s
  {
    var xs := s.columns;
    var moved := xs[fromIndex];
    var rest := RemoveAt(xs, fromIndex);
    var ys := InsertAt(rest, toIndex, moved);
    RemoveInserted(rest, toIndex, moved);
    InsertRemoved(xs, fromIndex);
    assert InsertAt(RemoveAt(ys, toIndex), fromIndex, ys[toIndex]) == xs;
  }

  /** At most one dice column and at most one reroll column. */
  predicate SingleSpecials(columns: seq<ColumnConfig>) {
    forall i, j | 0 <= i < j < |columns| :: columns[i].kind == columns[j].kind ==> columns[i].kind == RegularType
  }

  /** `canAddColumnType`: any number of regular columns, but no second dice
      or reroll column. */
  function CanAddColumnType(kind: ColumnType, existing: seq<ColumnConfig>): (b: bool)
    ensures b <==> kind == RegularType || forall i | 0 <= i < |existing| :: existing[i].kind != kind
  {
    kind == RegularType || FirstWhere(existing, (c: ColumnConfig) => c.kind == kind).None?
  }

  /** A column the check allows keeps the special columns single, wherever it is inserted. */
  lemma {:induction false} AllowedColumnKeepsSpecials(s: TableState, column: ColumnConfig, index: int)
    requires SingleSpecials(s.columns) && CanAddColumnType(column.kind, s.columns)
    ensures SingleSpecials(InsertColumn(s, column, index).columns)
  {
    var xs := s.columns;
    var k := SpliceStart(|xs|, index);
    var ys := InsertColumn(s, column, index).columns;
    assert ys == InsertAt(xs, index, column);
    forall i, j | 0 <= i < j < |ys| && ys[i].kind == ys[j].kind
      ensures ys[i].kind == RegularType
    {
      var i' := if i < k then i else i - 1;
      var j' := if j < k then j else j - 1;
      if i == k {
        assert ys[j] == xs[j'];
      } else if j == k {
        assert ys[i] == xs[i'];
      } else {
        assert ys[i] == xs[i'] && ys[j] == xs[j'];
      }
    }
  }

  /** `getDefaultColumnName`. */
  function DefaultColumnName(kind: ColumnType, existing: seq<ColumnConfig>): (name: string)
    ensures kind == DiceType ==> name == "d6"
    ensures kind == RerollType ==> name == "reroll"
    ensures kind == RegularType ==> name == "Column " + Strings.NatToString(|existing|)
  {
    match kind
    case DiceType => "d6"
    case RerollType => "reroll"
    case RegularType => "Column " + Strings.NatToString(|existing|)
  }

  // ---------------------------------------------------------------------------
  // rows

  /** `insertRow`: `rows.splice(index, 0, row)` on a copy. */
  function InsertRow(s: TableState, row: RowData, index: int): (r: TableState)
    ensures |r.rows| == |s.rows| + 1
    ensures r.rows[SpliceStart(|s.rows|, index)] == row
    ensures RemoveAt(r.rows, SpliceStart(|s.rows|, index)) == s.rows
    ensures r.(rows := s.rows) == s
  {
    RemoveInserted(s.rows, SpliceStart(|s.rows|, index), row);
    s.(rows := InsertAt(s.rows, index, row))
  }

  /** `addRow`: the same as inserting at the end; the default row is `{}`. */
  function AddRow(s: TableState, row: RowData): (r: TableState)
    ensures r == InsertRow(s, row, |s.rows|)
  {
    assert s.rows[..|s.rows|] + [row] + s.rows[|s.rows|..] == s.rows + [row];
    s.(rows := s.rows + [row])
  }

  /** `removeRow`: `rows.splice(index, 1)` on a copy; nothing happens when the
      normalised index is past the last row. Putting the row back restores the rows. */
  function RemoveRow(s: TableState, index: int): (r: TableState)
    ensures SpliceStart(|s.rows|, index) == |s.rows| ==> r == s
    ensures SpliceStart(|s.rows|, index) < |s.rows| ==>
      |r.rows| == |s.rows| - 1 && InsertAt(r.rows, SpliceStart(|s.rows|, index), s.rows[SpliceStart(|s.rows|, index)]) == s.rows
    ensures r.(rows := s.rows) == s
  {
    var k := SpliceStart(|s.rows|, index);
    if k < |s.rows| then
      InsertRemoved(s.rows, k);
      s.(rows := RemoveAt(s.rows, index))
    else s
  }

  /** What `deepClone(undefined)` runs into: `JSON.parse` of `undefined`. */
  const NoRowError: string := "\"undefined\" is not valid JSON"

  /** `duplicateRow`: a copy of the row goes right below it, and removing
      the copy restores the state. An index that names no row throws. */
  function DuplicateRow(s: TableState, index: int): (r: Result<TableState>)
    ensures r.Err? <==> !(0 <= index < |s.rows|)
    ensures r.Ok? ==> |r.value.rows| == |s.rows| + 1 && r.value.rows[index + 1] == s.rows[index]
    ensures r.Ok? ==> r.value.rows[..index + 1] == s.rows[..index + 1] && r.value.rows[index + 2..] == s.rows[index + 1..]
    ensures r.Ok? ==> RemoveRow(r.value, index + 1) == s
  {
    if 0 <= index < |s.rows| then
      var r := InsertRow(s, s.rows[index], index + 1);
      assert r.rows == s.rows[..index + 1] + [s.rows[index]] + s.rows[index + 1..];
      Ok(r)
    else Err(NoRowError)
  }

  /** `updateCell`: `rows[rowIndex] = { ...rows[rowIndex], [columnKey]: value }`
      on a copy. One cell is written and nothing else changes. At the row
      count the write appends a row holding only that cell; a negative index
      writes a property that is not an element, which every later copy of
      the rows drops. */
  function UpdateCell(s: TableState, rowIndex: int, columnKey: string, value: string): (r: TableState)
    requires rowIndex <= |s.rows|
    ensures rowIndex < 0 ==> r == s
    ensures 0 <= rowIndex ==> |r.rows| == if rowIndex == |s.rows| then |s.rows| + 1 else |s.rows|
    ensures 0 <= rowIndex ==> Get(r.rows[rowIndex], columnKey) == Some(value)
    ensures 0 <= rowIndex ==> forall k | k != columnKey ::
      Get(r.rows[rowIndex], k) == if rowIndex < |s.rows| then Get(s.rows[rowIndex], k) else None
    ensures forall i | 0 <= i < |s.rows| && i != rowIndex :: r.rows[i] == s.rows[i]
    ensures WellFormed(s) ==> WellFormed(r)
    ensures r.(rows := s.rows) == s
  {
    if rowIndex < 0 then s
    else if rowIndex < |s.rows| then s.(rows := s.rows[rowIndex := Put(s.rows[rowIndex], columnKey, value)])
    else s.(rows := s.rows + [Put([], columnKey, value)])
  }

  /** Writing the value a cell already holds leaves the state as it was. */
  lemma {:induction false} UpdateCellSame(s: TableState, rowIndex: int, columnKey: string)
    requires WellFormed(s) && 0 <= rowIndex < |s.rows| && HasKey(s.rows[rowIndex], columnKey)
    ensures UpdateCell(s, rowIndex, columnKey, Get(s.rows[rowIndex], columnKey).value) == s
  {
    PutSame(s.rows[rowIndex], columnKey, Get(s.rows[rowIndex], columnKey).value);
  }

  predicate IsRegular(c: ColumnConfig) {
    c.kind == RegularType
  }

  /** The writes `clearResults` makes on each row: `''` under every regular column name. */
  function Blanks(columns: seq<ColumnConfig>): (pairs: seq<(string, string)>)
    ensures forall j | 0 <= j < |pairs| :: pairs[j].1 == ""
  {
    Map(Filter(columns, IsRegular), (c: ColumnConfig) => (c.name, ""))
  }

  /** `clearResults`: every regular cell of every row becomes `''`. */
  function ClearResults(s: TableState): (r: TableState)
    ensures |r.rows| == |s.rows|
    ensures forall i | 0 <= i < |s.rows| :: r.rows[i] == PutAll(s.rows[i], Blanks(s.columns))
    ensures WellFormed(s) ==> WellFormed(r)
    ensures r.(rows := s.rows) == s
  {
    var pairs := Blanks(s.columns);
    s.(rows := Map(s.rows, (row: RowData) => PutAll(row, pairs)))
  }

  /** After `clearResults` every regular column reads `''` in every row. */
  lemma {:induction false} ClearResultsBlanks(s: TableState, i: nat, j: nat)
    requires i < |s.rows| && j < |s.columns| && s.columns[j].kind == RegularType
    ensures Get(ClearResults(s).rows[i], s.columns[j].name) == Some("")
  {
    var regular := Filter(s.columns, IsRegular);
    var pairs := Blanks(s.columns);
    assert IsRegular(s.columns[j]);
    var m :| 0 <= m < |regular| && regular[m] == s.columns[j];
    PutAllConst(s.rows[i], pairs, "", m);
  }

  /** `clearResults` leaves every key that names no regular column alone:
      dice ranges, reroll cells and cells of no column. */
  lemma {:induction false} ClearResultsKeeps(s: TableState, i: nat, k: string)
    requires i < |s.rows|
    requires forall j | 0 <= j < |s.columns| :: s.columns[j].kind != RegularType || s.columns[j].name != k
    ensures Get(ClearResults(s).rows[i], k) == Get(s.rows[i], k)
  {
    var regular := Filter(s.columns, IsRegular);
    var pairs := Blanks(s.columns);
    forall m | 0 <= m < |pairs| ensures pairs[m].0 != k {
      assert regular[m] in s.columns;
    }
    PutAllKeeps(s.rows[i], pairs, k);
  }

  /** Clearing twice is clearing once. */
  lemma {:induction false} ClearResultsIdempotent(s: TableState)
    requires WellFormed(s)
    ensures ClearResults(ClearResults(s)) == ClearResults(s)
  {
    var c := ClearResults(s);
    var regular := Filter(s.columns, IsRegular);
    var pairs := Blanks(s.columns);
    forall i | 0 <= i < |c.rows| ensures PutAll(c.rows[i], pairs) == c.rows[i] {
      forall m | 0 <= m < |pairs| ensures Get(c.rows[i], pairs[m].0) == Some(pairs[m].1) {
        PutAllConst(s.rows[i], pairs, "", m);
      }
      PutAllPresent(c.rows[i], pairs);
    }
  }

  /** `clearAllRows`. */
  function ClearAllRows(s: TableState): (r: TableState)
    ensures r.rows == [] && r.(rows := s.rows) == s
  {
    s.(rows := [])
  }

  /** `GenerateRowsOptions`. */
  datatype GenerateRowsOptions = GenerateRowsOptions(
    diceNotation: string,
    count: int,
    groupSize: Option<int>,
    remainder: Option<RowGen.Remainder>)

  /** `replaceWithGeneratedRows`: the rows become the generated ranges, one
      `range` cell each; the columns and options stay. */
  function ReplaceWithGeneratedRows(s: TableState, options: GenerateRowsOptions): (r: TableState)
    ensures |r.rows| == |RowGen.GenerateSpans(options.diceNotation, options.count, options.groupSize, options.remainder)|
    ensures forall i | 0 <= i < |r.rows| ::
      var span := RowGen.GenerateSpans(options.diceNotation, options.count, options.groupSize, options.remainder)[i];
      r.rows[i] == [(RangeKey, RowGen.Label(span.0, span.1))]
    ensures WellFormed(r)
    ensures r.(rows := s.rows) == s
  {
    s.(rows := RowGen.GenerateDefaultRows(options.diceNotation, options.count, options.groupSize, options.remainder))
  }

  // ---------------------------------------------------------------------------
  // pasting

  /** Row `i` of a paste: `values[i]` written under `key`, onto `{}` past the old rows. */
  function PastedRow(rows: seq<RowData>, key: string, values: seq<string>, i: nat): (row: RowData)
    requires i < |rows| || i < |values|
  {
    if i < |values| then Put(if i < |rows| then rows[i] else [], key, values[i]) else rows[i]
  }

  /** `pasteIntoColumn`: no values leave the state as it is; otherwise the
      rows are padded with `{}` up to the number of values and row `i` gets
      `values[i]` under the column's key. An index that names no column throws. */
  function PasteIntoColumn(s: TableState, columnIndex: int, values: seq<string>): (r: Result<TableState>)
    ensures |values| == 0 ==> r == Ok(s)
    ensures |values| > 0 ==> (r.Err? <==> !(0 <= columnIndex < |s.columns|))
    ensures r.Ok? ==> r.value.(rows := s.rows) == s
    ensures r.Ok? && |values| > 0 ==>
      |r.value.rows| == (if |s.rows| < |values| then |values| else |s.rows|)
      && (forall i | 0 <= i < |values| :: Get(r.value.rows[i], CellKey(s.columns[columnIndex])) == Some(values[i]))
      && (forall i, k | 0 <= i < |values| && k != CellKey(s.columns[columnIndex]) ::
            Get(r.value.rows[i], k) == if i < |s.rows| then Get(s.rows[i], k) else None)
      && (forall i | |values| <= i < |s.rows| :: r.value.rows[i] == s.rows[i])
    ensures r.Ok? && WellFormed(s) ==> WellFormed(r.value)
  {
    if |values| == 0 then Ok(s)
    else if 0 <= columnIndex < |s.columns| then
      var key := CellKey(s.columns[columnIndex]);
      var n := if |s.rows| < |values| then |values| else |s.rows|;
      Ok(s.(rows := seq(n, i requires 0 <= i < n => PastedRow(s.rows, key, values, i))))
    else Err(NoColumnError)
  }

  /** Pasting the same values twice is pasting once. */
  lemma {:induction false} PasteIdempotent(s: TableState, columnIndex: int, values: seq<string>)
    requires WellFormed(s) && PasteIntoColumn(s, columnIndex, values).Ok?
    ensures PasteIntoColumn(PasteIntoColumn(s, columnIndex, values).value, columnIndex, values)
      == PasteIntoColumn(s, columnIndex, values)
  {
    if |values| > 0 {
      var p := PasteIntoColumn(s, columnIndex, values).value;
      var q := PasteIntoColumn(p, columnIndex, values).value;
      var key := CellKey(s.columns[columnIndex]);
      assert p.columns == s.columns && |q.rows| == |p.rows|;
      forall i | 0 <= i < |q.rows| ensures q.rows[i] == p.rows[i] {
        if i < |values| {
          PutSame(p.rows[i], key, values[i]);
        }
      }
      assert q.rows == p.rows;
    }
  }
}
