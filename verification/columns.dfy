/** The table builder's view of a table (src/ui/utils/TableBuilderUtils.ts):
    typed columns, rows of cells keyed by column, and the table options. */
module Columns {
  import opened Outcomes
  import opened Records
  import opened Strings

  /** `'dice' | 'regular' | 'reroll'`. */
  datatype ColumnType = DiceType | RegularType | RerollType

  /** `ColumnConfig`. */
  datatype ColumnConfig = ColumnConfig(name: string, kind: ColumnType, diceNotation: Option<string>)

  /** `RowData`: the cells a row holds, by key; a missing key is `undefined`. */
  type RowData = Record<string>

  /** `TableState`. */
  datatype TableState = TableState(
    tableName: string,
    columns: seq<ColumnConfig>,
    rows: seq<RowData>,
    isPrivate: bool,
    tableReroll: Option<string>)

  /** The key under which a column's cells are stored. */
  const RangeKey: string := "range"

  /** `col.type === 'dice' ? 'range' : col.name`. */
  function CellKey(col: ColumnConfig): (k: string)
    ensures col.kind == DiceType ==> k == RangeKey
    ensures col.kind != DiceType ==> k == col.name
  {
    if col.kind == DiceType then RangeKey else col.name
  }

  /** `row[key] || ''`: a missing cell reads as empty. */
  function CellText(row: RowData, key: string): (t: string)
    ensures HasKey(row, key) ==> t == Get(row, key).value
    ensures !HasKey(row, key) ==> t == ""
  {
    Get(row, key).GetOr("")
  }

  /** `state.columns.map(col => col.name)`. */
  function ColumnNames(columns: seq<ColumnConfig>): (names: seq<string>)
    ensures |names| == |columns| && forall j | 0 <= j < |columns| :: names[j] == columns[j].name
  {
    seq(|columns|, j requires 0 <= j < |columns| => columns[j].name)
  }

  /** `state.columns.map(col => row[key] || '')`: one row's cells in column order. */
  function CellTexts(row: RowData, columns: seq<ColumnConfig>): (cells: seq<string>)
    ensures |cells| == |columns| && forall j | 0 <= j < |columns| :: cells[j] == CellText(row, CellKey(columns[j]))
  {
    seq(|columns|, j requires 0 <= j < |columns| => CellText(row, CellKey(columns[j])))
  }
}
