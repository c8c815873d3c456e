/** The row grid of src/ui/components/RowGridEditor.ts: which cell a key
    press in a cell moves to, the selected row, and what each cell shows.
    Focus, rendering and the events it dispatches are left out: a key
    press gives the new editor and the cell to focus, if any. */
module GridNav {
  import opened Outcomes
  import opened Columns
  import RowGen

  /** The keys the grid reacts to; every other key is `Other`. */
  datatype Key = Tab | Enter | Other

  /** A cell of the grid, by row and column position. */
  datatype Cell = Cell(row: int, col: int)

  /** The editor's table and its `selectedRowIndex`. */
  datatype Editor = Editor(state: TableState, selected: int)

  /** The grid of `rows` × `cols` holds the cell. */
  predicate InGrid(c: Cell, rows: int, cols: int) {
    0 <= c.row < rows && 0 <= c.col < cols
  }

  /** Where `handleCellKeydown` aims from cell `c`, before the bounds
      check: Tab moves one column right, wrapping to column 0 of the next
      row; Shift+Tab one column left, wrapping to the last column of the
      previous row; Enter one row down and Shift+Enter one row up. Other
      keys aim nowhere. */
  function Aim(c: Cell, cols: int, key: Key, shift: bool): (o: Option<Cell>)
    ensures o.None? <==> key == Other
    ensures key == Enter ==> o == Some(Cell(if shift then c.row - 1 else c.row + 1, c.col))
  {
    match key
    case Tab =>
      if shift then
        if c.col - 1 < 0 then Some(Cell(c.row - 1, cols - 1)) else Some(Cell(c.row, c.col - 1))
      else
        if c.col + 1 >= cols then Some(Cell(c.row + 1, 0)) else Some(Cell(c.row, c.col + 1))
    case Enter => Some(Cell(if shift then c.row - 1 else c.row + 1, c.col))
    case Other => None
  }

  /** `handleCellKeydown(e, rowIndex, colIndex)`: the editor afterwards
      and the cell focused, if the move applied. A move applies only when
      its target lies in the grid, and then selects the target's row. */
  function Keydown(e: Editor, c: Cell, key: Key, shift: bool): (r: (Editor, Option<Cell>))
    ensures var t := Aim(c, |e.state.columns|, key, shift);
      if t.Some? && InGrid(t.value, |e.state.rows|, |e.state.columns|)
      then r.1 == t && r.0 == e.(selected := t.value.row)
      else r == (e, None)
    ensures r.0.state == e.state
    ensures r.1.Some? ==> InGrid(r.1.value, |e.state.rows|, |e.state.columns|) && r.0.selected == r.1.value.row
  {
    var t := Aim(c, |e.state.columns|, key, shift);
    if t.Some? && InGrid(t.value, |e.state.rows|, |e.state.columns|) then (e.(selected := t.value.row), t)
    else (e, None)
  }

  /** The position of a cell in reading order, row after row. */
  function Reading(c: Cell, cols: int): int {
    c.row * cols + c.col
  }

  /** From a cell of the grid, Tab aims at the next cell in reading order
      and Shift+Tab at the previous one, and both aim at a column of the grid. */
  lemma {:induction false} TabReadingOrder(c: Cell, rows: int, cols: int)
    requires InGrid(c, rows, cols)
    ensures var t := Aim(c, cols, Tab, false).value;
      Reading(t, cols) == Reading(c, cols) + 1 && 0 <= t.col < cols
    ensures var t := Aim(c, cols, Tab, true).value;
      Reading(t, cols) == Reading(c, cols) - 1 && 0 <= t.col < cols
  {
    var t := Aim(c, cols, Tab, false).value;
    if c.col + 1 >= cols {
      assert t == Cell(c.row + 1, 0);
      assert (c.row + 1) * cols == c.row * cols + cols;
    }
    var u := Aim(c, cols, Tab, true).value;
    if c.col - 1 < 0 {
      assert u == Cell(c.row - 1, cols - 1);
      assert (c.row - 1) * cols == c.row * cols - cols;
    }
  }

  /** Two cells with a column in range and the same reading position are the same cell. */
  lemma {:induction false} ReadingUnique(a: Cell, b: Cell, cols: int)
    requires 0 <= a.col < cols && 0 <= b.col < cols
    requires Reading(a, cols) == Reading(b, cols)
    ensures a == b
  {
    if a.row < b.row {
      RowGen.MulStep(a.row + 1, cols);
      RowGen.MulMono(a.row + 1, b.row, cols);
    } else if b.row < a.row {
      RowGen.MulStep(b.row + 1, cols);
      RowGen.MulMono(b.row + 1, a.row, cols);
    }
  }

  /** A Tab that moves is undone by a Shift+Tab from where it landed, and
      a Shift+Tab that moves by a Tab. */
  lemma {:induction false} TabUndone(e: Editor, c: Cell)
    requires InGrid(c, |e.state.rows|, |e.state.columns|)
    ensures var (e1, t) := Keydown(e, c, Tab, false);
      t.Some? ==> Keydown(e1, t.value, Tab, true).1 == Some(c)
    ensures var (e1, t) := Keydown(e, c, Tab, true);
      t.Some? ==> Keydown(e1, t.value, Tab, false).1 == Some(c)
  {
    var rows := |e.state.rows|;
    var cols := |e.state.columns|;
    var t := Keydown(e, c, Tab, false).1;
    if t.Some? {
      TabReadingOrder(c, rows, cols);
      TabReadingOrder(t.value, rows, cols);
      ReadingUnique(Aim(t.value, cols, Tab, true).value, c, cols);
    }
    var u := Keydown(e, c, Tab, true).1;
    if u.Some? {
      TabReadingOrder(c, rows, cols);
      TabReadingOrder(u.value, rows, cols);
      ReadingUnique(Aim(u.value, cols, Tab, false).value, c, cols);
    }
  }

  /** An Enter that moves is undone by a Shift+Enter, and the other way round. */
  lemma {:induction false} EnterUndone(e: Editor, c: Cell, shift: bool)
    requires InGrid(c, |e.state.rows|, |e.state.columns|)
    ensures var (e1, t) := Keydown(e, c, Enter, shift);
      t.Some? ==> Keydown(e1, t.value, Enter, !shift) == (e.(selected := c.row), Some(c))
  {
  }

  /** `k` presses of Tab from the first cell, each from where the last landed. */
  function TabTimes(e: Editor, k: nat): (r: (Editor, Cell))
    decreases k
  {
    if k == 0 then (e, Cell(0, 0))
    else
      var (e1, c) := TabTimes(e, k - 1);
      match Keydown(e1, c, Tab, false).1
      case Some(t) => (Keydown(e1, c, Tab, false).0, t)
      case None => (e1, c)
  }

  /** Tab from the first cell walks every cell of the grid in reading
      order: after `k` presses, for `k` below the number of cells, the
      focus is at reading position `k` and its row is selected. */
  lemma {:induction false} TabWalk(e: Editor, k: nat)
    requires |e.state.columns| > 0 && k < |e.state.rows| * |e.state.columns|
    ensures var (e1, c) := TabTimes(e, k);
      InGrid(c, |e.state.rows|, |e.state.columns|) && Reading(c, |e.state.columns|) == k
      && e1.state == e.state && (k > 0 ==> e1.selected == c.row)
    decreases k
  {
    var rows := |e.state.rows|;
    var cols := |e.state.columns|;
    if k > 0 {
      TabWalk(e, k - 1);
      var (e1, c) := TabTimes(e, k - 1);
      TabReadingOrder(c, rows, cols);
      var t := Aim(c, cols, Tab, false).value;
      assert 0 <= t.row by {
        if t.row < 0 {
          RowGen.MulMono(t.row, -1, cols);
        }
      }
      assert t.row < rows by {
        if t.row >= rows {
          RowGen.MulMono(rows, t.row, cols);
        }
      }
    }
  }

  /** `updateState(newState, selectedRowIndex?)`: the new table, and the
      given selection or else the one before. */
  function UpdateState(e: Editor, s: TableState, selected: Option<int>): (r: Editor)
    ensures r.state == s
    ensures selected.None? ==> r.selected == e.selected
    ensures selected.Some? ==> r.selected == selected.value
  {
    Editor(s, if selected.Some? then selected.value else e.selected)
  }

  /** `row[cellKey] || ''` for the cell at row `r`, column `j`: the cell
      shows what the Markdown export writes for it. */
  function CellValue(s: TableState, r: nat, j: nat): (v: string)
    requires r < |s.rows| && j < |s.columns|
    ensures v == CellTexts(s.rows[r], s.columns)[j]
  {
    CellText(s.rows[r], CellKey(s.columns[j]))
  }
}
