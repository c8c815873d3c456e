/** The older table builder of src/ui/TableBuilderView.ts, which keeps its
    own copies of the builder's rules: default rows for a die, an undo
    history captured before each edit, the row and column edits, saving
    into the note the table came from, and the checks run before saving.
    The DOM, the modals, the notices and the vault are left out: a note
    comes in as text, a timestamp as a number, and the table lookup is a
    parameter `resolves` as in `BuilderValidation`. */
module BuilderView {
  import opened Outcomes
  import opened Strings
  import opened Records
  import opened Seqs
  import opened Columns
  import BuilderState
  import BuilderUtils
  import Dice
  import RowGen
  import Ranges
  import JsArrays
  import BuilderIO
  import BuilderValidation
  import MarkdownExport
  import Roller
  import CliHelper
  import TableParser

  // ---------------------------------------------------------------------------
  // default rows

  /** The d100 spans: `Math.floor(100 / count)` wide, row `i` starting
      after `i` widths, and the last row running to 100. */
  function HundredSpans(count: int): (spans: seq<RowGen.Span>)
    ensures |spans| == if count <= 0 then 0 else count
  {
    if count <= 0 then []
    else
      var width := 100 / count;
      seq(count, i requires 0 <= i < count => (i * width + 1, if i == count - 1 then 100 else (i + 1) * width))
  }

  /** `{ range: `${start}-${end}` }`: written as a span even when both ends agree. */
  function SpanRow(s: RowGen.Span): (row: RowData)
    ensures |row| == 1 && row[0].0 == RangeKey
  {
    [(RangeKey, IntToString(s.0) + "-" + IntToString(s.1))]
  }

  /** `generateDefaultRows(diceNotation, count)`: nothing unless the
      notation is `^(\d*)d(\d+)$`; a d100 gets `count` spans, any other die
      one row per value. The number of dice is never read. */
  function ViewDefaultRows(notation: string, count: int): (rows: seq<RowData>)
    ensures Dice.PlainNotation(notation).None? ==> rows == []
  {
    match Dice.PlainNotation(notation)
    case None => []
    case Some(n) =>
      if n.sides <= 20 then Map(RowGen.Singles(1, n.sides, count), RowGen.RangeRow)
      else if n.sides == 100 then HundredRows(count)
      else Map(RowGen.Singles(1, n.sides, count), RowGen.RangeRow)
  }

  /** For any die but a d100 the rows are the values 1, 2, … up to the
      fewer of the sides and the count, each read back by the table parser
      as that one value, whatever the number of dice: "3d6" gets the rows
      of "d6", starting at 1 though three dice never roll below 3. */
  lemma {:induction false} SmallDieRows(notation: string, count: int)
    requires Dice.PlainNotation(notation).Some? && Dice.PlainNotation(notation).value.sides != 100
    ensures var sides := Dice.PlainNotation(notation).value.sides;
      var rows := ViewDefaultRows(notation, count);
      |rows| == (if count < 1 then 0 else RowGen.Min(sides, count))
      && forall i | 0 <= i < |rows| ::
        HasKey(rows[i], RangeKey) && Ranges.ParserRange(Get(rows[i], RangeKey).value) == Ranges.Bounds(i + 1, i + 1)
  {
    var sides := Dice.PlainNotation(notation).value.sides;
    var spans := RowGen.Singles(1, sides, count);
    var rows := ViewDefaultRows(notation, count);
    assert rows == Map(spans, RowGen.RangeRow);
    forall i | 0 <= i < |rows|
      ensures HasKey(rows[i], RangeKey) && Ranges.ParserRange(Get(rows[i], RangeKey).value) == Ranges.Bounds(i + 1, i + 1)
    {
      assert rows[i] == RowGen.RangeRow((i + 1, i + 1));
      RowGen.LabelRead((i + 1, i + 1));
    }
  }

  /** With 1 to 100 rows the d100 spans tile 1 to 100 in order, every span
      but the last `⌊100 / count⌋` wide and the last at least as wide. */
  lemma {:induction false} HundredTiles(count: int)
    requires 1 <= count <= 100
    ensures var spans := HundredSpans(count);
      |spans| == count && RowGen.Tiles(spans, 1, 100)
      && (forall i | 0 <= i < count :: 1 <= spans[i].0 <= spans[i].1)
      && (forall i | 0 <= i < count - 1 :: spans[i].1 - spans[i].0 + 1 == 100 / count)
      && spans[count - 1].1 - spans[count - 1].0 + 1 >= 100 / count
  {
    var spans := HundredSpans(count);
    forall i | 0 <= i < count
      ensures 1 <= spans[i].0 <= spans[i].1
      ensures i < count - 1 ==> spans[i].1 - spans[i].0 + 1 == 100 / count
      ensures i == count - 1 ==> spans[i].1 - spans[i].0 + 1 >= 100 / count
    {
      SpanAt(count, i);
    }
    forall i | 0 <= i < count - 1 ensures spans[i + 1].0 == spans[i].1 + 1 {
      SpanAt(count, i);
      SpanAt(count, i + 1);
    }
    SpanAt(count, 0);
    SpanAt(count, count - 1);
  }

  /** Span `i` of the d100 spans: where it starts and ends, and its width. */
  lemma {:induction false} SpanAt(count: int, i: int)
    requires 1 <= count <= 100 && 0 <= i < count
    ensures var w := 100 / count;
      var sp := HundredSpans(count)[i];
      sp.0 == i * w + 1 && 1 <= sp.0 <= sp.1
      && (i < count - 1 ==> sp.1 == (i + 1) * w && sp.1 - sp.0 + 1 == w)
      && (i == count - 1 ==> sp.1 == 100 && sp.1 - sp.0 + 1 >= w)
  {
    var w := 100 / count;
    WidthBounds(count);
    var sp := HundredSpans(count)[i];
    assert sp == (i * w + 1, if i == count - 1 then 100 else (i + 1) * w);
    RowGen.MulStep(i + 1, w);
    RowGen.MulMono(0, i, w);
    RowGen.MulMono(i, count - 1, w);
    RowGen.MulStep(count - 1 + 1, w);
  }

  /** The d100 width is at least 1, and `count` widths fit in 100. */
  lemma {:induction false} WidthBounds(count: int)
    requires 1 <= count <= 100
    ensures 1 <= 100 / count && (count - 1) * (100 / count) + 100 / count <= 100
  {
    var w := 100 / count;
    assert 100 == w * count + 100 % count;
    RowGen.MulStep(count - 1 + 1, w);
  }

  /** The d100 rows: one per span. */
  function HundredRows(count: int): (rows: seq<RowData>) {
    Map(HundredSpans(count), SpanRow)
  }

  /** A d100 with 1 to 100 rows gets a row per span, the spans tile 1 to
      100, and the table parser reads each row's range back as its span. */
  lemma {:induction false} HundredRowsRead(count: int)
    requires 1 <= count <= 100
    ensures var rows := HundredRows(count);
      var spans := HundredSpans(count);
      |rows| == count && RowGen.Tiles(spans, 1, 100)
      && forall i | 0 <= i < count ::
        (HasKey(rows[i], RangeKey)
        && Ranges.ParserRange(Get(rows[i], RangeKey).value).min == spans[i].0
        && Ranges.ParserRange(Get(rows[i], RangeKey).value).max == spans[i].1)
  {
    var rows := HundredRows(count);
    var spans := HundredSpans(count);
    HundredTiles(count);
    forall i | 0 <= i < count
      ensures HasKey(rows[i], RangeKey)
        && Ranges.ParserRange(Get(rows[i], RangeKey).value).min == spans[i].0
        && Ranges.ParserRange(Get(rows[i], RangeKey).value).max == spans[i].1
    {
      SpanRowRead(spans[i]);
    }
  }

  /** A span of naturals written as "a-b" reads back as those bounds. */
  lemma {:induction false} SpanRowRead(s: RowGen.Span)
    requires 0 <= s.0 && 0 <= s.1
    ensures HasKey(SpanRow(s), RangeKey)
      && Ranges.ParserRange(Get(SpanRow(s), RangeKey).value) == Ranges.Bounds(s.0, s.1)
  {
    Ranges.RenderSpanRead(NatToString(s.0), NatToString(s.1), s.0, s.1, Ranges.AllDashes);
    assert Get(SpanRow(s), RangeKey) == Some(IntToString(s.0) + "-" + IntToString(s.1));
  }

  // ---------------------------------------------------------------------------
  // undo history

  /** The view's history when it opens: empty, at index -1. */
  function Start(s: TableState): (m: BuilderState.Manager)
    ensures BuilderState.Capturable(m) && !BuilderState.Valid(m) && m.current == s
  {
    BuilderState.Manager(s, [], -1)
  }

  /** `undo()`: a step back when the index is above 0, and nothing otherwise. */
  function ViewUndo(m: BuilderState.Manager): (r: BuilderState.Manager)
    requires BuilderState.Capturable(m)
    ensures BuilderState.Capturable(r) && r.history == m.history
    ensures BuilderState.Valid(m) ==> r == BuilderState.Undo(m).0
    ensures m.index <= 0 ==> r == m
  {
    if m.index > 0 then BuilderState.Manager(m.history[m.index - 1].state, m.history, m.index - 1) else m
  }

  /** `redo()`: a step forward when the index is below the last entry. */
  function ViewRedo(m: BuilderState.Manager): (r: BuilderState.Manager)
    requires BuilderState.Capturable(m)
    ensures BuilderState.Capturable(r) && r.history == m.history
    ensures BuilderState.Valid(m) ==> r == BuilderState.Redo(m).0
    ensures m.history == [] ==> r == m
  {
    if m.index < |m.history| - 1 then BuilderState.Manager(m.history[m.index + 1].state, m.history, m.index + 1) else m
  }

  /** An edit as the view makes it: `captureState()` first, then the
      change. The snapshot taken is the state before the change. */
  function ViewEdit(m: BuilderState.Manager, s: TableState, now: int): (r: BuilderState.Manager)
    requires BuilderState.Capturable(m)
    ensures BuilderState.Valid(r) && r.current == s
    ensures r.index == |r.history| - 1 && r.history[r.index] == BuilderState.HistoryEntry(m.current, now)
  {
    BuilderState.Capture(m, now).(current := s)
  }

  /** The first edit cannot be undone: the history holds only the state
      before it, so `undo()` does nothing and the edit stays. */
  lemma {:induction false} FirstEditStays(s0: TableState, s1: TableState, now: int)
    ensures var m := ViewEdit(Start(s0), s1, now);
      m.history == [BuilderState.HistoryEntry(s0, now)] && ViewUndo(m) == m && ViewUndo(m).current == s1
  {
  }

  /** After two edits one undo goes back past the first edit to the state
      before both, and a redo then stops at the state after the first edit:
      the second edit cannot be got back. */
  lemma {:induction false} UndoSkipsEdit(s0: TableState, s1: TableState, s2: TableState, t1: int, t2: int)
    ensures var m := ViewEdit(ViewEdit(Start(s0), s1, t1), s2, t2);
      var u := ViewUndo(m);
      m.current == s2 && u.current == s0 && ViewRedo(u).current == s1 && ViewRedo(ViewRedo(u)) == ViewRedo(u)
  {
    var m1 := ViewEdit(Start(s0), s1, t1);
    assert m1.history == [BuilderState.HistoryEntry(s0, t1)];
    var m := ViewEdit(m1, s2, t2);
    assert m.history == [BuilderState.HistoryEntry(s0, t1), BuilderState.HistoryEntry(s1, t2)] && m.index == 1;
  }

  /** An edit that captures the state after the change, as the state
      manager's `setState(s, true)` does; the history starts with the
      opening state, as `new StateManager(s)` has it. */
  function CapturedEdit(m: BuilderState.Manager, s: TableState, now: int): (r: BuilderState.Manager)
    requires BuilderState.Valid(m)
    ensures BuilderState.AtSnapshot(r) && r.current == s
  {
    BuilderState.SetState(m, s, true, now)
  }

  /** Undo after a captured edit gives back the state before it, also when
      the history is full, and redo then gives back the edit. */
  lemma {:induction false} CapturedEditUndone(m: BuilderState.Manager, s: TableState, now: int)
    requires BuilderState.AtSnapshot(m)
    ensures var e := CapturedEdit(m, s, now);
      var u := ViewUndo(e);
      u.current == m.current && ViewRedo(u) == e
  {
    var e := CapturedEdit(m, s, now);
    var m' := m.(current := s);
    assert e == BuilderState.Capture(m', now);
    if m.index + 1 < BuilderState.MaxHistory {
      assert e.history == m.history[..m.index + 1] + [BuilderState.HistoryEntry(s, now)];
      assert e.history[e.index - 1] == m.history[m.index];
    } else {
      assert e.history == m.history[1..] + [BuilderState.HistoryEntry(s, now)];
      assert e.history[e.index - 1] == m.history[m.index];
    }
    BuilderState.UndoThenRedo(e);
  }

  /** With captured edits the first edit is undone back to the opening state. */
  lemma {:induction false} CapturedFirstEdit(s0: TableState, s1: TableState, t0: int, t1: int)
    ensures ViewUndo(CapturedEdit(BuilderState.Create(s0, t0), s1, t1)).current == s0
  {
    CapturedEditUndone(BuilderState.Create(s0, t0), s1, t1);
  }

  // ---------------------------------------------------------------------------
  // column and row edits

  /** The name `addColumn` gives: "reroll" for a reroll column, otherwise
      "Column n" for the number of columns already there. */
  function NewColumnName(reroll: bool, n: nat): string {
    if reroll then "reroll" else "Column " + NatToString(n)
  }

  /** `addColumn(type)`, for a reroll column or a regular one. */
  function AddColumn(s: TableState, reroll: bool): (r: TableState)
    ensures |r.columns| == |s.columns| + 1 && r.columns[..|s.columns|] == s.columns
    ensures r.columns[|s.columns|].kind == (if reroll then RerollType else RegularType)
    ensures r.columns[|s.columns|].name == NewColumnName(reroll, |s.columns|)
    ensures r.rows == s.rows && r.tableName == s.tableName && r.isPrivate == s.isPrivate && r.tableReroll == s.tableReroll
  {
    var col := ColumnConfig(NewColumnName(reroll, |s.columns|), if reroll then RerollType else RegularType, None);
    assert (s.columns + [col])[..|s.columns|] == s.columns;
    s.(columns := s.columns + [col])
  }

  /** Every row holds each key once, as a JavaScript object does. */
  predicate RowsKeyed(rows: seq<RowData>) {
    forall i | 0 <= i < |rows| :: UniqueKeys(rows[i])
  }

  /** `after` is `before` without the key and otherwise the same. */
  ghost predicate Dropped(before: RowData, after: RowData, key: string) {
    !HasKey(after, key) && forall k :: k != key ==> Get(after, k) == Get(before, k)
  }

  /** `rows.forEach(row => { delete row[key]; })`. */
  function DeleteKey(rows: seq<RowData>, key: string): (r: seq<RowData>)
    requires RowsKeyed(rows)
    ensures |r| == |rows| && RowsKeyed(r)
    ensures forall i | 0 <= i < |rows| :: Dropped(rows[i], r[i], key)
  {
    seq(|rows|, i requires 0 <= i < |rows| => Delete(rows[i], key))
  }

  /** `deleteColumn(index)`: refused, with no change, when one column is
      left; otherwise the column goes and its key goes from every row. */
  function DeleteColumn(s: TableState, index: nat): (r: Option<TableState>)
    requires index < |s.columns| && RowsKeyed(s.rows)
    ensures r.None? <==> |s.columns| <= 1
    ensures r.Some? ==> r.value.columns == s.columns[..index] + s.columns[index + 1..]
    ensures r.Some? ==> (|r.value.rows| == |s.rows| && RowsKeyed(r.value.rows)
      && forall i | 0 <= i < |s.rows| :: Dropped(s.rows[i], r.value.rows[i], CellKey(s.columns[index])))
    ensures r.Some? ==> (r.value.tableName == s.tableName && r.value.isPrivate == s.isPrivate
      && r.value.tableReroll == s.tableReroll)
  {
    if |s.columns| <= 1 then None
    else
      var cols := JsArrays.RemoveAt(s.columns, index);
      assert cols == s.columns[..index] + s.columns[index + 1..];
      Some(s.(columns := cols, rows := DeleteKey(s.rows, CellKey(s.columns[index]))))
  }

  /** Deleting the column just added gives the table back, when no row
      holds a cell under the new column's name. */
  lemma {:induction false} AddThenDeleteColumn(s: TableState, reroll: bool)
    requires |s.columns| >= 1 && RowsKeyed(s.rows)
    requires forall i | 0 <= i < |s.rows| :: !HasKey(s.rows[i], NewColumnName(reroll, |s.columns|))
    ensures DeleteColumn(AddColumn(s, reroll), |s.columns|) == Some(s)
  {
    var a := AddColumn(s, reroll);
    var key := CellKey(a.columns[|s.columns|]);
    assert key == NewColumnName(reroll, |s.columns|);
    DeleteAbsent(s.rows, key);
    assert a.columns[..|s.columns|] + a.columns[|s.columns| + 1..] == s.columns;
  }

  /** Deleting a key no row holds leaves the rows as they were. */
  lemma {:induction false} DeleteAbsent(rows: seq<RowData>, key: string)
    requires RowsKeyed(rows) && forall i | 0 <= i < |rows| :: !HasKey(rows[i], key)
    ensures DeleteKey(rows, key) == rows
  {
    var r := DeleteKey(rows, key);
    forall i | 0 <= i < |rows| ensures r[i] == rows[i] {
      assert r[i] == Delete(rows[i], key);
    }
  }

  /** `addRow()`: an empty row at the end. */
  function AddRow(s: TableState): (r: TableState)
    ensures |r.rows| == |s.rows| + 1 && r.rows[..|s.rows|] == s.rows && r.rows[|s.rows|] == []
    ensures r.columns == s.columns && r.tableName == s.tableName
  {
    assert (s.rows + [[]])[..|s.rows|] == s.rows;
    s.(rows := s.rows + [[]])
  }

  /** The builder's table with the selected row of its grid. */
  datatype Grid = Grid(state: TableState, selected: int)

  /** The selection points at a row, or is 0 when there is none. Clicks,
      arrow keys and the row buttons keep it so; `undo` and `redo` replace
      the rows without moving it, so it can be left past the end. */
  predicate Selectable(g: Grid) {
    0 <= g.selected && (|g.state.rows| > 0 ==> g.selected < |g.state.rows|)
  }

  /** `duplicateRow()`: nothing on an empty grid; otherwise a copy of the
      selected row goes right after it and the copy is selected. A selection
      past the end reads `undefined`, and cloning it throws. */
  function DuplicateRow(g: Grid): (r: Result<Grid>)
    requires 0 <= g.selected
    ensures |g.state.rows| == 0 ==> r == Ok(g)
    ensures |g.state.rows| > 0 ==> (r.Err? <==> g.selected >= |g.state.rows|)
    ensures r.Err? ==> r.message == BuilderUtils.NoRowError
    ensures |g.state.rows| > 0 && r.Ok? ==> (|r.value.state.rows| == |g.state.rows| + 1 && r.value.selected == g.selected + 1
      && r.value.state.rows[r.value.selected] == g.state.rows[g.selected]
      && r.value.state.rows[..r.value.selected] == g.state.rows[..r.value.selected]
      && r.value.state.rows[r.value.selected + 1..] == g.state.rows[r.value.selected..])
    ensures |g.state.rows| > 0 && r.Ok? ==> Ok(r.value.state) == BuilderUtils.DuplicateRow(g.state, g.selected)
    ensures Selectable(g) ==> r.Ok? && Selectable(r.value)
  {
    if |g.state.rows| == 0 then Ok(g)
    else if g.selected >= |g.state.rows| then Err(BuilderUtils.NoRowError)
    else
      var k := g.selected + 1;
      var rows := g.state.rows[..k] + [g.state.rows[g.selected]] + g.state.rows[k..];
      assert BuilderUtils.DuplicateRow(g.state, g.selected).value.rows == rows;
      Ok(Grid(g.state.(rows := rows), k))
  }

  /** `deleteRow()`: nothing on an empty grid; otherwise the selected row
      goes and the selection steps back if it fell off the end. A selection
      past the end removes nothing and only steps back. */
  function DeleteRow(g: Grid): (r: Grid)
    requires 0 <= g.selected
    ensures |g.state.rows| == 0 ==> r == g
    ensures 0 < |g.state.rows| && g.selected < |g.state.rows| ==>
      (r.state.rows == g.state.rows[..g.selected] + g.state.rows[g.selected + 1..]
      && r.selected == (if g.selected == |g.state.rows| - 1 && g.selected > 0 then g.selected - 1 else g.selected))
    ensures 0 < |g.state.rows| <= g.selected ==> r.state == g.state && r.selected == g.selected - 1
    ensures |g.state.rows| > 0 ==> r.state == BuilderUtils.RemoveRow(g.state, g.selected)
    ensures Selectable(g) ==> Selectable(r)
  {
    if |g.state.rows| == 0 then g
    else
      var rows := if g.selected < |g.state.rows| then g.state.rows[..g.selected] + g.state.rows[g.selected + 1..] else g.state.rows;
      assert BuilderUtils.RemoveRow(g.state, g.selected).rows == rows by {
        if g.selected < |g.state.rows| {
          assert JsArrays.RemoveAt(g.state.rows, g.selected) == rows;
        }
      }
      Grid(g.state.(rows := rows), if g.selected >= |rows| && g.selected > 0 then g.selected - 1 else g.selected)
  }

  /** With one row and the selection left on a third row, as `undo` after two
      `addRow`s leaves it, duplicating throws and deleting removes nothing. */
  lemma {:induction false} StaleSelection(s: TableState)
    requires |s.rows| == 1
    ensures DuplicateRow(Grid(s, 2)) == Err(BuilderUtils.NoRowError)
    ensures DeleteRow(Grid(s, 2)) == Grid(s, 1)
  {
  }

  /** Deleting a duplicated row gives the rows back; the selection stays on
      the copy's place unless the copy was the last row. */
  lemma {:induction false} DuplicateThenDelete(g: Grid)
    requires Selectable(g) && |g.state.rows| > 0
    ensures DuplicateRow(g).Ok?
    ensures var r := DeleteRow(DuplicateRow(g).value);
      r.state == g.state
      && r.selected == (if g.selected == |g.state.rows| - 1 then g.selected else g.selected + 1)
  {
    var k := g.selected + 1;
    var xs := g.state.rows;
    var d := DuplicateRow(g).value;
    assert d.state.rows == xs[..k] + [xs[g.selected]] + xs[k..];
    assert d.state.rows[..k] == xs[..k] && d.state.rows[k + 1..] == xs[k..];
    assert xs[..k] + xs[k..] == xs;
  }

  /** Deleting the row just added at the end, with that row selected, gives the rows back. */
  lemma {:induction false} AddThenDeleteRow(s: TableState)
    ensures DeleteRow(Grid(AddRow(s), |s.rows|)).state == s
  {
    assert AddRow(s).rows[..|s.rows|] == s.rows;
  }

  // ---------------------------------------------------------------------------
  // saving into the note

  /** `lines[i].trim() === '# ' + tableName`. */
  predicate ExactHeading(line: string, name: string) {
    Trim(line) == "# " + name
  }

  /** `line.startsWith('# ')`. */
  predicate StartsHashSpace(line: string) {
    StartsWith(line, "# ")
  }

  /** A line starting "# " starts with `#` and is not blank. */
  lemma {:induction false} HashSpaceFilled(line: string)
    requires StartsHashSpace(line)
    ensures BuilderIO.StartsWithHash(line) && BuilderIO.Filled(line)
  {
    assert line[0] == '#' && !IsWhitespace(line[0]);
  }

  /** The heading of the table: the first line that is exactly "# name" once trimmed. */
  function ViewFind(lines: seq<string>, name: string): (o: Option<nat>)
    ensures o.None? <==> forall i | 0 <= i < |lines| :: !ExactHeading(lines[i], name)
    ensures o.Some? ==> o.value < |lines| && ExactHeading(lines[o.value], name)
    ensures o.Some? ==> forall j | 0 <= j < o.value :: !ExactHeading(lines[j], name)
  {
    FirstWhere(lines, (l: string) => ExactHeading(l, name))
  }

  /** Where the section of the table ends: the next line starting "# ", or the end. */
  function ViewStop(lines: seq<string>, start: nat): (stop: nat)
    requires start < |lines|
    ensures start < stop <= |lines|
    ensures forall i | start < i < stop :: !StartsHashSpace(lines[i])
    ensures stop < |lines| ==> StartsHashSpace(lines[stop])
  {
    NextWhere(lines, start + 1, StartsHashSpace)
  }

  /** The lines after saving into the section at `start`: the lines before
      the heading without their trailing blanks, the table between blank
      lines, and every line from the next "# " line on. */
  function ViewSavedLines(lines: seq<string>, start: nat, table: string): (r: seq<string>)
    requires start < |lines|
    ensures r == BuilderIO.Before(lines, start) + ["", table, ""] + lines[ViewStop(lines, start)..]
  {
    var stop := ViewStop(lines, start);
    var after := lines[stop..];
    assert after == [] || BuilderIO.Filled(after[0]) by {
      if stop < |lines| {
        HashSpaceFilled(lines[stop]);
      }
    }
    NextWhereAt(after, 0, BuilderIO.Filled, 0);
    BuilderIO.Before(lines, start) + ["", table, ""] + BuilderIO.DropLeadingBlanks(after)
  }

  /** `saveToCurrentFile()` given the note's text, the generated Markdown
      and the table name: the section is replaced when the heading is
      found, and the table is appended after a blank line when it is not. */
  function ViewSaveContent(content: string, markdown: string, name: string): (r: string)
    ensures ViewFind(Split(content, "\n"), name).None? ==> r == content + "\n\n" + BuilderIO.AppendText(markdown)
    ensures ViewFind(Split(content, "\n"), name).Some? ==>
      var lines := Split(content, "\n");
      var start := ViewFind(lines, name).value;
      r == Join(BuilderIO.Before(lines, start) + ["", BuilderIO.AppendText(markdown), ""] + lines[ViewStop(lines, start)..], "\n")
  {
    var lines := Split(content, "\n");
    match ViewFind(lines, name)
    case Some(start) => Join(ViewSavedLines(lines, start, BuilderIO.AppendText(markdown)), "\n")
    case None => content + "\n\n" + BuilderIO.AppendText(markdown)
  }

  /** A table text this save can find again: its first line is the heading
      and no later line starts "# ". */
  predicate ViewTableFits(table: string, name: string) {
    var t := Split(table, "\n");
    ExactHeading(t[0], name) && forall i | 1 <= i < |t| :: !StartsHashSpace(t[i])
  }

  /** The lines around a found section: one line each, no heading for the
      table before it, a filled line just before it and a "# " line just after. */
  lemma {:induction false} AroundViewSection(lines: seq<string>, start: nat, name: string)
    requires start < |lines| && BuilderIO.OneLineEach(lines)
    requires forall j | 0 <= j < start :: !ExactHeading(lines[j], name)
    ensures var before := BuilderIO.Before(lines, start);
      BuilderIO.OneLineEach(before) && NoneOf(before, (l: string) => ExactHeading(l, name))
      && (before == [] || BuilderIO.Filled(before[|before| - 1]))
    ensures var after := lines[ViewStop(lines, start)..];
      BuilderIO.OneLineEach(after) && (after == [] || StartsHashSpace(after[0]))
  {
    var before := BuilderIO.Before(lines, start);
    assert forall i | 0 <= i < |before| :: before[i] == lines[i];
    AfterViewSection(lines, start);
  }

  /** The lines from the end of a section on hold no line feed and start with a "# " line. */
  lemma {:induction false} AfterViewSection(lines: seq<string>, start: nat)
    requires start < |lines| && BuilderIO.OneLineEach(lines)
    ensures var after := lines[ViewStop(lines, start)..];
      BuilderIO.OneLineEach(after) && (after == [] || StartsHashSpace(after[0]))
  {
    var stop := ViewStop(lines, start);
    assert forall i | 0 <= i < |lines[stop..]| :: lines[stop..][i] == lines[stop + i];
  }

  /** Saving the table again into the lines a save left gives the same lines. */
  lemma {:induction false} ViewSplicedResave(before: seq<string>, t: seq<string>, table: string, after: seq<string>, name: string)
    requires before == [] || BuilderIO.Filled(before[|before| - 1])
    requires NoneOf(before, (l: string) => ExactHeading(l, name))
    requires |t| >= 1 && ExactHeading(t[0], name) && forall i | 1 <= i < |t| :: !StartsHashSpace(t[i])
    requires after == [] || StartsHashSpace(after[0])
    ensures var flat := BuilderIO.Spliced(before, t, after);
      ViewFind(flat, name) == Some(|before| + 1)
      && ViewSavedLines(flat, |before| + 1, table) == before + ["", table, ""] + after
  {
    var flat := BuilderIO.Spliced(before, t, after);
    var s2 := |before| + 1;
    assert !ExactHeading("", name) by {
      assert Trim("") == "";
    }
    assert !StartsHashSpace("");
    NoneOfConcat(before, [""], (l: string) => ExactHeading(l, name));
    assert flat == (before + [""]) + (t + [""] + after);
    FirstWhereAfter(before + [""], t + [""] + after, (l: string) => ExactHeading(l, name));
    NextWhereSplice(before, "", t, after, StartsHashSpace);
    assert flat[..s2] == before + [""];
    BuilderIO.DropAddedBlank(before);
    assert flat[s2 + |t| + 1..] == after;
  }

  /** Saving twice is saving once, when the note holds the heading and the
      table text is one this save finds again. */
  lemma {:induction false} ViewSaveTwice(content: string, markdown: string, name: string)
    requires ViewFind(Split(content, "\n"), name).Some?
    requires ViewTableFits(BuilderIO.AppendText(markdown), name)
    ensures ViewSaveContent(ViewSaveContent(content, markdown, name), markdown, name) == ViewSaveContent(content, markdown, name)
  {
    var lines := Split(content, "\n");
    var start := ViewFind(lines, name).value;
    var table := BuilderIO.AppendText(markdown);
    var before := BuilderIO.Before(lines, start);
    var after := lines[ViewStop(lines, start)..];
    SplitFree(content, '\n');
    AroundViewSection(lines, start, name);
    BuilderIO.SplicedSplit(before, table, after);
    ViewSplicedResave(before, Split(table, "\n"), table, after, name);
  }

  /** No line of a generated table after its heading starts with `#`. */
  lemma {:induction false} TableBodyNoHash(s: TableState)
    ensures NoneOf(BuilderIO.TableBody(s), StartsHashSpace)
  {
    var names := MarkdownExport.PipeLine(ColumnNames(s.columns));
    var sep := MarkdownExport.SeparatorLine(|s.columns|);
    DirectivesNoHash(s.isPrivate, s.tableReroll);
    RowLinesNoHash(s.rows, s.columns);
    PipeNoHash(ColumnNames(s.columns));
    BuilderIO.PipeLinePlain(ColumnNames(s.columns));
    BuilderIO.PlainLine(sep);
    BuilderIO.SeparatorPlain(|s.columns|);
    BuilderIO.RowLinesPlain(s.rows, s.columns);
    BlockNoneOf("", MarkdownExport.Directives(s.isPrivate, s.tableReroll), names, sep,
      MarkdownExport.RowLines(s.rows, s.columns), StartsHashSpace, BuilderIO.Filled);
  }

  /** A pipe line does not start "# ". */
  lemma {:induction false} PipeNoHash(cells: seq<string>)
    ensures !StartsHashSpace(MarkdownExport.PipeLine(cells))
  {
    BuilderIO.PlainLine(MarkdownExport.PipeLine(cells));
  }

  /** No directive line starts "# ". */
  lemma {:induction false} DirectivesNoHash(isPrivate: bool, reroll: Option<string>)
    ensures NoneOf(MarkdownExport.Directives(isPrivate, reroll), StartsHashSpace)
  {
    var p: seq<string> := if isPrivate then ["private: true"] else [];
    var r: seq<string> := if TableParser.Truthy(reroll) then ["reroll: " + reroll.value] else [];
    var e: seq<string> := if isPrivate || TableParser.Truthy(reroll) then [""] else [];
    assert "private: true"[0] == 'p';
    assert !StartsHashSpace("") && !StartsHashSpace("private: true");
    if TableParser.Truthy(reroll) {
      assert ("reroll: " + reroll.value)[0] == 'r';
    }
    NoneOfConcat(p, r, StartsHashSpace);
    NoneOfConcat(p + r, e, StartsHashSpace);
  }

  /** No row line starts "# ". */
  lemma {:induction false} RowLinesNoHash(rows: seq<RowData>, columns: seq<ColumnConfig>)
    ensures NoneOf(MarkdownExport.RowLines(rows, columns), StartsHashSpace)
  {
    var lines := MarkdownExport.RowLines(rows, columns);
    forall i | 0 <= i < |lines| ensures !StartsHashSpace(lines[i]) {
      PipeNoHash(CellTexts(rows[i], columns));
    }
  }

  /** The builder's table text is one this save finds again, when the
      table name has no whitespace around it. */
  lemma {:induction false} ViewGeneratedFits(s: TableState)
    requires MarkdownExport.Writable(s) && Trim(s.tableName) == s.tableName
    ensures ViewTableFits(BuilderIO.AppendText(MarkdownExport.GenerateMarkdown(s)), s.tableName)
  {
    var t := BuilderIO.TableLines(s);
    BuilderIO.GeneratedText(s);
    BuilderIO.GeneratedFits(s);
    BuilderIO.HeadingTrim(s.tableName);
    TableBodyNoHash(s);
    forall i | 1 <= i < |t| ensures !StartsHashSpace(t[i]) {
      assert t[i] == BuilderIO.TableBody(s)[i - 1];
    }
  }

  /** Saving the builder's table twice into a note that holds its heading
      leaves the note as the first save left it. */
  lemma {:induction false} ViewSaveTableTwice(content: string, s: TableState)
    requires MarkdownExport.Writable(s) && Trim(s.tableName) == s.tableName
    requires ViewFind(Split(content, "\n"), s.tableName).Some?
    ensures var md := MarkdownExport.GenerateMarkdown(s);
      ViewSaveContent(ViewSaveContent(content, md, s.tableName), md, s.tableName) == ViewSaveContent(content, md, s.tableName)
  {
    ViewGeneratedFits(s);
    ViewSaveTwice(content, MarkdownExport.GenerateMarkdown(s), s.tableName);
  }

  // ---------------------------------------------------------------------------
  // checks before saving

  /** The em dash as this file spells it: the UTF-8 bytes of `—` read back
      as Windows-1252 text, "â€”". */
  const MisreadEmDash: string := "\U{00E2}\U{20AC}\U{201D}"

  /** A reroll cell the view checks: not empty, not "-" and not the misread em dash. */
  predicate ViewChecked(v: string) {
    v != "" && v != MisreadEmDash && v != "-"
  }

  /** A row whose reroll cell raises no error in the view. */
  predicate ViewRowOk(row: RowData, column: string, resolves: string -> bool) {
    !HasKey(row, column) || !ViewChecked(Get(row, column).value)
    || BuilderValidation.ReferenceValid(Get(row, column).value, resolves)
  }

  /** The error of one row's reroll cell, if any. */
  function ViewRowError(row: RowData, column: string, resolves: string -> bool): (errors: seq<string>)
    ensures |errors| <= 1 && (errors == [] <==> ViewRowOk(row, column, resolves))
    ensures errors != [] ==> errors == ["Invalid reroll reference: " + Get(row, column).value]
  {
    match Get(row, column)
    case Some(v) => if ViewChecked(v) && !BuilderValidation.ReferenceValid(v, resolves) then ["Invalid reroll reference: " + v] else []
    case None => []
  }

  /** A row whose range, if it has one, `TableParser.parseRange` does not read as 0-0. */
  predicate ViewRangeOk(row: RowData) {
    !BuilderValidation.HasRangeText(row) || Ranges.ParserRange(Get(row, RangeKey).value) != Ranges.Bounds(0, 0)
  }

  /** The error of one row's range, if any. */
  function ViewRangeError(row: RowData): (errors: seq<string>)
    ensures |errors| <= 1 && (errors == [] <==> ViewRangeOk(row))
    ensures errors != [] ==> errors == ["Invalid range format: " + Get(row, RangeKey).value]
  {
    if BuilderValidation.HasRangeText(row) && Ranges.ParserRange(Get(row, RangeKey).value) == Ranges.Bounds(0, 0) then
      ["Invalid range format: " + Get(row, RangeKey).value]
    else []
  }

  /** `validate()`: the errors it lists, in order; the table is saved only
      when there are none. */
  function ViewValidate(s: TableState, resolves: string -> bool): (errors: seq<string>)
    ensures errors == [] <==>
      !IsBlank(s.tableName)
      && (!TableParser.Truthy(s.tableReroll) || BuilderValidation.ReferenceValid(s.tableReroll.value, resolves))
      && (FirstWhere(s.columns, BuilderValidation.IsRerollColumn).Some? ==>
            forall i | 0 <= i < |s.rows| ::
              ViewRowOk(s.rows[i], s.columns[FirstWhere(s.columns, BuilderValidation.IsRerollColumn).value].name, resolves))
      && (FirstWhere(s.columns, BuilderValidation.IsDiceColumn).Some? ==>
            forall i | 0 <= i < |s.rows| :: ViewRangeOk(s.rows[i]))
  {
    BuilderValidation.NameErrors(s.tableName) + BuilderValidation.TableRerollErrors(s.tableReroll, resolves)
      + ViewRerollErrors(s, resolves) + ViewRangeErrors(s)
  }

  /** The reroll cells of the first reroll column, row by row. */
  function ViewRerollErrors(s: TableState, resolves: string -> bool): (errors: seq<string>)
    ensures |errors| <= |s.rows|
    ensures errors == [] <==> (FirstWhere(s.columns, BuilderValidation.IsRerollColumn).Some? ==>
      forall i | 0 <= i < |s.rows| ::
        ViewRowOk(s.rows[i], s.columns[FirstWhere(s.columns, BuilderValidation.IsRerollColumn).value].name, resolves))
  {
    match FirstWhere(s.columns, BuilderValidation.IsRerollColumn)
    case None => []
    case Some(k) => BuilderValidation.Collect(s.rows, (row: RowData) => ViewRowError(row, s.columns[k].name, resolves))
  }

  /** The ranges, row by row, when there is a dice column. */
  function ViewRangeErrors(s: TableState): (errors: seq<string>)
    ensures |errors| <= |s.rows|
    ensures errors == [] <==> (FirstWhere(s.columns, BuilderValidation.IsDiceColumn).Some? ==>
      forall i | 0 <= i < |s.rows| :: ViewRangeOk(s.rows[i]))
  {
    if FirstWhere(s.columns, BuilderValidation.IsDiceColumn).Some? then BuilderValidation.Collect(s.rows, ViewRangeError) else []
  }

  /** "5+" passes the view's range check and fails the validator's. */
  lemma {:induction false} OpenRangeAccepted()
    ensures ViewRangeError([(RangeKey, "5+")]) == [] && BuilderValidation.RowRange([(RangeKey, "5+")]).1 != []
  {
    var row := [(RangeKey, "5+")];
    assert Get(row, RangeKey) == Some("5+");
    Ranges.OpenFormDisagree();
  }

  /** A one-character text that is not the separator splits into itself. */
  lemma {:induction false} SplitOne(c: char, sep: string)
    requires |sep| == 1 && sep != [c]
    ensures Split([c], sep) == [[c]]
  {
    var v := [c];
    assert v[..|sep|] == v && v[1..] == "";
    var rest := Split(v[1..], sep);
    assert rest == [""];
    assert Split(v, sep) == [[v[0]] + rest[0]] + rest[1..];
    assert [v[0]] + rest[0] == [c] && rest[1..] == [];
  }

  /** The reroll cell "—" names one table, itself. */
  lemma {:induction false} EmDashNames(resolves: string -> bool)
    ensures BuilderValidation.ReferenceValid([Ranges.EmDash], resolves) <==> resolves([Ranges.EmDash])
  {
    var v := [Ranges.EmDash];
    SplitOne(Ranges.EmDash, ",");
    Ranges.NoWhitespaceTrim(v);
    assert Map(Split(v, ","), Trim) == [v];
    assert Roller.RerollNames(v) == [v];
    assert DigitRunFrom(v, 0) == 0;
    assert CliHelper.NdxMatch(v).None?;
  }

  /** The view checks a reroll cell holding the em dash as a table
      reference, and reports it when no table "—" resolves; the validator
      skips it as the "none" mark. */
  lemma {:induction false} EmDashReported(row: RowData, column: string, resolves: string -> bool)
    requires Get(row, column) == Some([Ranges.EmDash]) && !resolves([Ranges.EmDash])
    ensures ViewRowError(row, column, resolves) == ["Invalid reroll reference: " + [Ranges.EmDash]]
    ensures BuilderValidation.RowRerollError(row, column, resolves) == []
  {
    var v := [Ranges.EmDash];
    assert v != MisreadEmDash && ViewChecked(v) && !BuilderValidation.Checked(v);
    EmDashNames(resolves);
    assert !BuilderValidation.ReferenceValid(v, resolves);
  }
}
