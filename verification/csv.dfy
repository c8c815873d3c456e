/** `escapeCsvCell` and `generateCSV` of src/ui/utils/TableBuilderUtils.ts.
    A reader for the field syntax of section 2 of RFC 4180 (a field in
    double quotes may hold commas, and `""` inside it stands for one
    quote) gives the writer an inverse. The writer does not quote line
    breaks, so the reader works on the text of one line. */
module Csv {
  import opened Strings
  import opened Records
  import opened Seqs
  import opened Columns

  /** `value.includes(',') || value.includes('"')`. */
  predicate NeedsQuotes(v: string) {
    ',' in v || '"' in v
  }

  /** `value.replace(/"/g, '""')`. */
  function DoubleQuotes(v: string): (d: string)
    ensures forall c | c in d :: c == '"' || c in v
    decreases |v|
  {
    if |v| == 0 then ""
    else (if v[0] == '"' then "\"\"" else [v[0]]) + DoubleQuotes(v[1..])
  }

  /** `escapeCsvCell(value)`: a value with a comma or a quote goes in quotes,
      its quotes doubled; any other value is written as it is. */
  function EscapeCsvCell(v: string): (e: string)
    ensures NeedsQuotes(v) ==> |e| >= 2 && e[0] == '"' && e[|e| - 1] == '"'
    ensures !NeedsQuotes(v) ==> e == v
    ensures forall c | c in e :: c == '"' || c in v
  {
    if NeedsQuotes(v) then "\"" + DoubleQuotes(v) + "\"" else v
  }

  // ---------------------------------------------------------------------------
  // reading one line

  /** A field without quotes: everything up to the next comma; the field and what follows it. */
  function PlainField(s: string): (r: (string, string))
    ensures |r.1| <= |s|
    decreases |s|
  {
    if |s| == 0 || s[0] == ',' then ("", s)
    else
      var t := PlainField(s[1..]);
      ([s[0]] + t.0, t.1)
  }

  /** The inside of a quoted field, after its opening quote: `""` is one
      quote and a lone quote closes the field; an unclosed field runs to the end. */
  function QuotedField(s: string): (r: (string, string))
    ensures |r.1| <= |s|
    decreases |s|
  {
    if |s| == 0 then ("", "")
    else if s[0] == '"' then
      if |s| >= 2 && s[1] == '"' then
        var t := QuotedField(s[2..]);
        ("\"" + t.0, t.1)
      else ("", s[1..])
    else
      var t := QuotedField(s[1..]);
      ([s[0]] + t.0, t.1)
  }

  function Field(s: string): (r: (string, string))
    ensures |r.1| <= |s|
  {
    if |s| > 0 && s[0] == '"' then QuotedField(s[1..]) else PlainField(s)
  }

  /** The fields of a line, split at the commas outside quotes. Text after a
      closing quote up to the next comma is not part of any field. */
  function Record(s: string): (fields: seq<string>)
    ensures |fields| >= 1
    decreases |s|
  {
    var (f, rest) := Field(s);
    if |rest| == 0 then [f]
    else if rest[0] == ',' then [f] + Record(rest[1..])
    else [f] + Record(SkipPast(rest))
  }

  /** What follows the next comma, or nothing. */
  function SkipPast(s: string): (r: string)
    requires |s| > 0
    ensures |r| < |s|
    decreases |s|
  {
    if s[0] == ',' || |s| == 1 then s[1..] else SkipPast(s[1..])
  }

  /** The lines of a text, each read as a record. */
  function ReadCsv(text: string): seq<seq<string>> {
    Map(Split(text, "\n"), Record)
  }

  // ---------------------------------------------------------------------------
  // escaping is undone by reading

  /** What may follow a field in a line: the end or a comma. */
  predicate FieldEnd(t: string) {
    t == "" || t[0] == ','
  }

  lemma {:induction false} PlainFieldRead(v: string, t: string)
    requires ',' !in v && FieldEnd(t)
    ensures PlainField(v + t) == (v, t)
    decreases |v|
  {
    if |v| == 0 {
      assert v + t == t;
    } else {
      assert v[0] in v && (v + t)[0] == v[0];
      assert forall c | c in v[1..] :: c in v;
      assert (v + t)[1..] == v[1..] + t;
      PlainFieldRead(v[1..], t);
      assert [v[0]] + v[1..] == v;
    }
  }

  lemma {:induction false} QuotedFieldRead(v: string, t: string)
    requires FieldEnd(t)
    ensures QuotedField(DoubleQuotes(v) + "\"" + t) == (v, t)
    decreases |v|
  {
    var s := DoubleQuotes(v) + "\"" + t;
    if |v| == 0 {
      assert s == "\"" + t;
      assert s[1..] == t;
    } else if v[0] == '"' {
      assert s == "\"\"" + (DoubleQuotes(v[1..]) + "\"" + t);
      assert s[2..] == DoubleQuotes(v[1..]) + "\"" + t;
      QuotedFieldRead(v[1..], t);
      assert "\"" + v[1..] == v;
    } else {
      assert s == [v[0]] + (DoubleQuotes(v[1..]) + "\"" + t);
      assert s[1..] == DoubleQuotes(v[1..]) + "\"" + t;
      QuotedFieldRead(v[1..], t);
      assert [v[0]] + v[1..] == v;
    }
  }

  /** An escaped value followed by the end or a comma is read back as the value. */
  lemma {:induction false} FieldRead(v: string, t: string)
    requires FieldEnd(t)
    ensures Field(EscapeCsvCell(v) + t) == (v, t)
  {
    if NeedsQuotes(v) {
      var s := EscapeCsvCell(v) + t;
      assert s[1..] == DoubleQuotes(v) + "\"" + t;
      QuotedFieldRead(v, t);
    } else {
      PlainFieldRead(v, t);
    }
  }

  /** A line of escaped values joined by commas is read back as the values. */
  lemma {:induction false} RecordRead(cells: seq<string>)
    requires |cells| >= 1
    ensures Record(Join(Map(cells, EscapeCsvCell), ",")) == cells
    decreases |cells|
  {
    var escaped := Map(cells, EscapeCsvCell);
    if |cells| == 1 {
      FieldRead(cells[0], "");
      assert Join(escaped, ",") == EscapeCsvCell(cells[0]) + "";
    } else {
      var tail := Join(escaped[1..], ",");
      assert escaped[1..] == Map(cells[1..], EscapeCsvCell);
      assert Join(escaped, ",") == EscapeCsvCell(cells[0]) + ("," + tail);
      FieldRead(cells[0], "," + tail);
      assert ("," + tail)[1..] == tail;
      RecordRead(cells[1..]);
      assert [cells[0]] + cells[1..] == cells;
    }
  }

  /** Escaping never adds a line break. */
  lemma {:induction false} EscapedLineFree(cells: seq<string>)
    requires forall i | 0 <= i < |cells| :: '\n' !in cells[i]
    ensures '\n' !in Join(Map(cells, EscapeCsvCell), ",")
  {
    JoinFree(Map(cells, EscapeCsvCell), ",", '\n');
  }

  // ---------------------------------------------------------------------------
  // generateCSV

  /** One data line: the escaped cells joined by commas. */
  function DataLine(row: RowData, columns: seq<ColumnConfig>): string {
    Join(Map(CellTexts(row, columns), EscapeCsvCell), ",")
  }

  function DataLines(rows: seq<RowData>, columns: seq<ColumnConfig>): (lines: seq<string>)
    ensures |lines| == |rows| && forall i | 0 <= i < |rows| :: lines[i] == DataLine(rows[i], columns)
  {
    Map(rows, (row: RowData) => DataLine(row, columns))
  }

  function RowsCells(rows: seq<RowData>, columns: seq<ColumnConfig>): (cells: seq<seq<string>>)
    ensures |cells| == |rows| && forall i | 0 <= i < |rows| :: cells[i] == CellTexts(rows[i], columns)
  {
    Map(rows, (row: RowData) => CellTexts(row, columns))
  }

  /** `generateCSV(state)`: the column names joined by commas, as they are,
      then one line per row. */
  function GenerateCSV(s: TableState): string {
    Join([Join(ColumnNames(s.columns), ",")] + DataLines(s.rows, s.columns), "\n")
  }

  /** What a reader gets back: the names, then the cells of each row. */
  function Written(s: TableState): seq<seq<string>> {
    [ColumnNames(s.columns)] + RowsCells(s.rows, s.columns)
  }

  /** No cell of the table holds a line feed. */
  predicate SingleLineCells(s: TableState) {
    forall i, j | 0 <= i < |s.rows| && 0 <= j < |s.columns| :: '\n' !in CellText(s.rows[i], CellKey(s.columns[j]))
  }

  /** No data line holds a line feed when no cell does. */
  lemma {:induction false} DataLinesFree(s: TableState)
    requires SingleLineCells(s)
    ensures forall i | 0 <= i < |s.rows| :: '\n' !in DataLines(s.rows, s.columns)[i]
  {
    forall i | 0 <= i < |s.rows| ensures '\n' !in DataLines(s.rows, s.columns)[i] {
      EscapedLineFree(CellTexts(s.rows[i], s.columns));
    }
  }

  /** Lines without line feeds are read one record per line. */
  lemma {:induction false} LinesRead(lines: seq<string>)
    requires |lines| >= 1 && forall i | 0 <= i < |lines| :: '\n' !in lines[i]
    ensures ReadCsv(Join(lines, "\n")) == Map(lines, Record)
  {
    SplitJoin(lines, '\n');
  }

  /** Each data line reads back as the cells of its row. */
  lemma {:induction false} DataLinesRecords(s: TableState)
    requires |s.columns| >= 1
    ensures Map(DataLines(s.rows, s.columns), Record) == RowsCells(s.rows, s.columns)
  {
    var read := Map(DataLines(s.rows, s.columns), Record);
    forall i | 0 <= i < |s.rows| ensures read[i] == RowsCells(s.rows, s.columns)[i] {
      RecordRead(CellTexts(s.rows[i], s.columns));
    }
  }

  /** The data lines read back as the cells of each row. */
  lemma {:induction false} DataLinesRead(s: TableState, header: string)
    requires SingleLineCells(s) && |s.columns| >= 1 && '\n' !in header
    ensures ReadCsv(Join([header] + DataLines(s.rows, s.columns), "\n"))
      == [Record(header)] + RowsCells(s.rows, s.columns)
  {
    var data := DataLines(s.rows, s.columns);
    var lines := [header] + data;
    DataLinesFree(s);
    LinesRead(lines);
    DataLinesRecords(s);
    assert Map(lines, Record) == [Record(header)] + Map(data, Record);
  }

  /** With names that need no quoting and cells on one line each, the CSV
      reads back as the names and the cells. */
  lemma {:induction false} CsvRead(s: TableState)
    requires |s.columns| >= 1 && SingleLineCells(s)
    requires forall j | 0 <= j < |s.columns| :: !NeedsQuotes(s.columns[j].name) && '\n' !in s.columns[j].name
    ensures ReadCsv(GenerateCSV(s)) == Written(s)
  {
    var names := ColumnNames(s.columns);
    assert Map(names, EscapeCsvCell) == names;
    EscapedLineFree(names);
    RecordRead(names);
    DataLinesRead(s, Join(names, ","));
  }

  // ---------------------------------------------------------------------------
  // the header line

  /** A column named `a,b` is read back as two columns: the names are not escaped. */
  lemma {:induction false} UnescapedHeaderMisread()
    ensures var s := TableState("t", [ColumnConfig("a,b", RegularType, Outcomes.None)], [], false, Outcomes.None);
      ReadCsv(GenerateCSV(s))[0] == ["a", "b"] != ColumnNames(s.columns)
  {
    var s := TableState("t", [ColumnConfig("a,b", RegularType, Outcomes.None)], [], false, Outcomes.None);
    assert ColumnNames(s.columns) == ["a,b"];
    assert DataLines(s.rows, s.columns) == [];
    assert GenerateCSV(s) == "a,b";
    SplitWithoutSeparator("a,b", '\n');
    assert ReadCsv("a,b") == [Record("a,b")];
    PlainFieldRead("a", ",b");
    assert "a" + ",b" == "a,b" && ",b"[1..] == "b";
    PlainFieldRead("b", "");
    assert "b" + "" == "b";
    assert Record("b") == ["b"];
  }

  /** `generateCSV` with the names escaped like the cells. */
  function GenerateCSVEscaped(s: TableState): string {
    Join([Join(Map(ColumnNames(s.columns), EscapeCsvCell), ",")] + DataLines(s.rows, s.columns), "\n")
  }

  /** With the names escaped, every name reads back, commas and quotes included. */
  lemma {:induction false} CsvEscapedRead(s: TableState)
    requires |s.columns| >= 1 && SingleLineCells(s)
    requires forall j | 0 <= j < |s.columns| :: '\n' !in s.columns[j].name
    ensures ReadCsv(GenerateCSVEscaped(s)) == Written(s)
  {
    var names := ColumnNames(s.columns);
    EscapedLineFree(names);
    RecordRead(names);
    DataLinesRead(s, Join(Map(names, EscapeCsvCell), ","));
  }
}
