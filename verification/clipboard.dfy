/** `parseClipboardData` of src/ui/utils/TableBuilderUtils.ts: pasted text
    becomes a list of values. Text holding a tab is read as spreadsheet rows
    and gives the first cell of each row; otherwise text holding a comma and
    no line feed is a comma list; otherwise every line is a value. */
module Clipboard {
  import opened Strings
  import opened Seqs

  predicate Filled(s: string) {
    !IsBlank(s)
  }

  /** `row.split('\t')[0].trim()`. */
  function FirstTabCell(row: string): (cell: string)
    ensures '\t' !in cell && TrimmedEnds(cell)
  {
    SplitFirstFree(row, '\t');
    Trim(Split(row, "\t")[0])
  }

  /** `.map(v => v.trim()).filter(v => v)`. */
  function TrimmedItems(parts: seq<string>): (values: seq<string>)
    ensures forall i | 0 <= i < |values| :: TrimmedEnds(values[i]) && values[i] != ""
  {
    var trimmed := Map(parts, Trim);
    var values := Filter(trimmed, NonEmptyText);
    assert forall i | 0 <= i < |values| :: TrimmedEnds(values[i]) by {
      forall i | 0 <= i < |values| ensures TrimmedEnds(values[i]) {
        assert values[i] in values;
        assert values[i] in trimmed;
        var j :| 0 <= j < |trimmed| && trimmed[j] == values[i];
        assert trimmed[j] == Trim(parts[j]);
      }
    }
    values
  }

  /** The tab branch: the first cell of every non-blank line. */
  function FirstCells(text: string): (values: seq<string>)
    ensures |values| <= |Split(text, "\n")|
    ensures forall i | 0 <= i < |values| :: TrimmedEnds(values[i]) && '\t' !in values[i]
  {
    var rows := Filter(SplitLinesCrLf(text), Filled);
    SubseqLength(rows, SplitLinesCrLf(text));
    Map(rows, FirstTabCell)
  }

  /** `parseClipboardData(text)`. */
  function ParseClipboardData(text: string): (values: seq<string>)
    ensures IsBlank(text) ==> values == []
    ensures forall i | 0 <= i < |values| :: TrimmedEnds(values[i])
    ensures '\t' in text ==> |values| <= |Split(text, "\n")| && forall i | 0 <= i < |values| :: '\t' !in values[i]
    ensures '\t' !in text ==> forall i | 0 <= i < |values| :: values[i] != ""
  {
    if IsBlank(text) then []
    else if '\t' in text then FirstCells(text)
    else if ',' in text && '\n' !in text then TrimmedItems(Split(text, ","))
    else TrimmedItems(SplitLinesCrLf(text))
  }

  // ---------------------------------------------------------------------------
  // round trips

  /** A value a user would paste as one item: no surrounding whitespace, not
      empty, and none of the separators inside. */
  predicate Item(v: string) {
    v != "" && TrimmedEnds(v) && '\t' !in v && '\n' !in v
  }

  /** A text that starts with a non-whitespace character is not blank. */
  lemma {:induction false} NotBlankAtStart(s: string)
    requires |s| > 0 && !IsWhitespace(s[0])
    ensures !IsBlank(s)
  {
    BlankIffAllWhitespace(s);
  }

  /** Splitting on the line feed gives the lines back, with no carriage return to drop. */
  lemma {:induction false} LinesRead(lines: seq<string>)
    requires |lines| >= 1
    requires forall i | 0 <= i < |lines| :: '\n' !in lines[i] && (lines[i] == "" || lines[i][|lines[i]| - 1] != '\r')
    ensures SplitLinesCrLf(Join(lines, "\n")) == lines
  {
    SplitJoin(lines, '\n');
  }

  /** Items come out of trimming and dropping empty pieces unchanged. */
  lemma {:induction false} ItemsKept(values: seq<string>)
    requires forall i | 0 <= i < |values| :: Item(values[i])
    ensures TrimmedItems(values) == values
  {
    forall i | 0 <= i < |values| ensures Trim(values[i]) == values[i] {
      TrimTrimmed(values[i]);
    }
    assert Map(values, Trim) == values;
    FilterAll(values, NonEmptyText);
  }

  /** Items written one per line are read back as those items. */
  lemma {:induction false} LineListRead(values: seq<string>)
    requires |values| >= 2 && forall i | 0 <= i < |values| :: Item(values[i])
    ensures ParseClipboardData(Join(values, "\n")) == values
  {
    var text := Join(values, "\n");
    JoinStarts(values, "\n");
    assert text[0] == values[0][0];
    NotBlankAtStart(text);
    JoinFree(values, "\n", '\t');
    assert text[|values[0]|] == '\n' by {
      assert text == values[0] + "\n" + Join(values[1..], "\n");
    }
    LinesRead(values);
    ItemsKept(values);
  }

  /** Items written as a comma list on one line are read back as those items. */
  lemma {:induction false} CommaListRead(values: seq<string>)
    requires |values| >= 2 && forall i | 0 <= i < |values| :: Item(values[i]) && ',' !in values[i]
    ensures ParseClipboardData(Join(values, ",")) == values
  {
    var text := Join(values, ",");
    JoinStarts(values, ",");
    assert text[0] == values[0][0];
    NotBlankAtStart(text);
    JoinFree(values, ",", '\t');
    JoinFree(values, ",", '\n');
    assert text[|values[0]|] == ',' by {
      assert text == values[0] + "," + Join(values[1..], ",");
    }
    SplitJoin(values, ',');
    ItemsKept(values);
  }

  /** A spreadsheet row: cells without tab or line break, the first one an item. */
  predicate SheetRow(cells: seq<string>) {
    |cells| >= 1 && Item(cells[0]) && forall j | 0 <= j < |cells| :: '\t' !in cells[j] && NoLineTerminator(cells[j])
  }

  /** A row written with tabs between its cells. */
  function TabLine(cells: seq<string>): string {
    Join(cells, "\t")
  }

  /** A written row reads back as its first cell. */
  lemma {:induction false} TabLineRead(cells: seq<string>)
    requires SheetRow(cells)
    ensures '\n' !in TabLine(cells) && Filled(TabLine(cells))
    ensures |TabLine(cells)| > 0 && TabLine(cells)[|TabLine(cells)| - 1] != '\r'
    ensures FirstTabCell(TabLine(cells)) == cells[0]
  {
    var line := TabLine(cells);
    JoinStarts(cells, "\t");
    NotBlankAtStart(line);
    JoinFree(cells, "\t", '\n');
    JoinFree(cells, "\t", '\r');
    assert '\r' !in line;
    SplitJoin(cells, '\t');
    TrimTrimmed(cells[0]);
  }

  /** Spreadsheet rows pasted with tabs between cells and a line feed
      between rows are read as the first cell of every row, as long as
      the first row has a second cell so that the text holds a tab. */
  lemma {:induction false} SheetRead(rows: seq<seq<string>>)
    requires |rows| >= 1 && |rows[0]| >= 2
    requires forall i | 0 <= i < |rows| :: SheetRow(rows[i])
    ensures ParseClipboardData(Join(Map(rows, TabLine), "\n")) == Map(rows, (r: seq<string>) => if |r| > 0 then r[0] else "")
  {
    var lines := Map(rows, TabLine);
    SheetLines(rows);
    SheetText(rows);
    LinesRead(lines);
    FilterAll(lines, Filled);
  }

  /** Each written row is one filled line that reads back as its first cell. */
  lemma {:induction false} SheetLines(rows: seq<seq<string>>)
    requires forall i | 0 <= i < |rows| :: SheetRow(rows[i])
    ensures var lines := Map(rows, TabLine);
      forall i | 0 <= i < |rows| ::
        '\n' !in lines[i] && Filled(lines[i]) && lines[i][|lines[i]| - 1] != '\r' && FirstTabCell(lines[i]) == rows[i][0]
  {
    var lines := Map(rows, TabLine);
    forall i | 0 <= i < |rows|
      ensures '\n' !in lines[i] && Filled(lines[i]) && lines[i][|lines[i]| - 1] != '\r'
      ensures FirstTabCell(lines[i]) == rows[i][0]
    {
      TabLineRead(rows[i]);
    }
  }

  /** The written rows make a text that is not blank and holds a tab. */
  lemma {:induction false} SheetText(rows: seq<seq<string>>)
    requires |rows| >= 1 && |rows[0]| >= 2
    requires forall i | 0 <= i < |rows| :: SheetRow(rows[i])
    ensures var text := Join(Map(rows, TabLine), "\n"); !IsBlank(text) && '\t' in text
  {
    var lines := Map(rows, TabLine);
    var text := Join(lines, "\n");
    JoinStarts(lines, "\n");
    JoinStarts(rows[0], "\t");
    assert lines[0][|rows[0][0]|] == '\t' by {
      assert lines[0] == rows[0][0] + "\t" + Join(rows[0][1..], "\t");
    }
    assert text[|rows[0][0]|] == '\t';
    assert text[0] == rows[0][0][0];
    NotBlankAtStart(text);
  }
}
