/** `TableParser` of src/services/tables/table-parser.ts: one table per
    file, named and flagged by frontmatter, whose body is a single Markdown
    table read into typed columns and rows of cells. The frontmatter key
    names come from ./constants, which is not part of this model: they are
    a parameter. Column ids are random UUIDs and are left out. */
module BodyParser {
  import opened Outcomes
  import opened Strings
  import opened Records
  import opened Seqs
  import opened Markdown
  import opened Frontmatter
  import opened Columns
  import TableParser

  /** The five frontmatter keys of ./constants. */
  datatype Keys = Keys(tableParser: string, name: string, rerollTable: string, isHidden: string, diceColumn: string)

  /** A `TableColumn` without its id. */
  datatype Column = Column(name: string, kind: ColumnType)

  /** `{ columns, rows }` of `parseTableBody`. */
  datatype Body = Body(columns: seq<Column>, rows: seq<Record<string>>)

  /** The `Table` `parseTable` returns. Frontmatter values are typed as
      read, so a `name: true` line gives the boolean `true` as the name. */
  datatype BodyTable = BodyTable(
    name: FmValue,
    rerollTable: Option<FmValue>,
    isHidden: FmValue,
    diceColumn: Option<FmValue>,
    columns: seq<Column>,
    rows: seq<Record<string>>)

  /** `extractFrontmatterAndBody`: the text of the frontmatter block and the
      body after it, or `""` and the whole content when there is no block. */
  function ExtractFrontmatterAndBody(content: string): (r: (string, string))
    ensures SplitFrontmatter(content).None? ==> r == ("", content)
    ensures SplitFrontmatter(content).Some? ==> r == SplitFrontmatter(content).value
  {
    match SplitFrontmatter(content)
    case None => ("", content)
    case Some(parts) => parts
  }

  /** The frontmatter record of a file, as both `isTableParserTable` and `parseTable` read it. */
  function FrontMatterOf(content: string): Record<FmValue> {
    ParseFrontMatter(ExtractFrontmatterAndBody(content).0)
  }

  /** `isTableParserTable`: the marker key holds the boolean `true`; the text `"true"` in quotes does not count. */
  function IsTableParserTable(keys: Keys, content: string): (b: bool)
    ensures b <==> Get(FrontMatterOf(content), keys.tableParser) == Some(FmBool(true))
  {
    FlagSet(FrontMatterOf(content), keys.tableParser)
  }

  /** `determineColumnType(columnName, diceColumn)`. */
  function DetermineColumnType(columnName: string, diceColumn: Option<string>): (t: ColumnType)
    ensures t == DiceType <==> TableParser.Truthy(diceColumn) && columnName == diceColumn.value
    ensures t == RerollType <==> t != DiceType && EqualsIgnoreCase(columnName, "reroll")
    ensures diceColumn.None? ==> t != DiceType
  {
    if TableParser.Truthy(diceColumn) && columnName == diceColumn.value then DiceType
    else if ToLower(columnName) == "reroll" then RerollType
    else RegularType
  }

  /** The test `filter(line => line.trim().length > 0)` applies. */
  predicate NotBlank(line: string) {
    Trim(line) != ""
  }

  /** The non-blank lines of the body, in order. */
  function BodyLines(content: string): (lines: seq<string>)
    ensures forall i | 0 <= i < |lines| :: NotBlank(lines[i])
    ensures forall i | 0 <= i < |Split(content, "\n")| :: NotBlank(Split(content, "\n")[i]) ==> Split(content, "\n")[i] in lines
    ensures IsSubseq(lines, Split(content, "\n"))
    ensures Filtered(lines, Split(content, "\n"), NotBlank)
  {
    Filter(Split(content, "\n"), NotBlank)
  }

  /** The headers: the trimmed pipe pieces of the first line that are not empty. */
  function HeadersOf(line: string): (headers: seq<string>)
    ensures forall i | 0 <= i < |headers| :: headers[i] != "" && headers[i] in PipeCells(line)
    ensures forall i | 0 <= i < |PipeCells(line)| :: PipeCells(line)[i] != "" ==> PipeCells(line)[i] in headers
  {
    NonEmpty(PipeCells(line))
  }

  /** The headers are the non-empty pipe pieces in their order, each as
      often as it occurs. */
  lemma {:induction false} HeadersInOrder(line: string)
    ensures Filtered(HeadersOf(line), PipeCells(line), NonEmptyText)
  {
    NonEmptyInOrder(PipeCells(line));
  }

  /** Whether `replace(/^\|/, '')` removes a pipe: 1 or 0 characters. */
  function Lead(line: string): nat {
    if StartsWith(line, "|") then 1 else 0
  }

  /** `replace(/^\|/, '').replace(/\|$/, '')`: one pipe off each end, the
      leading one first. */
  function StripPipes(line: string): (r: string)
    ensures Lead(line) + |r| <= |line| && r == line[Lead(line)..Lead(line) + |r|]
    ensures Lead(line) + |r| == |line| || (Lead(line) + |r| + 1 == |line| && line[|line| - 1] == '|')
    ensures Lead(line) + |r| == |line| ==> r == [] || r[|r| - 1] != '|'
  {
    var a := if |line| > 0 && line[0] == '|' then line[1..] else line;
    if |a| > 0 && a[|a| - 1] == '|' then a[..|a| - 1] else a
  }

  /** The cells of a data line, padded with `''` up to the header count. */
  function RowCells(line: string, width: nat): (cells: seq<string>)
    ensures |cells| >= width && |cells| >= |Split(StripPipes(line), "|")|
    ensures |cells| == width || |cells| == |Split(StripPipes(line), "|")|
    ensures forall i | 0 <= i < |Split(StripPipes(line), "|")| :: cells[i] == Trim(Split(StripPipes(line), "|")[i])
    ensures forall i | |Split(StripPipes(line), "|")| <= i < |cells| :: cells[i] == ""
  {
    var trimmed := PipeCells(StripPipes(line));
    if |trimmed| < width then trimmed + seq(width - |trimmed|, _ => "") else trimmed
  }

  /** The row object of one data line under the headers. */
  function RowOfLine(headers: seq<string>, line: string): (row: Record<string>)
    ensures UniqueKeys(row)
  {
    TableParser.RowOf(headers, RowCells(line, |headers|))
  }

  /** `parseTableBody` once the blank lines are gone: one column per
      non-empty header, one row per line after the separator. */
  function ReadBody(lines: seq<string>, diceColumn: Option<string>): (b: Body)
    ensures |lines| < 2 ==> b == Body([], [])
    ensures |lines| >= 2 ==> |b.columns| == |HeadersOf(lines[0])| && |b.rows| == |lines| - 2
    ensures forall i | 0 <= i < |b.columns| :: b.columns[i].name == HeadersOf(lines[0])[i]
    ensures forall i | 0 <= i < |b.columns| :: b.columns[i].kind == DetermineColumnType(b.columns[i].name, diceColumn)
    ensures forall r | 0 <= r < |b.rows| :: b.rows[r] == RowOfLine(HeadersOf(lines[0]), lines[r + 2])
  {
    if |lines| < 2 then Body([], [])
    else
      var headers := HeadersOf(lines[0]);
      Body(Map(headers, (h: string) => Column(h, DetermineColumnType(h, diceColumn))),
           Map(lines[2..], (line: string) => RowOfLine(headers, line)))
  }

  /** `parseTableBody(content, diceColumn)`. */
  function ParseTableBody(content: string, diceColumn: Option<string>): Body {
    ReadBody(BodyLines(content), diceColumn)
  }

  /** `a || b` on a frontmatter value read from the record. */
  predicate FmTruthy(o: Option<FmValue>) {
    o.Some? && match o.value
      case FmBool(b) => b
      case FmText(t) => t != ""
  }

  /** `kv[key] || fallback`. */
  function FmOr(o: Option<FmValue>, fallback: FmValue): (v: FmValue)
    ensures FmTruthy(o) ==> v == o.value
    ensures !FmTruthy(o) ==> v == fallback
  {
    if FmTruthy(o) then o.value else fallback
  }

  /** `kv[key] || undefined`. */
  function FmOrNone(o: Option<FmValue>): (v: Option<FmValue>)
    ensures v.Some? <==> FmTruthy(o)
    ensures v.Some? ==> v == o
  {
    if FmTruthy(o) then o else None
  }

  /** The name a table without a usable `name` key gets. */
  const UnnamedTable: string := "Unnamed Table"

  /** `parseTable(filePath, fileContent)`: frontmatter fields with their
      defaults and the body read with no dice column. */
  function ParseTable(keys: Keys, content: string): (t: BodyTable)
    ensures FmTruthy(Get(FrontMatterOf(content), keys.name)) ==> Some(t.name) == Get(FrontMatterOf(content), keys.name)
    ensures !FmTruthy(Get(FrontMatterOf(content), keys.name)) ==> t.name == FmText(UnnamedTable)
    ensures t.rerollTable.Some? <==> FmTruthy(Get(FrontMatterOf(content), keys.rerollTable))
    ensures t.rerollTable.Some? ==> t.rerollTable == Get(FrontMatterOf(content), keys.rerollTable)
    ensures !FmTruthy(Get(FrontMatterOf(content), keys.isHidden)) ==> t.isHidden == FmBool(false)
    ensures FmTruthy(Get(FrontMatterOf(content), keys.isHidden)) ==> Some(t.isHidden) == Get(FrontMatterOf(content), keys.isHidden)
    ensures t.diceColumn.Some? <==> FmTruthy(Get(FrontMatterOf(content), keys.diceColumn))
    ensures t.diceColumn.Some? ==> t.diceColumn == Get(FrontMatterOf(content), keys.diceColumn)
    ensures Body(t.columns, t.rows) == ParseTableBody(ExtractFrontmatterAndBody(content).1, None)
  {
    var kv := FrontMatterOf(content);
    var body := ParseTableBody(ExtractFrontmatterAndBody(content).1, None);
    BodyTable(
      FmOr(Get(kv, keys.name), FmText(UnnamedTable)),
      FmOrNone(Get(kv, keys.rerollTable)),
      FmOr(Get(kv, keys.isHidden), FmBool(false)),
      FmOrNone(Get(kv, keys.diceColumn)),
      body.columns,
      body.rows)
  }

  // ---------------------------------------------------------------------------
  // properties

  /** `parseTable` passes no dice column, so no parsed column is typed dice,
      whatever the `diceColumn` frontmatter says. */
  lemma {:induction false} NoParsedDiceColumn(keys: Keys, content: string)
    ensures forall i | 0 <= i < |ParseTable(keys, content).columns| :: ParseTable(keys, content).columns[i].kind != DiceType
  {
  }

  /** The empty frontmatter text has no keys. */
  lemma {:induction false} EmptyFrontMatter()
    ensures ParseFrontMatter("") == []
  {
    assert Split("", "\n") == [""];
    assert KeyValueLine("").None?;
    assert AddLines(AddLine([], ""), []) == [];
  }

  /** Without a leading `---` line the frontmatter is empty and the body is the whole content. */
  lemma {:induction false} NoBlockNoFrontMatter(keys: Keys, content: string)
    requires !StartsWith(content, "---\n")
    ensures ExtractFrontmatterAndBody(content) == ("", content)
    ensures FrontMatterOf(content) == []
    ensures !IsTableParserTable(keys, content)
    ensures ParseTable(keys, content).name == FmText(UnnamedTable)
    ensures ParseTable(keys, content).isHidden == FmBool(false)
  {
    EmptyFrontMatter();
  }

  /** A block written in front of a body is split back off, up to its first closing delimiter. */
  lemma {:induction false} WrittenBlockSplit(fm: string, body: string)
    requires forall i | 4 <= i < 4 + |fm| :: !OccursAt("---\n" + fm + Closing + body, Closing, i)
    ensures ExtractFrontmatterAndBody("---\n" + fm + Closing + body) == (fm, body)
  {
    SplitFrontmatterWritten(fm, body);
  }

  /** A row written as `| a | b |` with trimmed cells free of pipes reads back as those cells. */
  lemma {:induction false} WrittenRowRead(cells: seq<string>)
    requires |cells| >= 1
    requires forall i | 0 <= i < |cells| :: '|' !in cells[i] && TrimmedEnds(cells[i])
    ensures RowCells("|" + Join(cells, "|") + "|", |cells|) == cells
  {
    var line := "|" + Join(cells, "|") + "|";
    assert StripPipes(line) == Join(cells, "|") by {
      assert line[1..] == Join(cells, "|") + "|";
    }
    SplitJoin(cells, '|');
    assert Split(Join(cells, "|"), "|") == cells;
    forall i | 0 <= i < |cells| ensures Trim(cells[i]) == cells[i] {
      TrimTrimmed(cells[i]);
    }
  }

  /** Each header reads its own cell of the data line, `''` past the cells
      the line has; a repeated header reads its last occurrence. */
  lemma {:induction false} RowCellRead(headers: seq<string>, line: string, i: nat)
    requires i < |headers|
    requires forall j | i < j < |headers| :: headers[j] != headers[i]
    ensures i < |Split(StripPipes(line), "|")| ==>
      Get(RowOfLine(headers, line), headers[i]) == Some(Trim(Split(StripPipes(line), "|")[i]))
    ensures i >= |Split(StripPipes(line), "|")| ==> Get(RowOfLine(headers, line), headers[i]) == Some("")
  {
    TableParser.RowOfCell(headers, RowCells(line, |headers|), i);
  }
}
