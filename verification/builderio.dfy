/** The text transformations of src/ui/io/TableBuilderIO.ts: replacing a
    table's section of a note when the builder saves into the note it was
    loaded from, appending a table to a note, turning a parsed table back
    into builder state, and importing a pasted Markdown table. The vault,
    the clipboard, the modals, the notices and the events are left out: a
    note comes in as text and the new text comes out. */
module BuilderIO {
  import opened Outcomes
  import opened Strings
  import opened Records
  import opened Seqs
  import opened Columns
  import Markdown
  import MarkdownExport
  import TableParser
  import Tables
  import Ranges

  // ---------------------------------------------------------------------------
  // headings

  /** `line.match(/^#+\s*(.+)$/)`, giving the captured text. The `#` run and
      the spaces are greedy; the run gives back one `#` only when nothing
      follows it, and a line terminator after the spaces defeats every split. */
  function HashHeading(line: string): (o: Option<string>)
    ensures o.Some? ==> Markdown.HashRun(line, 0) >= 1 && o.value != ""
  {
    var k := Markdown.HashRun(line, 0);
    if k == 0 then None
    else
      match Markdown.SpacesThenRest(line, k, 0)
      case Some(t) => Some(t)
      case None => if 2 <= k == |line| then Some("#") else None
  }

  /** `/^#+\s+/` matches: a run of `#` followed by whitespace. */
  predicate SectionHeading(line: string) {
    var k := Markdown.HashRun(line, 0);
    1 <= k < |line| && IsWhitespace(line[k])
  }

  /** A line that ends a section: a heading once trimmed. */
  predicate IsSectionLine(line: string) {
    SectionHeading(Trim(line))
  }

  /** The trimmed line is a heading whose trimmed text is the trimmed table name. */
  predicate NamesTable(line: string, name: string) {
    var h := HashHeading(Trim(line));
    h.Some? && Trim(h.value) == Trim(name)
  }

  /** `line.startsWith('#')`. */
  predicate StartsWithHash(line: string) {
    |line| > 0 && line[0] == '#'
  }

  /** A line whose first character is neither whitespace nor `#` is no
      heading of any kind and is not blank. */
  lemma {:induction false} PlainLine(line: string)
    requires |line| > 0 && !IsWhitespace(line[0]) && line[0] != '#'
    ensures !IsSectionLine(line) && !IsBlank(line) && !SectionHeading(line) && !StartsWithHash(line)
    ensures !NamesTable(line, "") && forall name :: !NamesTable(line, name)
  {
    TrimFirst(line);
    assert Markdown.HashRun(Trim(line), 0) == 0;
    assert Markdown.HashRun(line, 0) == 0;
  }

  /** The empty line is no heading. */
  lemma {:induction false} EmptyLine(name: string)
    ensures !IsSectionLine("") && IsBlank("") && !NamesTable("", name) && !SectionHeading("")
  {
    assert Trim("") == "";
    assert Markdown.HashRun("", 0) == 0;
  }

  /** A section line is not blank. */
  lemma {:induction false} SectionLineFilled(line: string)
    requires IsSectionLine(line)
    ensures Filled(line)
  {
    FilledIffNotBlank(line);
  }

  /** The line the section scan stops at, if any, is not blank. */
  lemma {:induction false} StopFilled(lines: seq<string>, start: nat)
    requires start < |lines|
    ensures SectionStop(lines, start) < |lines| ==> Filled(lines[SectionStop(lines, start)])
  {
    if SectionStop(lines, start) < |lines| {
      SectionLineFilled(lines[SectionStop(lines, start)]);
    }
  }

  /** Trimming `# name` trims only the name, when the name starts with a
      character that is not whitespace. */
  lemma {:induction false} HeadingTrim(name: string)
    requires name != "" && !IsWhitespace(name[0])
    ensures Trim("# " + name) == "# " + Trim(name)
    ensures Trim(name) != "" && !IsWhitespace(Trim(name)[0])
    ensures NoLineTerminator(name) ==> NoLineTerminator(Trim(name))
  {
    var line := "# " + name;
    var t := Trim(name);
    TrimFirst(name);
    assert SpaceRunFrom(name, 0) == 0;
    var tl := "# " + t;
    assert TrimmedAt(line, tl, 0) by {
      assert TrimmedAt(name, t, 0);
      assert line[2..2 + |t|] == t;
      assert line[..2 + |t|] == tl;
      forall i | 2 + |t| <= i < |line| ensures IsWhitespace(line[i]) {
        assert line[i] == name[i - 2];
      }
    }
    TrimUnique(line, tl, 0);
    if NoLineTerminator(name) {
      forall i | 0 <= i < |t| ensures !IsLineTerminator(t[i]) {
        assert t[i] == name[i];
      }
    }
  }

  /** `# t`, for a text that starts with a character that is not whitespace
      and holds no line terminator, is a section heading whose text is `t`. */
  lemma {:induction false} HeadingParse(t: string)
    requires t != "" && !IsWhitespace(t[0]) && NoLineTerminator(t)
    ensures HashHeading("# " + t) == Some(t) && SectionHeading("# " + t)
  {
    var tl := "# " + t;
    assert Markdown.HashRun(tl, 1) == 0;
    assert Markdown.HashRun(tl, 0) == 1;
    assert SpaceRunFrom(tl, 2) == 0;
    assert SpaceRunFrom(tl, 1) == 1;
    assert tl[2..] == t;
    assert Markdown.SpacesThenRest(tl, 1, 0) == Some(t) by {
      forall i | 2 <= i < |tl| ensures !IsLineTerminator(tl[i]) {
        assert tl[i] == t[i - 2];
      }
    }
  }

  /** The heading line the builder writes, `# name`, names the table, and
      is a section line. */
  lemma {:induction false} WrittenHeading(name: string)
    requires name != "" && !IsWhitespace(name[0]) && NoLineTerminator(name)
    ensures NamesTable("# " + name, name) && IsSectionLine("# " + name)
    ensures SectionHeading("# " + name) && StartsWithHash("# " + name)
  {
    HeadingTrim(name);
    HeadingParse(Trim(name));
    HeadingParse(name);
    TrimIdempotent(name);
  }

  // ---------------------------------------------------------------------------
  // the section of a note

  /** The first line that names the table. */
  function FindHeading(lines: seq<string>, name: string): (o: Option<nat>)
    ensures o.None? <==> forall i | 0 <= i < |lines| :: !NamesTable(lines[i], name)
    ensures o.Some? ==> o.value < |lines| && NamesTable(lines[o.value], name)
    ensures o.Some? ==> forall j | 0 <= j < o.value :: !NamesTable(lines[j], name)
  {
    FirstWhere(lines, (l: string) => NamesTable(l, name))
  }

  /** Where the scan for the end of the section stops: the next section
      line after the heading, or the end of the note. */
  function SectionStop(lines: seq<string>, start: nat): (stop: nat)
    requires start < |lines|
    ensures start < stop <= |lines|
    ensures forall i | start < i < stop :: !IsSectionLine(lines[i])
    ensures stop < |lines| ==> IsSectionLine(lines[stop])
  {
    NextWhere(lines, start + 1, IsSectionLine)
  }

  /** `line.trim() !== ''`, read as: some character is not whitespace. */
  predicate Filled(line: string) {
    !AllWhitespace(line)
  }

  /** `Filled` is the negation of the source's blank test. */
  lemma {:induction false} FilledIffNotBlank(line: string)
    ensures Filled(line) <==> !IsBlank(line)
  {
    BlankIffAllWhitespace(line);
  }

  /** The last line of the section: the heading, or the last line before the
      stop that is not blank (`tableEndIndex` after its backward loop). */
  function SectionEnd(lines: seq<string>, start: nat): (end: nat)
    requires start < |lines|
    ensures start <= end < SectionStop(lines, start)
    ensures forall i | end < i < SectionStop(lines, start) :: !Filled(lines[i])
    ensures end == start || Filled(lines[end])
  {
    PrevWhere(lines, start, SectionStop(lines, start) - 1, Filled)
  }

  /** `while (before.length > 0 && before[before.length - 1].trim() === '') before.pop()`. */
  function DropTrailingBlanks(xs: seq<string>): (r: seq<string>)
    ensures |r| <= |xs| && r == xs[..|r|]
    ensures forall i | |r| <= i < |xs| :: !Filled(xs[i])
    ensures r == [] || Filled(r[|r| - 1])
  {
    xs[..EndWhere(xs, |xs|, Filled)]
  }

  /** `while (after.length > 0 && after[0].trim() === '') after.shift()`. */
  function DropLeadingBlanks(xs: seq<string>): (r: seq<string>)
    ensures |r| <= |xs| && r == xs[|xs| - |r|..]
    ensures forall i | 0 <= i < |xs| - |r| :: !Filled(xs[i])
    ensures r == [] || Filled(r[0])
  {
    xs[NextWhere(xs, 0, Filled)..]
  }

  /** A text with no blank last line gains one and loses it again. */
  lemma {:induction false} DropAddedBlank(xs: seq<string>)
    requires xs == [] || Filled(xs[|xs| - 1])
    ensures DropTrailingBlanks(xs + [""]) == xs
  {
    EmptyLine("");
    assert (xs + [""])[..|xs|] == xs;
  }

  /** `markdownLines.slice(i).join('\n')` for the position `findIndex` gave;
      `-1`, when no line qualifies, slices off the last line only. */
  function From(lines: seq<string>, o: Option<nat>): string
    requires |lines| >= 1 && (o.Some? ==> o.value < |lines|)
  {
    match o
    case Some(i) => Join(lines[i..], "\n")
    case None => lines[|lines| - 1]
  }

  /** The table text `saveToCurrentFile` puts in place of the section: the
      generated Markdown from its first `^#+\s+` line on. */
  function ReplaceText(markdown: string): string {
    var lines := Split(markdown, "\n");
    From(lines, FirstWhere(lines, SectionHeading))
  }

  /** The table text appended to a note: the generated Markdown from its
      first line starting with `#` on. */
  function AppendText(markdown: string): string {
    var lines := Split(markdown, "\n");
    From(lines, FirstWhere(lines, StartsWithHash))
  }

  /** The lines before the heading, without the blank lines just before it. */
  function Before(lines: seq<string>, start: nat): seq<string>
    requires start <= |lines|
  {
    DropTrailingBlanks(lines[..start])
  }

  /** Blank lines after `end` up to `stop`, and then a filled line or the
      end: dropping the leading blanks after `end` leaves the lines from `stop` on. */
  lemma {:induction false} DropLeadingBlanksAt(lines: seq<string>, end: nat, stop: nat)
    requires end < stop <= |lines|
    requires forall i | end < i < stop :: !Filled(lines[i])
    requires stop < |lines| ==> Filled(lines[stop])
    ensures DropLeadingBlanks(lines[end + 1..]) == lines[stop..]
  {
    var xs := lines[end + 1..];
    var k := stop - end - 1;
    forall j | 0 <= j < k ensures !Filled(xs[j]) {
      assert xs[j] == lines[end + 1 + j];
    }
    if stop < |lines| {
      assert xs[k] == lines[stop];
    }
    NextWhereAt(xs, 0, Filled, k);
    assert xs[k..] == lines[stop..];
  }

  /** The lines of the note after saving into the section that starts at
      `start`. Only the section changes: the lines before the heading stay,
      up to the blank lines just before it, and every line from the next
      section line on stays. */
  function SavedLines(lines: seq<string>, start: nat, table: string): (r: seq<string>)
    requires start < |lines|
    ensures r == Before(lines, start) + ["", table, ""] + lines[SectionStop(lines, start)..]
  {
    var stop := SectionStop(lines, start);
    var end := SectionEnd(lines, start);
    StopFilled(lines, start);
    DropLeadingBlanksAt(lines, end, stop);
    Before(lines, start) + ["", table, ""] + DropLeadingBlanks(lines[end + 1..])
  }

  /** The new note text `saveToCurrentFile` writes, given the note's text,
      the generated Markdown and the table name. */
  function SaveContent(content: string, markdown: string, name: string): (r: string)
    ensures FindHeading(Split(content, "\n"), name).None? ==> r == content + "\n\n" + AppendText(markdown)
    ensures FindHeading(Split(content, "\n"), name).Some? ==>
      var lines := Split(content, "\n");
      var start := FindHeading(lines, name).value;
      r == Join(Before(lines, start) + ["", ReplaceText(markdown), ""] + lines[SectionStop(lines, start)..], "\n")
  {
    var lines := Split(content, "\n");
    match FindHeading(lines, name)
    case Some(start) => Join(SavedLines(lines, start, ReplaceText(markdown)), "\n")
    case None => content + "\n\n" + AppendText(markdown)
  }

  // ---------------------------------------------------------------------------
  // saving twice

  /** The heading `FindHeading` gives is the first line naming the table. */
  lemma {:induction false} FindHeadingAt(lines: seq<string>, name: string, k: nat)
    requires k < |lines| && NamesTable(lines[k], name)
    requires forall j | 0 <= j < k :: !NamesTable(lines[j], name)
    ensures FindHeading(lines, name) == Some(k)
  {
  }

  /** A table text whose lines suit a section: the first names the table,
      no later one is a section line, and the last is not blank. */
  predicate TableFits(table: string, name: string) {
    var t := Split(table, "\n");
    NamesTable(t[0], name) && (forall i | 1 <= i < |t| :: !IsSectionLine(t[i])) && Filled(t[|t| - 1])
  }

  /** No line holds a line feed. */
  predicate OneLineEach(lines: seq<string>) {
    forall i | 0 <= i < |lines| :: '\n' !in lines[i]
  }

  /** Lines around a table, with a blank line on each side. */
  function Spliced(before: seq<string>, t: seq<string>, after: seq<string>): seq<string> {
    before + [""] + t + [""] + after
  }

  /** A note saved with the table text in the middle reads back as the
      lines around it with the table's own lines spliced in. */
  lemma {:induction false} SplicedSplit(before: seq<string>, table: string, after: seq<string>)
    requires OneLineEach(before) && OneLineEach(after)
    ensures Split(Join(before + ["", table, ""] + after, "\n"), "\n") == Spliced(before, Split(table, "\n"), after)
  {
    var t := Split(table, "\n");
    JoinSplit(table, "\n");
    JoinFlatten(before + [""], t, [""] + after, "\n");
    assert before + ["", table, ""] + after == before + [""] + [Join(t, "\n")] + ([""] + after);
    var flat := Spliced(before, t, after);
    assert flat == before + [""] + t + ([""] + after);
    SplitFree(table, '\n');
    forall i | 0 <= i < |flat| ensures '\n' !in flat[i] {
      if i < |before| {
        assert flat[i] == before[i];
      } else if |before| < i <= |before| + |t| {
        assert flat[i] == t[i - |before| - 1];
      } else if |before| + |t| + 1 < i {
        assert flat[i] == after[i - |before| - |t| - 2];
      }
    }
    SplitJoin(flat, '\n');
  }

  /** In spliced lines, the section that starts at the table's first line
      stops after the blank line that follows the table, when the lines
      after start with a section line. */
  lemma {:induction false} SplicedStop(before: seq<string>, t: seq<string>, after: seq<string>)
    requires |t| >= 1 && forall i | 1 <= i < |t| :: !IsSectionLine(t[i])
    requires after == [] || IsSectionLine(after[0])
    ensures var flat := Spliced(before, t, after);
      |before| + 1 < |flat| && SectionStop(flat, |before| + 1) == |before| + |t| + 2
  {
    EmptyLine("");
    NextWhereSplice(before, "", t, after, IsSectionLine);
  }

  /** Saving the table text again into spliced lines gives the same lines. */
  lemma {:induction false} SplicedResave(before: seq<string>, t: seq<string>, table: string, after: seq<string>)
    requires before == [] || Filled(before[|before| - 1])
    requires |t| >= 1 && forall i | 1 <= i < |t| :: !IsSectionLine(t[i])
    requires after == [] || IsSectionLine(after[0])
    ensures var flat := Spliced(before, t, after);
      |before| + 1 < |flat| && SavedLines(flat, |before| + 1, table) == before + ["", table, ""] + after
  {
    var flat := Spliced(before, t, after);
    var s2 := |before| + 1;
    SplicedStop(before, t, after);
    assert flat[..s2] == before + [""];
    DropAddedBlank(before);
    assert flat[s2 + |t| + 1..] == after;
  }

  /** In spliced lines the heading is the first line of the table, when no
      line before names the table. */
  lemma {:induction false} SplicedHeading(before: seq<string>, t: seq<string>, after: seq<string>, name: string)
    requires |t| >= 1 && NamesTable(t[0], name)
    requires forall j | 0 <= j < |before| :: !NamesTable(before[j], name)
    ensures FindHeading(Spliced(before, t, after), name) == Some(|before| + 1)
  {
    var flat := Spliced(before, t, after);
    EmptyLine(name);
    forall j | 0 <= j < |before| + 1 ensures !NamesTable(flat[j], name) {
      if j < |before| {
        assert flat[j] == before[j];
      } else {
        assert flat[j] == "";
      }
    }
    assert flat[|before| + 1] == t[0];
    FindHeadingAt(flat, name, |before| + 1);
  }

  /** What the lines around a found section keep: one line each, no
      heading for the table before it, a filled line just before it and
      a section line just after it. */
  lemma {:induction false} AroundSection(lines: seq<string>, start: nat, name: string)
    requires start < |lines| && OneLineEach(lines)
    requires forall j | 0 <= j < start :: !NamesTable(lines[j], name)
    ensures var before := Before(lines, start);
      var after := lines[SectionStop(lines, start)..];
      OneLineEach(before) && OneLineEach(after)
      && (forall j | 0 <= j < |before| :: !NamesTable(before[j], name))
      && (before == [] || Filled(before[|before| - 1]))
      && (after == [] || IsSectionLine(after[0]))
  {
    var before := Before(lines, start);
    var stop := SectionStop(lines, start);
    var after := lines[stop..];
    assert forall i | 0 <= i < |before| :: before[i] == lines[i];
    assert forall i | 0 <= i < |after| :: after[i] == lines[stop + i];
  }

  /** Reading the saved lines back, the table's heading is found right
      after the kept lines, and saving the table there again gives the
      saved lines once more. */
  lemma {:induction false} ResaveLines(lines: seq<string>, start: nat, name: string, table: string)
    requires start < |lines| && OneLineEach(lines)
    requires forall j | 0 <= j < start :: !NamesTable(lines[j], name)
    requires TableFits(table, name)
    ensures var back := Split(Join(SavedLines(lines, start, table), "\n"), "\n");
      var s2 := |Before(lines, start)| + 1;
      FindHeading(back, name) == Some(s2) && s2 < |back|
      && SavedLines(back, s2, table) == SavedLines(lines, start, table)
  {
    var before := Before(lines, start);
    var after := lines[SectionStop(lines, start)..];
    AroundSection(lines, start, name);
    SplicedSplit(before, table, after);
    SplicedHeading(before, Split(table, "\n"), after, name);
    SplicedResave(before, Split(table, "\n"), table, after);
  }

  /** Saving twice is saving once: after a save the note holds the table's
      heading, the second save finds it, its section is exactly the table,
      and the lines around it are already trimmed. */
  lemma {:induction false} SaveTwice(content: string, markdown: string, name: string)
    requires FindHeading(Split(content, "\n"), name).Some?
    requires TableFits(ReplaceText(markdown), name)
    ensures SaveContent(SaveContent(content, markdown, name), markdown, name) == SaveContent(content, markdown, name)
  {
    var lines := Split(content, "\n");
    var start := FindHeading(lines, name).value;
    SplitFree(content, '\n');
    ResaveLines(lines, start, name, ReplaceText(markdown));
  }

  // ---------------------------------------------------------------------------
  // the table the builder writes

  /** A pipe line is neither a heading nor blank. */
  lemma {:induction false} PipeLinePlain(cells: seq<string>)
    ensures !IsSectionLine(MarkdownExport.PipeLine(cells)) && Filled(MarkdownExport.PipeLine(cells))
  {
    PlainLine(MarkdownExport.PipeLine(cells));
    FilledIffNotBlank(MarkdownExport.PipeLine(cells));
  }

  /** The separator line is neither a heading nor blank. */
  lemma {:induction false} SeparatorPlain(n: nat)
    ensures !IsSectionLine(MarkdownExport.SeparatorLine(n)) && Filled(MarkdownExport.SeparatorLine(n))
  {
    PlainLine(MarkdownExport.SeparatorLine(n));
    FilledIffNotBlank(MarkdownExport.SeparatorLine(n));
  }

  /** No directive line is a heading. */
  lemma {:induction false} DirectivesPlain(isPrivate: bool, reroll: Option<string>)
    ensures NoneOf(MarkdownExport.Directives(isPrivate, reroll), IsSectionLine)
  {
    var p: seq<string> := if isPrivate then ["private: true"] else [];
    var r: seq<string> := if TableParser.Truthy(reroll) then ["reroll: " + reroll.value] else [];
    var e: seq<string> := if isPrivate || TableParser.Truthy(reroll) then [""] else [];
    EmptyLine("");
    PlainLine("private: true");
    if TableParser.Truthy(reroll) {
      PlainLine("reroll: " + reroll.value);
    }
    NoneOfConcat(p, r, IsSectionLine);
    NoneOfConcat(p + r, e, IsSectionLine);
  }

  /** No row line is a heading. */
  lemma {:induction false} RowLinesPlain(rows: seq<RowData>, columns: seq<ColumnConfig>)
    ensures NoneOf(MarkdownExport.RowLines(rows, columns), IsSectionLine)
    ensures |rows| > 0 ==> Filled(MarkdownExport.RowLines(rows, columns)[|rows| - 1])
  {
    var lines := MarkdownExport.RowLines(rows, columns);
    forall i | 0 <= i < |lines| ensures !IsSectionLine(lines[i]) {
      PipeLinePlain(CellTexts(rows[i], columns));
    }
    if |rows| > 0 {
      PipeLinePlain(CellTexts(rows[|rows| - 1], columns));
    }
  }

  /** The lines of a generated table after its heading. */
  function TableBody(s: TableState): (lines: seq<string>)
    ensures |lines| >= 3
  {
    [""] + MarkdownExport.Directives(s.isPrivate, s.tableReroll)
      + [MarkdownExport.PipeLine(ColumnNames(s.columns)), MarkdownExport.SeparatorLine(|s.columns|)]
      + MarkdownExport.RowLines(s.rows, s.columns)
  }

  /** The lines of a generated table from its heading on: the heading, a
      blank line, the directives, the header and separator lines and a
      line per row. */
  function TableLines(s: TableState): (lines: seq<string>)
    ensures |lines| >= 4 && lines[1..] == TableBody(s)
  {
    ["# " + s.tableName] + TableBody(s)
  }

  /** After the heading, no line of a generated table is a section line,
      and its last line is not blank. */
  lemma {:induction false} TableBodyPlain(s: TableState)
    ensures NoneOf(TableBody(s), IsSectionLine)
    ensures var b := TableBody(s); Filled(b[|b| - 1])
  {
    EmptyLine("");
    DirectivesPlain(s.isPrivate, s.tableReroll);
    PipeLinePlain(ColumnNames(s.columns));
    SeparatorPlain(|s.columns|);
    RowLinesPlain(s.rows, s.columns);
    BlockNoneOf("", MarkdownExport.Directives(s.isPrivate, s.tableReroll),
      MarkdownExport.PipeLine(ColumnNames(s.columns)), MarkdownExport.SeparatorLine(|s.columns|),
      MarkdownExport.RowLines(s.rows, s.columns), IsSectionLine, Filled);
  }

  /** The frontmatter block `generateMarkdown` starts with. */
  const Frontmatter: seq<string> := ["---", "table-roller: true", "---", ""]

  /** No frontmatter line is a heading or starts with `#`. */
  lemma {:induction false} FrontmatterPlain()
    ensures NoneOf(Frontmatter, SectionHeading) && NoneOf(Frontmatter, StartsWithHash)
  {
    PlainLine("---");
    PlainLine("table-roller: true");
    EmptyLine("");
  }

  /** The collected lines are the frontmatter block and the table lines. */
  lemma {:induction false} MarkdownLinesShape(s: TableState)
    ensures MarkdownExport.MarkdownLines(s) == Frontmatter + TableLines(s)
  {
    assert MarkdownExport.Preamble(s.tableName) == Frontmatter + ["# " + s.tableName, ""];
    Regroup(Frontmatter, "# " + s.tableName, "", MarkdownExport.Directives(s.isPrivate, s.tableReroll),
      [MarkdownExport.PipeLine(ColumnNames(s.columns)), MarkdownExport.SeparatorLine(|s.columns|)],
      MarkdownExport.RowLines(s.rows, s.columns));
  }

  /** The generated note is its frontmatter block and then the table lines. */
  lemma {:induction false} LinesAfterFrontmatter(s: TableState)
    requires MarkdownExport.Writable(s)
    ensures Split(MarkdownExport.GenerateMarkdown(s), "\n") == Frontmatter + TableLines(s)
    ensures OneLineEach(Frontmatter + TableLines(s))
  {
    MarkdownExport.MarkdownLinesRead(s);
    MarkdownExport.LinesOneLine(s);
    MarkdownLinesShape(s);
  }

  /** Both `findIndex` calls stop at the heading of the generated Markdown:
      the text saved into a section and the text appended to a note are the
      same, the table lines joined. */
  lemma {:induction false} GeneratedText(s: TableState)
    requires MarkdownExport.Writable(s)
    ensures var md := MarkdownExport.GenerateMarkdown(s);
      ReplaceText(md) == Join(TableLines(s), "\n") && AppendText(md) == Join(TableLines(s), "\n")
  {
    var t := TableLines(s);
    LinesAfterFrontmatter(s);
    FrontmatterPlain();
    WrittenHeading(s.tableName);
    FirstWhereAfter(Frontmatter, t, SectionHeading);
    FirstWhereAfter(Frontmatter, t, StartsWithHash);
    assert (Frontmatter + t)[4..] == t;
  }

  /** The generated table text suits a section: it splits back into its
      lines, the first names the table, no later one is a section line and
      the last is not blank. */
  lemma {:induction false} GeneratedFits(s: TableState)
    requires MarkdownExport.Writable(s)
    ensures Split(Join(TableLines(s), "\n"), "\n") == TableLines(s)
    ensures TableFits(Join(TableLines(s), "\n"), s.tableName)
  {
    var t := TableLines(s);
    LinesAfterFrontmatter(s);
    forall i | 0 <= i < |t| ensures '\n' !in t[i] {
      assert t[i] == (Frontmatter + t)[4 + i];
    }
    SplitJoin(t, '\n');
    WrittenHeading(s.tableName);
    TableBodyPlain(s);
    forall i | 1 <= i < |t| ensures !IsSectionLine(t[i]) {
      assert t[i] == TableBody(s)[i - 1];
    }
    assert t[|t| - 1] == TableBody(s)[|t| - 2];
  }

  /** Saving the builder's table twice into a note that holds its heading
      leaves the note as the first save left it. */
  lemma {:induction false} SaveTableTwice(content: string, s: TableState)
    requires MarkdownExport.Writable(s)
    requires FindHeading(Split(content, "\n"), s.tableName).Some?
    ensures SaveToCurrentFile(SaveToCurrentFile(content, s), s) == SaveToCurrentFile(content, s)
  {
    GeneratedText(s);
    GeneratedFits(s);
    SaveTwice(content, MarkdownExport.GenerateMarkdown(s), s.tableName);
  }

  /** `saveToCurrentFile()` for the builder's state. */
  function SaveToCurrentFile(content: string, s: TableState): string {
    SaveContent(content, MarkdownExport.GenerateMarkdown(s), s.tableName)
  }

  /** `appendToSpecificFile(file)`: the note, a blank line, then the builder's
      table from its heading on. */
  function AppendToFile(content: string, s: TableState): (r: string)
    ensures StartsWith(r, content + "\n\n")
    ensures MarkdownExport.Writable(s) ==> r == content + "\n\n" + Join(TableLines(s), "\n")
  {
    var text := AppendText(MarkdownExport.GenerateMarkdown(s));
    assert MarkdownExport.Writable(s) ==> text == Join(TableLines(s), "\n") by {
      if MarkdownExport.Writable(s) {
        GeneratedText(s);
      }
    }
    content + "\n\n" + text
  }
}
