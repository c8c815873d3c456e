# table-roller in Dafny

A model of the random-table roller for Markdown notes. A note marked
`table-roller: true` in its frontmatter holds one or more pipe tables. A
table whose header names a die (`d6`, `2d10`) is a dice table whose rows
carry ranges (`1-3`, `4`, `5+`); any other table is a simple table whose
rows are picked uniformly. Rolling a table yields a result, and a row or a
whole table can ask for further rolls on other tables (`reroll`). The
table builder edits a table as a state of columns and rows, keeps an undo
history, validates the ranges against the die and writes the table back
into its note.

The model follows the repository file by file, one module per source
concept:

| module | models |
|---|---|
| `Dice`, `Ranges` | dice notation and the four range grammars of diceRoller.js, src/services/dice/dice.ts, `TableParser.parseRange` and `TableValidator.parseRange` |
| `CliDice` | `DiceRoller.rollOnTable` and `randomSelect` of diceRoller.js |
| `Tables` | the `DiceTable \| SimpleTable` union and the `RollResult` tree of src/types.ts |
| `Frontmatter`, `Markdown`, `TableParser` | src/services/TableParser.ts |
| `LegacyParser` | tableParser.js |
| `BodyParser` | src/services/tables/table-parser.ts |
| `Roller` | src/services/TableRollerCore.ts |
| `CliHelper` | tableHelper.js |
| `Session`, `CoreRoller` | src/services/tables/SessionTracker.js and src/services/core/TableRollerCore.js |
| `BuilderUtils`, `RowGen`, `Csv`, `Clipboard`, `Columns`, `MarkdownExport` | src/ui/utils/TableBuilderUtils.ts |
| `BuilderState` | src/ui/state/TableBuilderState.ts |
| `BuilderValidation` | src/ui/validation/TableBuilderValidation.ts |
| `BuilderIO`, `BuilderLoad` | src/ui/io/TableBuilderIO.ts |
| `BuilderView` | src/ui/TableBuilderView.ts |
| `GridNav` | src/ui/components/RowGridEditor.ts |

`Strings`, `Records`, `JsArrays`, `Seqs`, `Values` and `Outcomes` hold
the JavaScript semantics the source relies on. `String.prototype.trim`
strips the ECMAScript white-space and line-terminator characters. `split` and
`join` undo each other when no piece holds the separator. Objects and `Map`s are records that keep
insertion order, and writing an existing key keeps its first position.
`splice` normalises negative and out-of-range indices.

Randomness is an oracle. `Random.Rng` is an endless stream of draws with
a read position. A draw `k < 2^53` stands for the double `k / 2^53`, and
`Math.floor(Math.random() * n)` is modelled as the exact quotient
`k * n / 2^53`, which is always below `n`. The double product the engine
computes is rounded, so for some `k` the two differ by one; the model reads
the oracle's index as the index JavaScript draws. Every roll is a function of the stream, and the stream comes back
advanced. The dice roller of src/services/DiceRoller.ts is not part of
this model; `Roller` takes it as a parameter.

The reroll recursion has no cycle guard in the source. A table that
rerolls itself recurses until the engine's stack overflows. The models
bound the recursion by an explicit `fuel` parameter. Running out of fuel
is the `RangeError` the engine would throw, and the callers that catch
errors catch it too.

`TableBuilderIO.ts` repeats `generateMarkdown` of `TableBuilderUtils.ts`
line for line at src/ui/io/TableBuilderIO.ts:121-160. `MarkdownExport`
models both.

## Model

| member | source | states |
|---|---|---|
| Dice.ScanAt | diceRoller.js:48 | reading a notation at one position succeeds exactly when a die letter followed by a digit sits after the count digits, and consumes at least that much |
| Dice.ParseAnchored | diceRoller.js:48-55 | a notation read from the whole text is one the position reader also accepts at the start |
| Dice.ParseAnchoredMatchesRegex | diceRoller.js:48 | the whole-text reader accepts exactly the texts of `^(\d*)d(\d+)([+\-]\d+)?$` (an independent character-level description of the language), in both directions |
| Dice.AcceptedIsText | diceRoller.js:48 | every text the whole-text reader accepts is in the notation language |
| Dice.TextIsAccepted | diceRoller.js:48 | every text in the notation language is accepted by the whole-text reader |
| Dice.PlainNotation | src/ui/utils/TableBuilderUtils.ts:62-68 | the modifier-free pattern `^(\d*)d(\d+)$` reads the count before the die letter and the sides after it, with modifier 0 |
| Dice.PlainTextRead | src/ui/utils/TableBuilderUtils.ts:62-68 | every text of the modifier-free language is accepted, with its count ending where the digit run ends |
| Dice.PlainIsValid | src/ui/utils/TableBuilderUtils.ts:62-68 | a text the modifier-free pattern accepts is accepted by the full notation pattern with the same numbers |
| Dice.ParseRender | diceRoller.js:48-55 | reading a rendered notation gives back the notation: render then parse is the identity |
| Dice.ReadBack | diceRoller.js:48-55 | a text laid out as count digits, `d`, side digits and a signed modifier is read as exactly those numbers |
| Dice.SearchFrom | src/services/dice/dice.ts:35 | the search from a position fails exactly when no later position starts a notation, and otherwise reads the notation at the leftmost position that starts one |
| Dice.Search | src/services/dice/dice.ts:35-43 | the unanchored search fails exactly when no position of the text starts a notation, and otherwise gives the notation at the leftmost position that starts one |
| Dice.SearchTakesFirst | src/services/dice/dice.ts:35-43 | of two notations in a text, `"1d4 or 2d6"`, the first one (1d4) is rolled |
| Dice.AnchoredSearchAgree | src/services/dice/dice.ts:35-57 | on any text the anchored pattern accepts, the unanchored search reads the same notation |
| Dice.RollDice | diceRoller.js:57-60 | `count` dice of `sides` sides total between `count` and `count*sides`, using exactly one draw per die |
| Dice.RollNotation | diceRoller.js:53-62 | a rolled notation lies in `[count+mod, count*sides+mod]` and uses `count` draws |
| Dice.Roll | diceRoller.js:47-63 | `DiceRoller.roll` fails, with "Invalid dice notation: <text>", exactly when the whole text is not a notation; otherwise the total lies in `[count+mod, count*sides+mod]` |
| Dice.RollSearch | src/services/dice/dice.ts:34-51 | `Dice.roll` fails exactly when no substring is a notation; otherwise the total lies within the bounds of the first notation found |
| Dice.ValidNotationRolls | src/services/dice/dice.ts:34-58 | when `isValidNotation` holds, `Dice.roll` does not throw and rolls the same as the anchored roller |
| Dice.SearchAcceptsTrailingText | src/services/dice/dice.ts:35 | "2d6 Loot" is rolled as 2d6 by `Dice.roll` and refused by the anchored pattern |
| Random.Pick | diceRoller.js:138 | `Math.floor(r * n)` for a draw in `[0,1)` is an index below `n` |
| Random.PickNext | diceRoller.js:138 | taking one draw gives an index below `n` and advances the oracle by one |
| Ranges.ReadShape | src/services/TableParser.ts:272-293 | the three whole-text patterns classify a trimmed cell: single iff it is all digits, span iff digits, a dash and digits, open iff digits followed by `+`; each carries the numbers read |
| Ranges.SpanTextRead | src/services/TableParser.ts:278-284 | every text of the `N<dash>M` pattern is read as the span of its two numbers |
| Ranges.RollerInRange | diceRoller.js:104-130 | `DiceRoller.isInRange` is false for an empty cell and otherwise true iff the number lies in the shape read with hyphen or en-dash spans |
| Ranges.DiceInRange | src/services/dice/dice.ts:5-29 | `Dice.isInRange` is true iff the number lies in the shape read with hyphen-only spans |
| Ranges.ParserRange | src/services/TableParser.ts:266-296 | an unreadable cell gives (0,0), an open cell `N+` gives (N,999), a single number `N` gives (N,N) and a span `lo-hi` gives (lo,hi) |
| Ranges.ValidatorRange | src/ui/validation/TableBuilderValidation.ts:167-188 | the validator agrees with the table parser except that `N+` gives (0,0) |
| Ranges.InRangeAgreeWithoutEnDash | diceRoller.js:104-130 | on a cell without an en-dash, the two `isInRange` versions give the same answer |
| Ranges.ParserBoundsMatchRoller | diceRoller.js:104-130 | on cells both accept, the parser's bounds and the roller's membership test describe the same interval |
| Ranges.EnDashDisagree | diceRoller.js:115 | "1–3" (en-dash) is a range for diceRoller.js and not for dice.ts |
| Ranges.EmDashDisagree | src/services/TableParser.ts:278 | "1—3" (em-dash) is a range for the table parser and not for diceRoller.js |
| Ranges.OpenFormDisagree | src/ui/validation/TableBuilderValidation.ts:167-188 | "5+" is (5,999) for the table parser and (0,0) for the validator |
| Ranges.RenderRange | src/ui/utils/TableBuilderUtils.ts:110-114 | a written range is never empty |
| Ranges.RenderRangeRead | src/ui/io/TableBuilderIO.ts:649 | every reader that accepts a hyphen reads a written range back as the single or span it was written from |
| Ranges.ParserRangeRender | src/ui/io/TableBuilderIO.ts:649 | the table parser reads `"N"` / `"N-M"` back as the bounds it was written from |
| CliDice.RandomSelect | diceRoller.js:137-139 | one draw picks the element at an index below the length; an empty list gives nothing |
| CliDice.Annotate | diceRoller.js:79-84 | the copy has `_roll`, `_baseRoll` and `_modifier` set and every other field unchanged |
| CliDice.PickRow | diceRoller.js:76-89 | the first row in range is taken with no draw; with none in range one draw picks a random row |
| CliDice.Settle | diceRoller.js:74-95 | the row is chosen for base plus modifier, with no clamping, and the copy records the three numbers |
| CliDice.RollOnRows | diceRoller.js:72-96 | `rollOnTable` fails exactly when the column name is not a whole notation; otherwise it settles on the rolled value |
| CliDice.FirstMatchingRow | diceRoller.js:76-86 | when row `i` is the first in range, it is the row returned and no draw is used |
| CliDice.FallbackRow | diceRoller.js:88-95 | with no row in range, the returned row is the one at the drawn index, which is in bounds |
| Tables.FindEntry | src/services/TableRollerCore.ts:118 | the position found covers the value and no earlier entry does; none is found iff no entry covers it |
| Tables.FindEntryFirst | src/services/TableRollerCore.ts:118 | the first covering entry in declared order is the one found |
| Frontmatter.FindFrom | src/services/TableParser.ts:11 | the position found is an occurrence at or after `from` with none before it; none is found iff there is no later occurrence |
| Frontmatter.FindFromFirst | src/services/TableParser.ts:11 | the first occurrence at or after `from` is the one found |
| Frontmatter.SplitFrontmatter | src/services/TableParser.ts:11-19 | the lazy `^---\n([\s\S]*?)\n---\n` block fails iff the text does not open with `---\n` or never closes; otherwise it is cut at the first closing delimiter |
| Frontmatter.SplitFrontmatterWritten | src/services/TableParser.ts:11-19 | a block holding no closing delimiter, written in front of a body, is split back off exactly: write then split is the identity |
| Frontmatter.WordRun | src/services/TableParser.ts:24 | the `\w` run is maximal: every character in it is a word character and the next one is not |
| Frontmatter.HyphenWordsEnd | src/services/TableParser.ts:24 | the greedy `(?:-\w+)*` ends before a non-word character and never stops at a hyphen that a word follows |
| Frontmatter.KeyEnd | src/services/TableParser.ts:24 | a key is found iff the line starts with a word character |
| Frontmatter.KeyValueLine | src/services/TableParser.ts:24-27 | a matched line's key is the trimmed key text and its value has no surrounding whitespace |
| Frontmatter.Unquote | src/services/TableParser.ts:33-36 | a value wrapped in a matching pair of `"` or `'` loses exactly those two characters |
| Frontmatter.ValueOf | src/services/TableParser.ts:30-36 | the value is the boolean true iff the text is "true", false iff it is "false", otherwise text no longer than the input |
| Frontmatter.AddLine | src/services/TableParser.ts:23-39 | a line that matches sets its key to its typed value; any other line leaves the record unchanged |
| Frontmatter.ExtractFrontmatter | src/services/TableParser.ts:10-43 | without a block the frontmatter is empty and the content unchanged; with one, the block's lines are parsed and the body follows it |
| Frontmatter.NoBlockNoFrontmatter | src/services/tables/table-parser.ts:38-44 | a document that does not open with `---` has no frontmatter and keeps its text |
| Frontmatter.AddLinesKeeps | src/services/TableParser.ts:23-39 | lines that do not set a key leave its value as it was |
| Frontmatter.LastLineWins | src/services/TableParser.ts:38 | a key takes the value of the last line that sets it |
| TableParser.KeepTruthy | src/services/TableParser.ts:185-187 | an optional text is kept iff it is present and non-empty |
| TableParser.DataCells | src/services/TableParser.ts:153-155 | the data cells are the trimmed pipe pieces after the first, at most one per header, in order |
| TableParser.RowOf | src/services/TableParser.ts:158-161 | a row built from the headers has no key twice |
| TableParser.RowOfCell | src/services/TableParser.ts:159-161 | every header maps to its own cell or to '' when the line is short; a repeated header keeps its last cell |
| TableParser.DataRows | src/services/TableParser.ts:152-164 | there is at most one row per data line, exactly one when every line holds a pipe, and no row has a key twice |
| TableParser.DataRowsInOrder | src/services/TableParser.ts:152-164 | the rows are, in line order, the rows of exactly the lines that keep a cell, each built from that line's cells |
| TableParser.DataRowsAll | src/services/TableParser.ts:152-164 | when every line keeps a cell, row `k` is built from the headers and line `k`'s cells |
| TableParser.DataRowsCell | src/services/TableParser.ts:157-161 | in such rows each header holds its own line's cell under it, or '' past the line's cells; a repeated header holds its last occurrence's cell |
| TableParser.ParseGrid | src/services/TableParser.ts:138-167 | `parseTable` gives null iff there are fewer than 3 lines or no non-empty header; the headers are the non-empty trimmed header cells; the rows are those of the lines after the separator |
| TableParser.FirstDiceHeader | src/services/TableParser.ts:174 | the header found is a dice notation with none before it; none is found iff no header is one |
| TableParser.FirstRerollHeader | src/services/TableParser.ts:200 | the header found is "reroll" in any case; none is found iff no header is |
| TableParser.ScanCells | src/services/TableParser.ts:211-239 | every displayed cell is a display cell of the row and every display cell is displayed; a reroll is set iff some cell is a naming reroll cell |
| TableParser.ScanCellsInOrder | src/services/TableParser.ts:211-239 | the displayed cells are the row's display cells in row order, each as often as the row has it: a subsequence of the row with the display cells' counts, which fixes the list |
| TableParser.ScanCellsFirst | src/services/TableParser.ts:211-239 | the first displayed cell, whose value becomes the entry's `result`, is the row's first display cell |
| TableParser.ScanCellsLastReroll | src/services/TableParser.ts:217-222 | a row's reroll is the text of its last naming reroll cell |
| TableParser.ReadCells | src/services/TableParser.ts:211-239 | the dice cell and the reroll cell never appear in `columns`; a blank cell is not displayed; the reroll is set iff some reroll cell is non-empty and not '—' or '-' |
| TableParser.ValuesOf | src/services/TableParser.ts:229 | the values are the cells' values, in order |
| TableParser.EntryFrom | src/services/TableParser.ts:232-243 | `result` is the first displayed value (or '') and `details` is present iff two or more are displayed, holding the others joined by " \| " |
| TableParser.EntryOf | src/services/TableParser.ts:202-244 | an entry's bounds are `parseRange` of the dice cell and its fields come from the displayed cells |
| TableParser.ProcessDiceTable | src/services/TableParser.ts:198-261 | exactly one entry per row, in row order; `dice` is the lower-cased header; the table reroll is kept iff non-empty |
| TableParser.ProcessTable | src/services/TableParser.ts:172-193 | the table is a dice table iff some header is a dice notation, and the first such header is the dice column; otherwise it keeps headers and rows |
| TableParser.RerollDirective | src/services/TableParser.ts:84 | a matching line starts with "reroll:" in any case |
| TableParser.Flush | src/services/TableParser.ts:69-72 | the collected block is stored under the current name iff it parses and a name is set; otherwise nothing is stored |
| TableParser.OnHeading | src/services/TableParser.ts:65-81 | a heading names the next table; when a table is open it is stored and reroll and private are reset, otherwise nothing else changes |
| TableParser.OnPipe | src/services/TableParser.ts:98-108 | a pipe line joins or starts a table; an unnamed new table takes the namespace and the next counter |
| TableParser.OnOther | src/services/TableParser.ts:109-121 | any other line stores the open table and forgets its name and options; with no open table nothing changes |
| TableParser.Finish | src/services/TableParser.ts:124-130 | a table still open after the last line is stored too |
| TableParser.PutNamed | src/services/TableParser.ts:71 | storing under a non-empty name keeps every stored table named |
| TableParser.ScanLinesNamed | src/services/TableParser.ts:61-122 | scanning any lines keeps every stored table under a non-empty name |
| TableParser.ParseTables | src/services/TableParser.ts:48-133 | `isTableFile` iff frontmatter 'table-roller' is the boolean true; the namespace and frontmatter are passed through; every table is named |
| TableParser.OpenTableStored | src/services/TableParser.ts:124-130 | a table that runs to the end of the input is stored under its name |
| TableParser.UnnamedTableCounted | src/services/TableParser.ts:103-106 | a pipe line that starts a table with no heading names it namespace plus the next counter |
| LegacyParser.ParseRow | tableParser.js:99-104 | the cells are the trimmed pipe pieces without the first and the last, in order; a line with fewer than two pieces has none |
| LegacyParser.DataRows | tableParser.js:80-89 | there is at most one row per data line, exactly one when every line has a cell, and no row has a key twice |
| LegacyParser.DataRowsInOrder | tableParser.js:80-89 | the rows are, in line order, the rows of exactly the lines whose `parseRow` is non-empty, each built from that line's cells |
| LegacyParser.DataRowsAll | tableParser.js:80-89 | when every line has cells, row `k` is built from the headers and line `k`'s cells |
| LegacyParser.DataRowsCell | tableParser.js:82-86 | in such rows each header holds its own line's cell under it, or '' past the line's cells; a repeated header holds its last occurrence's cell |
| LegacyParser.ParseTable | tableParser.js:73-92 | `parseTable` gives null iff there are fewer than 2 lines; the headers are the first line's cells and the second line is skipped |
| LegacyParser.DefaultTableName | tableParser.js:37 | the first unnamed table takes the default name, and the n-th takes the default name followed by n |
| LegacyParser.OnPipe | tableParser.js:30-40 | a pipe line joins or starts a table; an unnamed new table takes the next default name |
| LegacyParser.Flush | tableParser.js:43-46 | the finished block is stored under its name iff it parses and a name is set |
| LegacyParser.OnOther | tableParser.js:41-50 | any other line stores the open table and forgets its name; with no open table nothing changes |
| LegacyParser.Finish | tableParser.js:53-63 | with no open table nothing more is stored; a named open table is stored under its name |
| LegacyParser.ParseTables | tableParser.js:11-66 | the result never holds a name twice |
| LegacyParser.ScanLinesUnique | tableParser.js:19-51 | scanning any lines keeps the stored names distinct |
| LegacyParser.TableEndForgetsName | tableParser.js:41-50 | once the table after a heading ends, the heading's name is gone |
| LegacyParser.UnnamedTableNumbered | tableParser.js:31-38 | a pipe line that starts a table with no name set names it with the next default name |
| LegacyParser.LastTableStored | tableParser.js:53-63 | a table that runs to the end of the input is stored under its name, replacing any earlier table of that name |
| BodyParser.ExtractFrontmatterAndBody | src/services/tables/table-parser.ts:36-51 | without a block the frontmatter text is "" and the body is the whole content; otherwise both come from the same split as the other parser |
| BodyParser.IsTableParserTable | src/services/tables/table-parser.ts:13-17 | true iff the marker key holds the boolean true |
| BodyParser.DetermineColumnType | src/services/tables/table-parser.ts:114-124 | dice iff a dice column is given and the name equals it; reroll iff not dice and the name is "reroll" in any case; never dice when no dice column is given |
| BodyParser.BodyLines | src/services/tables/table-parser.ts:79 | the kept lines are the non-blank lines of the content, in their order and with their multiplicity: a subsequence of the lines that keeps every non-blank one as often as it occurs |
| BodyParser.HeadersOf | src/services/tables/table-parser.ts:87 | every header is a non-empty trimmed pipe piece of the first line, and every such piece is a header |
| BodyParser.HeadersInOrder | src/services/tables/table-parser.ts:87 | the headers are the non-empty trimmed pipe pieces in their order, each as often as it occurs |
| BodyParser.StripPipes | src/services/tables/table-parser.ts:98 | at most one pipe is taken off each end and the rest of the line is kept as it is |
| BodyParser.RowCells | src/services/tables/table-parser.ts:98-101 | the cells are the trimmed pieces of the stripped line, padded with '' up to the header count |
| BodyParser.RowOfLine | src/services/tables/table-parser.ts:102-105 | a row object has no key twice |
| BodyParser.ReadBody | src/services/tables/table-parser.ts:78-111 | fewer than 2 lines give no columns and no rows; otherwise one column per non-empty header, typed by `determineColumnType`, and one row per line after the separator |
| BodyParser.FmOr | src/services/tables/table-parser.ts:25-27 | `kv[key] \|\| fallback` is the stored value when it is truthy, else the fallback |
| BodyParser.FmOrNone | src/services/tables/table-parser.ts:26-28 | `kv[key] \|\| undefined` is present iff the stored value is truthy |
| BodyParser.ParseTable | src/services/tables/table-parser.ts:19-34 | the name defaults to 'Unnamed Table' and isHidden to false; rerollTable and diceColumn are set iff the frontmatter holds a truthy value; the body is parsed with no dice column; a set diceColumn is the frontmatter's value |
| BodyParser.NoParsedDiceColumn | src/services/tables/table-parser.ts:22 | no parsed column is typed dice, whatever the frontmatter says |
| BodyParser.EmptyFrontMatter | src/services/tables/table-parser.ts:53-76 | the empty frontmatter text has no keys |
| BodyParser.NoBlockNoFrontMatter | src/services/tables/table-parser.ts:38-44 | a document without a block has empty frontmatter, is not a table-parser table, and is named 'Unnamed Table' with isHidden false |
| BodyParser.WrittenBlockSplit | src/services/tables/table-parser.ts:38-50 | a block written in front of a body is split back off: write then split is the identity |
| BodyParser.WrittenRowRead | src/services/tables/table-parser.ts:98-101 | a row written as `\| a \| b \|` from trimmed, pipe-free cells reads back as those cells |
| BodyParser.RowCellRead | src/services/tables/table-parser.ts:102-105 | each header reads its own cell, or '' past the end of the line; a repeated header reads its last cell |
| Roller.RegisterOne | src/services/TableRollerCore.ts:45-52 | a table becomes reachable under its short name and under `namespace.name`, and every other name keeps its table |
| Roller.RegisterAll | src/services/TableRollerCore.ts:45-52 | registering a file's tables keeps the registry free of repeated keys |
| Roller.RegisterAllKeeps | src/services/TableRollerCore.ts:45-52 | loading a file never removes a name |
| Roller.RegisterAllReachable | src/services/TableRollerCore.ts:45-52 | after loading, each table of the file is reachable by its short and by its full name |
| Roller.RegisterAllNamespace | src/services/TableRollerCore.ts:47-51 | every name the file adds or overwrites maps to a value carrying the file's namespace, so a later short name overwrites an earlier one |
| Roller.LoadFile | src/services/TableRollerCore.ts:34-53 | a file that is not a table-roller file changes nothing; otherwise all its parsed tables are registered |
| Roller.LoadTables | src/services/TableRollerCore.ts:20-29 | loading from a cleared registry yields a registry without repeated keys |
| Strings.CodeUnits | src/services/TableRollerCore.ts:66 | a character below 0x10000 is one unit outside the surrogate range; any other is a high and a low surrogate from which the character is recovered |
| Strings.LessTotal | src/services/TableRollerCore.ts:66 | of two different strings one sorts before the other in code-unit order |
| Strings.Utf16Injective | src/services/TableRollerCore.ts:66 | strings with the same UTF-16 code units are equal, so the code-unit order `sort` uses is total on strings |
| Strings.AstralBeforeHighBmp | src/services/TableRollerCore.ts:66 | `sort` puts U+10000 before U+FF61, since its first code unit is the surrogate 0xD800 |
| Roller.InsertSorted | src/services/TableRollerCore.ts:66 | adding one name to a list sorted by UTF-16 code units keeps it sorted and adds exactly that name |
| Roller.SortedShortNames | src/services/TableRollerCore.ts:58-67 | the result is sorted by UTF-16 code units and holds exactly the keys without a dot |
| Roller.TableNames | src/services/TableRollerCore.ts:58-67 | `getTableNames` is sorted by UTF-16 code units, as `sort` without a comparator orders, and holds each key without a '.' once and nothing else |
| Roller.FindTable | src/services/TableRollerCore.ts:192-213 | an exact key wins; else `context.name` when the name has no '.'; nothing is found only when no key matches exactly or ignoring case |
| Roller.FindTableIgnoringCase | src/services/TableRollerCore.ts:204-210 | failing the first two steps, the first key in insertion order equal ignoring case decides |
| Roller.Clamp | src/services/TableRollerCore.ts:116 | the clamped value lies in `[lo, hi]` and equals the input when the input already does |
| Roller.LowestMin | src/services/TableRollerCore.ts:114 | the smallest entry minimum: no entry has a smaller one and some entry has it |
| Roller.HighestMax | src/services/TableRollerCore.ts:115 | the largest entry maximum: no entry has a larger one and some entry has it |
| Roller.RowLines | src/services/TableRollerCore.ts:148-153 | every non-blank cell gives a `**key:** value` line and every line comes from a non-blank cell |
| Roller.RowLinesInOrder | src/services/TableRollerCore.ts:148-153 | the lines are the `**key:** value` lines of exactly the non-blank cells, in column order |
| Roller.RollSimpleTable | src/services/TableRollerCore.ts:143-160 | one draw picks a row below the row count; the result has no roll and no nested rolls, and fails iff there are no rows |
| Roller.RerollNames | src/services/TableRollerCore.ts:166 | the names are the non-empty trimmed pieces of the comma split, all of them, in order and with their multiplicity |
| Roller.RollOnTable | src/services/TableRollerCore.ts:84-116 | a successful roll carries the table's name and namespace; a dice roll lands on the first entry covering its roll, and its roll value is the dice total plus the modifier, clamped to the entries' span; a simple roll has no roll; with no fuel left it fails |
| Roller.RerollsInOrder | src/services/TableRollerCore.ts:93-135 | the entry's rerolls come first in `nestedRolls` and the table's rerolls after them, in the order the table names them |
| Roller.EntryRerollsInOrder | src/services/TableRollerCore.ts:132-135 | nested rolls on a dice result exist only when the entry names rerolls, and follow the order of its names |
| Roller.ClampedRoll | src/services/TableRollerCore.ts:110-116 | the roll value lies in `[min entry.min, max entry.max]` and is the raw total when that already does |
| Roller.PickEntry | src/services/TableRollerCore.ts:114-122 | the entry chosen is the first covering the clamped value; otherwise the error "No entry found for roll <v> on table <name>" (Infinity when the table has no entries) |
| Roller.RollDiceTable | src/services/TableRollerCore.ts:109-138 | a dice error or a missing entry is passed on as the error; a success has entries, a roll equal to the clamped total, and the first covering entry's text |
| Roller.RollTotal | src/services/TableRollerCore.ts:111-137 | once the total is known: a missing entry is the error; a success carries the clamped total, the covering entry's text, and nested rolls only when that entry names rerolls, in the order it names them |
| Roller.EntryRerolls | src/services/TableRollerCore.ts:132-135 | nested rolls are resolved exactly when the entry's reroll is non-empty, follow the order of its names, and without them no draw is read |
| Roller.ResolveRerolls | src/services/TableRollerCore.ts:165-183 | the results' names are a subsequence of the names, so never more results than names, and they keep the list's order |
| Roller.ResolveRerollsEach | src/services/TableRollerCore.ts:165-183 | when every name resolves and rolls, there is one result per name, and result k is the roll on name k's table with the caller's modifier, on the draws the rolls before it leave |
| Roller.ResolveRerollsComplete | src/services/TableRollerCore.ts:165-183 | when every name resolves and rolls, there is one result per name, under that name, in the list's order |
| Roller.NestedRollsSameModifier | src/services/TableRollerCore.ts:93-101 | every rerolled dice table gets the same modifier as the roll that asked for it: nested result k's roll value is its dice total plus that modifier, clamped |
| Roller.Roll | src/services/TableRollerCore.ts:72-79 | a name `findTable` cannot resolve gives "Table not found: <name>"; a success carries the found namespace |
| Roller.InRangeRollUnclamped | src/services/TableRollerCore.ts:113-116 | a total some entry covers is not changed by the clamp |
| CliHelper.FindTableName | tableHelper.js:274-284 | an exact key is returned as is; otherwise the result is either a stored key equal to the name ignoring case or the name itself |
| CliHelper.FindTableNameFirstMatch | tableHelper.js:280-283 | without an exact key, the first key equal ignoring case is the one used |
| CliHelper.TableFoundIff | tableHelper.js:101-105 | `rollSingle` finds a table iff some key equals the name ignoring case |
| CliHelper.DiceColumn | tableHelper.js:308-317 | the column is a header; whenever some header is `d<digits>` the chosen one is too; with no headers `rollOnTable`'s default 'd6' applies |
| CliHelper.DiceColumnFirst | tableHelper.js:310-314 | the first `d<digits>` header wins over later ones and over the first column |
| CliHelper.DiceColumnDefault | tableHelper.js:316 | without a `d<digits>` header the first header is the range column |
| CliHelper.CountedHeaderMissed | tableHelper.js:311 | a "2d6" header is not recognised, so `Result \| 2d6` is rolled on its Result column |
| CliHelper.SuffixStart | tableHelper.js:232 | the suffix found is a sign followed by digits to the end, with a non-empty name before it; none is found iff no position qualifies |
| CliHelper.ParseNameWithModifier | tableHelper.js:231-240 | without a suffix the name is the trimmed text with modifier 0; with one, the name is the trimmed text before it |
| CliHelper.NameModifierRoundTrip | tableHelper.js:231-240 | a name followed by a signed number reads back as the trimmed name and that number |
| CliHelper.NoDigitNoModifier | tableHelper.js:239 | an expression that does not end in a digit has modifier 0 |
| CliHelper.Retry | tableHelper.js:114-121 | at least one roll is made; the loop stops only at a fresh result, at maxAttempts, or when the recorded keys reach the row count; it fails iff the column is not a notation |
| CliHelper.ExhaustedTableRolledOnce | tableHelper.js:117-121 | a table with no more rows than recorded keys is rolled exactly once, duplicate or not |
| CliHelper.FreshRollKept | tableHelper.js:114-121 | a first roll that is not yet recorded is kept after one attempt |
| CliHelper.RerollOf | tableHelper.js:131-138 | a reroll expression comes from a key that lower-cases to "reroll" and is neither blank, '—' nor '-'; with no such key there is none |
| CliHelper.NdxMatch | tableHelper.js:140-143 | the dice part of an `NdX Table` expression is a notation the roller accepts |
| CliHelper.DiceTextValid | tableHelper.js:140-144 | `\d*d\d+` is a notation `DiceRoller.roll` accepts |
| CliHelper.ConsRolledOn | tableHelper.js:191-197 | prepending one result to results rolled in order keeps one result per name, each on its own table |
| CliHelper.RollSingle | tableHelper.js:99-159 | an unknown name gives 'Table "<name>" not found'; the tracker stays valid and only grows for this session; a success is on the found table and its roll is appended to the history, duplicate or not |
| CliHelper.WithRerolls | tableHelper.js:130-156 | no reroll leaves the row as it is; otherwise only `_rerolls` is added, and an `NdX Table` expression yields exactly as many nested results as the dice show |
| CliHelper.RepeatRoll | tableHelper.js:145-148 | `count` rolls of the expression give exactly `count` results |
| CliHelper.RollExpr | tableHelper.js:185-224 | ',' takes precedence over '>': a comma list gives one result per segment, and a '>' chain gives one object |
| CliHelper.RollList | tableHelper.js:187-198 | each comma segment is rolled in order, on its own table, giving one result per segment |
| CliHelper.RollChain | tableHelper.js:199-217 | the chain returns a result rolled on the last segment's table; with more than one segment it carries as `_chain` a result rolled on the table of the segment before |
| CliHelper.ChainOfTwo | tableHelper.js:199-217 | for `a > b` the result carries as `_chain` exactly the result the roll on `a` gave |
| CliHelper.Link | tableHelper.js:208-210 | `_chain` is set to the previous result when there is one, and no other field changes |
| CliHelper.RollSequence | tableHelper.js:168-175 | one result per name, in order, each on the table its name resolves to |
| Session.KeyFields | src/services/tables/SessionTracker.js:102-104 | the kept fields are exactly the fields other than `_roll` and `_chain`, in their order |
| Session.KeyOf | src/services/tables/SessionTracker.js:99-108 | an object's key is built from its fields without `_roll` and `_chain`; an array's from its index fields; a string or number uses its text |
| Session.CreateSession | src/services/tables/SessionTracker.js:13-20 | afterwards the session exists; an existing one is untouched, a new one is empty, and no other session changes |
| Session.AddKey | src/services/tables/SessionTracker.js:37 | `Set.add` keeps the set as it is when the key is present and otherwise adds exactly that key |
| Session.AddResult | src/services/tables/SessionTracker.js:28-43 | the session exists afterwards, no other session changes, and the tracker stays well formed |
| Session.IsDuplicate | src/services/tables/SessionTracker.js:52-60 | true iff the value's key is recorded for this session and table, which needs the session to exist |
| Session.GetHistory | src/services/tables/SessionTracker.js:81-84 | an unknown session has the empty history |
| Session.ClearSession | src/services/tables/SessionTracker.js:90-92 | the session is gone and every other session keeps its state |
| Session.AddedIsDuplicate | src/services/tables/SessionTracker.js:28-60 | after `addResult(s,t,r)`, `isDuplicate(s,t,r)` holds |
| Session.ResultsCount | src/services/tables/SessionTracker.js:32-74 | re-adding a recorded key leaves `getResults` unchanged; a new key is appended, so the count grows by one |
| Session.HistoryAppends | src/services/tables/SessionTracker.js:38-42 | each `addResult` appends exactly its own entry to the session's history |
| Session.ClearedHasNoDuplicates | src/services/tables/SessionTracker.js:52-92 | after `clearSession(s)` nothing is a duplicate in `s` and its history is empty |
| Session.CreateSessionIdempotent | src/services/tables/SessionTracker.js:13-20 | `createSession` twice is the same as once |
| Session.KeyKeepsOtherFields | src/services/tables/SessionTracker.js:99-108 | objects that differ in a field other than `_roll` or `_chain` have different keys |
| Session.KeyIgnoresRollAndChain | src/services/tables/SessionTracker.js:102-105 | objects that differ only in `_roll` and `_chain` have the same key |
| CoreRoller.FindName | src/services/core/TableRollerCore.js:164-180 | an exact key wins; a match is a stored key equal ignoring case; null iff no key is equal ignoring case |
| CoreRoller.FindNameFirstMatch | src/services/core/TableRollerCore.js:172-177 | without an exact key, the first key in insertion order equal ignoring case is used |
| CoreRoller.Loop | src/services/core/TableRollerCore.js:59-89 | a success is the first entry covering the unclamped roll, not yet rolled, recorded once, with attempts in `(attempts, maxAttempts]` and `rawRoll = roll - modifier`; a failure leaves the tracker unchanged; out of attempts it fails with "Failed to get unique result after <n> attempts" |
| CoreRoller.UncoveredRollThrows | src/services/core/TableRollerCore.js:60-65 | a roll no entry covers throws at once, with no retry and no record |
| CoreRoller.AllRecordedFails | src/services/core/TableRollerCore.js:59-89 | when every entry is already recorded and every roll is covered, the roll fails after all attempts and records nothing |
| CoreRoller.Single | src/services/core/TableRollerCore.js:48-92 | an unknown name gives "Table not found: <name>"; otherwise the attempt loop runs on the table found |
| CoreRoller.RollSingle | src/services/core/TableRollerCore.js:48-92 | the imperative loop with its early exit computes what `Loop` describes; a success took between 1 and maxAttempts attempts; a failure records nothing |
| CoreRoller.RollAll | src/services/core/TableRollerCore.js:106-109 | one result per segment, in order, each on the table its segment names |
| CoreRoller.ConsResults | src/services/core/TableRollerCore.js:106-109 | prepending one result to results in order keeps one result per name, each on its table |
| CoreRoller.RollChain | src/services/core/TableRollerCore.js:102-116 | `roll` splits on '->' and gives one result per trimmed segment, in order, with the expression and session echoed |
| CoreRoller.ResetSession | src/services/core/TableRollerCore.js:154-160 | 'all' replaces the whole tracker; any other id clears only that session and keeps the others |
| BuilderUtils.UpdateTableName | src/ui/utils/TableBuilderUtils.ts:275-280 | only the table name changes, to the given one |
| BuilderUtils.UpdatePrivateFlag | src/ui/utils/TableBuilderUtils.ts:290-295 | only the private flag changes, to the given one |
| BuilderUtils.UpdateTableReroll | src/ui/utils/TableBuilderUtils.ts:305-313 | only the table reroll changes; `undefined` clears it |
| BuilderUtils.InsertColumn | src/ui/utils/TableBuilderUtils.ts:339-350 | one more column, the new one at the splice position; removing it there gives the old columns back, and nothing else changes |
| BuilderUtils.AddColumn | src/ui/utils/TableBuilderUtils.ts:323-328 | adding a column is inserting it at the end |
| BuilderUtils.DropKey | src/ui/utils/TableBuilderUtils.ts:368-372 | every row loses exactly the given key |
| BuilderUtils.RemoveColumn | src/ui/utils/TableBuilderUtils.ts:361-379 | the column goes and so does its key ('range' for dice, the name otherwise) in every row; every other key keeps its value; an index naming no column throws |
| BuilderUtils.RemoveColumnUndone | src/ui/utils/TableBuilderUtils.ts:339-379 | putting a removed column back where it was restores the columns, and the whole state when no row held a cell for it |
| BuilderUtils.ReorderColumns | src/ui/utils/TableBuilderUtils.ts:390-403 | the columns are a permutation of the old ones with the moved column at `toIndex`; nothing else changes |
| BuilderUtils.ReorderUndone | src/ui/utils/TableBuilderUtils.ts:390-403 | moving a column back from where it went restores the state |
| BuilderUtils.CanAddColumnType | src/ui/utils/TableBuilderUtils.ts:662-672 | regular columns are always allowed; a dice or reroll column only when none of that type exists |
| BuilderUtils.AllowedColumnKeepsSpecials | src/ui/utils/TableBuilderUtils.ts:662-672 | inserting a column the check allows keeps at most one dice and one reroll column |
| BuilderUtils.DefaultColumnName | src/ui/utils/TableBuilderUtils.ts:681-695 | 'd6' for dice, 'reroll' for reroll, "Column n" for the n-th regular column |
| BuilderUtils.InsertRow | src/ui/utils/TableBuilderUtils.ts:429-436 | one more row, the new one at the splice position; removing it there gives the old rows back, and nothing else changes |
| BuilderUtils.AddRow | src/ui/utils/TableBuilderUtils.ts:413-418 | adding a row is inserting it at the end |
| BuilderUtils.RemoveRow | src/ui/utils/TableBuilderUtils.ts:446-453 | past the last row nothing changes; otherwise one row fewer, and putting the removed row back restores the rows |
| BuilderUtils.DuplicateRow | src/ui/utils/TableBuilderUtils.ts:464-468 | one more row with `rows[index+1] = rows[index]`, every other row kept in place; removing the copy restores the state; an index naming no row throws |
| BuilderUtils.UpdateCell | src/ui/utils/TableBuilderUtils.ts:480-495 | exactly one cell is written and every other cell and row keeps its value; at the row count a new row holds only that cell; a negative index changes nothing visible |
| BuilderUtils.UpdateCellSame | src/ui/utils/TableBuilderUtils.ts:480-495 | writing the value a cell already holds leaves the state as it was |
| BuilderUtils.Blanks | src/ui/utils/TableBuilderUtils.ts:508-512 | every write `clearResults` makes is '' |
| BuilderUtils.ClearResults | src/ui/utils/TableBuilderUtils.ts:505-520 | only rows change, and each row receives the writes for the regular columns |
| BuilderUtils.ClearResultsBlanks | src/ui/utils/TableBuilderUtils.ts:505-520 | after `clearResults` every regular column reads '' in every row |
| BuilderUtils.ClearResultsKeeps | src/ui/utils/TableBuilderUtils.ts:505-520 | every key that names no regular column keeps its value, so dice ranges and reroll cells stay |
| BuilderUtils.ClearResultsIdempotent | src/ui/utils/TableBuilderUtils.ts:505-520 | clearing twice is clearing once |
| BuilderUtils.ClearAllRows | src/ui/utils/TableBuilderUtils.ts:529-534 | the rows become empty and nothing else changes |
| BuilderUtils.ReplaceWithGeneratedRows | src/ui/utils/TableBuilderUtils.ts:544-559 | the rows become one `range` row per generated span, in order, and nothing else changes |
| BuilderUtils.PasteIntoColumn | src/ui/utils/TableBuilderUtils.ts:609-639 | no values leave the state as it is; otherwise rows grow to at least the value count, row i gets values[i] under the column's key and every other cell keeps its value |
| BuilderUtils.PasteIdempotent | src/ui/utils/TableBuilderUtils.ts:609-639 | pasting the same values twice is pasting once |
| RowGen.JsRem | src/ui/utils/TableBuilderUtils.ts:76-132 | JavaScript `%` agrees with Euclidean remainder on non-negative dividends and stays in `(-b, 0]` otherwise |
| RowGen.RangeRow | src/ui/utils/TableBuilderUtils.ts:110-114 | a generated row holds exactly one cell, `range`, with the rendered label |
| RowGen.Sizes | src/ui/utils/TableBuilderUtils.ts:95-141 | every row gets the base size except the widened one, which takes the extra values |
| RowGen.Walk | src/ui/utils/TableBuilderUtils.ts:107-152 | one range per size, none ending past the maximum |
| RowGen.Singles | src/ui/utils/TableBuilderUtils.ts:155-158 | one single-value range per value from `min` to `min(max, min+count-1)`, in order |
| RowGen.GenerateDefaultRows | src/ui/utils/TableBuilderUtils.ts:53-162 | a notation that is not `^(\d*)d(\d+)$` gives []; otherwise one row per generated span |
| RowGen.ChainAppend | src/ui/utils/TableBuilderUtils.ts:107-116 | two chains that meet join into one chain |
| RowGen.SizesSum | src/ui/utils/TableBuilderUtils.ts:95-106 | the sizes add up to `n·size` plus the extra values when a row is widened |
| RowGen.SumPositive | src/ui/utils/TableBuilderUtils.ts:95-106 | positive sizes add up to at least their number |
| RowGen.WalkChain | src/ui/utils/TableBuilderUtils.ts:107-116 | while the sizes fit below the maximum, the loop tiles `cur` up to `cur + sum - 1` with contiguous ranges |
| RowGen.Quotient | src/ui/utils/TableBuilderUtils.ts:76-94 | floor division and JavaScript remainder recombine to the total when the divisor is at most the total |
| RowGen.GroupedTiles | src/ui/utils/TableBuilderUtils.ts:75-127 | with `2 <= groupSize <= totalRange`, the rows tile [N, N·S] exactly under each of the four remainder strategies |
| RowGen.LayoutTiles | src/ui/utils/TableBuilderUtils.ts:82-126 | the grouped layout tiles the values for every strategy |
| RowGen.WidenedTiles | src/ui/utils/TableBuilderUtils.ts:93-117 | the main rows, one of them widened by the remainder, tile the values |
| RowGen.EvenTiles | src/ui/utils/TableBuilderUtils.ts:93-117 | with no remainder every strategy lays out the plain groups, which tile the values |
| RowGen.ExpandFirstTiles | src/ui/utils/TableBuilderUtils.ts:99-101 | 'expand-first' tiles the values |
| RowGen.ExpandLastTiles | src/ui/utils/TableBuilderUtils.ts:80-104 | 'expand-last', the default, tiles the values |
| RowGen.RowFirstTiles | src/ui/utils/TableBuilderUtils.ts:83-91 | 'row-first' tiles the values with the small row first |
| RowGen.RowLastTiles | src/ui/utils/TableBuilderUtils.ts:120-126 | 'row-last' tiles the values with the small row last |
| RowGen.MainChain | src/ui/utils/TableBuilderUtils.ts:93-117 | the main rows tile from their start over `q·g` values plus the widening |
| RowGen.CountedTiles | src/ui/utils/TableBuilderUtils.ts:129-153 | with `1 <= count < totalRange` there are exactly `count` rows, the last taking the remainder, and they tile the values |
| RowGen.CountWalk | src/ui/utils/TableBuilderUtils.ts:135-153 | the counted loop, with its last row widened, tiles the values |
| RowGen.SinglesTiles | src/ui/utils/TableBuilderUtils.ts:154-159 | with `count >= totalRange` every value gets a row of its own |
| RowGen.OversizedGroup | src/ui/utils/TableBuilderUtils.ts:75-127 | a group size larger than the value count gives one row of everything under the row strategies and no rows under the expand strategies |
| RowGen.SmallQuotient | src/ui/utils/TableBuilderUtils.ts:76-94 | a divisor above the total gives quotient 0 and the total as the remainder |
| RowGen.OversizedLayout | src/ui/utils/TableBuilderUtils.ts:82-126 | the layout with no main rows is one row of everything or nothing, by strategy |
| RowGen.ChainOrdered | src/ui/utils/TableBuilderUtils.ts:107-116 | chained ranges are disjoint and increasing |
| RowGen.ChainCovers | src/ui/utils/TableBuilderUtils.ts:107-116 | every value of a chain lies in some range |
| RowGen.LabelRead | src/ui/utils/TableBuilderUtils.ts:110-114 | a rendered range reads back as its bounds in the table parser |
| RowGen.GeneratedInRange | src/ui/utils/TableBuilderUtils.ts:64-158 | whatever the arguments, every generated range lies within [N, N·S] and starts no later than it ends |
| RowGen.TilesWithin | src/ui/utils/TableBuilderUtils.ts:107-116 | tiled ranges lie within the tiled values |
| RowGen.NothingToTile | src/ui/utils/TableBuilderUtils.ts:72-159 | when the roll has no values, nothing is generated |
| RowGen.EmptyLayout | src/ui/utils/TableBuilderUtils.ts:82-126 | no groups and no remainder lay out no rows |
| Csv.DoubleQuotes | src/ui/utils/TableBuilderUtils.ts:227 | doubling quotes adds only quote characters |
| Csv.EscapeCsvCell | src/ui/utils/TableBuilderUtils.ts:648-653 | a value with ',' or '"' is wrapped in quotes; any other value is written as it is; no other character is added |
| Csv.PlainField | src/ui/utils/TableBuilderUtils.ts:219-230 | reading an unquoted field consumes no more than the input |
| Csv.QuotedField | src/ui/utils/TableBuilderUtils.ts:226-228 | reading a quoted field consumes no more than the input |
| Csv.Field | src/ui/utils/TableBuilderUtils.ts:226-230 | reading any field consumes no more than the input |
| Csv.Record | src/ui/utils/TableBuilderUtils.ts:230 | a line reads as at least one field |
| Csv.SkipPast | src/ui/utils/TableBuilderUtils.ts:230 | skipping to after the next comma shortens the input |
| Csv.PlainFieldRead | src/ui/utils/TableBuilderUtils.ts:226-228 | a value with no comma or quote, followed by the end or a comma, reads back as itself |
| Csv.QuotedFieldRead | src/ui/utils/TableBuilderUtils.ts:227 | a quoted value with doubled quotes reads back as the value |
| Csv.FieldRead | src/ui/utils/TableBuilderUtils.ts:648-653 | an escaped value followed by the end or a comma reads back as the value: escape then read is the identity |
| Csv.RecordRead | src/ui/utils/TableBuilderUtils.ts:222-230 | a line of escaped values joined by commas reads back as the values |
| Csv.EscapedLineFree | src/ui/utils/TableBuilderUtils.ts:648-653 | escaping never adds a line break |
| Csv.DataLines | src/ui/utils/TableBuilderUtils.ts:221-231 | one data line per row, in row order |
| Csv.RowsCells | src/ui/utils/TableBuilderUtils.ts:222-224 | one cell list per row, in row order, each in column order |
| Csv.DataLinesFree | src/ui/utils/TableBuilderUtils.ts:221-231 | no data line holds a line feed when no cell does |
| Csv.LinesRead | src/ui/utils/TableBuilderUtils.ts:233 | lines without line feeds joined by '\n' read back one record per line |
| Csv.DataLinesRecords | src/ui/utils/TableBuilderUtils.ts:221-231 | each data line reads back as its row's cells |
| Csv.DataLinesRead | src/ui/utils/TableBuilderUtils.ts:217-234 | the data lines read back as the cells of each row |
| Csv.CsvRead | src/ui/utils/TableBuilderUtils.ts:217-234 | with names that need no quoting and cells on one line each, `generateCSV` reads back as the names and the cells |
| Csv.UnescapedHeaderMisread | src/ui/utils/TableBuilderUtils.ts:218-219 | a column named "a,b" reads back as two columns, because the header line is not escaped |
| Csv.CsvEscapedRead | src/ui/utils/TableBuilderUtils.ts:217-234 | with the header names escaped too, every name reads back, commas and quotes included |
| Clipboard.FirstTabCell | src/ui/utils/TableBuilderUtils.ts:579 | the first tab cell holds no tab and is trimmed |
| Clipboard.TrimmedItems | src/ui/utils/TableBuilderUtils.ts:583-593 | every item is trimmed and non-empty |
| Clipboard.FirstCells | src/ui/utils/TableBuilderUtils.ts:576-580 | at most one value per line, each trimmed and free of tabs |
| Clipboard.ParseClipboardData | src/ui/utils/TableBuilderUtils.ts:568-597 | blank text gives []; every value is trimmed; tab text gives at most one value per line; other text gives no empty values |
| Clipboard.LinesRead | src/ui/utils/TableBuilderUtils.ts:578-591 | splitting on `\r?\n` gives back lines joined by '\n' that hold no carriage return |
| Clipboard.LineListRead | src/ui/utils/TableBuilderUtils.ts:589-594 | items written one per line read back as those items |
| Clipboard.CommaListRead | src/ui/utils/TableBuilderUtils.ts:582-587 | items written as a comma list on one line read back as those items |
| Clipboard.TabLineRead | src/ui/utils/TableBuilderUtils.ts:579 | a written spreadsheet row reads back as its first cell |
| Clipboard.SheetRead | src/ui/utils/TableBuilderUtils.ts:576-580 | pasted spreadsheet rows read back as the first cell of every row, tab priority winning |
| Columns.CellKey | src/ui/utils/TableBuilderUtils.ts:223 | the key of a dice column is 'range' and of any other column its name |
| Columns.CellText | src/ui/utils/TableBuilderUtils.ts:224 | a missing cell reads as '' and a present one as its value |
| Columns.ColumnNames | src/ui/utils/TableBuilderUtils.ts:218 | one name per column, in order |
| Columns.CellTexts | src/ui/utils/TableBuilderUtils.ts:222-224 | one cell text per column, in order, read under the column's key |
| BuilderState.Capture | src/ui/state/TableBuilderState.ts:55-74 | afterwards the history is well formed (at most 50 entries, index in range), the index is the last entry and nothing can be redone; the redo entries are dropped and at the cap the oldest entry goes |
| BuilderState.Create | src/ui/state/TableBuilderState.ts:43-48 | a new manager has one entry at index 0, so neither undo nor redo is possible |
| BuilderState.Undo | src/ui/state/TableBuilderState.ts:80-89 | undo succeeds iff the index is above 0; then it steps back one and restores that snapshot; otherwise nothing changes; the history is never touched |
| BuilderState.Redo | src/ui/state/TableBuilderState.ts:95-104 | redo succeeds iff the index is below the last entry; then it steps forward one and restores that snapshot; otherwise nothing changes |
| BuilderState.SetState | src/ui/state/TableBuilderState.ts:119-127 | the current state becomes the given one; without capture the history and index stay, with capture the new state is the last entry and nothing can be redone |
| BuilderState.UpdateStateWithoutHistory | src/ui/state/TableBuilderState.ts:185-188 | only the current state changes |
| BuilderState.ClearHistory | src/ui/state/TableBuilderState.ts:162-166 | one entry, the current state, at index 0, so neither undo nor redo is possible |
| BuilderState.UndoCount | src/ui/state/TableBuilderState.ts:133-150 | the undo count is positive iff undo is possible |
| BuilderState.RedoCount | src/ui/state/TableBuilderState.ts:141-157 | the redo count is positive iff redo is possible, and the undo and redo counts add up to `history.length - 1` |
| BuilderState.UndoThenRedo | src/ui/state/TableBuilderState.ts:80-104 | an undo then a redo comes back to the same index and snapshot, and restores a manager that held its snapshot exactly |
| BuilderState.RedoThenUndo | src/ui/state/TableBuilderState.ts:80-104 | a redo then an undo comes back the same way |
| BuilderState.UndoTimes | src/ui/state/TableBuilderState.ts:80-89 | any number of undos keeps the manager well formed and the history unchanged |
| BuilderState.RedoTimes | src/ui/state/TableBuilderState.ts:95-104 | any number of redos keeps the manager well formed and the history unchanged |
| BuilderState.UndoCountSteps | src/ui/state/TableBuilderState.ts:80-150 | exactly `getUndoCount()` undos in a row succeed, each stepping back one |
| BuilderState.RedoCountSteps | src/ui/state/TableBuilderState.ts:95-157 | exactly `getRedoCount()` redos in a row succeed, each stepping forward one |
| BuilderState.CaptureDropsRedo | src/ui/state/TableBuilderState.ts:56-59 | after undoing, a capture drops the undone entries, so nothing is left to redo |
| Markdown.SpacesThenRest | src/services/TableParser.ts:65 | the capture of `\s{n,}(.+)$` is the shortest suffix a match allows, the one starting latest, as the greedy `\s{n,}` of the backtracking engine picks |
| Markdown.SpacesThenRestComplete | src/services/TableParser.ts:65 | whenever some split point lets the pattern match, the matcher succeeds |
| Markdown.HashRun | src/services/TableParser.ts:65 | the `#` run is maximal |
| Markdown.HeadingText | src/services/TableParser.ts:65 | a line is a heading iff it opens with 1 to 6 `#` followed by whitespace and text; the capture is that text |
| Markdown.PipeCells | src/services/TableParser.ts:143-144 | one trimmed cell per pipe piece, at least one |
| Markdown.NonEmpty | src/services/TableParser.ts:145 | every kept cell is a non-empty cell of the input, every non-empty cell is kept, and never more cells come out than went in |
| Markdown.NonEmptyInOrder | src/services/TableParser.ts:145 | the kept cells are the non-empty cells in their order, each as often as it occurs: a subsequence of the cells with the non-empty cells' counts, which fixes the list |
| MarkdownExport.PaddedJoin | src/ui/utils/TableBuilderUtils.ts:196-205 | joining cells with " \| " is joining the space-padded cells with "\|" |
| MarkdownExport.PadTrim | src/ui/utils/TableBuilderUtils.ts:196-205 | trimming a padded cell gives the cell back |
| MarkdownExport.PipeLineSplit | src/ui/utils/TableBuilderUtils.ts:196-205 | the pipe pieces of a written line are the padded cells between two empty pieces |
| MarkdownExport.PipeCellsRead | src/ui/utils/TableBuilderUtils.ts:196-205 | `split('\|').map(trim)` of a written line gives the cells between two empty pieces |
| MarkdownExport.HeaderLineRead | src/ui/utils/TableBuilderUtils.ts:195-196 | the header line reads back as the column names in both parsers |
| MarkdownExport.RowLineRead | src/ui/utils/TableBuilderUtils.ts:200-206 | a row line reads back as its cells in `TableParser.parseTable` |
| MarkdownExport.BodyRowLineRead | src/ui/utils/TableBuilderUtils.ts:200-206 | a row line reads back as its cells in `parseTableBody` |
| MarkdownExport.SeparatorRead | src/ui/utils/TableBuilderUtils.ts:197 | the separator holds one `----` piece per column between two empty pieces |
| MarkdownExport.Directives | src/ui/utils/TableBuilderUtils.ts:183-192 | a private line, a reroll line when the reroll is non-empty, and a blank line after them when there are any |
| MarkdownExport.RowLines | src/ui/utils/TableBuilderUtils.ts:200-206 | one row line per row, in order, holding the row's cells in column order |
| MarkdownExport.PipeLineOneLine | src/ui/utils/TableBuilderUtils.ts:196-205 | a pipe line of cells without line feeds holds no line feed |
| MarkdownExport.LinesOneLine | src/ui/utils/TableBuilderUtils.ts:170-209 | every collected line is a single line when the names and cells are |
| MarkdownExport.MarkdownLinesRead | src/ui/utils/TableBuilderUtils.ts:208 | the note splits back into the collected lines |
| MarkdownExport.HeadingRead | src/ui/utils/TableBuilderUtils.ts:180 | the heading line reads back as the table name |
| MarkdownExport.RerollLineRead | src/ui/utils/TableBuilderUtils.ts:187-189 | the `reroll:` line reads back as the reroll text |
| MarkdownExport.PrivateLineRead | src/ui/utils/TableBuilderUtils.ts:184-186 | the `private:` line marks the table private when read back |
| MarkdownExport.MarkdownRead | src/ui/utils/TableBuilderUtils.ts:170-209 | every line of `generateMarkdown` reads back: the heading as the name, the header line as the column names, each row line as its row's cells |
| MarkdownExport.GridRead | src/services/TableParser.ts:138-167 | the written table reads back through `parseTable` with the column names as headers and one row per state row, built from its cells; a table without rows gives null |
| MarkdownExport.GridCellRead | src/services/TableParser.ts:157-161 | read back, row `i` holds each column's cell text under the column's name when no later column shares it |
| MarkdownExport.LegacyRowRead | tableParser.js:99-104 | `parseRow` of a written row line gives its cells back |
| MarkdownExport.LegacyGridRead | tableParser.js:73-92 | the written table reads back through the command-line `parseTable` with the column names as headers and one row per state row, built from its cells |
| MarkdownExport.LegacyCellRead | tableParser.js:82-86 | read back, row `i` holds each column's cell text under the column's name when no later column shares it |
| MarkdownExport.DirectivesRead | src/ui/utils/TableBuilderUtils.ts:183-192 | the directive lines read back as the private flag and the reroll text |
| BuilderValidation.NameErrors | src/ui/validation/TableBuilderValidation.ts:74-78 | an error iff the name is blank after trimming, and then exactly the empty-name message |
| BuilderValidation.TargetName | src/ui/validation/TableBuilderValidation.ts:115-116 | a name without an `NdX` prefix refers to itself |
| BuilderValidation.AllResolve | src/ui/validation/TableBuilderValidation.ts:113-128 | true iff every name's target table resolves |
| BuilderValidation.ReferenceValid | src/ui/validation/TableBuilderValidation.ts:110-129 | a reference is valid iff every trimmed, non-empty name of its comma list resolves |
| BuilderValidation.RowRerollError | src/ui/validation/TableBuilderValidation.ts:95-102 | at most one error; none iff the row's reroll cell is empty, a dash, or a valid reference; the message quotes the cell |
| BuilderValidation.RowRerollErrors | src/ui/validation/TableBuilderValidation.ts:94-104 | at most one error per row, and none iff every row's reroll cell passes |
| BuilderValidation.TableRerollErrors | src/ui/validation/TableBuilderValidation.ts:85-90 | no error iff the table-level reroll is empty or a valid reference |
| BuilderValidation.RerollErrors | src/ui/validation/TableBuilderValidation.ts:83-105 | no error iff the table-level reroll passes and, when there is a reroll column, the cell of the first such column passes in every row |
| BuilderValidation.RowRange | src/ui/validation/TableBuilderValidation.ts:143-152 | a row gives an entry or an error or nothing; each entry's bounds are what `parseRange` reads from its text; an error iff the row has a range that does not parse |
| BuilderValidation.RangeEntries | src/ui/validation/TableBuilderValidation.ts:140-153 | at most one entry or error per row; every entry carries the bounds its text parses to; no error iff every range present parses |
| BuilderValidation.PairErrors | src/ui/validation/TableBuilderValidation.ts:198-206 | one message per later range that overlaps, none iff none overlaps, and each overlap's message is present |
| BuilderValidation.OverlapErrors | src/ui/validation/TableBuilderValidation.ts:193-208 | no error iff no pair `i < j` overlaps |
| BuilderValidation.OverlapReported | src/ui/validation/TableBuilderValidation.ts:197-206 | every overlapping pair `i < j` is reported with both range texts |
| BuilderValidation.OverlapTestsAgree | src/ui/validation/TableBuilderValidation.ts:262-266 | `hasOverlaps` holds exactly when `checkRangeOverlaps` reports something |
| BuilderValidation.SortByMin | src/ui/validation/TableBuilderValidation.ts:229 | the result is sorted by min and is a permutation of the ranges |
| BuilderValidation.SortByMinLast | src/ui/validation/TableBuilderValidation.ts:229-236 | after the stable sort the last range, whose max the end check reads, is the latest of the ranges with the largest min |
| BuilderValidation.GapErrors | src/ui/validation/TableBuilderValidation.ts:248-254 | no gap error iff every sorted range ends just before the next begins |
| BuilderValidation.CoverageErrors | src/ui/validation/TableBuilderValidation.ts:213-227 | nothing is checked unless the notation holds exactly one die |
| BuilderValidation.SortedEnds | src/ui/validation/TableBuilderValidation.ts:229-237 | the first sorted range has the least min of all ranges and the last the greatest, and both are among the ranges |
| BuilderValidation.CoverageChecks | src/ui/validation/TableBuilderValidation.ts:226-243 | with one die the start error appears iff the least min is not 1, and the end error iff the range with the greatest min does not end at the side count |
| BuilderValidation.CoverageClean | src/ui/validation/TableBuilderValidation.ts:226-256 | a clean coverage check on one die leaves the sorted ranges starting at 1, ending at the side count and meeting end to start |
| BuilderValidation.HeldOnce | src/ui/validation/TableBuilderValidation.ts:193-208 | when no pair overlaps, no value lies in two ranges |
| BuilderValidation.FacesCoveredOnce | src/ui/validation/TableBuilderValidation.ts:213-266 | with one die, no overlap and no coverage error, every face lies in exactly one range |
| BuilderValidation.DiceErrors | src/ui/validation/TableBuilderValidation.ts:134-162 | no error without a dice column |
| BuilderValidation.ValidateTable | src/ui/validation/TableBuilderValidation.ts:53-69 | valid iff there are no errors, iff the name, reroll and range checks each report nothing; a blank name is always the first error |
| BuilderValidation.ValidTableCoversDie | src/ui/validation/TableBuilderValidation.ts:213-256 | a valid table whose dice column is one die covers every face with exactly one of its parsed ranges |
| BuilderIO.HashHeading | src/ui/io/TableBuilderIO.ts:342 | a match needs at least one `#` and captures a non-empty text |
| BuilderIO.HeadingParse | src/ui/io/TableBuilderIO.ts:342 | `# t`, for a text that starts with a non-space and holds no line terminator, matches with capture `t` and is a section heading |
| BuilderIO.WrittenHeading | src/ui/io/TableBuilderIO.ts:342-356 | the heading line the builder writes names the table and stops a section scan |
| BuilderIO.FindHeading | src/ui/io/TableBuilderIO.ts:340-347 | none iff no line names the table; otherwise the first line that does |
| BuilderIO.SectionStop | src/ui/io/TableBuilderIO.ts:353-358 | the scan stops at the first section line after the heading, or at the end of the note |
| BuilderIO.SectionEnd | src/ui/io/TableBuilderIO.ts:351-365 | the section ends at the heading or at its last filled line before the stop, and only blank lines follow it up to the stop |
| BuilderIO.DropTrailingBlanks | src/ui/io/TableBuilderIO.ts:377-379 | a prefix of the lines, only blank lines removed, and its last line is filled |
| BuilderIO.DropLeadingBlanks | src/ui/io/TableBuilderIO.ts:380-382 | a suffix of the lines, only blank lines removed, and its first line is filled |
| BuilderIO.SavedLines | src/ui/io/TableBuilderIO.ts:373-384 | only the section changes: the lines before it, up to the blank lines just before the heading, and every line from the next section line on stay |
| BuilderIO.SaveContent | src/ui/io/TableBuilderIO.ts:335-395 | a note naming the table keeps the lines before the heading, then a blank line, the table text and a blank line, then the lines from the next section on; a note that does not name it gets the table text appended after a blank line |
| BuilderIO.SplicedSplit | src/ui/io/TableBuilderIO.ts:384 | a saved note splits back into the kept lines around the table's own lines |
| BuilderIO.ResaveLines | src/ui/io/TableBuilderIO.ts:340-384 | reading the saved lines back, the heading is found right after the kept lines, and saving there again gives the same lines |
| BuilderIO.SaveTwice | src/ui/io/TableBuilderIO.ts:330-395 | saving the same text twice is saving it once |
| BuilderIO.TableBodyPlain | src/ui/utils/TableBuilderUtils.ts:180-206 | after the heading, no generated line is a section line and the last is not blank |
| BuilderIO.LinesAfterFrontmatter | src/ui/utils/TableBuilderUtils.ts:170-209 | the generated note splits into the frontmatter block and the table lines, each a single line |
| BuilderIO.GeneratedText | src/ui/io/TableBuilderIO.ts:368-391 | the `/^#+\s+/` and `startsWith('#')` searches both stop at the generated heading, so the saved and the appended texts are the table lines |
| BuilderIO.GeneratedFits | src/ui/io/TableBuilderIO.ts:368-370 | the table text splits back into its lines, names the table in its first, and has no later section line and no blank last line |
| BuilderIO.SaveTableTwice | src/ui/io/TableBuilderIO.ts:323-396 | saving the builder's table twice into a note leaves the note as the first save left it |
| BuilderIO.AppendToFile | src/ui/io/TableBuilderIO.ts:469-474 | the new note is the old one, two line feeds, then the generated table from its `# ` heading on, without the frontmatter |
| BuilderLoad.LoadedColumn | src/ui/io/TableBuilderIO.ts:637-671 | the column keeps the name, has no notation, and is a reroll column iff the name is `reroll` in any case |
| BuilderLoad.EntryRow | src/ui/io/TableBuilderIO.ts:647-662 | a dice entry's row holds each key once |
| BuilderLoad.EntryRowGet | src/ui/io/TableBuilderIO.ts:648-660 | each cell of an entry's row is the entry's reroll under `reroll` when it has one, else the entry's own column value, else the range text under `range`; no other key is set |
| BuilderLoad.EntryRangeRead | src/ui/io/TableBuilderIO.ts:649 | the range cell reads back, through the parser's range reading, as the entry's bounds, unless an entry column is itself named `range` |
| BuilderLoad.LoadParsedTable | src/ui/io/TableBuilderIO.ts:619-686 | name, private flag and reroll are kept; a dice table gets its dice column then one column per column name of its entries and one row per entry; a simple table gets one column per header and its rows unchanged |
| BuilderLoad.EntryCell | src/ui/io/TableBuilderIO.ts:648-660 | the cell a non-dice column shows is the entry's reroll under `reroll` when it has one, its own value otherwise |
| BuilderLoad.LoadedDiceCells | src/ui/io/TableBuilderIO.ts:619-686 | what the builder shows for a loaded dice entry is the entry: the range cell reads back as its bounds and every other cell is the entry's value for that column |
| BuilderLoad.PipedLines | src/ui/io/TableBuilderIO.ts:880 | the kept lines are the lines that hold a pipe after trimming, all of them, in order and with their multiplicity |
| BuilderLoad.ImportColumn | src/ui/io/TableBuilderIO.ts:898-906 | a dice column (notation in lower case) iff the header is dice notation; a reroll column iff it is not and the header is `reroll` in any case |
| BuilderLoad.ImportColumns | src/ui/io/TableBuilderIO.ts:898-906 | one column per header, keeping the header as the name |
| BuilderLoad.CellRow | src/ui/io/TableBuilderIO.ts:916-921 | a pasted row holds each key once |
| BuilderLoad.CellRowGet | src/ui/io/TableBuilderIO.ts:916-921 | with distinct keys every column reads its own cell back, `''` past the end of a short line |
| BuilderLoad.ImportRows | src/ui/io/TableBuilderIO.ts:909-924 | at most one row per line; when every line has a cell, exactly one row per line, each the row of its cells |
| BuilderLoad.ImportRowsInOrder | src/ui/io/TableBuilderIO.ts:909-924 | the rows are, in line order, the rows of exactly the pasted lines that keep a cell |
| BuilderLoad.ImportFromClipboard | src/ui/io/TableBuilderIO.ts:875-933 | nothing iff fewer than two lines hold a pipe or the first has no header; otherwise an `Imported Table`, not private, of the header columns and the rows after the separator |
| BuilderLoad.BlockPiped | src/ui/io/TableBuilderIO.ts:880 | the pipe block the builder writes keeps all its lines through the pipe filter |
| BuilderLoad.ImportBlock | src/ui/io/TableBuilderIO.ts:875-933 | importing the builder's pipe block reads the header names and the rows of its row lines |
| BuilderLoad.ImportBlockRows | src/ui/io/TableBuilderIO.ts:909-924 | each written row line gives the row of its cells |
| BuilderLoad.ImportRoundTrip | src/ui/io/TableBuilderIO.ts:875-933 | importing the builder's pipe block gives back the column names and every cell of every row, column by column |
| BuilderView.HundredSpans | src/ui/TableBuilderView.ts:126-133 | one span per row, `count` of them |
| BuilderView.ViewDefaultRows | src/ui/TableBuilderView.ts:112-117 | no rows unless the notation is `^(\d*)d(\d+)$` |
| BuilderView.SmallDieRows | src/ui/TableBuilderView.ts:119-139 | for any die but a d100 the rows are 1, 2, … up to the fewer of the sides and the count, each read back by the table parser as that one value, whatever the number of dice |
| BuilderView.HundredTiles | src/ui/TableBuilderView.ts:126-133 | with 1 to 100 rows the d100 spans tile 1 to 100 in order, every span but the last `⌊100 / count⌋` wide and the last at least as wide |
| BuilderView.SpanAt | src/ui/TableBuilderView.ts:128-132 | span `i` starts after `i` widths, ends one width later, and the last runs to 100 |
| BuilderView.HundredRowsRead | src/ui/TableBuilderView.ts:126-133 | a d100 with 1 to 100 rows gets a row per span, the spans tile 1 to 100, and the parser reads each row's range as its span |
| BuilderView.SpanRowRead | src/ui/TableBuilderView.ts:132 | a span written `a-b` reads back as those bounds |
| BuilderView.Start | src/ui/TableBuilderView.ts:48-49 | the view opens with an empty history at index -1, which the state manager would not accept |
| BuilderView.ViewUndo | src/ui/TableBuilderView.ts:584-591 | on a well-formed history the view's undo is the state manager's; at index 0 or below nothing changes |
| BuilderView.ViewRedo | src/ui/TableBuilderView.ts:593-600 | on a well-formed history the view's redo is the state manager's; on an empty one nothing changes |
| BuilderView.ViewEdit | src/ui/TableBuilderView.ts:563-582 | after an edit the history is well formed and ends at the snapshot of the state before the change, while the current state is the changed one |
| BuilderView.FirstEditStays | src/ui/TableBuilderView.ts:563-591 | the first edit cannot be undone: undo does nothing and the edit stays |
| BuilderView.UndoSkipsEdit | src/ui/TableBuilderView.ts:563-600 | after two edits one undo goes back past the first to the state before both, and redo stops after the first: the second edit cannot be got back |
| BuilderView.CapturedEdit | src/ui/state/TableBuilderState.ts:119-127 | an edit captured after the change leaves the index at a snapshot of the current state |
| BuilderView.CapturedEditUndone | src/ui/TableBuilderView.ts:584-600 | with captured edits undo gives back the state before an edit, also when the history is full, and redo gives back the edit |
| BuilderView.CapturedFirstEdit | src/ui/state/TableBuilderState.ts:43-89 | with captured edits the first edit is undone back to the opening state |
| BuilderView.AddColumn | src/ui/TableBuilderView.ts:654-657 | one new column at the end, `reroll` or `Column n` for `n` columns before, everything else kept |
| BuilderView.DeleteKey | src/ui/TableBuilderView.ts:676-678 | every row loses exactly the key and keeps the rest |
| BuilderView.DeleteColumn | src/ui/TableBuilderView.ts:664-678 | refused iff one column is left; otherwise that column goes and its cell key goes from every row |
| BuilderView.AddThenDeleteColumn | src/ui/TableBuilderView.ts:654-678 | deleting the column just added gives the table back, when no row holds a cell under its name |
| BuilderView.AddRow | src/ui/TableBuilderView.ts:687-689 | one empty row at the end, nothing else changed |
| BuilderView.DuplicateRow | src/ui/TableBuilderView.ts:695-702 | nothing on an empty grid; a selection past the last row (undo and redo leave it unclamped) fails with `JSON.parse`'s error; otherwise a copy of the selected row right after it, and the copy selected; a selection on a row stays on one |
| BuilderView.DeleteRow | src/ui/TableBuilderView.ts:708-715 | nothing on an empty grid; a selection past the last row removes nothing and steps back one; otherwise the selected row goes and the selection steps back only when it fell off the end; a selection on a row stays on one |
| BuilderView.StaleSelection | src/ui/TableBuilderView.ts:584-600 | with one row and the selection left at 2 by undo, duplicating fails and deleting keeps the row and moves the selection to 1 |
| BuilderView.DuplicateThenDelete | src/ui/TableBuilderView.ts:695-715 | deleting a duplicated row gives the rows back |
| BuilderView.AddThenDeleteRow | src/ui/TableBuilderView.ts:687-715 | deleting the row just added, with it selected, gives the rows back |
| BuilderView.ViewFind | src/ui/TableBuilderView.ts:1425-1430 | none iff no line trims to exactly `# name`; otherwise the first that does |
| BuilderView.ViewStop | src/ui/TableBuilderView.ts:1434-1442 | the section runs to the next line starting `# ` or to the end |
| BuilderView.ViewSavedLines | src/ui/TableBuilderView.ts:1450-1461 | the lines before the heading without trailing blanks, the table between blank lines, then every line from the next `# ` line on |
| BuilderView.ViewSaveContent | src/ui/TableBuilderView.ts:1420-1475 | a note with the exact heading keeps the lines before it, then a blank line, the table text and a blank line, then the lines from the next `# ` line on; a note without it gets the table text appended after a blank line |
| BuilderView.ViewSplicedResave | src/ui/TableBuilderView.ts:1425-1461 | saving the table again into the lines a save left gives the same lines |
| BuilderView.ViewSaveTwice | src/ui/TableBuilderView.ts:1408-1475 | saving twice is saving once when the table text is one this save finds again |
| BuilderView.TableBodyNoHash | src/ui/TableBuilderView.ts:1434-1439 | no generated line after the heading starts `# `, so the section of a saved table is exactly that table |
| BuilderView.ViewGeneratedFits | src/ui/TableBuilderView.ts:1417-1447 | the builder's table text is found again by this save when the name has no whitespace around it |
| BuilderView.ViewSaveTableTwice | src/ui/TableBuilderView.ts:1408-1475 | saving the builder's table twice leaves the note as the first save left it |
| BuilderView.ViewRowError | src/ui/TableBuilderView.ts:1552-1559 | at most one error; none iff the cell is empty, `-`, the three characters `â€”`, or a valid reference |
| BuilderView.ViewRangeError | src/ui/TableBuilderView.ts:1566-1573 | at most one error; none iff the row has no range or the parser reads it |
| BuilderView.ViewValidate | src/ui/TableBuilderView.ts:1533-1594 | no error iff the name is not blank, the table-level reroll passes, every row's reroll cell passes and, with a dice column, every range parses |
| BuilderView.ViewRerollErrors | src/ui/TableBuilderView.ts:1550-1561 | at most one error per row, none iff each row's cell of the first reroll column passes |
| BuilderView.ViewRangeErrors | src/ui/TableBuilderView.ts:1564-1575 | at most one error per row, none iff there is no dice column or every range parses |
| BuilderView.OpenRangeAccepted | src/ui/TableBuilderView.ts:1569-1572 | `5+` passes the view's range check and fails the validator's |
| BuilderView.EmDashNames | src/ui/TableBuilderView.ts:1596-1597 | the reroll cell `—` names one table, itself |
| BuilderView.EmDashReported | src/ui/TableBuilderView.ts:1554 | a reroll cell holding `—` is reported by the view when no table `—` resolves, while the validator skips it |
| GridNav.Aim | src/ui/components/RowGridEditor.ts:214-246 | only Tab and Enter aim anywhere; Enter aims one row down, Shift+Enter one row up, in the same column |
| GridNav.Keydown | src/ui/components/RowGridEditor.ts:248-250 | a move applies iff its target lies in the grid, and then selects the target's row; the table never changes |
| GridNav.TabReadingOrder | src/ui/components/RowGridEditor.ts:218-234 | from a cell of the grid Tab aims at the next cell in reading order and Shift+Tab at the previous one, both in a column of the grid |
| GridNav.ReadingUnique | src/ui/components/RowGridEditor.ts:218-234 | two cells with columns in range and the same reading position are the same cell |
| GridNav.TabUndone | src/ui/components/RowGridEditor.ts:218-250 | a Tab that moves is undone by a Shift+Tab from where it landed, and the other way round |
| GridNav.EnterUndone | src/ui/components/RowGridEditor.ts:236-250 | an Enter that moves is undone by a Shift+Enter, and the other way round |
| GridNav.TabWalk | src/ui/components/RowGridEditor.ts:218-250 | Tab from the first cell walks every cell in reading order, selecting each cell's row |
| GridNav.UpdateState | src/ui/components/RowGridEditor.ts:71-76 | the new table, and the given selection or else the one before |
| GridNav.CellValue | src/ui/components/RowGridEditor.ts:152-153 | each cell shows what the Markdown export writes for it |

## Left out

- File, vault and clipboard access, `Notice` messages, modals and DOM focus. The models take the text a file or the clipboard holds and give back the new text. This covers `loadTables` of src/services/TableRollerCore.ts, the vault calls of src/ui/io/TableBuilderIO.ts and src/ui/TableBuilderView.ts, and `loadTables`/`findMarkdownFiles` of tableHelper.js.
- `importFromClipboard` of src/ui/TableBuilderView.ts (968-1034): the same header and row reading as in src/ui/io/TableBuilderIO.ts, which `BuilderLoad` models, wrapped in clipboard access and UI refresh.
- `Date.now` timestamps, `randomUUID` ids and the events the builder dispatches. A timestamp is a parameter; ids and events do not appear.
- The distribution of `Math.random`. Draws come from an oracle, and no claim is made about uniformity.
- `resolveDiceInBrackets` of diceRoller.js, because it evaluates arbitrary arithmetic with `eval`.
- `formatResult`, `formatSingleResult`, `generateJSON` and other presentation and JSON output, because they only serialise results.
- src/services/DiceRoller.ts is not part of this model. `Roller` takes the dice roller as a parameter.
- ./sessionTracker.js, the tracker tableHelper.js imports, is not part of this model. `CliHelper` uses the tracker of src/services/tables/SessionTracker.js in its place.
- The constants file that names the frontmatter keys of src/services/tables/table-parser.ts is not part of this model. `BodyParser` takes the keys as parameters.
- `getTableFile` of the roller, which the validator calls, enters as a `resolves` predicate on table names.
- The cycle guard the source lacks: reroll recursion is bounded by `fuel`. A run that would recurse deeper than the fuel ends in the stack-overflow error, where the source would recurse until the engine's stack is exhausted.
- JavaScript's ordering of integer-like object keys before other keys, because it is not modelled. Records keep plain insertion order.
- `toLowerCase` beyond ASCII, because case is folded for A-Z only. Case-insensitive regular expressions are modelled the same way.
- Quoting of line breaks in CSV cells, because `escapeCsvCell` does not quote them. The CSV read-back lemmas require cells without line feeds.
- BuilderLoad.ImportRoundTrip: holds when the detected columns keep their cells under different keys. Two columns with the same name, or a regular column named `range` beside a dice column, write into one key.
- BuilderLoad.EntryCell, BuilderLoad.EntryRangeRead, BuilderLoad.LoadedDiceCells: exclude an entry column named `range`, whose value overwrites the rendered range.
- BuilderView.HundredTiles, BuilderView.HundredRowsRead, BuilderView.SpanAt: only for 1 to 100 rows. With more than 100 rows the width `⌊100 / count⌋` is 0 and the spans do not tile.
- BuilderView.ViewGeneratedFits, BuilderView.ViewSaveTableTwice: only for table names without surrounding whitespace. The view looks for the exact line `# name`, so a name with surrounding whitespace is never found again.
- BuilderView.DeleteColumn, BuilderView.DeleteKey, BuilderUtils.RemoveColumn, BuilderUtils.DropKey: require rows whose keys are distinct, as every JavaScript object's are.
- BuilderView.DuplicateRow, BuilderView.DeleteRow: the grid has no undo history, so the `captureState()` that runs before the stale-selection error is not modelled; the error text is the message V8's `JSON.parse(undefined)` gives.
- BuilderUtils.ReorderColumns: requires the moved index to name a column. Otherwise `splice` removes nothing and `undefined` is inserted.
- BuilderUtils.UpdateCell: requires the row index to be at most the number of rows. A larger index leaves holes in the JavaScript array.
- Session.ClearSession, Session.ClearedHasNoDuplicates, CoreRoller.ResetSession: require one entry per session id, as a `Map` has.
- BuilderState.Undo, BuilderState.Redo, BuilderState.SetState, BuilderState.UpdateStateWithoutHistory: require the manager invariant that the constructor establishes and every operation keeps.
- BuilderIO.SaveTwice, BuilderView.ViewSaveTwice: hold for table texts whose heading the save finds again. `GeneratedFits` and `ViewGeneratedFits` show that the builder's own text is one.
- MarkdownExport.MarkdownRead and the other read-back lemmas: hold for states whose name, reroll and cells survive `trim` and hold no pipe or line break. Other states do not read back.
- GridNav.TabWalk: holds for grids with at least one column. With none, every Tab aims outside the grid.
- JavaScript numbers are doubles. `Ranges`, `Dice` and `RowGen` use unbounded integers, so they do not model `parseInt` losing precision above 2^53, nor `String(n)` switching to exponent notation from 1e21 on.
- Double rounding in `Math.floor(Math.random() * n)`: the model takes the exact quotient of the oracle's draw, where the engine rounds the product first; the two can differ by one for some draws.
- CliHelper.RollSingle: the history entry is a copy of the result taken when it is recorded. In the source it is the same object, which `rollSingle` and `roll` later stamp with `_tableName`, `_rerolls` and `_chain`, so the history shows those fields too.
- Session.KeyOf: an object's key and a string's key are kept apart. The source builds both as strings, so the string `'{"a":"x"}'` counts as a duplicate of the object `{a: "x"}`; the model does not, because it does not model `JSON.stringify` as text.
- CoreRoller.Loop, CoreRoller.RollSingle: the tracker's `hasBeenRolled` and `recordRoll` are parameters. The tracker module src/services/core/TableRollerCore.js imports is not part of this model, and the session tracker of src/services/tables/SessionTracker.js does not define them, so no contract states what they do.
- CliHelper.RollChain: for chains of three or more segments the `_chain` value is stated as a result rolled on the previous segment's table, not as that very result; `CliHelper.ChainOfTwo` states the exact value for two segments.

## Findings

| source | as written | input that shows it | evidently intended | confidence | as-written member | corrected member |
|---|---|---|---|---|---|---|
| src/ui/utils/TableBuilderUtils.ts:218-219 | `generateCSV` joins the column names with `,` unescaped, while every data cell is escaped | a column named `a,b` reads back as the two columns `a` and `b` | the header names escaped like the cells, so every name reads back | not executed | Csv.UnescapedHeaderMisread | Csv.CsvEscapedRead |
| src/ui/TableBuilderView.ts:1554 | the "none" mark is compared with `'â€”'`, the UTF-8 bytes of the em dash read as Windows-1252 | a reroll cell `—` with no table named `—` is reported as an invalid reference | the em dash `—` skipped as the "none" mark, as src/ui/validation/TableBuilderValidation.ts:97 does | not executed | BuilderView.EmDashReported | BuilderValidation.RowRerollError |
| src/ui/TableBuilderView.ts:563-591 | the toolbar, field and column edits (`addRow`, `addColumn`, `deleteRow` and the like) call `captureState()` before they change the state, and the history starts empty; only a grid cell's edit captures after the change, on blur | after two edits, undo returns to the state before both, and redo then stops after the first: the second edit is lost | the snapshot taken after the change, with the opening state as the first entry, as src/ui/state/TableBuilderState.ts:43-48,119-127 does | not executed | BuilderView.UndoSkipsEdit | BuilderView.CapturedEditUndone |
