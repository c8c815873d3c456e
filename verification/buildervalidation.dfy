/** `TableValidator` of src/ui/validation/TableBuilderValidation.ts: the
    checks the table builder runs before saving. The table lookup
    `getTableFile` is a parameter `resolves`, true when the lookup returns
    a file without throwing. */
module BuilderValidation {
  import opened Outcomes
  import opened Strings
  import opened Records
  import opened Seqs
  import opened Columns
  import opened Ranges
  import Dice
  import Roller
  import CliHelper
  import TableParser

  /** `ValidationResult`. */
  datatype ValidationResult = ValidationResult(isValid: bool, errors: seq<string>)

  // ---------------------------------------------------------------------------
  // the name

  const EmptyNameError: string := "Table name cannot be empty"

  /** `validateTableName`. */
  function NameErrors(name: string): (errors: seq<string>)
    ensures errors != [] <==> IsBlank(name)
    ensures errors != [] ==> errors == [EmptyNameError]
  {
    if IsBlank(name) then [EmptyNameError] else []
  }

  // ---------------------------------------------------------------------------
  // reroll references

  /** The table a listed name refers to: for `NdX Table`, the trimmed table part. */
  function TargetName(name: string): (t: string)
    ensures CliHelper.NdxMatch(name).None? ==> t == name
  {
    match CliHelper.NdxMatch(name)
    case Some(m) => m.table
    case None => name
  }

  /** Every name resolves, checked in order and stopping at the first failure. */
  function AllResolve(names: seq<string>, resolves: string -> bool): (ok: bool)
    ensures ok <==> forall i | 0 <= i < |names| :: resolves(TargetName(names[i]))
    decreases |names|
  {
    if |names| == 0 then true
    else resolves(TargetName(names[0])) && AllResolve(names[1..], resolves)
  }

  /** `validateRerollReference`: the comma list, trimmed and without empty
      names, names only tables that resolve. */
  function ReferenceValid(reference: string, resolves: string -> bool): (ok: bool)
    ensures ok <==> forall i | 0 <= i < |Roller.RerollNames(reference)| ::
      resolves(TargetName(Roller.RerollNames(reference)[i]))
  {
    AllResolve(Roller.RerollNames(reference), resolves)
  }

  /** A reroll cell that is checked: not empty and not one of the "none" marks `—` and `-`. */
  predicate Checked(v: string) {
    v != "" && v != [EmDash] && v != "-"
  }

  /** A row whose reroll cell raises no error. */
  predicate RowRerollOk(row: RowData, column: string, resolves: string -> bool) {
    !HasKey(row, column) || !Checked(Get(row, column).value) || ReferenceValid(Get(row, column).value, resolves)
  }

  /** The error of one row's reroll cell, if any. */
  function RowRerollError(row: RowData, column: string, resolves: string -> bool): (errors: seq<string>)
    ensures |errors| <= 1 && (errors == [] <==> RowRerollOk(row, column, resolves))
    ensures errors != [] ==> errors == ["Invalid reroll reference: " + Get(row, column).value]
  {
    match Get(row, column)
    case Some(v) => if Checked(v) && !ReferenceValid(v, resolves) then ["Invalid reroll reference: " + v] else []
    case None => []
  }

  /** The errors of every element, in order. */
  function Collect<T>(xs: seq<T>, f: T -> seq<string>): (errors: seq<string>)
    ensures errors == [] <==> forall i | 0 <= i < |xs| :: f(xs[i]) == []
    ensures (forall i | 0 <= i < |xs| :: |f(xs[i])| <= 1) ==> |errors| <= |xs|
    decreases |xs|
  {
    if |xs| == 0 then []
    else
      assert forall i | 1 <= i < |xs| :: xs[1..][i - 1] == xs[i];
      f(xs[0]) + Collect(xs[1..], f)
  }

  /** The row loop of `validateRerollReferences`: at most one error per row, in row order. */
  function RowRerollErrors(rows: seq<RowData>, column: string, resolves: string -> bool): (errors: seq<string>)
    ensures |errors| <= |rows|
    ensures errors == [] <==> forall i | 0 <= i < |rows| :: RowRerollOk(rows[i], column, resolves)
  {
    Collect(rows, (row: RowData) => RowRerollError(row, column, resolves))
  }

  predicate IsRerollColumn(c: ColumnConfig) {
    c.kind == RerollType
  }

  predicate IsDiceColumn(c: ColumnConfig) {
    c.kind == DiceType
  }

  /** The table-level check of `validateRerollReferences`. */
  function TableRerollErrors(reroll: Option<string>, resolves: string -> bool): (errors: seq<string>)
    ensures errors == [] <==> !TableParser.Truthy(reroll) || ReferenceValid(reroll.value, resolves)
  {
    if TableParser.Truthy(reroll) && !ReferenceValid(reroll.value, resolves) then
      ["Invalid table-level reroll reference: " + reroll.value]
    else []
  }

  /** `validateRerollReferences`: the table-level reference, then the cells
      of the first reroll column. */
  function RerollErrors(s: TableState, resolves: string -> bool): (errors: seq<string>)
    ensures errors == [] <==>
      (!TableParser.Truthy(s.tableReroll) || ReferenceValid(s.tableReroll.value, resolves))
      && (FirstWhere(s.columns, IsRerollColumn).Some? ==>
            forall i | 0 <= i < |s.rows| ::
              RowRerollOk(s.rows[i], s.columns[FirstWhere(s.columns, IsRerollColumn).value].name, resolves))
  {
    TableRerollErrors(s.tableReroll, resolves)
      + match FirstWhere(s.columns, IsRerollColumn)
        case None => []
        case Some(k) => RowRerollErrors(s.rows, s.columns[k].name, resolves)
  }

  // ---------------------------------------------------------------------------
  // ranges

  /** A parsed range with its text. */
  datatype Entry = Entry(min: nat, max: nat, raw: string)

  predicate Contains(e: Entry, v: int) {
    e.min <= v <= e.max
  }

  /** The range text of a row that is checked at all: present and not empty. */
  predicate HasRangeText(row: RowData) {
    HasKey(row, RangeKey) && Get(row, RangeKey).value != ""
  }

  /** A range text the validator reads: anything that does not come out as 0-0. */
  predicate Parses(text: string) {
    ValidatorRange(text) != Bounds(0, 0)
  }

  /** One step of the parse loop of `validateDiceRanges`: the row's entry
      if its range parses, its error if it does not, nothing if it has no range. */
  function RowRange(row: RowData): (r: (seq<Entry>, seq<string>))
    ensures |r.0| + |r.1| <= 1
    ensures forall k | 0 <= k < |r.0| ::
      Parses(r.0[k].raw) && ValidatorRange(r.0[k].raw) == Bounds(r.0[k].min, r.0[k].max)
    ensures r.1 == [] <==> (HasRangeText(row) ==> Parses(Get(row, RangeKey).value))
  {
    if !HasRangeText(row) then ([], [])
    else
      var text := Get(row, RangeKey).value;
      var b := ValidatorRange(text);
      if b == Bounds(0, 0) then ([], ["Invalid range format: " + text])
      else ([Entry(b.min, b.max, text)], [])
  }

  /** The parse loop of `validateDiceRanges`: the entries of the rows whose
      range parses, and an error for each row whose range does not. */
  function RangeEntries(rows: seq<RowData>): (r: (seq<Entry>, seq<string>))
    ensures |r.0| + |r.1| <= |rows|
    ensures forall k | 0 <= k < |r.0| ::
      Parses(r.0[k].raw) && ValidatorRange(r.0[k].raw) == Bounds(r.0[k].min, r.0[k].max)
    ensures r.1 == [] <==> forall i | 0 <= i < |rows| :: HasRangeText(rows[i]) ==> Parses(Get(rows[i], RangeKey).value)
    decreases |rows|
  {
    if |rows| == 0 then ([], [])
    else
      assert forall i | 1 <= i < |rows| :: rows[1..][i - 1] == rows[i];
      var head := RowRange(rows[0]);
      var tail := RangeEntries(rows[1..]);
      (head.0 + tail.0, head.1 + tail.1)
  }

  /** `r1.min <= r2.max && r2.min <= r1.max`. */
  predicate Overlap(a: Entry, b: Entry) {
    a.min <= b.max && b.min <= a.max
  }

  function OverlapMessage(a: Entry, b: Entry): string {
    "Duplicate or overlapping ranges: " + a.raw + " and " + b.raw
  }

  /** The inner loop of `checkRangeOverlaps` for one range against those after it. */
  function PairErrors(a: Entry, rest: seq<Entry>): (errors: seq<string>)
    ensures |errors| <= |rest|
    ensures errors == [] <==> forall j | 0 <= j < |rest| :: !Overlap(a, rest[j])
    ensures forall j | 0 <= j < |rest| && Overlap(a, rest[j]) :: OverlapMessage(a, rest[j]) in errors
    decreases |rest|
  {
    if |rest| == 0 then []
    else
      assert forall j | 1 <= j < |rest| :: rest[1..][j - 1] == rest[j];
      (if Overlap(a, rest[0]) then [OverlapMessage(a, rest[0])] else []) + PairErrors(a, rest[1..])
  }

  /** `checkRangeOverlaps`: a message for each pair `i < j` that overlaps. */
  function OverlapErrors(rs: seq<Entry>): (errors: seq<string>)
    ensures errors == [] <==> forall i, j | 0 <= i < j < |rs| :: !Overlap(rs[i], rs[j])
    decreases |rs|
  {
    if |rs| == 0 then []
    else
      var rest := OverlapErrors(rs[1..]);
      var first := PairErrors(rs[0], rs[1..]);
      assert forall i, j | 1 <= i < j < |rs| :: rs[1..][i - 1] == rs[i] && rs[1..][j - 1] == rs[j];
      assert forall j | 1 <= j < |rs| :: rs[1..][j - 1] == rs[j];
      first + rest
  }

  /** Every overlapping pair `i < j` is reported with its two range texts. */
  lemma {:induction false} OverlapReported(rs: seq<Entry>, i: nat, j: nat)
    requires i < j < |rs| && Overlap(rs[i], rs[j])
    ensures OverlapMessage(rs[i], rs[j]) in OverlapErrors(rs)
    decreases i
  {
    if i == 0 {
      assert rs[1..][j - 1] == rs[j];
    } else {
      assert rs[1..][i - 1] == rs[i] && rs[1..][j - 1] == rs[j];
      OverlapReported(rs[1..], i - 1, j - 1);
    }
  }

  /** `hasOverlaps`: some two different ranges overlap. */
  predicate HasOverlaps(rs: seq<Entry>) {
    exists i, j | 0 <= i < |rs| && 0 <= j < |rs| :: i != j && Overlap(rs[i], rs[j])
  }

  /** The two overlap tests agree: `hasOverlaps` holds exactly when `checkRangeOverlaps` reports something. */
  lemma {:induction false} OverlapTestsAgree(rs: seq<Entry>)
    ensures HasOverlaps(rs) <==> OverlapErrors(rs) != []
  {
    if HasOverlaps(rs) {
      var i, j :| 0 <= i < |rs| && 0 <= j < |rs| && i != j && Overlap(rs[i], rs[j]);
      if j < i {
        assert Overlap(rs[j], rs[i]);
      }
    }
  }

  // ---------------------------------------------------------------------------
  // coverage

  predicate SortedByMin(s: seq<Entry>) {
    forall i, j | 0 <= i < j < |s| :: s[i].min <= s[j].min
  }

  /** Places `x` after every entry whose min is at most its own. */
  function InsertByMin(s: seq<Entry>, x: Entry): (r: seq<Entry>)
    requires SortedByMin(s)
    ensures |r| == |s| + 1 && SortedByMin(r) && multiset(r) == multiset(s) + multiset{x}
    ensures r[0] == x || (|s| > 0 && r[0] == s[0])
    decreases |s|
  {
    if |s| == 0 || x.min < s[0].min then [x] + s
    else
      var r := InsertByMin(s[1..], x);
      assert [s[0]] + s[1..] == s;
      assert forall j | 0 <= j < |r| :: s[0].min <= r[0].min <= r[j].min;
      [s[0]] + r
  }

  /** `[...ranges].sort((a, b) => a.min - b.min)`: a stable sort by min.
      Stability shows where ranges share a min; `SortByMinLast` states the
      part the error texts read, which range comes last. */
  function SortByMin(rs: seq<Entry>): (sorted: seq<Entry>)
    ensures |sorted| == |rs| && SortedByMin(sorted) && multiset(sorted) == multiset(rs)
    decreases |rs|
  {
    if |rs| == 0 then []
    else
      assert rs[..|rs| - 1] + [rs[|rs| - 1]] == rs;
      InsertByMin(SortByMin(rs[..|rs| - 1]), rs[|rs| - 1])
  }

  /** Inserting keeps the old last entry last only when its min is larger. */
  lemma {:induction false} InsertByMinLast(s: seq<Entry>, x: Entry)
    requires SortedByMin(s)
    ensures InsertByMin(s, x)[|s|] == if |s| > 0 && x.min < s[|s| - 1].min then s[|s| - 1] else x
    decreases |s|
  {
    if |s| > 0 && x.min >= s[0].min {
      InsertByMinLast(s[1..], x);
      if |s| > 1 {
        assert s[1..][|s| - 2] == s[|s| - 1];
      }
    }
  }

  /** `rs[k]` has the largest min, and every range after it a smaller one. */
  predicate LatestLargest(rs: seq<Entry>, k: int) {
    0 <= k < |rs|
    && (forall j | 0 <= j < |rs| :: rs[j].min <= rs[k].min)
    && (forall j | k < j < |rs| :: rs[j].min < rs[k].min)
  }

  /** One insertion step of `SortByMin` keeps the last entry the latest of
      those with the largest min. */
  lemma {:induction false} LatestAfterInsert(init: seq<Entry>, x: Entry, sorted: seq<Entry>, k: nat)
    requires |sorted| == |init| && SortedByMin(sorted)
    requires LatestLargest(init, k) && sorted[|init| - 1] == init[k]
    ensures exists k' :: LatestLargest(init + [x], k') && InsertByMin(sorted, x)[|init|] == (init + [x])[k']
  {
    var rs := init + [x];
    var n := |init|;
    InsertByMinLast(sorted, x);
    assert forall j | 0 <= j < n :: rs[j] == init[j];
    if x.min < init[k].min {
      assert LatestLargest(rs, k);
    } else {
      forall j | 0 <= j < n ensures rs[j].min <= rs[n].min {
        assert rs[j].min == init[j].min <= init[k].min;
      }
      assert LatestLargest(rs, n);
    }
  }

  /** The last range after sorting is the latest of the ranges with the
      largest min, as a stable sort leaves it. */
  lemma {:induction false} SortByMinLast(rs: seq<Entry>)
    requires |rs| > 0
    ensures exists k :: LatestLargest(rs, k) && SortByMin(rs)[|rs| - 1] == rs[k]
    decreases |rs|
  {
    var n := |rs| - 1;
    var init := rs[..n];
    assert init + [rs[n]] == rs;
    if n == 0 {
      InsertByMinLast([], rs[0]);
      assert LatestLargest(rs, 0);
    } else {
      SortByMinLast(init);
      var k :| LatestLargest(init, k) && SortByMin(init)[n - 1] == init[k];
      LatestAfterInsert(init, rs[n], SortByMin(init), k);
    }
  }

  /** Neighbours in the sorted order meet: each ends just before the next starts. */
  predicate Contiguous(s: seq<Entry>) {
    forall i | 0 <= i < |s| - 1 :: s[i].max + 1 == s[i + 1].min
  }

  function GapMessage(a: Entry, b: Entry): string {
    "Gap in dice ranges between " + a.raw + " and " + b.raw
  }

  /** The gap loop of `checkRangeCoverage` over the sorted ranges. */
  function GapErrors(sorted: seq<Entry>): (errors: seq<string>)
    ensures |errors| < |sorted| || errors == []
    ensures errors == [] <==> Contiguous(sorted)
    decreases |sorted|
  {
    if |sorted| < 2 then []
    else
      assert forall i | 1 <= i < |sorted| :: sorted[1..][i - 1] == sorted[i];
      (if sorted[0].max + 1 != sorted[1].min then [GapMessage(sorted[0], sorted[1])] else [])
        + GapErrors(sorted[1..])
  }

  function StartMessage(found: nat): string {
    "Dice ranges should start at 1 (found: " + NatToString(found) + ")"
  }

  function EndMessage(sides: nat, notation: string, found: nat): string {
    "Dice ranges should end at " + NatToString(sides) + " for " + notation + " (found: " + NatToString(found) + ")"
  }

  /** `checkRangeCoverage`: only for one die. The sorted ranges must start
      at 1 and the last must end at the side count; gaps are reported only
      when no two ranges overlap. */
  function CoverageErrors(notation: string, ranges: seq<Entry>): (errors: seq<string>)
    requires |ranges| > 0
    ensures Dice.Search(notation).None? || Dice.Search(notation).value.count != 1 ==> errors == []
  {
    match Dice.Search(notation)
    case None => []
    case Some(n) =>
      if n.count != 1 then []
      else
        var sorted := SortByMin(ranges);
        var first := sorted[0];
        var last := sorted[|sorted| - 1];
        (if first.min != 1 then [StartMessage(first.min)] else [])
          + (if last.max != n.sides then [EndMessage(n.sides, notation, last.max)] else [])
          + (if HasOverlaps(ranges) then [] else GapErrors(sorted))
  }

  /** In any sorted rearrangement, every min lies between the first and the last. */
  lemma {:induction false} BetweenEnds(sorted: seq<Entry>, ranges: seq<Entry>, k: nat)
    requires SortedByMin(sorted) && multiset(sorted) == multiset(ranges) && k < |ranges|
    ensures 0 < |sorted| && sorted[0].min <= ranges[k].min <= sorted[|sorted| - 1].min
  {
    assert ranges[k] in multiset(ranges);
    assert ranges[k] in multiset(sorted);
    var j :| 0 <= j < |sorted| && sorted[j] == ranges[k];
    if 0 < j {
      assert sorted[0].min <= sorted[j].min;
    }
    if j < |sorted| - 1 {
      assert sorted[j].min <= sorted[|sorted| - 1].min;
    }
  }

  /** The ends of a non-empty rearrangement are elements of the original. */
  lemma {:induction false} EndsIn(sorted: seq<Entry>, ranges: seq<Entry>)
    requires multiset(sorted) == multiset(ranges) && 0 < |sorted|
    ensures sorted[0] in ranges && sorted[|sorted| - 1] in ranges
  {
    assert sorted[0] in multiset(sorted);
    assert sorted[|sorted| - 1] in multiset(sorted);
  }

  /** The first sorted range has the least min of all, and the last the greatest. */
  lemma {:induction false} SortedEnds(ranges: seq<Entry>)
    requires |ranges| > 0
    ensures var sorted := SortByMin(ranges);
      sorted[0] in ranges && sorted[|sorted| - 1] in ranges
      && forall k | 0 <= k < |ranges| :: sorted[0].min <= ranges[k].min <= sorted[|sorted| - 1].min
  {
    var sorted := SortByMin(ranges);
    EndsIn(sorted, ranges);
    forall k | 0 <= k < |ranges| ensures sorted[0].min <= ranges[k].min <= sorted[|sorted| - 1].min {
      BetweenEnds(sorted, ranges, k);
    }
  }

  /** What the coverage check tests, stated without the sort: with one die,
      the start error appears iff the least min is not 1, and the end error
      iff the range with the greatest min does not end at the side count. */
  lemma {:induction false} CoverageChecks(notation: string, ranges: seq<Entry>)
    requires |ranges| > 0 && Dice.Search(notation).Some? && Dice.Search(notation).value.count == 1
    ensures var sorted := SortByMin(ranges);
      var first := sorted[0];
      var last := sorted[|sorted| - 1];
      var sides := Dice.Search(notation).value.sides;
      first in ranges && last in ranges
      && (forall k | 0 <= k < |ranges| :: first.min <= ranges[k].min <= last.min)
      && (CoverageErrors(notation, ranges) == [] <==>
            first.min == 1 && last.max == sides && (HasOverlaps(ranges) || Contiguous(sorted)))
  {
    SortedEnds(ranges);
  }

  /** Each value lies in some range of a contiguous run from position `k`
      on, when it is at least that range's min and at most the run's last max. */
  lemma {:induction false} ChainCovers(s: seq<Entry>, k: nat, v: int)
    requires k < |s| && Contiguous(s) && s[k].min <= v <= s[|s| - 1].max
    ensures exists j | k <= j < |s| :: Contains(s[j], v)
    decreases |s| - k
  {
    if v > s[k].max {
      if k == |s| - 1 {
        assert false;
      } else {
        ChainCovers(s, k + 1, v);
      }
    } else {
      assert Contains(s[k], v);
    }
  }

  /** A clean coverage check on one die leaves the sorted ranges starting
      at 1, ending at the side count, and meeting end to start. */
  lemma {:induction false} CoverageClean(notation: string, ranges: seq<Entry>)
    requires |ranges| > 0 && Dice.Search(notation).Some? && Dice.Search(notation).value.count == 1
    requires CoverageErrors(notation, ranges) == [] && !HasOverlaps(ranges)
    ensures var sorted := SortByMin(ranges);
      sorted[0].min == 1 && sorted[|sorted| - 1].max == Dice.Search(notation).value.sides && Contiguous(sorted)
  {
  }

  /** No two ranges without overlaps hold the same value. */
  lemma {:induction false} HeldOnce(ranges: seq<Entry>, v: int)
    requires OverlapErrors(ranges) == []
    ensures forall i, j | 0 <= i < j < |ranges| :: !(Contains(ranges[i], v) && Contains(ranges[j], v))
  {
    forall i, j | 0 <= i < j < |ranges| ensures !(Contains(ranges[i], v) && Contains(ranges[j], v)) {
      assert !Overlap(ranges[i], ranges[j]);
    }
  }

  /** The point of the coverage check: when a one-die table raises no
      overlap and no coverage error, every face of the die lies in exactly
      one of the ranges. */
  lemma {:induction false} FacesCoveredOnce(notation: string, ranges: seq<Entry>, v: int)
    requires |ranges| > 0 && Dice.Search(notation).Some? && Dice.Search(notation).value.count == 1
    requires OverlapErrors(ranges) == [] && CoverageErrors(notation, ranges) == []
    requires 1 <= v <= Dice.Search(notation).value.sides
    ensures exists i | 0 <= i < |ranges| :: Contains(ranges[i], v)
    ensures forall i, j | 0 <= i < j < |ranges| :: !(Contains(ranges[i], v) && Contains(ranges[j], v))
  {
    FaceCovered(notation, ranges, v);
    OverlapTestsAgree(ranges);
    HeldOnce(ranges, v);
  }

  /** Under the same conditions, some range holds the face. */
  lemma {:induction false} FaceCovered(notation: string, ranges: seq<Entry>, v: int)
    requires |ranges| > 0 && Dice.Search(notation).Some? && Dice.Search(notation).value.count == 1
    requires OverlapErrors(ranges) == [] && CoverageErrors(notation, ranges) == []
    requires 1 <= v <= Dice.Search(notation).value.sides
    ensures exists i | 0 <= i < |ranges| :: Contains(ranges[i], v)
  {
    var sorted := SortByMin(ranges);
    OverlapTestsAgree(ranges);
    CoverageClean(notation, ranges);
    ChainCovers(sorted, 0, v);
    var j :| 0 <= j < |sorted| && Contains(sorted[j], v);
    assert sorted[j] in multiset(ranges) by {
      assert sorted[j] in multiset(sorted);
    }
    var i :| 0 <= i < |ranges| && ranges[i] == sorted[j];
    assert Contains(ranges[i], v);
  }

  // ---------------------------------------------------------------------------
  // the whole table

  /** `validateDiceRanges`: nothing without a dice column; otherwise the
      format errors, the overlaps, and the coverage of the column's notation. */
  function DiceErrors(s: TableState): (errors: seq<string>)
    ensures FirstWhere(s.columns, IsDiceColumn).None? ==> errors == []
  {
    match FirstWhere(s.columns, IsDiceColumn)
    case None => []
    case Some(k) =>
      var (entries, formatErrors) := RangeEntries(s.rows);
      var notation := s.columns[k].diceNotation;
      formatErrors + OverlapErrors(entries)
        + (if TableParser.Truthy(notation) && |entries| > 0 then CoverageErrors(notation.value, entries) else [])
  }

  /** `validateTable`: the name, the reroll references, then the ranges. */
  function ValidateTable(s: TableState, resolves: string -> bool): (r: ValidationResult)
    ensures r.isValid <==> r.errors == []
    ensures r.isValid <==> NameErrors(s.tableName) == [] && RerollErrors(s, resolves) == [] && DiceErrors(s) == []
    ensures IsBlank(s.tableName) ==> !r.isValid && r.errors[0] == EmptyNameError
  {
    var errors := NameErrors(s.tableName) + RerollErrors(s, resolves) + DiceErrors(s);
    ValidationResult(errors == [], errors)
  }

  /** A valid table whose dice column is one die covers every face with
      exactly one of its parsed ranges. */
  lemma {:induction false} ValidTableCoversDie(s: TableState, resolves: string -> bool, v: int)
    requires ValidateTable(s, resolves).isValid
    requires FirstWhere(s.columns, IsDiceColumn).Some?
    requires var c := s.columns[FirstWhere(s.columns, IsDiceColumn).value];
      TableParser.Truthy(c.diceNotation) && Dice.Search(c.diceNotation.value).Some?
      && Dice.Search(c.diceNotation.value).value.count == 1
      && 1 <= v <= Dice.Search(c.diceNotation.value).value.sides
    requires |RangeEntries(s.rows).0| > 0
    ensures var entries := RangeEntries(s.rows).0;
      (exists i | 0 <= i < |entries| :: Contains(entries[i], v))
      && forall i, j | 0 <= i < j < |entries| :: !(Contains(entries[i], v) && Contains(entries[j], v))
  {
    var k := FirstWhere(s.columns, IsDiceColumn).value;
    var entries := RangeEntries(s.rows).0;
    var notation := s.columns[k].diceNotation.value;
    assert DiceErrors(s) == [];
    assert OverlapErrors(entries) == [] && CoverageErrors(notation, entries) == [];
    FacesCoveredOnce(notation, entries, v);
  }
}
