/** `generateDefaultRows` of src/ui/utils/TableBuilderUtils.ts: the rows a
    new dice column starts with. The values an `NdS` roll can take,
    `N` to `N·S`, are cut into consecutive ranges, either of a chosen group
    size with one of four ways of placing what is left over, or into a
    chosen number of rows, or one value per row. */
module RowGen {
  import opened Outcomes
  import opened Strings
  import opened Records
  import opened Seqs
  import opened Columns
  import Dice
  import Ranges

  /** `'expand-first' | 'expand-last' | 'row-first' | 'row-last'`. */
  datatype Remainder = ExpandFirst | ExpandLast | RowFirst | RowLast

  /** A generated range: its first and last value. */
  type Span = (int, int)

  function Min(a: int, b: int): int {
    if a <= b then a else b
  }

  /** JavaScript's `%`, which truncates: the remainder takes the sign of the dividend. */
  function JsRem(a: int, b: int): (r: int)
    requires b > 0
    ensures a >= 0 ==> r == a % b
    ensures a < 0 ==> -b < r <= 0
  {
    if a >= 0 then a % b else -((-a) % b)
  }

  /** `` `${start}` `` when the range holds one value, else `` `${start}-${end}` ``. */
  function Label(start: int, end: int): string {
    if start == end then IntToString(start) else IntToString(start) + "-" + IntToString(end)
  }

  /** `{ range: label }`. */
  function RangeRow(s: Span): (row: RowData)
    ensures Get(row, RangeKey) == Some(Label(s.0, s.1)) && |row| == 1
  {
    [(RangeKey, Label(s.0, s.1))]
  }

  // ---------------------------------------------------------------------------
  // the loops

  /** The sizes the grouped and counted loops use: `size` for every row but
      row `k`, which takes `size + extra`. */
  function Sizes(n: int, size: int, k: int, extra: int): (s: seq<int>)
    ensures |s| == if n <= 0 then 0 else n
    ensures forall i | 0 <= i < |s| :: s[i] == if i == k then size + extra else size
    decreases n
  {
    if n <= 0 then []
    else
      var rest := Sizes(n - 1, size, k - 1, extra);
      [if k == 0 then size + extra else size] + rest
  }

  /** A `for` loop of the generator: from `cur`, one range per size, each
      ending at `Math.min(cur + size - 1, max)`; the value after the last. */
  function Walk(cur: int, max: int, sizes: seq<int>): (r: (seq<Span>, int))
    ensures |r.0| == |sizes|
    ensures forall i | 0 <= i < |r.0| :: r.0[i].1 <= max
    decreases |sizes|
  {
    if |sizes| == 0 then ([], cur)
    else
      var end := Min(cur + sizes[0] - 1, max);
      var rest := Walk(end + 1, max, sizes[1..]);
      ([(cur, end)] + rest.0, rest.1)
  }

  /** The branch with a group size of at least 2. */
  function Grouped(min: int, max: int, g: int, strategy: Remainder): (spans: seq<Span>)
    requires g >= 2
  {
    var total := max - min + 1;
    Layout(min, max, g, total / g, JsRem(total, g), strategy)
  }

  /** The grouped rows once `Math.floor(totalRange / groupSize)` is `q` and
      the remainder is `extra`: an optional small first row, `q` rows of
      `g` with one of them widened, an optional small last row. */
  function Layout(min: int, max: int, g: int, q: int, extra: int, strategy: Remainder): (spans: seq<Span>) {
    var first := strategy == RowFirst && extra > 0;
    var head := if first then [(min, min + extra - 1)] else [];
    var bump := if extra > 0 && strategy == ExpandFirst then 0
      else if extra > 0 && strategy == ExpandLast then q - 1
      else -1;
    var main := Walk(if first then min + extra else min, max, Sizes(q, g, bump, extra));
    var tail := if strategy == RowLast && extra > 0 && main.1 <= max then [(main.1, max)] else [];
    head + main.0 + tail
  }

  /** The branch for a row count below the number of values: the last row takes the remainder. */
  function Counted(min: int, max: int, count: int): seq<Span> {
    var total := max - min + 1;
    if count <= 0 then [] else Walk(min, max, Sizes(count, total / count, count - 1, JsRem(total, count))).0
  }

  /** The branch for a row count of at least the number of values: one value per row. */
  function Singles(min: int, max: int, count: int): (spans: seq<Span>)
    ensures |spans| == if Min(max, min + count - 1) < min then 0 else Min(max, min + count - 1) - min + 1
    ensures forall i | 0 <= i < |spans| :: spans[i] == (min + i, min + i)
  {
    var last := Min(max, min + count - 1);
    if last < min then [] else seq(last - min + 1, i requires 0 <= i <= last - min => (min + i, min + i))
  }

  /** The ranges `generateDefaultRows` writes, before they become rows:
      none unless the notation is `^(\d*)d(\d+)$`. */
  function GenerateSpans(notation: string, count: int, groupSize: Option<int>, remainder: Option<Remainder>): seq<Span> {
    match Dice.PlainNotation(notation)
    case None => []
    case Some(n) =>
      var min := n.count;
      var max := n.count * n.sides;
      if groupSize.Some? && groupSize.value >= 2 then Grouped(min, max, groupSize.value, remainder.GetOr(ExpandLast))
      else if count < max - min + 1 then Counted(min, max, count)
      else Singles(min, max, count)
  }

  /** `generateDefaultRows(diceNotation, count, groupSize, remainder)`. */
  function GenerateDefaultRows(notation: string, count: int, groupSize: Option<int>, remainder: Option<Remainder>): (rows: seq<RowData>)
    ensures Dice.PlainNotation(notation).None? ==> rows == []
    ensures |rows| == |GenerateSpans(notation, count, groupSize, remainder)|
    ensures forall i | 0 <= i < |rows| :: rows[i] == RangeRow(GenerateSpans(notation, count, groupSize, remainder)[i])
  {
    Map(GenerateSpans(notation, count, groupSize, remainder), RangeRow)
  }

  // ---------------------------------------------------------------------------
  // tiling

  /** `spans` run without gap or overlap from `lo`, and the value after the last is `next`. */
  predicate Chain(spans: seq<Span>, lo: int, next: int) {
    (|spans| == 0 ==> lo == next)
    && (|spans| > 0 ==> spans[0].0 == lo && spans[|spans| - 1].1 + 1 == next)
    && (forall i | 0 <= i < |spans| :: spans[i].0 <= spans[i].1)
    && (forall i | 0 <= i < |spans| - 1 :: spans[i + 1].0 == spans[i].1 + 1)
  }

  /** The ranges cover `lo` to `hi` exactly, in order, each value once. */
  predicate Tiles(spans: seq<Span>, lo: int, hi: int) {
    |spans| > 0 && Chain(spans, lo, hi + 1)
  }

  function Sum(xs: seq<int>): int
    decreases |xs|
  {
    if |xs| == 0 then 0 else xs[0] + Sum(xs[1..])
  }

  lemma {:induction false} ChainAppend(a: seq<Span>, b: seq<Span>, lo: int, mid: int, next: int)
    requires Chain(a, lo, mid) && Chain(b, mid, next)
    ensures Chain(a + b, lo, next)
  {
    var c := a + b;
    if |a| > 0 && |b| > 0 {
      assert c[|a|] == b[0] && c[|a| - 1] == a[|a| - 1];
      forall i | 0 <= i < |c| - 1 ensures c[i + 1].0 == c[i].1 + 1 {
        if i < |a| - 1 {
          assert c[i] == a[i] && c[i + 1] == a[i + 1];
        } else if i >= |a| {
          assert c[i] == b[i - |a|] && c[i + 1] == b[i + 1 - |a|];
        }
      }
    } else if |a| == 0 {
      assert c == b;
    } else {
      assert c == a;
    }
  }

  /** The sum of the sizes: `n` rows of `size`, one of them `extra` larger. */
  lemma {:induction false} SizesSum(n: int, size: int, k: int, extra: int)
    requires n >= 0
    ensures Sum(Sizes(n, size, k, extra)) == n * size + (if 0 <= k < n then extra else 0)
    decreases n
  {
    if n > 0 {
      var rest := Sizes(n - 1, size, k - 1, extra);
      var s := [if k == 0 then size + extra else size] + rest;
      assert Sizes(n, size, k, extra) == s;
      assert s[1..] == rest;
      SizesSum(n - 1, size, k - 1, extra);
      MulStep(n, size);
    }
  }

  lemma MulStep(n: int, size: int)
    ensures n * size == size + (n - 1) * size
  {
  }

  /** Multiplying by a natural keeps the order. */
  lemma MulMono(a: int, b: int, w: int)
    requires a <= b && 0 <= w
    ensures a * w <= b * w
  {
  }

  /** Positive sizes add up to at least their number. */
  lemma {:induction false} SumPositive(xs: seq<int>)
    requires forall i | 0 <= i < |xs| :: xs[i] >= 1
    ensures Sum(xs) >= |xs|
    decreases |xs|
  {
    if |xs| > 0 {
      assert forall i | 0 <= i < |xs| - 1 :: xs[1..][i] == xs[i + 1];
      SumPositive(xs[1..]);
    }
  }

  /** While the sizes fit below `max`, no range is cut and the loop tiles `cur` up to `cur + Sum(sizes) - 1`. */
  lemma {:induction false} WalkChain(cur: int, max: int, sizes: seq<int>)
    requires forall i | 0 <= i < |sizes| :: sizes[i] >= 1
    requires cur + Sum(sizes) - 1 <= max
    ensures Chain(Walk(cur, max, sizes).0, cur, cur + Sum(sizes))
    ensures Walk(cur, max, sizes).1 == cur + Sum(sizes)
    decreases |sizes|
  {
    if |sizes| > 0 {
      var rest := sizes[1..];
      assert forall i | 0 <= i < |rest| :: rest[i] == sizes[i + 1];
      SumPositive(rest);
      var end := cur + sizes[0] - 1;
      WalkChain(end + 1, max, rest);
      WalkStep(cur, max, sizes, end);
      ChainAppend([(cur, end)], Walk(end + 1, max, rest).0, cur, end + 1, cur + Sum(sizes));
    }
  }

  /** One turn of the loop when the range is not cut at `max`. */
  lemma WalkStep(cur: int, max: int, sizes: seq<int>, end: int)
    requires |sizes| > 0 && end == cur + sizes[0] - 1 && end <= max
    ensures Walk(cur, max, sizes) == ([(cur, end)] + Walk(end + 1, max, sizes[1..]).0, Walk(end + 1, max, sizes[1..]).1)
  {
  }

  /** Division facts for a divisor no larger than the dividend. */
  lemma {:induction false} Quotient(total: int, g: int)
    requires 1 <= g <= total
    ensures total / g >= 1 && 0 <= total % g < g && JsRem(total, g) == total % g
    ensures (total / g) * g + total % g == total
  {
  }

  /** With a group size between 2 and the number of values, the rows tile
      the values exactly, whichever way the remainder is placed. */
  lemma {:induction false} GroupedTiles(min: int, max: int, g: int, strategy: Remainder)
    requires 2 <= g <= max - min + 1
    ensures Tiles(Grouped(min, max, g, strategy), min, max)
  {
    var total := max - min + 1;
    Quotient(total, g);
    LayoutTiles(min, max, g, total / g, total % g, strategy);
  }

  lemma {:induction false} LayoutTiles(min: int, max: int, g: int, q: int, extra: int, strategy: Remainder)
    requires g >= 2 && q >= 1 && 0 <= extra < g && q * g + extra == max - min + 1
    ensures Tiles(Layout(min, max, g, q, extra, strategy), min, max)
  {
    var m := q * g;
    if extra == 0 {
      EvenTiles(min, max, g, q, strategy, m);
    } else {
      match strategy
      case RowFirst =>
        MainChain(min + extra, max, g, q, -1, extra);
        RowFirstTiles(min, max, g, q, extra, m);
      case RowLast =>
        MainChain(min, max, g, q, -1, extra);
        RowLastTiles(min, max, g, q, extra, m);
      case ExpandFirst =>
        WidenedTiles(min, max, g, q, 0, extra, m);
        ExpandFirstTiles(min, max, g, q, extra);
      case ExpandLast =>
        WidenedTiles(min, max, g, q, q - 1, extra, m);
        ExpandLastTiles(min, max, g, q, extra);
    }
  }

  /** The main rows alone, one of them widened by the remainder or none when it is 0, tile the values. */
  lemma {:induction false} WidenedTiles(min: int, max: int, g: int, q: int, bump: int, extra: int, m: int)
    requires g >= 2 && q >= 1 && extra >= 0 && m == q * g
    requires (0 <= bump < q || extra == 0) && m + extra == max - min + 1
    ensures Tiles(Walk(min, max, Sizes(q, g, bump, extra)).0, min, max)
  {
    MainChain(min, max, g, q, bump, extra);
  }

  /** With no remainder every strategy lays out the plain groups. */
  lemma {:induction false} EvenTiles(min: int, max: int, g: int, q: int, strategy: Remainder, m: int)
    requires g >= 2 && q >= 1 && m == q * g && m == max - min + 1
    ensures Tiles(Layout(min, max, g, q, 0, strategy), min, max)
  {
    WidenedTiles(min, max, g, q, -1, 0, m);
    assert Layout(min, max, g, q, 0, strategy) == Walk(min, max, Sizes(q, g, -1, 0)).0;
  }

  lemma {:induction false} ExpandFirstTiles(min: int, max: int, g: int, q: int, extra: int)
    requires q >= 1 && extra > 0
    requires Tiles(Walk(min, max, Sizes(q, g, 0, extra)).0, min, max)
    ensures Tiles(Layout(min, max, g, q, extra, ExpandFirst), min, max)
  {
    assert Layout(min, max, g, q, extra, ExpandFirst) == Walk(min, max, Sizes(q, g, 0, extra)).0;
  }

  lemma {:induction false} ExpandLastTiles(min: int, max: int, g: int, q: int, extra: int)
    requires q >= 1 && extra > 0
    requires Tiles(Walk(min, max, Sizes(q, g, q - 1, extra)).0, min, max)
    ensures Tiles(Layout(min, max, g, q, extra, ExpandLast), min, max)
  {
    assert Layout(min, max, g, q, extra, ExpandLast) == Walk(min, max, Sizes(q, g, q - 1, extra)).0;
  }

  lemma {:induction false} RowFirstTiles(min: int, max: int, g: int, q: int, extra: int, m: int)
    requires g >= 2 && q >= 1 && 0 < extra && m + extra == max - min + 1
    requires Chain(Walk(min + extra, max, Sizes(q, g, -1, extra)).0, min + extra, min + extra + m)
    requires |Walk(min + extra, max, Sizes(q, g, -1, extra)).0| == q
    ensures Tiles(Layout(min, max, g, q, extra, RowFirst), min, max)
  {
    var main := Walk(min + extra, max, Sizes(q, g, -1, extra));
    assert Layout(min, max, g, q, extra, RowFirst) == [(min, min + extra - 1)] + main.0;
    ChainAppend([(min, min + extra - 1)], main.0, min, min + extra, max + 1);
  }

  lemma {:induction false} RowLastTiles(min: int, max: int, g: int, q: int, extra: int, m: int)
    requires g >= 2 && q >= 1 && 0 < extra && m + extra == max - min + 1
    requires Chain(Walk(min, max, Sizes(q, g, -1, extra)).0, min, min + m)
    requires Walk(min, max, Sizes(q, g, -1, extra)).1 == min + m
    ensures Tiles(Layout(min, max, g, q, extra, RowLast), min, max)
  {
    var main := Walk(min, max, Sizes(q, g, -1, extra));
    assert Layout(min, max, g, q, extra, RowLast) == main.0 + [(main.1, max)];
    ChainAppend(main.0, [(main.1, max)], min, main.1, max + 1);
  }

  /** The `q` main rows tile from `start` over `q·g` values plus the widening, when they fit. */
  lemma {:induction false} MainChain(start: int, max: int, g: int, q: int, bump: int, extra: int)
    requires g >= 2 && q >= 0 && extra >= 0
    requires start + q * g + (if 0 <= bump < q then extra else 0) - 1 <= max
    ensures Chain(Walk(start, max, Sizes(q, g, bump, extra)).0, start, start + q * g + (if 0 <= bump < q then extra else 0))
    ensures Walk(start, max, Sizes(q, g, bump, extra)).1 == start + q * g + (if 0 <= bump < q then extra else 0)
  {
    SizesSum(q, g, bump, extra);
    WalkChain(start, max, Sizes(q, g, bump, extra));
  }

  /** With a row count of at least 1 and below the number of values, there
      are exactly that many rows and they tile the values. */
  lemma {:induction false} CountedTiles(min: int, max: int, count: int)
    requires 1 <= count < max - min + 1
    ensures |Counted(min, max, count)| == count
    ensures Tiles(Counted(min, max, count), min, max)
  {
    var total := max - min + 1;
    Quotient(total, count);
    CountWalk(min, max, count, total / count, total % count);
  }

  lemma {:induction false} CountWalk(min: int, max: int, count: int, size: int, extra: int)
    requires count >= 1 && size >= 1 && extra >= 0 && count * size + extra == max - min + 1
    ensures Tiles(Walk(min, max, Sizes(count, size, count - 1, extra)).0, min, max)
  {
    SizesSum(count, size, count - 1, extra);
    WalkChain(min, max, Sizes(count, size, count - 1, extra));
  }

  /** With a row count of at least the number of values, every value gets a row of its own. */
  lemma {:induction false} SinglesTiles(min: int, max: int, count: int)
    requires 1 <= max - min + 1 <= count
    ensures |Singles(min, max, count)| == max - min + 1
    ensures Tiles(Singles(min, max, count), min, max)
  {
  }

  /** A group size larger than the number of values: the two row strategies
      give one row of everything, the two expand strategies give no rows. */
  lemma {:induction false} OversizedGroup(min: int, max: int, g: int, strategy: Remainder)
    requires 1 <= max - min + 1 < g
    ensures strategy == RowFirst || strategy == RowLast ==> Grouped(min, max, g, strategy) == [(min, max)]
    ensures strategy == ExpandFirst || strategy == ExpandLast ==> Grouped(min, max, g, strategy) == []
  {
    var total := max - min + 1;
    SmallQuotient(total, g);
    OversizedLayout(min, max, g, strategy);
  }

  lemma {:induction false} SmallQuotient(total: int, g: int)
    requires 0 <= total < g
    ensures total / g == 0 && JsRem(total, g) == total
  {
  }

  lemma {:induction false} OversizedLayout(min: int, max: int, g: int, strategy: Remainder)
    requires 1 <= max - min + 1 < g
    ensures strategy == RowFirst || strategy == RowLast ==> Layout(min, max, g, 0, max - min + 1, strategy) == [(min, max)]
    ensures strategy == ExpandFirst || strategy == ExpandLast ==> Layout(min, max, g, 0, max - min + 1, strategy) == []
  {
    var extra := max - min + 1;
    assert Sizes(0, g, 0, extra) == [] && Sizes(0, g, -1, extra) == [];
    assert Walk(min + extra, max, []) == ([], min + extra);
    assert Walk(min, max, []) == ([], min);
  }

  /** Chained ranges are disjoint and increasing. */
  lemma {:induction false} ChainOrdered(spans: seq<Span>, lo: int, next: int, i: nat, j: nat)
    requires Chain(spans, lo, next) && i < j < |spans|
    ensures spans[i].1 < spans[j].0
    decreases j - i
  {
    if j > i + 1 {
      ChainOrdered(spans, lo, next, i, j - 1);
    }
  }

  /** Every value from `lo` to before `next` lies in some chained range. */
  lemma {:induction false} ChainCovers(spans: seq<Span>, lo: int, next: int, v: int) returns (i: nat)
    requires Chain(spans, lo, next) && lo <= v < next
    ensures i < |spans| && spans[i].0 <= v <= spans[i].1
    decreases |spans|
  {
    if v <= spans[0].1 {
      i := 0;
    } else {
      var rest := spans[1..];
      assert Chain(rest, spans[0].1 + 1, next) by {
        assert forall k | 0 <= k < |rest| :: rest[k] == spans[k + 1];
      }
      var k := ChainCovers(rest, spans[0].1 + 1, next, v);
      i := k + 1;
    }
  }

  /** A range rendered for a natural start and end reads back as those bounds in the table parser. */
  lemma {:induction false} LabelRead(s: Span)
    requires 0 <= s.0 <= s.1
    ensures Ranges.ParserRange(Label(s.0, s.1)) == Ranges.Bounds(s.0, s.1)
  {
    assert Label(s.0, s.1) == Ranges.RenderRange(s.0, s.1);
    Ranges.ParserRangeRender(s.0, s.1);
  }

  /** Whatever the arguments, every generated range lies within the values of the roll, `N` to `N·S`. */
  lemma {:induction false} GeneratedInRange(notation: string, count: int, groupSize: Option<int>, remainder: Option<Remainder>)
    requires Dice.PlainNotation(notation).Some?
    ensures forall i | 0 <= i < |GenerateSpans(notation, count, groupSize, remainder)| ::
      Dice.PlainNotation(notation).value.count <= GenerateSpans(notation, count, groupSize, remainder)[i].0
    ensures forall i | 0 <= i < |GenerateSpans(notation, count, groupSize, remainder)| ::
      GenerateSpans(notation, count, groupSize, remainder)[i].0 <= GenerateSpans(notation, count, groupSize, remainder)[i].1
    ensures forall i | 0 <= i < |GenerateSpans(notation, count, groupSize, remainder)| ::
      GenerateSpans(notation, count, groupSize, remainder)[i].1 <= Dice.PlainNotation(notation).value.count * Dice.PlainNotation(notation).value.sides
  {
    var n := Dice.PlainNotation(notation).value;
    var min := n.count;
    var max := n.count * n.sides;
    var total := max - min + 1;
    var spans := GenerateSpans(notation, count, groupSize, remainder);
    if total <= 0 {
      NothingToTile(min, max, count, groupSize, remainder);
    } else if groupSize.Some? && groupSize.value >= 2 {
      if groupSize.value <= total {
        GroupedTiles(min, max, groupSize.value, remainder.GetOr(ExpandLast));
        TilesWithin(spans, min, max);
      } else {
        OversizedGroup(min, max, groupSize.value, remainder.GetOr(ExpandLast));
      }
    } else if count < total {
      if count >= 1 {
        CountedTiles(min, max, count);
        TilesWithin(spans, min, max);
      }
    }
  }

  /** Tiled ranges lie within the tiled values. */
  lemma {:induction false} TilesWithin(spans: seq<Span>, lo: int, hi: int)
    requires Tiles(spans, lo, hi)
    ensures forall i | 0 <= i < |spans| :: lo <= spans[i].0 <= spans[i].1 <= hi
  {
    forall i | 0 <= i < |spans| ensures lo <= spans[i].0 <= spans[i].1 <= hi {
      if i > 0 {
        ChainOrdered(spans, lo, hi + 1, 0, i);
      }
      if i < |spans| - 1 {
        ChainOrdered(spans, lo, hi + 1, i, |spans| - 1);
      }
    }
  }

  /** When the roll has no values (`N·S < N`), nothing is generated. */
  lemma {:induction false} NothingToTile(min: int, max: int, count: int, groupSize: Option<int>, remainder: Option<Remainder>)
    requires max - min + 1 <= 0
    ensures groupSize.Some? && groupSize.value >= 2 ==> Grouped(min, max, groupSize.value, remainder.GetOr(ExpandLast)) == []
    ensures count < max - min + 1 ==> Counted(min, max, count) == []
    ensures Singles(min, max, count) == []
  {
    if groupSize.Some? && groupSize.value >= 2 {
      var g := groupSize.value;
      var total := max - min + 1;
      assert total / g <= 0 && JsRem(total, g) <= 0;
      EmptyLayout(min, max, g, total / g, JsRem(total, g), remainder.GetOr(ExpandLast));
    }
  }

  /** No groups and no remainder lay out no rows. */
  lemma EmptyLayout(min: int, max: int, g: int, q: int, extra: int, strategy: Remainder)
    requires q <= 0 && extra <= 0
    ensures Layout(min, max, g, q, extra, strategy) == []
  {
    assert Sizes(q, g, -1, extra) == [];
  }
}
