/** `rollOnTable` and `randomSelect` of diceRoller.js: the command-line
    roller picks the first row whose range cell holds the roll, and falls
    back to a random row when none does. The picked row is copied and
    annotated with the roll. */
module CliDice {
  import opened Outcomes
  import opened Strings
  import opened Records
  import opened Seqs
  import opened Random
  import opened Values
  import opened Ranges
  import Dice

  /** `randomSelect(items)`: one draw picks an index below the length; an empty list gives `undefined`. */
  function RandomSelect<T>(items: seq<T>, g: Rng): (d: Drawn<Option<T>>)
    ensures d.rng == g.Advance(1)
    ensures d.value.None? <==> |items| == 0
    ensures d.value.Some? ==> Pick(g.Next(), |items|) < |items| && d.value.value == items[Pick(g.Next(), |items|)]
  {
    var k := PickNext(g, |items|);
    if |items| == 0 then Drawn(None, k.rng) else Drawn(Some(items[k.value]), k.rng)
  }

  /** `{ ...row, _roll, _baseRoll, _modifier }`: a field already present keeps its place. */
  function Annotate(fields: Record<Value>, roll: int, base: int, modifier: int): (r: Record<Value>)
    ensures Get(r, "_roll") == Some(Num(roll))
    ensures Get(r, "_baseRoll") == Some(Num(base))
    ensures Get(r, "_modifier") == Some(Num(modifier))
    ensures forall k | k != "_roll" && k != "_baseRoll" && k != "_modifier" :: Get(r, k) == Get(fields, k)
    ensures UniqueKeys(fields) ==> UniqueKeys(r)
  {
    Put(Put(Put(fields, "_roll", Num(roll)), "_baseRoll", Num(base)), "_modifier", Num(modifier))
  }

  /** `isInRange(num, row[rangeColumn])`: a row without that column matches nothing. */
  predicate RowMatches(row: Record<string>, column: string, num: int) {
    match Get(row, column)
    case Some(range) => RollerInRange(num, range)
    case None => false
  }

  /** The test `rollOnTable` applies to each row, as a function value. */
  function InRangeOf(column: string, num: int): Record<string> -> bool {
    (row: Record<string>) => RowMatches(row, column, num)
  }

  /** The row `rollOnTable` settles on: the first in range, else one drawn at random, else none. */
  function PickRow(rows: seq<Record<string>>, inRange: Record<string> -> bool, g: Rng): (d: Drawn<Record<Value>>)
    ensures FirstWhere(rows, inRange).Some? ==> d == Drawn(RowObject(rows[FirstWhere(rows, inRange).value]), g)
    ensures FirstWhere(rows, inRange).None? ==> d.rng == g.Advance(1)
    ensures FirstWhere(rows, inRange).None? && |rows| > 0 ==> d.value == RowObject(rows[Pick(g.Next(), |rows|)])
    ensures |rows| == 0 ==> d.value == []
  {
    match FirstWhere(rows, inRange)
    case Some(i) => Drawn(RowObject(rows[i]), g)
    case None =>
      var pick := RandomSelect(rows, g);
      Drawn(if pick.value.Some? then RowObject(pick.value.value) else [], pick.rng)
  }

  /** What `rollOnTable` does once the dice are rolled: the row picked for
      the total plus the modifier, with no clamping, copied with the three
      numbers added. */
  function Settle(rows: seq<Record<string>>, column: string, base: Drawn<int>, modifier: int): (d: Drawn<Record<Value>>)
    ensures Get(d.value, "_roll") == Some(Num(base.value + modifier))
    ensures Get(d.value, "_baseRoll") == Some(Num(base.value))
    ensures Get(d.value, "_modifier") == Some(Num(modifier))
    ensures forall k | k != "_roll" && k != "_baseRoll" && k != "_modifier" ::
      Get(d.value, k) == Get(PickRow(rows, InRangeOf(column, base.value + modifier), base.rng).value, k)
    ensures d.rng == PickRow(rows, InRangeOf(column, base.value + modifier), base.rng).rng
  {
    var pick := PickRow(rows, InRangeOf(column, base.value + modifier), base.rng);
    Drawn(Annotate(pick.value, base.value + modifier, base.value, modifier), pick.rng)
  }

  /** `rollOnTable(rows, rangeColumn, modifier)`: the notation in the column
      name is rolled, which fails unless the whole name is a notation. */
  function RollOnRows(rows: seq<Record<string>>, column: string, modifier: int, g: Rng): (r: Result<Drawn<Record<Value>>>)
    ensures r.Err? <==> !Dice.IsValidNotation(column)
    ensures r.Err? ==> r.message == "Invalid dice notation: " + column
    ensures r.Ok? ==> r.value == Settle(rows, column, Dice.Roll(g, column).value, modifier)
  {
    match Dice.Roll(g, column)
    case Err(m) => Err(m)
    case Ok(base) => Ok(Settle(rows, column, base, modifier))
  }

  /** The row picked by range is the first in range; no draw is read. */
  lemma {:induction false} FirstMatchingRow(rows: seq<Record<string>>, inRange: Record<string> -> bool, g: Rng, i: nat)
    requires i < |rows| && inRange(rows[i])
    requires forall j | 0 <= j < i :: !inRange(rows[j])
    ensures PickRow(rows, inRange, g) == Drawn(RowObject(rows[i]), g)
  {
    FirstWhereFirst(rows, inRange, i);
  }

  /** With no row in range a random row is taken, with one draw. */
  lemma {:induction false} FallbackRow(rows: seq<Record<string>>, inRange: Record<string> -> bool, g: Rng)
    requires |rows| > 0
    requires forall j | 0 <= j < |rows| :: !inRange(rows[j])
    ensures Pick(g.Next(), |rows|) < |rows|
    ensures PickRow(rows, inRange, g) == Drawn(RowObject(rows[Pick(g.Next(), |rows|)]), g.Advance(1))
  {
  }
}
