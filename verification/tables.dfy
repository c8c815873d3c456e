/** The values the table roller works on (src/types.ts): a table is either a
    dice table, whose entries cover ranges of a dice roll, or a simple table,
    whose rows are picked uniformly; a roll produces a result that may carry
    the results of further rolls it triggered. */
module Tables {
  import opened Outcomes
  import opened Records

  /** One row of a dice table. `details` and `reroll` are absent rather than
      empty; `columns` holds the displayable cells of the row by header. */
  datatype DiceEntry = DiceEntry(
    min: nat,
    max: nat,
    result: string,
    details: Option<string>,
    reroll: Option<string>,
    columns: Record<string>)

  /** `DiceTable | SimpleTable`. The tag replaces the source's structural
      test `'dice' in table && 'entries' in table`. */
  datatype Table =
    | DiceTable(dice: string, entries: seq<DiceEntry>, reroll: Option<string>, isPrivate: bool)
    | SimpleTable(headers: seq<string>, rows: seq<Record<string>>, reroll: Option<string>, isPrivate: bool)

  /** The outcome of rolling on one table. `roll` is present for dice tables
      only; `nestedRolls` is absent until some reroll is resolved. */
  datatype RollResult = RollResult(
    tableName: string,
    namespace: Option<string>,
    roll: Option<int>,
    result: string,
    details: Option<string>,
    nestedRolls: Option<seq<RollResult>>)

  /** `entry.min <= v <= entry.max`. */
  predicate Covers(e: DiceEntry, v: int) {
    e.min <= v <= e.max
  }

  /** `entries.find(e => v >= e.min && v <= e.max)`, as a position. */
  function FindEntry(entries: seq<DiceEntry>, v: int): (o: Option<nat>)
    ensures o.None? <==> forall i | 0 <= i < |entries| :: !Covers(entries[i], v)
    ensures o.Some? ==> o.value < |entries| && Covers(entries[o.value], v)
    ensures o.Some? ==> forall j | 0 <= j < o.value :: !Covers(entries[j], v)
  {
    if |entries| == 0 then None
    else if Covers(entries[0], v) then Some(0)
    else
      match FindEntry(entries[1..], v)
      case None =>
        assert forall i | 1 <= i < |entries| :: entries[i] == entries[1..][i - 1];
        None
      case Some(i) => Some(i + 1)
  }

  /** The entry `FindEntry` returns is the first one, in declared order, that covers `v`. */
  lemma {:induction false} FindEntryFirst(entries: seq<DiceEntry>, v: int, i: nat)
    requires i < |entries| && Covers(entries[i], v)
    requires forall j | 0 <= j < i :: !Covers(entries[j], v)
    ensures FindEntry(entries, v) == Some(i)
  {
    if i > 0 {
      FindEntryFirst(entries[1..], v, i - 1);
    }
  }
}
