/** `TableRollerCore` of src/services/core/TableRollerCore.js: rolling on
    tables with duplicate avoidance through a session tracker, `->` chains,
    and session reset. The modules it imports, ../tables/index.js and
    ../dice/index.js, are not part of this model: a table is a dice
    notation with a list of entries, the dice roller is a parameter, and
    the tracker's `hasBeenRolled` and `recordRoll`, which the session
    tracker of src/services/tables/SessionTracker.js does not define, are
    an interface given as parameters over that tracker. */
module CoreRoller {
  import opened Outcomes
  import opened Strings
  import opened Records
  import opened Seqs
  import opened Random
  import opened Session

  /** One entry: the interval it covers and what it yields. */
  datatype CoreEntry = CoreEntry(min: int, max: int, result: string, details: Option<string>)

  /** A table: the notation rolled and the entries in declared order. */
  datatype CoreTable = CoreTable(dice: string, entries: seq<CoreEntry>)

  /** The object `rollSingle` returns. */
  datatype CoreResult = CoreResult(
    table: string,
    dice: string,
    roll: int,
    modifier: int,
    rawRoll: int,
    result: string,
    details: Option<string>,
    attempts: nat)

  /** `tracker.hasBeenRolled(session, table, result)` and `tracker.recordRoll(session, table, result)`. */
  datatype TrackerInterface = TrackerInterface(
    hasBeenRolled: (Tracker, string, string, string) -> bool,
    recordRoll: (Tracker, string, string, string) -> Tracker)

  /** `this.tables`. */
  type CoreTables = Record<CoreTable>

  /** `_findTableName`: the exact key, else the first key equal ignoring case, else `null`. */
  function FindName(tables: CoreTables, searchName: string): (o: Option<string>)
    ensures HasKey(tables, searchName) ==> o == Some(searchName)
    ensures o.Some? ==> HasKey(tables, o.value) && EqualsIgnoreCase(o.value, searchName)
    ensures o.None? <==> forall i | 0 <= i < |tables| :: !EqualsIgnoreCase(tables[i].0, searchName)
  {
    if HasKey(tables, searchName) then
      assert exists i | 0 <= i < |tables| :: tables[i].0 == searchName;
      Some(searchName)
    else
      var keys := KeysOf(tables);
      match FirstWhere(keys, (k: string) => ToLower(k) == ToLower(searchName))
      case Some(i) =>
        assert tables[i].0 == keys[i];
        Some(keys[i])
      case None =>
        assert forall i | 0 <= i < |tables| :: !EqualsIgnoreCase(tables[i].0, searchName) by {
          forall i | 0 <= i < |tables| ensures !EqualsIgnoreCase(tables[i].0, searchName) {
            assert keys[i] == tables[i].0;
          }
        }
        None
  }

  /** Without an exact key, the first key in insertion order that matches ignoring case is used. */
  lemma {:induction false} FindNameFirstMatch(tables: CoreTables, searchName: string, i: nat)
    requires !HasKey(tables, searchName)
    requires i < |tables| && EqualsIgnoreCase(tables[i].0, searchName)
    requires forall j | 0 <= j < i :: !EqualsIgnoreCase(tables[j].0, searchName)
    ensures FindName(tables, searchName) == Some(tables[i].0)
  {
    FirstWhereFirst(KeysOf(tables), (k: string) => ToLower(k) == ToLower(searchName), i);
  }

  /** The test `table.entries.find` applies for the roll `v`. */
  function Covering(v: int): CoreEntry -> bool {
    (e: CoreEntry) => e.min <= v <= e.max
  }

  /** The message of the exhausted loop. */
  function FailedMessage(maxAttempts: int): string {
    "Failed to get unique result after " + IntToString(maxAttempts) + " attempts"
  }

  /** The message of a roll that no entry covers. */
  function NoEntryMessage(v: int, name: string): string {
    "No entry found for roll " + IntToString(v) + " on table " + name
  }

  /** What a roll returns with the tracker and the oracle after it. */
  datatype Rolled = Rolled(result: Result<CoreResult>, tracker: Tracker, rng: Rng)

  /** The `while (attempts < maxAttempts)` loop of `rollSingle`, from its
      `attempts`-th pass: roll with no clamping, take the first entry that
      covers the roll or throw, and keep the entry unless it has been
      rolled in the session already. */
  function Loop(ops: TrackerInterface, roller: DiceRoll, table: CoreTable, name: string, id: string,
                t: Tracker, maxAttempts: int, modifier: int, attempts: nat, g: Rng): (o: Rolled)
    ensures o.result.Err? ==> o.tracker == t
    ensures o.result.Ok? ==> attempts < o.result.value.attempts <= maxAttempts
    ensures o.result.Ok? ==> o.result.value.rawRoll == o.result.value.roll - o.result.value.modifier
    ensures o.result.Ok? ==> o.result.value.modifier == modifier && o.result.value.table == name
    ensures o.result.Ok? ==> !ops.hasBeenRolled(t, id, name, o.result.value.result)
    ensures o.result.Ok? ==> o.tracker == ops.recordRoll(t, id, name, o.result.value.result)
    ensures o.result.Ok? ==> FirstWhere(table.entries, Covering(o.result.value.roll)).Some?
    ensures o.result.Ok? ==>
      table.entries[FirstWhere(table.entries, Covering(o.result.value.roll)).value].result == o.result.value.result
    ensures attempts >= maxAttempts ==> o == Rolled(Err(FailedMessage(maxAttempts)), t, g)
    decreases maxAttempts - attempts
  {
    if attempts >= maxAttempts then Rolled(Err(FailedMessage(maxAttempts)), t, g)
    else
      var d := roller(g, table.dice);
      match d.value
      case Err(m) => Rolled(Err(m), t, d.rng)
      case Ok(base) =>
        var v := base + modifier;
        match FirstWhere(table.entries, Covering(v))
        case None => Rolled(Err(NoEntryMessage(v, name)), t, d.rng)
        case Some(i) =>
          var e := table.entries[i];
          if !ops.hasBeenRolled(t, id, name, e.result) then
            Rolled(Ok(CoreResult(name, table.dice, v, modifier, v - modifier, e.result, e.details, attempts + 1)),
                   ops.recordRoll(t, id, name, e.result), d.rng)
          else Loop(ops, roller, table, name, id, t, maxAttempts, modifier, attempts + 1, d.rng)
  }

  /** A roll that no entry covers throws at once, with no retry and no record. */
  lemma {:induction false} UncoveredRollThrows(ops: TrackerInterface, roller: DiceRoll, table: CoreTable, name: string,
                                             id: string, t: Tracker, maxAttempts: int, modifier: int, g: Rng)
    requires 0 < maxAttempts
    requires roller(g, table.dice).value.Ok?
    requires forall i | 0 <= i < |table.entries| :: !Covering(roller(g, table.dice).value.value + modifier)(table.entries[i])
    ensures Loop(ops, roller, table, name, id, t, maxAttempts, modifier, 0, g) ==
      Rolled(Err(NoEntryMessage(roller(g, table.dice).value.value + modifier, name)), t, roller(g, table.dice).rng)
  {
    assert FirstWhere(table.entries, Covering(roller(g, table.dice).value.value + modifier)).None?;
  }

  /** Every entry of the table is already recorded. */
  ghost predicate AllRecorded(ops: TrackerInterface, table: CoreTable, name: string, id: string, t: Tracker) {
    forall i | 0 <= i < |table.entries| :: ops.hasBeenRolled(t, id, name, table.entries[i].result)
  }

  /** Every roll succeeds and lands on an entry. */
  ghost predicate AlwaysLands(roller: DiceRoll, table: CoreTable, modifier: int) {
    forall h: Rng {:trigger roller(h, table.dice)} ::
      roller(h, table.dice).value.Ok? && FirstWhere(table.entries, Covering(roller(h, table.dice).value.value + modifier)).Some?
  }

  /** When every entry is already recorded and every roll lands on an
      entry, all `maxAttempts` passes are spent and the roll fails. */
  lemma {:induction false} AllRecordedFails(ops: TrackerInterface, roller: DiceRoll, table: CoreTable, name: string,
                                          id: string, t: Tracker, maxAttempts: int, modifier: int, attempts: nat, g: Rng)
    requires AllRecorded(ops, table, name, id, t) && AlwaysLands(roller, table, modifier)
    ensures var o := Loop(ops, roller, table, name, id, t, maxAttempts, modifier, attempts, g);
      o.result == Err(FailedMessage(maxAttempts)) && o.tracker == t
    decreases maxAttempts - attempts
  {
    if attempts < maxAttempts {
      RecordedStep(ops, roller, table, name, id, t, maxAttempts, modifier, attempts, g);
      AllRecordedFails(ops, roller, table, name, id, t, maxAttempts, modifier, attempts + 1, roller(g, table.dice).rng);
    }
  }

  /** A pass whose roll lands on a recorded entry moves on to the next pass. */
  lemma {:induction false} RecordedStep(ops: TrackerInterface, roller: DiceRoll, table: CoreTable, name: string,
                                        id: string, t: Tracker, maxAttempts: int, modifier: int, attempts: nat, g: Rng)
    requires attempts < maxAttempts
    requires AllRecorded(ops, table, name, id, t) && AlwaysLands(roller, table, modifier)
    ensures Loop(ops, roller, table, name, id, t, maxAttempts, modifier, attempts, g)
         == Loop(ops, roller, table, name, id, t, maxAttempts, modifier, attempts + 1, roller(g, table.dice).rng)
  {
    var d := roller(g, table.dice);
    var k := FirstWhere(table.entries, Covering(d.value.value + modifier)).value;
    assert ops.hasBeenRolled(t, id, name, table.entries[k].result);
  }

  /** `rollSingle(tableName, sessionId, maxAttempts, modifier)` as a function. */
  function Single(ops: TrackerInterface, roller: DiceRoll, tables: CoreTables, t: Tracker, g: Rng,
                  tableName: string, id: string, maxAttempts: int, modifier: int): (o: Rolled)
    ensures !Found(FindName(tables, tableName)) ==> o == Rolled(Err("Table not found: " + tableName), t, g)
    ensures Found(FindName(tables, tableName)) ==>
      o == Loop(ops, roller, Get(tables, FindName(tables, tableName).value).value, FindName(tables, tableName).value,
                id, t, maxAttempts, modifier, 0, g)
  {
    var found := FindName(tables, tableName);
    if !Found(found) then Rolled(Err("Table not found: " + tableName), t, g)
    else Loop(ops, roller, Get(tables, found.value).value, found.value, id, t, maxAttempts, modifier, 0, g)
  }

  /** `if (!normalizedName)`: `null` and the empty name both fail. */
  predicate Found(o: Option<string>) {
    o.Some? && o.value != ""
  }

  /** The loop of `rollSingle` as the source writes it, a `while` with an
      early exit; it computes what `Loop` describes. */
  method RollSingle(ops: TrackerInterface, roller: DiceRoll, tables: CoreTables, t: Tracker, g: Rng,
                    tableName: string, id: string, maxAttempts: int, modifier: int)
    returns (r: Result<CoreResult>, t': Tracker, g': Rng)
    ensures Rolled(r, t', g') == Single(ops, roller, tables, t, g, tableName, id, maxAttempts, modifier)
    ensures r.Ok? ==> 1 <= r.value.attempts <= maxAttempts
    ensures r.Err? ==> t' == t
  {
    var found := FindName(tables, tableName);
    if !Found(found) {
      return Err("Table not found: " + tableName), t, g;
    }
    var name := found.value;
    var table := Get(tables, name).value;
    var attempts: nat := 0;
    var h := g;
    while attempts < maxAttempts
      invariant Loop(ops, roller, table, name, id, t, maxAttempts, modifier, attempts, h) ==
        Loop(ops, roller, table, name, id, t, maxAttempts, modifier, 0, g)
      decreases maxAttempts - attempts
    {
      var d := roller(h, table.dice);
      if d.value.Err? {
        return Err(d.value.message), t, d.rng;
      }
      var v := d.value.value + modifier;
      var i := FirstWhere(table.entries, Covering(v));
      if i.None? {
        return Err(NoEntryMessage(v, name)), t, d.rng;
      }
      var e := table.entries[i.value];
      if !ops.hasBeenRolled(t, id, name, e.result) {
        r := Ok(CoreResult(name, table.dice, v, modifier, v - modifier, e.result, e.details, attempts + 1));
        t' := ops.recordRoll(t, id, name, e.result);
        g' := d.rng;
        return;
      }
      attempts := attempts + 1;
      h := d.rng;
    }
    return Err(FailedMessage(maxAttempts)), t, h;
  }

  /** The value `roll` returns: the expression, the results in order, the session. */
  datatype Report = Report(expression: string, results: seq<CoreResult>, sessionId: string)

  /** A result of `rollSingle` for the segment `name`: on the table the name resolves to, within the attempts allowed. */
  predicate RolledAs(tables: CoreTables, maxAttempts: int, name: string, c: CoreResult) {
    FindName(tables, name) == Some(c.table) && 1 <= c.attempts <= maxAttempts
  }

  /** The rolls of the segments `names`, in order, in one session; the first failure stops them. */
  function RollAll(ops: TrackerInterface, roller: DiceRoll, tables: CoreTables, t: Tracker, g: Rng,
                   names: seq<string>, id: string, maxAttempts: int, modifier: int): (o: (Result<seq<CoreResult>>, Tracker, Rng))
    ensures o.0.Ok? ==> |o.0.value| == |names|
    ensures o.0.Ok? ==> forall i | 0 <= i < |names| :: RolledAs(tables, maxAttempts, names[i], o.0.value[i])
    decreases |names|
  {
    if |names| == 0 then (Ok([]), t, g)
    else
      var first := Single(ops, roller, tables, t, g, names[0], id, maxAttempts, modifier);
      if first.result.Err? then (Err(first.result.message), first.tracker, first.rng)
      else
        var rest := RollAll(ops, roller, tables, first.tracker, first.rng, names[1..], id, maxAttempts, modifier);
        if rest.0.Err? then (Err(rest.0.message), rest.1, rest.2)
        else
          ConsResults(first.result.value, rest.0.value, names, tables, maxAttempts);
          (Ok([first.result.value] + rest.0.value), rest.1, rest.2)
  }

  /** One result per name, each on the table the name resolves to. */
  lemma {:induction false} ConsResults(first: CoreResult, rest: seq<CoreResult>, names: seq<string>, tables: CoreTables, maxAttempts: int)
    requires |names| == |rest| + 1
    requires RolledAs(tables, maxAttempts, names[0], first)
    requires forall i | 0 <= i < |rest| :: RolledAs(tables, maxAttempts, names[1..][i], rest[i])
    ensures forall i | 0 <= i < |names| :: RolledAs(tables, maxAttempts, names[i], ([first] + rest)[i])
  {
    ConsPaired((n, c) => RolledAs(tables, maxAttempts, n, c), first, rest, names);
  }

  /** A pairing that holds for the first name and result and for the rest holds for all. */
  lemma {:induction false} ConsPaired<A, B>(p: (A, B) -> bool, first: B, rest: seq<B>, names: seq<A>)
    requires |names| == |rest| + 1
    requires p(names[0], first)
    requires forall i | 0 <= i < |rest| :: p(names[1..][i], rest[i])
    ensures forall i | 0 <= i < |names| :: p(names[i], ([first] + rest)[i])
  {
    var all := [first] + rest;
    forall i | 0 <= i < |names|
      ensures p(names[i], all[i])
    {
      if i == 0 {
        assert all[0] == first;
      } else {
        assert all[i] == rest[i - 1];
        assert names[i] == names[1..][i - 1];
      }
    }
  }

  /** `roll(expression, sessionId, maxAttempts, modifier)`: the `->` segments, trimmed. */
  function RollChain(ops: TrackerInterface, roller: DiceRoll, tables: CoreTables, t: Tracker, g: Rng,
                     expression: string, id: string, maxAttempts: int, modifier: int): (o: (Result<Report>, Tracker, Rng))
    ensures o.0.Ok? ==> o.0.value.expression == expression && o.0.value.sessionId == id
    ensures o.0.Ok? ==> |o.0.value.results| == |Split(expression, "->")|
    ensures o.0.Ok? ==> forall i | 0 <= i < |Split(expression, "->")| ::
      RolledAs(tables, maxAttempts, Trim(Split(expression, "->")[i]), o.0.value.results[i])
  {
    var names := Map(Split(expression, "->"), Trim);
    var all := RollAll(ops, roller, tables, t, g, names, id, maxAttempts, modifier);
    if all.0.Err? then (Err(all.0.message), all.1, all.2)
    else (Ok(Report(expression, all.0.value, id)), all.1, all.2)
  }

  /** The id `resetSession` takes by default. */
  const AllSessions: string := "all"

  /** `resetSession(sessionId)`: `'all'` starts a new tracker; any other id clears only that session. */
  function ResetSession(t: Tracker, id: string): (t': Tracker)
    requires Valid(t)
    ensures Valid(t')
    ensures id == AllSessions ==> t' == Fresh
    ensures id != AllSessions ==> !HasKey(t'.sessions, id)
    ensures id != AllSessions ==> forall k {:trigger Get(t'.sessions, k)} | k != id :: Get(t'.sessions, k) == Get(t.sessions, k)
  {
    if id == AllSessions then Fresh else ClearSession(t, id)
  }
}
