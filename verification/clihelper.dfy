/** `TableHelper` of tableHelper.js, the roller of the command-line
    generation: tables parsed by tableParser.js, keyed by file name; a roll
    expression of comma-separated or `>`-chained table names, each with an
    optional `+N`/`-N` modifier; a retry loop that avoids results already
    recorded in the session; and the rerolls a row asks for. Everything a
    roll changes, the tracker and the random stream, is threaded through
    as a `Run`. ./sessionTracker.js is not part of this model: the tracker
    of src/services/tables/SessionTracker.js, with the same methods, stands
    in for it. */
module CliHelper {
  import opened Outcomes
  import opened Strings
  import opened Records
  import opened Seqs
  import opened Random
  import opened Values
  import opened Session
  import Markdown
  import Dice
  import CliDice
  import LegacyParser
  import TableParser

  /** `this.tables`: parsed tables by name. */
  type Tables = Record<LegacyParser.Grid>

  /** The defaults of `roll` and `rollSingle`. */
  const DefaultSession: string := "default"
  const DefaultMaxAttempts: int := 100

  /** What a roll reads and changes besides the tables. */
  datatype Run = Run(tracker: Tracker, rng: Rng)

  /** The value or exception of a roll, and the state it leaves behind. */
  datatype Outcome<T> = Outcome(result: Result<T>, run: Run)

  // ---------------------------------------------------------------------------
  // names and columns

  /** `findTableName`: the exact key, else the first key equal ignoring case,
      else the name itself. */
  function FindTableName(tables: Tables, name: string): (actual: string)
    ensures HasKey(tables, name) ==> actual == name
    ensures actual == name || (HasKey(tables, actual) && EqualsIgnoreCase(actual, name))
  {
    if HasKey(tables, name) then name
    else
      match FirstWhere(KeysOf(tables), (k: string) => ToLower(k) == ToLower(name))
      case Some(i) =>
        var key := KeysOf(tables)[i];
        if key != "" then
          assert tables[i].0 == key;
          key
        else name
      case None => name
  }

  /** Without an exact key, the first key that matches ignoring case is the one used. */
  lemma {:induction false} FindTableNameFirstMatch(tables: Tables, name: string, i: nat)
    requires !HasKey(tables, name)
    requires i < |tables| && EqualsIgnoreCase(tables[i].0, name)
    requires forall j | 0 <= j < i :: !EqualsIgnoreCase(tables[j].0, name)
    ensures FindTableName(tables, name) == tables[i].0
  {
    var p := (k: string) => ToLower(k) == ToLower(name);
    var keys := KeysOf(tables);
    FirstWhereFirst(keys, p, i);
  }

  /** `rollSingle` finds a table exactly when some key equals the name ignoring case. */
  lemma {:induction false} TableFoundIff(tables: Tables, name: string)
    ensures HasKey(tables, FindTableName(tables, name)) <==>
      exists i | 0 <= i < |tables| :: EqualsIgnoreCase(tables[i].0, name)
  {
    var p := (k: string) => ToLower(k) == ToLower(name);
    var keys := KeysOf(tables);
    if HasKey(tables, name) {
      var i :| 0 <= i < |tables| && tables[i].0 == name;
      assert EqualsIgnoreCase(tables[i].0, name);
    } else if FirstWhere(keys, p).Some? {
      var i := FirstWhere(keys, p).value;
      assert EqualsIgnoreCase(tables[i].0, name);
    } else {
      forall i | 0 <= i < |tables|
        ensures !EqualsIgnoreCase(tables[i].0, name)
      {
        assert !p(keys[i]);
      }
    }
  }

  /** A header `getDiceColumn` recognises: `^d\d+$`, ignoring case. */
  predicate IsDieHeader(h: string) {
    |h| >= 2 && Dice.IsDieLetter(h[0]) && AllDigits(h[1..])
  }

  /** `getDiceColumn`: the first die header, else the first header; with no
      headers at all `rollOnTable`'s default column `'d6'` applies. */
  function DiceColumn(headers: seq<string>): (column: string)
    ensures |headers| == 0 ==> column == "d6"
    ensures |headers| > 0 ==> column in headers
    ensures forall i | 0 <= i < |headers| :: IsDieHeader(headers[i]) ==> IsDieHeader(column)
  {
    match FirstWhere(headers, IsDieHeader)
    case Some(i) => headers[i]
    case None => if |headers| == 0 then "d6" else headers[0]
  }

  /** The first die header wins over every later one and over the first column. */
  lemma {:induction false} DiceColumnFirst(headers: seq<string>, i: nat)
    requires i < |headers| && IsDieHeader(headers[i])
    requires forall j | 0 <= j < i :: !IsDieHeader(headers[j])
    ensures DiceColumn(headers) == headers[i]
  {
    FirstWhereFirst(headers, IsDieHeader, i);
  }

  /** Without a die header the first column is the range column. */
  lemma {:induction false} DiceColumnDefault(headers: seq<string>)
    requires |headers| > 0
    requires forall j | 0 <= j < |headers| :: !IsDieHeader(headers[j])
    ensures DiceColumn(headers) == headers[0]
  {
    assert FirstWhere(headers, IsDieHeader).None?;
  }

  /** A header with a dice count is not recognised: a table headed
      `Result | 2d6` is rolled on its `Result` column. */
  lemma {:induction false} CountedHeaderMissed()
    ensures DiceColumn(["Result", "2d6"]) == "Result"
  {
    assert !IsDieHeader("Result");
    assert !IsDieHeader("2d6");
    DiceColumnDefault(["Result", "2d6"]);
  }

  // ---------------------------------------------------------------------------
  // parseTableNameWithModifier

  datatype NameMod = NameMod(name: string, mod: int)

  /** `^(.+?)([+\-]\d+)$` matches with the sign at position `p`. */
  predicate SuffixAt(e: string, p: int) {
    1 <= p && p + 1 < |e| && Dice.IsSign(e[p]) && DigitsBetween(e, p + 1, |e|) && NoLineTerminator(e[..p])
  }

  /** Where the sign of the modifier suffix stands, if the expression has one:
      it must precede the final run of digits. */
  function SuffixStart(e: string): (o: Option<nat>)
    ensures o.Some? ==> SuffixAt(e, o.value)
    ensures o.None? ==> forall p | 0 <= p < |e| :: !SuffixAt(e, p)
  {
    var d := DigitRunBefore(e, |e|);
    if d >= 1 && |e| >= d + 2 && Dice.IsSign(e[|e| - d - 1]) && NoLineTerminator(e[..|e| - d - 1]) then
      Some(|e| - d - 1)
    else
      assert forall p | 0 <= p < |e| :: !SuffixAt(e, p) by {
        forall p | 0 <= p < |e| && SuffixAt(e, p) ensures false {
          DigitRunBeforeExact(e, |e|, |e| - p - 1);
        }
      }
      None
  }

  /** `parseInt` of the suffix: its sign and digits. */
  function SignedValue(e: string, p: nat): int
    requires SuffixAt(e, p)
  {
    var v: int := ValueBetween(e, p + 1, |e|);
    if e[p] == '-' then -v else v
  }

  /** `parseTableNameWithModifier`: a trailing `+N` or `-N` becomes the
      modifier and the rest, trimmed, the name; otherwise the trimmed text
      with modifier 0. */
  function ParseNameWithModifier(e: string): (nm: NameMod)
    ensures SuffixStart(e).None? ==> nm == NameMod(Trim(e), 0)
    ensures SuffixStart(e).Some? ==> nm.name == Trim(e[..SuffixStart(e).value])
  {
    match SuffixStart(e)
    case Some(p) => NameMod(Trim(e[..p]), SignedValue(e, p))
    case None => NameMod(Trim(e), 0)
  }

  /** A name followed by a signed number reads back as that name, trimmed, and that number. */
  lemma {:induction false} NameModifierRoundTrip(n: string, k: nat, negative: bool)
    requires |n| >= 1 && NoLineTerminator(n)
    ensures ParseNameWithModifier(n + [if negative then '-' else '+'] + NatToString(k)) ==
      NameMod(Trim(n), if negative then -(k as int) else k)
  {
    var e := n + [if negative then '-' else '+'] + NatToString(k);
    var p := |n|;
    PlacedNumber(e, p + 1, k);
    assert e[..p] == n;
    assert SuffixAt(e, p);
    DigitRunBeforeExact(e, |e|, |e| - p - 1);
    assert SuffixStart(e) == Some(p);
  }

  /** An expression that does not end in a digit has no modifier. */
  lemma {:induction false} NoDigitNoModifier(e: string)
    requires |e| == 0 || !IsDigit(e[|e| - 1])
    ensures ParseNameWithModifier(e) == NameMod(Trim(e), 0)
  {
  }

  // ---------------------------------------------------------------------------
  // the retry loop

  /** One pass out of the `do … while` loop: the row kept and the number of rolls made. */
  datatype Attempt = Attempt(row: Record<Value>, attempts: nat)

  /** The loop of `rollSingle`, after `attempts` rolls: roll, and roll again
      while the result is already recorded, fewer than `maxAttempts` rolls
      were made, and the table has more rows than recorded keys. The
      tracker is only read. */
  function Retry(rows: seq<Record<string>>, column: string, modifier: int, t: Tracker, id: string,
                 table: string, maxAttempts: int, attempts: nat, g: Rng): (r: Result<Drawn<Attempt>>)
    ensures r.Err? <==> !Dice.IsValidNotation(column)
    ensures r.Ok? ==> attempts < r.value.value.attempts
    ensures r.Ok? ==> r.value.value.attempts <= maxAttempts || r.value.value.attempts == attempts + 1
    ensures r.Ok? ==>
      !IsDuplicate(t, id, table, Obj(r.value.value.row)) || r.value.value.attempts >= maxAttempts ||
      |rows| <= |GetResults(t, id, table)|
    decreases maxAttempts - attempts
  {
    match CliDice.RollOnRows(rows, column, modifier, g)
    case Err(m) => Err(m)
    case Ok(d) =>
      var n := attempts + 1;
      if IsDuplicate(t, id, table, Obj(d.value)) && n < maxAttempts && |rows| > |GetResults(t, id, table)| then
        Retry(rows, column, modifier, t, id, table, maxAttempts, n, d.rng)
      else Ok(Drawn(Attempt(d.value, n), d.rng))
  }

  /** A table with no more rows than recorded keys is rolled once, duplicate or not. */
  lemma {:induction false} ExhaustedTableRolledOnce(rows: seq<Record<string>>, column: string, modifier: int,
                                                   t: Tracker, id: string, table: string, maxAttempts: int, g: Rng)
    requires Dice.IsValidNotation(column)
    requires |rows| <= |GetResults(t, id, table)|
    ensures Retry(rows, column, modifier, t, id, table, maxAttempts, 0, g).value.value.attempts == 1
  {
  }

  /** A first roll that is not yet recorded is kept. */
  lemma {:induction false} FreshRollKept(rows: seq<Record<string>>, column: string, modifier: int,
                                         t: Tracker, id: string, table: string, maxAttempts: int, g: Rng)
    requires Dice.IsValidNotation(column)
    requires !IsDuplicate(t, id, table, Obj(CliDice.RollOnRows(rows, column, modifier, g).value.value))
    ensures Retry(rows, column, modifier, t, id, table, maxAttempts, 0, g) ==
      Ok(Drawn(Attempt(CliDice.RollOnRows(rows, column, modifier, g).value.value, 1),
               CliDice.RollOnRows(rows, column, modifier, g).value.rng))
  {
  }

  // ---------------------------------------------------------------------------
  // reroll cells

  /** A key `rollSingle` takes for the reroll column. */
  predicate IsRerollName(key: string) {
    ToLower(key) == "reroll"
  }

  /** The reroll expression of a rolled row: the value under the first key
      that lower-cases to `reroll`, unless it is blank, `—` or `-`. Row
      values are strings; any other value is not read. */
  function RerollOf(fields: Record<Value>): (o: Option<string>)
    ensures o.Some? ==> TableParser.NamesReroll(Trim(o.value))
    ensures o.Some? ==> exists i | 0 <= i < |fields| :: IsRerollName(fields[i].0) && fields[i].1 == Str(o.value)
    ensures (forall i | 0 <= i < |fields| :: !IsRerollName(fields[i].0)) ==> o.None?
  {
    match FirstWhere(KeysOf(fields), IsRerollName)
    case None => None
    case Some(i) =>
      match Get(fields, KeysOf(fields)[i])
      case Some(v) => if v.Str? && TableParser.NamesReroll(Trim(v.s)) then Some(v.s) else None
      case None => None
  }

  /** A reroll of the form `NdX Table`. */
  datatype Ndx = Ndx(dice: string, table: string)

  /** `/^(\d*d\d+)(?:\s+)(.+)$/i`: the dice and the trimmed table name. */
  function NdxMatch(s: string): (o: Option<Ndx>)
    ensures o.Some? ==> Dice.IsValidNotation(o.value.dice)
  {
    var q := DigitRunFrom(s, 0);
    if q < |s| && Dice.IsDieLetter(s[q]) then
      var k := DigitRunFrom(s, q + 1);
      if k >= 1 then
        match Markdown.SpacesThenRest(s, q + 1 + k, 1)
        case Some(rest) =>
          DiceTextValid(s[..q + 1 + k], q);
          Some(Ndx(s[..q + 1 + k], Trim(rest)))
        case None => None
      else None
    else None
  }

  /** `\d*d\d+` is a notation `DiceRoller.roll` accepts. */
  lemma {:induction false} DiceTextValid(t: string, q: nat)
    requires q + 1 < |t| && DigitsBetween(t, 0, q) && Dice.IsDieLetter(t[q]) && DigitsBetween(t, q + 1, |t|)
    ensures Dice.IsValidNotation(t)
  {
    Dice.ParseAnchoredMatchesRegex(t);
    assert Dice.ModifierToEnd(t, |t|);
    assert DigitsBetween(t, q + 1, |t|);
  }

  // ---------------------------------------------------------------------------
  // rolling

  /** The session history only grows: what was recorded stays, in order. */
  predicate Extends(a: Run, b: Run, id: string) {
    GetHistory(a.tracker, id) <= GetHistory(b.tracker, id)
  }

  /** A result of `rollSingle` on the table stored under `table`. */
  predicate RolledOn(v: Value, table: string) {
    v.Obj? && Get(v.fields, "_tableName") == Some(Str(table))
  }

  /** One result per name, in order, each on the table the name resolves to. */
  lemma {:induction false} ConsRolledOn(first: Value, rest: seq<Value>, names: seq<string>, table: string -> string)
    requires |names| == |rest| + 1
    requires RolledOn(first, table(names[0]))
    requires forall i | 0 <= i < |rest| :: RolledOn(rest[i], table(names[1..][i]))
    ensures forall i | 0 <= i < |names| :: RolledOn(([first] + rest)[i], table(names[i]))
  {
    forall i | 0 <= i < |names|
      ensures RolledOn(([first] + rest)[i], table(names[i]))
    {
      if i > 0 {
        assert ([first] + rest)[i] == rest[i - 1];
        assert names[i] == names[1..][i - 1];
      }
    }
  }

  /** `rollSingle(tableName, sessionId, maxAttempts, modifier)`: the loop,
      then the record, then the reroll. */
  function RollSingle(tables: Tables, id: string, run: Run, name: string, maxAttempts: int, modifier: int, fuel: nat): (o: Outcome<Value>)
    ensures fuel == 0 ==> o == Outcome(Err(DepthError), run)
    ensures fuel > 0 && !HasKey(tables, FindTableName(tables, name)) ==>
      o == Outcome(Err("Table \"" + name + "\" not found"), run)
    ensures Extends(run, o.run, id)
    ensures Valid(run.tracker) ==> Valid(o.run.tracker)
    ensures o.result.Ok? ==> RolledOn(o.result.value, FindTableName(tables, name))
    ensures o.result.Ok? ==> |GetHistory(run.tracker, id)| < |GetHistory(o.run.tracker, id)|
    ensures o.result.Ok? ==> GetHistory(o.run.tracker, id)[|GetHistory(run.tracker, id)|].tableName == FindTableName(tables, name)
    decreases fuel, 0, 0
  {
    if fuel == 0 then Outcome(Err(DepthError), run)
    else
      var actual := FindTableName(tables, name);
      match Get(tables, actual)
      case None => Outcome(Err("Table \"" + name + "\" not found"), run)
      case Some(table) =>
        match Retry(table.rows, DiceColumn(table.headers), modifier, run.tracker, id, actual, maxAttempts, 0, run.rng)
        case Err(m) => Outcome(Err(m), run)
        case Ok(d) =>
          var recorded := Run(AddResult(run.tracker, id, actual, Obj(d.value.row)), d.rng);
          HistoryAppends(run.tracker, id, actual, Obj(d.value.row));
          var o := WithRerolls(tables, id, recorded, Put(d.value.row, "_tableName", Str(actual)), maxAttempts, fuel - 1);
          assert GetHistory(recorded.tracker, id)[|GetHistory(run.tracker, id)|].tableName == actual;
          o
  }

  /** The reroll step of `rollSingle`, on the row already recorded and
      stamped with its table name. Nested rolls get no modifier. */
  function WithRerolls(tables: Tables, id: string, run: Run, fields: Record<Value>, maxAttempts: int, fuel: nat): (o: Outcome<Value>)
    ensures RerollOf(fields).None? ==> o == Outcome(Ok(Obj(fields)), run)
    ensures Extends(run, o.run, id)
    ensures Valid(run.tracker) ==> Valid(o.run.tracker)
    ensures o.result.Ok? ==> o.result.value.Obj?
    ensures o.result.Ok? ==> forall k | k != "_rerolls" :: Get(o.result.value.fields, k) == Get(fields, k)
    ensures o.result.Ok? && RerollOf(fields).Some? ==> Get(o.result.value.fields, "_rerolls").Some?
    ensures o.result.Ok? && RerollOf(fields).Some? && NdxMatch(RerollOf(fields).value).Some? ==>
      Get(o.result.value.fields, "_rerolls").value.Arr? &&
      |Get(o.result.value.fields, "_rerolls").value.items| ==
        Clip(Dice.Roll(run.rng, NdxMatch(RerollOf(fields).value).value.dice).value.value)
    decreases fuel, 4, 0
  {
    match RerollOf(fields)
    case None => Outcome(Ok(Obj(fields)), run)
    case Some(s) =>
      match NdxMatch(s)
      case Some(m) =>
        var count := Dice.Roll(run.rng, m.dice).value;
        var o := RepeatRoll(tables, id, Run(run.tracker, count.rng), m.table, Clip(count.value), maxAttempts, fuel);
        if o.result.Ok? then Outcome(Ok(Obj(Put(fields, "_rerolls", Arr(o.result.value)))), o.run)
        else Outcome(Err(o.result.message), o.run)
      case None =>
        var o := RollExpr(tables, id, run, s, maxAttempts, 0, fuel);
        if o.result.Ok? then Outcome(Ok(Obj(Put(fields, "_rerolls", o.result.value))), o.run)
        else Outcome(Err(o.result.message), o.run)
  }

  /** The number of passes of `for (let i = 0; i < count; i++)`. */
  function Clip(count: int): nat {
    if count > 0 then count else 0
  }

  /** `count` rolls of the expression `table`, in order. */
  function RepeatRoll(tables: Tables, id: string, run: Run, table: string, count: nat, maxAttempts: int, fuel: nat): (o: Outcome<seq<Value>>)
    ensures Extends(run, o.run, id)
    ensures Valid(run.tracker) ==> Valid(o.run.tracker)
    ensures o.result.Ok? ==> |o.result.value| == count
    decreases fuel, 3, count
  {
    if count == 0 then Outcome(Ok([]), run)
    else
      var first := RollExpr(tables, id, run, table, maxAttempts, 0, fuel);
      if first.result.Err? then Outcome(Err(first.result.message), first.run)
      else
        var rest := RepeatRoll(tables, id, first.run, table, count - 1, maxAttempts, fuel);
        if rest.result.Err? then Outcome(Err(rest.result.message), rest.run)
        else Outcome(Ok([first.result.value] + rest.result.value), rest.run)
  }

  /** `roll(expression, sessionId, maxAttempts, modifier)`: a comma list
      before a `>` chain before a single name. */
  function RollExpr(tables: Tables, id: string, run: Run, expr: string, maxAttempts: int, modifier: int, fuel: nat): (o: Outcome<Value>)
    ensures Extends(run, o.run, id)
    ensures Valid(run.tracker) ==> Valid(o.run.tracker)
    ensures ',' in expr && o.result.Ok? ==> o.result.value.Arr? && |o.result.value.items| == |Split(expr, ",")|
    ensures ',' !in expr && '>' in expr && o.result.Ok? ==> o.result.value.Obj?
    decreases fuel, 2, 0
  {
    if ',' in expr then
      var o := RollList(tables, id, run, Map(Split(expr, ","), Trim), maxAttempts, modifier, fuel);
      if o.result.Ok? then Outcome(Ok(Arr(o.result.value)), o.run) else Outcome(Err(o.result.message), o.run)
    else if '>' in expr then
      RollChain(tables, id, run, Map(Split(expr, ">"), Trim), None, maxAttempts, modifier, fuel)
    else
      var nm := ParseNameWithModifier(expr);
      RollSingle(tables, id, run, nm.name, maxAttempts, modifier + nm.mod, fuel)
  }

  /** An expression without `,` or `>` is one table name, rolled with the
      outer modifier plus its own. */
  lemma {:induction false} SingleNameRoll(tables: Tables, id: string, run: Run, expr: string, maxAttempts: int, modifier: int, fuel: nat)
    requires ',' !in expr && '>' !in expr
    ensures RollExpr(tables, id, run, expr, maxAttempts, modifier, fuel) ==
      RollSingle(tables, id, run, ParseNameWithModifier(expr).name, maxAttempts, modifier + ParseNameWithModifier(expr).mod, fuel)
  {
  }

  /** The comma branch of `roll`: each segment rolled in order with the
      outer modifier plus its own. */
  function RollList(tables: Tables, id: string, run: Run, parts: seq<string>, maxAttempts: int, modifier: int, fuel: nat): (o: Outcome<seq<Value>>)
    ensures Extends(run, o.run, id)
    ensures Valid(run.tracker) ==> Valid(o.run.tracker)
    ensures o.result.Ok? ==> |o.result.value| == |parts|
    ensures o.result.Ok? ==> forall i | 0 <= i < |parts| :: RolledOn(o.result.value[i], FindTableName(tables, ParseNameWithModifier(parts[i]).name))
    decreases fuel, 1, |parts|
  {
    if |parts| == 0 then Outcome(Ok([]), run)
    else
      var nm := ParseNameWithModifier(parts[0]);
      var first := RollSingle(tables, id, run, nm.name, maxAttempts, modifier + nm.mod, fuel);
      if first.result.Err? then Outcome(Err(first.result.message), first.run)
      else
        var rest := RollList(tables, id, first.run, parts[1..], maxAttempts, modifier, fuel);
        if rest.result.Err? then Outcome(Err(rest.result.message), rest.run)
        else
          ConsRolledOn(first.result.value, rest.result.value, parts, (e: string) => FindTableName(tables, ParseNameWithModifier(e).name));
          Outcome(Ok([first.result.value] + rest.result.value), rest.run)
  }

  /** The `>` branch of `roll`: each result after the first carries the one
      before it as `_chain`, and the last is returned. */
  function RollChain(tables: Tables, id: string, run: Run, parts: seq<string>, prev: Option<Value>,
                     maxAttempts: int, modifier: int, fuel: nat): (o: Outcome<Value>)
    requires |parts| > 0
    ensures Extends(run, o.run, id)
    ensures Valid(run.tracker) ==> Valid(o.run.tracker)
    ensures o.result.Ok? ==> o.result.value.Obj?
    ensures o.result.Ok? ==> RolledOn(o.result.value, FindTableName(tables, ParseNameWithModifier(parts[|parts| - 1]).name))
    ensures o.result.Ok? && |parts| == 1 && prev.Some? ==> Get(o.result.value.fields, "_chain") == prev
    ensures o.result.Ok? && |parts| > 1 ==> Get(o.result.value.fields, "_chain").Some?
    ensures o.result.Ok? && |parts| > 1 ==>
      RolledOn(Get(o.result.value.fields, "_chain").value, FindTableName(tables, ParseNameWithModifier(parts[|parts| - 2]).name))
    decreases fuel, 1, |parts|
  {
    var nm := ParseNameWithModifier(parts[0]);
    var first := RollSingle(tables, id, run, nm.name, maxAttempts, modifier + nm.mod, fuel);
    if first.result.Err? then Outcome(Err(first.result.message), first.run)
    else
      var linked := Link(first.result.value, prev);
      if |parts| == 1 then Outcome(Ok(linked), first.run)
      else
        TailEnds(parts);
        RollChain(tables, id, first.run, parts[1..], Some(linked), maxAttempts, modifier, fuel)
  }

  /** `a > b`: the result is `b`'s, carrying `a`'s result as `_chain`. */
  lemma {:induction false} ChainOfTwo(tables: Tables, id: string, run: Run, parts: seq<string>,
                                      maxAttempts: int, modifier: int, fuel: nat)
    requires |parts| == 2
    ensures var o := RollChain(tables, id, run, parts, None, maxAttempts, modifier, fuel);
      var nm := ParseNameWithModifier(parts[0]);
      var first := RollSingle(tables, id, run, nm.name, maxAttempts, modifier + nm.mod, fuel);
      o.result.Ok? ==> first.result.Ok? && Get(o.result.value.fields, "_chain") == Some(first.result.value)
  {
    ChainStep(tables, id, run, parts, None, maxAttempts, modifier, fuel);
  }

  /** One segment of the chain: the first is rolled and linked to `prev`;
      the chain stops there or goes on with it as the new `prev`. */
  lemma {:induction false} ChainStep(tables: Tables, id: string, run: Run, parts: seq<string>, prev: Option<Value>,
                                     maxAttempts: int, modifier: int, fuel: nat)
    requires |parts| > 0
    ensures var nm := ParseNameWithModifier(parts[0]);
      var first := RollSingle(tables, id, run, nm.name, maxAttempts, modifier + nm.mod, fuel);
      var o := RollChain(tables, id, run, parts, prev, maxAttempts, modifier, fuel);
      if first.result.Err? then o.result.Err?
      else if |parts| == 1 then o == Outcome(Ok(Link(first.result.value, prev)), first.run)
      else o == RollChain(tables, id, first.run, parts[1..], Some(Link(first.result.value, prev)), maxAttempts, modifier, fuel)
  {
  }

  /** The last two elements of a sequence are the last two of its tail. */
  lemma {:induction false} TailEnds<T>(s: seq<T>)
    requires |s| > 1
    ensures s[1..][|s| - 2] == s[|s| - 1]
    ensures |s| > 2 ==> s[1..][|s| - 3] == s[|s| - 2]
  {
  }

  /** `if (result) rollResult._chain = result`: the result before, if any,
      linked into this one; every other field is kept. */
  function Link(v: Value, prev: Option<Value>): (w: Value)
    requires v.Obj?
    ensures w.Obj?
    ensures prev.None? ==> w == v
    ensures prev.Some? ==> Get(w.fields, "_chain") == prev
    ensures forall k | k != "_chain" :: Get(w.fields, k) == Get(v.fields, k)
  {
    if prev.Some? then Obj(Put(v.fields, "_chain", prev.value)) else v
  }

  /** `rollSequence(tableNames, sessionId, modifier)`: each name rolled as
      given, with the default attempts and no modifier suffix. */
  function RollSequence(tables: Tables, id: string, run: Run, names: seq<string>, modifier: int, fuel: nat): (o: Outcome<seq<Value>>)
    ensures Extends(run, o.run, id)
    ensures o.result.Ok? ==> |o.result.value| == |names|
    ensures o.result.Ok? ==> forall i | 0 <= i < |names| :: RolledOn(o.result.value[i], FindTableName(tables, names[i]))
    decreases |names|
  {
    if |names| == 0 then Outcome(Ok([]), run)
    else
      var first := RollSingle(tables, id, run, names[0], DefaultMaxAttempts, modifier, fuel);
      if first.result.Err? then Outcome(Err(first.result.message), first.run)
      else
        var rest := RollSequence(tables, id, first.run, names[1..], modifier, fuel);
        if rest.result.Err? then Outcome(Err(rest.result.message), rest.run)
        else
          ConsRolledOn(first.result.value, rest.result.value, names, (n: string) => FindTableName(tables, n));
          Outcome(Ok([first.result.value] + rest.result.value), rest.run)
  }
}
