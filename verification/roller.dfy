/** `TableRollerCore` of src/services/TableRollerCore.ts: the registry of
    loaded tables, name lookup with namespaces, and rolling, including the
    rerolls an entry or a whole table asks for. A roll reads draws from the
    oracle and returns it advanced; the dice roller of
    src/services/DiceRoller.ts is not part of this model and enters as a
    parameter. */
module Roller {
  import opened Outcomes
  import opened Strings
  import opened Records
  import opened Seqs
  import opened Random
  import opened Tables
  import opened TableParser

  /** A registry value: `{ table, namespace }`. */
  datatype Registered = Registered(table: Table, namespace: string)

  /** `Map<string, { table, namespace }>`, in insertion order. */
  type Registry = Record<Registered>

  /** The name under which a table is reachable from other files. */
  function FullName(namespace: string, name: string): string {
    namespace + "." + name
  }

  // ---------------------------------------------------------------------------
  // loading

  /** One table of `loadTableFromFile`: stored under its short name, then under its full name. */
  function RegisterOne(reg: Registry, name: string, t: Table, namespace: string): (reg': Registry)
    ensures UniqueKeys(reg) ==> UniqueKeys(reg')
    ensures Get(reg', FullName(namespace, name)) == Some(Registered(t, namespace))
    ensures Get(reg', name) == Some(Registered(t, namespace))
    ensures forall k | k != name && k != FullName(namespace, name) :: Get(reg', k) == Get(reg, k)
  {
    Put(Put(reg, name, Registered(t, namespace)), FullName(namespace, name), Registered(t, namespace))
  }

  /** The loop of `loadTableFromFile`: every table under its short and its full name. */
  function RegisterAll(reg: Registry, tables: Record<Table>, namespace: string): (reg': Registry)
    ensures UniqueKeys(reg) ==> UniqueKeys(reg')
    decreases |tables|
  {
    if |tables| == 0 then reg
    else RegisterAll(RegisterOne(reg, tables[0].0, tables[0].1, namespace), tables[1..], namespace)
  }

  /** Loading a file never removes a name. */
  lemma {:induction false} RegisterAllKeeps(reg: Registry, tables: Record<Table>, namespace: string, k: string)
    requires Get(reg, k).Some?
    ensures Get(RegisterAll(reg, tables, namespace), k).Some?
    decreases |tables|
  {
    if |tables| > 0 {
      RegisterAllKeeps(RegisterOne(reg, tables[0].0, tables[0].1, namespace), tables[1..], namespace, k);
    }
  }

  /** Loading a non-empty list of tables registers the first, then the rest. */
  lemma {:induction false} RegisterAllCons(reg: Registry, tables: Record<Table>, namespace: string)
    requires |tables| > 0
    ensures RegisterAll(reg, tables, namespace)
         == RegisterAll(RegisterOne(reg, tables[0].0, tables[0].1, namespace), tables[1..], namespace)
  {
  }

  /** After loading a file, each of its tables is reachable by its short and by its full name. */
  lemma {:induction false} RegisterAllReachable(reg: Registry, tables: Record<Table>, namespace: string, i: nat)
    requires i < |tables|
    ensures Get(RegisterAll(reg, tables, namespace), tables[i].0).Some?
    ensures Get(RegisterAll(reg, tables, namespace), FullName(namespace, tables[i].0)).Some?
  {
    ReachableAs(reg, tables, namespace, i, false);
    ReachableAs(reg, tables, namespace, i, true);
  }

  /** The short name, or with `full` the full name, under which a table is stored. */
  function KeyOf(namespace: string, full: bool, name: string): string {
    if full then FullName(namespace, name) else name
  }

  /** Each loaded table is registered under the key `KeyOf` gives. */
  lemma {:induction false} ReachableAs(reg: Registry, tables: Record<Table>, namespace: string, i: nat, full: bool)
    requires i < |tables|
    ensures Get(RegisterAll(reg, tables, namespace), KeyOf(namespace, full, tables[i].0)).Some?
    decreases i, 2
  {
    if i == 0 {
      ReachableFirst(reg, tables, namespace, KeyOf(namespace, full, tables[0].0));
    } else {
      ReachableLater(reg, tables, namespace, i, full);
    }
  }

  /** A table after the first is registered by the rest of the file. */
  lemma {:induction false} ReachableLater(reg: Registry, tables: Record<Table>, namespace: string, i: nat, full: bool)
    requires 0 < i < |tables|
    ensures Get(RegisterAll(reg, tables, namespace), KeyOf(namespace, full, tables[i].0)).Some?
    decreases i, 1
  {
    ReachableInRest(RegisterOne(reg, tables[0].0, tables[0].1, namespace), tables, namespace, i, full);
    ReachableStep(reg, tables, namespace, KeyOf(namespace, full, tables[i].0));
  }

  /** Loading the rest of a file, from any registry, registers each of its tables. */
  lemma {:induction false} ReachableInRest(reg: Registry, tables: Record<Table>, namespace: string, i: nat, full: bool)
    requires 0 < i < |tables|
    ensures Get(RegisterAll(reg, tables[1..], namespace), KeyOf(namespace, full, tables[i].0)).Some?
    decreases i, 0
  {
    assert tables[1..][i - 1] == tables[i];
    ReachableAs(reg, tables[1..], namespace, i - 1, full);
  }

  /** A key the rest of a file registers is registered by the whole file. */
  lemma {:induction false} ReachableStep(reg: Registry, tables: Record<Table>, namespace: string, k: string)
    requires |tables| > 0
    requires Get(RegisterAll(RegisterOne(reg, tables[0].0, tables[0].1, namespace), tables[1..], namespace), k).Some?
    ensures Get(RegisterAll(reg, tables, namespace), k).Some?
  {
    RegisterAllCons(reg, tables, namespace);
  }

  /** The first table of a file is registered under its short and its full name. */
  lemma {:induction false} ReachableFirst(reg: Registry, tables: Record<Table>, namespace: string, k: string)
    requires |tables| > 0
    requires k == tables[0].0 || k == FullName(namespace, tables[0].0)
    ensures Get(RegisterAll(reg, tables, namespace), k).Some?
  {
    var reg1 := RegisterOne(reg, tables[0].0, tables[0].1, namespace);
    RegisterAllCons(reg, tables, namespace);
    RegisterAllKeeps(reg1, tables[1..], namespace, k);
  }

  /** Every value a file adds or replaces carries the file's namespace. */
  lemma {:induction false} RegisterAllNamespace(reg: Registry, tables: Record<Table>, namespace: string, k: string)
    requires Get(RegisterAll(reg, tables, namespace), k) != Get(reg, k)
    ensures Get(RegisterAll(reg, tables, namespace), k).Some?
    ensures Get(RegisterAll(reg, tables, namespace), k).value.namespace == namespace
    decreases |tables|
  {
    if |tables| > 0 {
      var reg1 := RegisterOne(reg, tables[0].0, tables[0].1, namespace);
      if Get(RegisterAll(reg1, tables[1..], namespace), k) != Get(reg1, k) {
        RegisterAllNamespace(reg1, tables[1..], namespace, k);
      }
    }
  }

  /** `loadTableFromFile`: a file without `table-roller: true` adds nothing. */
  function LoadFile(reg: Registry, basename: string, content: string): (reg': Registry)
    ensures !ParseTables(content, basename).isTableFile ==> reg' == reg
    ensures ParseTables(content, basename).isTableFile ==>
      reg' == RegisterAll(reg, ParseTables(content, basename).tables, basename)
  {
    var parsed := ParseTables(content, basename);
    if parsed.isTableFile then RegisterAll(reg, parsed.tables, basename) else reg
  }

  /** `loadTables`: the registry is cleared, then every file is read in order. */
  function LoadTables(files: seq<(string, string)>): (reg: Registry)
    ensures UniqueKeys(reg)
  {
    LoadFrom([], files)
  }

  function LoadFrom(reg: Registry, files: seq<(string, string)>): (reg': Registry)
    ensures UniqueKeys(reg) ==> UniqueKeys(reg')
    decreases |files|
  {
    if |files| == 0 then reg else LoadFrom(LoadFile(reg, files[0].0, files[0].1), files[1..])
  }

  // ---------------------------------------------------------------------------
  // table names

  /** Strictly increasing in code-unit order, hence without repeats. */
  predicate Sorted(s: seq<string>) {
    forall i, j | 0 <= i < j < |s| :: Less(s[i], s[j])
  }

  /** Adding one name to a sorted list of names. */
  function InsertSorted(s: seq<string>, x: string): (r: seq<string>)
    requires Sorted(s)
    ensures Sorted(r)
    ensures forall y :: y in r <==> y in s || y == x
    decreases |s|
  {
    if |s| == 0 then [x]
    else if x == s[0] then s
    else if Less(x, s[0]) then
      assert forall j | 0 <= j < |s| :: Less(x, s[j]) by {
        forall j | 0 < j < |s| ensures Less(x, s[j]) {
          LessTransitive(x, s[0], s[j]);
        }
      }
      [x] + s
    else
      var rest := InsertSorted(s[1..], x);
      assert Less(s[0], x) by {
        LessTotal(x, s[0]);
      }
      assert forall y | y in rest :: Less(s[0], y) by {
        assert forall y | y in s[1..] :: Less(s[0], y);
      }
      [s[0]] + rest
  }

  /** The keys without a dot, sorted, from the keys `ks`. */
  function SortedShortNames(ks: seq<string>): (r: seq<string>)
    ensures Sorted(r)
    ensures forall k :: k in r <==> k in ks && '.' !in k
    decreases |ks|
  {
    if |ks| == 0 then []
    else
      var rest := SortedShortNames(ks[1..]);
      assert forall k :: k in ks <==> k == ks[0] || k in ks[1..];
      if '.' in ks[0] then rest else InsertSorted(rest, ks[0])
  }

  /** `getTableNames`: the names without a dot, each once, in sorted order. */
  function TableNames(reg: Registry): (names: seq<string>)
    ensures Sorted(names)
    ensures forall k :: k in names <==> k in KeysOf(reg) && '.' !in k
  {
    SortedShortNames(KeysOf(reg))
  }

  // ---------------------------------------------------------------------------
  // lookup

  /** `findTable`: the exact name, then the name inside the context
      namespace when it has no dot, then the first key equal ignoring case. */
  function FindTable(reg: Registry, name: string, context: Option<string>): (o: Option<Registered>)
    ensures HasKey(reg, name) ==> o == Get(reg, name)
    ensures !HasKey(reg, name) && Truthy(context) && '.' !in name && HasKey(reg, FullName(context.value, name)) ==>
      o == Get(reg, FullName(context.value, name))
    ensures o.None? ==> !HasKey(reg, name) && forall i | 0 <= i < |reg| :: !EqualsIgnoreCase(reg[i].0, name)
  {
    match Get(reg, name)
    case Some(r) => Some(r)
    case None =>
      var scoped := if Truthy(context) && '.' !in name then Get(reg, FullName(context.value, name)) else None;
      if scoped.Some? then scoped
      else
        match FirstWhere(reg, (e: (string, Registered)) => EqualsIgnoreCase(e.0, name))
        case Some(i) => Some(reg[i].1)
        case None => None
  }

  /** Failing the first two steps, the first key equal ignoring case in insertion order decides. */
  lemma {:induction false} FindTableIgnoringCase(reg: Registry, name: string, context: Option<string>, i: nat)
    requires !HasKey(reg, name)
    requires !(Truthy(context) && '.' !in name && HasKey(reg, FullName(context.value, name)))
    requires i < |reg| && EqualsIgnoreCase(reg[i].0, name)
    requires forall j | 0 <= j < i :: !EqualsIgnoreCase(reg[j].0, name)
    ensures FindTable(reg, name, context) == Some(reg[i].1)
  {
    FirstWhereFirst(reg, (e: (string, Registered)) => EqualsIgnoreCase(e.0, name), i);
  }

  // ---------------------------------------------------------------------------
  // rolling

  /** `Math.max(lo, Math.min(hi, v))`. */
  function Clamp(lo: int, hi: int, v: int): (r: int)
    ensures lo <= r
    ensures lo <= hi ==> r <= hi
    ensures lo <= v <= hi ==> r == v
    ensures v < lo ==> r == lo
    ensures lo <= hi < v ==> r == hi
  {
    var m := if v < hi then v else hi;
    if m < lo then lo else m
  }

  /** `Math.min(...entries.map(e => e.min))` over entries that exist. */
  function LowestMin(entries: seq<DiceEntry>): (m: int)
    requires |entries| > 0
    ensures forall i | 0 <= i < |entries| :: m <= entries[i].min
    ensures exists i | 0 <= i < |entries| :: m == entries[i].min
  {
    if |entries| == 1 then entries[0].min
    else
      var rest := LowestMin(entries[1..]);
      assert forall i | 1 <= i < |entries| :: entries[i] == entries[1..][i - 1];
      if entries[0].min < rest then entries[0].min else rest
  }

  /** `Math.max(...entries.map(e => e.max))` over entries that exist. */
  function HighestMax(entries: seq<DiceEntry>): (m: int)
    requires |entries| > 0
    ensures forall i | 0 <= i < |entries| :: entries[i].max <= m
    ensures exists i | 0 <= i < |entries| :: m == entries[i].max
  {
    if |entries| == 1 then entries[0].max
    else
      var rest := HighestMax(entries[1..]);
      assert forall i | 1 <= i < |entries| :: entries[i] == entries[1..][i - 1];
      if entries[0].max > rest then entries[0].max else rest
  }

  /** The text of `Object.entries(undefined)` failing, when a simple table has no rows. */
  const NoRowError: string := "Cannot convert undefined or null to object"

  /** `**key:** value` for one cell. */
  function CellLine(cell: (string, string)): string {
    "**" + cell.0 + ":** " + cell.1
  }

  /** The test a cell passes to be listed: its value is not blank after `trim`. */
  function NonBlankCell(): ((string, string)) -> bool {
    (c: (string, string)) => !IsBlank(c.1)
  }

  /** The lines of a simple-table result: one per non-blank cell, in column order. */
  function RowLines(row: Record<string>): (lines: seq<string>)
    ensures |lines| <= |row|
    ensures forall i | 0 <= i < |row| :: !IsBlank(row[i].1) ==> CellLine(row[i]) in lines
    ensures forall i | 0 <= i < |lines| :: exists c | c in row :: !IsBlank(c.1) && lines[i] == CellLine(c)
  {
    var shown := Filter(row, NonBlankCell());
    SubseqLength(shown, row);
    Map(shown, CellLine)
  }

  /** The lines are the non-blank cells, in column order and each as often
      as it occurs, each written as `**key:** value`. */
  lemma {:induction false} RowLinesInOrder(row: Record<string>)
    ensures exists shown :: Filtered(shown, row, NonBlankCell()) && RowLines(row) == Map(shown, CellLine)
  {
    var shown := Filter(row, NonBlankCell());
    assert Filtered(shown, row, NonBlankCell()) && RowLines(row) == Map(shown, CellLine);
  }

  /** `rollSimpleTable`: one draw picks the row; the result lists its non-blank cells. */
  function RollSimpleTable(name: string, t: Table, namespace: string, g: Rng): (d: Drawn<Result<RollResult>>)
    requires t.SimpleTable?
    ensures d.rng == g.Advance(1)
    ensures d.value.Err? <==> |t.rows| == 0
    ensures d.value.Ok? ==> d.value.value.tableName == name && d.value.value.namespace == Some(namespace)
    ensures d.value.Ok? ==> d.value.value.roll.None? && d.value.value.nestedRolls.None?
    ensures d.value.Ok? ==> d.value.value.result == Join(RowLines(t.rows[Pick(g.Next(), |t.rows|)]), "\n")
  {
    var k := PickNext(g, |t.rows|);
    if |t.rows| == 0 then Drawn(Err(NoRowError), k.rng)
    else Drawn(Ok(RollResult(name, Some(namespace), None, Join(RowLines(t.rows[k.value]), "\n"), None, None)), k.rng)
  }

  /** `reroll.split(',').map(t => t.trim()).filter(t => t)`. */
  function RerollNames(s: string): (names: seq<string>)
    ensures forall i | 0 <= i < |names| :: names[i] != "" && names[i] in Map(Split(s, ","), Trim)
    ensures Filtered(names, Map(Split(s, ","), Trim), NonEmptyText)
  {
    Filter(Map(Split(s, ","), Trim), NonEmptyText)
  }

  /** A successful dice roll landed on the first entry covering the roll and copied its text. */
  predicate EntryRolled(entries: seq<DiceEntry>, r: RollResult) {
    r.roll.Some? && FindEntry(entries, r.roll.value).Some?
      && r.result == entries[FindEntry(entries, r.roll.value).value].result
      && r.details == entries[FindEntry(entries, r.roll.value).value].details
  }

  /** The table names of a list of results. */
  function NamesOf(rs: seq<RollResult>): (ns: seq<string>)
    ensures |ns| == |rs|
  {
    Map(rs, (r: RollResult) => r.tableName)
  }

  /** `rollOnTable`: roll by the table's kind, then append the table's own
      rerolls. A run of rerolls deeper than `fuel` fails like a stack overflow. */
  function RollOnTable(reg: Registry, name: string, t: Table, namespace: string, modifier: int,
                       roller: DiceRoll, g: Rng, fuel: nat): (d: Drawn<Result<RollResult>>)
    ensures d.value.Ok? ==> d.value.value.tableName == name && d.value.value.namespace == Some(namespace)
    ensures d.value.Ok? && t.DiceTable? ==> EntryRolled(t.entries, d.value.value)
    ensures d.value.Ok? && t.SimpleTable? ==> d.value.value.roll.None?
    ensures d.value.Ok? && t.DiceTable? ==> RolledWith(d.value.value, t, roller, g, modifier)
    ensures fuel == 0 ==> d == Drawn(Err(DepthError), g)
    decreases fuel, 0, 0
  {
    if fuel == 0 then Drawn(Err(DepthError), g)
    else
      var d := if t.DiceTable? then RollDiceTable(reg, name, t, namespace, modifier, roller, g, fuel - 1)
               else RollSimpleTable(name, t, namespace, g);
      match d.value
      case Err(_) => d
      case Ok(r) =>
        if Truthy(t.reroll) then
          var more := ResolveRerolls(reg, RerollNames(t.reroll.value), namespace, modifier, roller, d.rng, fuel - 1);
          Drawn(Ok(r.(nestedRolls := Some(r.nestedRolls.GetOr([]) + more.value))), more.rng)
        else d
  }

  /** A result of dice table `t` whose roll value is the total `roller`
      draws from `h` plus `modifier`, clamped to the entries. */
  predicate RolledWith(x: RollResult, t: Table, roller: DiceRoll, h: Rng, modifier: int)
    requires t.DiceTable?
  {
    |t.entries| > 0 && roller(h, t.dice).value.Ok?
    && x.roll == Some(ClampedRoll(t.entries, roller(h, t.dice).value.value + modifier))
  }

  /** The roll value of a non-empty dice table: clamped to the span of its entries. */
  function ClampedRoll(entries: seq<DiceEntry>, total: int): (v: int)
    requires |entries| > 0
    ensures LowestMin(entries) <= v
    ensures LowestMin(entries) <= HighestMax(entries) ==> v <= HighestMax(entries)
    ensures LowestMin(entries) <= total <= HighestMax(entries) ==> v == total
  {
    Clamp(LowestMin(entries), HighestMax(entries), total)
  }

  /** The entry a roll total selects, or the error `rollDiceTable` throws. An
      empty table clamps to `Infinity`, which no entry covers. */
  function PickEntry(entries: seq<DiceEntry>, total: int, name: string): (r: Result<nat>)
    ensures |entries| == 0 ==> r == Err("No entry found for roll Infinity on table " + name)
    ensures r.Ok? ==> |entries| > 0 && FindEntry(entries, ClampedRoll(entries, total)) == Some(r.value)
    ensures |entries| > 0 && FindEntry(entries, ClampedRoll(entries, total)).None? ==>
      r == Err("No entry found for roll " + IntToString(ClampedRoll(entries, total)) + " on table " + name)
  {
    if |entries| == 0 then Err("No entry found for roll Infinity on table " + name)
    else
      var v := ClampedRoll(entries, total);
      match FindEntry(entries, v)
      case None => Err("No entry found for roll " + IntToString(v) + " on table " + name)
      case Some(i) => Ok(i)
  }

  /** The entry a roll total selects and the result it reads, before any
      rerolls are added. */
  function PickResult(entries: seq<DiceEntry>, total: int, name: string, namespace: string): (r: Result<(nat, RollResult)>)
    ensures PickEntry(entries, total, name).Err? ==> r == Err(PickEntry(entries, total, name).message)
    ensures r.Ok? ==> |entries| > 0 && r.value.0 < |entries| && PickEntry(entries, total, name) == Ok(r.value.0)
    ensures r.Ok? ==> r.value.1.roll == Some(ClampedRoll(entries, total)) && EntryRolled(entries, r.value.1)
    ensures r.Ok? ==> r.value.1.tableName == name && r.value.1.namespace == Some(namespace)
  {
    match PickEntry(entries, total, name)
    case Err(m) => Err(m)
    case Ok(i) =>
      Ok((i, RollResult(name, Some(namespace), Some(ClampedRoll(entries, total)), entries[i].result, entries[i].details, None)))
  }

  /** `rollDiceTable`: the dice roll plus the modifier, clamped to the range
      the entries span, selects the first entry covering it. */
  function RollDiceTable(reg: Registry, name: string, t: Table, namespace: string, modifier: int,
                         roller: DiceRoll, g: Rng, fuel: nat): (d: Drawn<Result<RollResult>>)
    requires t.DiceTable?
    ensures roller(g, t.dice).value.Err? ==> d == Drawn(Err(roller(g, t.dice).value.message), roller(g, t.dice).rng)
    ensures roller(g, t.dice).value.Ok? && PickEntry(t.entries, roller(g, t.dice).value.value + modifier, name).Err? ==>
      d == Drawn(Err(PickEntry(t.entries, roller(g, t.dice).value.value + modifier, name).message), roller(g, t.dice).rng)
    ensures d.value.Ok? ==> |t.entries| > 0 && roller(g, t.dice).value.Ok?
    ensures d.value.Ok? ==> d.value.value.roll == Some(ClampedRoll(t.entries, roller(g, t.dice).value.value + modifier))
    ensures d.value.Ok? ==> EntryRolled(t.entries, d.value.value)
    ensures d.value.Ok? ==> d.value.value.tableName == name && d.value.value.namespace == Some(namespace)
    decreases fuel, 4, 0
  {
    var base := roller(g, t.dice);
    match base.value
    case Err(m) => Drawn(Err(m), base.rng)
    case Ok(b) => RollTotal(reg, name, t.entries, namespace, modifier, roller, b + modifier, base.rng, fuel)
  }

  /** A dice table once its total is known: the entry the clamped total
      selects, with the rerolls that entry names. */
  function RollTotal(reg: Registry, name: string, entries: seq<DiceEntry>, namespace: string, modifier: int,
                     roller: DiceRoll, total: int, g: Rng, fuel: nat): (d: Drawn<Result<RollResult>>)
    ensures PickEntry(entries, total, name).Err? ==> d == Drawn(Err(PickEntry(entries, total, name).message), g)
    ensures d.value.Ok? ==> |entries| > 0 && d.value.value.roll == Some(ClampedRoll(entries, total))
    ensures d.value.Ok? ==> EntryRolled(entries, d.value.value)
    ensures d.value.Ok? ==> d.value.value.tableName == name && d.value.value.namespace == Some(namespace)
    ensures d.value.Ok? && d.value.value.nestedRolls.Some? ==>
      (var e := entries[FindEntry(entries, d.value.value.roll.value).value];
       Truthy(e.reroll) && IsSubseq(NamesOf(d.value.value.nestedRolls.value), RerollNames(e.reroll.value)))
    decreases fuel, 3, 0
  {
    match PickResult(entries, total, name, namespace)
    case Err(m) => Drawn(Err(m), g)
    case Ok((i, r)) =>
      var more := EntryRerolls(reg, entries[i], namespace, modifier, roller, g, fuel);
      Drawn(Ok(r.(nestedRolls := more.value)), more.rng)
  }

  /** The rerolls the selected entry asks for, if it names any; without
      them no draw is read. */
  function EntryRerolls(reg: Registry, e: DiceEntry, namespace: string, modifier: int,
                        roller: DiceRoll, g: Rng, fuel: nat): (d: Drawn<Option<seq<RollResult>>>)
    ensures d.value.Some? <==> Truthy(e.reroll)
    ensures d.value.None? ==> d.rng == g
    ensures d.value.Some? ==> IsSubseq(NamesOf(d.value.value), RerollNames(e.reroll.value))
    decreases fuel, 2, 0
  {
    if Truthy(e.reroll) then
      var more := ResolveRerolls(reg, RerollNames(e.reroll.value), namespace, modifier, roller, g, fuel);
      Drawn(Some(more.value), more.rng)
    else Drawn(None, g)
  }

  /** `resolveRerolls`: each name that resolves is rolled; a failing roll and
      an unknown name are skipped, the draws a failing roll read stay read. */
  function ResolveRerolls(reg: Registry, names: seq<string>, context: string, modifier: int,
                          roller: DiceRoll, g: Rng, fuel: nat): (d: Drawn<seq<RollResult>>)
    ensures IsSubseq(NamesOf(d.value), names)
    ensures |d.value| <= |names|
    ensures fuel == 0 ==> d.value == []
    decreases fuel, 1, |names|
  {
    if |names| == 0 then Drawn([], g)
    else
      match FindTable(reg, names[0], Some(context))
      case None =>
        var rest := ResolveRerolls(reg, names[1..], context, modifier, roller, g, fuel);
        SkipHead(NamesOf(rest.value), names);
        rest
      case Some(found) =>
        var one := RollOnTable(reg, names[0], found.table, found.namespace, modifier, roller, g, fuel);
        var rest := ResolveRerolls(reg, names[1..], context, modifier, roller, one.rng, fuel);
        if one.value.Ok? then
          var all := [one.value.value] + rest.value;
          assert NamesOf(all)[1..] == NamesOf(rest.value);
          Drawn(all, rest.rng)
        else
          SkipHead(NamesOf(rest.value), names);
          rest
  }

  /** Every name of the list resolves and rolls without error on the draws it meets. */
  predicate AllRoll(reg: Registry, names: seq<string>, context: string, modifier: int,
                    roller: DiceRoll, g: Rng, fuel: nat)
    decreases |names|
  {
    |names| == 0 ||
      (FindTable(reg, names[0], Some(context)).Some? &&
       var found := FindTable(reg, names[0], Some(context)).value;
       var one := RollOnTable(reg, names[0], found.table, found.namespace, modifier, roller, g, fuel);
       one.value.Ok? && AllRoll(reg, names[1..], context, modifier, roller, one.rng, fuel))
  }

  /** The draws the `k`-th name meets: those the rolls on the names before
      it leave, a name that resolves to no table reading none. */
  function DrawsBefore(reg: Registry, names: seq<string>, context: string, modifier: int,
                       roller: DiceRoll, g: Rng, fuel: nat, k: nat): Rng
    decreases k
  {
    if k == 0 || |names| == 0 then g
    else
      match FindTable(reg, names[0], Some(context))
      case None => DrawsBefore(reg, names[1..], context, modifier, roller, g, fuel, k - 1)
      case Some(found) =>
        var one := RollOnTable(reg, names[0], found.table, found.namespace, modifier, roller, g, fuel);
        DrawsBefore(reg, names[1..], context, modifier, roller, one.rng, fuel, k - 1)
  }

  /** The roll on the table a name resolves to, with the caller's modifier,
      on the draws `h`. */
  function NameRoll(reg: Registry, name: string, context: string, modifier: int,
                    roller: DiceRoll, h: Rng, fuel: nat): Drawn<Result<RollResult>>
    requires FindTable(reg, name, Some(context)).Some?
  {
    var found := FindTable(reg, name, Some(context)).value;
    RollOnTable(reg, name, found.table, found.namespace, modifier, roller, h, fuel)
  }

  /** One step of `resolveRerolls` on a name that resolves. */
  lemma {:induction false} ResolveRerollsCons(reg: Registry, names: seq<string>, context: string, modifier: int,
                                              roller: DiceRoll, g: Rng, fuel: nat)
    requires |names| > 0 && FindTable(reg, names[0], Some(context)).Some?
    ensures var found := FindTable(reg, names[0], Some(context)).value;
      var one := RollOnTable(reg, names[0], found.table, found.namespace, modifier, roller, g, fuel);
      var rest := ResolveRerolls(reg, names[1..], context, modifier, roller, one.rng, fuel);
      one.value.Ok? ==> ResolveRerolls(reg, names, context, modifier, roller, g, fuel).value == [one.value.value] + rest.value
  {
  }

  /** Past a name that resolves, the later names' draws are those its roll leaves. */
  lemma {:induction false} DrawsBeforeStep(reg: Registry, names: seq<string>, context: string, modifier: int,
                                           roller: DiceRoll, g: Rng, fuel: nat, k: nat)
    requires 0 < k && 0 < |names| && FindTable(reg, names[0], Some(context)).Some?
    ensures var found := FindTable(reg, names[0], Some(context)).value;
      var one := RollOnTable(reg, names[0], found.table, found.namespace, modifier, roller, g, fuel);
      DrawsBefore(reg, names, context, modifier, roller, g, fuel, k)
        == DrawsBefore(reg, names[1..], context, modifier, roller, one.rng, fuel, k - 1)
  {
  }

  /** When every name resolves and rolls, `resolveRerolls` returns one roll
      per name, in order: the `k`-th is the roll on the `k`-th name's table
      with the same modifier, on the draws the rolls before it leave. */
  lemma {:induction false} ResolveRerollsEach(reg: Registry, names: seq<string>, context: string, modifier: int,
                                              roller: DiceRoll, g: Rng, fuel: nat)
    requires AllRoll(reg, names, context, modifier, roller, g, fuel)
    ensures |ResolveRerolls(reg, names, context, modifier, roller, g, fuel).value| == |names|
    ensures forall k | 0 <= k < |names| ::
      FindTable(reg, names[k], Some(context)).Some?
      && NameRoll(reg, names[k], context, modifier, roller,
                  DrawsBefore(reg, names, context, modifier, roller, g, fuel, k), fuel).value
         == Ok(ResolveRerolls(reg, names, context, modifier, roller, g, fuel).value[k])
    decreases |names|
  {
    if |names| > 0 {
      var found := FindTable(reg, names[0], Some(context)).value;
      var one := RollOnTable(reg, names[0], found.table, found.namespace, modifier, roller, g, fuel);
      var tail := names[1..];
      ResolveRerollsEach(reg, tail, context, modifier, roller, one.rng, fuel);
      var rest := ResolveRerolls(reg, tail, context, modifier, roller, one.rng, fuel);
      ResolveRerollsCons(reg, names, context, modifier, roller, g, fuel);
      var d := [one.value.value] + rest.value;
      forall k | 0 <= k < |names|
        ensures FindTable(reg, names[k], Some(context)).Some?
        ensures NameRoll(reg, names[k], context, modifier, roller,
                         DrawsBefore(reg, names, context, modifier, roller, g, fuel, k), fuel).value == Ok(d[k])
      {
        if k > 0 {
          assert names[k] == tail[k - 1];
          DrawsBeforeStep(reg, names, context, modifier, roller, g, fuel, k);
          assert d[k] == rest.value[k - 1];
        }
      }
    }
  }

  /** When every name resolves and rolls, `resolveRerolls` returns one roll
      per name, each under the name it was asked for, in order. */
  lemma {:induction false} ResolveRerollsComplete(reg: Registry, names: seq<string>, context: string, modifier: int,
                                                  roller: DiceRoll, g: Rng, fuel: nat)
    requires AllRoll(reg, names, context, modifier, roller, g, fuel)
    ensures NamesOf(ResolveRerolls(reg, names, context, modifier, roller, g, fuel).value) == names
  {
    var d := ResolveRerolls(reg, names, context, modifier, roller, g, fuel);
    ResolveRerollsEach(reg, names, context, modifier, roller, g, fuel);
    forall k | 0 <= k < |names| ensures NamesOf(d.value)[k] == names[k] {
      var h := DrawsBefore(reg, names, context, modifier, roller, g, fuel, k);
      assert NameRoll(reg, names[k], context, modifier, roller, h, fuel).value == Ok(d.value[k]);
    }
  }

  /** Every nested roll on a dice table gets the caller's modifier: its roll
      value is the dice total plus that modifier, clamped to the entries. */
  lemma {:induction false} NestedRollsSameModifier(reg: Registry, names: seq<string>, context: string, modifier: int,
                                                   roller: DiceRoll, g: Rng, fuel: nat, k: nat)
    requires AllRoll(reg, names, context, modifier, roller, g, fuel)
    requires k < |names| && FindTable(reg, names[k], Some(context)).Some?
    requires FindTable(reg, names[k], Some(context)).value.table.DiceTable?
    ensures |ResolveRerolls(reg, names, context, modifier, roller, g, fuel).value| == |names|
    ensures RolledWith(ResolveRerolls(reg, names, context, modifier, roller, g, fuel).value[k],
                       FindTable(reg, names[k], Some(context)).value.table, roller,
                       DrawsBefore(reg, names, context, modifier, roller, g, fuel, k), modifier)
  {
    ResolveRerollsEach(reg, names, context, modifier, roller, g, fuel);
    var h := DrawsBefore(reg, names, context, modifier, roller, g, fuel, k);
    var x := ResolveRerolls(reg, names, context, modifier, roller, g, fuel).value[k];
    assert NameRoll(reg, names[k], context, modifier, roller, h, fuel).value == Ok(x);
    NameRollDice(reg, names[k], context, modifier, roller, h, fuel, x);
  }

  /** A roll on a dice table that succeeds reads its entry at the dice total plus the modifier. */
  lemma {:induction false} NameRollDice(reg: Registry, name: string, context: string, modifier: int,
                                        roller: DiceRoll, h: Rng, fuel: nat, x: RollResult)
    requires FindTable(reg, name, Some(context)).Some?
    requires FindTable(reg, name, Some(context)).value.table.DiceTable?
    requires NameRoll(reg, name, context, modifier, roller, h, fuel).value == Ok(x)
    ensures RolledWith(x, FindTable(reg, name, Some(context)).value.table, roller, h, modifier)
  {
  }

  /** `roll(tableName, contextNamespace, modifier)`. */
  function Roll(reg: Registry, name: string, context: Option<string>, modifier: int,
                roller: DiceRoll, g: Rng, fuel: nat): (d: Drawn<Result<RollResult>>)
    ensures FindTable(reg, name, context).None? ==> d == Drawn(Err("Table not found: " + name), g)
    ensures d.value.Ok? ==> d.value.value.tableName == name
    ensures d.value.Ok? ==> FindTable(reg, name, context).Some?
    ensures d.value.Ok? ==> d.value.value.namespace == Some(FindTable(reg, name, context).value.namespace)
  {
    match FindTable(reg, name, context)
    case None => Drawn(Err("Table not found: " + name), g)
    case Some(found) => RollOnTable(reg, name, found.table, found.namespace, modifier, roller, g, fuel)
  }

  /** A roll in range is not clamped: the entry covering the rolled value plus the modifier is chosen. */
  lemma {:induction false} InRangeRollUnclamped(entries: seq<DiceEntry>, base: int, modifier: int, i: nat)
    requires i < |entries| && Covers(entries[i], base + modifier)
    ensures ClampedRoll(entries, base + modifier) == base + modifier
  {
  }

  /** The rerolls of a table roll come in order: those the entry asked for
      first, then those of the whole table, each list in the order it names
      its tables. */
  lemma {:induction false} RerollsInOrder(reg: Registry, name: string, t: Table, namespace: string, modifier: int,
                                          roller: DiceRoll, g: Rng, fuel: nat)
    requires fuel > 0
    ensures var d := RollOnTable(reg, name, t, namespace, modifier, roller, g, fuel);
      var b := if t.DiceTable? then RollDiceTable(reg, name, t, namespace, modifier, roller, g, fuel - 1)
               else RollSimpleTable(name, t, namespace, g);
      d.value.Ok? ==> (b.value.Ok? &&
        var first := b.value.value.nestedRolls.GetOr([]);
        var nested := d.value.value.nestedRolls.GetOr([]);
        first <= nested
        && IsSubseq(NamesOf(nested[|first|..]), if Truthy(t.reroll) then RerollNames(t.reroll.value) else []))
  {
    var b := if t.DiceTable? then RollDiceTable(reg, name, t, namespace, modifier, roller, g, fuel - 1)
             else RollSimpleTable(name, t, namespace, g);
    if b.value.Ok? {
      var first := b.value.value.nestedRolls.GetOr([]);
      if Truthy(t.reroll) {
        var more := ResolveRerolls(reg, RerollNames(t.reroll.value), namespace, modifier, roller, b.rng, fuel - 1);
        assert (first + more.value)[|first|..] == more.value;
      } else {
        assert first[|first|..] == [];
      }
    }
  }

  /** The rerolls an entry asks for are rolled in the order the entry names them. */
  lemma {:induction false} EntryRerollsInOrder(reg: Registry, name: string, t: Table, namespace: string, modifier: int,
                                               roller: DiceRoll, g: Rng, fuel: nat)
    requires t.DiceTable?
    ensures var d := RollDiceTable(reg, name, t, namespace, modifier, roller, g, fuel);
      d.value.Ok? && d.value.value.nestedRolls.Some? ==>
        (var e := t.entries[FindEntry(t.entries, d.value.value.roll.value).value];
         Truthy(e.reroll) && IsSubseq(NamesOf(d.value.value.nestedRolls.value), RerollNames(e.reroll.value)))
  {
  }
}
