/** `SessionTracker` of src/services/tables/SessionTracker.js: per session,
    the set of result keys recorded for each table and the history of
    recorded results. Sessions live in a `Map`, each table's keys in a
    `Set`; both keep insertion order. Timestamps are not modelled. */
module Session {
  import opened Outcomes
  import opened Strings
  import opened Records
  import opened Seqs
  import opened Values

  /** `getResultKey`: an object's fields without `_roll` and `_chain`
      (standing for their `JSON.stringify`), or the text of any other value. */
  datatype ResultKey = JsonKey(fields: Record<Value>) | TextKey(text: string)

  /** The metadata fields a key leaves out. */
  predicate Ignored(k: string) {
    k == "_roll" || k == "_chain"
  }

  /** `const copy = { ...result }; delete copy._roll; delete copy._chain`. */
  function KeyFields(fields: Record<Value>): (kept: Record<Value>)
    ensures forall i | 0 <= i < |kept| :: !Ignored(kept[i].0)
    ensures forall i | 0 <= i < |fields| :: !Ignored(fields[i].0) ==> fields[i] in kept
    ensures forall f | f in kept :: f in fields
    ensures IsSubseq(kept, fields)
  {
    Filter(fields, (f: (string, Value)) => !Ignored(f.0))
  }

  function KeyOf(v: Value): (k: ResultKey)
    ensures v.Obj? ==> k == JsonKey(KeyFields(v.fields))
    ensures v.Arr? ==> k == JsonKey(KeyFields(IndexFields(v.items)))
    ensures v.Str? ==> k == TextKey(v.s)
    ensures v.Num? ==> k == TextKey(IntToString(v.n))
  {
    match v
    case Obj(fields) => JsonKey(KeyFields(fields))
    case Arr(items) => JsonKey(KeyFields(IndexFields(items)))
    case _ => TextKey(Text(v))
  }

  /** One history entry: `{ timestamp, tableName, result }` without the timestamp. */
  datatype Entry = Entry(tableName: string, result: Value)

  /** `{ results: Map<table, Set<key>>, history }`. */
  datatype SessionData = SessionData(results: Record<seq<ResultKey>>, history: seq<Entry>)

  datatype Tracker = Tracker(sessions: Record<SessionData>)

  /** `new SessionTracker()`. */
  const Fresh: Tracker := Tracker([])

  /** The `Map` of sessions has one entry per id. */
  predicate Valid(t: Tracker) {
    UniqueKeys(t.sessions)
  }

  /** `createSession`: an empty session, unless one exists. */
  function CreateSession(t: Tracker, id: string): (t': Tracker)
    ensures HasKey(t'.sessions, id)
    ensures HasKey(t.sessions, id) ==> t' == t
    ensures !HasKey(t.sessions, id) ==> Get(t'.sessions, id) == Some(SessionData([], []))
    ensures forall k {:trigger Get(t'.sessions, k)} | k != id :: Get(t'.sessions, k) == Get(t.sessions, k)
    ensures Valid(t) ==> Valid(t')
  {
    if HasKey(t.sessions, id) then t
    else
      var t' := Tracker(Put(t.sessions, id, SessionData([], [])));
      assert Get(t'.sessions, id).Some?;
      t'
  }

  /** `Set.prototype.add`: a key already present leaves the set as it is. */
  function AddKey(keys: seq<ResultKey>, k: ResultKey): (keys': seq<ResultKey>)
    ensures k in keys ==> keys' == keys
    ensures k !in keys ==> keys' == keys + [k]
    ensures forall x :: x in keys' <==> x in keys || x == k
  {
    if k in keys then keys else keys + [k]
  }

  /** `addResult`: the session is created if needed, the key joins the table's set and the history grows. */
  function AddResult(t: Tracker, id: string, table: string, v: Value): (t': Tracker)
    ensures HasKey(t'.sessions, id)
    ensures forall k {:trigger Get(t'.sessions, k)} | k != id :: Get(t'.sessions, k) == Get(t.sessions, k)
    ensures Valid(t) ==> Valid(t')
  {
    var t1 := CreateSession(t, id);
    var s := Get(t1.sessions, id).value;
    var keys := Get(s.results, table).GetOr([]);
    var s' := SessionData(Put(s.results, table, AddKey(keys, KeyOf(v))), s.history + [Entry(table, v)]);
    var t' := Tracker(Put(t1.sessions, id, s'));
    assert Get(t'.sessions, id).Some?;
    t'
  }

  /** `isDuplicate`: the value's key is recorded for this session and table. */
  function IsDuplicate(t: Tracker, id: string, table: string, v: Value): (b: bool)
    ensures b ==> HasKey(t.sessions, id)
    ensures b <==> KeyOf(v) in GetResults(t, id, table)
  {
    match Get(t.sessions, id)
    case None => false
    case Some(s) =>
      match Get(s.results, table)
      case None => false
      case Some(keys) => KeyOf(v) in keys
  }

  /** `getResults`: the recorded keys in insertion order, `[]` when there are none. */
  function GetResults(t: Tracker, id: string, table: string): seq<ResultKey> {
    match Get(t.sessions, id)
    case None => []
    case Some(s) => Get(s.results, table).GetOr([])
  }

  /** `getHistory`: the history of the session, `[]` for an unknown one. */
  function GetHistory(t: Tracker, id: string): (h: seq<Entry>)
    ensures !HasKey(t.sessions, id) ==> h == []
  {
    match Get(t.sessions, id)
    case None => []
    case Some(s) => s.history
  }

  /** `clearSession`: the session is gone. */
  function ClearSession(t: Tracker, id: string): (t': Tracker)
    requires Valid(t)
    ensures !HasKey(t'.sessions, id)
    ensures forall k {:trigger Get(t'.sessions, k)} | k != id :: Get(t'.sessions, k) == Get(t.sessions, k)
    ensures Valid(t')
  {
    Tracker(Delete(t.sessions, id))
  }

  // ---------------------------------------------------------------------------
  // properties

  /** After `addResult`, the same result is a duplicate. */
  lemma {:induction false} AddedIsDuplicate(t: Tracker, id: string, table: string, v: Value)
    ensures IsDuplicate(AddResult(t, id, table, v), id, table, v)
  {
    var t1 := CreateSession(t, id);
    var s := Get(t1.sessions, id).value;
    var keys := Get(s.results, table).GetOr([]);
    var s' := SessionData(Put(s.results, table, AddKey(keys, KeyOf(v))), s.history + [Entry(table, v)]);
    assert Get(AddResult(t, id, table, v).sessions, id) == Some(s');
  }

  /** A result's key joins the set once: re-adding a key keeps the count, a new key adds one. */
  lemma {:induction false} ResultsCount(t: Tracker, id: string, table: string, v: Value)
    ensures KeyOf(v) in GetResults(t, id, table) ==>
      GetResults(AddResult(t, id, table, v), id, table) == GetResults(t, id, table)
    ensures KeyOf(v) !in GetResults(t, id, table) ==>
      GetResults(AddResult(t, id, table, v), id, table) == GetResults(t, id, table) + [KeyOf(v)]
  {
    var t1 := CreateSession(t, id);
    var s := Get(t1.sessions, id).value;
    var keys := Get(s.results, table).GetOr([]);
    assert keys == GetResults(t, id, table);
    var s' := SessionData(Put(s.results, table, AddKey(keys, KeyOf(v))), s.history + [Entry(table, v)]);
    assert Get(AddResult(t, id, table, v).sessions, id) == Some(s');
  }

  /** Every `addResult` appends exactly its own entry to the session's history. */
  lemma {:induction false} HistoryAppends(t: Tracker, id: string, table: string, v: Value)
    ensures GetHistory(AddResult(t, id, table, v), id) == GetHistory(t, id) + [Entry(table, v)]
  {
    var t1 := CreateSession(t, id);
    var s := Get(t1.sessions, id).value;
    assert s.history == GetHistory(t, id);
    var keys := Get(s.results, table).GetOr([]);
    var s' := SessionData(Put(s.results, table, AddKey(keys, KeyOf(v))), s.history + [Entry(table, v)]);
    assert Get(AddResult(t, id, table, v).sessions, id) == Some(s');
  }

  /** Nothing is a duplicate in a session that was never used or was cleared. */
  lemma {:induction false} ClearedHasNoDuplicates(t: Tracker, id: string, table: string, v: Value)
    requires Valid(t)
    ensures !IsDuplicate(ClearSession(t, id), id, table, v)
    ensures GetHistory(ClearSession(t, id), id) == []
  {
  }

  /** `createSession` twice is `createSession` once. */
  lemma {:induction false} CreateSessionIdempotent(t: Tracker, id: string)
    ensures CreateSession(CreateSession(t, id), id) == CreateSession(t, id)
  {
  }

  /** The key ignores only `_roll` and `_chain`: objects that differ in another field have different keys. */
  lemma {:induction false} KeyKeepsOtherFields(a: Record<Value>, b: Record<Value>, i: nat)
    requires i < |a| && !Ignored(a[i].0) && a[i] !in b
    ensures KeyOf(Obj(a)) != KeyOf(Obj(b))
  {
    assert a[i] in KeyFields(a);
  }

  /** Objects that differ only in `_roll` and `_chain` have the same key. */
  lemma {:induction false} KeyIgnoresRollAndChain(a: Record<Value>, b: Record<Value>)
    requires KeyFields(a) == KeyFields(b)
    ensures KeyOf(Obj(a)) == KeyOf(Obj(b))
  {
  }
}
