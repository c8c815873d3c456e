/** The `StateManager` of src/ui/state/TableBuilderState.ts: the table
    builder's current state with a bounded history of snapshots and an
    index into it for undo and redo. `deepClone` is a value copy, the
    timestamp is a parameter, and the change notifications are left out. */
module BuilderState {
  import opened Columns

  /** `MAX_HISTORY`. */
  const MaxHistory: nat := 50

  /** `HistoryEntry`. */
  datatype HistoryEntry = HistoryEntry(state: TableState, timestamp: int)

  datatype Manager = Manager(current: TableState, history: seq<HistoryEntry>, index: int)

  /** The invariant every public operation keeps: the index points into a
      non-empty history of at most `MAX_HISTORY` entries. */
  predicate Valid(m: Manager) {
    0 <= m.index < |m.history| <= MaxHistory
  }

  /** The shapes `captureState` runs on: a valid manager, or the empty
      history with index -1 that the constructor and `clearHistory` start from. */
  predicate Capturable(m: Manager) {
    -1 <= m.index < |m.history| <= MaxHistory && (m.index == -1 ==> m.history == [])
  }

  /** `canUndo()`. */
  predicate CanUndo(m: Manager) {
    m.index > 0
  }

  /** `canRedo()`. */
  predicate CanRedo(m: Manager) {
    m.index < |m.history| - 1
  }

  /** `captureState()` at time `now`: the entries after the index are
      dropped, the current state is appended, and at the cap the oldest
      entry goes. */
  function Capture(m: Manager, now: int): (r: Manager)
    requires Capturable(m)
    ensures Valid(r) && r.index == |r.history| - 1 && !CanRedo(r)
    ensures r.current == m.current
    ensures r.history[r.index] == HistoryEntry(m.current, now)
    ensures m.index + 1 < MaxHistory ==> r.history == m.history[..m.index + 1] + [HistoryEntry(m.current, now)]
    ensures m.index + 1 == MaxHistory ==> r.history == m.history[1..] + [HistoryEntry(m.current, now)]
  {
    var kept := if m.index < |m.history| - 1 then m.history[..m.index + 1] else m.history;
    var pushed := kept + [HistoryEntry(m.current, now)];
    if |pushed| > MaxHistory then Manager(m.current, pushed[1..], m.index)
    else Manager(m.current, pushed, m.index + 1)
  }

  /** `new StateManager(initialState)`. */
  function Create(initial: TableState, now: int): (r: Manager)
    ensures Valid(r) && r.index == 0 && r.history == [HistoryEntry(initial, now)]
    ensures r.current == initial && !CanUndo(r) && !CanRedo(r)
  {
    Capture(Manager(initial, [], -1), now)
  }

  /** `undo()`: the manager afterwards and whether it stepped back. */
  function Undo(m: Manager): (r: (Manager, bool))
    requires Valid(m)
    ensures Valid(r.0) && r.0.history == m.history
    ensures r.1 <==> CanUndo(m)
    ensures r.1 ==> r.0.index == m.index - 1 && r.0.current == m.history[m.index - 1].state
    ensures !r.1 ==> r.0 == m
  {
    if !CanUndo(m) then (m, false)
    else (Manager(m.history[m.index - 1].state, m.history, m.index - 1), true)
  }

  /** `redo()`: the manager afterwards and whether it stepped forward. */
  function Redo(m: Manager): (r: (Manager, bool))
    requires Valid(m)
    ensures Valid(r.0) && r.0.history == m.history
    ensures r.1 <==> CanRedo(m)
    ensures r.1 ==> r.0.index == m.index + 1 && r.0.current == m.history[m.index + 1].state
    ensures !r.1 ==> r.0 == m
  {
    if !CanRedo(m) then (m, false)
    else (Manager(m.history[m.index + 1].state, m.history, m.index + 1), true)
  }

  /** `setState(newState, captureHistory)`. */
  function SetState(m: Manager, s: TableState, captureHistory: bool, now: int): (r: Manager)
    requires Valid(m)
    ensures Valid(r) && r.current == s
    ensures !captureHistory ==> r.history == m.history && r.index == m.index
    ensures captureHistory ==> r.index == |r.history| - 1 && r.history[r.index] == HistoryEntry(s, now) && !CanRedo(r)
  {
    var m' := m.(current := s);
    if captureHistory then Capture(m', now) else m'
  }

  /** `updateStateWithoutHistory(newState)`. */
  function UpdateStateWithoutHistory(m: Manager, s: TableState): (r: Manager)
    requires Valid(m)
    ensures Valid(r) && r.current == s && r.history == m.history && r.index == m.index
  {
    m.(current := s)
  }

  /** `clearHistory()`: one entry, the current state, at index 0. */
  function ClearHistory(m: Manager, now: int): (r: Manager)
    ensures Valid(r) && r.index == 0 && r.history == [HistoryEntry(m.current, now)]
    ensures r.current == m.current && !CanUndo(r) && !CanRedo(r)
  {
    Capture(m.(history := [], index := -1), now)
  }

  /** `getUndoCount()`. */
  function UndoCount(m: Manager): (n: nat)
    requires Valid(m)
    ensures n > 0 <==> CanUndo(m)
  {
    m.index
  }

  /** `getRedoCount()`. */
  function RedoCount(m: Manager): (n: nat)
    requires Valid(m)
    ensures n > 0 <==> CanRedo(m)
    ensures UndoCount(m) + n == |m.history| - 1
  {
    |m.history| - 1 - m.index
  }

  // ---------------------------------------------------------------------------
  // undo and redo together

  /** The manager holds the snapshot its index points at. */
  predicate AtSnapshot(m: Manager) {
    Valid(m) && m.current == m.history[m.index].state
  }

  /** An undo followed by a redo comes back to the same index and to the
      snapshot there; a manager that held its snapshot is restored exactly. */
  lemma {:induction false} UndoThenRedo(m: Manager)
    requires Valid(m) && CanUndo(m)
    ensures var (u, _) := Undo(m);
      var (r, ok) := Redo(u);
      ok && r.history == m.history && r.index == m.index && r.current == m.history[m.index].state
      && (AtSnapshot(m) ==> r == m)
  {
  }

  /** A redo followed by an undo comes back the same way. */
  lemma {:induction false} RedoThenUndo(m: Manager)
    requires Valid(m) && CanRedo(m)
    ensures var (r, _) := Redo(m);
      var (u, ok) := Undo(r);
      ok && u.history == m.history && u.index == m.index && u.current == m.history[m.index].state
      && (AtSnapshot(m) ==> u == m)
  {
  }

  /** `k` undos in a row. */
  function UndoTimes(m: Manager, k: nat): (r: Manager)
    requires Valid(m)
    ensures Valid(r) && r.history == m.history
    decreases k
  {
    if k == 0 then m else UndoTimes(Undo(m).0, k - 1)
  }

  /** `k` redos in a row. */
  function RedoTimes(m: Manager, k: nat): (r: Manager)
    requires Valid(m)
    ensures Valid(r) && r.history == m.history
    decreases k
  {
    if k == 0 then m else RedoTimes(Redo(m).0, k - 1)
  }

  /** The undo count is how many undos succeed in a row: each of the first
      `k` steps one back, and after all of them there is nothing to undo. */
  lemma {:induction false} UndoCountSteps(m: Manager, k: nat)
    requires Valid(m) && k <= UndoCount(m)
    ensures UndoTimes(m, k).index == m.index - k
    ensures k < UndoCount(m) ==> Undo(UndoTimes(m, k)).1
    ensures k == UndoCount(m) ==> !Undo(UndoTimes(m, k)).1
    decreases k
  {
    if k > 0 {
      UndoCountSteps(Undo(m).0, k - 1);
    }
  }

  /** The redo count is how many redos succeed in a row. */
  lemma {:induction false} RedoCountSteps(m: Manager, k: nat)
    requires Valid(m) && k <= RedoCount(m)
    ensures RedoTimes(m, k).index == m.index + k
    ensures k < RedoCount(m) ==> Redo(RedoTimes(m, k)).1
    ensures k == RedoCount(m) ==> !Redo(RedoTimes(m, k)).1
    decreases k
  {
    if k > 0 {
      RedoCountSteps(Redo(m).0, k - 1);
    }
  }

  /** After undoing, a capture throws the undone entries away: the history
      is the entries up to the index and the new snapshot. */
  lemma {:induction false} CaptureDropsRedo(m: Manager, now: int)
    requires Valid(m) && CanRedo(m)
    ensures Capture(m, now).history == m.history[..m.index + 1] + [HistoryEntry(m.current, now)]
    ensures RedoCount(Capture(m, now)) == 0
  {
  }
}
