/** Optimistic transactions over a multi-version store, as a machine whose steps are
    the points at which threads can interleave. */
module TxModel {
  import opened Bytes
  import opened Conflicts
  import opened SerialSpec
  import T = SnapshotTracker

  datatype Version = Version(cell: Cell, seqno: nat)

  /** All stored versions; `None` is a tombstone. */
  type Store = map<Version, Option<Value>>

  ghost predicate IsNewest(store: Store, instant: nat, c: Cell, s: nat) {
    && Version(c, s) in store && s < instant
    && forall r: nat :: r < instant && Version(c, r) in store ==> r <= s
  }

  /** A read at an instant returns the newest version with a smaller sequence number. */
  ghost function ReadAt(store: Store, instant: nat, c: Cell): Option<Value> {
    if exists s :: IsNewest(store, instant, c, s) then
      var s :| IsNewest(store, instant, c, s);
      store[Version(c, s)]
    else
      None
  }

  /** An open write transaction. `ops` is what it did and saw so far; `overlay` holds
      its uncommitted writes and `marks` what the conflict manager recorded. */
  datatype Tx = Tx(nonce: nat, instant: nat, ops: seq<Op>, overlay: Patch, marks: Footprint)

  /** The commit lock: free, held while a batch is being applied, or held between
      publishing a batch and recording its footprint. */
  datatype Lock =
    | Idle
    | Applying(tx: Tx, seqno: nat, todo: Patch)
    | Unrecorded(tx: Tx)

  /** `nonces` are the live holders of snapshots. `leftovers` are nonce objects whose
      instant the commit already released once and whose drop will release it again. */
  datatype State = State(
    tracker: T.State,
    seqno: nat,
    store: Store,
    nonces: map<nat, nat>,
    leftovers: map<nat, nat>,
    txs: map<nat, Tx>,
    lock: Lock,
    committed: map<nat, Footprint>,
    log: seq<Commit>,
    stamps: seq<nat>)

  function Init(visible: nat): State {
    State(T.State(visible, map[], 0, 0), visible, map[], map[], map[], map[], Idle, map[], [], [])
  }

  datatype Event =
    | Begin(t: nat, n: nat)
    | Get(t: nat, c: Cell)
    | ContainsKey(t: nat, c: Cell)
    | SizeOf(t: nat, c: Cell)
    | ScanRange(t: nat, ks: nat, start: Bound, end: Bound)
    | Write(t: nat, c: Cell, value: Option<Value>)
    | Update(t: nat, c: Cell, value: Option<Value>)
    | StartCommit(t: nat)
    | ApplyItem(c: Cell)
    | PublishBatch
    | Abort
    | Record
    | DropLeftover(n: nat)
    | Finish(t: nat)
    | OpenSnapshot(n: nat)
    | CloneSnapshot(n: nat, m: nat)
    | CloseSnapshot(n: nat)
    | Collect(order: seq<nat>)
    | Pullup
    | Prune
    | DeleteKeyspace
    | Compact(v: Version)

  // ---------------------------------------------------------------------------
  // What a transaction sees.

  ghost function TxGet(tx: Tx, store: Store, c: Cell): Option<Value> {
    if c in tx.overlay then tx.overlay[c] else ReadAt(store, tx.instant, c)
  }

  function Cells(store: Store): set<Cell> {
    set v | v in store :: v.cell
  }

  ghost function TxScan(tx: Tx, store: Store, ks: nat, start: Bound, end: Bound): Db {
    map c | c in Cells(store) + tx.overlay.Keys && c.ks == ks && InRange(start, end, c.key)
            && TxGet(tx, store, c).Some? :: TxGet(tx, store, c).value
  }

  function Did(tx: Tx, op: Op): Tx {
    tx.(ops := tx.ops + [op])
  }

  function Noted(tx: Tx, ks: nat, r: Read): Tx {
    tx.(marks := PushedRead(tx.marks, ks, r))
  }

  function Wrote(tx: Tx, c: Cell, value: Option<Value>): Tx {
    Did(tx, Put(c, value)).(overlay := tx.overlay[c := value])
  }

  function Claimed(tx: Tx, c: Cell): Tx {
    tx.(marks := MarkedConflict(tx.marks, c.ks, c.key))
  }

  /** `update_fetch` and `fetch_update`: the write is skipped when nothing changes,
      but the key is always recorded as read and as written. */
  ghost function Updated(tx: Tx, store: Store, c: Cell, value: Option<Value>): Tx {
    var prev := TxGet(tx, store, c);
    var read := Did(tx, Got(c, prev));
    Claimed(Noted(if value != prev then Wrote(read, c, value) else Did(read, Kept(c)), c.ks, Single(c.key)), c)
  }

  /** The effect of one operation on its transaction. */
  ghost function AfterOp(tx: Tx, store: Store, e: Event): (r: Tx)
    ensures r.nonce == tx.nonce && r.instant == tx.instant
  {
    match e
    case Get(_, c) => Noted(Did(tx, Got(c, TxGet(tx, store, c))), c.ks, Single(c.key))
    case ContainsKey(_, c) => Noted(Did(tx, Checked(c, TxGet(tx, store, c).Some?)), c.ks, Single(c.key))
    case SizeOf(_, c) => Did(tx, Measured(c, if TxGet(tx, store, c).Some? then Some(|TxGet(tx, store, c).value|) else None))
    case ScanRange(_, ks, start, end) =>
      Noted(Did(tx, Scanned(ks, start, end, TxScan(tx, store, ks, start, end))), ks, RangeRead(start, end))
    case Write(_, c, value) => Claimed(Wrote(tx, c, value), c)
    case Update(_, c, value) => Updated(tx, store, c, value)
    case _ => tx
  }

  predicate IsOp(e: Event) {
    e.Get? || e.ContainsKey? || e.SizeOf? || e.ScanRange? || e.Write? || e.Update?
  }

  // ---------------------------------------------------------------------------
  // Committing.

  ghost predicate Conflicted(s: State, tx: Tx) {
    exists ts :: ts in s.committed && ts > tx.instant && Clashes(tx.marks, s.committed[ts])
  }

  /** Under the lock: test for conflicts, release the instant, prune the history and,
      if there was no conflict, take a sequence number and start applying. The nonce
      object itself survives as a leftover. */
  ghost function CommitStarted(s: State, t: nat): State
    requires t in s.txs
  {
    var tx := s.txs[t];
    s.(tracker := T.Released(s.tracker, tx.instant),
       nonces := s.nonces - {tx.nonce},
       leftovers := s.leftovers[tx.nonce := tx.instant],
       committed := Pruned(s.committed, s.tracker.watermark),
       txs := s.txs - {t},
       seqno := if Conflicted(s, tx) then s.seqno else s.seqno + 1,
       lock := if Conflicted(s, tx) then Idle else Applying(tx, s.seqno, tx.overlay))
  }

  /** A published version may be reclaimed once a newer version of its cell is at or below
      the watermark, or when it is a tombstone at or below it with nothing older left. */
  ghost predicate Reclaimable(s: State, v: Version) {
    && v in s.store && v.seqno < s.tracker.visible
    && (|| (exists r: nat :: Version(v.cell, r) in s.store && v.seqno < r <= s.tracker.watermark)
        || (&& s.store[v] == None && v.seqno <= s.tracker.watermark
            && forall r: nat :: Version(v.cell, r) in s.store ==> v.seqno <= r))
  }

  predicate FreshNonce(s: State, n: nat) {
    n !in s.nonces && n !in s.leftovers
  }

  ghost predicate Enabled(s: State, e: Event) {
    match e
    case Begin(t, n) => s.lock.Idle? && t !in s.txs && FreshNonce(s, n)
    case StartCommit(t) => s.lock.Idle? && t in s.txs && s.txs[t].overlay != map[]
    case ApplyItem(c) => s.lock.Applying? && c in s.lock.todo
    case PublishBatch => s.lock.Applying? && s.lock.todo == map[]
    case Abort => s.lock.Applying? && s.lock.todo == s.lock.tx.overlay
    case Record => s.lock.Unrecorded? && s.lock.tx.nonce !in s.leftovers
    case DropLeftover(n) => n in s.leftovers && !(s.lock.Applying? && s.lock.tx.nonce == n)
    case Finish(t) => t in s.txs
    case OpenSnapshot(n) => FreshNonce(s, n)
    case CloneSnapshot(n, m) => n in s.nonces && FreshNonce(s, m)
    case CloseSnapshot(n) => n in s.nonces && forall t :: t in s.txs ==> s.txs[t].nonce != n
    case Collect(order) => T.IsOrder(order, s.tracker.counts.Keys)
    case Pullup => true
    case Prune => !s.lock.Unrecorded?
    case DeleteKeyspace => true
    case Compact(v) => Reclaimable(s, v)
    case _ => e.t in s.txs && (e.ScanRange? ==> WellFormed(RangeRead(e.start, e.end)))
  }

  function Begun(s: State, t: nat, n: nat): State {
    var i := s.tracker.visible;
    s.(tracker := T.Held(s.tracker, i), nonces := s.nonces[n := i],
       txs := s.txs[t := Tx(n, i, [], map[], Blank)])
  }

  ghost function Operated(s: State, e: Event): State
    requires IsOp(e) && e.t in s.txs
  {
    s.(txs := s.txs[e.t := AfterOp(s.txs[e.t], s.store, e)])
  }

  function ItemApplied(s: State, c: Cell): State
    requires s.lock.Applying? && c in s.lock.todo
  {
    s.(store := s.store[Version(c, s.lock.seqno) := s.lock.todo[c]],
       lock := s.lock.(todo := s.lock.todo - {c}))
  }

  function BatchPublished(s: State): State
    requires s.lock.Applying?
  {
    s.(tracker := T.Published(s.tracker, s.lock.seqno),
       log := s.log + [Commit(s.lock.seqno, s.lock.tx.instant, s.lock.tx.ops)],
       lock := Unrecorded(s.lock.tx))
  }

  function CommitRecorded(s: State): State
    requires s.lock.Unrecorded?
  {
    s.(committed := s.committed[s.tracker.visible := s.lock.tx.marks],
       stamps := s.stamps + [s.tracker.visible],
       lock := Idle)
  }

  function LeftoverDropped(s: State, n: nat): State
    requires n in s.leftovers
  {
    s.(tracker := T.Released(s.tracker, s.leftovers[n]), leftovers := s.leftovers - {n})
  }

  function Finished(s: State, t: nat): State
    requires t in s.txs
  {
    var tx := s.txs[t];
    s.(tracker := T.Released(s.tracker, tx.instant), nonces := s.nonces - {tx.nonce}, txs := s.txs - {t})
  }

  /** When the release inside a commit runs a collection, the commit prunes with the raised
      watermark: starting the commit, then the collection, then this step. */
  function HistoryPruned(s: State): State {
    s.(committed := Pruned(s.committed, s.tracker.watermark))
  }

  lemma CollectingCommit(s: State, t: nat, order: seq<nat>)
    requires t in s.txs
    ensures var started := CommitStarted(s, t);
            var collected := started.(tracker := T.Collected(started.tracker, order));
            HistoryPruned(collected) ==
            started.(tracker := collected.tracker, committed := Pruned(s.committed, collected.tracker.watermark))
  {
    hide Conflicted;
    var started := CommitStarted(s, t);
    var collected := started.(tracker := T.Collected(started.tracker, order));
    assert Pruned(Pruned(s.committed, s.tracker.watermark), collected.tracker.watermark) ==
           Pruned(s.committed, collected.tracker.watermark);
  }

  /** Opening holds the visible instant, cloning the instant of an existing snapshot. */
  function SnapshotHeld(s: State, n: nat, instant: nat): State {
    s.(tracker := T.Held(s.tracker, instant), nonces := s.nonces[n := instant])
  }

  function SnapshotClosed(s: State, n: nat): State
    requires n in s.nonces
  {
    s.(tracker := T.Released(s.tracker, s.nonces[n]), nonces := s.nonces - {n})
  }

  /** Deleting a keyspace takes a sequence number and publishes it without the journal lock. */
  function KeyspaceDeleted(s: State): State {
    s.(tracker := T.Published(s.tracker, s.seqno), seqno := s.seqno + 1)
  }

  ghost function Step(s: State, e: Event): State
    requires Enabled(s, e)
  {
    match e
    case Begin(t, n) => Begun(s, t, n)
    case StartCommit(t) => CommitStarted(s, t)
    case ApplyItem(c) => ItemApplied(s, c)
    case PublishBatch => BatchPublished(s)
    case Abort => s.(lock := Idle)
    case Record => CommitRecorded(s)
    case DropLeftover(n) => LeftoverDropped(s, n)
    case Finish(t) => Finished(s, t)
    case OpenSnapshot(n) => SnapshotHeld(s, n, s.tracker.visible)
    case CloneSnapshot(n, m) => SnapshotHeld(s, m, s.nonces[n])
    case CloseSnapshot(n) => SnapshotClosed(s, n)
    case Collect(order) => s.(tracker := T.Collected(s.tracker, order))
    case Pullup => s.(tracker := T.PulledUp(s.tracker))
    case Prune => HistoryPruned(s)
    case DeleteKeyspace => KeyspaceDeleted(s)
    case Compact(v) => s.(store := s.store - {v})
    case _ => Operated(s, e)
  }

  // ---------------------------------------------------------------------------
  // Runs.

  ghost predicate Valid(s: State, es: seq<Event>)
    decreases |es|
  {
    es == [] || (Enabled(s, es[0]) && Valid(Step(s, es[0]), es[1..]))
  }

  ghost function After(s: State, es: seq<Event>): State
    requires Valid(s, es)
    decreases |es|
  {
    if es == [] then s else After(Step(s, es[0]), es[1..])
  }

  ghost predicate Leads(s: State, es: seq<Event>, s': State) {
    Valid(s, es) && After(s, es) == s'
  }

  lemma {:induction false} RunAppend(s: State, es: seq<Event>, e: Event)
    requires Valid(s, es) && Enabled(After(s, es), e)
    ensures Valid(s, es + [e]) && After(s, es + [e]) == Step(After(s, es), e)
    decreases |es|
  {
    hide Enabled, Step;
    if es == [] {
      assert [e][1..] == [] && (es + [e]) == [e];
    } else {
      assert (es + [e])[0] == es[0] && (es + [e])[1..] == es[1..] + [e];
      RunAppend(Step(s, es[0]), es[1..], e);
    }
  }

  /** Whose snapshots a run should respect: those of write transactions, or all of them. */
  datatype Scope = Transactions | Everyone

  function TxInstants(s: State): set<nat> {
    set t | t in s.txs :: s.txs[t].instant
  }

  function HeldBy(s: State, scope: Scope): set<nat> {
    if scope == Transactions then TxInstants(s) else T.Instants(s.nonces)
  }

  /** The two steps that raise the watermark must not overtake a held instant. Both conditions
      can be tested before the step and do not depend on the iteration order. */
  predicate Harmless(s: State, e: Event, scope: Scope) {
    match e
    case Collect(_) => T.CollectSafe(s.tracker, HeldBy(s, scope))
    case Pullup => T.PullupSafe(s.tracker, HeldBy(s, scope))
    case _ => true
  }

  ghost predicate AllHarmless(s: State, es: seq<Event>, scope: Scope)
    requires Valid(s, es)
    decreases |es|
  {
    es == [] || (Harmless(s, es[0], scope) && AllHarmless(Step(s, es[0]), es[1..], scope))
  }
}
