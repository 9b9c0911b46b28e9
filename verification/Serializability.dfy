/** Every harmless run of the transaction machine is serializable. */
module Serializability {
  import opened Bytes
  import opened Conflicts
  import opened SerialSpec
  import opened TxModel
  import T = SnapshotTracker

  // ---------------------------------------------------------------------------
  // The invariant, one concern at a time.

  /** Each transaction owns one live nonce at its instant. */
  predicate NoncesOk(s: State) {
    && (forall t :: t in s.txs ==> s.txs[t].nonce in s.nonces && s.nonces[s.txs[t].nonce] == s.txs[t].instant)
    && (forall t, u :: t in s.txs && u in s.txs && s.txs[t].nonce == s.txs[u].nonce ==> t == u)
  }

  predicate TrackerOk(s: State) {
    && T.Bounded(s.tracker, T.Instants(s.nonces)) && s.tracker.visible <= s.seqno
    && s.tracker.watermark <= T.PredOrZero(s.tracker.visible)
  }

  /** Commits carry increasing sequence numbers below the published one. */
  predicate LogOk(s: State) {
    && (forall j :: 0 <= j < |s.log| ==> s.log[j].seqno < s.tracker.visible)
    && (forall j, k :: 0 <= j < k < |s.log| ==> s.log[j].seqno < s.log[k].seqno)
  }

  /** An instant at which reads are still supported. */
  predicate Supported(s: State, i: nat) {
    s.tracker.watermark == 0 || s.tracker.watermark < i
  }

  /** No batch that the instant should see is still being applied. Only a keyspace deletion can
      make an instant see a batch in flight. */
  predicate Settled(s: State, i: nat) {
    s.lock.Applying? ==> i <= s.lock.seqno
  }

  predicate AlreadyApplied(s: State, c: Cell) {
    s.lock.Applying? && c in s.lock.tx.overlay && c !in s.lock.todo
  }

  /** What a read at an instant sees: the commits below it and, unless the instant is settled,
      the applied part of the batch in flight. */
  function Seen(s: State, i: nat, c: Cell): Option<Value> {
    if !Settled(s, i) && AlreadyApplied(s, c) then s.lock.tx.overlay[c] else Lookup(DbAt(s.log, i), c)
  }

  ghost predicate StoreOk(s: State) {
    && (forall i, c :: Supported(s, i) ==> ReadAt(s.store, i, c) == Seen(s, i, c))
    && (forall v :: v in s.store ==> v.seqno < s.seqno && (s.lock.Applying? ==> v.seqno <= s.lock.seqno))
  }

  /** The conflict manager recorded every read and every write of the transaction. */
  ghost predicate Marked(tx: Tx) {
    && (forall i, c :: 0 <= i < |tx.ops| && !tx.ops[i].Measured? && Touches(tx.ops[i], c) ==> ReadsKey(tx.marks, c.ks, c.key))
    && (forall c :: c in tx.overlay ==> WritesKey(tx.marks, c.ks, c.key))
  }

  ghost predicate TxOk(s: State, tx: Tx) {
    && tx.overlay == Writes(tx.ops)
    && Marked(tx)
    && tx.instant <= s.tracker.visible && Supported(s, tx.instant) && Settled(s, tx.instant)
    && Explained(tx.ops, DbAt(s.log, tx.instant))
  }

  ghost predicate TxsOk(s: State) {
    forall t :: t in s.txs ==> TxOk(s, s.txs[t])
  }

  /** Number of commits whose footprint has been recorded. */
  function RecordedCount(s: State): int {
    if s.lock.Unrecorded? then |s.log| - 1 else |s.log|
  }

  predicate Remembers(s: State, j: nat)
    requires j < |s.log| && j < |s.stamps|
  {
    s.stamps[j] in s.committed && forall c :: c in Writes(s.log[j].ops) ==> WritesKey(s.committed[s.stamps[j]], c.ks, c.key)
  }

  /** Every recorded commit newer than the watermark is still in the conflict history,
      under a key larger than its sequence number. */
  predicate HistoryOk(s: State) {
    && |s.stamps| == RecordedCount(s)
    && (forall j :: 0 <= j < |s.stamps| ==> s.log[j].seqno < s.stamps[j] <= s.tracker.visible)
    && (forall j, k :: 0 <= j < k < |s.stamps| ==> s.stamps[j] < s.stamps[k])
    && (forall j :: 0 <= j < |s.stamps| && s.stamps[j] > s.tracker.watermark ==> Remembers(s, j))
    && (forall j :: 0 <= j < |s.stamps| && |s.stamps| < |s.log| ==> s.stamps[j] <= s.log[|s.stamps|].seqno)
    && (forall ts :: ts in s.committed ==> ts in s.stamps)
  }

  /** The transaction whose batch is being applied, after all commits and records so far. */
  ghost predicate InFlight(s: State, tx: Tx, seqno: nat, todo: Patch) {
    && seqno < s.seqno && tx.instant <= seqno
    && (forall j :: 0 <= j < |s.log| ==> s.log[j].seqno < seqno)
    && (forall j :: 0 <= j < |s.stamps| ==> s.stamps[j] <= seqno)
    && tx.overlay == Writes(tx.ops) && Marked(tx)
    && (forall c :: c in todo ==> c in tx.overlay && todo[c] == tx.overlay[c])
    && Explained(tx.ops, DbAt(s.log, tx.instant)) && ExplainedButSizes(tx.ops, DbAfter(s.log))
  }

  ghost predicate LockOk(s: State) {
    match s.lock
    case Idle => true
    case Applying(tx, seqno, todo) => InFlight(s, tx, seqno, todo)
    case Unrecorded(tx) =>
      s.log != [] && s.log[|s.log| - 1].ops == tx.ops && tx.overlay == Writes(tx.ops) && Marked(tx)
  }

  ghost predicate Inv(s: State) {
    && NoncesOk(s) && TrackerOk(s) && LogOk(s) && StoreOk(s) && TxsOk(s)
    && HistoryOk(s) && LockOk(s) && Serial(s.log) && SawSnapshots(s.log)
  }

  // ---------------------------------------------------------------------------
  // Reads of the store.

  lemma ReadAtIs(store: Store, i: nat, c: Cell, s: nat)
    requires IsNewest(store, i, c, s)
    ensures ReadAt(store, i, c) == store[Version(c, s)]
  {
    forall r: nat | IsNewest(store, i, c, r)
      ensures r == s
    {
      assert Version(c, r) in store && Version(c, s) in store;
    }
  }

  /** Reads depend only on the versions of the cell below the instant. */
  lemma ReadAtSame(a: Store, b: Store, i: nat, j: nat, c: Cell)
    requires forall s: nat :: (s < i && Version(c, s) in a) <==> (s < j && Version(c, s) in b)
    requires forall s: nat :: s < i && Version(c, s) in a ==> a[Version(c, s)] == b[Version(c, s)]
    ensures ReadAt(a, i, c) == ReadAt(b, j, c)
  {
    if s: nat :| IsNewest(a, i, c, s) {
      assert IsNewest(b, j, c, s);
      ReadAtIs(a, i, c, s);
      ReadAtIs(b, j, c, s);
    } else {
      assert forall s: nat :: IsNewest(b, j, c, s) ==> IsNewest(a, i, c, s);
    }
  }

  /** Reclaiming a version changes no read above the watermark. */
  lemma ReclaimKeepsReads(s: State, v: Version, i: nat, c: Cell)
    requires Reclaimable(s, v) && (s.tracker.watermark == 0 || s.tracker.watermark < i)
    ensures ReadAt(s.store - {v}, i, c) == ReadAt(s.store, i, c)
  {
    var after := s.store - {v};
    if v.cell != c || v.seqno >= i {
      ReadAtSame(after, s.store, i, i, c);
    } else if r: nat :| Version(c, r) in s.store && v.seqno < r <= s.tracker.watermark {
      assert Version(c, r) in after;
      if q: nat :| IsNewest(s.store, i, c, q) {
        assert q >= r;
        assert IsNewest(after, i, c, q);
        ReadAtIs(after, i, c, q);
        ReadAtIs(s.store, i, c, q);
      } else {
        assert forall q: nat :: !IsNewest(s.store, i, c, q);
        assert forall q: nat :: IsNewest(after, i, c, q) ==> IsNewest(s.store, i, c, q);
      }
    } else if q: nat :| IsNewest(s.store, i, c, q) {
      ReadAtIs(s.store, i, c, q);
      if q == v.seqno {
        assert forall r: nat :: !IsNewest(after, i, c, r);
      } else {
        assert IsNewest(after, i, c, q);
        ReadAtIs(after, i, c, q);
      }
    } else {
      assert forall q: nat :: IsNewest(after, i, c, q) ==> IsNewest(s.store, i, c, q);
    }
  }

  // ---------------------------------------------------------------------------
  // Operations of an open transaction.

  /** The overlay over the snapshot is the replay of the transaction over its snapshot. */
  lemma OverlayRefinesReplay(s: State, tx: Tx, c: Cell)
    requires StoreOk(s) && TxOk(s, tx)
    ensures TxGet(tx, s.store, c) == Lookup(Patched(DbAt(s.log, tx.instant), Writes(tx.ops)), c)
  {
    LookupPatched(DbAt(s.log, tx.instant), Writes(tx.ops), c);
  }

  lemma ScanRefinesReplay(s: State, tx: Tx, ks: nat, start: Bound, end: Bound)
    requires StoreOk(s) && TxOk(s, tx)
    ensures TxScan(tx, s.store, ks, start, end)
         == Window(Patched(DbAt(s.log, tx.instant), Writes(tx.ops)), ks, start, end)
  {
    var view := Patched(DbAt(s.log, tx.instant), Writes(tx.ops));
    var mine := TxScan(tx, s.store, ks, start, end);
    forall c
      ensures c in mine <==> c in Window(view, ks, start, end)
      ensures c in mine ==> mine[c] == Window(view, ks, start, end)[c]
    {
      OverlayRefinesReplay(s, tx, c);
      if TxGet(tx, s.store, c).Some? && c !in tx.overlay {
        var q :| IsNewest(s.store, tx.instant, c, q);
        assert Version(c, q) in s.store;
        assert c in Cells(s.store);
      }
    }
  }

  lemma RecordsRead(tx: Tx, base: Db, op: Op, ks: nat, r: Read)
    requires Marked(tx) && tx.overlay == Writes(tx.ops) && Explained(tx.ops, base)
    requires !op.Put? && Justified(op, Patched(base, Writes(tx.ops)))
    requires !op.Measured? ==> forall c :: Touches(op, c) ==> c.ks == ks && Covers(r, c.key)
    ensures var tx' := Noted(Did(tx, op), ks, r);
            Marked(tx') && Explained(tx'.ops, base) && Writes(tx'.ops) == Writes(tx.ops)
  {
    var tx' := Noted(Did(tx, op), ks, r);
    WritesAppend(tx.ops, op);
    ExplainedAppend(tx.ops, op, base);
    forall i, c | 0 <= i < |tx'.ops| && !tx'.ops[i].Measured? && Touches(tx'.ops[i], c)
      ensures ReadsKey(tx'.marks, c.ks, c.key)
    {
      PushedReadExact(tx.marks, ks, r, c.ks, c.key);
      if i < |tx.ops| {
        assert tx'.ops[i] == tx.ops[i];
      }
    }
  }

  lemma UnrecordedSize(tx: Tx, base: Db, op: Op)
    requires Marked(tx) && tx.overlay == Writes(tx.ops) && Explained(tx.ops, base)
    requires op.Measured? && Justified(op, Patched(base, Writes(tx.ops)))
    ensures var tx' := Did(tx, op);
            Marked(tx') && Explained(tx'.ops, base) && Writes(tx'.ops) == Writes(tx.ops)
  {
    WritesAppend(tx.ops, op);
    ExplainedAppend(tx.ops, op, base);
  }

  lemma RecordsWrite(tx: Tx, base: Db, op: Op)
    requires Marked(tx) && tx.overlay == Writes(tx.ops) && Explained(tx.ops, base) && op.Put?
    ensures var tx' := Claimed(Wrote(tx, op.cell, op.value), op.cell);
            Marked(tx') && Explained(tx'.ops, base) && Writes(tx'.ops) == Writes(tx.ops)[op.cell := op.value]
  {
    WritesAppend(tx.ops, op);
    ExplainedAppend(tx.ops, op, base);
    RecordsKey(tx, op.cell);
  }

  lemma RecordsKey(tx: Tx, c: Cell)
    requires Marked(tx)
    ensures Marked(Claimed(tx, c))
  {
    forall i, d | 0 <= i < |tx.ops| && !tx.ops[i].Measured? && Touches(tx.ops[i], d)
      ensures ReadsKey(Claimed(tx, c).marks, d.ks, d.key)
    {
      assert ReadsKey(tx.marks, d.ks, d.key);
    }
  }

  lemma RecordsKept(tx: Tx, base: Db, c: Cell)
    requires Marked(tx) && Explained(tx.ops, base)
    ensures var tx' := Claimed(Did(tx, Kept(c)), c);
            Marked(tx') && Explained(tx'.ops, base) && Writes(tx'.ops) == Writes(tx.ops)
  {
    hide Explained;
    WritesAppend(tx.ops, Kept(c));
    ExplainedAppend(tx.ops, Kept(c), base);
    RecordsKey(Did(tx, Kept(c)), c);
  }

  lemma ReadStep(s: State, tx: Tx, op: Op, ks: nat, r: Read)
    requires TxOk(s, tx) && !op.Put?
    requires Justified(op, Patched(DbAt(s.log, tx.instant), Writes(tx.ops)))
    requires !op.Measured? ==> forall c :: Touches(op, c) ==> c.ks == ks && Covers(r, c.key)
    ensures TxOk(s, Noted(Did(tx, op), ks, r))
    ensures op.Measured? ==> TxOk(s, Did(tx, op))
  {
    hide Marked, Explained;
    RecordsRead(tx, DbAt(s.log, tx.instant), op, ks, r);
    if op.Measured? {
      UnrecordedSize(tx, DbAt(s.log, tx.instant), op);
    }
  }

  lemma WriteStep(s: State, tx: Tx, c: Cell, value: Option<Value>)
    requires TxOk(s, tx)
    ensures TxOk(s, Claimed(Wrote(tx, c, value), c))
  {
    hide Marked, Explained;
    RecordsWrite(tx, DbAt(s.log, tx.instant), Put(c, value));
  }

  lemma KeepStep(s: State, tx: Tx, c: Cell)
    requires TxOk(s, tx)
    ensures TxOk(s, Claimed(Did(tx, Kept(c)), c))
  {
    hide Marked, Explained;
    RecordsKept(tx, DbAt(s.log, tx.instant), c);
  }

  lemma OpStep(s: State, tx: Tx, e: Event)
    requires StoreOk(s) && TxOk(s, tx) && IsOp(e)
    ensures TxOk(s, AfterOp(tx, s.store, e))
  {
    match e
    case Get(_, c) =>
      OverlayRefinesReplay(s, tx, c);
      ReadStep(s, tx, Got(c, TxGet(tx, s.store, c)), c.ks, Single(c.key));
    case ContainsKey(_, c) =>
      OverlayRefinesReplay(s, tx, c);
      ReadStep(s, tx, Checked(c, TxGet(tx, s.store, c).Some?), c.ks, Single(c.key));
    case SizeOf(_, c) =>
      OverlayRefinesReplay(s, tx, c);
      ReadStep(s, tx, Measured(c, Size(TxGet(tx, s.store, c))), c.ks, Single(c.key));
    case ScanRange(_, ks, start, end) =>
      ScanRefinesReplay(s, tx, ks, start, end);
      ReadStep(s, tx, Scanned(ks, start, end, TxScan(tx, s.store, ks, start, end)), ks, RangeRead(start, end));
    case Write(_, c, value) =>
      WriteStep(s, tx, c, value);
    case Update(_, c, value) =>
      UpdateStep(s, tx, c, value);
  }

  lemma UpdateStep(s: State, tx: Tx, c: Cell, value: Option<Value>)
    requires StoreOk(s) && TxOk(s, tx)
    ensures TxOk(s, Updated(tx, s.store, c, value))
  {
    hide TxOk, StoreOk, TxGet, Explained;
    var prev := TxGet(tx, s.store, c);
    UpdateReads(s, tx, c);
    var read := Noted(Did(tx, Got(c, prev)), c.ks, Single(c.key));
    if value != prev {
      WriteStep(s, read, c, value);
      assert Updated(tx, s.store, c, value) == Claimed(Wrote(read, c, value), c);
    } else {
      KeepStep(s, read, c);
      assert Updated(tx, s.store, c, value) == Claimed(Did(read, Kept(c)), c);
    }
  }

  lemma UpdateReads(s: State, tx: Tx, c: Cell)
    requires StoreOk(s) && TxOk(s, tx)
    ensures TxOk(s, Noted(Did(tx, Got(c, TxGet(tx, s.store, c))), c.ks, Single(c.key)))
  {
    OverlayRefinesReplay(s, tx, c);
    ReadStep(s, tx, Got(c, TxGet(tx, s.store, c)), c.ks, Single(c.key));
  }

  // ---------------------------------------------------------------------------
  // Steps that leave the log, the store and the lock alone.

  /** The parts of a state that the store's, history's and lock's obligations speak of. */
  ghost predicate SameData(s: State, s': State) {
    && s'.store == s.store && s'.log == s.log && s'.lock == s.lock && s'.seqno == s.seqno
    && s'.committed == s.committed && s'.stamps == s.stamps
    && s'.tracker.visible == s.tracker.visible && s.tracker.watermark <= s'.tracker.watermark
  }

  lemma HistoryFrame(s: State, s': State)
    requires HistoryOk(s) && s'.log == s.log && s'.stamps == s.stamps && s'.committed == s.committed
    requires s'.lock.Unrecorded? == s.lock.Unrecorded?
    requires s.tracker.visible <= s'.tracker.visible && s.tracker.watermark <= s'.tracker.watermark
    ensures HistoryOk(s')
  {
    forall j | 0 <= j < |s'.stamps| && s'.stamps[j] > s'.tracker.watermark
      ensures Remembers(s', j)
    {
      assert Remembers(s, j);
    }
  }

  lemma DataFrame(s: State, s': State)
    requires LogOk(s) && StoreOk(s) && HistoryOk(s) && LockOk(s) && SameData(s, s')
    ensures LogOk(s') && StoreOk(s') && HistoryOk(s') && LockOk(s')
  {
    hide Marked, Explained, ExplainedButSizes;
    HistoryFrame(s, s');
  }

  lemma TxFrame(s: State, s': State, tx: Tx)
    requires TxOk(s, tx) && s'.log == s.log && s'.lock == s.lock
    requires s.tracker.visible <= s'.tracker.visible && Supported(s', tx.instant)
    ensures TxOk(s', tx)
  {
  }

  /** Steps that only change who holds snapshots, or raise the watermark below every
      transaction. */
  lemma HoldersStep(s: State, s': State)
    requires Inv(s) && SameData(s, s') && NoncesOk(s') && TrackerOk(s')
    requires s'.txs.Keys <= s.txs.Keys && forall t :: t in s'.txs ==> s'.txs[t] == s.txs[t] && Supported(s', s.txs[t].instant)
    ensures Inv(s')
  {
    hide StoreOk, LockOk, HistoryOk, LogOk, TxOk, Serial, SawSnapshots, Supported;
    DataFrame(s, s');
    forall t | t in s'.txs
      ensures TxOk(s', s'.txs[t])
    {
      TxFrame(s, s', s'.txs[t]);
    }
  }

  lemma TxsSupported(s: State)
    requires TxsOk(s)
    ensures forall t :: t in s.txs ==> Supported(s, s.txs[t].instant)
  {
  }

  lemma BeginStep(s: State, t: nat, n: nat)
    requires Inv(s) && s.lock.Idle? && t !in s.txs && FreshNonce(s, n)
    ensures Inv(Begun(s, t, n))
  {
    hide StoreOk, LockOk, HistoryOk, LogOk, TxOk, Serial, SawSnapshots;
    var s' := Begun(s, t, n);
    T.InstantsGrow(s.nonces, n, s.tracker.visible);
    DataFrame(s, s');
    TxsSupported(s);
    FreshTxOk(s', n, s.tracker.visible);
    forall u | u in s'.txs && u != t
      ensures TxOk(s', s'.txs[u])
    {
      TxFrame(s, s', s'.txs[u]);
    }
  }

  lemma FreshTxOk(s: State, n: nat, i: nat)
    requires i <= s.tracker.visible && Supported(s, i) && Settled(s, i)
    ensures TxOk(s, Tx(n, i, [], map[], Blank))
  {
  }

  lemma OpEventStep(s: State, e: Event)
    requires Inv(s) && IsOp(e) && e.t in s.txs
    ensures Inv(Operated(s, e))
  {
    hide StoreOk, LockOk, HistoryOk, LogOk, TxOk, AfterOp, Serial, SawSnapshots, T.Bounded;
    var s' := Operated(s, e);
    OpStep(s, s.txs[e.t], e);
    DataFrame(s, s');
    forall u | u in s'.txs
      ensures TxOk(s', s'.txs[u])
    {
      TxFrameSame(s, s', s'.txs[u]);
    }
  }

  lemma TxFrameSame(s: State, s': State, tx: Tx)
    requires TxOk(s, tx) && s'.log == s.log && s'.tracker == s.tracker && s'.lock == s.lock
    ensures TxOk(s', tx)
  {
  }

  lemma FinishStep(s: State, t: nat)
    requires Inv(s) && t in s.txs
    ensures Inv(Finished(s, t))
  {
    hide StoreOk, LockOk, HistoryOk, LogOk, TxOk, Serial, SawSnapshots;
    TxsSupported(s);
    T.InstantsShrink(s.nonces, s.txs[t].nonce);
    HoldersStep(s, Finished(s, t));
  }

  lemma HoldStep(s: State, n: nat, instant: nat)
    requires Inv(s) && FreshNonce(s, n) && instant <= s.tracker.visible
    ensures Inv(SnapshotHeld(s, n, instant))
  {
    hide StoreOk, LockOk, HistoryOk, LogOk, TxOk, Serial, SawSnapshots;
    TxsSupported(s);
    T.InstantsGrow(s.nonces, n, instant);
    HoldersStep(s, SnapshotHeld(s, n, instant));
  }

  lemma CloseStep(s: State, n: nat)
    requires Inv(s) && n in s.nonces && forall t :: t in s.txs ==> s.txs[t].nonce != n
    ensures Inv(SnapshotClosed(s, n))
  {
    hide StoreOk, LockOk, HistoryOk, LogOk, TxOk, Serial, SawSnapshots;
    TxsSupported(s);
    T.InstantsShrink(s.nonces, n);
    HoldersStep(s, SnapshotClosed(s, n));
  }

  /** The second release of a committed transaction's instant, shared or not. */
  lemma LeftoverStep(s: State, n: nat)
    requires Inv(s) && n in s.leftovers
    ensures Inv(LeftoverDropped(s, n))
  {
    hide StoreOk, LockOk, HistoryOk, LogOk, TxOk, Serial, SawSnapshots;
    TxsSupported(s);
    HoldersStep(s, LeftoverDropped(s, n));
  }

  lemma TxsSound(s: State)
    requires NoncesOk(s) && TrackerOk(s) && TxsOk(s)
    ensures T.Sound(s.tracker, TxInstants(s))
  {
    TxsSupported(s);
  }

  lemma CollectStep(s: State, order: seq<nat>)
    requires Inv(s) && T.CollectSafe(s.tracker, TxInstants(s)) && T.IsOrder(order, s.tracker.counts.Keys)
    ensures Inv(s.(tracker := T.Collected(s.tracker, order)))
  {
    hide StoreOk, LockOk, HistoryOk, LogOk, TxOk, Serial, SawSnapshots, T.CollectSafe, T.Kept, T.IsOrder;
    var s' := s.(tracker := T.Collected(s.tracker, order));
    TxsSound(s);
    T.GcExact(s.tracker, TxInstants(s));
    T.CollectedSafeAt(s.tracker, TxInstants(s), order);
    assert forall t :: t in s.txs ==> s.txs[t].instant in TxInstants(s);
    HoldersStep(s, s');
  }

  lemma PullupStep(s: State)
    requires Inv(s) && T.PullupSafe(s.tracker, TxInstants(s))
    ensures Inv(s.(tracker := T.PulledUp(s.tracker)))
  {
    hide StoreOk, LockOk, HistoryOk, LogOk, TxOk, Serial, SawSnapshots, T.PullupSafe;
    TxsSound(s);
    T.PullupExact(s.tracker, TxInstants(s));
    assert forall t :: t in s.txs ==> s.txs[t].instant in TxInstants(s);
    HoldersStep(s, s.(tracker := T.PulledUp(s.tracker)));
  }

  // ---------------------------------------------------------------------------
  // Committing.

  /** A commit that wrote a cell the transaction read after its snapshot is still
      remembered, and the conflict test finds it. */
  lemma OverwrittenReadConflicts(s: State, tx: Tx, i: nat, j: nat, c: Cell)
    requires HistoryOk(s) && !s.lock.Unrecorded? && Marked(tx) && Supported(s, tx.instant)
    requires i < |tx.ops| && !tx.ops[i].Measured? && Touches(tx.ops[i], c)
    requires j < |s.log| && s.log[j].seqno >= tx.instant && c in Writes(s.log[j].ops)
    ensures Conflicted(s, tx)
  {
    assert Remembers(s, j);
    var other := s.committed[s.stamps[j]];
    assert ReadsKey(tx.marks, c.ks, c.key) && WritesKey(other, c.ks, c.key);
    assert Clashes(tx.marks, other);
  }

  /** The heart of the argument: passing the conflict test means that nothing the
      transaction read has changed, so it could have run at the end of the log. */
  lemma CommitExplained(s: State, tx: Tx)
    requires HistoryOk(s) && !s.lock.Unrecorded? && TxOk(s, tx) && !Conflicted(s, tx)
    ensures ExplainedButSizes(tx.ops, DbAfter(s.log))
  {
    hide Explained, ExplainedButSizes, Marked, Conflicted, HistoryOk;
    forall i, j, c |
      0 <= i < |tx.ops| && !tx.ops[i].Measured? && 0 <= j < |s.log| && s.log[j].seqno >= tx.instant && Touches(tx.ops[i], c)
      ensures c !in Writes(s.log[j].ops)
    {
      if c in Writes(s.log[j].ops) {
        OverwrittenReadConflicts(s, tx, i, j, c);
      }
    }
    StillExplained(tx.ops, s.log, tx.instant);
  }

  lemma PruneKeepsHistory(s: State, s': State)
    requires HistoryOk(s) && !s.lock.Unrecorded? && !s'.lock.Unrecorded?
    requires s'.log == s.log && s'.stamps == s.stamps && s'.tracker.visible == s.tracker.visible
    requires s'.tracker.watermark == s.tracker.watermark
    requires s'.committed == Pruned(s.committed, s.tracker.watermark)
    ensures HistoryOk(s')
  {
    forall j | 0 <= j < |s'.stamps| && s'.stamps[j] > s'.tracker.watermark
      ensures Remembers(s', j)
    {
      assert Remembers(s, j);
    }
  }

  lemma PruneStep(s: State)
    requires Inv(s) && !s.lock.Unrecorded?
    ensures Inv(HistoryPruned(s))
  {
    hide TxOk, Serial, SawSnapshots, T.Bounded, HistoryOk;
    var s' := HistoryPruned(s);
    PruneKeepsHistory(s, s');
    PruneKeepsData(s, s');
    forall u | u in s'.txs
      ensures TxOk(s', s'.txs[u])
    {
      TxFrameSame(s, s', s'.txs[u]);
    }
  }

  lemma PruneKeepsData(s: State, s': State)
    requires LogOk(s) && StoreOk(s) && LockOk(s) && s' == s.(committed := s'.committed)
    ensures LogOk(s') && StoreOk(s') && LockOk(s')
  {
    hide Marked, Explained, ExplainedButSizes;
  }

  /** Taking (or not taking) the lock leaves log and store in order. */
  lemma LockTaken(s: State, tx: Tx, s': State)
    requires LogOk(s) && StoreOk(s) && HistoryOk(s) && s.lock.Idle? && s.tracker.visible <= s.seqno && TxOk(s, tx)
    requires s'.store == s.store && s'.log == s.log && s'.stamps == s.stamps
    requires s'.tracker.visible == s.tracker.visible && s'.tracker.watermark == s.tracker.watermark
    requires || (s'.lock.Idle? && s'.seqno == s.seqno)
             || (&& s'.lock == Applying(tx, s.seqno, tx.overlay) && s'.seqno == s.seqno + 1
                 && ExplainedButSizes(tx.ops, DbAfter(s.log)))
    ensures LogOk(s') && StoreOk(s') && LockOk(s')
  {
    hide Marked, Explained, ExplainedButSizes;
  }

  lemma StartCommitStep(s: State, t: nat)
    requires Inv(s) && s.lock.Idle? && t in s.txs
    ensures Inv(CommitStarted(s, t))
  {
    hide NoncesOk, LogOk, StoreOk, HistoryOk, LockOk, Serial, SawSnapshots, TxOk, ExplainedButSizes, Conflicted;
    var tx := s.txs[t];
    var s' := CommitStarted(s, t);
    T.InstantsShrink(s.nonces, tx.nonce);
    TxsAfterCommitStart(s, t);
    PruneKeepsHistory(s, s');
    if !Conflicted(s, tx) {
      CommitExplained(s, tx);
    }
    LockTaken(s, tx, s');
  }

  lemma TxsAfterCommitStart(s: State, t: nat)
    requires NoncesOk(s) && TxsOk(s) && t in s.txs && s.lock.Idle? && s.tracker.visible <= s.seqno
    ensures NoncesOk(CommitStarted(s, t)) && TxsOk(CommitStarted(s, t))
  {
    hide TxOk;
    var s' := CommitStarted(s, t);
    forall u | u in s'.txs
      ensures TxOk(s', s'.txs[u])
    {
      TxSame(s, s', s'.txs[u]);
    }
  }

  lemma TxSame(s: State, s': State, tx: Tx)
    requires TxOk(s, tx) && s'.log == s.log && (s'.lock.Applying? ==> s.tracker.visible <= s'.lock.seqno || s'.lock.seqno == SeqnoInFlight(s))
    requires s'.tracker.visible == s.tracker.visible && s'.tracker.watermark == s.tracker.watermark
    ensures TxOk(s', tx)
  {
  }

  /** The sequence number of the batch in flight, if there is one. */
  function SeqnoInFlight(s: State): int {
    if s.lock.Applying? then s.lock.seqno else -1
  }

  // ---------------------------------------------------------------------------
  // Applying, publishing and recording a batch.

  lemma ApplyItemStep(s: State, c: Cell)
    requires Inv(s) && s.lock.Applying? && c in s.lock.todo
    ensures Inv(ItemApplied(s, c))
  {
    hide NoncesOk, HistoryOk, Serial, SawSnapshots, TxOk, StoreOk, LockOk, T.Bounded;
    var s' := ItemApplied(s, c);
    ItemKeepsStore(s, c);
    ItemKeepsLock(s, c);
    ItemKeepsRest(s, s');
  }

  lemma ItemKeepsLock(s: State, c: Cell)
    requires LockOk(s) && s.lock.Applying? && c in s.lock.todo
    ensures LockOk(ItemApplied(s, c))
  {
    hide Explained, ExplainedButSizes, Marked;
  }

  lemma ItemKeepsStore(s: State, c: Cell)
    requires StoreOk(s) && LockOk(s) && s.lock.Applying? && c in s.lock.todo
    ensures StoreOk(ItemApplied(s, c))
  {
    hide Explained, ExplainedButSizes, Marked;
    var s', q := ItemApplied(s, c), s.lock.seqno;
    forall i: nat, d | Supported(s', i)
      ensures ReadAt(s'.store, i, d) == Seen(s', i, d)
    {
      if d == c && q < i {
        assert IsNewest(s'.store, i, c, q);
        ReadAtIs(s'.store, i, c, q);
      } else {
        ReadAtSame(s'.store, s.store, i, i, d);
      }
    }
  }

  lemma ItemKeepsRest(s: State, s': State)
    requires NoncesOk(s) && TxsOk(s) && HistoryOk(s) && LogOk(s)
    requires s' == s.(store := s'.store, lock := s'.lock) && s.lock.Applying? && s'.lock.Applying? && s'.lock.seqno == s.lock.seqno
    ensures NoncesOk(s') && TxsOk(s') && HistoryOk(s') && LogOk(s')
  {
    hide TxOk;
    HistoryFrame(s, s');
    forall u | u in s'.txs
      ensures TxOk(s', s'.txs[u])
    {
      TxSame(s, s', s'.txs[u]);
    }
  }

  /** Publishing turns the applied batch into the newest commit: every supported read now sees
      the whole of it or nothing. */
  lemma PublishKeepsStore(s: State)
    requires StoreOk(s) && LockOk(s) && s.lock.Applying? && s.lock.todo == map[]
    ensures StoreOk(BatchPublished(s))
  {
    hide ExplainedButSizes, Explained, Marked;
    var s' := BatchPublished(s);
    var e := Commit(s.lock.seqno, s.lock.tx.instant, s.lock.tx.ops);
    forall i: nat, c | Supported(s', i)
      ensures Seen(s', i, c) == Seen(s, i, c)
    {
      PrefixAppend(s.log, e, i);
      if s.lock.seqno < i {
        PrefixFull(s.log, i);
        DbAfterAppend(s.log, e);
        LookupPatched(DbAfter(s.log), Writes(e.ops), c);
      }
    }
  }

  lemma PublishKeepsTxs(s: State)
    requires TxsOk(s) && s.lock.Applying?
    ensures TxsOk(BatchPublished(s))
  {
    hide Explained, Marked;
    var s' := BatchPublished(s);
    var e := Commit(s.lock.seqno, s.lock.tx.instant, s.lock.tx.ops);
    forall u | u in s'.txs
      ensures TxOk(s', s'.txs[u])
    {
      assert TxOk(s, s.txs[u]);
      PrefixAppend(s.log, e, s.txs[u].instant);
    }
  }

  lemma PublishKeepsHistory(s: State)
    requires HistoryOk(s) && LockOk(s) && s.lock.Applying?
    ensures HistoryOk(BatchPublished(s))
  {
    hide Explained, ExplainedButSizes, Marked;
    var s' := BatchPublished(s);
    forall j | 0 <= j < |s'.stamps| && s'.stamps[j] > s'.tracker.watermark
      ensures Remembers(s', j)
    {
      assert Remembers(s, j);
    }
  }

  lemma PublishKeepsLog(s: State)
    requires LogOk(s) && LockOk(s) && Serial(s.log) && SawSnapshots(s.log) && s.lock.Applying?
    ensures LogOk(BatchPublished(s)) && LockOk(BatchPublished(s))
    ensures Serial(BatchPublished(s).log) && SawSnapshots(BatchPublished(s).log)
  {
    hide ExplainedButSizes, Explained, Marked, Serial, SawSnapshots;
    var e := Commit(s.lock.seqno, s.lock.tx.instant, s.lock.tx.ops);
    SerialAppend(s.log, e);
    SawAppend(s.log, e);
  }

  lemma PublishStep(s: State)
    requires Inv(s) && s.lock.Applying? && s.lock.todo == map[]
    ensures Inv(BatchPublished(s))
  {
    hide LogOk, StoreOk, HistoryOk, Serial, SawSnapshots, TxsOk, ExplainedButSizes, Explained, Marked;
    PublishKeepsStore(s);
    PublishKeepsTxs(s);
    PublishKeepsHistory(s);
    PublishKeepsLog(s);
  }

  /** A batch that the write path refuses leaves nothing behind. */
  lemma AbortStep(s: State)
    requires Inv(s) && s.lock.Applying? && s.lock.todo == s.lock.tx.overlay
    ensures Inv(s.(lock := Idle))
  {
    hide NoncesOk, HistoryOk, Serial, SawSnapshots, TxOk, T.Bounded;
    var s' := s.(lock := Idle);
    AbortKeepsData(s, s');
    forall u | u in s'.txs
      ensures TxOk(s', s'.txs[u])
    {
      TxSame(s, s', s'.txs[u]);
    }
  }

  lemma AbortKeepsData(s: State, s': State)
    requires NoncesOk(s) && StoreOk(s) && HistoryOk(s) && s.lock.Applying? && s.lock.todo == s.lock.tx.overlay && s' == s.(lock := Idle)
    ensures NoncesOk(s') && StoreOk(s') && HistoryOk(s')
  {
    HistoryFrame(s, s');
  }

  /** Each commit is recorded under a key larger than all keys recorded before. */
  lemma RecordedUnderLargerKey(s: State)
    requires LogOk(s) && HistoryOk(s) && s.lock.Unrecorded? && s.log != []
    ensures forall j :: 0 <= j < |s.stamps| ==> s.stamps[j] < s.tracker.visible
    ensures forall ts :: ts in s.committed ==> ts < s.tracker.visible
  {
    forall ts | ts in s.committed
      ensures ts < s.tracker.visible
    {
      var j :| 0 <= j < |s.stamps| && s.stamps[j] == ts;
    }
  }

  lemma RecordKeepsHistory(s: State)
    requires LogOk(s) && HistoryOk(s) && LockOk(s) && s.lock.Unrecorded?
    ensures HistoryOk(CommitRecorded(s))
  {
    hide Marked, Remembers;
    var s', n := CommitRecorded(s), |s.stamps|;
    RecordedUnderLargerKey(s);
    MarkedWrites(s.lock.tx);
    forall j | 0 <= j < |s'.stamps| && s'.stamps[j] > s'.tracker.watermark
      ensures Remembers(s', j)
    {
      RecordRemembers(s, j);
    }
    forall ts | ts in s'.committed
      ensures ts in s'.stamps
    {
      assert s'.stamps[n] == s.tracker.visible;
    }
  }

  lemma RecordRemembers(s: State, j: nat)
    requires s.lock.Unrecorded? && |s.stamps| + 1 == |s.log| && s.log[|s.log| - 1].ops == s.lock.tx.ops && j < |s.log|
    requires forall c :: c in Writes(s.lock.tx.ops) ==> WritesKey(s.lock.tx.marks, c.ks, c.key)
    requires forall k :: 0 <= k < |s.stamps| ==> s.stamps[k] < s.tracker.visible
    requires j < |s.stamps| ==> Remembers(s, j)
    ensures Remembers(CommitRecorded(s), j)
  {
  }

  lemma MarkedWrites(tx: Tx)
    requires Marked(tx)
    ensures forall c :: c in tx.overlay ==> WritesKey(tx.marks, c.ks, c.key)
  {
  }

  lemma RecordStep(s: State)
    requires Inv(s) && s.lock.Unrecorded?
    ensures Inv(CommitRecorded(s))
  {
    hide HistoryOk, Serial, SawSnapshots, TxOk, T.Bounded;
    var s' := CommitRecorded(s);
    RecordKeepsHistory(s);
    forall u | u in s'.txs
      ensures TxOk(s', s'.txs[u])
    {
      TxSame(s, s', s'.txs[u]);
    }
  }

  // ---------------------------------------------------------------------------
  // Deleting a keyspace and compacting.

  /** Deletions may fall anywhere, even into a batch being applied. */
  lemma DeleteStep(s: State)
    requires Inv(s)
    ensures Inv(KeyspaceDeleted(s))
  {
    hide HistoryOk, Serial, SawSnapshots, TxOk, StoreOk, LockOk;
    var s' := KeyspaceDeleted(s);
    DeleteKeepsRest(s);
    TxsSupported(s);
    forall u | u in s'.txs
      ensures TxOk(s', s'.txs[u])
    {
      TxFrame(s, s', s'.txs[u]);
    }
  }

  lemma DeleteKeepsRest(s: State)
    requires StoreOk(s) && HistoryOk(s) && LockOk(s) && s.tracker.visible <= s.seqno
    ensures StoreOk(KeyspaceDeleted(s)) && HistoryOk(KeyspaceDeleted(s)) && LockOk(KeyspaceDeleted(s))
  {
    hide Marked, Explained, ExplainedButSizes;
    HistoryFrame(s, KeyspaceDeleted(s));
  }

  lemma CompactStep(s: State, v: Version)
    requires Inv(s) && Reclaimable(s, v)
    ensures Inv(s.(store := s.store - {v}))
  {
    hide NoncesOk, HistoryOk, Serial, SawSnapshots, TxOk, T.Bounded, LockOk, StoreOk, Reclaimable;
    var s' := s.(store := s.store - {v});
    CompactKeepsStore(s, v);
    CompactKeepsHistory(s, s');
    forall u | u in s'.txs
      ensures TxOk(s', s'.txs[u])
    {
      TxFrameSame(s, s', s'.txs[u]);
    }
  }

  lemma CompactKeepsStore(s: State, v: Version)
    requires StoreOk(s) && Reclaimable(s, v)
    ensures StoreOk(s.(store := s.store - {v}))
  {
    var s' := s.(store := s.store - {v});
    forall i: nat, c | Supported(s', i)
      ensures ReadAt(s'.store, i, c) == Seen(s', i, c)
    {
      ReclaimKeepsReads(s, v, i, c);
    }
  }

  lemma CompactKeepsHistory(s: State, s': State)
    requires NoncesOk(s) && HistoryOk(s) && LockOk(s) && s' == s.(store := s'.store)
    ensures NoncesOk(s') && HistoryOk(s') && LockOk(s')
  {
    hide Marked, Explained, ExplainedButSizes;
    HistoryFrame(s, s');
  }

  // ---------------------------------------------------------------------------
  // Runs.

  lemma StepInv(s: State, e: Event)
    requires Inv(s) && Enabled(s, e) && Harmless(s, e, Transactions)
    ensures Inv(Step(s, e))
  {
    hide Inv, Begun, Operated, CommitStarted, ItemApplied, BatchPublished, CommitRecorded;
    hide LeftoverDropped, Finished, SnapshotHeld, SnapshotClosed, KeyspaceDeleted, HistoryPruned;
    match e
    case Begin(t, n) => BeginStep(s, t, n);
    case StartCommit(t) => StartCommitStep(s, t);
    case ApplyItem(c) => ApplyItemStep(s, c);
    case PublishBatch => PublishStep(s);
    case Abort => AbortStep(s);
    case Record => RecordStep(s);
    case DropLeftover(n) => LeftoverStep(s, n);
    case Finish(t) => FinishStep(s, t);
    case OpenSnapshot(n) => HoldStep(s, n, s.tracker.visible);
    case CloneSnapshot(n, m) =>
      LivePublished(s, n);
      HoldStep(s, m, s.nonces[n]);
    case CloseSnapshot(n) => CloseStep(s, n);
    case Collect(order) => CollectStep(s, order);
    case Pullup => PullupStep(s);
    case Prune => PruneStep(s);
    case DeleteKeyspace => DeleteStep(s);
    case Compact(v) => CompactStep(s, v);
    case _ => OpEventStep(s, e);
  }

  lemma LivePublished(s: State, n: nat)
    requires Inv(s) && n in s.nonces
    ensures s.nonces[n] <= s.tracker.visible
  {
    assert s.nonces[n] in T.Instants(s.nonces);
  }

  lemma InitInv(visible: nat)
    ensures Inv(Init(visible))
  {
    assert forall i, c, q :: !IsNewest(Init(visible).store, i, c, q);
  }

  lemma {:induction false} RunInv(s: State, es: seq<Event>)
    requires Inv(s) && Valid(s, es) && AllHarmless(s, es, Transactions)
    ensures Inv(After(s, es))
    decreases |es|
  {
    hide Inv;
    if es != [] {
      StepInv(s, es[0]);
      RunInv(Step(s, es[0]), es[1..]);
    }
  }
}
