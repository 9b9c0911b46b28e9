/** What the transaction machine guarantees over whole runs. */
module TxTheorems {
  import opened Conflicts
  import opened SerialSpec
  import opened TxModel
  import opened Serializability
  import opened Precision
  import T = SnapshotTracker

  /** The committed transactions, in commit order, form a serial execution that produces
      the store's contents; each of them, and every transaction still open, saw exactly its
      snapshot. */
  ghost predicate Serializable(s: State) {
    && Serial(s.log) && SawSnapshots(s.log)
    && (Settled(s, s.tracker.visible) ==> forall c :: ReadAt(s.store, s.tracker.visible, c) == Lookup(DbAfter(s.log), c))
    && (forall t :: t in s.txs ==> Explained(s.txs[t].ops, DbAt(s.log, s.txs[t].instant)))
  }

  /** Serializability of every run that never overtakes an open transaction, whatever the
      interleaving, shared instants and keyspace deletions included. */
  lemma RunsAreSerializable(visible: nat, es: seq<Event>)
    requires Valid(Init(visible), es) && AllHarmless(Init(visible), es, Transactions)
    ensures Serializable(After(Init(visible), es))
  {
    InitInv(visible);
    RunInv(Init(visible), es);
    InvSerializable(After(Init(visible), es));
  }

  lemma InvSerializable(s: State)
    requires Inv(s)
    ensures Serializable(s)
  {
    hide HistoryOk, LockOk, Serial, SawSnapshots, Explained, Marked;
    PrefixFull(s.log, s.tracker.visible);
    assert Supported(s, s.tracker.visible);
    forall t | t in s.txs
      ensures Explained(s.txs[t].ops, DbAt(s.log, s.txs[t].instant))
    {
      assert TxOk(s, s.txs[t]);
    }
  }

  // ---------------------------------------------------------------------------
  // Which runs are harmless.

  /** Neither of the two steps that raise the watermark. */
  predicate NeverRaises(es: seq<Event>) {
    forall i :: 0 <= i < |es| ==> !es[i].Collect? && !es[i].Pullup?
  }

  lemma {:induction false} UnraisedHarmless(s: State, es: seq<Event>, scope: Scope)
    requires Valid(s, es) && NeverRaises(es)
    ensures AllHarmless(s, es, scope)
    decreases |es|
  {
    hide Step, Enabled;
    if es != [] {
      UnraisedHarmless(Step(s, es[0]), es[1..], scope);
    }
  }

  /** Until the watermark first moves, every run is serializable. */
  lemma UnraisedRunsAreSerializable(visible: nat, es: seq<Event>)
    requires Valid(Init(visible), es) && NeverRaises(es)
    ensures Serializable(After(Init(visible), es))
  {
    UnraisedHarmless(Init(visible), es, Transactions);
    RunsAreSerializable(visible, es);
  }

  lemma TxsHoldInstants(s: State)
    requires NoncesOk(s)
    ensures TxInstants(s) <= T.Instants(s.nonces)
  {
    forall t | t in s.txs
      ensures s.txs[t].instant in T.Instants(s.nonces)
    {
      assert s.nonces[s.txs[t].nonce] in T.Instants(s.nonces);
    }
  }

  /** A run that respects everybody respects the transactions. */
  lemma {:induction false} HarmlessToAll(s: State, es: seq<Event>)
    requires NoncesOk(s) && Valid(s, es) && AllHarmless(s, es, Everyone)
    ensures AllHarmless(s, es, Transactions)
    decreases |es|
  {
    hide Step, Enabled, NoncesOk;
    if es != [] {
      TxsHoldInstants(s);
      T.SafeForFewer(s.tracker, T.Instants(s.nonces), TxInstants(s));
      StepKeepsNonces(s, es[0]);
      HarmlessToAll(Step(s, es[0]), es[1..]);
    }
  }

  // ---------------------------------------------------------------------------
  // Conflicts and size queries.

  /** Two transactions that share an instant are no exception: once a commit has overwritten
      something a transaction read, that transaction cannot commit any more. */
  lemma OverwrittenReadsAbort(visible: nat, es: seq<Event>, t: nat, i: nat, j: nat, c: Cell)
    requires Valid(Init(visible), es) && AllHarmless(Init(visible), es, Transactions)
    requires var s := After(Init(visible), es);
             && s.lock.Idle? && t in s.txs && i < |s.txs[t].ops| && j < |s.log|
             && !s.txs[t].ops[i].Measured? && Touches(s.txs[t].ops[i], c)
             && s.log[j].seqno >= s.txs[t].instant && c in Writes(s.log[j].ops)
    ensures Conflicted(After(Init(visible), es), After(Init(visible), es).txs[t])
  {
    hide StoreOk, LockOk, Explained, Conflicted;
    InitInv(visible);
    RunInv(Init(visible), es);
    var s := After(Init(visible), es);
    assert TxOk(s, s.txs[t]);
    OverwrittenReadConflicts(s, s.txs[t], i, j, c);
  }

  /** A transaction starts from everything committed before it: what it reads first is the result
      of the whole log. */
  lemma BeginsFresh(visible: nat, es: seq<Event>, t: nat, n: nat, c: Cell)
    requires Valid(Init(visible), es) && AllHarmless(Init(visible), es, Transactions) && Enabled(After(Init(visible), es), Begin(t, n))
    ensures var s := After(Init(visible), es); var s' := Step(s, Begin(t, n));
            t in s'.txs && TxGet(s'.txs[t], s'.store, c) == Lookup(DbAfter(s.log), c)
  {
    hide TxGet, Inv, Valid, AllHarmless, After;
    var s := After(Init(visible), es);
    InitInv(visible);
    RunInv(Init(visible), es);
    FreshRead(s, t, n, c);
  }

  lemma FreshRead(s: State, t: nat, n: nat, c: Cell)
    requires Inv(s) && Enabled(s, Begin(t, n))
    ensures var s' := Begun(s, t, n); TxGet(s'.txs[t], s'.store, c) == Lookup(DbAfter(s.log), c)
  {
    hide TxGet, HistoryOk, LockOk, Serial, SawSnapshots, Explained, ReadAt;
    var s' := Begun(s, t, n);
    BeginStep(s, t, n);
    assert TxOk(s', s'.txs[t]);
    OverlayRefinesReplay(s', s'.txs[t], c);
    PrefixFull(s.log, s.tracker.visible);
    LookupPatched(DbAt(s.log, s.tracker.visible), map[], c);
  }

  lemma RecordRemains(s: State, tx: Tx, j: nat, c: Cell)
    requires HistoryOk(s) && Precise(s) && Supported(s, tx.instant) && ExactMarks(tx.marks, tx.ops)
    requires j < |s.stamps| && j < |s.log| && Overwrote(s, tx, j, c)
    ensures Conflicted(s, tx)
  {
    hide Reads, Claims, ReadsKey, WritesKey, Remembers, Holding, Dated;
    var ts := s.stamps[j];
    assert Remembers(s, j);
    StillThere(s, j);
    assert Stands(s, ts);
    var k :| 0 <= k < |s.stamps| && 0 <= k < |s.log| && s.stamps[k] == ts && ExactMarks(s.committed[ts], s.log[k].ops);
    assert k == j;
    assert ReadsKey(tx.marks, c.ks, c.key) && WritesKey(s.committed[ts], c.ks, c.key);
  }

  lemma StillThere(s: State, j: nat)
    requires j < |s.stamps| && j < |s.log| && Remembers(s, j)
    ensures s.stamps[j] in s.committed
  {
  }

  /** The conflict test is exact: over every run that overtakes no open transaction, one fails
      the test if and only if a commit recorded since its snapshot wrote, or updated, a cell
      that it read other than by asking for its size. */
  lemma ConflictsExactly(visible: nat, es: seq<Event>, t: nat)
    requires Valid(Init(visible), es) && AllHarmless(Init(visible), es, Transactions)
    requires t in After(Init(visible), es).txs
    ensures var s := After(Init(visible), es);
            Conflicted(s, s.txs[t]) <==> exists j, c :: 0 <= j < |s.stamps| && j < |s.log| && Overwrote(s, s.txs[t], j, c)
  {
    hide Overwrote, Conflicted, Valid, AllHarmless, After;
    var s := After(Init(visible), es);
    if Conflicted(s, s.txs[t]) {
      var j, c := NoFalseConflicts(visible, es, t);
    }
    if j, c :| 0 <= j < |s.stamps| && j < |s.log| && Overwrote(s, s.txs[t], j, c) {
      OpenOverRuns(visible, es, t);
      RecordRemains(s, s.txs[t], j, c);
    }
  }

  lemma OpenOverRuns(visible: nat, es: seq<Event>, t: nat)
    requires Valid(Init(visible), es) && AllHarmless(Init(visible), es, Transactions)
    requires t in After(Init(visible), es).txs
    ensures var s := After(Init(visible), es);
            HistoryOk(s) && Precise(s) && Supported(s, s.txs[t].instant) && ExactMarks(s.txs[t].marks, s.txs[t].ops)
  {
    hide Precise, HistoryOk, ExactMarks, StoreOk, LockOk, Serial, SawSnapshots, Explained, Marked;
    InitInv(visible);
    RunInv(Init(visible), es);
    InitPrecise(visible);
    RunPrecise(Init(visible), es);
    FootprintsAreExact(visible, es, t);
    var s := After(Init(visible), es);
    assert TxOk(s, s.txs[t]);
  }

  lemma LogOverRuns(visible: nat, es: seq<Event>)
    requires Valid(Init(visible), es) && AllHarmless(Init(visible), es, Transactions)
    ensures Serial(After(Init(visible), es).log) && SawSnapshots(After(Init(visible), es).log)
  {
    InitInv(visible);
    RunInv(Init(visible), es);
  }

  /** A size query is not recorded as a read. A committed transaction fits its place in the
      serial order in full if and only if every cell it measured, other than its own writes,
      has the same size there as in its snapshot. */
  lemma SizesFitExactly(visible: nat, es: seq<Event>, j: nat)
    requires Valid(Init(visible), es) && AllHarmless(Init(visible), es, Transactions)
    requires j < |After(Init(visible), es).log|
    ensures var log := After(Init(visible), es).log;
            Explained(log[j].ops, DbAfter(log[..j])) <==>
            SameSizes(log[j].ops, DbAt(log[..j], log[j].instant), DbAfter(log[..j]))
  {
    hide Explained, ExplainedButSizes, SameSizes;
    LogOverRuns(visible, es);
    var log := After(Init(visible), es).log;
    SizesExact(log[j].ops, DbAt(log[..j], log[j].instant), DbAfter(log[..j]));
  }

  /** No commit between a transaction's snapshot and its own commit wrote a cell it measured. */
  predicate MeasuredUntouched(log: seq<Commit>, j: nat)
    requires j < |log|
  {
    forall i, k :: 0 <= i < |log[j].ops| && AsksOutside(log[j].ops, i) && 0 <= k < j && log[k].seqno >= log[j].instant ==>
      log[j].ops[i].cell !in Writes(log[k].ops)
  }

  /** Then the transaction is explained in full. */
  lemma UntouchedSizesFit(visible: nat, es: seq<Event>, j: nat)
    requires Valid(Init(visible), es) && AllHarmless(Init(visible), es, Transactions)
    requires j < |After(Init(visible), es).log| && MeasuredUntouched(After(Init(visible), es).log, j)
    ensures var log := After(Init(visible), es).log; Explained(log[j].ops, DbAfter(log[..j]))
  {
    hide Explained, Valid, AllHarmless, After;
    SizesFitExactly(visible, es, j);
    var log := After(Init(visible), es).log;
    forall i | 0 <= i < |log[j].ops| && AsksOutside(log[j].ops, i)
      ensures Size(Lookup(DbAt(log[..j], log[j].instant), log[j].ops[i].cell)) == Size(Lookup(DbAfter(log[..j]), log[j].ops[i].cell))
    {
      UnwrittenSince(log[..j], log[j].instant, log[j].ops[i].cell);
    }
  }

  /** Pruning never drops a commit newer than the snapshot of a transaction still open. */
  lemma PruningIsSafe(visible: nat, es: seq<Event>, t: nat, j: nat)
    requires Valid(Init(visible), es) && AllHarmless(Init(visible), es, Transactions)
    requires var s := After(Init(visible), es);
             t in s.txs && j < |s.stamps| && j < |s.log| && s.log[j].seqno >= s.txs[t].instant
    ensures Remembers(After(Init(visible), es), j)
  {
    hide StoreOk, LockOk, Explained, Marked, Remembers;
    InitInv(visible);
    RunInv(Init(visible), es);
    var s := After(Init(visible), es);
    assert TxOk(s, s.txs[t]);
  }

  // ---------------------------------------------------------------------------
  // The watermark.

  /** What every run keeps, harmless or not. */
  predicate BasicOk(s: State) {
    TrackerOk(s) && (s.lock.Applying? ==> s.lock.seqno < s.seqno)
  }

  lemma OpStepKeeps(s: State, e: Event)
    requires Enabled(s, e) && IsOp(e)
    ensures var s' := Step(s, e); s'.nonces == s.nonces && s'.tracker == s.tracker && s'.lock == s.lock && s'.seqno == s.seqno
  {
    hide AfterOp, Reclaimable;
  }

  /** The instants of the live holders after a step. */
  lemma StepInstants(s: State, e: Event)
    requires Enabled(s, e)
    ensures T.Instants(Step(s, e).nonces) <= T.Instants(s.nonces) + {s.tracker.visible}
  {
    if IsOp(e) {
      hide Step;
      OpStepKeeps(s, e);
    } else if QuietEvent(e) {
      hide Step;
      QuietStep(s, e);
    } else {
      hide Reclaimable, Conflicted, T.Held, T.Released;
      match e
      case Begin(_, n) => T.InstantsGrow(s.nonces, n, s.tracker.visible);
      case OpenSnapshot(n) => T.InstantsGrow(s.nonces, n, s.tracker.visible);
      case CloneSnapshot(n, m) =>
        T.InstantsGrow(s.nonces, m, s.nonces[n]);
        assert s.nonces[n] in T.Instants(s.nonces);
      case StartCommit(t) => T.InstantsShrink(s.nonces, s.txs[t].nonce);
      case Finish(t) => T.InstantsShrink(s.nonces, s.txs[t].nonce);
      case CloseSnapshot(n) => T.InstantsShrink(s.nonces, n);
      case _ =>
    }
  }

  /** Only publishing moves the visible instant, and only up. */
  lemma StepVisible(s: State, e: Event)
    requires BasicOk(s) && Enabled(s, e)
    ensures var s' := Step(s, e);
            && s.tracker.visible <= s'.tracker.visible <= s'.seqno && (s'.lock.Applying? ==> s'.lock.seqno < s'.seqno)
  {
    if IsOp(e) {
      OpStepKeeps(s, e);
    } else {
      hide Reclaimable, Conflicted, T.Kept, T.Lowest, T.Bounded, T.Swept, T.CountOf;
    }
  }

  /** Only a collection or a pull-up moves the watermark. */
  lemma StepWatermark(s: State, e: Event)
    requires Enabled(s, e) && !e.Collect? && !e.Pullup?
    ensures Step(s, e).tracker.watermark == s.tracker.watermark
  {
    hide Reclaimable, Conflicted, AfterOp;
  }

  /** No step counts an instant that was never published. */
  lemma StepCounts(s: State, e: Event)
    requires TrackerOk(s) && Enabled(s, e)
    ensures forall k :: k in Step(s, e).tracker.counts ==> k in s.tracker.counts || k <= s.tracker.visible
  {
    hide Reclaimable, Conflicted, AfterOp, T.Kept, T.Lowest, T.Bounded;
    if e.CloneSnapshot? {
      ClonePublished(s, e.n);
    }
  }

  lemma CollectTracker(s: State, e: Event)
    requires Enabled(s, e)
    ensures e.Collect? ==> Step(s, e) == s.(tracker := T.Collected(s.tracker, e.order)) && T.IsOrder(e.order, s.tracker.counts.Keys)
    ensures e.Pullup? ==> Step(s, e) == s.(tracker := T.PulledUp(s.tracker))
  {
  }

  lemma StepBasic(s: State, e: Event)
    requires BasicOk(s) && Enabled(s, e)
    ensures BasicOk(Step(s, e)) && s.tracker.watermark <= Step(s, e).tracker.watermark
    ensures s.tracker.visible <= Step(s, e).tracker.visible
  {
    hide Step, Enabled, T.Instants, T.Collected;
    StepInstants(s, e);
    StepVisible(s, e);
    StepCounts(s, e);
    CollectTracker(s, e);
    if e.Collect? {
      T.CollectedSafeAt(s.tracker, {}, e.order);
    } else if !e.Pullup? {
      StepWatermark(s, e);
    }
  }

  lemma ClonePublished(s: State, n: nat)
    requires TrackerOk(s) && n in s.nonces
    ensures s.nonces[n] <= s.tracker.visible
  {
    assert s.nonces[n] in T.Instants(s.nonces);
  }

  /** Over every run, harmless or not, the watermark never falls and stays below the published
      instant. */
  lemma {:induction false} WatermarkNeverFalls(s: State, es: seq<Event>)
    requires BasicOk(s) && Valid(s, es)
    ensures BasicOk(After(s, es)) && s.tracker.watermark <= After(s, es).tracker.watermark
    decreases |es|
  {
    hide BasicOk, Step, Enabled;
    if es != [] {
      StepBasic(s, es[0]);
      WatermarkNeverFalls(Step(s, es[0]), es[1..]);
    }
  }

  /** The exact condition of a collection, for transactions or for everyone: whatever the
      iteration order, it leaves the watermark below every held instant. */
  lemma CollectExact(s: State, scope: Scope)
    requires T.Sound(s.tracker, HeldBy(s, scope))
    ensures Harmless(s, Collect([]), scope) <==>
            forall order :: T.IsOrder(order, s.tracker.counts.Keys) ==> T.Sound(T.Collected(s.tracker, order), HeldBy(s, scope))
  {
    T.GcExact(s.tracker, HeldBy(s, scope));
  }

  /** The exact condition of a pull-up. */
  lemma PullupExact(s: State, scope: Scope)
    requires T.Sound(s.tracker, HeldBy(s, scope))
    ensures Harmless(s, Pullup, scope) <==> T.Sound(T.PulledUp(s.tracker), HeldBy(s, scope))
  {
    T.PullupExact(s.tracker, HeldBy(s, scope));
  }

  lemma StepSpares(s: State, e: Event)
    requires T.Sound(s.tracker, T.Instants(s.nonces)) && Enabled(s, e) && Harmless(s, e, Everyone)
    ensures T.Sound(Step(s, e).tracker, T.Instants(Step(s, e).nonces))
  {
    if IsOp(e) {
      hide Step, T.Sound;
      OpStepKeeps(s, e);
    } else {
      hide T.Sound, T.Instants, T.Held, T.Released, T.Published, T.Collected, T.PulledUp, T.CollectSafe, T.PullupSafe, T.IsOrder,
        Reclaimable, Conflicted;
      var held := T.Instants(s.nonces);
      match e
      case Begin(_, n) => OpenSpares(s, n);
      case OpenSnapshot(n) => OpenSpares(s, n);
      case CloneSnapshot(n, m) => CloneSpares(s, n, m);
      case StartCommit(t) =>
        T.InstantsShrink(s.nonces, s.txs[t].nonce);
        T.ReleaseSound(s.tracker, held, T.Instants(s.nonces - {s.txs[t].nonce}), s.txs[t].instant);
      case DropLeftover(n) => T.ReleaseSound(s.tracker, held, held, s.leftovers[n]);
      case Finish(t) =>
        T.InstantsShrink(s.nonces, s.txs[t].nonce);
        T.ReleaseSound(s.tracker, held, T.Instants(s.nonces - {s.txs[t].nonce}), s.txs[t].instant);
      case CloseSnapshot(n) =>
        T.InstantsShrink(s.nonces, n);
        T.ReleaseSound(s.tracker, held, T.Instants(s.nonces - {n}), s.nonces[n]);
      case PublishBatch => T.PublishSound(s.tracker, held, s.lock.seqno);
      case DeleteKeyspace => T.PublishSound(s.tracker, held, s.seqno);
      case Collect(_) => CollectExact(s, Everyone);
      case Pullup => PullupExact(s, Everyone);
      case _ =>
    }
  }

  lemma OpenSpares(s: State, n: nat)
    requires T.Sound(s.tracker, T.Instants(s.nonces)) && n !in s.nonces
    ensures T.Sound(T.Held(s.tracker, s.tracker.visible), T.Instants(s.nonces[n := s.tracker.visible]))
  {
    T.InstantsGrow(s.nonces, n, s.tracker.visible);
    T.OpenSound(s.tracker, T.Instants(s.nonces));
  }

  lemma CloneSpares(s: State, n: nat, m: nat)
    requires T.Sound(s.tracker, T.Instants(s.nonces)) && n in s.nonces && m !in s.nonces
    ensures T.Sound(T.Held(s.tracker, s.nonces[n]), T.Instants(s.nonces[m := s.nonces[n]]))
  {
    assert s.nonces[n] in T.Instants(s.nonces);
    T.InstantsGrow(s.nonces, m, s.nonces[n]);
    T.HoldSound(s.tracker, T.Instants(s.nonces), s.nonces[n]);
  }

  lemma CloneSpared(s: State, n: nat)
    requires T.Sound(s.tracker, T.Instants(s.nonces)) && n in s.nonces
    ensures s.nonces[n] <= s.tracker.visible && Supported(s, s.nonces[n])
  {
    assert s.nonces[n] in T.Instants(s.nonces);
  }

  /** Over every run that is harmless to everyone the watermark also stays strictly below every
      held instant (or at 0). */
  lemma {:induction false} WatermarkOverRuns(s: State, es: seq<Event>)
    requires T.Sound(s.tracker, T.Instants(s.nonces)) && Valid(s, es) && AllHarmless(s, es, Everyone)
    ensures T.Sound(After(s, es).tracker, T.Instants(After(s, es).nonces))
    decreases |es|
  {
    hide Step, Enabled, Harmless, T.Sound;
    if es != [] {
      StepSpares(s, es[0]);
      WatermarkOverRuns(Step(s, es[0]), es[1..]);
    }
  }

  // ---------------------------------------------------------------------------
  // Snapshots.

  lemma SnapshotsSpared(visible: nat, es: seq<Event>)
    requires Valid(Init(visible), es) && AllHarmless(Init(visible), es, Everyone)
    ensures var s := After(Init(visible), es); Inv(s) && BasicOk(s) && T.Sound(s.tracker, T.Instants(s.nonces))
  {
    hide Inv, BasicOk, T.Sound, Step, Enabled;
    InitInv(visible);
    InitBasic(visible);
    HarmlessToAll(Init(visible), es);
    RunInv(Init(visible), es);
    WatermarkNeverFalls(Init(visible), es);
    WatermarkOverRuns(Init(visible), es);
  }

  lemma InitBasic(visible: nat)
    ensures var s := Init(visible); NoncesOk(s) && BasicOk(s) && T.Sound(s.tracker, T.Instants(s.nonces))
  {
  }

  lemma StoreAnswers(s: State, i: nat, c: Cell)
    requires Inv(s) && Supported(s, i)
    ensures ReadAt(s.store, i, c) == Seen(s, i, c)
  {
  }

  /** At every moment of every run that is harmless to everyone, a held snapshot sees a prefix
      of the commit order and the applied part of a batch below it that is still in flight. So
      it sees whole batches exactly when there is no such batch or what was applied of it
      changes nothing. */
  lemma SnapshotsAreWhole(visible: nat, es: seq<Event>, n: nat)
    requires Valid(Init(visible), es) && AllHarmless(Init(visible), es, Everyone)
    requires n in After(Init(visible), es).nonces
    ensures var s := After(Init(visible), es); var i := s.nonces[n];
            (forall c :: ReadAt(s.store, i, c) == Lookup(DbAt(s.log, i), c)) <==>
            (Settled(s, i) || forall c :: AlreadyApplied(s, c) ==> s.lock.tx.overlay[c] == Lookup(DbAt(s.log, i), c))
  {
    hide Inv, BasicOk, Valid, AllHarmless, After, Harmless;
    SnapshotsSpared(visible, es);
    var s := After(Init(visible), es);
    var i := s.nonces[n];
    CloneSpared(s, n);
    forall c
      ensures ReadAt(s.store, i, c) == Seen(s, i, c)
    {
      StoreAnswers(s, i, c);
    }
  }

  /** A keyspace deletion publishes outside the journal lock; here none falls into a batch. */
  ghost predicate QuietDeletions(s: State, es: seq<Event>)
    requires Valid(s, es)
    decreases |es|
  {
    es == [] || ((es[0].DeleteKeyspace? ==> !s.lock.Applying?) && QuietDeletions(Step(s, es[0]), es[1..]))
  }

  lemma StepKeepsSettled(s: State, e: Event, i: nat)
    requires BasicOk(s) && Enabled(s, e) && i <= s.tracker.visible && Settled(s, i)
    ensures Settled(Step(s, e), i)
  {
    hide Reclaimable, Conflicted, AfterOp, T.Bounded, T.Collected, T.PulledUp;
  }

  lemma StepKeepsQuiet(s: State, e: Event)
    requires BasicOk(s) && Enabled(s, e) && Settled(s, s.tracker.visible) && (e.DeleteKeyspace? ==> !s.lock.Applying?)
    ensures Settled(Step(s, e), Step(s, e).tracker.visible)
  {
    hide Reclaimable, Conflicted, AfterOp, T.Bounded, T.Kept, T.Lowest;
  }

  /** Then every instant handed out is settled at all times, so every snapshot sees whole
      batches only. */
  lemma {:induction false} QuietRunsSettled(s: State, es: seq<Event>)
    requires BasicOk(s) && Valid(s, es) && QuietDeletions(s, es) && Settled(s, s.tracker.visible)
    ensures Settled(After(s, es), After(s, es).tracker.visible)
    decreases |es|
  {
    hide BasicOk, Step, Enabled, Settled;
    if es != [] {
      StepBasic(s, es[0]);
      StepKeepsQuiet(s, es[0]);
      QuietRunsSettled(Step(s, es[0]), es[1..]);
    }
  }

  lemma QuietSnapshotsAreWhole(visible: nat, es: seq<Event>, n: nat, c: Cell)
    requires Valid(Init(visible), es) && AllHarmless(Init(visible), es, Everyone) && QuietDeletions(Init(visible), es)
    requires n in After(Init(visible), es).nonces
    ensures var s := After(Init(visible), es); ReadAt(s.store, s.nonces[n], c) == Lookup(DbAt(s.log, s.nonces[n]), c)
  {
    hide Inv, Valid, AllHarmless, After, Harmless, QuietDeletions;
    SnapshotsSpared(visible, es);
    InitBasic(visible);
    QuietRunsSettled(Init(visible), es);
    var s := After(Init(visible), es);
    CloneSpared(s, n);
    StoreAnswers(s, s.nonces[n], c);
  }

  /** Commits published later are invisible at settled instants. */
  lemma StepKeepsPast(s: State, e: Event, i: nat)
    requires Enabled(s, e) && i <= s.tracker.visible && Settled(s, i)
    ensures Prefix(Step(s, e).log, i) == Prefix(s.log, i)
  {
    hide Reclaimable, Conflicted, AfterOp;
    if e.PublishBatch? {
      PrefixAppend(s.log, Commit(s.lock.seqno, s.lock.tx.instant, s.lock.tx.ops), i);
    }
  }

  lemma {:induction false} RunKeepsPast(s: State, es: seq<Event>, i: nat)
    requires BasicOk(s) && Valid(s, es) && i <= s.tracker.visible && Settled(s, i)
    ensures Prefix(After(s, es).log, i) == Prefix(s.log, i) && Settled(After(s, es), i)
    decreases |es|
  {
    hide BasicOk, Step, Enabled, Settled;
    if es != [] {
      StepBasic(s, es[0]);
      StepKeepsPast(s, es[0], i);
      StepKeepsSettled(s, es[0], i);
      RunKeepsPast(Step(s, es[0]), es[1..], i);
    }
  }

  /** Once settled, a held snapshot's answers never change, however the run continues. */
  lemma SnapshotsAreStable(visible: nat, es: seq<Event>, more: seq<Event>, n: nat, c: Cell)
    requires Valid(Init(visible), es) && AllHarmless(Init(visible), es, Everyone)
    requires Valid(After(Init(visible), es), more) && AllHarmless(After(Init(visible), es), more, Everyone)
    requires var s := After(Init(visible), es); var s' := After(s, more);
             n in s.nonces && n in s'.nonces && s.nonces[n] == s'.nonces[n] && Settled(s, s.nonces[n])
    ensures var s := After(Init(visible), es);
            ReadAt(After(s, more).store, s.nonces[n], c) == ReadAt(s.store, s.nonces[n], c)
  {
    hide Inv, BasicOk, Step, Enabled, Harmless;
    SnapshotsSpared(visible, es);
    var s := After(Init(visible), es);
    InvNonces(s);
    HarmlessToAll(s, more);
    RunInv(s, more);
    WatermarkOverRuns(s, more);
    var s' := After(s, more);
    var i := s.nonces[n];
    CloneSpared(s, n);
    CloneSpared(s', n);
    StoreAnswers(s, i, c);
    StoreAnswers(s', i, c);
    RunKeepsPast(s, more, i);
  }

  lemma InvNonces(s: State)
    requires Inv(s)
    ensures NoncesOk(s)
  {
  }

  // ---------------------------------------------------------------------------
  // The open counts.

  lemma OpKeepsNonces(s: State, e: Event)
    requires NoncesOk(s) && IsOp(e) && e.t in s.txs
    ensures NoncesOk(Operated(s, e))
  {
    hide AfterOp;
  }

  lemma StepKeepsNonces(s: State, e: Event)
    requires NoncesOk(s) && Enabled(s, e)
    ensures NoncesOk(Step(s, e))
  {
    hide Reclaimable, Conflicted, Operated, BatchPublished, CommitRecorded, ItemApplied, KeyspaceDeleted;
    if IsOp(e) {
      OpKeepsNonces(s, e);
    } else if QuietEvent(e) {
      QuietStep(s, e);
    }
  }

  /** Steps that change neither who holds a snapshot nor any transaction. */
  predicate QuietEvent(e: Event) {
    e.ApplyItem? || e.PublishBatch? || e.Abort? || e.Record? || e.Collect? || e.Pullup? || e.Prune? || e.DeleteKeyspace? || e.Compact?
  }

  lemma QuietStep(s: State, e: Event)
    requires Enabled(s, e) && QuietEvent(e)
    ensures Step(s, e).nonces == s.nonces && Step(s, e).txs == s.txs
    ensures forall i: nat :: T.CountOf(Step(s, e).tracker, i) == T.CountOf(s.tracker, i)
  {
    hide Reclaimable, Conflicted;
    if e.Collect? {
      T.GcCounts(s.tracker, e.order);
    }
  }

  /** Counts match holders after a step exactly when the step is not a leftover release
      of an instant that somebody still holds. */
  lemma StepTracksExactly(s: State, e: Event)
    requires NoncesOk(s) && Enabled(s, e) && T.Tracks(s.tracker, s.nonces)
    ensures T.Tracks(Step(s, e).tracker, Step(s, e).nonces) <==> LeftoverUnshared(s, e)
  {
    hide Reclaimable, Conflicted, T.Tracks, AfterOp, T.Held, T.Released;
    if QuietEvent(e) {
      hide Step;
      QuietStep(s, e);
      T.SameCountsTrack(s.tracker, Step(s, e).tracker, s.nonces);
    } else {
      match e
      case Begin(_, n) => T.HoldTracks(s.tracker, s.nonces, n, s.tracker.visible);
      case OpenSnapshot(n) => T.HoldTracks(s.tracker, s.nonces, n, s.tracker.visible);
      case CloneSnapshot(n, m) => T.HoldTracks(s.tracker, s.nonces, m, s.nonces[n]);
      case StartCommit(t) => T.DropTracks(s.tracker, s.nonces, s.txs[t].nonce);
      case Finish(t) => T.DropTracks(s.tracker, s.nonces, s.txs[t].nonce);
      case CloseSnapshot(n) => T.DropTracks(s.tracker, s.nonces, n);
      case DropLeftover(n) => T.SurplusTracksExact(s.tracker, s.nonces, s.leftovers[n]);
      case _ =>
    }
  }

  /** If this step drops a leftover nonce, nobody else holds its instant. */
  predicate LeftoverUnshared(s: State, e: Event) {
    e.DropLeftover? && e.n in s.leftovers ==> T.Holders(s.nonces, s.leftovers[e.n]) == {}
  }

  ghost predicate AlwaysTracks(s: State, es: seq<Event>)
    requires Valid(s, es)
    decreases |es|
  {
    T.Tracks(s.tracker, s.nonces) && (es == [] || AlwaysTracks(Step(s, es[0]), es[1..]))
  }

  ghost predicate LeftoversUnshared(s: State, es: seq<Event>)
    requires Valid(s, es)
    decreases |es|
  {
    es == [] || (LeftoverUnshared(s, es[0]) && LeftoversUnshared(Step(s, es[0]), es[1..]))
  }

  /** Over any run at all, the open counts are right throughout if and only if no commit's
      second release hits an instant that somebody else holds. */
  lemma {:induction false} CountsRightExactly(s: State, es: seq<Event>)
    requires NoncesOk(s) && T.Tracks(s.tracker, s.nonces) && Valid(s, es)
    ensures AlwaysTracks(s, es) <==> LeftoversUnshared(s, es)
    decreases |es|
  {
    hide T.Tracks, NoncesOk, Step, Enabled, LeftoverUnshared;
    if es != [] {
      StepTracksExactly(s, es[0]);
      StepKeepsNonces(s, es[0]);
      if LeftoverUnshared(s, es[0]) {
        CountsRightExactly(Step(s, es[0]), es[1..]);
      } else {
        NotTracking(Step(s, es[0]), es[1..]);
      }
    }
  }

  lemma NotTracking(s: State, es: seq<Event>)
    requires Valid(s, es) && !T.Tracks(s.tracker, s.nonces)
    ensures !AlwaysTracks(s, es)
  {
  }

  /** A collection finds instant 0 unable to mislead it. */
  predicate ZeroUnmisled(s: State, e: Event) {
    e.Collect? ==> T.ZeroSafe(s.tracker)
  }

  ghost predicate NeverMisled(s: State, es: seq<Event>)
    requires Valid(s, es)
    decreases |es|
  {
    es == [] || (ZeroUnmisled(s, es[0]) && NeverMisled(Step(s, es[0]), es[1..]))
  }

  /** Right counts are enough: if no second release hits an instant somebody else holds, then
      pull-ups are harmless to everyone, and collections are unless instant 0 misleads them. */
  lemma {:induction false} RightCountsHarmless(s: State, es: seq<Event>)
    requires NoncesOk(s) && BasicOk(s) && T.Tracks(s.tracker, s.nonces) && Valid(s, es)
    requires LeftoversUnshared(s, es) && NeverMisled(s, es)
    ensures AllHarmless(s, es, Everyone)
    decreases |es|
  {
    hide T.Tracks, NoncesOk, BasicOk, Step, Enabled, LeftoverUnshared;
    if es != [] {
      BasicTracked(s);
      StepTracksExactly(s, es[0]);
      StepKeepsNonces(s, es[0]);
      StepBasic(s, es[0]);
      RightCountsHarmless(Step(s, es[0]), es[1..]);
    }
  }

  lemma BasicTracked(s: State)
    requires BasicOk(s) && T.Tracks(s.tracker, s.nonces)
    ensures T.PullupSafe(s.tracker, T.Instants(s.nonces))
    ensures T.CollectSafe(s.tracker, T.Instants(s.nonces)) <==> T.ZeroSafe(s.tracker)
  {
    T.TrackedSafe(s.tracker, s.nonces);
  }
}
