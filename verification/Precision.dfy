/** Footprints record exactly what transactions did, so a conflict is never a false alarm. */
module Precision {
  import opened Bytes
  import opened Conflicts
  import opened SerialSpec
  import opened TxModel
  import T = SnapshotTracker

  /** The operations read the cell, other than by asking for its size. */
  predicate Reads(ops: seq<Op>, c: Cell) {
    exists i :: 0 <= i < |ops| && !ops[i].Measured? && Touches(ops[i], c)
  }

  /** The operations wrote the cell, or updated it without changing it. */
  predicate Claims(ops: seq<Op>, c: Cell) {
    exists i :: 0 <= i < |ops| && (ops[i].Put? || ops[i].Kept?) && ops[i].cell == c
  }

  ghost predicate ExactReads(f: Footprint, ops: seq<Op>) {
    forall ks, k :: ReadsKey(f, ks, k) <==> Reads(ops, Cell(ks, k))
  }

  ghost predicate ExactClaims(f: Footprint, ops: seq<Op>) {
    forall ks, k :: WritesKey(f, ks, k) <==> Claims(ops, Cell(ks, k))
  }

  ghost predicate ExactMarks(f: Footprint, ops: seq<Op>) {
    ExactReads(f, ops) && ExactClaims(f, ops)
  }

  // ---------------------------------------------------------------------------
  // One more operation.

  lemma ReadsSnoc(ops: seq<Op>, op: Op, c: Cell)
    ensures Reads(ops + [op], c) <==> Reads(ops, c) || (!op.Measured? && Touches(op, c))
  {
    hide Touches;
    var all := ops + [op];
    assert all[|ops|] == op;
    if i :| 0 <= i < |ops| && !ops[i].Measured? && Touches(ops[i], c) {
      assert all[i] == ops[i];
    }
    if i :| 0 <= i < |all| && !all[i].Measured? && Touches(all[i], c) {
      assert i == |ops| || ops[i] == all[i];
    }
  }

  lemma ClaimsSnoc(ops: seq<Op>, op: Op, c: Cell)
    ensures Claims(ops + [op], c) <==> Claims(ops, c) || ((op.Put? || op.Kept?) && op.cell == c)
  {
    var all := ops + [op];
    assert all[|ops|] == op;
    if i :| 0 <= i < |ops| && (ops[i].Put? || ops[i].Kept?) && ops[i].cell == c {
      assert all[i] == ops[i];
    }
    if i :| 0 <= i < |all| && (all[i].Put? || all[i].Kept?) && all[i].cell == c {
      assert i == |ops| || ops[i] == all[i];
    }
  }

  lemma ExactRead(f: Footprint, ops: seq<Op>, op: Op)
    requires ExactMarks(f, ops) && (op.Got? || op.Checked?)
    ensures ExactMarks(PushedRead(f, op.cell.ks, Single(op.cell.key)), ops + [op])
  {
    hide ReadsKey, Reads, Claims;
    var f' := PushedRead(f, op.cell.ks, Single(op.cell.key));
    forall ks, k
      ensures ReadsKey(f', ks, k) <==> Reads(ops + [op], Cell(ks, k))
      ensures WritesKey(f', ks, k) <==> Claims(ops + [op], Cell(ks, k))
    {
      PushedReadExact(f, op.cell.ks, Single(op.cell.key), ks, k);
      ReadsSnoc(ops, op, Cell(ks, k));
      ClaimsSnoc(ops, op, Cell(ks, k));
    }
  }

  lemma ExactScan(f: Footprint, ops: seq<Op>, op: Op)
    requires ExactMarks(f, ops) && op.Scanned?
    ensures ExactMarks(PushedRead(f, op.ks, RangeRead(op.start, op.end)), ops + [op])
  {
    hide ReadsKey, Reads, Claims, Covers, RangeRead;
    var f' := PushedRead(f, op.ks, RangeRead(op.start, op.end));
    forall ks, k
      ensures ReadsKey(f', ks, k) <==> Reads(ops + [op], Cell(ks, k))
      ensures WritesKey(f', ks, k) <==> Claims(ops + [op], Cell(ks, k))
    {
      PushedReadExact(f, op.ks, RangeRead(op.start, op.end), ks, k);
      RangeReadExact(op.start, op.end, k);
      ReadsSnoc(ops, op, Cell(ks, k));
      ClaimsSnoc(ops, op, Cell(ks, k));
    }
  }

  lemma ExactSize(f: Footprint, ops: seq<Op>, op: Op)
    requires ExactMarks(f, ops) && op.Measured?
    ensures ExactMarks(f, ops + [op])
  {
    hide ReadsKey, Reads, Claims;
    forall ks, k
      ensures ReadsKey(f, ks, k) <==> Reads(ops + [op], Cell(ks, k))
      ensures WritesKey(f, ks, k) <==> Claims(ops + [op], Cell(ks, k))
    {
      ReadsSnoc(ops, op, Cell(ks, k));
      ClaimsSnoc(ops, op, Cell(ks, k));
    }
  }

  lemma ExactClaim(f: Footprint, ops: seq<Op>, op: Op)
    requires ExactMarks(f, ops) && (op.Put? || op.Kept?)
    ensures ExactMarks(MarkedConflict(f, op.cell.ks, op.cell.key), ops + [op])
  {
    hide Reads, Claims;
    var f' := MarkedConflict(f, op.cell.ks, op.cell.key);
    assert forall ks, k :: ReadsKey(f', ks, k) <==> ReadsKey(f, ks, k);
    assert forall ks, k :: WritesKey(f', ks, k) <==> WritesKey(f, ks, k) || Cell(ks, k) == op.cell;
    forall ks, k
      ensures ReadsKey(f', ks, k) <==> Reads(ops + [op], Cell(ks, k))
      ensures WritesKey(f', ks, k) <==> Claims(ops + [op], Cell(ks, k))
    {
      ReadsSnoc(ops, op, Cell(ks, k));
      ClaimsSnoc(ops, op, Cell(ks, k));
    }
  }

  lemma BlankExact()
    ensures ExactMarks(Blank, [])
  {
  }

  lemma ExactUpdate(tx: Tx, store: Store, c: Cell, value: Option<Value>)
    requires ExactMarks(tx.marks, tx.ops)
    ensures var tx' := Updated(tx, store, c, value); ExactMarks(tx'.marks, tx'.ops)
  {
    hide ExactMarks, TxGet;
    var prev := TxGet(tx, store, c);
    var last := if value != prev then Put(c, value) else Kept(c);
    ExactRead(tx.marks, tx.ops, Got(c, prev));
    ExactClaim(PushedRead(tx.marks, c.ks, Single(c.key)), tx.ops + [Got(c, prev)], last);
  }

  lemma OpExact(tx: Tx, store: Store, e: Event)
    requires ExactMarks(tx.marks, tx.ops) && IsOp(e)
    ensures var tx' := AfterOp(tx, store, e); ExactMarks(tx'.marks, tx'.ops)
  {
    hide ExactMarks, TxGet, TxScan, PushedRead, MarkedConflict, RangeRead;
    match e {
      case Get(_, c) => ExactRead(tx.marks, tx.ops, Got(c, TxGet(tx, store, c)));
      case ContainsKey(_, c) => ExactRead(tx.marks, tx.ops, Checked(c, TxGet(tx, store, c).Some?));
      case SizeOf(_, c) => ExactSize(tx.marks, tx.ops, Measured(c, Size(TxGet(tx, store, c))));
      case ScanRange(_, ks, start, end) => ExactScan(tx.marks, tx.ops, Scanned(ks, start, end, TxScan(tx, store, ks, start, end)));
      case Write(_, c, value) => ExactClaim(tx.marks, tx.ops, Put(c, value));
      case Update(_, c, value) => ExactUpdate(tx, store, c, value);
    }
  }

  // ---------------------------------------------------------------------------
  // Every run.

  /** A record of the history stands for a commit of the log. */
  ghost predicate Stands(s: State, ts: nat) {
    exists j :: 0 <= j < |s.stamps| && 0 <= j < |s.log| && s.stamps[j] == ts && ts in s.committed && ExactMarks(s.committed[ts], s.log[j].ops)
  }

  /** Whatever was recorded after a transaction's snapshot committed after it. */
  ghost predicate Dated(s: State, tx: Tx) {
    && tx.instant <= s.tracker.visible && ExactMarks(tx.marks, tx.ops)
    && forall j :: 0 <= j < |s.stamps| && j < |s.log| && s.stamps[j] > tx.instant ==> s.log[j].seqno >= tx.instant
  }

  /** The transaction that holds the lock, against the others. */
  ghost predicate Holding(s: State) {
    match s.lock
    case Idle => |s.stamps| == |s.log|
    case Applying(tx, seqno, _) =>
      && |s.stamps| == |s.log| && ExactMarks(tx.marks, tx.ops) && seqno < s.seqno
      && forall t :: t in s.txs ==> s.txs[t].instant <= seqno
    case Unrecorded(tx) =>
      && |s.stamps| + 1 == |s.log| && s.log[|s.stamps|].ops == tx.ops && ExactMarks(tx.marks, tx.ops)
      && forall t :: t in s.txs ==> s.txs[t].instant <= s.log[|s.stamps|].seqno
  }

  ghost predicate Precise(s: State) {
    && s.tracker.visible <= s.seqno
    && (forall ts :: ts in s.committed ==> Stands(s, ts))
    && (forall j :: 0 <= j < |s.stamps| ==> s.stamps[j] <= s.tracker.visible)
    && (forall t :: t in s.txs ==> Dated(s, s.txs[t]))
    && Holding(s)
  }

  /** Steps that leave log and records alone, and bring no transaction. */
  lemma QuietPrecise(s: State, s': State)
    requires Precise(s) && s'.log == s.log && s'.stamps == s.stamps && s'.lock == s.lock
    requires s'.committed.Keys <= s.committed.Keys && forall ts :: ts in s'.committed ==> s'.committed[ts] == s.committed[ts]
    requires s.tracker.visible <= s'.tracker.visible <= s'.seqno && s.seqno <= s'.seqno
    requires forall t :: t in s'.txs ==> t in s.txs && s'.txs[t].instant == s.txs[t].instant && ExactMarks(s'.txs[t].marks, s'.txs[t].ops)
    ensures Precise(s')
  {
    hide ExactMarks;
    forall ts | ts in s'.committed
      ensures Stands(s', ts)
    {
      assert Stands(s, ts);
    }
    forall t | t in s'.txs
      ensures Dated(s', s'.txs[t])
    {
      assert Dated(s, s.txs[t]);
    }
  }

  lemma BeginPrecise(s: State, t: nat, n: nat)
    requires Precise(s) && s.lock.Idle?
    ensures Precise(Begun(s, t, n))
  {
    hide ExactMarks;
    var s' := Begun(s, t, n);
    BlankExact();
    forall ts | ts in s'.committed
      ensures Stands(s', ts)
    {
      assert Stands(s, ts);
    }
    forall u | u in s'.txs
      ensures Dated(s', s'.txs[u])
    {
      assert u != t ==> Dated(s, s.txs[u]);
    }
  }

  lemma OpPrecise(s: State, e: Event)
    requires Precise(s) && IsOp(e) && e.t in s.txs
    ensures Precise(Operated(s, e))
  {
    hide ExactMarks, AfterOp, Stands, Holding;
    assert Dated(s, s.txs[e.t]);
    OpExact(s.txs[e.t], s.store, e);
    assert forall t :: t in s.txs ==> Dated(s, s.txs[t]);
    QuietPrecise(s, Operated(s, e));
  }

  lemma StartCommitPrecise(s: State, t: nat)
    requires Precise(s) && s.lock.Idle? && t in s.txs
    ensures Precise(CommitStarted(s, t))
  {
    hide ExactMarks, Conflicted;
    var s' := CommitStarted(s, t);
    assert Dated(s, s.txs[t]);
    forall ts | ts in s'.committed
      ensures Stands(s', ts)
    {
      assert Stands(s, ts);
    }
    forall u | u in s'.txs
      ensures Dated(s', s'.txs[u])
    {
      assert Dated(s, s.txs[u]);
    }
  }

  lemma PublishPrecise(s: State)
    requires Precise(s) && s.lock.Applying?
    ensures Precise(BatchPublished(s))
  {
    hide ExactMarks;
    var s' := BatchPublished(s);
    forall ts | ts in s'.committed
      ensures Stands(s', ts)
    {
      assert Stands(s, ts);
    }
    forall u | u in s'.txs
      ensures Dated(s', s'.txs[u])
    {
      assert Dated(s, s.txs[u]);
    }
  }

  lemma RecordPrecise(s: State)
    requires Precise(s) && s.lock.Unrecorded?
    ensures Precise(CommitRecorded(s))
  {
    hide ExactMarks;
    var s', n := CommitRecorded(s), |s.stamps|;
    forall ts | ts in s'.committed
      ensures Stands(s', ts)
    {
      if ts == s.tracker.visible {
        assert s'.stamps[n] == ts;
      } else {
        assert Stands(s, ts);
        var j :| 0 <= j < |s.stamps| && 0 <= j < |s.log| && s.stamps[j] == ts && ExactMarks(s.committed[ts], s.log[j].ops);
        assert s'.stamps[j] == ts;
      }
    }
    forall u | u in s'.txs
      ensures Dated(s', s'.txs[u])
    {
      assert Dated(s, s.txs[u]);
    }
  }

  lemma LockPrecise(s: State, s': State)
    requires Precise(s) && s.lock.Applying? && (s'.lock.Applying? ==> s'.lock.tx == s.lock.tx && s'.lock.seqno == s.lock.seqno) && !s'.lock.Unrecorded?
    requires s' == s.(lock := s'.lock, store := s'.store)
    ensures Precise(s')
  {
    hide ExactMarks;
    forall ts | ts in s'.committed
      ensures Stands(s', ts)
    {
      assert Stands(s, ts);
    }
    forall u | u in s'.txs
      ensures Dated(s', s'.txs[u])
    {
      assert Dated(s, s.txs[u]);
    }
  }

  lemma OtherPrecise(s: State, e: Event)
    requires Precise(s) && Enabled(s, e) && !IsOp(e)
    requires !e.Begin? && !e.StartCommit? && !e.ApplyItem? && !e.PublishBatch? && !e.Abort? && !e.Record?
    ensures Precise(Step(s, e))
  {
    hide Stands, Holding, Reclaimable, ExactMarks, T.Kept, T.Lowest, T.Swept, T.CountOf;
    assert forall t :: t in s.txs ==> Dated(s, s.txs[t]);
    QuietPrecise(s, Step(s, e));
  }

  lemma StepPrecise(s: State, e: Event)
    requires Precise(s) && Enabled(s, e)
    ensures Precise(Step(s, e))
  {
    hide Precise, Reclaimable, Conflicted, AfterOp;
    if IsOp(e) {
      OpPrecise(s, e);
    } else {
      match e {
        case Begin(t, n) => BeginPrecise(s, t, n);
        case StartCommit(t) => StartCommitPrecise(s, t);
        case ApplyItem(c) => LockPrecise(s, ItemApplied(s, c));
        case PublishBatch => PublishPrecise(s);
        case Abort => LockPrecise(s, s.(lock := Idle));
        case Record => RecordPrecise(s);
        case _ => OtherPrecise(s, e);
      }
    }
  }

  lemma {:induction false} RunPrecise(s: State, es: seq<Event>)
    requires Precise(s) && Valid(s, es)
    ensures Precise(After(s, es))
    decreases |es|
  {
    hide Precise, Step, Enabled;
    if es != [] {
      StepPrecise(s, es[0]);
      RunPrecise(Step(s, es[0]), es[1..]);
    }
  }

  lemma InitPrecise(visible: nat)
    ensures Precise(Init(visible))
  {
  }

  /** Commit `j` was made after the transaction's snapshot and wrote, or updated, a cell the
      transaction read. */
  ghost predicate Overwrote(s: State, tx: Tx, j: nat, c: Cell)
    requires j < |s.log|
  {
    s.log[j].seqno >= tx.instant && Reads(tx.ops, c) && Claims(s.log[j].ops, c)
  }

  /** Over every run at all, footprints are exact: a key is recorded as read if and only if some
      operation other than a size query read it, and as written if and only if it was written
      or updated. */
  lemma FootprintsAreExact(visible: nat, es: seq<Event>, t: nat)
    requires Valid(Init(visible), es) && t in After(Init(visible), es).txs
    ensures var tx := After(Init(visible), es).txs[t]; ExactMarks(tx.marks, tx.ops)
  {
    hide ExactMarks;
    InitPrecise(visible);
    RunPrecise(Init(visible), es);
    var s := After(Init(visible), es);
    assert Dated(s, s.txs[t]);
  }

  /** Over every run at all, a transaction fails the test only if a commit since its snapshot
      wrote, or updated, a cell that it read. */
  lemma NoFalseConflicts(visible: nat, es: seq<Event>, t: nat) returns (j: nat, c: Cell)
    requires Valid(Init(visible), es) && t in After(Init(visible), es).txs
    requires Conflicted(After(Init(visible), es), After(Init(visible), es).txs[t])
    ensures var s := After(Init(visible), es); j < |s.stamps| && j < |s.log| && Overwrote(s, s.txs[t], j, c)
  {
    hide Reads, Claims, ReadsKey, WritesKey;
    InitPrecise(visible);
    RunPrecise(Init(visible), es);
    var s := After(Init(visible), es);
    var tx := s.txs[t];
    assert Dated(s, tx);
    var ts :| ts in s.committed && ts > tx.instant && Clashes(tx.marks, s.committed[ts]);
    var ks, k :| ReadsKey(tx.marks, ks, k) && WritesKey(s.committed[ts], ks, k);
    assert Stands(s, ts);
    j :| 0 <= j < |s.stamps| && 0 <= j < |s.log| && s.stamps[j] == ts && ExactMarks(s.committed[ts], s.log[j].ops);
    c := Cell(ks, k);
  }
}
