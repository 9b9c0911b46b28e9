/** Runs of the machine that show why the conditions in `Harmless`, the exception for sizes in
    `Serial` and the one for batches in flight in `Seen` are needed. */
module TxHazards {
  import opened Bytes
  import opened Conflicts
  import opened SerialSpec
  import opened TxModel
  import T = SnapshotTracker

  const X: Cell := Cell(1, [1])
  const Y: Cell := Cell(1, [2])

  /** A state reached by some run from a fresh database whose visible instant is `v`. */
  ghost predicate Reachable(v: nat, s: State) {
    exists es :: Valid(Init(v), es) && After(Init(v), es) == s
  }

  lemma ReachInit(v: nat)
    ensures Reachable(v, Init(v))
  {
    assert Valid(Init(v), []) && After(Init(v), []) == Init(v);
  }

  lemma Reach(v: nat, s: State, e: Event) returns (s': State)
    requires Reachable(v, s) && Enabled(s, e)
    ensures s' == Step(s, e) && Reachable(v, s')
  {
    hide Enabled, Step;
    var es :| Valid(Init(v), es) && After(Init(v), es) == s;
    RunAppend(Init(v), es, e);
    s' := Step(s, e);
  }

  /** The state after an open transaction with one pending write commits undisturbed. */
  ghost function Committed(s: State, t: nat, c: Cell): State
    requires t in s.txs && s.txs[t].overlay.Keys == {c}
  {
    var tx := s.txs[t];
    var tracker := T.Published(T.Released(s.tracker, tx.instant), s.seqno);
    s.(tracker := T.Released(tracker, tx.instant),
       seqno := s.seqno + 1,
       store := s.store[Version(c, s.seqno) := tx.overlay[c]],
       nonces := s.nonces - {tx.nonce},
       leftovers := s.leftovers - {tx.nonce},
       txs := s.txs - {t},
       committed := Pruned(s.committed, s.tracker.watermark)[tracker.visible := tx.marks],
       log := s.log + [Commit(s.seqno, tx.instant, tx.ops)],
       stamps := s.stamps + [tracker.visible])
  }

  /** The same transaction once its only item has been applied. */
  ghost function Applied(s: State, t: nat, c: Cell): State
    requires t in s.txs && s.txs[t].overlay.Keys == {c}
  {
    var tx := s.txs[t];
    s.(tracker := T.Released(s.tracker, tx.instant),
       seqno := s.seqno + 1,
       store := s.store[Version(c, s.seqno) := tx.overlay[c]],
       nonces := s.nonces - {tx.nonce},
       leftovers := s.leftovers[tx.nonce := tx.instant],
       txs := s.txs - {t},
       committed := Pruned(s.committed, s.tracker.watermark),
       lock := Applying(tx, s.seqno, map[]))
  }

  lemma ApplyWhole(v: nat, s: State, t: nat, c: Cell) returns (s': State)
    requires Reachable(v, s) && s.lock.Idle? && t in s.txs && s.txs[t].overlay.Keys == {c}
    requires !Conflicted(s, s.txs[t])
    ensures Reachable(v, s') && s' == Applied(s, t, c)
  {
    hide Reachable, Conflicted, T.Released, Pruned;
    s' := Reach(v, s, StartCommit(t));
    assert s'.lock.todo - {c} == map[];
    s' := Reach(v, s', ApplyItem(c));
  }

  lemma CommitWhole(v: nat, s: State, t: nat, c: Cell) returns (s': State)
    requires Reachable(v, s) && s.lock.Idle? && t in s.txs && s.txs[t].overlay.Keys == {c}
    requires s.txs[t].nonce !in s.leftovers && !Conflicted(s, s.txs[t])
    ensures Reachable(v, s') && s' == Committed(s, t, c)
    ensures s'.log == s.log + [Commit(s.seqno, s.txs[t].instant, s.txs[t].ops)]
  {
    hide Reachable, Conflicted, T.Published, Pruned;
    s' := ApplyWhole(v, s, t, c);
    s' := Reach(v, s', PublishBatch);
    s' := Reach(v, s', DropLeftover(s.txs[t].nonce));
    assert s'.leftovers == s.leftovers - {s.txs[t].nonce};
    s' := Reach(v, s', Record);
  }

  // ---------------------------------------------------------------------------
  // A size query is not recorded as a read.

  lemma EmptyStoreReadsNone(i: nat, c: Cell)
    ensures ReadAt(map[], i, c) == None
  {
    assert forall q :: !IsNewest(map[], i, c, q);
  }

  lemma TwoBegun() returns (s: State)
    ensures Reachable(1, s)
    ensures s == Init(1).(tracker := T.State(1, map[1 := 2], 0, 0), nonces := map[1 := 1, 2 := 1],
                          txs := map[1 := Tx(1, 1, [], map[], Blank), 2 := Tx(2, 1, [], map[], Blank)])
  {
    hide Reachable;
    ReachInit(1);
    s := Reach(1, Init(1), Begin(1, 1));
    s := Reach(1, s, Begin(2, 2));
    assert s.nonces == map[1 := 1, 2 := 1];
  }

  /** Two transactions share instant 1; the first runs `e` on the empty store, the second writes X. */
  lemma TwoAtOneInstant(e: Event) returns (s: State)
    requires e == SizeOf(1, X) || e == Get(1, X)
    ensures Reachable(1, s)
    ensures var first := if e.SizeOf? then Tx(1, 1, [Measured(X, None)], map[], Blank)
                         else Tx(1, 1, [Got(X, None)], map[], PushedRead(Blank, 1, Single([1])));
            var second := Tx(2, 1, [Put(X, Some([7]))], map[X := Some([7])], MarkedConflict(Blank, 1, [1]));
            s == Init(1).(tracker := T.State(1, map[1 := 2], 0, 0), nonces := map[1 := 1, 2 := 1],
                          txs := map[1 := first, 2 := second])
  {
    hide Reachable, PushedRead, MarkedConflict;
    s := TwoBegun();
    EmptyStoreReadsNone(1, X);
    s := Reach(1, s, e);
    assert s.txs[1].ops == [if e.SizeOf? then Measured(X, None) else Got(X, None)];
    s := Reach(1, s, Write(2, X, Some([7])));
    assert s.txs[2].ops == [Put(X, Some([7]))];
  }

  /** Transaction 1 asks for the size of X, transaction 2 then creates X and commits, and
      transaction 1 still commits: its answer fits no place after transaction 2. */
  lemma SizeOfEscapesConflictCheck() returns (s: State)
    ensures Reachable(1, s) && |s.log| == 2
    ensures !Explained(s.log[1].ops, DbAfter(s.log[..1]))
  {
    hide Reachable;
    s := TwoAtOneInstant(SizeOf(1, X));
    s := CommitWhole(1, s, 2, X);
    s := Reach(1, s, Write(1, Y, Some([8])));
    var tx := s.txs[1];
    s := CommitWhole(1, s, 1, Y);
    assert tx.ops == [Measured(X, None), Put(Y, Some([8]))];
    assert s.log[..1] == [FirstCommit];
    CreatedByFirst(s.log[..1], [7]);
    assert tx.ops[..0] == [];
    assert !JustifiedAt(tx.ops, 0, DbAfter(s.log[..1]));
  }

  lemma CreatedByFirst(log: seq<Commit>, value: Value)
    requires log == [Commit(1, 1, [Put(X, Some(value))])]
    ensures DbAfter(log) == map[X := value]
  {
    assert log[..0] == [];
    assert log[0].ops[..0] == [];
    assert Writes(log[0].ops) == map[X := Some(value)];
  }

  // ---------------------------------------------------------------------------
  // A commit releases its instant twice.

  const Victim: Tx := Tx(1, 1, [Got(X, None)], map[], PushedRead(Blank, 1, Single([1])))

  const FirstCommit: Commit := Commit(1, 1, [Put(X, Some([7]))])

  /** Transaction 1 has read X. Transaction 2, at the same instant, creates X; its two
      releases cancel transaction 1's hold. */
  lemma HoldCancelled() returns (s: State)
    ensures Reachable(1, s)
    ensures && s.lock.Idle? && s.leftovers == map[] && s.seqno == 2
            && s.tracker == T.State(2, map[1 := 0], 2, 0) && s.nonces == map[1 := 1]
            && s.txs == map[1 := Victim] && s.log == [FirstCommit] && s.committed.Keys == {2}
  {
    hide Reachable, PushedRead, MarkedConflict;
    s := TwoAtOneInstant(Get(1, X));
    s := CommitWhole(1, s, 2, X);
  }

  /** A collection now passes instant 1 although transaction 1 still reads there. */
  lemma SnapshotOvertaken() returns (s: State)
    ensures Reachable(1, s)
    ensures && s.lock.Idle? && s.leftovers == map[] && s.seqno == 3
            && s.tracker == T.State(3, map[], 2, 2) && s.nonces == map[1 := 1]
            && s.txs == map[1 := Victim] && s.log == [FirstCommit] && s.committed.Keys == {2}
  {
    hide Reachable, PushedRead, MarkedConflict;
    s := HoldCancelled();
    s := Reach(1, s, DeleteKeyspace);
    assert [1][..0] == [] && T.Kept(s.tracker, [1]) == [];
    s := Reach(1, s, Collect([1]));
    assert s.tracker.counts == map[];
  }

  /** The next commit then prunes the record that transaction 2 wrote X. */
  lemma RecordPruned() returns (s: State)
    ensures Reachable(1, s)
    ensures && s.lock.Idle? && s.leftovers == map[] && s.txs == map[1 := Victim]
            && |s.log| == 2 && s.log[0] == FirstCommit && s.log[1].ops == [Put(Y, Some([8]))]
            && s.committed == map[4 := MarkedConflict(Blank, 1, [2])]
  {
    hide Reachable, PushedRead, MarkedConflict;
    s := SnapshotOvertaken();
    s := ThirdPending(s);
    assert !Conflicted(s, s.txs[3]) by { NothingRead([2]); }
    s := CommitWhole(1, s, 3, Y);
    assert s.txs == map[1 := Victim];
  }

  lemma ThirdPending(s: State) returns (s': State)
    requires Reachable(1, s) && s.lock.Idle? && s.leftovers == map[] && s.txs == map[1 := Victim] && s.nonces == map[1 := 1]
    ensures Reachable(1, s')
    ensures s' == Begun(s, 3, 3).(txs := map[1 := Victim,
              3 := Tx(3, s.tracker.visible, [Put(Y, Some([8]))], map[Y := Some([8])], MarkedConflict(Blank, 1, [2]))])
  {
    hide Reachable, PushedRead, MarkedConflict;
    s' := Reach(1, s, Begin(3, 3));
    s' := Reach(1, s', Write(3, Y, Some([8])));
    assert s'.txs[3].ops == [Put(Y, Some([8]))] && s'.txs[3].overlay == map[Y := Some([8])];
  }

  lemma NothingRead(k: Key)
    ensures forall other :: !Clashes(MarkedConflict(Blank, 1, k), other)
  {
  }

  /** Serializability is lost: transaction 1 commits after transaction 2 on the strength
      of a read of X that transaction 2 had already invalidated. */
  lemma SharedInstantLosesUpdate() returns (s: State)
    ensures Reachable(1, s) && !Serial(s.log)
  {
    hide Reachable, Committed, CommitStarted;
    s := RecordPruned();
    var before := s;
    s := Reach(1, s, Write(1, X, Some([9])));
    var tx := s.txs[1];
    assert tx.ops == [Got(X, None), Put(X, Some([9]))];
    assert tx.overlay == map[X := Some([9])];
    assert !Conflicted(s, tx) by { NoCommonKey(tx.marks); }
    s := CommitWhole(1, s, 1, X);
    LastCommit(before, s, tx);
  }

  lemma NoCommonKey(marks: Footprint)
    requires marks == MarkedConflict(PushedRead(Blank, 1, Single([1])), 1, [1])
    ensures !Clashes(marks, MarkedConflict(Blank, 1, [2]))
  {
    assert marks.readSet[1] == [Single([1])];
    assert [1 as Byte] != [2];
  }

  lemma LastCommit(before: State, s: State, tx: Tx)
    requires |before.log| == 2 && before.log[0] == FirstCommit && before.log[1].ops == [Put(Y, Some([8]))]
    requires |s.log| == 3 && s.log[..2] == before.log && s.log[2].ops == tx.ops
    requires tx.ops == [Got(X, None), Put(X, Some([9]))]
    ensures !Serial(s.log)
  {
    var log := s.log[..2];
    assert log[..1] == [FirstCommit];
    CreatedByFirst(log[..1], [7]);
    assert log[1].ops[..0] == [];
    assert Writes(log[1].ops) == map[Y := Some([8])];
    assert X.key[0] != Y.key[0];
    LookupPatched(DbAfter(log[..1]), Writes(log[1].ops), X);
    assert tx.ops[..0] == [];
    assert !JustifiedAt(tx.ops, 0, DbAfter(log));
    assert !ExplainedButSizes(s.log[2].ops, DbAfter(s.log[..2]));
  }

  // ---------------------------------------------------------------------------
  // The collection's fold forgets instant 0.

  lemma SnapshotAtZero() returns (s: State)
    ensures Reachable(0, s)
    ensures s == Init(0).(tracker := T.State(2, map[0 := 1], 0, 0), seqno := 2, nonces := map[1 := 0])
  {
    hide Reachable;
    ReachInit(0);
    s := Reach(0, Init(0), OpenSnapshot(1));
    s := Reach(0, s, DeleteKeyspace);
    s := Reach(0, s, DeleteKeyspace);
  }

  lemma SnapshotsAtZeroAndTwo() returns (s: State)
    ensures Reachable(0, s)
    ensures s.nonces == map[1 := 0, 2 := 2] && s.tracker == T.State(2, map[0 := 1, 2 := 1], 0, 0)
  {
    hide Reachable;
    s := SnapshotAtZero();
    s := Reach(0, s, OpenSnapshot(2));
  }

  /** A snapshot opened on a fresh database is overtaken by a collection. */
  lemma InstantZeroOvertaken() returns (s: State)
    ensures Reachable(0, s) && 1 in s.nonces && s.nonces[1] == 0 && s.tracker.watermark == 1
  {
    hide Reachable, T.Kept, T.Lowest;
    s := SnapshotsAtZeroAndTwo();
    T.FoldForgetsZero(s.tracker, [], 2);
    assert [] + [0] + [2] == [0, 2];
    s := Reach(0, s, Collect([0, 2]));
  }

  // ---------------------------------------------------------------------------
  // Deleting a keyspace publishes outside the journal lock.

  /** A batch writes X and Y; a keyspace is deleted after X was applied. A snapshot opened
      then sees X but not Y. */
  lemma HalfBatchVisible() returns (s: State)
    ensures Reachable(1, s) && 2 in s.nonces
    ensures ReadAt(s.store, s.nonces[2], X) == Some([7]) && ReadAt(s.store, s.nonces[2], Y) == None
    ensures s.lock.Applying? && s.lock.tx.overlay == map[X := Some([7]), Y := Some([8])]
  {
    hide Reachable, MarkedConflict;
    s := HalfApplied();
    s := Reach(1, s, DeleteKeyspace);
    s := Reach(1, s, OpenSnapshot(2));
    assert IsNewest(s.store, 3, X, 1);
    assert forall q: nat :: IsNewest(s.store, 3, X, q) ==> q == 1;
    assert forall q: nat :: !IsNewest(s.store, 3, Y, q);
  }

  lemma HalfApplied() returns (s: State)
    ensures Reachable(1, s) && s.lock.Applying? && s.lock.tx.overlay == map[X := Some([7]), Y := Some([8])]
    ensures s.store == map[Version(X, 1) := Some([7])] && s.seqno == 2 && s.tracker.visible == 1
    ensures s.nonces == map[] && s.leftovers.Keys == {1}
  {
    hide Reachable, MarkedConflict;
    s := TwoPendingWrites();
    assert X in s.txs[1].overlay;
    s := Reach(1, s, StartCommit(1));
    s := Reach(1, s, ApplyItem(X));
  }

  lemma TwoPendingWrites() returns (s: State)
    ensures Reachable(1, s) && s.lock.Idle? && s.store == map[] && s.seqno == 1 && s.tracker.visible == 1
    ensures s.txs.Keys == {1} && s.txs[1].overlay == map[X := Some([7]), Y := Some([8])]
    ensures s.txs[1].nonce == 1 && s.nonces == map[1 := 1] && s.leftovers == map[] && s.committed == map[]
  {
    hide Reachable, MarkedConflict;
    ReachInit(1);
    s := Reach(1, Init(1), Begin(1, 1));
    s := Reach(1, s, Write(1, X, Some([7])));
    s := Reach(1, s, Write(1, Y, Some([8])));
    assert s.txs[1].overlay == map[X := Some([7]), Y := Some([8])];
  }
}
