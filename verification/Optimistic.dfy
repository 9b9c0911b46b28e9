/** The optimistic transaction and its commit oracle as the objects the engine updates in place.
    Their contracts speak in the terms of the transaction machine. */
module Optimistic {
  import opened Bytes
  import opened Conflicts
  import opened SerialSpec
  import opened Overlay
  import opened CommitSteps
  import opened Precision
  import T = SnapshotTracker
  import Serializability
  import TxModel

  class Oracle {
    const tracker: T.Tracker
    var committed: map<nat, ConflictManager>

    constructor (tracker: T.Tracker)
      ensures this.tracker == tracker && committed == map[]
    {
      this.tracker := tracker;
      committed := map[];
    }

    /** The recorded footprints. */
    ghost function History(): map<nat, Footprint>
      reads this, committed.Values
    {
      map ts | ts in committed :: committed[ts].View()
    }

    /** Some commit recorded after `instant` wrote a key that `mine` read. */
    ghost predicate Overwritten(mine: Footprint, instant: nat)
      reads this, committed.Values
    {
      exists ts :: ts in committed && ts > instant && Clashes(mine, committed[ts].View())
    }

    ghost predicate IllFormed(mine: Footprint, instant: nat)
      reads this, committed.Values
    {
      exists ts :: ts in committed && ts > instant && IllFormedAgainst(mine, committed[ts].View())
    }

    method TestConflict(instant: nat, cm: ConflictManager) returns (v: Verdict)
      ensures v == Clash ==> Overwritten(cm.View(), instant)
      ensures v == Clear ==> !Overwritten(cm.View(), instant)
      ensures v == Panic ==> IllFormed(cm.View(), instant)
    {
      var todo := committed.Keys;
      while todo != {}
        invariant todo <= committed.Keys
        invariant forall ts :: ts in committed.Keys - todo && ts > instant ==> !Clashes(cm.View(), committed[ts].View())
        decreases todo
      {
        var ts :| ts in todo;
        if ts > instant {
          v := cm.HasConflict(committed[ts]);
          if v != Clear {
            return;
          }
        }
        todo := todo - {ts};
      }
      v := Clear;
    }

    method Prune(watermark: nat)
      modifies this
      ensures committed == Pruned(old(committed), watermark) && History() == Pruned(old(History()), watermark)
    {
      var todo := committed.Keys;
      while todo != {}
        invariant todo <= old(committed).Keys
        invariant committed == map ts | ts in old(committed) && (ts in todo || ts > watermark) :: old(committed)[ts]
        decreases todo
      {
        var ts :| ts in todo;
        if ts <= watermark {
          committed := committed - {ts};
        }
        todo := todo - {ts};
      }
    }

    /** The rest of a commit once the first release is done: the batch is applied unless the
        test failed or the write path refuses it, the nonce is dropped, and a success recorded. */
    method Conclude(clash: bool, instant: nat, cm: ConflictManager, seqno: nat, applies: bool) returns (outcome: Outcome)
      modifies this, tracker
      ensures outcome == if clash then Conflicting else if applies then Ok else Aborted
      ensures T.ClosedTo(if outcome.Ok? then T.Published(old(tracker.View()), seqno) else old(tracker.View()), instant, tracker.View())
      ensures History() == if outcome.Ok? then old(History())[tracker.View().visible := cm.View()] else old(History())
    {
      hide T.ClosedTo, T.Published;
      if clash {
        tracker.CloseRaw(instant);
        outcome := Conflicting;
      } else if !applies {
        tracker.CloseRaw(instant);
        outcome := Aborted;
      } else {
        tracker.Publish(seqno);
        tracker.CloseRaw(instant);
        committed := committed[tracker.seqno := cm];
        outcome := Ok;
      }
    }

    /** Runs a commit under the lock. `applies` says whether the write path accepts the
        batch and `seqno` is the sequence number it takes. */
    method WithCommit(instant: nat, cm: ConflictManager, seqno: nat, applies: bool) returns (outcome: Outcome)
      modifies this, tracker
      ensures outcome == Panicked ==> old(IllFormed(cm.View(), instant)) && committed == old(committed)
      ensures outcome != Panicked ==> (outcome == Conflicting <==> old(Overwritten(cm.View(), instant)))
      ensures outcome == Ok ==> applies
      ensures outcome == Aborted ==> !applies
      ensures outcome != Panicked ==>
                Attempted(old(tracker.View()), old(History()), old(cm.View()), instant, seqno, outcome, tracker.View(), History())
    {
      hide T.ClosedTo, T.Published, Pruned, Overwritten, IllFormed, Attempted;
      ghost var before, history := tracker.View(), History();
      var v := TestConflict(instant, cm);
      if v == Panic {
        return Panicked;
      }
      tracker.CloseRaw(instant);
      ghost var mid := tracker.View();
      Prune(tracker.lowestFreedInstant);
      outcome := Conclude(v == Clash, instant, cm, seqno, applies);
      Concluded(before, history, cm.View(), instant, seqno, outcome, mid, tracker.View());
    }
  }

  /** An open optimistic transaction: overlay plus conflict manager. `ops` remembers what
      it did and saw. */
  class WriteTransaction {
    const inner: BaseTransaction
    const cm: ConflictManager
    const instant: nat
    ghost var ops: seq<Op>

    ghost function AsTx(): TxModel.Tx
      reads this, cm
    {
      TxModel.Tx(0, instant, ops, Writes(ops), cm.View())
    }

    /** Everything seen so far is explained by the snapshot plus own writes, and every
        read except size queries, and every write, is recorded. */
    ghost predicate Valid()
      reads this, inner, cm
    {
      && inner.Valid() && Writes(inner.puts) == Writes(ops)
      && Explained(ops, inner.base)
      && Serializability.Marked(AsTx()) && ExactMarks(cm.View(), ops)
    }

    constructor (base: Db, instant: nat)
      ensures Valid() && fresh(inner) && fresh(cm) && inner.base == base && this.instant == instant && ops == []
      ensures cm.View() == Blank
    {
      inner := new BaseTransaction(base);
      cm := new ConflictManager();
      this.instant := instant;
      ops := [];
    }

    method Get(ks: nat, key: Key) returns (r: Option<Value>)
      requires Valid()
      modifies this, cm
      ensures Valid() && ops == old(ops) + [Got(Cell(ks, key), r)]
      ensures cm.View() == PushedRead(old(cm.View()), ks, Single(key))
    {
      r := inner.Get(ks, key);
      Serializability.RecordsRead(AsTx(), inner.base, Got(Cell(ks, key), r), ks, Single(key));
      ExactRead(cm.View(), ops, Got(Cell(ks, key), r));
      cm.MarkRead(ks, key);
      ops := ops + [Got(Cell(ks, key), r)];
    }

    method ContainsKey(ks: nat, key: Key) returns (present: bool)
      requires Valid()
      modifies this, cm
      ensures Valid() && ops == old(ops) + [Checked(Cell(ks, key), present)]
      ensures cm.View() == PushedRead(old(cm.View()), ks, Single(key))
    {
      var r := inner.Get(ks, key);
      present := r.Some?;
      Serializability.RecordsRead(AsTx(), inner.base, Checked(Cell(ks, key), present), ks, Single(key));
      ExactRead(cm.View(), ops, Checked(Cell(ks, key), present));
      cm.MarkRead(ks, key);
      ops := ops + [Checked(Cell(ks, key), present)];
    }

    /** Not recorded as a read. */
    method SizeOf(ks: nat, key: Key) returns (size: Option<nat>)
      requires Valid()
      modifies this
      ensures Valid() && ops == old(ops) + [Measured(Cell(ks, key), size)]
    {
      var r := inner.Get(ks, key);
      size := match r case Some(v) => Some(|v|) case None => None;
      Serializability.UnrecordedSize(AsTx(), inner.base, Measured(Cell(ks, key), size));
      ExactSize(cm.View(), ops, Measured(Cell(ks, key), size));
      ops := ops + [Measured(Cell(ks, key), size)];
    }

    method Insert(ks: nat, key: Key, value: Option<Value>)
      requires Valid()
      modifies this, inner, cm
      ensures Valid() && ops == old(ops) + [Put(Cell(ks, key), value)]
      ensures cm.View() == MarkedConflict(old(cm.View()), ks, key)
    {
      Serializability.RecordsWrite(AsTx(), inner.base, Put(Cell(ks, key), value));
      ExactClaim(cm.View(), ops, Put(Cell(ks, key), value));
      WritesAppend(inner.puts, Put(Cell(ks, key), value));
      inner.Insert(ks, key, value);
      cm.MarkConflict(ks, key);
      ops := ops + [Put(Cell(ks, key), value)];
    }

    /** Reads, applies `f`, writes if the value changed, and records the key both as read and as written. */
    method FetchUpdate(ks: nat, key: Key, f: Option<Value> -> Option<Value>) returns (prev: Option<Value>)
      requires Valid()
      modifies this, inner, cm
      ensures Valid()
      ensures ops == old(ops) + [Got(Cell(ks, key), prev)] + [if f(prev) == prev then Kept(Cell(ks, key)) else Put(Cell(ks, key), f(prev))]
      ensures cm.View() == MarkedConflict(PushedRead(old(cm.View()), ks, Single(key)), ks, key)
    {
      hide Serializability.Marked, Explained, Writes, PushedRead, MarkedConflict;
      prev := Get(ks, key);
      if f(prev) == prev {
        Keep(ks, key);
      } else {
        Insert(ks, key, f(prev));
      }
    }

    /** Records the key as written without writing it. */
    method Keep(ks: nat, key: Key)
      requires Valid()
      modifies this, cm
      ensures Valid() && ops == old(ops) + [Kept(Cell(ks, key))] && cm.View() == MarkedConflict(old(cm.View()), ks, key)
    {
      Serializability.RecordsKept(AsTx(), inner.base, Cell(ks, key));
      ExactClaim(cm.View(), ops, Kept(Cell(ks, key)));
      cm.MarkConflict(ks, key);
      ops := ops + [Kept(Cell(ks, key))];
    }

    /** Records the whole range as read, present or not. */
    method Range(ks: nat, start: Bound, end: Bound) returns (found: Db)
      requires Valid()
      modifies this, cm
      ensures Valid() && ops == old(ops) + [Scanned(ks, start, end, found)]
      ensures cm.View() == PushedRead(old(cm.View()), ks, RangeRead(start, end))
    {
      found := inner.Range(ks, start, end);
      Serializability.RecordsRead(AsTx(), inner.base, Scanned(ks, start, end, found), ks, RangeRead(start, end));
      ExactScan(cm.View(), ops, Scanned(ks, start, end, found));
      cm.MarkRange(ks, start, end);
      ops := ops + [Scanned(ks, start, end, found)];
    }

    /** A transaction without writes only gives back its snapshot; any other makes an attempt
        through the oracle, with a batch holding the last write of each cell. */
    method Commit(oracle: Oracle, seqno: nat, applies: bool) returns (outcome: Outcome, batch: seq<BatchItem>)
      requires Valid()
      modifies oracle, oracle.tracker
      ensures inner.memtables == map[] ==>
                && outcome == Ok && batch == [] && oracle.committed == old(oracle.committed)
                && T.ClosedTo(old(oracle.tracker.View()), instant, oracle.tracker.View())
      ensures inner.memtables != map[] && outcome != Panicked ==>
                (outcome == Conflicting <==> old(oracle.Overwritten(cm.View(), instant)))
      ensures inner.memtables != map[] && outcome != Panicked ==>
                Attempted(old(oracle.tracker.View()), old(oracle.History()), old(cm.View()), instant, seqno,
                          outcome, oracle.tracker.View(), oracle.History())
      ensures outcome == Panicked ==> old(oracle.IllFormed(cm.View(), instant)) && oracle.committed == old(oracle.committed)
      ensures outcome == Ok ==> BatchOf(batch, Writes(ops), inner.memtables.Keys)
    {
      hide T.ClosedTo, Attempted, BatchOf, Clashes, IllFormedAgainst, Explained, Serializability.Marked;
      if inner.memtables == map[] {
        oracle.tracker.CloseRaw(instant);
        batch := [];
        EmptyBatch(Writes(ops));
        assert inner.memtables.Keys == {};
        outcome := Ok;
      } else {
        batch := inner.CommitBatch();
        outcome := oracle.WithCommit(instant, cm, seqno, applies);
      }
    }

    /** The transaction and the oracle as the machine sees them. */
    ghost predicate Represented(oracle: Oracle, s: TxModel.State, t: nat)
      reads this, inner, cm, oracle, oracle.committed.Values, oracle.tracker
    {
      && s.lock.Idle? && t in s.txs && s.txs[t].nonce !in s.leftovers
      && s.tracker == oracle.tracker.View() && s.committed == oracle.History()
      && s.txs[t] == AsTx().(nonce := s.txs[t].nonce) && s.txs[t].overlay != map[]
    }
  }

  /** The objects' commit is a run of the machine: for every machine state that represents
      transaction and oracle before it, some run leads to the state that represents them after
      it, with the batch of last writes stored, logged and recorded on success. */
  method CommitRefines(tx: WriteTransaction, oracle: Oracle, applies: bool, ghost s: TxModel.State, ghost t: nat, seqno: nat)
    returns (outcome: Outcome, batch: seq<BatchItem>)
    requires tx.Valid() && tx.Represented(oracle, s, t) && seqno == s.seqno && tx.inner.memtables != map[]
    modifies oracle, oracle.tracker
    ensures outcome != Panicked ==>
              exists es :: TxModel.Leads(s, es, AttemptDone(s, t, outcome, oracle.tracker.View(), oracle.History()))
    ensures outcome == Ok ==> BatchOf(batch, s.txs[t].overlay, tx.inner.memtables.Keys)
  {
    hide Attempted, AttemptDone, TxModel.Leads;
    assert oracle.Overwritten(tx.cm.View(), tx.instant) <==> TxModel.Conflicted(s, s.txs[t]) by {
      SameTest(oracle.History(), oracle.committed, s, s.txs[t]);
    }
    outcome, batch := tx.Commit(oracle, seqno, applies);
    if outcome != Panicked {
      AttemptIsRun(s, t, outcome, oracle.tracker.View(), oracle.History());
    }
  }

  lemma SameTest(history: map<nat, Footprint>, committed: map<nat, ConflictManager>, s: TxModel.State, tx: TxModel.Tx)
    requires history.Keys == committed.Keys && s.committed == history
    ensures TxModel.Conflicted(s, tx) <==> exists ts :: ts in committed && ts > tx.instant && Clashes(tx.marks, history[ts])
  {
  }

  /** A blind insert (or remove) wrapped in a transaction never conflicts. */
  method BlindWrite(oracle: Oracle, base: Db, instant: nat, ks: nat, key: Key, value: Option<Value>, seqno: nat, applies: bool)
    returns (outcome: Outcome)
    modifies oracle, oracle.tracker
    ensures outcome == Ok || outcome == Aborted
  {
    var tx := new WriteTransaction(base, instant);
    tx.Insert(ks, key, value);
    assert tx.cm.View().readSet == map[];
    BlindNeverClashes(tx.cm.View());
    var batch;
    outcome, batch := tx.Commit(oracle, seqno, applies);
  }
}
