/** A commit made in one go, as the oracle makes it, is a run of the transaction machine. */
module CommitSteps {
  import opened Conflicts
  import opened SerialSpec
  import opened TxModel
  import T = SnapshotTracker

  datatype Outcome = Ok | Aborted | Conflicting | Panicked

  /** What a commit attempt does to the tracker: the instant is released before the
      outcome is known and once more when the nonce is dropped. */
  ghost predicate ReleasedTwice(before: T.State, mid: T.State, after: T.State, instant: nat, outcome: Outcome, seqno: nat) {
    && T.ClosedTo(before, instant, mid)
    && T.ClosedTo(if outcome.Ok? then T.Published(mid, seqno) else mid, instant, after)
  }

  /** The conflict history after an attempt: pruned by the watermark as it stood after the
      first release and, on success, with the new footprint under the visible instant. */
  function HistoryAfter(history: map<nat, Footprint>, marks: Footprint, mid: T.State, after: T.State, outcome: Outcome): map<nat, Footprint> {
    var pruned := Pruned(history, mid.watermark);
    if outcome.Ok? then pruned[after.visible := marks] else pruned
  }

  /** An attempt takes tracker and history from `before`, `history` to `after`, `history'`. */
  ghost predicate Attempted(before: T.State, history: map<nat, Footprint>, marks: Footprint, instant: nat, seqno: nat,
                            outcome: Outcome, after: T.State, history': map<nat, Footprint>) {
    exists mid :: ReleasedTwice(before, mid, after, instant, outcome, seqno) && history' == HistoryAfter(history, marks, mid, after, outcome)
  }

  lemma Concluded(before: T.State, history: map<nat, Footprint>, marks: Footprint, instant: nat, seqno: nat,
                  outcome: Outcome, mid: T.State, after: T.State)
    requires ReleasedTwice(before, mid, after, instant, outcome, seqno)
    ensures Attempted(before, history, marks, instant, seqno, outcome, after, HistoryAfter(history, marks, mid, after, outcome))
  {
    hide ReleasedTwice, HistoryAfter;
  }

  // ---------------------------------------------------------------------------
  // Building runs.

  lemma Start(s: State)
    ensures Leads(s, [], s)
  {
  }

  lemma Then(s: State, es: seq<Event>, mid: State, e: Event) returns (es': seq<Event>)
    requires Leads(s, es, mid) && Enabled(mid, e)
    ensures Leads(s, es', Step(mid, e))
  {
    hide Enabled, Step;
    RunAppend(s, es, e);
    es' := es + [e];
  }

  /** The store with a batch applied at `seqno`. */
  function Stored(store: Store, batch: Patch, seqno: nat): Store {
    store + map c | c in batch :: Version(c, seqno) := batch[c]
  }

  lemma {:induction false} ApplyRest(s: State, es: seq<Event>, mid: State) returns (es': seq<Event>)
    requires Leads(s, es, mid) && mid.lock.Applying?
    ensures Leads(s, es', mid.(store := Stored(mid.store, mid.lock.todo, mid.lock.seqno), lock := mid.lock.(todo := map[])))
    decreases |mid.lock.todo|
  {
    hide Leads, Stored, Step, Enabled;
    if mid.lock.todo == map[] {
      es' := es;
      StoredNothing(mid.store, mid.lock.seqno);
    } else {
      var c :| c in mid.lock.todo;
      ApplyOne(mid, c);
      var more := Then(s, es, mid, ApplyItem(c));
      es' := ApplyRest(s, more, ItemApplied(mid, c));
      StoredOneByOne(mid.store, mid.lock.todo, mid.lock.seqno, c);
    }
  }

  lemma ApplyOne(s: State, c: Cell)
    requires s.lock.Applying? && c in s.lock.todo
    ensures Enabled(s, ApplyItem(c)) && Step(s, ApplyItem(c)) == ItemApplied(s, c)
  {
  }

  lemma StoredNothing(store: Store, seqno: nat)
    ensures Stored(store, map[], seqno) == store
  {
  }

  lemma StoredAt(store: Store, batch: Patch, seqno: nat, v: Version)
    ensures v in Stored(store, batch, seqno) <==> v in store || (v.seqno == seqno && v.cell in batch)
    ensures v in Stored(store, batch, seqno) ==>
              Stored(store, batch, seqno)[v] == if v.seqno == seqno && v.cell in batch then batch[v.cell] else store[v]
  {
    var applied := map c | c in batch :: Version(c, seqno) := batch[c];
    if v.seqno == seqno && v.cell in batch {
      assert Version(v.cell, seqno) == v;
    }
  }

  lemma StoredOneByOne(store: Store, batch: Patch, seqno: nat, c: Cell)
    requires c in batch
    ensures Stored(store[Version(c, seqno) := batch[c]], batch - {c}, seqno) == Stored(store, batch, seqno)
  {
    hide Stored;
    var a, b := Stored(store[Version(c, seqno) := batch[c]], batch - {c}, seqno), Stored(store, batch, seqno);
    forall v
      ensures v in a <==> v in b
      ensures v in a ==> a[v] == b[v]
    {
      StoredAt(store, batch, seqno, v);
      StoredAt(store[Version(c, seqno) := batch[c]], batch - {c}, seqno, v);
    }
  }

  /** The collection that a release may run. */
  lemma CloseRest(s: State, es: seq<Event>, mid: State, before: T.State, instant: nat, after: T.State) returns (es': seq<Event>)
    requires Leads(s, es, mid) && mid.tracker == T.Released(before, instant) && T.ClosedTo(before, instant, after)
    ensures Leads(s, es', mid.(tracker := after))
  {
    hide Leads, T.Collected, T.Released, T.IsOrder;
    if after == mid.tracker {
      es' := es;
      assert mid == mid.(tracker := after);
    } else {
      var order :| T.IsOrder(order, mid.tracker.counts.Keys) && after == T.Collected(mid.tracker, order);
      es' := Then(s, es, mid, Collect(order));
    }
  }

  /** Starting a commit, with the collection and the pruning that its release may lead to. */
  lemma StartSteps(s: State, t: nat, mid: T.State) returns (es: seq<Event>)
    requires s.lock.Idle? && t in s.txs && s.txs[t].overlay != map[] && T.ClosedTo(s.tracker, s.txs[t].instant, mid)
    ensures Leads(s, es, CommitStarted(s, t).(tracker := mid, committed := Pruned(s.committed, mid.watermark)))
  {
    hide Leads, Conflicted, T.Released, T.ClosedTo;
    Start(s);
    var started := CommitStarted(s, t);
    es := Then(s, [], s, StartCommit(t));
    es := CloseRest(s, es, started, s.tracker, s.txs[t].instant, mid);
    es := Then(s, es, started.(tracker := mid), Prune);
    PrunedTwice(s.committed, s.tracker, s.txs[t].instant, mid);
  }

  lemma PrunedTwice(history: map<nat, Footprint>, before: T.State, instant: nat, mid: T.State)
    requires T.ClosedTo(before, instant, mid)
    ensures Pruned(Pruned(history, before.watermark), mid.watermark) == Pruned(history, mid.watermark)
  {
    hide T.Kept, T.Lowest, T.IsOrder;
    assert before.watermark <= mid.watermark;
  }

  // ---------------------------------------------------------------------------
  // Whole attempts.

  /** The machine's state after transaction `t` made an attempt that ended in `outcome`. */
  function AttemptDone(s: State, t: nat, outcome: Outcome, after: T.State, history: map<nat, Footprint>): State
    requires t in s.txs
  {
    var tx := s.txs[t];
    var left := s.(tracker := after, nonces := s.nonces - {tx.nonce}, leftovers := s.leftovers - {tx.nonce},
                   txs := s.txs - {t}, committed := history);
    match outcome
    case Ok =>
      left.(seqno := s.seqno + 1, store := Stored(s.store, tx.overlay, s.seqno),
            log := s.log + [Commit(s.seqno, tx.instant, tx.ops)], stamps := s.stamps + [after.visible])
    case Aborted => left.(seqno := s.seqno + 1)
    case _ => left
  }

  lemma ConflictSteps(s: State, t: nat, mid: T.State, after: T.State) returns (es: seq<Event>)
    requires s.lock.Idle? && t in s.txs && s.txs[t].overlay != map[] && s.txs[t].nonce !in s.leftovers && Conflicted(s, s.txs[t])
    requires ReleasedTwice(s.tracker, mid, after, s.txs[t].instant, Conflicting, s.seqno)
    ensures Leads(s, es, AttemptDone(s, t, Conflicting, after, Pruned(s.committed, mid.watermark)))
  {
    hide Leads, Conflicted, T.Released, T.ClosedTo, Pruned;
    var tx := s.txs[t];
    es := StartSteps(s, t, mid);
    var now := CommitStarted(s, t).(tracker := mid, committed := Pruned(s.committed, mid.watermark));
    es := Then(s, es, now, DropLeftover(tx.nonce));
    now := LeftoverDropped(now, tx.nonce);
    assert now.leftovers == s.leftovers - {tx.nonce};
    es := CloseRest(s, es, now, mid, tx.instant, after);
  }

  lemma AbortSteps(s: State, t: nat, mid: T.State, after: T.State) returns (es: seq<Event>)
    requires s.lock.Idle? && t in s.txs && s.txs[t].overlay != map[] && s.txs[t].nonce !in s.leftovers && !Conflicted(s, s.txs[t])
    requires ReleasedTwice(s.tracker, mid, after, s.txs[t].instant, Aborted, s.seqno)
    ensures Leads(s, es, AttemptDone(s, t, Aborted, after, Pruned(s.committed, mid.watermark)))
  {
    hide Leads, Conflicted, T.Released, T.ClosedTo, Pruned;
    var tx := s.txs[t];
    es := StartSteps(s, t, mid);
    var now := CommitStarted(s, t).(tracker := mid, committed := Pruned(s.committed, mid.watermark));
    es := Then(s, es, now, Abort);
    now := now.(lock := Idle);
    es := Then(s, es, now, DropLeftover(tx.nonce));
    now := LeftoverDropped(now, tx.nonce);
    assert now.leftovers == s.leftovers - {tx.nonce};
    es := CloseRest(s, es, now, mid, tx.instant, after);
  }

  lemma OkSteps(s: State, t: nat, mid: T.State, after: T.State) returns (es: seq<Event>)
    requires s.lock.Idle? && t in s.txs && s.txs[t].overlay != map[] && s.txs[t].nonce !in s.leftovers && !Conflicted(s, s.txs[t])
    requires ReleasedTwice(s.tracker, mid, after, s.txs[t].instant, Ok, s.seqno)
    ensures Leads(s, es, AttemptDone(s, t, Ok, after, Pruned(s.committed, mid.watermark)[after.visible := s.txs[t].marks]))
  {
    hide Leads, Conflicted, T.Released, T.ClosedTo, T.Published, Pruned, Stored;
    var tx := s.txs[t];
    es := StartSteps(s, t, mid);
    var now := CommitStarted(s, t).(tracker := mid, committed := Pruned(s.committed, mid.watermark));
    es := ApplyRest(s, es, now);
    now := now.(store := Stored(s.store, tx.overlay, s.seqno), lock := now.lock.(todo := map[]));
    es := Then(s, es, now, PublishBatch);
    now := BatchPublished(now);
    var published := now.tracker;
    es := Then(s, es, now, DropLeftover(tx.nonce));
    now := LeftoverDropped(now, tx.nonce);
    assert now.leftovers == s.leftovers - {tx.nonce};
    es := CloseRest(s, es, now, published, tx.instant, after);
    now := now.(tracker := after);
    es := Then(s, es, now, Record);
  }

  /** Whatever the oracle's commit does to tracker and history, some run of the machine does
      too, ending with the transaction gone and, on success, its batch stored, logged and
      recorded. */
  lemma AttemptIsRun(s: State, t: nat, outcome: Outcome, after: T.State, history: map<nat, Footprint>)
    requires s.lock.Idle? && t in s.txs && s.txs[t].overlay != map[] && s.txs[t].nonce !in s.leftovers
    requires outcome != Panicked && (outcome == Conflicting <==> Conflicted(s, s.txs[t]))
    requires Attempted(s.tracker, s.committed, s.txs[t].marks, s.txs[t].instant, s.seqno, outcome, after, history)
    ensures exists es :: Leads(s, es, AttemptDone(s, t, outcome, after, history))
  {
    hide Leads, Conflicted, ReleasedTwice, AttemptDone;
    var tx := s.txs[t];
    var mid :| ReleasedTwice(s.tracker, mid, after, tx.instant, outcome, s.seqno) && history == HistoryAfter(s.committed, tx.marks, mid, after, outcome);
    match outcome {
      case Ok => var es := OkSteps(s, t, mid, after);
      case Aborted => var es := AbortSteps(s, t, mid, after);
      case Conflicting => var es := ConflictSteps(s, t, mid, after);
    }
  }
}
