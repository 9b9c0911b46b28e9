/** When recovery's own checks hold: a sealed journal's watermark must be its last write. */
module RecoveryChecks {
  import opened Bytes
  import opened KeyspaceLog
  import opened KeyspaceRecovery
  import J = JournalEntry
  import opened BatchReader
  import opened Recovery
  import opened RecoveryLoops

  // ---------------------------------------------------------------------------
  // One journal.

  /** Nothing was written to the keyspace since it was last cleared, and a write numbered `s`
      would end up below what the journal announces. */
  predicate Low(batches: seq<Batch>, id: nat, s: nat) {
    LogOf(batches, id) == map[] && MarkIn(batches, id).Some? && MarkIn(batches, id).value > s
  }

  predicate HitsLow(batches: seq<Batch>, b: Batch, id: nat) {
    id !in b.cleared && Mentions(b, id) && Low(batches, id, b.seqno)
  }

  /** What one more batch does to a journal, passing or not: a clear marker always makes it
      pass, the first write since one decides by its sequence number, and a later write makes a
      failing journal pass again if it reaches the announced sequence number. */
  lemma AppendExact(batches: seq<Batch>, b: Batch, id: nat)
    ensures Announced(batches + [b], id) <==>
            if id in b.cleared then true
            else if !Mentions(b, id) then Announced(batches, id)
            else if LogOf(batches, id) == map[] then !Low(batches, id, b.seqno)
            else Announced(batches, id) || (MarkIn(batches, id).Some? && MarkIn(batches, id).value <= b.seqno)
  {
    hide Mentions, Highest, TableOf;
    assert (batches + [b])[..|batches|] == batches;
    if id !in b.cleared {
      var log := LogOf(batches, id);
      TableMentions(b, id);
      TableUniform(b.items, id, b.seqno);
      HighestMerged(log, TableOf(b.items, id, b.seqno), b.seqno);
      HighestCovered(batches, id);
    }
  }

  lemma HighestCovered(batches: seq<Batch>, id: nat)
    ensures var log, mark := LogOf(batches, id), MarkIn(batches, id);
            log != map[] ==> Highest(log).Some? && mark.Some? && Highest(log).value <= mark.value
  {
    hide LogOf, MarkIn;
    var log := LogOf(batches, id);
    if log != map[] {
      var v :| v in log && v.seqno == Highest(log).value;
      MarkCovers(batches, id, v);
    }
  }

  lemma PassingAppend(batches: seq<Batch>, b: Batch, id: nat)
    requires Announced(batches, id)
    ensures Announced(batches + [b], id) <==> !HitsLow(batches, b, id)
  {
    hide Mentions, Highest, LogOf, MarkIn;
    AppendExact(batches, b, id);
  }

  lemma {:induction false} MarkConcat(front: seq<Batch>, rest: seq<Batch>, id: nat)
    ensures MarkIn(front + rest, id) ==
            if MarkIn(rest, id).None? then MarkIn(front, id) else Some(Later(MarkIn(front, id), MarkIn(rest, id).value))
  {
    hide Mentions;
    if rest == [] {
      assert front + rest == front;
    } else {
      var n := |rest| - 1;
      MarkConcat(front, rest[..n], id);
      assert (front + rest)[..|front| + n] == front + rest[..n];
    }
  }

  lemma {:induction false} LogConcat(front: seq<Batch>, rest: seq<Batch>, id: nat)
    requires LogOf(front, id) == map[]
    ensures LogOf(front + rest, id) == LogOf(rest, id)
  {
    hide TableOf;
    if rest == [] {
      assert front + rest == front;
    } else {
      var n := |rest| - 1;
      LogConcat(front, rest[..n], id);
      assert (front + rest)[..|front| + n] == front + rest[..n];
    }
  }

  /** The keyspace was written after its last clear marker, at index `c`, and some batch up to
      that marker has a higher sequence number than all of those writes. */
  predicate OvertakenAt(batches: seq<Batch>, id: nat, c: nat)
    requires c < |batches|
  {
    var front, rest := MarkIn(batches[..c + 1], id), MarkIn(batches[c + 1..], id);
    && id in batches[c].cleared && !Clears(batches[c + 1..], id)
    && front.Some? && rest.Some? && front.value > rest.value
  }

  predicate Overtaken(batches: seq<Batch>, id: nat) {
    exists c: nat :: c < |batches| && OvertakenAt(batches, id, c)
  }

  lemma {:induction false} LastClear(batches: seq<Batch>, id: nat) returns (c: nat)
    requires Clears(batches, id)
    ensures c < |batches| && id in batches[c].cleared && !Clears(batches[c + 1..], id)
  {
    var n := |batches| - 1;
    if id in batches[n].cleared {
      c := n;
      EmptyJournal(id);
      assert batches[n + 1..] == [];
    } else {
      c := LastClear(batches[..n], id);
      ClearsSnoc(batches[..n][c + 1..], batches[n], id);
      assert batches[..n][c + 1..] + [batches[n]] == batches[c + 1..];
    }
  }

  /** A journal fails exactly when its keyspace is overtaken. */
  lemma JournalExact(batches: seq<Batch>, id: nat)
    ensures Announced(batches, id) <==> !Overtaken(batches, id)
  {
    hide Announced, Clears, MarkIn;
    if c: nat :| c < |batches| && OvertakenAt(batches, id, c) {
      SplitAt(batches, id, c);
    } else if Clears(batches, id) {
      var c := LastClear(batches, id);
      SplitAt(batches, id, c);
      assert !OvertakenAt(batches, id, c);
    } else {
      UnclearedAnnounced(batches, id);
    }
  }

  lemma SplitAt(batches: seq<Batch>, id: nat, c: nat)
    requires c < |batches| && id in batches[c].cleared && !Clears(batches[c + 1..], id)
    ensures Announced(batches, id) <==> !OvertakenAt(batches, id, c)
  {
    hide Announced, Clears, MarkIn;
    SplitExact(batches[..c + 1], batches[c + 1..], id);
    assert batches[..c + 1] + batches[c + 1..] == batches;
  }

  lemma UnclearedAnnounced(batches: seq<Batch>, id: nat)
    requires !Clears(batches, id)
    ensures Announced(batches, id)
  {
    hide Clears, Highest, LogOf, MarkIn;
    UnclearedMark(batches, id);
  }

  lemma SplitExact(front: seq<Batch>, rest: seq<Batch>, id: nat)
    requires front != [] && id in front[|front| - 1].cleared && !Clears(rest, id)
    ensures MarkIn(front, id).Some?
    ensures Announced(front + rest, id) <==> MarkIn(rest, id).None? || MarkIn(front, id).value <= MarkIn(rest, id).value
  {
    hide Highest, Clears, TableOf;
    LogConcat(front, rest, id);
    MarkConcat(front, rest, id);
    UnclearedMark(rest, id);
  }

  lemma {:induction false} MarkBelow(batches: seq<Batch>, id: nat, s: nat)
    requires forall i :: 0 <= i < |batches| ==> batches[i].seqno <= s
    ensures MarkIn(batches, id).Some? ==> MarkIn(batches, id).value <= s
  {
    hide Mentions;
    if batches != [] {
      MarkBelow(batches[..|batches| - 1], id, s);
    }
  }

  predicate InOrder(batches: seq<Batch>) {
    forall i, j :: 0 <= i < j < |batches| ==> batches[i].seqno <= batches[j].seqno
  }

  /** A journal whose sequence numbers never fall passes the check, clear markers or not. */
  lemma {:induction false} InOrderAnnounced(batches: seq<Batch>, id: nat)
    requires InOrder(batches)
    ensures Announced(batches, id)
  {
    hide Announced, Mentions, MarkIn, LogOf;
    if batches == [] {
      NothingAnnounced(id);
    } else {
      var n := |batches| - 1;
      InOrderAnnounced(batches[..n], id);
      MarkBelow(batches[..n], id, batches[n].seqno);
      PassingAppend(batches[..n], batches[n], id);
      assert batches[..n] + [batches[n]] == batches;
    }
  }

  lemma NothingAnnounced(id: nat)
    ensures Announced([], id)
  {
  }

  // ---------------------------------------------------------------------------
  // Steps.

  /** Every journal passes, the active one included. */
  ghost predicate AllPass(db: Db) {
    ChecksHold(Journals(db), db.trees.Keys)
  }

  ghost predicate RecoveryPasses(db: Db) {
    var d := DiskOf(db);
    ChecksHold(d.journals[..|d.journals| - 1], d.tables.Keys)
  }

  /** That is to say: recovery passes its checks now, and would also pass them if the journal
      were rotated first. */
  lemma AllPassMeans(db: Db)
    ensures AllPass(db) <==> RecoveryPasses(JournalSealed(db))
    ensures AllPass(db) ==> RecoveryPasses(db)
  {
    hide Announced, MarksOf;
    var d := DiskOf(JournalSealed(db));
    assert d.journals[..|d.journals| - 1] == Journals(db);
    assert d.tables.Keys == db.trees.Keys == DiskOf(db).tables.Keys;
  }

  /** The step writes a keyspace that is low in the active journal. */
  predicate WritesLow(db: Db, e: Event) {
    (e.Write? || e.CrashMidWrite?) && exists id :: id in db.trees && HitsLow(db.active, BatchFor(db, e.items, e.cleared), id)
  }

  lemma AppendPasses(db: Db, b: Batch)
    requires AllPass(db)
    ensures ChecksHold(Appended(Journals(db), b), db.trees.Keys) <==> forall id :: id in db.trees ==> !HitsLow(db.active, b, id)
  {
    hide Announced, HitsLow;
    var js, n := Journals(db), |db.sealed|;
    var js' := Appended(js, b);
    assert forall i :: 0 <= i < n ==> js'[i] == js[i];
    assert js'[n] == db.active + [b];
    forall id | id in db.trees
      ensures Announced(js'[n], id) <==> !HitsLow(db.active, b, id)
    {
      assert Announced(js[n], id);
      PassingAppend(db.active, b, id);
    }
  }

  lemma WritePasses(db: Db, items: seq<ReadItem>, cleared: seq<nat>)
    requires Formed(db) && AllPass(db)
    ensures WriteDone(db, items, cleared).trees.Keys == db.trees.Keys
    ensures ChecksHold(Journals(WriteDone(db, items, cleared)), db.trees.Keys) <==> !WritesLow(db, Write(items, cleared))
  {
    hide ChecksHold, HitsLow, TreeAfter;
    WriteJournals(db, items, cleared);
    AppendPasses(db, BatchFor(db, items, cleared));
  }

  lemma RotatePasses(db: Db)
    requires AllPass(db)
    ensures AllPass(JournalSealed(db))
  {
    hide MarksOf, Announced;
    var js := Journals(JournalSealed(db));
    assert js == Journals(db) + [[]];
    forall id { NothingAnnounced(id); }
  }

  lemma EvictPasses(db: Db)
    requires AllPass(db) && db.sealed != []
    ensures AllPass(db.(sealed := db.sealed[1..]))
  {
    hide Announced;
    assert Journals(db.(sealed := db.sealed[1..])) == Journals(db)[1..];
  }

  lemma ReopenPasses(d: Disk)
    requires d.journals != []
    ensures AllPass(Recover(d)) <==> ChecksHold(d.journals, d.tables.Keys)
  {
    hide ChecksHold, NextSeqno, SealedSeqno, Rebuilt, LogsOf, KeptTables, RebuiltQueue, Journals;
    ReopenedJournals(d);
  }

  lemma ReopenedJournals(d: Disk)
    requires d.journals != []
    ensures Journals(Recover(d)) == d.journals && Recover(d).trees.Keys == d.tables.Keys
  {
    hide NextSeqno, SealedSeqno, Rebuilt, LogsOf, KeptTables;
    SameJournals(d);
  }

  lemma OtherPasses(db: Db, e: Event)
    requires Formed(db) && Enabled(db, e) && (e.Skip? || e.RotateMemtable? || e.Flush? || e.Compact?)
    ensures Journals(Step(db, e)) == Journals(db) && Step(db, e).trees.Keys == db.trees.Keys
  {
    hide Compacts;
  }

  /** From a state in which all journals pass, they all pass after a step exactly when the step
      does not write a low keyspace. */
  lemma StepExact(db: Db, e: Event)
    requires Formed(db) && Enabled(db, e) && AllPass(db)
    ensures AllPass(Step(db, e)) <==> !WritesLow(db, e)
  {
    hide ChecksHold, HitsLow, Recover, TreesAfter, Journals, CanEvict, Compacts, MarksOf, Storable;
    match e {
      case Write(items, cleared) => WritePasses(db, items, cleared);
      case RotateJournal => RotatePasses(db);
      case Evict => EvictPasses(db);
      case Crash =>
        JournalsSome(db);
        ReopenPasses(DiskOf(db));
        assert DiskOf(db).tables.Keys == db.trees.Keys;
      case CrashMidWrite(items, cleared) =>
        var d := Disk(DiskOf(db).tables, Journals(WriteDone(db, items, cleared)));
        WritePasses(db, items, cleared);
        JournalsSome(WriteDone(db, items, cleared));
        ReopenPasses(d);
        assert d.tables.Keys == db.trees.Keys;
      case _ => OtherPasses(db, e);
    }
  }

  // ---------------------------------------------------------------------------
  // All runs.

  /** No event of the run writes a low keyspace. */
  predicate NeverWritesLow(trace: seq<Db>, events: seq<Event>)
    requires |trace| == |events| + 1
  {
    forall k :: 0 <= k < |events| ==> !WritesLow(trace[k], events[k])
  }

  lemma StartPasses(ids: set<nat>)
    ensures AllPass(Start(ids))
  {
    hide Announced;
    assert Journals(Start(ids)) == [[]];
    forall id { NothingAnnounced(id); }
  }

  lemma {:induction false} PassesSoFar(ids: set<nat>, trace: seq<Db>, events: seq<Event>, n: nat)
    requires IsRun(trace, events) && trace[0] == Start(ids) && n <= |events|
    requires forall k :: 0 <= k < n ==> !WritesLow(trace[k], events[k])
    ensures AllPass(trace[n])
  {
    hide Step, Enabled, Formed, AllPass, WritesLow;
    if n == 0 {
      StartPasses(ids);
    } else {
      PassesSoFar(ids, trace, events, n - 1);
      StepExact(trace[n - 1], events[n - 1]);
    }
  }

  /** Over every run, crashes and clears included, all journals pass in all states if and only
      if no write of the run hits a low keyspace, which can be tested before the write. */
  lemma RunsPassExactly(ids: set<nat>, trace: seq<Db>, events: seq<Event>)
    requires IsRun(trace, events) && trace[0] == Start(ids)
    ensures (forall k :: 0 <= k <= |events| ==> AllPass(trace[k])) <==> NeverWritesLow(trace, events)
  {
    hide Step, Enabled, Formed, AllPass, WritesLow;
    if NeverWritesLow(trace, events) {
      forall k | 0 <= k <= |events| { PassesSoFar(ids, trace, events, k); }
    }
    if forall k :: 0 <= k <= |events| ==> AllPass(trace[k]) {
      forall k | 0 <= k < |events|
        ensures !WritesLow(trace[k], events[k])
      {
        assert AllPass(trace[k]) && AllPass(trace[k + 1]);
        StepExact(trace[k], events[k]);
      }
    }
  }

  /** In particular, recovery passes its checks at every moment of such a run. */
  lemma RunsPassChecks(ids: set<nat>, trace: seq<Db>, events: seq<Event>, k: nat)
    requires IsRun(trace, events) && trace[0] == Start(ids) && NeverWritesLow(trace, events) && k <= |events|
    ensures RecoveryPasses(trace[k]) && RecoveryPasses(JournalSealed(trace[k]))
  {
    hide Step, Enabled, Formed, AllPass, WritesLow, RecoveryPasses, JournalSealed;
    RunsPassExactly(ids, trace, events);
    AllPassMeans(trace[k]);
  }

  // ---------------------------------------------------------------------------
  // The active journal is not checked until it is sealed, and may pass again by then.

  /** No keyspace is overtaken in the active journal. */
  ghost predicate NoneOvertaken(db: Db) {
    forall id :: id in db.trees ==> !Overtaken(db.active, id)
  }

  lemma SealedMeans(db: Db)
    ensures RecoveryPasses(db) <==> forall i, id :: 0 <= i < |db.sealed| && id in db.trees ==> Announced(db.sealed[i].batches, id)
  {
    hide Announced;
    var d := DiskOf(db);
    assert d.tables.Keys == db.trees.Keys;
    assert forall i :: 0 <= i < |db.sealed| ==> d.journals[..|d.journals| - 1][i] == db.sealed[i].batches;
  }

  lemma SameSealed(db: Db, db': Db)
    requires db'.trees.Keys == db.trees.Keys && |db'.sealed| == |db.sealed|
    requires forall i :: 0 <= i < |db.sealed| ==> db'.sealed[i].batches == db.sealed[i].batches
    ensures RecoveryPasses(db') <==> RecoveryPasses(db)
  {
    hide Announced, RecoveryPasses;
    SealedMeans(db);
    SealedMeans(db');
  }

  lemma RotateChecks(db: Db)
    requires RecoveryPasses(db)
    ensures RecoveryPasses(JournalSealed(db)) <==> NoneOvertaken(db)
  {
    hide Announced, Overtaken, RecoveryPasses, MarksOf;
    var db' := JournalSealed(db);
    forall id { JournalExact(db.active, id); }
    SealedMeans(db);
    SealedMeans(db');
    assert forall i :: 0 <= i < |db.sealed| ==> db'.sealed[i] == db.sealed[i];
    assert db'.sealed[|db.sealed|].batches == db.active;
  }

  lemma EvictChecks(db: Db)
    requires RecoveryPasses(db) && db.sealed != []
    ensures RecoveryPasses(db.(sealed := db.sealed[1..]))
  {
    hide Announced, RecoveryPasses;
    SealedMeans(db);
    SealedMeans(db.(sealed := db.sealed[1..]));
  }

  lemma ReopenChecks(db: Db, d: Disk)
    requires d.tables.Keys == db.trees.Keys && |d.journals| == |db.sealed| + 1
    requires forall i :: 0 <= i < |db.sealed| ==> d.journals[i] == db.sealed[i].batches
    ensures RecoveryPasses(Recover(d)) <==> RecoveryPasses(db)
  {
    hide RecoveryPasses, Recover;
    ReopenedJournals(d);
    var db' := Recover(d);
    assert |Journals(db')| == |db'.sealed| + 1;
    assert forall i :: 0 <= i < |db'.sealed| ==> Journals(db')[i] == db'.sealed[i].batches;
    SameSealed(db, db');
  }

  lemma StepChecks(db: Db, e: Event)
    requires Formed(db) && Enabled(db, e) && RecoveryPasses(db)
    ensures RecoveryPasses(Step(db, e)) <==> (e.RotateJournal? ==> NoneOvertaken(db))
  {
    hide RecoveryPasses, Recover, CanEvict, Compacts, MarksOf, Storable, TableOf, NoneOvertaken;
    match e {
      case Write(items, cleared) => SameSealed(db, Step(db, e));
      case RotateJournal => RotateChecks(db);
      case Evict => EvictChecks(db);
      case Crash => ReopenChecks(db, DiskOf(db));
      case CrashMidWrite(items, cleared) => ReopenChecks(db, Disk(DiskOf(db).tables, Journals(WriteDone(db, items, cleared))));
      case _ => SameSealed(db, Step(db, e));
    }
  }

  lemma {:induction false} ChecksSoFar(ids: set<nat>, trace: seq<Db>, events: seq<Event>, n: nat)
    requires IsRun(trace, events) && trace[0] == Start(ids) && n <= |events|
    requires forall k :: 0 <= k < n && events[k].RotateJournal? ==> NoneOvertaken(trace[k])
    ensures RecoveryPasses(trace[n])
  {
    hide Step, Enabled, Formed, RecoveryPasses, NoneOvertaken, Announced;
    if n == 0 {
      SealedMeans(Start(ids));
    } else {
      ChecksSoFar(ids, trace, events, n - 1);
      StepChecks(trace[n - 1], events[n - 1]);
    }
  }

  /** Over every run, recovery passes its checks in all states if and only if every rotation
      finds no keyspace overtaken in the active journal. */
  lemma RecoveriesPassExactly(ids: set<nat>, trace: seq<Db>, events: seq<Event>)
    requires IsRun(trace, events) && trace[0] == Start(ids)
    ensures (forall k :: 0 <= k <= |events| ==> RecoveryPasses(trace[k])) <==>
            forall k :: 0 <= k < |events| && events[k].RotateJournal? ==> NoneOvertaken(trace[k])
  {
    hide Step, Enabled, Formed, RecoveryPasses, NoneOvertaken;
    if forall k :: 0 <= k < |events| && events[k].RotateJournal? ==> NoneOvertaken(trace[k]) {
      forall k | 0 <= k <= |events| { ChecksSoFar(ids, trace, events, k); }
    }
    if forall k :: 0 <= k <= |events| ==> RecoveryPasses(trace[k]) {
      forall k | 0 <= k < |events| && events[k].RotateJournal?
        ensures NoneOvertaken(trace[k])
      {
        assert RecoveryPasses(trace[k]) && RecoveryPasses(trace[k + 1]);
        StepChecks(trace[k], events[k]);
      }
    }
  }

  // ---------------------------------------------------------------------------
  // Runs without clears.

  ghost predicate Uncleared(db: Db) {
    forall i, id :: 0 <= i < |Journals(db)| ==> !Clears(Journals(db)[i], id)
  }

  predicate ClearFree(e: Event) {
    e.Write? || e.CrashMidWrite? ==> e.cleared == []
  }

  lemma UnclearedWrite(db: Db, items: seq<ReadItem>)
    requires Formed(db) && Uncleared(db)
    ensures forall i, id :: 0 <= i <= |db.sealed| ==> !Clears(Journals(WriteDone(db, items, []))[i], id)
  {
    hide TreesAfter, Clears;
    WriteJournals(db, items, []);
    forall id { ClearsSnoc(db.active, BatchFor(db, items, []), id); }
  }

  lemma UnclearedStep(db: Db, e: Event)
    requires Formed(db) && Enabled(db, e) && Uncleared(db) && ClearFree(e)
    ensures Uncleared(Step(db, e))
  {
    hide Clears, Recover, TreesAfter, CanEvict, Compacts, MarksOf, Storable;
    match e {
      case Write(items, _) => UnclearedWrite(db, items);
      case RotateJournal =>
        assert Journals(JournalSealed(db)) == Journals(db) + [[]];
        forall id { EmptyJournal(id); }
      case Evict => assert Journals(Step(db, e)) == Journals(db)[1..];
      case Crash => ReopenedJournals(DiskOf(db));
      case CrashMidWrite(items, _) =>
        UnclearedWrite(db, items);
        ReopenedJournals(Disk(DiskOf(db).tables, Journals(WriteDone(db, items, []))));
      case _ => OtherPasses(db, e);
    }
  }

  lemma {:induction false} UnclearedRun(ids: set<nat>, trace: seq<Db>, events: seq<Event>, n: nat)
    requires IsRun(trace, events) && trace[0] == Start(ids) && n <= |events|
    requires forall k :: 0 <= k < |events| ==> ClearFree(events[k])
    ensures Uncleared(trace[n])
  {
    hide Step, Enabled, Formed, ClearFree;
    if n == 0 {
      assert Journals(Start(ids)) == [[]];
      forall id { EmptyJournal(id); }
    } else {
      UnclearedRun(ids, trace, events, n - 1);
      UnclearedStep(trace[n - 1], events[n - 1]);
    }
  }

  /** Journals without clear markers pass the checks whatever their sequence numbers. */
  lemma UnclearedChecks(journals: seq<seq<Batch>>, ids: set<nat>)
    requires forall i, id :: 0 <= i < |journals| && id in ids ==> !Clears(journals[i], id)
    ensures ChecksHold(journals, ids)
  {
    hide Clears, Announced;
    forall i, id | 0 <= i < |journals| && id in ids
      ensures Announced(journals[i], id)
    {
      UnclearedAnnounced(journals[i], id);
    }
  }

  /** Every run without clears passes its checks at every moment, whatever its crashes do to the
      counter. */
  lemma ClearFreeRunsPass(ids: set<nat>, trace: seq<Db>, events: seq<Event>, k: nat)
    requires IsRun(trace, events) && trace[0] == Start(ids) && k <= |events|
    requires forall k :: 0 <= k < |events| ==> ClearFree(events[k])
    ensures RecoveryPasses(trace[k]) && RecoveryPasses(JournalSealed(trace[k]))
  {
    hide Step, Enabled, Formed, RecoveryPasses, JournalSealed, Uncleared, Announced;
    UnclearedRun(ids, trace, events, k);
    UnclearedPasses(trace[k]);
    AllPassMeans(trace[k]);
  }

  lemma UnclearedPasses(db: Db)
    requires Uncleared(db)
    ensures AllPass(db)
  {
    hide Clears, ChecksHold;
    UnclearedChecks(Journals(db), db.trees.Keys);
  }

  // ---------------------------------------------------------------------------
  // Runs whose counter stays above the journals.

  /** The counter is above every journaled sequence number. */
  predicate CounterKept(db: Db) {
    forall i, a :: 0 <= i < |Journals(db)| && 0 <= a < |Journals(db)[i]| ==> Journals(db)[i][a].seqno < db.seqno
  }

  /** No crash lets the counter fall to a journaled sequence number. */
  ghost predicate CountersKept(trace: seq<Db>, events: seq<Event>)
    requires |trace| == |events| + 1
  {
    forall k :: 0 <= k < |events| && (events[k].Crash? || events[k].CrashMidWrite?) ==> CounterKept(trace[k + 1])
  }

  lemma KeptNotLow(db: Db, e: Event)
    requires CounterKept(db)
    ensures !WritesLow(db, e)
  {
    hide LogOf, MarkIn, Mentions;
    var n := |db.sealed|;
    assert Journals(db)[n] == db.active;
    assert forall a :: 0 <= a < |db.active| ==> db.active[a].seqno <= db.seqno;
    forall id { MarkBelow(db.active, id, db.seqno); }
  }

  lemma StepKeepsCounter(db: Db, e: Event)
    requires Formed(db) && Enabled(db, e) && CounterKept(db) && !e.Crash? && !e.CrashMidWrite?
    ensures CounterKept(Step(db, e))
  {
    hide TreesAfter, CanEvict, Compacts, MarksOf, Storable;
    match e {
      case Write(items, cleared) => WriteJournals(db, items, cleared);
      case RotateJournal => assert Journals(JournalSealed(db)) == Journals(db) + [[]];
      case Evict => assert Journals(Step(db, e)) == Journals(db)[1..];
      case _ => OtherPasses(db, e);
    }
  }

  lemma {:induction false} CounterOverRun(ids: set<nat>, trace: seq<Db>, events: seq<Event>, n: nat)
    requires IsRun(trace, events) && trace[0] == Start(ids) && CountersKept(trace, events) && n <= |events|
    ensures CounterKept(trace[n])
  {
    hide Step, Enabled, Formed, CounterKept;
    if n == 0 {
      StartKept(ids);
    } else if !events[n - 1].Crash? && !events[n - 1].CrashMidWrite? {
      CounterOverRun(ids, trace, events, n - 1);
      StepKeepsCounter(trace[n - 1], events[n - 1]);
    }
  }

  lemma StartKept(ids: set<nat>)
    ensures CounterKept(Start(ids))
  {
    assert Journals(Start(ids)) == [[]];
  }

  /** As long as no crash lets the counter fall to a journaled sequence number, clears are safe. */
  lemma KeptCountersPass(ids: set<nat>, trace: seq<Db>, events: seq<Event>)
    requires IsRun(trace, events) && trace[0] == Start(ids) && CountersKept(trace, events)
    ensures NeverWritesLow(trace, events)
  {
    hide Step, Enabled, Formed, CounterKept, WritesLow;
    forall k | 0 <= k < |events|
      ensures !WritesLow(trace[k], events[k])
    {
      CounterOverRun(ids, trace, events, k);
      KeptNotLow(trace[k], events[k]);
    }
  }

  // ---------------------------------------------------------------------------
  // Runs after which recovery fails its check: the counter is recovered from the trees, so a
  // crash after a clear lets it fall below the clear marker.

  const ITEM := ReadItem(0, [1], [7], J.Value)

  function AfterClear(gap: nat): Db {
    Db(map[0 := Tree(map[], [map[]])], [], [Batch(gap, [], [0])], gap + 1)
  }

  /** `gap` operations that only take a sequence number, a clear, a crash, `bumps` more such
      operations, a write and a rotation. */
  function Scenario(gap: nat, bumps: nat): seq<Event> {
    Skips(gap) + [Write([], [0]), Crash] + Skips(bumps) + [Write([ITEM], []), RotateJournal]
  }

  function Skips(n: nat): (es: seq<Event>)
    ensures |es| == n && forall i :: 0 <= i < n ==> es[i] == Skip
  {
    seq(n, i => Skip)
  }

  lemma ClearedTrees(gap: nat)
    ensures RebuiltTrees(DiskOf(AfterClear(gap))) == map[0 := Tree(map[], [map[]])]
  {
    hide LogsOf, Wiped;
    var b := Batch(gap, [], [0]);
    var none: seq<seq<Batch>> := [[]];
    assert none[0] + [b] == [b] && Journals(AfterClear(gap)) == [[b]] == Appended(none, b);
    AppendedLogs(none, b, 0);
    assert Blank(1)[..0] == [] && Replayed(map[], []) == [];
    var trees := RebuiltTrees(DiskOf(AfterClear(gap)));
    assert trees[0] == Tree(map[], [map[]]) && trees.Keys == {0};
  }

  lemma EmptyCounter()
    ensures NextSeqno(map[0 := Tree(map[], [map[]])]) == 0
  {
    assert forall s: nat :: !Stored(Tree(map[], [map[]]), s);
  }

  lemma CounterFalls(gap: nat)
    ensures Recover(DiskOf(AfterClear(gap))) == AfterClear(gap).(seqno := 0)
  {
    hide NextSeqno, RebuiltTrees, Resealed;
    ClearedTrees(gap);
    EmptyCounter();
    var d := DiskOf(AfterClear(gap));
    assert d.journals == [AfterClear(gap).active] && d.journals[..0] == [];
    NothingSealed(d.tables);
  }

  lemma Then(trace: seq<Db>, events: seq<Event>, e: Event) returns (trace': seq<Db>)
    requires IsRun(trace, events) && Formed(trace[|events|]) && Enabled(trace[|events|], e)
    ensures IsRun(trace', events + [e]) && trace'[0] == trace[0] && trace'[|events| + 1] == Step(trace[|events|], e)
  {
    hide Step, Enabled, Formed;
    trace' := trace + [Step(trace[|events|], e)];
  }

  lemma {:induction false} ThenSkips(trace: seq<Db>, events: seq<Event>, n: nat) returns (trace': seq<Db>)
    requires IsRun(trace, events) && Formed(trace[|events|])
    ensures IsRun(trace', events + Skips(n)) && trace'[0] == trace[0]
    ensures var db := trace[|events|]; trace'[|events| + n] == db.(seqno := db.seqno + n)
  {
    hide IsRun;
    if n == 0 {
      trace' := trace;
      assert events + Skips(0) == events;
    } else {
      trace' := ThenSkips(trace, events, n - 1);
      trace' := Then(trace', events + Skips(n - 1), Skip);
      assert events + Skips(n - 1) + [Skip] == events + Skips(n);
    }
  }

  lemma ClearStep(gap: nat)
    ensures var db := Start({0}).(seqno := gap);
            Formed(db) && Enabled(db, Write([], [0])) && Step(db, Write([], [0])) == AfterClear(gap) && Formed(AfterClear(gap))
  {
    var db := Start({0}).(seqno := gap);
    assert TreeAfter(db.trees[0], Batch(gap, [], [0]), 0) == Tree(map[], [map[]]);
  }

  lemma WriteStep(gap: nat, bumps: nat)
    ensures var db := AfterClear(gap).(seqno := bumps);
            && Formed(db) && Enabled(db, Write([ITEM], [])) && Formed(WriteDone(db, [ITEM], []))
            && Step(db, Write([ITEM], [])) == WriteDone(db, [ITEM], [])
            && WriteDone(db, [ITEM], []).sealed == [] && WriteDone(db, [ITEM], []).trees.Keys == {0}
            && WriteDone(db, [ITEM], []).active == [Batch(gap, [], [0]), Batch(bumps, [ITEM], [])]
  {
    hide TableOf;
  }

  lemma LateWrite(gap: nat, bumps: nat)
    ensures Announced([Batch(gap, [], [0]), Batch(bumps, [ITEM], [])], 0) <==> gap <= bumps
  {
    hide Announced, Highest;
    var clear, write := Batch(gap, [], [0]), Batch(bumps, [ITEM], []);
    assert [clear][..0] == [] && [clear] + [write] == [clear, write];
    assert LogOf([clear], 0) == map[] && MarkIn([clear], 0) == Some(gap);
    assert write.items[0].ks == 0;
    AppendExact([clear], write, 0);
  }

  /** Such a run fails its check, at every reopening, if and only if fewer sequence numbers were
      taken between crash and write than before the clear: the sealed journal then announces
      the clear marker's number and holds a lower one. */
  lemma RecoveryCanFail(gap: nat, bumps: nat) returns (trace: seq<Db>)
    ensures var events := Scenario(gap, bumps);
            && IsRun(trace, events) && trace[0] == Start({0})
            && (RecoveryPasses(trace[|events|]) <==> gap <= bumps)
  {
    hide IsRun, Step, Recover, WriteDone, JournalSealed, RecoveryPasses, Skips;
    var start, cleared := Start({0}), AfterClear(gap);
    var events := Skips(gap);
    trace := Beginning();
    assert [] + events == events;
    trace := ThenSkips(trace, [], gap);
    ClearStep(gap);
    trace := Then(trace, events, Write([], [0]));
    trace := CrashFrom(trace, events + [Write([], [0])], gap);
    var after := events + [Write([], [0])] + [Crash];
    trace := ThenSkips(trace, after, bumps);
    WriteStep(gap, bumps);
    trace := Then(trace, after + Skips(bumps), Write([ITEM], []));
    trace := RotateFrom(trace, after + Skips(bumps) + [Write([ITEM], [])], gap, bumps);
    assert after + Skips(bumps) + [Write([ITEM], [])] + [RotateJournal] == Scenario(gap, bumps);
  }

  lemma Beginning() returns (trace: seq<Db>)
    ensures IsRun(trace, []) && trace[0] == Start({0}) && Formed(trace[0]) && Start({0}).seqno == 0
  {
    trace := [Start({0})];
  }

  lemma CrashFrom(trace: seq<Db>, events: seq<Event>, gap: nat) returns (trace': seq<Db>)
    requires IsRun(trace, events) && trace[|events|] == AfterClear(gap)
    ensures IsRun(trace', events + [Crash]) && trace'[0] == trace[0] && trace'[|events| + 1] == AfterClear(gap).(seqno := 0)
    ensures Formed(trace'[|events| + 1])
  {
    hide IsRun, Recover;
    CounterFalls(gap);
    trace' := Then(trace, events, Crash);
  }

  lemma RotateStep(db: Db)
    requires Formed(db)
    ensures Enabled(db, RotateJournal) && Step(db, RotateJournal) == JournalSealed(db)
  {
  }

  lemma RotateFrom(trace: seq<Db>, events: seq<Event>, gap: nat, bumps: nat) returns (trace': seq<Db>)
    requires var db := AfterClear(gap).(seqno := bumps); IsRun(trace, events) && Formed(db) && trace[|events|] == WriteDone(db, [ITEM], [])
    ensures IsRun(trace', events + [RotateJournal]) && trace'[0] == trace[0]
    ensures RecoveryPasses(trace'[|events| + 1]) <==> gap <= bumps
  {
    hide Step, Enabled, WriteDone, Announced, RecoveryPasses, JournalSealed;
    WriteStep(gap, bumps);
    var db := trace[|events|];
    assert Enabled(db, RotateJournal) && Step(db, RotateJournal) == JournalSealed(db) by { RotateStep(db); }
    trace' := Then(trace, events, RotateJournal);
    AllPassMeans(db);
    LateWrite(gap, bumps);
    assert Journals(db) == [db.active];
  }
}
