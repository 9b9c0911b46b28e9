/** Rebuilding one keyspace from its tables and its parts of the journals. */
module KeyspaceRecovery {
  import opened Bytes
  import opened KeyspaceLog

  /** A sealed journal holds writes of the keyspace that the tables have not caught up with. */
  ghost predicate Pending(tables: Table, log: Table) {
    log != map[] && !Reached(tables, Highest(log).value)
  }

  /** The memtables rebuilt from sealed journals: the pending ones, in order. */
  ghost function Replayed(tables: Table, logs: seq<Table>): seq<Table> {
    if logs == [] then []
    else
      var n := |logs| - 1;
      if Pending(tables, logs[n]) then Replayed(tables, logs[..n]) + [logs[n]] else Replayed(tables, logs[..n])
  }

  ghost function RebuiltMarks(logs: seq<Table>): (marks: seq<Option<nat>>)
    ensures |marks| == |logs| && forall i :: 0 <= i < |logs| ==> marks[i] == Highest(logs[i])
  {
    if logs == [] then [] else RebuiltMarks(logs[..|logs| - 1]) + [Highest(logs[|logs| - 1])]
  }

  /** Some version of the key is still in the tables or in a journal. */
  ghost predicate Survives(k: Ks, x: Key) {
    HasKey(k.tables, x) || !Absent(k.logs, x)
  }

  ghost function Recovered(k: Ks): Ks
    requires Shape(k)
  {
    var n := |k.logs| - 1;
    k.(mems := Replayed(k.tables, k.logs[..n]) + [k.logs[n]], marks := RebuiltMarks(k.logs[..n]),
       newest := map x | x in k.newest && Survives(k, x) :: k.newest[x])
  }

  // ---------------------------------------------------------------------------
  // Where the rebuilt memtables come from.

  lemma {:induction false} ReplayedFrom(tables: Table, logs: seq<Table>, j: nat) returns (i: nat)
    requires j < |Replayed(tables, logs)|
    ensures i < |logs| && Replayed(tables, logs)[j] == logs[i] && Pending(tables, logs[i])
  {
    hide Pending;
    var n := |logs| - 1;
    if j < |Replayed(tables, logs[..n])| {
      i := ReplayedFrom(tables, logs[..n], j);
      assert logs[..n][i] == logs[i];
    } else {
      i := n;
    }
  }

  lemma {:induction false} PendingReplayed(tables: Table, logs: seq<Table>, i: nat) returns (j: nat)
    requires i < |logs| && Pending(tables, logs[i])
    ensures j < |Replayed(tables, logs)| && Replayed(tables, logs)[j] == logs[i]
  {
    hide Pending;
    var n := |logs| - 1;
    if i == n {
      j := |Replayed(tables, logs)| - 1;
    } else {
      j := PendingReplayed(tables, logs[..n], i);
    }
  }

  lemma {:induction false} ReplayedOrdered(tables: Table, logs: seq<Table>)
    requires Ordered(logs)
    ensures Ordered(Replayed(tables, logs))
  {
    if logs != [] {
      var n := |logs| - 1;
      OrderedFront(logs);
      ReplayedOrdered(tables, logs[..n]);
      if Pending(tables, logs[n]) {
        ReplayedThen(tables, logs);
      }
    }
  }

  lemma OrderedFront(ts: seq<Table>)
    requires ts != [] && Ordered(ts)
    ensures Ordered(ts[..|ts| - 1])
  {
  }

  /** The rebuilt memtables of all but the last journal come before the last journal. */
  lemma ReplayedThen(tables: Table, logs: seq<Table>)
    requires logs != [] && Ordered(logs) && Ordered(Replayed(tables, logs[..|logs| - 1]))
    ensures Ordered(Replayed(tables, logs[..|logs| - 1]) + [logs[|logs| - 1]])
  {
    var n := |logs| - 1;
    var before := Replayed(tables, logs[..n]);
    forall j, a: Ver, b: Ver | 0 <= j < |before| && a in before[j] && b in logs[n]
      ensures a.seqno < b.seqno
    {
      var i := ReplayedFrom(tables, logs[..n], j);
      assert a in logs[i];
    }
  }

  /** Every rebuilt memtable is one of the journals' parts, and unless it is the active one
      it was pending. */
  lemma MemtableOrigin(k: Ks, j: nat) returns (i: nat)
    requires Shape(k) && j < |Recovered(k).mems|
    ensures i < |k.logs| && Recovered(k).mems[j] == k.logs[i]
    ensures i == |k.logs| - 1 || Pending(k.tables, k.logs[i])
  {
    hide Pending, Survives;
    var n := |k.logs| - 1;
    if j < |Replayed(k.tables, k.logs[..n])| {
      i := ReplayedFrom(k.tables, k.logs[..n], j);
    } else {
      i := n;
    }
  }

  lemma MemtableOf(k: Ks, i: nat) returns (j: nat)
    requires Shape(k) && i < |k.logs| && (i == |k.logs| - 1 || Pending(k.tables, k.logs[i]))
    ensures j < |Recovered(k).mems| && Recovered(k).mems[j] == k.logs[i]
  {
    hide Pending, Survives;
    var n := |k.logs| - 1;
    if i == n {
      j := |Recovered(k).mems| - 1;
    } else {
      assert k.logs[..n][i] == k.logs[i];
      j := PendingReplayed(k.tables, k.logs[..n], i);
    }
  }

  /** Pending journals are followed only by pending ones. */
  lemma PendingUpwards(tables: Table, logs: seq<Table>, i: nat, l: nat, v: Ver)
    requires Ordered(logs) && i < l < |logs| && Pending(tables, logs[i]) && v in logs[l]
    ensures Pending(tables, logs[l]) && !Reached(tables, v.seqno)
  {
    var h := Highest(logs[i]).value;
    var u :| u in logs[i] && u.seqno == h;
    assert h < v.seqno <= Highest(logs[l]).value;
  }

  /** A journal that knows a key comes no later than the one holding its newest version. */
  lemma NewestNotEarlier(k: Ks, s: nat, x: Key, i: nat, l: nat)
    requires AllBounded(k, s) && Ordered(k.logs) && x in k.newest && i < |k.logs| && l < |k.logs|
    requires HasKey(k.logs[i], x) && Top(k, x) in k.logs[l]
    ensures i <= l
  {
    var r: nat :| Ver(x, r) in k.logs[i];
    assert Bounded(k.logs[i], k.newest);
  }

  lemma KnownIsHeld(k: Ks, x: Key, i: nat)
    requires Durable(k) && x in k.newest && i < |k.logs| && HasKey(k.logs[i], x)
    ensures Holds(k.logs, Top(k, x))
  {
  }

  /** If a rebuilt memtable knows a key, its newest version is in the same journal part or in
      a later one that was rebuilt too. */
  lemma NewestIsRebuilt(k: Ks, s: nat, x: Key, j: nat) returns (i: nat, l: nat)
    requires Shape(k) && AllBounded(k, s) && Ordered(k.logs) && Durable(k)
    requires x in k.newest && j < |Recovered(k).mems| && HasKey(Recovered(k).mems[j], x)
    ensures i <= l < |k.logs| && Recovered(k).mems[j] == k.logs[i] && Top(k, x) in k.logs[l]
    ensures i == |k.logs| - 1 || Pending(k.tables, k.logs[i])
    ensures l == |k.logs| - 1 || Pending(k.tables, k.logs[l])
  {
    hide Recovered, Pending, Ordered, AllBounded, Durable, HasKey;
    i := MemtableOrigin(k, j);
    KnownIsHeld(k, x, i);
    l :| 0 <= l < |k.logs| && Top(k, x) in k.logs[l];
    NewestNotEarlier(k, s, x, i, l);
    if i < l && i != |k.logs| - 1 {
      PendingUpwards(k.tables, k.logs, i, l, Top(k, x));
    }
  }

  // ---------------------------------------------------------------------------
  // The invariant after recovery, one obligation at a time.

  lemma RecoveredHolds(k: Ks, s: nat, x: Key)
    requires Shape(k) && AllBounded(k, s) && Ordered(k.logs) && Durable(k) && x in k.newest
    ensures !Absent(Recovered(k).mems, x) ==> Holds(Recovered(k).mems, Top(k, x))
  {
    hide Recovered, Pending, Ordered, AllBounded, Durable, HasKey;
    if !Absent(Recovered(k).mems, x) {
      var j :| 0 <= j < |Recovered(k).mems| && HasKey(Recovered(k).mems[j], x);
      var _, l := NewestIsRebuilt(k, s, x, j);
      var m := MemtableOf(k, l);
    }
  }

  /** A key the tables already reached is current in every rebuilt memtable that knows it. */
  lemma RecoveredCurrent(k: Ks, s: nat, x: Key, j: nat)
    requires Shape(k) && AllBounded(k, s) && Ordered(k.logs) && Durable(k) && x in k.newest
    requires Reached(k.tables, k.newest[x].seqno) && j < |Recovered(k).mems| && HasKey(Recovered(k).mems[j], x)
    ensures Top(k, x) in Recovered(k).mems[j]
  {
    hide Recovered, Pending, Ordered, AllBounded, Durable, HasKey, Reached;
    var i, l := NewestIsRebuilt(k, s, x, j);
    if i < l {
      PendingUpwards(k.tables, k.logs, i, l, Top(k, x));
    }
  }

  lemma ReachedBelow(tables: Table, log: Table, v: Ver)
    requires v in log && !Pending(tables, log)
    ensures Reached(tables, v.seqno)
  {
  }

  /** A key missing from the rebuilt memtables is answered by the tables. */
  lemma UnreplayedIsSettled(k: Ks, s: nat, x: Key)
    requires Shape(k) && PersistedSettled(k) && Durable(k) && x in k.newest && !Holds(Recovered(k).mems, Top(k, x))
    ensures Settled(k, x)
  {
    hide Recovered, Pending, HasKey, Reached, Absent, Current;
    if Holds(k.logs, Top(k, x)) {
      var l :| 0 <= l < |k.logs| && Top(k, x) in k.logs[l];
      if l == |k.logs| - 1 || Pending(k.tables, k.logs[l]) {
        var m := MemtableOf(k, l);
      }
      ReachedBelow(k.tables, k.logs[l], Top(k, x));
    }
  }

  lemma RecoveredParts(k: Ks)
    requires Shape(k)
    ensures var k' := Recovered(k);
            && Shape(k') && k'.tables == k.tables && k'.logs == k.logs
            && (forall i :: 0 <= i < |k'.marks| ==> k'.marks[i] == Highest(k.logs[i]))
            && (forall x :: x in k'.newest <==> x in k.newest && Survives(k, x))
            && (forall x :: x in k'.newest ==> k'.newest[x] == k.newest[x])
  {
    hide Survives, Replayed, Highest;
  }

  lemma AbsentStays(k: Ks, x: Key)
    requires Shape(k) && Absent(k.logs, x)
    ensures Absent(Recovered(k).mems, x)
  {
    hide Recovered, HasKey, Pending;
    forall j | 0 <= j < |Recovered(k).mems|
      ensures !HasKey(Recovered(k).mems[j], x)
    {
      var i := MemtableOrigin(k, j);
    }
  }

  lemma SameSettled(k: Ks, x: Key)
    requires Shape(k) && x in k.newest && x in Recovered(k).newest
    ensures Settled(k, x) <==> Settled(Recovered(k), x)
    ensures Top(k, x) == Top(Recovered(k), x)
  {
    hide Recovered, HasKey;
    RecoveredParts(k);
  }

  lemma RecoveredObligation(k: Ks, s: nat, x: Key)
    requires Inv(k, s) && x in k.newest && x in Recovered(k).newest
    ensures var k' := Recovered(k);
            && (Reached(k.tables, k.newest[x].seqno) ==> Settled(k', x) && Current(k', x))
            && (Holds(k'.mems, Top(k', x)) || (Settled(k', x) && Absent(k'.mems, x)))
            && (Holds(k'.logs, Top(k', x)) || (Settled(k', x) && Current(k', x) && Absent(k'.logs, x)))
  {
    hide Recovered, HasKey, Absent, Holds, Settled, Ordered, AllBounded, Reached, MarksCover, MemoryReaches, Visible;
    var k' := Recovered(k);
    RecoveredParts(k);
    SameSettled(k, x);
    RecoveredHolds(k, s, x);
    if !Holds(k'.mems, Top(k, x)) {
      UnreplayedIsSettled(k, s, x);
    }
    if !Holds(k.logs, Top(k, x)) {
      AbsentStays(k, x);
      AbsentCurrent(k', x);
    }
    if Reached(k.tables, k.newest[x].seqno) {
      forall j | 0 <= j < |k'.mems| && HasKey(k'.mems[j], x)
        ensures Top(k, x) in k'.mems[j]
      {
        RecoveredCurrent(k, s, x, j);
      }
    }
  }

  lemma RecoveredMarks(k: Ks)
    requires Shape(k)
    ensures Shape(Recovered(k)) && MarksCover(Recovered(k))
  {
    hide Recovered, Absent;
    RecoveredParts(k);
  }

  lemma RecoveredUpTo(k: Ks, j: nat, w: Ver, i: nat, v: Ver)
    requires Shape(k) && Ordered(k.logs) && j < |Recovered(k).mems| && w in Recovered(k).mems[j]
    requires i < |k.logs| && v in k.logs[i]
    ensures UpTo(Recovered(k).mems, v.seqno)
  {
    hide Recovered, Pending;
    var o := MemtableOrigin(k, j);
    if i < o {
      assert v.seqno < w.seqno;
    } else if o < i {
      if i != |k.logs| - 1 {
        PendingUpwards(k.tables, k.logs, o, i, v);
      }
      var m := MemtableOf(k, i);
      assert v in Recovered(k).mems[m];
    }
  }

  lemma RecoveredReaches(k: Ks)
    requires Shape(k) && Ordered(k.logs)
    ensures MemoryReaches(Recovered(k))
  {
    hide Recovered, Ordered, UpTo;
    var k' := Recovered(k);
    RecoveredParts(k);
    if !AllEmpty(k'.mems) {
      var j :| 0 <= j < |k'.mems| && k'.mems[j] != map[];
      var w :| w in k'.mems[j];
      forall i, v | 0 <= i < |k'.logs| && v in k'.logs[i]
        ensures UpTo(k'.mems, v.seqno)
      {
        RecoveredUpTo(k, j, w, i, v);
      }
    }
  }

  lemma SurvivingBounded(k: Ks, t: Table)
    requires Shape(k) && Bounded(t, k.newest) && forall v :: v in t ==> Survives(k, v.key)
    ensures Bounded(t, Recovered(k).newest)
  {
    hide Recovered, Survives;
    RecoveredParts(k);
  }

  lemma RecoveredBounded(k: Ks, s: nat, s': nat)
    requires Shape(k) && AllBounded(k, s) && forall x :: x in Recovered(k).newest ==> k.newest[x].seqno < s'
    ensures AllBounded(Recovered(k), s')
  {
    hide Recovered, Bounded;
    var k' := Recovered(k);
    RecoveredParts(k);
    forall v | v in k.tables
      ensures Survives(k, v.key)
    {
      assert v == Ver(v.key, v.seqno);
    }
    SurvivingBounded(k, k.tables);
    forall i | 0 <= i < |k.logs|
      ensures Bounded(k.logs[i], k'.newest)
    {
      forall v | v in k.logs[i]
        ensures Survives(k, v.key)
      {
        assert v == Ver(v.key, v.seqno);
        assert HasKey(k.logs[i], v.key);
      }
      SurvivingBounded(k, k.logs[i]);
    }
    forall j | 0 <= j < |k'.mems|
      ensures Bounded(k'.mems[j], k'.newest)
    {
      var i := MemtableOrigin(k, j);
    }
  }

  lemma RecoveredOrdered(k: Ks)
    requires Shape(k) && Ordered(k.logs)
    ensures Ordered(Recovered(k).mems)
  {
    hide Ordered, Replayed, Survives;
    OrderedFront(k.logs);
    ReplayedOrdered(k.tables, k.logs[..|k.logs| - 1]);
    ReplayedThen(k.tables, k.logs);
  }

  /** Recovery re-establishes the invariant under any counter above the surviving writes. */
  lemma RecoverInv(k: Ks, s: nat, s': nat)
    requires Inv(k, s) && forall x :: x in Recovered(k).newest ==> k.newest[x].seqno < s'
    ensures Inv(Recovered(k), s')
  {
    hide Recovered, Settled, Current, Holds, Absent, Ordered, AllBounded, Reached, MarksCover, MemoryReaches;
    var k' := Recovered(k);
    RecoveredParts(k);
    RecoveredBounded(k, s, s');
    RecoveredMarks(k);
    RecoveredReaches(k);
    RecoveredOrdered(k);
    forall x | x in k'.newest { RecoveredObligation(k, s, x); }
  }

  /** Every surviving write lies at or below a sequence number that recovery sees. */
  lemma SurvivorSeen(k: Ks, s: nat, x: Key)
    requires Inv(k, s) && x in Recovered(k).newest
    ensures Reached(k.tables, k.newest[x].seqno) || UpTo(Recovered(k).mems, k.newest[x].seqno)
  {
    var k' := Recovered(k);
    RecoveredParts(k);
    hide Recovered, Pending, Ordered, AllBounded, MarksCover, MemoryReaches, Current, Visible, PersistedSettled;
    if Top(k, x) in k.tables {
    } else if Holds(k'.mems, Top(k, x)) {
    } else if Holds(k.logs, Top(k, x)) {
      var l :| 0 <= l < |k.logs| && Top(k, x) in k.logs[l];
      if l == |k.logs| - 1 || Pending(k.tables, k.logs[l]) {
        var m := MemtableOf(k, l);
      }
      ReachedBelow(k.tables, k.logs[l], Top(k, x));
    }
  }

  /** A key none of whose versions survive was deleted. */
  lemma LostIsDeleted(k: Ks, x: Key)
    requires Shape(k) && Durable(k) && x in k.newest && !Survives(k, x)
    ensures k.newest[x].value == None
  {
    assert Top(k, x) == Ver(x, k.newest[x].seqno);
  }

  /** Crash and recovery change no lookup. */
  lemma RecoverKeepsLookups(k: Ks, s: nat, s': nat, x: Key)
    requires Inv(k, s) && forall y :: y in Recovered(k).newest ==> k.newest[y].seqno < s'
    ensures Lookup(Recovered(k), x) == Lookup(k, x)
  {
    hide Recovered, Survives, Lookup, Ordered, AllBounded, MarksCover, MemoryReaches, Visible, PersistedSettled, Durable;
    RecoverInv(k, s, s');
    RecoveredParts(k);
    LookupIsNewest(k, s, x);
    LookupIsNewest(Recovered(k), s', x);
    if x in k.newest && !Survives(k, x) {
      LostIsDeleted(k, x);
    }
  }

  // ---------------------------------------------------------------------------
  // Journals that hold a clear marker, and watermarks that cover more than needed.

  /** The keyspace as its journals alone tell it, when replay wipes the tables. */
  ghost function FromLogs(k: Ks): Ks
    requires Shape(k)
  {
    k.(tables := map[], mems := k.logs, marks := RebuiltMarks(k.logs[..|k.logs| - 1]))
  }

  lemma FromLogsInv(k: Ks, s: nat)
    requires Inv(k, s) && Logged(k)
    ensures Inv(FromLogs(k), s)
  {
    hide Ordered, Bounded, Visible, Durable, PersistedSettled, MemoryReaches, MarksCover, Logged, RebuiltMarks;
    EmptyBounded(k.newest);
    FromLogsAnswers(k);
    FromLogsReaches(k);
    FromLogsMarks(k);
  }

  lemma FromLogsAnswers(k: Ks)
    requires Shape(k) && Logged(k)
    ensures Visible(FromLogs(k)) && Durable(FromLogs(k)) && PersistedSettled(FromLogs(k))
  {
    hide Holds, Absent, Settled, Current, RebuiltMarks;
    var k' := FromLogs(k);
    assert forall x :: x in k.newest ==> Top(k', x) == Top(k, x);
    assert forall r: nat :: !Reached(k'.tables, r);
  }

  lemma FromLogsReaches(k: Ks)
    requires Shape(k)
    ensures MemoryReaches(FromLogs(k))
  {
    hide RebuiltMarks;
    var k' := FromLogs(k);
    forall i, v | 0 <= i < |k'.logs| && v in k'.logs[i]
      ensures UpTo(k'.mems, v.seqno)
    {
      assert v in k'.mems[i];
    }
  }

  lemma FromLogsMarks(k: Ks)
    requires Shape(k)
    ensures Shape(FromLogs(k)) && MarksCover(FromLogs(k))
  {
    hide Absent;
  }

  /** Watermarks may be higher than the journals' writes. */
  lemma Remarked(k: Ks, s: nat, marks: seq<Option<nat>>)
    requires Inv(k, s) && |marks| == |k.marks|
    requires forall i :: 0 <= i < |marks| && k.logs[i] != map[] ==> marks[i].Some? && Highest(k.logs[i]).value <= marks[i].value
    ensures Inv(k.(marks := marks), s)
  {
    hide Ordered, AllBounded, Visible, Durable, PersistedSettled, MemoryReaches;
    RemarkedFrame(k, marks);
    RemarkedCover(k, marks);
  }

  lemma RemarkedFrame(k: Ks, marks: seq<Option<nat>>)
    ensures var k' := k.(marks := marks);
            && (Visible(k) ==> Visible(k')) && (Durable(k) ==> Durable(k')) && (PersistedSettled(k) ==> PersistedSettled(k'))
            && (MemoryReaches(k) ==> MemoryReaches(k')) && (forall s :: AllBounded(k, s) ==> AllBounded(k.(marks := marks), s))
  {
    hide Holds, Absent, HasKey, Reached, UpTo, AllEmpty, Bounded;
    var k' := k.(marks := marks);
    assert forall x :: x in k.newest ==> (Settled(k, x) <==> Settled(k', x)) && (Current(k, x) <==> Current(k', x));
  }

  lemma RemarkedCover(k: Ks, marks: seq<Option<nat>>)
    requires Shape(k) && |marks| == |k.marks|
    requires forall i :: 0 <= i < |marks| && k.logs[i] != map[] ==> marks[i].Some? && Highest(k.logs[i]).value <= marks[i].value
    ensures MarksCover(k.(marks := marks))
  {
    hide Absent;
  }

  /** A keyspace whose journals hold everything still has it there after recovery. */
  lemma RecoveredLogged(k: Ks)
    requires Shape(k) && Logged(k)
    ensures Logged(Recovered(k))
  {
    hide Recovered, Holds;
    RecoveredParts(k);
  }
}
