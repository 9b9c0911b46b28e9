/** The loops that replay journals and maintain the queue of sealed ones, against `Recovery`. */
module RecoveryLoops {
  import opened Bytes
  import opened KeyspaceLog
  import opened KeyspaceRecovery
  import opened BatchReader
  import opened Recovery

  const U64_MAX: nat := 0xFFFF_FFFF_FFFF_FFFF

  method HighestSeqno(t: Table) returns (h: Option<nat>)
    ensures h == Highest(t)
  {
    h := None;
    var rest := t.Keys;
    while rest != {}
      invariant rest <= t.Keys
      invariant h.None? ==> rest == t.Keys
      invariant h.Some? ==> exists v :: v in t && v !in rest && v.seqno == h.value
      invariant h.Some? ==> forall v :: v in t && v !in rest ==> v.seqno <= h.value
      decreases |rest|
    {
      var v :| v in rest;
      rest := rest - {v};
      if h.None? || h.value < v.seqno {
        h := Some(v.seqno);
      }
    }
    assert t == map[] <==> t.Keys == {};
  }

  // ---------------------------------------------------------------------------
  // The queue of sealed journals.

  datatype Queued = Queued(journal: Sealed, size: nat)

  /** How many journals at the head of the queue can go. */
  ghost function Leaving(trees: map<nat, Tree>, queue: seq<Queued>): (n: nat)
    ensures n <= |queue|
    ensures forall i :: 0 <= i < n ==> CanEvict(trees, queue[i].journal.marks)
    ensures n < |queue| ==> !CanEvict(trees, queue[n].journal.marks)
  {
    if queue == [] || !CanEvict(trees, queue[0].journal.marks) then 0 else 1 + Leaving(trees, queue[1..])
  }

  function Total(queue: seq<Queued>): nat {
    if queue == [] then 0 else queue[0].size + Total(queue[1..])
  }

  lemma {:induction false} TotalSnoc(queue: seq<Queued>, item: Queued)
    ensures Total(queue + [item]) == Total(queue) + item.size
  {
    if queue == [] {
      assert queue + [item] == [item];
    } else {
      assert (queue + [item])[1..] == queue[1..] + [item];
      TotalSnoc(queue[1..], item);
    }
  }

  class JournalManager {
    var queue: seq<Queued>
    var diskSpace: nat

    method Enqueue(item: Queued)
      modifies this
      ensures queue == old(queue) + [item]
      ensures diskSpace == if old(diskSpace) + item.size < 0x1_0000_0000_0000_0000 then old(diskSpace) + item.size else 0xFFFF_FFFF_FFFF_FFFF
      ensures old(diskSpace) == Total(old(queue)) && Total(queue) <= U64_MAX ==> diskSpace == Total(queue)
    {
      TotalSnoc(queue, item);
      diskSpace := if diskSpace + item.size <= U64_MAX then diskSpace + item.size else U64_MAX;
      queue := queue + [item];
    }

    /** The keyspaces holding the oldest journal back. A watermark keeps its keyspace's handle,
        so `tables` also covers deleted keyspaces; one without an entry has persisted nothing. */
    method Stragglers(tables: map<nat, Table>) returns (ids: set<nat>)
      ensures queue == [] ==> ids == {}
      ensures queue != [] ==> ids <= queue[0].journal.marks.Keys
      ensures queue != [] ==> forall id :: id in queue[0].journal.marks ==>
                (id in ids <==> id !in tables || !Reached(tables[id], queue[0].journal.marks[id]))
    {
      ids := {};
      if queue != [] {
        var marks := queue[0].journal.marks;
        var rest := marks.Keys;
        while rest != {}
          invariant rest <= marks.Keys && ids <= marks.Keys
          invariant forall id :: id in marks && id !in rest ==> (id in ids <==> id !in tables || !Reached(tables[id], marks[id]))
          invariant ids !! rest
          decreases |rest|
        {
          var id :| id in rest;
          rest := rest - {id};
          var persisted := None;
          if id in tables {
            persisted := HighestSeqno(tables[id]);
            ReachedIsHighest(tables[id], marks[id]);
          }
          if persisted.None? || persisted.value < marks[id] {
            ids := ids + {id};
          }
        }
      }
    }

    method AllReached(trees: map<nat, Tree>, marks: map<nat, nat>) returns (ok: bool)
      ensures ok <==> CanEvict(trees, marks)
    {
      var rest := marks.Keys;
      while rest != {}
        invariant rest <= marks.Keys
        invariant forall id :: id in marks && id in trees && id !in rest ==> Reached(trees[id].tables, marks[id])
        decreases |rest|
      {
        var id :| id in rest;
        rest := rest - {id};
        if id in trees {
          var persisted := HighestSeqno(trees[id].tables);
          ReachedIsHighest(trees[id].tables, marks[id]);
          if persisted.None? || persisted.value < marks[id] {
            return false;
          }
        }
      }
      return true;
    }

    /** Drops journals from the head of the queue until one is still needed. */
    method Maintenance(trees: map<nat, Tree>)
      modifies this
      ensures queue == old(queue)[Leaving(trees, old(queue))..]
      ensures old(diskSpace) == Total(old(queue)) ==> diskSpace == Total(queue)
    {
      while queue != []
        invariant |queue| <= |old(queue)| && queue == old(queue)[|old(queue)| - |queue|..]
        invariant |old(queue)| - |queue| + Leaving(trees, queue) == Leaving(trees, old(queue))
        invariant old(diskSpace) == Total(old(queue)) ==> diskSpace == Total(queue)
        decreases |queue|
      {
        var ok := AllReached(trees, queue[0].journal.marks);
        if !ok {
          return;
        }
        diskSpace := if queue[0].size <= diskSpace then diskSpace - queue[0].size else 0;
        queue := queue[1..];
      }
    }

    /** Seals the active journal with the watermarks of what is in memory. */
    method RotateJournal(trees: map<nat, Tree>, active: seq<Batch>, size: nat)
      modifies this
      ensures queue == old(queue) + [Queued(Sealed(active, MarksOf(trees)), size)]
      ensures old(diskSpace) == Total(old(queue)) && Total(queue) <= U64_MAX ==> diskSpace == Total(queue)
    {
      var marks: map<nat, nat> := map[];
      var rest := trees.Keys;
      while rest != {}
        invariant rest <= trees.Keys && queue == old(queue) && diskSpace == old(diskSpace)
        invariant forall id :: id in marks <==> id in trees && id !in rest && Highest(Union(trees[id].mems)).Some?
        invariant forall id :: id in marks ==> marks[id] == Highest(Union(trees[id].mems)).value
        decreases |rest|
      {
        var id :| id in rest;
        rest := rest - {id};
        var highest := HighestSeqno(Union(trees[id].mems));
        if highest.Some? {
          marks := marks[id := highest.value];
        }
      }
      assert marks == MarksOf(trees);
      Enqueue(Queued(Sealed(active, marks), size));
    }
  }

  /** Maintenance is a series of single evictions, so it keeps the recovery invariant. */
  lemma {:induction false} MaintenanceInv(db: Db, newest: Newest, queue: seq<Queued>)
    requires DbInv(db, newest) && |queue| == |db.sealed| && forall i :: 0 <= i < |queue| ==> queue[i].journal == db.sealed[i]
    ensures DbInv(db.(sealed := db.sealed[Leaving(db.trees, queue)..]), newest)
    decreases |queue|
  {
    hide DbInv, CanEvict;
    if queue != [] && CanEvict(db.trees, queue[0].journal.marks) {
      var db' := db.(sealed := db.sealed[1..]);
      EvictStep(db, newest);
      MaintenanceInv(db', newest, queue[1..]);
      var n := Leaving(db.trees, queue[1..]);
      assert db'.sealed[n..] == db.sealed[n + 1..];
    } else {
      assert db.sealed[0..] == db.sealed;
      assert db.(sealed := db.sealed) == db;
    }
  }

  // ---------------------------------------------------------------------------
  // One batch.

  /** The watermarks after one more batch. */
  function Noted(marks: map<nat, nat>, b: Batch, ids: set<nat>): map<nat, nat> {
    map id | id in ids && (id in marks || Mentions(b, id)) ::
      if !Mentions(b, id) || (id in marks && marks[id] > b.seqno) then marks[id] else b.seqno
  }

  lemma MentionsItem(b: Batch, k: nat, id: nat)
    requires k < |b.items|
    ensures Mentions(b.(items := b.items[..k + 1]), id) <==> Mentions(b.(items := b.items[..k]), id) || b.items[k].ks == id
  {
    var a, c := b.(items := b.items[..k]), b.(items := b.items[..k + 1]);
    assert c.items[k] == b.items[k];
    if i :| 0 <= i < |a.items| && a.items[i].ks == id {
      assert c.items[i] == a.items[i];
    }
    if i :| 0 <= i < |c.items| && c.items[i].ks == id {
      assert i == k || a.items[i] == c.items[i];
    }
  }

  lemma NotedItem(marks: map<nat, nat>, b: Batch, ids: set<nat>, k: nat)
    requires k < |b.items|
    ensures var before, id := Noted(marks, b.(items := b.items[..k]), ids), b.items[k].ks;
            Noted(marks, b.(items := b.items[..k + 1]), ids) ==
            if id in ids then before[id := if id in before && before[id] > b.seqno then before[id] else b.seqno] else before
  {
    hide Mentions;
    forall id { MentionsItem(b, k, id); }
  }

  lemma NotedClear(marks: map<nat, nat>, b: Batch, ids: set<nat>, c: nat)
    requires c < |b.cleared|
    ensures var before, id := Noted(marks, b.(cleared := b.cleared[..c]), ids), b.cleared[c];
            Noted(marks, b.(cleared := b.cleared[..c + 1]), ids) ==
            if id in ids then before[id := if id in before && before[id] > b.seqno then before[id] else b.seqno] else before
  {
    assert b.cleared[..c + 1] == b.cleared[..c] + [b.cleared[c]];
  }

  function WithItem(t: Tree, item: ReadItem, seqno: nat): Tree
    requires t.mems != []
  {
    t.(mems := AddLast(t.mems, map[Ver(item.key, seqno) := CellOf(item)]))
  }

  lemma TreeAfterItem(t: Tree, b: Batch, k: nat, id: nat)
    requires t.mems != [] && k < |b.items| && b.cleared == []
    ensures var before := TreeAfter(t, b.(items := b.items[..k]), id);
            && before.mems != []
            && TreeAfter(t, b.(items := b.items[..k + 1]), id) ==
               if id == b.items[k].ks then WithItem(before, b.items[k], b.seqno) else before
  {
    hide TableOf;
    ItemTable(b.items, k, id, b.seqno);
    var m, before := t.mems[|t.mems| - 1], TableOf(b.items[..k], id, b.seqno);
    var one := map[Ver(b.items[k].key, b.seqno) := CellOf(b.items[k])];
    assert m + before[Ver(b.items[k].key, b.seqno) := CellOf(b.items[k])] == (m + before) + one;
  }

  lemma AppliedItem(trees: map<nat, Tree>, b: Batch, k: nat)
    requires AllFormed(trees) && k < |b.items| && b.cleared == []
    ensures var before, item := TreesAfter(trees, b.(items := b.items[..k])), b.items[k];
            && AllFormed(before)
            && TreesAfter(trees, b.(items := b.items[..k + 1])) ==
               if item.ks in before then before[item.ks := WithItem(before[item.ks], item, b.seqno)] else before
  {
    hide TreeAfter, WithItem;
    forall id | id in trees { TreeAfterItem(trees[id], b, k, id); }
  }

  lemma ItemTable(items: seq<ReadItem>, k: nat, id: nat, seqno: nat)
    requires k < |items|
    ensures TableOf(items[..k + 1], id, seqno) ==
            if items[k].ks == id then TableOf(items[..k], id, seqno)[Ver(items[k].key, seqno) := CellOf(items[k])]
            else TableOf(items[..k], id, seqno)
  {
    assert items[..k + 1][..k] == items[..k];
  }

  /** What replaying a batch puts into a tree's active memtable: each key it names, under the
      batch's sequence number, with the value of its last item or as a tombstone. Everything
      else stays as it was. */
  lemma ReplayedItems(t: Tree, b: Batch, id: nat, v: Ver)
    requires t.mems != [] && id !in b.cleared
    ensures var t' := TreeAfter(t, b, id); var n := |t.mems| - 1;
            && t'.tables == t.tables && |t'.mems| == |t.mems| && t'.mems[..n] == t.mems[..n]
            && (v.seqno == b.seqno && !Silent(b, id, v.key) ==>
                v in t'.mems[n] && (forall value :: Sets(b, id, v.key, value) ==> t'.mems[n][v] == Some(value))
                && (Removes(b, id, v.key) ==> t'.mems[n][v] == None))
            && (v.seqno != b.seqno || Silent(b, id, v.key) ==>
                (v in t'.mems[n] <==> v in t.mems[n]) && (v in t.mems[n] ==> t'.mems[n][v] == t.mems[n][v]))
  {
    hide TableOf;
    TableHoldsLast(b.items, id, b.seqno, v.key);
    TableUniform(b.items, id, b.seqno);
    LastItemAt(b.items, id, v.key);
    if v.seqno == b.seqno && !Silent(b, id, v.key) {
      NamedHasLast(b.items, id, v.key);
    }
  }

  lemma {:induction false} NamedHasLast(items: seq<ReadItem>, id: nat, x: Key)
    requires exists i :: 0 <= i < |items| && Names(items[i], id, x)
    ensures LastItem(items, id, x).Some?
  {
    var n := |items| - 1;
    if !Names(items[n], id, x) {
      var i :| 0 <= i < |items| && Names(items[i], id, x);
      assert items[..n][i] == items[i];
      NamedHasLast(items[..n], id, x);
    }
  }

  lemma AppliedClear(trees: map<nat, Tree>, b: Batch, c: nat)
    requires AllFormed(trees) && c < |b.cleared|
    ensures var before, id := TreesAfter(trees, b.(cleared := b.cleared[..c])), b.cleared[c];
            TreesAfter(trees, b.(cleared := b.cleared[..c + 1])) == if id in before then before[id := Tree(map[], [map[]])] else before
  {
    hide TableOf, AddLast;
    assert b.cleared[..c + 1] == b.cleared[..c] + [b.cleared[c]];
  }

  lemma AppliedNothing(trees: map<nat, Tree>, b: Batch)
    requires AllFormed(trees) && b.items == [] && b.cleared == []
    ensures TreesAfter(trees, b) == trees
  {
    forall id | id in trees
      ensures TreeAfter(trees[id], b, id) == trees[id]
    {
      var m := trees[id].mems[|trees[id].mems| - 1];
      assert TableOf([], id, b.seqno) == map[] && m + map[] == m;
    }
  }

  lemma NotedNothing(marks: map<nat, nat>, b: Batch, ids: set<nat>)
    requires b.items == [] && b.cleared == [] && marks.Keys <= ids
    ensures Noted(marks, b, ids) == marks
  {
  }

  // ---------------------------------------------------------------------------
  // Replaying journals.

  /** The trees after the journals `done` were replayed and sealed, with the batches `current`
      in the active memtables. */
  ghost function Progress(tables: map<nat, Table>, done: seq<seq<Batch>>, current: seq<Batch>): map<nat, Tree> {
    RebuiltTrees(Disk(tables, done + [current]))
  }

  lemma ProgressShape(tables: map<nat, Table>, done: seq<seq<Batch>>, current: seq<Batch>)
    ensures var trees := Progress(tables, done, current); trees.Keys == tables.Keys && AllFormed(trees)
  {
    hide Replayed, LogsOf, Wiped;
    forall id | id in tables { LogsLength(done + [current], id); }
  }

  lemma ReplayedBlank(n: nat)
    ensures Replayed(map[], Blank(n)) == []
  {
    if n > 0 {
      assert Blank(n)[..n - 1] == Blank(n - 1);
      ReplayedBlank(n - 1);
    }
  }

  /** Replaying a batch does to every tree what writing it did. */
  lemma ProgressBatch(tables: map<nat, Table>, done: seq<seq<Batch>>, current: seq<Batch>, b: Batch)
    ensures AllFormed(Progress(tables, done, current))
    ensures Progress(tables, done, current + [b]) == TreesAfter(Progress(tables, done, current), b)
  {
    hide RebuiltTrees, TreeAfter;
    ProgressShape(tables, done, current);
    ProgressShape(tables, done, current + [b]);
    forall id | id in tables { ProgressTree(tables, done, current, b, id); }
  }

  lemma ProgressTree(tables: map<nat, Table>, done: seq<seq<Batch>>, current: seq<Batch>, b: Batch, id: nat)
    requires id in tables
    ensures id in Progress(tables, done, current) && Progress(tables, done, current)[id].mems != []
    ensures id in Progress(tables, done, current + [b])
    ensures Progress(tables, done, current + [b])[id] == TreeAfter(Progress(tables, done, current)[id], b, id)
  {
    hide Rebuilt, Wiped, LogsOf, TableOf;
    var js := done + [current];
    assert done + [current + [b]] == Appended(js, b);
    AppendedLogs(js, b, id);
    LogsLength(js, id);
    RebuiltBlank(|js|);
    RebuiltAdd(KeptTables(Disk(tables, js), id), LogsOf(js, id), TableOf(b.items, id, b.seqno));
  }

  lemma RebuiltAdd(tables: Table, logs: seq<Table>, t: Table)
    requires logs != []
    ensures var before := Rebuilt(tables, logs);
            before.mems != [] && Rebuilt(tables, AddLast(logs, t)) == before.(mems := AddLast(before.mems, t))
  {
    hide Replayed;
    var n := |logs| - 1;
    assert AddLast(logs, t)[..n] == logs[..n];
  }

  lemma RebuiltBlank(n: nat)
    requires n > 0
    ensures Rebuilt(map[], Blank(n)) == Tree(map[], [map[]])
  {
    hide Replayed;
    ReplayedBlank(n - 1);
    assert Blank(n)[..n - 1] == Blank(n - 1);
  }

  lemma FoundBatch(batches: seq<Batch>, b: Batch, ids: set<nat>)
    ensures FoundMarks(batches + [b], ids) == Noted(FoundMarks(batches, ids), b, ids)
  {
    hide Mentions;
    assert (batches + [b])[..|batches|] == batches;
  }

  lemma NothingFound(ids: set<nat>)
    ensures FoundMarks([], ids) == map[]
  {
  }

  // ---------------------------------------------------------------------------
  // Sealing what a journal left in the active memtables.

  lemma ReplayedSnoc(tables: Table, logs: seq<Table>, log: Table)
    ensures Replayed(tables, logs + [log]) ==
            if Pending(tables, log) then Replayed(tables, logs) + [log] else Replayed(tables, logs)
  {
    hide Pending;
    assert (logs + [log])[..|logs|] == logs;
  }

  /** The journals once the next one is begun. */
  lemma BegunLogs(journals: seq<seq<Batch>>, id: nat)
    ensures LogsOf(journals + [[]], id) == LogsOf(journals, id) + [map[]]
    ensures Wiped(journals + [[]], id) <==> Wiped(journals, id)
  {
    hide ClearedAfter, LogOf;
    forall i | -1 <= i < |journals| { ExtendedClears(journals, i, id); }
    NothingAfterLast(journals + [[]], id);
    EmptyJournal(id);
  }

  /** A keyspace's tree before and after sealing the last journal. */
  lemma SealTree(tables: map<nat, Table>, done: seq<seq<Batch>>, batches: seq<Batch>, id: nat)
    requires id in tables
    ensures var js := done + [batches]; var kept, log := KeptTables(Disk(tables, js), id), LogOf(batches, id);
            var sealed := Replayed(kept, LogsOf(js, id)[..|done|]);
            && id in Progress(tables, done, batches) && Progress(tables, done, batches)[id] == Tree(kept, sealed + [log])
            && id in Progress(tables, js, [])
            && Progress(tables, js, [])[id] == Tree(kept, (if Pending(kept, log) then sealed + [log] else sealed) + [map[]])
  {
    hide Pending, Replayed, LogOf, LogsOf, Wiped;
    var js := done + [batches];
    var kept, log := KeptTables(Disk(tables, js), id), LogOf(batches, id);
    LastLog(done, batches, id);
    BegunLogs(js, id);
    assert LogsOf(js, id) == LogsOf(js, id)[..|done|] + [log];
    assert (LogsOf(js, id) + [map[]])[..|js|] == LogsOf(js, id);
    ReplayedSnoc(kept, LogsOf(js, id)[..|done|], log);
  }

  lemma LastLog(done: seq<seq<Batch>>, batches: seq<Batch>, id: nat)
    ensures var logs := LogsOf(done + [batches], id); |logs| == |done| + 1 && logs[|done|] == LogOf(batches, id)
  {
    hide LogOf, ClearedAfter;
    NothingAfterLast(done + [batches], id);
  }

  /** The memtable rebuilt from a journal ends where the journal's watermark says. It need not
      when a clear marker has a higher sequence number than the writes after it. */
  ghost predicate Announced(batches: seq<Batch>, id: nat) {
    LogOf(batches, id) != map[] ==> MarkIn(batches, id) == Highest(LogOf(batches, id))
  }

  /** What recovery checks while sealing the memtables of the sealed journals. */
  ghost predicate ChecksHold(journals: seq<seq<Batch>>, ids: set<nat>) {
    forall i, id :: 0 <= i < |journals| && id in ids ==> Announced(journals[i], id)
  }

  lemma MaxTable(batches: seq<Batch>, b: Batch, id: nat)
    requires b.cleared == [] || id !in b.cleared
    requires MarkIn(batches, id) == Highest(LogOf(batches, id))
    ensures MarkIn(batches + [b], id) == Highest(LogOf(batches + [b], id))
  {
    hide TableOf, Highest, Mentions;
    assert (batches + [b])[..|batches|] == batches;
    var log, t := LogOf(batches, id), TableOf(b.items, id, b.seqno);
    TableMentions(b, id);
    TableUniform(b.items, id, b.seqno);
    HighestMerged(log, t, b.seqno);
  }

  lemma {:induction false} TableMentions(b: Batch, id: nat)
    requires id !in b.cleared
    ensures TableOf(b.items, id, b.seqno) != map[] <==> Mentions(b, id)
    decreases |b.items|
  {
    if b.items != [] {
      var n := |b.items| - 1;
      assert b.items[..n + 1] == b.items && b.(items := b.items) == b;
      MentionsItem(b, n, id);
      TableMentions(b.(items := b.items[..n]), id);
      if b.items[n].ks == id {
        assert Ver(b.items[n].key, b.seqno) in TableOf(b.items, id, b.seqno);
      }
    }
  }

  lemma HighestMerged(log: Table, t: Table, seqno: nat)
    requires Uniform(t, seqno)
    ensures Highest(log + t) == if t == map[] then Highest(log) else Some(Later(Highest(log), seqno))
  {
    var m := log + t;
    if t == map[] {
      assert m == log;
    } else {
      var v :| v in t;
      var top := Later(Highest(log), seqno);
      assert forall u :: u in m ==> u.seqno <= top;
      var w :| w in m && w.seqno == top;
      HighestIs(m, w);
    }
  }

  lemma HighestIs(t: Table, v: Ver)
    requires v in t && forall u :: u in t ==> u.seqno <= v.seqno
    ensures Highest(t) == Some(v.seqno)
  {
  }

  /** Without a clear marker the watermark is the highest write. */
  lemma {:induction false} UnclearedMark(batches: seq<Batch>, id: nat)
    requires !Clears(batches, id)
    ensures MarkIn(batches, id) == Highest(LogOf(batches, id))
  {
    hide TableOf, Highest, Mentions;
    if batches != [] {
      var n := |batches| - 1;
      UnclearedMark(batches[..n], id);
      MaxTable(batches[..n], batches[n], id);
      assert batches[..n] + [batches[n]] == batches;
    } else {
      NoneHighest();
    }
  }

  lemma NoneHighest()
    ensures Highest(map[]) == None
  {
  }

  /** Skipping by watermark is skipping by content, since a journal with a clear marker leaves
      no tables behind. */
  lemma SkipsPending(tables: map<nat, Table>, done: seq<seq<Batch>>, batches: seq<Batch>, id: nat)
    requires id in tables
    ensures MarkIn(batches, id).None? ==> LogOf(batches, id) == map[]
    ensures var kept, log, mark := KeptTables(Disk(tables, done + [batches]), id), LogOf(batches, id), MarkIn(batches, id);
            mark.Some? ==> && (Pending(kept, log) <==> log != map[] && !Reached(kept, mark.value))
                           && (log != map[] && Reached(kept, mark.value) ==> Announced(batches, id))
  {
    hide Clears, LogOf, MarkIn;
    if Clears(batches, id) {
      assert (done + [batches])[|done|] == batches;
      assert Wiped(done + [batches], id);
    } else {
      UnclearedMark(batches, id);
    }
    if v :| v in LogOf(batches, id) {
      MarkCovers(batches, id, v);
    }
  }

  method TreeHighest(t: Tree) returns (h: Option<nat>)
    ensures forall s: nat :: Stored(t, s) ==> h.Some? && s <= h.value
    ensures h.Some? ==> Stored(t, h.value)
  {
    h := HighestSeqno(t.tables + Union(t.mems));
    StoredIsHighest(t);
  }

  /** The counter is the lowest one at or above `from` that covers the trees. */
  ghost predicate Covers(seqno: nat, from: nat, trees: map<nat, Tree>) {
    && from <= seqno
    && (forall id, s: nat :: id in trees && Stored(trees[id], s) ==> s < seqno)
    && (seqno == from || exists id :: id in trees && Stored(trees[id], seqno - 1))
  }

  lemma CoversIsNext(seqno: nat, from: nat, trees: map<nat, Tree>)
    requires Covers(seqno, from, trees)
    ensures seqno == Higher(from, NextSeqno(trees))
  {
    hide Stored;
    var n := NextSeqno(trees);
  }

  lemma NoTrees(seqno: nat)
    ensures Covers(seqno, seqno, map[])
  {
  }

  /** One more tree is covered. */
  lemma CoversMore(seqno: nat, from: nat, trees: map<nat, Tree>, id: nat, t: Tree, h: Option<nat>)
    requires Covers(seqno, from, trees) && id !in trees
    requires (forall s: nat :: Stored(t, s) ==> h.Some? && s <= h.value) && (h.Some? ==> Stored(t, h.value))
    ensures Covers(if h.Some? && h.value + 1 > seqno then h.value + 1 else seqno, from, trees[id := t])
  {
    hide Stored;
    var more := trees[id := t];
    if h.Some? && h.value + 1 > seqno {
      assert Stored(more[id], h.value + 1 - 1);
    } else if seqno != from {
      var i :| i in trees && Stored(trees[i], seqno - 1);
      assert more[i] == trees[i];
    }
  }

  /** The trees among `ids` whose memtable is sealed with the last journal. */
  ghost function ResealedIn(tables: map<nat, Table>, journals: seq<seq<Batch>>, ids: set<nat>): map<nat, Tree>
    requires journals != []
  {
    map id | id in Resealed(tables, journals) && id in ids :: Resealed(tables, journals)[id]
  }

  /** The last journal's memtables are sealed for the keyspaces in `ids` and not yet for the others. */
  ghost predicate HalfSealed(trees: map<nat, Tree>, tables: map<nat, Table>, done: seq<seq<Batch>>, batches: seq<Batch>, ids: set<nat>) {
    var before, after := Progress(tables, done, batches), Progress(tables, done + [batches], []);
    && trees.Keys == tables.Keys == before.Keys == after.Keys
    && forall id :: id in tables ==> trees[id] == if id in ids then after[id] else before[id]
  }

  /** The database being recovered. */
  class Replay {
    var trees: map<nat, Tree>
    var queue: seq<Sealed>
    var seqno: nat

    /** Puts a batch's items into the active memtables, clears the keyspaces it clears, and
        notes the watermarks. */
    method ReplayBatch(batch: Batch, marks: map<nat, nat>) returns (marks': map<nat, nat>)
      requires AllFormed(trees) && marks.Keys <= trees.Keys
      modifies this`trees
      ensures trees == TreesAfter(old(trees), batch)
      ensures marks' == Noted(marks, batch, old(trees).Keys)
    {
      hide TreesAfter, Noted;
      ghost var before, b := trees, batch.(cleared := []);
      marks' := marks;
      AppliedNothing(before, b.(items := []));
      NotedNothing(marks, b.(items := []), before.Keys);
      assert batch.items[..0] == [];
      for k := 0 to |batch.items|
        invariant trees == TreesAfter(before, b.(items := batch.items[..k])) && trees.Keys == before.Keys
        invariant marks' == Noted(marks, b.(items := batch.items[..k]), before.Keys)
      {
        var item := batch.items[k];
        AppliedItem(before, b, k);
        NotedItem(marks, b, before.Keys, k);
        if item.ks in trees {
          marks' := marks'[item.ks := if item.ks in marks' && marks'[item.ks] > batch.seqno then marks'[item.ks] else batch.seqno];
          trees := trees[item.ks := WithItem(trees[item.ks], item, batch.seqno)];
        }
      }
      assert batch.items[..|batch.items|] == batch.items && batch.cleared[..0] == [];
      assert b.(items := batch.items) == batch.(cleared := batch.cleared[..0]);
      for c := 0 to |batch.cleared|
        invariant trees == TreesAfter(before, batch.(cleared := batch.cleared[..c])) && trees.Keys == before.Keys
        invariant marks' == Noted(marks, batch.(cleared := batch.cleared[..c]), before.Keys)
      {
        var id := batch.cleared[c];
        AppliedClear(before, batch, c);
        NotedClear(marks, batch, before.Keys, c);
        if id in trees {
          marks' := marks'[id := if id in marks' && marks'[id] > batch.seqno then marks'[id] else batch.seqno];
          trees := trees[id := Tree(map[], [map[]])];
        }
      }
      assert batch.(cleared := batch.cleared[..|batch.cleared|]) == batch;
    }

    method ReplayBatches(batches: seq<Batch>, ghost tables: map<nat, Table>, ghost done: seq<seq<Batch>>) returns (marks: map<nat, nat>)
      requires trees == Progress(tables, done, [])
      modifies this`trees
      ensures trees == Progress(tables, done, batches)
      ensures marks == FoundMarks(batches, tables.Keys)
    {
      hide Progress, FoundMarks, Noted, TreesAfter;
      marks := map[];
      assert batches[..0] == [];
      NothingFound(tables.Keys);
      for i := 0 to |batches|
        invariant trees == Progress(tables, done, batches[..i])
        invariant marks == FoundMarks(batches[..i], tables.Keys)
      {
        ProgressShape(tables, done, batches[..i]);
        MarkedKeys(batches[..i], tables.Keys);
        ProgressBatch(tables, done, batches[..i], batches[i]);
        FoundBatch(batches[..i], batches[i], tables.Keys);
        marks := ReplayBatch(batches[i], marks);
        assert batches[..i + 1] == batches[..i] + [batches[i]];
      }
      assert batches[..|batches|] == batches;
    }

    /** Seals or drops what one journal left in a keyspace's active memtable. The result says
        whether the memtable held what the watermark announced. */
    method SealOne(id: nat, lsn: nat, ghost from: nat, ghost ids: set<nat>,
                   ghost tables: map<nat, Table>, ghost done: seq<seq<Batch>>, ghost batches: seq<Batch>) returns (ok: bool)
      requires id in trees && id in tables && id !in ids && MarkIn(batches, id) == Some(lsn)
      requires id in Progress(tables, done, batches) && trees[id] == Progress(tables, done, batches)[id]
      requires Covers(seqno, from, ResealedIn(tables, done + [batches], ids))
      modifies this`trees, this`seqno
      ensures id in Progress(tables, done + [batches], [])
      ensures trees == old(trees)[id := Progress(tables, done + [batches], [])[id]]
      ensures Covers(seqno, from, ResealedIn(tables, done + [batches], ids + {id}))
      ensures ok <==> Announced(batches, id)
    {
      hide Progress, Covers, Stored, LogsOf, LogOf, Replayed, Reached, Pending, ResealedIn, KeptTables, MarkIn;
      ok := true;
      var t := trees[id];
      SealTree(tables, done, batches, id);
      SkipsPending(tables, done, batches, id);
      MoreResealed(tables, done, batches, ids, id);
      var n := |t.mems| - 1;
      var persisted := HighestSeqno(t.tables);
      ReachedIsHighest(t.tables, lsn);
      if persisted.Some? && persisted.value >= lsn {
        trees := trees[id := t.(mems := t.mems[..n] + [map[]])];
      } else if t.mems[n] != map[] {
        trees := trees[id := t.(mems := t.mems + [map[]])];
        var found := HighestSeqno(t.mems[n]);
        ok := found == Some(lsn);
        var h := TreeHighest(trees[id]);
        CoversMore(seqno, from, ResealedIn(tables, done + [batches], ids), id, trees[id], h);
        if h.Some? && h.value + 1 > seqno {
          seqno := h.value + 1;
        }
      }
    }

    method Seal(marks: map<nat, nat>, ghost tables: map<nat, Table>, ghost done: seq<seq<Batch>>, ghost batches: seq<Batch>) returns (ok: bool)
      requires trees == Progress(tables, done, batches) && marks == FoundMarks(batches, tables.Keys)
      requires seqno == SealedSeqno(tables, done)
      modifies this`trees, this`seqno
      ensures trees == Progress(tables, done + [batches], [])
      ensures seqno == SealedSeqno(tables, done + [batches])
      ensures ok <==> forall id :: id in tables ==> Announced(batches, id)
    {
      hide Covers, ResealedIn, Announced, SealedSeqno, MarkIn, FoundMarks, HalfSealed, Progress;
      ok := true;
      ghost var js, from := done + [batches], seqno;
      NoneSealed(tables, done, batches);
      NoTrees(seqno);
      MarkedKeys(batches, tables.Keys);
      var rest := marks.Keys;
      assert marks.Keys - rest == {};
      while rest != {}
        invariant rest <= marks.Keys && HalfSealed(trees, tables, done, batches, marks.Keys - rest)
        invariant ok <==> forall id :: id in marks && id !in rest ==> Announced(batches, id)
        invariant Covers(seqno, from, ResealedIn(tables, js, marks.Keys - rest))
        decreases |rest|
      {
        var id :| id in rest;
        assert marks.Keys - rest + {id} == marks.Keys - (rest - {id});
        OneSealed(trees, tables, done, batches, marks.Keys - rest, id);
        var held := SealOne(id, marks[id], from, marks.Keys - rest, tables, done, batches);
        rest := rest - {id};
        ok := ok && held;
      }
      assert marks.Keys - rest == marks.Keys;
      AllSealed(tables, done, batches, trees);
      AllResealed(tables, done, batches, seqno, from, ResealedIn(tables, js, marks.Keys));
    }

    /** Replays the sealed journals oldest first, sealing each one's memtables and queueing it. */
    method ReplaySealed(journals: seq<seq<Batch>>, ghost tables: map<nat, Table>) returns (ok: bool)
      requires trees == Progress(tables, [], []) && queue == [] && seqno == 0
      modifies this
      ensures trees == Progress(tables, journals, []) && queue == RebuiltQueue(journals, tables.Keys)
      ensures seqno == SealedSeqno(tables, journals)
      ensures ok <==> ChecksHold(journals, tables.Keys)
    {
      hide Progress, FoundMarks, RebuiltQueue, ChecksHold, Announced, SealedSeqno;
      ok := true;
      assert journals[..0] == [];
      NothingSealed(tables);
      for i := 0 to |journals|
        invariant trees == Progress(tables, journals[..i], []) && queue == RebuiltQueue(journals[..i], tables.Keys)
        invariant seqno == SealedSeqno(tables, journals[..i])
        invariant ok <==> ChecksHold(journals[..i], tables.Keys)
      {
        assert journals[..i + 1] == journals[..i] + [journals[i]];
        SealedSnoc(journals[..i], journals[i], tables.Keys);
        var marks := ReplayBatches(journals[i], tables, journals[..i]);
        var held := Seal(marks, tables, journals[..i], journals[i]);
        ok := ok && held;
        queue := queue + [Sealed(journals[i], marks)];
      }
      assert journals[..|journals|] == journals;
    }

    method ActivesEmpty() returns (ok: bool)
      ensures ok <==> forall id :: id in trees ==> ActiveEmpty(trees[id])
    {
      var rest := trees.Keys;
      while rest != {}
        invariant rest <= trees.Keys && forall id :: id in trees && id !in rest ==> ActiveEmpty(trees[id])
        decreases |rest|
      {
        var id :| id in rest;
        rest := rest - {id};
        if !ActiveEmpty(trees[id]) {
          return false;
        }
      }
      return true;
    }

    /** Moves the counter above everything stored. */
    method RecoverSeqno()
      modifies this`seqno
      ensures seqno == Higher(old(seqno), NextSeqno(trees))
    {
      hide Covers, Stored;
      var rest := trees.Keys;
      NoTrees(seqno);
      assert trees - rest == map[];
      while rest != {}
        invariant rest <= trees.Keys && Covers(seqno, old(seqno), trees - rest)
        decreases |rest|
      {
        var id :| id in rest;
        var h := TreeHighest(trees[id]);
        CoversMore(seqno, old(seqno), trees - rest, id, trees[id], h);
        assert (trees - rest)[id := trees[id]] == trees - (rest - {id});
        rest := rest - {id};
        if h.Some? && h.value + 1 > seqno {
          seqno := h.value + 1;
        }
      }
      assert trees - rest == trees;
      CoversIsNext(seqno, old(seqno), trees);
    }

    /** Recovers the database from its tables and journals, the last journal being the active
        one. The active memtables are always empty between the two kinds; the other check
        fails exactly when a sealed journal's watermark is not its last write. */
    method RecoverAll(d: Disk) returns (ok: bool)
      requires d.journals != [] && trees == (map id | id in d.tables :: Tree(d.tables[id], [map[]])) && queue == [] && seqno == 0
      modifies this
      ensures Db(trees, queue, d.journals[|d.journals| - 1], seqno) == Recover(d)
      ensures ok <==> ChecksHold(d.journals[..|d.journals| - 1], d.tables.Keys)
    {
      hide NextSeqno, FoundMarks, Progress, RebuiltTrees, RebuiltQueue, ActiveEmpty, SealedSeqno, ChecksHold;
      var n := |d.journals| - 1;
      var sealed := d.journals[..n];
      FreshTrees(d.tables);
      ok := ReplaySealed(sealed, d.tables);
      var empty := ActivesEmpty();
      SealedEmpty(d.tables, sealed);
      ok := ok && empty;
      var _ := ReplayBatches(d.journals[n], d.tables, sealed);
      RecoverSeqno();
      AllReplayed(d);
    }
  }

  lemma NothingSealed(tables: map<nat, Table>)
    ensures RebuiltQueue([], tables.Keys) == [] && SealedSeqno(tables, []) == 0 && ChecksHold([], tables.Keys)
  {
  }

  lemma SealedSnoc(journals: seq<seq<Batch>>, batches: seq<Batch>, ids: set<nat>)
    ensures RebuiltQueue(journals + [batches], ids) == RebuiltQueue(journals, ids) + [Sealed(batches, FoundMarks(batches, ids))]
    ensures ChecksHold(journals + [batches], ids) <==> ChecksHold(journals, ids) && forall id :: id in ids ==> Announced(batches, id)
  {
    hide FoundMarks, Announced;
    var js := journals + [batches];
    assert js[|journals|] == batches;
    assert forall i :: 0 <= i < |journals| ==> js[i] == journals[i];
  }

  lemma FreshTrees(tables: map<nat, Table>)
    ensures (map id | id in tables :: Tree(tables[id], [map[]])) == Progress(tables, [], [])
  {
    hide Wiped, LogsOf, Replayed;
    forall id | id in tables
      ensures id in Progress(tables, [], []) && Progress(tables, [], [])[id] == Tree(tables[id], [map[]])
    {
      var none: seq<seq<Batch>> := [];
      assert none + [[]] == [[]];
      BegunLogs([], id);
      NothingWiped(id, tables[id]);
      NoLogs(id);
    }
  }

  lemma NothingWiped(id: nat, tables: Table)
    ensures !Wiped([], id) && Replayed(tables, []) == []
  {
  }

  lemma NoLogs(id: nat)
    ensures LogsOf([], id) == []
  {
  }

  lemma SealedEmpty(tables: map<nat, Table>, journals: seq<seq<Batch>>)
    ensures var trees := Progress(tables, journals, []); forall id :: id in trees ==> ActiveEmpty(trees[id])
  {
    hide Replayed, LogsOf, Wiped;
    forall id | id in tables { BegunLogs(journals, id); }
  }

  lemma AllReplayed(d: Disk)
    requires d.journals != []
    ensures Progress(d.tables, d.journals[..|d.journals| - 1], d.journals[|d.journals| - 1]) == RebuiltTrees(d)
  {
    hide RebuiltTrees;
    var n := |d.journals| - 1;
    assert d.journals[..n] + [d.journals[n]] == d.journals;
    assert Disk(d.tables, d.journals) == d;
  }

  lemma NoneSealed(tables: map<nat, Table>, done: seq<seq<Batch>>, batches: seq<Batch>)
    ensures HalfSealed(Progress(tables, done, batches), tables, done, batches, {})
    ensures ResealedIn(tables, done + [batches], {}) == map[]
  {
    hide RebuiltTrees;
    ProgressShape(tables, done, batches);
    ProgressShape(tables, done + [batches], []);
  }

  lemma OneSealed(trees: map<nat, Tree>, tables: map<nat, Table>, done: seq<seq<Batch>>, batches: seq<Batch>, ids: set<nat>, id: nat)
    requires HalfSealed(trees, tables, done, batches, ids) && id in tables && id !in ids
    ensures id in trees && id in Progress(tables, done, batches) && trees[id] == Progress(tables, done, batches)[id]
    ensures id in Progress(tables, done + [batches], [])
    ensures HalfSealed(trees[id := Progress(tables, done + [batches], [])[id]], tables, done, batches, ids + {id})
  {
    hide Progress;
  }

  lemma AllSealed(tables: map<nat, Table>, done: seq<seq<Batch>>, batches: seq<Batch>, trees: map<nat, Tree>)
    requires HalfSealed(trees, tables, done, batches, FoundMarks(batches, tables.Keys).Keys)
    ensures trees == Progress(tables, done + [batches], [])
    ensures forall id :: id in tables && id !in FoundMarks(batches, tables.Keys) ==> Announced(batches, id)
  {
    hide Progress, MarkIn, LogOf, Announced;
    forall id | id in tables && id !in FoundMarks(batches, tables.Keys) {
      UnmarkedTree(tables, done, batches, id);
    }
  }

  lemma MarkedKeys(batches: seq<Batch>, ids: set<nat>)
    ensures FoundMarks(batches, ids).Keys <= ids
    ensures forall id :: id in FoundMarks(batches, ids) ==> MarkIn(batches, id) == Some(FoundMarks(batches, ids)[id])
  {
  }

  /** A keyspace that a journal does not mention is the same before and after sealing it. */
  lemma UnmarkedTree(tables: map<nat, Table>, done: seq<seq<Batch>>, batches: seq<Batch>, id: nat)
    requires id in tables && MarkIn(batches, id).None?
    ensures id in Progress(tables, done, batches) && id in Progress(tables, done + [batches], [])
    ensures Progress(tables, done + [batches], [])[id] == Progress(tables, done, batches)[id]
    ensures id !in Resealed(tables, done + [batches]) && Announced(batches, id)
  {
    hide Progress, LogOf, KeptTables, MarkIn, LogsOf, Replayed;
    SealTree(tables, done, batches, id);
    SkipsPending(tables, done, batches, id);
  }

  lemma MoreResealed(tables: map<nat, Table>, done: seq<seq<Batch>>, batches: seq<Batch>, ids: set<nat>, id: nat)
    requires id in tables && id !in ids && id in Progress(tables, done + [batches], [])
    ensures var js := done + [batches]; var before := ResealedIn(tables, js, ids);
            && id !in before
            && ResealedIn(tables, js, ids + {id}) ==
               if Pending(KeptTables(Disk(tables, js), id), LogOf(batches, id)) then before[id := Progress(tables, js, [])[id]] else before
  {
    hide Pending, KeptTables, LogOf, RebuiltTrees;
  }

  lemma AllResealed(tables: map<nat, Table>, done: seq<seq<Batch>>, batches: seq<Batch>, seqno: nat, from: nat, trees: map<nat, Tree>)
    requires from == SealedSeqno(tables, done) && trees == ResealedIn(tables, done + [batches], FoundMarks(batches, tables.Keys).Keys)
    requires Covers(seqno, from, trees)
    ensures seqno == SealedSeqno(tables, done + [batches])
  {
    hide *;
    var js, ids := done + [batches], FoundMarks(batches, tables.Keys).Keys;
    ResealedMarked(tables, done, batches);
    ResealedAll(tables, js, ids);
    SeqnoSnoc(tables, done, batches);
    CoversIsNext(seqno, from, trees);
  }

  lemma ResealedAll(tables: map<nat, Table>, journals: seq<seq<Batch>>, ids: set<nat>)
    requires journals != [] && Resealed(tables, journals).Keys <= ids
    ensures ResealedIn(tables, journals, ids) == Resealed(tables, journals)
  {
    hide Resealed;
  }

  lemma ResealedMarked(tables: map<nat, Table>, done: seq<seq<Batch>>, batches: seq<Batch>)
    ensures Resealed(tables, done + [batches]).Keys <= FoundMarks(batches, tables.Keys).Keys
  {
    hide Resealed, MarkIn, Announced;
    forall id | id in Resealed(tables, done + [batches])
      ensures id in FoundMarks(batches, tables.Keys)
    {
      ResealedKnown(tables, done + [batches], id);
      if MarkIn(batches, id).None? {
        UnmarkedTree(tables, done, batches, id);
      }
    }
  }

  lemma SeqnoSnoc(tables: map<nat, Table>, done: seq<seq<Batch>>, batches: seq<Batch>)
    ensures var js := done + [batches];
            SealedSeqno(tables, js) == Higher(SealedSeqno(tables, done), NextSeqno(Resealed(tables, js)))
  {
    hide Resealed, NextSeqno;
    assert (done + [batches])[..|done|] == done;
  }

  lemma ResealedKnown(tables: map<nat, Table>, journals: seq<seq<Batch>>, id: nat)
    requires journals != [] && id in Resealed(tables, journals)
    ensures id in tables
  {
  }
}
