/** The whole database under crashes: keyspaces sharing one active and several sealed journals. */
module Recovery {
  import opened Bytes
  import opened KeyspaceLog
  import opened KeyspaceRecovery
  import J = JournalEntry
  import opened BatchReader

  /** The memtables are oldest first and the last one is active. */
  datatype Tree = Tree(tables: Table, mems: seq<Table>)

  /** A sealed journal and its eviction watermarks by keyspace. */
  datatype Sealed = Sealed(batches: seq<Batch>, marks: map<nat, nat>)

  datatype Db = Db(trees: map<nat, Tree>, sealed: seq<Sealed>, active: seq<Batch>, seqno: nat)

  /** What survives a crash: the tables, and the journals oldest first with the active one last. */
  datatype Disk = Disk(tables: map<nat, Table>, journals: seq<seq<Batch>>)

  // ---------------------------------------------------------------------------
  // Batches as versions.

  function CellOf(item: ReadItem): Option<Value> {
    if item.valueType == J.Value then Some(item.value) else None
  }

  /** The versions that a batch's items write to keyspace `id`, later items winning. */
  function TableOf(items: seq<ReadItem>, id: nat, seqno: nat): Table {
    if items == [] then map[]
    else
      var n := |items| - 1;
      var before := TableOf(items[..n], id, seqno);
      if items[n].ks == id then before[Ver(items[n].key, seqno) := CellOf(items[n])] else before
  }

  /** The versions a journal holds for keyspace `id`, from its last clear marker on. */
  function LogOf(batches: seq<Batch>, id: nat): Table {
    if batches == [] then map[]
    else
      var n := |batches| - 1;
      if id in batches[n].cleared then map[]
      else LogOf(batches[..n], id) + TableOf(batches[n].items, id, batches[n].seqno)
  }

  predicate Clears(batches: seq<Batch>, id: nat) {
    batches != [] && (id in batches[|batches| - 1].cleared || Clears(batches[..|batches| - 1], id))
  }

  predicate Names(item: ReadItem, id: nat, x: Key) {
    item.ks == id && item.key == x
  }

  /** A batch's last item for a key. */
  function LastItem(items: seq<ReadItem>, id: nat, x: Key): Option<ReadItem> {
    if items == [] then None
    else if Names(items[|items| - 1], id, x) then Some(items[|items| - 1])
    else LastItem(items[..|items| - 1], id, x)
  }

  /** The value of the last write to a key since its keyspace was last cleared, the
      specification of every lookup. It is read off the journaled items. */
  function LastWrite(history: seq<Batch>, id: nat, x: Key): Option<Value> {
    if history == [] then None
    else
      var n := |history| - 1;
      if id in history[n].cleared then None
      else
        match LastItem(history[n].items, id, x)
        case None => LastWrite(history[..n], id, x)
        case Some(item) =>
          match item.valueType
          case Value => Some(item.value)
          case Tombstone => None
          case WeakTombstone => None
          case Indirection => None
  }

  lemma {:induction false} TableHoldsLast(items: seq<ReadItem>, id: nat, seqno: nat, x: Key)
    ensures var t, last := TableOf(items, id, seqno), LastItem(items, id, x);
            && (Ver(x, seqno) in t <==> last.Some?)
            && (last.Some? ==> t[Ver(x, seqno)] == if last.value.valueType == J.Value then Some(last.value.value) else None)
  {
    if items != [] {
      TableHoldsLast(items[..|items| - 1], id, seqno, x);
    }
  }

  /** Item `j` is the last one of the batch to name the key. */
  predicate LastAt(items: seq<ReadItem>, j: nat, id: nat, x: Key) {
    j < |items| && Names(items[j], id, x) && forall i :: j < i < |items| ==> !Names(items[i], id, x)
  }

  lemma {:induction false} LastItemAt(items: seq<ReadItem>, id: nat, x: Key)
    ensures forall j: nat :: LastAt(items, j, id, x) ==> LastItem(items, id, x) == Some(items[j])
    ensures (forall i :: 0 <= i < |items| ==> !Names(items[i], id, x)) ==> LastItem(items, id, x) == None
  {
    hide Names;
    if items != [] {
      var n := |items| - 1;
      LastItemAt(items[..n], id, x);
      forall j: nat | LastAt(items, j, id, x)
        ensures LastItem(items, id, x) == Some(items[j])
      {
        if j < n {
          assert !Names(items[n], id, x);
          assert forall i :: j < i < n ==> items[..n][i] == items[i];
          assert LastAt(items[..n], j, id, x);
        }
      }
      if forall i :: 0 <= i < |items| ==> !Names(items[i], id, x) {
        assert !Names(items[n], id, x);
        assert forall i :: 0 <= i < n ==> items[..n][i] == items[i];
      }
    }
  }

  /** What a batch says about a key: nothing, or a value if its last item for the key is one,
      and that it is gone if that item is a tombstone of either kind. */
  predicate Silent(b: Batch, id: nat, x: Key) {
    id !in b.cleared && forall i :: 0 <= i < |b.items| ==> !Names(b.items[i], id, x)
  }

  ghost predicate Sets(b: Batch, id: nat, x: Key, value: Value) {
    id !in b.cleared && exists j: nat :: LastAt(b.items, j, id, x) && b.items[j].valueType == J.Value && b.items[j].value == value
  }

  ghost predicate Removes(b: Batch, id: nat, x: Key) {
    id in b.cleared || exists j: nat :: LastAt(b.items, j, id, x) && b.items[j].valueType in {J.Tombstone, J.WeakTombstone}
  }

  /** A key's answer over a history: the batch that last said something about it decides. */
  lemma LastWriteDecided(history: seq<Batch>, n: nat, id: nat, x: Key)
    requires n < |history| && forall m :: n < m < |history| ==> Silent(history[m], id, x)
    ensures forall value :: Sets(history[n], id, x, value) ==> LastWrite(history, id, x) == Some(value)
    ensures Removes(history[n], id, x) ==> LastWrite(history, id, x) == None
  {
    SilentSince(history, n + 1, id, x);
    assert history[..n + 1][..n] == history[..n] && history[..n + 1][n] == history[n];
    LastItemAt(history[n].items, id, x);
  }

  lemma {:induction false} SilentSince(history: seq<Batch>, n: nat, id: nat, x: Key)
    requires n <= |history| && forall m :: n <= m < |history| ==> Silent(history[m], id, x)
    ensures LastWrite(history, id, x) == LastWrite(history[..n], id, x)
    decreases |history|
  {
    if n < |history| {
      var k := |history| - 1;
      assert Silent(history[k], id, x);
      LastItemAt(history[k].items, id, x);
      assert history[..k][..n] == history[..n];
      SilentSince(history[..k], n, id, x);
    } else {
      assert history[..n] == history;
    }
  }

  /** A key that no batch ever wrote is absent. */
  lemma NeverWritten(history: seq<Batch>, id: nat, x: Key)
    requires forall m :: 0 <= m < |history| ==> Silent(history[m], id, x)
    ensures LastWrite(history, id, x) == None
  {
    SilentSince(history, 0, id, x);
  }

  lemma {:induction false} TableUniform(items: seq<ReadItem>, id: nat, seqno: nat)
    ensures Uniform(TableOf(items, id, seqno), seqno)
  {
    if items != [] {
      TableUniform(items[..|items| - 1], id, seqno);
    }
  }

  // ---------------------------------------------------------------------------
  // Steps.

  datatype Event =
    | Write(items: seq<ReadItem>, cleared: seq<nat>)
    | Skip
    | RotateMemtable(id: nat)
    | Flush(id: nat)
    | Compact(id: nat, after: Table)
    | RotateJournal
    | Evict
    | Crash
    | CrashMidWrite(items: seq<ReadItem>, cleared: seq<nat>)

  /** A batch of items, or the marker that clears one keyspace. */
  predicate Storable(db: Db, items: seq<ReadItem>, cleared: seq<nat>) {
    && (forall i :: 0 <= i < |items| ==> items[i].ks in db.trees && items[i].valueType != J.Indirection)
    && if cleared == [] then items != [] else items == [] && |cleared| == 1 && cleared[0] in db.trees
  }

  predicate Formed(db: Db) {
    AllFormed(db.trees)
  }

  predicate AllFormed(trees: map<nat, Tree>) {
    forall id :: id in trees ==> |trees[id].mems| >= 1
  }

  ghost predicate Enabled(db: Db, e: Event) {
    match e
    case Write(items, cleared) => Storable(db, items, cleared)
    case Skip => true
    case RotateMemtable(id) => id in db.trees && !ActiveEmpty(db.trees[id])
    case Flush(id) => id in db.trees && |db.trees[id].mems| >= 2
    case Compact(id, after) => id in db.trees && Compacts(db.trees[id].tables, after)
    case RotateJournal => true
    case Evict => |db.sealed| >= 1 && CanEvict(db.trees, db.sealed[0].marks)
    case Crash => true
    case CrashMidWrite(items, cleared) => Storable(db, items, cleared)
  }

  /** Every keyspace with a watermark has reached it with its tables. */
  ghost predicate CanEvict(trees: map<nat, Tree>, marks: map<nat, nat>) {
    forall id :: id in marks && id in trees ==> Reached(trees[id].tables, marks[id])
  }

  function BatchFor(db: Db, items: seq<ReadItem>, cleared: seq<nat>): Batch {
    Batch(db.seqno, items, cleared)
  }

  /** What a batch does to one tree. */
  function TreeAfter(t: Tree, b: Batch, id: nat): Tree
    requires t.mems != []
  {
    if id in b.cleared then Tree(map[], [map[]]) else t.(mems := AddLast(t.mems, TableOf(b.items, id, b.seqno)))
  }

  function TreesAfter(trees: map<nat, Tree>, b: Batch): map<nat, Tree>
    requires AllFormed(trees)
  {
    map id | id in trees :: TreeAfter(trees[id], b, id)
  }

  /** A write appends to the active journal, then goes to the trees. */
  function WriteDone(db: Db, items: seq<ReadItem>, cleared: seq<nat>): Db
    requires Formed(db)
  {
    Db(TreesAfter(db.trees, BatchFor(db, items, cleared)), db.sealed, db.active + [BatchFor(db, items, cleared)], db.seqno + 1)
  }

  ghost function MarksOf(trees: map<nat, Tree>): map<nat, nat> {
    map id | id in trees && Highest(Union(trees[id].mems)).Some? :: Highest(Union(trees[id].mems)).value
  }

  ghost function JournalSealed(db: Db): Db {
    db.(sealed := db.sealed + [Sealed(db.active, MarksOf(db.trees))], active := [])
  }

  predicate ActiveEmpty(t: Tree) {
    t.mems != [] && t.mems[|t.mems| - 1] == map[]
  }

  function Journals(db: Db): (journals: seq<seq<Batch>>)
    ensures |journals| == |db.sealed| + 1 && journals[|db.sealed|] == db.active
    ensures forall i :: 0 <= i < |db.sealed| ==> journals[i] == db.sealed[i].batches
  {
    seq(|db.sealed|, i requires 0 <= i < |db.sealed| => db.sealed[i].batches) + [db.active]
  }

  function DiskOf(db: Db): Disk {
    Disk(map id | id in db.trees :: db.trees[id].tables, Journals(db))
  }

  predicate ClearedAfter(journals: seq<seq<Batch>>, i: int, id: nat) {
    exists j :: i < j < |journals| && 0 <= j && Clears(journals[j], id)
  }

  /** Some journal holds a clear marker of the keyspace, so replay wipes its tables. */
  predicate Wiped(journals: seq<seq<Batch>>, id: nat) {
    ClearedAfter(journals, -1, id)
  }

  /** The journals' parts for keyspace `id`: nothing from before the last clear marker counts. */
  function LogsOf(journals: seq<seq<Batch>>, id: nat): (logs: seq<Table>)
    ensures |logs| == |journals|
    ensures forall i :: 0 <= i < |journals| ==> logs[i] == if ClearedAfter(journals, i, id) then map[] else LogOf(journals[i], id)
  {
    seq(|journals|, i requires 0 <= i < |journals| => if ClearedAfter(journals, i, id) then map[] else LogOf(journals[i], id))
  }

  predicate Mentions(b: Batch, id: nat) {
    id in b.cleared || exists i :: 0 <= i < |b.items| && b.items[i].ks == id
  }

  /** The highest sequence number of a batch that mentions the keyspace. */
  function MarkIn(batches: seq<Batch>, id: nat): Option<nat> {
    if batches == [] then None
    else
      var n := |batches| - 1;
      var before := MarkIn(batches[..n], id);
      if Mentions(batches[n], id) then Some(Later(before, batches[n].seqno)) else before
  }

  function Later(a: Option<nat>, b: nat): nat {
    if a.Some? && a.value > b then a.value else b
  }

  /** The watermarks rebuilt from a sealed journal. */
  function FoundMarks(batches: seq<Batch>, ids: set<nat>): map<nat, nat> {
    map id | id in ids && MarkIn(batches, id).Some? :: MarkIn(batches, id).value
  }

  ghost function Rebuilt(tables: Table, logs: seq<Table>): Tree
    requires logs != []
  {
    Tree(tables, Replayed(tables, logs[..|logs| - 1]) + [logs[|logs| - 1]])
  }

  /** One above every stored sequence number. */
  ghost function NextSeqno(trees: map<nat, Tree>): (n: nat)
    ensures forall id, s: nat :: id in trees && Stored(trees[id], s) ==> s < n
    ensures n == 0 || exists id :: id in trees && Stored(trees[id], n - 1)
  {
    if trees == map[] then 0
    else
      var id :| id in trees;
      var own := Highest(trees[id].tables + Union(trees[id].mems));
      var rest := NextSeqno(trees - {id});
      assert forall i :: i in trees <==> i == id || i in trees - {id};
      StoredIsHighest(trees[id]);
      if own.Some? && own.value + 1 > rest then own.value + 1 else rest
  }

  /** Some table or memtable reaches `s`. */
  ghost predicate Stored(t: Tree, s: nat) {
    Reached(t.tables, s) || UpTo(t.mems, s)
  }

  lemma StoredIsHighest(t: Tree)
    ensures var h := Highest(t.tables + Union(t.mems));
            && (forall s: nat :: Stored(t, s) ==> h.Some? && s <= h.value) && (h.Some? ==> Stored(t, h.value))
  {
    hide Union;
    var all := t.tables + Union(t.mems);
    forall s: nat | Stored(t, s)
      ensures Reached(all, s)
    {
      if UpTo(t.mems, s) {
        var j, u :| 0 <= j < |t.mems| && u in t.mems[j] && s <= u.seqno;
        UnionMembers(t.mems, u);
        assert u in all;
      } else {
        var u :| u in t.tables && s <= u.seqno;
        assert u in all;
      }
    }
    if Highest(all).Some? {
      var v :| v in all && v.seqno == Highest(all).value;
      UnionMembers(t.mems, v);
    }
  }

  /** The database with its tables, memtables and watermarks rebuilt from the journals. */
  ghost function Rebuild(d: Disk): Db
    requires d.journals != []
  {
    var n := |d.journals| - 1;
    Db(RebuiltTrees(d), RebuiltQueue(d.journals[..n], d.tables.Keys), d.journals[n], NextSeqno(RebuiltTrees(d)))
  }

  /** The trees that get a memtable sealed for the last of the journals, right after that. */
  ghost function Resealed(tables: map<nat, Table>, journals: seq<seq<Batch>>): map<nat, Tree>
    requires journals != []
  {
    map id | id in tables && Pending(KeptTables(Disk(tables, journals), id), LogOf(journals[|journals| - 1], id)) ::
      RebuiltTrees(Disk(tables, journals + [[]]))[id]
  }

  /** The counter after replaying sealed journals. It stays above what a later clear marker wipes. */
  ghost function SealedSeqno(tables: map<nat, Table>, journals: seq<seq<Batch>>): nat {
    if journals == [] then 0
    else Higher(SealedSeqno(tables, journals[..|journals| - 1]), NextSeqno(Resealed(tables, journals)))
  }

  function Higher(a: nat, b: nat): nat {
    if a < b then b else a
  }

  /** A tree held the sequence number, right after a sealed journal's memtables were sealed or at
      the end of recovery. */
  ghost predicate Found(d: Disk, s: nat)
    requires d.journals != []
  {
    || (exists id :: id in RebuiltTrees(d) && Stored(RebuiltTrees(d)[id], s))
    || FoundSealed(d.tables, d.journals[..|d.journals| - 1], s)
  }

  ghost predicate FoundSealed(tables: map<nat, Table>, journals: seq<seq<Batch>>, s: nat) {
    exists k: nat :: 0 < k <= |journals| && FoundAt(tables, journals[..k], s)
  }

  ghost predicate FoundAt(tables: map<nat, Table>, journals: seq<seq<Batch>>, s: nat)
    requires journals != []
  {
    exists id :: id in Resealed(tables, journals) && Stored(Resealed(tables, journals)[id], s)
  }

  lemma FoundSnoc(tables: map<nat, Table>, journals: seq<seq<Batch>>, s: nat)
    requires journals != []
    ensures FoundSealed(tables, journals, s) <==> FoundSealed(tables, journals[..|journals| - 1], s) || FoundAt(tables, journals, s)
  {
    hide FoundAt;
    var front := journals[..|journals| - 1];
    assert journals[..|journals|] == journals;
    if k: nat :| 0 < k <= |journals| && FoundAt(tables, journals[..k], s) {
      assert k <= |front| ==> front[..k] == journals[..k];
    }
    if k: nat :| 0 < k <= |front| && FoundAt(tables, front[..k], s) {
      assert front[..k] == journals[..k];
    }
  }

  lemma FoundNext(tables: map<nat, Table>, journals: seq<seq<Batch>>)
    requires journals != []
    ensures var n := NextSeqno(Resealed(tables, journals));
            (forall s: nat :: FoundAt(tables, journals, s) ==> s < n) && (n == 0 || FoundAt(tables, journals, n - 1))
  {
    hide Resealed, Stored;
  }

  lemma {:induction false} SealedSeqnoExact(tables: map<nat, Table>, journals: seq<seq<Batch>>)
    ensures var n := SealedSeqno(tables, journals);
            (forall s: nat :: FoundSealed(tables, journals, s) ==> s < n) && (n == 0 || FoundSealed(tables, journals, n - 1))
  {
    hide Resealed, NextSeqno, FoundAt, FoundSealed;
    if journals == [] {
      NothingSealedYet(tables);
    } else {
      var front := SealedSeqno(tables, journals[..|journals| - 1]);
      SealedSeqnoExact(tables, journals[..|journals| - 1]);
      FoundNext(tables, journals);
      forall s: nat
        ensures FoundSealed(tables, journals, s) <==> FoundSealed(tables, journals[..|journals| - 1], s) || FoundAt(tables, journals, s)
      {
        FoundSnoc(tables, journals, s);
      }
    }
  }

  lemma NothingSealedYet(tables: map<nat, Table>)
    ensures forall s: nat :: !FoundSealed(tables, [], s)
  {
    hide FoundAt;
  }

  /** The recovered counter is one above the highest sequence number any tree held on the way. */
  lemma CounterExact(d: Disk)
    requires d.journals != []
    ensures var n := Recover(d).seqno; (forall s: nat :: Found(d, s) ==> s < n) && (n == 0 || Found(d, n - 1))
  {
    hide RebuiltTrees, Stored, FoundSealed, SealedSeqno;
    SealedSeqnoExact(d.tables, d.journals[..|d.journals| - 1]);
  }

  /** Recovery also sets the counter above everything it found on the way. */
  ghost function Recover(d: Disk): Db
    requires d.journals != []
  {
    var sealed := SealedSeqno(d.tables, d.journals[..|d.journals| - 1]);
    Rebuild(d).(seqno := Higher(sealed, Rebuild(d).seqno))
  }

  /** The tables that replay starts from. */
  function KeptTables(d: Disk, id: nat): Table
    requires id in d.tables
  {
    if Wiped(d.journals, id) then map[] else d.tables[id]
  }

  ghost function RebuiltTrees(d: Disk): map<nat, Tree>
    requires d.journals != []
  {
    map id | id in d.tables :: Rebuilt(KeptTables(d, id), LogsOf(d.journals, id))
  }

  function RebuiltQueue(journals: seq<seq<Batch>>, ids: set<nat>): (queue: seq<Sealed>)
    ensures |queue| == |journals|
    ensures forall i :: 0 <= i < |journals| ==> queue[i] == Sealed(journals[i], FoundMarks(journals[i], ids))
  {
    seq(|journals|, i requires 0 <= i < |journals| => Sealed(journals[i], FoundMarks(journals[i], ids)))
  }

  ghost function Step(db: Db, e: Event): Db
    requires Formed(db) && Enabled(db, e)
  {
    match e
    case Write(items, cleared) => WriteDone(db, items, cleared)
    case Skip => db.(seqno := db.seqno + 1)
    case RotateMemtable(id) => db.(trees := db.trees[id := db.trees[id].(mems := db.trees[id].mems + [map[]])])
    case Flush(id) =>
      var t := db.trees[id];
      db.(trees := db.trees[id := Tree(t.tables + t.mems[0], t.mems[1..])])
    case Compact(id, after) => db.(trees := db.trees[id := db.trees[id].(tables := after)])
    case RotateJournal => JournalSealed(db)
    case Evict => db.(sealed := db.sealed[1..])
    case Crash => Recover(DiskOf(db))
    case CrashMidWrite(items, cleared) => Recover(Disk(DiskOf(db).tables, Journals(WriteDone(db, items, cleared))))
  }

  // ---------------------------------------------------------------------------
  // One keyspace's part of the database.

  type Newest = map<nat, map<Key, Stamp>>

  function PartMarks(sealed: seq<Sealed>, id: nat): (marks: seq<Option<nat>>)
    ensures |marks| == |sealed|
    ensures forall i :: 0 <= i < |sealed| ==> marks[i] == MarkOf(sealed[i], id)
  {
    seq(|sealed|, i requires 0 <= i < |sealed| => MarkOf(sealed[i], id))
  }

  function MarkOf(j: Sealed, id: nat): Option<nat> {
    if id in j.marks then Some(j.marks[id]) else None
  }

  function Part(db: Db, newest: Newest, id: nat): Ks
    requires id in db.trees && id in newest
  {
    Ks(db.trees[id].tables, db.trees[id].mems, LogsOf(Journals(db), id), PartMarks(db.sealed, id), newest[id])
  }

  ghost predicate PartInv(db: Db, newest: Newest, id: nat)
    requires id in db.trees && id in newest
  {
    Inv(Part(db, newest, id), db.seqno) && (Wiped(Journals(db), id) ==> Logged(Part(db, newest, id)))
  }

  ghost predicate DbInv(db: Db, newest: Newest) {
    newest.Keys == db.trees.Keys && forall id :: id in db.trees ==> PartInv(db, newest, id)
  }

  ghost function WriteNewest(db: Db, newest: Newest, items: seq<ReadItem>, cleared: seq<nat>): Newest
    requires Formed(db) && newest.Keys == db.trees.Keys
  {
    map id | id in db.trees ::
      TableUniform(items, id, db.seqno);
      if id in cleared then map[] else Put(Part(db, newest, id), TableOf(items, id, db.seqno), db.seqno).newest
  }

  /** The part of a keyspace that recovery rebuilds from. */
  ghost function Source(db: Db, newest: Newest, id: nat): (k: Ks)
    requires Formed(db) && newest.Keys == db.trees.Keys && id in db.trees
    ensures Shape(k)
  {
    if Wiped(Journals(db), id) then FromLogs(Part(db, newest, id)) else Part(db, newest, id)
  }

  ghost function CrashNewest(db: Db, newest: Newest): Newest
    requires Formed(db) && newest.Keys == db.trees.Keys
  {
    map id | id in db.trees :: Recovered(Source(db, newest, id)).newest
  }

  ghost function StepNewest(db: Db, newest: Newest, e: Event): Newest
    requires Formed(db) && newest.Keys == db.trees.Keys
  {
    match e
    case Write(items, cleared) => WriteNewest(db, newest, items, cleared)
    case Crash => CrashNewest(db, newest)
    case CrashMidWrite(items, cleared) => CrashNewest(WriteDone(db, items, cleared), WriteNewest(db, newest, items, cleared))
    case _ => newest
  }

  lemma InvFormed(db: Db, newest: Newest)
    requires DbInv(db, newest)
    ensures Formed(db)
  {
    forall id | id in db.trees
      ensures |db.trees[id].mems| >= 1
    {
      assert PartInv(db, newest, id);
      assert Shape(Part(db, newest, id));
    }
  }

  // ---------------------------------------------------------------------------
  // Writes and clears.

  /** The journals with a batch appended to the last one. */
  function Appended(journals: seq<seq<Batch>>, b: Batch): seq<seq<Batch>>
    requires journals != []
  {
    journals[|journals| - 1 := journals[|journals| - 1] + [b]]
  }

  lemma WriteJournals(db: Db, items: seq<ReadItem>, cleared: seq<nat>)
    requires Formed(db)
    ensures Journals(WriteDone(db, items, cleared)) == Appended(Journals(db), BatchFor(db, items, cleared))
  {
  }

  lemma ClearsSnoc(batches: seq<Batch>, b: Batch, id: nat)
    ensures Clears(batches + [b], id) <==> id in b.cleared || Clears(batches, id)
    ensures LogOf(batches + [b], id) == if id in b.cleared then map[] else LogOf(batches, id) + TableOf(b.items, id, b.seqno)
  {
    hide TableOf;
    assert (batches + [b])[..|batches|] == batches;
  }

  lemma AppendedClears(journals: seq<seq<Batch>>, b: Batch, id: nat, i: int)
    requires journals != [] && -1 <= i < |journals|
    ensures ClearedAfter(Appended(journals, b), i, id) <==>
            ClearedAfter(journals, i, id) || (id in b.cleared && i < |journals| - 1)
  {
    hide Clears;
    var n, js := |journals| - 1, Appended(journals, b);
    ClearsSnoc(journals[n], b, id);
    assert forall j :: 0 <= j < n ==> js[j] == journals[j];
    if j :| i < j < |journals| && 0 <= j && Clears(journals[j], id) {
      assert Clears(js[j], id);
    }
    if id in b.cleared && i < n {
      assert Clears(js[n], id);
    }
    if j :| i < j < |js| && 0 <= j && Clears(js[j], id) {
      assert j == n || Clears(journals[j], id);
    }
  }

  lemma AppendedLogs(journals: seq<seq<Batch>>, b: Batch, id: nat)
    requires journals != []
    ensures Wiped(Appended(journals, b), id) <==> id in b.cleared || Wiped(journals, id)
    ensures LogsOf(Appended(journals, b), id) ==
            if id in b.cleared then Blank(|journals|) else AddLast(LogsOf(journals, id), TableOf(b.items, id, b.seqno))
  {
    hide ClearedAfter, LogOf, TableOf;
    var n, js := |journals| - 1, Appended(journals, b);
    AppendedClears(journals, b, id, -1);
    forall i | 0 <= i < |journals|
      ensures LogsOf(js, id)[i] == if id in b.cleared then map[]
                                   else if i == n then LogsOf(journals, id)[i] + TableOf(b.items, id, b.seqno)
                                   else LogsOf(journals, id)[i]
    {
      AppendedClears(journals, b, id, i);
      ClearsSnoc(journals[n], b, id);
      NothingAfterLast(journals, id);
      NothingAfterLast(js, id);
    }
  }

  lemma NothingAfterLast(journals: seq<seq<Batch>>, id: nat)
    ensures !ClearedAfter(journals, |journals| - 1, id)
  {
  }

  lemma WriteIsPut(db: Db, newest: Newest, items: seq<ReadItem>, cleared: seq<nat>, id: nat)
    requires Formed(db) && newest.Keys == db.trees.Keys && id in db.trees && Uniform(TableOf(items, id, db.seqno), db.seqno)
    ensures Part(WriteDone(db, items, cleared), WriteNewest(db, newest, items, cleared), id)
            == if id in cleared then Emptied(Part(db, newest, id)) else Put(Part(db, newest, id), TableOf(items, id, db.seqno), db.seqno)
    ensures Wiped(Journals(WriteDone(db, items, cleared)), id) <==> id in cleared || Wiped(Journals(db), id)
  {
    hide TableOf, LogsOf, Journals, PartMarks, AddLast, Wiped;
    WriteJournals(db, items, cleared);
    AppendedLogs(Journals(db), BatchFor(db, items, cleared), id);
  }

  lemma WritePart(db: Db, newest: Newest, items: seq<ReadItem>, cleared: seq<nat>, id: nat)
    requires DbInv(db, newest) && Formed(db) && id in db.trees
    ensures id in WriteDone(db, items, cleared).trees && id in WriteNewest(db, newest, items, cleared)
    ensures PartInv(WriteDone(db, items, cleared), WriteNewest(db, newest, items, cleared), id)
  {
    hide Inv, Part, Put, Emptied, Wiped, Logged, TableOf, TreeAfter, Uniform;
    var k := Part(db, newest, id);
    assert PartInv(db, newest, id);
    InvShape(k, db.seqno);
    InvBounded(k, db.seqno);
    TableUniform(items, id, db.seqno);
    WriteIsPut(db, newest, items, cleared, id);
    if id in cleared {
      EmptiedInv(k, db.seqno + 1);
      EmptiedLogged(k);
    } else {
      PutInv(k, TableOf(items, id, db.seqno), db.seqno);
      if Logged(k) {
        PutLogged(k, TableOf(items, id, db.seqno), db.seqno);
      }
    }
  }

  lemma EmptiedLogged(k: Ks)
    ensures Logged(Emptied(k))
  {
  }

  lemma InvBounded(k: Ks, s: nat)
    requires Inv(k, s)
    ensures AllBounded(k, s)
  {
  }

  lemma WriteInv(db: Db, newest: Newest, items: seq<ReadItem>, cleared: seq<nat>)
    requires DbInv(db, newest) && Formed(db)
    ensures DbInv(WriteDone(db, items, cleared), WriteNewest(db, newest, items, cleared))
  {
    hide PartInv, Part, Put, TableOf, TreeAfter;
    forall id | id in db.trees { WritePart(db, newest, items, cleared, id); }
  }

  // ---------------------------------------------------------------------------
  // Steps of one tree.

  lemma TreeChanged(db: Db, newest: Newest, id: nat, t: Tree, other: nat)
    requires id in db.trees && other in db.trees && newest.Keys == db.trees.Keys
    ensures var db' := db.(trees := db.trees[id := t]);
            && Journals(db') == Journals(db)
            && Part(db', newest, other) ==
               if other == id then Part(db, newest, id).(tables := t.tables, mems := t.mems) else Part(db, newest, other)
  {
    hide LogsOf, PartMarks;
    assert Journals(db.(trees := db.trees[id := t])) == Journals(db);
  }

  lemma TreeStepInv(db: Db, newest: Newest, id: nat, t: Tree)
    requires DbInv(db, newest) && id in db.trees
    requires Inv(Part(db, newest, id).(tables := t.tables, mems := t.mems), db.seqno)
    ensures DbInv(db.(trees := db.trees[id := t]), newest)
  {
    hide Inv, Part, Wiped, Journals, Logged;
    forall other | other in db.trees
      ensures PartInv(db.(trees := db.trees[id := t]), newest, other)
    {
      assert PartInv(db, newest, other);
      TreeChanged(db, newest, id, t, other);
      LoggedFrame(Part(db, newest, id), t.tables, t.mems);
    }
  }

  lemma LoggedFrame(k: Ks, tables: Table, mems: seq<Table>)
    ensures Logged(k) ==> Logged(k.(tables := tables, mems := mems))
  {
    hide Holds;
    assert forall x :: x in k.newest ==> Top(k.(tables := tables, mems := mems), x) == Top(k, x);
  }

  lemma RotateMemtableStep(db: Db, newest: Newest, id: nat)
    requires DbInv(db, newest) && id in db.trees
    ensures DbInv(db.(trees := db.trees[id := db.trees[id].(mems := db.trees[id].mems + [map[]])]), newest)
  {
    hide Inv;
    assert PartInv(db, newest, id);
    RotateMemtableInv(Part(db, newest, id), db.seqno);
    TreeStepInv(db, newest, id, db.trees[id].(mems := db.trees[id].mems + [map[]]));
  }

  lemma FlushStep(db: Db, newest: Newest, id: nat)
    requires DbInv(db, newest) && id in db.trees && |db.trees[id].mems| >= 2
    ensures var t := db.trees[id];
            DbInv(db.(trees := db.trees[id := Tree(t.tables + t.mems[0], t.mems[1..])]), newest)
  {
    hide Inv;
    var t := db.trees[id];
    assert PartInv(db, newest, id);
    FlushInv(Part(db, newest, id), db.seqno);
    TreeStepInv(db, newest, id, Tree(t.tables + t.mems[0], t.mems[1..]));
  }

  lemma CompactStep(db: Db, newest: Newest, id: nat, after: Table)
    requires DbInv(db, newest) && id in db.trees && Compacts(db.trees[id].tables, after)
    ensures DbInv(db.(trees := db.trees[id := db.trees[id].(tables := after)]), newest)
  {
    hide Inv, Compacts;
    assert PartInv(db, newest, id);
    CompactInv(Part(db, newest, id), db.seqno, after);
    TreeStepInv(db, newest, id, db.trees[id].(tables := after));
  }

  // ---------------------------------------------------------------------------
  // Steps of the journals.

  lemma SealedLogs(db: Db, id: nat)
    ensures LogsOf(Journals(JournalSealed(db)), id) == LogsOf(Journals(db), id) + [map[]]
    ensures Wiped(Journals(JournalSealed(db)), id) <==> Wiped(Journals(db), id)
  {
    hide ClearedAfter, LogOf, MarksOf;
    var js, js' := Journals(db), Journals(JournalSealed(db));
    assert js' == js + [[]];
    forall i | -1 <= i < |js|
      ensures ClearedAfter(js', i, id) <==> ClearedAfter(js, i, id)
    {
      ExtendedClears(js, i, id);
    }
    NothingAfterLast(js', id);
    assert LogOf([], id) == map[] by { EmptyJournal(id); }
  }

  lemma EmptyJournal(id: nat)
    ensures LogOf([], id) == map[] && !Clears([], id)
  {
  }

  lemma ExtendedClears(journals: seq<seq<Batch>>, i: int, id: nat)
    ensures ClearedAfter(journals + [[]], i, id) <==> ClearedAfter(journals, i, id)
  {
    hide Clears;
    EmptyJournal(id);
    if j :| i < j < |journals| && 0 <= j && Clears(journals[j], id) {
      assert (journals + [[]])[j] == journals[j];
    }
  }

  lemma SealedIsRotated(db: Db, newest: Newest, id: nat)
    requires id in db.trees && newest.Keys == db.trees.Keys
    ensures Part(JournalSealed(db), newest, id) == JournalRotated(Part(db, newest, id))
  {
    hide Highest, Union, LogsOf;
    SealedLogs(db, id);
    var k, k' := Part(db, newest, id), Part(JournalSealed(db), newest, id);
    assert k'.marks == k.marks + [Highest(Union(k.mems))];
  }

  lemma RotatedLogged(k: Ks)
    ensures Logged(k) ==> Logged(JournalRotated(k))
  {
    hide Highest, Union;
    var k' := JournalRotated(k);
    if Logged(k) {
      forall x | x in k'.newest
        ensures Holds(k'.logs, Top(k', x))
      {
        assert Top(k', x) == Top(k, x);
        var i :| 0 <= i < |k.logs| && Top(k, x) in k.logs[i];
        assert k'.logs[i] == k.logs[i];
      }
    }
  }

  lemma RotateJournalStep(db: Db, newest: Newest)
    requires DbInv(db, newest)
    ensures DbInv(JournalSealed(db), newest)
  {
    hide Inv, Part, Wiped, Logged, JournalRotated, MarksOf;
    forall id | id in db.trees
      ensures PartInv(JournalSealed(db), newest, id)
    {
      assert PartInv(db, newest, id);
      SealedIsRotated(db, newest, id);
      SealedLogs(db, id);
      RotateJournalInv(Part(db, newest, id), db.seqno);
      RotatedLogged(Part(db, newest, id));
    }
  }

  lemma DroppedLogs(db: Db, id: nat)
    requires |db.sealed| >= 1
    ensures var js, js' := Journals(db), Journals(db.(sealed := db.sealed[1..]));
            && LogsOf(js', id) == LogsOf(js, id)[1..]
            && (Wiped(js', id) ==> Wiped(js, id) && LogsOf(js, id)[0] == map[])
  {
    hide ClearedAfter, LogOf;
    var js, js' := Journals(db), Journals(db.(sealed := db.sealed[1..]));
    assert js' == js[1..];
    forall i | -1 <= i < |js'|
      ensures ClearedAfter(js', i, id) <==> ClearedAfter(js, i + 1, id)
    {
      TailClears(js, i, id);
    }
    WeakerClears(js, id);
  }

  lemma TailClears(journals: seq<seq<Batch>>, i: int, id: nat)
    requires journals != [] && -1 <= i
    ensures ClearedAfter(journals[1..], i, id) <==> ClearedAfter(journals, i + 1, id)
  {
    hide Clears;
    if j :| i + 1 < j < |journals| && 0 <= j && Clears(journals[j], id) {
      assert journals[1..][j - 1] == journals[j];
    }
  }

  lemma WeakerClears(journals: seq<seq<Batch>>, id: nat)
    ensures ClearedAfter(journals, 0, id) ==> Wiped(journals, id)
  {
  }

  lemma DroppedIsEvicted(db: Db, newest: Newest, id: nat)
    requires id in db.trees && newest.Keys == db.trees.Keys && |db.sealed| >= 1
    ensures Part(db.(sealed := db.sealed[1..]), newest, id) == Evicted(Part(db, newest, id))
  {
    hide LogsOf;
    DroppedLogs(db, id);
    var k, k' := Part(db, newest, id), Part(db.(sealed := db.sealed[1..]), newest, id);
    assert k'.marks == k.marks[1..];
  }

  lemma EvictedLogged(k: Ks)
    requires |k.logs| >= 2 && |k.marks| >= 1 && Logged(k) && k.logs[0] == map[]
    ensures Logged(Evicted(k))
  {
    var k' := Evicted(k);
    forall x | x in k'.newest
      ensures Holds(k'.logs, Top(k', x))
    {
      assert Top(k', x) == Top(k, x);
      var i :| 0 <= i < |k.logs| && Top(k, x) in k.logs[i];
      assert k'.logs[i - 1] == k.logs[i];
    }
  }

  lemma EvictPart(db: Db, newest: Newest, id: nat)
    requires PartIn(db, newest, id) && |db.sealed| >= 1 && CanEvict(db.trees, db.sealed[0].marks)
    ensures PartInv(db.(sealed := db.sealed[1..]), newest, id)
  {
    hide Inv, Logged, Wiped, LogsOf;
    var k := Part(db, newest, id);
    InvShape(k, db.seqno);
    DroppedIsEvicted(db, newest, id);
    DroppedLogs(db, id);
    assert Evictable(k);
    EvictInv(k, db.seqno);
    if Wiped(Journals(db.(sealed := db.sealed[1..])), id) {
      EvictedLogged(k);
    }
  }

  ghost predicate PartIn(db: Db, newest: Newest, id: nat) {
    newest.Keys == db.trees.Keys && id in db.trees && PartInv(db, newest, id)
  }

  lemma EvictStep(db: Db, newest: Newest)
    requires DbInv(db, newest) && |db.sealed| >= 1 && CanEvict(db.trees, db.sealed[0].marks)
    ensures DbInv(db.(sealed := db.sealed[1..]), newest)
  {
    hide PartInv, CanEvict;
    forall id | id in db.trees { EvictPart(db, newest, id); }
  }

  lemma InvShape(k: Ks, s: nat)
    requires Inv(k, s)
    ensures Shape(k)
  {
  }

  /** Flushes, compactions and evictions do not take the journal lock, so they may fall
      between a batch's journal entry and what it does to the trees. */
  predicate Background(e: Event) {
    e.Flush? || e.Compact? || e.Evict?
  }

  lemma TreeStepCommutes(db: Db, items: seq<ReadItem>, id: nat, t: Tree)
    requires Formed(db) && id in db.trees && t.mems != []
    ensures var db' := WriteDone(db, items, []);
            WriteDone(db.(trees := db.trees[id := t]), items, []) ==
            db'.(trees := db'.trees[id := TreeAfter(t, BatchFor(db, items, []), id)])
  {
    hide TreeAfter;
  }

  lemma FlushCommutes(t: Tree, b: Batch, id: nat)
    requires |t.mems| >= 2 && id !in b.cleared
    ensures var t' := TreeAfter(t, b, id);
            |t'.mems| == |t.mems| && Tree(t'.tables + t'.mems[0], t'.mems[1..]) == TreeAfter(Tree(t.tables + t.mems[0], t.mems[1..]), b, id)
  {
    hide TableOf;
    var t' := TreeAfter(t, b, id);
    assert t'.mems[1..] == AddLast(t.mems[1..], TableOf(b.items, id, b.seqno));
  }

  lemma BackgroundCommutes(db: Db, items: seq<ReadItem>, e: Event)
    requires Formed(db) && Background(e) && Enabled(db, e)
    ensures Formed(Step(db, e)) && Enabled(WriteDone(db, items, []), e)
    ensures Step(WriteDone(db, items, []), e) == WriteDone(Step(db, e), items, [])
  {
    match e {
      case Flush(id) =>
        hide TreeAfter;
        var t := db.trees[id];
        FlushCommutes(t, BatchFor(db, items, []), id);
        TreeStepCommutes(db, items, id, Tree(t.tables + t.mems[0], t.mems[1..]));
      case Compact(id, after) =>
        hide TableOf, Compacts, AddLast;
        TreeStepCommutes(db, items, id, db.trees[id].(tables := after));
      case Evict =>
        hide TableOf, AddLast, Reached;
    }
  }

  /** A batch, or clear marker, that is journaled and not applied yet. */
  function Journaled(db: Db, b: Batch): Db {
    db.(active := db.active + [b], seqno := db.seqno + 1)
  }

  /** A background step in between leads where the same step before the write does, even when it
      flushes the very tree that is being cleared. So treating a write as one step loses no
      interleaving. */
  lemma BackgroundBetween(db: Db, items: seq<ReadItem>, cleared: seq<nat>, e: Event)
    requires Formed(db) && Background(e) && Enabled(db, e)
    ensures var b := BatchFor(db, items, cleared);
            && Formed(Step(db, e)) && Formed(Journaled(db, b)) && Enabled(Journaled(db, b), e)
            && var mid := Step(Journaled(db, b), e);
               Formed(mid) && mid.(trees := TreesAfter(mid.trees, b)) == WriteDone(Step(db, e), items, cleared)
  {
    hide TreesAfter, Compacts, CanEvict;
    var b := BatchFor(db, items, cleared);
    var mid, before := Step(Journaled(db, b), e), Step(db, e);
    assert mid == Journaled(before, b);
  }

  // ---------------------------------------------------------------------------
  // Recovery.

  lemma SameJournals(d: Disk)
    requires d.journals != []
    ensures Journals(Rebuild(d)) == d.journals
  {
    hide FoundMarks, RebuiltTrees, NextSeqno;
  }

  /** A journal's watermark covers what it holds. */
  lemma {:induction false} MarkCovers(batches: seq<Batch>, id: nat, v: Ver)
    requires v in LogOf(batches, id)
    ensures MarkIn(batches, id).Some? && v.seqno <= MarkIn(batches, id).value
  {
    var n := |batches| - 1;
    var t := TableOf(batches[n].items, id, batches[n].seqno);
    TableUniform(batches[n].items, id, batches[n].seqno);
    if v in t {
      WrittenMentions(batches[n].items, id, batches[n].seqno, v);
    } else {
      MarkCovers(batches[..n], id, v);
    }
  }

  lemma {:induction false} WrittenMentions(items: seq<ReadItem>, id: nat, seqno: nat, v: Ver)
    requires v in TableOf(items, id, seqno)
    ensures exists i :: 0 <= i < |items| && items[i].ks == id
  {
    var n := |items| - 1;
    if items[n].ks != id {
      WrittenMentions(items[..n], id, seqno, v);
      var i :| 0 <= i < n && items[..n][i].ks == id;
      assert items[i].ks == id;
    }
  }

  lemma RecoverMarks(db: Db, id: nat, i: nat)
    requires id in db.trees && i < |db.sealed| && LogsOf(Journals(db), id)[i] != map[]
    ensures var marks := PartMarks(Rebuild(DiskOf(db)).sealed, id);
            |marks| == |db.sealed| && marks[i].Some? && Highest(LogsOf(Journals(db), id)[i]).value <= marks[i].value
  {
    hide RebuiltTrees, NextSeqno, LogOf, ClearedAfter, MarkIn;
    var log := LogsOf(Journals(db), id)[i];
    var v :| v in log && v.seqno == Highest(log).value;
    MarkCovers(db.sealed[i].batches, id, v);
  }

  /** What recovery makes of one keyspace, up to its watermarks. */
  lemma RecoverIsRecovered(db: Db, newest: Newest, id: nat)
    requires Formed(db) && newest.Keys == db.trees.Keys && id in db.trees
    requires id in Rebuild(DiskOf(db)).trees && id in CrashNewest(db, newest)
    ensures Part(Rebuild(DiskOf(db)), CrashNewest(db, newest), id)
            == Recovered(Source(db, newest, id)).(marks := PartMarks(Rebuild(DiskOf(db)).sealed, id))
  {
    hide Rebuild, Recovered, PartMarks, Source, LogsOf;
    var k := Source(db, newest, id);
    SameJournals(DiskOf(db));
    RecoveredTree(db, newest, id);
    RecoveredParts(k);
    SourceLogs(db, newest, id);
  }

  lemma SourceLogs(db: Db, newest: Newest, id: nat)
    requires Formed(db) && newest.Keys == db.trees.Keys && id in db.trees
    ensures Source(db, newest, id).logs == LogsOf(Journals(db), id)
  {
    hide LogsOf, Wiped, RebuiltMarks;
  }

  lemma LogsLength(journals: seq<seq<Batch>>, id: nat)
    ensures |LogsOf(journals, id)| == |journals|
  {
  }

  lemma SourceInv(db: Db, newest: Newest, id: nat)
    requires Formed(db) && PartIn(db, newest, id)
    ensures var k := Source(db, newest, id);
            && Inv(k, db.seqno) && k.newest == newest[id] && k.logs == LogsOf(Journals(db), id)
            && |k.marks| == |db.sealed| && (Wiped(Journals(db), id) ==> Logged(k))
  {
    hide Inv, Wiped, LogsOf, RebuiltMarks, Logged;
    var k := Part(db, newest, id);
    InvShape(k, db.seqno);
    if Wiped(Journals(db), id) {
      FromLogsInv(k, db.seqno);
      LoggedSame(k, FromLogs(k));
      LogsLength(Journals(db), id);
      MarksLength(k.logs[..|k.logs| - 1]);
    }
  }

  lemma MarksLength(logs: seq<Table>)
    ensures |RebuiltMarks(logs)| == |logs|
  {
  }

  lemma LoggedSame(k: Ks, k': Ks)
    requires Logged(k) && k'.newest == k.newest && k'.logs == k.logs
    ensures Logged(k')
  {
    hide Holds;
    assert forall x :: x in k.newest ==> Top(k', x) == Top(k, x);
  }

  lemma SurvivorsBelow(db: Db, newest: Newest, id: nat, x: Key)
    requires Formed(db) && PartIn(db, newest, id) && x in Recovered(Source(db, newest, id)).newest
    ensures x in newest[id] && newest[id][x].seqno < Rebuild(DiskOf(db)).seqno
  {
    hide NextSeqno, Reached, UpTo, Inv, Wiped, Recovered, Source, PartInv, LogsOf;
    var k := Source(db, newest, id);
    SourceInv(db, newest, id);
    InvShape(k, db.seqno);
    RecoveredParts(k);
    SurvivorSeen(k, db.seqno, x);
    assert Stored(Rebuild(DiskOf(db)).trees[id], k.newest[x].seqno) by { RecoveredTree(db, newest, id); }
  }

  lemma RecoveredTree(db: Db, newest: Newest, id: nat)
    requires Formed(db) && newest.Keys == db.trees.Keys && id in db.trees
    ensures var k := Source(db, newest, id);
            id in Rebuild(DiskOf(db)).trees && Rebuild(DiskOf(db)).trees[id] == Tree(k.tables, Recovered(k).mems)
  {
    hide NextSeqno, Replayed, Survives, RebuiltMarks, RebuiltQueue, Wiped, LogsOf;
    LogsLength(Journals(db), id);
  }

  lemma CrashPart(db: Db, newest: Newest, id: nat)
    requires Formed(db) && PartIn(db, newest, id)
    requires id in Rebuild(DiskOf(db)).trees && id in CrashNewest(db, newest)
    ensures PartInv(Rebuild(DiskOf(db)), CrashNewest(db, newest), id)
  {
    hide Inv, Part, Recovered, Rebuild, CrashNewest, Wiped, Source, LogsOf, Logged;
    var k, s' := Source(db, newest, id), Rebuild(DiskOf(db)).seqno;
    SourceInv(db, newest, id);
    InvShape(k, db.seqno);
    RecoveredParts(k);
    forall x | x in Recovered(k).newest
      ensures k.newest[x].seqno < s'
    {
      SurvivorsBelow(db, newest, id, x);
    }
    RecoverInv(k, db.seqno, s');
    RecoverIsRecovered(db, newest, id);
    RecoveredMarked(db, newest, id, s');
    SameJournals(DiskOf(db));
    if Wiped(Journals(db), id) {
      RecoveredLogged(k);
      LoggedSame(Recovered(k), Recovered(k).(marks := PartMarks(Rebuild(DiskOf(db)).sealed, id)));
    }
  }

  lemma RecoveredMarked(db: Db, newest: Newest, id: nat, s': nat)
    requires Formed(db) && newest.Keys == db.trees.Keys && id in db.trees
    requires var k := Source(db, newest, id);
             && Shape(k) && k.logs == LogsOf(Journals(db), id) && |k.marks| == |db.sealed| && Inv(Recovered(k), s')
    ensures Inv(Recovered(Source(db, newest, id)).(marks := PartMarks(Rebuild(DiskOf(db)).sealed, id)), s')
  {
    hide Inv, Recovered, Rebuild, Wiped, Source, LogsOf, Highest, PartMarks;
    var k := Source(db, newest, id);
    var marks := PartMarks(Rebuild(DiskOf(db)).sealed, id);
    RecoveredParts(k);
    MarksCount(db, id);
    forall i | 0 <= i < |marks| && Recovered(k).logs[i] != map[]
      ensures marks[i].Some? && Highest(Recovered(k).logs[i]).value <= marks[i].value
    {
      RecoverMarks(db, id, i);
    }
    Remarked(Recovered(k), s', marks);
  }

  lemma MarksCount(db: Db, id: nat)
    ensures |PartMarks(Rebuild(DiskOf(db)).sealed, id)| == |db.sealed|
  {
    hide RebuiltTrees, NextSeqno, FoundMarks;
  }

  lemma CrashStep(db: Db, newest: Newest)
    requires DbInv(db, newest) && Formed(db)
    ensures DbInv(Rebuild(DiskOf(db)), CrashNewest(db, newest))
  {
    hide PartInv, Rebuild, CrashNewest;
    CrashKeys(db, newest);
    forall id | id in db.trees { CrashPart(db, newest, id); }
  }

  lemma CrashKeys(db: Db, newest: Newest)
    requires Formed(db) && newest.Keys == db.trees.Keys
    ensures Rebuild(DiskOf(db)).trees.Keys == CrashNewest(db, newest).Keys == db.trees.Keys
  {
    hide Recovered, NextSeqno, Rebuilt, LogsOf, KeptTables, Source, RebuiltQueue;
  }

  lemma KeptAfterJournal(db: Db, items: seq<ReadItem>, cleared: seq<nat>, id: nat)
    requires Formed(db) && id in db.trees
    ensures var db' := WriteDone(db, items, cleared);
            KeptTables(Disk(DiskOf(db).tables, Journals(db')), id) == KeptTables(DiskOf(db'), id)
  {
    hide LogsOf, Wiped, TableOf, AddLast;
    WriteJournals(db, items, cleared);
    AppendedLogs(Journals(db), BatchFor(db, items, cleared), id);
  }

  /** A crash after a batch was journaled is a crash after it was written: replay brings it
      back, and a clear marker wipes tables that were not cleared yet. */
  lemma CrashAfterJournal(db: Db, items: seq<ReadItem>, cleared: seq<nat>)
    requires Formed(db)
    ensures var db' := WriteDone(db, items, cleared);
            Rebuild(Disk(DiskOf(db).tables, Journals(db'))) == Rebuild(DiskOf(db'))
  {
    hide Rebuild, KeptTables, TreeAfter, Journals;
    var db' := WriteDone(db, items, cleared);
    var d, d' := Disk(DiskOf(db).tables, Journals(db')), DiskOf(db');
    JournalsSome(db');
    assert d.tables.Keys == d'.tables.Keys;
    forall id | id in d.tables
      ensures KeptTables(d, id) == KeptTables(d', id)
    {
      KeptAfterJournal(db, items, cleared, id);
    }
    SameRecovery(d, d');
  }

  lemma JournalsSome(db: Db)
    ensures Journals(db) != []
  {
  }

  lemma SameRecovery(d: Disk, d': Disk)
    requires d.journals != [] && d'.journals == d.journals && d'.tables.Keys == d.tables.Keys
    requires forall id :: id in d.tables ==> KeptTables(d, id) == KeptTables(d', id)
    ensures Rebuild(d) == Rebuild(d')
  {
    hide NextSeqno, Rebuilt, LogsOf, FoundMarks, KeptTables, RebuiltQueue;
    assert RebuiltTrees(d) == RebuiltTrees(d');
  }

  /** Every step keeps the invariant, crashes included. */
  lemma StepInv(db: Db, newest: Newest, e: Event)
    requires DbInv(db, newest) && Formed(db) && Enabled(db, e)
    ensures Formed(Step(db, e)) && DbInv(Step(db, e), StepNewest(db, newest, e))
  {
    hide DbInv, Recover, CanEvict, Compacts, WriteNewest, CrashNewest, JournalSealed, WriteDone, Storable;
    InvKeys(db, newest);
    match e {
      case Write(items, cleared) => WriteInv(db, newest, items, cleared);
      case Skip => RaiseStep(db, newest, db.seqno + 1);
      case RotateMemtable(id) => RotateMemtableStep(db, newest, id);
      case Flush(id) => FlushStep(db, newest, id);
      case Compact(id, after) => CompactStep(db, newest, id, after);
      case RotateJournal => RotateJournalStep(db, newest);
      case Evict => EvictStep(db, newest);
      case Crash =>
        CrashStep(db, newest);
        CounterRaised(DiskOf(db), CrashNewest(db, newest));
      case CrashMidWrite(items, cleared) =>
        CrashAfterJournal(db, items, cleared);
        WriteInv(db, newest, items, cleared);
        InvFormed(WriteDone(db, items, cleared), WriteNewest(db, newest, items, cleared));
        InvKeys(WriteDone(db, items, cleared), WriteNewest(db, newest, items, cleared));
        CrashStep(WriteDone(db, items, cleared), WriteNewest(db, newest, items, cleared));
        CounterRaised(Disk(DiskOf(db).tables, Journals(WriteDone(db, items, cleared))), StepNewest(db, newest, e));
    }
    InvFormed(Step(db, e), StepNewest(db, newest, e));
  }

  lemma RaiseStep(db: Db, newest: Newest, seqno: nat)
    requires DbInv(db, newest) && db.seqno <= seqno
    ensures DbInv(db.(seqno := seqno), newest)
  {
    hide Inv;
    forall id | id in db.trees
      ensures PartInv(db.(seqno := seqno), newest, id)
    {
      assert PartInv(db, newest, id);
      assert Journals(db.(seqno := seqno)) == Journals(db);
      assert Part(db.(seqno := seqno), newest, id) == Part(db, newest, id);
      SkipInv(Part(db, newest, id), db.seqno, seqno);
    }
  }

  lemma CounterRaised(d: Disk, newest: Newest)
    requires d.journals != [] && DbInv(Rebuild(d), newest)
    ensures DbInv(Recover(d), newest)
  {
    hide Rebuild, SealedSeqno, DbInv;
    RaiseStep(Rebuild(d), newest, Recover(d).seqno);
  }

  // ---------------------------------------------------------------------------
  // Lookups against the history of writes.

  ghost function Get(db: Db, id: nat, x: Key): Option<Value> {
    if id in db.trees then ViewOf(db.trees[id].tables + Union(db.trees[id].mems), x) else None
  }

  function StepHistory(db: Db, history: seq<Batch>, e: Event): seq<Batch> {
    match e
    case Write(items, cleared) => history + [BatchFor(db, items, cleared)]
    case CrashMidWrite(items, cleared) => history + [BatchFor(db, items, cleared)]
    case _ => history
  }

  function Answer(newest: Newest, id: nat, x: Key): Option<Value> {
    if id in newest && x in newest[id] then newest[id][x].value else None
  }

  ghost predicate Answers(newest: Newest, history: seq<Batch>) {
    forall id, x :: id in newest ==> Answer(newest, id, x) == LastWrite(history, id, x)
  }

  lemma WriteAnswer(db: Db, newest: Newest, history: seq<Batch>, items: seq<ReadItem>, cleared: seq<nat>, id: nat, x: Key)
    requires newest.Keys == db.trees.Keys && Formed(db) && id in newest && Answer(newest, id, x) == LastWrite(history, id, x)
    ensures Answer(WriteNewest(db, newest, items, cleared), id, x) == LastWrite(history + [BatchFor(db, items, cleared)], id, x)
  {
    hide TableOf, Put, Journals, LogsOf, PartMarks, LastItem;
    var history' := history + [BatchFor(db, items, cleared)];
    TableHoldsLast(items, id, db.seqno, x);
    TableUniform(items, id, db.seqno);
    PutNewest(Part(db, newest, id), TableOf(items, id, db.seqno), db.seqno, x);
    assert history'[..|history|] == history;
  }

  lemma WriteAnswers(db: Db, newest: Newest, history: seq<Batch>, items: seq<ReadItem>, cleared: seq<nat>)
    requires newest.Keys == db.trees.Keys && Formed(db) && Answers(newest, history)
    ensures Answers(WriteNewest(db, newest, items, cleared), history + [BatchFor(db, items, cleared)])
  {
    hide Answer, LastWrite, Part, Put, TableOf;
    forall id, x | id in newest
      ensures Answer(WriteNewest(db, newest, items, cleared), id, x) == LastWrite(history + [BatchFor(db, items, cleared)], id, x)
    {
      WriteAnswer(db, newest, history, items, cleared, id, x);
    }
  }

  lemma CrashAnswer(db: Db, newest: Newest, id: nat, x: Key)
    requires Formed(db) && PartIn(db, newest, id)
    ensures Answer(CrashNewest(db, newest), id, x) == Answer(newest, id, x)
  {
    hide Source, Recovered, Survives, Inv, PartInv, Wiped, LogsOf;
    var k := Source(db, newest, id);
    SourceInv(db, newest, id);
    InvShape(k, db.seqno);
    RecoveredParts(k);
    if x in k.newest && !Survives(k, x) {
      LostDeleted(k, db.seqno, x);
    }
  }

  lemma CrashAnswers(db: Db, newest: Newest, history: seq<Batch>)
    requires DbInv(db, newest) && Formed(db) && Answers(newest, history)
    ensures Answers(CrashNewest(db, newest), history)
  {
    hide PartInv, Source, Recovered, LastWrite, Answer;
    forall id, x | id in newest { CrashAnswer(db, newest, id, x); }
  }

  lemma LostDeleted(k: Ks, s: nat, x: Key)
    requires Inv(k, s) && x in k.newest && !Survives(k, x)
    ensures k.newest[x].value == None
  {
    hide Survives;
    LostIsDeleted(k, x);
  }

  lemma StepAnswers(db: Db, newest: Newest, history: seq<Batch>, e: Event)
    requires DbInv(db, newest) && Formed(db) && Enabled(db, e) && Answers(newest, history)
    ensures Answers(StepNewest(db, newest, e), StepHistory(db, history, e))
  {
    hide DbInv, Answers, WriteNewest, CrashNewest, WriteDone, Enabled;
    InvKeys(db, newest);
    match e {
      case Write(items, cleared) => WriteAnswers(db, newest, history, items, cleared);
      case Crash => CrashAnswers(db, newest, history);
      case CrashMidWrite(items, cleared) =>
        WriteAnswers(db, newest, history, items, cleared);
        WriteInv(db, newest, items, cleared);
        InvFormed(WriteDone(db, items, cleared), WriteNewest(db, newest, items, cleared));
        InvKeys(WriteDone(db, items, cleared), WriteNewest(db, newest, items, cleared));
        CrashAnswers(WriteDone(db, items, cleared), WriteNewest(db, newest, items, cleared), history + [BatchFor(db, items, cleared)]);
      case _ =>
    }
  }

  lemma GetIsAnswer(db: Db, newest: Newest, id: nat, x: Key)
    requires DbInv(db, newest)
    ensures Get(db, id, x) == Answer(newest, id, x)
  {
    if id in db.trees {
      assert PartInv(db, newest, id);
      LookupNewest(Part(db, newest, id), db.seqno, x);
    }
  }

  lemma LookupNewest(k: Ks, s: nat, x: Key)
    requires Inv(k, s)
    ensures Lookup(k, x) == if x in k.newest then k.newest[x].value else None
  {
    LookupIsNewest(k, s, x);
  }

  // ---------------------------------------------------------------------------
  // All runs.

  /** A database with empty keyspaces. */
  function Start(ids: set<nat>): Db {
    Db(map id | id in ids :: Tree(map[], [map[]]), [], [], 0)
  }

  /** The states of a run: `trace[i + 1]` follows `trace[i]` by `events[i]`. */
  ghost predicate IsRun(trace: seq<Db>, events: seq<Event>) {
    && |trace| == |events| + 1
    && forall i :: 0 <= i < |events| ==> Formed(trace[i]) && Enabled(trace[i], events[i]) && trace[i + 1] == Step(trace[i], events[i])
  }

  /** The batches journaled during a run, those completed just before a crash included. */
  function HistoryOf(trace: seq<Db>, events: seq<Event>): seq<Batch>
    requires |trace| == |events| + 1
  {
    if events == [] then []
    else
      var n := |events| - 1;
      StepHistory(trace[n], HistoryOf(trace[..n + 1], events[..n]), events[n])
  }

  lemma StartInv(ids: set<nat>)
    ensures DbInv(Start(ids), map id | id in ids :: map[]) && Formed(Start(ids))
    ensures Answers(map id | id in ids :: map[], [])
  {
    var db := Start(ids);
    var newest: Newest := map id | id in ids :: map[];
    forall id | id in ids
      ensures PartInv(db, newest, id)
    {
      assert Journals(db) == [[]];
      EmptyInv(Part(db, newest, id));
    }
  }

  lemma EmptyInv(k: Ks)
    requires k.tables == map[] && k.mems == [map[]] && k.logs == [map[]] && k.marks == [] && k.newest == map[]
    ensures Inv(k, 0)
  {
  }

  lemma {:induction false} RunInv(ids: set<nat>, trace: seq<Db>, events: seq<Event>) returns (newest: Newest)
    requires IsRun(trace, events) && trace[0] == Start(ids)
    ensures DbInv(trace[|events|], newest) && Formed(trace[|events|]) && Answers(newest, HistoryOf(trace, events))
    ensures newest.Keys == ids
  {
    hide DbInv, Answers, Step, Enabled, Formed, StepHistory;
    if events == [] {
      StartInv(ids);
      newest := map id | id in ids :: map[];
    } else {
      var n := |events| - 1;
      assert IsRun(trace[..n + 1], events[..n]);
      var before := RunInv(ids, trace[..n + 1], events[..n]);
      InvKeys(trace[n], before);
      StepInv(trace[n], before, events[n]);
      StepAnswers(trace[n], before, HistoryOf(trace[..n + 1], events[..n]), events[n]);
      newest := StepNewest(trace[n], before, events[n]);
    }
  }

  lemma InvKeys(db: Db, newest: Newest)
    requires DbInv(db, newest)
    ensures newest.Keys == db.trees.Keys
  {
  }

  /** Over every run with any number of clears and crashes, every lookup returns the last
      journaled write of the key since its keyspace was last cleared, and every stored sequence
      number lies below the counter. */
  lemma RunsKeepNewest(ids: set<nat>, trace: seq<Db>, events: seq<Event>, id: nat, x: Key)
    requires IsRun(trace, events) && trace[0] == Start(ids) && id in ids
    ensures Get(trace[|events|], id, x) == LastWrite(HistoryOf(trace, events), id, x)
    ensures forall s: nat :: id in trace[|events|].trees && Stored(trace[|events|].trees[id], s) ==> s < trace[|events|].seqno
  {
    hide Step, Enabled, Formed, HistoryOf, LastWrite, Get, Answers;
    var newest := RunInv(ids, trace, events);
    var db := trace[|events|];
    GetIsAnswer(db, newest, id, x);
    AnswerIsLast(newest, HistoryOf(trace, events), id, x);
    hide Inv;
    assert PartInv(db, newest, id);
    StoredBelow(Part(db, newest, id), db.seqno);
  }

  /** Over every run, the batch that last said something about a key decides every lookup of it:
      its value if it set one, nothing if it removed the key or cleared the keyspace. */
  lemma RunsAnswerByItems(ids: set<nat>, trace: seq<Db>, events: seq<Event>, n: nat, id: nat, x: Key)
    requires IsRun(trace, events) && trace[0] == Start(ids) && id in ids
    requires var history := HistoryOf(trace, events); n < |history| && forall m :: n < m < |history| ==> Silent(history[m], id, x)
    ensures forall value :: Sets(HistoryOf(trace, events)[n], id, x, value) ==> Get(trace[|events|], id, x) == Some(value)
    ensures Removes(HistoryOf(trace, events)[n], id, x) ==> Get(trace[|events|], id, x) == None
  {
    hide Step, Enabled, Formed, HistoryOf, LastWrite, Get, Sets, Removes, Silent;
    RunsKeepNewest(ids, trace, events, id, x);
    LastWriteDecided(HistoryOf(trace, events), n, id, x);
  }

  /** One write after any run: it decides the keys it names and leaves all others as they were. */
  lemma WriteDecides(ids: set<nat>, trace: seq<Db>, events: seq<Event>, id: nat, x: Key)
    requires IsRun(trace, events) && trace[0] == Start(ids) && id in ids && events != []
    requires var e := events[|events| - 1]; e.Write? || e.CrashMidWrite?
    ensures var n := |events| - 1; var b := BatchFor(trace[n], events[n].items, events[n].cleared);
            && (forall value :: Sets(b, id, x, value) ==> Get(trace[n + 1], id, x) == Some(value))
            && (Removes(b, id, x) ==> Get(trace[n + 1], id, x) == None)
            && (Silent(b, id, x) ==> Get(trace[n + 1], id, x) == Get(trace[n], id, x))
  {
    hide Step, Enabled, Formed, LastWrite, Get, Sets, Removes, Silent;
    var n := |events| - 1;
    var b := BatchFor(trace[n], events[n].items, events[n].cleared);
    var before := HistoryOf(trace[..n + 1], events[..n]);
    assert HistoryOf(trace, events) == before + [b];
    assert (before + [b])[|before|] == b && (before + [b])[..|before|] == before;
    RunsKeepNewest(ids, trace, events, id, x);
    RunsKeepNewest(ids, trace[..n + 1], events[..n], id, x);
    LastWriteDecided(before + [b], |before|, id, x);
    if Silent(b, id, x) {
      SilentSince(before + [b], |before|, id, x);
    }
  }

  lemma AnswerIsLast(newest: Newest, history: seq<Batch>, id: nat, x: Key)
    requires Answers(newest, history) && id in newest
    ensures Answer(newest, id, x) == LastWrite(history, id, x)
  {
  }

  lemma StoredBelow(k: Ks, s: nat)
    requires Inv(k, s)
    ensures forall r: nat :: Stored(Tree(k.tables, k.mems), r) ==> r < s
  {
    AllBelow(k, s);
  }

  /** Recovering from a crash in any reachable state changes no lookup, whether or not the
      memtables had already taken in the last journaled batch. */
  lemma CrashChangesNothing(ids: set<nat>, trace: seq<Db>, events: seq<Event>, id: nat, x: Key)
    requires IsRun(trace, events) && trace[0] == Start(ids) && id in ids
    ensures Get(Recover(DiskOf(trace[|events|])), id, x) == Get(trace[|events|], id, x)
  {
    hide Step, Enabled, Formed, HistoryOf, LastWrite, Get, DbInv, Recover, CrashNewest, Answers;
    var newest := RunInv(ids, trace, events);
    var db := trace[|events|];
    InvKeys(db, newest);
    CrashStep(db, newest);
    CounterRaised(DiskOf(db), CrashNewest(db, newest));
    GetIsAnswer(db, newest, id, x);
    GetIsAnswer(Recover(DiskOf(db)), CrashNewest(db, newest), id, x);
    CrashAnswers(db, newest, HistoryOf(trace, events));
    InvKeys(Recover(DiskOf(db)), CrashNewest(db, newest));
    SameKeyspaces(db);
    AnswerIsLast(newest, HistoryOf(trace, events), id, x);
    AnswerIsLast(CrashNewest(db, newest), HistoryOf(trace, events), id, x);
  }

  lemma SameKeyspaces(db: Db)
    ensures Recover(DiskOf(db)).trees.Keys == db.trees.Keys
  {
  }
}
