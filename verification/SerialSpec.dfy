/** The reference: transactions executed one at a time on a plain map. */
module SerialSpec {
  import opened Bytes

  datatype Cell = Cell(ks: nat, key: Key)

  type Db = map<Cell, Value>

  /** Pending writes; `None` is a deletion. */
  type Patch = map<Cell, Option<Value>>

  function Lookup(db: Db, c: Cell): Option<Value> {
    if c in db then Some(db[c]) else None
  }

  function Patched(db: Db, p: Patch): Db {
    map c | c in db.Keys + p.Keys && (c in p ==> p[c].Some?) :: if c in p then p[c].value else db[c]
  }

  function Window(db: Db, ks: nat, start: Bound, end: Bound): Db {
    map c | c in db && c.ks == ks && InRange(start, end, c.key) :: db[c]
  }

  /** One operation of a transaction together with what it returned. `Kept` is an update that
      left its cell as it was. */
  datatype Op =
    | Got(cell: Cell, seen: Option<Value>)
    | Checked(cell: Cell, present: bool)
    | Measured(cell: Cell, size: Option<nat>)
    | Scanned(ks: nat, start: Bound, end: Bound, found: Db)
    | Put(cell: Cell, value: Option<Value>)
    | Kept(cell: Cell)

  function Size(v: Option<Value>): Option<nat> {
    match v
    case Some(bytes) => Some(|bytes|)
    case None => None
  }

  /** The operation returns what it should on a database holding `view`. */
  predicate Justified(op: Op, view: Db) {
    match op
    case Got(c, seen) => seen == Lookup(view, c)
    case Checked(c, present) => present == Lookup(view, c).Some?
    case Measured(c, size) => size == Size(Lookup(view, c))
    case Scanned(ks, start, end, found) => found == Window(view, ks, start, end)
    case Put(_, _) => true
    case Kept(_) => true
  }

  /** The net effect of a transaction's operations: the last write of each cell. */
  function Writes(ops: seq<Op>): Patch {
    if ops == [] then map[]
    else
      var n := |ops| - 1;
      if ops[n].Put? then Writes(ops[..n])[ops[n].cell := ops[n].value] else Writes(ops[..n])
  }

  predicate JustifiedAt(ops: seq<Op>, i: nat, db: Db)
    requires i < |ops|
  {
    Justified(ops[i], Patched(db, Writes(ops[..i])))
  }

  /** Running `ops` alone on `db`, each operation sees `db` overlaid with the
      transaction's own earlier writes. */
  predicate Explained(ops: seq<Op>, db: Db) {
    forall i :: 0 <= i < |ops| ==> JustifiedAt(ops, i, db)
  }

  /** The same, leaving size queries out. */
  predicate ExplainedButSizes(ops: seq<Op>, db: Db) {
    forall i :: 0 <= i < |ops| && !ops[i].Measured? ==> JustifiedAt(ops, i, db)
  }

  lemma WritesAppend(ops: seq<Op>, op: Op)
    ensures Writes(ops + [op]) == if op.Put? then Writes(ops)[op.cell := op.value] else Writes(ops)
  {
    assert (ops + [op])[..|ops|] == ops;
  }

  lemma ExplainedAppend(ops: seq<Op>, op: Op, db: Db)
    requires Explained(ops, db) && Justified(op, Patched(db, Writes(ops)))
    ensures Explained(ops + [op], db)
  {
    var all := ops + [op];
    forall i | 0 <= i < |all|
      ensures JustifiedAt(all, i, db)
    {
      assert all[..i] == ops[..i];
      if i < |ops| {
        assert JustifiedAt(ops, i, db);
      } else {
        assert ops[..i] == ops;
      }
    }
  }

  lemma LookupPatched(db: Db, p: Patch, c: Cell)
    ensures Lookup(Patched(db, p), c) == if c in p then p[c] else Lookup(db, c)
  {
  }

  /** What an operation returns depends only on the cells it reads. */
  predicate Touches(op: Op, c: Cell) {
    match op
    case Got(cell, _) => c == cell
    case Checked(cell, _) => c == cell
    case Measured(cell, _) => c == cell
    case Scanned(ks, start, end, _) => c.ks == ks && InRange(start, end, c.key)
    case Put(_, _) => false
    case Kept(_) => false
  }

  lemma JustifiedElsewhere(op: Op, a: Db, b: Db)
    requires Justified(op, a)
    requires forall c :: Touches(op, c) ==> Lookup(a, c) == Lookup(b, c)
    ensures Justified(op, b)
  {
    match op
    case Scanned(ks, start, end, found) =>
      forall c
        ensures c in Window(a, ks, start, end) <==> c in Window(b, ks, start, end)
        ensures c in Window(a, ks, start, end) ==> Window(a, ks, start, end)[c] == Window(b, ks, start, end)[c]
      {
        if c.ks == ks && InRange(start, end, c.key) {
          assert Touches(op, c);
          assert Lookup(a, c) == Lookup(b, c);
        }
      }
      assert Window(a, ks, start, end) == Window(b, ks, start, end);
    case Got(c, _) => assert Touches(op, c);
    case Checked(c, _) => assert Touches(op, c);
    case Measured(c, _) => assert Touches(op, c);
    case _ =>
  }

  // ---------------------------------------------------------------------------
  // A serial history.

  /** A committed transaction, with the instant of the snapshot it read from. */
  datatype Commit = Commit(seqno: nat, instant: nat, ops: seq<Op>)

  function DbAfter(log: seq<Commit>): Db {
    if log == [] then map[]
    else
      var n := |log| - 1;
      Patched(DbAfter(log[..n]), Writes(log[n].ops))
  }

  /** The commits visible at an instant: those with a smaller sequence number. */
  function Prefix(log: seq<Commit>, instant: nat): seq<Commit> {
    if log == [] || log[|log| - 1].seqno < instant then log
    else Prefix(log[..|log| - 1], instant)
  }

  function DbAt(log: seq<Commit>, instant: nat): Db {
    DbAfter(Prefix(log, instant))
  }

  /** `log` is a serial execution: every transaction's observations are those of
      running it alone after all its predecessors. */
  predicate Serial(log: seq<Commit>) {
    forall j :: 0 <= j < |log| ==> ExplainedButSizes(log[j].ops, DbAfter(log[..j]))
  }

  lemma DbAfterAppend(log: seq<Commit>, e: Commit)
    ensures DbAfter(log + [e]) == Patched(DbAfter(log), Writes(e.ops))
  {
    assert (log + [e])[..|log|] == log;
  }

  lemma SerialAppend(log: seq<Commit>, e: Commit)
    requires Serial(log) && ExplainedButSizes(e.ops, DbAfter(log))
    ensures Serial(log + [e])
  {
    var all := log + [e];
    forall j | 0 <= j < |all|
      ensures ExplainedButSizes(all[j].ops, DbAfter(all[..j]))
    {
      assert all[..j] == log[..j];
      assert log[..|log|] == log;
    }
  }

  lemma PrefixFull(log: seq<Commit>, instant: nat)
    requires forall j :: 0 <= j < |log| ==> log[j].seqno < instant
    ensures Prefix(log, instant) == log
  {
  }

  lemma PrefixAppend(log: seq<Commit>, e: Commit, instant: nat)
    ensures Prefix(log + [e], instant) == if e.seqno < instant then log + [e] else Prefix(log, instant)
  {
    assert (log + [e])[..|log|] == log;
  }

  /** A cell that no later commit wrote keeps its snapshot value. */
  lemma {:induction false} UnwrittenSince(log: seq<Commit>, instant: nat, c: Cell)
    requires forall j :: 0 <= j < |log| && log[j].seqno >= instant ==> c !in Writes(log[j].ops)
    ensures Lookup(DbAfter(log), c) == Lookup(DbAt(log, instant), c)
  {
    if log != [] && log[|log| - 1].seqno >= instant {
      var n := |log| - 1;
      UnwrittenSince(log[..n], instant, c);
      LookupPatched(DbAfter(log[..n]), Writes(log[n].ops), c);
    }
  }

  /** A transaction explained at its snapshot is explained at the end of the log,
      provided no commit since the snapshot wrote a cell it read. */
  lemma StillExplained(ops: seq<Op>, log: seq<Commit>, instant: nat)
    requires Explained(ops, DbAt(log, instant))
    requires forall i, j, c ::
               (0 <= i < |ops| && !ops[i].Measured? && 0 <= j < |log| && log[j].seqno >= instant && Touches(ops[i], c)) ==>
                 c !in Writes(log[j].ops)
    ensures ExplainedButSizes(ops, DbAfter(log))
  {
    forall i | 0 <= i < |ops| && !ops[i].Measured?
      ensures JustifiedAt(ops, i, DbAfter(log))
    {
      var own := Writes(ops[..i]);
      assert JustifiedAt(ops, i, DbAt(log, instant));
      forall c | Touches(ops[i], c)
        ensures Lookup(Patched(DbAt(log, instant), own), c) == Lookup(Patched(DbAfter(log), own), c)
      {
        UnwrittenSince(log, instant, c);
        LookupPatched(DbAt(log, instant), own, c);
        LookupPatched(DbAfter(log), own, c);
      }
      JustifiedElsewhere(ops[i], Patched(DbAt(log, instant), own), Patched(DbAfter(log), own));
    }
  }

  // ---------------------------------------------------------------------------
  // Size queries.

  /** Query `i` asked for the size of a cell that the transaction had not written itself. */
  predicate AsksOutside(ops: seq<Op>, i: nat)
    requires i < |ops|
  {
    ops[i].Measured? && ops[i].cell !in Writes(ops[..i])
  }

  predicate SameSizes(ops: seq<Op>, a: Db, b: Db) {
    forall i :: 0 <= i < |ops| && AsksOutside(ops, i) ==> Size(Lookup(a, ops[i].cell)) == Size(Lookup(b, ops[i].cell))
  }

  /** Moving a transaction from `a` to `b` keeps its size queries right exactly when the cells
      it measured have the same sizes in both. */
  lemma SizesExact(ops: seq<Op>, a: Db, b: Db)
    requires Explained(ops, a) && ExplainedButSizes(ops, b)
    ensures Explained(ops, b) <==> SameSizes(ops, a, b)
  {
    forall i | 0 <= i < |ops| && ops[i].Measured?
      ensures JustifiedAt(ops, i, b) <==>
              (AsksOutside(ops, i) ==> Size(Lookup(a, ops[i].cell)) == Size(Lookup(b, ops[i].cell)))
    {
      assert JustifiedAt(ops, i, a);
      LookupPatched(a, Writes(ops[..i]), ops[i].cell);
      LookupPatched(b, Writes(ops[..i]), ops[i].cell);
    }
    if SameSizes(ops, a, b) {
      assert forall i :: 0 <= i < |ops| ==> JustifiedAt(ops, i, b);
    } else {
      var i :| 0 <= i < |ops| && AsksOutside(ops, i) && Size(Lookup(a, ops[i].cell)) != Size(Lookup(b, ops[i].cell));
      assert !JustifiedAt(ops, i, b);
    }
  }

  /** Every committed transaction saw exactly its snapshot, sizes included. */
  predicate SawSnapshots(log: seq<Commit>) {
    forall j :: 0 <= j < |log| ==>
      log[j].instant <= log[j].seqno && Explained(log[j].ops, DbAt(log[..j], log[j].instant))
  }

  lemma SawAppend(log: seq<Commit>, e: Commit)
    requires SawSnapshots(log) && e.instant <= e.seqno && Explained(e.ops, DbAt(log, e.instant))
    ensures SawSnapshots(log + [e])
  {
    hide Explained;
    var all := log + [e];
    forall j | 0 <= j < |all|
      ensures all[j].instant <= all[j].seqno && Explained(all[j].ops, DbAt(all[..j], all[j].instant))
    {
      assert all[..j] == log[..j];
      assert log[..|log|] == log;
    }
  }
}
