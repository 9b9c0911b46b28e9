/** One keyspace as the journal sees it: tables on disk, memtables in memory, and the part of
    each journal that belongs to the keyspace. */
module KeyspaceLog {
  import opened Bytes

  datatype Ver = Ver(key: Key, seqno: nat)

  /** Versions by key and sequence number; `None` is a tombstone. */
  type Table = map<Ver, Option<Value>>

  datatype Stamp = Stamp(seqno: nat, value: Option<Value>)

  /** `mems` are the memtables oldest first, the last one active. `logs` are the keyspace's
      parts of the journals oldest first, the last one active, and `marks` the eviction
      watermarks of the sealed ones. `newest` is each key's last surviving write. */
  datatype Ks = Ks(tables: Table, mems: seq<Table>, logs: seq<Table>, marks: seq<Option<nat>>, newest: map<Key, Stamp>)

  ghost predicate HasKey(t: Table, x: Key) {
    exists s: nat :: Ver(x, s) in t
  }

  ghost predicate IsTop(t: Table, x: Key, s: nat) {
    Ver(x, s) in t && forall r: nat :: Ver(x, r) in t ==> r <= s
  }

  /** What a lookup in the versions `t` returns. */
  ghost function ViewOf(t: Table, x: Key): Option<Value> {
    if exists s :: IsTop(t, x, s) then
      var s: nat :| IsTop(t, x, s);
      t[Ver(x, s)]
    else None
  }

  function Union(ts: seq<Table>): Table {
    if ts == [] then map[] else Union(ts[..|ts| - 1]) + ts[|ts| - 1]
  }

  /** A lookup consults all memtables and the tables. */
  ghost function Lookup(k: Ks, x: Key): Option<Value> {
    ViewOf(k.tables + Union(k.mems), x)
  }

  /** The highest sequence number in a set of versions. */
  ghost function Highest(t: Table): (h: Option<nat>)
    ensures h.None? <==> t == map[]
    ensures h.Some? ==> (exists v :: v in t && v.seqno == h.value) && forall v :: v in t ==> v.seqno <= h.value
  {
    if t == map[] then None
    else
      var v :| v in t;
      var rest := Highest(t - {v});
      assert forall u :: u in t <==> u in t - {v} || u == v;
      if rest.Some? && rest.value > v.seqno then rest else Some(v.seqno)
  }

  /** The tables hold a version at or above `s`: the persisted sequence number reached `s`. */
  ghost predicate Reached(tables: Table, s: nat) {
    exists v :: v in tables && s <= v.seqno
  }

  lemma ReachedIsHighest(tables: Table, s: nat)
    ensures Reached(tables, s) <==> Highest(tables).Some? && s <= Highest(tables).value
  {
  }

  // ---------------------------------------------------------------------------
  // The invariant.

  predicate Bounded(t: Table, newest: map<Key, Stamp>) {
    forall v :: v in t ==>
      v.key in newest && v.seqno <= newest[v.key].seqno && (v.seqno == newest[v.key].seqno ==> t[v] == newest[v.key].value)
  }

  /** Sequence numbers rise from table to table. */
  predicate Ordered(ts: seq<Table>) {
    forall i, j, a, b :: 0 <= i < j < |ts| && a in ts[i] && b in ts[j] ==> a.seqno < b.seqno
  }

  function Top(k: Ks, x: Key): Ver
    requires x in k.newest
  {
    Ver(x, k.newest[x].seqno)
  }

  ghost predicate Absent(ts: seq<Table>, x: Key) {
    forall j :: 0 <= j < |ts| ==> !HasKey(ts[j], x)
  }

  predicate Holds(ts: seq<Table>, v: Ver) {
    exists j :: 0 <= j < |ts| && v in ts[j]
  }

  /** The tables alone give the right answer for `x`; a tombstone may have been reclaimed. */
  ghost predicate Settled(k: Ks, x: Key)
    requires x in k.newest
  {
    Top(k, x) in k.tables || (k.newest[x].value == None && !HasKey(k.tables, x))
  }

  /** A memtable that knows `x` at all knows its newest version. */
  ghost predicate Current(k: Ks, x: Key)
    requires x in k.newest
  {
    forall j :: 0 <= j < |k.mems| && HasKey(k.mems[j], x) ==> Top(k, x) in k.mems[j]
  }

  predicate Shape(k: Ks) {
    |k.mems| >= 1 && |k.logs| >= 1 && |k.marks| == |k.logs| - 1
  }

  predicate AllBounded(k: Ks, seqno: nat) {
    && Bounded(k.tables, k.newest)
    && (forall j :: 0 <= j < |k.mems| ==> Bounded(k.mems[j], k.newest))
    && (forall i :: 0 <= i < |k.logs| ==> Bounded(k.logs[i], k.newest))
    && (forall x :: x in k.newest ==> k.newest[x].seqno < seqno)
  }

  /** Everything at or below the persisted sequence number is answered by the tables. */
  ghost predicate PersistedSettled(k: Ks) {
    forall x :: x in k.newest && Reached(k.tables, k.newest[x].seqno) ==> Settled(k, x) && Current(k, x)
  }

  /** The newest version is in memory, or the key is only in the tables. */
  ghost predicate Visible(k: Ks) {
    forall x :: x in k.newest ==> Holds(k.mems, Top(k, x)) || (Settled(k, x) && Absent(k.mems, x))
  }

  /** The newest version is in the journals, or the journals have forgotten the key and the
      tables answer for it. */
  ghost predicate Durable(k: Ks) {
    forall x :: x in k.newest ==>
      Holds(k.logs, Top(k, x)) || (Settled(k, x) && Current(k, x) && Absent(k.logs, x))
  }

  /** A journal's watermark covers its newest versions; without one the keyspace had nothing in
      memory when the journal was sealed. */
  ghost predicate MarksCover(k: Ks)
    requires Shape(k)
  {
    forall i, x :: 0 <= i < |k.marks| && x in k.newest && Top(k, x) in k.logs[i] ==>
      match k.marks[i]
      case Some(m) => k.newest[x].seqno <= m
      case None => Absent(k.mems, x)
  }

  /** Unless memory is empty, it reaches as far as the journals. */
  ghost predicate MemoryReaches(k: Ks) {
    AllEmpty(k.mems) || forall i, v :: 0 <= i < |k.logs| && v in k.logs[i] ==> UpTo(k.mems, v.seqno)
  }

  predicate AllEmpty(ts: seq<Table>) {
    forall j :: 0 <= j < |ts| ==> ts[j] == map[]
  }

  ghost predicate UpTo(ts: seq<Table>, s: nat) {
    exists j, u :: 0 <= j < |ts| && u in ts[j] && s <= u.seqno
  }

  ghost predicate Inv(k: Ks, seqno: nat) {
    && Shape(k) && AllBounded(k, seqno) && Ordered(k.mems) && Ordered(k.logs)
    && PersistedSettled(k) && Visible(k) && Durable(k) && MarksCover(k) && MemoryReaches(k)
  }

  // ---------------------------------------------------------------------------
  // Lookups.

  lemma {:induction false} UnionMembers(ts: seq<Table>, v: Ver)
    ensures v in Union(ts) <==> Holds(ts, v)
  {
    if ts != [] {
      var n := |ts| - 1;
      UnionMembers(ts[..n], v);
      if j :| 0 <= j < n && v in ts[..n][j] {
        assert v in ts[j];
      }
      if j :| 0 <= j < |ts| && v in ts[j] && j < n {
        assert v in ts[..n][j];
      }
    }
  }

  lemma {:induction false} UnionValue(ts: seq<Table>, v: Ver)
    requires v in Union(ts)
    ensures exists j :: 0 <= j < |ts| && v in ts[j] && Union(ts)[v] == ts[j][v]
  {
    var n := |ts| - 1;
    if v !in ts[n] {
      UnionValue(ts[..n], v);
      var j :| 0 <= j < n && v in ts[..n][j] && Union(ts[..n])[v] == ts[..n][j][v];
      assert v in ts[j];
    }
  }

  lemma ViewIsTop(t: Table, x: Key, s: nat)
    requires IsTop(t, x, s)
    ensures ViewOf(t, x) == t[Ver(x, s)]
  {
    forall r: nat | IsTop(t, x, r)
      ensures r == s
    {
      assert Ver(x, r) in t && Ver(x, s) in t;
    }
  }

  /** Lookups return each key's newest write, and nothing for keys never written. */
  lemma LookupIsNewest(k: Ks, seqno: nat, x: Key)
    requires AllBounded(k, seqno) && Visible(k)
    ensures Lookup(k, x) == if x in k.newest then k.newest[x].value else None
  {
    hide Settled, Absent, Union;
    var all := k.tables + Union(k.mems);
    AllVersionsBounded(k, seqno);
    if x in k.newest {
      var s := k.newest[x].seqno;
      UnionMembers(k.mems, Ver(x, s));
      if Ver(x, s) in all {
        assert IsTop(all, x, s);
        ViewIsTop(all, x, s);
      } else {
        NothingStored(k, x);
      }
    } else {
      assert forall s: nat :: !IsTop(all, x, s);
    }
  }

  lemma AllVersionsBounded(k: Ks, seqno: nat)
    requires AllBounded(k, seqno)
    ensures Bounded(k.tables + Union(k.mems), k.newest)
  {
    forall v | v in Union(k.mems)
      ensures v.key in k.newest && v.seqno <= k.newest[v.key].seqno
      ensures v.seqno == k.newest[v.key].seqno ==> Union(k.mems)[v] == k.newest[v.key].value
    {
      UnionValue(k.mems, v);
    }
  }

  lemma NothingStored(k: Ks, x: Key)
    requires x in k.newest && Settled(k, x) && Absent(k.mems, x) && Top(k, x) !in k.tables
    ensures ViewOf(k.tables + Union(k.mems), x) == None && k.newest[x].value == None
  {
    forall s: nat
      ensures Ver(x, s) !in k.tables + Union(k.mems)
    {
      UnionMembers(k.mems, Ver(x, s));
    }
    assert forall s: nat :: !IsTop(k.tables + Union(k.mems), x, s);
  }

  // ---------------------------------------------------------------------------
  // Writing.

  /** All versions of `t` carry sequence number `s`: one batch's writes to this keyspace. */
  predicate Uniform(t: Table, s: nat) {
    forall v :: v in t ==> v.seqno == s
  }

  function KeysOf(t: Table): set<Key> {
    set v | v in t :: v.key
  }

  function AddLast(ts: seq<Table>, t: Table): seq<Table>
    requires ts != []
  {
    ts[|ts| - 1 := ts[|ts| - 1] + t]
  }

  /** A batch goes to the active journal, then to the active memtable. */
  function Put(k: Ks, t: Table, s: nat): Ks
    requires Shape(k) && Uniform(t, s)
  {
    k.(mems := AddLast(k.mems, t), logs := AddLast(k.logs, t),
       newest := k.newest + map x | x in KeysOf(t) :: Stamp(s, t[Ver(x, s)]))
  }

  lemma PutNewest(k: Ks, t: Table, s: nat, x: Key)
    requires Shape(k) && Uniform(t, s)
    ensures x in Put(k, t, s).newest <==> x in k.newest || Ver(x, s) in t
    ensures Ver(x, s) in t ==> Put(k, t, s).newest[x] == Stamp(s, t[Ver(x, s)])
    ensures Ver(x, s) !in t && x in k.newest ==> Put(k, t, s).newest[x] == k.newest[x]
  {
    assert x in KeysOf(t) <==> Ver(x, s) in t;
  }

  lemma PutBounded(k: Ks, t: Table, s: nat, u: Table)
    requires Shape(k) && Uniform(t, s) && Bounded(u, k.newest) && forall x :: x in k.newest ==> k.newest[x].seqno < s
    ensures Bounded(u, Put(k, t, s).newest) && Bounded(u + t, Put(k, t, s).newest)
  {
    forall v | v in u + t
      ensures v.key in Put(k, t, s).newest && v.seqno <= Put(k, t, s).newest[v.key].seqno
      ensures v.seqno == Put(k, t, s).newest[v.key].seqno ==> (u + t)[v] == Put(k, t, s).newest[v.key].value
    {
      PutNewest(k, t, s, v.key);
    }
  }

  lemma PutAllBounded(k: Ks, t: Table, s: nat)
    requires Shape(k) && Uniform(t, s) && AllBounded(k, s)
    ensures AllBounded(Put(k, t, s), s + 1)
  {
    hide Put, Bounded;
    var k' := Put(k, t, s);
    PutBounded(k, t, s, k.tables);
    forall j | 0 <= j < |k.mems| { PutBounded(k, t, s, k.mems[j]); }
    forall i | 0 <= i < |k.logs| { PutBounded(k, t, s, k.logs[i]); }
    PutParts(k, t, s);
    forall x | x in k'.newest
      ensures k'.newest[x].seqno < s + 1
    {
      PutNewest(k, t, s, x);
    }
  }

  lemma PutParts(k: Ks, t: Table, s: nat)
    requires Shape(k) && Uniform(t, s)
    ensures var k' := Put(k, t, s);
            && k'.tables == k.tables && k'.marks == k.marks && |k'.mems| == |k.mems| && |k'.logs| == |k.logs|
            && (forall j :: 0 <= j < |k.mems| ==> k'.mems[j] == if j == |k.mems| - 1 then k.mems[j] + t else k.mems[j])
            && (forall i :: 0 <= i < |k.logs| ==> k'.logs[i] == if i == |k.logs| - 1 then k.logs[i] + t else k.logs[i])
  {
  }

  lemma AddLastOrdered(ts: seq<Table>, t: Table, s: nat)
    requires ts != [] && Ordered(ts) && Uniform(t, s) && forall i, v :: 0 <= i < |ts| && v in ts[i] ==> v.seqno < s
    ensures Ordered(AddLast(ts, t))
  {
  }

  lemma AllBelow(k: Ks, s: nat)
    requires AllBounded(k, s)
    ensures forall v :: v in k.tables ==> v.seqno < s
    ensures forall j, v :: 0 <= j < |k.mems| && v in k.mems[j] ==> v.seqno < s
    ensures forall i, v :: 0 <= i < |k.logs| && v in k.logs[i] ==> v.seqno < s
  {
  }

  /** What a key's obligations become when a batch does not mention it. */
  lemma PutElsewhere(k: Ks, t: Table, s: nat, x: Key)
    requires Shape(k) && Uniform(t, s) && x in k.newest && Ver(x, s) !in t
    ensures var k' := Put(k, t, s);
            && x in k'.newest && k'.newest[x] == k.newest[x]
            && (Settled(k, x) ==> Settled(k', x)) && (Current(k, x) ==> Current(k', x))
            && (Absent(k.mems, x) ==> Absent(k'.mems, x)) && (Absent(k.logs, x) ==> Absent(k'.logs, x))
            && (Holds(k.mems, Top(k, x)) ==> Holds(k'.mems, Top(k', x)))
            && (Holds(k.logs, Top(k, x)) ==> Holds(k'.logs, Top(k', x)))
  {
    hide Put;
    var k' := Put(k, t, s);
    PutNewest(k, t, s, x);
    PutParts(k, t, s);
    assert forall r: nat :: Ver(x, r) !in t;
    forall j | 0 <= j < |k.mems|
      ensures HasKey(k'.mems[j], x) ==> HasKey(k.mems[j], x)
      ensures Top(k, x) in k.mems[j] ==> Top(k, x) in k'.mems[j]
    {
      if r: nat :| Ver(x, r) in k'.mems[j] {
        assert Ver(x, r) in k.mems[j];
      }
    }
    forall i | 0 <= i < |k.logs|
      ensures HasKey(k'.logs[i], x) ==> HasKey(k.logs[i], x)
      ensures Top(k, x) in k.logs[i] ==> Top(k, x) in k'.logs[i]
    {
      if r: nat :| Ver(x, r) in k'.logs[i] {
        assert Ver(x, r) in k.logs[i];
      }
    }
  }

  lemma PutMentions(k: Ks, t: Table, s: nat, x: Key)
    requires Shape(k) && Uniform(t, s) && AllBounded(k, s) && Ver(x, s) in t
    ensures var k' := Put(k, t, s);
            && x in k'.newest && Top(k', x) == Ver(x, s) && !Reached(k'.tables, s)
            && Holds(k'.mems, Ver(x, s)) && Holds(k'.logs, Ver(x, s))
            && (forall i :: 0 <= i < |k'.logs| - 1 ==> Ver(x, s) !in k'.logs[i])
  {
    hide Put;
    PutNewest(k, t, s, x);
    PutParts(k, t, s);
    AllBelow(k, s);
    var k' := Put(k, t, s);
    assert Ver(x, s) in k'.mems[|k.mems| - 1] && Ver(x, s) in k'.logs[|k.logs| - 1];
  }

  lemma PutObligations(k: Ks, t: Table, s: nat)
    requires Uniform(t, s) && Inv(k, s)
    ensures var k' := Put(k, t, s); PersistedSettled(k') && Visible(k') && Durable(k')
  {
    hide Put, Settled, Current, Absent, Holds, Ordered, MarksCover, MemoryReaches, Reached;
    var k' := Put(k, t, s);
    PutParts(k, t, s);
    forall x | x in k'.newest
      ensures Reached(k'.tables, k'.newest[x].seqno) ==> Settled(k', x) && Current(k', x)
      ensures Holds(k'.mems, Top(k', x)) || (Settled(k', x) && Absent(k'.mems, x))
      ensures Holds(k'.logs, Top(k', x)) || (Settled(k', x) && Current(k', x) && Absent(k'.logs, x))
    {
      PutNewest(k, t, s, x);
      if Ver(x, s) in t {
        PutMentions(k, t, s, x);
      } else {
        PutElsewhere(k, t, s, x);
      }
    }
  }

  lemma PutMarksCover(k: Ks, t: Table, s: nat)
    requires Uniform(t, s) && Inv(k, s)
    ensures Shape(Put(k, t, s)) && MarksCover(Put(k, t, s))
  {
    hide Put, Settled, Current, Absent, Holds, Ordered, MemoryReaches, Reached, Visible, Durable, PersistedSettled;
    var k' := Put(k, t, s);
    PutParts(k, t, s);
    forall i, x | 0 <= i < |k'.marks| && x in k'.newest && Top(k', x) in k'.logs[i]
      ensures match k'.marks[i]
              case Some(m) => k'.newest[x].seqno <= m
              case None => Absent(k'.mems, x)
    {
      PutNewest(k, t, s, x);
      if Ver(x, s) in t {
        PutMentions(k, t, s, x);
      } else {
        PutElsewhere(k, t, s, x);
      }
    }
  }

  lemma PutMemoryReaches(k: Ks, t: Table, s: nat)
    requires Shape(k) && Uniform(t, s) && AllBounded(k, s) && MemoryReaches(k)
    ensures MemoryReaches(Put(k, t, s))
  {
    hide Put, AllBounded;
    var k' := Put(k, t, s);
    PutParts(k, t, s);
    AllBelow(k, s);
    if t == map[] {
      assert forall u: Table :: u + t == u;
      assert k'.mems == k.mems && k'.logs == k.logs;
    } else {
      var u :| u in t;
      assert u in k'.mems[|k.mems| - 1];
      forall i, v | 0 <= i < |k'.logs| && v in k'.logs[i]
        ensures UpTo(k'.mems, v.seqno)
      {
        assert v.seqno <= u.seqno;
      }
    }
  }

  lemma PutInv(k: Ks, t: Table, s: nat)
    requires Uniform(t, s) && Inv(k, s)
    ensures Inv(Put(k, t, s), s + 1)
  {
    hide Visible, Durable, PersistedSettled, MarksCover, MemoryReaches, Ordered;
    PutObligations(k, t, s);
    PutMarksCover(k, t, s);
    PutMemoryReaches(k, t, s);
    PutAllBounded(k, t, s);
    AllBelow(k, s);
    AddLastOrdered(k.mems, t, s);
    AddLastOrdered(k.logs, t, s);
  }

  /** Sequence numbers may also be used up by others. */
  lemma SkipInv(k: Ks, s: nat, s': nat)
    requires Inv(k, s) && s <= s'
    ensures Inv(k, s')
  {
    hide Visible, Durable, PersistedSettled, MarksCover, MemoryReaches, Ordered;
  }

  // ---------------------------------------------------------------------------
  // Rotating and flushing memtables, compacting tables.

  function MemtableRotated(k: Ks): Ks {
    k.(mems := k.mems + [map[]])
  }

  lemma RotateObligation(k: Ks, x: Key)
    requires x in k.newest
    ensures var k' := MemtableRotated(k);
            && (Settled(k, x) ==> Settled(k', x)) && (Current(k, x) ==> Current(k', x))
            && (Absent(k.mems, x) ==> Absent(k'.mems, x)) && (Holds(k.mems, Top(k, x)) ==> Holds(k'.mems, Top(k', x)))
  {
    var k' := MemtableRotated(k);
    assert !HasKey(map[], x);
    assert forall j :: 0 <= j < |k.mems| ==> k'.mems[j] == k.mems[j];
  }

  lemma RotateMemtableInv(k: Ks, s: nat)
    requires Inv(k, s)
    ensures Inv(MemtableRotated(k), s)
  {
    hide PersistedSettled, Visible, Durable, MarksCover, MemoryReaches, Ordered;
    RotateObligations(k);
    RotateReaches(k);
    OrderedExtend(k.mems);
  }

  lemma OrderedExtend(ts: seq<Table>)
    requires Ordered(ts)
    ensures Ordered(ts + [map[]])
  {
  }

  lemma RotateReaches(k: Ks)
    requires MemoryReaches(k)
    ensures MemoryReaches(MemtableRotated(k))
  {
    var k' := MemtableRotated(k);
    if !AllEmpty(k.mems) {
      forall i, v | 0 <= i < |k.logs| && v in k.logs[i]
        ensures UpTo(k'.mems, v.seqno)
      {
        assert UpTo(k.mems, v.seqno);
        var j, u :| 0 <= j < |k.mems| && u in k.mems[j] && v.seqno <= u.seqno;
        assert u in k'.mems[j];
      }
    }
  }

  lemma RotateObligations(k: Ks)
    requires Shape(k) && PersistedSettled(k) && Visible(k) && Durable(k) && MarksCover(k)
    ensures var k' := MemtableRotated(k); PersistedSettled(k') && Visible(k') && Durable(k') && MarksCover(k')
  {
    hide Settled, Current, Absent, Holds, Reached;
    forall x | x in k.newest { RotateObligation(k, x); }
  }

  /** The oldest memtable becomes part of the tables. */
  function Flushed(k: Ks): Ks
    requires |k.mems| >= 2
  {
    k.(tables := k.tables + k.mems[0], mems := k.mems[1..])
  }

  lemma FlushedHas(k: Ks, x: Key)
    requires |k.mems| >= 2
    ensures HasKey(Flushed(k).tables, x) <==> HasKey(k.tables, x) || HasKey(k.mems[0], x)
  {
    if s: nat :| Ver(x, s) in k.tables {
      assert Ver(x, s) in Flushed(k).tables;
    }
    if s: nat :| Ver(x, s) in k.mems[0] {
      assert Ver(x, s) in Flushed(k).tables;
    }
    if s: nat :| Ver(x, s) in Flushed(k).tables {
      assert Ver(x, s) in k.tables || Ver(x, s) in k.mems[0];
    }
  }

  /** A key the tables already answered for stays answered when a memtable joins them. */
  lemma FlushKeepsSettled(k: Ks, x: Key)
    requires |k.mems| >= 2 && x in k.newest && Settled(k, x) && Current(k, x)
    ensures Settled(Flushed(k), x) && Current(Flushed(k), x)
  {
    FlushedHas(k, x);
    var k' := Flushed(k);
    assert forall j :: 0 <= j < |k'.mems| ==> k'.mems[j] == k.mems[j + 1];
  }

  /** No memtable after the one holding the newest version knows the key. */
  lemma NoneAfterTop(k: Ks, s: nat, x: Key, i: nat)
    requires AllBounded(k, s) && Ordered(k.mems) && x in k.newest && i < |k.mems| && Top(k, x) in k.mems[i]
    ensures Absent(k.mems[i + 1..], x)
  {
    forall j, r: nat | i < j < |k.mems|
      ensures Ver(x, r) !in k.mems[j]
    {
    }
  }

  lemma FlushVisible(k: Ks, s: nat, x: Key)
    requires |k.mems| >= 2 && AllBounded(k, s) && Ordered(k.mems) && Visible(k) && x in k.newest
    ensures var k' := Flushed(k); Holds(k'.mems, Top(k', x)) || (Settled(k', x) && Absent(k'.mems, x))
  {
    hide AllBounded, Ordered, Absent, HasKey;
    if Holds(k.mems, Top(k, x)) {
      var i :| 0 <= i < |k.mems| && Top(k, x) in k.mems[i];
      if i == 0 {
        NoneAfterTop(k, s, x, 0);
      } else {
        assert Top(k, x) in Flushed(k).mems[i - 1];
      }
    } else {
      AbsentCurrent(k, x);
      FlushKeepsSettled(k, x);
      AbsentTail(k.mems, x);
    }
  }

  lemma AbsentCurrent(k: Ks, x: Key)
    requires x in k.newest && Absent(k.mems, x)
    ensures Current(k, x)
  {
  }

  /** Keys that the flush brings under the persisted sequence number. */
  lemma FlushSettles(k: Ks, s: nat, x: Key)
    requires |k.mems| >= 2 && AllBounded(k, s) && Ordered(k.mems) && Visible(k) && PersistedSettled(k) && x in k.newest
    requires Reached(Flushed(k).tables, k.newest[x].seqno)
    ensures Settled(Flushed(k), x) && Current(Flushed(k), x)
  {
    hide Settled, Current, Holds, Absent, Visible, AllBounded, Ordered;
    if Reached(k.tables, k.newest[x].seqno) {
      FlushKeepsSettled(k, x);
    } else {
      var v :| v in k.mems[0] && k.newest[x].seqno <= v.seqno;
      FlushNewlyReached(k, s, x, v);
    }
  }

  lemma FlushNewlyReached(k: Ks, s: nat, x: Key, v: Ver)
    requires |k.mems| >= 2 && AllBounded(k, s) && Ordered(k.mems) && Visible(k) && x in k.newest
    requires v in k.mems[0] && k.newest[x].seqno <= v.seqno
    ensures Settled(Flushed(k), x) && Current(Flushed(k), x)
  {
    hide AllBounded, Absent, HasKey, Current;
    if Holds(k.mems, Top(k, x)) {
      var i :| 0 <= i < |k.mems| && Top(k, x) in k.mems[i];
      assert i == 0;
      NoneAfterTop(k, s, x, 0);
      AbsentCurrent(Flushed(k), x);
    } else {
      AbsentCurrent(k, x);
      FlushKeepsSettled(k, x);
    }
  }

  lemma FlushUpTo(k: Ks, s: nat, w: Ver, j0: nat)
    requires |k.mems| >= 2 && Ordered(k.mems) && UpTo(k.mems, s) && 0 < j0 < |k.mems| && w in k.mems[j0]
    ensures UpTo(Flushed(k).mems, s)
  {
    var j, u :| 0 <= j < |k.mems| && u in k.mems[j] && s <= u.seqno;
    if j > 0 {
      assert u in Flushed(k).mems[j - 1];
    } else {
      assert w in Flushed(k).mems[j0 - 1];
    }
  }

  lemma FlushReaches(k: Ks)
    requires |k.mems| >= 2 && Ordered(k.mems) && MemoryReaches(k)
    ensures MemoryReaches(Flushed(k))
  {
    hide Ordered, UpTo;
    var k' := Flushed(k);
    if !AllEmpty(k'.mems) {
      var j0 :| 0 <= j0 < |k'.mems| && k'.mems[j0] != map[];
      var w :| w in k'.mems[j0];
      assert w in k.mems[j0 + 1];
      forall i, v | 0 <= i < |k.logs| && v in k.logs[i]
        ensures UpTo(k'.mems, v.seqno)
      {
        FlushUpTo(k, v.seqno, w, j0 + 1);
      }
    }
  }

  lemma FlushInv(k: Ks, s: nat)
    requires Inv(k, s) && |k.mems| >= 2
    ensures Inv(Flushed(k), s)
  {
    hide Settled, Current, Holds, Absent, MemoryReaches, Ordered, Bounded, Reached;
    var k' := Flushed(k);
    forall x | x in k.newest
      ensures Reached(k'.tables, k.newest[x].seqno) ==> Settled(k', x) && Current(k', x)
      ensures Holds(k'.mems, Top(k', x)) || (Settled(k', x) && Absent(k'.mems, x))
      ensures Settled(k, x) && Current(k, x) ==> Settled(k', x) && Current(k', x)
      ensures Absent(k.mems, x) ==> Absent(k'.mems, x)
    {
      if Reached(k'.tables, k.newest[x].seqno) {
        FlushSettles(k, s, x);
      }
      if Settled(k, x) && Current(k, x) {
        FlushKeepsSettled(k, x);
      }
      FlushVisible(k, s, x);
      AbsentTail(k.mems, x);
    }
    FlushReaches(k);
    OrderedTail(k.mems);
    BoundedJoin(k.tables, k.mems[0], k.newest);
  }

  lemma AbsentTail(ts: seq<Table>, x: Key)
    requires ts != []
    ensures Absent(ts, x) ==> Absent(ts[1..], x)
  {
  }

  lemma OrderedTail(ts: seq<Table>)
    requires ts != [] && Ordered(ts)
    ensures Ordered(ts[1..])
  {
  }

  lemma BoundedJoin(a: Table, b: Table, newest: map<Key, Stamp>)
    requires Bounded(a, newest) && Bounded(b, newest)
    ensures Bounded(a + b, newest)
  {
  }

  /** What compaction may do: drop versions, but of each key's newest only a tombstone, and
      that only together with the whole key. */
  ghost predicate Compacts(before: Table, after: Table) {
    && (forall v :: v in after ==> v in before && after[v] == before[v])
    && (forall x, s :: IsTop(before, x, s) ==> Ver(x, s) in after || (before[Ver(x, s)] == None && !HasKey(after, x)))
  }

  lemma CompactObligation(k: Ks, s: nat, after: Table, x: Key)
    requires AllBounded(k, s) && Compacts(k.tables, after) && x in k.newest
    ensures var k' := k.(tables := after);
            && (Settled(k, x) ==> Settled(k', x)) && (Current(k, x) ==> Current(k', x))
            && (Reached(after, k.newest[x].seqno) ==> Reached(k.tables, k.newest[x].seqno))
  {
    assert Top(k, x) in k.tables ==> IsTop(k.tables, x, k.newest[x].seqno);
    assert HasKey(after, x) ==> HasKey(k.tables, x) by {
      if r: nat :| Ver(x, r) in after {
        assert Ver(x, r) in k.tables;
      }
    }
  }

  lemma CompactInv(k: Ks, s: nat, after: Table)
    requires Inv(k, s) && Compacts(k.tables, after)
    ensures Inv(k.(tables := after), s)
  {
    hide Settled, Current, Holds, Absent, Ordered, Reached, MemoryReaches, MarksCover, Compacts, Bounded;
    forall x | x in k.newest { CompactObligation(k, s, after, x); }
    CompactFrames(k, after);
  }

  lemma CompactFrames(k: Ks, after: Table)
    requires Compacts(k.tables, after) && Shape(k) && MemoryReaches(k) && MarksCover(k) && Bounded(k.tables, k.newest)
    ensures MemoryReaches(k.(tables := after)) && MarksCover(k.(tables := after)) && Bounded(after, k.newest)
  {
    hide HasKey, Absent, UpTo, AllEmpty, IsTop;
  }

  // ---------------------------------------------------------------------------
  // Rotating and evicting journals.

  /** The journal is sealed with the highest sequence number still in memory as watermark. */
  ghost function JournalRotated(k: Ks): Ks {
    k.(logs := k.logs + [map[]], marks := k.marks + [Highest(Union(k.mems))])
  }

  lemma MemoryMark(k: Ks, s: nat)
    requires UpTo(k.mems, s)
    ensures Highest(Union(k.mems)).Some? && s <= Highest(Union(k.mems)).value
  {
    hide Union;
    var j, u :| 0 <= j < |k.mems| && u in k.mems[j] && s <= u.seqno;
    UnionMembers(k.mems, u);
    assert u in Union(k.mems);
  }

  lemma NoMarkNoMemory(k: Ks, x: Key)
    requires Highest(Union(k.mems)).None?
    ensures Absent(k.mems, x)
  {
    hide Union;
    forall j, v | 0 <= j < |k.mems|
      ensures v !in k.mems[j]
    {
      UnionMembers(k.mems, v);
      assert v !in Union(k.mems);
    }
  }

  lemma JournalMarks(k: Ks, s: nat)
    requires Shape(k) && MarksCover(k) && MemoryReaches(k)
    ensures Shape(JournalRotated(k)) && MarksCover(JournalRotated(k))
  {
    hide Union, Highest, Absent;
    var k' := JournalRotated(k);
    var n := |k.marks|;
    forall i, x | 0 <= i < |k'.marks| && x in k'.newest && Top(k', x) in k'.logs[i]
      ensures match k'.marks[i]
              case Some(m) => k'.newest[x].seqno <= m
              case None => Absent(k'.mems, x)
    {
      assert Top(k, x) in k.logs[i];
      if i == n {
        if k'.marks[n].None? {
          NoMarkNoMemory(k, x);
        } else {
          if AllEmpty(k.mems) {
            EmptyNoMark(k);
          }
          MemoryMark(k, k.newest[x].seqno);
        }
      }
    }
  }

  lemma EmptyNoMark(k: Ks)
    requires AllEmpty(k.mems)
    ensures Highest(Union(k.mems)).None?
  {
    if v :| v in Union(k.mems) {
      UnionMembers(k.mems, v);
    }
  }

  lemma JournalObligation(k: Ks, x: Key)
    requires x in k.newest
    ensures var k' := JournalRotated(k);
            && (Settled(k, x) ==> Settled(k', x)) && (Current(k, x) ==> Current(k', x))
            && (Absent(k.logs, x) ==> Absent(k'.logs, x)) && (Holds(k.logs, Top(k, x)) ==> Holds(k'.logs, Top(k', x)))
  {
    hide Union, Highest;
    var k' := JournalRotated(k);
    assert !HasKey(map[], x);
    assert forall i :: 0 <= i < |k.logs| ==> k'.logs[i] == k.logs[i];
  }

  lemma RotateJournalInv(k: Ks, s: nat)
    requires Inv(k, s)
    ensures Inv(JournalRotated(k), s)
  {
    hide Settled, Current, Holds, Absent, Ordered, Reached, MemoryReaches, MarksCover, Bounded;
    forall x | x in k.newest { JournalObligation(k, x); }
    OrderedExtend(k.logs);
    JournalMarks(k, s);
    JournalReaches(k);
    assert Bounded(map[], k.newest) by { EmptyBounded(k.newest); }
  }

  lemma EmptyBounded(newest: map<Key, Stamp>)
    ensures Bounded(map[], newest)
  {
  }

  lemma JournalReaches(k: Ks)
    requires MemoryReaches(k)
    ensures MemoryReaches(JournalRotated(k))
  {
    hide UpTo, Union, Highest;
  }

  /** The oldest journal may go once the tables reached its watermark. */
  ghost predicate Evictable(k: Ks)
    requires Shape(k)
  {
    |k.logs| >= 2 && (k.marks[0].Some? ==> Reached(k.tables, k.marks[0].value))
  }

  function Evicted(k: Ks): Ks
    requires |k.logs| >= 2 && |k.marks| >= 1
  {
    k.(logs := k.logs[1..], marks := k.marks[1..])
  }

  lemma NoneAfterTopLog(k: Ks, s: nat, x: Key, i: nat)
    requires AllBounded(k, s) && Ordered(k.logs) && x in k.newest && i < |k.logs| && Top(k, x) in k.logs[i]
    ensures Absent(k.logs[i + 1..], x)
  {
    forall j, r: nat | i < j < |k.logs|
      ensures Ver(x, r) !in k.logs[j]
    {
    }
  }

  /** A key whose newest version leaves with the evicted journal is answered by the tables. */
  lemma EvictedKeySettled(k: Ks, s: nat, x: Key)
    requires Inv(k, s) && Evictable(k) && x in k.newest && Top(k, x) in k.logs[0]
    ensures Settled(k, x) && Current(k, x) && Absent(k.logs[1..], x)
  {
    hide Settled, Current, HasKey, Ordered, MemoryReaches, Bounded;
    NoneAfterTopLog(k, s, x, 0);
    if k.marks[0].Some? {
      assert Reached(k.tables, k.newest[x].seqno);
    } else {
      hide Absent;
      AbsentCurrent(k, x);
      AbsentNotHeld(k.mems, Top(k, x));
    }
  }

  lemma AbsentNotHeld(ts: seq<Table>, v: Ver)
    requires Absent(ts, v.key)
    ensures !Holds(ts, v)
  {
    forall j | 0 <= j < |ts|
      ensures v !in ts[j]
    {
      assert !HasKey(ts[j], v.key);
      assert v == Ver(v.key, v.seqno);
    }
  }

  lemma EvictDurable(k: Ks, s: nat, x: Key)
    requires Inv(k, s) && Evictable(k) && x in k.newest
    ensures var k' := Evicted(k);
            Holds(k'.logs, Top(k', x)) || (Settled(k', x) && Current(k', x) && Absent(k'.logs, x))
  {
    hide Ordered, MemoryReaches, Bounded, Absent, HasKey, MarksCover, AllBounded, PersistedSettled, Visible;
    if Holds(k.logs, Top(k, x)) {
      var i :| 0 <= i < |k.logs| && Top(k, x) in k.logs[i];
      if i == 0 {
        EvictedKeySettled(k, s, x);
      } else {
        assert Top(k, x) in Evicted(k).logs[i - 1];
      }
    } else {
      AbsentTail(k.logs, x);
    }
  }

  lemma EvictInv(k: Ks, s: nat)
    requires Inv(k, s) && Evictable(k)
    ensures Inv(Evicted(k), s)
  {
    hide Holds, Absent, Ordered, MemoryReaches, Bounded, HasKey;
    var k' := Evicted(k);
    assert Durable(k') by {
      forall x | x in k.newest { EvictDurable(k, s, x); }
    }
    OrderedTail(k.logs);
    EvictReaches(k);
  }

  lemma EvictReaches(k: Ks)
    requires Shape(k) && |k.logs| >= 2 && MemoryReaches(k)
    ensures MemoryReaches(Evicted(k))
  {
    hide UpTo;
    assert forall i :: 0 <= i < |Evicted(k).logs| ==> Evicted(k).logs[i] == k.logs[i + 1];
  }

  // ---------------------------------------------------------------------------
  // Clearing.

  function Blank(n: nat): (ts: seq<Table>)
    ensures |ts| == n && forall i :: 0 <= i < n ==> ts[i] == map[]
  {
    seq(n, i => map[])
  }

  /** Everything is gone, and the journals' earlier entries no longer count. */
  function Emptied(k: Ks): Ks {
    Ks(map[], [map[]], Blank(|k.logs|), k.marks, map[])
  }

  lemma EmptiedInv(k: Ks, s: nat)
    requires Shape(k)
    ensures Inv(Emptied(k), s)
  {
  }

  /** Every key's newest version is in the journals. */
  ghost predicate Logged(k: Ks) {
    forall x :: x in k.newest ==> Holds(k.logs, Top(k, x))
  }

  lemma PutLogged(k: Ks, t: Table, s: nat)
    requires Shape(k) && Uniform(t, s) && AllBounded(k, s) && Logged(k)
    ensures Logged(Put(k, t, s))
  {
    hide Put, AllBounded, Holds, Settled, Current, Absent;
    var k' := Put(k, t, s);
    forall x | x in k'.newest
      ensures Holds(k'.logs, Top(k', x))
    {
      PutNewest(k, t, s, x);
      if Ver(x, s) in t {
        PutMentions(k, t, s, x);
      } else {
        PutElsewhere(k, t, s, x);
      }
    }
  }
}
