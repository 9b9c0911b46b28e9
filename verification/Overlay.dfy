/** The uncommitted writes of a transaction: per-keyspace memtables stamped with sequence
    numbers far above any committed one, read before the snapshot and deduplicated on commit. */
module Overlay {
  import opened Bytes
  import opened SerialSpec

  /** Sequence number of a transaction's first write. */
  const FIRST: nat := 0x8000_0000_0000_0000

  /** `None` is a tombstone. */
  datatype Item = Item(key: Key, seqno: nat, value: Option<Value>)

  /** Memtables iterate by ascending key, newest version first. */
  predicate Before(a: Item, b: Item) {
    Less(a.key, b.key) || (a.key == b.key && a.seqno > b.seqno)
  }

  predicate Sorted(m: seq<Item>) {
    forall i, j :: 0 <= i < j < |m| ==> Before(m[i], m[j])
  }

  function Inserted(m: seq<Item>, it: Item): seq<Item> {
    if m == [] || Before(it, m[0]) then [it] + m else [m[0]] + Inserted(m[1..], it)
  }

  /** A memtable lookup: the newest version of `key` with a sequence number below `bound`. */
  function Newest(m: seq<Item>, key: Key, bound: nat): Option<Item> {
    if m == [] then None
    else if m[0].key == key && m[0].seqno < bound then Some(m[0])
    else Newest(m[1..], key, bound)
  }

  lemma {:induction false} InsertedMembers(m: seq<Item>, it: Item)
    ensures forall x :: x in Inserted(m, it) <==> x in m || x == it
  {
    if m != [] && !Before(it, m[0]) {
      InsertedMembers(m[1..], it);
      assert m == [m[0]] + m[1..];
    }
  }

  lemma BeforeTransitive(a: Item, b: Item, c: Item)
    requires Before(a, b) && Before(b, c)
    ensures Before(a, c)
  {
    if Less(a.key, b.key) && Less(b.key, c.key) {
      LessTransitive(a.key, b.key, c.key);
    }
  }

  lemma BeforeTotal(a: Item, b: Item)
    ensures (a.key == b.key && a.seqno == b.seqno) || Before(a, b) || Before(b, a)
  {
    LessTotal(a.key, b.key);
  }

  lemma {:induction false} InsertedSorted(m: seq<Item>, it: Item)
    requires Sorted(m) && forall i :: 0 <= i < |m| ==> m[i].seqno != it.seqno
    ensures Sorted(Inserted(m, it))
  {
    if m == [] {
    } else if Before(it, m[0]) {
      forall j | 0 <= j < |m|
        ensures Before(it, m[j])
      {
        if j > 0 {
          BeforeTransitive(it, m[0], m[j]);
        }
      }
    } else {
      BeforeTotal(it, m[0]);
      InsertedSorted(m[1..], it);
      InsertedMembers(m[1..], it);
      var rest := Inserted(m[1..], it);
      forall j | 0 <= j < |rest|
        ensures Before(m[0], rest[j])
      {
        assert rest[j] in rest;
      }
    }
  }

  /** In iteration order the first match is the newest one. */
  lemma {:induction false} NewestIsNewest(m: seq<Item>, key: Key, bound: nat)
    requires Sorted(m)
    ensures match Newest(m, key, bound)
            case Some(it) =>
              && it in m && it.key == key && it.seqno < bound
              && forall x :: x in m && x.key == key && x.seqno < bound ==> x.seqno <= it.seqno
            case None => forall x :: x in m && x.key == key ==> x.seqno >= bound
  {
    if m != [] {
      assert m == [m[0]] + m[1..];
      if m[0].key == key && m[0].seqno < bound {
        forall x | x in m && x.key == key && x.seqno < bound
          ensures x.seqno <= m[0].seqno
        {
          var j :| 0 <= j < |m| && m[j] == x;
          LessIrreflexive(key);
        }
      } else {
        NewestIsNewest(m[1..], key, bound);
      }
    }
  }

  // ---------------------------------------------------------------------------
  // A memtable as the record of a transaction's writes.

  predicate AllPuts(puts: seq<Op>) {
    forall i :: 0 <= i < |puts| ==> puts[i].Put?
  }

  /** `it` is one of the writes to keyspace `ks`, stamped with its position. */
  predicate Records(puts: seq<Op>, ks: nat, it: Item) {
    FIRST <= it.seqno < FIRST + |puts| && puts[it.seqno - FIRST] == Put(Cell(ks, it.key), it.value)
  }

  /** `m` holds exactly the writes to keyspace `ks`, the i-th write at sequence number FIRST + i. */
  ghost predicate Mirrors(m: seq<Item>, ks: nat, puts: seq<Op>)
    requires AllPuts(puts)
  {
    && Sorted(m)
    && (forall it :: it in m ==> Records(puts, ks, it))
    && (forall i :: 0 <= i < |puts| && puts[i].cell.ks == ks ==>
          Item(puts[i].cell.key, FIRST + i, puts[i].value) in m)
  }

  /** Reading the memtable below FIRST + n replays the first n writes: an iterator created
      after n writes sees those and no later ones. */
  lemma {:induction false} NewestReplays(m: seq<Item>, ks: nat, puts: seq<Op>, n: nat, key: Key)
    requires AllPuts(puts) && Mirrors(m, ks, puts) && n <= |puts|
    ensures var found := Newest(m, key, FIRST + n); var c := Cell(ks, key);
            && (c in Writes(puts[..n]) <==> found.Some?)
            && (found.Some? ==> Writes(puts[..n])[c] == found.value.value)
  {
    NewestIsNewest(m, key, FIRST + n);
    if n > 0 {
      NewestReplays(m, ks, puts, n - 1, key);
      NewestIsNewest(m, key, FIRST + n - 1);
      assert puts[..n] == puts[..n - 1] + [puts[n - 1]];
      WritesAppend(puts[..n - 1], puts[n - 1]);
      if puts[n - 1].cell == Cell(ks, key) {
        assert Item(key, FIRST + n - 1, puts[n - 1].value) in m;
      }
    }
  }

  // ---------------------------------------------------------------------------
  // Deduplication on commit.

  predicate IsHead(m: seq<Item>, i: nat)
    requires i < |m|
  {
    i == 0 || m[i - 1].key != m[i].key
  }

  /** The items that differ in key from the item before them. */
  function Heads(m: seq<Item>): seq<Item> {
    if m == [] then []
    else
      var n := |m| - 1;
      if IsHead(m, n) then Heads(m[..n]) + [m[n]] else Heads(m[..n])
  }

  predicate StrictKeys(out: seq<Item>) {
    forall i, j :: 0 <= i < j < |out| ==> Less(out[i].key, out[j].key)
  }

  method Dedup(m: seq<Item>) returns (out: seq<Item>)
    ensures out == Heads(m)
  {
    out := [];
    var prevKey: Option<Key> := None;
    for n := 0 to |m|
      invariant prevKey == if n == 0 then None else Some(m[n - 1].key)
      invariant out == Heads(m[..n])
    {
      assert m[..n + 1][..n] == m[..n];
      if prevKey != Some(m[n].key) {
        out := out + [m[n]];
        prevKey := Some(m[n].key);
      }
    }
    assert m[..|m|] == m;
  }

  lemma {:induction false} HeadsMembers(m: seq<Item>, x: Item)
    requires x in Heads(m)
    ensures exists i :: 0 <= i < |m| && m[i] == x && IsHead(m, i)
  {
    var n := |m| - 1;
    if IsHead(m, n) && x == m[n] {
    } else {
      HeadsMembers(m[..n], x);
      var i :| 0 <= i < n && m[..n][i] == x && IsHead(m[..n], i);
      assert m[i] == x && IsHead(m, i);
    }
  }

  lemma {:induction false} HeadsContain(m: seq<Item>, i: nat)
    requires i < |m| && IsHead(m, i)
    ensures m[i] in Heads(m)
  {
    var n := |m| - 1;
    if i < n {
      assert IsHead(m[..n], i);
      HeadsContain(m[..n], i);
    }
  }

  lemma {:induction false} HeadOf(m: seq<Item>, i: nat) returns (h: nat)
    requires i < |m|
    ensures h <= i && IsHead(m, h) && m[h].key == m[i].key
  {
    if IsHead(m, i) {
      h := i;
    } else {
      h := HeadOf(m, i - 1);
    }
  }

  lemma HeadComesFirst(m: seq<Item>, i: nat, j: nat)
    requires Sorted(m) && i < |m| && j < |m| && IsHead(m, i) && m[j].key == m[i].key
    ensures i <= j && m[j].seqno <= m[i].seqno
  {
    LessIrreflexive(m[i].key);
    if j < i {
      assert Before(m[i - 1], m[i]);
      assert j < i - 1 ==> Before(m[j], m[i - 1]);
      LessAsymmetric(m[i - 1].key, m[i].key);
    } else {
      assert i < j ==> Before(m[i], m[j]);
    }
  }

  /** The batch names each key once, in ascending order. */
  lemma {:induction false} HeadsStrict(m: seq<Item>)
    requires Sorted(m)
    ensures StrictKeys(Heads(m))
    ensures m != [] ==> Heads(m) != [] && Heads(m)[|Heads(m)| - 1].key == m[|m| - 1].key
  {
    if m != [] {
      var n := |m| - 1;
      HeadsStrict(m[..n]);
      if n > 0 && IsHead(m, n) {
        assert Before(m[n - 1], m[n]);
        StrictAppend(Heads(m[..n]), m[n]);
      }
    }
  }

  lemma StrictAppend(out: seq<Item>, it: Item)
    requires StrictKeys(out) && out != [] && Less(out[|out| - 1].key, it.key)
    ensures StrictKeys(out + [it])
  {
    forall i | 0 <= i < |out|
      ensures Less(out[i].key, it.key)
    {
      if i < |out| - 1 {
        LessTransitive(out[i].key, out[|out| - 1].key, it.key);
      }
    }
  }

  /** The deduplicated items are exactly the transaction's net writes to the keyspace. */
  lemma DedupIsNetEffect(m: seq<Item>, ks: nat, puts: seq<Op>)
    requires AllPuts(puts) && Mirrors(m, ks, puts)
    ensures forall it :: it in Heads(m) ==>
              Cell(ks, it.key) in Writes(puts) && Writes(puts)[Cell(ks, it.key)] == it.value
    ensures forall c :: c in Writes(puts) && c.ks == ks ==> exists it :: it in Heads(m) && it.key == c.key
    ensures StrictKeys(Heads(m))
  {
    HeadsStrict(m);
    forall it | it in Heads(m)
      ensures Cell(ks, it.key) in Writes(puts) && Writes(puts)[Cell(ks, it.key)] == it.value
    {
      HeadIsLastWrite(m, ks, puts, it);
    }
    forall c | c in Writes(puts) && c.ks == ks
      ensures exists it :: it in Heads(m) && it.key == c.key
    {
      var it := LastWriteHasHead(m, ks, puts, c);
    }
  }

  lemma HeadIsTop(m: seq<Item>, it: Item, bound: nat)
    requires Sorted(m) && it in Heads(m) && forall i :: 0 <= i < |m| ==> m[i].seqno < bound
    ensures it in m && Newest(m, it.key, bound).Some?
    ensures Newest(m, it.key, bound).value in m && Newest(m, it.key, bound).value.seqno == it.seqno
  {
    HeadsMembers(m, it);
    var i :| 0 <= i < |m| && m[i] == it && IsHead(m, i);
    NewestIsNewest(m, it.key, bound);
    var j :| 0 <= j < |m| && m[j] == Newest(m, it.key, bound).value;
    HeadComesFirst(m, i, j);
  }

  lemma HeadIsLastWrite(m: seq<Item>, ks: nat, puts: seq<Op>, it: Item)
    requires AllPuts(puts) && Mirrors(m, ks, puts) && it in Heads(m)
    ensures Cell(ks, it.key) in Writes(puts) && Writes(puts)[Cell(ks, it.key)] == it.value
  {
    hide Heads, Newest, Writes, Sorted, IsHead;
    assert puts[..|puts|] == puts;
    assert forall i :: 0 <= i < |m| ==> Records(puts, ks, m[i]);
    HeadIsTop(m, it, FIRST + |puts|);
    NewestReplays(m, ks, puts, |puts|, it.key);
    assert Records(puts, ks, it) && Records(puts, ks, Newest(m, it.key, FIRST + |puts|).value);
  }

  lemma LastWriteHasHead(m: seq<Item>, ks: nat, puts: seq<Op>, c: Cell) returns (it: Item)
    requires AllPuts(puts) && Mirrors(m, ks, puts) && c in Writes(puts) && c.ks == ks
    ensures it in Heads(m) && it.key == c.key
  {
    assert puts[..|puts|] == puts;
    NewestReplays(m, ks, puts, |puts|, c.key);
    NewestIsNewest(m, c.key, FIRST + |puts|);
    var top := Newest(m, c.key, FIRST + |puts|).value;
    var j :| 0 <= j < |m| && m[j] == top;
    var h := HeadOf(m, j);
    HeadsContain(m, h);
    it := m[h];
  }

  // ---------------------------------------------------------------------------
  // The transaction object.

  lemma {:induction false} WrittenByPut(puts: seq<Op>, c: Cell)
    requires AllPuts(puts) && c in Writes(puts)
    ensures exists i :: 0 <= i < |puts| && puts[i].cell == c
  {
    var n := |puts| - 1;
    if puts[n].cell != c {
      WrittenByPut(puts[..n], c);
      var i :| 0 <= i < n && puts[..n][i].cell == c;
      assert puts[i].cell == c;
    }
  }

  lemma MirrorsInsert(m: seq<Item>, ks: nat, puts: seq<Op>, key: Key, value: Option<Value>)
    requires AllPuts(puts) && Mirrors(m, ks, puts)
    ensures Mirrors(Inserted(m, Item(key, FIRST + |puts|, value)), ks, puts + [Put(Cell(ks, key), value)])
  {
    var it := Item(key, FIRST + |puts|, value);
    var m' := Inserted(m, it);
    var puts' := puts + [Put(Cell(ks, key), value)];
    InsertedMembers(m, it);
    assert forall i :: 0 <= i < |m| ==> Records(puts, ks, m[i]);
    InsertedSorted(m, it);
    assert forall x :: Records(puts, ks, x) ==> Records(puts', ks, x);
    assert Records(puts', ks, it);
    forall i | 0 <= i < |puts'| && puts'[i].cell.ks == ks
      ensures Item(puts'[i].cell.key, FIRST + i, puts'[i].value) in m'
    {
      if i < |puts| {
        assert puts'[i] == puts[i];
      }
    }
  }

  lemma MirrorsElsewhere(m: seq<Item>, ks: nat, puts: seq<Op>, p: Op)
    requires AllPuts(puts) && Mirrors(m, ks, puts) && p.Put? && p.cell.ks != ks
    ensures Mirrors(m, ks, puts + [p])
  {
    assert forall x :: Records(puts, ks, x) ==> Records(puts + [p], ks, x);
  }

  datatype BatchItem = BatchItem(cell: Cell, value: Option<Value>)

  function Tagged(ks: nat, items: seq<Item>): (batch: seq<BatchItem>)
    ensures |batch| == |items|
    ensures forall i :: 0 <= i < |items| ==> batch[i] == BatchItem(Cell(ks, items[i].key), items[i].value)
  {
    if items == [] then [] else [BatchItem(Cell(ks, items[0].key), items[0].value)] + Tagged(ks, items[1..])
  }

  /** `batch` is the part of the patch `w` that lies in the keyspaces `done`, each cell once. */
  ghost predicate BatchOf(batch: seq<BatchItem>, w: Patch, done: set<nat>) {
    && (forall b :: b in batch ==> b.cell in w && w[b.cell] == b.value && b.cell.ks in done)
    && (forall c :: c in w && c.ks in done ==> BatchItem(c, w[c]) in batch)
    && (forall i, j :: 0 <= i < j < |batch| ==> batch[i].cell != batch[j].cell)
  }

  lemma TaggedIsBatch(items: seq<Item>, w: Patch, ks: nat)
    requires StrictKeys(items)
    requires forall it :: it in items ==> Cell(ks, it.key) in w && w[Cell(ks, it.key)] == it.value
    requires forall c :: c in w && c.ks == ks ==> exists it :: it in items && it.key == c.key
    ensures BatchOf(Tagged(ks, items), w, {ks})
  {
    var part := Tagged(ks, items);
    forall b | b in part
      ensures b.cell in w && w[b.cell] == b.value && b.cell.ks == ks
    {
      var i :| 0 <= i < |part| && part[i] == b;
      assert items[i] in items;
    }
    forall c | c in w && c.ks == ks
      ensures BatchItem(c, w[c]) in part
    {
      var it :| it in items && it.key == c.key;
      var i :| 0 <= i < |items| && items[i] == it;
      assert part[i] == BatchItem(c, w[c]);
    }
    forall i, j | 0 <= i < j < |part|
      ensures part[i].cell != part[j].cell
    {
      LessIrreflexive(items[i].key);
    }
  }

  lemma BatchJoin(a: seq<BatchItem>, b: seq<BatchItem>, w: Patch, done: set<nat>, ks: nat)
    requires BatchOf(a, w, done) && BatchOf(b, w, {ks}) && ks !in done
    ensures BatchOf(a + b, w, done + {ks})
  {
    forall i, j | 0 <= i < j < |a + b|
      ensures (a + b)[i].cell != (a + b)[j].cell
    {
      if i < |a| <= j {
        assert a[i] in a && b[j - |a|] in b;
      }
    }
  }

  function PresentIn(db: Db, cells: set<Cell>): Db {
    map c | c in cells && c in db :: db[c]
  }

  /** Whatever a range of the transaction's view holds is in the snapshot or in its memtable. */
  lemma WindowCandidates(base: Db, puts: seq<Op>, memtables: map<nat, seq<Item>>, ks: nat, start: Bound, end: Bound, todo: set<Cell>)
    requires AllPuts(puts) && (forall k :: k in memtables ==> Mirrors(memtables[k], k, puts))
    requires forall i :: 0 <= i < |puts| ==> puts[i].cell.ks in memtables
    requires todo == (set c | c in base && c.ks == ks && InRange(start, end, c.key)) +
                     if ks in memtables then set it | it in memtables[ks] && InRange(start, end, it.key) :: Cell(ks, it.key) else {}
    ensures PresentIn(Patched(base, Writes(puts)), todo) == Window(Patched(base, Writes(puts)), ks, start, end)
  {
    hide InRange, Mirrors, Writes;
    forall c | c in Window(Patched(base, Writes(puts)), ks, start, end)
      ensures c in todo
    {
      if c in Writes(puts) {
        var it := WrittenInTable(puts, memtables, c);
      }
    }
  }

  lemma WrittenInTable(puts: seq<Op>, memtables: map<nat, seq<Item>>, c: Cell) returns (it: Item)
    requires AllPuts(puts) && (forall k :: k in memtables ==> Mirrors(memtables[k], k, puts))
    requires (forall i :: 0 <= i < |puts| ==> puts[i].cell.ks in memtables) && c in Writes(puts)
    ensures c.ks in memtables && it in memtables[c.ks] && it.key == c.key
  {
    WrittenByPut(puts, c);
    var i :| 0 <= i < |puts| && puts[i].cell == c;
    it := Item(c.key, FIRST + i, puts[i].value);
  }

  lemma EmptyBatch(w: Patch)
    ensures BatchOf([], w, {})
  {
  }

  /** `base` is the content of the snapshot the transaction reads from. */
  class BaseTransaction {
    const base: Db
    var memtables: map<nat, seq<Item>>
    var seqno: nat
    ghost var puts: seq<Op>

    ghost predicate Valid()
      reads this
    {
      && AllPuts(puts) && seqno == FIRST + |puts|
      && (forall ks :: ks in memtables ==> Mirrors(memtables[ks], ks, puts))
      && (forall i :: 0 <= i < |puts| ==> puts[i].cell.ks in memtables)
    }

    /** The database as this transaction sees it. */
    ghost function View(): Db
      reads this
    {
      Patched(base, Writes(puts))
    }

    constructor (base: Db)
      ensures Valid() && this.base == base && puts == [] && memtables == map[]
    {
      this.base := base;
      memtables, seqno, puts := map[], FIRST, [];
    }

    method Get(ks: nat, key: Key) returns (r: Option<Value>)
      requires Valid()
      ensures r == Lookup(View(), Cell(ks, key))
    {
      var c := Cell(ks, key);
      LookupPatched(base, Writes(puts), c);
      assert puts[..|puts|] == puts;
      if ks in memtables {
        NewestReplays(memtables[ks], ks, puts, |puts|, key);
        // every stored sequence number is below the next one to be handed out
        var found := Newest(memtables[ks], key, seqno);
        if found.Some? {
          return found.value.value;
        }
      } else {
        if c in Writes(puts) {
          WrittenByPut(puts, c);
        }
      }
      r := Lookup(base, c);
    }

    /** The cells of `todo` that hold a value, with their values. */
    method Present(todo: set<Cell>) returns (found: Db)
      requires Valid()
      ensures found == PresentIn(View(), todo)
    {
      hide Patched, Writes, Mirrors;
      found := map[];
      var rest := todo;
      while rest != {}
        invariant rest <= todo
        invariant found == PresentIn(View(), todo - rest)
        decreases |rest|
      {
        var c :| c in rest;
        var v := Get(c.ks, c.key);
        assert todo - (rest - {c}) == todo - rest + {c};
        rest := rest - {c};
        if v.Some? {
          found := found[c := v.value];
        }
      }
      assert todo - rest == todo;
    }

    /** All entries of a range, own writes included. */
    method Range(ks: nat, start: Bound, end: Bound) returns (found: Db)
      requires Valid()
      ensures found == Window(View(), ks, start, end)
    {
      hide InRange, Mirrors, Window;
      var todo := set c | c in base && c.ks == ks && InRange(start, end, c.key);
      if ks in memtables {
        todo := todo + set it | it in memtables[ks] && InRange(start, end, it.key) :: Cell(ks, it.key);
      }
      WindowCandidates(base, puts, memtables, ks, start, end, todo);
      found := Present(todo);
    }

    method Insert(ks: nat, key: Key, value: Option<Value>)
      requires Valid()
      modifies this
      ensures Valid() && puts == old(puts) + [Put(Cell(ks, key), value)] && memtables != map[]
    {
      var m := if ks in memtables then memtables[ks] else [];
      MirrorsInsert(m, ks, puts, key, value);
      forall other | other in memtables && other != ks
        ensures Mirrors(memtables[other], other, puts + [Put(Cell(ks, key), value)])
      {
        MirrorsElsewhere(memtables[other], other, puts, Put(Cell(ks, key), value));
      }
      memtables := memtables[ks := Inserted(m, Item(key, seqno, value))];
      seqno := seqno + 1;
      puts := puts + [Put(Cell(ks, key), value)];
      assert ks in memtables;
    }

    /** Returns the new value; writes only if it differs from the previous one. */
    method UpdateFetch(ks: nat, key: Key, f: Option<Value> -> Option<Value>) returns (updated: Option<Value>)
      requires Valid()
      modifies this
      ensures Valid() && updated == f(old(Lookup(View(), Cell(ks, key))))
      ensures Lookup(View(), Cell(ks, key)) == updated
      ensures forall c :: c != Cell(ks, key) ==> Lookup(View(), c) == old(Lookup(View(), c))
      ensures puts == old(puts) || puts == old(puts) + [Put(Cell(ks, key), updated)]
    {
      var prev := Get(ks, key);
      updated := f(prev);
      if updated != prev {
        WritesAppend(puts, Put(Cell(ks, key), updated));
        Insert(ks, key, updated);
      }
    }

    /** Returns the previous value; writes only if the new one differs from it. */
    method FetchUpdate(ks: nat, key: Key, f: Option<Value> -> Option<Value>) returns (prev: Option<Value>)
      requires Valid()
      modifies this
      ensures Valid() && prev == old(Lookup(View(), Cell(ks, key)))
      ensures Lookup(View(), Cell(ks, key)) == f(prev)
      ensures forall c :: c != Cell(ks, key) ==> Lookup(View(), c) == old(Lookup(View(), c))
      ensures puts == old(puts) || puts == old(puts) + [Put(Cell(ks, key), f(prev))]
    {
      prev := Get(ks, key);
      var updated := f(prev);
      if updated != prev {
        WritesAppend(puts, Put(Cell(ks, key), updated));
        Insert(ks, key, updated);
      }
    }

    /** The batch handed to the write path: one item per written cell, holding its last write. */
    method CommitBatch() returns (batch: seq<BatchItem>)
      requires Valid()
      ensures BatchOf(batch, Writes(puts), memtables.Keys) && forall c :: c in Writes(puts) ==> c.ks in memtables
    {
      batch := [];
      var todo := memtables.Keys;
      while todo != {}
        invariant todo <= memtables.Keys && BatchOf(batch, Writes(puts), memtables.Keys - todo)
        decreases todo
      {
        var ks :| ks in todo;
        var items := Dedup(memtables[ks]);
        DedupIsNetEffect(memtables[ks], ks, puts);
        TaggedIsBatch(items, Writes(puts), ks);
        BatchJoin(batch, Tagged(ks, items), Writes(puts), memtables.Keys - todo, ks);
        assert memtables.Keys - todo + {ks} == memtables.Keys - (todo - {ks});
        batch := batch + Tagged(ks, items);
        todo := todo - {ks};
      }
      assert memtables.Keys - todo == memtables.Keys;
      forall c | c in Writes(puts)
        ensures c.ks in memtables
      {
        WrittenByPut(puts, c);
      }
    }
  }
}
