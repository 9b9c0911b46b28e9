/** What a transaction read and wrote, and when two such footprints conflict. */
module Conflicts {
  import opened Bytes

  datatype Read = Single(key: Key) | Range(start: Bound, end: Bound) | All

  /** Recorded reads and written keys, per keyspace. */
  datatype Footprint = Footprint(readSet: map<nat, seq<Read>>, writeSet: map<nat, set<Key>>)

  const Blank: Footprint := Footprint(map[], map[])

  predicate Covers(r: Read, k: Key) {
    match r
    case Single(key) => key == k
    case Range(start, end) => InRange(start, end, k)
    case All => true
  }

  /** The ordered-set range query panics on an inverted range, and on an empty one
      whose two ends are the same excluded key. */
  predicate WellFormed(r: Read) {
    match r
    case Range(start, end) =>
      start.Unbounded? || end.Unbounded? || Less(start.key, end.key)
      || (start.key == end.key && !(start.Excluded? && end.Excluded?))
    case _ => true
  }

  function PushedRead(f: Footprint, ks: nat, r: Read): Footprint {
    f.(readSet := f.readSet[ks := (if ks in f.readSet then f.readSet[ks] else []) + [r]])
  }

  function RangeRead(start: Bound, end: Bound): Read {
    if start == Unbounded && end == Unbounded then All else Range(start, end)
  }

  function MarkedConflict(f: Footprint, ks: nat, key: Key): Footprint {
    f.(writeSet := f.writeSet[ks := (if ks in f.writeSet then f.writeSet[ks] else {}) + {key}])
  }

  predicate ReadsKey(f: Footprint, ks: nat, k: Key) {
    ks in f.readSet && exists r :: r in f.readSet[ks] && Covers(r, k)
  }

  predicate WritesKey(f: Footprint, ks: nat, k: Key) {
    ks in f.writeSet && k in f.writeSet[ks]
  }

  /** The other transaction wrote a key that this one read. */
  ghost predicate Clashes(mine: Footprint, other: Footprint) {
    exists ks, k :: ReadsKey(mine, ks, k) && WritesKey(other, ks, k)
  }

  /** The commit records newer than the watermark. */
  function Pruned<V>(committed: map<nat, V>, watermark: nat): map<nat, V> {
    map ts | ts in committed && ts > watermark :: committed[ts]
  }

  /** Recording a read covers exactly the keys of that read, on top of those covered before. */
  lemma PushedReadExact(f: Footprint, ks: nat, r: Read, ks': nat, k: Key)
    ensures ReadsKey(PushedRead(f, ks, r), ks', k) <==> ReadsKey(f, ks', k) || (ks' == ks && Covers(r, k))
  {
    var g := PushedRead(f, ks, r);
    if ks' == ks {
      assert r in g.readSet[ks];
      if ks in f.readSet {
        assert forall x :: x in g.readSet[ks] <==> x in f.readSet[ks] || x == r;
      } else {
        assert g.readSet[ks] == [r];
      }
    }
  }

  /** A transaction that recorded no read conflicts with nobody: blind writes always commit. */
  lemma BlindNeverClashes(mine: Footprint)
    requires mine.readSet == map[]
    ensures forall other :: !Clashes(mine, other) && !IllFormedAgainst(mine, other)
  {
  }

  /** A recorded range covers exactly the keys in the range. */
  lemma RangeReadExact(start: Bound, end: Bound, k: Key)
    ensures Covers(RangeRead(start, end), k) <==> InRange(start, end, k)
  {
  }

  /** Only empty ranges are ill-formed: inverted ones, and those between a key and itself that
      leave the key out on both sides. */
  lemma IllFormedExact(start: Bound, end: Bound)
    ensures !WellFormed(Range(start, end)) ==> forall k :: !InRange(start, end, k)
    ensures !WellFormed(Range(start, end)) <==>
            !start.Unbounded? && !end.Unbounded? && (Less(end.key, start.key) || (start == end && start.Excluded?))
    ensures WellFormed(All) && forall k :: WellFormed(Single(k))
  {
    if !start.Unbounded? && !end.Unbounded? {
      var a, b := start.key, end.key;
      LessTotal(a, b);
      LessIrreflexive(a);
      if Less(b, a) {
        LessAsymmetric(b, a);
      }
      forall k
        ensures !WellFormed(Range(start, end)) ==> !InRange(start, end, k)
      {
        NothingBetween(a, b, k);
      }
    }
  }

  lemma NothingBetween(a: Key, b: Key, k: Key)
    ensures Less(b, a) ==> !(AtMost(a, k) && AtMost(k, b))
    ensures a == b ==> !(Less(a, k) && Less(k, b))
  {
    if AtMost(a, k) && AtMost(k, b) && Less(b, a) {
      if a != k && k != b {
        LessTransitive(a, k, b);
      }
      LessAsymmetric(b, a);
    }
    if a == b && Less(a, k) && Less(k, b) {
      LessAsymmetric(a, k);
    }
  }

  datatype Verdict = Clash | Clear | Panic

  /** An ill-formed recorded range in a keyspace the other transaction wrote to. */
  ghost predicate IllFormedAgainst(mine: Footprint, other: Footprint) {
    exists ks, r :: ks in mine.readSet && ks in other.writeSet && r in mine.readSet[ks] && !WellFormed(r)
  }

  class ConflictManager {
    var readSet: map<nat, seq<Read>>
    var conflictKeys: map<nat, set<Key>>

    ghost function View(): Footprint
      reads this
    {
      Footprint(readSet, conflictKeys)
    }

    constructor ()
      ensures View() == Blank
    {
      readSet, conflictKeys := map[], map[];
    }

    method PushRead(ks: nat, r: Read)
      modifies this
      ensures View() == PushedRead(old(View()), ks, r)
    {
      if ks in readSet {
        readSet := readSet[ks := readSet[ks] + [r]];
      } else {
        assert [] + [r] == [r];
        readSet := readSet[ks := [r]];
      }
    }

    method MarkRead(ks: nat, key: Key)
      modifies this
      ensures View() == PushedRead(old(View()), ks, Single(key))
    {
      PushRead(ks, Single(key));
    }

    method MarkRange(ks: nat, start: Bound, end: Bound)
      modifies this
      ensures View() == PushedRead(old(View()), ks, RangeRead(start, end))
      ensures forall ks', k :: ReadsKey(View(), ks', k) <==> old(ReadsKey(View(), ks', k)) || (ks' == ks && InRange(start, end, k))
    {
      ghost var before := View();
      forall ks', k
        ensures ReadsKey(PushedRead(before, ks, RangeRead(start, end)), ks', k) <==> ReadsKey(before, ks', k) || (ks' == ks && InRange(start, end, k))
      {
        PushedReadExact(before, ks, RangeRead(start, end), ks', k);
        RangeReadExact(start, end, k);
      }
      if start == Unbounded && end == Unbounded {
        PushRead(ks, All);
      } else {
        PushRead(ks, Range(start, end));
      }
    }

    method MarkConflict(ks: nat, key: Key)
      modifies this
      ensures View() == MarkedConflict(old(View()), ks, key)
    {
      if ks in conflictKeys {
        conflictKeys := conflictKeys[ks := conflictKeys[ks] + {key}];
      } else {
        assert {} + {key} == {key};
        conflictKeys := conflictKeys[ks := {key}];
      }
    }

    /** Tests this transaction's reads against another transaction's written keys. */
    method HasConflict(other: ConflictManager) returns (v: Verdict)
      ensures v == Clash ==> Clashes(View(), other.View())
      ensures v == Clear ==> !Clashes(View(), other.View()) && !IllFormedAgainst(View(), other.View())
      ensures v == Panic ==> IllFormedAgainst(View(), other.View())
      ensures !IllFormedAgainst(View(), other.View()) ==> (v == Clash <==> Clashes(View(), other.View()))
    {
      var todo := readSet.Keys;
      while todo != {}
        invariant todo <= readSet.Keys
        invariant forall ks, k :: ks in readSet.Keys - todo ==> !(ReadsKey(View(), ks, k) && WritesKey(other.View(), ks, k))
        invariant forall ks, r :: ks in readSet.Keys - todo && ks in other.conflictKeys && r in readSet[ks] ==> WellFormed(r)
        decreases todo
      {
        var ks :| ks in todo;
        if ks in other.conflictKeys {
          v := ScanReads(readSet[ks], other.conflictKeys[ks]);
          if v == Clash {
            var r, k :| r in readSet[ks] && k in other.conflictKeys[ks] && Covers(r, k);
            assert ReadsKey(View(), ks, k) && WritesKey(other.View(), ks, k);
            return;
          }
          if v == Panic {
            return;
          }
        }
        todo := todo - {ks};
      }
      v := Clear;
    }
  }

  method ScanReads(rs: seq<Read>, written: set<Key>) returns (v: Verdict)
    ensures v == Clash ==> exists r, k :: r in rs && k in written && Covers(r, k)
    ensures v == Clear ==> forall r, k :: r in rs && k in written ==> !Covers(r, k)
    ensures v == Clear ==> forall r :: r in rs ==> WellFormed(r)
    ensures v == Panic ==> exists r :: r in rs && !WellFormed(r)
  {
    for i := 0 to |rs|
      invariant forall r, k :: r in rs[..i] && k in written ==> !Covers(r, k)
      invariant forall r :: r in rs[..i] ==> WellFormed(r)
    {
      var r := rs[i];
      var hit := false;
      match r {
        case Single(key) =>
          hit := key in written;
        case Range(start, end) =>
          if !WellFormed(r) {
            return Panic;
          }
          hit := AnyInRange(start, end, written);
        case All =>
          hit := written != {};
      }
      if hit {
        assert exists k :: k in written && Covers(r, k) by {
          if r.All? {
            var k :| k in written;
            assert Covers(r, k);
          }
        }
        return Clash;
      }
      assert rs[..i + 1] == rs[..i] + [r];
    }
    assert rs[..|rs|] == rs;
    v := Clear;
  }

  method AnyInRange(start: Bound, end: Bound, written: set<Key>) returns (found: bool)
    ensures found <==> exists k :: k in written && InRange(start, end, k)
  {
    var todo := written;
    while todo != {}
      invariant todo <= written
      invariant forall k :: k in written - todo ==> !InRange(start, end, k)
      decreases todo
    {
      var k :| k in todo;
      if InRange(start, end, k) {
        return true;
      }
      todo := todo - {k};
    }
    found := false;
  }
}
