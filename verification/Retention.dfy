/** The compaction filter that keeps each cell's newest versions. */
module Retention {
  import opened Bytes
  import opened Composite

  const I64_MAX: int := 0x7FFF_FFFF_FFFF_FFFF

  /** `ttl` counts whole seconds. */
  datatype Policy = Policy(maxVersions: Option<nat>, ttl: Option<nat>)

  datatype Group = Group(row: Key, family: Key, qualifier: Key, visibility: Key)

  function GroupOf(k: CompositeKey): Group {
    Group(k.row, k.family, k.qualifier, k.visibility)
  }

  /** Signed subtraction that stops at the smallest value. */
  function SaturatingSub(a: I64, b: nat): I64
    requires b <= I64_MAX
  {
    if a - b < -TWO_63 then -TWO_63 else a - b
  }

  predicate Expired(p: Policy, now: I64, timestamp: I64) {
    p.ttl.Some? && p.ttl.value <= I64_MAX && timestamp <= SaturatingSub(now, p.ttl.value)
  }

  /** A version expires when it reaches the age limit. The one exception is the smallest
      timestamp: where the subtraction saturates, it expires before its age reaches the limit. */
  lemma ExpiryExact(p: Policy, now: I64, timestamp: I64)
    requires p.ttl.Some?
    ensures (Expired(p, now, timestamp) <==> p.ttl.value < TWO_63 && now - timestamp >= p.ttl.value) <==>
            !(p.ttl.value < TWO_63 && timestamp == -TWO_63 && now - p.ttl.value < -TWO_63)
  {
    if p.ttl.value <= I64_MAX {
      var limit := SaturatingSub(now, p.ttl.value);
      assert limit == now - p.ttl.value || (limit == -TWO_63 && now - p.ttl.value < limit);
    }
  }

  // ---------------------------------------------------------------------------
  // The filter as a state machine over decoded keys.

  datatype Filter = Filter(current: Option<Group>, seen: nat)

  const FRESH: Filter := Filter(None, 0)

  function Counted(f: Filter, k: CompositeKey): Filter {
    if f.current == Some(GroupOf(k)) then f.(seen := f.seen + 1) else Filter(Some(GroupOf(k)), 1)
  }

  predicate Keeps(p: Policy, now: I64, f: Filter, k: CompositeKey) {
    !(p.maxVersions.Some? && Counted(f, k).seen > p.maxVersions.value) && !Expired(p, now, k.timestamp)
  }

  function After(f: Filter, ks: seq<CompositeKey>): Filter {
    if ks == [] then f else Counted(After(f, ks[..|ks| - 1]), ks[|ks| - 1])
  }

  /** What a fresh filter keeps of a stream. */
  function Filtered(p: Policy, now: I64, ks: seq<CompositeKey>): seq<CompositeKey> {
    if ks == [] then []
    else
      var n := |ks| - 1;
      Filtered(p, now, ks[..n]) + if Keeps(p, now, After(FRESH, ks[..n]), ks[n]) then [ks[n]] else []
  }

  // ---------------------------------------------------------------------------
  // The specification: per group, newest first.

  predicate Newer(j: CompositeKey, k: CompositeKey) {
    GroupOf(j) == GroupOf(k) && j.timestamp > k.timestamp
  }

  function NewerIn(store: set<CompositeKey>, k: CompositeKey): set<CompositeKey> {
    set j | j in store && Newer(j, k)
  }

  /** Among the newest `maxVersions` of its group, and not expired. */
  predicate Retained(p: Policy, now: I64, store: set<CompositeKey>, k: CompositeKey) {
    (p.maxVersions.Some? ==> |NewerIn(store, k)| < p.maxVersions.value) && !Expired(p, now, k.timestamp)
  }

  function Elements(ks: seq<CompositeKey>): set<CompositeKey> {
    set k | k in ks
  }

  predicate Ascending(ks: seq<CompositeKey>) {
    forall i, j :: 0 <= i < j < |ks| ==> KeyLess(ks[i], ks[j])
  }

  // ---------------------------------------------------------------------------
  // Sorted streams keep groups together.

  lemma LessAntisymmetric(a: Key, b: Key)
    requires AtMost(a, b) && AtMost(b, a)
    ensures a == b
  {
    if Less(a, b) {
      LessAsymmetric(a, b);
    }
  }

  lemma GroupsContiguous(i: CompositeKey, j: CompositeKey, k: CompositeKey)
    requires KeyLess(i, j) && KeyLess(j, k) && GroupOf(i) == GroupOf(k)
    ensures GroupOf(j) == GroupOf(i)
  {
    if i.row != j.row {
      LessAntisymmetric(i.row, j.row);
    } else if i.family != j.family {
      LessAntisymmetric(i.family, j.family);
    } else if i.qualifier != j.qualifier {
      LessAntisymmetric(i.qualifier, j.qualifier);
    } else if i.visibility != j.visibility {
      LessAntisymmetric(i.visibility, j.visibility);
    }
  }

  function InGroup(ks: seq<CompositeKey>, g: Group): set<CompositeKey> {
    set k | k in ks && GroupOf(k) == g
  }

  lemma AscendingFront(ks: seq<CompositeKey>)
    requires ks != [] && Ascending(ks)
    ensures Ascending(ks[..|ks| - 1])
  {
  }

  lemma NotBefore(ks: seq<CompositeKey>, n: nat)
    requires n < |ks| && Ascending(ks)
    ensures ks[n] !in ks[..n]
  {
    forall i | 0 <= i < n
      ensures ks[i] != ks[n]
    {
      LessIrreflexive(ks[i].row);
      assert KeyLess(ks[i], ks[n]);
    }
  }

  lemma GroupGrows(ks: seq<CompositeKey>)
    requires ks != [] && Ascending(ks)
    ensures var n := |ks| - 1; var g := GroupOf(ks[n]);
            |InGroup(ks, g)| == |InGroup(ks[..n], g)| + 1
  {
    hide KeyLess, Ascending;
    var n := |ks| - 1;
    var g := GroupOf(ks[n]);
    NotBefore(ks, n);
    assert ks == ks[..n] + [ks[n]];
    assert InGroup(ks, g) == InGroup(ks[..n], g) + {ks[n]};
  }

  /** The filter's counter is the number of versions of the current group seen so far. */
  lemma {:induction false} CounterExact(ks: seq<CompositeKey>)
    requires ks != [] && Ascending(ks)
    ensures var g := GroupOf(ks[|ks| - 1]); After(FRESH, ks) == Filter(Some(g), |InGroup(ks, g)|)
  {
    hide KeyLess, Ascending, InGroup;
    var n := |ks| - 1;
    GroupGrows(ks);
    if n == 0 {
      NothingInGroup(ks[..0], GroupOf(ks[n]));
    } else {
      AscendingFront(ks);
      CounterExact(ks[..n]);
      if GroupOf(ks[n - 1]) != GroupOf(ks[n]) {
        NewGroup(ks, n);
      }
    }
  }

  lemma NothingInGroup(ks: seq<CompositeKey>, g: Group)
    requires ks == []
    ensures InGroup(ks, g) == {}
  {
  }

  /** A group that differs from its predecessor's was never seen before. */
  lemma NewGroup(ks: seq<CompositeKey>, n: nat)
    requires 0 < n < |ks| && Ascending(ks) && GroupOf(ks[n - 1]) != GroupOf(ks[n])
    ensures InGroup(ks[..n], GroupOf(ks[n])) == {}
  {
    hide KeyLess;
    forall i | 0 <= i < n
      ensures GroupOf(ks[i]) != GroupOf(ks[n])
    {
      if GroupOf(ks[i]) == GroupOf(ks[n]) {
        GroupsContiguous(ks[i], ks[n - 1], ks[n]);
      }
    }
  }

  /** In a sorted stream the newer versions of a cell are those of its group that came before. */
  lemma NewerCameBefore(ks: seq<CompositeKey>, n: nat)
    requires n < |ks| && Ascending(ks)
    ensures NewerIn(Elements(ks), ks[n]) == InGroup(ks[..n], GroupOf(ks[n]))
  {
    var k := ks[n];
    forall j
      ensures j in ks && Newer(j, k) <==> j in ks[..n] && GroupOf(j) == GroupOf(k)
    {
      if j in ks {
        var i :| 0 <= i < |ks| && ks[i] == j;
        assert i < n ==> KeyLess(j, k) && ks[..n][i] == j;
        assert i > n ==> KeyLess(k, j);
        assert j in ks[..n] ==> exists m :: 0 <= m < n && ks[m] == j && KeyLess(ks[m], k);
      }
    }
  }

  lemma KeepsIsRetained(p: Policy, now: I64, ks: seq<CompositeKey>, n: nat)
    requires n < |ks| && Ascending(ks)
    ensures Keeps(p, now, After(FRESH, ks[..n]), ks[n]) <==> Retained(p, now, Elements(ks), ks[n])
  {
    hide KeyLess;
    var seen := ks[..n + 1];
    assert Ascending(seen) && seen[..n] == ks[..n];
    CounterExact(seen);
    GroupGrows(seen);
    NewerCameBefore(ks, n);
  }

  // ---------------------------------------------------------------------------
  // Main results.

  function Chosen(p: Policy, now: I64, store: set<CompositeKey>, ks: seq<CompositeKey>): seq<CompositeKey> {
    if ks == [] then []
    else
      var n := |ks| - 1;
      Chosen(p, now, store, ks[..n]) + if Retained(p, now, store, ks[n]) then [ks[n]] else []
  }

  lemma {:induction false} FilteredIsChosen(p: Policy, now: I64, ks: seq<CompositeKey>, n: nat)
    requires n <= |ks| && Ascending(ks)
    ensures Filtered(p, now, ks[..n]) == Chosen(p, now, Elements(ks), ks[..n])
  {
    hide KeyLess, Retained, Keeps;
    if n > 0 {
      assert ks[..n][..n - 1] == ks[..n - 1];
      FilteredIsChosen(p, now, ks, n - 1);
      KeepsIsRetained(p, now, ks, n - 1);
    }
  }

  /** On a sorted stream the filter keeps exactly the versions among the newest `maxVersions`
      of their group that have not expired, in order. */
  lemma FilterExact(p: Policy, now: I64, ks: seq<CompositeKey>)
    requires Ascending(ks)
    ensures Filtered(p, now, ks) == Chosen(p, now, Elements(ks), ks)
    ensures forall k :: k in Filtered(p, now, ks) <==> k in ks && Retained(p, now, Elements(ks), k)
  {
    FilteredIsChosen(p, now, ks, |ks|);
    assert ks[..|ks|] == ks;
    forall k
      ensures k in Chosen(p, now, Elements(ks), ks) <==> k in ks && Retained(p, now, Elements(ks), k)
    {
      ChosenMembers(p, now, Elements(ks), ks, k);
    }
  }

  lemma {:induction false} ChosenMembers(p: Policy, now: I64, store: set<CompositeKey>, ks: seq<CompositeKey>, k: CompositeKey)
    ensures k in Chosen(p, now, store, ks) <==> k in ks && Retained(p, now, store, k)
  {
    hide Retained;
    if ks != [] {
      var n := |ks| - 1;
      ChosenMembers(p, now, store, ks[..n], k);
      assert ks == ks[..n] + [ks[n]];
    }
  }

  lemma {:induction false} ChosenAscending(p: Policy, now: I64, store: set<CompositeKey>, ks: seq<CompositeKey>)
    requires Ascending(ks)
    ensures Ascending(Chosen(p, now, store, ks))
  {
    hide Retained, KeyLess;
    if ks != [] {
      var n := |ks| - 1;
      AscendingFront(ks);
      ChosenAscending(p, now, store, ks[..n]);
      forall k | k in Chosen(p, now, store, ks[..n])
        ensures KeyLess(k, ks[n])
      {
        ChosenMembers(p, now, store, ks[..n], k);
        var i :| 0 <= i < n && ks[..n][i] == k;
        assert ks[i] == k;
      }
    }
  }

  lemma {:induction false} SubsetSmaller(a: set<CompositeKey>, b: set<CompositeKey>)
    requires a <= b
    ensures |a| <= |b|
    decreases |a|
  {
    if a != {} {
      var x :| x in a;
      SubsetSmaller(a - {x}, b - {x});
    }
  }

  /** Fewer versions around can only help a version. */
  lemma RetainedMonotone(p: Policy, now: I64, less: set<CompositeKey>, more: set<CompositeKey>, k: CompositeKey)
    requires less <= more && Retained(p, now, more, k)
    ensures Retained(p, now, less, k)
  {
    SubsetSmaller(NewerIn(less, k), NewerIn(more, k));
  }

  lemma {:induction false} ChosenAll(p: Policy, now: I64, store: set<CompositeKey>, ks: seq<CompositeKey>)
    requires forall k :: k in ks ==> Retained(p, now, store, k)
    ensures Chosen(p, now, store, ks) == ks
  {
    hide Retained;
    if ks != [] {
      var n := |ks| - 1;
      ChosenAll(p, now, store, ks[..n]);
      assert ks[n] in ks && ks == ks[..n] + [ks[n]];
    }
  }

  /** Filtering again at the same time changes nothing. */
  lemma FilterIdempotent(p: Policy, now: I64, ks: seq<CompositeKey>)
    requires Ascending(ks)
    ensures Filtered(p, now, Filtered(p, now, ks)) == Filtered(p, now, ks)
  {
    hide KeyLess, Retained, Keeps;
    FilterExact(p, now, ks);
    var kept := Filtered(p, now, ks);
    ChosenAscending(p, now, Elements(ks), ks);
    FilterExact(p, now, kept);
    forall k | k in kept
      ensures Retained(p, now, Elements(kept), k)
    {
      RetainedMonotone(p, now, Elements(kept), Elements(ks), k);
    }
    ChosenAll(p, now, Elements(kept), kept);
  }

  // ---------------------------------------------------------------------------
  // Partial compactions.

  /** Compacting the part of the store in `part` at time `now`. */
  function Compacted(p: Policy, now: I64, store: set<CompositeKey>, part: seq<CompositeKey>): set<CompositeKey> {
    store - (Elements(part) - Elements(Filtered(p, now, part)))
  }

  /** One compaction after another, each over some sorted part of what is left. */
  function Compactions(p: Policy, store: set<CompositeKey>, parts: seq<(I64, seq<CompositeKey>)>): set<CompositeKey> {
    if parts == [] then store else Compactions(p, Compacted(p, parts[0].0, store, parts[0].1), parts[1..])
  }

  predicate Schedule(p: Policy, store: set<CompositeKey>, parts: seq<(I64, seq<CompositeKey>)>) {
    parts != [] ==>
      && Ascending(parts[0].1) && Elements(parts[0].1) <= store
      && Schedule(p, Compacted(p, parts[0].0, store, parts[0].1), parts[1..])
  }

  lemma CompactedKeeps(p: Policy, now: I64, store: set<CompositeKey>, part: seq<CompositeKey>, k: CompositeKey)
    requires Ascending(part) && Elements(part) <= store && k in store && Retained(p, now, store, k)
    ensures k in Compacted(p, now, store, part)
  {
    hide Retained, KeyLess;
    FilterExact(p, now, part);
    RetainedMonotone(p, now, Elements(part), store, k);
  }

  lemma NotYetExpired(p: Policy, earlier: I64, now: I64, store: set<CompositeKey>, k: CompositeKey)
    requires earlier <= now && Retained(p, now, store, k)
    ensures Retained(p, earlier, store, k)
  {
  }

  /** No series of partial compactions removes a version that is among the newest
      `maxVersions` of its group and has not expired at the end. Under a policy without a time
      limit the compaction times do not matter. */
  lemma {:induction false} CompactionsKeepNewest(p: Policy, now: I64, store: set<CompositeKey>, parts: seq<(I64, seq<CompositeKey>)>, k: CompositeKey)
    requires Schedule(p, store, parts) && k in store && Retained(p, now, store, k)
    requires p.ttl.None? || forall i :: 0 <= i < |parts| ==> parts[i].0 <= now
    ensures k in Compactions(p, store, parts) && Retained(p, now, Compactions(p, store, parts), k)
    decreases |parts|
  {
    if parts != [] {
      var time, next := parts[0].0, Compacted(p, parts[0].0, store, parts[0].1);
      if p.ttl.Some? {
        NotYetExpired(p, time, now, store, k);
      }
      CompactedKeeps(p, time, store, parts[0].1, k);
      RetainedMonotone(p, now, next, store, k);
      CompactionsKeepNewest(p, now, next, parts[1..], k);
    }
  }

  /** Whatever is newer than a version that has not expired has not expired either. */
  lemma NewerUnexpired(p: Policy, now: I64, j: CompositeKey, k: CompositeKey)
    requires Newer(j, k) && !Expired(p, now, k.timestamp)
    ensures !Expired(p, now, j.timestamp)
  {
  }

  lemma {:induction false} Oldest(s: set<CompositeKey>, g: Group) returns (k: CompositeKey)
    requires s != {} && forall j :: j in s ==> GroupOf(j) == g
    ensures k in s && forall j :: j in s && j != k ==> Newer(j, k)
    decreases |s|
  {
    k :| k in s;
    if s != {k} {
      assert s - {k} != {} by { assert s == (s - {k}) + {k}; }
      var last := Oldest(s - {k}, g);
      if last.timestamp < k.timestamp {
        k := last;
      }
    }
  }

  /** If enough newer versions use up the limit of a version that has not expired, enough of
      them are left after any compactions to use it up still. */
  lemma {:induction false} LimitStaysUsed(p: Policy, now: I64, store: set<CompositeKey>, left: set<CompositeKey>, k: CompositeKey)
    requires p.maxVersions.Some? && !Expired(p, now, k.timestamp) && p.maxVersions.value <= |NewerIn(store, k)|
    requires forall j :: j in store && Retained(p, now, store, j) ==> j in left
    ensures p.maxVersions.value <= |NewerIn(left, k)|
    decreases |NewerIn(store, k)|
  {
    hide Expired;
    var newer := NewerIn(store, k);
    if newer != {} {
      var j := Oldest(newer, GroupOf(k));
      NewerUnexpired(p, now, j, k);
      assert NewerIn(store, j) == newer - {j};
      if p.maxVersions.value <= |newer| - 1 {
        LimitStaysUsed(p, now, store, left, j);
        SubsetSmaller(NewerIn(left, j), NewerIn(left, k));
      } else {
        forall i | i in newer
          ensures i in NewerIn(left, k)
        {
          NewerUnexpired(p, now, i, k);
          assert NewerIn(store, i) <= newer - {i};
          SubsetSmaller(NewerIn(store, i), newer - {i});
        }
        SubsetSmaller(newer, NewerIn(left, k));
      }
    }
  }

  /** Partial compactions in any order, followed by one over all that is left, leave exactly
      what one compaction of the whole store at that time leaves: the newest `maxVersions` of
      each group that have not expired. */
  lemma CompactionsExact(p: Policy, now: I64, store: set<CompositeKey>, parts: seq<(I64, seq<CompositeKey>)>, last: seq<CompositeKey>)
    requires Schedule(p, store, parts) && Ascending(last) && Elements(last) == Compactions(p, store, parts)
    requires p.ttl.None? || forall i :: 0 <= i < |parts| ==> parts[i].0 <= now
    ensures Compacted(p, now, Compactions(p, store, parts), last) == set k | k in store && Retained(p, now, store, k)
  {
    hide Retained, KeyLess, Schedule;
    var left := Compactions(p, store, parts);
    FilterExact(p, now, last);
    CompactionsShrink(p, store, parts);
    forall k | k in store && Retained(p, now, store, k)
      ensures k in left && Retained(p, now, left, k)
    {
      CompactionsKeepNewest(p, now, store, parts, k);
    }
    forall k | k in left && Retained(p, now, left, k)
      ensures Retained(p, now, store, k)
    {
      StillRetained(p, now, store, left, k);
    }
  }

  lemma StillRetained(p: Policy, now: I64, store: set<CompositeKey>, left: set<CompositeKey>, k: CompositeKey)
    requires Retained(p, now, left, k) && forall j :: j in store && Retained(p, now, store, j) ==> j in left
    ensures Retained(p, now, store, k)
  {
    hide Expired;
    if p.maxVersions.Some? && p.maxVersions.value <= |NewerIn(store, k)| {
      LimitStaysUsed(p, now, store, left, k);
    }
  }

  lemma {:induction false} CompactionsShrink(p: Policy, store: set<CompositeKey>, parts: seq<(I64, seq<CompositeKey>)>)
    ensures Compactions(p, store, parts) <= store
    decreases |parts|
  {
    if parts != [] {
      CompactionsShrink(p, Compacted(p, parts[0].0, store, parts[0].1), parts[1..]);
    }
  }

  // ---------------------------------------------------------------------------
  // Streams that repeat a key.

  /** Ascending, but a key may be repeated. */
  predicate Nondecreasing(ks: seq<CompositeKey>) {
    forall i, j :: 0 <= i < j < |ks| ==> KeyLess(ks[i], ks[j]) || ks[i] == ks[j]
  }

  /** How many entries belong to the group, repeats counted. */
  function CountIn(ks: seq<CompositeKey>, g: Group): nat {
    if ks == [] then 0 else CountIn(ks[..|ks| - 1], g) + if GroupOf(ks[|ks| - 1]) == g then 1 else 0
  }

  predicate NoRepeat(ks: seq<CompositeKey>, g: Group) {
    forall i, j :: 0 <= i < j < |ks| && GroupOf(ks[j]) == g ==> ks[i] != ks[j]
  }

  lemma {:induction false} CountZero(ks: seq<CompositeKey>, g: Group)
    requires forall i :: 0 <= i < |ks| ==> GroupOf(ks[i]) != g
    ensures CountIn(ks, g) == 0
  {
    if ks != [] {
      CountZero(ks[..|ks| - 1], g);
    }
  }

  /** The filter's counter counts entries, not versions. */
  lemma {:induction false} CounterCounts(ks: seq<CompositeKey>)
    requires ks != [] && Nondecreasing(ks)
    ensures var g := GroupOf(ks[|ks| - 1]); After(FRESH, ks) == Filter(Some(g), CountIn(ks, g))
  {
    hide KeyLess;
    var n := |ks| - 1;
    var g := GroupOf(ks[n]);
    if n == 0 {
      assert ks[..0] == [];
    } else {
      CounterCounts(ks[..n]);
      if GroupOf(ks[n - 1]) != g {
        forall i | 0 <= i < n
          ensures GroupOf(ks[i]) != g
        {
          if GroupOf(ks[i]) == g {
            GroupsContiguous(ks[i], ks[n - 1], ks[n]);
          }
        }
        CountZero(ks[..n], g);
      }
    }
  }

  lemma {:induction false} CountsMembers(ks: seq<CompositeKey>, g: Group)
    ensures |InGroup(ks, g)| <= CountIn(ks, g)
    ensures |InGroup(ks, g)| == CountIn(ks, g) <==> NoRepeat(ks, g)
  {
    hide NoRepeat, InGroup;
    if ks == [] {
      NothingInGroup(ks, g);
      EmptyNoRepeat(g);
    } else {
      var n := |ks| - 1;
      CountsMembers(ks[..n], g);
      OneMoreMember(ks[..n], ks[n], g);
      OneMoreRepeat(ks[..n], ks[n], g);
      assert ks == ks[..n] + [ks[n]];
    }
  }

  lemma EmptyNoRepeat(g: Group)
    ensures NoRepeat([], g)
  {
  }

  lemma OneMoreMember(front: seq<CompositeKey>, k: CompositeKey, g: Group)
    ensures |InGroup(front + [k], g)| == |InGroup(front, g)| + if GroupOf(k) == g && k !in front then 1 else 0
  {
    hide GroupOf;
    var before, after := InGroup(front, g), InGroup(front + [k], g);
    assert GroupOf(k) == g ==> after == before + {k};
    assert GroupOf(k) != g ==> after == before;
  }

  lemma OneMoreRepeat(front: seq<CompositeKey>, k: CompositeKey, g: Group)
    ensures NoRepeat(front + [k], g) <==> NoRepeat(front, g) && !(GroupOf(k) == g && k in front)
  {
    hide GroupOf;
    var ks, n := front + [k], |front|;
    assert forall i :: 0 <= i < n ==> ks[i] == front[i];
    assert ks[n] == k;
  }

  /** In a sorted stream the newer versions are those of the group that came before. */
  lemma NewerAmongRepeats(ks: seq<CompositeKey>, n: nat)
    requires n < |ks| && Nondecreasing(ks)
    ensures NewerIn(Elements(ks), ks[n]) == InGroup(ks[..n], GroupOf(ks[n])) - {ks[n]}
  {
    var k := ks[n];
    forall j
      ensures j in ks && Newer(j, k) <==> j in ks[..n] && GroupOf(j) == GroupOf(k) && j != k
    {
      if j in ks {
        var i :| 0 <= i < |ks| && ks[i] == j;
        assert i < n ==> (KeyLess(j, k) || j == k) && ks[..n][i] == j;
        assert i > n ==> KeyLess(k, j) || j == k;
        assert j in ks[..n] ==> exists m :: 0 <= m < n && ks[m] == j && (KeyLess(ks[m], k) || j == k);
      }
    }
  }

  /** The filter never keeps a version too many. It drops one that should stay exactly when
      the entries of its group before it, repeats counted, use up the allowed number although
      the newer versions do not; without repeats up to there the two numbers are the same. */
  lemma RepeatsExact(p: Policy, now: I64, ks: seq<CompositeKey>, n: nat)
    requires n < |ks| && Nondecreasing(ks)
    ensures var g, newer := GroupOf(ks[n]), |NewerIn(Elements(ks), ks[n])|;
            var keeps, retained := Keeps(p, now, After(FRESH, ks[..n]), ks[n]), Retained(p, now, Elements(ks), ks[n]);
            && (keeps ==> retained)
            && (retained && !keeps <==>
                p.maxVersions.Some? && !Expired(p, now, ks[n].timestamp) && newer < p.maxVersions.value <= CountIn(ks[..n], g))
            && newer <= CountIn(ks[..n], g) && (newer == CountIn(ks[..n], g) <==> NoRepeat(ks[..n + 1], g))
  {
    hide KeyLess;
    var g := GroupOf(ks[n]);
    var seen := ks[..n + 1];
    assert Nondecreasing(seen) && seen[..n] == ks[..n];
    CounterCounts(seen);
    NewerAmongRepeats(ks, n);
    SeenMembers(ks, n);
    CountsMembers(seen, g);
  }

  lemma SeenMembers(ks: seq<CompositeKey>, n: nat)
    requires n < |ks|
    ensures var g := GroupOf(ks[n]); |InGroup(ks[..n + 1], g)| == |InGroup(ks[..n], g) - {ks[n]}| + 1
  {
    var g := GroupOf(ks[n]);
    assert ks[..n + 1] == ks[..n] + [ks[n]];
    assert InGroup(ks[..n + 1], g) == (InGroup(ks[..n], g) - {ks[n]}) + {ks[n]};
  }

  // ---------------------------------------------------------------------------
  // The filter over encoded keys.

  datatype Verdict = Keep | Remove | FailClosed

  class SecureRetentionFilter {
    const policy: Policy
    const now: I64
    var current: Option<Group>
    var seen: nat

    constructor (policy: Policy, now: I64)
      ensures this.policy == policy && this.now == now && Filter(current, seen) == FRESH
    {
      this.policy, this.now := policy, now;
      current, seen := None, 0;
    }

    /** A key that does not decode fails the compaction and leaves the filter as it was. */
    method FilterItem(key: Key) returns (verdict: Verdict)
      modifies this
      ensures Decode(key).Err? ==> verdict == FailClosed && Filter(current, seen) == old(Filter(current, seen))
      ensures Decode(key).Ok? ==>
                && Filter(current, seen) == Counted(old(Filter(current, seen)), Decode(key).value)
                && verdict == if Keeps(policy, now, old(Filter(current, seen)), Decode(key).value) then Keep else Remove
    {
      var decoded := Decode(key);
      if decoded.Err? {
        return FailClosed;
      }
      var k := decoded.value;
      if current != Some(GroupOf(k)) {
        current := Some(GroupOf(k));
        seen := 0;
      }
      seen := seen + 1;
      if policy.maxVersions.Some? && seen > policy.maxVersions.value {
        return Remove;
      }
      if Expired(policy, now, k.timestamp) {
        return Remove;
      }
      return Keep;
    }
  }

  predicate AllDecode(stream: seq<Key>) {
    forall i :: 0 <= i < |stream| ==> Decode(stream[i]).Ok?
  }

  function DecodeAll(stream: seq<Key>): (ks: seq<CompositeKey>)
    requires AllDecode(stream)
    ensures |ks| == |stream| && forall i :: 0 <= i < |stream| ==> ks[i] == Decode(stream[i]).value
  {
    seq(|stream|, i requires 0 <= i < |stream| => Decode(stream[i]).value)
  }

  predicate StrictlySorted(stream: seq<Key>) {
    forall i, j :: 0 <= i < j < |stream| ==> Less(stream[i], stream[j])
  }

  /** A stream sorted by its bytes is sorted by group and then newest first. */
  lemma SortedStream(stream: seq<Key>)
    requires AllDecode(stream) && StrictlySorted(stream)
    ensures Ascending(DecodeAll(stream))
  {
    hide Decode, KeyLess;
    var ks := DecodeAll(stream);
    forall i, j | 0 <= i < j < |stream|
      ensures KeyLess(ks[i], ks[j])
    {
      EncodeDecode(stream[i]);
      EncodeDecode(stream[j]);
      OrderEmbedding(ks[i], ks[j]);
    }
  }

  function EncodeAll(ks: seq<CompositeKey>): seq<Key> {
    seq(|ks|, i requires 0 <= i < |ks| => KeyBytes(ks[i]))
  }

  lemma DecodeAllSnoc(stream: seq<Key>, i: nat)
    requires i < |stream| && AllDecode(stream[..i]) && Decode(stream[i]).Ok?
    ensures AllDecode(stream[..i + 1]) && DecodeAll(stream[..i + 1]) == DecodeAll(stream[..i]) + [Decode(stream[i]).value]
  {
    hide Decode;
    assert stream[..i + 1] == stream[..i] + [stream[i]];
  }

  lemma FilteredSnoc(p: Policy, now: I64, ks: seq<CompositeKey>, k: CompositeKey)
    ensures After(FRESH, ks + [k]) == Counted(After(FRESH, ks), k)
    ensures Filtered(p, now, ks + [k]) == Filtered(p, now, ks) + if Keeps(p, now, After(FRESH, ks), k) then [k] else []
  {
    hide Counted, Keeps;
    assert (ks + [k])[..|ks|] == ks;
  }

  /** A compaction's run of the filter. It fails if some key does not decode. Otherwise it
      keeps what the filter keeps, which for a sorted stream without repeats is the encodings
      of exactly the retained versions. */
  method FilterStream(policy: Policy, now: I64, stream: seq<Key>) returns (ok: bool, kept: seq<Key>)
    ensures ok <==> AllDecode(stream)
    ensures ok ==> kept == EncodeAll(Filtered(policy, now, DecodeAll(stream)))
    ensures ok && StrictlySorted(stream) ==> kept == EncodeAll(Chosen(policy, now, Elements(DecodeAll(stream)), DecodeAll(stream)))
  {
    hide Decode, Keeps, Retained, Counted, KeyBytes, StrictlySorted, Ascending, After, Filtered;
    var filter := new SecureRetentionFilter(policy, now);
    kept := [];
    NothingFiltered(policy, now);
    assert stream[..0] == [];
    assert DecodeAll([]) == [];
    for i := 0 to |stream|
      invariant filter.policy == policy && filter.now == now && AllDecode(stream[..i])
      invariant Filter(filter.current, filter.seen) == After(FRESH, DecodeAll(stream[..i]))
      invariant kept == EncodeAll(Filtered(policy, now, DecodeAll(stream[..i])))
    {
      var verdict := filter.FilterItem(stream[i]);
      if verdict == FailClosed {
        return false, kept;
      }
      DecodeAllSnoc(stream, i);
      FilteredSnoc(policy, now, DecodeAll(stream[..i]), Decode(stream[i]).value);
      EncodeDecode(stream[i]);
      if verdict == Keep {
        kept := kept + [stream[i]];
      }
    }
    assert stream[..|stream|] == stream;
    if StrictlySorted(stream) {
      SortedStream(stream);
      FilterExact(policy, now, DecodeAll(stream));
    }
    ok := true;
  }

  lemma NothingFiltered(p: Policy, now: I64)
    ensures After(FRESH, []) == FRESH && Filtered(p, now, []) == []
  {
  }
}
