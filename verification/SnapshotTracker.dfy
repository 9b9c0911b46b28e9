/** Open-snapshot bookkeeping: how many holders each instant has, and the
    garbage-collection watermark derived from it.

    The functions on `State` are the specification; `Tracker` is the object whose
    fields the engine updates in place. A nonce is one holder of an instant. */
module SnapshotTracker {

  /** Every this many releases, a release also runs a collection. */
  const GC_INTERVAL: nat := 10_000

  datatype State = State(visible: nat, counts: map<nat, nat>, freed: nat, watermark: nat)

  function CountOf(s: State, instant: nat): nat {
    if instant in s.counts then s.counts[instant] else 0
  }

  function PredOrZero(n: nat): nat {
    if n == 0 then 0 else n - 1
  }

  function Max(a: nat, b: nat): nat {
    if a < b then b else a
  }

  /** Adds one holder. Opening a snapshot holds `s.visible`; cloning one holds its instant. */
  function Held(s: State, instant: nat): State {
    s.(counts := s.counts[instant := CountOf(s, instant) + 1])
  }

  /** Removes one holder, saturating at zero; an unknown instant is left alone. */
  function Released(s: State, instant: nat): State {
    s.(counts := if instant in s.counts then s.counts[instant := PredOrZero(s.counts[instant])] else s.counts,
       freed := s.freed + 1)
  }

  function Published(s: State, batchSeqno: nat): State {
    s.(visible := Max(s.visible, batchSeqno + 1))
  }

  function PulledUp(s: State): State {
    if s.counts == map[] then s.(watermark := PredOrZero(s.visible)) else s
  }

  predicate Keeps(s: State, k: nat) {
    k in s.counts && (s.counts[k] > 0 || k >= s.visible)
  }

  function Retained(s: State): set<nat> {
    set k | k in s.counts && Keeps(s, k)
  }

  /** `order` lists `keys` without repetition: one possible iteration of the count map. */
  ghost predicate IsOrder(order: seq<nat>, keys: set<nat>) {
    && (forall i, j :: 0 <= i < j < |order| ==> order[i] != order[j])
    && (forall k :: k in order <==> k in keys)
  }

  /** The retained keys in iteration order. */
  function Kept(s: State, order: seq<nat>): seq<nat> {
    if order == [] then []
    else
      var n := |order| - 1;
      if Keeps(s, order[n]) then Kept(s, order[..n]) + [order[n]] else Kept(s, order[..n])
  }

  /** One step of the collection's fold: 0 doubles as "nothing seen yet". */
  function Lower(low: nat, k: nat): nat {
    if low == 0 || k < low then k else low
  }

  function Lowest(ks: seq<nat>): nat {
    if ks == [] then 0 else Lower(Lowest(ks[..|ks| - 1]), ks[|ks| - 1])
  }

  /** The counts left once the sweep has visited `visited`. */
  function Swept(s: State, visited: seq<nat>): map<nat, nat> {
    map k | k in s.counts && (k in visited ==> Keeps(s, k)) :: s.counts[k]
  }

  function Collected(s: State, order: seq<nat>): State {
    var kept := Kept(s, order);
    var low := if kept == [] then s.visible else Lowest(kept);
    s.(counts := map k | k in s.counts && Keeps(s, k) :: s.counts[k],
       watermark := Max(s.watermark, PredOrZero(low)))
  }

  // ---------------------------------------------------------------------------
  // What the tracker owes its holders. `nonces` maps each live holder to its instant.

  function Holders(nonces: map<nat, nat>, instant: nat): set<nat> {
    set n | n in nonces && nonces[n] == instant
  }

  ghost predicate Tracks(s: State, nonces: map<nat, nat>) {
    forall i: nat :: CountOf(s, i) == |Holders(nonces, i)|
  }

  function Instants(nonces: map<nat, nat>): set<nat> {
    set n | n in nonces :: nonces[n]
  }

  /** The watermark is at or below the newest published instant minus one, and strictly
      below every instant in `held` (or has never moved from 0). */
  predicate WatermarkSafe(s: State, held: set<nat>) {
    s.watermark <= PredOrZero(s.visible) && (s.watermark == 0 || forall h :: h in held ==> s.watermark < h)
  }

  predicate Bounded(s: State, held: set<nat>) {
    && (forall k :: k in s.counts ==> k <= s.visible)
    && (forall h :: h in held ==> h <= s.visible)
  }

  /** Nothing here says that the counts are right. */
  predicate Sound(s: State, held: set<nat>) {
    Bounded(s, held) && WatermarkSafe(s, held)
  }

  /** Raising the watermark to one below `k` overtakes nobody. */
  predicate Below(k: nat, held: set<nat>) {
    k <= 1 || forall h :: h in held ==> k <= h
  }

  /** A collection overtakes nobody, whatever the iteration order. With instant 0 retained the
      fold may end at any retained instant; without it, it ends at the smallest. */
  predicate CollectSafe(s: State, held: set<nat>) {
    var kept := Retained(s);
    if kept == {} then Below(s.visible, held)
    else if 0 !in kept then exists k :: k in kept && Below(k, held)
    else forall k :: k in kept ==> Below(k, held)
  }

  predicate PullupSafe(s: State, held: set<nat>) {
    s.counts != map[] || Below(s.visible, held)
  }

  /** A collection cannot be misled by the fold's use of 0. */
  predicate ZeroSafe(s: State) {
    0 !in Retained(s) || forall k :: k in Retained(s) ==> k <= 1
  }

  lemma HoldersGrow(nonces: map<nat, nat>, n: nat, instant: nat)
    requires n !in nonces
    ensures forall i: nat :: |Holders(nonces[n := instant], i)| == |Holders(nonces, i)| + if i == instant then 1 else 0
  {
    forall i: nat { HolderGrows(nonces, n, instant, i); }
  }

  lemma HolderGrows(nonces: map<nat, nat>, n: nat, instant: nat, i: nat)
    requires n !in nonces
    ensures |Holders(nonces[n := instant], i)| == |Holders(nonces, i)| + if i == instant then 1 else 0
  {
    assert Holders(nonces[n := instant], i) == Holders(nonces, i) + if i == instant then {n} else {};
  }

  lemma HoldersShrink(nonces: map<nat, nat>, n: nat)
    requires n in nonces
    ensures forall i: nat :: |Holders(nonces - {n}, i)| == |Holders(nonces, i)| - if i == nonces[n] then 1 else 0
  {
    forall i: nat
      ensures |Holders(nonces - {n}, i)| == |Holders(nonces, i)| - if i == nonces[n] then 1 else 0
    {
      assert Holders(nonces - {n}, i) == Holders(nonces, i) - {n};
    }
  }

  /** Every live holder's instant has an entry with a positive count. */
  lemma HoldersCounted(s: State, nonces: map<nat, nat>)
    requires Tracks(s, nonces)
    ensures forall n :: n in nonces ==> nonces[n] in s.counts && s.counts[nonces[n]] > 0
  {
    forall n | n in nonces
      ensures nonces[n] in s.counts && s.counts[nonces[n]] > 0
    {
      assert n in Holders(nonces, nonces[n]);
      assert CountOf(s, nonces[n]) > 0;
    }
  }

  lemma HoldTracks(s: State, nonces: map<nat, nat>, n: nat, instant: nat)
    requires Tracks(s, nonces) && n !in nonces
    ensures Tracks(Held(s, instant), nonces[n := instant])
  {
    HoldersGrow(nonces, n, instant);
    forall i: nat
      ensures CountOf(Held(s, instant), i) == |Holders(nonces[n := instant], i)|
    {
      assert CountOf(s, i) == |Holders(nonces, i)|;
    }
  }

  lemma DropTracks(s: State, nonces: map<nat, nat>, n: nat)
    requires Tracks(s, nonces) && n in nonces
    ensures Tracks(Released(s, nonces[n]), nonces - {n})
  {
    HoldersShrink(nonces, n);
    HoldersCounted(s, nonces);
    forall i: nat
      ensures CountOf(Released(s, nonces[n]), i) == |Holders(nonces - {n}, i)|
    {
      assert CountOf(s, i) == |Holders(nonces, i)|;
    }
  }

  lemma SameCountsTrack(s: State, s': State, nonces: map<nat, nat>)
    requires Tracks(s, nonces) && forall i: nat :: CountOf(s', i) == CountOf(s, i)
    ensures Tracks(s', nonces)
  {
  }

  /** A release that no holder stands behind keeps the counts right exactly when nobody
      holds the instant: then the count is already 0 and saturates. */
  lemma SurplusTracksExact(s: State, nonces: map<nat, nat>, instant: nat)
    requires Tracks(s, nonces)
    ensures Tracks(Released(s, instant), nonces) <==> Holders(nonces, instant) == {}
  {
    assert CountOf(s, instant) == |Holders(nonces, instant)|;
    var r := Released(s, instant);
    assert CountOf(r, instant) == PredOrZero(CountOf(s, instant));
    if Holders(nonces, instant) == {} {
      assert forall i: nat :: CountOf(r, i) == CountOf(s, i);
    } else {
      assert CountOf(r, instant) != |Holders(nonces, instant)|;
    }
  }

  lemma InstantsGrow(nonces: map<nat, nat>, n: nat, instant: nat)
    requires n !in nonces
    ensures Instants(nonces[n := instant]) == Instants(nonces) + {instant}
  {
    var more := nonces[n := instant];
    assert forall m :: m in nonces ==> more[m] == nonces[m] && more[m] in Instants(more);
    assert more[n] in Instants(more);
  }

  lemma InstantsShrink(nonces: map<nat, nat>, n: nat)
    ensures Instants(nonces - {n}) <= Instants(nonces)
  {
    forall m | m in nonces - {n}
      ensures (nonces - {n})[m] in Instants(nonces)
    {
      assert nonces[m] in Instants(nonces);
    }
  }

  /** Opening (or cloning) a snapshot keeps the tracker sound. */
  lemma HoldSound(s: State, held: set<nat>, instant: nat)
    requires Sound(s, held) && instant <= s.visible && (s.watermark == 0 || s.watermark < instant)
    ensures Sound(Held(s, instant), held + {instant})
  {
  }

  /** The instant handed out by `open` always lies above the watermark. */
  lemma OpenSound(s: State, held: set<nat>)
    requires Sound(s, held)
    ensures Sound(Held(s, s.visible), held + {s.visible})
  {
  }

  /** No release moves the watermark, whether or not a holder stands behind it. */
  lemma ReleaseSound(s: State, held: set<nat>, left: set<nat>, instant: nat)
    requires Sound(s, held) && left <= held
    ensures Sound(Released(s, instant), left)
  {
  }

  lemma PublishSound(s: State, held: set<nat>, batchSeqno: nat)
    requires Sound(s, held)
    ensures Sound(Published(s, batchSeqno), held)
  {
  }

  /** Pull-up stores instead of taking a maximum, yet never lowers the watermark. It overtakes
      nobody exactly when entries remain or every held instant is the visible one. */
  lemma PullupExact(s: State, held: set<nat>)
    requires Sound(s, held)
    ensures s.watermark <= PulledUp(s).watermark
    ensures Sound(PulledUp(s), held) <==> PullupSafe(s, held)
  {
  }

  // ---------------------------------------------------------------------------
  // The collection fold.

  lemma {:induction false} LowestIsMinimum(ks: seq<nat>)
    requires ks != [] && 0 !in ks
    ensures Lowest(ks) in ks && forall k :: k in ks ==> Lowest(ks) <= k
  {
    var n := |ks| - 1;
    assert ks == ks[..n] + [ks[n]];
    if n > 0 {
      LowestIsMinimum(ks[..n]);
    }
  }

  lemma {:induction false} LowestMember(ks: seq<nat>)
    requires ks != []
    ensures Lowest(ks) in ks
  {
    var n := |ks| - 1;
    assert ks == ks[..n] + [ks[n]];
    if n > 0 {
      LowestMember(ks[..n]);
    }
  }

  lemma LowestAppend(ks: seq<nat>, k: nat)
    ensures Lowest(ks + [k]) == Lower(Lowest(ks), k)
  {
    assert (ks + [k])[..|ks|] == ks;
  }

  lemma {:induction false} KeptMembers(s: State, order: seq<nat>)
    ensures forall k :: k in Kept(s, order) <==> k in order && Keeps(s, k)
  {
    if order != [] {
      var n := |order| - 1;
      assert order == order[..n] + [order[n]];
      KeptMembers(s, order[..n]);
    }
  }

  lemma KeptAppend(s: State, order: seq<nat>, k: nat)
    ensures Kept(s, order + [k]) == if Keeps(s, k) then Kept(s, order) + [k] else Kept(s, order)
  {
    assert (order + [k])[..|order|] == order;
  }

  ghost function Enumerate(keys: set<nat>): (order: seq<nat>)
    ensures IsOrder(order, keys)
  {
    if keys == {} then []
    else
      var k :| k in keys;
      [k] + Enumerate(keys - {k})
  }

  lemma GcCounts(s: State, order: seq<nat>)
    ensures forall i: nat :: CountOf(Collected(s, order), i) == CountOf(s, i)
  {
  }

  /** What visiting one more entry does to the sweep's accumulators. */
  lemma SweepStep(s: State, order: seq<nat>, i: nat)
    requires IsOrder(order, s.counts.Keys) && i < |order|
    ensures var k, swept, kept := order[i], Swept(s, order[..i]), Kept(s, order[..i]);
            && k in swept && swept[k] == s.counts[k]
            && (if Keeps(s, k)
                then Swept(s, order[..i + 1]) == swept && Kept(s, order[..i + 1]) == kept + [k]
                     && Lowest(kept + [k]) == Lower(Lowest(kept), k)
                else Swept(s, order[..i + 1]) == swept - {k} && Kept(s, order[..i + 1]) == kept)
  {
    var k := order[i];
    assert order[..i + 1] == order[..i] + [k];
    assert k !in order[..i];
    assert forall x :: x in order[..i + 1] <==> x in order[..i] || x == k;
    KeptAppend(s, order[..i], k);
    LowestAppend(Kept(s, order[..i]), k);
  }

  lemma SweepStart(s: State)
    ensures Swept(s, []) == s.counts && Kept(s, []) == [] && Lowest([]) == 0
  {
  }

  lemma SweepDone(s: State, order: seq<nat>)
    requires IsOrder(order, s.counts.Keys)
    ensures Swept(s, order) == Collected(s, order).counts
  {
  }

  /** Some iteration of `keys` visits `j` and then `k` last. */
  lemma OrderEndingIn(keys: set<nat>, j: nat, k: nat) returns (front: seq<nat>)
    requires j in keys && k in keys && j != k
    ensures IsOrder(front + [j] + [k], keys)
  {
    front := Enumerate(keys - {j, k});
    var order := front + [j] + [k];
    forall x
      ensures x in order <==> x in keys
    {
      assert x in order <==> x in front || x == j || x == k;
    }
  }

  lemma FoldForgetsZero(s: State, front: seq<nat>, k: nat)
    requires Keeps(s, 0) && Keeps(s, k)
    ensures Kept(s, front + [0] + [k]) != [] && Lowest(Kept(s, front + [0] + [k])) == k
  {
    KeptAppend(s, front, 0);
    KeptAppend(s, front + [0], k);
    LowestAppend(Kept(s, front), 0);
    LowestAppend(Kept(s, front) + [0], k);
  }

  /** Where the fold ends. */
  function FoldEnd(s: State, order: seq<nat>): nat {
    if Kept(s, order) == [] then s.visible else Lowest(Kept(s, order))
  }

  lemma CollectedSafeAt(s: State, held: set<nat>, order: seq<nat>)
    requires Sound(s, held) && IsOrder(order, s.counts.Keys)
    ensures s.watermark <= Collected(s, order).watermark
    ensures Sound(Collected(s, order), held) <==> Below(FoldEnd(s, order), held)
  {
    KeptMembers(s, order);
    if Kept(s, order) != [] {
      LowestMember(Kept(s, order));
    }
  }

  /** What a collection leaves: the instants that are counted or not yet passed by the visible
      one. The watermark rises to one below the smallest of them, or below the visible instant
      if there is none, unless it is there already. */
  lemma CollectedExact(s: State, order: seq<nat>)
    requires IsOrder(order, s.counts.Keys)
    ensures var c := Collected(s, order);
            && c.visible == s.visible && c.freed == s.freed
            && (forall k :: k in c.counts <==> k in s.counts && (s.counts[k] > 0 || s.visible <= k))
            && (forall k :: k in c.counts ==> c.counts[k] == s.counts[k])
            && (c.counts == map[] ==> c.watermark == if s.watermark < s.visible - 1 then s.visible - 1 else s.watermark)
            && (c.counts != map[] && 0 !in c.counts ==>
                exists m :: m in c.counts && (forall k :: k in c.counts ==> m <= k)
                            && c.watermark == if s.watermark < m - 1 then m - 1 else s.watermark)
  {
    hide Kept, Lowest;
    var kept, c := Kept(s, order), Collected(s, order);
    KeptMembers(s, order);
    assert forall k :: k in kept <==> k in c.counts;
    if kept == [] {
      assert c.counts == map[];
    } else {
      assert kept[0] in c.counts;
      if 0 !in c.counts {
        LowestIsMinimum(kept);
      }
    }
  }

  lemma FoldEndsSafely(s: State, held: set<nat>, order: seq<nat>)
    requires CollectSafe(s, held) && IsOrder(order, s.counts.Keys)
    ensures Below(FoldEnd(s, order), held)
  {
    KeptMembers(s, order);
    var kept := Kept(s, order);
    assert forall k :: k in kept <==> k in Retained(s);
    if kept != [] {
      LowestMember(kept);
      if 0 !in Retained(s) {
        LowestIsMinimum(kept);
      }
    } else {
      NothingRetained(s, order);
    }
  }

  lemma NothingRetained(s: State, order: seq<nat>)
    requires Kept(s, order) == [] && IsOrder(order, s.counts.Keys)
    ensures Retained(s) == {}
  {
    KeptMembers(s, order);
    assert forall k :: k in Retained(s) ==> k in Kept(s, order);
  }

  /** When the condition fails, some iteration order overtakes a held instant. */
  lemma UnsafeOrder(s: State, held: set<nat>) returns (order: seq<nat>)
    requires !CollectSafe(s, held)
    ensures IsOrder(order, s.counts.Keys) && !Below(FoldEnd(s, order), held)
  {
    order := Enumerate(s.counts.Keys);
    KeptMembers(s, order);
    if 0 in Retained(s) {
      var k :| k in Retained(s) && !Below(k, held);
      var front := OrderEndingIn(s.counts.Keys, 0, k);
      order := front + [0] + [k];
      FoldForgetsZero(s, front, k);
    } else if Kept(s, order) == [] {
      NothingRetained(s, order);
    } else {
      LowestMember(Kept(s, order));
      assert Lowest(Kept(s, order)) in Retained(s);
    }
  }

  /** Exactly when a collection overtakes no held instant for any iteration order of the count
      map, right counts or not. */
  lemma GcExact(s: State, held: set<nat>)
    requires Sound(s, held)
    ensures CollectSafe(s, held) <==>
            forall order :: IsOrder(order, s.counts.Keys) ==> Sound(Collected(s, order), held)
  {
    hide CollectSafe, FoldEnd, Collected, Sound, Below, IsOrder;
    if CollectSafe(s, held) {
      forall order | IsOrder(order, s.counts.Keys)
        ensures Sound(Collected(s, order), held)
      {
        FoldEndsSafely(s, held, order);
        CollectedSafeAt(s, held, order);
      }
    } else {
      var order := UnsafeOrder(s, held);
      CollectedSafeAt(s, held, order);
    }
  }

  /** What is safe for some holders is safe for fewer. */
  lemma SafeForFewer(s: State, held: set<nat>, fewer: set<nat>)
    requires fewer <= held
    ensures CollectSafe(s, held) ==> CollectSafe(s, fewer)
    ensures PullupSafe(s, held) ==> PullupSafe(s, fewer)
  {
    assert forall k :: Below(k, held) ==> Below(k, fewer);
  }

  /** While the counts are right, pull-up is always safe and a collection is safe exactly when
      instant 0 cannot mislead it. */
  lemma TrackedSafe(s: State, nonces: map<nat, nat>)
    requires Tracks(s, nonces) && Bounded(s, Instants(nonces))
    ensures PullupSafe(s, Instants(nonces))
    ensures CollectSafe(s, Instants(nonces)) <==> ZeroSafe(s)
  {
    HoldersCounted(s, nonces);
    assert forall h :: h in Instants(nonces) ==> h in Retained(s);
    if 0 in Retained(s) {
      ZeroRetained(s, nonces);
    } else if Retained(s) != {} {
      var order := Enumerate(s.counts.Keys);
      KeptMembers(s, order);
      var k :| k in Retained(s);
      assert k in Kept(s, order);
      LowestIsMinimum(Kept(s, order));
      assert Below(Lowest(Kept(s, order)), Instants(nonces));
    }
  }

  /** A retained instant 0 is held, or nothing was ever published. */
  lemma ZeroRetained(s: State, nonces: map<nat, nat>)
    requires Tracks(s, nonces) && Bounded(s, Instants(nonces)) && 0 in Retained(s)
    ensures 0 in Instants(nonces) || forall k :: k in Retained(s) ==> k == 0
  {
    assert CountOf(s, 0) == |Holders(nonces, 0)|;
    if s.counts[0] > 0 {
      var n :| n in Holders(nonces, 0);
    }
  }

  /** `after` is `before` collected in some iteration order of its count map. */
  ghost predicate CollectedTo(before: State, after: State) {
    exists order :: IsOrder(order, before.counts.Keys) && after == Collected(before, order)
  }

  /** Closing: one release, and on every GC_INTERVAL-th release a collection as well. */
  ghost predicate ClosedTo(before: State, instant: nat, after: State) {
    var released := Released(before, instant);
    if released.freed % GC_INTERVAL == 0 then CollectedTo(released, after) else after == released
  }

  /** Some iteration order of a hash map with the given keys. */
  method Iterate(keys: set<nat>) returns (order: seq<nat>)
    ensures IsOrder(order, keys)
  {
    order := [];
    var todo := keys;
    while todo != {}
      invariant todo <= keys && IsOrder(order, keys - todo)
      decreases todo
    {
      var k :| k in todo;
      order := order + [k];
      todo := todo - {k};
    }
    assert keys - todo == keys;
  }

  /** The tracker as the engine holds it. */
  class Tracker {
    var seqno: nat
    var data: map<nat, nat>
    var freedCount: nat
    var lowestFreedInstant: nat

    ghost function View(): State
      reads this
    {
      State(seqno, data, freedCount, lowestFreedInstant)
    }

    constructor (visible: nat)
      ensures View() == State(visible, map[], 0, 0)
    {
      seqno, data, freedCount, lowestFreedInstant := visible, map[], 0, 0;
    }

    method Open() returns (instant: nat)
      modifies this
      ensures instant == old(seqno)
      ensures View() == Held(old(View()), instant)
    {
      instant := seqno;
      if instant in data {
        data := data[instant := data[instant] + 1];
      } else {
        data := data[instant := 1];
      }
    }

    method CloneSnapshot(instant: nat)
      modifies this
      ensures View() == Held(old(View()), instant)
    {
      if instant in data {
        data := data[instant := data[instant] + 1];
      } else {
        data := data[instant := 1];
      }
    }

    method CloseRaw(instant: nat)
      modifies this
      ensures ClosedTo(old(View()), instant, View())
      ensures freedCount == old(freedCount) + 1 && seqno == old(seqno)
      ensures freedCount % 10_000 != 0 ==> lowestFreedInstant == old(lowestFreedInstant) && data.Keys == old(data).Keys
      ensures freedCount % 10_000 == 0 ==> CollectedTo(Released(old(View()), instant), View())
    {
      if instant in data {
        data := data[instant := if data[instant] == 0 then 0 else data[instant] - 1];
      }
      freedCount := freedCount + 1;
      assert View() == Released(old(View()), instant);
      if freedCount % GC_INTERVAL == 0 {
        Gc();
      }
    }

    method Publish(batchSeqno: nat)
      modifies this
      ensures View() == Published(old(View()), batchSeqno)
    {
      if seqno < batchSeqno + 1 {
        seqno := batchSeqno + 1;
      }
    }

    method Pullup()
      modifies this
      ensures View() == PulledUp(old(View()))
    {
      if data == map[] {
        lowestFreedInstant := if seqno == 0 then 0 else seqno - 1;
      }
    }

    method Gc()
      modifies this
      ensures CollectedTo(old(View()), View())
    {
      hide Kept, Lowest, Swept, IsOrder;
      var order := Iterate(data.Keys);
      var threshold := seqno;
      var lowestRetained, noneRetained := 0, true;
      ghost var before := View();
      SweepStart(before);
      var i := 0;
      assert order[..0] == [];
      while i < |order|
        invariant 0 <= i <= |order|
        invariant seqno == before.visible && freedCount == before.freed && lowestFreedInstant == before.watermark
        invariant noneRetained <==> Kept(before, order[..i]) == []
        invariant lowestRetained == Lowest(Kept(before, order[..i]))
        invariant data == Swept(before, order[..i])
      {
        var k := order[i];
        SweepStep(before, order, i);
        if data[k] > 0 || k >= threshold {
          lowestRetained := if lowestRetained == 0 || k < lowestRetained then k else lowestRetained;
          noneRetained := false;
        } else {
          data := data - {k};
        }
        i := i + 1;
      }
      assert order[..i] == order;
      SweepDone(before, order);
      if noneRetained {
        lowestRetained := threshold;
      }
      var candidate := if lowestRetained == 0 then 0 else lowestRetained - 1;
      if lowestFreedInstant < candidate {
        lowestFreedInstant := candidate;
      }
      assert View() == Collected(before, order);
    }
  }
}
