/** Scans over the versions of a cell, and deleting them. */
module VersionScan {
  import opened Bytes
  import opened Composite
  import opened Retention

  datatype Entry = Entry(key: Key, value: Value)

  datatype VersionedEntry = VersionedEntry(cell: CompositeKey, value: Value)

  datatype Scan = Scan(minTimestamp: Option<I64>, maxTimestamp: Option<I64>, maxVersions: Option<nat>)

  predicate Includes(scan: Scan, timestamp: I64) {
    && (scan.minTimestamp.Some? ==> timestamp >= scan.minTimestamp.value)
    && (scan.maxTimestamp.Some? ==> timestamp <= scan.maxTimestamp.value)
  }

  predicate SatisfiedBy(scan: Scan, count: nat) {
    scan.maxVersions.Some? && count >= scan.maxVersions.value
  }

  // ---------------------------------------------------------------------------
  // The loop and what it should return.

  /** The scan loop over the rest of a range with `found` collected so far. */
  function Scanned(scan: Scan, entries: seq<Entry>, found: seq<VersionedEntry>): Result<seq<VersionedEntry>> {
    if entries == [] then Ok(found)
    else
      match Decode(entries[0].key)
      case Err(error) => Err(error)
      case Ok(cell) =>
        var found' := if Includes(scan, cell.timestamp) then found + [VersionedEntry(cell, entries[0].value)] else found;
        if SatisfiedBy(scan, |found'|) then Ok(found') else Scanned(scan, entries[1..], found')
  }

  predicate AllDecodable(entries: seq<Entry>) {
    forall i :: 0 <= i < |entries| ==> Decode(entries[i].key).Ok?
  }

  /** The entries whose timestamp the scan includes, in order. */
  function Selected(scan: Scan, entries: seq<Entry>): seq<VersionedEntry>
    requires AllDecodable(entries)
  {
    if entries == [] then []
    else
      var cell := Decode(entries[0].key).value;
      (if Includes(scan, cell.timestamp) then [VersionedEntry(cell, entries[0].value)] else []) + Selected(scan, entries[1..])
  }

  function Limited(scan: Scan, es: seq<VersionedEntry>): seq<VersionedEntry> {
    if scan.maxVersions.Some? && scan.maxVersions.value < |es| then es[..scan.maxVersions.value] else es
  }

  lemma {:induction false} ScannedLimited(scan: Scan, entries: seq<Entry>, found: seq<VersionedEntry>)
    requires AllDecodable(entries) && !SatisfiedBy(scan, |found|)
    ensures Scanned(scan, entries, found) == Ok(Limited(scan, found + Selected(scan, entries)))
  {
    hide Decode;
    if entries == [] {
      assert found + [] == found;
    } else {
      var cell := Decode(entries[0].key).value;
      var rest := Selected(scan, entries[1..]);
      var found' := if Includes(scan, cell.timestamp) then found + [VersionedEntry(cell, entries[0].value)] else found;
      assert found + Selected(scan, entries) == found' + rest;
      if SatisfiedBy(scan, |found'|) {
        assert scan.maxVersions.value == |found'|;
        assert (found' + rest)[..|found'|] == found';
        assert rest == [] ==> found' + rest == found';
      } else {
        ScannedLimited(scan, entries[1..], found');
      }
    }
  }

  /** A scan over decodable entries filters by timestamp and takes the limit. A limit of zero
      is the one exception: it is tested only after an entry was taken in, so the scan is
      right exactly when the first entry, if any, is not included. */
  lemma ScanExact(scan: Scan, entries: seq<Entry>)
    requires AllDecodable(entries)
    ensures Scanned(scan, entries, []) == Ok(Limited(scan, Selected(scan, entries))) <==>
            (scan.maxVersions != Some(0) || entries == [] || !Includes(scan, Decode(entries[0].key).value.timestamp))
  {
    hide Decode;
    if scan.maxVersions != Some(0) {
      ScannedLimited(scan, entries, []);
      assert [] + Selected(scan, entries) == Selected(scan, entries);
    }
  }

  lemma ZeroLimitReturnsOne(key: CompositeKey, value: Value)
    ensures var scan := Scan(None, None, Some(0)); var entries := [Entry(KeyBytes(key), value)];
            Decode(KeyBytes(key)) == Ok(key) && Scanned(scan, entries, []) == Ok([VersionedEntry(key, value)])
  {
    hide Decode, KeyBytes;
    DecodeEncode(key);
    assert [] + [VersionedEntry(key, value)] == [VersionedEntry(key, value)];
  }

  /** An undecodable entry fails the scan exactly when it is reached: the entries before it
      decode and do not fill the limit. */
  lemma {:induction false} ScanFailure(scan: Scan, entries: seq<Entry>, found: seq<VersionedEntry>, n: nat)
    requires n < |entries| && AllDecodable(entries[..n]) && Decode(entries[n].key).Err? && !SatisfiedBy(scan, |found|)
    ensures Scanned(scan, entries, found).Err? <==> !SatisfiedBy(scan, |found| + |Selected(scan, entries[..n])|)
    decreases n
  {
    hide Decode;
    if n > 0 {
      var cell := Decode(entries[..n][0].key).value;
      var found' := if Includes(scan, cell.timestamp) then found + [VersionedEntry(cell, entries[0].value)] else found;
      assert entries[..n][1..] == entries[1..][..n - 1];
      if !SatisfiedBy(scan, |found'|) {
        assert entries[1..][n - 1] == entries[n];
        ScanFailure(scan, entries[1..], found', n - 1);
      }
    }
  }

  // ---------------------------------------------------------------------------
  // Scans of a keyspace.

  /** What iterating a range of the store yields: its entries there, in key order. */
  predicate Iterates(store: map<Key, Value>, range: (Bound, Bound), entries: seq<Entry>) {
    && (forall i, j :: 0 <= i < j < |entries| ==> Less(entries[i].key, entries[j].key))
    && (forall i :: 0 <= i < |entries| ==>
          entries[i].key in store && store[entries[i].key] == entries[i].value && InRange(range.0, range.1, entries[i].key))
    && (forall k :: k in store && InRange(range.0, range.1, k) ==> exists i :: 0 <= i < |entries| && entries[i].key == k)
  }

  method ScanVersionedPrefix(store: map<Key, Value>, prefix: CompositePrefix, scan: Scan, entries: seq<Entry>) returns (r: Result<seq<VersionedEntry>>)
    requires Range(prefix).Ok? ==> Iterates(store, Range(prefix).value, entries)
    ensures r == if Range(prefix).Ok? then Scanned(scan, entries, []) else Err(Range(prefix).error)
  {
    hide Decode, Iterates;
    var range := Range(prefix);
    if range.Err? {
      return Err(range.error);
    }
    var found: seq<VersionedEntry> := [];
    assert entries[0..] == entries;
    for i := 0 to |entries|
      invariant Scanned(scan, entries, []) == Scanned(scan, entries[i..], found)
    {
      var decoded := Decode(entries[i].key);
      assert entries[i..][0] == entries[i] && entries[i..][1..] == entries[i + 1..];
      if decoded.Err? {
        return Err(decoded.error);
      }
      if Includes(scan, decoded.value.timestamp) {
        found := found + [VersionedEntry(decoded.value, entries[i].value)];
      }
      if SatisfiedBy(scan, |found|) {
        return Ok(found);
      }
    }
    r := Ok(found);
  }

  /** The version `k` of the store. */
  predicate Has(store: map<Key, Value>, k: CompositeKey) {
    KeyBytes(k) in store
  }

  function CellPrefix(g: Group): CompositePrefix {
    CompositePrefix(Some(g.row), Some(g.family), Some(g.qualifier), Some(g.visibility))
  }

  lemma CellRange(g: Group, k: CompositeKey)
    requires Range(CellPrefix(g)).Ok?
    ensures InRange(Range(CellPrefix(g)).value.0, Range(CellPrefix(g)).value.1, KeyBytes(k)) <==> GroupOf(k) == g
  {
    hide Range, InRange, KeyBytes;
    RangeExact(CellPrefix(g), k);
  }

  /** The entries of a cell's range are its versions, newest first. */
  lemma RangeHoldsVersions(store: map<Key, Value>, g: Group, entries: seq<Entry>)
    requires Range(CellPrefix(g)).Ok? && Iterates(store, Range(CellPrefix(g)).value, entries) && AllDecodable(entries)
    ensures forall i :: 0 <= i < |entries| ==> GroupOf(Decode(entries[i].key).value) == g
    ensures forall i, j :: 0 <= i < j < |entries| ==> Decode(entries[i].key).value.timestamp > Decode(entries[j].key).value.timestamp
    ensures forall k :: Has(store, k) && GroupOf(k) == g ==> exists i :: 0 <= i < |entries| && entries[i].key == KeyBytes(k)
  {
    hide Decode, Range, InRange, KeyBytes, Less;
    forall i | 0 <= i < |entries|
      ensures GroupOf(Decode(entries[i].key).value) == g
    {
      EncodeDecode(entries[i].key);
      CellRange(g, Decode(entries[i].key).value);
    }
    forall i, j | 0 <= i < j < |entries|
      ensures Decode(entries[i].key).value.timestamp > Decode(entries[j].key).value.timestamp
    {
      EncodeDecode(entries[i].key);
      EncodeDecode(entries[j].key);
      OrderEmbedding(Decode(entries[i].key).value, Decode(entries[j].key).value);
    }
    forall k | Has(store, k) && GroupOf(k) == g
      ensures exists i :: 0 <= i < |entries| && entries[i].key == KeyBytes(k)
    {
      CellRange(g, k);
    }
  }

  predicate NewestFirst(es: seq<VersionedEntry>) {
    forall i, j :: 0 <= i < j < |es| ==> es[i].cell.timestamp > es[j].cell.timestamp
  }

  predicate DescendingEntries(entries: seq<Entry>)
    requires AllDecodable(entries)
  {
    forall i, j :: 0 <= i < j < |entries| ==> Decode(entries[i].key).value.timestamp > Decode(entries[j].key).value.timestamp
  }

  lemma {:induction false} SelectedMembers(scan: Scan, entries: seq<Entry>, e: VersionedEntry)
    requires AllDecodable(entries)
    ensures e in Selected(scan, entries) <==>
            exists i :: 0 <= i < |entries| && e == VersionedEntry(Decode(entries[i].key).value, entries[i].value) && Includes(scan, e.cell.timestamp)
  {
    hide Decode, Includes;
    if entries != [] {
      var rest := entries[1..];
      SelectedMembers(scan, rest, e);
      assert forall i :: 0 <= i < |rest| ==> rest[i] == entries[i + 1];
      if i :| 0 < i < |entries| && e == VersionedEntry(Decode(entries[i].key).value, entries[i].value) && Includes(scan, e.cell.timestamp) {
        assert rest[i - 1] == entries[i];
      }
    }
  }

  lemma {:induction false} SelectedNewestFirst(scan: Scan, entries: seq<Entry>)
    requires AllDecodable(entries) && DescendingEntries(entries)
    ensures NewestFirst(Selected(scan, entries))
  {
    hide Decode, Includes;
    if entries != [] {
      var first, rest := Decode(entries[0].key).value, entries[1..];
      SelectedNewestFirst(scan, rest);
      forall e | e in Selected(scan, rest)
        ensures e.cell.timestamp < first.timestamp
      {
        SelectedMembers(scan, rest, e);
      }
    }
  }

  /** A stored version, with its value, of the cell `g` that the scan includes. */
  predicate Qualifies(store: map<Key, Value>, g: Group, scan: Scan, e: VersionedEntry) {
    Has(store, e.cell) && GroupOf(e.cell) == g && store[KeyBytes(e.cell)] == e.value && Includes(scan, e.cell.timestamp)
  }

  /** A version scan of a cell selects exactly its stored versions within the timestamp bounds,
      newest first, and returns the first `maxVersions` of them. */
  lemma VersionsScanned(store: map<Key, Value>, g: Group, scan: Scan, entries: seq<Entry>)
    requires Range(CellPrefix(g)).Ok? && Iterates(store, Range(CellPrefix(g)).value, entries) && AllDecodable(entries)
    ensures NewestFirst(Selected(scan, entries))
    ensures forall e :: e in Selected(scan, entries) <==> Qualifies(store, g, scan, e)
    ensures scan.maxVersions != Some(0) ==> Scanned(scan, entries, []) == Ok(Limited(scan, Selected(scan, entries)))
  {
    hide Decode, Range, InRange, KeyBytes, Includes;
    RangeHoldsVersions(store, g, entries);
    SelectedNewestFirst(scan, entries);
    forall e
      ensures e in Selected(scan, entries) <==> Qualifies(store, g, scan, e)
    {
      SelectedMembers(scan, entries, e);
      DecodeEncode(e.cell);
      forall i | 0 <= i < |entries| { EncodeDecode(entries[i].key); }
    }
    ScanExact(scan, entries);
  }

  predicate Between(scan: Scan, timestamp: I64) {
    match (scan.minTimestamp, scan.maxTimestamp)
    case (Some(low), Some(high)) => low <= timestamp <= high
    case (Some(low), None) => low <= timestamp
    case (None, Some(high)) => timestamp <= high
    case (None, None) => true
  }

  /** What a version scan of a cell returns, in timestamps: stored versions of the cell between
      the two limits, newest first and no more than asked for. A stored version between the
      limits is missing only if the scan is full and everything returned is newer. */
  lemma ScanBounds(store: map<Key, Value>, g: Group, scan: Scan, entries: seq<Entry>)
    requires Range(CellPrefix(g)).Ok? && Iterates(store, Range(CellPrefix(g)).value, entries) && AllDecodable(entries)
    requires scan.maxVersions != Some(0)
    ensures var r := Scanned(scan, entries, []);
            && r.Ok? && NewestFirst(r.value) && (scan.maxVersions.Some? ==> |r.value| <= scan.maxVersions.value)
            && (forall e :: e in r.value ==>
                  Has(store, e.cell) && GroupOf(e.cell) == g && store[KeyBytes(e.cell)] == e.value && Between(scan, e.cell.timestamp))
            && (forall k :: Has(store, k) && GroupOf(k) == g && Between(scan, k.timestamp) ==>
                  || VersionedEntry(k, store[KeyBytes(k)]) in r.value
                  || (scan.maxVersions == Some(|r.value|) && forall e :: e in r.value ==> e.cell.timestamp > k.timestamp))
  {
    hide Decode, Range, InRange, KeyBytes, Iterates, Scanned, Selected, AllDecodable;
    VersionsScanned(store, g, scan, entries);
    var all := Selected(scan, entries);
    forall e | e in Limited(scan, all)
      ensures Qualifies(store, g, scan, e) && Between(scan, e.cell.timestamp)
    {
      assert e in all;
    }
    forall k | Has(store, k) && GroupOf(k) == g && Between(scan, k.timestamp)
      ensures || VersionedEntry(k, store[KeyBytes(k)]) in Limited(scan, all)
              || (scan.maxVersions == Some(|Limited(scan, all)|) && forall e :: e in Limited(scan, all) ==> e.cell.timestamp > k.timestamp)
    {
      var e := VersionedEntry(k, store[KeyBytes(k)]);
      assert Qualifies(store, g, scan, e);
      var i :| 0 <= i < |all| && all[i] == e;
    }
  }

  const LATEST: Scan := Scan(None, None, Some(1))

  /** No version of a cell is newer than the first entry of its range. */
  lemma FirstIsNewest(store: map<Key, Value>, g: Group, entries: seq<Entry>, k: CompositeKey)
    requires Range(CellPrefix(g)).Ok? && Iterates(store, Range(CellPrefix(g)).value, entries) && Has(store, k) && GroupOf(k) == g
    ensures entries != [] && (Decode(entries[0].key).Ok? ==> k.timestamp <= Decode(entries[0].key).value.timestamp)
  {
    hide Decode, Range, InRange, KeyBytes, Less;
    CellRange(g, k);
    var i :| 0 <= i < |entries| && entries[i].key == KeyBytes(k);
    DecodeEncode(k);
    if i > 0 && Decode(entries[0].key).Ok? {
      var first := Decode(entries[0].key).value;
      EncodeDecode(entries[0].key);
      CellRange(g, first);
      OrderEmbedding(first, k);
    }
  }

  /** The newest version of a cell, or nothing if it has none. */
  method LatestVersion(store: map<Key, Value>, g: Group, entries: seq<Entry>) returns (r: Result<Option<VersionedEntry>>)
    requires Range(CellPrefix(g)).Ok? ==> Iterates(store, Range(CellPrefix(g)).value, entries)
    ensures r.Err? <==> Range(CellPrefix(g)).Err? || (entries != [] && Decode(entries[0].key).Err?)
    ensures r == Ok(None) ==> forall k :: Has(store, k) ==> GroupOf(k) != g
    ensures r.Ok? && r.value.Some? ==>
              && Qualifies(store, g, LATEST, r.value.value)
              && forall k :: Has(store, k) && GroupOf(k) == g ==> k.timestamp <= r.value.value.cell.timestamp
  {
    hide Decode, Range, InRange, KeyBytes, Less;
    var found := ScanVersionedPrefix(store, CellPrefix(g), LATEST, entries);
    if found.Err? {
      return Err(found.error);
    }
    forall k | Has(store, k) && GroupOf(k) == g
      ensures entries != [] && k.timestamp <= Decode(entries[0].key).value.timestamp
    {
      FirstIsNewest(store, g, entries, k);
    }
    if found.value == [] {
      return Ok(None);
    }
    EncodeDecode(entries[0].key);
    CellRange(g, Decode(entries[0].key).value);
    return Ok(Some(found.value[0]));
  }

  // ---------------------------------------------------------------------------
  // Deleting versions.

  /** The versions of `g` to delete: all of them, or those older than the cutoff. */
  predicate Doomed(g: Group, cutoff: Option<I64>, key: Key) {
    && Decode(key).Ok? && GroupOf(Decode(key).value) == g
    && (cutoff.Some? ==> Decode(key).value.timestamp < cutoff.value)
  }

  function Without(store: map<Key, Value>, keys: seq<Key>): map<Key, Value> {
    map k | k in store && k !in keys :: store[k]
  }

  class Keyspace {
    var store: map<Key, Value>

    /** Deletes the doomed versions and nothing else. If an entry of the cell's range does not
        decode, nothing is deleted. */
    method DeleteVersionsMatching(g: Group, cutoff: Option<I64>, entries: seq<Entry>) returns (r: Result<()>)
      requires Range(CellPrefix(g)).Ok? ==> Iterates(store, Range(CellPrefix(g)).value, entries)
      modifies this
      ensures r.Ok? <==> Range(CellPrefix(g)).Ok? && AllDecodable(entries)
      ensures r.Err? ==> store == old(store)
      ensures r.Ok? ==> store == map k | k in old(store) && !Doomed(g, cutoff, k) :: old(store)[k]
      ensures r.Ok? ==> forall k :: old(Has(store, k)) ==>
                (Has(store, k) <==> GroupOf(k) != g || (cutoff.Some? && k.timestamp >= cutoff.value))
    {
      hide Decode, Range, Iterates;
      var range := Range(CellPrefix(g));
      if range.Err? {
        return Err(range.error);
      }
      var keys: seq<Key> := [];
      for i := 0 to |entries|
        invariant store == old(store)
        invariant forall j :: 0 <= j < i ==> Decode(entries[j].key).Ok?
        invariant forall k :: k in keys <==> exists j :: 0 <= j < i && entries[j].key == k && Matching(cutoff, k)
      {
        var decoded := Decode(entries[i].key);
        if decoded.Err? {
          return Err(decoded.error);
        }
        if cutoff.None? || decoded.value.timestamp < cutoff.value {
          keys := keys + [entries[i].key];
        }
      }
      for i := 0 to |keys|
        invariant store == Without(old(store), keys[..i])
      {
        assert keys[..i + 1] == keys[..i] + [keys[i]];
        store := store - {keys[i]};
      }
      assert keys[..|keys|] == keys;
      forall k | k in old(store)
        ensures k in keys <==> Doomed(g, cutoff, k)
      {
        DoomedInRange(old(store), g, cutoff, entries, k);
      }
      forall k | old(Has(store, k))
        ensures Has(store, k) <==> GroupOf(k) != g || (cutoff.Some? && k.timestamp >= cutoff.value)
      {
        DecodeEncode(k);
      }
      r := Ok(());
    }
  }

  predicate Matching(cutoff: Option<I64>, k: Key) {
    Decode(k).Ok? && (cutoff.None? || Decode(k).value.timestamp < cutoff.value)
  }

  lemma DoomedInRange(store: map<Key, Value>, g: Group, cutoff: Option<I64>, entries: seq<Entry>, k: Key)
    requires Range(CellPrefix(g)).Ok? && Iterates(store, Range(CellPrefix(g)).value, entries) && AllDecodable(entries) && k in store
    ensures Doomed(g, cutoff, k) <==> exists j :: 0 <= j < |entries| && entries[j].key == k && Matching(cutoff, k)
  {
    hide Decode, Range, InRange, KeyBytes, Less;
    if Decode(k).Ok? {
      EncodeDecode(k);
      CellRange(g, Decode(k).value);
    }
  }
}
