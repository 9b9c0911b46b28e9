/** Reading batches back from a journal file, and what a torn tail can do to them. */
module BatchReader {
  import opened Bytes
  import opened JournalEntry

  datatype ReadItem = ReadItem(ks: nat, key: Key, value: seq<Byte>, valueType: ValueType)

  datatype Batch = Batch(seqno: nat, items: seq<ReadItem>, cleared: seq<nat>)

  datatype Error = InsufficientLength | TooManyItems | ChecksumMismatch

  /** The reader's fields. `hashed` is the input of the running checksum and `lastValid`
      the end of the last complete batch. */
  datatype Reader = Reader(
    pos: nat,
    inBatch: bool,
    counter: nat,
    seqno: nat,
    items: seq<ReadItem>,
    cleared: seq<nat>,
    hashed: seq<Byte>,
    lastValid: nat)

  /** A reader between two batches. */
  function Fresh(pos: nat, seqno: nat): Reader {
    Reader(pos, false, 0, seqno, [], [], [], pos)
  }

  /** What one decoded entry does to the reader. */
  datatype Fed = Continue(reader: Reader) | Emit(batch: Batch, reader: Reader) | Stop | Reject(error: Error)

  function Feed(z: Codec, r: Reader, e: Entry, pos: nat): Fed {
    match e
    case Start(itemCount, seqno) =>
      if r.inBatch then Stop
      else Continue(r.(pos := pos, inBatch := true, counter := itemCount, seqno := seqno))
    case End(expected) =>
      if r.counter > 0 then Reject(InsufficientLength)
      else if !r.inBatch then Stop
      else if z.checksum(r.hashed) != expected then Reject(ChecksumMismatch)
      else Emit(Batch(r.seqno, r.items, r.cleared), Fresh(pos, r.seqno))
    case Item(ks, key, value, valueType, _) =>
      if !r.inBatch then Stop
      else if r.counter == 0 then Reject(TooManyItems)
      else Continue(r.(pos := pos, counter := r.counter - 1, hashed := r.hashed + Encode(z, e),
                       items := r.items + [ReadItem(ks, key, value, valueType)]))
    case Clear(ks) =>
      if !r.inBatch then Stop
      else if r.counter == 0 then Reject(TooManyItems)
      else Continue(r.(pos := pos, counter := r.counter - 1, hashed := r.hashed + Encode(z, e),
                       cleared := r.cleared + [ks]))
  }

  datatype Yield = Yielded(batch: Batch) | Ended | Failed(error: Error)

  /** The result of one call: what was returned, the file afterwards, and the reader. */
  datatype Outcome = Outcome(result: Yield, file: seq<Byte>, reader: Reader)

  predicate Within(r: Reader, file: seq<Byte>) {
    r.lastValid <= r.pos <= |file|
  }

  /** The file once reading stopped at an undecodable position: cut there, and cut back to
      the last complete batch if one was open. */
  function Closed(r: Reader, file: seq<Byte>): seq<Byte>
    requires Within(r, file)
  {
    if r.inBatch then file[..r.lastValid] else file[..r.pos]
  }

  function Next(z: Codec, file: seq<Byte>, r: Reader): Outcome
    requires Within(r, file)
    decreases |file| - r.pos
  {
    DecodeUses(z, file[r.pos..]);
    match Decode(z, file[r.pos..])
    case Broken => Outcome(Ended, Closed(r, file), r)
    case Decoded(e, used) =>
      match Feed(z, r, e, r.pos + used)
      case Continue(r') => Next(z, file, r')
      case Emit(batch, r') => Outcome(Yielded(batch), file, r')
      case Stop => Outcome(Ended, file[..r.lastValid], r)
      case Reject(error) => Outcome(Failed(error), file, r)
  }

  lemma {:induction false} NextAdvances(z: Codec, file: seq<Byte>, r: Reader)
    requires Within(r, file)
    ensures var o := Next(z, file, r);
            o.result.Yielded? ==> o.file == file && r.pos < o.reader.pos <= |file| && o.reader == Fresh(o.reader.pos, o.reader.seqno)
    decreases |file| - r.pos
  {
    hide Encode, Decode;
    DecodeUses(z, file[r.pos..]);
    match Decode(z, file[r.pos..])
    case Broken =>
    case Decoded(e, used) =>
      var fed := Feed(z, r, e, r.pos + used);
      if fed.Continue? {
        NextAdvances(z, file, fed.reader);
      }
  }

  /** Draining the reader: all batches, how it ended, and the file afterwards. */
  datatype Run = Run(batches: seq<Batch>, end: Yield, file: seq<Byte>)

  function ReadAll(z: Codec, file: seq<Byte>, r: Reader): Run
    requires Within(r, file)
    decreases |file| - r.pos
  {
    NextAdvances(z, file, r);
    var o := Next(z, file, r);
    if o.result.Yielded? then
      var rest := ReadAll(z, file, o.reader);
      rest.(batches := [o.result.batch] + rest.batches)
    else
      Run([], o.result, o.file)
  }

  // ---------------------------------------------------------------------------
  // Writing batches.

  /** A batch as the writer frames it: items and clear markers. */
  datatype Written = Written(seqno: nat, entries: seq<Entry>)

  function EncodeAll(z: Codec, es: seq<Entry>): seq<Byte> {
    if es == [] then [] else Encode(z, es[0]) + EncodeAll(z, es[1..])
  }

  /** Start marker, entries, end marker with the checksum of the entries. */
  function FrameEntries(z: Codec, w: Written): seq<Entry> {
    [Start(|w.entries|, w.seqno)] + w.entries + [End(z.checksum(EncodeAll(z, w.entries)))]
  }

  function Frame(z: Codec, w: Written): seq<Byte> {
    EncodeAll(z, FrameEntries(z, w))
  }

  function FrameAll(z: Codec, ws: seq<Written>): seq<Byte> {
    if ws == [] then [] else Frame(z, ws[0]) + FrameAll(z, ws[1..])
  }

  predicate Payload(z: Codec, es: seq<Entry>) {
    forall i :: 0 <= i < |es| ==> (es[i].Item? || es[i].Clear?) && Fits(z, es[i])
  }

  predicate Writable(z: Codec, w: Written) {
    |w.entries| < TWO_32 && w.seqno < TWO_64 && Payload(z, w.entries)
  }

  function ItemsOf(es: seq<Entry>): seq<ReadItem> {
    if es == [] then []
    else if es[0].Item? then [ReadItem(es[0].ks, es[0].key, es[0].value, es[0].valueType)] + ItemsOf(es[1..])
    else ItemsOf(es[1..])
  }

  function ClearsOf(es: seq<Entry>): seq<nat> {
    if es == [] then []
    else if es[0].Clear? then [es[0].ks] + ClearsOf(es[1..])
    else ClearsOf(es[1..])
  }

  function AsRead(w: Written): Batch {
    Batch(w.seqno, ItemsOf(w.entries), ClearsOf(w.entries))
  }

  function AsReads(ws: seq<Written>): seq<Batch> {
    if ws == [] then [] else [AsRead(ws[0])] + AsReads(ws[1..])
  }

  lemma {:induction false} EncodeAllConcat(z: Codec, a: seq<Entry>, b: seq<Entry>)
    ensures EncodeAll(z, a + b) == EncodeAll(z, a) + EncodeAll(z, b)
  {
    if a == [] {
      assert a + b == b;
    } else {
      assert (a + b)[1..] == a[1..] + b;
      EncodeAllConcat(z, a[1..], b);
    }
  }

  // ---------------------------------------------------------------------------
  // Reading what was written.

  /** The reader inside a batch after taking in the entries `es`. */
  function Took(z: Codec, r: Reader, es: seq<Entry>): Reader
    requires |es| <= r.counter
  {
    r.(pos := r.pos + |EncodeAll(z, es)|, counter := r.counter - |es|, hashed := r.hashed + EncodeAll(z, es),
       items := r.items + ItemsOf(es), cleared := r.cleared + ClearsOf(es))
  }

  /** The file holds `bytes` at `pos`. */
  predicate At(file: seq<Byte>, pos: nat, bytes: seq<Byte>) {
    pos + |bytes| <= |file| && file[pos..pos + |bytes|] == bytes
  }

  lemma AtSplit(file: seq<Byte>, pos: nat, a: seq<Byte>, b: seq<Byte>)
    requires At(file, pos, a + b)
    ensures At(file, pos, a) && At(file, pos + |a|, b)
  {
    var here := file[pos..pos + |a + b|];
    assert here[..|a|] == a && here[|a|..] == b;
    assert file[pos..pos + |a|] == here[..|a|];
    assert file[pos + |a|..pos + |a| + |b|] == here[|a|..];
  }

  /** One entry's worth of reading. */
  lemma NextStep(z: Codec, file: seq<Byte>, r: Reader, e: Entry, used: nat)
    requires Within(r, file) && Decode(z, file[r.pos..]) == Decoded(e, used)
    ensures var fed := Feed(z, r, e, r.pos + used);
            && (fed.Continue? ==> Within(fed.reader, file) && Next(z, file, r) == Next(z, file, fed.reader))
            && (fed.Emit? ==> Next(z, file, r) == Outcome(Yielded(fed.batch), file, fed.reader))
  {
    hide Decode, Encode;
    DecodeUses(z, file[r.pos..]);
  }

  lemma ReadEntry(z: Codec, file: seq<Byte>, r: Reader, e: Entry)
    requires Faithful(z) && Fits(z, e) && Within(r, file) && At(file, r.pos, Encode(z, e))
    ensures var fed := Feed(z, r, e, r.pos + |Encode(z, e)|);
            && (fed.Continue? ==> Within(fed.reader, file) && Next(z, file, r) == Next(z, file, fed.reader))
            && (fed.Emit? ==> Next(z, file, r) == Outcome(Yielded(fed.batch), file, fed.reader))
  {
    hide Encode, Decode, Fits, Faithful, Feed, Next;
    var n := |Encode(z, e)|;
    assert file[r.pos..] == file[r.pos..r.pos + n] + file[r.pos + n..];
    DecodeEncoded(z, e, file[r.pos + n..]);
    NextStep(z, file, r, e, n);
  }

  lemma TookCons(z: Codec, r: Reader, es: seq<Entry>)
    requires es != [] && r.inBatch && |es| <= r.counter && (es[0].Item? || es[0].Clear?)
    ensures var fed := Feed(z, r, es[0], r.pos + |Encode(z, es[0])|);
            fed.Continue? && fed.reader.inBatch && |es[1..]| <= fed.reader.counter && Took(z, fed.reader, es[1..]) == Took(z, r, es)
  {
    hide Encode;
    var e, rest := es[0], es[1..];
    assert r.hashed + EncodeAll(z, es) == (r.hashed + Encode(z, e)) + EncodeAll(z, rest);
    if e.Item? {
      var item := ReadItem(e.ks, e.key, e.value, e.valueType);
      assert r.items + ItemsOf(es) == (r.items + [item]) + ItemsOf(rest);
    } else {
      assert r.cleared + ClearsOf(es) == (r.cleared + [e.ks]) + ClearsOf(rest);
    }
  }

  lemma {:induction false} ReadPayload(z: Codec, file: seq<Byte>, r: Reader, es: seq<Entry>)
    requires Faithful(z) && Payload(z, es) && Within(r, file) && r.inBatch && |es| <= r.counter
    requires At(file, r.pos, EncodeAll(z, es))
    ensures Within(Took(z, r, es), file)
    ensures Next(z, file, r) == Next(z, file, Took(z, r, es))
    decreases |es|
  {
    hide Encode, Fits, Faithful, Next;
    if es == [] {
      assert Took(z, r, es) == r;
    } else {
      hide Took, Feed;
      AtSplit(file, r.pos, Encode(z, es[0]), EncodeAll(z, es[1..]));
      ReadEntry(z, file, r, es[0]);
      TookCons(z, r, es);
      FeedPos(z, r, es[0], r.pos + |Encode(z, es[0])|);
      ReadPayload(z, file, Feed(z, r, es[0], r.pos + |Encode(z, es[0])|).reader, es[1..]);
    }
  }

  lemma FeedPos(z: Codec, r: Reader, e: Entry, pos: nat)
    ensures Feed(z, r, e, pos).Continue? ==>
              Feed(z, r, e, pos).reader.pos == pos && Feed(z, r, e, pos).reader.lastValid == r.lastValid
    ensures Feed(z, r, e, pos).Emit? ==>
              Feed(z, r, e, pos).reader.pos == pos && Feed(z, r, e, pos).reader.lastValid == pos
  {
    hide Encode;
  }

  lemma FrameSplit(z: Codec, w: Written)
    ensures Frame(z, w) == Encode(z, Start(|w.entries|, w.seqno))
                           + (EncodeAll(z, w.entries) + Encode(z, End(z.checksum(EncodeAll(z, w.entries)))))
  {
    hide Encode;
    var end := [End(z.checksum(EncodeAll(z, w.entries)))];
    assert FrameEntries(z, w)[1..] == w.entries + end;
    EncodeAllConcat(z, w.entries, end);
    assert EncodeAll(z, end) == Encode(z, end[0]) by { assert end[1..] == []; }
  }

  function StartOf(w: Written): Entry {
    Start(|w.entries|, w.seqno)
  }

  function EndOf(z: Codec, w: Written): Entry {
    End(z.checksum(EncodeAll(z, w.entries)))
  }

  /** The reader just after the start marker of a batch that begins at `pos`. */
  function Opened(z: Codec, pos: nat, w: Written): Reader {
    Reader(pos + |Encode(z, StartOf(w))|, true, |w.entries|, w.seqno, [], [], [], pos)
  }

  lemma FrameAt(z: Codec, file: seq<Byte>, pos: nat, w: Written)
    requires At(file, pos, Frame(z, w))
    ensures At(file, pos, Encode(z, StartOf(w)))
    ensures At(file, Opened(z, pos, w).pos, EncodeAll(z, w.entries))
    ensures At(file, Opened(z, pos, w).pos + |EncodeAll(z, w.entries)|, Encode(z, EndOf(z, w)))
    ensures |Frame(z, w)| == |Encode(z, StartOf(w))| + |EncodeAll(z, w.entries)| + |Encode(z, EndOf(z, w))|
  {
    hide Encode, EncodeAll, Frame, At;
    FrameSplit(z, w);
    AtSplit(file, pos, Encode(z, StartOf(w)), EncodeAll(z, w.entries) + Encode(z, EndOf(z, w)));
    AtSplit(file, pos + |Encode(z, StartOf(w))|, EncodeAll(z, w.entries), Encode(z, EndOf(z, w)));
  }

  lemma ReadStart(z: Codec, file: seq<Byte>, pos: nat, seqno: nat, w: Written)
    requires Faithful(z) && Writable(z, w) && At(file, pos, Encode(z, StartOf(w)))
    ensures Within(Opened(z, pos, w), file)
    ensures Next(z, file, Fresh(pos, seqno)) == Next(z, file, Opened(z, pos, w))
  {
    hide Encode, Next, Faithful, Payload;
    ReadEntry(z, file, Fresh(pos, seqno), StartOf(w));
  }

  lemma ReadEnd(z: Codec, file: seq<Byte>, pos: nat, w: Written)
    requires Faithful(z) && Within(Took(z, Opened(z, pos, w), w.entries), file)
    requires At(file, Took(z, Opened(z, pos, w), w.entries).pos, Encode(z, EndOf(z, w)))
    ensures var r := Took(z, Opened(z, pos, w), w.entries);
            Next(z, file, r) == Outcome(Yielded(AsRead(w)), file, Fresh(r.pos + |Encode(z, EndOf(z, w))|, w.seqno))
  {
    hide Encode, Next, EncodeAll;
    var r := Took(z, Opened(z, pos, w), w.entries);
    assert r.hashed == EncodeAll(z, w.entries) && r.items == ItemsOf(w.entries) && r.cleared == ClearsOf(w.entries);
    ReadEntry(z, file, r, EndOf(z, w));
  }

  /** A complete batch is returned as written, and leaves the reader at its end. */
  lemma ReadFrame(z: Codec, file: seq<Byte>, pos: nat, seqno: nat, w: Written)
    requires Faithful(z) && Writable(z, w) && At(file, pos, Frame(z, w))
    ensures Next(z, file, Fresh(pos, seqno)) == Outcome(Yielded(AsRead(w)), file, Fresh(pos + |Frame(z, w)|, w.seqno))
  {
    hide Encode, Next, EncodeAll, Frame, Faithful, Payload, At;
    FrameAt(z, file, pos, w);
    ReadStart(z, file, pos, seqno, w);
    ReadPayload(z, file, Opened(z, pos, w), w.entries);
    ReadEnd(z, file, pos, w);
  }

  // ---------------------------------------------------------------------------
  // The reader object.

  /** The open journal file and the reader's fields. */
  class JournalBatchReader {
    const z: Codec
    var file: seq<Byte>
    var pos: nat
    var items: seq<ReadItem>
    var clearedKeyspaces: seq<nat>
    var isInBatch: bool
    var batchCounter: nat
    var batchSeqno: nat
    var lastValidPos: nat
    var hashed: seq<Byte>

    ghost function View(): Reader
      reads this
    {
      Reader(pos, isInBatch, batchCounter, batchSeqno, items, clearedKeyspaces, hashed, lastValidPos)
    }

    constructor (z: Codec, file: seq<Byte>)
      ensures this.z == z && this.file == file && View() == Fresh(0, 0)
    {
      this.z, this.file := z, file;
      pos, items, clearedKeyspaces, isInBatch, batchCounter, batchSeqno, lastValidPos, hashed := 0, [], [], false, 0, 0, 0, [];
    }

    method NextBatch() returns (result: Yield)
      requires Within(View(), file)
      modifies this
      ensures var o := Next(z, old(file), old(View()));
              result == o.result && file == o.file && (result.Yielded? ==> View() == o.reader && Within(View(), file))
    {
      hide Decode, Encode, Feed;
      while true
        invariant Within(View(), file) && file == old(file)
        invariant Next(z, file, View()) == Next(z, old(file), old(View()))
        decreases |file| - pos
      {
        DecodeUses(z, file[pos..]);
        match Decode(z, file[pos..]) {
          case Broken =>
            file := file[..pos];
            if isInBatch {
              file := file[..lastValidPos];
            }
            return Ended;
          case Decoded(e, used) =>
            FeedPos(z, View(), e, pos + used);
            var done := Take(e, pos + used);
            if done.Some? {
              return done.value;
            }
        }
      }
    }

    /** Takes in one decoded entry that ends at `at`; answers when the call is over. */
    method Take(e: Entry, at: nat) returns (done: Option<Yield>)
      requires Within(View(), file)
      modifies this
      ensures match Feed(z, old(View()), e, at)
              case Continue(r) => done == None && View() == r && file == old(file)
              case Emit(batch, r) => done == Some(Yielded(batch)) && View() == r && file == old(file)
              case Stop => done == Some(Ended) && file == old(file)[..old(lastValidPos)]
              case Reject(error) => done == Some(Failed(error)) && file == old(file)
    {
      hide Encode;
      done := None;
      match e {
        case Start(itemCount, seqno) =>
          if isInBatch {
            file := file[..lastValidPos];
            return Some(Ended);
          }
          pos, isInBatch, batchCounter, batchSeqno := at, true, itemCount, seqno;
        case End(expected) =>
          if batchCounter > 0 {
            return Some(Failed(InsufficientLength));
          }
          if !isInBatch {
            file := file[..lastValidPos];
            return Some(Ended);
          }
          if z.checksum(hashed) != expected {
            return Some(Failed(ChecksumMismatch));
          }
          done := Some(Yielded(Batch(batchSeqno, items, clearedKeyspaces)));
          pos, isInBatch, batchCounter, items, clearedKeyspaces, hashed := at, false, 0, [], [], [];
          lastValidPos := at;
        case Item(ks, key, value, valueType, _) =>
          if !isInBatch {
            file := file[..lastValidPos];
            return Some(Ended);
          }
          if batchCounter == 0 {
            return Some(Failed(TooManyItems));
          }
          pos, batchCounter, hashed := at, batchCounter - 1, hashed + Encode(z, e);
          items := items + [ReadItem(ks, key, value, valueType)];
        case Clear(ks) =>
          if !isInBatch {
            file := file[..lastValidPos];
            return Some(Ended);
          }
          if batchCounter == 0 {
            return Some(Failed(TooManyItems));
          }
          pos, batchCounter, hashed := at, batchCounter - 1, hashed + Encode(z, e);
          clearedKeyspaces := clearedKeyspaces + [ks];
      }
    }
  }

  /** The journal writer: appends framed batches to the file. */
  class JournalWriter {
    const z: Codec
    const compression: Compression
    const threshold: nat
    var file: seq<Byte>

    constructor (z: Codec, compression: Compression, threshold: nat)
      ensures this.z == z && this.compression == compression && this.threshold == threshold && file == []
    {
      this.z, this.compression, this.threshold, file := z, compression, threshold, [];
    }

    /** Values at or above the threshold are compressed; threshold 0 turns compression off. */
    function AsEntry(item: ReadItem): Entry {
      Item(item.ks, item.key, item.value, item.valueType,
           if threshold > 0 && |item.value| >= threshold then compression else Uncompressed)
    }

    function AsEntries(items: seq<ReadItem>): seq<Entry> {
      if items == [] then [] else AsEntries(items[..|items| - 1]) + [AsEntry(items[|items| - 1])]
    }

    /** The entries written for a batch read back as its items, types and values included. A
        value is stored compressed exactly when the writer compresses and the value is at least
        as long as a threshold above 0; all others are stored as they are. */
    lemma {:induction false} EntriesReadBack(items: seq<ReadItem>, seqno: nat)
      ensures AsRead(Written(seqno, AsEntries(items))) == Batch(seqno, items, []) && |AsEntries(items)| == |items|
      ensures forall i :: 0 <= i < |items| ==>
                && AsEntries(items)[i].Item?
                && Stored(z, AsEntries(items)[i]) ==
                   if compression == Lz4 && 0 < threshold <= |items[i].value| then z.compress(items[i].value) else items[i].value
    {
      if items != [] {
        var n := |items| - 1;
        EntriesReadBack(items[..n], seqno);
        EntriesSnoc(AsEntries(items[..n]), AsEntry(items[n]));
        assert items == items[..n] + [items[n]];
      }
    }

    method WriteBatch(items: seq<ReadItem>, seqno: nat)
      modifies this
      ensures file == if items == [] then old(file) else old(file) + Frame(z, Written(seqno, AsEntries(items)))
    {
      hide Encode, EncodeAll, Frame;
      if items == [] {
        return;
      }
      var hashed: seq<Byte> := [];
      file := file + Encode(z, Start(|items|, seqno));
      ghost var head := file;
      assert EncodeAll(z, []) == [] by { EncodeNothing(z); }
      for i := 0 to |items|
        invariant |AsEntries(items[..i])| == i && hashed == EncodeAll(z, AsEntries(items[..i]))
        invariant file == head + hashed
      {
        var buf := Encode(z, AsEntry(items[i]));
        assert items[..i + 1][..i] == items[..i];
        EncodeAllSnoc(z, AsEntries(items[..i]), AsEntry(items[i]));
        file := file + buf;
        hashed := hashed + buf;
        assert file == head + hashed;
      }
      assert items[..|items|] == items;
      FrameSplit(z, Written(seqno, AsEntries(items)));
      file := file + Encode(z, End(z.checksum(hashed)));
      Regroup(old(file), Encode(z, Start(|items|, seqno)), hashed, Encode(z, End(z.checksum(hashed))));
    }

    method WriteClear(ks: nat, seqno: nat)
      modifies this
      ensures file == old(file) + Frame(z, Written(seqno, [Clear(ks)]))
    {
      hide Encode;
      var buf := Encode(z, Clear(ks));
      FrameSplit(z, Written(seqno, [Clear(ks)]));
      EncodeAllSnoc(z, [], Clear(ks));
      assert [] + [Clear(ks)] == [Clear(ks)] && [] + buf == buf;
      file := file + Encode(z, Start(1, seqno));
      file := file + buf;
      file := file + Encode(z, End(z.checksum(buf)));
      Regroup(old(file), Encode(z, Start(1, seqno)), buf, Encode(z, End(z.checksum(buf))));
    }
  }

  lemma {:induction false} EntriesSnoc(es: seq<Entry>, e: Entry)
    requires e.Item?
    ensures ItemsOf(es + [e]) == ItemsOf(es) + [ReadItem(e.ks, e.key, e.value, e.valueType)] && ClearsOf(es + [e]) == ClearsOf(es)
  {
    if es == [] {
      assert es + [e] == [e];
    } else {
      assert (es + [e])[1..] == es[1..] + [e];
      EntriesSnoc(es[1..], e);
    }
  }

  lemma EncodeAllSnoc(z: Codec, es: seq<Entry>, e: Entry)
    ensures EncodeAll(z, es + [e]) == EncodeAll(z, es) + Encode(z, e)
  {
    EncodeAllConcat(z, es, [e]);
    assert [e][1..] == [];
    assert EncodeAll(z, [e]) == Encode(z, e) + [];
    assert [] + [e] == [e];
  }

  lemma EncodeNothing(z: Codec)
    ensures EncodeAll(z, []) == []
  {
  }

  lemma Regroup(a: seq<Byte>, b: seq<Byte>, c: seq<Byte>, d: seq<Byte>)
    ensures a + b + c + d == a + (b + (c + d))
  {
  }
}
