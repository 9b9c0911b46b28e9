/** What the batch reader guarantees on any file content at all. */
module ArbitraryBytes {
  import opened Bytes
  import opened JournalEntry
  import opened BatchReader

  /** Cutting the file beyond the returned batch does not change what is returned. */
  lemma {:induction false} NextLocal(z: Codec, file: seq<Byte>, r: Reader, q: nat)
    requires Within(r, file) && Next(z, file, r).result.Yielded? && Next(z, file, r).reader.pos <= q <= |file|
    ensures Within(r, file[..q]) && Next(z, file[..q], r) == Next(z, file, r).(file := file[..q])
    decreases |file| - r.pos
  {
    hide Decode, Encode;
    NextAdvances(z, file, r);
    var d, d' := file[r.pos..], file[..q][r.pos..];
    DecodeUses(z, d);
    var used := Decode(z, d).used;
    var fed := Feed(z, r, Decode(z, d).entry, r.pos + used);
    if fed.Continue? {
      NextAdvances(z, file, fed.reader);
    }
    assert d'[..used] == d[..used];
    DecodeLocal(z, d, d');
    if fed.Continue? {
      NextLocal(z, file, fed.reader, q);
    }
  }

  /** However reading ends without an error, the file is cut to the end of the last batch. */
  lemma {:induction false} EndedCutsBack(z: Codec, file: seq<Byte>, r: Reader)
    requires Within(r, file) && (r.inBatch || r.lastValid == r.pos) && Next(z, file, r).result.Ended?
    ensures Next(z, file, r).file == file[..r.lastValid]
    decreases |file| - r.pos
  {
    hide Decode, Encode;
    DecodeUses(z, file[r.pos..]);
    if Decode(z, file[r.pos..]).Decoded? {
      var fed := Feed(z, r, Decode(z, file[r.pos..]).entry, r.pos + Decode(z, file[r.pos..]).used);
      if fed.Continue? {
        EndedCutsBack(z, file, fed.reader);
      }
    }
  }

  /** Where a run that started at a batch boundary left off: the end of its last batch. */
  function LastEnd(z: Codec, file: seq<Byte>, r: Reader): nat
    requires Within(r, file)
    decreases |file| - r.pos
  {
    NextAdvances(z, file, r);
    var o := Next(z, file, r);
    if o.result.Yielded? then LastEnd(z, file, o.reader) else r.pos
  }

  /** If reading ends without an error, the file now ends at the last returned batch, and
      reading it again returns the same batches and cuts nothing. */
  lemma {:induction false} RereadIsStable(z: Codec, file: seq<Byte>, pos: nat, seqno: nat)
    requires pos <= |file| && ReadAll(z, file, Fresh(pos, seqno)).end.Ended?
    ensures var run := ReadAll(z, file, Fresh(pos, seqno));
            && pos <= LastEnd(z, file, Fresh(pos, seqno)) <= |file|
            && run.file == file[..LastEnd(z, file, Fresh(pos, seqno))]
            && ReadAll(z, run.file, Fresh(pos, seqno)) == run
    decreases |file| - pos
  {
    hide Decode, Encode, Feed;
    var r := Fresh(pos, seqno);
    var o := Next(z, file, r);
    NextAdvances(z, file, r);
    if o.result.Yielded? {
      RereadIsStable(z, file, o.reader.pos, o.reader.seqno);
      var q := LastEnd(z, file, r);
      NextLocal(z, file, r, q);
      NextAdvances(z, file[..q], r);
    } else {
      EndedCutsBack(z, file, r);
      NoBytesLeft(z, file[..pos], r);
    }
  }

  lemma NoBytesLeft(z: Codec, file: seq<Byte>, r: Reader)
    requires r.pos == |file| && r == Fresh(r.pos, r.seqno)
    ensures ReadAll(z, file, r) == Run([], Ended, file)
  {
    assert file[r.pos..] == [];
    assert file[..r.pos] == file;
  }

  // ---------------------------------------------------------------------------
  // Every returned batch is properly framed.

  /** The bytes between `pos` and `end` decode to exactly the entries `es`. */
  predicate Parses(z: Codec, file: seq<Byte>, pos: nat, es: seq<Entry>, end: nat)
    decreases |es|
  {
    if es == [] then pos == end
    else
      && pos <= |file|
      && Decode(z, file[pos..]).Decoded?
      && Decode(z, file[pos..]).entry == es[0]
      && Parses(z, file, pos + Decode(z, file[pos..]).used, es[1..], end)
  }

  predicate IsPayload(es: seq<Entry>) {
    forall i :: 0 <= i < |es| ==> es[i].Item? || es[i].Clear?
  }

  lemma {:induction false} TakesPayload(z: Codec, file: seq<Byte>, r: Reader) returns (es: seq<Entry>)
    requires Within(r, file) && r.inBatch && Next(z, file, r).result.Yielded?
    ensures |es| == r.counter && IsPayload(es)
    ensures Parses(z, file, r.pos, es + [End(z.checksum(r.hashed + EncodeAll(z, es)))], Next(z, file, r).reader.pos)
    ensures Next(z, file, r).result.batch == Batch(r.seqno, r.items + ItemsOf(es), r.cleared + ClearsOf(es))
    decreases |file| - r.pos
  {
    hide Decode, Encode;
    var d := file[r.pos..];
    DecodeUses(z, d);
    var e, pos := Decode(z, d).entry, r.pos + Decode(z, d).used;
    var fed := Feed(z, r, e, pos);
    if fed.Continue? {
      var rest := TakesPayload(z, file, fed.reader);
      es := [e] + rest;
      PayloadCons(z, r, e, rest);
      assert (es + [End(z.checksum(r.hashed + EncodeAll(z, es)))])[1..]
          == rest + [End(z.checksum(fed.reader.hashed + EncodeAll(z, rest)))];
    } else {
      es := [];
      assert r.hashed + EncodeAll(z, es) == r.hashed;
      assert [e][1..] == [] && [] + [e] == [e];
    }
  }

  lemma PayloadCons(z: Codec, r: Reader, e: Entry, rest: seq<Entry>)
    requires r.inBatch && r.counter > 0 && (e.Item? || e.Clear?)
    ensures var r' := Feed(z, r, e, 0).reader;
            && r'.hashed + EncodeAll(z, rest) == r.hashed + EncodeAll(z, [e] + rest)
            && r'.items + ItemsOf(rest) == r.items + ItemsOf([e] + rest)
            && r'.cleared + ClearsOf(rest) == r.cleared + ClearsOf([e] + rest)
  {
    hide Encode, EncodeAll, ItemsOf, ClearsOf;
    var all, wide := [e] + rest, r.(counter := |rest| + 1);
    assert all[1..] == rest;
    TookCons(z, wide, all);
    assert Feed(z, wide, e, 0).reader.hashed == Feed(z, r, e, 0).reader.hashed;
  }

  /** On any file: a returned batch consists of a start marker announcing exactly the number
      of entries that follow, those entries, and an end marker with their checksum. */
  lemma ReturnedBatchIsFramed(z: Codec, file: seq<Byte>, pos: nat, seqno: nat) returns (w: Written)
    requires pos <= |file| && Next(z, file, Fresh(pos, seqno)).result.Yielded?
    ensures var o := Next(z, file, Fresh(pos, seqno));
            o.result.batch == AsRead(w) && IsPayload(w.entries) && Parses(z, file, pos, FrameEntries(z, w), o.reader.pos)
  {
    hide Decode, Encode;
    var r := Fresh(pos, seqno);
    DecodeUses(z, file[pos..]);
    var d := Decode(z, file[pos..]);
    var r' := Feed(z, r, d.entry, pos + d.used).reader;
    var es := TakesPayload(z, file, r');
    w := Written(r'.seqno, es);
    assert [] + EncodeAll(z, es) == EncodeAll(z, es) && [] + ItemsOf(es) == ItemsOf(es) && [] + ClearsOf(es) == ClearsOf(es);
    assert FrameEntries(z, w)[1..] == es + [End(z.checksum(EncodeAll(z, es)))];
  }

  // ---------------------------------------------------------------------------
  // What reading answers, case by case.

  /** At `pos` the file holds a start marker announcing `n` entries under `seqno`, and then at
      least the payload `es`, which ends at `end`. */
  predicate Begins(z: Codec, file: seq<Byte>, pos: nat, n: nat, seqno: nat, es: seq<Entry>, end: nat) {
    IsPayload(es) && |es| <= n && end <= |file| && Parses(z, file, pos, [Start(n, seqno)] + es, end)
  }

  /** What comes next decides the call: nothing that decodes, or a second start marker, ends it
      and discards the open batch; an end marker that comes too early or has the wrong checksum,
      and an entry too many, are errors that leave the file alone; the right end marker
      returns the batch. */
  function Verdict(z: Codec, file: seq<Byte>, pos: nat, n: nat, seqno: nat, es: seq<Entry>, next: Decoded): (Yield, seq<Byte>)
    requires pos <= |file|
  {
    match next
    case Broken => (Ended, file[..pos])
    case Decoded(Start(_, _), _) => (Ended, file[..pos])
    case Decoded(End(sum), _) =>
      if |es| < n then (Failed(InsufficientLength), file)
      else if sum != z.checksum(EncodeAll(z, es)) then (Failed(ChecksumMismatch), file)
      else (Yielded(Batch(seqno, ItemsOf(es), ClearsOf(es))), file)
    case _ => (Failed(TooManyItems), file)
  }

  /** The payload goes on. */
  predicate GoesOn(n: nat, es: seq<Entry>, next: Decoded) {
    next.Decoded? && (next.entry.Item? || next.entry.Clear?) && |es| < n
  }

  lemma TookNone(z: Codec, r: Reader)
    requires r.inBatch
    ensures Took(z, r, []) == r
  {
    assert r.hashed + [] == r.hashed && r.items + [] == r.items && r.cleared + [] == r.cleared;
  }

  lemma {:induction false} ReadsThrough(z: Codec, file: seq<Byte>, r: Reader, es: seq<Entry>, end: nat)
    requires Within(r, file) && r.inBatch && IsPayload(es) && |es| <= r.counter && end <= |file| && Parses(z, file, r.pos, es, end)
    ensures var r' := Took(z, r, es).(pos := end); Within(r', file) && Next(z, file, r) == Next(z, file, r')
    decreases |es|
  {
    hide Decode, Encode, EncodeAll, ItemsOf, ClearsOf, Next;
    if es == [] {
      TookNone(z, r);
    } else {
      var d := Decode(z, file[r.pos..]);
      NextStep(z, file, r, es[0], d.used);
      var r1 := Feed(z, r, es[0], r.pos + d.used).reader;
      ParsesForward(z, file, r.pos + d.used, es[1..], end);
      ReadsThrough(z, file, r1, es[1..], end);
      PayloadCons(z, r, es[0], es[1..]);
      assert [es[0]] + es[1..] == es;
    }
  }

  lemma {:induction false} ParsesForward(z: Codec, file: seq<Byte>, pos: nat, es: seq<Entry>, end: nat)
    requires Parses(z, file, pos, es, end)
    ensures pos <= end
    decreases |es|
  {
    hide Decode;
    if es != [] {
      ParsesForward(z, file, pos + Decode(z, file[pos..]).used, es[1..], end);
    }
  }

  lemma StartTaken(z: Codec, file: seq<Byte>, pos: nat, q: nat, n: nat, seqno: nat, es: seq<Entry>, end: nat)
    requires pos <= |file| && Begins(z, file, pos, n, seqno, es, end)
    ensures var r := Reader(end, true, n - |es|, seqno, ItemsOf(es), ClearsOf(es), EncodeAll(z, es), pos);
            Within(r, file) && Next(z, file, Fresh(pos, q)) == Next(z, file, r)
  {
    hide Decode, Encode, EncodeAll, ItemsOf, ClearsOf, Next;
    var d := Decode(z, file[pos..]);
    assert ([Start(n, seqno)] + es)[1..] == es;
    NextStep(z, file, Fresh(pos, q), Start(n, seqno), d.used);
    var r1 := Feed(z, Fresh(pos, q), Start(n, seqno), pos + d.used).reader;
    ParsesForward(z, file, pos + d.used, es, end);
    ReadsThrough(z, file, r1, es, end);
    assert [] + EncodeAll(z, es) == EncodeAll(z, es) && [] + ItemsOf(es) == ItemsOf(es) && [] + ClearsOf(es) == ClearsOf(es);
  }

  /** On any bytes at a batch boundary: the answer and the file afterwards are those of the
      verdict, wherever the payload stops. */
  lemma VerdictExact(z: Codec, file: seq<Byte>, pos: nat, q: nat, n: nat, seqno: nat, es: seq<Entry>, end: nat)
    requires pos <= |file| && Begins(z, file, pos, n, seqno, es, end) && !GoesOn(n, es, Decode(z, file[end..]))
    ensures var o := Next(z, file, Fresh(pos, q)); (o.result, o.file) == Verdict(z, file, pos, n, seqno, es, Decode(z, file[end..]))
  {
    hide Decode, Encode, EncodeAll, ItemsOf, ClearsOf;
    StartTaken(z, file, pos, q, n, seqno, es, end);
    DecodeUses(z, file[end..]);
  }

  /** Without a start marker there, reading ends and the file is cut. */
  lemma NoStart(z: Codec, file: seq<Byte>, pos: nat, q: nat)
    requires pos <= |file| && !(Decode(z, file[pos..]).Decoded? && Decode(z, file[pos..]).entry.Start?)
    ensures var o := Next(z, file, Fresh(pos, q)); o.result == Ended && o.file == file[..pos]
  {
    hide Decode;
  }

  lemma {:induction false} PayloadStops(z: Codec, file: seq<Byte>, pos: nat, n: nat) returns (es: seq<Entry>, end: nat)
    requires pos <= |file|
    ensures IsPayload(es) && |es| <= n && end <= |file| && Parses(z, file, pos, es, end) && !GoesOn(n, es, Decode(z, file[end..]))
    decreases n
  {
    hide Decode;
    var d := Decode(z, file[pos..]);
    DecodeUses(z, file[pos..]);
    if d.Decoded? && (d.entry.Item? || d.entry.Clear?) && n > 0 {
      var rest;
      rest, end := PayloadStops(z, file, pos + d.used, n - 1);
      es := [d.entry] + rest;
      assert es[1..] == rest;
    } else {
      es, end := [], pos;
    }
  }

  /** The cases are all there are: any bytes at a batch boundary either have no start marker, or
      have one and a payload that stops somewhere. So reading ends without an error only where
      nothing decodes or a marker or entry is out of place. */
  lemma AnyBytes(z: Codec, file: seq<Byte>, pos: nat, q: nat) returns (n: nat, seqno: nat, es: seq<Entry>, end: nat)
    requires pos <= |file|
    ensures var first := Decode(z, file[pos..]); var o := Next(z, file, Fresh(pos, q));
            if first.Decoded? && first.entry.Start?
            then Begins(z, file, pos, n, seqno, es, end) && !GoesOn(n, es, Decode(z, file[end..]))
                 && (o.result, o.file) == Verdict(z, file, pos, n, seqno, es, Decode(z, file[end..]))
            else o.result == Ended && o.file == file[..pos]
  {
    hide Decode, Verdict, Next;
    n, seqno, es, end := 0, 0, [], pos;
    var first := Decode(z, file[pos..]);
    DecodeUses(z, file[pos..]);
    if first.Decoded? && first.entry.Start? {
      n, seqno := first.entry.itemCount, first.entry.seqno;
      es, end := PayloadStops(z, file, pos + first.used, n);
      assert ([Start(n, seqno)] + es)[1..] == es;
      VerdictExact(z, file, pos, q, n, seqno, es, end);
    } else {
      NoStart(z, file, pos, q);
    }
  }

  lemma {:induction false} EncodedParses(z: Codec, file: seq<Byte>, pos: nat, es: seq<Entry>)
    requires Faithful(z) && (forall i :: 0 <= i < |es| ==> Fits(z, es[i])) && At(file, pos, EncodeAll(z, es))
    ensures Parses(z, file, pos, es, pos + |EncodeAll(z, es)|)
    decreases |es|
  {
    hide Decode, Encode, Fits, Faithful;
    if es != [] {
      var n := |Encode(z, es[0])|;
      AtSplit(file, pos, Encode(z, es[0]), EncodeAll(z, es[1..]));
      assert file[pos..] == file[pos..pos + n] + file[pos + n..];
      DecodeEncoded(z, es[0], file[pos + n..]);
      EncodedParses(z, file, pos + n, es[1..]);
    }
  }

  /** A batch whose entries were changed on disk, so that their checksum is another one, is
      reported and nothing is cut off: the batches after it are not lost. */
  lemma CorruptionIsReported(z: Codec, file: seq<Byte>, pos: nat, q: nat, w: Written, es: seq<Entry>)
    requires Faithful(z) && Writable(z, w) && Payload(z, es) && |es| == |w.entries|
    requires z.checksum(EncodeAll(z, es)) != z.checksum(EncodeAll(z, w.entries))
    requires At(file, pos, EncodeAll(z, [StartOf(w)] + es + [EndOf(z, w)]))
    ensures var o := Next(z, file, Fresh(pos, q)); o.result == Failed(ChecksumMismatch) && o.file == file
  {
    hide Decode, Encode, EncodeAll, At, Faithful, Next;
    var front, end := [StartOf(w)] + es, EndOf(z, w);
    EncodeAllSnoc(z, front, end);
    AtSplit(file, pos, EncodeAll(z, front), Encode(z, end));
    assert forall i :: 0 <= i < |front| ==> Fits(z, front[i]);
    EncodedParses(z, file, pos, front);
    var at := pos + |EncodeAll(z, front)|;
    assert Fits(z, end) by { EndFits(z, w); }
    EndDecodes(z, file, at, end);
    VerdictExact(z, file, pos, q, |es|, w.seqno, es, at);
  }

  lemma EndFits(z: Codec, w: Written)
    requires Faithful(z)
    ensures Fits(z, EndOf(z, w))
  {
  }

  lemma EndDecodes(z: Codec, file: seq<Byte>, at: nat, end: Entry)
    requires Faithful(z) && Fits(z, end) && At(file, at, Encode(z, end))
    ensures at <= |file| && Decode(z, file[at..]) == Decoded(end, |Encode(z, end)|)
  {
    hide Decode, Encode, Fits, Faithful;
    var n := |Encode(z, end)|;
    assert file[at..] == file[at..at + n] + file[at + n..];
    DecodeEncoded(z, end, file[at + n..]);
  }
}
