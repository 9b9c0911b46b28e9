/** A journal cut at any byte and padded with zero bytes loses exactly its incomplete batch. */
module TornTail {
  import opened Bytes
  import opened JournalEntry
  import opened BatchReader

  predicate ZerosFrom(file: seq<Byte>, pos: nat) {
    forall i :: pos <= i < |file| ==> file[i] == 0
  }

  lemma ZerosBroken(z: Codec, file: seq<Byte>, pos: nat)
    requires pos <= |file| && ZerosFrom(file, pos)
    ensures Decode(z, file[pos..]) == Broken
  {
    hide Encode;
  }

  predicate SameKind(a: Entry, b: Entry) {
    (a.Start? && b.Start?) || (a.Item? && b.Item?) || (a.End? && b.End?) || (a.Clear? && b.Clear?)
  }

  lemma FirstByte(z: Codec, e: Entry)
    ensures Encode(z, e) != []
    ensures Encode(z, e)[0] == match e case Start(_, _) => TAG_START case Item(_, _, _, _, _) => TAG_ITEM
                                        case End(_) => TAG_END case Clear(_) => TAG_CLEAR
  {
  }

  /** A torn entry cannot decode within its surviving bytes: the whole entry would decode
      to the same, shorter, entry. */
  lemma TornReachesZeros(z: Codec, e: Entry, d: seq<Byte>, m: nat)
    requires Faithful(z) && Fits(z, e) && m < |Encode(z, e)| && m <= |d| && d[..m] == Encode(z, e)[..m]
    ensures Decode(z, d).Decoded? ==> Decode(z, d).used > m
  {
    hide Encode, Fits, Faithful, Decode;
    var whole := Encode(z, e);
    assert whole + [] == whole;
    DecodeEncoded(z, e, []);
    DecodeUses(z, d);
    if Decode(z, d).Decoded? && Decode(z, d).used <= m {
      var n := Decode(z, d).used;
      assert d[..n] == d[..m][..n] == whole[..n];
      DecodeLocal(z, d, whole);
    }
  }

  /** An entry of which only the first `m` bytes survive, followed by zeros, either fails to
      decode or decodes to an entry of the same kind that reaches into the zeros. A torn end
      marker never decodes: its trailer is damaged. */
  lemma TornDecode(z: Codec, e: Entry, d: seq<Byte>, m: nat)
    requires Faithful(z) && Fits(z, e) && 0 < m < |Encode(z, e)| && m <= |d|
    requires d[..m] == Encode(z, e)[..m] && ZerosFrom(d, m)
    ensures match Decode(z, d)
            case Broken => true
            case Decoded(e', n) => n > m && SameKind(e', e) && !e.End?
  {
    hide LE, FromLE, Pow256;
    FirstByte(z, e);
    assert d[0] == d[..m][0] == Encode(z, e)[0];
    assert |d| >= 13 ==> d[9..13][3] == d[12];
    TornReachesZeros(z, e, d, m);
  }

  /** The reader is where entry `e` is expected. */
  predicate Expects(r: Reader, e: Entry) {
    match e
    case Start(_, _) => !r.inBatch && r.lastValid == r.pos
    case End(_) => r.inBatch
    case _ => r.inBatch && r.counter > 0
  }

  lemma BrokenEnds(z: Codec, file: seq<Byte>, r: Reader)
    requires Within(r, file) && Decode(z, file[r.pos..]).Broken? && (r.inBatch || r.lastValid == r.pos)
    ensures Next(z, file, r) == Outcome(Ended, file[..r.lastValid], r)
  {
  }

  lemma SameKindContinues(z: Codec, r: Reader, e: Entry, e': Entry, pos: nat)
    requires Expects(r, e) && SameKind(e', e) && !e.End?
    ensures var fed := Feed(z, r, e', pos);
            fed.Continue? && fed.reader.inBatch && fed.reader.pos == pos && fed.reader.lastValid == r.lastValid
  {
    hide Encode;
  }

  /** Reading ends cleanly at a torn entry, and the file is cut back to the last complete batch. */
  lemma TornEntry(z: Codec, file: seq<Byte>, r: Reader, e: Entry, m: nat)
    requires Faithful(z) && Fits(z, e) && Within(r, file) && Expects(r, e)
    requires m < |Encode(z, e)| && At(file, r.pos, Encode(z, e)[..m]) && ZerosFrom(file, r.pos + m)
    ensures Next(z, file, r).result == Ended && Next(z, file, r).file == file[..r.lastValid]
  {
    hide Encode, Fits, Faithful, Feed;
    var d := file[r.pos..];
    if m == 0 {
      ZerosBroken(z, file, r.pos);
      BrokenEnds(z, file, r);
    } else if Decode(z, d).Broken? {
      BrokenEnds(z, file, r);
    } else {
      assert d[..m] == file[r.pos..r.pos + m];
      assert ZerosFrom(d, m);
      DecodeUses(z, d);
      TornDecode(z, e, d, m);
      var pos := r.pos + Decode(z, d).used;
      SameKindContinues(z, r, e, Decode(z, d).entry, pos);
      var r' := Feed(z, r, Decode(z, d).entry, pos).reader;
      ZerosBroken(z, file, pos);
      BrokenEnds(z, file, r');
    }
  }

  lemma AtPrefix(file: seq<Byte>, pos: nat, a: seq<Byte>, b: seq<Byte>, n: nat)
    requires n <= |a + b| && At(file, pos, (a + b)[..n])
    ensures n < |a| ==> At(file, pos, a[..n])
    ensures n >= |a| ==> At(file, pos, a) && At(file, pos + |a|, b[..n - |a|])
  {
    if n < |a| {
      assert (a + b)[..n] == a[..n];
    } else {
      assert (a + b)[..n] == a + b[..n - |a|];
      AtSplit(file, pos, a, b[..n - |a|]);
    }
  }

  lemma {:induction false} TornPayload(z: Codec, file: seq<Byte>, r: Reader, es: seq<Entry>, n: nat)
    requires Faithful(z) && Payload(z, es) && Within(r, file) && r.inBatch && |es| <= r.counter
    requires n < |EncodeAll(z, es)| && At(file, r.pos, EncodeAll(z, es)[..n]) && ZerosFrom(file, r.pos + n)
    ensures Next(z, file, r).result == Ended && Next(z, file, r).file == file[..r.lastValid]
    decreases |es|
  {
    hide Encode, Fits, Faithful, Next, Took, At, ZerosFrom;
    var e := es[0];
    AtPrefix(file, r.pos, Encode(z, e), EncodeAll(z, es[1..]), n);
    if n < |Encode(z, e)| {
      TornEntry(z, file, r, e, n);
    } else {
      ReadEntry(z, file, r, e);
      TornPayload(z, file, Feed(z, r, e, r.pos + |Encode(z, e)|).reader, es[1..], n - |Encode(z, e)|);
    }
  }

  lemma MarkersFit(z: Codec, w: Written)
    requires Faithful(z) && Writable(z, w)
    ensures Fits(z, StartOf(w)) && Fits(z, EndOf(z, w))
  {
  }

  lemma TornBody(z: Codec, file: seq<Byte>, pos: nat, w: Written, n: nat)
    requires Faithful(z) && Writable(z, w) && Within(Opened(z, pos, w), file)
    requires n < |EncodeAll(z, w.entries) + Encode(z, EndOf(z, w))|
    requires var at := Opened(z, pos, w).pos;
             At(file, at, (EncodeAll(z, w.entries) + Encode(z, EndOf(z, w)))[..n]) && ZerosFrom(file, at + n)
    ensures Next(z, file, Opened(z, pos, w)).result == Ended
    ensures Next(z, file, Opened(z, pos, w)).file == file[..pos]
  {
    hide Encode, Fits, Faithful, Next, At, ZerosFrom, Payload, EncodeAll;
    var r := Opened(z, pos, w);
    MarkersFit(z, w);
    AtPrefix(file, r.pos, EncodeAll(z, w.entries), Encode(z, EndOf(z, w)), n);
    if n < |EncodeAll(z, w.entries)| {
      TornPayload(z, file, r, w.entries, n);
    } else {
      ReadPayload(z, file, r, w.entries);
      TornEntry(z, file, Took(z, r, w.entries), EndOf(z, w), n - |EncodeAll(z, w.entries)|);
    }
  }

  /** An incomplete batch at the end of the file is discarded without an error. */
  lemma TornFrame(z: Codec, file: seq<Byte>, pos: nat, seqno: nat, w: Written, n: nat)
    requires Faithful(z) && Writable(z, w) && pos <= |file| && n < |Frame(z, w)|
    requires At(file, pos, Frame(z, w)[..n]) && ZerosFrom(file, pos + n)
    ensures Next(z, file, Fresh(pos, seqno)).result == Ended
    ensures Next(z, file, Fresh(pos, seqno)).file == file[..pos]
  {
    hide Encode, Fits, Faithful, Next, At, ZerosFrom, Payload, EncodeAll, Frame;
    FrameSplit(z, w);
    MarkersFit(z, w);
    var start, body := Encode(z, StartOf(w)), EncodeAll(z, w.entries) + Encode(z, EndOf(z, w));
    AtPrefix(file, pos, start, body, n);
    if n < |start| {
      TornEntry(z, file, Fresh(pos, seqno), StartOf(w), n);
    } else {
      ReadStart(z, file, pos, seqno, w);
      TornBody(z, file, pos, w, n - |start|);
    }
  }

  // ---------------------------------------------------------------------------
  // Whole journals.

  predicate AllWritable(z: Codec, ws: seq<Written>) {
    forall i :: 0 <= i < |ws| ==> Writable(z, ws[i])
  }

  /** How many batches end at or before byte `n`. */
  function Complete(z: Codec, ws: seq<Written>, n: nat): (k: nat)
    ensures k <= |ws|
  {
    if ws == [] || n < |Frame(z, ws[0])| then 0 else 1 + Complete(z, ws[1..], n - |Frame(z, ws[0])|)
  }

  lemma AtJoin(file: seq<Byte>, pos: nat, a: seq<Byte>, b: seq<Byte>)
    requires At(file, pos, a) && At(file, pos + |a|, b)
    ensures At(file, pos, a + b)
  {
    var n := pos + |a|;
    assert file[pos..n + |b|] == file[pos..n] + file[n..n + |b|];
  }

  lemma FrameAllCons(z: Codec, ws: seq<Written>, k: nat)
    requires k < |ws|
    ensures FrameAll(z, ws[..k + 1]) == Frame(z, ws[0]) + FrameAll(z, ws[1..][..k])
    ensures AsReads(ws[..k + 1]) == [AsRead(ws[0])] + AsReads(ws[1..][..k])
  {
    hide Frame;
    assert ws[..k + 1][1..] == ws[1..][..k];
  }

  lemma NothingLeft(z: Codec, file: seq<Byte>, pos: nat, seqno: nat)
    requires pos <= |file| && Next(z, file, Fresh(pos, seqno)).result == Ended
    requires Next(z, file, Fresh(pos, seqno)).file == file[..pos]
    ensures At(file, pos, []) && ReadAll(z, file, Fresh(pos, seqno)) == Run([], Ended, file[..pos])
  {
    hide Next;
  }

  /** An intact batch is returned, and reading goes on after it. */
  lemma ReadOn(z: Codec, file: seq<Byte>, pos: nat, seqno: nat, w: Written)
    requires Faithful(z) && Writable(z, w) && pos <= |file| && At(file, pos, Frame(z, w))
    ensures pos + |Frame(z, w)| <= |file|
    ensures var rest := ReadAll(z, file, Fresh(pos + |Frame(z, w)|, w.seqno));
            ReadAll(z, file, Fresh(pos, seqno)) == rest.(batches := [AsRead(w)] + rest.batches)
  {
    hide Frame, Faithful, Next, Writable, AsRead;
    AtBound(file, pos, Frame(z, w));
    ReadFrame(z, file, pos, seqno, w);
  }

  lemma {:induction false} TornFrom(z: Codec, file: seq<Byte>, pos: nat, seqno: nat, ws: seq<Written>, n: nat)
    requires Faithful(z) && AllWritable(z, ws) && n <= |FrameAll(z, ws)| && pos <= |file|
    requires At(file, pos, FrameAll(z, ws)[..n]) && ZerosFrom(file, pos + n)
    ensures var k := Complete(z, ws, n); var end := pos + |FrameAll(z, ws[..k])|;
            && At(file, pos, FrameAll(z, ws[..k]))
            && ReadAll(z, file, Fresh(pos, seqno)) == Run(AsReads(ws[..k]), Ended, file[..end])
    decreases |ws|
  {
    hide Frame, Faithful, Next, Writable, At, ZerosFrom;
    if ws == [] {
      ZerosBroken(z, file, pos);
      BrokenEnds(z, file, Fresh(pos, seqno));
      NothingLeft(z, file, pos, seqno);
    } else {
      var w := ws[0];
      var len := |Frame(z, w)|;
      AtPrefix(file, pos, Frame(z, w), FrameAll(z, ws[1..]), n);
      if n < len {
        TornFrame(z, file, pos, seqno, w, n);
        NothingLeft(z, file, pos, seqno);
      } else {
        hide ReadAll, AsRead;
        ReadOn(z, file, pos, seqno, w);
        TornFrom(z, file, pos + len, w.seqno, ws[1..], n - len);
        var k := Complete(z, ws[1..], n - len);
        FrameAllCons(z, ws, k);
        AtJoin(file, pos, Frame(z, w), FrameAll(z, ws[1..][..k]));
      }
    }
  }

  lemma AtBound(file: seq<Byte>, pos: nat, bytes: seq<Byte>)
    requires At(file, pos, bytes)
    ensures pos + |bytes| <= |file|
  {
  }

  /** The torn-tail theorem: cut a journal at any byte `n` and pad it with any number of
      zero bytes. The reader returns exactly the batches that end at or before the cut,
      reports no error, and leaves the file ending with the last of them. */
  lemma TornTailRecovers(z: Codec, ws: seq<Written>, n: nat, file: seq<Byte>)
    requires Faithful(z) && AllWritable(z, ws) && n <= |FrameAll(z, ws)| && n <= |file|
    requires file[..n] == FrameAll(z, ws)[..n] && ZerosFrom(file, n)
    ensures var k := Complete(z, ws, n);
            ReadAll(z, file, Fresh(0, 0)) == Run(AsReads(ws[..k]), Ended, FrameAll(z, ws[..k]))
  {
    hide FrameAll, ReadAll, Complete, AsReads;
    TornFrom(z, file, 0, 0, ws, n);
  }

  /** In particular an intact, preallocated journal is read back in full. */
  lemma IntactJournalRecovers(z: Codec, ws: seq<Written>, file: seq<Byte>)
    requires Faithful(z) && AllWritable(z, ws) && FrameAll(z, ws) <= file && ZerosFrom(file, |FrameAll(z, ws)|)
    ensures ReadAll(z, file, Fresh(0, 0)) == Run(AsReads(ws), Ended, FrameAll(z, ws))
  {
    var all := FrameAll(z, ws);
    assert all[..|all|] == all && ws[..|ws|] == ws;
    TornTailRecovers(z, ws, |all|, file);
    AllComplete(z, ws);
  }

  lemma {:induction false} AllComplete(z: Codec, ws: seq<Written>)
    ensures Complete(z, ws, |FrameAll(z, ws)|) == |ws|
  {
    if ws != [] {
      AllComplete(z, ws[1..]);
    }
  }
}
