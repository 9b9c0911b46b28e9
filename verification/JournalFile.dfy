/** A journal file through its writer and its reader. */
module JournalFile {
  import opened Bytes
  import opened JournalEntry
  import opened BatchReader
  import opened TornTail
  import opened CrashBytes

  /** Reads a whole journal. */
  method Drain(z: Codec, file: seq<Byte>) returns (run: Run)
    ensures run == ReadJournal(z, file)
  {
    hide Next;
    var reader := new JournalBatchReader(z, file);
    var batches: seq<Batch> := [];
    while true
      invariant reader.z == z && reader.file == file && Within(reader.View(), file)
      invariant var rest := ReadAll(z, file, reader.View()); ReadJournal(z, file) == rest.(batches := batches + rest.batches)
      decreases |file| - reader.pos
    {
      NextAdvances(z, file, reader.View());
      ghost var before := reader.View();
      var result := reader.NextBatch();
      if !result.Yielded? {
        assert batches + [] == batches;
        return Run(batches, result, reader.file);
      }
      batches := batches + [result.batch];
      assert ReadAll(z, file, before).batches == [result.batch] + ReadAll(z, file, reader.View()).batches;
    }
  }

  /** The file holds the batches `ws`, and reading it returns them. */
  lemma AppendedReads(z: Codec, ws: seq<Written>, w: Written)
    requires Faithful(z) && AllWritable(z, ws) && Writable(z, w)
    ensures ReadJournal(z, FrameAll(z, ws) + Frame(z, w)) == Run(AsReads(ws) + [AsRead(w)], Ended, FrameAll(z, ws) + Frame(z, w))
  {
    hide Faithful, FrameAll, Frame, ReadAll, AsReads, AsRead, Writable;
    FrameAllSnoc(z, ws, w);
    IntactJournalRecovers(z, ws + [w], FrameAll(z, ws + [w]));
  }

  lemma SameReads(z: Codec, ws: seq<Written>)
    requires Faithful(z) && AllWritable(z, ws)
    ensures ReadJournal(z, FrameAll(z, ws)) == Run(AsReads(ws), Ended, FrameAll(z, ws))
  {
    hide Faithful, FrameAll, ReadAll, AsReads, AllWritable;
    IntactJournalRecovers(z, ws, FrameAll(z, ws));
  }

  /** Writing a batch and reading the file returns the earlier batches and then exactly the
      items written, under the given sequence number. An empty batch leaves no trace. */
  method AppendBatch(writer: JournalWriter, items: seq<ReadItem>, seqno: nat, ghost ws: seq<Written>)
    requires Faithful(writer.z) && AllWritable(writer.z, ws) && writer.file == FrameAll(writer.z, ws)
    requires Writable(writer.z, Written(seqno, writer.AsEntries(items)))
    modifies writer
    ensures ReadJournal(writer.z, writer.file) ==
            Run(AsReads(ws) + if items == [] then [] else [Batch(seqno, items, [])], Ended, writer.file)
  {
    hide Faithful, FrameAll, Frame, ReadAll, AsReads, AsRead, Writable, ReadJournal;
    writer.WriteBatch(items, seqno);
    if items == [] {
      SameReads(writer.z, ws);
      assert AsReads(ws) + [] == AsReads(ws);
    } else {
      writer.EntriesReadBack(items, seqno);
      AppendedReads(writer.z, ws, Written(seqno, writer.AsEntries(items)));
    }
  }

  /** The same for a clear marker. */
  method AppendClear(writer: JournalWriter, ks: nat, seqno: nat, ghost ws: seq<Written>)
    requires Faithful(writer.z) && AllWritable(writer.z, ws) && writer.file == FrameAll(writer.z, ws) && ks < TWO_64 && seqno < TWO_64
    modifies writer
    ensures ReadJournal(writer.z, writer.file) == Run(AsReads(ws) + [Batch(seqno, [], [ks])], Ended, writer.file)
  {
    hide Faithful, FrameAll, Frame, ReadAll, AsReads, ReadJournal;
    writer.WriteClear(ks, seqno);
    var w := Written(seqno, [Clear(ks)]);
    ClearReads(seqno, ks);
    AppendedReads(writer.z, ws, w);
  }

  lemma ClearReads(seqno: nat, ks: nat)
    ensures AsRead(Written(seqno, [Clear(ks)])) == Batch(seqno, [], [ks])
  {
    var es := [Clear(ks)];
    assert es[1..] == [] && ItemsOf(es[1..]) == [] && ClearsOf(es[1..]) == [];
    assert [ks] + [] == [ks];
  }
}
