/** From the bytes a crash leaves behind to the recovered database. */
module CrashBytes {
  import opened Bytes
  import opened JournalEntry
  import opened BatchReader
  import opened TornTail
  import opened KeyspaceLog
  import R = Recovery

  /** The file holds the first `n` bytes of the framed batches, and zeros after them. */
  predicate Torn(z: Codec, file: seq<Byte>, ws: seq<Written>, n: nat) {
    && n <= |FrameAll(z, ws)| && n <= |file|
    && file[..n] == FrameAll(z, ws)[..n] && ZerosFrom(file, n)
  }

  predicate Intact(z: Codec, file: seq<Byte>, ws: seq<Written>) {
    AllWritable(z, ws) && Torn(z, file, ws, |FrameAll(z, ws)|)
  }

  function ReadJournal(z: Codec, file: seq<Byte>): Run {
    ReadAll(z, file, Fresh(0, 0))
  }

  function ReadJournals(z: Codec, files: seq<seq<Byte>>): (journals: seq<seq<Batch>>)
    ensures |journals| == |files|
    ensures forall i :: 0 <= i < |files| ==> journals[i] == ReadJournal(z, files[i]).batches
  {
    seq(|files|, i requires 0 <= i < |files| => ReadJournal(z, files[i]).batches)
  }

  lemma {:induction false} FrameAllSnoc(z: Codec, ws: seq<Written>, w: Written)
    ensures FrameAll(z, ws + [w]) == FrameAll(z, ws) + Frame(z, w)
    ensures AsReads(ws + [w]) == AsReads(ws) + [AsRead(w)]
  {
    hide Frame, AsRead;
    if ws == [] {
      assert ws + [w] == [w];
      assert FrameAll(z, [w]) == Frame(z, w) + FrameAll(z, []);
    } else {
      assert (ws + [w])[1..] == ws[1..] + [w];
      FrameAllSnoc(z, ws[1..], w);
    }
  }

  lemma FrameNonempty(z: Codec, w: Written)
    ensures |Frame(z, w)| > 0
  {
    assert FrameEntries(z, w)[0] == Start(|w.entries|, w.seqno);
  }

  /** A cut inside the last batch completes all the others; a cut at its end completes it too. */
  lemma {:induction false} CompleteSnoc(z: Codec, ws: seq<Written>, w: Written, n: nat)
    requires |FrameAll(z, ws)| <= n <= |FrameAll(z, ws + [w])|
    ensures Complete(z, ws + [w], n) == if n == |FrameAll(z, ws + [w])| then |ws| + 1 else |ws|
    decreases |ws|
  {
    hide Frame;
    if ws == [] {
      assert ws + [w] == [w];
      FrameNonempty(z, w);
    } else {
      assert (ws + [w])[1..] == ws[1..] + [w];
      CompleteSnoc(z, ws[1..], w, n - |Frame(z, ws[0])|);
    }
  }

  lemma IntactReads(z: Codec, file: seq<Byte>, ws: seq<Written>)
    requires Faithful(z) && Intact(z, file, ws)
    ensures ReadJournal(z, file).batches == AsReads(ws) && ReadJournal(z, file).end == Ended
  {
    hide Faithful, FrameAll, ReadAll, AsReads;
    TornTailRecovers(z, ws, |FrameAll(z, ws)|, file);
    AllComplete(z, ws);
    assert ws[..|ws|] == ws;
  }

  lemma ActiveReads(z: Codec, file: seq<Byte>, ws: seq<Written>, w: Written, n: nat)
    requires Faithful(z) && AllWritable(z, ws + [w]) && |FrameAll(z, ws)| <= n && Torn(z, file, ws + [w], n)
    ensures ReadJournal(z, file).end == Ended
    ensures ReadJournal(z, file).batches == AsReads(ws) + if n == |FrameAll(z, ws + [w])| then [AsRead(w)] else []
  {
    hide Faithful, FrameAll, ReadAll, AsReads, Frame;
    TornTailRecovers(z, ws + [w], n, file);
    CompleteSnoc(z, ws, w, n);
    FrameAllSnoc(z, ws, w);
    assert (ws + [w])[..|ws|] == ws && (ws + [w])[..|ws| + 1] == ws + [w];
  }

  /** Every sealed journal of `db` lies intact in its file. */
  predicate SealedIntact(z: Codec, db: R.Db, files: seq<seq<Byte>>, logs: seq<seq<Written>>) {
    && |files| == |logs| == |db.sealed|
    && forall i :: 0 <= i < |files| ==> Intact(z, files[i], logs[i]) && AsReads(logs[i]) == db.sealed[i].batches
  }

  /** Reading the files back and recovering from them. */
  ghost function Reopened(z: Codec, tables: map<nat, Table>, files: seq<seq<Byte>>, file: seq<Byte>): R.Db {
    R.Recover(R.Disk(tables, ReadJournals(z, files + [file])))
  }

  /** Reopening the files gives the database that step `e` leads to. */
  ghost predicate ReopensAs(z: Codec, db: R.Db, files: seq<seq<Byte>>, file: seq<Byte>, e: R.Event) {
    R.Formed(db) && R.Enabled(db, e) && Reopened(z, R.DiskOf(db).tables, files, file) == R.Step(db, e)
  }

  /** What a crash leaves of the active journal: its batches `ws`, and the first bytes of the
      batch `w` being appended, up to byte `n` of the file. */
  predicate ActiveTorn(z: Codec, db: R.Db, file: seq<Byte>, ws: seq<Written>, w: Written, n: nat) {
    && AllWritable(z, ws + [w]) && AsReads(ws) == db.active
    && |FrameAll(z, ws)| <= n && Torn(z, file, ws + [w], n)
  }

  predicate AppendDone(z: Codec, ws: seq<Written>, w: Written, n: nat) {
    n == |FrameAll(z, ws + [w])|
  }

  lemma FilesRead(z: Codec, db: R.Db, files: seq<seq<Byte>>, logs: seq<seq<Written>>, file: seq<Byte>, active: seq<Batch>)
    requires Faithful(z) && SealedIntact(z, db, files, logs) && ReadJournal(z, file).batches == active
    ensures forall i :: 0 <= i < |files| ==> ReadJournal(z, files[i]).end == Ended
    ensures ReadJournals(z, files + [file]) == R.Journals(db.(active := active))
  {
    hide Faithful, ReadJournal, AsReads, Intact;
    forall i | 0 <= i < |files|
      ensures ReadJournal(z, files[i]).batches == db.sealed[i].batches && ReadJournal(z, files[i]).end == Ended
    {
      IntactReads(z, files[i], logs[i]);
    }
  }

  /** The step that writing a batch is, and the crash right after its last byte. */
  function WriteOf(w: Written): R.Event {
    R.Write(AsRead(w).items, AsRead(w).cleared)
  }

  function CrashAfter(w: Written): R.Event {
    R.CrashMidWrite(AsRead(w).items, AsRead(w).cleared)
  }

  /** A crash may cut the batch being appended at any byte. Reading the files back never
      fails, and recovery from them is recovery with that batch if all its bytes were written
      and recovery without it otherwise. */
  lemma CrashAtAnyByte(z: Codec, db: R.Db, files: seq<seq<Byte>>, logs: seq<seq<Written>>,
                       file: seq<Byte>, ws: seq<Written>, w: Written, n: nat)
    requires Faithful(z) && R.Formed(db) && R.Enabled(db, WriteOf(w)) && w.seqno == db.seqno && SealedIntact(z, db, files, logs)
    requires ActiveTorn(z, db, file, ws, w, n)
    ensures forall i :: 0 <= i < |files| ==> ReadJournal(z, files[i]).end == Ended
    ensures ReadJournal(z, file).end == Ended
    ensures ReopensAs(z, db, files, file, if AppendDone(z, ws, w, n) then CrashAfter(w) else R.Crash)
  {
    hide Faithful, FrameAll, ReadAll, AsReads, ItemsOf, ClearsOf, Torn, Intact, SealedIntact, ReadJournals, R.Recover, R.TreesAfter, R.Storable;
    ActiveReads(z, file, ws, w, n);
    assert db.active + [] == db.active;
    if AppendDone(z, ws, w, n) {
      FilesRead(z, db, files, logs, file, db.active + [AsRead(w)]);
      assert R.Journals(db.(active := db.active + [AsRead(w)])) == R.Journals(R.WriteDone(db, AsRead(w).items, AsRead(w).cleared));
    } else {
      FilesRead(z, db, files, logs, file, db.active);
      assert db.(active := db.active) == db;
    }
  }

  /** The same for a crash between writes. */
  lemma CrashBetweenWrites(z: Codec, db: R.Db, files: seq<seq<Byte>>, logs: seq<seq<Written>>, file: seq<Byte>, ws: seq<Written>)
    requires Faithful(z) && R.Formed(db) && SealedIntact(z, db, files, logs) && Intact(z, file, ws) && AsReads(ws) == db.active
    ensures ReopensAs(z, db, files, file, R.Crash)
  {
    hide Faithful, FrameAll, ReadAll, AsReads, Intact, SealedIntact, ReadJournals, R.Recover;
    IntactReads(z, file, ws);
    FilesRead(z, db, files, logs, file, db.active);
    assert db.(active := db.active) == db;
  }
}
