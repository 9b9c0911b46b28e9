/** The database over its real journal files: a machine whose journals are bytes, where a crash
    may cut an append at any byte, does what `Recovery` does. */
module ByteRuns {
  import opened Bytes
  import opened JournalEntry
  import opened BatchReader
  import opened TornTail
  import opened CrashBytes
  import opened KeyspaceLog
  import R = Recovery

  /** A sealed journal file and its eviction watermarks. */
  datatype SealedFile = SealedFile(bytes: seq<Byte>, marks: map<nat, nat>)

  /** The active journal file is written from byte `pos` on. A fresh file is filled with zeros
      beforehand, a reopened one ends at `pos`. */
  datatype Store = Store(trees: map<nat, R.Tree>, sealed: seq<SealedFile>, active: seq<Byte>, pos: nat, seqno: nat)

  datatype Event =
    | Append(w: Written)
    | Other(e: R.Event)
    | RotateFile(padding: nat)
    | EvictFile
    | Crash
    | TornAppend(w: Written, n: nat)

  function Zeros(n: nat): (s: seq<Byte>)
    ensures |s| == n && ZerosFrom(s, 0)
  {
    seq(n, i => 0)
  }

  /** The file with `bytes` written at `pos`, over what was there and past the end if needed. */
  function Overwrite(file: seq<Byte>, pos: nat, bytes: seq<Byte>): seq<Byte>
    requires pos <= |file|
  {
    var end := pos + |bytes|;
    file[..pos] + bytes + if end <= |file| then file[end..] else []
  }

  // ---------------------------------------------------------------------------
  // Steps.

  /** The part of the state that steps of the trees see. */
  function Bare(b: Store): R.Db {
    R.Db(b.trees, [], [], b.seqno)
  }

  /** Steps that do not touch the journals. */
  predicate OfTrees(e: R.Event) {
    e.Skip? || e.RotateMemtable? || e.Flush? || e.Compact?
  }

  ghost predicate CanWrite(z: Codec, b: Store, w: Written) {
    Writable(z, w) && w.seqno == b.seqno && R.Enabled(Bare(b), WriteOf(w))
  }

  ghost predicate Enabled(z: Codec, b: Store, e: Event) {
    && R.AllFormed(b.trees) && b.pos <= |b.active|
    && match e
       case Append(w) => CanWrite(z, b, w)
       case Other(e) => OfTrees(e) && R.Enabled(Bare(b), e)
       case RotateFile(_) => true
       case EvictFile => b.sealed != [] && R.CanEvict(b.trees, b.sealed[0].marks)
       case Crash => true
       case TornAppend(w, n) => CanWrite(z, b, w) && n <= |Frame(z, w)|
  }

  function FilesOf(b: Store): (files: seq<seq<Byte>>)
    ensures |files| == |b.sealed| && forall i :: 0 <= i < |files| ==> files[i] == b.sealed[i].bytes
  {
    seq(|b.sealed|, i requires 0 <= i < |b.sealed| => b.sealed[i].bytes)
  }

  function TablesOf(b: Store): map<nat, Table> {
    map id | id in b.trees :: b.trees[id].tables
  }

  /** Reopening after a crash: every journal is read and cut back to its last complete batch,
      and recovery rebuilds the rest. */
  ghost function Reopen(z: Codec, b: Store): Store {
    var db := Reopened(z, TablesOf(b), FilesOf(b), b.active);
    var active := ReadJournal(z, b.active).file;
    Store(db.trees, Recut(z, b, db), active, |active|, db.seqno)
  }

  ghost function Recut(z: Codec, b: Store, db: R.Db): (sealed: seq<SealedFile>)
    requires |db.sealed| == |b.sealed|
    ensures |sealed| == |b.sealed|
    ensures forall i :: 0 <= i < |b.sealed| ==> sealed[i] == SealedFile(ReadJournal(z, b.sealed[i].bytes).file, db.sealed[i].marks)
  {
    seq(|b.sealed|, i requires 0 <= i < |b.sealed| => SealedFile(ReadJournal(z, b.sealed[i].bytes).file, db.sealed[i].marks))
  }

  /** The store after the first `n` bytes of a batch reached the file. */
  function Cut(z: Codec, b: Store, w: Written, n: nat): Store
    requires b.pos <= |b.active| && n <= |Frame(z, w)|
  {
    b.(active := Overwrite(b.active, b.pos, Frame(z, w)[..n]))
  }

  ghost function Step(z: Codec, b: Store, e: Event): Store
    requires Enabled(z, b, e)
  {
    match e
    case Append(w) =>
      b.(trees := R.TreesAfter(b.trees, AsRead(w)), active := Overwrite(b.active, b.pos, Frame(z, w)),
         pos := b.pos + |Frame(z, w)|, seqno := b.seqno + 1)
    case Other(e) =>
      var db := R.Step(Bare(b), e);
      b.(trees := db.trees, seqno := db.seqno)
    case RotateFile(padding) =>
      b.(sealed := b.sealed + [SealedFile(b.active, R.MarksOf(b.trees))], active := Zeros(padding), pos := 0)
    case EvictFile => b.(sealed := b.sealed[1..])
    case Crash => Reopen(z, b)
    case TornAppend(w, n) => Reopen(z, Cut(z, b, w, n))
  }

  // ---------------------------------------------------------------------------
  // The database that the bytes stand for.

  ghost function ModelOf(z: Codec, b: Store): R.Db {
    R.Db(b.trees, SealedOf(z, b.sealed), ReadJournal(z, b.active).batches, b.seqno)
  }

  ghost function SealedOf(z: Codec, sealed: seq<SealedFile>): (queue: seq<R.Sealed>)
    ensures |queue| == |sealed|
    ensures forall i :: 0 <= i < |sealed| ==> queue[i] == R.Sealed(ReadJournal(z, sealed[i].bytes).batches, sealed[i].marks)
  {
    seq(|sealed|, i requires 0 <= i < |sealed| => R.Sealed(ReadJournal(z, sealed[i].bytes).batches, sealed[i].marks))
  }

  function EventOf(z: Codec, e: Event): R.Event {
    match e
    case Append(w) => WriteOf(w)
    case Other(e) => e
    case RotateFile(_) => R.RotateJournal
    case EvictFile => R.Evict
    case Crash => R.Crash
    case TornAppend(w, n) => if n == |Frame(z, w)| then CrashAfter(w) else R.Crash
  }

  ghost predicate Whole(z: Codec, bytes: seq<Byte>) {
    exists ws :: Intact(z, bytes, ws)
  }

  /** The active file holds the batches `ws`, and the next one goes right behind them. */
  predicate Fills(z: Codec, active: seq<Byte>, pos: nat, ws: seq<Written>) {
    Intact(z, active, ws) && pos == |FrameAll(z, ws)|
  }

  ghost predicate SealedHold(z: Codec, b: Store) {
    forall i :: 0 <= i < |b.sealed| ==> Whole(z, b.sealed[i].bytes)
  }

  ghost predicate Good(z: Codec, b: Store) {
    SealedHold(z, b) && exists ws :: Fills(z, b.active, b.pos, ws)
  }

  /** No journal file reports an error when read. */
  ghost predicate ReadsClean(z: Codec, b: Store) {
    ReadJournal(z, b.active).end == Ended && forall i :: 0 <= i < |b.sealed| ==> ReadJournal(z, b.sealed[i].bytes).end == Ended
  }

  /** The step keeps the files whole and is the step of the model that it stands for; reading
      the files a crash leaves never fails. */
  ghost predicate Simulates(z: Codec, b: Store, e: Event)
    requires Enabled(z, b, e)
  {
    && Good(z, Step(z, b, e)) && R.Formed(ModelOf(z, b)) && R.Enabled(ModelOf(z, b), EventOf(z, e))
    && ModelOf(z, Step(z, b, e)) == R.Step(ModelOf(z, b), EventOf(z, e))
    && (e.Crash? ==> ReadsClean(z, b)) && (e.TornAppend? ==> ReadsClean(z, Cut(z, b, e.w, e.n)))
  }

  // ---------------------------------------------------------------------------
  // Appending.

  lemma OverwriteTorn(z: Codec, active: seq<Byte>, pos: nat, ws: seq<Written>, w: Written, n: nat)
    requires Fills(z, active, pos, ws) && Writable(z, w) && n <= |Frame(z, w)|
    ensures pos <= |active| && AllWritable(z, ws + [w]) && |FrameAll(z, ws + [w])| == pos + |Frame(z, w)|
    ensures CrashBytes.Torn(z, Overwrite(active, pos, Frame(z, w)[..n]), ws + [w], pos + n)
  {
    hide FrameAll, Frame, Writable;
    FrameAllSnoc(z, ws, w);
    var all, frame := FrameAll(z, ws), Frame(z, w);
    var file := Overwrite(active, pos, frame[..n]);
    assert active[..pos] == all[..pos] == all;
    assert file[..pos + n] == all + frame[..n] == (all + frame)[..pos + n];
    assert forall i :: pos + n <= i < |file| ==> file[i] == active[i];
  }

  lemma OverwriteWrites(z: Codec, active: seq<Byte>, pos: nat, ws: seq<Written>, w: Written)
    requires Fills(z, active, pos, ws) && Writable(z, w)
    ensures pos <= |active| && Fills(z, Overwrite(active, pos, Frame(z, w)), pos + |Frame(z, w)|, ws + [w])
  {
    hide FrameAll, Frame, Writable, Overwrite;
    OverwriteTorn(z, active, pos, ws, w, |Frame(z, w)|);
    assert Frame(z, w)[..|Frame(z, w)|] == Frame(z, w);
  }

  lemma AppendSimulates(z: Codec, b: Store, w: Written)
    requires Faithful(z) && Good(z, b) && Enabled(z, b, Append(w))
    ensures Simulates(z, b, Append(w))
  {
    hide Faithful, Frame, Intact, R.TreesAfter, ReadJournal, ItemsOf, ClearsOf, Overwrite, Writable, AsReads;
    var ws :| Fills(z, b.active, b.pos, ws);
    var b' := Step(z, b, Append(w));
    OverwriteWrites(z, b.active, b.pos, ws, w);
    assert Fills(z, b'.active, b'.pos, ws + [w]);
    IntactReads(z, b.active, ws);
    IntactReads(z, b'.active, ws + [w]);
    FrameAllSnoc(z, ws, w);
  }

  // ---------------------------------------------------------------------------
  // Steps of the trees and of the queue.

  lemma OtherSimulates(z: Codec, b: Store, e: R.Event)
    requires Good(z, b) && Enabled(z, b, Other(e))
    ensures Simulates(z, b, Other(e))
  {
    hide ReadJournal, Fills, Whole, Compacts;
    var ws :| Fills(z, b.active, b.pos, ws);
    assert Fills(z, Step(z, b, Other(e)).active, Step(z, b, Other(e)).pos, ws);
  }

  lemma ZerosHold(z: Codec, padding: nat)
    ensures Fills(z, Zeros(padding), 0, [])
  {
  }

  lemma RotateSimulates(z: Codec, b: Store, padding: nat)
    requires Faithful(z) && Good(z, b) && Enabled(z, b, RotateFile(padding))
    ensures Simulates(z, b, RotateFile(padding))
  {
    hide Faithful, Intact, ReadJournal, R.MarksOf;
    var ws :| Fills(z, b.active, b.pos, ws);
    var b' := Step(z, b, RotateFile(padding));
    ZerosHold(z, padding);
    IntactReads(z, b'.active, []);
    assert Whole(z, b.active);
    assert ModelOf(z, b').sealed == R.Step(ModelOf(z, b), R.RotateJournal).sealed;
  }

  lemma EvictSimulates(z: Codec, b: Store)
    requires Good(z, b) && Enabled(z, b, EvictFile)
    ensures Simulates(z, b, EvictFile)
  {
    hide ReadJournal, Whole, Fills, R.CanEvict;
    assert SealedOf(z, b.sealed[1..]) == SealedOf(z, b.sealed)[1..];
  }

  // ---------------------------------------------------------------------------
  // Crashes.

  /** A journal cut at any byte is cut back to whole batches, which read the same afterwards. */
  lemma CutBack(z: Codec, file: seq<Byte>, ws: seq<Written>, n: nat) returns (kept: seq<Written>)
    requires Faithful(z) && AllWritable(z, ws) && CrashBytes.Torn(z, file, ws, n)
    ensures var cut := ReadJournal(z, file);
            && cut.end == Ended && Fills(z, cut.file, |cut.file|, kept)
            && ReadJournal(z, cut.file).batches == cut.batches
  {
    hide Faithful, FrameAll, ReadAll, AsReads, Writable;
    TornTailRecovers(z, ws, n, file);
    kept := ws[..Complete(z, ws, n)];
    assert AllWritable(z, kept);
    var all := FrameAll(z, kept);
    assert all[..|all|] == all;
    IntactReads(z, all, kept);
  }

  /** What a crash left: intact sealed journals and an active one cut at some byte. */
  ghost predicate Crashed(z: Codec, b: Store, ws: seq<Written>, n: nat) {
    SealedHold(z, b) && AllWritable(z, ws) && CrashBytes.Torn(z, b.active, ws, n)
  }

  lemma RecutHolds(z: Codec, b: Store)
    requires Faithful(z) && SealedHold(z, b)
    ensures forall i :: 0 <= i < |b.sealed| ==>
              var cut := ReadJournal(z, b.sealed[i].bytes);
              cut.end == Ended && Whole(z, cut.file) && ReadJournal(z, cut.file).batches == cut.batches
  {
    hide Faithful, ReadJournal, FrameAll, Writable;
    forall i | 0 <= i < |b.sealed|
      ensures var cut := ReadJournal(z, b.sealed[i].bytes);
              cut.end == Ended && Whole(z, cut.file) && ReadJournal(z, cut.file).batches == cut.batches
    {
      var ws :| Intact(z, b.sealed[i].bytes, ws);
      var kept := CutBack(z, b.sealed[i].bytes, ws, |FrameAll(z, ws)|);
      assert Intact(z, ReadJournal(z, b.sealed[i].bytes).file, kept);
    }
  }

  lemma ReopenedShape(z: Codec, b: Store)
    ensures var db := Reopened(z, TablesOf(b), FilesOf(b), b.active);
            && |db.sealed| == |b.sealed| && db.active == ReadJournal(z, b.active).batches
            && forall i :: 0 <= i < |b.sealed| ==> db.sealed[i].batches == ReadJournal(z, b.sealed[i].bytes).batches
  {
    hide ReadJournal, R.RebuiltTrees, R.NextSeqno, R.SealedSeqno, R.FoundMarks;
  }

  /** The reopened files stand for the recovered database. */
  lemma ReopenGood(z: Codec, b: Store, ws: seq<Written>, n: nat)
    requires Faithful(z) && Crashed(z, b, ws, n)
    ensures ReadsClean(z, b) && Good(z, Reopen(z, b)) && ModelOf(z, Reopen(z, b)) == Reopened(z, TablesOf(b), FilesOf(b), b.active)
  {
    hide Faithful, ReadJournal, Reopened, CrashBytes.Torn, AllWritable, Intact;
    ReopenedShape(z, b);
    RecutHolds(z, b);
    var kept := CutBack(z, b.active, ws, n);
    var db, b' := Reopened(z, TablesOf(b), FilesOf(b), b.active), Reopen(z, b);
    assert Fills(z, b'.active, b'.pos, kept);
    assert SealedOf(z, b'.sealed) == db.sealed;
  }

  /** What was written to each sealed file. */
  ghost function WrittenTo(z: Codec, b: Store): (logs: seq<seq<Written>>)
    requires SealedHold(z, b)
    ensures |logs| == |b.sealed| && forall i :: 0 <= i < |logs| ==> Intact(z, b.sealed[i].bytes, logs[i])
  {
    seq(|b.sealed|, i requires 0 <= i < |b.sealed| => ContentOf(z, b.sealed[i].bytes))
  }

  ghost function ContentOf(z: Codec, bytes: seq<Byte>): (ws: seq<Written>)
    requires Whole(z, bytes)
    ensures Intact(z, bytes, ws)
  {
    var ws :| Intact(z, bytes, ws);
    ws
  }

  lemma ModelIntact(z: Codec, b: Store)
    requires Faithful(z) && SealedHold(z, b)
    ensures SealedIntact(z, ModelOf(z, b), FilesOf(b), WrittenTo(z, b))
  {
    hide Faithful, Intact, ReadJournal, AsReads;
    forall i | 0 <= i < |b.sealed| { IntactReads(z, b.sealed[i].bytes, WrittenTo(z, b)[i]); }
  }

  lemma SameTables(z: Codec, b: Store)
    ensures TablesOf(b) == R.DiskOf(ModelOf(z, b)).tables
  {
  }

  lemma CrashSimulates(z: Codec, b: Store)
    requires Faithful(z) && Good(z, b) && Enabled(z, b, Crash)
    ensures Simulates(z, b, Crash)
  {
    hide Faithful, FrameAll, ReadJournal, Reopen, R.Step, R.DiskOf, SealedIntact, AsReads, Reopened;
    var ws :| Fills(z, b.active, b.pos, ws);
    IntactReads(z, b.active, ws);
    ModelIntact(z, b);
    CrashBetweenWrites(z, ModelOf(z, b), FilesOf(b), WrittenTo(z, b), b.active, ws);
    SameTables(z, b);
    ReopenGood(z, b, ws, |FrameAll(z, ws)|);
  }

  lemma TornSimulates(z: Codec, b: Store, w: Written, n: nat)
    requires Faithful(z) && Good(z, b) && Enabled(z, b, TornAppend(w, n))
    ensures Simulates(z, b, TornAppend(w, n))
  {
    hide Faithful, FrameAll, Frame, ReadJournal, Reopen, R.Step, R.DiskOf, SealedIntact, AsReads, Reopened, Overwrite, Intact, CrashBytes.Torn,
      AllWritable, ItemsOf, ClearsOf, Writable;
    var ws :| Fills(z, b.active, b.pos, ws);
    var cut := Cut(z, b, w, n);
    IntactReads(z, b.active, ws);
    OverwriteTorn(z, b.active, b.pos, ws, w, n);
    ModelIntact(z, b);
    CrashAtAnyByte(z, ModelOf(z, b), FilesOf(b), WrittenTo(z, b), cut.active, ws, w, b.pos + n);
    SameTables(z, b);
    ReopenGood(z, cut, ws + [w], b.pos + n);
    assert FilesOf(cut) == FilesOf(b) && TablesOf(cut) == TablesOf(b);
  }

  /** Every step over bytes is the step of the model that it stands for. */
  lemma StepSimulates(z: Codec, b: Store, e: Event)
    requires Faithful(z) && Good(z, b) && Enabled(z, b, e)
    ensures Simulates(z, b, e)
  {
    hide Faithful, Good, Enabled, Simulates;
    match e {
      case Append(w) => AppendSimulates(z, b, w);
      case Other(e) => OtherSimulates(z, b, e);
      case RotateFile(padding) => RotateSimulates(z, b, padding);
      case EvictFile => EvictSimulates(z, b);
      case Crash => CrashSimulates(z, b);
      case TornAppend(w, n) => TornSimulates(z, b, w, n);
    }
  }

  // ---------------------------------------------------------------------------
  // All runs.

  function NewStore(ids: set<nat>, padding: nat): Store {
    Store(map id | id in ids :: R.Tree(map[], [map[]]), [], Zeros(padding), 0, 0)
  }

  ghost predicate IsRun(z: Codec, trace: seq<Store>, events: seq<Event>) {
    && |trace| == |events| + 1
    && forall i :: 0 <= i < |events| ==> Enabled(z, trace[i], events[i]) && trace[i + 1] == Step(z, trace[i], events[i])
  }

  /** The batches whose bytes all reached the file. */
  function Completed(z: Codec, events: seq<Event>): seq<Batch> {
    if events == [] then []
    else
      var n := |events| - 1;
      var before := Completed(z, events[..n]);
      match events[n]
      case Append(w) => before + [AsRead(w)]
      case TornAppend(w, m) => if m == |Frame(z, w)| then before + [AsRead(w)] else before
      case _ => before
  }

  ghost function Models(z: Codec, trace: seq<Store>): (dbs: seq<R.Db>)
    ensures |dbs| == |trace| && forall i :: 0 <= i < |trace| ==> dbs[i] == ModelOf(z, trace[i])
  {
    seq(|trace|, i requires 0 <= i < |trace| => ModelOf(z, trace[i]))
  }

  function EventsOf(z: Codec, events: seq<Event>): (es: seq<R.Event>)
    ensures |es| == |events| && forall i :: 0 <= i < |events| ==> es[i] == EventOf(z, events[i])
  {
    seq(|events|, i requires 0 <= i < |events| => EventOf(z, events[i]))
  }

  lemma FreshGood(z: Codec, ids: set<nat>, padding: nat)
    requires Faithful(z)
    ensures Good(z, NewStore(ids, padding)) && ModelOf(z, NewStore(ids, padding)) == R.Start(ids)
  {
    hide Faithful, Intact, ReadJournal;
    ZerosHold(z, padding);
    IntactReads(z, Zeros(padding), []);
  }

  lemma {:induction false} RunGood(z: Codec, ids: set<nat>, padding: nat, trace: seq<Store>, events: seq<Event>)
    requires Faithful(z) && IsRun(z, trace, events) && trace[0] == NewStore(ids, padding)
    ensures forall i :: 0 <= i < |trace| ==> Good(z, trace[i])
    decreases |events|
  {
    hide Faithful, Good, Enabled, Step;
    FreshGood(z, ids, padding);
    var n := |events|;
    if n > 0 {
      RunGood(z, ids, padding, trace[..n], events[..n - 1]);
      assert Good(z, trace[..n][n - 1]);
      assert forall i :: 0 <= i < n ==> trace[i] == trace[..n][i];
      StepSimulates(z, trace[n - 1], events[n - 1]);
    }
  }

  lemma {:induction false} HistoriesAgree(z: Codec, trace: seq<Store>, events: seq<Event>)
    requires IsRun(z, trace, events)
    ensures R.HistoryOf(Models(z, trace), EventsOf(z, events)) == Completed(z, events)
    decreases |events|
  {
    hide Enabled, Step, ModelOf, EventOf, R.StepHistory;
    var n := |events|;
    if n > 0 {
      HistoriesAgree(z, trace[..n], events[..n - 1]);
      assert Models(z, trace)[..n] == Models(z, trace[..n]);
      assert EventsOf(z, events)[..n - 1] == EventsOf(z, events[..n - 1]);
      SameBatch(z, trace[n - 1], events[n - 1], Completed(z, events[..n - 1]));
    }
  }

  /** A run over bytes stands for a run of the model with the same writes. */
  lemma RunSimulates(z: Codec, ids: set<nat>, padding: nat, trace: seq<Store>, events: seq<Event>)
    requires Faithful(z) && IsRun(z, trace, events) && trace[0] == NewStore(ids, padding)
    ensures R.IsRun(Models(z, trace), EventsOf(z, events)) && Models(z, trace)[0] == R.Start(ids)
    ensures R.HistoryOf(Models(z, trace), EventsOf(z, events)) == Completed(z, events)
  {
    hide Faithful, Good, Enabled, Step, ModelOf, EventOf, R.Step, R.Enabled, R.Formed, R.HistoryOf, Completed, NewStore;
    FreshGood(z, ids, padding);
    RunGood(z, ids, padding, trace, events);
    HistoriesAgree(z, trace, events);
    var dbs, es := Models(z, trace), EventsOf(z, events);
    forall i | 0 <= i < |es|
      ensures R.Formed(dbs[i]) && R.Enabled(dbs[i], es[i]) && dbs[i + 1] == R.Step(dbs[i], es[i])
    {
      StepSimulates(z, trace[i], events[i]);
    }
  }

  lemma SameBatch(z: Codec, b: Store, e: Event, history: seq<Batch>)
    requires Enabled(z, b, e)
    ensures R.StepHistory(ModelOf(z, b), history, EventOf(z, e)) ==
            match e
            case Append(w) => history + [AsRead(w)]
            case TornAppend(w, n) => if n == |Frame(z, w)| then history + [AsRead(w)] else history
            case _ => history
  {
    hide ReadJournal, Frame, ItemsOf, ClearsOf;
  }

  /** Over every run, crashes at any byte of any append included, every lookup returns the
      last write whose bytes all reached the journal, since the keyspace was last cleared. */
  lemma BytesKeepNewest(z: Codec, ids: set<nat>, padding: nat, trace: seq<Store>, events: seq<Event>, id: nat, x: Key)
    requires Faithful(z) && IsRun(z, trace, events) && trace[0] == NewStore(ids, padding) && id in ids
    ensures R.Get(Bare(trace[|events|]), id, x) == R.LastWrite(Completed(z, events), id, x)
  {
    hide Faithful, Good, Enabled, Step, ModelOf, R.Step, R.Enabled, R.Formed, EventOf, R.LastWrite, Completed, R.HistoryOf;
    RunSimulates(z, ids, padding, trace, events);
    R.RunsKeepNewest(ids, Models(z, trace), EventsOf(z, events), id, x);
    SameGet(z, trace[|events|], id, x);
  }

  lemma GoodWithin(z: Codec, b: Store)
    requires Good(z, b)
    ensures b.pos <= |b.active|
  {
    hide FrameAll;
    var ws :| Fills(z, b.active, b.pos, ws);
  }

  /** What may happen at any time: a crash, a rotation, and an append of any batch the store
      accepts, complete or cut short after any number of its bytes. */
  ghost predicate AnyTime(z: Codec, b: Store, e: Event) {
    || e.Crash? || e.RotateFile?
    || ((e.Append? || e.TornAppend?) && CanWrite(z, b, e.w) && (e.TornAppend? ==> e.n <= |Frame(z, e.w)|))
  }

  /** No run gets stuck. */
  lemma NeverStuck(z: Codec, ids: set<nat>, padding: nat, trace: seq<Store>, events: seq<Event>, e: Event)
    requires Faithful(z) && IsRun(z, trace, events) && trace[0] == NewStore(ids, padding)
    requires AnyTime(z, trace[|events|], e)
    ensures Enabled(z, trace[|events|], e)
  {
    hide Faithful, Good, CanWrite, Frame, Step, NewStore, Completed,
         R.AllFormed, R.IsRun, R.DbInv, R.Answers, R.HistoryOf, R.Start, SealedOf, ReadJournal;
    var n := |events|;
    RunGood(z, ids, padding, trace, events);
    GoodWithin(z, trace[n]);
    RunSimulates(z, ids, padding, trace, events);
    var newest := R.RunInv(ids, Models(z, trace), EventsOf(z, events));
    assert Models(z, trace)[n] == ModelOf(z, trace[n]);
  }

  lemma SameGet(z: Codec, b: Store, id: nat, x: Key)
    ensures R.Get(ModelOf(z, b), id, x) == R.Get(Bare(b), id, x)
  {
  }

  /** The batch that last said something about a key, among those whose bytes all reached the
      journal, decides every lookup of it. */
  lemma BytesAnswerByItems(z: Codec, ids: set<nat>, padding: nat, trace: seq<Store>, events: seq<Event>, n: nat, id: nat, x: Key)
    requires Faithful(z) && IsRun(z, trace, events) && trace[0] == NewStore(ids, padding) && id in ids
    requires var history := Completed(z, events); n < |history| && forall m :: n < m < |history| ==> R.Silent(history[m], id, x)
    ensures forall value :: R.Sets(Completed(z, events)[n], id, x, value) ==> R.Get(Bare(trace[|events|]), id, x) == Some(value)
    ensures R.Removes(Completed(z, events)[n], id, x) ==> R.Get(Bare(trace[|events|]), id, x) == None
  {
    hide Faithful, IsRun, Completed, R.LastWrite, R.Get, R.Sets, R.Removes, R.Silent;
    BytesKeepNewest(z, ids, padding, trace, events, id, x);
    R.LastWriteDecided(Completed(z, events), n, id, x);
  }

  /** With values stored as they are, no assumption on the codec is left. */
  lemma PlainBytesKeepNewest(ids: set<nat>, padding: nat, trace: seq<Store>, events: seq<Event>, id: nat, x: Key)
    requires IsRun(PLAIN, trace, events) && trace[0] == NewStore(ids, padding) && id in ids
    ensures R.Get(Bare(trace[|events|]), id, x) == R.LastWrite(Completed(PLAIN, events), id, x)
  {
    PlainFaithful();
    BytesKeepNewest(PLAIN, ids, padding, trace, events, id, x);
  }
}
