// Syncing until the indexer has no more outputs, in full or in incremental mode.
module NoteSyncAll {
  import opened Wrappers
  import opened Sorting
  import opened PoolParser
  import opened PoolTables
  import opened NoteOutputs
  import opened NoteBackups
  import opened NoteStores
  import opened NoteSync
  import opened NoteSyncProtocol

  // ---- One sync against a table that does not change meanwhile ----

  function Answer(pool: Pool, table: seq<OutputRow>, start: nat, end: int): Result<OutputRange, SyncError> {
    RangeAnswer(ListOutputRange(table, pool.programId, start, end), OutputCount(table, pool.programId), end)
  }

  function SyncOnce(pool: Pool, table: seq<OutputRow>, storage: Storage, scope: Scope, batchSize: int, now: int)
    : Result<NoteSyncResult, SyncError>
  {
    if !(1 <= batchSize <= MAX_BATCH_SIZE) then Failure(BadBatchSize)
    else match Exported(storage, scope, now)
      case Failure(error) => Failure(NoteFailure(error))
      case Success(current) =>
        var range :- Answer(pool, table, current.fetchOffset, current.fetchOffset + batchSize);
        Absorb(scope, current, now, range, pool.toCiphertext)
  }

  lemma BatchSizeIff(pool: Pool, table: seq<OutputRow>, storage: Storage, scope: Scope, batchSize: int, now: int)
    ensures SyncOnce(pool, table, storage, scope, batchSize, now) == Failure(BadBatchSize) <==> !(1 <= batchSize <= 20000)
  {
    hide Exported, Imported, NextBackup, Consecutive, Decodable, ListOutputRange, OutputCount, AllSafe;
  }

  method SyncNotes(notes: NoteStore, pool: Pool, table: seq<OutputRow>, scope: Scope, batchSize: int, now: int)
    returns (r: Result<NoteSyncResult, SyncError>)
    modifies notes
    ensures r == SyncOnce(pool, table, old(notes.storage), scope, batchSize, now)
    ensures notes.storage == if r.Success? then old(notes.storage)[scope := AsInput(r.value.backup)] else old(notes.storage)
  {
    hide Exported, Imported, AsInput, NextBackup, Consecutive, Decodable, RangeAnswer;
    if !(1 <= batchSize <= MAX_BATCH_SIZE) {
      return Failure(BadBatchSize);
    }
    var exported := notes.ExportNotes(scope, now);
    if exported.Failure? {
      return Failure(NoteFailure(exported.error));
    }
    var current := exported.value;
    var previousOffset := current.fetchOffset;
    var range :- Answer(pool, table, previousOffset, previousOffset + batchSize);
    if range.total < previousOffset {
      return Failure(IndexerBehind);
    }
    if range.outputs == [] && range.hasMore {
      return Failure(NothingReturned);
    }
    if !Consecutive(range.outputs, previousOffset) {
      return Failure(WrongIndex);
    }
    if !Decodable(pool.toCiphertext, range.outputs) {
      return Failure(BadCiphertext);
    }
    var next := NextBackup(scope, current, now, range, pool.toCiphertext);
    OverwriteIgnoresStorage(notes.storage, scope, next);
    var imported := notes.ImportNotes(scope, next, false);
    if imported.Failure? {
      return Failure(NoteFailure(imported.error));
    }
    var fetched := |range.outputs|;
    return Success(NoteSyncResult(previousOffset, previousOffset + fetched, fetched, range.total, range.hasMore, imported.value));
  }

  lemma OverwriteIgnoresStorage(storage: Storage, scope: Scope, backup: BackupInput)
    ensures Imported(storage, scope, backup, false) == Imported(map[], scope, backup, false)
  {
  }

  // ---- One sync is a run of the protocol ----

  lemma RunSnoc(pool: Pool, scope: Scope, s: State, steps: seq<Step>, step: Step)
    ensures Run(pool, scope, s, steps + [step]) == Apply(pool, scope, Run(pool, scope, s, steps), step)
  {
    assert (steps + [step])[..|steps|] == steps;
  }

  lemma RunNothing(pool: Pool, scope: Scope, s: State)
    ensures Run(pool, scope, s, []) == s
  {
  }

  /** Rows are indexed, then a sync takes its four steps undisturbed: the table, the store and the
      other sessions are what inserting the rows and `SyncNotes` make of them. */
  lemma SyncIsARun(pool: Pool, scope: Scope, s: State, newRows: seq<OutputRow>, id: nat, batchSize: nat, now: int)
    requires id !in s.sessions
    ensures var table := InsertAll(OutputsClash, s.table, newRows);
      var r := SyncOnce(pool, table, s.storage, scope, batchSize, now);
      Run(pool, scope, s, [Index(newRows), Begin(id, batchSize, now), ReadRows(id), CountRows(id), Finish(id)])
      == State(table, if r.Success? then s.storage[scope := AsInput(r.value.backup)] else s.storage, s.sessions)
  {
    hide Run, InsertAll, Exported, AsInput, Absorb, RangeAnswer, ListOutputRange, OutputCount;
    var a: seq<Step> := [];
    var b, c := a + [Index(newRows)], a + [Index(newRows)] + [Begin(id, batchSize, now)];
    var d, e := c + [ReadRows(id)], c + [ReadRows(id)] + [CountRows(id)];
    RunNothing(pool, scope, s);
    RunSnoc(pool, scope, s, a, Index(newRows));
    RunSnoc(pool, scope, s, b, Begin(id, batchSize, now));
    RunSnoc(pool, scope, s, c, ReadRows(id));
    RunSnoc(pool, scope, s, d, CountRows(id));
    RunSnoc(pool, scope, s, e, Finish(id));
    assert e + [Finish(id)] == [Index(newRows), Begin(id, batchSize, now), ReadRows(id), CountRows(id), Finish(id)];
    var begun := Run(pool, scope, s, c);
    assert id !in begun.sessions ==> begun.sessions == s.sessions;
    assert begun.sessions - {id} == s.sessions;
  }

  /** A sync that is abandoned at any point leaves the store as it was. */
  lemma AbandonedSyncLeavesNothing(pool: Pool, scope: Scope, s: State, id: nat, batchSize: nat, now: int, asked: bool, counted: bool)
    requires id !in s.sessions
    ensures var first := Apply(pool, scope, s, Begin(id, batchSize, now));
      var second := if asked then Apply(pool, scope, first, ReadRows(id)) else first;
      var third := if counted then Apply(pool, scope, second, CountRows(id)) else second;
      Apply(pool, scope, third, Abandon(id)) == s
  {
    hide Exported, ListOutputRange, OutputCount;
    var first := Apply(pool, scope, s, Begin(id, batchSize, now));
    assert first.sessions - {id} == s.sessions;
  }

  /** Restoring and clearing are the store's own operations, whatever syncs are under way. */
  lemma StoreStepsAreCalls(pool: Pool, scope: Scope, s: State, backup: BackupInput, merge: bool, now: int)
    ensures var r, next := Imported(s.storage, scope, backup, merge), Apply(pool, scope, s, Import(backup, merge));
      && next.table == s.table && next.sessions == s.sessions
      && (r.Failure? ==> next.storage == s.storage)
      && (r.Success? ==> Exported(next.storage, scope, now) == Success(r.value.(exportedAt := now)))
    ensures var next := Apply(pool, scope, s, Clear);
      && next.table == s.table && next.sessions == s.sessions
      && Exported(next.storage, scope, now) == Success(EmptyBackup(scope, now))
  {
    hide Exported, Imported, AsInput;
    ExportWhenEmpty(s.storage, scope, now);
    if Imported(s.storage, scope, backup, merge).Success? {
      ExportAfterImport(s.storage, scope, backup, merge, now);
    }
  }

  // ---- What one sync achieves ----

  /** With any table and any store: a sync that reports more outputs has moved the offset forward,
      and it stays below the total. */
  lemma SyncMakesProgress(pool: Pool, table: seq<OutputRow>, storage: Storage, scope: Scope, batchSize: int, now: int)
    requires UniqueKeys(OutputsClash, table) && SyncOnce(pool, table, storage, scope, batchSize, now).Success?
    ensures var r := SyncOnce(pool, table, storage, scope, batchSize, now).value;
      && r.total == OutputCount(table, pool.programId)
      && r.nextOffset == r.previousOffset + r.fetched
      && (r.hasMore ==> r.previousOffset < r.nextOffset < r.total)
      && Exported(storage, scope, now).Success? && r.previousOffset == Exported(storage, scope, now).value.fetchOffset
      && Exported(storage[scope := AsInput(r.backup)], scope, now).Success?
      && Exported(storage[scope := AsInput(r.backup)], scope, now).value.fetchOffset == r.nextOffset
      && Exported(storage[scope := AsInput(r.backup)], scope, now).value.indexedOutputs == r.backup.indexedOutputs
  {
    hide Exported, CreateNoteBackup, AsInput, ListOutputRange, OutputCount, NormalBackup, UniqueKeys;
    var current := Exported(storage, scope, now).value;
    var start, end := current.fetchOffset, current.fetchOffset + batchSize;
    var rows := ListOutputRange(table, pool.programId, start, end);
    var range := Answer(pool, table, start, end).value;
    var next := NextBackup(scope, current, now, range, pool.toCiphertext);
    RangeIsExact(table, pool.programId, start, end);
    assert rows != [] ==> rows[|rows| - 1] in rows && range.outputs[|rows| - 1].outputIndex == start + |rows| - 1;
    ExportAfterImport(map[], scope, next, false, now);
    OverwriteIgnoresStorage(storage, scope, next);
    ExportAfterImport(storage, scope, next, false, now);
    CreatedOffset(next);
  }

  lemma CreatedOffset(input: BackupInput)
    requires CreateNoteBackup(input).Success?
    ensures CreateNoteBackup(input).value.fetchOffset == input.fetchOffset
  {
  }

  // ---- A densely numbered pool ----

  function TreeRows(pool: Pool, table: seq<OutputRow>): seq<OutputRow> {
    ListOutputsForTree(table, pool.programId)
  }

  predicate Dense(pool: Pool, table: seq<OutputRow>) {
    forall i :: 0 <= i < |TreeRows(pool, table)| ==> TreeRows(pool, table)[i].outputIndex == i
  }

  predicate DecodableTo(pool: Pool, table: seq<OutputRow>, n: nat)
    requires n <= |TreeRows(pool, table)|
  {
    forall i :: 0 <= i < n ==> pool.toCiphertext(TreeRows(pool, table)[i].encryptedOutput).Some?
  }

  // The first n outputs of the pool.
  function OutputsTo(pool: Pool, table: seq<OutputRow>, n: nat): seq<IndexedOutput>
    requires n <= |TreeRows(pool, table)| && DecodableTo(pool, table, n)
  {
    seq(n, i requires 0 <= i < n => IndexedOutput(i, pool.toCiphertext(TreeRows(pool, table)[i].encryptedOutput).value))
  }

  // They decode, and no ciphertext occurs twice among them.
  predicate SyncableTo(pool: Pool, table: seq<OutputRow>, n: nat)
    requires n <= |TreeRows(pool, table)|
  {
    SafeInteger(n) && DecodableTo(pool, table, n) && OneToOne(OutputsTo(pool, table, n))
  }

  lemma SyncableBelow(pool: Pool, table: seq<OutputRow>, n: nat, m: nat)
    requires n <= m <= |TreeRows(pool, table)| && SyncableTo(pool, table, m)
    ensures SyncableTo(pool, table, n) && OutputsTo(pool, table, n) <= OutputsTo(pool, table, m)
  {
    hide TreeRows, OneToOne;
    assert OutputsTo(pool, table, n) == OutputsTo(pool, table, m)[..n];
    OneToOneOfPart(OutputsTo(pool, table, n), OutputsTo(pool, table, m));
  }

  lemma RangeIsSlice(pool: Pool, table: seq<OutputRow>, start: nat, end: nat)
    requires UniqueKeys(OutputsClash, table) && Dense(pool, table) && start <= |TreeRows(pool, table)| && start <= end
    ensures var total := |TreeRows(pool, table)|;
      ListOutputRange(table, pool.programId, start, end) == TreeRows(pool, table)[start..if end <= total then end else total]
  {
    hide ListOutputRange, ListOutputsForTree, UniqueKeys;
    var tree := TreeRows(pool, table);
    var stop := if end <= |tree| then end else |tree|;
    RangeIsExact(table, pool.programId, start, end);
    TreeRowsAreExact(table, pool.programId);
    forall row
      ensures row in tree[start..stop] <==> row in tree && start <= row.outputIndex < end
    {
      InSlice(tree, start, stop, end, row);
    }
    AscendingIsUnique(OutputIndexOf, ListOutputRange(table, pool.programId, start, end), tree[start..stop]);
  }

  lemma InSlice(tree: seq<OutputRow>, start: nat, stop: nat, end: nat, row: OutputRow)
    requires (forall i :: 0 <= i < |tree| ==> tree[i].outputIndex == i)
    requires start <= |tree| && start <= end && stop == if end <= |tree| then end else |tree|
    ensures row in tree[start..stop] <==> row in tree && start <= row.outputIndex < end
  {
    var slice := tree[start..stop];
    if row in slice {
      var i :| 0 <= i < |slice| && slice[i] == row;
      assert tree[start + i] == row;
    }
    if row in tree && start <= row.outputIndex < end {
      var i :| 0 <= i < |tree| && tree[i] == row;
      assert slice[i - start] == row;
    }
  }

  // A faithful backup of a dense pool is the beginning of the pool.
  lemma FaithfulIsPrefix(pool: Pool, scope: Scope, table: seq<OutputRow>, b: NoteBackup)
    requires UniqueKeys(OutputsClash, table) && Dense(pool, table) && Faithful(pool, scope, table, b)
    ensures b.fetchOffset <= |TreeRows(pool, table)| && SyncableTo(pool, table, b.fetchOffset)
    ensures b.indexedOutputs == OutputsTo(pool, table, b.fetchOffset)
  {
    hide UniqueKeys, ListOutputsForTree, OneToOne;
    var tree := TreeRows(pool, table);
    forall i | 0 <= i < b.fetchOffset
      ensures i < |tree| && pool.toCiphertext(tree[i].encryptedOutput) == Some(b.indexedOutputs[i].encryptedOutput)
    {
      StoredInTree(pool, table, b.indexedOutputs[i]);
    }
    if b.fetchOffset > 0 {
      StoredInTree(pool, table, b.indexedOutputs[b.fetchOffset - 1]);
    }
    assert b.indexedOutputs == OutputsTo(pool, table, b.fetchOffset);
  }

  lemma StoredInTree(pool: Pool, table: seq<OutputRow>, o: IndexedOutput)
    requires UniqueKeys(OutputsClash, table) && Dense(pool, table) && Stored(table, pool.programId, pool.toCiphertext, o)
    ensures o.outputIndex < |TreeRows(pool, table)|
    ensures pool.toCiphertext(TreeRows(pool, table)[o.outputIndex].encryptedOutput) == Some(o.encryptedOutput)
  {
    hide UniqueKeys, ListOutputsForTree;
    var i :| 0 <= i < |table| && table[i].programId == pool.programId && table[i].outputIndex == o.outputIndex
             && pool.toCiphertext(table[i].encryptedOutput) == Some(o.encryptedOutput);
    TreeRowsAreExact(table, pool.programId);
    assert table[i] in TreeRows(pool, table);
  }

  function BatchEnd(start: nat, batchSize: nat, total: nat): nat {
    if start + batchSize <= total then start + batchSize else total
  }

  // What a sync from offset `start` answers.
  predicate TakesBatch(pool: Pool, table: seq<OutputRow>, start: nat, batchSize: nat, r: Result<NoteSyncResult, SyncError>) {
    var total := |TreeRows(pool, table)|;
    var stop := BatchEnd(start, batchSize, total);
    && start <= total
    && (r.Success? <==> SyncableTo(pool, table, stop))
    && (r.Success? ==>
          && r.value.nextOffset == r.value.backup.fetchOffset == stop && r.value.total == total
          && r.value.hasMore == (start + batchSize < total)
          && r.value.backup.indexedOutputs == OutputsTo(pool, table, stop))
  }

  /** One sync of a faithful store of a dense pool takes exactly the next batch, and succeeds
      exactly when the outputs up to there can be kept. */
  lemma SyncTakesNextBatch(pool: Pool, table: seq<OutputRow>, storage: Storage, scope: Scope, batchSize: int, now: int)
    requires UniqueKeys(OutputsClash, table) && Dense(pool, table) && FaithfulStore(pool, scope, State(table, storage, map[]))
    requires 1 <= batchSize <= MAX_BATCH_SIZE
    ensures Exported(storage, scope, now).Success?
    ensures var r := SyncOnce(pool, table, storage, scope, batchSize, now);
      && TakesBatch(pool, table, Exported(storage, scope, now).value.fetchOffset, batchSize, r)
      && (r.Success? ==> Faithful(pool, scope, table, r.value.backup))
  {
    hide UniqueKeys, ListOutputsForTree, ListOutputRange, OneToOne, Exported, CreateNoteBackup, Imported, NormalBackup, Stored, Absorb, RangeAnswer, SyncableTo, Faithful, Dense;
    ExportedIsFaithful(pool, scope, State(table, storage, map[]), now);
    var current, tree := Exported(storage, scope, now).value, TreeRows(pool, table);
    var start, total := current.fetchOffset, |tree|;
    FaithfulIsPrefix(pool, scope, table, current);
    FaithfulParts(pool, scope, table, current);
    var end := start + batchSize;
    var stop := BatchEnd(start, batchSize, total);
    RangeIsSlice(pool, table, start, end);
    TreeRowsAreExact(table, pool.programId);
    var rows := ListOutputRange(table, pool.programId, start, end);
    ReadIsFrom(table, pool.programId, start, end);
    BatchOutcome(pool, scope, table, current, now, rows, end);
    var r := SyncOnce(pool, table, storage, scope, batchSize, now);
    if r.Success? {
      AnswerFields(scope, current, now, rows, total, end, pool.toCiphertext);
      AbsorbKeepsMirror(scope, current, now, rows, total, end, table, pool.programId, pool.toCiphertext);
      FaithfulParts(pool, scope, table, r.value.backup);
      FaithfulIsPrefix(pool, scope, table, r.value.backup);
    }
  }

  lemma AnswerFields(scope: Scope, current: NoteBackup, now: int, rows: seq<OutputRow>, total: nat, end: nat, toCiphertext: ToCiphertext)
    requires RangeAnswer(rows, total, end).Success?
    requires Absorb(scope, current, now, RangeAnswer(rows, total, end).value, toCiphertext).Success?
    ensures var r := Absorb(scope, current, now, RangeAnswer(rows, total, end).value, toCiphertext).value;
      r.total == total && r.hasMore == (end < total) && r.nextOffset == current.fetchOffset + |rows|
  {
  }

  lemma FaithfulParts(pool: Pool, scope: Scope, table: seq<OutputRow>, b: NoteBackup)
    ensures Faithful(pool, scope, table, b) <==>
            NormalBackup(b) && InScope(b, scope).Success? && Mirrors(b, table, pool.programId, pool.toCiphertext)
  {
  }

  lemma BatchOutcome(pool: Pool, scope: Scope, table: seq<OutputRow>, current: NoteBackup, now: int, rows: seq<OutputRow>, end: nat)
    requires Dense(pool, table) && NormalBackup(current)
    requires current.fetchOffset <= |TreeRows(pool, table)| && current.fetchOffset < end
    requires SyncableTo(pool, table, current.fetchOffset) && current.indexedOutputs == OutputsTo(pool, table, current.fetchOffset)
    requires var total := |TreeRows(pool, table)|;
      rows == TreeRows(pool, table)[current.fetchOffset..if end <= total then end else total]
    ensures var total := |TreeRows(pool, table)|;
      var range := RangeAnswer(rows, total, end);
      (range.Success? && Absorb(scope, current, now, range.value, pool.toCiphertext).Success?)
      <==> SyncableTo(pool, table, if end <= total then end else total)
  {
    hide OneToOne, CreateNoteBackup, Imported, NormalBackup, NextBackup, TreeRows, DecodableTo, OutputsTo, Decodable, NewOutputs;
    var tree, start, total := TreeRows(pool, table), current.fetchOffset, |TreeRows(pool, table)|;
    var stop := if end <= total then end else total;
    assert |rows| == stop - start && forall i :: 0 <= i < |rows| ==> rows[i] == tree[start + i] && rows[i].outputIndex == start + i;
    assert SafeInteger(stop) ==> AllSafe(rows);
    if AllSafe(rows) {
      var range := RangeAnswer(rows, total, end).value;
      assert Consecutive(range.outputs, start);
      BatchOutputs(pool, table, start, stop, range.outputs);
      if Decodable(pool.toCiphertext, range.outputs) {
        PositionsTo(pool, table, start);
        AbsorbedOutputs(scope, current, now, range, pool.toCiphertext);
      }
    }
  }

  lemma PositionsTo(pool: Pool, table: seq<OutputRow>, n: nat)
    requires n <= |TreeRows(pool, table)| && DecodableTo(pool, table, n)
    ensures |OutputsTo(pool, table, n)| == n && forall i :: 0 <= i < n ==> OutputsTo(pool, table, n)[i].outputIndex == i
  {
    hide TreeRows;
  }

  lemma BatchOutputs(pool: Pool, table: seq<OutputRow>, start: nat, stop: nat, outputs: seq<RangeOutput>)
    requires start <= stop <= |TreeRows(pool, table)| && DecodableTo(pool, table, start)
    requires |outputs| == stop - start
    requires forall i :: 0 <= i < |outputs| ==>
               outputs[i].outputIndex == start + i && outputs[i].encryptedOutput == TreeRows(pool, table)[start + i].encryptedOutput
    ensures Decodable(pool.toCiphertext, outputs) <==> DecodableTo(pool, table, stop)
    ensures DecodableTo(pool, table, stop) ==>
              OutputsTo(pool, table, start) + NewOutputs(pool.toCiphertext, outputs) == OutputsTo(pool, table, stop)
  {
    hide TreeRows;
    if Decodable(pool.toCiphertext, outputs) {
      forall i | start <= i < stop
        ensures pool.toCiphertext(TreeRows(pool, table)[i].encryptedOutput).Some?
      {
        assert outputs[i - start].encryptedOutput == TreeRows(pool, table)[i].encryptedOutput;
      }
    }
  }

  // ---- What the end of a sync means, with or without gaps ----

  lemma PositionStored(pool: Pool, table: seq<OutputRow>, b: NoteBackup, k: nat)
    requires UniqueKeys(OutputsClash, table) && Mirrors(b, table, pool.programId, pool.toCiphertext) && k < b.fetchOffset
    ensures HasKey(OutputIndexOf, TreeRows(pool, table), k)
  {
    hide ListOutputsForTree, UniqueKeys;
    var o := b.indexedOutputs[k];
    assert Stored(table, pool.programId, pool.toCiphertext, o);
    var i :| 0 <= i < |table| && table[i].programId == pool.programId && table[i].outputIndex == o.outputIndex
             && pool.toCiphertext(table[i].encryptedOutput) == Some(o.encryptedOutput);
    TreeRowsAreExact(table, pool.programId);
    assert table[i] in TreeRows(pool, table);
  }

  // A mirror of as many outputs as there are rows has them all, so there is no gap.
  lemma FullMirrorIsDense(pool: Pool, table: seq<OutputRow>, b: NoteBackup)
    requires UniqueKeys(OutputsClash, table) && Mirrors(b, table, pool.programId, pool.toCiphertext)
    requires b.fetchOffset == OutputCount(table, pool.programId)
    ensures Dense(pool, table)
  {
    hide ListOutputsForTree, UniqueKeys, Mirrors, OutputCount, HasKey;
    TreeRowsAreExact(table, pool.programId);
    forall k: nat | k < |TreeRows(pool, table)|
      ensures HasKey(OutputIndexOf, TreeRows(pool, table), k)
    {
      PositionStored(pool, table, b, k);
    }
    DenseIffPositions(OutputIndexOf, TreeRows(pool, table));
    assert forall i :: 0 <= i < |TreeRows(pool, table)| ==> OutputIndexOf(TreeRows(pool, table)[i]) == TreeRows(pool, table)[i].outputIndex;
  }

  /** A faithful store stays faithful over a sync of any pool.  And when a sync reports that nothing
      is left, then nothing is missing if and only if the pool has no gap. */
  lemma EndIsCompleteIffDense(pool: Pool, scope: Scope, table: seq<OutputRow>, storage: Storage, batchSize: int, now: int)
    requires UniqueKeys(OutputsClash, table) && FaithfulStore(pool, scope, State(table, storage, map[]))
    requires SyncOnce(pool, table, storage, scope, batchSize, now).Success?
    ensures var r := SyncOnce(pool, table, storage, scope, batchSize, now).value;
      && FaithfulStore(pool, scope, State(table, storage[scope := AsInput(r.backup)], map[]))
      && (!r.hasMore ==> (r.nextOffset == OutputCount(table, pool.programId) <==> Dense(pool, table)))
  {
    hide UniqueKeys, ListOutputRange, OutputCount, Exported, CreateNoteBackup, AsInput, Stored, Absorb, RangeAnswer, Dense, NormalBackup, Mirrors;
    ExportedIsFaithful(pool, scope, State(table, storage, map[]), now);
    var current := Exported(storage, scope, now).value;
    var r := SyncOnce(pool, table, storage, scope, batchSize, now).value;
    var end := current.fetchOffset + batchSize;
    ReadIsFrom(table, pool.programId, current.fetchOffset, end);
    AbsorbKeepsMirror(scope, current, now, ListOutputRange(table, pool.programId, current.fetchOffset, end),
                      OutputCount(table, pool.programId), end, table, pool.programId, pool.toCiphertext);
    NormalizationIsIdempotent(r.backup);
    if r.nextOffset == OutputCount(table, pool.programId) {
      FullMirrorIsDense(pool, table, r.backup);
    }
    if Dense(pool, table) && !r.hasMore {
      SyncTakesNextBatch(pool, table, storage, scope, batchSize, now);
      TreeRowsAreExact(table, pool.programId);
    }
  }

  // ---- Until nothing is left ----

  // What remains of the result when several syncs are counted as one.
  ghost predicate SyncedAll(pool: Pool, scope: Scope, table: seq<OutputRow>, storage: Storage, r: NoteSyncResult) {
    && SyncableTo(pool, table, |TreeRows(pool, table)|)
    && r.nextOffset == r.total == |TreeRows(pool, table)|
    && r.backup.indexedOutputs == OutputsTo(pool, table, r.total)
    && Faithful(pool, scope, table, r.backup)
    && storage[scope := AsInput(r.backup)] == storage
  }

  /** Terminates on every table and every store.  A store that mirrors the pool still does so
      afterwards, and a success has fetched everything if and only if the pool has no gap.  Without
      a gap it succeeds exactly when all outputs of the pool decode to distinct ciphertexts, and
      then the store holds all of them: the batch size has no influence. */
  method SyncAllNotes(notes: NoteStore, pool: Pool, table: seq<OutputRow>, scope: Scope, batchSize: int, now: int)
    returns (r: Result<NoteSyncResult, SyncError>)
    requires UniqueKeys(OutputsClash, table)
    modifies notes
    ensures r.Success? ==>
              && !r.value.hasMore
              && old(Exported(notes.storage, scope, now)).Success?
              && r.value.fetched == r.value.nextOffset - old(Exported(notes.storage, scope, now)).value.fetchOffset
    ensures Dense(pool, table) && old(FaithfulStore(pool, scope, State(table, notes.storage, map[]))) ==>
              && (r.Success? <==> 1 <= batchSize <= MAX_BATCH_SIZE && SyncableTo(pool, table, |TreeRows(pool, table)|))
              && (r.Success? ==> SyncedAll(pool, scope, table, notes.storage, r.value))
    ensures old(FaithfulStore(pool, scope, State(table, notes.storage, map[]))) ==>
              && FaithfulStore(pool, scope, State(table, notes.storage, map[]))
              && (r.Success? ==> (r.value.nextOffset == OutputCount(table, pool.programId) <==> Dense(pool, table)))
  {
    hide *;
    ghost var before := notes.storage;
    ghost var kept := FaithfulStore(pool, scope, State(table, before, map[]));
    ghost var faithful := Dense(pool, table) && kept;
    if faithful {
      BatchBound(pool, scope, table, before, batchSize, now);
    }
    var synced := SyncNotes(notes, pool, table, scope, batchSize, now);
    if synced.Failure? {
      return synced;
    }
    var result := synced.value;
    BatchSizeChecked(pool, table, before, scope, batchSize, now);
    SyncMakesProgress(pool, table, before, scope, batchSize, now);
    if kept {
      EndIsCompleteIffDense(pool, scope, table, before, batchSize, now);
    }
    var fetchedOutputCount: nat := result.fetched;
    while result.hasMore
      invariant Exported(before, scope, now).Success?
      invariant Exported(notes.storage, scope, now).Success?
      invariant Exported(notes.storage, scope, now).value.fetchOffset == result.nextOffset
      invariant fetchedOutputCount == result.nextOffset - Exported(before, scope, now).value.fetchOffset
      invariant result.total == OutputCount(table, pool.programId)
      invariant result.hasMore ==> result.nextOffset < result.total
      invariant faithful ==> Batched(pool, scope, table, notes.storage, result)
      invariant kept ==> FaithfulStore(pool, scope, State(table, notes.storage, map[]))
      invariant kept && !result.hasMore ==> (result.nextOffset == OutputCount(table, pool.programId) <==> Dense(pool, table))
      decreases result.hasMore, result.total - result.nextOffset
    {
      ghost var storage := notes.storage;
      if faithful {
        BatchedIsFaithful(pool, scope, table, storage, result);
        BatchBound(pool, scope, table, storage, batchSize, now);
      }
      synced := SyncNotes(notes, pool, table, scope, batchSize, now);
      if synced.Failure? {
        return synced;
      }
      result := synced.value;
      SyncMakesProgress(pool, table, storage, scope, batchSize, now);
      if kept {
        EndIsCompleteIffDense(pool, scope, table, storage, batchSize, now);
      }
      fetchedOutputCount := fetchedOutputCount + result.fetched;
    }
    if faithful {
      BatchedIsFaithful(pool, scope, table, notes.storage, result);
      LastBatch(pool, scope, table, notes.storage, result, fetchedOutputCount);
    }
    return Success(result.(fetched := fetchedOutputCount));
  }

  // The state after a successful batch of a faithful store.
  ghost predicate Batched(pool: Pool, scope: Scope, table: seq<OutputRow>, storage: Storage, r: NoteSyncResult) {
    && scope in storage && storage[scope] == AsInput(r.backup)
    && Faithful(pool, scope, table, r.backup)
    && r.total == |TreeRows(pool, table)|
    && r.nextOffset <= r.total && SyncableTo(pool, table, r.nextOffset)
    && r.backup.indexedOutputs == OutputsTo(pool, table, r.nextOffset)
    && (!r.hasMore ==> r.nextOffset == r.total)
  }

  lemma BatchSizeChecked(pool: Pool, table: seq<OutputRow>, storage: Storage, scope: Scope, batchSize: int, now: int)
    requires SyncOnce(pool, table, storage, scope, batchSize, now).Success?
    ensures 1 <= batchSize <= MAX_BATCH_SIZE
  {
  }

  lemma BatchBound(pool: Pool, scope: Scope, table: seq<OutputRow>, storage: Storage, batchSize: int, now: int)
    requires UniqueKeys(OutputsClash, table) && Dense(pool, table) && FaithfulStore(pool, scope, State(table, storage, map[]))
    ensures var r := SyncOnce(pool, table, storage, scope, batchSize, now);
      && (r.Failure? ==> !(1 <= batchSize <= MAX_BATCH_SIZE) || !SyncableTo(pool, table, |TreeRows(pool, table)|))
      && (r.Success? ==> Batched(pool, scope, table, storage[scope := AsInput(r.value.backup)], r.value))
  {
    hide UniqueKeys, Dense, FaithfulStore, TreeRows, SyncableTo, Exported, AsInput, Faithful, Absorb, Answer;
    if 1 <= batchSize <= MAX_BATCH_SIZE {
      SyncTakesNextBatch(pool, table, storage, scope, batchSize, now);
      if SyncableTo(pool, table, |TreeRows(pool, table)|) {
        SyncableBelow(pool, table, BatchEnd(Exported(storage, scope, now).value.fetchOffset, batchSize, |TreeRows(pool, table)|),
                      |TreeRows(pool, table)|);
      }
    }
  }

  lemma BatchedIsFaithful(pool: Pool, scope: Scope, table: seq<OutputRow>, storage: Storage, r: NoteSyncResult)
    requires Batched(pool, scope, table, storage, r)
    ensures FaithfulStore(pool, scope, State(table, storage, map[]))
  {
    hide Mirrors, InScope, CreateNoteBackup, AsInput, NormalBackup;
    NormalizationIsIdempotent(r.backup);
  }

  lemma LastBatch(pool: Pool, scope: Scope, table: seq<OutputRow>, storage: Storage, r: NoteSyncResult, fetched: nat)
    requires Batched(pool, scope, table, storage, r) && !r.hasMore
    ensures SyncedAll(pool, scope, table, storage, r.(fetched := fetched)) && SyncableTo(pool, table, |TreeRows(pool, table)|)
  {
    hide AsInput, TreeRows, SyncableTo, Faithful, OutputsTo;
  }

  /** How an end can come early: when the next batch lies in a gap and reaches the count of rows,
      the sync reports success and nothing more to fetch below the total. */
  lemma GapEndsSync(pool: Pool, table: seq<OutputRow>, storage: Storage, scope: Scope, batchSize: int, now: int)
    requires UniqueKeys(OutputsClash, table) && FaithfulStore(pool, scope, State(table, storage, map[]))
    requires 1 <= batchSize <= MAX_BATCH_SIZE && Exported(storage, scope, now).Success?
    requires var start := Exported(storage, scope, now).value.fetchOffset;
      && start < OutputCount(table, pool.programId) <= start + batchSize
      && forall row :: row in table && row.programId == pool.programId ==> !(start <= row.outputIndex < start + batchSize)
    ensures var r := SyncOnce(pool, table, storage, scope, batchSize, now);
      r.Success? && r.value.fetched == 0 && !r.value.hasMore && r.value.nextOffset < r.value.total
  {
    hide UniqueKeys, ListOutputRange, OutputCount, Exported, CreateNoteBackup, Imported, Stored, NextBackup;
    ExportedIsFaithful(pool, scope, State(table, storage, map[]), now);
    var current := Exported(storage, scope, now).value;
    var start, end := current.fetchOffset, current.fetchOffset + batchSize;
    var rows := ListOutputRange(table, pool.programId, start, end);
    RangeIsExact(table, pool.programId, start, end);
    FirstIsMember(rows);
    assert rows == [];
    var range := Answer(pool, table, start, end).value;
    assert current.indexedOutputs + NewOutputs(pool.toCiphertext, range.outputs) == current.indexedOutputs;
    AbsorbedOutputs(scope, current, now, range, pool.toCiphertext);
  }

  // A pool whose only stored output so far has index 5.
  function GappedTable(): seq<OutputRow> {
    [SampleOutput(5, "s", 0)]
  }

  lemma GappedTableRows()
    ensures UniqueKeys(OutputsClash, GappedTable()) && OutputCount(GappedTable(), "pool") == 1
    ensures forall row :: row in GappedTable() ==> row.outputIndex == 5
  {
    assert OfProgram(GappedTable()[1..], "pool", 0, None) == [];
  }

  /** A first sync of it, in batches of up to 5, ends with success at offset 0 of 1. */
  lemma GapEndsFirstSync(toCiphertext: ToCiphertext, scope: Scope, batchSize: int, now: int)
    requires 1 <= batchSize <= 5
    ensures var r := SyncOnce(Pool("pool", toCiphertext), GappedTable(), map[], scope, batchSize, now);
      r.Success? && !r.value.hasMore && r.value.nextOffset == 0 && r.value.total == 1
  {
    hide SyncOnce, Exported, AsInput, GappedTable, OutputCount, UniqueKeys, FaithfulStore;
    var pool, storage: Storage := Pool("pool", toCiphertext), map[];
    GappedTableRows();
    NothingIsFaithful(pool, scope, GappedTable());
    ExportWhenEmpty(storage, scope, now);
    assert storage - {scope} == storage;
    GapEndsSync(pool, GappedTable(), storage, scope, batchSize, now);
    SyncMakesProgress(pool, GappedTable(), storage, scope, batchSize, now);
  }

  // ---- Full and incremental scans ----

  datatype SyncMode = Full | Incremental

  /** The note-keeping part of a scan.  A full scan syncs into a fresh store and then overwrites
      the kept backup, so it does not depend on what was kept; a failing one leaves the kept notes
      alone.  On a dense pool either mode ends with the whole pool. */
  method ScanNotes(notes: NoteStore, mode: SyncMode, pool: Pool, table: seq<OutputRow>, scope: Scope, batchSize: int, now: int)
    returns (r: Result<NoteSyncResult, SyncError>)
    requires UniqueKeys(OutputsClash, table)
    modifies notes
    ensures Dense(pool, table) && (mode.Full? || old(FaithfulStore(pool, scope, State(table, notes.storage, map[])))) ==>
              && (r.Success? <==> 1 <= batchSize <= MAX_BATCH_SIZE && SyncableTo(pool, table, |TreeRows(pool, table)|))
              && (r.Success? ==> SyncedAll(pool, scope, table, notes.storage, r.value))
    ensures Dense(pool, table) && old(FaithfulStore(pool, scope, State(table, notes.storage, map[]))) ==>
              FaithfulStore(pool, scope, State(table, notes.storage, map[]))
    ensures r.Failure? && mode.Full? ==> notes.storage == old(notes.storage)
  {
    hide *;
    if mode.Incremental? {
      r := SyncAllNotes(notes, pool, table, scope, batchSize, now);
    } else {
      var memory := new NoteStore();
      NothingIsFaithful(pool, scope, table);
      r := SyncAllNotes(memory, pool, table, scope, batchSize, now);
      if r.Success? {
        if Dense(pool, table) {
          KeptAsSynced(pool, scope, table, memory.storage, notes.storage, r.value);
        }
        var kept := notes.ImportNotes(scope, AsInput(r.value.backup), false);
        if kept.Failure? {
          return Failure(NoteFailure(kept.error));
        }
      }
    }
  }

  lemma NothingIsFaithful(pool: Pool, scope: Scope, table: seq<OutputRow>)
    ensures FaithfulStore(pool, scope, State(table, map[], map[]))
  {
  }

  lemma KeptAsSynced(pool: Pool, scope: Scope, table: seq<OutputRow>, memory: Storage, storage: Storage, r: NoteSyncResult)
    requires SyncedAll(pool, scope, table, memory, r)
    ensures Imported(storage, scope, AsInput(r.backup), false) == Success(r.backup)
    ensures SyncedAll(pool, scope, table, storage[scope := AsInput(r.backup)], r)
    ensures FaithfulStore(pool, scope, State(table, storage[scope := AsInput(r.backup)], map[]))
  {
    hide CreateNoteBackup, AsInput, Mirrors, NormalBackup, SyncableTo, OutputsTo, TreeRows;
    NormalizationIsIdempotent(r.backup);
  }
}
