// Copying the pool's outputs into the note store, batch by batch.
module NoteSync {
  import opened Wrappers
  import opened Sorting
  import opened PoolParser
  import opened PoolTables
  import opened NoteOutputs
  import opened NoteHistory
  import opened NoteBackups
  import opened NoteStores

  const MAX_BATCH_SIZE := 20000

  datatype RangeOutput = RangeOutput(outputIndex: nat, encryptedOutput: string)
  datatype OutputRange = OutputRange(total: nat, hasMore: bool, outputs: seq<RangeOutput>)

  datatype SyncError =
    BadBatchSize | IndexerFailed | IndexerBehind | NothingReturned | WrongIndex | BadCiphertext | NoteFailure(error: NoteError)

  // base64 text to hex bytes; None when it does not decode or has no bytes
  type ToCiphertext = string -> Option<Ciphertext>

  datatype NoteSyncResult = NoteSyncResult(
    previousOffset: nat, nextOffset: nat, fetched: nat, total: nat, hasMore: bool, backup: NoteBackup)

  // ---- The backend's answer ----

  predicate AllSafe(rows: seq<OutputRow>) {
    forall i :: 0 <= i < |rows| ==> SafeInteger(rows[i].outputIndex)
  }

  // The rows and the count come from two queries.
  function RangeAnswer(rows: seq<OutputRow>, total: nat, end: int): Result<OutputRange, SyncError> {
    if !AllSafe(rows) then Failure(IndexerFailed)
    else Success(OutputRange(total, end < total,
                             seq(|rows|, i requires 0 <= i < |rows| => RangeOutput(rows[i].outputIndex, rows[i].encryptedOutput))))
  }

  // ---- One batch ----

  predicate Consecutive(outputs: seq<RangeOutput>, start: nat) {
    forall i :: 0 <= i < |outputs| ==> outputs[i].outputIndex == start + i
  }

  predicate Decodable(toCiphertext: ToCiphertext, outputs: seq<RangeOutput>) {
    forall i :: 0 <= i < |outputs| ==> toCiphertext(outputs[i].encryptedOutput).Some?
  }

  function NewOutputs(toCiphertext: ToCiphertext, outputs: seq<RangeOutput>): seq<IndexedOutput>
    requires Decodable(toCiphertext, outputs)
  {
    seq(|outputs|, i requires 0 <= i < |outputs| =>
      IndexedOutput(outputs[i].outputIndex, toCiphertext(outputs[i].encryptedOutput).value))
  }

  // The backup that is imported after a batch.
  function NextBackup(scope: Scope, current: NoteBackup, exportedAt: int, range: OutputRange, toCiphertext: ToCiphertext): BackupInput
    requires Decodable(toCiphertext, range.outputs)
  {
    BackupInput(scope.programAddress, scope.ownerAddress, exportedAt, None,
                Some(RawOutputs(current.indexedOutputs) + RawOutputs(NewOutputs(toCiphertext, range.outputs))),
                current.fetchOffset + |range.outputs|,
                if |range.outputs| > 0 then [current.fetchOffset] + current.historyIndexes else current.historyIndexes)
  }

  /** Everything between the indexer's answer and the write: it depends on the exported snapshot
      and the answer, not on what the storage holds by then. */
  function Absorb(scope: Scope, current: NoteBackup, exportedAt: int, range: OutputRange, toCiphertext: ToCiphertext)
    : Result<NoteSyncResult, SyncError>
  {
    if range.total < current.fetchOffset then Failure(IndexerBehind)
    else if range.outputs == [] && range.hasMore then Failure(NothingReturned)
    else if !Consecutive(range.outputs, current.fetchOffset) then Failure(WrongIndex)
    else if !Decodable(toCiphertext, range.outputs) then Failure(BadCiphertext)
    else match Imported(map[], scope, NextBackup(scope, current, exportedAt, range, toCiphertext), false)
      case Failure(error) => Failure(NoteFailure(error))
      case Success(backup) =>
        Success(NoteSyncResult(current.fetchOffset, current.fetchOffset + |range.outputs|, |range.outputs|,
                               range.total, range.hasMore, backup))
  }

  // ---- What a store mirrors ----

  // The pool stores an output with this index and this ciphertext.
  predicate Stored(table: seq<OutputRow>, programId: string, toCiphertext: ToCiphertext, o: IndexedOutput) {
    exists i :: 0 <= i < |table| && table[i].programId == programId && table[i].outputIndex == o.outputIndex
                && toCiphertext(table[i].encryptedOutput) == Some(o.encryptedOutput)
  }

  /** The backup holds exactly the pool's outputs 0 up to its offset. */
  predicate Mirrors(b: NoteBackup, table: seq<OutputRow>, programId: string, toCiphertext: ToCiphertext) {
    && |b.indexedOutputs| == b.fetchOffset
    && forall i :: 0 <= i < b.fetchOffset ==>
         b.indexedOutputs[i].outputIndex == i && Stored(table, programId, toCiphertext, b.indexedOutputs[i])
  }

  lemma StoredGrows(table: seq<OutputRow>, larger: seq<OutputRow>, programId: string, toCiphertext: ToCiphertext, o: IndexedOutput)
    requires Stored(table, programId, toCiphertext, o) && table <= larger
    ensures Stored(larger, programId, toCiphertext, o)
  {
    var i :| 0 <= i < |table| && table[i].programId == programId && table[i].outputIndex == o.outputIndex
             && toCiphertext(table[i].encryptedOutput) == Some(o.encryptedOutput);
    assert larger[i] == table[i];
  }

  lemma MirrorsGrow(b: NoteBackup, table: seq<OutputRow>, larger: seq<OutputRow>, programId: string, toCiphertext: ToCiphertext)
    requires Mirrors(b, table, programId, toCiphertext) && table <= larger
    ensures Mirrors(b, larger, programId, toCiphertext)
  {
    hide Stored;
    forall i | 0 <= i < b.fetchOffset
      ensures Stored(larger, programId, toCiphertext, b.indexedOutputs[i])
    {
      StoredGrows(table, larger, programId, toCiphertext, b.indexedOutputs[i]);
    }
  }

  // One pool, one ciphertext per index.
  lemma StoredIsUnique(table: seq<OutputRow>, programId: string, toCiphertext: ToCiphertext, o: IndexedOutput, p: IndexedOutput)
    requires UniqueKeys(OutputsClash, table) && o.outputIndex == p.outputIndex
    requires Stored(table, programId, toCiphertext, o) && Stored(table, programId, toCiphertext, p)
    ensures o == p
  {
    var i :| 0 <= i < |table| && table[i].programId == programId && table[i].outputIndex == o.outputIndex
             && toCiphertext(table[i].encryptedOutput) == Some(o.encryptedOutput);
    var j :| 0 <= j < |table| && table[j].programId == programId && table[j].outputIndex == p.outputIndex
             && toCiphertext(table[j].encryptedOutput) == Some(p.encryptedOutput);
    assert i < j ==> !OutputsClash(table[i], table[j]);
    assert j < i ==> !OutputsClash(table[j], table[i]);
  }

  // Of two mirrors of one pool the shorter is a prefix of the longer.
  lemma MirrorsAgree(a: NoteBackup, b: NoteBackup, table: seq<OutputRow>, programId: string, toCiphertext: ToCiphertext)
    requires Mirrors(a, table, programId, toCiphertext) && Mirrors(b, table, programId, toCiphertext)
    requires UniqueKeys(OutputsClash, table) && a.fetchOffset <= b.fetchOffset
    ensures a.indexedOutputs <= b.indexedOutputs
  {
    hide Stored, UniqueKeys;
    forall i | 0 <= i < a.fetchOffset
      ensures a.indexedOutputs[i] == b.indexedOutputs[i]
    {
      StoredIsUnique(table, programId, toCiphertext, a.indexedOutputs[i], b.indexedOutputs[i]);
    }
  }

  // ---- A batch keeps the mirror ----

  // Rows of the pool that were read for a range, and may meanwhile be followed by others.
  predicate ReadFrom(rows: seq<OutputRow>, table: seq<OutputRow>, programId: string) {
    forall i :: 0 <= i < |rows| ==> rows[i] in table && rows[i].programId == programId
  }

  lemma Positions(outputs: seq<IndexedOutput>)
    requires forall i :: 0 <= i < |outputs| ==> outputs[i].outputIndex == i
    ensures Ascending(IndexOf, outputs)
  {
  }

  lemma {:induction false} AbsorbedOutputs(scope: Scope, current: NoteBackup, exportedAt: int, range: OutputRange, toCiphertext: ToCiphertext)
    requires NormalBackup(current) && |current.indexedOutputs| == current.fetchOffset
    requires forall i :: 0 <= i < current.fetchOffset ==> current.indexedOutputs[i].outputIndex == i
    requires Decodable(toCiphertext, range.outputs) && Consecutive(range.outputs, current.fetchOffset)
    requires forall i :: 0 <= i < |range.outputs| ==> SafeInteger(range.outputs[i].outputIndex)
    ensures var outputs := current.indexedOutputs + NewOutputs(toCiphertext, range.outputs);
      var r := Imported(map[], scope, NextBackup(scope, current, exportedAt, range, toCiphertext), false);
      && (r.Success? <==> OneToOne(outputs) && SafeInteger(current.fetchOffset + |range.outputs|))
      && (r.Success? ==>
            && r.value.indexedOutputs == outputs
            && r.value.fetchOffset == current.fetchOffset + |range.outputs|
            && r.value.exportedAt == exportedAt
            && r.value.historyIndexes
               == (if range.outputs == [] then current.historyIndexes else NewestOffsets([current.fetchOffset] + current.historyIndexes))
            && NormalBackup(r.value) && InScope(r.value, scope).Success?)
  {
    hide Normalized, OneToOne, ParseCiphertext, NormalHistory, NewestOffsets;
    var added := NewOutputs(toCiphertext, range.outputs);
    var outputs := current.indexedOutputs + added;
    var input := NextBackup(scope, current, exportedAt, range, toCiphertext);
    assert RawOutputs(current.indexedOutputs) + RawOutputs(added) == RawOutputs(outputs);
    assert SafeIndexes(added);
    SafeTogether(current.indexedOutputs, added);
    RawOutputsAreRead(outputs);
    NormalizedWithIndexes(outputs);
    Positions(outputs);
    assert AcceptsIndexes([current.fetchOffset] + current.historyIndexes);
    NewestIsNormal(current.historyIndexes);
    if OneToOne(outputs) {
      NormalizedMembers(outputs, outputs);
    }
    if CreateNoteBackup(input).Success? {
      CreatedIsNormal(input);
    }
  }

  /** Exactly when a batch is kept: the indexer is not behind, it has not stopped short, its outputs
      continue the snapshot and decode, and they bring no ciphertext for a second time. */
  lemma AbsorbsIff(scope: Scope, current: NoteBackup, exportedAt: int, range: OutputRange, toCiphertext: ToCiphertext)
    requires NormalBackup(current) && |current.indexedOutputs| == current.fetchOffset
    requires forall i :: 0 <= i < current.fetchOffset ==> current.indexedOutputs[i].outputIndex == i
    requires forall i :: 0 <= i < |range.outputs| ==> SafeInteger(range.outputs[i].outputIndex)
    ensures Absorb(scope, current, exportedAt, range, toCiphertext).Success? <==>
            && current.fetchOffset <= range.total
            && (range.hasMore ==> range.outputs != [])
            && Consecutive(range.outputs, current.fetchOffset)
            && Decodable(toCiphertext, range.outputs)
            && OneToOne(current.indexedOutputs + NewOutputs(toCiphertext, range.outputs))
            && SafeInteger(current.fetchOffset + |range.outputs|)
  {
    hide NormalBackup, OneToOne, Imported, NextBackup;
    if Decodable(toCiphertext, range.outputs) && Consecutive(range.outputs, current.fetchOffset) {
      AbsorbedOutputs(scope, current, exportedAt, range, toCiphertext);
    }
  }

  /** If the snapshot mirrors the pool and the answer was read from the pool, then the backup that
      is written mirrors the pool. */
  lemma AbsorbKeepsMirror(scope: Scope, current: NoteBackup, exportedAt: int, rows: seq<OutputRow>, total: nat, end: int,
                          table: seq<OutputRow>, programId: string, toCiphertext: ToCiphertext)
    requires NormalBackup(current) && Mirrors(current, table, programId, toCiphertext)
    requires ReadFrom(rows, table, programId) && RangeAnswer(rows, total, end).Success?
    requires Absorb(scope, current, exportedAt, RangeAnswer(rows, total, end).value, toCiphertext).Success?
    ensures var r := Absorb(scope, current, exportedAt, RangeAnswer(rows, total, end).value, toCiphertext).value;
      && NormalBackup(r.backup) && InScope(r.backup, scope).Success?
      && Mirrors(r.backup, table, programId, toCiphertext)
      && r.backup.fetchOffset == r.nextOffset == current.fetchOffset + |rows|
  {
    hide Stored, NormalBackup, Imported, NextBackup, InScope;
    var range := RangeAnswer(rows, total, end).value;
    AbsorbedOutputs(scope, current, exportedAt, range, toCiphertext);
    var b := Absorb(scope, current, exportedAt, range, toCiphertext).value.backup;
    forall i | 0 <= i < b.fetchOffset
      ensures b.indexedOutputs[i].outputIndex == i && Stored(table, programId, toCiphertext, b.indexedOutputs[i])
    {
      if i >= current.fetchOffset {
        RowIsStored(rows[i - current.fetchOffset], table, programId, toCiphertext, b.indexedOutputs[i]);
      }
    }
  }

  lemma RowIsStored(row: OutputRow, table: seq<OutputRow>, programId: string, toCiphertext: ToCiphertext, o: IndexedOutput)
    requires row in table && row.programId == programId && row.outputIndex == o.outputIndex
    requires toCiphertext(row.encryptedOutput) == Some(o.encryptedOutput)
    ensures Stored(table, programId, toCiphertext, o)
  {
    var i :| 0 <= i < |table| && table[i] == row;
  }

  // ---- A merge keeps the mirror ----

  lemma MergeOfMirrors(a: NoteBackup, b: NoteBackup, table: seq<OutputRow>, programId: string, toCiphertext: ToCiphertext)
    requires NormalBackup(a) && NormalBackup(b) && UniqueKeys(OutputsClash, table)
    requires a.programAddress == b.programAddress && a.ownerAddress == b.ownerAddress
    requires Mirrors(a, table, programId, toCiphertext) && Mirrors(b, table, programId, toCiphertext)
    ensures Merge(a, b).Success? && Mirrors(Merge(a, b).value, table, programId, toCiphertext)
    ensures Merge(a, b).value.fetchOffset == Max(a.fetchOffset, b.fetchOffset)
  {
    hide Stored, UniqueKeys, MergeNoteBackups, NewestOffsets, NormalHistory, OneToOne;
    var longer := if a.fetchOffset >= b.fetchOffset then a else b;
    if a.fetchOffset >= b.fetchOffset {
      MirrorsAgree(b, a, table, programId, toCiphertext);
    } else {
      MirrorsAgree(a, b, table, programId, toCiphertext);
    }
    assert forall o :: o in a.indexedOutputs + b.indexedOutputs <==> o in longer.indexedOutputs;
    OneToOneOfPart(a.indexedOutputs + b.indexedOutputs, longer.indexedOutputs);
    MergeOfNormal(a, b);
    UniqueOutputs(Merge(a, b).value.indexedOutputs, longer.indexedOutputs);
  }

  // What a backup must bring to a store that mirrors the pool up to an offset: only outputs of the
  // pool, none at or beyond the joint offset, and all of those that the store does not have yet.
  ghost predicate MergeFits(a: NoteBackup, offset: nat, table: seq<OutputRow>, programId: string, toCiphertext: ToCiphertext) {
    && (forall o :: o in a.indexedOutputs ==> Stored(table, programId, toCiphertext, o) && o.outputIndex < Max(a.fetchOffset, offset))
    && (forall k :: offset <= k < a.fetchOffset ==> HasKey(IndexOf, a.indexedOutputs, k))
  }

  /** Exactly which merges with a mirror of the pool give a mirror of the pool. */
  lemma MergeMirrorsIff(a: NoteBackup, b: NoteBackup, table: seq<OutputRow>, programId: string, toCiphertext: ToCiphertext)
    requires NormalBackup(a) && NormalBackup(b) && Merge(b, a).Success?
    requires Mirrors(b, table, programId, toCiphertext)
    ensures Mirrors(Merge(b, a).value, table, programId, toCiphertext) <==> MergeFits(a, b.fetchOffset, table, programId, toCiphertext)
  {
    hide MergeNoteBackups, NewestOffsets, NormalHistory, OneToOne, Stored, Mirrors, MergeFits;
    MergeOfNormal(b, a);
    var m := Merge(b, a).value.indexedOutputs;
    if Mirrors(Merge(b, a).value, table, programId, toCiphertext) {
      MirroredUnionFits(m, a, b, Merge(b, a).value, table, programId, toCiphertext);
    }
    if MergeFits(a, b.fetchOffset, table, programId, toCiphertext) {
      FittingUnionMirrors(a, b, Merge(b, a).value, table, programId, toCiphertext);
    }
  }

  lemma MirroredUnionFits(m: seq<IndexedOutput>, a: NoteBackup, b: NoteBackup, merged: NoteBackup,
                          table: seq<OutputRow>, programId: string, toCiphertext: ToCiphertext)
    requires m == merged.indexedOutputs && SameElements(m, b.indexedOutputs + a.indexedOutputs)
    requires merged.fetchOffset == Max(b.fetchOffset, a.fetchOffset)
    requires Mirrors(merged, table, programId, toCiphertext) && Mirrors(b, table, programId, toCiphertext)
    ensures MergeFits(a, b.fetchOffset, table, programId, toCiphertext)
  {
    hide Stored;
    forall o | o in a.indexedOutputs
      ensures Stored(table, programId, toCiphertext, o) && o.outputIndex < Max(a.fetchOffset, b.fetchOffset)
    {
      assert o in m;
      var i :| 0 <= i < |m| && m[i] == o;
    }
    forall k | b.fetchOffset <= k < a.fetchOffset
      ensures HasKey(IndexOf, a.indexedOutputs, k)
    {
      assert m[k] in m && m[k].outputIndex == k;
      assert m[k] !in b.indexedOutputs;
      assert m[k] in a.indexedOutputs && IndexOf(m[k]) == k;
    }
  }

  lemma FittingUnionMirrors(a: NoteBackup, b: NoteBackup, merged: NoteBackup,
                            table: seq<OutputRow>, programId: string, toCiphertext: ToCiphertext)
    requires SameElements(merged.indexedOutputs, b.indexedOutputs + a.indexedOutputs) && Ascending(IndexOf, merged.indexedOutputs)
    requires merged.fetchOffset == Max(b.fetchOffset, a.fetchOffset)
    requires MergeFits(a, b.fetchOffset, table, programId, toCiphertext) && Mirrors(b, table, programId, toCiphertext)
    ensures Mirrors(merged, table, programId, toCiphertext)
  {
    hide Stored, Ascending;
    var m, n := merged.indexedOutputs, merged.fetchOffset;
    forall i | 0 <= i < |m|
      ensures IndexOf(m[i]) < n && Stored(table, programId, toCiphertext, m[i])
    {
      assert m[i] in m;
      if m[i] in b.indexedOutputs {
        var j :| 0 <= j < |b.indexedOutputs| && b.indexedOutputs[j] == m[i];
      }
    }
    forall k | 0 <= k < n
      ensures HasKey(IndexOf, m, k)
    {
      if k < b.fetchOffset {
        assert b.indexedOutputs[k] in m && IndexOf(b.indexedOutputs[k]) == k;
      } else {
        assert HasKey(IndexOf, a.indexedOutputs, k);
        var o :| o in a.indexedOutputs && IndexOf(o) == k;
        assert o in m;
      }
    }
    FullRange(IndexOf, m, n);
    assert forall i :: 0 <= i < n ==> IndexOf(m[i]) == m[i].outputIndex;
  }

  // A mirror of the same pool always fits.
  lemma MirrorFits(a: NoteBackup, offset: nat, table: seq<OutputRow>, programId: string, toCiphertext: ToCiphertext)
    requires Mirrors(a, table, programId, toCiphertext)
    ensures MergeFits(a, offset, table, programId, toCiphertext)
  {
    hide Stored;
    forall k | offset <= k < a.fetchOffset
      ensures HasKey(IndexOf, a.indexedOutputs, k)
    {
      assert a.indexedOutputs[k] in a.indexedOutputs && IndexOf(a.indexedOutputs[k]) == k;
    }
  }
}
