// Several syncs of one note store at once, against a pool that keeps growing.
module NoteSyncProtocol {
  import opened Wrappers
  import opened PoolParser
  import opened PoolTables
  import opened NoteOutputs
  import opened NoteBackups
  import opened NoteStores
  import opened NoteSync

  datatype Pool = Pool(programId: string, toCiphertext: ToCiphertext)

  // A sync between its export and its import.
  datatype Session = Session(current: NoteBackup, exportedAt: int, end: nat, rows: Option<seq<OutputRow>>, total: Option<nat>)

  datatype State = State(table: seq<OutputRow>, storage: Storage, sessions: map<nat, Session>)

  datatype Step =
    | Index(newRows: seq<OutputRow>)          // the backend stores rows of any transactions
    | Begin(id: nat, batchSize: nat, now: int) // export the notes, ask for the next batch
    | ReadRows(id: nat)                        // the backend's first query
    | CountRows(id: nat)                       // its second query
    | Finish(id: nat)                          // check the answer, import
    | Abandon(id: nat)                         // the page is closed, the request fails
    | Import(backup: BackupInput, merge: bool) // the user restores a backup, any backup
    | Clear

  function Store(s: State, scope: Scope, b: NoteBackup): State {
    s.(storage := s.storage[scope := AsInput(b)])
  }

  // A step that cannot be taken changes nothing.
  function Apply(pool: Pool, scope: Scope, s: State, step: Step): State {
    match step
    case Index(newRows) => s.(table := InsertAll(OutputsClash, s.table, newRows))
    case Begin(id, batchSize, now) =>
      var current := Exported(s.storage, scope, now);
      if id in s.sessions || current.Failure? || !(1 <= batchSize <= MAX_BATCH_SIZE) then s
      else s.(sessions := s.sessions[id := Session(current.value, now, current.value.fetchOffset + batchSize, None, None)])
    case ReadRows(id) =>
      if id !in s.sessions then s
      else
        var session := s.sessions[id];
        var rows := ListOutputRange(s.table, pool.programId, session.current.fetchOffset, session.end);
        s.(sessions := s.sessions[id := session.(rows := Some(rows))])
    case CountRows(id) =>
      if id !in s.sessions then s
      else s.(sessions := s.sessions[id := s.sessions[id].(total := Some(OutputCount(s.table, pool.programId)))])
    case Finish(id) =>
      if id !in s.sessions || s.sessions[id].rows.None? || s.sessions[id].total.None? then s
      else
        var session, left := s.sessions[id], s.(sessions := s.sessions - {id});
        var range := RangeAnswer(session.rows.value, session.total.value, session.end);
        if range.Failure? then left
        else
          var r := Absorb(scope, session.current, session.exportedAt, range.value, pool.toCiphertext);
          if r.Failure? then left else Store(left, scope, r.value.backup)
    case Abandon(id) => s.(sessions := s.sessions - {id})
    case Import(backup, merge) =>
      var r := Imported(s.storage, scope, backup, merge);
      if r.Failure? then s else Store(s, scope, r.value)
    case Clear => s.(storage := s.storage - {scope})
  }

  function Run(pool: Pool, scope: Scope, s: State, steps: seq<Step>): State
    decreases |steps|
  {
    if steps == [] then s else Apply(pool, scope, Run(pool, scope, s, steps[..|steps| - 1]), steps[|steps| - 1])
  }

  // ---- The invariant ----

  // A normalized backup of this scope that mirrors the pool.
  predicate Faithful(pool: Pool, scope: Scope, table: seq<OutputRow>, b: NoteBackup) {
    NormalBackup(b) && InScope(b, scope).Success? && Mirrors(b, table, pool.programId, pool.toCiphertext)
  }

  predicate FaithfulStore(pool: Pool, scope: Scope, s: State) {
    scope in s.storage ==>
      && CreateNoteBackup(s.storage[scope]).Success?
      && Faithful(pool, scope, s.table, CreateNoteBackup(s.storage[scope]).value)
  }

  predicate FaithfulSession(pool: Pool, scope: Scope, table: seq<OutputRow>, session: Session) {
    && Faithful(pool, scope, table, session.current)
    && (session.rows.Some? ==> ReadFrom(session.rows.value, table, pool.programId))
  }

  ghost predicate Inv(pool: Pool, scope: Scope, s: State) {
    && UniqueKeys(OutputsClash, s.table)
    && FaithfulStore(pool, scope, s)
    && forall id :: id in s.sessions ==> FaithfulSession(pool, scope, s.table, s.sessions[id])
  }

  lemma FaithfulGrows(pool: Pool, scope: Scope, table: seq<OutputRow>, larger: seq<OutputRow>, session: Session)
    requires table <= larger && FaithfulSession(pool, scope, table, session)
    ensures FaithfulSession(pool, scope, larger, session)
  {
    hide Mirrors, NormalBackup, InScope;
    MirrorsGrow(session.current, table, larger, pool.programId, pool.toCiphertext);
    assert forall row :: row in table ==> row in larger;
  }

  lemma ExportedIsFaithful(pool: Pool, scope: Scope, s: State, now: int)
    requires FaithfulStore(pool, scope, s)
    ensures Exported(s.storage, scope, now).Success?
    ensures Faithful(pool, scope, s.table, Exported(s.storage, scope, now).value)
  {
    hide Stored, CreateNoteBackup, AsInput;
    EmptyIsNormal(scope, now);
    NormalizationIsIdempotent(EmptyBackup(scope, now));
    if scope in s.storage {
      NormalizationIsIdempotent(CreateNoteBackup(s.storage[scope]).value.(exportedAt := now));
    }
  }

  lemma StoreIsFaithful(pool: Pool, scope: Scope, s: State, b: NoteBackup)
    requires Faithful(pool, scope, s.table, b)
    ensures FaithfulStore(pool, scope, Store(s, scope, b))
  {
    hide Mirrors, NormalBackup, InScope, CreateNoteBackup;
    NormalizationIsIdempotent(b);
  }

  /** The condition under which a restored backup does no harm.  One that overwrites must mirror the
      pool itself; one that is merged must bring only outputs of the pool, and all that it claims
      beyond what the store has. */
  ghost predicate ImportFits(pool: Pool, scope: Scope, s: State, backup: BackupInput, merge: bool) {
    Imported(s.storage, scope, backup, merge).Success? ==>
      var a := CreateNoteBackup(backup).value;
      if merge && scope in s.storage
      then MergeFits(a, CreateNoteBackup(s.storage[scope]).value.fetchOffset, s.table, pool.programId, pool.toCiphertext)
      else Mirrors(a, s.table, pool.programId, pool.toCiphertext)
  }

  /** An accepted import leaves a faithful store if and only if the condition holds. */
  lemma ImportIsFaithfulIff(pool: Pool, scope: Scope, s: State, backup: BackupInput, merge: bool)
    requires FaithfulStore(pool, scope, s) && Imported(s.storage, scope, backup, merge).Success?
    ensures FaithfulStore(pool, scope, Store(s, scope, Imported(s.storage, scope, backup, merge).value))
            <==> ImportFits(pool, scope, s, backup, merge)
  {
    hide Mirrors, NormalBackup, CreateNoteBackup, MergeNoteBackups, AsInput, MergeFits;
    var r := Imported(s.storage, scope, backup, merge).value;
    ImportedIsNormal(s.storage, scope, backup, merge);
    NormalizationIsIdempotent(r);
    CreatedIsNormal(backup);
    if merge && scope in s.storage {
      MergeMirrorsIff(CreateNoteBackup(backup).value, CreateNoteBackup(s.storage[scope]).value,
                      s.table, pool.programId, pool.toCiphertext);
    }
  }

  /** A backup that was exported elsewhere from the same pool always fits. */
  lemma ExportsFit(pool: Pool, scope: Scope, s: State, backup: BackupInput, merge: bool)
    requires CreateNoteBackup(backup).Success? && Mirrors(CreateNoteBackup(backup).value, s.table, pool.programId, pool.toCiphertext)
    requires FaithfulStore(pool, scope, s)
    ensures ImportFits(pool, scope, s, backup, merge)
  {
    hide Mirrors, NormalBackup, CreateNoteBackup, MergeNoteBackups, MergeFits;
    if merge && scope in s.storage {
      MirrorFits(CreateNoteBackup(backup).value, CreateNoteBackup(s.storage[scope]).value.fetchOffset,
                 s.table, pool.programId, pool.toCiphertext);
    }
  }

  // A backup that claims one fetched output and holds none.
  function HollowBackup(scope: Scope): NoteBackup {
    NoteBackup(scope.programAddress, scope.ownerAddress, 0, [], 1, [])
  }

  /** It is accepted, and then the store does not mirror any pool. */
  lemma HollowBackupHarms(pool: Pool, scope: Scope, merge: bool, now: int)
    ensures var s := Run(pool, scope, State([], map[], map[]), [Import(AsInput(HollowBackup(scope)), merge)]);
      && Exported(s.storage, scope, now) == Success(HollowBackup(scope).(exportedAt := now))
      && forall table :: !Mirrors(HollowBackup(scope).(exportedAt := now), table, pool.programId, pool.toCiphertext)
  {
    hide CreateNoteBackup, AsInput;
    var start, backup := State([], map[], map[]), AsInput(HollowBackup(scope));
    NormalizationIsIdempotent(HollowBackup(scope));
    assert Run(pool, scope, start, [Import(backup, merge)][..0]) == start;
    ExportAfterImport(start.storage, scope, backup, merge, now);
  }

  lemma ReadIsFrom(table: seq<OutputRow>, programId: string, start: nat, end: int)
    requires UniqueKeys(OutputsClash, table)
    ensures ReadFrom(ListOutputRange(table, programId, start, end), table, programId)
  {
    hide ListOutputRange;
    RangeIsExact(table, programId, start, end);
    var rows := ListOutputRange(table, programId, start, end);
    assert forall i :: 0 <= i < |rows| ==> rows[i] in rows;
  }

  lemma FinishKeepsInv(pool: Pool, scope: Scope, s: State, id: nat)
    requires Inv(pool, scope, s) && id in s.sessions
    ensures Inv(pool, scope, Apply(pool, scope, s, Finish(id)))
  {
    hide Mirrors, NormalBackup, CreateNoteBackup, UniqueKeys, Absorb, RangeAnswer, ReadFrom;
    var session := s.sessions[id];
    if session.rows.Some? && session.total.Some? {
      var range := RangeAnswer(session.rows.value, session.total.value, session.end);
      if range.Success? {
        var r := Absorb(scope, session.current, session.exportedAt, range.value, pool.toCiphertext);
        if r.Success? {
          AbsorbKeepsMirror(scope, session.current, session.exportedAt, session.rows.value, session.total.value, session.end,
                            s.table, pool.programId, pool.toCiphertext);
          StoreIsFaithful(pool, scope, s.(sessions := s.sessions - {id}), r.value.backup);
        }
      }
    }
  }

  // A step that restores a backup restores one that fits.
  ghost predicate StepFits(pool: Pool, scope: Scope, s: State, step: Step) {
    step.Import? ==> ImportFits(pool, scope, s, step.backup, step.merge)
  }

  ghost predicate RunFits(pool: Pool, scope: Scope, s: State, steps: seq<Step>)
    decreases |steps|
  {
    steps == [] ||
    (RunFits(pool, scope, s, steps[..|steps| - 1])
     && StepFits(pool, scope, Run(pool, scope, s, steps[..|steps| - 1]), steps[|steps| - 1]))
  }

  lemma StepKeepsInv(pool: Pool, scope: Scope, s: State, step: Step)
    requires Inv(pool, scope, s) && StepFits(pool, scope, s, step)
    ensures Inv(pool, scope, Apply(pool, scope, s, step))
  {
    hide Faithful, CreateNoteBackup, UniqueKeys, Absorb, RangeAnswer, ReadFrom, Imported, ImportFits, Exported, ListOutputRange;
    match step
    case Index(newRows) =>
      var larger := InsertAll(OutputsClash, s.table, newRows);
      InsertKeepsUniqueKeys(OutputsClash, s.table, newRows);
      if scope in s.storage {
        FaithfulGrows(pool, scope, s.table, larger, Session(CreateNoteBackup(s.storage[scope]).value, 0, 0, None, None));
      }
      forall id | id in s.sessions
        ensures FaithfulSession(pool, scope, larger, s.sessions[id])
      {
        FaithfulGrows(pool, scope, s.table, larger, s.sessions[id]);
      }
    case Begin(id, batchSize, now) => ExportedIsFaithful(pool, scope, s, now);
    case ReadRows(id) =>
      if id in s.sessions {
        ReadIsFrom(s.table, pool.programId, s.sessions[id].current.fetchOffset, s.sessions[id].end);
      }
    case CountRows(id) =>
    case Finish(id) =>
      if id in s.sessions {
        FinishKeepsInv(pool, scope, s, id);
      }
    case Abandon(id) =>
    case Import(backup, merge) =>
      if Imported(s.storage, scope, backup, merge).Success? {
        ImportIsFaithfulIff(pool, scope, s, backup, merge);
      }
    case Clear =>
  }

  lemma {:induction false} EveryRunKeepsInv(pool: Pool, scope: Scope, s: State, steps: seq<Step>)
    requires Inv(pool, scope, s) && RunFits(pool, scope, s, steps)
    ensures Inv(pool, scope, Run(pool, scope, s, steps))
    decreases |steps|
  {
    if steps != [] {
      EveryRunKeepsInv(pool, scope, s, steps[..|steps| - 1]);
      StepKeepsInv(pool, scope, Run(pool, scope, s, steps[..|steps| - 1]), steps[|steps| - 1]);
    }
  }

  /** In every run, with any number of syncs under way, a growing pool, cleared notes and restored
      backups that fit, an export succeeds and gives exactly the pool's outputs below its offset. */
  lemma EveryExportMirrorsThePool(pool: Pool, scope: Scope, steps: seq<Step>, now: int)
    requires RunFits(pool, scope, State([], map[], map[]), steps)
    ensures var s := Run(pool, scope, State([], map[], map[]), steps);
      var r := Exported(s.storage, scope, now);
      && r.Success?
      && Mirrors(r.value, s.table, pool.programId, pool.toCiphertext)
      && forall o :: Stored(s.table, pool.programId, pool.toCiphertext, o) && o.outputIndex < r.value.fetchOffset ==>
           o in r.value.indexedOutputs
  {
    hide Stored, Exported, CreateNoteBackup, NormalBackup, Apply;
    var start := State([], map[], map[]);
    EveryRunKeepsInv(pool, scope, start, steps);
    var s := Run(pool, scope, start, steps);
    ExportedIsFaithful(pool, scope, s, now);
    var b := Exported(s.storage, scope, now).value;
    forall o | Stored(s.table, pool.programId, pool.toCiphertext, o) && o.outputIndex < b.fetchOffset
      ensures o in b.indexedOutputs
    {
      StoredIsUnique(s.table, pool.programId, pool.toCiphertext, o, b.indexedOutputs[o.outputIndex]);
    }
  }
}
