// The store of note backups over a key-value storage.
module NoteStores {
  import opened Wrappers
  import opened NoteBackups
  import opened NoteOutputs
  import opened NoteHistory

  datatype Scope = Scope(programAddress: string, ownerAddress: string)

  // What the storage holds under the key of each scope, read back as JSON.
  type Storage = map<Scope, BackupInput>

  function EmptyBackup(scope: Scope, exportedAt: int): NoteBackup {
    NoteBackup(scope.programAddress, scope.ownerAddress, exportedAt, [], 0, [])
  }

  function InScope(b: NoteBackup, scope: Scope): Result<NoteBackup, NoteError> {
    if b.programAddress != scope.programAddress then Failure(WrongProgram)
    else if b.ownerAddress != scope.ownerAddress then Failure(WrongOwner)
    else Success(b)
  }

  function Exported(storage: Storage, scope: Scope, exportedAt: int): Result<NoteBackup, NoteError> {
    if scope !in storage then CreateNoteBackup(AsInput(EmptyBackup(scope, exportedAt)))
    else
      var stored :- CreateNoteBackup(storage[scope]);
      var checked :- InScope(stored, scope);
      CreateNoteBackup(AsInput(checked.(exportedAt := exportedAt)))
  }

  function Imported(storage: Storage, scope: Scope, backup: BackupInput, merge: bool): Result<NoteBackup, NoteError> {
    var created :- CreateNoteBackup(backup);
    var incoming :- InScope(created, scope);
    if merge && scope in storage then
      var stored :- CreateNoteBackup(storage[scope]);
      var existing :- InScope(stored, scope);
      Merge(existing, incoming)
    else Success(incoming)
  }

  class NoteStore {
    var storage: Storage

    constructor ()
      ensures storage == map[]
    {
      storage := map[];
    }

    method ExportNotes(scope: Scope, exportedAt: int) returns (r: Result<NoteBackup, NoteError>)
      ensures r == Exported(storage, scope, exportedAt)
    {
      if scope !in storage {
        return CreateNoteBackup(AsInput(EmptyBackup(scope, exportedAt)));
      }
      var stored :- CreateNoteBackup(storage[scope]);
      var checked :- InScope(stored, scope);
      return CreateNoteBackup(AsInput(checked.(exportedAt := exportedAt)));
    }

    // A rejected import leaves the storage as it was.
    method ImportNotes(scope: Scope, backup: BackupInput, merge: bool) returns (r: Result<NoteBackup, NoteError>)
      modifies this
      ensures r == Imported(old(storage), scope, backup, merge)
      ensures storage == if r.Success? then old(storage)[scope := AsInput(r.value)] else old(storage)
    {
      var created :- CreateNoteBackup(backup);
      var incoming :- InScope(created, scope);
      var next := incoming;
      if merge && scope in storage {
        var stored :- CreateNoteBackup(storage[scope]);
        var existing :- InScope(stored, scope);
        next :- Merge(existing, incoming);
      }
      storage := storage[scope := AsInput(next)];
      return Success(next);
    }

    method ClearNotes(scope: Scope)
      modifies this
      ensures storage == old(storage) - {scope}
    {
      storage := storage - {scope};
    }
  }

  lemma ImportedIsNormal(storage: Storage, scope: Scope, backup: BackupInput, merge: bool)
    requires Imported(storage, scope, backup, merge).Success?
    ensures NormalBackup(Imported(storage, scope, backup, merge).value)
    ensures InScope(Imported(storage, scope, backup, merge).value, scope).Success?
  {
    hide CreateNoteBackup, MergeNoteBackups, AsInput, NormalBackup;
    CreatedIsNormal(backup);
    if merge && scope in storage {
      CreatedIsNormal(storage[scope]);
      MergeOfNormal(CreateNoteBackup(storage[scope]).value, CreateNoteBackup(backup).value);
    }
  }

  lemma EmptyIsNormal(scope: Scope, exportedAt: int)
    ensures NormalBackup(EmptyBackup(scope, exportedAt))
  {
  }

  /** What was imported is what is exported, under the time of the export. */
  lemma ExportAfterImport(storage: Storage, scope: Scope, backup: BackupInput, merge: bool, exportedAt: int)
    requires Imported(storage, scope, backup, merge).Success?
    ensures var next := Imported(storage, scope, backup, merge).value;
      Exported(storage[scope := AsInput(next)], scope, exportedAt) == Success(next.(exportedAt := exportedAt))
  {
    hide CreateNoteBackup, MergeNoteBackups, AsInput, Imported;
    ImportedIsNormal(storage, scope, backup, merge);
    var next := Imported(storage, scope, backup, merge).value;
    NormalizationIsIdempotent(next);
    NormalizationIsIdempotent(next.(exportedAt := exportedAt));
  }

  /** A scope that was never written, or was cleared, exports as an empty backup at offset 0. */
  lemma ExportWhenEmpty(storage: Storage, scope: Scope, exportedAt: int)
    ensures Exported(storage - {scope}, scope, exportedAt) == Success(EmptyBackup(scope, exportedAt))
  {
    EmptyIsNormal(scope, exportedAt);
    NormalizationIsIdempotent(EmptyBackup(scope, exportedAt));
  }

  /** A backup of another program or owner is never imported, nor one whose outputs conflict with the
      stored ones; everything else that is well formed is. */
  lemma ImportsIff(storage: Storage, scope: Scope, backup: BackupInput, merge: bool)
    requires scope in storage ==> CreateNoteBackup(storage[scope]).Success? && InScope(CreateNoteBackup(storage[scope]).value, scope).Success?
    ensures Imported(storage, scope, backup, merge).Success? <==>
            && CreateNoteBackup(backup).Success?
            && backup.programAddress == scope.programAddress && backup.ownerAddress == scope.ownerAddress
            && (merge && scope in storage ==>
                  OneToOne(CreateNoteBackup(storage[scope]).value.indexedOutputs + CreateNoteBackup(backup).value.indexedOutputs))
  {
    hide OneToOne, NormalBackup, AsInput, MergeNoteBackups;
    if CreateNoteBackup(backup).Success? {
      CreatedIsNormal(backup);
      if scope in storage {
        CreatedIsNormal(storage[scope]);
        MergeOfNormal(CreateNoteBackup(storage[scope]).value, CreateNoteBackup(backup).value);
      }
    }
  }

  // Two merging imports, one after the other.
  function ImportedTwice(storage: Storage, scope: Scope, first: BackupInput, second: BackupInput): Result<NoteBackup, NoteError> {
    var next :- Imported(storage, scope, first, true);
    Imported(storage[scope := AsInput(next)], scope, second, true)
  }

  /** Merging imports may come in any order: both orders end with the same backup, or in both
      orders one of the two imports is refused. */
  lemma ImportsCommute(storage: Storage, scope: Scope, first: BackupInput, second: BackupInput)
    ensures SameOutcome(ImportedTwice(storage, scope, first, second), ImportedTwice(storage, scope, second, first))
  {
    hide CreateNoteBackup, MergeNoteBackups, AsInput, NormalBackup;
    if CreateNoteBackup(first).Success? && CreateNoteBackup(second).Success? {
      var a, b := CreateNoteBackup(first).value, CreateNoteBackup(second).value;
      CreatedIsNormal(first);
      CreatedIsNormal(second);
      if InScope(a, scope).Success? && InScope(b, scope).Success? {
        StoredBack(storage, scope, first);
        StoredBack(storage, scope, second);
        MergeIsCommutative(a, b);
        if scope in storage && CreateNoteBackup(storage[scope]).Success? {
          var s := CreateNoteBackup(storage[scope]).value;
          CreatedIsNormal(storage[scope]);
          MergeIsAssociative(s, a, b);
          MergeIsAssociative(s, b, a);
        }
      }
    }
  }

  lemma StoredBack(storage: Storage, scope: Scope, backup: BackupInput)
    ensures var r := Imported(storage, scope, backup, true);
      r.Success? ==> CreateNoteBackup(AsInput(r.value)) == r && InScope(r.value, scope).Success?
  {
    hide CreateNoteBackup, MergeNoteBackups, AsInput, NormalBackup, Imported;
    if Imported(storage, scope, backup, true).Success? {
      ImportedIsNormal(storage, scope, backup, true);
      NormalizationIsIdempotent(Imported(storage, scope, backup, true).value);
    }
  }
}
