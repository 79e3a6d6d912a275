// Note backups: validation, the merge of two backups, and the store that keeps them.
module NoteBackups {
  import opened Wrappers
  import opened Numerals
  import opened NoteOutputs
  import opened NoteHistory
  import opened Sorting

  // A backup as it is read from a file or from storage.  Timestamps are milliseconds.
  datatype RawOutput = RawOutput(outputIndex: int, encryptedOutput: string)
  datatype BackupInput = BackupInput(
    programAddress: string, ownerAddress: string, exportedAt: int,
    encryptedOutputs: Option<seq<string>>, indexedOutputs: Option<seq<RawOutput>>,
    fetchOffset: int, historyIndexes: seq<int>)

  datatype NoteBackup = NoteBackup(
    programAddress: string, ownerAddress: string, exportedAt: int,
    indexedOutputs: seq<IndexedOutput>, fetchOffset: nat, historyIndexes: seq<nat>)
  {
    function EncryptedOutputs(): seq<string> {
      seq(|indexedOutputs|, i requires 0 <= i < |indexedOutputs| => indexedOutputs[i].encryptedOutput)
    }
  }

  function RawOutputs(outputs: seq<IndexedOutput>): seq<RawOutput> {
    seq(|outputs|, i requires 0 <= i < |outputs| => RawOutput(outputs[i].outputIndex, outputs[i].encryptedOutput))
  }

  function AsInput(b: NoteBackup): BackupInput {
    BackupInput(b.programAddress, b.ownerAddress, b.exportedAt, Some(b.EncryptedOutputs()),
                Some(RawOutputs(b.indexedOutputs)), b.fetchOffset, b.historyIndexes)
  }

  // ---- Validation ----

  predicate AcceptsCiphertexts(raw: seq<string>) {
    forall i :: 0 <= i < |raw| ==> ParseCiphertext(raw[i]).Some?
  }

  function Ciphertexts(raw: seq<string>): seq<Ciphertext>
    requires AcceptsCiphertexts(raw)
  {
    seq(|raw|, i requires 0 <= i < |raw| => ParseCiphertext(raw[i]).value)
  }

  predicate AcceptsOutputs(raw: seq<RawOutput>) {
    forall i :: 0 <= i < |raw| ==> SafeInteger(raw[i].outputIndex) && ParseCiphertext(raw[i].encryptedOutput).Some?
  }

  function Outputs(raw: seq<RawOutput>): seq<IndexedOutput>
    requires AcceptsOutputs(raw)
  {
    seq(|raw|, i requires 0 <= i < |raw| => IndexedOutput(raw[i].outputIndex, ParseCiphertext(raw[i].encryptedOutput).value))
  }

  predicate AcceptsIndexes(raw: seq<int>) {
    forall i :: 0 <= i < |raw| ==> SafeInteger(raw[i])
  }

  // The fields, one by one, before normalization.
  predicate Accepts(input: BackupInput) {
    && (input.encryptedOutputs.Some? || input.indexedOutputs.Some?)
    // Without indexes the positions take their place, and must be safe integers as well.
    && (input.indexedOutputs.None? ==> |input.encryptedOutputs.value| <= MAX_SAFE_INTEGER + 1)
    && (input.encryptedOutputs.Some? ==> AcceptsCiphertexts(input.encryptedOutputs.value))
    && (input.indexedOutputs.Some? ==> AcceptsOutputs(input.indexedOutputs.value))
    && SafeInteger(input.fetchOffset)
    && AcceptsIndexes(input.historyIndexes)
  }

  function NormalizedOutputs(input: BackupInput): Result<seq<IndexedOutput>, NoteError>
    requires Accepts(input)
  {
    if input.indexedOutputs.Some? then Normalized(Outputs(input.indexedOutputs.value), true)
    else Normalized(Positioned(Ciphertexts(input.encryptedOutputs.value)), false)
  }

  function CreateNoteBackup(input: BackupInput): Result<NoteBackup, NoteError> {
    if !Accepts(input) then Failure(Malformed)
    else
      var outputs :- NormalizedOutputs(input);
      var history: seq<nat> := input.historyIndexes;
      Success(NoteBackup(input.programAddress, input.ownerAddress, input.exportedAt, outputs,
                         input.fetchOffset, NewestOffsets(history)))
  }

  function Max(a: int, b: int): int {
    if a >= b then a else b
  }

  function MergeNoteBackups(existingInput: BackupInput, incomingInput: BackupInput): Result<NoteBackup, NoteError> {
    var existing :- CreateNoteBackup(existingInput);
    var incoming :- CreateNoteBackup(incomingInput);
    if existing.programAddress != incoming.programAddress then Failure(WrongProgram)
    else if existing.ownerAddress != incoming.ownerAddress then Failure(WrongOwner)
    else CreateNoteBackup(BackupInput(
      existing.programAddress, existing.ownerAddress, Max(existing.exportedAt, incoming.exportedAt),
      None, Some(RawOutputs(existing.indexedOutputs) + RawOutputs(incoming.indexedOutputs)),
      Max(existing.fetchOffset, incoming.fetchOffset),
      existing.historyIndexes + incoming.historyIndexes))
  }

  // ---- Normalized backups ----

  predicate SafeIndexes(outputs: seq<IndexedOutput>) {
    forall o :: o in outputs ==> SafeInteger(o.outputIndex)
  }

  predicate NormalBackup(b: NoteBackup) {
    && Normal(b.indexedOutputs) && SafeIndexes(b.indexedOutputs)
    && SafeInteger(b.fetchOffset)
    && NormalHistory(b.historyIndexes) && AcceptsIndexes(b.historyIndexes)
  }

  lemma RawOutputsAreRead(outputs: seq<IndexedOutput>)
    requires SafeIndexes(outputs)
    ensures AcceptsOutputs(RawOutputs(outputs)) && Outputs(RawOutputs(outputs)) == outputs
  {
    forall i | 0 <= i < |outputs|
      ensures ParseCiphertext(outputs[i].encryptedOutput) == Some(outputs[i].encryptedOutput)
    {
      ParseIsStable(outputs[i].encryptedOutput);
    }
  }

  lemma CiphertextsAreRead(b: NoteBackup)
    ensures AcceptsCiphertexts(b.EncryptedOutputs())
  {
    forall i | 0 <= i < |b.indexedOutputs|
      ensures ParseCiphertext(b.indexedOutputs[i].encryptedOutput).Some?
    {
      ParseIsStable(b.indexedOutputs[i].encryptedOutput);
    }
  }

  lemma CreatedIsNormal(input: BackupInput)
    requires CreateNoteBackup(input).Success?
    ensures NormalBackup(CreateNoteBackup(input).value)
  {
    hide Normalized, NewestOffsets, ParseCiphertext, Normal;
    var b := CreateNoteBackup(input).value;
    var history: seq<nat> := input.historyIndexes;
    NewestIsNormal(history);
    forall i | 0 <= i < |b.historyIndexes|
      ensures SafeInteger(b.historyIndexes[i])
    {
      assert b.historyIndexes[i] in history;
      var j :| 0 <= j < |history| && history[j] == b.historyIndexes[i];
      assert SafeInteger(input.historyIndexes[j]);
    }
    if input.indexedOutputs.Some? {
      var outputs := Outputs(input.indexedOutputs.value);
      NormalizedWithIndexes(outputs);
      forall o | o in b.indexedOutputs
        ensures SafeInteger(o.outputIndex)
      {
        assert o in outputs;
      }
    } else {
      var ciphertexts := Ciphertexts(input.encryptedOutputs.value);
      NormalizedPositions(ciphertexts);
      forall o | o in b.indexedOutputs
        ensures SafeInteger(o.outputIndex)
      {
        assert FirstPosition(ciphertexts, o);
      }
    }
  }

  // The first position, among raw texts, of the output's ciphertext.
  predicate FirstRead(raw: seq<string>, o: IndexedOutput) {
    && o.outputIndex < |raw|
    && ParseCiphertext(raw[o.outputIndex]) == Some(o.encryptedOutput)
    && forall j :: 0 <= j < o.outputIndex ==> ParseCiphertext(raw[j]) != Some(o.encryptedOutput)
  }

  // The pair that a raw output stands for.
  predicate ReadAs(raw: RawOutput, o: IndexedOutput) {
    raw.outputIndex == o.outputIndex && ParseCiphertext(raw.encryptedOutput) == Some(o.encryptedOutput)
  }

  // Equal indexes have equal ciphertexts, and equal ciphertexts have equal indexes.
  predicate RawOneToOne(raw: seq<RawOutput>) {
    forall i, j :: 0 <= i < |raw| && 0 <= j < |raw| ==>
      (raw[i].outputIndex == raw[j].outputIndex <==> ParseCiphertext(raw[i].encryptedOutput) == ParseCiphertext(raw[j].encryptedOutput))
  }

  /** When a backup is accepted: its fields can be read, and outputs with indexes are one-to-one.
      Without indexes ciphertexts may repeat. */
  lemma CreatesIff(input: BackupInput)
    ensures CreateNoteBackup(input).Success? <==>
              && (input.indexedOutputs.Some? || input.encryptedOutputs.Some?)
              && (input.indexedOutputs.None? ==> |input.encryptedOutputs.value| <= 9007199254740992)
              && (input.encryptedOutputs.Some? ==> forall text :: text in input.encryptedOutputs.value ==> ParseCiphertext(text).Some?)
              && (input.indexedOutputs.Some? ==>
                    && (forall raw :: raw in input.indexedOutputs.value ==>
                          0 <= raw.outputIndex <= 9007199254740991 && ParseCiphertext(raw.encryptedOutput).Some?)
                    && RawOneToOne(input.indexedOutputs.value))
              && 0 <= input.fetchOffset <= 9007199254740991
              && forall h :: h in input.historyIndexes ==> 0 <= h <= 9007199254740991
  {
    hide Normalized, NewestOffsets, ParseCiphertext, OneToOne, RawOneToOne;
    AcceptsIff(input);
    hide Accepts;
    if Accepts(input) {
      if input.indexedOutputs.Some? {
        NormalizedWithIndexes(Outputs(input.indexedOutputs.value));
        ReadOneToOne(input.indexedOutputs.value);
      } else {
        NormalizedPositions(Ciphertexts(input.encryptedOutputs.value));
      }
    }
  }

  lemma AcceptsIff(input: BackupInput)
    ensures Accepts(input) <==>
              && (input.indexedOutputs.Some? || input.encryptedOutputs.Some?)
              && (input.indexedOutputs.None? ==> |input.encryptedOutputs.value| <= 9007199254740992)
              && (input.encryptedOutputs.Some? ==> forall text :: text in input.encryptedOutputs.value ==> ParseCiphertext(text).Some?)
              && (input.indexedOutputs.Some? ==> forall raw :: raw in input.indexedOutputs.value ==>
                    0 <= raw.outputIndex <= 9007199254740991 && ParseCiphertext(raw.encryptedOutput).Some?)
              && 0 <= input.fetchOffset <= 9007199254740991
              && forall h :: h in input.historyIndexes ==> 0 <= h <= 9007199254740991
  {
    hide ParseCiphertext;
    var texts := if input.encryptedOutputs.Some? then input.encryptedOutputs.value else [];
    var raws := if input.indexedOutputs.Some? then input.indexedOutputs.value else [];
    assert forall i :: 0 <= i < |texts| ==> texts[i] in texts;
    assert forall i :: 0 <= i < |raws| ==> raws[i] in raws;
    assert forall i :: 0 <= i < |input.historyIndexes| ==> input.historyIndexes[i] in input.historyIndexes;
  }

  lemma ReadOneToOne(raw: seq<RawOutput>)
    requires AcceptsOutputs(raw)
    ensures OneToOne(Outputs(raw)) <==> RawOneToOne(raw)
  {
    hide ParseCiphertext;
    var outputs := Outputs(raw);
    forall i, j | 0 <= i < |raw| && 0 <= j < |raw|
      ensures outputs[i].outputIndex == outputs[j].outputIndex <==> raw[i].outputIndex == raw[j].outputIndex
      ensures outputs[i].encryptedOutput == outputs[j].encryptedOutput
              <==> ParseCiphertext(raw[i].encryptedOutput) == ParseCiphertext(raw[j].encryptedOutput)
    {
    }
  }

  /** What an accepted backup holds: by ascending index, every ciphertext at its first position, or
      exactly the given pairs; the newest of the given history, and the other fields as they are. */
  lemma CreatedHolds(input: BackupInput)
    requires CreateNoteBackup(input).Success?
    ensures var b := CreateNoteBackup(input).value;
      && Normal(b.indexedOutputs)
      && (input.indexedOutputs.None? ==> forall o :: o in b.indexedOutputs <==> FirstRead(input.encryptedOutputs.value, o))
      && (input.indexedOutputs.Some? ==>
            forall o :: o in b.indexedOutputs <==> exists i :: 0 <= i < |input.indexedOutputs.value| && ReadAs(input.indexedOutputs.value[i], o))
      && b.programAddress == input.programAddress && b.ownerAddress == input.ownerAddress
      && b.exportedAt == input.exportedAt && b.fetchOffset == input.fetchOffset
      && NormalHistory(b.historyIndexes)
      && (forall h :: h in b.historyIndexes ==> h in input.historyIndexes)
      && (forall h :: h in input.historyIndexes && h !in b.historyIndexes ==>
            |b.historyIndexes| == 20 && forall kept :: kept in b.historyIndexes ==> h < kept)
  {
    hide Normalized, NewestOffsets, ParseCiphertext, Normal, FirstRead, ReadAs, NormalHistory, OneToOne, RawOneToOne;
    CreatesIff(input);
    CreatedHistory(input);
    if input.indexedOutputs.Some? {
      var raw := input.indexedOutputs.value;
      ReadOneToOne(raw);
      NormalizedWithIndexes(Outputs(raw));
      forall o
        ensures o in Outputs(raw) <==> exists i :: 0 <= i < |raw| && ReadAs(raw[i], o)
      {
        OutputsRead(raw, o);
      }
    } else {
      var raw := input.encryptedOutputs.value;
      NormalizedPositions(Ciphertexts(raw));
      forall o
        ensures FirstPosition(Ciphertexts(raw), o) <==> FirstRead(raw, o)
      {
        FirstIsFirst(raw, o);
      }
    }
  }

  /** Different ciphertexts without indexes come back in the order they had. */
  lemma DifferentTextsKeepOrder(input: BackupInput)
    requires CreateNoteBackup(input).Success? && input.indexedOutputs.None?
    requires var raw := input.encryptedOutputs.value;
      forall i, j :: 0 <= i < j < |raw| ==> ParseCiphertext(raw[i]) != ParseCiphertext(raw[j])
    ensures var kept, raw := CreateNoteBackup(input).value.EncryptedOutputs(), input.encryptedOutputs.value;
      |kept| == |raw| && forall i :: 0 <= i < |raw| ==> ParseCiphertext(raw[i]) == Some(kept[i])
  {
    hide ParseCiphertext, Normalized, NewestOffsets, FirstPosition;
    var ciphertexts := Ciphertexts(input.encryptedOutputs.value);
    var outputs := CreateNoteBackup(input).value.indexedOutputs;
    NormalizedPositions(ciphertexts);
    PositionsOfDifferent(ciphertexts);
    AscendingIsUnique(IndexOf, outputs, Positioned(ciphertexts));
  }

  lemma PositionsOfDifferent(ciphertexts: seq<Ciphertext>)
    requires forall i, j :: 0 <= i < j < |ciphertexts| ==> ciphertexts[i] != ciphertexts[j]
    ensures Ascending(IndexOf, Positioned(ciphertexts))
    ensures forall o :: o in Positioned(ciphertexts) <==> FirstPosition(ciphertexts, o)
  {
    forall o | FirstPosition(ciphertexts, o)
      ensures o in Positioned(ciphertexts)
    {
      assert Positioned(ciphertexts)[o.outputIndex] == o;
    }
  }

  lemma OutputsRead(raw: seq<RawOutput>, o: IndexedOutput)
    requires AcceptsOutputs(raw)
    ensures o in Outputs(raw) <==> exists i :: 0 <= i < |raw| && ReadAs(raw[i], o)
  {
    hide ParseCiphertext;
    var outputs := Outputs(raw);
    forall i | 0 <= i < |raw|
      ensures outputs[i] == o <==> ReadAs(raw[i], o)
    {
    }
  }

  lemma FirstIsFirst(raw: seq<string>, o: IndexedOutput)
    requires AcceptsCiphertexts(raw)
    ensures FirstPosition(Ciphertexts(raw), o) <==> FirstRead(raw, o)
  {
    hide ParseCiphertext;
    var ciphertexts := Ciphertexts(raw);
    forall j | 0 <= j < |raw|
      ensures ciphertexts[j] == o.encryptedOutput <==> ParseCiphertext(raw[j]) == Some(o.encryptedOutput)
    {
    }
  }

  lemma CreatedHistory(input: BackupInput)
    requires CreateNoteBackup(input).Success?
    ensures var b := CreateNoteBackup(input).value;
      && NormalHistory(b.historyIndexes)
      && (forall h :: h in b.historyIndexes ==> h in input.historyIndexes)
      && (forall h :: h in input.historyIndexes && h !in b.historyIndexes ==>
            |b.historyIndexes| == 20 && forall kept :: kept in b.historyIndexes ==> h < kept)
  {
    hide Normalized, NewestOffsets, ParseCiphertext, NormalHistory;
    var history: seq<nat> := input.historyIndexes;
    NewestIsNormal(history);
    forall h: nat | h in history && h !in NewestOffsets(history)
      ensures |NewestOffsets(history)| == 20 && forall kept :: kept in NewestOffsets(history) ==> h < kept
    {
      NewestAreKept(history, h);
    }
  }

  /** Validating and normalizing twice is the same as once: a normalized backup is read back as it
      was written. */
  lemma NormalizationIsIdempotent(b: NoteBackup)
    requires NormalBackup(b)
    ensures CreateNoteBackup(AsInput(b)) == Success(b)
  {
    hide Normalized, NewestOffsets, ParseCiphertext, Normal;
    RawOutputsAreRead(b.indexedOutputs);
    CiphertextsAreRead(b);
    NormalizedMembers(b.indexedOutputs, b.indexedOutputs);
    NewestIsNormal(b.historyIndexes);
  }

  /** What is written lists every ciphertext twice, with and without its index, in the same order. */
  lemma WrittenListsAgree(b: NoteBackup)
    ensures var texts, raws := AsInput(b).encryptedOutputs, AsInput(b).indexedOutputs;
      && texts.Some? && raws.Some? && |texts.value| == |raws.value| == |b.indexedOutputs|
      && forall i :: 0 <= i < |b.indexedOutputs| ==>
           && raws.value[i].outputIndex == b.indexedOutputs[i].outputIndex
           && raws.value[i].encryptedOutput == texts.value[i] == b.indexedOutputs[i].encryptedOutput
  {
  }

  // ---- The merge as a join ----

  /** Merging normalized backups succeeds exactly when they have the same scope and their outputs
      together are one-to-one both ways; the result has both sets of outputs, the larger offset,
      the later time and the newest 20 offsets of both. */
  lemma MergeOfNormal(a: NoteBackup, b: NoteBackup)
    requires NormalBackup(a) && NormalBackup(b)
    ensures var r := MergeNoteBackups(AsInput(a), AsInput(b));
      && (r.Success? <==>
            && a.programAddress == b.programAddress && a.ownerAddress == b.ownerAddress
            && OneToOne(a.indexedOutputs + b.indexedOutputs))
      && (r.Success? ==>
            && NormalBackup(r.value)
            && r.value.programAddress == a.programAddress && r.value.ownerAddress == a.ownerAddress
            && SameElements(r.value.indexedOutputs, a.indexedOutputs + b.indexedOutputs)
            && r.value.exportedAt == Max(a.exportedAt, b.exportedAt)
            && r.value.fetchOffset == Max(a.fetchOffset, b.fetchOffset)
            && r.value.historyIndexes == NewestOffsets(a.historyIndexes + b.historyIndexes))
  {
    hide Normalized, NewestOffsets, ParseCiphertext, Normal, OneToOne, SafeIndexes;
    NormalizationIsIdempotent(a);
    NormalizationIsIdempotent(b);
    var raw := RawOutputs(a.indexedOutputs) + RawOutputs(b.indexedOutputs);
    var outputs := a.indexedOutputs + b.indexedOutputs;
    assert raw == RawOutputs(outputs);
    SafeTogether(a.indexedOutputs, b.indexedOutputs);
    RawOutputsAreRead(outputs);
    NormalizedWithIndexes(outputs);
    var history := a.historyIndexes + b.historyIndexes;
    if a.programAddress == b.programAddress && a.ownerAddress == b.ownerAddress {
      var input := BackupInput(a.programAddress, a.ownerAddress, Max(a.exportedAt, b.exportedAt), None, Some(raw),
                               Max(a.fetchOffset, b.fetchOffset), history);
      assert MergeNoteBackups(AsInput(a), AsInput(b)) == CreateNoteBackup(input);
      if OneToOne(outputs) {
        CreatedIsNormal(input);
      }
    }
  }

  lemma SafeTogether(s: seq<IndexedOutput>, t: seq<IndexedOutput>)
    requires SafeIndexes(s) && SafeIndexes(t)
    ensures SafeIndexes(s + t)
  {
  }

  function Merge(a: NoteBackup, b: NoteBackup): Result<NoteBackup, NoteError> {
    MergeNoteBackups(AsInput(a), AsInput(b))
  }

  function MergeInto(r: Result<NoteBackup, NoteError>, b: NoteBackup): Result<NoteBackup, NoteError> {
    if r.Failure? then r else Merge(r.value, b)
  }

  function MergeOnto(a: NoteBackup, r: Result<NoteBackup, NoteError>): Result<NoteBackup, NoteError> {
    if r.Failure? then r else Merge(a, r.value)
  }

  // The same backup, or two failures.
  predicate SameOutcome(r: Result<NoteBackup, NoteError>, t: Result<NoteBackup, NoteError>) {
    r == t || (r.Failure? && t.Failure?)
  }

  lemma OneToOneOfElements(s: seq<IndexedOutput>, t: seq<IndexedOutput>)
    requires SameElements(s, t)
    ensures OneToOne(s) <==> OneToOne(t)
  {
    if OneToOne(s) {
      SameIsOneToOne(s, t);
    }
    if OneToOne(t) {
      SameIsOneToOne(t, s);
    }
  }

  lemma OneToOneOfPart(s: seq<IndexedOutput>, t: seq<IndexedOutput>)
    requires OneToOne(t) && forall o :: o in s ==> o in t
    ensures OneToOne(s)
  {
    forall i, j | 0 <= i < |s| && 0 <= j < |s|
      ensures s[i].outputIndex == s[j].outputIndex <==> s[i].encryptedOutput == s[j].encryptedOutput
    {
      assert s[i] in t && s[j] in t;
    }
  }

  lemma MergeIsCommutative(a: NoteBackup, b: NoteBackup)
    requires NormalBackup(a) && NormalBackup(b)
    ensures SameOutcome(Merge(a, b), Merge(b, a))
  {
    hide NewestOffsets, Normal, OneToOne, MergeNoteBackups, SafeIndexes, NormalHistory, AcceptsIndexes;
    MergeOfNormal(a, b);
    MergeOfNormal(b, a);
    var ab, ba := a.indexedOutputs + b.indexedOutputs, b.indexedOutputs + a.indexedOutputs;
    OneToOneOfElements(ab, ba);
    NewestOfElements(a.historyIndexes + b.historyIndexes, b.historyIndexes + a.historyIndexes);
    if Merge(a, b).Success? {
      UniqueOutputs(Merge(a, b).value.indexedOutputs, Merge(b, a).value.indexedOutputs);
    }
  }

  lemma UniqueOutputs(s: seq<IndexedOutput>, t: seq<IndexedOutput>)
    requires Normal(s) && Normal(t) && SameElements(s, t)
    ensures s == t
  {
    AscendingIsUnique(IndexOf, s, t);
  }

  lemma MergeIsIdempotent(a: NoteBackup)
    requires NormalBackup(a)
    ensures Merge(a, a) == Success(a)
  {
    hide NewestOffsets, MergeNoteBackups;
    MergeOfNormal(a, a);
    OneToOneOfPart(a.indexedOutputs + a.indexedOutputs, a.indexedOutputs);
    UniqueOutputs(Merge(a, a).value.indexedOutputs, a.indexedOutputs);
    NewestOfElements(a.historyIndexes + a.historyIndexes, a.historyIndexes);
    NewestIsNormal(a.historyIndexes);
  }

  // Three backups, merged from the left.
  lemma MergeOfThree(a: NoteBackup, b: NoteBackup, c: NoteBackup)
    requires NormalBackup(a) && NormalBackup(b) && NormalBackup(c)
    ensures var r := MergeInto(Merge(a, b), c);
      && (r.Success? <==>
            && a.programAddress == b.programAddress == c.programAddress
            && a.ownerAddress == b.ownerAddress == c.ownerAddress
            && OneToOne(a.indexedOutputs + b.indexedOutputs + c.indexedOutputs))
      && (r.Success? ==>
            && NormalBackup(r.value)
            && r.value.programAddress == a.programAddress && r.value.ownerAddress == a.ownerAddress
            && SameElements(r.value.indexedOutputs, a.indexedOutputs + b.indexedOutputs + c.indexedOutputs)
            && r.value.exportedAt == Max(Max(a.exportedAt, b.exportedAt), c.exportedAt)
            && r.value.fetchOffset == Max(Max(a.fetchOffset, b.fetchOffset), c.fetchOffset)
            && r.value.historyIndexes == NewestOffsets(a.historyIndexes + b.historyIndexes + c.historyIndexes))
  {
    hide NewestOffsets, Normal, OneToOne, MergeNoteBackups, SafeIndexes, NormalHistory, AcceptsIndexes;
    var ab, abc := a.indexedOutputs + b.indexedOutputs, a.indexedOutputs + b.indexedOutputs + c.indexedOutputs;
    MergeOfNormal(a, b);
    if OneToOne(abc) {
      OneToOneOfPart(ab, abc);
    }
    if Merge(a, b).Success? {
      var m := Merge(a, b).value;
      MergeOfNormal(m, c);
      OneToOneOfElements(m.indexedOutputs + c.indexedOutputs, abc);
      NewestOfNewest(a.historyIndexes + b.historyIndexes, c.historyIndexes);
    }
  }

  /** The order in which three backups are merged does not matter, not even for whether the merge
      fails. */
  lemma MergeIsAssociative(a: NoteBackup, b: NoteBackup, c: NoteBackup)
    requires NormalBackup(a) && NormalBackup(b) && NormalBackup(c)
    ensures SameOutcome(MergeInto(Merge(a, b), c), MergeOnto(a, Merge(b, c)))
  {
    hide NewestOffsets, Normal, OneToOne, MergeNoteBackups, SafeIndexes, NormalHistory, AcceptsIndexes;
    var left, right := MergeInto(Merge(a, b), c), MergeInto(Merge(b, c), a);
    var abc, bca := a.indexedOutputs + b.indexedOutputs + c.indexedOutputs, b.indexedOutputs + c.indexedOutputs + a.indexedOutputs;
    MergeOfThree(a, b, c);
    MergeOfThree(b, c, a);
    OneToOneOfElements(abc, bca);
    NewestOfElements(a.historyIndexes + b.historyIndexes + c.historyIndexes, b.historyIndexes + c.historyIndexes + a.historyIndexes);
    if left.Success? {
      UniqueOutputs(left.value.indexedOutputs, right.value.indexedOutputs);
    }
    MergeOfNormal(b, c);
    if Merge(b, c).Success? {
      MergeIsCommutative(a, Merge(b, c).value);
    }
  }
}
