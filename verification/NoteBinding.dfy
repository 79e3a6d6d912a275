// From a decrypted note and the service's proof to a circuit input slot.
module NoteBinding {
  import opened Wrappers
  import opened Numerals
  import opened Text
  import opened FieldCodec
  import opened FieldHex
  import opened NoteOutputs
  import opened PoolParser
  import opened MerkleTrees
  import opened MerkleProofs
  import opened MerkleService

  type Element = n: nat | n < FIELD_SIZE witness 0

  // Poseidon over the decimal texts of its inputs, that is, over their values.
  type Poseidon = seq<nat> -> Element

  // The mint address that is hashed as a number.
  const NATIVE_TOKEN_SENTINEL: nat := 11111111111111111111111111111112

  datatype UtxoWitness = UtxoWitness(
    amountLamports: nat, blinding: Element, index: nat, privateKey: Element, publicKey: Element,
    commitment: Element, nullifier: Element, nullifierHex: string)

  datatype SelectedNote = SelectedNote(
    commitment: string, encryptedOutput: string, outputIndex: nat, nullifier: string, amountLamports: nat, utxo: UtxoWitness)

  datatype CircuitInputSlot = CircuitInputSlot(
    amountLamports: nat, privateKey: Element, blinding: Element, nullifier: Element, nullifierHex: string,
    pathIndex: nat, pathElements: seq<Field>)

  datatype BindError = CountMismatch | ProofMissing | WrongCommitment | UnsafeIndex | HeightMismatch

  // ---- Keys of a note ----

  function CommitmentOf(poseidon: Poseidon, amountLamports: nat, publicKey: Element, blinding: Element): Element {
    poseidon([amountLamports, publicKey, blinding, NATIVE_TOKEN_SENTINEL])
  }

  function NullifierOf(poseidon: Poseidon, privateKey: Element, commitment: Element, index: nat): Element {
    poseidon([commitment, index, poseidon([privateKey, commitment, index])])
  }

  // Two different inputs with the same hash.
  predicate Collision(poseidon: Poseidon, x: seq<nat>, y: seq<nat>) {
    x != y && poseidon(x) == poseidon(y)
  }

  /** A commitment binds the amount, the owner's key and the blinding: two openings are a collision
      of the hash. */
  lemma CommitmentBinds(poseidon: Poseidon, a: nat, publicKey: Element, blinding: Element, a': nat, publicKey': Element, blinding': Element)
    requires CommitmentOf(poseidon, a, publicKey, blinding) == CommitmentOf(poseidon, a', publicKey', blinding')
    ensures (a == a' && publicKey == publicKey' && blinding == blinding')
            || Collision(poseidon, [a, publicKey, blinding, 11111111111111111111111111111112],
                         [a', publicKey', blinding', 11111111111111111111111111111112])
  {
    var x, y := [a, publicKey, blinding, NATIVE_TOKEN_SENTINEL], [a', publicKey', blinding', NATIVE_TOKEN_SENTINEL];
    if x == y {
      assert x[0] == y[0] && x[1] == y[1] && x[2] == y[2];
    }
  }

  /** A nullifier binds the commitment, its index and the owner's key: a note has one nullifier for
      each index and shares it with no other note, or the hash has a collision. */
  lemma NullifierBinds(poseidon: Poseidon, key: Element, commitment: Element, index: nat, key': Element, commitment': Element, index': nat)
    requires NullifierOf(poseidon, key, commitment, index) == NullifierOf(poseidon, key', commitment', index')
    ensures (commitment == commitment' && index == index' && key == key')
            || Collision(poseidon, [key, commitment, index], [key', commitment', index'])
            || Collision(poseidon, [commitment, index, poseidon([key, commitment, index])],
                         [commitment', index', poseidon([key', commitment', index'])])
  {
    var signed, signed' := [key, commitment, index], [key', commitment', index'];
    var x, y := [commitment, index, poseidon(signed)], [commitment', index', poseidon(signed')];
    if x == y {
      assert x[0] == y[0] && x[1] == y[1] && x[2] == y[2];
    }
    if signed == signed' {
      assert signed[0] == signed'[0];
    }
  }

  // What decrypting a note at an index yields.
  function DecryptedWitness(poseidon: Poseidon, amountLamports: nat, blinding: Element, privateKey: Element, index: nat): UtxoWitness {
    var publicKey := poseidon([privateKey]);
    var commitment := CommitmentOf(poseidon, amountLamports, publicKey, blinding);
    var nullifier := NullifierOf(poseidon, privateKey, commitment, index);
    UtxoWitness(amountLamports, blinding, index, privateKey, publicKey, commitment, nullifier, PrintHex64(nullifier))
  }

  /** A witness keeps what was decrypted, and its keys belong together: the public key is the owner's,
      the commitment opens to the amount, the nullifier is the note's at this index, and the hex text
      spells it. */
  lemma WitnessIsOfNote(poseidon: Poseidon, amountLamports: nat, blinding: Element, privateKey: Element, index: nat)
    ensures var w := DecryptedWitness(poseidon, amountLamports, blinding, privateKey, index);
      && w.amountLamports == amountLamports && w.blinding == blinding && w.privateKey == privateKey && w.index == index
      && w.publicKey == poseidon([privateKey])
      && w.commitment == CommitmentOf(poseidon, amountLamports, w.publicKey, blinding)
      && w.nullifier == NullifierOf(poseidon, privateKey, w.commitment, index)
      && IsHexField(w.nullifierHex) && ParseNat(16, w.nullifierHex) == w.nullifier
  {
    hide ParseNat, PrintHex64, CommitmentOf, NullifierOf, IsHexField;
    FieldSizeBounds();
    PrintedHex(DecryptedWitness(poseidon, amountLamports, blinding, privateKey, index).nullifier);
  }

  function RederiveUtxoWitness(poseidon: Poseidon, utxo: UtxoWitness, outputIndex: int): Result<UtxoWitness, BindError> {
    if !SafeInteger(outputIndex) then Failure(UnsafeIndex)
    else
      var nullifier := NullifierOf(poseidon, utxo.privateKey, utxo.commitment, outputIndex);
      Success(utxo.(index := outputIndex, nullifier := nullifier, nullifierHex := PrintHex64(nullifier)))
  }

  /** Moving a witness to another index gives what decrypting at that index would have given. */
  lemma RederivedIsDecrypted(poseidon: Poseidon, amountLamports: nat, blinding: Element, privateKey: Element, index: nat, outputIndex: nat)
    requires SafeInteger(outputIndex)
    ensures RederiveUtxoWitness(poseidon, DecryptedWitness(poseidon, amountLamports, blinding, privateKey, index), outputIndex)
            == Success(DecryptedWitness(poseidon, amountLamports, blinding, privateKey, outputIndex))
  {
  }

  // ---- The client's checks ----

  // The proof is there and is for the note's commitment, in either spelling.
  predicate ProofMatches(note: SelectedNote, proof: CommitmentProof) {
    && proof.found && proof.outputIndex.Some?
    && (proof.commitmentHex == note.commitment || proof.commitment == note.commitment)
  }

  // A proof for every note, in order.
  ghost predicate Answers(notes: seq<SelectedNote>, answer: ProofAnswer) {
    |answer.proofs| == |notes| && forall k :: 0 <= k < |notes| ==> ProofMatches(notes[k], answer.proofs[k])
  }

  /** Accepts an answer or reports the first proof that is missing or is for another commitment. */
  method ValidateMerkleProof(notes: seq<SelectedNote>, answer: ProofAnswer) returns (problem: Option<BindError>)
    ensures problem.None? <==> Answers(notes, answer)
    ensures problem == Some(CountMismatch) <==> |answer.proofs| != |notes|
    ensures problem.None? ==>
              forall k :: 0 <= k < |notes| ==>
                && answer.proofs[k].found && answer.proofs[k].outputIndex.Some?
                && notes[k].commitment in [answer.proofs[k].commitment, answer.proofs[k].commitmentHex]
    ensures problem.Some? && |answer.proofs| == |notes| ==>
              exists k :: 0 <= k < |notes|
                && (forall j :: 0 <= j < k ==> ProofMatches(notes[j], answer.proofs[j]))
                && if answer.proofs[k].found && answer.proofs[k].outputIndex.Some?
                   then notes[k].commitment !in [answer.proofs[k].commitment, answer.proofs[k].commitmentHex] && problem.value == WrongCommitment
                   else problem.value == ProofMissing
  {
    if |answer.proofs| != |notes| {
      return Some(CountMismatch);
    }
    for k := 0 to |notes|
      invariant forall j :: 0 <= j < k ==> ProofMatches(notes[j], answer.proofs[j])
    {
      var proof := answer.proofs[k];
      if !proof.found || proof.outputIndex.None? {
        return Some(ProofMissing);
      }
      if proof.commitmentHex != notes[k].commitment && proof.commitment != notes[k].commitment {
        return Some(WrongCommitment);
      }
    }
    return None;
  }

  function BindNote(poseidon: Poseidon, note: SelectedNote, proof: CommitmentProof): Result<SelectedNote, BindError> {
    if proof.outputIndex.None? then Failure(ProofMissing)
    else
      var utxo :- RederiveUtxoWitness(poseidon, note.utxo, proof.outputIndex.value);
      Success(note.(outputIndex := proof.outputIndex.value, nullifier := utxo.nullifierHex, utxo := utxo))
  }

  function CreateInputSlot(note: SelectedNote, proof: CommitmentProof, treeHeight: nat): Result<CircuitInputSlot, BindError> {
    if proof.outputIndex.None? then Failure(ProofMissing)
    else if |proof.pathElements| != treeHeight then Failure(HeightMismatch)
    else Success(CircuitInputSlot(note.amountLamports, note.utxo.privateKey, note.utxo.blinding, note.utxo.nullifier,
                                  note.nullifier, proof.outputIndex.value, proof.pathElements))
  }

  // Bind, then create the slot.
  function SlotFor(poseidon: Poseidon, note: SelectedNote, proof: CommitmentProof, treeHeight: nat): Result<CircuitInputSlot, BindError> {
    var bound :- BindNote(poseidon, note, proof);
    CreateInputSlot(bound, proof, treeHeight)
  }

  /** When a slot is created: the proof has a position that a number can hold, and a path of the
      tree's height. */
  lemma SlotCreatedIff(poseidon: Poseidon, note: SelectedNote, proof: CommitmentProof, treeHeight: nat)
    ensures SlotFor(poseidon, note, proof, treeHeight).Success? <==>
              proof.outputIndex.Some? && proof.outputIndex.value <= 9007199254740991 && |proof.pathElements| == treeHeight
  {
  }

  function DummySlot(poseidon: Poseidon, privateKey: Element, blinding: Element, treeHeight: nat): CircuitInputSlot {
    var publicKey := poseidon([privateKey]);
    var commitment := poseidon([0, publicKey, blinding, NATIVE_TOKEN_SENTINEL]);
    var signature := poseidon([privateKey, commitment, 0]);
    var nullifier := poseidon([commitment, 0, signature]);
    CircuitInputSlot(0, privateKey, blinding, nullifier, PrintHex64(nullifier), 0, Zeros(treeHeight))
  }

  /** The filler slot is the slot of a zero note decrypted at index 0. */
  lemma DummyIsZeroNote(poseidon: Poseidon, privateKey: Element, blinding: Element, treeHeight: nat)
    ensures var utxo, slot := DecryptedWitness(poseidon, 0, blinding, privateKey, 0), DummySlot(poseidon, privateKey, blinding, treeHeight);
      && slot.amountLamports == 0 && slot.privateKey == privateKey && slot.blinding == blinding
      && slot.pathIndex == utxo.index == 0 && |slot.pathElements| == treeHeight
      && (forall l :: 0 <= l < treeHeight ==> slot.pathElements[l] == 0)
      && slot.nullifier == utxo.nullifier && slot.nullifierHex == utxo.nullifierHex
  {
  }

  // ---- Service and client together ----

  // The tree hashes pairs with the same Poseidon.
  function PairHash(poseidon: Poseidon): Hash {
    (left: Field, right: Field) => poseidon([left, right])
  }

  // A note as it was decrypted at some index, under a spelling of its commitment.
  predicate IsDecryptedNote(poseidon: Poseidon, note: SelectedNote) {
    var w := note.utxo;
    && w == DecryptedWitness(poseidon, w.amountLamports, w.blinding, w.privateKey, w.index)
    && Spelled(note)
    && note.nullifier == w.nullifierHex
    && note.amountLamports == w.amountLamports
  }

  // Decimal or 64 hex digits.
  predicate Spelled(note: SelectedNote) {
    note.commitment == PrintNat(10, note.utxo.commitment) || note.commitment == PrintHex64(note.utxo.commitment)
  }

  // A decimal of 64 digits is read as hex.
  predicate ReadRight(note: SelectedNote) {
    |note.commitment| != HEX_DIGITS || note.commitment == PrintHex64(note.utxo.commitment)
  }

  // 64 hex digits that are a decimal as well.
  predicate Ambiguous(text: string) {
    |text| == HEX_DIGITS && IsNumeral(10, text) && text[0] != '0'
  }

  predicate HexRows(rows: seq<OutputRow>) {
    forall i :: 0 <= i < |rows| ==> IsHexField(rows[i].commitment)
  }

  lemma CommitmentSpelling(note: SelectedNote)
    requires note.commitment == PrintNat(10, note.utxo.commitment)
    ensures IsNumeral(10, note.commitment) && CanonicalNumeral(note.commitment)
    ensures ParseNat(10, note.commitment) == note.utxo.commitment < Pow(16, HEX_DIGITS)
  {
    ParsePrint(10, note.utxo.commitment);
    FieldSizeBounds();
  }

  lemma HexSpelling(n: Element)
    ensures IsHexField(PrintHex64(n)) && ParseNat(16, PrintHex64(n)) == n
  {
    FieldSizeBounds();
    PrintedHex(n);
  }

  // The request that a note's commitment is turned into.
  lemma RequestForNote(note: SelectedNote)
    requires Spelled(note) && ReadRight(note)
    ensures NormalizeFieldToHex(note.commitment) == Success(PrintHex64(note.utxo.commitment))
  {
    hide NormalizeFieldToHex, ParseNat, PrintHex64, Pow, HexFieldValue, PrintNat, IsHexField;
    HexSpelling(note.utxo.commitment);
    if note.commitment == PrintHex64(note.utxo.commitment) {
      HexIsKept(note.commitment);
    } else {
      CommitmentSpelling(note);
      DecimalOf(note.commitment);
    }
  }

  // What the service answers for a note whose commitment is not misread.
  lemma AnswerForNote(poseidon: Poseidon, rows: seq<OutputRow>, note: SelectedNote, proof: CommitmentProof)
    requires Servable(rows) && HexRows(rows) && Spelled(note) && ReadRight(note)
    requires ProofFor(PairHash(poseidon), rows, PaddedRoot(PairHash(poseidon), MERKLE_TREE_HEIGHT, Leaves(rows)),
                      PrintHex64(note.utxo.commitment), proof)
    ensures IsHexField(PrintHex64(note.utxo.commitment)) && ParseNat(16, PrintHex64(note.utxo.commitment)) == note.utxo.commitment
    ensures note.commitment == proof.commitment || note.commitment == proof.commitmentHex
    ensures proof.found <==> note.utxo.commitment in Leaves(rows)
    ensures proof.found ==>
              && proof.outputIndex.Some? && proof.outputIndex.value < |rows|
              && Leaves(rows)[proof.outputIndex.value] == note.utxo.commitment
  {
    hide PaddedRoot, NormalizeFieldToHex, PathOf, ParseNat, PrintHex64, Pow, Pow2, HexFieldValue, PrintNat, LastRow, Leaves, HexFieldToDecimal, PairHash, ReadRight, IsHexField;
    HexSpelling(note.utxo.commitment);
    HexToDecimal(PrintHex64(note.utxo.commitment));
    FoundIffStored(PairHash(poseidon), rows, PrintHex64(note.utxo.commitment), proof);
  }

  /** From the tables to the circuit.  For a decrypted note whose commitment is not a decimal of 64
      digits: the answer passes the client's check exactly when the pool holds the commitment, and
      then the slot carries a position where the pool holds it, a path from it to the returned root,
      and the nullifier that decrypting at that position would have given. */
  lemma SlotProvesNote(poseidon: Poseidon, rows: seq<OutputRow>, note: SelectedNote, proof: CommitmentProof)
    requires Servable(rows) && HexRows(rows) && IsDecryptedNote(poseidon, note) && ReadRight(note)
    requires ProofFor(PairHash(poseidon), rows, PaddedRoot(PairHash(poseidon), MERKLE_TREE_HEIGHT, Leaves(rows)),
                      PrintHex64(note.utxo.commitment), proof)
    ensures ProofMatches(note, proof) <==> note.utxo.commitment in Leaves(rows)
    ensures ProofMatches(note, proof) ==>
              var slot, w := SlotFor(poseidon, note, proof, MERKLE_TREE_HEIGHT), note.utxo;
              && slot.Success?
              && slot.value.pathIndex < |rows|
              && Leaves(rows)[slot.value.pathIndex] == w.commitment
              && slot.value.amountLamports == w.amountLamports
              && slot.value.privateKey == w.privateKey && slot.value.blinding == w.blinding
              && slot.value.nullifier
                 == DecryptedWitness(poseidon, w.amountLamports, w.blinding, w.privateKey, slot.value.pathIndex).nullifier
              && slot.value.nullifierHex == PrintHex64(slot.value.nullifier)
              && |slot.value.pathElements| == |proof.pathIndices| == MERKLE_TREE_HEIGHT
              && Position(proof.pathIndices) == slot.value.pathIndex
              && Fold(PairHash(poseidon), w.commitment, slot.value.pathElements, proof.pathIndices)
                 == PaddedRoot(PairHash(poseidon), MERKLE_TREE_HEIGHT, Leaves(rows))
  {
    hide PaddedRoot, NormalizeFieldToHex, PathOf, ParseNat, PrintHex64, Fold, Position, HexFieldValue, PrintNat, LastRow, Leaves, PairHash, HexRows, ProofFor, ReadRight, Spelled;
    AnswerForNote(poseidon, rows, note, proof);
    ProofVerifies(PairHash(poseidon), rows, PrintHex64(note.utxo.commitment), proof);
    if proof.found {
      DeployedHeightFits();
      var w := note.utxo;
      RederivedIsDecrypted(poseidon, w.amountLamports, w.blinding, w.privateKey, w.index, proof.outputIndex.value);
    }
  }

  /** An honest answer is accepted exactly when the pool holds the commitment of every selected
      note. */
  lemma AcceptedIffAllStored(poseidon: Poseidon, rows: seq<OutputRow>, notes: seq<SelectedNote>, answer: ProofAnswer)
    requires Servable(rows) && HexRows(rows) && |answer.proofs| == |notes|
    requires forall k :: 0 <= k < |notes| ==>
               && IsDecryptedNote(poseidon, notes[k]) && ReadRight(notes[k])
               && NormalizeFieldToHex(notes[k].commitment).Success?
               && ProofFor(PairHash(poseidon), rows, PaddedRoot(PairHash(poseidon), MERKLE_TREE_HEIGHT, Leaves(rows)),
                           NormalizeFieldToHex(notes[k].commitment).value, answer.proofs[k])
    ensures Answers(notes, answer) <==> forall k :: 0 <= k < |notes| ==> notes[k].utxo.commitment in Leaves(rows)
  {
    hide PaddedRoot, NormalizeFieldToHex, Leaves, PairHash, HexRows, ProofFor, ProofMatches, SlotFor, DecryptedWitness, Spelled, ReadRight;
    forall k | 0 <= k < |notes|
      ensures ProofMatches(notes[k], answer.proofs[k]) <==> notes[k].utxo.commitment in Leaves(rows)
    {
      RequestForNote(notes[k]);
      SlotProvesNote(poseidon, rows, notes[k], answer.proofs[k]);
    }
  }

  // What an accepted proof is about, whatever it was asked for.
  lemma AcceptedIsAbout(note: SelectedNote, hex: string, proof: CommitmentProof)
    requires IsHexField(hex) && proof.commitmentHex == hex && HexFieldToDecimal(hex) == Success(proof.commitment)
    requires ProofMatches(note, proof) && Spelled(note) && !Ambiguous(note.commitment)
    ensures ParseNat(16, hex) == note.utxo.commitment
  {
    hide NormalizeFieldToHex, ParseNat, PrintHex64, Pow, HexFieldValue, PrintNat, HexFieldToDecimal;
    HexToDecimal(hex);
    HexSpelling(note.utxo.commitment);
    ParsePrint(10, note.utxo.commitment);
    ParsePrint(10, ParseNat(16, hex));
  }

  /** An answer whose proofs may be for any requests, in any order: when it is accepted, every proof
      is about the commitment of its own note, unless the note's text is ambiguous. */
  lemma AcceptedAreStored(poseidon: Poseidon, rows: seq<OutputRow>, notes: seq<SelectedNote>, answer: ProofAnswer, asked: seq<string>)
    requires Servable(rows) && HexRows(rows) && Answers(notes, answer) && |asked| == |notes|
    requires forall k :: 0 <= k < |notes| ==>
               && Spelled(notes[k]) && !Ambiguous(notes[k].commitment) && IsHexField(asked[k])
               && ProofFor(PairHash(poseidon), rows, PaddedRoot(PairHash(poseidon), MERKLE_TREE_HEIGHT, Leaves(rows)),
                           asked[k], answer.proofs[k])
    ensures forall k :: 0 <= k < |notes| ==>
              && answer.proofs[k].outputIndex.Some? && answer.proofs[k].outputIndex.value < |rows|
              && Leaves(rows)[answer.proofs[k].outputIndex.value] == notes[k].utxo.commitment
  {
    hide PaddedRoot, Leaves, PairHash, ParseNat, PrintHex64, PrintNat, PathOf, LastRow, HexFieldToDecimal, IsHexField, Ambiguous, Spelled;
    forall k | 0 <= k < |notes|
      ensures answer.proofs[k].outputIndex.Some? && answer.proofs[k].outputIndex.value < |rows|
      ensures Leaves(rows)[answer.proofs[k].outputIndex.value] == notes[k].utxo.commitment
    {
      AcceptedIsAbout(notes[k], asked[k], answer.proofs[k]);
      FoundIffStored(PairHash(poseidon), rows, asked[k], answer.proofs[k]);
    }
  }

  /** And for an ambiguous text there is another element whose proofs are accepted as well. */
  lemma AmbiguousIsConfused(note: SelectedNote) returns (hex: string)
    requires Spelled(note) && Ambiguous(note.commitment)
    ensures IsHexField(hex) && ParseNat(16, hex) != note.utxo.commitment
    ensures forall proof: CommitmentProof ::
              proof.commitmentHex == hex && HexFieldToDecimal(hex) == Success(proof.commitment) && proof.found && proof.outputIndex.Some? ==>
                ProofMatches(note, proof)
  {
    hide NormalizeFieldToHex, ParseNat, PrintHex64, Pow, HexFieldValue, PrintNat, HexFieldToDecimal, FromBE;
    var text := note.commitment;
    AmbiguousReadings(text);
    if text == PrintNat(10, note.utxo.commitment) {
      hex := text;
      CommitmentSpelling(note);
    } else {
      hex := PrintHex64(ParseNat(10, text));
      HexSpelling(note.utxo.commitment);
      HexToDecimal(hex);
      PrintParse(10, text);
    }
  }

  // The two readings of an ambiguous text.
  lemma AmbiguousReadings(text: string)
    requires Ambiguous(text)
    ensures ParseNat(10, text) != ParseNat(16, text) && IsHexField(text) && CanonicalNumeral(text)
    ensures IsHexField(PrintHex64(ParseNat(10, text))) && ParseNat(16, PrintHex64(ParseNat(10, text))) == ParseNat(10, text)
  {
    hide Pow, FromBE, PrintHex64;
    assert CharDigit(text[0]) > 0;
    HexReadingIsLarger(Digits(text));
    FromBEBound(16, Digits(text));
    PrintedHex(ParseNat(10, text));
  }

  /** The excluded case: the request of a 64-digit commitment names another field element, and the
      answer is about that one. */
  lemma MisreadCommitment(poseidon: Poseidon, rows: seq<OutputRow>, note: SelectedNote, hex: string, proof: CommitmentProof)
    requires Servable(rows) && HexRows(rows) && note.commitment == PrintNat(10, note.utxo.commitment)
    requires |note.commitment| == HEX_DIGITS && NormalizeFieldToHex(note.commitment) == Success(hex)
    requires ProofFor(PairHash(poseidon), rows, PaddedRoot(PairHash(poseidon), MERKLE_TREE_HEIGHT, Leaves(rows)), hex, proof)
    ensures ParseNat(16, hex) != note.utxo.commitment
    ensures ProofMatches(note, proof) <==> exists i :: 0 <= i < |rows| && rows[i].commitment == hex
    ensures ProofMatches(note, proof) ==> Leaves(rows)[proof.outputIndex.value] == ParseNat(16, hex)
  {
    hide PaddedRoot, NormalizeFieldToHex, PathOf, PrintHex64, HexFieldValue, PrintNat, Pow, HexFieldToDecimal, FromBE, PairHash;
    CommitmentSpelling(note);
    DecimalOf(note.commitment);
    assert note.commitment[0] != '0' && CharDigit(note.commitment[0]) < 10;
    HexReadingIsLarger(Digits(note.commitment));
    forall i | 0 <= i < |rows| && rows[i].commitment == hex
      ensures Leaves(rows)[i] == ParseNat(16, hex)
    {
      HexIsKept(hex);
    }
  }
}
