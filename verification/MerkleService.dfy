// Merkle paths and proofs served from the stored outputs.
module MerkleService {
  import opened Wrappers
  import opened Numerals
  import opened Text
  import opened FieldHex
  import opened Sorting
  import opened PoolParser
  import opened PoolTables
  import opened MerkleTrees
  import opened MerkleProofs

  datatype ServiceError = OutputsNotContiguous | BadCommitment | IndexOutOfRange | TreeError(error: MerkleError)

  datatype MerkleState = MerkleState(treeHeight: nat, root: Field, nextIndex: nat)

  datatype OutputPath = OutputPath(
    outputIndex: nat, nextIndex: nat, root: Field, commitment: string, commitmentHex: string,
    pathElements: seq<Field>, pathIndices: seq<int>)

  datatype CommitmentProof = CommitmentProof(
    commitment: string, commitmentHex: string, found: bool, outputIndex: Option<nat>,
    pathElements: seq<Field>, pathIndices: seq<int>)

  datatype ProofAnswer = ProofAnswer(treeHeight: nat, root: Field, nextIndex: nat, proofs: seq<CommitmentProof>)

  // ---- Contiguity ----

  predicate ContiguousFrom(rows: seq<OutputRow>, i: nat) {
    forall k :: i <= k < |rows| ==> rows[k].outputIndex == k
  }

  method EnsureContiguousOutputs(rows: seq<OutputRow>) returns (contiguous: bool)
    ensures contiguous <==> ContiguousFrom(rows, 0)
  {
    for index := 0 to |rows|
      invariant forall k :: 0 <= k < index ==> rows[k].outputIndex == k
    {
      if rows[index].outputIndex != index {
        return false;
      }
    }
    return true;
  }

  ghost predicate HasOutput(table: seq<OutputRow>, programId: string, k: nat) {
    exists row :: row in table && row.programId == programId && row.outputIndex == k
  }

  /** The check passes exactly when the stored indexes of the program are 0, 1, 2, ... without a
      gap. */
  lemma ContiguousIffDense(table: seq<OutputRow>, programId: string)
    requires UniqueKeys(OutputsClash, table)
    ensures ContiguousFrom(ListOutputsForTree(table, programId), 0) <==>
            forall k :: 0 <= k < OutputCount(table, programId) ==> HasOutput(table, programId, k)
  {
    hide ListOutputsForTree, OutputCount, UniqueKeys;
    var rows := ListOutputsForTree(table, programId);
    TreeRowsAreExact(table, programId);
    DenseIffPositions(OutputIndexOf, rows);
    forall k: nat
      ensures HasKey(OutputIndexOf, rows, k) <==> HasOutput(table, programId, k)
    {
      if HasKey(OutputIndexOf, rows, k) {
        var row :| row in rows && OutputIndexOf(row) == k;
        assert row in table;
      }
      if HasOutput(table, programId, k) {
        var row :| row in table && row.programId == programId && row.outputIndex == k;
        assert row in rows && OutputIndexOf(row) == k;
      }
    }
    assert forall k :: 0 <= k < |rows| ==> OutputIndexOf(rows[k]) == rows[k].outputIndex;
  }

  // ---- Building the tree ----

  predicate ValidCommitments(rows: seq<OutputRow>) {
    forall i :: 0 <= i < |rows| ==> HexFieldValue(rows[i].commitment).Success?
  }

  function Leaves(rows: seq<OutputRow>): (leaves: seq<Field>)
    requires ValidCommitments(rows)
    ensures |leaves| == |rows|
  {
    seq(|rows|, i requires 0 <= i < |rows| => HexFieldValue(rows[i].commitment).value)
  }

  // The rows can be served.
  predicate Servable(rows: seq<OutputRow>) {
    ContiguousFrom(rows, 0) && ValidCommitments(rows) && |rows| <= Pow2(MERKLE_TREE_HEIGHT)
  }

  method ParseCommitments(rows: seq<OutputRow>) returns (r: Result<seq<Field>, ServiceError>)
    ensures r.Success? <==> ValidCommitments(rows)
    ensures r.Success? ==> r.value == Leaves(rows)
  {
    var commitments: seq<Field> := [];
    for i := 0 to |rows|
      invariant |commitments| == i
      invariant forall k :: 0 <= k < i ==> HexFieldValue(rows[k].commitment) == Success(commitments[k])
    {
      var value := HexFieldValue(rows[i].commitment);
      if value.Failure? {
        return Failure(BadCommitment);
      }
      commitments := commitments + [value.value];
    }
    return Success(commitments);
  }

  method BuildTree(hash: Hash, rows: seq<OutputRow>) returns (r: Result<MerkleTree, ServiceError>)
    ensures r.Success? <==> Servable(rows)
    ensures r.Success? ==>
              && fresh(r.value) && r.value.Valid() && r.value.Leaves() == Leaves(rows)
              && r.value.height == MERKLE_TREE_HEIGHT && r.value.hash == hash
  {
    var contiguous := EnsureContiguousOutputs(rows);
    if !contiguous {
      return Failure(OutputsNotContiguous);
    }
    var commitments :- ParseCommitments(rows);
    var tree := NewMerkleTree(MERKLE_TREE_HEIGHT, hash, commitments);
    match tree
    case Failure(error) => return Failure(TreeError(error));
    case Success(built) => return Success(built);
  }

  method GetState(hash: Hash, table: seq<OutputRow>, programId: string) returns (r: Result<MerkleState, ServiceError>)
    ensures r.Success? <==> Servable(ListOutputsForTree(table, programId))
    ensures r.Success? ==>
              && r.value.root == PaddedRoot(hash, MERKLE_TREE_HEIGHT, Leaves(ListOutputsForTree(table, programId)))
              && r.value.nextIndex == |ListOutputsForTree(table, programId)|
              && r.value.treeHeight == MERKLE_TREE_HEIGHT
  {
    hide ListOutputsForTree, Pow2, PaddedRoot;
    var tree :- BuildTree(hash, ListOutputsForTree(table, programId));
    return Success(MerkleState(MERKLE_TREE_HEIGHT, tree.Root(), tree.NextIndex()));
  }

  // None: there is no such output yet; this is answered before the rows are checked.
  method GetPath(hash: Hash, table: seq<OutputRow>, programId: string, outputIndex: int)
    returns (r: Result<Option<OutputPath>, ServiceError>)
    ensures var rows := ListOutputsForTree(table, programId);
      && (r.Success? && r.value.None? <==> |rows| <= outputIndex < Pow2(MERKLE_TREE_HEIGHT) && outputIndex >= 0)
      && (r.Success? && r.value.Some? <==> 0 <= outputIndex < |rows| && Servable(rows))
      && (r.Success? && r.value.Some? ==>
            && var path := r.value.value;
            && path.outputIndex == outputIndex && path.nextIndex == |rows|
            && path.commitmentHex == rows[outputIndex].commitment
            && path.commitment == PrintNat(10, Leaves(rows)[outputIndex])
            && PathOf(hash, MERKLE_TREE_HEIGHT, Leaves(rows), outputIndex,
                      MerklePath(path.root, path.pathElements, path.pathIndices)))
  {
    hide ListOutputsForTree, Pow2, PaddedRoot, PathOf, HexFieldValue, PrintNat;
    if outputIndex < 0 || outputIndex >= Pow2(MERKLE_TREE_HEIGHT) {
      return Failure(IndexOutOfRange);
    }
    var rows := ListOutputsForTree(table, programId);
    if outputIndex >= |rows| {
      return Success(None);
    }
    var tree :- BuildTree(hash, rows);
    var path := tree.Path(outputIndex);
    return Success(Some(OutputPath(rows[outputIndex].outputIndex, tree.NextIndex(), path.value.root,
                                   PrintNat(10, Leaves(rows)[outputIndex]), rows[outputIndex].commitment,
                                   path.value.pathElements, path.value.pathIndices)));
  }

  // ---- Proofs by commitment ----

  // The last row with the commitment: later entries of a Map replace earlier ones.
  function LastRow(rows: seq<OutputRow>, hex: string, n: nat): (r: Option<nat>)
    requires n <= |rows|
    ensures r.Some? <==> exists i :: 0 <= i < n && rows[i].commitment == hex
    ensures r.Some? ==> r.value < n && rows[r.value].commitment == hex
                        && forall i :: r.value < i < n ==> rows[i].commitment != hex
    decreases n
  {
    if n == 0 then None
    else if rows[n - 1].commitment == hex then Some(n - 1)
    else LastRow(rows, hex, n - 1)
  }

  function Zeros26(): (zeros: seq<nat>)
    ensures |zeros| == MERKLE_TREE_HEIGHT
  {
    Zeros(MERKLE_TREE_HEIGHT)
  }

  /** The answer for one requested commitment, given in hex. */
  ghost predicate ProofFor(hash: Hash, rows: seq<OutputRow>, root: Field, hex: string, proof: CommitmentProof)
    requires ValidCommitments(rows)
  {
    && proof.commitmentHex == hex
    && HexFieldToDecimal(hex) == Success(proof.commitment)
    && proof.found == LastRow(rows, hex, |rows|).Some?
    && proof.outputIndex == LastRow(rows, hex, |rows|)
    && (proof.found ==>
          PathOf(hash, MERKLE_TREE_HEIGHT, Leaves(rows), proof.outputIndex.value,
                 MerklePath(root, proof.pathElements, proof.pathIndices)))
    && (!proof.found ==> proof.pathElements == Zeros26() && proof.pathIndices == Zeros26())
  }

  predicate ValidRequests(commitments: seq<string>) {
    forall k :: 0 <= k < |commitments| ==> NormalizeFieldToHex(commitments[k]).Success?
  }

  method NormalizeRequests(commitments: seq<string>) returns (r: Result<seq<string>, ServiceError>)
    ensures r.Success? <==> ValidRequests(commitments)
    ensures r.Success? ==>
              |r.value| == |commitments| && forall k :: 0 <= k < |commitments| ==> NormalizeFieldToHex(commitments[k]) == Success(r.value[k])
  {
    hide NormalizeFieldToHex;
    var requested := [];
    for k := 0 to |commitments|
      invariant |requested| == k
      invariant forall j :: 0 <= j < k ==> NormalizeFieldToHex(commitments[j]) == Success(requested[j])
    {
      var normalized := NormalizeFieldToHex(commitments[k]);
      if normalized.Failure? {
        return Failure(BadCommitment);
      }
      requested := requested + [normalized.value];
    }
    return Success(requested);
  }

  // new Map(rows.map((row) => [row.commitment, row]))
  method RowByCommitment(rows: seq<OutputRow>) returns (byCommitment: map<string, OutputRow>)
    ensures forall hex :: hex in byCommitment <==> LastRow(rows, hex, |rows|).Some?
    ensures forall hex :: hex in byCommitment ==> byCommitment[hex] == rows[LastRow(rows, hex, |rows|).value]
  {
    byCommitment := map[];
    for i := 0 to |rows|
      invariant forall hex :: hex in byCommitment <==> LastRow(rows, hex, i).Some?
      invariant forall hex :: hex in byCommitment ==> byCommitment[hex] == rows[LastRow(rows, hex, i).value]
    {
      byCommitment := byCommitment[rows[i].commitment := rows[i]];
    }
  }

  method GetProofByCommitments(hash: Hash, table: seq<OutputRow>, programId: string, commitments: seq<string>)
    returns (r: Result<ProofAnswer, ServiceError>)
    ensures r.Success? <==> ValidRequests(commitments) && Servable(ListOutputsForTree(table, programId))
    ensures r.Success? ==>
              var rows := ListOutputsForTree(table, programId);
              && r.value.treeHeight == MERKLE_TREE_HEIGHT && r.value.nextIndex == |rows|
              && r.value.root == PaddedRoot(hash, MERKLE_TREE_HEIGHT, Leaves(rows))
              && |r.value.proofs| == |commitments|
              && forall k :: 0 <= k < |commitments| ==>
                   ProofFor(hash, rows, r.value.root, NormalizeFieldToHex(commitments[k]).value, r.value.proofs[k])
  {
    hide ListOutputsForTree, Pow2, PaddedRoot, PathOf, NormalizeFieldToHex, HexFieldToDecimal, HexFieldValue, LastRow, IsHexField;
    var requested :- NormalizeRequests(commitments);
    var rows := ListOutputsForTree(table, programId);
    var tree :- BuildTree(hash, rows);
    var byCommitment := RowByCommitment(rows);
    var root := tree.Root();
    var proofs: seq<CommitmentProof> := [];
    for k := 0 to |requested|
      invariant tree.Valid() && tree.Leaves() == Leaves(rows) && tree.Root() == root
      invariant |proofs| == k
      invariant forall j :: 0 <= j < k ==> ProofFor(hash, rows, root, requested[j], proofs[j])
    {
      var hex := requested[k];
      NormalizedIsHex(commitments[k]);
      HexToDecimal(hex);
      var commitment := HexFieldToDecimal(hex).value;
      if hex in byCommitment {
        var outputIndex := byCommitment[hex].outputIndex;
        LastRowIsRow(rows, hex);
        var path := tree.Path(outputIndex);
        PathRoot(hash, Leaves(rows), outputIndex, path.value);
        proofs := proofs + [CommitmentProof(commitment, hex, true, Some(outputIndex), path.value.pathElements, path.value.pathIndices)];
      } else {
        proofs := proofs + [CommitmentProof(commitment, hex, false, None, Zeros26(), Zeros26())];
      }
    }
    return Success(ProofAnswer(MERKLE_TREE_HEIGHT, root, tree.NextIndex(), proofs));
  }

  lemma HexToDecimal(hex: string)
    requires IsHexField(hex)
    ensures HexFieldToDecimal(hex) == Success(PrintNat(10, ParseNat(16, hex)))
  {
    HexIsKept(hex);
  }

  lemma LastRowIsRow(rows: seq<OutputRow>, hex: string)
    requires ContiguousFrom(rows, 0) && LastRow(rows, hex, |rows|).Some?
    ensures LastRow(rows, hex, |rows|).value < |rows|
    ensures rows[LastRow(rows, hex, |rows|).value].outputIndex == LastRow(rows, hex, |rows|).value
  {
  }

  lemma PathRoot(hash: Hash, leaves: seq<Field>, index: nat, p: MerklePath)
    requires PathOf(hash, MERKLE_TREE_HEIGHT, leaves, index, p)
    ensures p.root == PaddedRoot(hash, MERKLE_TREE_HEIGHT, leaves)
  {
  }

  // ---- What a proof proves ----

  /** A commitment is found exactly when some row has it, and a found proof carries that very
      commitment from its output index to the returned root, duplicates or not. */
  lemma ProofVerifies(hash: Hash, rows: seq<OutputRow>, hex: string, proof: CommitmentProof)
    requires Servable(rows) && IsHexField(hex)
    requires ProofFor(hash, rows, PaddedRoot(hash, MERKLE_TREE_HEIGHT, Leaves(rows)), hex, proof)
    ensures proof.found <==> exists i :: 0 <= i < |rows| && rows[i].commitment == hex
    ensures proof.found ==>
              && proof.outputIndex.Some? && proof.outputIndex.value < |rows|
              && |proof.pathElements| == |proof.pathIndices| == MERKLE_TREE_HEIGHT
              && Fold(hash, ParseNat(16, hex), proof.pathElements, proof.pathIndices)
                 == PaddedRoot(hash, MERKLE_TREE_HEIGHT, Leaves(rows))
              && Position(proof.pathIndices) == proof.outputIndex.value
  {
    hide PaddedRoot, Fold, Position, HexFieldToDecimal, HexFieldValue, ParseNat, Pow2;
    if proof.found {
      var index := proof.outputIndex.value;
      var path := MerklePath(PaddedRoot(hash, MERKLE_TREE_HEIGHT, Leaves(rows)), proof.pathElements, proof.pathIndices);
      DeployedHeightFits();
      HexIsKept(hex);
      assert Leaves(rows)[index] == ParseNat(16, hex);
      PathFoldsToRoot(hash, MERKLE_TREE_HEIGHT, Leaves(rows), index, path);
      IndicesSpellPosition(hash, MERKLE_TREE_HEIGHT, Leaves(rows), index, path);
    }
  }

  /** Rows are stored in lower-case hex.  A proof is then found exactly when some row has the value
      of the hex text it was asked for, and names a row with that value. */
  lemma FoundIffStored(hash: Hash, rows: seq<OutputRow>, hex: string, proof: CommitmentProof)
    requires Servable(rows) && IsHexField(hex) && forall i :: 0 <= i < |rows| ==> IsHexField(rows[i].commitment)
    requires ProofFor(hash, rows, PaddedRoot(hash, MERKLE_TREE_HEIGHT, Leaves(rows)), hex, proof)
    ensures proof.found <==> ParseNat(16, hex) in Leaves(rows)
    ensures proof.found ==>
              proof.outputIndex.Some? && proof.outputIndex.value < |rows| && Leaves(rows)[proof.outputIndex.value] == ParseNat(16, hex)
  {
    hide PaddedRoot, HexFieldToDecimal, PathOf, ParseNat, Pow2, IsHexField, HexFieldValue;
    forall i | 0 <= i < |rows|
      ensures Leaves(rows)[i] == ParseNat(16, hex) <==> rows[i].commitment == hex
    {
      HexIsKept(rows[i].commitment);
      if Leaves(rows)[i] == ParseNat(16, hex) {
        HexDigitsUnique(rows[i].commitment, hex);
      }
    }
  }

  /** A decimal commitment is found exactly when some row has its value, unless it is spelled with
      64 digits. */
  lemma DecimalIsFoundIff(hash: Hash, rows: seq<OutputRow>, decimal: string, hex: string, proof: CommitmentProof)
    requires Servable(rows) && forall i :: 0 <= i < |rows| ==> IsHexField(rows[i].commitment)
    requires IsNumeral(10, decimal) && decimal != [] && |decimal| != HEX_DIGITS
    requires NormalizeFieldToHex(decimal) == Success(hex)
    requires ProofFor(hash, rows, PaddedRoot(hash, MERKLE_TREE_HEIGHT, Leaves(rows)), hex, proof)
    ensures proof.found <==> ParseNat(10, decimal) in Leaves(rows)
    ensures proof.found ==> Leaves(rows)[proof.outputIndex.value] == ParseNat(10, decimal)
  {
    hide PaddedRoot, NormalizeFieldToHex, PathOf, ParseNat, PrintHex64, Pow, IsHexField, HexFieldValue, ProofFor, Leaves;
    DecimalOf(decimal);
    PrintedHex(ParseNat(10, decimal));
    FoundIffStored(hash, rows, hex, proof);
  }

  lemma HexDigitsUnique(x: string, y: string)
    requires IsHexField(x) && IsHexField(y) && ParseNat(16, x) == ParseNat(16, y)
    ensures x == y
  {
    CharsOfDigits(16, x);
    CharsOfDigits(16, y);
    BEOfDigits(16, Digits(x));
    BEOfDigits(16, Digits(y));
  }
}
