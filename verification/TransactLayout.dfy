// The native transact instruction: the SDK's encoder and the backend's fixed-offset reader.
module TransactLayout {
  import opened Wrappers
  import opened Numerals
  import opened FieldCodec
  import opened ExtDataPreimage

  function TransactDiscriminator(): (d: seq<byte>)
    ensures |d| == 8
  {
    [217, 149, 130, 143, 221, 52, 252, 119]
  }

  datatype ReadError = EndedUnexpectedly | NotTransact | NotBase58

  // ---- The SDK side ----

  datatype Proof = Proof(
    proofA: seq<byte>, proofB: seq<byte>, proofC: seq<byte>,
    root: seq<byte>, publicAmount: seq<byte>, extDataHash: seq<byte>,
    inputNullifiers: seq<seq<byte>>, outputCommitments: seq<seq<byte>>)

  datatype TransactArgs = TransactArgs(
    proof: Proof, extDataMinified: ExtData, encryptedOutput1: seq<byte>, encryptedOutput2: seq<byte>)

  datatype SdkError = WrongArraySize | NumberOutOfRange

  // fixEncoderSize: cut or zero-pad to the size.
  function FixSize(bytes: seq<byte>, size: nat): (r: seq<byte>)
    ensures |r| == size && forall i :: 0 <= i < size ==> r[i] == if i < |bytes| then bytes[i] else 0
    ensures r == bytes <==> |bytes| == size
  {
    if |bytes| >= size then bytes[..size] else bytes + ZeroBytes(size - |bytes|)
  }

  predicate SdkAccepts(args: TransactArgs) {
    && |args.proof.inputNullifiers| == 2
    && |args.proof.outputCommitments| == 2
    && InI64(args.extDataMinified.extAmount)
    && InU64(args.extDataMinified.fee)
    && |args.encryptedOutput1| <= U32_MAX
    && |args.encryptedOutput2| <= U32_MAX
  }

  function EncodeProof(p: Proof): seq<byte>
    requires |p.inputNullifiers| == 2 && |p.outputCommitments| == 2
  {
    FixSize(p.proofA, 64) + FixSize(p.proofB, 128) + FixSize(p.proofC, 64)
    + FixSize(p.root, 32) + FixSize(p.publicAmount, 32) + FixSize(p.extDataHash, 32)
    + FixSize(p.inputNullifiers[0], 32) + FixSize(p.inputNullifiers[1], 32)
    + FixSize(p.outputCommitments[0], 32) + FixSize(p.outputCommitments[1], 32)
  }

  function EncodeTransact(args: TransactArgs): Result<seq<byte>, SdkError> {
    if |args.proof.inputNullifiers| != 2 || |args.proof.outputCommitments| != 2 then Failure(WrongArraySize)
    else if !SdkAccepts(args) then Failure(NumberOutOfRange)
    else Success(FixSize(TransactDiscriminator(), 8) + EncodeProof(args.proof)
                 + (I64Le(args.extDataMinified.extAmount) + U64Le(args.extDataMinified.fee))
                 + (Vec(args.encryptedOutput1) + Vec(args.encryptedOutput2)))
  }

  // ---- The backend side ----

  class ByteReader {
    const bytes: seq<byte>
    var offset: nat

    ghost predicate Valid()
      reads this
    {
      offset <= |bytes|
    }

    constructor (bytes: seq<byte>)
      ensures Valid() && this.bytes == bytes && offset == 0
    {
      this.bytes := bytes;
      offset := 0;
    }

    // Either reads exactly `length` bytes and advances past them, or fails and stays.
    method ReadBytes(length: nat) returns (r: Result<seq<byte>, ReadError>)
      requires Valid()
      modifies this
      ensures Valid()
      ensures r.Success? <==> old(offset) + length <= |bytes|
      ensures r.Success? ==> r.value == bytes[old(offset)..old(offset) + length] && offset == old(offset) + length
      ensures r.Failure? ==> r.error == EndedUnexpectedly && offset == old(offset)
    {
      var end := offset + length;
      if end > |bytes| {
        return Failure(EndedUnexpectedly);
      }
      var value := bytes[offset..end];
      offset := end;
      return Success(value);
    }
  }

  datatype ParsedTransact = ParsedTransact(instructionIndex: nat, root: string, inputNullifiers: seq<string>)

  // The last byte the reader touches is the end of the second input nullifier.
  const NULLIFIERS_END := 424

  /** What the reader answers, by absolute offsets. */
  function TransactAt(data: seq<byte>, instructionIndex: nat): Result<ParsedTransact, ReadError> {
    if |data| < 8 then Failure(EndedUnexpectedly)
    else if data[..8] != TransactDiscriminator() then Failure(NotTransact)
    else if |data| < NULLIFIERS_END then Failure(EndedUnexpectedly)
    else Success(ParsedTransact(instructionIndex, BytesToHex(data[264..296]),
                                [BytesToHex(data[360..392]), BytesToHex(data[392..424])]))
  }

  // `data` is the base58-decoded instruction data, or None when it does not decode.
  method ParseNativeTransactInstruction(data: Option<seq<byte>>, instructionIndex: nat)
    returns (r: Result<ParsedTransact, ReadError>)
    ensures r == if data.None? then Failure(NotBase58) else TransactAt(data.value, instructionIndex)
  {
    hide BytesToHex, TransactDiscriminator;
    if data.None? {
      return Failure(NotBase58);
    }
    var reader := new ByteReader(data.value);
    var discriminator :- reader.ReadBytes(8);
    if discriminator != TransactDiscriminator() {
      return Failure(NotTransact);
    }
    var proofA :- reader.ReadBytes(64);
    var proofB :- reader.ReadBytes(128);
    var proofC :- reader.ReadBytes(64);
    var root :- reader.ReadBytes(32);
    var publicAmount :- reader.ReadBytes(32);
    var extDataHash :- reader.ReadBytes(32);
    var nullifier0 :- reader.ReadBytes(32);
    var nullifier1 :- reader.ReadBytes(32);
    return Success(ParsedTransact(instructionIndex, BytesToHex(root), [BytesToHex(nullifier0), BytesToHex(nullifier1)]));
  }

  /** What the SDK encodes: two nullifiers and two commitments, and numbers of their width. */
  lemma EncodesIff(args: TransactArgs)
    ensures EncodeTransact(args).Success? <==>
              && |args.proof.inputNullifiers| == |args.proof.outputCommitments| == 2
              && -0x8000_0000_0000_0000 <= args.extDataMinified.extAmount < 0x8000_0000_0000_0000
              && 0 <= args.extDataMinified.fee < 0x1_0000_0000_0000_0000
              && |args.encryptedOutput1| < 0x1_0000_0000 && |args.encryptedOutput2| < 0x1_0000_0000
    ensures EncodeTransact(args) == Failure(WrongArraySize) <==>
              !(|args.proof.inputNullifiers| == 2 && |args.proof.outputCommitments| == 2)
    ensures EncodeTransact(args).Success? ==> SdkAccepts(args)
  {
    hide EncodeProof, TransactDiscriminator, I64Le, U64Le, Vec, FixSize;
  }

  lemma EncodedProof(p: Proof, data: seq<byte>, rest: seq<byte>)
    requires |p.inputNullifiers| == 2 && |p.outputCommitments| == 2
    requires |data| >= 8 && data[8..] == EncodeProof(p) + rest
    ensures |data| >= 488 && data[488..] == rest
    ensures data[8..72] == FixSize(p.proofA, 64) && data[72..200] == FixSize(p.proofB, 128) && data[200..264] == FixSize(p.proofC, 64)
    ensures data[264..296] == FixSize(p.root, 32)
    ensures data[296..328] == FixSize(p.publicAmount, 32) && data[328..360] == FixSize(p.extDataHash, 32)
    ensures data[360..392] == FixSize(p.inputNullifiers[0], 32) && data[392..424] == FixSize(p.inputNullifiers[1], 32)
    ensures data[424..456] == FixSize(p.outputCommitments[0], 32) && data[456..488] == FixSize(p.outputCommitments[1], 32)
  {
    hide FixSize;
    var d9 := FixSize(p.outputCommitments[1], 32) + rest;
    var d8 := FixSize(p.outputCommitments[0], 32) + d9;
    var d7 := FixSize(p.inputNullifiers[1], 32) + d8;
    var d6 := FixSize(p.inputNullifiers[0], 32) + d7;
    var d5 := FixSize(p.extDataHash, 32) + d6;
    var d4 := FixSize(p.publicAmount, 32) + d5;
    var d3 := FixSize(p.root, 32) + d4;
    var d2 := FixSize(p.proofC, 64) + d3;
    var d1 := FixSize(p.proofB, 128) + d2;
    ProofChunks(p, rest);
    Peel(data, 8, FixSize(p.proofA, 64), d1);
    Peel(data, 72, FixSize(p.proofB, 128), d2);
    Peel(data, 200, FixSize(p.proofC, 64), d3);
    Peel(data, 264, FixSize(p.root, 32), d4);
    Peel(data, 296, FixSize(p.publicAmount, 32), d5);
    Peel(data, 328, FixSize(p.extDataHash, 32), d6);
    Peel(data, 360, FixSize(p.inputNullifiers[0], 32), d7);
    Peel(data, 392, FixSize(p.inputNullifiers[1], 32), d8);
    Peel(data, 424, FixSize(p.outputCommitments[0], 32), d9);
    Peel(data, 456, FixSize(p.outputCommitments[1], 32), rest);
  }

  lemma ProofChunks(p: Proof, rest: seq<byte>)
    requires |p.inputNullifiers| == 2 && |p.outputCommitments| == 2
    ensures EncodeProof(p) + rest
            == FixSize(p.proofA, 64) + (FixSize(p.proofB, 128) + (FixSize(p.proofC, 64)
               + (FixSize(p.root, 32) + (FixSize(p.publicAmount, 32) + (FixSize(p.extDataHash, 32)
               + (FixSize(p.inputNullifiers[0], 32) + (FixSize(p.inputNullifiers[1], 32)
               + (FixSize(p.outputCommitments[0], 32) + (FixSize(p.outputCommitments[1], 32) + rest)))))))))
  {
    hide FixSize;
  }

  /** Where the encoder puts every field: the discriminator, the ten fixed parts of the proof, the
      amount in two's complement, the fee, and the ciphertexts behind their lengths. */
  lemma EncodedFields(args: TransactArgs)
    requires SdkAccepts(args)
    ensures EncodeTransact(args).Success?
    ensures var data, p := EncodeTransact(args).value, args.proof;
      var n1, n2 := |args.encryptedOutput1|, |args.encryptedOutput2|;
      && |data| == 512 + n1 + n2
      && data[..8] == [217, 149, 130, 143, 221, 52, 252, 119]
      && data[8..72] == FixSize(p.proofA, 64) && data[72..200] == FixSize(p.proofB, 128) && data[200..264] == FixSize(p.proofC, 64)
      && data[264..296] == FixSize(p.root, 32)
      && data[296..328] == FixSize(p.publicAmount, 32) && data[328..360] == FixSize(p.extDataHash, 32)
      && data[360..392] == FixSize(p.inputNullifiers[0], 32) && data[392..424] == FixSize(p.inputNullifiers[1], 32)
      && data[424..456] == FixSize(p.outputCommitments[0], 32) && data[456..488] == FixSize(p.outputCommitments[1], 32)
      && FromLE(256, data[488..496])
         == args.extDataMinified.extAmount + (if args.extDataMinified.extAmount < 0 then 0x1_0000_0000_0000_0000 else 0)
      && FromLE(256, data[496..504]) == args.extDataMinified.fee
      && FromLE(256, data[504..508]) == n1 && data[508..508 + n1] == args.encryptedOutput1
      && FromLE(256, data[508 + n1..512 + n1]) == n2 && data[512 + n1..] == args.encryptedOutput2
  {
    hide FixSize, TransactDiscriminator, I64Le, U64Le, Vec, EncodeProof, FromLE, ToLE;
    var data, n1 := EncodeTransact(args).value, |args.encryptedOutput1|;
    var amount, fee := I64Le(args.extDataMinified.extAmount), U64Le(args.extDataMinified.fee);
    var c2 := Vec(args.encryptedOutput2) + [];
    var c1 := Vec(args.encryptedOutput1) + c2;
    var rest := amount + (fee + c1);
    FirstEight();
    assert data == FixSize(TransactDiscriminator(), 8) + (EncodeProof(args.proof) + rest);
    Peel(data, 0, FixSize(TransactDiscriminator(), 8), EncodeProof(args.proof) + rest);
    EncodedProof(args.proof, data, rest);
    NumbersReadBack(args.extDataMinified);
    Peel(data, 488, amount, fee + c1);
    Peel(data, 496, fee, c1);
    PeelVec(data, 504, args.encryptedOutput1, c2);
    PeelVec(data, 508 + n1, args.encryptedOutput2, []);
  }

  lemma FirstEight()
    ensures FixSize(TransactDiscriminator(), 8) == [217, 149, 130, 143, 221, 52, 252, 119]
  {
  }

  /** Whatever the SDK encodes, with ciphertexts of any length, the backend reads without running
      past the end, and it gets the root and the two input nullifiers that were passed exactly
      when these have their proper 32 bytes. */
  lemma ReaderReadsWhatSdkWrites(args: TransactArgs, instructionIndex: nat)
    requires SdkAccepts(args)
    ensures EncodeTransact(args).Success?
    ensures var r := TransactAt(EncodeTransact(args).value, instructionIndex);
      && r.Success?
      && r.value.instructionIndex == instructionIndex
      && |r.value.inputNullifiers| == 2
      && (r.value.root == BytesToHex(args.proof.root) <==> |args.proof.root| == 32)
      && (forall k :: 0 <= k < 2 ==>
            (r.value.inputNullifiers[k] == BytesToHex(args.proof.inputNullifiers[k])
             <==> |args.proof.inputNullifiers[k]| == 32))
  {
    hide EncodeTransact, BytesToHex, FixSize, FromLE;
    EncodedFields(args);
    FixedHex(args.proof.root);
    FixedHex(args.proof.inputNullifiers[0]);
    FixedHex(args.proof.inputNullifiers[1]);
  }

  // Cutting or padding to 32 bytes shows in the hex text unless there are 32 bytes already.
  lemma FixedHex(bytes: seq<byte>)
    ensures BytesToHex(FixSize(bytes, 32)) == BytesToHex(bytes) <==> |bytes| == 32
  {
  }
}
