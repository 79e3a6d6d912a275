// The 49-byte note payload that is encrypted into an output, the random field elements that blind
// it, and the byte order of a flattened Groth16 proof.
module OutputPayload {
  import opened Wrappers
  import opened Numerals
  import opened FieldCodec

  const U64_MAX: nat := 0xffff_ffff_ffff_ffff
  const PAYLOAD_BYTES := 49

  datatype Payload = Payload(amountLamports: nat, index: nat, blinding: nat)

  datatype PayloadError = BadPayload | BadPayloadLength | UnsupportedAsset | IndexTooLarge | BlindingNotAField
    | NoNonzeroElement

  // outputPayloadSchema
  predicate Encodable(p: Payload) {
    p.amountLamports <= U64_MAX && p.index <= MAX_SAFE_INTEGER && p.blinding < FIELD_SIZE
  }

  function PayloadBytes(p: Payload): (bytes: seq<byte>)
    ensures |bytes| == PAYLOAD_BYTES
  {
    [0] + ToLE(256, p.amountLamports, U64_BYTES) + ToLE(256, p.index, U64_BYTES) + FieldBytes(p.blinding)
  }

  // DataView.setBigUint64(at, value, true)
  method SetBigUint64(bytes: array<byte>, at: nat, value: nat)
    requires at + 8 <= bytes.Length
    modifies bytes
    ensures bytes[..] == old(bytes[..at]) + ToLE(256, value, U64_BYTES) + old(bytes[at + 8..])
  {
    var word := ToLE(256, value, U64_BYTES);
    forall i | 0 <= i < 8 {
      bytes[at + i] := word[i];
    }
  }

  method EncodeOutputPayload(p: Payload) returns (r: Result<seq<byte>, PayloadError>)
    ensures r.Success? <==> Encodable(p)
    ensures r.Success? ==> r.value == PayloadBytes(p)
  {
    if !Encodable(p) {
      return Failure(BadPayload);
    }
    var bytes := new byte[PAYLOAD_BYTES](i => 0);
    bytes[0] := 0;
    SetBigUint64(bytes, 1, p.amountLamports);
    SetBigUint64(bytes, 9, p.index);
    var blinding := FieldBytes(p.blinding);
    forall i | 0 <= i < 32 {
      bytes[17 + i] := blinding[i];
    }
    return Success(bytes[..]);
  }

  function ParseCompactPayload(payload: seq<byte>): Result<Payload, PayloadError> {
    if |payload| != PAYLOAD_BYTES then Failure(BadPayloadLength)
    else if payload[0] != 0 then Failure(UnsupportedAsset)
    else
      var index := FromLE(256, payload[9..17]);
      if index > MAX_SAFE_INTEGER then Failure(IndexTooLarge)
      else
        var blinding := FieldOfBytes(payload[17..49]);
        if blinding.Failure? then Failure(BlindingNotAField)
        else Success(Payload(FromLE(256, payload[1..9]), index, blinding.value))
  }

  /** Every encodable payload is read back unchanged. */
  lemma PayloadRoundTrip(p: Payload)
    requires Encodable(p)
    ensures ParseCompactPayload(PayloadBytes(p)) == Success(p)
  {
    hide ToLE, FromLE, FieldBytes, FieldOfBytes, Pow, FieldBytesToDecimal;
    var bytes := PayloadBytes(p);
    assert bytes[1..9] == ToLE(256, p.amountLamports, U64_BYTES);
    assert bytes[9..17] == ToLE(256, p.index, U64_BYTES);
    assert bytes[17..49] == FieldBytes(p.blinding);
    FieldSizeBounds();
    LERoundTrip(256, p.amountLamports, U64_BYTES);
    LERoundTrip(256, p.index, U64_BYTES);
    FieldBytesRoundTrip(p.blinding);
  }

  lemma WordOfBytes(word: seq<byte>)
    requires |word| == 8
    ensures FromLE(256, word) <= U64_MAX && ToLE(256, FromLE(256, word), U64_BYTES) == word
  {
    LEOfDigits(256, word);
    FromLEBound(256, word);
    Pow256To8();
  }

  lemma CutPayload(bytes: seq<byte>)
    requires |bytes| == PAYLOAD_BYTES
    ensures bytes == [bytes[0]] + bytes[1..9] + bytes[9..17] + bytes[17..49]
  {
  }

  // A byte string that parses is the encoding of the payload it parses to.
  lemma ParsedIsEncoding(bytes: seq<byte>)
    requires ParseCompactPayload(bytes).Success?
    ensures Encodable(ParseCompactPayload(bytes).value)
    ensures bytes == PayloadBytes(ParseCompactPayload(bytes).value)
  {
    WordOfBytes(bytes[1..9]);
    WordOfBytes(bytes[9..17]);
    FieldOfBytesExact(bytes[17..49]);
    CutPayload(bytes);
    var p := ParseCompactPayload(bytes).value;
    assert ToLE(256, p.amountLamports, U64_BYTES) == bytes[1..9];
    assert ToLE(256, p.index, U64_BYTES) == bytes[9..17];
    assert FieldBytes(p.blinding) == bytes[17..49];
  }

  /** A byte string parses exactly when it is the encoding of an encodable payload. */
  lemma ParsedPayloadsAreEncodings(bytes: seq<byte>)
    ensures ParseCompactPayload(bytes).Success? <==> exists p :: Encodable(p) && bytes == PayloadBytes(p)
  {
    if ParseCompactPayload(bytes).Success? {
      ParsedIsEncoding(bytes);
    }
    if p :| Encodable(p) && bytes == PayloadBytes(p) {
      PayloadRoundTrip(p);
    }
  }

  predicate FirstNonzero(draws: seq<seq<byte>>, k: nat)
    requires k < |draws|
  {
    FromBE(256, draws[k]) > 0 && forall j :: 0 <= j < k ==> FromBE(256, draws[j]) == 0
  }

  /** `createRandomFieldElement`: the first non-zero of at most sixteen 31-byte draws, always a
      field element; it fails only when all sixteen draws are zero. */
  method CreateRandomFieldElement(draws: seq<seq<byte>>) returns (r: Result<nat, PayloadError>)
    requires |draws| == 16 && forall k :: 0 <= k < 16 ==> |draws[k]| == 31
    ensures r.Success? ==> 0 < r.value < FIELD_SIZE
    ensures r.Success? ==> exists k :: 0 <= k < 16 && FirstNonzero(draws, k) && r.value == FromBE(256, draws[k])
    ensures r.Failure? <==> forall k :: 0 <= k < 16 ==> FromBE(256, draws[k]) == 0
  {
    for attempt := 0 to 16
      invariant forall k :: 0 <= k < attempt ==> FromBE(256, draws[k]) == 0
    {
      var value := BytesToBigInt(draws[attempt]);
      if value > 0 {
        FieldSizeBounds();
        assert FirstNonzero(draws, attempt);
        return Success(value);
      }
    }
    return Failure(NoNonzeroElement);
  }

  // ---- proof-runner.ts ----

  function ToLittleEndianFieldBytes(n: nat): seq<byte> {
    Reverse(FieldBytes(n))
  }

  function FlattenG2ProofCoordinates(first: seq<byte>, second: seq<byte>): seq<byte> {
    Reverse(first + second)
  }

  /** The two reversals swap the coordinates of a G2 point and leave each big-endian. */
  lemma G2CoordinatesAreSwapped(c0: nat, c1: nat)
    ensures FlattenG2ProofCoordinates(ToLittleEndianFieldBytes(c0), ToLittleEndianFieldBytes(c1))
         == FieldBytes(c1) + FieldBytes(c0)
  {
    var flat := FlattenG2ProofCoordinates(ToLittleEndianFieldBytes(c0), ToLittleEndianFieldBytes(c1));
    forall i | 0 <= i < 64
      ensures flat[i] == (FieldBytes(c1) + FieldBytes(c0))[i]
    {
    }
  }
}
