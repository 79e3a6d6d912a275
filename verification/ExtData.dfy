// The byte string that the client hashes to bind a transaction's external data to its proof.
module ExtDataPreimage {
  import opened Wrappers
  import opened Numerals
  import opened FieldCodec

  const I64_MIN: int := -0x8000_0000_0000_0000
  const I64_MAX: int := 0x7fff_ffff_ffff_ffff
  const U64_MAX: int := 0xffff_ffff_ffff_ffff
  const U32_MAX: int := 0xffff_ffff

  // A decoded account address.
  type Address = s: seq<byte> | |s| == 32 witness ZeroBytes(32)

  // The 32 bytes of the native token's sentinel address.
  function NativeTokenSentinel(): Address {
    ZeroBytes(31) + [1]
  }

  datatype ExtData = ExtData(extAmount: int, fee: int)

  datatype HashInput = HashInput(
    extData: ExtData,
    recipient: Address,
    feeRecipient: Address,
    encryptedOutput1: seq<byte>,
    encryptedOutput2: seq<byte>)

  datatype EncodeError = OutOfRange | EmptyOutput | OutputTooLarge

  predicate InI64(v: int) { I64_MIN <= v <= I64_MAX }
  predicate InU64(v: int) { 0 <= v <= U64_MAX }

  function I64Le(v: int): (bytes: seq<byte>)
    requires InI64(v)
    ensures |bytes| == 8
  {
    ToLE(256, if v < 0 then 0x1_0000_0000_0000_0000 + v else v, U64_BYTES)
  }

  function U64Le(v: int): (bytes: seq<byte>)
    requires InU64(v)
    ensures |bytes| == 8
  {
    ToLE(256, v, U64_BYTES)
  }

  // Borsh: a four-byte length, then the bytes.
  function Vec(bytes: seq<byte>): seq<byte> {
    ToLE(256, |bytes|, U32_BYTES) + bytes
  }

  predicate Encodable(input: HashInput) {
    && InI64(input.extData.extAmount)
    && InU64(input.extData.fee)
    && 0 < |input.encryptedOutput1| <= U32_MAX
    && 0 < |input.encryptedOutput2| <= U32_MAX
  }

  function Preimage(input: HashInput): seq<byte>
    requires Encodable(input)
  {
    input.recipient + (I64Le(input.extData.extAmount) + (Vec(input.encryptedOutput1)
      + (Vec(input.encryptedOutput2) + (U64Le(input.extData.fee) + (input.feeRecipient + NativeTokenSentinel())))))
  }

  method EncodeVec(bytes: seq<byte>) returns (r: Result<seq<byte>, EncodeError>)
    ensures r.Success? <==> |bytes| <= U32_MAX
    ensures r.Success? ==> r.value == Vec(bytes)
  {
    if |bytes| > U32_MAX {
      return Failure(OutputTooLarge);
    }
    var length := EncodeUnsignedLe(|bytes|, U32_BYTES);
    var chunks := [length[..], bytes];
    var vec := ConcatBytes(chunks);
    ConcatFrom(chunks, 0);
    ConcatFrom(chunks, 1);
    assert chunks[0..] == chunks;
    return Success(vec[..]);
  }

  method EncodeI64Le(value: int) returns (r: Result<seq<byte>, EncodeError>)
    ensures r.Success? <==> InI64(value)
    ensures r.Success? ==> r.value == I64Le(value)
  {
    if !InI64(value) {
      return Failure(OutOfRange);
    }
    var bytes := EncodeUnsignedLe(if value < 0 then 0x1_0000_0000_0000_0000 + value else value, U64_BYTES);
    return Success(bytes[..]);
  }

  method EncodeU64Le(value: int) returns (r: Result<seq<byte>, EncodeError>)
    ensures r.Success? <==> InU64(value)
    ensures r.Success? ==> r.value == U64Le(value)
  {
    if !InU64(value) {
      return Failure(OutOfRange);
    }
    var bytes := EncodeUnsignedLe(value, U64_BYTES);
    return Success(bytes[..]);
  }

  /** The serialization inside `hashExtData`.  Its schema makes the same range checks as the
      encoders, so only the check for empty ciphertexts is spelled out. */
  method SerializeExtData(input: HashInput) returns (r: Result<seq<byte>, EncodeError>)
    ensures r.Success? <==> Encodable(input)
    ensures r.Success? ==> r.value == Preimage(input)
  {
    if input.encryptedOutput1 == [] || input.encryptedOutput2 == [] {
      return Failure(EmptyOutput);
    }
    var amount :- EncodeI64Le(input.extData.extAmount);
    var vec1 :- EncodeVec(input.encryptedOutput1);
    var vec2 :- EncodeVec(input.encryptedOutput2);
    var fee :- EncodeU64Le(input.extData.fee);
    PreimageChunks(input);
    var serialized := ConcatBytes([input.recipient, amount, vec1, vec2, fee, input.feeRecipient, NativeTokenSentinel()]);
    return Success(serialized[..]);
  }

  lemma PreimageChunks(input: HashInput)
    requires Encodable(input)
    ensures Concat([input.recipient, I64Le(input.extData.extAmount), Vec(input.encryptedOutput1),
                    Vec(input.encryptedOutput2), U64Le(input.extData.fee), input.feeRecipient, NativeTokenSentinel()])
         == Preimage(input)
  {
    Concat7(input.recipient, I64Le(input.extData.extAmount), Vec(input.encryptedOutput1),
            Vec(input.encryptedOutput2), U64Le(input.extData.fee), input.feeRecipient, NativeTokenSentinel());
  }

  lemma Concat7(c0: seq<byte>, c1: seq<byte>, c2: seq<byte>, c3: seq<byte>, c4: seq<byte>, c5: seq<byte>, c6: seq<byte>)
    ensures Concat([c0, c1, c2, c3, c4, c5, c6]) == c0 + (c1 + (c2 + (c3 + (c4 + (c5 + c6)))))
  {
    assert Concat([c6]) == c6 + Concat([]) == c6;
    ConcatCons(c5, [c6]);
    ConcatCons(c4, [c5, c6]);
    ConcatCons(c3, [c4, c5, c6]);
    ConcatCons(c2, [c3, c4, c5, c6]);
    ConcatCons(c1, [c2, c3, c4, c5, c6]);
    ConcatCons(c0, [c1, c2, c3, c4, c5, c6]);
  }

  lemma ConcatCons(c: seq<byte>, chunks: seq<seq<byte>>)
    ensures Concat([c] + chunks) == c + Concat(chunks)
  {
    assert ([c] + chunks)[1..] == chunks;
  }

  lemma SplitEqual(a: seq<byte>, b: seq<byte>, c: seq<byte>, d: seq<byte>)
    requires |a| == |c| && a + b == c + d
    ensures a == c && b == d
  {
    assert (a + b)[..|a|] == a && (c + d)[..|c|] == c;
    assert (a + b)[|a|..] == b && (c + d)[|c|..] == d;
  }

  lemma I64LeInjective(v: int, w: int)
    requires InI64(v) && InI64(w) && I64Le(v) == I64Le(w)
    ensures v == w
  {
    FieldSizeBounds();
    LERoundTrip(256, if v < 0 then 0x1_0000_0000_0000_0000 + v else v, U64_BYTES);
    LERoundTrip(256, if w < 0 then 0x1_0000_0000_0000_0000 + w else w, U64_BYTES);
  }

  // A length-prefixed vector can be cut off the front of what follows it in only one way.
  lemma VecSplit(xs: seq<byte>, rest: seq<byte>, ys: seq<byte>, rest': seq<byte>)
    requires |xs| <= U32_MAX && |ys| <= U32_MAX && Vec(xs) + rest == Vec(ys) + rest'
    ensures xs == ys && rest == rest'
  {
    var lx, ly := ToLE(256, |xs|, U32_BYTES), ToLE(256, |ys|, U32_BYTES);
    assert Vec(xs) + rest == lx + (xs + rest) && Vec(ys) + rest' == ly + (ys + rest');
    SplitEqual(lx, xs + rest, ly, ys + rest');
    assert Pow(256, 4) == 0x1_0000_0000;
    LERoundTrip(256, |xs|, U32_BYTES);
    LERoundTrip(256, |ys|, U32_BYTES);
    SplitEqual(xs, rest, ys, rest');
  }

  // One part is taken off what stands from position k on.
  lemma Peel(p: seq<byte>, k: nat, part: seq<byte>, rest: seq<byte>)
    requires k <= |p| && p[k..] == part + rest
    ensures k + |part| <= |p| && p[k..k + |part|] == part && p[k + |part|..] == rest
  {
    assert p[k..][..|part|] == part && p[k..][|part|..] == rest;
  }

  lemma LengthPrefix(bytes: seq<byte>)
    requires |bytes| <= U32_MAX
    ensures FromLE(256, ToLE(256, |bytes|, U32_BYTES)) == |bytes|
  {
    assert Pow(256, 4) == 0x1_0000_0000;
    LERoundTrip(256, |bytes|, U32_BYTES);
  }

  // Both numbers, read back.
  lemma NumbersReadBack(ext: ExtData)
    requires InI64(ext.extAmount) && InU64(ext.fee)
    ensures FromLE(256, I64Le(ext.extAmount)) == ext.extAmount + (if ext.extAmount < 0 then 0x1_0000_0000_0000_0000 else 0)
    ensures FromLE(256, U64Le(ext.fee)) == ext.fee
  {
    FieldSizeBounds();
    LERoundTrip(256, if ext.extAmount < 0 then 0x1_0000_0000_0000_0000 + ext.extAmount else ext.extAmount, U64_BYTES);
    LERoundTrip(256, ext.fee, U64_BYTES);
  }

  /** Where each field stands in the preimage and in which form: addresses as they are, numbers
      little-endian, the amount in two's complement, each ciphertext behind its length. */
  lemma PreimageLayout(input: HashInput)
    requires Encodable(input)
    ensures var p, n1, n2 := Preimage(input), |input.encryptedOutput1|, |input.encryptedOutput2|;
      && |p| == 120 + n1 + n2
      && p[0..32] == input.recipient
      && FromLE(256, p[32..40]) == input.extData.extAmount + (if input.extData.extAmount < 0 then 0x1_0000_0000_0000_0000 else 0)
      && FromLE(256, p[40..44]) == n1 && p[44..44 + n1] == input.encryptedOutput1
      && FromLE(256, p[44 + n1..48 + n1]) == n2 && p[48 + n1..48 + n1 + n2] == input.encryptedOutput2
      && FromLE(256, p[48 + n1 + n2..56 + n1 + n2]) == input.extData.fee
      && p[56 + n1 + n2..88 + n1 + n2] == input.feeRecipient
      && p[88 + n1 + n2..] == NativeTokenSentinel()
  {
    hide FromLE, ToLE, I64Le, U64Le, NativeTokenSentinel;
    var p, n1, n2 := Preimage(input), |input.encryptedOutput1|, |input.encryptedOutput2|;
    var p6 := input.feeRecipient + NativeTokenSentinel();
    var p5 := U64Le(input.extData.fee) + p6;
    var p4 := Vec(input.encryptedOutput2) + p5;
    var p3 := Vec(input.encryptedOutput1) + p4;
    var p2 := I64Le(input.extData.extAmount) + p3;
    NumbersReadBack(input.extData);
    Peel(p, 0, input.recipient, p2);
    Peel(p, 32, I64Le(input.extData.extAmount), p3);
    PeelVec(p, 40, input.encryptedOutput1, p4);
    PeelVec(p, 44 + n1, input.encryptedOutput2, p5);
    Peel(p, 48 + n1 + n2, U64Le(input.extData.fee), p6);
    Peel(p, 56 + n1 + n2, input.feeRecipient, NativeTokenSentinel());
  }

  lemma PeelVec(p: seq<byte>, k: nat, bytes: seq<byte>, rest: seq<byte>)
    requires |bytes| <= U32_MAX && k <= |p| && p[k..] == Vec(bytes) + rest
    ensures var end := k + 4 + |bytes|;
      end <= |p| && FromLE(256, p[k..k + 4]) == |bytes| && p[k + 4..end] == bytes && p[end..] == rest
  {
    hide FromLE, ToLE;
    var length := ToLE(256, |bytes|, U32_BYTES);
    LengthPrefix(bytes);
    assert length + bytes + rest == length + (bytes + rest);
    Peel(p, k, length, bytes + rest);
    Peel(p, k + 4, bytes, rest);
  }

  // 31 zeros and a one: the account that spells 11111111111111111111111111111112.
  lemma SentinelBytes()
    ensures FromBE(256, NativeTokenSentinel()) == 1
  {
    hide FromBE;
    var zeros: seq<nat> := ZeroBytes(31);
    assert zeros == Zeros(31) + [];
    LeadingZeros(256, 31, []);
    BESnoc(256, zeros, 1);
    assert FromBE(256, []) == 0 by { EmptyNumeral(); }
  }

  lemma EmptyNumeral()
    ensures FromBE(256, []) == 0
  {
  }

  /** The preimage is injective: equal bytes come from equal external data. */
  lemma PreimageInjective(x: HashInput, y: HashInput)
    requires Encodable(x) && Encodable(y)
    ensures Preimage(x) == Preimage(y) <==> x == y
  {
    if Preimage(x) == Preimage(y) {
      var x6, y6 := x.feeRecipient + NativeTokenSentinel(), y.feeRecipient + NativeTokenSentinel();
      var x5, y5 := U64Le(x.extData.fee) + x6, U64Le(y.extData.fee) + y6;
      var x4, y4 := Vec(x.encryptedOutput2) + x5, Vec(y.encryptedOutput2) + y5;
      var x3, y3 := Vec(x.encryptedOutput1) + x4, Vec(y.encryptedOutput1) + y4;
      var x2, y2 := I64Le(x.extData.extAmount) + x3, I64Le(y.extData.extAmount) + y3;
      SplitEqual(x.recipient, x2, y.recipient, y2);
      SplitEqual(I64Le(x.extData.extAmount), x3, I64Le(y.extData.extAmount), y3);
      I64LeInjective(x.extData.extAmount, y.extData.extAmount);
      VecSplit(x.encryptedOutput1, x4, y.encryptedOutput1, y4);
      VecSplit(x.encryptedOutput2, x5, y.encryptedOutput2, y5);
      SplitEqual(U64Le(x.extData.fee), x6, U64Le(y.extData.fee), y6);
      FieldSizeBounds();
      LERoundTrip(256, x.extData.fee, U64_BYTES);
      LERoundTrip(256, y.extData.fee, U64_BYTES);
      SplitEqual(x.feeRecipient, NativeTokenSentinel(), y.feeRecipient, NativeTokenSentinel());
    }
  }

  /** `hashExtData` for any hash function: its 32 bytes always hold a field element. */
  method HashExtData(input: HashInput, sha256: seq<byte> -> seq<byte>) returns (r: Result<seq<byte>, EncodeError>)
    ensures r.Success? <==> Encodable(input)
    ensures r.Success? ==> |r.value| == 32 && FromBE(256, r.value) < FIELD_SIZE
    ensures r.Success? ==>
      FromBE(256, r.value) == FromLE(256, sha256(Preimage(input))) % FIELD_SIZE
  {
    var serialized :- SerializeExtData(input);
    var value := LeBytesToBigInt(sha256(serialized));
    var hashField := value % FIELD_SIZE;
    FieldSizeBounds();
    BERoundTrip(256, hashField, FIELD_BYTES);
    return Success(FieldBytes(hashField));
  }
}
