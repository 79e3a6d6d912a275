// Field elements as decimal strings, 32-byte big-endian hex and 32-byte buffers, and the byte
// loops that the client's codecs share.
module FieldCodec {
  import opened Wrappers
  import opened Numerals
  import opened Text

  const FIELD_SIZE: nat :=
    21888242871839275222246405745257275088548364400416034343698204186575808495617

  const FIELD_BYTES: nat := 32
  const U64_BYTES: nat := 8
  const U32_BYTES: nat := 4

  datatype CodecError = NotDecimal | NotAField | BadLength | NotHex

  lemma Pow256To8()
    ensures Pow(256, 8) == 0x1_0000_0000_0000_0000
  {
  }

  lemma Pow256To16()
    ensures Pow(256, 16) == 0x1_0000_0000_0000_0000_0000_0000_0000_0000
  {
    Pow256To8();
    PowAdd(256, 8, 8);
  }

  lemma {:induction false} HexPairPow(w: nat)
    ensures Pow(16, 2 * w) == Pow(256, w)
  {
    if w > 0 {
      HexPairPow(w - 1);
      assert Pow(16, 2 * w) == 16 * Pow(16, 2 * w - 1);
    }
  }

  lemma Pow256To31()
    ensures 256 * Pow(256, 31) == Pow(256, 32)
  {
  }

  lemma FieldSizeBounds()
    ensures Pow(256, 31) < FIELD_SIZE < Pow(256, 32) == Pow(16, 64)
    ensures Pow(256, 8) == 0x1_0000_0000_0000_0000 < FIELD_SIZE
  {
    Pow256To8();
    Pow256To16();
    Pow256To31();
    PowAdd(256, 16, 16);
    HexPairPow(32);
    Square(Pow(256, 16), 0x1_0000_0000_0000_0000_0000_0000_0000_0000);
  }

  lemma Square(x: nat, y: nat)
    requires x == y
    ensures x * x == y * y
  {
  }

  // fieldElementDecimalSchema on a trimmed string: its number, if it is a field element.
  function ParseField(value: string): (r: Result<nat, CodecError>)
    ensures r.Success? ==> r.value < FIELD_SIZE
  {
    var s := Trim(value);
    if s == [] || !IsNumeral(10, s) then Failure(NotDecimal)
    else if ParseNat(10, s) >= FIELD_SIZE then Failure(NotAField)
    else Success(ParseNat(10, s))
  }

  /** Which texts spell a field element: decimal digits between any spaces, leading zeros allowed, of a
      number below the prime. */
  lemma FieldTextIff(value: string, n: nat)
    ensures ParseField(value) == Success(n) <==>
            exists left, digits, right ::
              && AllSpaces(left) && AllSpaces(right) && value == left + digits + right
              && digits != [] && (forall i :: 0 <= i < |digits| ==> '0' <= digits[i] <= '9')
              && ParseNat(10, digits) == n
              && n < 21888242871839275222246405745257275088548364400416034343698204186575808495617
  {
    hide Trim, ParseNat;
    if ParseField(value) == Success(n) {
      var left, right := TrimSplits(value);
      assert forall i :: 0 <= i < |Trim(value)| ==> CharDigit(Trim(value)[i]) < 10;
    }
    forall left, digits, right | AllSpaces(left) && AllSpaces(right) && value == left + digits + right
                                 && digits != [] && (forall i :: 0 <= i < |digits| ==> '0' <= digits[i] <= '9')
      ensures Trim(value) == digits && IsNumeral(10, digits)
    {
      assert !IsSpace(digits[0]) && !IsSpace(digits[|digits| - 1]);
      TrimSpaces(left, digits, right);
    }
  }

  function FieldBytes(n: nat): (bytes: seq<byte>)
    ensures |bytes| == 32
  {
    ToBE(256, n, FIELD_BYTES)
  }

  lemma {:induction false} PairsOfHexDigits(hex: seq<nat>, bytes: seq<nat>)
    requires Below(16, hex) && |hex| == 2 * |bytes|
    requires forall i :: 0 <= i < |bytes| ==> bytes[i] == 16 * hex[2 * i] + hex[2 * i + 1]
    ensures FromBE(256, bytes) == FromBE(16, hex)
  {
    if bytes != [] {
      var n, h := |bytes| - 1, |hex|;
      PairsOfHexDigits(hex[..h - 2], bytes[..n]);
      assert hex[..h - 1][..h - 2] == hex[..h - 2];
      assert FromBE(16, hex[..h - 1]) == FromBE(16, hex[..h - 2]) * 16 + hex[h - 2];
    }
  }

  // Two hex digits a byte.
  method HexToBytes(value: string) returns (bytes: seq<byte>)
    requires IsNumeral(16, value) && |value| % 2 == 0
    ensures |bytes| == |value| / 2
    ensures FromBE(256, bytes) == ParseNat(16, value)
    ensures bytes == ToBE(256, ParseNat(16, value), |value| / 2)
  {
    var buffer := new byte[|value| / 2];
    for index := 0 to buffer.Length
      invariant forall i :: 0 <= i < index ==>
        buffer[i] == 16 * CharDigit(value[2 * i]) + CharDigit(value[2 * i + 1])
    {
      assert CharDigit(value[index * 2]) < 16 && CharDigit(value[index * 2 + 1]) < 16;
      buffer[index] := 16 * CharDigit(value[index * 2]) + CharDigit(value[index * 2 + 1]);
    }
    bytes := buffer[..];
    CharsOfDigits(16, value);
    PairsOfHexDigits(Digits(value), bytes);
    BEOfDigits(256, bytes);
  }

  function BytesToHex(bytes: seq<byte>): (hex: string)
    ensures |hex| == 2 * |bytes| && IsNumeral(16, hex)
  {
    if bytes == [] then [] else
      BytesToHex(bytes[..|bytes| - 1]) + [DigitChar(bytes[|bytes| - 1] / 16), DigitChar(bytes[|bytes| - 1] % 16)]
  }

  lemma {:induction false} HexOfBytesValue(bytes: seq<byte>)
    ensures ParseNat(16, BytesToHex(bytes)) == FromBE(256, bytes)
  {
    if bytes != [] {
      var init, last := bytes[..|bytes| - 1], bytes[|bytes| - 1];
      HexOfBytesValue(init);
      var ds := Digits(BytesToHex(init));
      assert CharDigit(DigitChar(last / 16)) == last / 16 && CharDigit(DigitChar(last % 16)) == last % 16;
      assert Digits(BytesToHex(bytes)) == (ds + [last / 16]) + [last % 16];
      BESnoc(16, ds, last / 16);
      BESnoc(16, ds + [last / 16], last % 16);
    }
  }

  method FieldDecimalToBytes(value: string) returns (r: Result<seq<byte>, CodecError>)
    ensures r.Success? <==> ParseField(value).Success?
    ensures r.Success? ==> r.value == FieldBytes(ParseField(value).value)
  {
    var field :- ParseField(value);
    FieldSizeBounds();
    PadStartIsFixed(16, field, 64);
    DigitsOfChars(16, PadStart(ToMinimal(16, field), 64));
    BERoundTrip(16, field, 64);
    var bytes := HexToBytes(PrintHex64(field));
    return Success(bytes);
  }

  // The number in exactly 32 bytes that hold a field element.
  function FieldOfBytes(bytes: seq<byte>): (r: Result<nat, CodecError>) {
    if |bytes| != 32 then Failure(BadLength)
    else
      var n := ParseNat(16, BytesToHex(bytes));
      if n >= FIELD_SIZE then Failure(NotAField) else Success(n)
  }

  function FieldBytesToDecimal(bytes: seq<byte>): (r: Result<string, CodecError>) {
    var n :- FieldOfBytes(bytes);
    Success(PrintNat(10, n))
  }

  /** Reading back the 32 bytes written for a field element gives its canonical decimal. */
  lemma FieldBytesRoundTrip(n: nat)
    requires n < FIELD_SIZE
    ensures FieldOfBytes(FieldBytes(n)) == Success(n)
    ensures FieldBytesToDecimal(FieldBytes(n)) == Success(PrintNat(10, n))
    ensures ParseField(PrintNat(10, n)) == Success(n)
  {
    FieldSizeBounds();
    BERoundTrip(256, n, FIELD_BYTES);
    HexOfBytesValue(FieldBytes(n));
    ParsePrint(10, n);
    TrimNumeral(10, PrintNat(10, n));
  }

  /** Reading accepts a byte string exactly when it is the 32 bytes of some field element. */
  lemma {:induction false} FieldOfBytesExact(bytes: seq<byte>)
    ensures FieldOfBytes(bytes).Success? <==> |bytes| == 32 && FromBE(256, bytes) < FIELD_SIZE
    ensures FieldOfBytes(bytes).Success? ==>
      FieldOfBytes(bytes).value == FromBE(256, bytes) && FieldBytes(FieldOfBytes(bytes).value) == bytes
  {
    HexOfBytesValue(bytes);
    BEOfDigits(256, bytes);
  }

  /** And the decimal read from 32 bytes writes the same 32 bytes. */
  lemma FieldDecimalRoundTrip(bytes: seq<byte>)
    requires FieldBytesToDecimal(bytes).Success?
    ensures ParseField(FieldBytesToDecimal(bytes).value).Success?
    ensures FieldBytes(ParseField(FieldBytesToDecimal(bytes).value).value) == bytes
  {
    FieldOfBytesExact(bytes);
    FieldBytesRoundTrip(FromBE(256, bytes));
  }

  // ---- Loops over bytes ----

  // The low byteLength bytes of a value, least significant first.
  method EncodeUnsignedLe(value: nat, byteLength: nat) returns (bytes: array<byte>)
    ensures fresh(bytes) && bytes[..] == ToLE(256, value, byteLength)
  {
    bytes := new byte[byteLength];
    var remaining := value;
    for index := 0 to byteLength
      invariant ToLE(256, value, byteLength) == bytes[..index] + ToLE(256, remaining, byteLength - index)
    {
      ghost var done := bytes[..index];
      bytes[index] := Rem(remaining, 256);
      remaining := Quot(remaining, 256);
      assert bytes[..index + 1] == done + [bytes[index]];
    }
    assert bytes[..] == bytes[..byteLength];
  }

  method LeBytesToBigInt(bytes: seq<byte>) returns (value: nat)
    ensures value == FromLE(256, bytes)
    ensures bytes == ToLE(256, value, |bytes|)
  {
    value := 0;
    var index := |bytes|;
    while index > 0
      invariant 0 <= index <= |bytes| && value == FromLE(256, bytes[index..])
    {
      index := index - 1;
      assert bytes[index..][1..] == bytes[index + 1..];
      value := value * 256 + bytes[index];
    }
    assert bytes[0..] == bytes;
    LEOfDigits(256, bytes);
  }

  // Big-endian accumulation.
  method BytesToBigInt(bytes: seq<byte>) returns (value: nat)
    ensures value == FromBE(256, bytes) < Pow(256, |bytes|)
  {
    value := 0;
    for index := 0 to |bytes|
      invariant value == FromBE(256, bytes[..index])
    {
      assert bytes[..index + 1][..index] == bytes[..index];
      value := value * 256 + bytes[index];
    }
    assert bytes[..|bytes|] == bytes;
    FromBEBound(256, bytes);
  }

  function ZeroBytes(n: nat): (bytes: seq<byte>)
    ensures |bytes| == n && forall i :: 0 <= i < n ==> bytes[i] == 0
  {
    if n == 0 then [] else ZeroBytes(n - 1) + [0]
  }

  function Concat(chunks: seq<seq<byte>>): seq<byte> {
    if chunks == [] then [] else chunks[0] + Concat(chunks[1..])
  }

  lemma {:induction false} ConcatSnoc(chunks: seq<seq<byte>>, chunk: seq<byte>)
    ensures Concat(chunks + [chunk]) == Concat(chunks) + chunk
  {
    if chunks != [] {
      ConcatSnoc(chunks[1..], chunk);
      assert (chunks + [chunk])[1..] == chunks[1..] + [chunk];
    } else {
      assert [chunk][1..] == [];
    }
  }

  lemma ConcatFrom(chunks: seq<seq<byte>>, k: nat)
    requires k < |chunks|
    ensures Concat(chunks[k..]) == chunks[k] + Concat(chunks[k + 1..])
  {
    assert chunks[k..][1..] == chunks[k + 1..];
  }

  lemma {:induction false} ConcatPrefix(chunks: seq<seq<byte>>, k: nat)
    requires k <= |chunks|
    ensures |Concat(chunks[..k])| <= |Concat(chunks)|
    decreases |chunks| - k
  {
    if k < |chunks| {
      ConcatPrefix(chunks, k + 1);
      ConcatSnoc(chunks[..k], chunks[k]);
      assert chunks[..k + 1] == chunks[..k] + [chunks[k]];
    } else {
      assert chunks[..k] == chunks;
    }
  }

  // One buffer of the total length, filled chunk by chunk at a running offset.
  method ConcatBytes(chunks: seq<seq<byte>>) returns (output: array<byte>)
    ensures fresh(output) && output[..] == Concat(chunks)
  {
    output := new byte[|Concat(chunks)|];
    var offset := 0;
    for k := 0 to |chunks|
      invariant offset == |Concat(chunks[..k])| <= output.Length
      invariant output[..offset] == Concat(chunks[..k])
    {
      ghost var before := Concat(chunks[..k]);
      assert chunks[..k + 1] == chunks[..k] + [chunks[k]];
      ConcatSnoc(chunks[..k], chunks[k]);
      ConcatPrefix(chunks, k + 1);
      forall i | 0 <= i < |chunks[k]| {
        output[offset + i] := chunks[k][i];
      }
      assert output[..offset] == before;
      offset := offset + |chunks[k]|;
      assert output[..offset] == before + chunks[k];
    }
    assert chunks[..|chunks|] == chunks;
    assert output[..] == output[..offset];
  }
}
