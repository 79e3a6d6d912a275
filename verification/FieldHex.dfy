// The spellings of a field element that the Merkle service accepts.
module FieldHex {
  import opened Wrappers
  import opened Numerals
  import opened Text

  const HEX_DIGITS: nat := 64

  datatype HexError = NotHexField | NotDecimalField | DoesNotFit

  predicate IsHexField(s: string) {
    |s| == HEX_DIGITS && IsNumeral(16, s)
  }

  function HexFieldValue(hex: string): (r: Result<nat, HexError>) {
    var normalized := Lower(Trim(hex));
    if IsHexField(normalized) then Success(ParseNat(16, normalized)) else Failure(NotHexField)
  }

  function HexFieldToDecimal(hex: string): Result<string, HexError> {
    var value :- HexFieldValue(hex);
    Success(PrintNat(10, value))
  }

  function DecimalFieldToHex(decimal: string): Result<string, HexError> {
    var normalized := Trim(decimal);
    if normalized == [] || !IsNumeral(10, normalized) then Failure(NotDecimalField)
    else
      var hex := PrintNat(16, ParseNat(10, normalized));
      if |hex| > HEX_DIGITS then Failure(DoesNotFit) else Success(PrintHex64(ParseNat(10, normalized)))
  }

  function NormalizeFieldToHex(value: string): Result<string, HexError> {
    var normalized := Lower(Trim(value));
    if IsHexField(normalized) then Success(normalized) else DecimalFieldToHex(normalized)
  }

  // ---- Hex spellings ----

  lemma PrintedHex(v: nat)
    requires v < Pow(16, HEX_DIGITS)
    ensures IsHexField(PrintHex64(v)) && ParseNat(16, PrintHex64(v)) == v
    ensures HexFieldValue(PrintHex64(v)) == Success(v)
  {
    MinimalRoundTrip(16, v);
    MinimalLength(16, v, HEX_DIGITS);
    PadStartValue(16, ToMinimal(16, v), HEX_DIGITS);
    DigitsOfChars(16, PadStart(ToMinimal(16, v), HEX_DIGITS));
    TrimNumeral(16, PrintHex64(v));
  }

  lemma HexIsKept(hex: string)
    requires IsHexField(hex)
    ensures NormalizeFieldToHex(hex) == Success(hex) && HexFieldValue(hex) == Success(ParseNat(16, hex))
  {
    TrimNumeral(16, hex);
  }

  // Whatever is accepted becomes 64 lower-case hex digits.
  lemma NormalizedIsHex(value: string)
    requires NormalizeFieldToHex(value).Success?
    ensures IsHexField(NormalizeFieldToHex(value).value)
  {
    var normalized := Lower(Trim(value));
    if !IsHexField(normalized) {
      var v := ParseNat(10, Trim(normalized));
      MinimalLength(16, v, HEX_DIGITS);
      PrintedHex(v);
    }
  }

  /** Which texts are accepted: 64 hex digits in any case, or decimal digits of a value below 2^256,
      between any spaces. */
  lemma NormalizesIff(value: string)
    ensures NormalizeFieldToHex(value).Success? <==>
            var text := Lower(Trim(value));
            || (|text| == 64 && IsNumeral(16, text))
            || (text != [] && IsNumeral(10, text) && ParseNat(10, text) < Pow(16, 64))
  {
    hide Pow, FromBE, PrintHex64;
    var text := Lower(Trim(value));
    var inner := Trim(text);
    TrimLower(value);
    MinimalLength(16, ParseNat(10, text), 64);
  }

  lemma TrimLower(value: string)
    ensures Trim(Lower(Trim(value))) == Lower(Trim(value))
  {
    var left, right := TrimSplits(value);
    TrimUnspaced(Lower(Trim(value)));
  }

  /** A stored commitment is read exactly when it is 64 hex digits in any case, between any spaces. */
  lemma HexValueIff(hex: string, v: nat)
    ensures HexFieldValue(hex) == Success(v) <==>
            var text := Lower(Trim(hex));
            |text| == 64 && IsNumeral(16, text) && v == ParseNat(16, text)
  {
  }

  // ---- Decimal spellings ----

  lemma OneDigit(b: nat, d: nat)
    ensures FromBE(b, [d]) == d
  {
    assert [d] == [] + [d] && FromBE(b, []) == 0;
    BESnoc(b, [], d);
  }

  // A numeral without a leading zero means more when it is read as hex.
  lemma {:induction false} HexReadingIsLarger(ds: seq<nat>)
    requires |ds| >= 2 && ds[0] > 0
    ensures FromBE(16, ds) > FromBE(10, ds)
    decreases |ds|
  {
    var front := ds[..|ds| - 1];
    if |ds| == 2 {
      OneDigit(16, ds[0]);
      OneDigit(10, ds[0]);
      assert front == [ds[0]];
    } else {
      HexReadingIsLarger(front);
    }
  }

  lemma DecimalOf(decimal: string)
    requires IsNumeral(10, decimal) && decimal != []
    ensures NormalizeFieldToHex(decimal)
            == if |decimal| == HEX_DIGITS then Success(decimal)
               else if ParseNat(10, decimal) < Pow(16, HEX_DIGITS) then Success(PrintHex64(ParseNat(10, decimal)))
               else Failure(DoesNotFit)
  {
    TrimNumeral(10, decimal);
    MinimalLength(16, ParseNat(10, decimal), HEX_DIGITS);
  }

  /** A decimal field element is normalized to its own hex spelling exactly when it does not have
      64 digits: one that has is taken for hex. */
  lemma DecimalIsItselfIff(decimal: string)
    requires IsNumeral(10, decimal) && CanonicalNumeral(decimal) && ParseNat(10, decimal) < Pow(16, HEX_DIGITS)
    ensures NormalizeFieldToHex(decimal) == Success(PrintHex64(ParseNat(10, decimal))) <==> |decimal| != HEX_DIGITS
  {
    hide NormalizeFieldToHex, PrintHex64, Pow, HexFieldValue, FromBE, IsHexField;
    DecimalOf(decimal);
    var v := ParseNat(10, decimal);
    PrintedHex(v);
    if |decimal| == HEX_DIGITS {
      assert decimal[0] != '0' && CharDigit(decimal[0]) < 10;
      HexReadingIsLarger(Digits(decimal));
    }
  }

  // The 64-digit numeral 10...0 and the hex field element it is taken for.
  function TenPower(n: nat): (s: string)
    ensures |s| == n + 1 && s[0] == '1' && forall i :: 0 < i <= n ==> s[i] == '0'
  {
    if n == 0 then "1" else TenPower(n - 1) + "0"
  }

  lemma {:induction false} TenPowerValue(b: nat, n: nat)
    requires 1 < b
    ensures ParseNat(b, TenPower(n)) == Pow(b, n)
  {
    if n == 0 {
      assert Digits("1") == [] + [1];
      BESnoc(b, [], 1);
    } else {
      TenPowerValue(b, n - 1);
      assert Digits(TenPower(n)) == Digits(TenPower(n - 1)) + [0];
      BESnoc(b, Digits(TenPower(n - 1)), 0);
    }
  }

  /** The field element 10^63 is such a case: its proof request names the commitment 16^63. */
  lemma SixtyFourDigitsMisread()
    ensures var d := TenPower(63);
      && ParseNat(10, d) == Pow(10, 63)
      && NormalizeFieldToHex(d) == Success(d)
      && HexFieldValue(d) == Success(Pow(16, 63))
  {
    hide FromBE, Pow, TenPower;
    var d := TenPower(63);
    TenPowerValue(10, 63);
    TenPowerValue(16, 63);
    assert IsNumeral(10, d);
    DecimalOf(d);
    HexIsKept(d);
  }
}
