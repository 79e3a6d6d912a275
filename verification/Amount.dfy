// Native amounts: printing lamports as a decimal with up to nine places, and reading them back.
module Amount {
  import opened Wrappers
  import opened Numerals
  import opened Text

  const NATIVE_DECIMALS: nat := 9

  datatype AmountError = BadAmount | Negative

  // The position of the first dot, or the length when there is none.
  function DotFrom(s: string, i: nat): (k: nat)
    requires i <= |s|
    ensures i <= k <= |s| && (k < |s| ==> s[k] == '.') && forall j :: i <= j < k ==> s[j] != '.'
    decreases |s| - i
  {
    if i == |s| || s[i] == '.' then i else DotFrom(s, i + 1)
  }

  // The two parts of value.split(".") for a value with at most one dot.
  function WholePart(s: string): string { s[..DotFrom(s, 0)] }
  function FractionPart(s: string): string {
    if DotFrom(s, 0) < |s| then s[DotFrom(s, 0) + 1..] else ""
  }

  // NATIVE_AMOUNT_PATTERN
  predicate MatchesPattern(s: string) {
    && IsNumeral(10, WholePart(s)) && CanonicalNumeral(WholePart(s))
    && IsNumeral(10, FractionPart(s)) && |FractionPart(s)| <= NATIVE_DECIMALS
  }

  function ZeroChars(n: nat): (s: string)
    ensures |s| == n && forall i :: 0 <= i < n ==> s[i] == '0'
  {
    if n == 0 then "" else ZeroChars(n - 1) + "0"
  }

  function PadEnd(s: string): string {
    if |s| < NATIVE_DECIMALS then s + ZeroChars(NATIVE_DECIMALS - |s|) else s
  }

  function Lamports(whole: string, fraction: string): nat {
    ParseNat(10, whole) * 1_000_000_000 + ParseNat(10, PadEnd(fraction))
  }

  function ParseAmount(input: string): Result<nat, AmountError> {
    var value := Trim(input);
    if !MatchesPattern(value) then Failure(BadAmount)
    else Success(Lamports(WholePart(value), FractionPart(value)))
  }

  // replace(/0+$/, "")
  function StripZeros(s: string): (r: string)
    ensures |r| <= |s| && r == s[..|r|] && (r != [] ==> r[|r| - 1] != '0')
    ensures forall i :: |r| <= i < |s| ==> s[i] == '0'
  {
    s[..StripFrom(s, |s|)]
  }

  function StripFrom(s: string, n: nat): (k: nat)
    requires n <= |s|
    ensures k <= n && (k > 0 ==> s[k - 1] != '0') && forall i :: k <= i < n ==> s[i] == '0'
  {
    if n > 0 && s[n - 1] == '0' then StripFrom(s, n - 1) else n
  }

  // The nine digits of a fraction: toString().padStart(9, "0").
  function NineDigits(fractional: nat): string {
    Chars(PadStart(ToMinimal(10, fractional), NATIVE_DECIMALS))
  }

  function FormatAmount(lamports: int): Result<string, AmountError> {
    if lamports < 0 then Failure(Negative)
    else
      var whole, fractional := Quot(lamports, 1_000_000_000), Rem(lamports, 1_000_000_000);
      if fractional == 0 then Success(PrintNat(10, whole))
      else Success(PrintNat(10, whole) + "." + StripZeros(NineDigits(fractional)))
  }

  // How an accepted spelling is shortened: the fraction loses its trailing zeros, and the dot
  // goes with an empty fraction.
  function CanonicalSpelling(s: string): string {
    var fraction := StripZeros(FractionPart(s));
    if fraction == "" then WholePart(s) else WholePart(s) + "." + fraction
  }

  lemma StripUnique(s: string, r: string)
    requires |r| <= |s| && r == s[..|r|] && (r != [] ==> r[|r| - 1] != '0')
    requires forall i :: |r| <= i < |s| ==> s[i] == '0'
    ensures StripZeros(s) == r
  {
    var t := StripZeros(s);
    assert t != [] ==> t[|t| - 1] == s[|t| - 1];
    assert r != [] ==> r[|r| - 1] == s[|r| - 1];
  }

  // Padding a stripped fraction restores it, and stripping a padded one forgets the padding.
  lemma PadAndStrip(s: string)
    requires |s| <= NATIVE_DECIMALS
    ensures |PadEnd(s)| == NATIVE_DECIMALS
    ensures |s| == NATIVE_DECIMALS ==> PadEnd(StripZeros(s)) == s
    ensures StripZeros(PadEnd(s)) == StripZeros(s)
  {
    StripUnique(PadEnd(s), StripZeros(s));
  }

  lemma PadEndNumeral(s: string)
    requires IsNumeral(10, s) && |s| <= NATIVE_DECIMALS
    ensures IsNumeral(10, PadEnd(s))
  {
  }

  lemma PowTen()
    ensures Pow(10, NATIVE_DECIMALS) == 1_000_000_000
  {
    assert Pow(10, 9) == 1_000_000_000;
  }

  // Nine-digit numerals and numbers below 10^9 correspond.
  lemma NineDigitsOfNumeral(s: string)
    requires IsNumeral(10, s) && |s| == NATIVE_DECIMALS
    ensures ParseNat(10, s) < 1_000_000_000 && NineDigits(ParseNat(10, s)) == s
  {
    PowTen();
    CharsOfDigits(10, s);
    FromBEBound(10, Digits(s));
    PadStartIsFixed(10, ParseNat(10, s), NATIVE_DECIMALS);
    FixedUnique(10, ParseNat(10, s), NATIVE_DECIMALS, Digits(s));
  }

  lemma NumeralOfNineDigits(fractional: nat)
    requires fractional < 1_000_000_000
    ensures IsNumeral(10, NineDigits(fractional)) && |NineDigits(fractional)| == NATIVE_DECIMALS
    ensures ParseNat(10, NineDigits(fractional)) == fractional
    ensures StripZeros(NineDigits(fractional)) == [] <==> fractional == 0
  {
    PowTen();
    var ds := ToMinimal(10, fractional);
    MinimalRoundTrip(10, fractional);
    MinimalLength(10, fractional, NATIVE_DECIMALS);
    PadStartValue(10, ds, NATIVE_DECIMALS);
    DigitsOfChars(10, PadStart(ds, NATIVE_DECIMALS));
    StripsToNothing(NineDigits(fractional));
  }

  lemma {:induction false} StripsToNothing(s: string)
    requires IsNumeral(10, s)
    ensures StripZeros(s) == [] <==> ParseNat(10, s) == 0
  {
    if s != [] {
      var init := s[..|s| - 1];
      StripsToNothing(init);
      assert Digits(s)[..|s| - 1] == Digits(init);
      assert ParseNat(10, s) == ParseNat(10, init) * 10 + CharDigit(s[|s| - 1]);
    }
  }

  // The digits of a fraction that matches the pattern, as the printer would write them.
  lemma FractionOfParse(fraction: string)
    requires IsNumeral(10, fraction) && |fraction| <= NATIVE_DECIMALS
    ensures ParseNat(10, PadEnd(fraction)) < 1_000_000_000
    ensures StripZeros(NineDigits(ParseNat(10, PadEnd(fraction)))) == StripZeros(fraction)
    ensures ParseNat(10, PadEnd(fraction)) == 0 <==> StripZeros(fraction) == []
  {
    PadAndStrip(fraction);
    PadEndNumeral(fraction);
    NineDigitsOfNumeral(PadEnd(fraction));
    StripsToNothing(PadEnd(fraction));
  }

  // A numeral, optionally followed by a dot and another, is cut at the dot.
  lemma CutAtDot(whole: string, fraction: string)
    requires IsNumeral(10, whole) && whole != []
    requires IsNumeral(10, fraction)
    ensures WholePart(whole + "." + fraction) == whole && FractionPart(whole + "." + fraction) == fraction
    ensures WholePart(whole) == whole && FractionPart(whole) == ""
    ensures Trim(whole) == whole && (fraction != [] ==> Trim(whole + "." + fraction) == whole + "." + fraction)
  {
    assert forall i :: 0 <= i < |whole| ==> whole[i] != '.' by {
      assert forall i :: 0 <= i < |whole| ==> CharDigit(whole[i]) < 10;
    }
    var s := whole + "." + fraction;
    assert s[|whole|] == '.';
    assert DotFrom(s, 0) == |whole|;
    TrimUnspaced(s[..|whole|]);
    TrimNumeral(10, whole);
    if fraction != [] {
      assert CharDigit(s[0]) < 10 && CharDigit(s[|s| - 1]) < 10;
    }
  }

  lemma ParseWhole(whole: string, fraction: string)
    requires IsNumeral(10, whole) && CanonicalNumeral(whole) && fraction == []
    ensures ParseAmount(whole) == Success(Lamports(whole, fraction))
    ensures Lamports(whole, fraction) == ParseNat(10, whole) * 1_000_000_000
  {
    CutAtDot(whole, fraction);
    FractionOfParse(fraction);
  }

  lemma ParseWholeAndFraction(whole: string, fraction: string, lamports: nat)
    requires IsNumeral(10, whole) && CanonicalNumeral(whole)
    requires IsNumeral(10, fraction) && 0 < |fraction| <= NATIVE_DECIMALS
    requires Lamports(whole, fraction) == lamports
    ensures ParseAmount(whole + "." + fraction) == Success(lamports)
  {
    CutAtDot(whole, fraction);
  }

  lemma FormatParts(whole: nat, fractional: nat)
    requires fractional < 1_000_000_000
    ensures FormatAmount(whole * 1_000_000_000 + fractional)
         == Success(if fractional == 0 then PrintNat(10, whole)
                    else PrintNat(10, whole) + "." + StripZeros(NineDigits(fractional)))
  {
    DivMod(whole, fractional, 1_000_000_000);
  }

  lemma StrippedFraction(whole: nat, fractional: nat)
    requires 0 < fractional < 1_000_000_000
    ensures var f := StripZeros(NineDigits(fractional));
      && IsNumeral(10, f) && 0 < |f| <= NATIVE_DECIMALS
      && Lamports(PrintNat(10, whole), f) == whole * 1_000_000_000 + fractional
  {
    NumeralOfNineDigits(fractional);
    var digits := NineDigits(fractional);
    PadAndStrip(digits);
    assert IsNumeral(10, digits[..|StripZeros(digits)|]);
    ParsePrint(10, whole);
  }

  lemma ParseOfWhole(whole: nat)
    ensures ParseAmount(PrintNat(10, whole)) == Success(whole * 1_000_000_000)
  {
    ParsePrint(10, whole);
    ParseWhole(PrintNat(10, whole), []);
  }

  lemma ParseOfParts(whole: nat, fractional: nat)
    requires 0 < fractional < 1_000_000_000
    ensures ParseAmount(PrintNat(10, whole) + "." + StripZeros(NineDigits(fractional)))
         == Success(whole * 1_000_000_000 + fractional)
  {
    hide *;
    ParsePrint(10, whole);
    StrippedFraction(whole, fractional);
    ParseWholeAndFraction(PrintNat(10, whole), StripZeros(NineDigits(fractional)), whole * 1_000_000_000 + fractional);
  }

  /** Every non-negative amount is read back exactly from its own spelling. */
  lemma ParseOfFormat(lamports: nat)
    ensures FormatAmount(lamports).Success?
    ensures ParseAmount(FormatAmount(lamports).value) == Success(lamports)
  {
    var whole, fractional := Quot(lamports, 1_000_000_000), Rem(lamports, 1_000_000_000);
    Division(lamports, 1_000_000_000);
    FormatParts(whole, fractional);
    if fractional == 0 {
      ParseOfWhole(whole);
    } else {
      ParseOfParts(whole, fractional);
    }
  }

  lemma FormatParsed(whole: string, fraction: string, w: nat, f: nat)
    requires f < 1_000_000_000 && PrintNat(10, w) == whole
    requires StripZeros(NineDigits(f)) == StripZeros(fraction)
    requires f == 0 <==> StripZeros(fraction) == []
    ensures FormatAmount(w * 1_000_000_000 + f)
         == Success(if StripZeros(fraction) == [] then whole else whole + "." + StripZeros(fraction))
  {
    FormatParts(w, f);
  }

  /** Reading an accepted spelling and printing it gives its canonical form. */
  lemma FormatOfParse(input: string)
    requires ParseAmount(input).Success?
    ensures FormatAmount(ParseAmount(input).value) == Success(CanonicalSpelling(Trim(input)))
  {
    hide FormatAmount, Trim, WholePart, FractionPart, PadEnd, StripZeros, NineDigits, PrintNat, ParseNat;
    var whole, fraction := WholePart(Trim(input)), FractionPart(Trim(input));
    FractionOfParse(fraction);
    PrintParse(10, whole);
    FormatParsed(whole, fraction, ParseNat(10, whole), ParseNat(10, PadEnd(fraction)));
  }

  // ---- Which texts are amounts, and of how much ----

  // A number without leading zeros, then up to nine decimals behind a dot; without decimals the
  // dot may be there or not.
  predicate IsAmountText(text: string, whole: string, fraction: string) {
    && IsNumeral(10, whole) && CanonicalNumeral(whole) && IsNumeral(10, fraction) && |fraction| <= 9
    && (text == whole + "." + fraction || (fraction == "" && text == whole))
  }

  lemma PatternIff(text: string)
    ensures MatchesPattern(text) ==> IsAmountText(text, WholePart(text), FractionPart(text))
    ensures forall whole, fraction :: IsAmountText(text, whole, fraction) ==>
              MatchesPattern(text) && WholePart(text) == whole && FractionPart(text) == fraction
  {
    hide CanonicalNumeral;
    if MatchesPattern(text) && DotFrom(text, 0) < |text| {
      assert text == WholePart(text) + "." + FractionPart(text);
    }
    forall whole, fraction | IsAmountText(text, whole, fraction)
      ensures MatchesPattern(text) && WholePart(text) == whole && FractionPart(text) == fraction
    {
      NonemptyNumeral(whole);
      CutAtDot(whole, fraction);
    }
  }

  lemma NonemptyNumeral(whole: string)
    requires CanonicalNumeral(whole)
    ensures whole != []
  {
  }

  /** The amounts that are read: exactly these texts, between any spaces. */
  lemma AmountTextIff(input: string, lamports: nat)
    ensures ParseAmount(input) == Success(lamports) <==>
            exists left, text, right, whole, fraction ::
              && AllSpaces(left) && AllSpaces(right) && input == left + text + right
              && IsAmountText(text, whole, fraction) && lamports == Lamports(whole, fraction)
  {
    hide Trim, MatchesPattern, Lamports, IsAmountText, AllSpaces, WholePart, FractionPart;
    if ParseAmount(input) == Success(lamports) {
      var left, right := TrimSplits(input);
      PatternIff(Trim(input));
    }
    forall left, text, right, whole, fraction | AllSpaces(left) && AllSpaces(right) && input == left + text + right
                                                && IsAmountText(text, whole, fraction) && lamports == Lamports(whole, fraction)
      ensures ParseAmount(input) == Success(lamports)
    {
      PatternIff(text);
      AmountTextUnspaced(text, whole, fraction);
      TrimSpaces(left, text, right);
    }
  }

  lemma AmountTextUnspaced(text: string, whole: string, fraction: string)
    requires IsAmountText(text, whole, fraction)
    ensures Unspaced(text)
  {
    assert CharDigit(whole[0]) < 10 && CharDigit(whole[|whole| - 1]) < 10;
    assert fraction != [] ==> CharDigit(fraction[|fraction| - 1]) < 10;
  }

  lemma {:induction false} BEConcat(b: nat, xs: seq<nat>, ys: seq<nat>)
    ensures FromBE(b, xs + ys) == FromBE(b, xs) * Pow(b, |ys|) + FromBE(b, ys)
  {
    if ys == [] {
      assert xs + ys == xs;
    } else {
      var init, last := ys[..|ys| - 1], ys[|ys| - 1];
      BEConcat(b, xs, init);
      assert xs + ys == xs + init + [last] && ys == init + [last];
      BESnoc(b, xs + init, last);
      BESnoc(b, init, last);
      ScaledUp(FromBE(b, xs), Pow(b, |init|), FromBE(b, init), b);
    }
  }

  lemma ScaledUp(x: nat, p: nat, y: nat, b: nat)
    ensures (x * p + y) * b == x * (b * p) + y * b
  {
  }

  lemma ZerosScale(s: string, n: nat)
    ensures ParseNat(10, s + ZeroChars(n)) == ParseNat(10, s) * Pow(10, n)
  {
    var zeros := Digits(ZeroChars(n));
    assert Digits(s + ZeroChars(n)) == Digits(s) + zeros;
    BEConcat(10, Digits(s), zeros);
    assert zeros == Zeros(n) + [];
    LeadingZeros(10, n, []);
  }

  lemma PaddedFraction(fraction: string)
    requires |fraction| <= 9
    ensures ParseNat(10, PadEnd(fraction)) == ParseNat(10, fraction) * Pow(10, 9 - |fraction|)
  {
    hide Pow, FromBE, ParseNat;
    ZerosScale(fraction, 9 - |fraction|);
    assert fraction + ZeroChars(9 - |fraction|) == PadEnd(fraction);
  }

  lemma Joined(whole: string, fraction: string)
    ensures ParseNat(10, whole + fraction) == ParseNat(10, whole) * Pow(10, |fraction|) + ParseNat(10, fraction)
  {
    hide Pow, FromBE;
    assert Digits(whole + fraction) == Digits(whole) + Digits(fraction);
    BEConcat(10, Digits(whole), Digits(fraction));
  }

  lemma PowersOfTen(n: nat)
    requires n <= 9
    ensures Pow(10, n) * Pow(10, 9 - n) == 1_000_000_000
  {
    PowTen();
    assert Pow(10, 9) == 1_000_000_000;
    hide *;
    PowAdd(10, n, 9 - n);
    assert n + (9 - n) == 9;
  }

  lemma LamportsParts(whole: string, fraction: string)
    requires |fraction| <= 9
    ensures Lamports(whole, fraction) == ParseNat(10, whole) * 1_000_000_000 + ParseNat(10, fraction) * Pow(10, 9 - |fraction|)
  {
    hide ParseNat, Pow;
    PaddedFraction(fraction);
  }

  /** The amount is the decimal number that the text shows, times 10^9. */
  lemma AmountIsTextTimesBillion(whole: string, fraction: string)
    requires |fraction| <= 9
    ensures Lamports(whole, fraction) * Pow(10, |fraction|) == ParseNat(10, whole + fraction) * 1_000_000_000
  {
    hide *;
    PowersOfTen(|fraction|);
    LamportsParts(whole, fraction);
    Joined(whole, fraction);
    Rescale(Lamports(whole, fraction), ParseNat(10, whole + fraction), ParseNat(10, whole), ParseNat(10, fraction),
            Pow(10, |fraction|), Pow(10, 9 - |fraction|), 1_000_000_000);
  }

  lemma Rescale(amount: nat, joined: nat, w: nat, f: nat, p: nat, q: nat, b: nat)
    requires p * q == b && amount == w * b + f * q && joined == w * p + f
    ensures amount * p == joined * b
  {
    assert f * q * p == f * (p * q);
    assert w * b * p == w * p * b;
  }
}
