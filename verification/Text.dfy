// Strings of digits: JavaScript's BigInt parsing and printing, trimming and lower-casing.
module Text {
  import opened Numerals

  function DigitChar(d: nat): char
    requires d < 16
  {
    if d < 10 then '0' + d as char else 'a' + (d - 10) as char
  }

  // The value of a digit, or 16 for any other character.
  function CharDigit(c: char): nat {
    if '0' <= c <= '9' then (c - '0') as int
    else if 'a' <= c <= 'f' then (c - 'a') as int + 10
    else 16
  }

  // Only digits of base b; the pattern ^[digits]*$.
  predicate IsNumeral(b: nat, s: string) {
    forall i :: 0 <= i < |s| ==> CharDigit(s[i]) < b
  }

  function Digits(s: string): (ds: seq<nat>)
    ensures |ds| == |s| && forall i :: 0 <= i < |s| ==> ds[i] == CharDigit(s[i])
  {
    seq<nat>(|s|, i requires 0 <= i < |s| => CharDigit(s[i]))
  }

  function Chars(ds: seq<nat>): (s: string)
    requires Below(16, ds)
    ensures |s| == |ds| && forall i :: 0 <= i < |ds| ==> s[i] == DigitChar(ds[i])
  {
    seq(|ds|, i requires 0 <= i < |ds| => DigitChar(ds[i]))
  }

  function ParseNat(b: nat, s: string): nat {
    FromBE(b, Digits(s))
  }

  // toString(b)
  function PrintNat(b: nat, n: nat): (s: string)
    requires 1 < b <= 16
  {
    Chars(ToMinimal(b, n))
  }

  // toString(16).padStart(64, "0")
  function PrintHex64(n: nat): (s: string) {
    Chars(PadStart(ToMinimal(16, n), 64))
  }

  predicate CanonicalNumeral(s: string) {
    |s| > 0 && (|s| > 1 ==> s[0] != '0')
  }

  lemma DigitsOfChars(b: nat, ds: seq<nat>)
    requires b <= 16 && Below(b, ds)
    ensures Digits(Chars(ds)) == ds && IsNumeral(b, Chars(ds))
  {
  }

  lemma CharsOfDigits(b: nat, s: string)
    requires b <= 16 && IsNumeral(b, s)
    ensures Below(b, Digits(s)) && Chars(Digits(s)) == s
  {
  }

  lemma ParsePrint(b: nat, n: nat)
    requires 1 < b <= 16
    ensures ParseNat(b, PrintNat(b, n)) == n
    ensures IsNumeral(b, PrintNat(b, n)) && CanonicalNumeral(PrintNat(b, n))
  {
    MinimalRoundTrip(b, n);
    DigitsOfChars(b, ToMinimal(b, n));
  }

  lemma PrintParse(b: nat, s: string)
    requires 1 < b <= 16 && IsNumeral(b, s) && CanonicalNumeral(s)
    ensures PrintNat(b, ParseNat(b, s)) == s
  {
    CharsOfDigits(b, s);
    MinimalOfDigits(b, Digits(s));
  }

  // The WhiteSpace and LineTerminator characters that String.prototype.trim removes.
  predicate IsSpace(c: char) {
    || c == ' ' || '\t' <= c <= '\r' || c == '\U{00A0}' || c == '\U{1680}'
    || '\U{2000}' <= c <= '\U{200A}' || c == '\U{2028}' || c == '\U{2029}' || c == '\U{202F}'
    || c == '\U{205F}' || c == '\U{3000}' || c == '\U{FEFF}'
  }

  // The first position from i on that holds no space.
  function SkipSpaces(s: string, i: nat): (k: nat)
    requires i <= |s|
    ensures i <= k <= |s|
    decreases |s| - i
  {
    if i < |s| && IsSpace(s[i]) then SkipSpaces(s, i + 1) else i
  }

  // The end of s[lo..hi] without its trailing spaces.
  function DropSpaces(s: string, lo: nat, hi: nat): (k: nat)
    requires lo <= hi <= |s|
    ensures lo <= k <= hi
    decreases hi
  {
    if lo < hi && IsSpace(s[hi - 1]) then DropSpaces(s, lo, hi - 1) else hi
  }

  function Trim(s: string): string {
    var start := SkipSpaces(s, 0);
    s[start..DropSpaces(s, start, |s|)]
  }

  // toLowerCase, on the letters that matter to a numeral
  function Lower(s: string): (r: string)
    ensures |r| == |s|
  {
    seq(|s|, i requires 0 <= i < |s| => if 'A' <= s[i] <= 'Z' then s[i] - 'A' + 'a' else s[i])
  }

  predicate AllSpaces(s: string) {
    forall i :: 0 <= i < |s| ==> IsSpace(s[i])
  }

  // No space at either end.
  predicate Unspaced(s: string) {
    s != [] ==> !IsSpace(s[0]) && !IsSpace(s[|s| - 1])
  }

  lemma {:induction false} SkipAll(s: string, i: nat, k: nat)
    requires i <= k <= |s| && (forall j :: i <= j < k ==> IsSpace(s[j])) && (k < |s| ==> !IsSpace(s[k]))
    ensures SkipSpaces(s, i) == k
    decreases k - i
  {
    if i < k {
      SkipAll(s, i + 1, k);
    }
  }

  lemma {:induction false} DropAll(s: string, lo: nat, hi: nat, k: nat)
    requires lo <= k <= hi <= |s| && (forall j :: k <= j < hi ==> IsSpace(s[j])) && (lo < k ==> !IsSpace(s[k - 1]))
    ensures DropSpaces(s, lo, hi) == k
    decreases hi
  {
    if k < hi {
      DropAll(s, lo, hi - 1, k);
    }
  }

  /** What stands between the spaces. */
  lemma TrimSpaces(left: string, s: string, right: string)
    requires AllSpaces(left) && AllSpaces(right) && Unspaced(s)
    ensures Trim(left + s + right) == s
  {
    var raw := left + s + right;
    if s == [] {
      SkipAll(raw, 0, |raw|);
    } else {
      assert raw[|left|] == s[0] && raw[|left| + |s| - 1] == s[|s| - 1];
      SkipAll(raw, 0, |left|);
      DropAll(raw, |left|, |raw|, |left| + |s|);
    }
  }

  lemma {:induction false} SkipsSpaces(s: string, i: nat)
    requires i <= |s|
    ensures var k := SkipSpaces(s, i);
      (forall j :: i <= j < k ==> IsSpace(s[j])) && (k < |s| ==> !IsSpace(s[k]))
    decreases |s| - i
  {
    if i < |s| && IsSpace(s[i]) {
      SkipsSpaces(s, i + 1);
    }
  }

  lemma {:induction false} DropsSpaces(s: string, lo: nat, hi: nat)
    requires lo <= hi <= |s|
    ensures var k := DropSpaces(s, lo, hi);
      (forall j :: k <= j < hi ==> IsSpace(s[j])) && (lo < k ==> !IsSpace(s[k - 1]))
    decreases hi
  {
    if lo < hi && IsSpace(s[hi - 1]) {
      DropsSpaces(s, lo, hi - 1);
    }
  }

  // Every text is its trimmed text between spaces.
  lemma TrimSplits(raw: string) returns (left: string, right: string)
    ensures AllSpaces(left) && AllSpaces(right) && Unspaced(Trim(raw)) && raw == left + Trim(raw) + right
  {
    var start := SkipSpaces(raw, 0);
    var end := DropSpaces(raw, start, |raw|);
    SkipsSpaces(raw, 0);
    DropsSpaces(raw, start, |raw|);
    left, right := raw[..start], raw[end..];
  }

  lemma TrimUnspaced(s: string)
    requires Unspaced(s)
    ensures Trim(s) == s
  {
    assert [] + s + [] == s;
    TrimSpaces([], s, []);
  }

  lemma TrimNumeral(b: nat, s: string)
    requires b <= 16 && IsNumeral(b, s)
    ensures Trim(s) == s && Lower(s) == s
  {
    TrimUnspaced(s);
    forall i | 0 <= i < |s|
      ensures Lower(s)[i] == s[i]
    {
      assert CharDigit(s[i]) < 16;
    }
  }
}
