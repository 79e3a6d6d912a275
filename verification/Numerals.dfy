// Positional numerals: the common ground of decimal strings (base 10), hex strings (base 16)
// and byte buffers (base 256), big-endian and little-endian.
module Numerals {

  type byte = b: nat | b < 256

  // Number.MAX_SAFE_INTEGER
  const MAX_SAFE_INTEGER: nat := 9007199254740991

  function Pow(b: nat, w: nat): (r: nat)
    ensures b > 0 ==> r > 0
  {
    if w == 0 then 1 else b * Pow(b, w - 1)
  }

  // Quotient and remainder, named so that the solver meets a division only where it is needed.
  function Quot(n: nat, b: nat): (q: nat)
    requires b > 0
  {
    n / b
  }

  function Rem(n: nat, b: nat): (r: nat)
    requires b > 0
    ensures r < b
  {
    n % b
  }

  predicate Below(b: nat, ds: seq<nat>) {
    forall i :: 0 <= i < |ds| ==> ds[i] < b
  }

  // Most significant digit first.
  function FromBE(b: nat, ds: seq<nat>): nat {
    if ds == [] then 0 else FromBE(b, ds[..|ds| - 1]) * b + ds[|ds| - 1]
  }

  function ToBE(b: nat, n: nat, w: nat): (ds: seq<nat>)
    requires b > 0
    ensures |ds| == w && Below(b, ds)
    decreases w
  {
    if w == 0 then [] else ToBE(b, Quot(n, b), w - 1) + [Rem(n, b)]
  }

  // Least significant digit first.
  function FromLE(b: nat, ds: seq<nat>): nat {
    if ds == [] then 0 else ds[0] + b * FromLE(b, ds[1..])
  }

  function ToLE(b: nat, n: nat, w: nat): (ds: seq<nat>)
    requires b > 0
    ensures |ds| == w && Below(b, ds)
    decreases w
  {
    if w == 0 then [] else [Rem(n, b)] + ToLE(b, Quot(n, b), w - 1)
  }

  // The shortest numeral, as a JavaScript toString prints it.
  function ToMinimal(b: nat, n: nat): (ds: seq<nat>)
    requires b > 1
    ensures |ds| > 0 && Below(b, ds)
    decreases n
  {
    if n < b then [n] else DivSmaller(n, b); ToMinimal(b, Quot(n, b)) + [Rem(n, b)]
  }

  predicate Canonical(ds: seq<nat>) {
    |ds| > 0 && (|ds| > 1 ==> ds[0] != 0)
  }

  function Zeros(n: nat): (ds: seq<nat>)
    ensures |ds| == n && forall i :: 0 <= i < n ==> ds[i] == 0
  {
    seq(n, i => 0)
  }

  // padStart(w, "0")
  function PadStart(ds: seq<nat>, w: nat): seq<nat> {
    if |ds| < w then Zeros(w - |ds|) + ds else ds
  }

  function Reverse<T>(s: seq<T>): (r: seq<T>)
    ensures |r| == |s| && forall i :: 0 <= i < |s| ==> r[i] == s[|s| - 1 - i]
  {
    if s == [] then [] else Reverse(s[1..]) + [s[0]]
  }

  // What quotient and remainder mean, without division.
  lemma DivMod(q: nat, r: nat, b: nat)
    requires r < b
    ensures Quot(q * b + r, b) == q && Rem(q * b + r, b) == r
  {
    Unique(q, r, Quot(q * b + r, b), Rem(q * b + r, b), b);
  }

  // A pair of quotient and remainder is unique.
  lemma Unique(q: nat, r: nat, q': nat, r': nat, b: nat)
    requires r < b && r' < b && q * b + r == q' * b + r'
    ensures q == q' && r == r'
  {
    assert (q + 1) * b == q * b + b && (q' + 1) * b == q' * b + b;
    if q < q' {
      MulMono(b, q + 1, q');
    } else if q' < q {
      MulMono(b, q' + 1, q);
    }
  }

  lemma Division(n: nat, b: nat)
    requires b > 0
    ensures n == Quot(n, b) * b + Rem(n, b)
  {
  }

  lemma MulMono(b: nat, x: nat, y: nat)
    requires x <= y
    ensures b * x <= b * y && x * b <= y * b
  {
  }

  lemma DivSmaller(n: nat, b: nat)
    requires b > 1 && n > 0
    ensures Quot(n, b) < n
  {
    Division(n, b);
    MulMono(Quot(n, b), 2, b);
  }

  // A quotient fits in one digit less.
  lemma DivBelow(n: nat, b: nat, p: nat)
    requires b > 0 && n < b * p
    ensures Quot(n, b) < p
  {
    Division(n, b);
    if Quot(n, b) >= p {
      MulMono(b, p, Quot(n, b));
    }
  }

  lemma BESnoc(b: nat, ds: seq<nat>, d: nat)
    ensures FromBE(b, ds + [d]) == FromBE(b, ds) * b + d
  {
    assert (ds + [d])[..|ds|] == ds;
  }

  lemma {:induction false} PowAdd(b: nat, v: nat, w: nat)
    ensures Pow(b, v + w) == Pow(b, v) * Pow(b, w)
  {
    if v > 0 {
      PowAdd(b, v - 1, w);
      MulAssoc(b, Pow(b, v - 1), Pow(b, w));
    }
  }

  lemma MulAssoc(x: nat, y: nat, z: nat)
    ensures x * (y * z) == (x * y) * z
  {
  }

  lemma {:induction false} FromBEBound(b: nat, ds: seq<nat>)
    requires b > 0 && Below(b, ds)
    ensures FromBE(b, ds) < Pow(b, |ds|)
  {
    if ds != [] {
      var init := ds[..|ds| - 1];
      FromBEBound(b, init);
      MulMono(b, FromBE(b, init) + 1, Pow(b, |init|));
      assert (FromBE(b, init) + 1) * b == FromBE(b, init) * b + b;
    }
  }

  lemma {:induction false} BERoundTrip(b: nat, n: nat, w: nat)
    requires b > 0 && n < Pow(b, w)
    ensures FromBE(b, ToBE(b, n, w)) == n
    decreases w
  {
    if w > 0 {
      DivBelow(n, b, Pow(b, w - 1));
      Division(n, b);
      BERoundTrip(b, Quot(n, b), w - 1);
      assert ToBE(b, n, w)[..w - 1] == ToBE(b, Quot(n, b), w - 1);
    }
  }

  lemma {:induction false} BEOfDigits(b: nat, ds: seq<nat>)
    requires b > 0 && Below(b, ds)
    ensures ToBE(b, FromBE(b, ds), |ds|) == ds
  {
    if ds != [] {
      var init := ds[..|ds| - 1];
      BEOfDigits(b, init);
      DivMod(FromBE(b, init), ds[|ds| - 1], b);
      assert ds == init + [ds[|ds| - 1]];
    }
  }

  lemma {:induction false} LERoundTrip(b: nat, n: nat, w: nat)
    requires b > 0 && n < Pow(b, w)
    ensures FromLE(b, ToLE(b, n, w)) == n
    decreases w
  {
    if w > 0 {
      DivBelow(n, b, Pow(b, w - 1));
      Division(n, b);
      LERoundTrip(b, Quot(n, b), w - 1);
      assert ToLE(b, n, w)[1..] == ToLE(b, Quot(n, b), w - 1);
    }
  }

  lemma {:induction false} LEOfDigits(b: nat, ds: seq<nat>)
    requires b > 0 && Below(b, ds)
    ensures ToLE(b, FromLE(b, ds), |ds|) == ds
  {
    if ds != [] {
      LEOfDigits(b, ds[1..]);
      DivMod(FromLE(b, ds[1..]), ds[0], b);
      assert FromLE(b, ds) == FromLE(b, ds[1..]) * b + ds[0];
    }
  }

  lemma {:induction false} FromLEBound(b: nat, ds: seq<nat>)
    requires b > 0 && Below(b, ds)
    ensures FromLE(b, ds) < Pow(b, |ds|)
  {
    if ds != [] {
      FromLEBound(b, ds[1..]);
      MulMono(b, FromLE(b, ds[1..]) + 1, Pow(b, |ds| - 1));
      assert b * (FromLE(b, ds[1..]) + 1) == b * FromLE(b, ds[1..]) + b;
    }
  }

  lemma {:induction false} MinimalRoundTrip(b: nat, n: nat)
    requires b > 1
    ensures FromBE(b, ToMinimal(b, n)) == n && Canonical(ToMinimal(b, n))
    ensures n > 0 ==> ToMinimal(b, n)[0] != 0
    decreases n
  {
    var ds := ToMinimal(b, n);
    if n < b {
      assert FromBE(b, []) == 0;
      assert ds[..0] == [];
    } else {
      DivSmaller(n, b);
      Division(n, b);
      MinimalRoundTrip(b, Quot(n, b));
      assert ds[..|ds| - 1] == ToMinimal(b, Quot(n, b));
    }
  }

  lemma {:induction false} FromBEPositive(b: nat, ds: seq<nat>)
    requires b > 0 && |ds| > 0 && ds[0] != 0
    ensures FromBE(b, ds) >= Pow(b, |ds| - 1)
  {
    if |ds| > 1 {
      var init := ds[..|ds| - 1];
      FromBEPositive(b, init);
      MulMono(b, Pow(b, |init| - 1), FromBE(b, init));
    } else {
      assert ds[..0] == [];
    }
  }

  lemma {:induction false} MinimalOfDigits(b: nat, ds: seq<nat>)
    requires b > 1 && Below(b, ds) && Canonical(ds)
    ensures ToMinimal(b, FromBE(b, ds)) == ds
  {
    var init, last := ds[..|ds| - 1], ds[|ds| - 1];
    var v := FromBE(b, init);
    assert ds == init + [last];
    if |ds| == 1 {
      assert init == [] && v == 0;
    } else {
      FromBEPositive(b, init);
      MinimalOfDigits(b, init);
      MinimalStep(b, v, last);
      assert FromBE(b, ds) == v * b + last;
    }
  }

  lemma MinimalStep(b: nat, v: nat, last: nat)
    requires b > 1 && v > 0 && last < b
    ensures ToMinimal(b, v * b + last) == ToMinimal(b, v) + [last]
  {
    MulMono(b, 1, v);
    DivMod(v, last, b);
  }

  lemma {:induction false} LeadingZero(b: nat, ds: seq<nat>)
    ensures FromBE(b, [0] + ds) == FromBE(b, ds)
  {
    if ds == [] {
      assert ([0] + ds)[..0] == [];
    } else {
      LeadingZero(b, ds[..|ds| - 1]);
      assert ([0] + ds)[..|ds|] == [0] + ds[..|ds| - 1];
    }
  }

  lemma {:induction false} LeadingZeros(b: nat, k: nat, ds: seq<nat>)
    ensures FromBE(b, Zeros(k) + ds) == FromBE(b, ds)
  {
    if k == 0 {
      assert Zeros(0) + ds == ds;
    } else {
      LeadingZeros(b, k - 1, ds);
      LeadingZero(b, Zeros(k - 1) + ds);
      assert Zeros(k) + ds == [0] + (Zeros(k - 1) + ds);
    }
  }

  lemma PadStartValue(b: nat, ds: seq<nat>, w: nat)
    requires b > 0 && Below(b, ds)
    ensures FromBE(b, PadStart(ds, w)) == FromBE(b, ds) && Below(b, PadStart(ds, w))
    ensures |PadStart(ds, w)| == if |ds| < w then w else |ds|
  {
    if |ds| < w {
      LeadingZeros(b, w - |ds|, ds);
    }
  }

  lemma {:induction false} FixedUnique(b: nat, n: nat, w: nat, ds: seq<nat>)
    requires b > 0 && Below(b, ds) && |ds| == w && FromBE(b, ds) == n
    ensures ds == ToBE(b, n, w)
  {
    BEOfDigits(b, ds);
  }

  // Padding the shortest numeral with zeros gives the numeral of fixed width.
  lemma {:induction false} PadStartIsFixed(b: nat, n: nat, w: nat)
    requires b > 1 && n < Pow(b, w) && w > 0
    ensures PadStart(ToMinimal(b, n), w) == ToBE(b, n, w)
  {
    var ds := ToMinimal(b, n);
    MinimalLength(b, n, w);
    MinimalRoundTrip(b, n);
    PadStartValue(b, ds, w);
    FixedUnique(b, n, w, PadStart(ds, w));
  }

  lemma {:induction false} PowMono(b: nat, v: nat, w: nat)
    requires b > 0 && v <= w
    ensures Pow(b, v) <= Pow(b, w)
  {
    if v < w {
      PowMono(b, v, w - 1);
      MulMono(Pow(b, w - 1), 1, b);
    }
  }

  // The shortest numeral of n has at most w digits exactly when n is below b^w.
  lemma {:induction false} MinimalLength(b: nat, n: nat, w: nat)
    requires b > 1 && w > 0
    ensures |ToMinimal(b, n)| <= w <==> n < Pow(b, w)
  {
    var ds := ToMinimal(b, n);
    MinimalRoundTrip(b, n);
    FromBEBound(b, ds);
    if |ds| <= w {
      PowMono(b, |ds|, w);
    } else if n > 0 {
      FromBEPositive(b, ds);
      PowMono(b, w, |ds| - 1);
    }
  }
}
