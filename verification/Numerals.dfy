/**
  Positional numerals, most significant digit first.

  Every codec of the node that changes the base of a byte string (base58,
  Crockford-32, big-endian integers, binary address text) is specified against
  the definitions of this module.
 */
module Numerals {

  type u8 = x: int | 0 <= x < 0x100

  function Pow(base: nat, n: nat): (p: nat)
  {
    if n == 0 then 1 else base * Pow(base, n - 1)
  }

  predicate AreDigits(ds: seq<nat>, base: nat)
  {
    forall i :: 0 <= i < |ds| ==> ds[i] < base
  }

  /** The number that `ds` denotes in the given base. */
  function Value(ds: seq<nat>, base: nat): (v: nat)
  {
    if ds == [] then 0 else Value(ds[..|ds| - 1], base) * base + ds[|ds| - 1]
  }

  function Zeros(n: nat): (zs: seq<nat>)
    ensures |zs| == n && forall i :: 0 <= i < n ==> zs[i] == 0
  {
    seq(n, _ => 0)
  }

  /** How many zeros `ds` starts with. */
  function LeadingZeros(ds: seq<nat>): (n: nat)
    ensures n <= |ds|
    ensures forall i :: 0 <= i < n ==> ds[i] == 0
    ensures n < |ds| ==> ds[n] != 0
  {
    if ds == [] || ds[0] != 0 then 0 else 1 + LeadingZeros(ds[1..])
  }

  /** `n` written in the given base without leading zeros; zero is the empty numeral. */
  function Canonical(n: nat, base: nat): (ds: seq<nat>)
    requires 2 <= base
    ensures AreDigits(ds, base)
    ensures ds == [] <==> n == 0
    ensures ds != [] ==> ds[0] != 0
  {
    if n == 0 then []
    else
      DivSmaller(n, base);
      Canonical(n / base, base) + [n % base]
  }

  lemma DivSmaller(n: nat, base: nat)
    requires 2 <= base && 0 < n
    ensures 0 <= n / base < n
    ensures n / base == 0 ==> n % base == n
    ensures n / base * base + n % base == n
  {
  }

  lemma {:induction false} CanonicalValue(n: nat, base: nat)
    requires 2 <= base
    ensures Value(Canonical(n, base), base) == n
  {
    if n != 0 {
      DivSmaller(n, base);
      CanonicalValue(n / base, base);
      var high := Canonical(n / base, base);
      assert (high + [n % base])[..|high|] == high;
    }
  }

  /**
    Leading zeros are copied one for one and the rest is rewritten in the other
    base.  This is the common meaning of the base58 and Crockford-32 codecs.
   */
  function Transcode(ds: seq<nat>, from: nat, to: nat): (r: seq<nat>)
    requires 2 <= to
    ensures AreDigits(r, to)
  {
    Zeros(LeadingZeros(ds)) + Canonical(Value(ds, from), to)
  }

  lemma {:induction false} ValuePrepend(d: nat, ds: seq<nat>, base: nat)
    ensures Value([d] + ds, base) == d * Pow(base, |ds|) + Value(ds, base)
  {
    if ds == [] {
      assert Value([d], base) == Value([d][..0], base) * base + d;
    } else {
      var n := |ds| - 1;
      ValuePrepend(d, ds[..n], base);
      assert ([d] + ds)[..n + 1] == [d] + ds[..n];
      PrependStep(d, Pow(base, n), Value(ds[..n], base), base);
    }
  }

  lemma PrependStep(d: int, p: int, v: int, base: int)
    ensures (d * p + v) * base == d * (base * p) + v * base
  {
    MulSwap(d, p, base);
  }

  lemma MulSwap(a: int, b: int, c: int)
    ensures a * b * c == a * (c * b)
  {
  }

  lemma {:induction false} ValueBound(ds: seq<nat>, base: nat)
    requires AreDigits(ds, base)
    ensures Value(ds, base) < Pow(base, |ds|)
  {
    if ds != [] {
      var n := |ds| - 1;
      ValueBound(ds[..n], base);
      BoundStep(Value(ds[..n], base), Pow(base, n), base, ds[n]);
    }
  }

  lemma BoundStep(v: nat, p: nat, base: nat, d: nat)
    requires v < p && d < base
    ensures v * base + d < p * base
  {
    MulMono(v + 1, p, base);
    assert (v + 1) * base == v * base + base;
  }

  lemma MulMono(a: int, b: int, c: nat)
    requires a <= b
    ensures a * c <= b * c
  {
  }

  /** Two numerals with nonzero leading digit that denote the same number are equal. */
  lemma {:induction false} Unique(a: seq<nat>, b: seq<nat>, base: nat)
    requires 2 <= base && AreDigits(a, base) && AreDigits(b, base)
    requires a != [] ==> a[0] != 0
    requires b != [] ==> b[0] != 0
    requires Value(a, base) == Value(b, base)
    ensures a == b
  {
    if a == [] || b == [] {
      NonzeroValue(a, base);
      NonzeroValue(b, base);
    } else {
      var m, n := |a| - 1, |b| - 1;
      DivUnique(Value(a[..m], base), a[m], Value(b[..n], base), b[n], base);
      Unique(a[..m], b[..n], base);
      assert a == a[..m] + [a[m]] && b == b[..n] + [b[n]];
    }
  }

  lemma {:induction false} NonzeroValue(a: seq<nat>, base: nat)
    requires 2 <= base
    requires a != [] ==> a[0] != 0
    ensures a != [] ==> Value(a, base) > 0
  {
    if |a| > 1 {
      NonzeroValue(a[..|a| - 1], base);
    }
  }

  lemma DivUnique(p: nat, x: nat, q: nat, y: nat, base: nat)
    requires x < base && y < base && p * base + x == q * base + y
    ensures p == q && x == y
  {
    if p < q {
      MulMono(p + 1, q, base);
    } else if q < p {
      MulMono(q + 1, p, base);
    }
  }

  lemma {:induction false} ValueSkipsZeros(n: nat, ds: seq<nat>, base: nat)
    ensures Value(Zeros(n) + ds, base) == Value(ds, base)
  {
    hide Value, Pow, Zeros;
    if n == 0 {
      assert Zeros(n) + ds == ds;
    } else {
      ValueSkipsZeros(n - 1, ds, base);
      ValuePrepend(0, Zeros(n - 1) + ds, base);
      assert Zeros(n) + ds == [0] + (Zeros(n - 1) + ds);
    }
  }

  lemma {:induction false} LeadingZerosOfPadded(n: nat, ds: seq<nat>)
    requires ds != [] ==> ds[0] != 0
    ensures LeadingZeros(Zeros(n) + ds) == n
  {
    if n > 0 {
      LeadingZerosOfPadded(n - 1, ds);
      assert (Zeros(n) + ds)[1..] == Zeros(n - 1) + ds;
    }
  }

  /** A numeral is its leading zeros followed by the canonical numeral of its value. */
  lemma SplitLeadingZeros(ds: seq<nat>, base: nat)
    requires 2 <= base && AreDigits(ds, base)
    ensures ds == Zeros(LeadingZeros(ds)) + Canonical(Value(ds, base), base)
  {
    var n := LeadingZeros(ds);
    assert ds == Zeros(n) + ds[n..];
    ValueSkipsZeros(n, ds[n..], base);
    CanonicalValue(Value(ds, base), base);
    Unique(ds[n..], Canonical(Value(ds, base), base), base);
  }

  /**
    Changing base is a bijection between digit strings: every string of
    `from`-digits comes back unchanged, leading zeros included.
   */
  lemma TranscodeInverse(ds: seq<nat>, from: nat, to: nat)
    requires 2 <= from && 2 <= to && AreDigits(ds, from)
    ensures Transcode(Transcode(ds, from, to), to, from) == ds
  {
    var n, v := LeadingZeros(ds), Value(ds, from);
    LeadingZerosOfPadded(n, Canonical(v, to));
    ValueSkipsZeros(n, Canonical(v, to), to);
    CanonicalValue(v, to);
    SplitLeadingZeros(ds, from);
  }

  lemma {:induction false} PowMono(base: nat, m: nat, n: nat)
    requires 1 <= base && m <= n
    ensures 1 <= Pow(base, m) <= Pow(base, n)
  {
    if n > m {
      PowMono(base, m, n - 1);
    } else if n > 0 {
      PowMono(base, n - 1, n - 1);
    }
  }

  lemma {:induction false} PowAdd(base: nat, m: nat, n: nat)
    ensures Pow(base, m + n) == Pow(base, m) * Pow(base, n)
  {
    if m > 0 {
      PowAdd(base, m - 1, n);
      MulAssoc(base, Pow(base, m - 1), Pow(base, n));
    }
  }

  lemma MulAssoc(a: int, b: int, c: int)
    ensures a * (b * c) == a * b * c
  {
  }

  /** The value of a numeral, least significant digit first. */
  function ValueLE(ds: seq<nat>, base: nat): (v: nat)
  {
    if ds == [] then 0 else ds[0] + base * ValueLE(ds[1..], base)
  }

  function Reversed<T>(s: seq<T>): (r: seq<T>)
    ensures |r| == |s|
    ensures forall i :: 0 <= i < |s| ==> r[i] == s[|s| - 1 - i]
  {
    seq(|s|, i requires 0 <= i < |s| => s[|s| - 1 - i])
  }

  lemma {:induction false} ReversedValue(ds: seq<nat>, base: nat)
    ensures Value(Reversed(ds), base) == ValueLE(ds, base)
  {
    if ds != [] {
      ReversedValue(ds[1..], base);
      assert Reversed(ds)[..|ds| - 1] == Reversed(ds[1..]);
    }
  }

  /** Appending a most significant digit. */
  lemma {:induction false} ValueLEAppend(ds: seq<nat>, d: nat, base: nat)
    ensures ValueLE(ds + [d], base) == ValueLE(ds, base) + d * Pow(base, |ds|)
  {
    if ds == [] {
      assert ([d])[1..] == [];
    } else {
      ValueLEAppend(ds[1..], d, base);
      assert (ds + [d])[1..] == ds[1..] + [d];
      AppendStep(base, ValueLE(ds[1..], base), d, Pow(base, |ds| - 1));
    }
  }

  lemma AppendStep(base: int, v: int, d: int, p: int)
    ensures base * (v + d * p) == base * v + d * (base * p)
  {
    MulSwap(d, p, base);
  }

  /** The most significant digit is not zero; least significant digit first. */
  predicate Trimmed(ds: seq<nat>)
  {
    ds != [] ==> ds[|ds| - 1] != 0
  }

  /** Reversing a trimmed little-endian numeral padded with zeros. */
  lemma ReversedPadded(ds: seq<nat>, v: nat, base: nat, n: nat)
    requires 2 <= base && AreDigits(ds, base) && Trimmed(ds) && ValueLE(ds, base) == v
    ensures Reversed(ds + Zeros(n)) == Zeros(n) + Canonical(v, base)
  {
    ReversedValue(ds, base);
    CanonicalValue(v, base);
    Unique(Reversed(ds), Canonical(v, base), base);
    assert Reversed(ds + Zeros(n)) == Zeros(n) + Reversed(ds);
  }

  lemma {:induction false} ValueAtLeast(ds: seq<nat>, base: nat)
    requires ds != [] && ds[0] != 0
    ensures Value(ds, base) >= Pow(base, |ds| - 1)
  {
    ValuePrepend(ds[0], ds[1..], base);
    assert ds == [ds[0]] + ds[1..];
    MulMono(1, ds[0], Pow(base, |ds| - 1));
  }

  lemma {:induction false} PowBaseMono(a: nat, b: nat, n: nat)
    requires a <= b
    ensures Pow(a, n) <= Pow(b, n)
  {
    if n > 0 {
      PowBaseMono(a, b, n - 1);
      MulMono(a, b, Pow(a, n - 1));
      MulMono(Pow(a, n - 1), Pow(b, n - 1), b);
    }
  }

  lemma SmallerBaseLonger(a: seq<nat>, b: seq<nat>, from: nat, to: nat)
    requires 2 <= to <= from && AreDigits(b, to) && Value(a, from) == Value(b, to)
    requires a != [] ==> a[0] != 0
    ensures |a| <= |b|
  {
    if |b| < |a| {
      ValueAtLeast(a, from);
      ValueBound(b, to);
      PowMono(to, |b|, |a| - 1);
      PowBaseMono(to, from, |a| - 1);
    }
  }

  /** Rewriting in a smaller base never shortens a numeral. */
  lemma TranscodeNotShorter(ds: seq<nat>, from: nat, to: nat)
    requires 2 <= to <= from
    ensures |Transcode(ds, from, to)| >= |ds|
  {
    var k, v := LeadingZeros(ds), Value(ds, from);
    assert ds == Zeros(k) + ds[k..];
    ValueSkipsZeros(k, ds[k..], from);
    CanonicalValue(v, to);
    SmallerBaseLonger(ds[k..], Canonical(v, to), from, to);
  }

  /** `to_be_bytes` of an integer that takes `k` bytes. */
  function BigEndian(n: nat, k: nat): (b: seq<u8>)
    ensures |b| == k
  {
    if k == 0 then [] else BigEndian(n / 256, k - 1) + [n % 256]
  }

  lemma {:induction false} BigEndianValue(n: nat, k: nat)
    requires n < Pow(256, k)
    ensures Value(BigEndian(n, k), 256) == n
  {
    if k > 0 {
      BigEndianValue(n / 256, k - 1);
      var high := BigEndian(n / 256, k - 1);
      assert (high + [n % 256])[..k - 1] == high;
    }
  }

  lemma {:induction false} BigEndianOfValue(b: seq<u8>)
    ensures BigEndian(Value(b, 256), |b|) == b
  {
    if b != [] {
      var k := |b| - 1;
      BigEndianOfValue(b[..k]);
      DivUnique(Value(b, 256) / 256, Value(b, 256) % 256, Value(b[..k], 256), b[k], 256);
      assert b == b[..k] + [b[k]];
    }
  }

  // ---------------------------------------------------------------- single digits

  /** `1 << k` */
  function Bit(k: nat): (p: nat)
    requires k < 8
    ensures p == Pow(2, k)
  {
    assert Pow(2, 2) == 4 && Pow(2, 3) == 8 && Pow(2, 4) == 16 && Pow(2, 5) == 32 && Pow(2, 6) == 64
           && Pow(2, 7) == 128;
    if k == 0 then 1 else if k == 1 then 2 else if k == 2 then 4 else if k == 3 then 8
    else if k == 4 then 16 else if k == 5 then 32 else if k == 6 then 64 else 128
  }

  lemma DivSplit(d: nat, r: nat, base: nat, p: nat)
    requires d < base && 0 < p
    ensures 0 < base * p && (d + base * r) / (base * p) == r / p
  {
    var q, m := r / p, r % p;
    var n := base * p;
    MulMono(m + 1, p, base);
    calc {
      d + base * r;
      d + base * (q * p + m);
      { DistributeLeft(base, q * p, m); }
      base * (q * p) + (base * m + d);
      { MulSwap3(base, q, p); }
      q * n + (base * m + d);
    }
    DivIs(d + base * r, n, q, base * m + d);
  }

  lemma DistributeLeft(a: int, b: int, c: int)
    ensures a * (b + c) == a * b + a * c
  {
  }

  lemma MulSwap3(a: int, b: int, c: int)
    ensures a * (b * c) == b * (a * c)
  {
  }

  lemma DivIs(x: nat, n: nat, q: nat, m: nat)
    requires 0 < n && x == q * n + m && m < n
    ensures x / n == q && x % n == m
  {
    DivUnique(x / n, x % n, q, m, n);
  }

  lemma {:induction false} PowPositive(base: nat, k: nat)
    requires 0 < base
    ensures 0 < Pow(base, k)
  {
    if k > 0 {
      PowPositive(base, k - 1);
      MulMono(1, Pow(base, k - 1), base);
    }
  }

  /** Digit `k` of a number, least significant digit first. */
  lemma {:induction false} DigitAt(ds: seq<nat>, base: nat, k: nat)
    requires 0 < base && AreDigits(ds, base) && k < |ds|
    ensures 0 < Pow(base, k) && ValueLE(ds, base) / Pow(base, k) % base == ds[k]
  {
    PowPositive(base, k);
    var v := ValueLE(ds[1..], base);
    if k == 0 {
      assert ValueLE(ds, base) == v * base + ds[0];
      DivIs(ValueLE(ds, base), base, v, ds[0]);
    } else {
      DigitAt(ds[1..], base, k - 1);
      DivSplit(ds[0], v, base, Pow(base, k - 1));
    }
  }
}
