/**
  Denied address ranges in the peer database (src/net/db.rs).  Addresses are stored as
  text of 128 binary digits and matched by text; single lookups mask 128-bit integers.
 */
module PeerDb {

  import opened Numerals
  import opened Wire

  /** `i64::max_value()` */
  const FOREVER: int := 0x7FFF_FFFF_FFFF_FFFF

  datatype Cidr = Cidr(prefix: Bytes16, mask: nat)

  predicate ValidCidr(c: Cidr)
  {
    0 < c.mask <= 128
  }

  /** A row of the frontier: the address as text, and until when the peer is denied. */
  datatype Peer = Peer(networkId: u32, addrText: seq<nat>, port: u16, allowed: int, denied: int)

  // ---------------------------------------------------------------- 128-bit integers

  function AddrInt(a: Bytes16): (n: nat)
  {
    Value(a, 256)
  }

  /** `x & !((1u128 << (128 - mask)) - 1)`: clear all but the first `mask` of 128 bits. */
  function Masked(x: nat, mask: nat): (y: nat)
    requires mask <= 128
  {
    PowPositive(2, 128 - mask);
    x / Pow(2, 128 - mask) * Pow(2, 128 - mask)
  }

  predicate MaskMatch(a: Bytes16, c: Cidr)
    requires ValidCidr(c)
  {
    Masked(AddrInt(c.prefix), c.mask) == Masked(AddrInt(a), c.mask)
  }

  // ---------------------------------------------------------------- binary text

  /** The last `k` binary digits of `n`, most significant first. */
  function Bits(n: nat, k: nat): (ds: seq<nat>)
    ensures |ds| == k && AreDigits(ds, 2)
  {
    if k == 0 then [] else Bits(n / 2, k - 1) + [n % 2]
  }

  /** `to_bin`: eight digits a byte; a digit stands for its character. */
  function ToBin(bytes: seq<u8>): (ds: seq<nat>)
    ensures |ds| == 8 * |bytes| && AreDigits(ds, 2)
  {
    if bytes == [] then [] else ToBin(bytes[..|bytes| - 1]) + Bits(bytes[|bytes| - 1], 8)
  }

  /** `cidr_prefix_to_string` */
  function CidrText(c: Cidr): (ds: seq<nat>)
    requires ValidCidr(c)
    ensures |ds| == 128 && AreDigits(ds, 2)
  {
    ToBin(BigEndian(Masked(AddrInt(c.prefix), c.mask), 16))
  }

  /** `SUBSTR(addrbytes, 1, mask) = SUBSTR(prefix, 1, mask)` */
  predicate TextMatch(text: seq<nat>, c: Cidr)
    requires ValidCidr(c) && |text| == 128
  {
    text[..c.mask] == CidrText(c)[..c.mask]
  }

  lemma {:induction false} ValueConcat(a: seq<nat>, b: seq<nat>, base: nat)
    ensures Value(a + b, base) == Value(a, base) * Pow(base, |b|) + Value(b, base)
  {
    if b == [] {
      assert a + b == a;
    } else {
      var n := |b| - 1;
      assert (a + b)[..|a| + n] == a + b[..n];
      ValueConcat(a, b[..n], base);
      ConcatStep(Value(a, base), Pow(base, n), Value(b[..n], base), base);
    }
  }

  lemma ConcatStep(a: int, p: int, v: int, base: int)
    ensures (a * p + v) * base == a * (base * p) + v * base
  {
    MulSwap(a, p, base);
  }

  lemma {:induction false} BitsValue(n: nat, k: nat)
    requires n < Pow(2, k)
    ensures Value(Bits(n, k), 2) == n
  {
    if k > 0 {
      BitsValue(n / 2, k - 1);
      var high := Bits(n / 2, k - 1);
      assert (high + [n % 2])[..k - 1] == high;
    }
  }

  /** The text of an address denotes the same number as its bytes. */
  lemma {:induction false} ToBinValue(bytes: seq<u8>)
    ensures Value(ToBin(bytes), 2) == Value(bytes, 256)
  {
    if bytes != [] {
      var n := |bytes| - 1;
      ToBinValue(bytes[..n]);
      EightBits(bytes[n]);
      ValueConcat(ToBin(bytes[..n]), Bits(bytes[n], 8), 2);
    }
  }

  lemma EightBits(b: u8)
    ensures Value(Bits(b, 8), 2) == b && Pow(2, 8) == 256
  {
    assert Pow(2, 8) == 256;
    BitsValue(b, 8);
  }

  /** The first `m` digits are the number without its lower ones. */
  lemma PrefixValue(ds: seq<nat>, base: nat, m: nat)
    requires 0 < base && AreDigits(ds, base) && m <= |ds|
    ensures 0 < Pow(base, |ds| - m) && Value(ds, base) / Pow(base, |ds| - m) == Value(ds[..m], base)
  {
    var high, low := ds[..m], ds[m..];
    assert ds == high + low;
    PowPositive(base, |low|);
    ValueConcat(high, low, base);
    ValueBound(low, base);
    DivIs(Value(ds, base), Pow(base, |low|), Value(high, base), Value(low, base));
  }

  /** Texts of one length are equal when they denote one number. */
  lemma {:induction false} SameText(a: seq<nat>, b: seq<nat>, base: nat)
    requires |a| == |b| && AreDigits(a, base) && AreDigits(b, base) && Value(a, base) == Value(b, base)
    ensures a == b
  {
    if a != [] {
      var n := |a| - 1;
      DivUnique(Value(a[..n], base), a[n], Value(b[..n], base), b[n], base);
      SameText(a[..n], b[..n], base);
      assert a == a[..n] + [a[n]] && b == b[..n] + [b[n]];
    }
  }

  lemma ToBinInjective(a: seq<u8>, b: seq<u8>)
    requires ToBin(a) == ToBin(b)
    ensures a == b
  {
    ToBinValue(a);
    ToBinValue(b);
    BigEndianOfValue(a);
    BigEndianOfValue(b);
  }

  lemma MaskedFacts(x: nat, mask: nat)
    requires mask <= 128 && x < Pow(256, 16)
    ensures Masked(x, mask) <= x && 0 < Pow(2, 128 - mask)
    ensures Masked(x, mask) / Pow(2, 128 - mask) == x / Pow(2, 128 - mask)
  {
    hide Pow;
    PowPositive(2, 128 - mask);
    RoundDown(x, Pow(2, 128 - mask));
  }

  lemma RoundDown(x: nat, p: nat)
    requires 0 < p
    ensures x / p * p <= x && x / p * p / p == x / p
  {
    DivIs(x / p * p, p, x / p, 0);
  }

  /** The first digits of the text of a range are those of its prefix. */
  lemma CidrTextValue(c: Cidr)
    requires ValidCidr(c)
    ensures 0 < Pow(2, 128 - c.mask)
    ensures Value(CidrText(c)[..c.mask], 2) == AddrInt(c.prefix) / Pow(2, 128 - c.mask)
  {
    hide Value, Pow, Masked, ToBin, BigEndian;
    var x := AddrInt(c.prefix);
    ValueBound(c.prefix, 256);
    MaskedFacts(x, c.mask);
    var y := Masked(x, c.mask);
    BigEndianValue(y, 16);
    ToBinValue(BigEndian(y, 16));
    PrefixValue(CidrText(c), 2, c.mask);
  }

  /**
    Comparing the first `mask` characters of the text is the same as comparing the
    addresses under the mask, for every address, range and mask.
   */
  lemma TextMatchIff(a: Bytes16, c: Cidr)
    requires ValidCidr(c)
    ensures TextMatch(ToBin(a), c) <==> MaskMatch(a, c)
  {
    hide Value, Pow, ToBin, CidrText, Masked;
    var p := Pow(2, 128 - c.mask);
    CidrTextValue(c);
    ToBinValue(a);
    PrefixValue(ToBin(a), 2, c.mask);
    ValueBound(a, 256);
    ValueBound(c.prefix, 256);
    MaskedFacts(AddrInt(a), c.mask);
    MaskedFacts(AddrInt(c.prefix), c.mask);
    MaskedAgree(AddrInt(a), AddrInt(c.prefix), c.mask);
    if AddrInt(a) / p == AddrInt(c.prefix) / p {
      SameText(ToBin(a)[..c.mask], CidrText(c)[..c.mask], 2);
    }
  }

  lemma MaskedAgree(x: nat, y: nat, mask: nat)
    requires mask <= 128
    ensures 0 < Pow(2, 128 - mask)
    ensures Masked(x, mask) == Masked(y, mask) <==> x / Pow(2, 128 - mask) == y / Pow(2, 128 - mask)
  {
    hide Pow;
    PowPositive(2, 128 - mask);
    RoundDown(x, Pow(2, 128 - mask));
    RoundDown(y, Pow(2, 128 - mask));
  }

  // ---------------------------------------------------------------- the database

  ghost predicate AddressDenied(cidrs: seq<Cidr>, a: Bytes16)
    requires forall i :: 0 <= i < |cidrs| ==> ValidCidr(cidrs[i])
  {
    exists i :: 0 <= i < |cidrs| && MaskMatch(a, cidrs[i])
  }

  /** The text of some address. */
  ghost predicate IsAddrText(text: seq<nat>)
  {
    exists a: Bytes16 :: ToBin(a) == text
  }

  method IsAddressDenied(cidrs: seq<Cidr>, a: Bytes16) returns (r: bool)
    requires forall i :: 0 <= i < |cidrs| ==> ValidCidr(cidrs[i])
    ensures r <==> AddressDenied(cidrs, a)
  {
    for i := 0 to |cidrs|
      invariant forall k :: 0 <= k < i ==> !MaskMatch(a, cidrs[k])
    {
      if MaskMatch(a, cidrs[i]) {
        return true;
      }
    }
    return false;
  }

  lemma {:induction false} BitsAt(n: nat, k: nat, i: nat)
    requires i < k
    ensures Pow(2, k - 1 - i) > 0 && Bits(n, k)[i] == n / Pow(2, k - 1 - i) % 2
  {
    PowMono(2, 0, k - 1 - i);
    if i < k - 1 {
      BitsAt(n / 2, k - 1, i);
      DivSplit(n % 2, n / 2, 2, Pow(2, k - 2 - i));
      assert n == n % 2 + 2 * (n / 2);
    } else {
      assert n / 1 == n;
    }
  }

  /** Eight characters a byte: character `j` of byte `q` is its bit `j`, the highest first. */
  lemma {:induction false} ToBinAt(bytes: seq<u8>, q: nat, j: nat)
    requires q < |bytes| && j < 8
    ensures Pow(2, 7 - j) > 0 && ToBin(bytes)[8 * q + j] == bytes[q] / Pow(2, 7 - j) % 2
  {
    hide Pow, Bits;
    var n := |bytes| - 1;
    if q < n {
      ToBinAt(bytes[..n], q, j);
      assert ToBin(bytes)[8 * q + j] == ToBin(bytes[..n])[8 * q + j];
    } else {
      BitsAt(bytes[n], 8, j);
      assert ToBin(bytes)[8 * n + j] == Bits(bytes[n], 8)[j];
    }
  }

  /** An address is in a range exactly when its first `mask` bits are those of the prefix. */
  lemma MaskMatchIff(a: Bytes16, c: Cidr)
    requires ValidCidr(c)
    ensures MaskMatch(a, c) <==> forall i :: 0 <= i < c.mask ==> ToBin(a)[i] == ToBin(c.prefix)[i]
  {
    hide ToBin, Masked, CidrText;
    TextMatchIff(a, c);
    TextMatchIff(c.prefix, c);
    var x, y := ToBin(a)[..c.mask], ToBin(c.prefix)[..c.mask];
    if forall i :: 0 <= i < c.mask ==> ToBin(a)[i] == ToBin(c.prefix)[i] {
      assert x == y;
    } else {
      var i :| 0 <= i < c.mask && ToBin(a)[i] != ToBin(c.prefix)[i];
      assert x[i] != y[i];
    }
  }

  /** Every row holds the text of an address. */
  ghost predicate ValidRows(frontier: seq<Peer>)
  {
    forall i :: 0 <= i < |frontier| ==> IsAddrText(frontier[i].addrText)
  }

  /** What a bulk update leaves of every row: everything but the column that it sets. */
  ghost predicate SameButDenied(a: seq<Peer>, b: seq<Peer>)
  {
    |a| == |b| && forall i :: 0 <= i < |a| ==> a[i] == b[i].(denied := a[i].denied)
  }

  class PeerDB {
    var frontier: seq<Peer>
    var deniedPrefixes: seq<Cidr>

    ghost predicate Valid()
      reads this
    {
      ValidRows(frontier) && forall i :: 0 <= i < |deniedPrefixes| ==> ValidCidr(deniedPrefixes[i])
    }

    method ResetDenies()
      modifies this`frontier
      ensures SameButDenied(frontier, old(frontier)) && forall i :: 0 <= i < |frontier| ==> frontier[i].denied == 0
    {
      for i := 0 to |frontier|
        invariant SameButDenied(frontier, old(frontier)) && forall k :: 0 <= k < i ==> frontier[k].denied == 0
      {
        frontier := frontier[i := frontier[i].(denied := 0)];
      }
    }

    /** Deny every row whose text starts like the range. */
    method ApplyCidrFilter(c: Cidr, value: int)
      requires Valid() && ValidCidr(c)
      modifies this`frontier
      ensures Valid() && SameButDenied(frontier, old(frontier))
      ensures forall i :: 0 <= i < |frontier| ==>
                frontier[i].denied == if TextMatch(frontier[i].addrText, c) then value else old(frontier)[i].denied
    {
      hide ToBin, TextMatch;
      for i := 0 to |frontier|
        invariant SameButDenied(frontier, old(frontier)) && ValidRows(frontier)
        invariant forall k :: 0 <= k < i ==>
                    frontier[k].denied == if TextMatch(frontier[k].addrText, c) then value else old(frontier)[k].denied
        invariant forall k :: i <= k < |frontier| ==> frontier[k] == old(frontier)[k]
      {
        if TextMatch(frontier[i].addrText, c) {
          frontier := frontier[i := frontier[i].(denied := value)];
        }
      }
    }

    /**
      Afterwards a peer is denied for good exactly when the lookup of its address says
      so, and not at all otherwise.
     */
    method RefreshDenies()
      requires Valid()
      modifies this`frontier
      ensures Valid() && SameButDenied(frontier, old(frontier))
      ensures forall i, a: Bytes16 :: 0 <= i < |frontier| && frontier[i].addrText == ToBin(a) ==>
                && frontier[i].denied == (if AddressDenied(deniedPrefixes, a) then FOREVER else 0)
                && forall now: nat :: now < FOREVER ==> (DeniedAt(frontier[i], now) <==>
                     AddressDenied(deniedPrefixes, a))
    {
      hide ToBin, TextMatch, MaskMatch;
      ResetDenies();
      for n := 0 to |deniedPrefixes|
        invariant Valid() && SameButDenied(frontier, old(frontier))
        invariant forall i :: 0 <= i < |frontier| ==>
                    frontier[i].denied == if TextDenied(deniedPrefixes[..n], frontier[i].addrText) then FOREVER else 0
      {
        ghost var was := frontier;
        ApplyCidrFilter(deniedPrefixes[n], FOREVER);
        assert deniedPrefixes[..n + 1] == deniedPrefixes[..n] + [deniedPrefixes[n]];
        forall i | 0 <= i < |frontier|
          ensures frontier[i].denied == if TextDenied(deniedPrefixes[..n + 1], frontier[i].addrText) then FOREVER else 0
        {
          TextDeniedAppend(deniedPrefixes[..n], deniedPrefixes[n], frontier[i].addrText);
        }
      }
      assert deniedPrefixes[..|deniedPrefixes|] == deniedPrefixes;
      forall i, a: Bytes16 | 0 <= i < |frontier| && frontier[i].addrText == ToBin(a)
        ensures frontier[i].denied == if AddressDenied(deniedPrefixes, a) then FOREVER else 0
      {
        TextDeniedIff(deniedPrefixes, a);
      }
    }

    method AddDenyCidr(c: Cidr)
      requires Valid() && ValidCidr(c)
      modifies this
      ensures Valid() && SameButDenied(frontier, old(frontier)) && deniedPrefixes == old(deniedPrefixes) + [c]
      ensures forall i, a: Bytes16 :: 0 <= i < |frontier| && frontier[i].addrText == ToBin(a) ==>
                frontier[i].denied == if MaskMatch(a, c) then FOREVER else old(frontier)[i].denied
    {
      hide ToBin, TextMatch, MaskMatch;
      deniedPrefixes := deniedPrefixes + [c];
      ApplyCidrFilter(c, FOREVER);
      forall i, a: Bytes16 | 0 <= i < |frontier| && frontier[i].addrText == ToBin(a)
        ensures frontier[i].denied == if MaskMatch(a, c) then FOREVER else old(frontier)[i].denied
      {
        TextMatchIff(a, c);
      }
    }

    /** `is_peer_denied`: by its own row, the first if there are several, or by its address. */
    method IsPeerDenied(networkId: u32, a: Bytes16, port: u16, now: nat) returns (r: bool)
      requires Valid()
      ensures r <==>
                || AddressDenied(deniedPrefixes, a)
                || (exists i :: IsFirstRow(frontier, i, networkId, a, port)
                      && (frontier[i].denied < 0 || now < frontier[i].denied))
      ensures forall i :: IsFirstRow(frontier, i, networkId, a, port) ==>
                frontier[i].networkId == networkId && frontier[i].addrText == ToBin(a) && frontier[i].port == port
      ensures (exists k :: 0 <= k < |frontier| && frontier[k].networkId == networkId
                 && frontier[k].addrText == ToBin(a) && frontier[k].port == port) ==>
                exists i :: IsFirstRow(frontier, i, networkId, a, port)
    {
      hide ToBin, MaskMatch;
      var byAddress := IsAddressDenied(deniedPrefixes, a);
      for i := 0 to |frontier|
        invariant forall k :: 0 <= k < i ==> !IsRow(frontier[k], networkId, a, port)
      {
        if IsRow(frontier[i], networkId, a, port) {
          assert IsFirstRow(frontier, i, networkId, a, port);
          return DeniedAt(frontier[i], now) || byAddress;
        }
      }
      return byAddress;
    }
  }

  predicate IsRow(p: Peer, networkId: u32, a: Bytes16, port: u16)
  {
    p.networkId == networkId && p.addrText == ToBin(a) && p.port == port
  }

  /** `is_denied` */
  predicate DeniedAt(p: Peer, now: nat)
  {
    p.denied < 0 || p.denied > now
  }

  /** Row `i` is the first one of this peer. */
  ghost predicate IsFirstRow(frontier: seq<Peer>, i: int, networkId: u32, a: Bytes16, port: u16)
  {
    && 0 <= i < |frontier| && IsRow(frontier[i], networkId, a, port)
    && forall k :: 0 <= k < i ==> !IsRow(frontier[k], networkId, a, port)
  }

  ghost predicate TextDenied(cidrs: seq<Cidr>, text: seq<nat>)
    requires |text| == 128 && forall i :: 0 <= i < |cidrs| ==> ValidCidr(cidrs[i])
  {
    exists i :: 0 <= i < |cidrs| && TextMatch(text, cidrs[i])
  }

  lemma TextDeniedAppend(cidrs: seq<Cidr>, c: Cidr, text: seq<nat>)
    requires |text| == 128 && ValidCidr(c) && forall i :: 0 <= i < |cidrs| ==> ValidCidr(cidrs[i])
    ensures TextDenied(cidrs + [c], text) <==> TextDenied(cidrs, text) || TextMatch(text, c)
  {
    hide TextMatch;
    var all := cidrs + [c];
    assert all[|cidrs|] == c;
    if TextDenied(cidrs, text) {
      var i :| 0 <= i < |cidrs| && TextMatch(text, cidrs[i]);
      assert all[i] == cidrs[i];
    }
  }

  lemma TextDeniedIff(cidrs: seq<Cidr>, a: Bytes16)
    requires forall i :: 0 <= i < |cidrs| ==> ValidCidr(cidrs[i])
    ensures TextDenied(cidrs, ToBin(a)) <==> AddressDenied(cidrs, a)
  {
    hide TextMatch, MaskMatch;
    forall i | 0 <= i < |cidrs|
      ensures TextMatch(ToBin(a), cidrs[i]) <==> MaskMatch(a, cidrs[i])
    {
      TextMatchIff(a, cidrs[i]);
    }
  }
}
