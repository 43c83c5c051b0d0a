/**
  The bit vectors of block inventories (BlocksInvData in src/net/codec.rs).
 */
module Inventory {

  import opened Numerals
  import opened Wire
  import opened Messages

  /** `x & (1 << j) != 0` */
  predicate HasBit(x: u8, j: nat)
    requires j < 8
  {
    x / Bit(j) % 2 == 1
  }

  /** `x | (1 << j)` */
  function SetBit(x: u8, j: nat): (y: nat)
    requires j < 8
  {
    if HasBit(x, j) then x else x + Bit(j)
  }

  function BitDigits(bits: seq<bool>): (ds: seq<nat>)
    ensures |ds| == |bits| && AreDigits(ds, 2)
    ensures forall i :: 0 <= i < |bits| ==> ds[i] == if bits[i] then 1 else 0
  {
    seq(|bits|, i requires 0 <= i < |bits| => if bits[i] then 1 else 0)
  }

  /** Up to eight flags as a number, the first flag in the lowest bit. */
  function Octet(bits: seq<bool>): (x: nat)
  {
    ValueLE(BitDigits(bits), 2)
  }

  lemma OctetBound(bits: seq<bool>)
    requires |bits| <= 8
    ensures Octet(bits) < Pow(2, |bits|) && Octet(bits) < 256
  {
    var ds := BitDigits(bits);
    ReversedValue(ds, 2);
    ValueBound(Reversed(ds), 2);
    PowMono(2, |bits|, 8);
    assert Pow(2, 8) == 256;
  }

  /** Setting the next bit appends a flag. */
  lemma OctetAppend(bits: seq<bool>, bit: bool)
    requires |bits| < 8
    ensures Octet(bits) < 256 && Octet(bits + [bit]) == if bit then SetBit(Octet(bits), |bits|) else Octet(bits)
  {
    hide Octet, HasBit, Bit, Pow;
    OctetBound(bits);
    OctetAdds(bits, bit);
    HighBitClear(Octet(bits), |bits|);
  }

  lemma OctetAdds(bits: seq<bool>, bit: bool)
    ensures Octet(bits + [bit]) == Octet(bits) + if bit then Pow(2, |bits|) else 0
  {
    hide Pow, ValueLE, BitDigits;
    DigitsAppend(bits, bit);
    ValueLEAppend(BitDigits(bits), if bit then 1 else 0, 2);
  }

  lemma DigitsAppend(bits: seq<bool>, bit: bool)
    ensures BitDigits(bits + [bit]) == BitDigits(bits) + [if bit then 1 else 0]
  {
    hide BitDigits;
  }

  lemma HighBitClear(x: u8, j: nat)
    requires j < 8 && x < Pow(2, j)
    ensures !HasBit(x, j)
  {
    hide Pow, Bit;
    assert x / Bit(j) == 0;
  }

  /** The flags can be read back from the number. */
  lemma OctetBit(bits: seq<bool>, j: nat)
    requires |bits| <= 8 && j < |bits|
    ensures Octet(bits) < 256 && (HasBit(Octet(bits), j) <==> bits[j])
  {
    OctetBound(bits);
    DigitAt(BitDigits(bits), 2, j);
  }

  /** Octet `i` of the bit vector holds flags 8 i to 8 i + 7, as far as there are any. */
  function Chunk(bits: seq<bool>, i: nat): (r: seq<bool>)
    requires 8 * i <= |bits|
    ensures |r| <= 8
  {
    if 8 * i + 8 <= |bits| then bits[8 * i..8 * i + 8] else bits[8 * i..]
  }

  ghost predicate Compresses(bits: seq<bool>, v: seq<u8>)
  {
    |v| == BitvecLen(|bits|) && forall i :: 0 <= i < |v| ==> v[i] == Octet(Chunk(bits, i))
  }

  /** `compress_bools` */
  method CompressBools(bits: seq<bool>) returns (bitvec: seq<u8>)
    ensures Compresses(bits, bitvec)
  {
    hide Octet, Chunk;
    bitvec := [];
    for i := 0 to |bits| / 8
      invariant |bitvec| == i && forall k :: 0 <= k < i ==> bitvec[k] == Octet(Chunk(bits, k))
    {
      FullChunk(bits, i);
      var nextOctet := PackOctet(bits[8 * i..8 * i + 8]);
      bitvec := bitvec + [nextOctet];
    }
    if |bits| % 8 != 0 {
      LastChunk(bits);
      var lastOctet := PackOctet(bits[|bits| / 8 * 8..]);
      bitvec := bitvec + [lastOctet];
    }
  }

  lemma FullChunk(bits: seq<bool>, i: nat)
    requires i < |bits| / 8
    ensures 8 * i + 8 <= |bits| && Chunk(bits, i) == bits[8 * i..8 * i + 8]
  {
  }

  lemma LastChunk(bits: seq<bool>)
    requires |bits| % 8 != 0
    ensures |bits| / 8 * 8 <= |bits| < |bits| / 8 * 8 + 8 && Chunk(bits, |bits| / 8) == bits[|bits| / 8 * 8..]
  {
  }

  /** The inner loop. */
  method PackOctet(bits: seq<bool>) returns (octet: u8)
    requires |bits| <= 8
    ensures octet == Octet(bits)
  {
    octet := 0;
    for j := 0 to |bits|
      invariant octet == Octet(bits[..j])
    {
      assert bits[..j + 1] == bits[..j] + [bits[j]];
      OctetAppend(bits[..j], bits[j]);
      OctetBound(bits[..j + 1]);
      if bits[j] {
        octet := SetBit(octet, j);
      }
    }
    assert bits[..|bits|] == bits;
  }

  /** `has_ith_block`, `has_ith_microblock_stream`: bit `i`, when the inventory has that many. */
  predicate HasIth(bitlen: u16, v: seq<u8>, i: u16)
    requires |v| == BitvecLen(bitlen)
  {
    i < bitlen && HasBit(v[i / 8], i % 8)
  }

  lemma CompressedBit(bits: seq<bool>, v: seq<u8>, i: u16)
    requires Compresses(bits, v) && |bits| < 0x1_0000
    ensures HasIth(|bits|, v, i) <==> i < |bits| && bits[i]
  {
    if i < |bits| {
      var k, j := i / 8, i % 8;
      assert v[k] == Octet(Chunk(bits, k));
      OctetBit(Chunk(bits, k), j);
      assert Chunk(bits, k)[j] == bits[8 * k + j];
    }
  }

  /** Eight flags a byte, the first in the lowest bit, and as many bytes as that takes. */
  lemma FlagPlace(bits: seq<bool>, v: seq<u8>, k: nat, j: nat)
    requires Compresses(bits, v) && |bits| < 0x1_0000 && j < 8 && 8 * k + j < |bits|
    ensures |v| == (|bits| + 7) / 8 && k < |v| && Pow(2, j) > 0
    ensures v[k] / Pow(2, j) % 2 == 1 <==> bits[8 * k + j]
  {
    hide Pow, Octet, Chunk;
    var i := 8 * k + j;
    assert i / 8 == k && i % 8 == j;
    CompressedBit(bits, v, i);
    assert Bit(j) == Pow(2, j);
  }

  /** Different flags give different bit vectors. */
  lemma CompressInjective(a: seq<bool>, b: seq<bool>, v: seq<u8>)
    requires |a| == |b| < 0x1_0000 && Compresses(a, v) && Compresses(b, v)
    ensures a == b
  {
    forall i | 0 <= i < |a|
      ensures a[i] == b[i]
    {
      CompressedBit(a, v, i);
      CompressedBit(b, v, i);
    }
  }

  /** An inventory of any flags survives the wire, and answers for each flag, and for no other. */
  lemma InventoryAgrees(a: seq<bool>, b: seq<bool>, v: seq<u8>, w: seq<u8>, rest: seq<u8>, i: u16)
    requires 1 <= |a| == |b| < 0x1_0000 && Compresses(a, v) && Compresses(b, w)
    ensures var r := ReadBlocksInv(WriteContent(BlocksInv(|a|, v, w), rest));
            && r == Ok(BlocksInv(|a|, v, w), rest)
            && (HasIth(r.value.bitlen, r.value.blockBitvec, i) <==> i < |a| && a[i])
            && (HasIth(r.value.bitlen, r.value.microblocksBitvec, i) <==> i < |b| && b[i])
  {
    hide WriteContent, ReadBlocksInv, Octet, HasBit;
    InvRoundTrip(|a|, v, w, rest);
    CompressedBit(a, v, i);
    CompressedBit(b, w, i);
  }
}
