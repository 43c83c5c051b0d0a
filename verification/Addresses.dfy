/** What the two address codecs share (src/address/mod.rs). */
module Addresses {

  import opened Numerals

  datatype Error =
    | InvalidCrockford32
    | InvalidVersion(version: u8)
    | BadByte(b: u8)
    | BadChecksum(expected: nat, actual: nat)
    | TooShort(len: nat)

  /** How many elements at the front are `x`. */
  function CountLeading<T(==)>(s: seq<T>, x: T): (n: nat)
    ensures n <= |s|
    ensures forall i :: 0 <= i < n ==> s[i] == x
    ensures n < |s| ==> s[n] != x
  {
    if s == [] || s[0] != x then 0 else 1 + CountLeading(s[1..], x)
  }

  /** `u32::from_le_bytes`, and the low word of a digest read as a little-endian integer. */
  function LowU32(b: seq<u8>): (n: nat)
    requires |b| >= 4
  {
    ValueLE(b[..4], 256)
  }

  lemma LowU32Is(b: seq<u8>)
    requires |b| >= 4
    ensures var w: seq<nat> := b; LowU32(b) == w[0] + 0x100 * w[1] + 0x1_0000 * w[2] + 0x100_0000 * w[3]
  {
    var x: seq<nat> := b[..4];
    assert x[1..][1..] == x[2..] && x[2..][1..] == x[3..] && x[3..][1..] == [];
    assert ValueLE(x[3..], 256) == x[3];
    assert ValueLE(x[2..], 256) == x[2] + 256 * x[3];
    assert ValueLE(x[1..], 256) == x[1] + 256 * ValueLE(x[2..], 256);
  }

  lemma LowU32Injective(a: seq<u8>, b: seq<u8>)
    requires |a| >= 4 && |b| >= 4 && LowU32(a) == LowU32(b)
    ensures a[..4] == b[..4]
  {
    var x, y: seq<u8> := a[..4], b[..4];
    assert x[1..][1..] == x[2..] && x[2..][1..] == x[3..] && x[3..][1..] == [];
    assert y[1..][1..] == y[2..] && y[2..][1..] == y[3..] && y[3..][1..] == [];
    DivUnique(ValueLE(x[1..], 256), x[0], ValueLE(y[1..], 256), y[0], 256);
    DivUnique(ValueLE(x[2..], 256), x[1], ValueLE(y[2..], 256), y[1], 256);
    DivUnique(ValueLE(x[3..], 256), x[2], ValueLE(y[3..], 256), y[2], 256);
  }
}
