/**
  Integers, byte arrays and vectors on the wire (src/net/codec.rs).

  A serializer is written as a function `WriteX(x, rest)`, the bytes of `x`
  followed by `rest`; a deserializer returns the value and the bytes it left.
  Every deserializer promises in its contract that what it accepted is exactly
  the serialization of what it returned.
 */
module Wire {

  import opened Numerals

  type u16 = x: int | 0 <= x < 0x1_0000
  type u32 = x: int | 0 <= x < 0x1_0000_0000
  type u64 = x: int | 0 <= x < 0x1_0000_0000_0000_0000

  type Bytes16 = s: seq<u8> | |s| == 16 witness seq(16, _ => 0)
  type Bytes20 = s: seq<u8> | |s| == 20 witness seq(20, _ => 0)
  type Bytes32 = s: seq<u8> | |s| == 32 witness seq(32, _ => 0)
  type Bytes33 = s: seq<u8> | |s| == 33 witness seq(33, _ => 0)
  type Bytes65 = s: seq<u8> | |s| == 65 witness seq(65, _ => 0)

  const PREAMBLE_ENCODED_SIZE: nat := 4 + 4 + 4 + 8 + 32 + 8 + 32 + 4 + 65 + 4
  const RELAY_DATA_ENCODED_SIZE: nat := 16 + 2 + 20 + 4
  const MAX_RELAYERS_LEN: nat := 16
  const MAX_NEIGHBORS_DATA_LEN: nat := 128
  const BLOCKS_AVAILABLE_MAX_LEN: nat := 32
  const GETPOXINV_MAX_BITLEN: nat := 4096
  const MAX_STRING_LEN: nat := 128
  const MAX_PAYLOAD_LEN: nat := 1 + 16 * 1024 * 1024
  const MAX_MESSAGE_LEN: nat :=
    MAX_PAYLOAD_LEN + (PREAMBLE_ENCODED_SIZE + MAX_RELAYERS_LEN * RELAY_DATA_ENCODED_SIZE)

  datatype Error =
    | ReadError | DeserializeError | UnderflowError | InvalidMessage | VerifyingError
    | InboxOverflow | OutboxOverflow | RecvError | PermanentlyDrained | WriteError | SendError | PeerNotConnected

  datatype Parsed<+T> = Ok(value: T, rest: seq<u8>) | Err(error: Error) {
    predicate IsFailure() { Err? }
    function PropagateFailure<U>(): Parsed<U> requires Err? { Err(error) }
    function Extract(): (T, seq<u8>) requires Ok? { (value, rest) }
  }

  // ---------------------------------------------------------------- primitives

  function WriteUint(k: nat, x: nat, rest: seq<u8>): (b: seq<u8>)
  {
    BigEndian(x, k) + rest
  }

  function ReadUint(k: nat, b: seq<u8>): (r: Parsed<nat>)
    ensures r.Ok? ==> r.value < Pow(256, k) && b == WriteUint(k, r.value, r.rest)
    ensures r.Err? ==> r.error == ReadError
  {
    if |b| < k then Err(ReadError)
    else
      BigEndianOfValue(b[..k]);
      ValueBound(b[..k], 256);
      Ok(Value(b[..k], 256), b[k..])
  }

  lemma UintRoundTrip(k: nat, x: nat, rest: seq<u8>)
    requires x < Pow(256, k)
    ensures ReadUint(k, WriteUint(k, x, rest)) == Ok(x, rest)
  {
    BigEndianValue(x, k);
    assert WriteUint(k, x, rest)[..k] == BigEndian(x, k);
    assert WriteUint(k, x, rest)[k..] == rest;
  }

  lemma Widths()
    ensures Pow(256, 1) == 0x100 && Pow(256, 2) == 0x1_0000 && Pow(256, 4) == 0x1_0000_0000
    ensures Pow(256, 8) == 0x1_0000_0000_0000_0000
  {
    assert Pow(256, 4) == Pow(256, 2) * Pow(256, 2);
    PowAdd(256, 4, 4);
  }

  function ReadU8(b: seq<u8>): (r: Parsed<u8>)
    ensures r.Ok? ==> b == WriteUint(1, r.value, r.rest)
  {
    Widths();
    var (x, rest) :- ReadUint(1, b);
    Ok(x, rest)
  }

  function ReadU16(b: seq<u8>): (r: Parsed<u16>)
    ensures r.Ok? ==> b == WriteUint(2, r.value, r.rest)
  {
    Widths();
    var (x, rest) :- ReadUint(2, b);
    Ok(x, rest)
  }

  function ReadU32(b: seq<u8>): (r: Parsed<u32>)
    ensures r.Ok? ==> b == WriteUint(4, r.value, r.rest)
  {
    Widths();
    var (x, rest) :- ReadUint(4, b);
    Ok(x, rest)
  }

  function ReadU64(b: seq<u8>): (r: Parsed<u64>)
    ensures r.Ok? ==> b == WriteUint(8, r.value, r.rest)
  {
    Widths();
    var (x, rest) :- ReadUint(8, b);
    Ok(x, rest)
  }

  lemma U8RoundTrip(x: u8, rest: seq<u8>)
    ensures ReadU8(WriteUint(1, x, rest)) == Ok(x, rest)
  {
    Widths();
    UintRoundTrip(1, x, rest);
  }

  lemma U16RoundTrip(x: u16, rest: seq<u8>)
    ensures ReadU16(WriteUint(2, x, rest)) == Ok(x, rest)
  {
    Widths();
    UintRoundTrip(2, x, rest);
  }

  lemma U32RoundTrip(x: u32, rest: seq<u8>)
    ensures ReadU32(WriteUint(4, x, rest)) == Ok(x, rest)
  {
    Widths();
    UintRoundTrip(4, x, rest);
  }

  lemma U64RoundTrip(x: u64, rest: seq<u8>)
    ensures ReadU64(WriteUint(8, x, rest)) == Ok(x, rest)
  {
    Widths();
    UintRoundTrip(8, x, rest);
  }

  /** `read_exact` into a buffer of `n` bytes. */
  function ReadBytes(n: nat, b: seq<u8>): (r: Parsed<seq<u8>>)
    ensures r.Ok? ==> |r.value| == n && b == r.value + r.rest
    ensures r.Err? ==> r.error == ReadError
  {
    if |b| < n then Err(ReadError) else Ok(b[..n], b[n..])
  }

  lemma BytesRoundTrip(s: seq<u8>, rest: seq<u8>)
    ensures ReadBytes(|s|, s + rest) == Ok(s, rest)
  {
  }

  // ---------------------------------------------------------------- vectors

  function WriteItems<T>(put: (T, seq<u8>) -> seq<u8>, xs: seq<T>, rest: seq<u8>): (b: seq<u8>)
  {
    if xs == [] then rest else put(xs[0], WriteItems(put, xs[1..], rest))
  }

  function ReadItems<T>(get: seq<u8> -> Parsed<T>, n: nat, b: seq<u8>): (r: Parsed<seq<T>>)
  {
    if n == 0 then Ok([], b)
    else
      var (x, b1) :- get(b);
      var (xs, b2) :- ReadItems(get, n - 1, b1);
      Ok([x] + xs, b2)
  }

  /** A `Vec` is its length, cast to 32 bits, followed by its items. */
  function WriteVec<T>(put: (T, seq<u8>) -> seq<u8>, xs: seq<T>, rest: seq<u8>): (b: seq<u8>)
  {
    WriteUint(4, |xs| % 0x1_0000_0000, WriteItems(put, xs, rest))
  }

  /** `read_next_vec`; `itemSize` is the size in memory of one item. */
  function ReadVec<T>(get: seq<u8> -> Parsed<T>, numItems: nat, maxItems: nat, itemSize: nat, b: seq<u8>)
    : (r: Parsed<seq<T>>)
  {
    var (len, items) :- ReadU32(b);
    if maxItems > 0 && len > maxItems then Err(DeserializeError)
    else if maxItems == 0 && len != numItems then Err(DeserializeError)
    else if itemSize * len > MAX_MESSAGE_LEN then Err(DeserializeError)
    else ReadItems(get, len, items)
  }

  /** The loop of `read_next_vec`. */
  method ReadNextVec<T>(get: seq<u8> -> Parsed<T>, numItems: nat, maxItems: nat, itemSize: nat, b: seq<u8>)
    returns (r: Parsed<seq<T>>)
    ensures r == ReadVec(get, numItems, maxItems, itemSize, b)
    ensures ReadU32(b).Ok? && (itemSize * ReadU32(b).value > 16778054
              || (if maxItems > 0 then ReadU32(b).value > maxItems else ReadU32(b).value != numItems)) ==>
              r == Err(DeserializeError)
  {
    match ReadU32(b) {
      case Err(e) => return Err(e);
      case Ok(len, items) =>
        if maxItems > 0 {
          if len > maxItems {
            return Err(DeserializeError);
          }
        } else {
          if len != numItems {
            return Err(DeserializeError);
          }
        }
        if itemSize * len > MAX_MESSAGE_LEN {
          return Err(DeserializeError);
        }
        var ret: seq<T> := [];
        var left := items;
        PrependedNothing(ReadItems(get, len, items));
        for i := 0 to len
          invariant ReadItems(get, len, items) == Prepended(ret, ReadItems(get, len - i, left))
        {
          match get(left) {
            case Err(e) => return Err(e);
            case Ok(x, rest) =>
              PrependedStep(ret, x, ReadItems(get, len - i - 1, rest));
              ret := ret + [x];
              left := rest;
          }
        }
        r := Ok(ret, left);
        assert ret + [] == ret;
    }
  }

  function Prepended<T>(xs: seq<T>, r: Parsed<seq<T>>): (p: Parsed<seq<T>>)
  {
    match r
    case Ok(ys, rest) => Ok(xs + ys, rest)
    case Err(e) => Err(e)
  }

  lemma PrependedNothing<T>(r: Parsed<seq<T>>)
    ensures Prepended([], r) == r
  {
    if r.Ok? {
      assert [] + r.value == r.value;
    }
  }

  lemma PrependedStep<T>(xs: seq<T>, x: T, r: Parsed<seq<T>>)
    ensures Prepended(xs, Prepended([x], r)) == Prepended(xs + [x], r)
  {
    if r.Ok? {
      assert xs + ([x] + r.value) == xs + [x] + r.value;
    }
  }

  ghost predicate Inverse<T(!new)>(put: (T, seq<u8>) -> seq<u8>, get: seq<u8> -> Parsed<T>)
  {
    && (forall x: T, rest :: get(put(x, rest)) == Ok(x, rest))
    && (forall b :: get(b).Ok? ==> b == put(get(b).value, get(b).rest))
  }

  lemma {:induction false} ItemsRoundTrip<T(!new)>(
      put: (T, seq<u8>) -> seq<u8>, get: seq<u8> -> Parsed<T>, xs: seq<T>, rest: seq<u8>)
    requires Inverse(put, get)
    ensures ReadItems(get, |xs|, WriteItems(put, xs, rest)) == Ok(xs, rest)
  {
    if xs != [] {
      ItemsRoundTrip(put, get, xs[1..], rest);
      assert get(put(xs[0], WriteItems(put, xs[1..], rest))).Ok?;
      assert [xs[0]] + xs[1..] == xs;
    }
  }

  lemma {:induction false} ItemsCanonical<T(!new)>(
      put: (T, seq<u8>) -> seq<u8>, get: seq<u8> -> Parsed<T>, n: nat, b: seq<u8>)
    requires Inverse(put, get)
    ensures var r := ReadItems(get, n, b); r.Ok? ==> |r.value| == n && b == WriteItems(put, r.value, r.rest)
  {
    if n > 0 && get(b).Ok? {
      ItemsCanonical(put, get, n - 1, get(b).rest);
      var r := ReadItems(get, n, b);
      assert r.Ok? ==> r.value[1..] == ReadItems(get, n - 1, get(b).rest).value;
    }
  }

  /** The lengths that `read_next_vec` lets through. */
  predicate LengthAllowed(len: nat, numItems: nat, maxItems: nat, itemSize: nat)
  {
    && len < 0x1_0000_0000 && itemSize * len <= MAX_MESSAGE_LEN
    && (if maxItems > 0 then len <= maxItems else len == numItems)
  }

  lemma VecRoundTrip<T(!new)>(put: (T, seq<u8>) -> seq<u8>, get: seq<u8> -> Parsed<T>,
                              numItems: nat, maxItems: nat, itemSize: nat, xs: seq<T>, rest: seq<u8>)
    requires Inverse(put, get) && LengthAllowed(|xs|, numItems, maxItems, itemSize)
    ensures ReadVec(get, numItems, maxItems, itemSize, WriteVec(put, xs, rest)) == Ok(xs, rest)
  {
    hide ReadItems, WriteItems, Inverse, WriteUint, ReadUint, ReadU32;
    var items := WriteItems(put, xs, rest);
    var b := WriteVec(put, xs, rest);
    assert b == WriteUint(4, |xs|, items);
    U32RoundTrip(|xs|, items);
    assert ReadU32(b) == Ok(|xs|, items);
    ItemsRoundTrip(put, get, xs, rest);
  }

  /** `read_next_vec` accepts nothing but serializations of vectors of an allowed length. */
  lemma VecCanonical<T(!new)>(put: (T, seq<u8>) -> seq<u8>, get: seq<u8> -> Parsed<T>,
                              numItems: nat, maxItems: nat, itemSize: nat, b: seq<u8>)
    requires Inverse(put, get)
    ensures var r := ReadVec(get, numItems, maxItems, itemSize, b);
            r.Ok? ==> LengthAllowed(|r.value|, numItems, maxItems, itemSize) && b == WriteVec(put, r.value, r.rest)
  {
    hide ReadItems, WriteItems, Inverse, WriteUint, ReadUint;
    var len := ReadU32(b);
    if len.Ok? {
      ItemsCanonical(put, get, len.value, len.rest);
    }
  }

  // ---------------------------------------------------------------- writing before a suffix

  /** Writing `x` and then `rest` is the serialization of `x` followed by `rest`. */
  ghost predicate Appends<T(!new)>(put: (T, seq<u8>) -> seq<u8>)
  {
    forall x: T, rest {:trigger put(x, rest)} :: put(x, rest) == put(x, []) + rest
  }

  lemma UintAppends(k: nat, x: nat, r: seq<u8>, rest: seq<u8>)
    ensures WriteUint(k, x, r + rest) == WriteUint(k, x, r) + rest
  {
  }

  lemma BytesAppends(s: seq<u8>, r: seq<u8>, rest: seq<u8>)
    ensures s + (r + rest) == s + r + rest
  {
  }

  lemma {:induction false} ItemsAppend<T(!new)>(put: (T, seq<u8>) -> seq<u8>, xs: seq<T>, rest: seq<u8>)
    requires Appends(put)
    ensures WriteItems(put, xs, rest) == WriteItems(put, xs, []) + rest
  {
    if xs != [] {
      ItemsAppend(put, xs[1..], rest);
      var tail := WriteItems(put, xs[1..], []);
      assert put(xs[0], tail + rest) == put(xs[0], []) + (tail + rest);
      assert put(xs[0], tail) == put(xs[0], []) + tail;
    }
  }

  lemma VecAppends<T(!new)>(put: (T, seq<u8>) -> seq<u8>, xs: seq<T>, rest: seq<u8>)
    requires Appends(put)
    ensures WriteVec(put, xs, rest) == WriteVec(put, xs, []) + rest
  {
    ItemsAppend(put, xs, rest);
    UintAppends(4, |xs| % 0x1_0000_0000, WriteItems(put, xs, []), rest);
  }
}
