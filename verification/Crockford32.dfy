/**
  Crockford-32 and c32check addresses (src/address/c32.rs), on ASCII text.
 */
module Crockford32 {

  import opened Numerals
  import opened Results
  import opened Addresses

  type ascii = x: int | 0 <= x < 128

  const C32_CHARACTERS: string := "0123456789" + "ABCDEFGH" + "JK" + "MN" + "PQRST" + "VWXYZ"

  function CharOf(d: nat): (c: ascii)
    requires d < 32
    ensures DigitOf(c) == Some(d) && Fold(c) == c
  {
    C32_CHARACTERS[d] as ascii
  }

  /** `C32_CHARACTERS.find(c)` */
  function DigitOf(c: ascii): (d: Option<nat>)
    ensures d.Some? ==> d.value < 32 && C32_CHARACTERS[d.value] == c as char
  {
    if 48 <= c <= 57 then Some(c - 48)
    else if 65 <= c <= 72 then Some(c - 55)
    else if 74 <= c <= 75 then Some(c - 56)
    else if 77 <= c <= 78 then Some(c - 57)
    else if 80 <= c <= 84 then Some(c - 58)
    else if 86 <= c <= 90 then Some(c - 59)
    else None
  }

  /** One character of `c32_normalize`: upper case, then O to 0, L to 1, I to 1. */
  function Fold(c: ascii): (f: ascii)
  {
    var u := if 97 <= c <= 122 then c - 32 else c;
    if u == 79 then 48 else if u == 76 || u == 73 then 49 else u
  }

  function Normalize(s: seq<ascii>): (n: seq<ascii>)
    ensures |n| == |s| && forall i :: 0 <= i < |s| ==> n[i] == Fold(s[i])
  {
    seq(|s|, i requires 0 <= i < |s| => Fold(s[i]))
  }

  predicate AllC32(s: seq<ascii>)
  {
    forall i :: 0 <= i < |s| ==> DigitOf(s[i]).Some?
  }

  function Digits(s: seq<ascii>): (ds: seq<nat>)
    requires AllC32(s)
    ensures |ds| == |s| && AreDigits(ds, 32)
    ensures forall i :: 0 <= i < |s| ==> ds[i] == DigitOf(s[i]).value
  {
    seq(|s|, i requires 0 <= i < |s| => DigitOf(s[i]).value)
  }

  function Chars(ds: seq<nat>): (s: seq<ascii>)
    requires AreDigits(ds, 32)
    ensures |s| == |ds| && forall i :: 0 <= i < |ds| ==> s[i] == CharOf(ds[i])
  {
    seq(|ds|, i requires 0 <= i < |ds| => CharOf(ds[i]))
  }

  lemma CharsAppend(ds: seq<nat>, d: nat)
    requires AreDigits(ds, 32) && d < 32
    ensures Chars(ds + [d]) == Chars(ds) + [CharOf(d)]
  {
  }

  lemma CharsAreDigits(ds: seq<nat>)
    requires AreDigits(ds, 32)
    ensures AllC32(Chars(ds)) && Digits(Chars(ds)) == ds && Normalize(Chars(ds)) == Chars(ds)
  {
    assert forall i :: 0 <= i < |ds| ==> DigitOf(CharOf(ds[i])) == Some(ds[i]);
  }

  // ---------------------------------------------------------------- specification

  function Encoded(data: seq<u8>): (s: seq<ascii>)
  {
    Chars(Transcode(data, 256, 32))
  }

  /** The leading zeros are counted on the text as given, before it is normalized. */
  function Decoded(s: seq<ascii>): (r: Result<seq<u8>, Error>)
  {
    if AllC32(Normalize(s))
    then Success(Zeros(CountLeading(s, 48)) + Canonical(Value(Digits(Normalize(s)), 32), 256))
    else Failure(InvalidCrockford32)
  }

  lemma {:induction false} CountLeadingIsZeros(s: seq<ascii>)
    requires AllC32(s)
    ensures CountLeading(s, 48) == LeadingZeros(Digits(s))
  {
    if s != [] && s[0] == 48 {
      CountLeadingIsZeros(s[1..]);
      assert Digits(s)[1..] == Digits(s[1..]);
    }
  }

  lemma NormalizeAlphabet(s: seq<ascii>)
    requires AllC32(s)
    ensures Normalize(s) == s == Chars(Digits(s))
  {
    forall i | 0 <= i < |s|
      ensures Fold(s[i]) == s[i] == CharOf(Digits(s)[i])
    {
      assert DigitOf(s[i]).Some?;
    }
  }

  /** Decoding inverts encoding on every byte string. */
  lemma DecodeEncoded(data: seq<u8>)
    ensures Decoded(Encoded(data)) == Success(data)
  {
    CharsAreDigits(Transcode(data, 256, 32));
    CountLeadingIsZeros(Encoded(data));
    TranscodeInverse(data, 256, 32);
  }

  /** Encoding inverts decoding on every string over the 32-character alphabet. */
  lemma EncodeDecoded(s: seq<ascii>)
    requires AllC32(s)
    ensures Decoded(s).Success? && Encoded(Decoded(s).value) == s
  {
    NormalizeAlphabet(s);
    CountLeadingIsZeros(s);
    TranscodeInverse(Digits(s), 32, 256);
  }

  /** The run of '0' that the text starts with is followed by a letter O. */
  predicate ZerosThenLetterO(s: seq<ascii>)
  {
    var k := CountLeading(s, 48);
    k < |s| && (s[k] == 79 || s[k] == 111)
  }

  lemma {:induction false} CountLeadingNormalized(s: seq<ascii>)
    ensures CountLeading(s, 48) <= CountLeading(Normalize(s), 48)
    ensures CountLeading(s, 48) == CountLeading(Normalize(s), 48) <==> !ZerosThenLetterO(s)
  {
    if s != [] {
      assert Normalize(s)[1..] == Normalize(s[1..]);
      if s[0] == 48 {
        CountLeadingNormalized(s[1..]);
      }
    }
  }

  /**
    `c32_decode` gives the same bytes for a text and for its normal form, except
    on valid texts whose leading zeros continue with a letter O: those lose bytes.
   */
  lemma DecodeNormalized(s: seq<ascii>)
    ensures Decoded(s) == Decoded(Normalize(s)) <==> !(AllC32(Normalize(s)) && ZerosThenLetterO(s))
  {
    var n := Normalize(s);
    assert Normalize(n) == n;
    CountLeadingNormalized(s);
    if AllC32(n) {
      assert Decoded(s).Success? && Decoded(n).Success?;
      var tail := Canonical(Value(Digits(n), 32), 256);
      assert |Decoded(s).value| == CountLeading(s, 48) + |tail|;
      assert |Decoded(n).value| == CountLeading(n, 48) + |tail|;
    }
  }

  lemma LetterOLosesAByte()
    ensures Decoded([79]) == Success([]) && Decoded(Normalize([79])) == Success([0])
  {
    var o: seq<ascii> := [79];
    var zero: seq<ascii> := [48];
    assert Normalize(o) == zero && Normalize(zero) == zero && AllC32(zero);
    assert Digits(zero) == [0] && Value([0], 32) == 0;
    assert CountLeading(o, 48) == 0 && CountLeading(zero, 48) == 1;
    assert Zeros(0) + [] == [] && Zeros(1) + [] == [0];
  }

  // ---------------------------------------------------------------- repacking loops

  /**
    `out` least significant digit first, with `carry` above it, denotes `v`.  The
    digits of `out` and the `bits` bits of the carry cover the same width as
    `taken` digits of the input base.
   */
  ghost predicate Repacked(out: seq<nat>, to: nat, carry: nat, bits: nat, v: nat, from: nat, taken: nat)
  {
    && AreDigits(out, to) && carry < Pow(2, bits)
    && ValueLE(out, to) + carry * Pow(to, |out|) == v
    && Pow(to, |out|) * Pow(2, bits) == Pow(from, taken)
  }

  /** Taking one more input digit `d`, of `width` bits, into the carry. */
  lemma TakeDigit(out: seq<nat>, to: nat, carry: nat, bits: nat, v: nat, from: nat, taken: nat, d: nat, width: nat)
    requires Repacked(out, to, carry, bits, v, from, taken)
    requires from == Pow(2, width) && d < from
    ensures Repacked(out, to, carry + d * Pow(2, bits), bits + width, d * Pow(from, taken) + v, from, taken + 1)
  {
    hide ValueLE, Pow, AreDigits;
    PowAdd(2, bits, width);
    PowStep(from, taken);
    TakeArithmetic(ValueLE(out, to), carry, d, Pow(to, |out|), Pow(2, bits), from, v, Pow(from, taken));
  }

  lemma PowStep(base: nat, n: nat)
    ensures Pow(base, n + 1) == base * Pow(base, n)
  {
  }

  lemma TakeArithmetic(x: int, c: int, d: nat, p: int, q: nat, from: nat, v: int, t: int)
    requires x + c * p == v && p * q == t && c < q && d < from
    ensures c + d * q < q * from
    ensures x + (c + d * q) * p == d * t + v
    ensures p * (q * from) == from * t
  {
    TakeBound(c, d, q, from);
    Distribute(c, d, q, p);
    MulAssoc(p, q, from);
  }

  lemma TakeBound(carry: int, d: nat, q: nat, from: nat)
    requires carry < q && d < from
    ensures carry + d * q < q * from
  {
    MulMono(d + 1, from, q);
    assert (d + 1) * q == d * q + q;
  }

  lemma Distribute(c: int, d: int, q: int, p: int)
    ensures (c + d * q) * p == c * p + d * (p * q)
  {
    MulSwap(d, q, p);
  }

  /** Moving the low `width` bits of the carry to the output. */
  lemma PutDigit(out: seq<nat>, to: nat, carry: nat, bits: nat, v: nat, from: nat, taken: nat, width: nat)
    requires Repacked(out, to, carry, bits, v, from, taken)
    requires to == Pow(2, width) && width <= bits && 0 < to
    ensures Repacked(out + [carry % to], to, carry / to, bits - width, v, from, taken)
  {
    var p, q := Pow(to, |out|), Pow(2, bits - width);
    PowAdd(2, width, bits - width);
    ValueLEAppend(out, carry % to, to);
    DivMod(carry, to, q);
    PutArithmetic(carry % to, carry / to, carry, to, p, q);
  }

  lemma PutArithmetic(lo: int, hi: int, c: int, to: int, p: int, q: int)
    requires hi * to + lo == c
    ensures lo * p + hi * (to * p) == c * p
    ensures to * p * q == p * (to * q)
  {
    MulAssoc(hi, to, p);
    assert (hi * to + lo) * p == hi * to * p + lo * p;
    MulAssoc(p, to, q);
  }

  lemma DivMod(c: nat, d: nat, q: nat)
    requires 0 < d && c < d * q
    ensures c / d * d + c % d == c && 0 <= c / d < q
  {
    if q <= c / d {
      MulMono(q, c / d, d);
    }
  }

  lemma Widths()
    ensures Pow(2, 5) == 32 && Pow(2, 8) == 256
  {
  }

  ghost predicate Splits(b: nat, m: nat, h: nat, carry: nat)
    requires 0 < m
  {
    b % m * h + carry == (carry + b * h) % 32 && b / m == (carry + b * h) / 32
  }

  /** The two shifts and the mask of `c32_encode` split the widened carry at bit 5. */
  lemma SplitByte(b: nat, bits: nat, carry: nat)
    requires bits < 5 && carry < Bit(bits)
    ensures Splits(b, Bit(5 - bits), Bit(bits), carry)
  {
    hide Splits;
    match bits
    case 0 => SplitAt1(b, carry);
    case 1 => SplitAt2(b, carry);
    case 2 => SplitAt4(b, carry);
    case 3 => SplitAt8(b, carry);
    case 4 => SplitAt16(b, carry);
  }

  lemma SplitAt1(b: nat, carry: nat)
    requires carry < 1
    ensures Splits(b, 32, 1, carry)
  {
    DivIs(carry + b * 1, 32, b / 32, b % 32 * 1 + carry);
  }

  lemma SplitAt2(b: nat, carry: nat)
    requires carry < 2
    ensures Splits(b, 16, 2, carry)
  {
    DivIs(carry + b * 2, 32, b / 16, b % 16 * 2 + carry);
  }

  lemma SplitAt4(b: nat, carry: nat)
    requires carry < 4
    ensures Splits(b, 8, 4, carry)
  {
    DivIs(carry + b * 4, 32, b / 8, b % 8 * 4 + carry);
  }

  lemma SplitAt8(b: nat, carry: nat)
    requires carry < 8
    ensures Splits(b, 4, 8, carry)
  {
    DivIs(carry + b * 8, 32, b / 4, b % 4 * 8 + carry);
  }

  lemma SplitAt16(b: nat, carry: nat)
    requires carry < 16
    ensures Splits(b, 2, 16, carry)
  {
    DivIs(carry + b * 16, 32, b / 2, b % 2 * 16 + carry);
  }

  /** One byte of `c32_encode`: one digit goes out, and a second when five bits are left. */
  lemma ByteStep(out: seq<nat>, carry: nat, bits: nat, v: nat, taken: nat, b: u8)
    requires bits < 5 && Repacked(out, 32, carry, bits, v, 256, taken)
    ensures var digit := b % Bit(5 - bits) * Bit(bits) + carry;
            var high := b / Bit(5 - bits);
            var v' := b * Pow(256, taken) + v;
            && digit < 32
            && Repacked(out + [digit], 32, high, bits + 3, v', 256, taken + 1)
            && (bits >= 2 ==> Repacked(out + [digit] + [high % 32], 32, high / 32, bits - 2, v', 256, taken + 1))
  {
    hide Bit, Repacked, Pow;
    CarryFits(out, carry, bits, v, taken);
    SplitByte(b, bits, carry);
    PutWide(out, carry, bits, v, taken, b, carry + b * Bit(bits));
  }

  lemma CarryFits(out: seq<nat>, carry: nat, bits: nat, v: nat, taken: nat)
    requires bits < 5 && Repacked(out, 32, carry, bits, v, 256, taken)
    ensures carry < Bit(bits)
  {
  }

  lemma PutWide(out: seq<nat>, carry: nat, bits: nat, v: nat, taken: nat, b: u8, wide: nat)
    requires bits < 5 && Repacked(out, 32, carry, bits, v, 256, taken) && wide == carry + b * Pow(2, bits)
    ensures var v' := b * Pow(256, taken) + v;
            var digit, high := wide % 32, wide / 32;
            && Repacked(out + [digit], 32, high, bits + 3, v', 256, taken + 1)
            && (bits >= 2 ==> Repacked(out + [digit] + [high % 32], 32, high / 32, bits - 2, v', 256, taken + 1))
  {
    Widths();
    hide Repacked, Pow;
    var v' := b * Pow(256, taken) + v;
    TakeDigit(out, 32, carry, bits, v, 256, taken, b, 8);
    PutDigit(out, 32, wide, bits + 8, v', 256, taken + 1, 5);
    if bits >= 2 {
      PutDigit(out + [wide % 32], 32, wide / 32, bits + 3, v', 256, taken + 1, 5);
    }
  }

  /** One digit of `c32_decode`: five bits come in, and a byte goes out when eight are held. */
  lemma DigitStep(out: seq<nat>, carry: nat, bits: nat, v: nat, taken: nat, d: nat)
    requires bits < 8 && d < 32 && Repacked(out, 256, carry, bits, v, 32, taken)
    ensures var wide := carry + d * Bit(bits);
            var v' := d * Pow(32, taken) + v;
            && Repacked(out, 256, wide, bits + 5, v', 32, taken + 1)
            && (bits >= 3 ==> Repacked(out + [wide % 256], 256, wide / 256, bits - 3, v', 32, taken + 1))
  {
    hide Repacked, Pow, Bit;
    Widths();
    TakeDigit(out, 256, carry, bits, v, 32, taken, d, 5);
    if bits >= 3 {
      PutDigit(out, 256, carry + d * Pow(2, bits), bits + 5, d * Pow(32, taken) + v, 32, taken + 1, 8);
    }
  }

  /** Drop the zero digits at the end of `out`; least significant digit first. */
  function Trim(out: seq<nat>): (r: seq<nat>)
    ensures Trimmed(r) && r <= out
  {
    if out != [] && out[|out| - 1] == 0 then Trim(out[..|out| - 1]) else out
  }

  lemma {:induction false} TrimValue(out: seq<nat>, base: nat)
    ensures ValueLE(Trim(out), base) == ValueLE(out, base)
  {
    if out != [] && out[|out| - 1] == 0 {
      var k := |out| - 1;
      TrimValue(out[..k], base);
      ValueLEAppend(out[..k], 0, base);
      assert out == out[..k] + [0];
    }
  }

  /** The final carry, when it holds any bits, is the top digit. */
  lemma LastCarry(out: seq<nat>, to: nat, carry: nat, bits: nat, v: nat, from: nat, taken: nat, width: nat)
    requires Repacked(out, to, carry, bits, v, from, taken) && bits < width && to == Pow(2, width)
    ensures bits > 0 ==> carry < to && ValueLE(out + [carry], to) == v
    ensures bits == 0 ==> ValueLE(out, to) == v
  {
    PowMono(2, bits, width);
    ValueLEAppend(out, carry, to);
  }

  /** The state of the `c32_encode` loop after the last `i` bytes of the input. */
  ghost predicate Encoding(result: seq<ascii>, out: seq<nat>, carry: nat, bits: nat, input: seq<u8>, i: nat)
  {
    && i <= |input| && bits < 5 && AreDigits(out, 32) && result == Chars(out)
    && Repacked(out, 32, carry, bits, Value(input[|input| - i..], 256), 256, i)
  }

  method EncodeByte(chars: seq<ascii>, ghost digits: seq<nat>, carryIn: nat, bitsIn: nat, input: seq<u8>, i: nat)
    returns (result: seq<ascii>, ghost out: seq<nat>, carry: nat, carryBits: nat)
    requires Encoding(chars, digits, carryIn, bitsIn, input, i) && i < |input|
    ensures Encoding(result, out, carry, carryBits, input, i + 1)
  {
    hide Repacked, Pow, Value;
    var current := input[|input| - 1 - i];
    var lowBitsToTake := 5 - bitsIn;
    var lowBits := current % Bit(lowBitsToTake);
    var c32Value := lowBits * Bit(bitsIn) + carryIn;
    EncodingStep(digits, carryIn, bitsIn, input, i, c32Value);
    result := chars + [CharOf(c32Value)];
    out := digits + [c32Value];
    CharsAppend(digits, c32Value);
    carryBits := 8 + bitsIn - 5;
    carry := current / Bit(8 - carryBits);
    if carryBits >= 5 {
      CharsAppend(out, carry % 32);
      result := result + [CharOf(carry % 32)];
      out := out + [carry % 32];
      carryBits := carryBits - 5;
      carry := carry / 32;
    }
  }

  lemma EncodingStep(digits: seq<nat>, carry: nat, bits: nat, input: seq<u8>, i: nat, digit: nat)
    requires i < |input| && bits < 5 && Repacked(digits, 32, carry, bits, Value(input[|input| - i..], 256), 256, i)
    requires digit == input[|input| - 1 - i] % Bit(5 - bits) * Bit(bits) + carry
    ensures var high := input[|input| - 1 - i] / Bit(5 - bits);
            var v := Value(input[|input| - (i + 1)..], 256);
            && digit < 32
            && Repacked(digits + [digit], 32, high, bits + 3, v, 256, i + 1)
            && (bits >= 2 ==> Repacked(digits + [digit] + [high % 32], 32, high / 32, bits - 2, v, 256, i + 1))
  {
    var rest := input[|input| - i..];
    var current := input[|input| - 1 - i];
    ByteStep(digits, carry, bits, Value(rest, 256), i, current);
    ValuePrepend(current, rest, 256);
    assert input[|input| - (i + 1)..] == [current] + rest;
  }

  method C32Encode(input: seq<u8>) returns (r: seq<ascii>)
    ensures r == Encoded(input)
  {
    var result: seq<ascii> := [];
    ghost var out: seq<nat> := [];
    var carry: nat, carryBits: nat := 0, 0;
    for i := 0 to |input|
      invariant Encoding(result, out, carry, carryBits, input, i)
    {
      result, out, carry, carryBits := EncodeByte(result, out, carry, carryBits, input, i);
    }
    assert input[0..] == input;
    Widths();
    LastCarry(out, 32, carry, carryBits, Value(input, 256), 256, |input|, 5);
    if carryBits > 0 {
      result := result + [CharOf(carry)];
      out := out + [carry];
    }
    r := FinishEncoding(input, result, out);
  }

  /** The tail of `c32_encode`: drop zero digits, add one per leading zero byte, reverse. */
  method FinishEncoding(input: seq<u8>, chars: seq<ascii>, ghost out: seq<nat>) returns (r: seq<ascii>)
    requires AreDigits(out, 32) && chars == Chars(out) && ValueLE(out, 32) == Value(input, 256)
    ensures r == Encoded(input)
  {
    hide Value, ValueLE, Trim, Canonical;
    var result := StripZeroChars(chars, out);
    ghost var digits := Trim(out);
    var k := 0;
    while k < |input| && input[k] == 0
      invariant 0 <= k <= |input| && forall j :: 0 <= j < k ==> input[j] == 0
      invariant AreDigits(digits, 32) && result == Chars(digits + Zeros(k))
    {
      result := result + [CharOf(0)];
      k := k + 1;
    }
    assert k == LeadingZeros(input);
    r := Reversed(result);
    EncodingFinished(input, out);
    ReversedChars(digits + Zeros(k));
  }

  lemma EncodingFinished(input: seq<u8>, out: seq<nat>)
    requires AreDigits(out, 32) && ValueLE(out, 32) == Value(input, 256)
    ensures Reversed(Trim(out) + Zeros(LeadingZeros(input))) == Transcode(input, 256, 32)
  {
    TrimValue(out, 32);
    ReversedPadded(Trim(out), Value(input, 256), 32, LeadingZeros(input));
  }

  lemma ReversedChars(ds: seq<nat>)
    requires AreDigits(ds, 32)
    ensures Reversed(Chars(ds)) == Chars(Reversed(ds))
  {
  }

  method StripZeroChars(chars: seq<ascii>, ghost out: seq<nat>) returns (result: seq<ascii>)
    requires AreDigits(out, 32) && chars == Chars(out)
    ensures AreDigits(Trim(out), 32) && result == Chars(Trim(out))
  {
    hide Trim, CharOf, DigitOf, Fold, Chars;
    result := chars;
    ghost var digits := out;
    while |result| > 0 && result[|result| - 1] == CharOf(0)
      invariant AreDigits(digits, 32) && result == Chars(digits) && Trim(digits) == Trim(out)
    {
      ghost var n := |result| - 1;
      ZeroChar(digits[n]);
      TrimLast(digits);
      CharsTake(digits, n);
      result := result[..|result| - 1];
      digits := digits[..n];
    }
    if digits != [] {
      ZeroChar(digits[|digits| - 1]);
      TrimLast(digits);
    } else {
      TrimNothing();
    }
  }

  lemma TrimNothing()
    ensures Trim([]) == []
  {
  }

  lemma CharsTake(ds: seq<nat>, n: nat)
    requires AreDigits(ds, 32) && n <= |ds|
    ensures Chars(ds)[..n] == Chars(ds[..n])
  {
    hide CharOf, DigitOf, Fold, Chars;
  }

  lemma ZeroChar(d: nat)
    requires d < 32
    ensures CharOf(d) == CharOf(0) <==> d == 0
  {
    hide CharOf, DigitOf, Fold;
    assert DigitOf(CharOf(d)) == Some(d) && DigitOf(CharOf(0)) == Some(0);
  }

  lemma TrimLast(ds: seq<nat>)
    requires ds != []
    ensures Trim(ds) == if ds[|ds| - 1] == 0 then Trim(ds[..|ds| - 1]) else ds
  {
  }

  /** The state of the `c32_decode` loop after the last `i` digits of the input. */
  ghost predicate Decoding(result: seq<u8>, carry: nat, bits: nat, ds: seq<nat>, i: nat)
  {
    i <= |ds| && bits < 8 && Repacked(result, 256, carry, bits, Value(ds[|ds| - i..], 32), 32, i)
  }

  lemma DecodingStep(bytes: seq<u8>, carry: nat, bits: nat, ds: seq<nat>, i: nat)
    requires AreDigits(ds, 32) && Decoding(bytes, carry, bits, ds, i) && i < |ds|
    ensures var wide := carry + ds[|ds| - 1 - i] * Bit(bits);
            var v := Value(ds[|ds| - (i + 1)..], 32);
            && Repacked(bytes, 256, wide, bits + 5, v, 32, i + 1)
            && (bits >= 3 ==> Repacked(bytes + [wide % 256], 256, wide / 256, bits - 3, v, 32, i + 1))
  {
    hide Repacked, Bit, Value, Pow;
    var rest, current := ds[|ds| - i..], ds[|ds| - 1 - i];
    DigitStep(bytes, carry, bits, Value(rest, 32), i, current);
    ValuePrepend(current, rest, 32);
    RestSplits(ds, i);
  }

  lemma RestSplits(ds: seq<nat>, i: nat)
    requires i < |ds|
    ensures ds[|ds| - (i + 1)..] == [ds[|ds| - 1 - i]] + ds[|ds| - i..] && |ds[|ds| - i..]| == i
  {
  }

  method DecodeDigit(bytes: seq<u8>, carryIn: nat, bitsIn: nat, ds: seq<nat>, i: nat)
    returns (result: seq<u8>, carry: nat, carryBits: nat)
    requires AreDigits(ds, 32) && Decoding(bytes, carryIn, bitsIn, ds, i) && i < |ds|
    ensures Decoding(result, carry, carryBits, ds, i + 1)
  {
    hide Repacked, Bit, Value, Pow;
    var current := ds[|ds| - 1 - i];
    DecodingStep(bytes, carryIn, bitsIn, ds, i);
    result := bytes;
    carry := carryIn + current * Bit(bitsIn);
    carryBits := bitsIn + 5;
    if carryBits >= 8 {
      result := result + [carry % 256];
      carryBits := carryBits - 8;
      carry := carry / 256;
    }
  }

  method C32Decode(input: seq<ascii>) returns (r: Result<seq<u8>, Error>)
    ensures r == Decoded(input)
  {
    var norm := Normalize(input);
    if !AllC32(norm) {
      return Failure(InvalidCrockford32);
    }
    var ds := Digits(norm);
    var result: seq<u8> := [];
    var carry: nat, carryBits: nat := 0, 0;
    for i := 0 to |ds|
      invariant Decoding(result, carry, carryBits, ds, i)
    {
      result, carry, carryBits := DecodeDigit(result, carry, carryBits, ds, i);
    }
    assert ds[0..] == ds;
    Widths();
    LastCarry(result, 256, carry, carryBits, Value(ds, 32), 32, |ds|, 8);
    if carryBits > 0 {
      result := result + [carry];
    }
    var bytes := FinishDecoding(input, result, Value(ds, 32));
    r := Success(bytes);
  }

  /** The tail of `c32_decode`: drop zero bytes, add one per leading '0' of the input, reverse. */
  method FinishDecoding(input: seq<ascii>, bytes: seq<u8>, ghost v: nat) returns (r: seq<u8>)
    requires ValueLE(bytes, 256) == v
    ensures r == Zeros(CountLeading(input, 48)) + Canonical(v, 256)
  {
    var result := bytes;
    while |result| > 0 && result[|result| - 1] == 0
      invariant Trim(result) == Trim(bytes)
    {
      result := result[..|result| - 1];
    }
    TrimValue(bytes, 256);
    ghost var digits := result;
    assert digits == Trim(bytes);
    var k := 0;
    while k < |input| && input[k] == 48
      invariant 0 <= k <= |input| && forall j :: 0 <= j < k ==> input[j] == 48
      invariant result == digits + Zeros(k)
    {
      result := result + [0];
      k := k + 1;
    }
    assert k == CountLeading(input, 48);
    ReversedPadded(digits, v, 256, k);
    r := Reversed(result);
  }

  // ---------------------------------------------------------------- c32check addresses

  /** The first four bytes of a double SHA-256; the hash itself is a parameter. */
  type Checksum = s: seq<u8> | |s| == 4 witness [0, 0, 0, 0]

  function CheckEncode(sum: seq<u8> -> Checksum, version: u8, data: seq<u8>): (r: Result<seq<ascii>, Error>)
  {
    if version >= 32 then Failure(InvalidVersion(version))
    else Success([CharOf(version)] + Encoded(data + sum([version] + data)))
  }

  function CheckDecode(sum: seq<u8> -> Checksum, text: seq<ascii>): (r: Result<(u8, seq<u8>), Error>)
  {
    if |text| < 2 then Failure(InvalidCrockford32)
    else
      var checkData := Normalize(text);
      match Decoded(checkData[1..])
      case Failure(e) => Failure(e)
      case Success(bytes) =>
        if |bytes| < 5 then Failure(InvalidCrockford32)
        else
          var (dataBytes, expected) := (bytes[..|bytes| - 4], bytes[|bytes| - 4..]);
          match Decoded(checkData[..1])
          case Failure(e) => Failure(e)
          case Success(version) =>
            var computed := sum(version + dataBytes);
            if computed != expected then Failure(BadChecksum(LowU32(computed), LowU32(expected)))
            else Success(((version + dataBytes)[0], dataBytes))
  }

  function Address(sum: seq<u8> -> Checksum, version: u8, data: seq<u8>): (r: Result<seq<ascii>, Error>)
  {
    match CheckEncode(sum, version, data)
    case Failure(e) => Failure(e)
    case Success(s) => Success(['S' as ascii] + s)
  }

  function AddressDecode(sum: seq<u8> -> Checksum, text: seq<ascii>): (r: Result<(u8, seq<u8>), Error>)
  {
    if |text| <= 5 then Failure(InvalidCrockford32) else CheckDecode(sum, text[1..])
  }

  lemma SingleDigit(c: ascii)
    requires DigitOf(c).Some?
    ensures Decoded([c]) == Success([DigitOf(c).value])
  {
    hide Value, Canonical, LeadingZeros, DigitOf;
    var d := DigitOf(c).value;
    var s: seq<ascii> := [c];
    NormalizeAlphabet(s);
    CountLeadingIsZeros(s);
    assert Digits(s) == [d];
    OneDigit(d);
  }

  lemma OneDigit(d: nat)
    requires d < 32
    ensures Zeros(LeadingZeros([d])) + Canonical(Value([d], 32), 256) == [d]
  {
    assert Value([d], 32) == Value([d][..0], 32) * 32 + d;
    if d != 0 {
      assert Canonical(d, 256) == Canonical(0, 256) + [d];
    }
  }

  lemma NormalizeIdempotent(s: seq<ascii>)
    ensures Normalize(Normalize(s)) == Normalize(s)
  {
    assert forall c: ascii :: Fold(Fold(c)) == Fold(c);
  }

  /** Unlike `c32_decode`, the checked decoder does not depend on how its text is spelled. */
  lemma CheckDecodeNormalized(sum: seq<u8> -> Checksum, text: seq<ascii>)
    ensures CheckDecode(sum, text) == CheckDecode(sum, Normalize(text))
  {
    NormalizeIdempotent(text);
  }

  /**
    An address starts with the letter S and the character of its version; the rest spells
    the data and, after it, the checksum of version and data.
   */
  lemma AddressSpells(sum: seq<u8> -> Checksum, version: u8, data: seq<u8>)
    ensures version >= 32 ==> Address(sum, version, data) == Failure(InvalidVersion(version))
    ensures version < 32 ==>
              && Address(sum, version, data).Success?
              && var text := Address(sum, version, data).value;
                 && |text| >= 2 && text[0] == 83 && text[1] as char == C32_CHARACTERS[version]
                 && Decoded(text[2..]) == Success(data + sum([version] + data))
  {
    hide Decoded, Encoded;
    if version < 32 {
      var text := Address(sum, version, data).value;
      DecodeEncoded(data + sum([version] + data));
      assert text[2..] == Encoded(data + sum([version] + data));
    }
  }

  /**
    What `c32_check_decode` makes of a text in normal form that spells a version digit,
    data and four more bytes: these have to be the checksum of version and data.
   */
  lemma CheckDecodeIs(sum: seq<u8> -> Checksum, text: seq<ascii>, data: seq<u8>, check: Checksum)
    requires |text| >= 2 && Normalize(text) == text && DigitOf(text[0]).Some? && data != []
    requires Decoded(text[1..]) == Success(data + check)
    ensures var version := DigitOf(text[0]).value;
            CheckDecode(sum, text) ==
              if sum([version] + data) == check then Success((version, data))
              else Failure(BadChecksum(LowU32(sum([version] + data)), LowU32(check)))
  {
    hide Decoded, LowU32, DigitOf;
    SingleDigit(text[0]);
    assert text[..1] == [text[0]];
    var bytes := data + check;
    assert bytes[..|bytes| - 4] == data && bytes[|bytes| - 4..] == check;
  }

  /** The spelling that is undone: upper case, the letter O for zero, the letters I and L for one. */
  lemma FoldIs(c: ascii)
    ensures c as char in {'O', 'o'} ==> Fold(c) as char == '0'
    ensures c as char in {'I', 'i', 'L', 'l'} ==> Fold(c) as char == '1'
    ensures 'a' <= c as char <= 'z' && c as char !in {'o', 'i', 'l'} ==> Fold(c) == c - 32
    ensures !('a' <= c as char <= 'z') && c as char !in {'O', 'I', 'L'} ==> Fold(c) == c
  {
  }

  /** What `c32_check_decode` accepts: the normal form is an encoding of nonempty data. */
  lemma CheckDecodeIff(sum: seq<u8> -> Checksum, text: seq<ascii>, version: u8, data: seq<u8>)
    ensures CheckDecode(sum, text) == Success((version, data))
       <==> data != [] && CheckEncode(sum, version, data) == Success(Normalize(text))
  {
    hide CheckDecode, CheckEncode;
    if data != [] && CheckEncode(sum, version, data) == Success(Normalize(text)) {
      Accepts(sum, text, version, data);
    }
    if CheckDecode(sum, text) == Success((version, data)) {
      Accepted(sum, text, version, data);
    }
  }

  lemma Accepts(sum: seq<u8> -> Checksum, text: seq<ascii>, version: u8, data: seq<u8>)
    requires data != [] && CheckEncode(sum, version, data) == Success(Normalize(text))
    ensures CheckDecode(sum, text) == Success((version, data))
  {
    hide Decoded, Value, Canonical, DigitOf, CharOf;
    var n, full := Normalize(text), data + sum([version] + data);
    NormalizeIdempotent(text);
    DecodeEncoded(full);
    TranscodeNotShorter(full, 256, 32);
    SingleDigit(CharOf(version));
    assert n[1..] == Encoded(full) && n[..1] == [CharOf(version)];
    assert full[..|full| - 4] == data && full[|full| - 4..] == sum([version] + data);
  }

  lemma Accepted(sum: seq<u8> -> Checksum, text: seq<ascii>, version: u8, data: seq<u8>)
    requires CheckDecode(sum, text) == Success((version, data))
    ensures data != [] && CheckEncode(sum, version, data) == Success(Normalize(text))
  {
    hide Transcode, Value, Canonical;
    var n := Normalize(text);
    NormalizeIdempotent(text);
    assert Normalize(n[1..]) == n[1..] && Normalize(n[..1]) == n[..1];
    EncodeDecoded(n[1..]);
    var bytes := Decoded(n[1..]).value;
    assert DigitOf(n[..1][0]).Some?;
    assert n[..1] == [n[0]];
    SingleDigit(n[0]);
    assert version == DigitOf(n[0]).value;
    assert CharOf(version) == n[0];
    assert bytes == data + sum([version] + data);
    assert n == [n[0]] + n[1..];
  }

  /**
    Addresses round trip for every version below 32 exactly when there is data;
    an address without data is produced but never accepted back.
   */
  lemma AddressRoundTrip(sum: seq<u8> -> Checksum, version: u8, data: seq<u8>)
    requires version < 32
    ensures Address(sum, version, data).Success?
    ensures var text := Address(sum, version, data).value;
            AddressDecode(sum, text) == if data == [] then Failure(InvalidCrockford32) else Success((version, data))
  {
    var full := data + sum([version] + data);
    var text := Address(sum, version, data).value;
    TranscodeNotShorter(full, 256, 32);
    var check: seq<ascii> := [CharOf(version)] + Encoded(full);
    assert text[1..] == check;
    CharsAreDigits(Transcode(full, 256, 32));
    assert Normalize(check) == check;
    if data == [] {
      DecodeEncoded(full);
      assert check[1..] == Encoded(full);
    } else {
      CheckDecodeIff(sum, check, version, data);
    }
  }

  /** Every accepted address re-encodes to its own normal form, whatever its first letter. */
  lemma AddressCanonical(sum: seq<u8> -> Checksum, text: seq<ascii>, version: u8, data: seq<u8>)
    requires AddressDecode(sum, text) == Success((version, data))
    ensures version < 32 && data != []
    ensures Address(sum, version, data) == Success(['S' as ascii] + Normalize(text[1..]))
  {
    CheckDecodeIff(sum, text[1..], version, data);
  }
}
