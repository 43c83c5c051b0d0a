/**
  Base58 and base58check (src/address/b58.rs).

  The two conversion loops work in place on a digit buffer.  Each is proved to
  compute `Numerals.Transcode`, so the bijection is a fact about numerals.
 */
module Base58 {

  import opened Numerals
  import opened Results
  import opened Addresses

  const BASE58_CHARS: string :=
    "123456789" + "ABCDEFGH" + "JKLMN" + "PQRSTUVWXYZ" + "abcdefghijk" + "mnopqrstuvwxyz"

  /** The 128-entry table BASE58_DIGITS, by runs of consecutive entries. */
  function DigitOf(b: u8): (d: Option<nat>)
    requires b < 128
    ensures d.Some? ==> d.value < 58
  {
    if 49 <= b <= 57 then Some(b - 49)
    else if 65 <= b <= 72 then Some(b - 56)
    else if 74 <= b <= 78 then Some(b - 57)
    else if 80 <= b <= 90 then Some(b - 58)
    else if 97 <= b <= 107 then Some(b - 64)
    else if 109 <= b <= 122 then Some(b - 65)
    else None
  }

  /** Table and alphabet agree. */
  lemma TableMatchesAlphabet(b: u8)
    requires b < 128 && DigitOf(b).Some?
    ensures BASE58_CHARS[DigitOf(b).value] == b as char
  {
    if b < 79 {
      FirstHalfMatches(b);
    } else {
      SecondHalfMatches(b);
    }
  }

  lemma FirstHalfMatches(b: u8)
    requires b < 79 && DigitOf(b).Some?
    ensures BASE58_CHARS[DigitOf(b).value] == b as char
  {
  }

  lemma SecondHalfMatches(b: u8)
    requires 79 <= b < 128 && DigitOf(b).Some?
    ensures BASE58_CHARS[DigitOf(b).value] == b as char
  {
  }

  predicate InAlphabet(b: u8)
  {
    b < 128 && DigitOf(b).Some?
  }

  function CharOf(d: nat): (b: u8)
    requires d < 58
    ensures InAlphabet(b) && DigitOf(b) == Some(d)
  {
    if d < 9 then 49 + d
    else if d < 17 then 56 + d
    else if d < 22 then 57 + d
    else if d < 33 then 58 + d
    else if d < 44 then 64 + d
    else 65 + d
  }

  predicate AllInAlphabet(data: seq<u8>)
  {
    forall i :: 0 <= i < |data| ==> InAlphabet(data[i])
  }

  function Digits(data: seq<u8>): (ds: seq<nat>)
    requires AllInAlphabet(data)
    ensures |ds| == |data| && AreDigits(ds, 58)
    ensures forall i :: 0 <= i < |ds| ==> ds[i] == DigitOf(data[i]).value
  {
    seq(|data|, i requires 0 <= i < |data| => DigitOf(data[i]).value)
  }

  function Chars(ds: seq<nat>): (s: seq<u8>)
    requires AreDigits(ds, 58)
    ensures |s| == |ds| && AllInAlphabet(s) && Digits(s) == ds
  {
    var s := seq(|ds|, i requires 0 <= i < |ds| => CharOf(ds[i]));
    assert Digits(s) == ds;
    s
  }

  function FirstBad(data: seq<u8>): (b: u8)
    requires !AllInAlphabet(data)
  {
    if !InAlphabet(data[0]) then data[0] else FirstBad(data[1..])
  }

  // ---------------------------------------------------------------- specification

  function Decoded(data: seq<u8>): (r: Result<seq<u8>, Error>)
  {
    if AllInAlphabet(data) then Success(Transcode(Digits(data), 58, 256)) else Failure(BadByte(FirstBad(data)))
  }

  function Encoded(data: seq<u8>): (s: seq<u8>)
  {
    Chars(Transcode(data, 256, 58))
  }

  /** Decoding inverts encoding on every byte string, leading zeros included. */
  lemma DecodeEncoded(data: seq<u8>)
    ensures Decoded(Encoded(data)) == Success(data)
  {
    TranscodeInverse(data, 256, 58);
  }

  /** Encoding inverts decoding on every string over the alphabet. */
  lemma EncodeDecoded(s: seq<u8>)
    requires AllInAlphabet(s)
    ensures Decoded(s).Success? && Encoded(Decoded(s).value) == s
  {
    TranscodeInverse(Digits(s), 58, 256);
    assert Digits(Encoded(Decoded(s).value)) == Digits(s);
    forall i | 0 <= i < |s|
      ensures Encoded(Decoded(s).value)[i] == s[i]
    {
      assert DigitOf(s[i]).value == Digits(s)[i];
    }
  }

  // ---------------------------------------------------------------- UTF-8 input

  predicate Tail(b: u8)
  {
    0x80 <= b <= 0xBF
  }

  /** Well-formed UTF-8, section 4 of RFC 3629: what the type of a Rust `&str` guarantees. */
  predicate ValidUtf8(s: seq<u8>)
  {
    || s == []
    || (s[0] <= 0x7F && ValidUtf8(s[1..]))
    || (|s| >= 2 && 0xC2 <= s[0] <= 0xDF && Tail(s[1]) && ValidUtf8(s[2..]))
    || (|s| >= 3 && 0xE0 <= s[0] <= 0xEF && Tail(s[1]) && Tail(s[2])
        && (s[0] == 0xE0 ==> 0xA0 <= s[1]) && (s[0] == 0xED ==> s[1] <= 0x9F) && ValidUtf8(s[3..]))
    || (|s| >= 4 && 0xF0 <= s[0] <= 0xF4 && Tail(s[1]) && Tail(s[2]) && Tail(s[3])
        && (s[0] == 0xF0 ==> 0x90 <= s[1]) && (s[0] == 0xF4 ==> s[1] <= 0x8F) && ValidUtf8(s[4..]))
  }

  /**
    The byte after an ASCII prefix is ASCII or above 0x80.  The range guard of
    `from` uses `>` and so lets 128 through to a 128-entry table; no valid input
    gets there.
   */
  lemma {:induction false} AfterAscii(s: seq<u8>, i: nat)
    requires ValidUtf8(s) && i < |s|
    requires forall j :: 0 <= j < i ==> s[j] <= 0x7F
    ensures s[i] != 0x80
  {
    if i > 0 {
      AfterAscii(s[1..], i - 1);
    }
  }

  // ---------------------------------------------------------------- decoder

  /** `1 + len * 11 / 15` bytes hold every base-58 number of `len` digits. */
  lemma {:induction false} ScratchLargeEnough(len: nat)
    ensures Pow(58, len) <= Pow(256, 1 + len * 11 / 15)
  {
    if len < 15 {
      SmallScratch(len);
    } else {
      hide Pow;
      var m := len - 15;
      var k := 1 + m * 11 / 15;
      ScratchLargeEnough(m);
      Powers58();
      Powers256();
      PowAdd(58, 15, m);
      PowAdd(256, 11, k);
      assert 11 + k == 1 + len * 11 / 15;
      ProductMono(Pow(58, 15), Pow(256, 11), Pow(58, m), Pow(256, k));
    }
  }

  lemma ProductMono(a: int, b: int, c: nat, d: int)
    requires 0 <= a <= b && c <= d
    ensures a * c <= b * d
  {
    MulMono(a, b, c);
    MulMono(c, d, b);
  }

  lemma SmallScratch(len: nat)
    requires len < 15
    ensures Pow(58, len) <= Pow(256, 1 + len * 11 / 15)
  {
    Powers58();
    Powers256();
    hide Pow;
  }

  lemma Powers58()
    ensures Pow(58, 0) == 1 && Pow(58, 1) == 58 && Pow(58, 2) == 3364 && Pow(58, 3) == 195112 && Pow(58, 4) == 11316496
            && Pow(58, 5) == 656356768
    ensures Pow(58, 6) == 38068692544 && Pow(58, 7) == 2207984167552 && Pow(58, 8) == 128063081718016
            && Pow(58, 9) == 7427658739644928
    ensures Pow(58, 10) == 430804206899405824 && Pow(58, 11) == 24986644000165537792
            && Pow(58, 12) == 1449225352009601191936
    ensures Pow(58, 13) == 84055070416556869132288 && Pow(58, 14) == 4875194084160298409672704
            && Pow(58, 15) == 282761256881297307761016832
  {
    assert Pow(58, 0) == 1 && Pow(58, 1) == 58 && Pow(58, 2) == 3364 && Pow(58, 3) == 195112 && Pow(58, 4) == 11316496
           && Pow(58, 5) == 656356768;
    assert Pow(58, 6) == 38068692544 && Pow(58, 7) == 2207984167552 && Pow(58, 8) == 128063081718016
           && Pow(58, 9) == 7427658739644928;
    assert Pow(58, 10) == 430804206899405824 && Pow(58, 11) == 24986644000165537792
           && Pow(58, 12) == 1449225352009601191936;
  }

  lemma Powers256()
    ensures Pow(256, 1) == 256 && Pow(256, 2) == 65536 && Pow(256, 3) == 16777216 && Pow(256, 4) == 4294967296
    ensures Pow(256, 5) == 1099511627776 && Pow(256, 6) == 281474976710656 && Pow(256, 7) == 72057594037927936
            && Pow(256, 8) == 18446744073709551616
    ensures Pow(256, 9) == 4722366482869645213696 && Pow(256, 10) == 1208925819614629174706176
            && Pow(256, 11) == 309485009821345068724781056
  {
    assert Pow(256, 1) == 256 && Pow(256, 2) == 65536 && Pow(256, 3) == 16777216 && Pow(256, 4) == 4294967296;
  }

  /** `low` with `carry` above it is 58 times `was`, plus `digit`. */
  ghost predicate Multiplied(low: seq<u8>, carry: nat, was: seq<u8>, digit: nat)
  {
    |low| == |was| && Value(low, 256) + carry * Pow(256, |low|) == Value(was, 256) * 58 + digit
  }

  lemma CarryStep(low: seq<u8>, carry: nat, was: seq<u8>, digit: nat, d: u8, lo: u8, hi: nat)
    requires Multiplied(low, carry, was, digit)
    requires hi * 256 + lo == carry + d * 58
    ensures Multiplied([lo] + low, hi, [d] + was, digit)
  {
    ValuePrepend(lo, low, 256);
    ValuePrepend(d, was, 256);
    CarryArithmetic(lo, hi, carry, d, Pow(256, |low|), Value(low, 256), Value(was, 256), digit);
  }

  lemma CarryArithmetic(lo: int, hi: int, c: int, d: int, p: int, v: int, w: int, digit: int)
    requires hi * 256 + lo == c + d * 58
    requires v + c * p == w * 58 + digit
    ensures lo * p + v + hi * (256 * p) == (d * p + w) * 58 + digit
  {
    calc {
      lo * p + v + hi * (256 * p);
      (hi * 256 + lo) * p + v;
      (c + d * 58) * p + v;
      c * p + v + d * p * 58;
    }
  }

  /** One pass of the inner loop of `from`: X := X * 58 + digit, in base 256. */
  method MultiplyAdd(scratch: array<u8>, digit: nat) returns (carry: nat)
    requires digit < 58
    modifies scratch
    ensures Multiplied(scratch[..], carry, old(scratch[..]), digit)
  {
    carry := digit;
    var j := scratch.Length;
    ghost var was := scratch[..];
    while j > 0
      invariant 0 <= j <= scratch.Length && carry <= 58
      invariant scratch[..j] == was[..j]
      invariant Multiplied(scratch[j..], carry, was[j..], digit)
    {
      j := j - 1;
      ghost var c, low := carry, scratch[j + 1..];
      var d256: nat := scratch[j];
      var x := carry + d256 * 58;
      CarryStep(low, c, was[j + 1..], digit, was[j], x % 256, x / 256);
      scratch[j] := x % 256;
      carry := x / 256;
      assert scratch[j..] == [x % 256] + low && was[j..] == [was[j]] + was[j + 1..];
    }
    assert scratch[0..] == scratch[..] && was[0..] == was;
  }

  /** The scratch buffer holds the number of the first `i` characters. */
  ghost predicate Loaded(scratch: seq<u8>, data: seq<u8>, i: nat)
  {
    && i <= |data| && |scratch| == 1 + |data| * 11 / 15
    && AllInAlphabet(data[..i]) && Value(scratch, 256) == Value(Digits(data[..i]), 58)
  }

  method From(data: seq<u8>) returns (r: Result<seq<u8>, Error>)
    requires ValidUtf8(data)
    ensures r == Decoded(data)
  {
    var scratch := new u8[1 + |data| * 11 / 15](_ => 0);
    LoadedInitially(scratch[..], data);
    for i := 0 to |data|
      invariant Loaded(scratch[..], data, i)
    {
      if data[i] > 128 {
        FirstBadAt(data, i);
        return Failure(BadByte(data[i]));
      }
      InTable(data, i);
      var digit;
      match DigitOf(data[i]) {
        case Some(d58) => digit := d58;
        case None =>
          FirstBadAt(data, i);
          return Failure(BadByte(data[i]));
      }
      ghost var was := scratch[..];
      var carry := MultiplyAdd(scratch, digit);
      NextDigit(data, i, scratch[..], carry, was);
      assert carry == 0;
    }
    var zeros := LeadingZeros(scratch[..]);
    r := Success(Zeros(CountLeading(data, CharOf(0))) + scratch[zeros..]);
    Finished(scratch[..], data);
  }

  lemma LoadedInitially(scratch: seq<u8>, data: seq<u8>)
    requires |scratch| == 1 + |data| * 11 / 15 && forall i :: 0 <= i < |scratch| ==> scratch[i] == 0
    ensures Loaded(scratch, data, 0)
  {
    assert scratch == Zeros(|scratch|) + [];
    ValueSkipsZeros(|scratch|, [], 256);
  }

  lemma InTable(data: seq<u8>, i: nat)
    requires ValidUtf8(data) && i < |data| && AllInAlphabet(data[..i]) && data[i] <= 128
    ensures data[i] < 128
  {
    assert forall j :: 0 <= j < i ==> InAlphabet(data[..i][j]);
    AfterAscii(data, i);
  }

  lemma Finished(scratch: seq<u8>, data: seq<u8>)
    requires Loaded(scratch, data, |data|)
    ensures Decoded(data) == Success(Zeros(CountLeading(data, CharOf(0))) + scratch[LeadingZeros(scratch)..])
  {
    assert data[..|data|] == data;
    SplitLeadingZeros(scratch, 256);
    CountLeadingIsZeros(data);
  }

  /**
    The scratch buffer now holds one digit more.  The value stays below 58^len,
    so the carry out of the top byte is zero: the `assert_eq!(carry, 0)` holds.
   */
  lemma NextDigit(data: seq<u8>, i: nat, scratch: seq<u8>, carry: nat, was: seq<u8>)
    requires Loaded(was, data, i) && i < |data| && InAlphabet(data[i])
    requires Multiplied(scratch, carry, was, DigitOf(data[i]).value)
    ensures carry == 0 && Loaded(scratch, data, i + 1)
  {
    assert data[..i + 1] == data[..i] + [data[i]];
    var ds := Digits(data[..i + 1]);
    assert ds[..i] == Digits(data[..i]);
    assert Value(ds, 58) == Value(scratch, 256) + carry * Pow(256, |scratch|);
    FitsScratch(ds, |data|);
    ZeroCarry(Value(scratch, 256), carry, Pow(256, |scratch|));
  }

  lemma FitsScratch(ds: seq<nat>, len: nat)
    requires AreDigits(ds, 58) && |ds| <= len
    ensures Value(ds, 58) < Pow(256, 1 + len * 11 / 15)
  {
    ValueBound(ds, 58);
    PowMono(58, |ds|, len);
    ScratchLargeEnough(len);
  }

  lemma ZeroCarry(v: nat, carry: nat, p: nat)
    requires v + carry * p < p
    ensures carry == 0
  {
  }

  lemma {:induction false} FirstBadAt(data: seq<u8>, i: nat)
    requires i < |data| && AllInAlphabet(data[..i]) && !InAlphabet(data[i])
    ensures !AllInAlphabet(data) && FirstBad(data) == data[i]
  {
    if i > 0 {
      assert InAlphabet(data[..i][0]);
      assert data[1..][..i - 1] == data[..i][1..];
      FirstBadAt(data[1..], i - 1);
    }
  }

  lemma {:induction false} CountLeadingIsZeros(data: seq<u8>)
    requires AllInAlphabet(data)
    ensures CountLeading(data, CharOf(0)) == LeadingZeros(Digits(data))
  {
    if data != [] && data[0] == CharOf(0) {
      CountLeadingIsZeros(data[1..]);
      assert Digits(data)[1..] == Digits(data[1..]);
    }
  }

  // ---------------------------------------------------------------- encoder

  /** `low` with `carry` above it is 256 times `was`, plus `d`; least significant digit first. */
  ghost predicate Scaled(low: seq<nat>, carry: nat, was: seq<nat>, d: nat)
  {
    |low| == |was| && ValueLE(low, 58) + carry * Pow(58, |low|) == ValueLE(was, 58) * 256 + d
  }

  lemma ScaleStep(low: seq<nat>, carry: nat, was: seq<nat>, d: nat, ch: nat, lo: nat, hi: nat)
    requires Scaled(low, carry, was, d)
    requires hi * 58 + lo == carry + ch * 256
    ensures Scaled(low + [lo], hi, was + [ch], d)
  {
    ValueLEAppend(low, lo, 58);
    ValueLEAppend(was, ch, 58);
    ScaleArithmetic(lo, hi, carry, ch, Pow(58, |low|), ValueLE(low, 58), ValueLE(was, 58), d);
  }

  lemma ScaleArithmetic(lo: int, hi: int, c: int, ch: int, p: int, v: int, w: int, d: int)
    requires hi * 58 + lo == c + ch * 256
    requires v + c * p == w * 256 + d
    ensures v + lo * p + hi * (58 * p) == (w + ch * p) * 256 + d
  {
    calc {
      v + lo * p + hi * (58 * p);
      v + (hi * 58 + lo) * p;
      v + (c + ch * 256) * p;
      v + c * p + ch * p * 256;
    }
  }

  lemma PushStep(ret: seq<nat>, carry: nat)
    ensures ValueLE(ret + [carry % 58], 58) + carry / 58 * Pow(58, |ret| + 1)
         == ValueLE(ret, 58) + carry * Pow(58, |ret|)
  {
    hide ValueLE;
    ValueLEAppend(ret, carry % 58, 58);
    PushArithmetic(carry % 58, carry / 58, carry, Pow(58, |ret|));
  }

  lemma PushArithmetic(lo: int, hi: int, c: int, p: int)
    requires hi * 58 + lo == c
    ensures lo * p + hi * (58 * p) == c * p
  {
    calc {
      lo * p + hi * (58 * p);
      (hi * 58 + lo) * p;
    }
  }

  lemma ScaledNone(d: nat)
    ensures Scaled([], d, [], d)
  {
  }

  /** One round of the encoder's outer loop: X := X * 256 + d256, in base 58, least digit first. */
  method ScaleAdd(digits: seq<nat>, d256: u8) returns (ret: seq<nat>)
    requires AreDigits(digits, 58) && Trimmed(digits)
    ensures AreDigits(ret, 58) && Trimmed(ret)
    ensures ValueLE(ret, 58) == ValueLE(digits, 58) * 256 + d256
  {
    hide ValueLE, Pow;
    ret := digits;
    var carry: nat := d256;
    ScaledNone(d256);
    for j := 0 to |ret|
      invariant |ret| == |digits| && AreDigits(ret, 58) && ret[j..] == digits[j..]
      invariant Scaled(ret[..j], carry, digits[..j], d256)
      invariant j > 0 && digits[j - 1] != 0 ==> carry > 0
    {
      var ch := ret[j];
      assert ch == ret[j..][0] == digits[j];
      var newCh := ch * 256 + carry;
      ScaleStep(ret[..j], carry, digits[..j], d256, ch, newCh % 58, newCh / 58);
      assert digits[..j + 1] == digits[..j] + [ch];
      ghost var low := ret[..j];
      ret := ret[j := newCh % 58];
      assert ret[..j + 1] == low + [newCh % 58];
      carry := newCh / 58;
    }
    assert ret[..|ret|] == ret && digits[..|digits|] == digits;
    while carry > 0
      invariant AreDigits(ret, 58) && (carry == 0 ==> Trimmed(ret))
      invariant ValueLE(ret, 58) + carry * Pow(58, |ret|) == ValueLE(digits, 58) * 256 + d256
    {
      PushStep(ret, carry);
      ret := ret + [carry % 58];
      carry := carry / 58;
    }
  }

  /** The state of the encoder after the first bytes `read`. */
  ghost predicate Scanned(ret: seq<nat>, leadingZeroCount: nat, leadingZeroes: bool, read: seq<u8>)
  {
    && AreDigits(ret, 58) && Trimmed(ret) && ValueLE(ret, 58) == Value(read, 256)
    && leadingZeroCount == LeadingZeros(read) && leadingZeroes == (leadingZeroCount == |read|)
  }

  lemma NothingScanned()
    ensures Scanned([], 0, true, [])
  {
  }

  lemma ScanStep(ret: seq<nat>, count: nat, leading: bool, read: seq<u8>, b: u8, next: seq<nat>)
    requires Scanned(ret, count, leading, read)
    requires AreDigits(next, 58) && Trimmed(next) && ValueLE(next, 58) == ValueLE(ret, 58) * 256 + b
    ensures Scanned(next, if leading && b == 0 then count + 1 else count, leading && b == 0, read + [b])
  {
    hide ValueLE, Trimmed, LeadingZeros;
    assert (read + [b])[..|read|] == read;
    LeadingZerosStep(read, b);
  }

  lemma ScannedAll(digits: seq<nat>, count: nat, leading: bool, data: seq<u8>)
    requires Scanned(digits, count, leading, data)
    ensures AreDigits(Reversed(digits + Zeros(count)), 58)
    ensures Encoded(data) == Chars(Reversed(digits + Zeros(count)))
  {
    hide ValueLE, Value, Canonical, Chars;
    ReversedPadded(digits, Value(data, 256), 58, count);
  }

  method EncodeIterUtf8(data: seq<u8>) returns (r: seq<u8>)
    ensures r == Encoded(data)
  {
    hide Pow, Value, ValueLE, LeadingZeros, Scanned, Encoded;
    var ret: seq<nat> := [];
    var leadingZeroCount := 0;
    var leadingZeroes := true;
    NothingScanned();
    for i := 0 to |data|
      invariant AreDigits(ret, 58) && Trimmed(ret) && Scanned(ret, leadingZeroCount, leadingZeroes, data[..i])
    {
      var next := ScaleAdd(ret, data[i]);
      ScanStep(ret, leadingZeroCount, leadingZeroes, data[..i], data[i], next);
      assert data[..i] + [data[i]] == data[..i + 1];
      if leadingZeroes && data[i] == 0 {
        leadingZeroCount := leadingZeroCount + 1;
      } else {
        leadingZeroes := false;
      }
      ret := next;
    }
    assert data[..|data|] == data;
    ScannedAll(ret, leadingZeroCount, leadingZeroes, data);
    ghost var digits := ret;
    for k := 0 to leadingZeroCount
      invariant ret == digits + Zeros(k)
    {
      ret := ret + [0];
    }
    r := Chars(Reversed(ret));
  }

  lemma {:induction false} LeadingZerosStep(s: seq<nat>, d: nat)
    ensures LeadingZeros(s + [d])
         == if LeadingZeros(s) == |s| && d == 0 then |s| + 1 else LeadingZeros(s)
  {
    if s != [] && s[0] == 0 {
      LeadingZerosStep(s[1..], d);
      assert (s + [d])[1..] == s[1..] + [d];
    }
  }

  // ---------------------------------------------------------------- base58check

  /** A double SHA-256 digest; the hash itself is a parameter of the check codec. */
  type Digest = s: seq<u8> | |s| == 32 witness seq(32, _ => 0)

  function CheckEncodeSlice(hash: seq<u8> -> Digest, data: seq<u8>): (s: seq<u8>)
  {
    Encoded(data + hash(data)[0..4])
  }

  function FromCheck(hash: seq<u8> -> Digest, data: seq<u8>): (r: Result<seq<u8>, Error>)
  {
    match Decoded(data)
    case Failure(e) => Failure(e)
    case Success(ret) =>
      if |ret| < 4 then Failure(TooShort(|ret|))
      else
        var ckStart := |ret| - 4;
        var expected := LowU32(hash(ret[..ckStart]));
        var actual := LowU32(ret[ckStart..]);
        if expected != actual then Failure(BadChecksum(expected, actual)) else Success(ret[..ckStart])
  }

  /** A string passes `from_check` with payload `data` exactly when it is the encoding of `data`. */
  lemma FromCheckIff(hash: seq<u8> -> Digest, s: seq<u8>, data: seq<u8>)
    ensures FromCheck(hash, s) == Success(data) <==> s == CheckEncodeSlice(hash, data)
  {
    hide FromCheck, Encoded;
    if s == CheckEncodeSlice(hash, data) {
      CheckedBack(hash, data);
    }
    if FromCheck(hash, s) == Success(data) {
      OnlyEncodings(hash, s, data);
    }
  }

  /** The text of checked data spells the data and, after it, the first four bytes of its digest. */
  lemma CheckedSpells(hash: seq<u8> -> Digest, data: seq<u8>)
    ensures Decoded(CheckEncodeSlice(hash, data)) == Success(data + hash(data)[..4])
  {
    hide Decoded, Encoded;
    DecodeEncoded(data + hash(data)[..4]);
  }

  /**
    What `from_check` makes of a text that spells `bytes`: too short without a checksum,
    accepted exactly when the last four bytes are the first four of the digest of the
    rest, and otherwise both checksums are reported, the expected one first.
   */
  lemma FromCheckIs(hash: seq<u8> -> Digest, s: seq<u8>, bytes: seq<u8>)
    requires Decoded(s) == Success(bytes)
    ensures |bytes| < 4 ==> FromCheck(hash, s) == Failure(TooShort(|bytes|))
    ensures |bytes| >= 4 ==>
              var (data, sum) := (bytes[..|bytes| - 4], bytes[|bytes| - 4..]);
              var h := hash(data);
              if sum == h[..4] then FromCheck(hash, s) == Success(data)
              else FromCheck(hash, s) == Failure(BadChecksum(LowU32(h[..4]), LowU32(sum)))
  {
    hide Decoded, LowU32;
    if |bytes| >= 4 {
      var data, sum := bytes[..|bytes| - 4], bytes[|bytes| - 4..];
      LowU32Prefix(hash(data));
      assert sum[..4] == sum;
      if LowU32(hash(data)) == LowU32(sum) {
        LowU32Injective(hash(data), sum);
      }
    }
  }

  lemma CheckedBack(hash: seq<u8> -> Digest, data: seq<u8>)
    ensures FromCheck(hash, CheckEncodeSlice(hash, data)) == Success(data)
  {
    hide Decoded, Encoded, LowU32;
    var full := data + hash(data)[0..4];
    DecodeEncoded(full);
    assert full[..|full| - 4] == data && full[|full| - 4..] == hash(data)[..4];
    LowU32Prefix(hash(data));
  }

  lemma LowU32Prefix(b: seq<u8>)
    requires |b| >= 4
    ensures LowU32(b[..4]) == LowU32(b)
  {
    assert b[..4][..4] == b[..4];
  }

  lemma OnlyEncodings(hash: seq<u8> -> Digest, s: seq<u8>, data: seq<u8>)
    requires FromCheck(hash, s) == Success(data)
    ensures s == CheckEncodeSlice(hash, data)
  {
    hide Decoded, Encoded, LowU32;
    DecodedInAlphabet(s);
    EncodeDecoded(s);
    var ret := Decoded(s).value;
    LowU32Injective(hash(data), ret[|ret| - 4..]);
    assert ret == data + hash(data)[0..4];
  }

  lemma DecodedInAlphabet(s: seq<u8>)
    ensures Decoded(s).Success? <==> AllInAlphabet(s)
  {
  }
}
