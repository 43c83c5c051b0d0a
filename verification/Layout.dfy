/**
  Which bytes of a message each field takes, by position, and which messages are
  accepted, in the numbers of the wire format (src/net/codec.rs, src/net/mod.rs).
 */
module Layout {

  import opened Numerals
  import opened Results
  import opened Wire
  import opened Messages

  // ---------------------------------------------------------------- numbers

  /** Byte `i` of a number of `k` bytes, the most significant first. */
  lemma {:induction false} BigEndianAt(n: nat, k: nat, i: nat)
    requires i < k
    ensures Pow(256, k - 1 - i) > 0 && BigEndian(n, k)[i] == n / Pow(256, k - 1 - i) % 256
  {
    PowMono(256, 0, k - 1 - i);
    if i < k - 1 {
      BigEndianAt(n / 256, k - 1, i);
      DivSplit(n % 256, n / 256, 256, Pow(256, k - 2 - i));
      assert n == n % 256 + 256 * (n / 256);
    } else {
      assert n / 1 == n;
    }
  }

  /** A field of `b` at `at`, and what follows it. */
  lemma Field(b: seq<u8>, at: nat, field: seq<u8>, rest: seq<u8>)
    requires at <= |b| && b[at..] == field + rest
    ensures at + |field| <= |b| && b[at..at + |field|] == field && b[at + |field|..] == rest
  {
    assert |b| - at == |field| + |rest|;
    assert b[at..at + |field|] == b[at..][..|field|];
    assert b[at + |field|..] == b[at..][|field|..];
  }

  // ---------------------------------------------------------------- preamble

  /** Every field of a preamble has its place in the first 165 bytes. */
  lemma PreambleLayout(p: Preamble, rest: seq<u8>)
    ensures var b := WritePreamble(p, rest);
            && |b| == 165 + |rest| && b[165..] == rest
            && b[0..4] == BigEndian(p.peerVersion, 4)
            && b[4..8] == BigEndian(p.networkId, 4)
            && b[8..12] == BigEndian(p.seqno, 4)
            && b[12..20] == BigEndian(p.burnBlockHeight, 8)
            && b[20..52] == p.burnBlockHash
            && b[52..60] == BigEndian(p.burnStableBlockHeight, 8)
            && b[60..92] == p.burnStableBlockHash
            && b[92..96] == BigEndian(p.additionalData, 4)
            && b[96..161] == p.signature
            && b[161..165] == BigEndian(p.payloadLen, 4)
  {
    var b := WritePreamble(p, rest);
    var b9 := WriteUint(4, p.payloadLen, rest);
    var b8 := p.signature + b9;
    var b7 := WriteUint(4, p.additionalData, b8);
    var b6 := p.burnStableBlockHash + b7;
    var b5 := WriteUint(8, p.burnStableBlockHeight, b6);
    var b4 := p.burnBlockHash + b5;
    var b3 := WriteUint(8, p.burnBlockHeight, b4);
    var b2 := WriteUint(4, p.seqno, b3);
    var b1 := WriteUint(4, p.networkId, b2);
    assert b == WriteUint(4, p.peerVersion, b1);
    PreambleFields(p, b, b1, b2, b3, b4, b5, b6, b7, b8, b9, rest);
  }

  lemma PreambleFields(p: Preamble, b: seq<u8>, b1: seq<u8>, b2: seq<u8>, b3: seq<u8>, b4: seq<u8>, b5: seq<u8>,
                       b6: seq<u8>, b7: seq<u8>, b8: seq<u8>, b9: seq<u8>, rest: seq<u8>)
    requires b == WriteUint(4, p.peerVersion, b1) && b1 == WriteUint(4, p.networkId, b2)
    requires b2 == WriteUint(4, p.seqno, b3) && b3 == WriteUint(8, p.burnBlockHeight, b4)
    requires b4 == p.burnBlockHash + b5 && b5 == WriteUint(8, p.burnStableBlockHeight, b6)
    requires b6 == p.burnStableBlockHash + b7 && b7 == WriteUint(4, p.additionalData, b8)
    requires b8 == p.signature + b9 && b9 == WriteUint(4, p.payloadLen, rest)
    ensures |b| == 165 + |rest| && b[165..] == rest
    ensures b[0..4] == BigEndian(p.peerVersion, 4) && b[4..8] == BigEndian(p.networkId, 4)
    ensures b[8..12] == BigEndian(p.seqno, 4) && b[12..20] == BigEndian(p.burnBlockHeight, 8)
    ensures b[20..52] == p.burnBlockHash && b[52..60] == BigEndian(p.burnStableBlockHeight, 8)
    ensures b[60..92] == p.burnStableBlockHash && b[92..96] == BigEndian(p.additionalData, 4)
    ensures b[96..161] == p.signature && b[161..165] == BigEndian(p.payloadLen, 4)
  {
    assert b[0..] == b;
    Field(b, 0, BigEndian(p.peerVersion, 4), b1);
    Field(b, 4, BigEndian(p.networkId, 4), b2);
    Field(b, 8, BigEndian(p.seqno, 4), b3);
    Field(b, 12, BigEndian(p.burnBlockHeight, 8), b4);
    Field(b, 20, p.burnBlockHash, b5);
    Field(b, 52, BigEndian(p.burnStableBlockHeight, 8), b6);
    Field(b, 60, p.burnStableBlockHash, b7);
    Field(b, 92, BigEndian(p.additionalData, 4), b8);
    Field(b, 96, p.signature, b9);
    Field(b, 161, BigEndian(p.payloadLen, 4), rest);
  }

  /** The preamble that the first 165 bytes spell out, whether it is acceptable or not. */
  function Spelled(b: seq<u8>): (p: Preamble)
    requires |b| >= 165
  {
    Widths();
    ValueBound(b[0..4], 256);
    ValueBound(b[4..8], 256);
    ValueBound(b[8..12], 256);
    ValueBound(b[12..20], 256);
    ValueBound(b[52..60], 256);
    ValueBound(b[92..96], 256);
    ValueBound(b[161..165], 256);
    Preamble(Value(b[0..4], 256), Value(b[4..8], 256), Value(b[8..12], 256),
             Value(b[12..20], 256), b[20..52], Value(b[52..60], 256), b[60..92],
             Value(b[92..96], 256), b[96..161], Value(b[161..165], 256))
  }

  /**
    A preamble is read exactly from 165 bytes whose payload length is at least 5 and below
    the longest message, and whose stable height is below its height.
   */
  lemma PreambleReadIff(b: seq<u8>)
    ensures |b| < 165 ==> ReadPreamble(b) == Err(ReadError)
    ensures |b| >= 165 ==>
              var p := Spelled(b);
              if 5 <= p.payloadLen < 16778054 && p.burnStableBlockHeight < p.burnBlockHeight then
                ReadPreamble(b) == Ok(p, b[165..])
              else ReadPreamble(b) == Err(DeserializeError)
  {
    hide Value, BigEndian, ReadPreamble, WritePreamble;
    var r := ReadPreamble(b);
    if r.Ok? {
      PreambleLayout(r.value, r.rest);
      NumbersBack(r.value);
    } else {
      PreambleErrors(b);
    }
    if |b| >= 165 {
      var p := Spelled(b);
      SpelledBack(b);
      if WellFormedPreamble(p) {
        PreambleRoundTrip(p, b[165..]);
      }
    }
  }

  lemma PreambleErrors(b: seq<u8>)
    requires ReadPreamble(b).Err?
    ensures ReadPreamble(b) == Err(if |b| < 165 then ReadError else DeserializeError)
  {
    hide Value, BigEndian, WriteUint;
  }

  lemma NumbersBack(p: Preamble)
    ensures Value(BigEndian(p.peerVersion, 4), 256) == p.peerVersion
    ensures Value(BigEndian(p.networkId, 4), 256) == p.networkId
    ensures Value(BigEndian(p.seqno, 4), 256) == p.seqno
    ensures Value(BigEndian(p.burnBlockHeight, 8), 256) == p.burnBlockHeight
    ensures Value(BigEndian(p.burnStableBlockHeight, 8), 256) == p.burnStableBlockHeight
    ensures Value(BigEndian(p.additionalData, 4), 256) == p.additionalData
    ensures Value(BigEndian(p.payloadLen, 4), 256) == p.payloadLen
  {
    hide Value, BigEndian;
    Widths();
    BigEndianValue(p.peerVersion, 4);
    BigEndianValue(p.networkId, 4);
    BigEndianValue(p.seqno, 4);
    BigEndianValue(p.burnBlockHeight, 8);
    BigEndianValue(p.burnStableBlockHeight, 8);
    BigEndianValue(p.additionalData, 4);
    BigEndianValue(p.payloadLen, 4);
  }

  /** What 165 bytes spell out is written as these bytes. */
  lemma SpelledBack(b: seq<u8>)
    requires |b| >= 165
    ensures WritePreamble(Spelled(b), b[165..]) == b
  {
    hide Value, BigEndian;
    var p, rest := Spelled(b), b[165..];
    BigEndianOfValue(b[0..4]);
    BigEndianOfValue(b[4..8]);
    BigEndianOfValue(b[8..12]);
    BigEndianOfValue(b[12..20]);
    BigEndianOfValue(b[52..60]);
    BigEndianOfValue(b[92..96]);
    BigEndianOfValue(b[161..165]);
    Join(b, 161, 165);
    Join(b, 96, 161);
    Join(b, 92, 96);
    Join(b, 60, 92);
    Join(b, 52, 60);
    Join(b, 20, 52);
    Join(b, 12, 20);
    Join(b, 8, 12);
    Join(b, 4, 8);
    Join(b, 0, 4);
    assert b[0..] == b;
  }

  lemma Join(b: seq<u8>, i: nat, j: nat)
    requires i <= j <= |b|
    ensures b[i..j] + b[j..] == b[i..]
  {
  }

  // ---------------------------------------------------------------- items of vectors

  lemma NeighborLayout(a: NeighborAddress, rest: seq<u8>)
    ensures var b := WriteNeighbor(a, rest);
            && |b| == 38 + |rest| && b[38..] == rest
            && b[0..16] == a.addrbytes && b[16..18] == BigEndian(a.port, 2) && b[18..38] == a.publicKeyHash
  {
    var b, b2 := WriteNeighbor(a, rest), a.publicKeyHash + rest;
    assert b[0..] == b;
    Field(b, 0, a.addrbytes, WriteUint(2, a.port, b2));
    Field(b, 16, BigEndian(a.port, 2), b2);
    Field(b, 18, a.publicKeyHash, rest);
  }

  lemma RelayLayout(d: RelayData, rest: seq<u8>)
    ensures var b := WriteRelay(d, rest);
            && |b| == 42 + |rest| && b[42..] == rest && b[0..16] == d.peer.addrbytes
            && b[16..18] == BigEndian(d.peer.port, 2) && b[18..38] == d.peer.publicKeyHash
            && b[38..42] == BigEndian(d.seqno, 4)
  {
    NeighborLayout(d.peer, WriteUint(4, d.seqno, rest));
    Field(WriteRelay(d, rest), 38, BigEndian(d.seqno, 4), rest);
  }

  lemma BlockIdLayout(d: BlockId, rest: seq<u8>)
    ensures var b := WriteBlockId(d, rest);
            && |b| == 52 + |rest| && b[52..] == rest && b[0..20] == d.consensusHash && b[20..52] == d.burnHeaderHash
  {
    var b := WriteBlockId(d, rest);
    assert b[0..] == b;
    Field(b, 0, d.consensusHash, d.burnHeaderHash + rest);
    Field(b, 20, d.burnHeaderHash, rest);
  }

  /** Every item takes `size` bytes and is followed by the rest. */
  ghost predicate Sized<T(!new)>(put: (T, seq<u8>) -> seq<u8>, size: nat)
  {
    forall x: T, rest {:trigger put(x, rest)} :: |put(x, rest)| == size + |rest| && put(x, rest)[size..] == rest
  }

  lemma ItemSizes()
    ensures Sized(WriteNeighbor, 38) && Sized(WriteRelay, 42) && Sized(WriteBlockId, 52)
  {
    forall a: NeighborAddress, rest
      ensures |WriteNeighbor(a, rest)| == 38 + |rest| && WriteNeighbor(a, rest)[38..] == rest
    {
      NeighborLayout(a, rest);
    }
    forall d: RelayData, rest
      ensures |WriteRelay(d, rest)| == 42 + |rest| && WriteRelay(d, rest)[42..] == rest
    {
      RelayLayout(d, rest);
    }
    forall d: BlockId, rest
      ensures |WriteBlockId(d, rest)| == 52 + |rest| && WriteBlockId(d, rest)[52..] == rest
    {
      BlockIdLayout(d, rest);
    }
  }

  /** What stands from item `i` on. */
  lemma {:induction false} ItemsFrom<T(!new)>(
      put: (T, seq<u8>) -> seq<u8>, size: nat, xs: seq<T>, rest: seq<u8>, i: nat)
    requires Sized(put, size) && i <= |xs|
    ensures size * i <= |WriteItems(put, xs, rest)| == size * |xs| + |rest|
    ensures WriteItems(put, xs, rest)[size * i..] == WriteItems(put, xs[i..], rest)
  {
    if xs == [] {
      assert xs[i..] == xs;
    } else {
      var b, tail := WriteItems(put, xs, rest), WriteItems(put, xs[1..], rest);
      assert b == put(xs[0], tail) && b[size..] == tail;
      ItemsFrom(put, size, xs[1..], rest, if i == 0 then 0 else i - 1);
      DistributeLeft(size, 1, |xs| - 1);
      if i == 0 {
        assert xs[0..] == xs;
      } else {
        DistributeLeft(size, 1, i - 1);
        assert size * i == size + size * (i - 1);
        assert b[size * i..] == b[size..][size * (i - 1)..];
        assert xs[i..] == xs[1..][i - 1..];
      }
    }
  }

  lemma VecParts<T>(put: (T, seq<u8>) -> seq<u8>, xs: seq<T>, rest: seq<u8>)
    requires |xs| < 0x1_0000_0000
    ensures WriteVec(put, xs, rest) == BigEndian(|xs|, 4) + WriteItems(put, xs, rest)
  {
    hide BigEndian, WriteItems;
    assert |xs| % 0x1_0000_0000 == |xs|;
  }

  /** A vector: its length in four bytes, then item `i` at `size * i`, then the rest. */
  lemma VecLayout<T(!new)>(put: (T, seq<u8>) -> seq<u8>, size: nat, xs: seq<T>, rest: seq<u8>, i: nat)
    returns (after: seq<u8>)
    requires Sized(put, size) && |xs| < 0x1_0000_0000 && i <= |xs|
    ensures var b := WriteVec(put, xs, rest);
            && 4 + size * i <= |b| == 4 + size * |xs| + |rest| && b[0..4] == BigEndian(|xs|, 4)
            && (i < |xs| ==> b[4 + size * i..] == put(xs[i], after))
            && (i == |xs| ==> b[4 + size * i..] == rest)
  {
    hide WriteVec, BigEndian, Sized;
    var b, items := WriteVec(put, xs, rest), WriteItems(put, xs, rest);
    VecParts(put, xs, rest);
    assert b[0..] == b;
    Field(b, 0, BigEndian(|xs|, 4), items);
    ItemsFrom(put, size, xs, rest, i);
    assert b[4 + size * i..] == b[4..][size * i..];
    after := if i < |xs| then WriteItems(put, xs[i..][1..], rest) else [];
  }

  lemma {:induction false} ByteItems(v: seq<u8>, rest: seq<u8>)
    ensures WriteItems(WriteByte, v, rest) == v + rest
  {
    if v != [] {
      ByteItems(v[1..], rest);
      OneByte(v[0], v[1..] + rest);
      assert v == [v[0]] + v[1..];
    }
  }

  lemma OneByte(x: u8, rest: seq<u8>)
    ensures WriteUint(1, x, rest) == [x] + rest
  {
    assert BigEndian(x, 1) == [x];
  }

  /** A bit vector: its length in four bytes, then its bytes. */
  lemma BitvecLayout(b: seq<u8>, at: nat, v: seq<u8>, rest: seq<u8>)
    requires |v| < 0x1_0000_0000 && at <= |b| && b[at..] == WriteBitvec(v, rest)
    ensures at + 4 + |v| <= |b| && b[at..at + 4] == BigEndian(|v|, 4)
    ensures b[at + 4..at + 4 + |v|] == v && b[at + 4 + |v|..] == rest
  {
    hide WriteVec, BigEndian;
    ByteItems(v, rest);
    VecParts(WriteByte, v, rest);
    Field(b, at, BigEndian(|v|, 4), v + rest);
    Field(b, at + 4, v, rest);
  }

  // ---------------------------------------------------------------- payloads

  lemma HandshakeLayout(b: seq<u8>, at: nat, h: HandshakeData, rest: seq<u8>)
    requires |h.dataUrl| < 256 && at <= |b| && b[at..] == WriteHandshake(h, rest)
    ensures |b| == at + 62 + |h.dataUrl| + |rest|
    ensures b[at..at + 16] == h.addrbytes && b[at + 16..at + 18] == BigEndian(h.port, 2)
    ensures b[at + 18..at + 20] == BigEndian(h.services, 2) && b[at + 20..at + 53] == h.nodePublicKey
    ensures b[at + 53..at + 61] == BigEndian(h.expireBlockHeight, 8) && b[at + 61] == |h.dataUrl|
    ensures b[at + 62..at + 62 + |h.dataUrl|] == h.dataUrl && b[at + 62 + |h.dataUrl|..] == rest
  {
    hide BigEndian, WriteUint;
    var b5 := WriteUrl(h.dataUrl, rest);
    var b4 := WriteUint(8, h.expireBlockHeight, b5);
    var b3 := h.nodePublicKey + b4;
    var b2 := WriteUint(2, h.services, b3);
    var b1 := WriteUint(2, h.port, b2);
    OneByte(|h.dataUrl|, h.dataUrl + rest);
    Field(b, at, h.addrbytes, b1);
    NumberAt(b, at + 16, 2, h.port, b2);
    NumberAt(b, at + 18, 2, h.services, b3);
    Field(b, at + 20, h.nodePublicKey, b4);
    NumberAt(b, at + 53, 8, h.expireBlockHeight, b5);
    assert b5 == [|h.dataUrl|] + (h.dataUrl + rest);
    UrlAt(b, at + 61, h.dataUrl, rest);
  }

  lemma NumberAt(b: seq<u8>, at: nat, k: nat, x: nat, rest: seq<u8>)
    requires at <= |b| && b[at..] == WriteUint(k, x, rest)
    ensures at + k <= |b| && b[at..at + k] == BigEndian(x, k) && b[at + k..] == rest
  {
    hide BigEndian;
    Field(b, at, BigEndian(x, k), rest);
  }

  lemma UrlAt(b: seq<u8>, at: nat, url: seq<u8>, rest: seq<u8>)
    requires |url| < 256 && at <= |b| && b[at..] == [|url|] + (url + rest)
    ensures at + 1 + |url| <= |b| && b[at] == |url| && b[at + 1..at + 1 + |url|] == url && b[at + 1 + |url|..] == rest
  {
    Field(b, at, [|url|], url + rest);
    Field(b, at + 1, url, rest);
    assert b[at] == b[at..at + 1][0];
  }

  /** The type byte of each kind of payload; what follows is its content. */
  lemma TypeByte(p: Payload, rest: seq<u8>)
    ensures var b := WritePayload(p, rest);
            && |b| >= 1 && b[1..] == WriteContent(p, rest)
            && (p.Handshake? ==> b[0] == 0) && (p.HandshakeAccept? ==> b[0] == 1)
            && (p.HandshakeReject? ==> b[0] == 2) && (p.GetNeighbors? ==> b[0] == 3)
            && (p.Neighbors? ==> b[0] == 4) && (p.GetBlocksInv? ==> b[0] == 5) && (p.BlocksInv? ==> b[0] == 6)
            && (p.GetPoxInv? ==> b[0] == 7) && (p.PoxInv? ==> b[0] == 8) && (p.BlocksAvailable? ==> b[0] == 9)
            && (p.MicroblocksAvailable? ==> b[0] == 10) && (p.Bulk? ==> b[0] == p.id) && (p.Nack? ==> b[0] == 14)
            && (p.Ping? ==> b[0] == 15) && (p.Pong? ==> b[0] == 16) && (p.NatPunchRequest? ==> b[0] == 17)
            && (p.NatPunchReply? ==> b[0] == 18)
  {
    hide WriteContent;
    OneByte(MessageId(p), WriteContent(p, rest));
  }

  /** The fields of the payloads of fixed size, by position after the type byte. */
  lemma FixedLayout(p: Payload, rest: seq<u8>)
    ensures var b := WriteContent(p, rest);
            && (p.HandshakeReject? || p.GetNeighbors? ==> b == rest)
            && (p.GetBlocksInv? ==>
                  && |b| == 22 + |rest| && b[22..] == rest
                  && b[0..20] == p.consensusHash && b[20..22] == BigEndian(p.numBlocks, 2))
            && (p.GetPoxInv? ==>
                  && |b| == 22 + |rest| && b[22..] == rest
                  && b[0..20] == p.consensusHash && b[20..22] == BigEndian(p.numCycles, 2))
            && (p.Nack? ==> |b| == 4 + |rest| && b[4..] == rest && b[0..4] == BigEndian(p.errorCode, 4))
            && (p.Ping? || p.Pong? || p.NatPunchRequest? ==>
                  |b| == 4 + |rest| && b[4..] == rest && b[0..4] == BigEndian(p.nonce, 4))
            && (p.NatPunchReply? ==>
                  && |b| == 22 + |rest| && b[22..] == rest && b[0..16] == p.addrbytes
                  && b[16..18] == BigEndian(p.port, 2) && b[18..22] == BigEndian(p.nonce, 4))
            && (p.Bulk? ==> |b| == |p.bytes| + |rest| && b[..|p.bytes|] == p.bytes && b[|p.bytes|..] == rest)
  {
    hide BigEndian;
    var b := WriteContent(p, rest);
    assert b[0..] == b;
    match p {
      case GetBlocksInv(ch, n) =>
        Field(b, 0, ch, WriteUint(2, n, rest));
        Field(b, 20, BigEndian(n, 2), rest);
      case GetPoxInv(ch, n) =>
        Field(b, 0, ch, WriteUint(2, n, rest));
        Field(b, 20, BigEndian(n, 2), rest);
      case NatPunchReply(a, port, x) =>
        Field(b, 0, a, WriteUint(2, port, WriteUint(4, x, rest)));
        Field(b, 16, BigEndian(port, 2), WriteUint(4, x, rest));
        Field(b, 18, BigEndian(x, 4), rest);
      case _ =>
    }
  }

  /** Handshakes: address, port, services, key, expiry and URL, and the heartbeat after an accept. */
  lemma HandshakeContent(p: Payload, rest: seq<u8>)
    requires (p.Handshake? || p.HandshakeAccept?) && |p.handshake.dataUrl| < 256
    ensures var b, h, n := WriteContent(p, rest), p.handshake, |p.handshake.dataUrl|;
            && |b| >= 62 + n && b[0..16] == h.addrbytes && b[16..18] == BigEndian(h.port, 2)
            && b[18..20] == BigEndian(h.services, 2) && b[20..53] == h.nodePublicKey
            && b[53..61] == BigEndian(h.expireBlockHeight, 8) && b[61] == n && b[62..62 + n] == h.dataUrl
            && (p.Handshake? ==> b[62 + n..] == rest)
            && (p.HandshakeAccept? ==>
                  |b| >= 66 + n && b[62 + n..66 + n] == BigEndian(p.heartbeatInterval, 4) && b[66 + n..] == rest)
  {
    hide WriteHandshake;
    var b, h, n := WriteContent(p, rest), p.handshake, |p.handshake.dataUrl|;
    assert b[0..] == b;
    if p.Handshake? {
      HandshakeLayout(b, 0, h, rest);
    } else {
      HandshakeLayout(b, 0, h, WriteUint(4, p.heartbeatInterval, rest));
      Field(b, 62 + n, BigEndian(p.heartbeatInterval, 4), rest);
    }
  }

  /** Inventories: the number of bits, then each vector with its length. */
  lemma InventoryContent(p: Payload, rest: seq<u8>)
    ensures p.BlocksInv? && |p.blockBitvec| < 0x1_0000_0000 && |p.microblocksBitvec| < 0x1_0000_0000 ==>
              var b, v, w := WriteContent(p, rest), p.blockBitvec, p.microblocksBitvec;
              && |b| == 10 + |v| + |w| + |rest| && b[0..2] == BigEndian(p.bitlen, 2)
              && b[2..6] == BigEndian(|v|, 4) && b[6..6 + |v|] == v
              && b[6 + |v|..10 + |v|] == BigEndian(|w|, 4) && b[10 + |v|..10 + |v| + |w|] == w
    ensures p.PoxInv? && |p.poxBitvec| < 0x1_0000_0000 ==>
              var b, v := WriteContent(p, rest), p.poxBitvec;
              && |b| == 6 + |v| + |rest| && b[0..2] == BigEndian(p.bitlen, 2)
              && b[2..6] == BigEndian(|v|, 4) && b[6..6 + |v|] == v
  {
    hide WriteBitvec;
    var b := WriteContent(p, rest);
    assert b[0..] == b;
    match p {
      case BlocksInv(bitlen, v, w) =>
        Field(b, 0, BigEndian(bitlen, 2), WriteBitvec(v, WriteBitvec(w, rest)));
        if |v| < 0x1_0000_0000 && |w| < 0x1_0000_0000 {
          BitvecLayout(b, 2, v, WriteBitvec(w, rest));
          BitvecLayout(b, 6 + |v|, w, rest);
        }
      case PoxInv(bitlen, v) =>
        Field(b, 0, BigEndian(bitlen, 2), WriteBitvec(v, rest));
        if |v| < 0x1_0000_0000 {
          BitvecLayout(b, 2, v, rest);
        }
      case _ =>
    }
  }

  /** Neighbor `i` of a list takes the 38 bytes at `4 + 38 * i`. */
  lemma NeighborsContent(ns: seq<NeighborAddress>, rest: seq<u8>, i: nat)
    requires i < |ns| < 0x1_0000_0000
    ensures var b, at := WriteContent(Neighbors(ns), rest), 4 + 38 * i;
            && |b| == 4 + 38 * |ns| + |rest| && b[0..4] == BigEndian(|ns|, 4) && at + 38 <= |b|
            && b[at..at + 16] == ns[i].addrbytes && b[at + 16..at + 18] == BigEndian(ns[i].port, 2)
            && b[at + 18..at + 38] == ns[i].publicKeyHash
  {
    hide WriteNeighbor, WriteVec;
    ItemSizes();
    var after := VecLayout(WriteNeighbor, 38, ns, rest, i);
    NeighborLayout(ns[i], after);
    var b, at, item := WriteContent(Neighbors(ns), rest), 4 + 38 * i, WriteNeighbor(ns[i], after);
    Shift(b, at, 0, 16);
    Shift(b, at, 16, 18);
    Shift(b, at, 18, 38);
  }

  lemma Shift(b: seq<u8>, at: nat, i: nat, j: nat)
    requires at <= |b| && i <= j <= |b[at..]|
    ensures at + j <= |b| && b[at + i..at + j] == b[at..][i..j]
  {
  }

  /** Block `i` of an announcement takes the 52 bytes at `4 + 52 * i`. */
  lemma AvailableContent(bs: seq<BlockId>, rest: seq<u8>, i: nat)
    requires i < |bs| < 0x1_0000_0000
    ensures var b, at := WriteContent(BlocksAvailable(bs), rest), 4 + 52 * i;
            && b == WriteContent(MicroblocksAvailable(bs), rest)
            && |b| == 4 + 52 * |bs| + |rest| && b[0..4] == BigEndian(|bs|, 4) && at + 52 <= |b|
            && b[at..at + 20] == bs[i].consensusHash && b[at + 20..at + 52] == bs[i].burnHeaderHash
  {
    hide WriteBlockId, WriteVec;
    ItemSizes();
    var after := VecLayout(WriteBlockId, 52, bs, rest, i);
    BlockIdLayout(bs[i], after);
    var b, at := WriteContent(BlocksAvailable(bs), rest), 4 + 52 * i;
    Shift(b, at, 0, 20);
    Shift(b, at, 20, 52);
  }

  // ---------------------------------------------------------------- messages

  /** After the preamble: the number of relayers, 42 bytes for each, and the payload. */
  lemma BodyLayout(relayers: seq<RelayData>, payload: Payload, rest: seq<u8>)
    requires |relayers| < 0x1_0000_0000
    ensures var b, n := WriteBody(relayers, payload, rest), |relayers|;
            && 4 + 42 * n <= |b| && b[0..4] == BigEndian(n, 4) && b[4 + 42 * n..] == WritePayload(payload, rest)
  {
    hide WriteRelay, WriteVec, WritePayload;
    ItemSizes();
    var after := VecLayout(WriteRelay, 42, relayers, WritePayload(payload, rest), |relayers|);
  }

  /** Relayer `i` takes the 42 bytes at `4 + 42 * i`. */
  lemma RelayersLayout(relayers: seq<RelayData>, payload: Payload, rest: seq<u8>, i: nat)
    requires i < |relayers| < 0x1_0000_0000
    ensures var b, at, d := WriteBody(relayers, payload, rest), 4 + 42 * i, relayers[i];
            && at + 42 <= |b| && b[at..at + 16] == d.peer.addrbytes
            && b[at + 16..at + 18] == BigEndian(d.peer.port, 2)
            && b[at + 18..at + 38] == d.peer.publicKeyHash && b[at + 38..at + 42] == BigEndian(d.seqno, 4)
  {
    hide WriteRelay, WriteVec, WritePayload;
    ItemSizes();
    var after := VecLayout(WriteRelay, 42, relayers, WritePayload(payload, rest), i);
    RelayLayout(relayers[i], after);
    var b, at := WriteBody(relayers, payload, rest), 4 + 42 * i;
    Shift(b, at, 0, 16);
    Shift(b, at, 16, 18);
    Shift(b, at, 18, 38);
    Shift(b, at, 38, 42);
  }

  /** A message is its preamble, 165 bytes, and its body. */
  lemma MessageLayout(m: StacksMessage, rest: seq<u8>)
    ensures |WriteMessage(m, rest)| >= 165 && WriteMessage(m, rest)[165..] == WriteBody(m.relayers, m.payload, rest)
    ensures WriteMessage(m, rest)[..165] == WritePreamble(m.preamble, [])
  {
    hide WriteBody, WritePreamble;
    PreambleLayout(m.preamble, WriteBody(m.relayers, m.payload, rest));
    PreambleSize(m.preamble, WriteBody(m.relayers, m.payload, rest));
  }

  /**
    A serialized message is read back exactly when it keeps the limits of the format:
    on its length, its heights, and the sizes and values of its parts.
   */
  lemma ReadBackIff(env: Env, m: StacksMessage, rest: seq<u8>)
    requires Streaming(env)
    ensures ReadMessage(env, WriteMessage(m, rest)) == Ok(m, rest) <==>
              && 5 <= m.preamble.payloadLen <= 16777889
              && m.preamble.burnStableBlockHeight < m.preamble.burnBlockHeight
              && |m.relayers| <= 16
              && match m.payload
                 case Handshake(h) =>
                   h.port != 0 && |h.dataUrl| <= 128 && (h.dataUrl == [] || env.isBlockUrl(h.dataUrl))
                 case HandshakeAccept(h, _) =>
                   h.port != 0 && |h.dataUrl| <= 128 && (h.dataUrl == [] || env.isBlockUrl(h.dataUrl))
                 case Neighbors(ns) => |ns| <= 128
                 case GetBlocksInv(_, n) => 1 <= n
                 case BlocksInv(n, v, w) => 1 <= n && |v| == |w| == (n + 7) / 8
                 case GetPoxInv(_, n) => 1 <= n <= 4096
                 case PoxInv(n, v) => 1 <= n <= 4096 && |v| == (n + 7) / 8
                 case BlocksAvailable(bs) => |bs| <= 32
                 case MicroblocksAvailable(bs) => |bs| <= 32
                 case Bulk(id, bytes) =>
                   id in {11, 12, 13} && forall more :: env.bulk(id, bytes + more) == Some(|bytes|)
                 case _ => true
  {
    hide ReadMessage, WriteMessage;
    MessageAppends(m, rest);
    MessageIff(env, WriteMessage(m, rest), m, rest);
  }
}
