/**
  The peer-to-peer messages and their codecs (src/net/codec.rs).
 */
module Messages {

  import opened Numerals
  import opened Results
  import opened Wire

  datatype Preamble = Preamble(
    peerVersion: u32, networkId: u32, seqno: u32,
    burnBlockHeight: u64, burnBlockHash: Bytes32,
    burnStableBlockHeight: u64, burnStableBlockHash: Bytes32,
    additionalData: u32, signature: Bytes65, payloadLen: u32)

  datatype NeighborAddress = NeighborAddress(addrbytes: Bytes16, port: u16, publicKeyHash: Bytes20)
  datatype RelayData = RelayData(peer: NeighborAddress, seqno: u32)
  datatype BlockId = BlockId(consensusHash: Bytes20, burnHeaderHash: Bytes32)
  datatype HandshakeData = HandshakeData(
    addrbytes: Bytes16, port: u16, services: u16, nodePublicKey: Bytes33, expireBlockHeight: u64, dataUrl: seq<u8>)

  /** `Bulk` stands for Blocks, Microblocks and Transaction, whose own codecs are parameters. */
  datatype Payload =
    | Handshake(handshake: HandshakeData)
    | HandshakeAccept(handshake: HandshakeData, heartbeatInterval: u32)
    | HandshakeReject
    | GetNeighbors
    | Neighbors(neighbors: seq<NeighborAddress>)
    | GetBlocksInv(consensusHash: Bytes20, numBlocks: u16)
    | BlocksInv(bitlen: u16, blockBitvec: seq<u8>, microblocksBitvec: seq<u8>)
    | GetPoxInv(consensusHash: Bytes20, numCycles: u16)
    | PoxInv(bitlen: u16, poxBitvec: seq<u8>)
    | BlocksAvailable(available: seq<BlockId>)
    | MicroblocksAvailable(available: seq<BlockId>)
    | Bulk(id: u8, bytes: seq<u8>)
    | Nack(errorCode: u32)
    | Ping(nonce: u32)
    | Pong(nonce: u32)
    | NatPunchRequest(nonce: u32)
    | NatPunchReply(addrbytes: Bytes16, port: u16, nonce: u32)

  datatype StacksMessage = StacksMessage(preamble: Preamble, relayers: seq<RelayData>, payload: Payload)

  /**
    Foreign code: which nonempty strings are block URLs, how many bytes the codec
    of a bulk payload takes off a stream (if it accepts it), and signature checking.
   */
  datatype Env = Env(
    isBlockUrl: seq<u8> -> bool,
    bulk: (u8, seq<u8>) -> Option<nat>,
    verify: (Bytes33, seq<u8>, Bytes65) -> bool)

  /** The bulk codec takes exactly `bytes` off any stream that starts with them. */
  ghost predicate SelfDelimiting(env: Env, id: u8, bytes: seq<u8>)
  {
    forall rest :: env.bulk(id, bytes + rest) == Some(|bytes|)
  }

  /** Streaming codecs depend only on the bytes that they consume. */
  ghost predicate Streaming(env: Env)
  {
    forall id: u8, b :: env.bulk(id, b).Some? && env.bulk(id, b).value <= |b| ==>
      SelfDelimiting(env, id, b[..env.bulk(id, b).value])
  }

  // ---------------------------------------------------------------- preamble

  function WritePreamble(p: Preamble, rest: seq<u8>): (b: seq<u8>)
  {
    WriteUint(4, p.peerVersion, WriteUint(4, p.networkId, WriteUint(4, p.seqno,
    WriteUint(8, p.burnBlockHeight, p.burnBlockHash + (
    WriteUint(8, p.burnStableBlockHeight, p.burnStableBlockHash + (
    WriteUint(4, p.additionalData, p.signature + (
    WriteUint(4, p.payloadLen, rest))))))))))
  }

  predicate WellFormedPreamble(p: Preamble)
  {
    5 <= p.payloadLen < MAX_MESSAGE_LEN && p.burnStableBlockHeight < p.burnBlockHeight
  }

  function ReadPreamble(b: seq<u8>): (r: Parsed<Preamble>)
    ensures r.Ok? ==> WellFormedPreamble(r.value) && b == WritePreamble(r.value, r.rest)
    ensures r.Err? ==> r.error == ReadError || r.error == DeserializeError
  {
    var (peerVersion, b1) :- ReadU32(b);
    var (networkId, b2) :- ReadU32(b1);
    var (seqno, b3) :- ReadU32(b2);
    var (burnBlockHeight, b4) :- ReadU64(b3);
    var (burnBlockHash, b5) :- ReadBytes(32, b4);
    var (burnStableBlockHeight, b6) :- ReadU64(b5);
    var (burnStableBlockHash, b7) :- ReadBytes(32, b6);
    var (additionalData, b8) :- ReadU32(b7);
    var (signature, b9) :- ReadBytes(65, b8);
    var (payloadLen, b10) :- ReadU32(b9);
    if payloadLen < 5 then Err(DeserializeError)
    else if payloadLen >= MAX_MESSAGE_LEN then Err(DeserializeError)
    else if burnBlockHeight <= burnStableBlockHeight then Err(DeserializeError)
    else
      Ok(Preamble(peerVersion, networkId, seqno, burnBlockHeight, burnBlockHash,
                  burnStableBlockHeight, burnStableBlockHash, additionalData, signature, payloadLen), b10)
  }

  lemma PreambleRoundTrip(p: Preamble, rest: seq<u8>)
    requires WellFormedPreamble(p)
    ensures ReadPreamble(WritePreamble(p, rest)) == Ok(p, rest)
  {
    var b10 := rest;
    var b9 := WriteUint(4, p.payloadLen, b10);
    var b8 := p.signature + b9;
    var b7 := WriteUint(4, p.additionalData, b8);
    var b6 := p.burnStableBlockHash + b7;
    var b5 := WriteUint(8, p.burnStableBlockHeight, b6);
    var b4 := p.burnBlockHash + b5;
    var b3 := WriteUint(8, p.burnBlockHeight, b4);
    var b2 := WriteUint(4, p.seqno, b3);
    var b1 := WriteUint(4, p.networkId, b2);
    U32RoundTrip(p.peerVersion, b1);
    U32RoundTrip(p.networkId, b2);
    U32RoundTrip(p.seqno, b3);
    U64RoundTrip(p.burnBlockHeight, b4);
    BytesRoundTrip(p.burnBlockHash, b5);
    U64RoundTrip(p.burnStableBlockHeight, b6);
    BytesRoundTrip(p.burnStableBlockHash, b7);
    U32RoundTrip(p.additionalData, b8);
    BytesRoundTrip(p.signature, b9);
    U32RoundTrip(p.payloadLen, b10);
  }

  /** A serialized preamble takes exactly PREAMBLE_ENCODED_SIZE bytes. */
  lemma PreambleSize(p: Preamble, rest: seq<u8>)
    ensures |WritePreamble(p, [])| == PREAMBLE_ENCODED_SIZE
    ensures WritePreamble(p, rest) == WritePreamble(p, []) + rest
  {
    var b9 := WriteUint(4, p.payloadLen, []);
    var b7 := WriteUint(4, p.additionalData, p.signature + b9);
    var b5 := WriteUint(8, p.burnStableBlockHeight, p.burnStableBlockHash + b7);
    var b3 := WriteUint(8, p.burnBlockHeight, p.burnBlockHash + b5);
    assert WriteUint(4, p.payloadLen, rest) == b9 + rest;
    assert p.signature + (b9 + rest) == p.signature + b9 + rest;
    assert WriteUint(4, p.additionalData, p.signature + b9 + rest) == b7 + rest;
    assert p.burnStableBlockHash + (b7 + rest) == p.burnStableBlockHash + b7 + rest;
    assert WriteUint(8, p.burnStableBlockHeight, p.burnStableBlockHash + b7 + rest) == b5 + rest;
    assert p.burnBlockHash + (b5 + rest) == p.burnBlockHash + b5 + rest;
    assert WriteUint(8, p.burnBlockHeight, p.burnBlockHash + b5 + rest) == b3 + rest;
    var b2 := WriteUint(4, p.seqno, b3);
    assert WriteUint(4, p.seqno, b3 + rest) == b2 + rest;
    var b1 := WriteUint(4, p.networkId, b2);
    assert WriteUint(4, p.networkId, b2 + rest) == b1 + rest;
    assert WriteUint(4, p.peerVersion, b1 + rest) == WriteUint(4, p.peerVersion, b1) + rest;
  }

  // ---------------------------------------------------------------- vector items

  function WriteNeighbor(a: NeighborAddress, rest: seq<u8>): (b: seq<u8>)
  {
    a.addrbytes + WriteUint(2, a.port, a.publicKeyHash + rest)
  }

  function ReadNeighbor(b: seq<u8>): (r: Parsed<NeighborAddress>)
    ensures r.Ok? ==> b == WriteNeighbor(r.value, r.rest)
  {
    var (addrbytes, b1) :- ReadBytes(16, b);
    var (port, b2) :- ReadU16(b1);
    var (publicKeyHash, b3) :- ReadBytes(20, b2);
    Ok(NeighborAddress(addrbytes, port, publicKeyHash), b3)
  }

  lemma NeighborRoundTrip(a: NeighborAddress, rest: seq<u8>)
    ensures ReadNeighbor(WriteNeighbor(a, rest)) == Ok(a, rest)
  {
    BytesRoundTrip(a.addrbytes, WriteUint(2, a.port, a.publicKeyHash + rest));
    U16RoundTrip(a.port, a.publicKeyHash + rest);
    BytesRoundTrip(a.publicKeyHash, rest);
  }

  function WriteRelay(d: RelayData, rest: seq<u8>): (b: seq<u8>)
  {
    WriteNeighbor(d.peer, WriteUint(4, d.seqno, rest))
  }

  function ReadRelay(b: seq<u8>): (r: Parsed<RelayData>)
    ensures r.Ok? ==> b == WriteRelay(r.value, r.rest)
  {
    var (peer, b1) :- ReadNeighbor(b);
    var (seqno, b2) :- ReadU32(b1);
    Ok(RelayData(peer, seqno), b2)
  }

  function WriteBlockId(d: BlockId, rest: seq<u8>): (b: seq<u8>)
  {
    d.consensusHash + (d.burnHeaderHash + rest)
  }

  function ReadBlockId(b: seq<u8>): (r: Parsed<BlockId>)
    ensures r.Ok? ==> b == WriteBlockId(r.value, r.rest)
  {
    var (consensusHash, b1) :- ReadBytes(20, b);
    var (burnHeaderHash, b2) :- ReadBytes(32, b1);
    Ok(BlockId(consensusHash, burnHeaderHash), b2)
  }

  function WriteByte(x: u8, rest: seq<u8>): (b: seq<u8>)
  {
    WriteUint(1, x, rest)
  }

  lemma ItemInverses()
    ensures Inverse(WriteNeighbor, ReadNeighbor) && Inverse(WriteRelay, ReadRelay)
    ensures Inverse(WriteBlockId, ReadBlockId) && Inverse(WriteByte, ReadU8)
  {
    forall a: NeighborAddress, rest ensures ReadNeighbor(WriteNeighbor(a, rest)) == Ok(a, rest) {
      NeighborRoundTrip(a, rest);
    }
    forall d: RelayData, rest ensures ReadRelay(WriteRelay(d, rest)) == Ok(d, rest) {
      NeighborRoundTrip(d.peer, WriteUint(4, d.seqno, rest));
      U32RoundTrip(d.seqno, rest);
    }
    forall d: BlockId, rest ensures ReadBlockId(WriteBlockId(d, rest)) == Ok(d, rest) {
      BytesRoundTrip(d.consensusHash, d.burnHeaderHash + rest);
      BytesRoundTrip(d.burnHeaderHash, rest);
    }
    forall x: u8, rest ensures ReadU8(WriteByte(x, rest)) == Ok(x, rest) {
      U8RoundTrip(x, rest);
    }
  }

  // ---------------------------------------------------------------- handshake

  predicate WellFormedUrl(env: Env, url: seq<u8>)
  {
    |url| <= MAX_STRING_LEN && (url == [] || env.isBlockUrl(url))
  }

  function WriteUrl(url: seq<u8>, rest: seq<u8>): (b: seq<u8>)
  {
    WriteUint(1, |url| % 0x100, url + rest)
  }

  function ReadUrl(env: Env, b: seq<u8>): (r: Parsed<seq<u8>>)
    ensures r.Ok? ==> WellFormedUrl(env, r.value) && b == WriteUrl(r.value, r.rest)
  {
    var (len, b1) :- ReadU8(b);
    if len > MAX_STRING_LEN then Err(DeserializeError)
    else
      var (url, b2) :- ReadBytes(len, b1);
      if url != [] && !env.isBlockUrl(url) then Err(DeserializeError) else Ok(url, b2)
  }

  lemma UrlRoundTrip(env: Env, url: seq<u8>, rest: seq<u8>)
    requires WellFormedUrl(env, url)
    ensures ReadUrl(env, WriteUrl(url, rest)) == Ok(url, rest)
  {
    assert |url| % 0x100 == |url|;
    U8RoundTrip(|url|, url + rest);
    BytesRoundTrip(url, rest);
  }

  function WriteHandshake(h: HandshakeData, rest: seq<u8>): (b: seq<u8>)
  {
    h.addrbytes + WriteUint(2, h.port, WriteUint(2, h.services,
    h.nodePublicKey + WriteUint(8, h.expireBlockHeight, WriteUrl(h.dataUrl, rest))))
  }

  predicate WellFormedHandshake(env: Env, h: HandshakeData)
  {
    h.port != 0 && WellFormedUrl(env, h.dataUrl)
  }

  function ReadHandshake(env: Env, b: seq<u8>): (r: Parsed<HandshakeData>)
    ensures r.Ok? ==> WellFormedHandshake(env, r.value) && b == WriteHandshake(r.value, r.rest)
  {
    var (addrbytes, b1) :- ReadBytes(16, b);
    var (port, b2) :- ReadU16(b1);
    if port == 0 then Err(DeserializeError)
    else
      var (services, b3) :- ReadU16(b2);
      var (nodePublicKey, b4) :- ReadBytes(33, b3);
      var (expireBlockHeight, b5) :- ReadU64(b4);
      var (dataUrl, b6) :- ReadUrl(env, b5);
      Ok(HandshakeData(addrbytes, port, services, nodePublicKey, expireBlockHeight, dataUrl), b6)
  }

  lemma HandshakeRoundTrip(env: Env, h: HandshakeData, rest: seq<u8>)
    requires WellFormedHandshake(env, h)
    ensures ReadHandshake(env, WriteHandshake(h, rest)) == Ok(h, rest)
  {
    var b5 := WriteUrl(h.dataUrl, rest);
    var b4 := WriteUint(8, h.expireBlockHeight, b5);
    var b3 := h.nodePublicKey + b4;
    var b2 := WriteUint(2, h.services, b3);
    BytesRoundTrip(h.addrbytes, WriteUint(2, h.port, b2));
    U16RoundTrip(h.port, b2);
    U16RoundTrip(h.services, b3);
    BytesRoundTrip(h.nodePublicKey, b4);
    U64RoundTrip(h.expireBlockHeight, b5);
    UrlRoundTrip(env, h.dataUrl, rest);
  }

  // ---------------------------------------------------------------- inventories

  /** `BITVEC_LEN!` */
  function BitvecLen(bitlen: nat): (n: nat)
  {
    bitlen / 8 + if bitlen % 8 > 0 then 1 else 0
  }

  function WriteBitvec(v: seq<u8>, rest: seq<u8>): (b: seq<u8>)
  {
    WriteVec(WriteByte, v, rest)
  }

  function ReadBitvec(bitlen: nat, b: seq<u8>): (r: Parsed<seq<u8>>)
    requires bitlen < 0x1_0000
    ensures r.Ok? ==> |r.value| == BitvecLen(bitlen) && b == WriteBitvec(r.value, r.rest)
  {
    ItemInverses();
    VecCanonical(WriteByte, ReadU8, BitvecLen(bitlen), 0, 1, b);
    ReadVec(ReadU8, BitvecLen(bitlen), 0, 1, b)
  }

  lemma BitvecRoundTrip(v: seq<u8>, bitlen: nat, rest: seq<u8>)
    requires bitlen < 0x1_0000 && |v| == BitvecLen(bitlen)
    ensures ReadBitvec(bitlen, WriteBitvec(v, rest)) == Ok(v, rest)
  {
    ItemInverses();
    VecRoundTrip(WriteByte, ReadU8, BitvecLen(bitlen), 0, 1, v, rest);
  }

  // ---------------------------------------------------------------- payloads

  /** `get_message_id() as u8` */
  function MessageId(p: Payload): (id: u8)
  {
    match p
    case Handshake(_) => 0
    case HandshakeAccept(_, _) => 1
    case HandshakeReject => 2
    case GetNeighbors => 3
    case Neighbors(_) => 4
    case GetBlocksInv(_, _) => 5
    case BlocksInv(_, _, _) => 6
    case GetPoxInv(_, _) => 7
    case PoxInv(_, _) => 8
    case BlocksAvailable(_) => 9
    case MicroblocksAvailable(_) => 10
    case Bulk(id, _) => id
    case Nack(_) => 14
    case Ping(_) => 15
    case Pong(_) => 16
    case NatPunchRequest(_) => 17
    case NatPunchReply(_, _, _) => 18
  }

  function WriteContent(p: Payload, rest: seq<u8>): (b: seq<u8>)
  {
    match p
    case Handshake(h) => WriteHandshake(h, rest)
    case HandshakeAccept(h, heartbeat) => WriteHandshake(h, WriteUint(4, heartbeat, rest))
    case HandshakeReject => rest
    case GetNeighbors => rest
    case Neighbors(ns) => WriteVec(WriteNeighbor, ns, rest)
    case GetBlocksInv(ch, n) => ch + WriteUint(2, n, rest)
    case BlocksInv(bitlen, v, w) => WriteUint(2, bitlen, WriteBitvec(v, WriteBitvec(w, rest)))
    case GetPoxInv(ch, n) => ch + WriteUint(2, n, rest)
    case PoxInv(bitlen, v) => WriteUint(2, bitlen, WriteBitvec(v, rest))
    case BlocksAvailable(bs) => WriteVec(WriteBlockId, bs, rest)
    case MicroblocksAvailable(bs) => WriteVec(WriteBlockId, bs, rest)
    case Bulk(_, bytes) => bytes + rest
    case Nack(x) => WriteUint(4, x, rest)
    case Ping(x) => WriteUint(4, x, rest)
    case Pong(x) => WriteUint(4, x, rest)
    case NatPunchRequest(x) => WriteUint(4, x, rest)
    case NatPunchReply(a, port, x) => a + WriteUint(2, port, WriteUint(4, x, rest))
  }

  function WritePayload(p: Payload, rest: seq<u8>): (b: seq<u8>)
  {
    WriteUint(1, MessageId(p), WriteContent(p, rest))
  }

  /** What the deserializers demand of a payload. */
  ghost predicate WellFormedPayload(env: Env, p: Payload)
  {
    match p
    case Handshake(h) => WellFormedHandshake(env, h)
    case HandshakeAccept(h, _) => WellFormedHandshake(env, h)
    case Neighbors(ns) => |ns| <= MAX_NEIGHBORS_DATA_LEN
    case GetBlocksInv(_, n) => n != 0
    case BlocksInv(bitlen, v, w) => bitlen != 0 && |v| == |w| == BitvecLen(bitlen)
    case GetPoxInv(_, n) => 0 < n <= GETPOXINV_MAX_BITLEN
    case PoxInv(bitlen, v) => 0 < bitlen <= GETPOXINV_MAX_BITLEN && |v| == BitvecLen(bitlen)
    case BlocksAvailable(bs) => |bs| <= BLOCKS_AVAILABLE_MAX_LEN
    case MicroblocksAvailable(bs) => |bs| <= BLOCKS_AVAILABLE_MAX_LEN
    case Bulk(id, bytes) => 11 <= id <= 13 && SelfDelimiting(env, id, bytes)
    case _ => true
  }

  function ReadBlocksInv(b: seq<u8>): (r: Parsed<Payload>)
    ensures r.Ok? ==> r.value.BlocksInv? && r.value.bitlen != 0 && b == WriteContent(r.value, r.rest)
    ensures r.Ok? ==> |r.value.blockBitvec| == |r.value.microblocksBitvec| == BitvecLen(r.value.bitlen)
  {
    var (bitlen, b1) :- ReadU16(b);
    if bitlen == 0 then Err(DeserializeError)
    else
      var (v, b2) :- ReadBitvec(bitlen, b1);
      var (w, b3) :- ReadBitvec(bitlen, b2);
      Ok(BlocksInv(bitlen, v, w), b3)
  }

  function ReadPoxInv(b: seq<u8>): (r: Parsed<Payload>)
    ensures r.Ok? ==> r.value.PoxInv? && b == WriteContent(r.value, r.rest)
    ensures r.Ok? ==> 0 < r.value.bitlen <= GETPOXINV_MAX_BITLEN && |r.value.poxBitvec| == BitvecLen(r.value.bitlen)
  {
    var (bitlen, b1) :- ReadU16(b);
    if bitlen == 0 || bitlen > GETPOXINV_MAX_BITLEN then Err(DeserializeError)
    else
      var (v, b2) :- ReadBitvec(bitlen, b1);
      Ok(PoxInv(bitlen, v), b2)
  }

  /** Size in memory of a NeighborAddress, a block identifier and a RelayData. */
  const NEIGHBOR_SIZE: nat := 38
  const BLOCK_ID_SIZE: nat := 52
  const RELAY_SIZE: nat := 44

  function ReadNeighbors(b: seq<u8>): (r: Parsed<seq<NeighborAddress>>)
    ensures r.Ok? ==> |r.value| <= MAX_NEIGHBORS_DATA_LEN && b == WriteVec(WriteNeighbor, r.value, r.rest)
  {
    ItemInverses();
    VecCanonical(WriteNeighbor, ReadNeighbor, 0, MAX_NEIGHBORS_DATA_LEN, NEIGHBOR_SIZE, b);
    ReadVec(ReadNeighbor, 0, MAX_NEIGHBORS_DATA_LEN, NEIGHBOR_SIZE, b)
  }

  function ReadAvailable(b: seq<u8>): (r: Parsed<seq<BlockId>>)
    ensures r.Ok? ==> |r.value| <= BLOCKS_AVAILABLE_MAX_LEN && b == WriteVec(WriteBlockId, r.value, r.rest)
  {
    ItemInverses();
    VecCanonical(WriteBlockId, ReadBlockId, 0, BLOCKS_AVAILABLE_MAX_LEN, BLOCK_ID_SIZE, b);
    ReadVec(ReadBlockId, 0, BLOCKS_AVAILABLE_MAX_LEN, BLOCK_ID_SIZE, b)
  }

  lemma NeighborsRoundTrip(ns: seq<NeighborAddress>, rest: seq<u8>)
    requires |ns| <= MAX_NEIGHBORS_DATA_LEN
    ensures ReadNeighbors(WriteVec(WriteNeighbor, ns, rest)) == Ok(ns, rest)
  {
    ItemInverses();
    VecRoundTrip(WriteNeighbor, ReadNeighbor, 0, MAX_NEIGHBORS_DATA_LEN, NEIGHBOR_SIZE, ns, rest);
  }

  lemma AvailableRoundTrip(bs: seq<BlockId>, rest: seq<u8>)
    requires |bs| <= BLOCKS_AVAILABLE_MAX_LEN
    ensures ReadAvailable(WriteVec(WriteBlockId, bs, rest)) == Ok(bs, rest)
  {
    ItemInverses();
    VecRoundTrip(WriteBlockId, ReadBlockId, 0, BLOCKS_AVAILABLE_MAX_LEN, BLOCK_ID_SIZE, bs, rest);
  }

  lemma InvRoundTrip(bitlen: u16, v: seq<u8>, w: seq<u8>, rest: seq<u8>)
    requires bitlen != 0 && |v| == |w| == BitvecLen(bitlen)
    ensures ReadBlocksInv(WriteContent(BlocksInv(bitlen, v, w), rest)) == Ok(BlocksInv(bitlen, v, w), rest)
  {
    hide WriteUint, WriteVec, ReadVec;
    U16RoundTrip(bitlen, WriteBitvec(v, WriteBitvec(w, rest)));
    BitvecRoundTrip(v, bitlen, WriteBitvec(w, rest));
    BitvecRoundTrip(w, bitlen, rest);
  }

  function ReadBulk(env: Env, id: u8, b: seq<u8>): (r: Parsed<Payload>)
  {
    match env.bulk(id, b)
    case Some(n) => if n <= |b| then Ok(Bulk(id, b[..n]), b[n..]) else Err(ReadError)
    case None => Err(DeserializeError)
  }

  function ReadContent(env: Env, id: u8, b: seq<u8>): (r: Parsed<Payload>)
  {
    match id
    case 0 =>
      var (h, b1) :- ReadHandshake(env, b);
      Ok(Handshake(h), b1)
    case 1 =>
      var (h, b1) :- ReadHandshake(env, b);
      var (heartbeat, b2) :- ReadU32(b1);
      Ok(HandshakeAccept(h, heartbeat), b2)
    case 2 => Ok(HandshakeReject, b)
    case 3 => Ok(GetNeighbors, b)
    case 4 =>
      var (ns, b1) :- ReadNeighbors(b);
      Ok(Neighbors(ns), b1)
    case 5 =>
      var (ch, b1) :- ReadBytes(20, b);
      var (n, b2) :- ReadU16(b1);
      if n == 0 then Err(DeserializeError) else Ok(GetBlocksInv(ch, n), b2)
    case 6 => ReadBlocksInv(b)
    case 7 =>
      var (ch, b1) :- ReadBytes(20, b);
      var (n, b2) :- ReadU16(b1);
      if n == 0 || n > GETPOXINV_MAX_BITLEN then Err(DeserializeError) else Ok(GetPoxInv(ch, n), b2)
    case 8 => ReadPoxInv(b)
    case 9 =>
      var (bs, b1) :- ReadAvailable(b);
      Ok(BlocksAvailable(bs), b1)
    case 10 =>
      var (bs, b1) :- ReadAvailable(b);
      Ok(MicroblocksAvailable(bs), b1)
    case 14 =>
      var (x, b1) :- ReadU32(b);
      Ok(Nack(x), b1)
    case 15 =>
      var (x, b1) :- ReadU32(b);
      Ok(Ping(x), b1)
    case 16 =>
      var (x, b1) :- ReadU32(b);
      Ok(Pong(x), b1)
    case 17 =>
      var (x, b1) :- ReadU32(b);
      Ok(NatPunchRequest(x), b1)
    case 18 =>
      var (a, b1) :- ReadBytes(16, b);
      var (port, b2) :- ReadU16(b1);
      var (x, b3) :- ReadU32(b2);
      Ok(NatPunchReply(a, port, x), b3)
    case _ => if 11 <= id <= 13 then ReadBulk(env, id, b) else Err(DeserializeError)
  }

  function ReadPayload(env: Env, b: seq<u8>): (r: Parsed<Payload>)
  {
    var (id, b1) :- ReadU8(b);
    ReadContent(env, id, b1)
  }

  /** What was accepted as content of type `id` is the serialization of what came out. */
  ghost predicate IsCanonical(env: Env, id: u8, b: seq<u8>)
  {
    var r := ReadContent(env, id, b);
    r.Ok? ==> MessageId(r.value) == id && WellFormedPayload(env, r.value) && b == WriteContent(r.value, r.rest)
  }

  lemma ContentCanonical(env: Env, id: u8, b: seq<u8>)
    requires Streaming(env)
    ensures IsCanonical(env, id, b)
  {
    if id <= 3 {
      CanonicalTo3(env, id, b);
    } else if id <= 7 {
      CanonicalTo7(env, id, b);
    } else if id <= 10 {
      CanonicalTo10(env, id, b);
    } else if id <= 13 {
      assert ReadContent(env, id, b) == ReadBulk(env, id, b);
    } else {
      CanonicalFrom14(env, id, b);
    }
  }

  lemma CanonicalTo3(env: Env, id: u8, b: seq<u8>)
    requires id <= 3
    ensures IsCanonical(env, id, b)
  {
  }

  lemma CanonicalTo7(env: Env, id: u8, b: seq<u8>)
    requires 4 <= id <= 7
    ensures IsCanonical(env, id, b)
  {
  }

  lemma CanonicalTo10(env: Env, id: u8, b: seq<u8>)
    requires 8 <= id <= 10
    ensures IsCanonical(env, id, b)
  {
  }

  lemma CanonicalFrom14(env: Env, id: u8, b: seq<u8>)
    requires 14 <= id
    ensures IsCanonical(env, id, b)
  {
  }

  lemma ContentRoundTrip(env: Env, p: Payload, rest: seq<u8>)
    requires WellFormedPayload(env, p)
    ensures ReadContent(env, MessageId(p), WriteContent(p, rest)) == Ok(p, rest)
  {
    hide WriteUint, ReadUint, WriteVec, ReadVec;
    match p
    case Handshake(h) => HandshakeRoundTrip(env, h, rest);
    case HandshakeAccept(h, heartbeat) =>
      HandshakeRoundTrip(env, h, WriteUint(4, heartbeat, rest));
      U32RoundTrip(heartbeat, rest);
    case Neighbors(ns) => NeighborsRoundTrip(ns, rest);
    case BlocksInv(bitlen, v, w) => InvRoundTrip(bitlen, v, w, rest);
    case PoxInv(bitlen, v) =>
      U16RoundTrip(bitlen, WriteBitvec(v, rest));
      BitvecRoundTrip(v, bitlen, rest);
    case BlocksAvailable(bs) => AvailableRoundTrip(bs, rest);
    case MicroblocksAvailable(bs) => AvailableRoundTrip(bs, rest);
    case Bulk(id, bytes) => assert env.bulk(id, bytes + rest) == Some(|bytes|);
    case _ => FlatRoundTrip(env, p, rest);
  }

  /** The payloads made of fixed-size fields only. */
  lemma FlatRoundTrip(env: Env, p: Payload, rest: seq<u8>)
    requires WellFormedPayload(env, p)
    requires MessageId(p) in {2, 3, 5, 7, 14, 15, 16, 17, 18}
    ensures ReadContent(env, MessageId(p), WriteContent(p, rest)) == Ok(p, rest)
  {
    match p
    case HandshakeReject =>
    case GetNeighbors =>
    case GetBlocksInv(ch, n) =>
      BytesRoundTrip(ch, WriteUint(2, n, rest));
      U16RoundTrip(n, rest);
    case GetPoxInv(ch, n) =>
      BytesRoundTrip(ch, WriteUint(2, n, rest));
      U16RoundTrip(n, rest);
    case Nack(x) => U32RoundTrip(x, rest);
    case Ping(x) => U32RoundTrip(x, rest);
    case Pong(x) => U32RoundTrip(x, rest);
    case NatPunchRequest(x) => U32RoundTrip(x, rest);
    case NatPunchReply(a, port, x) =>
      BytesRoundTrip(a, WriteUint(2, port, WriteUint(4, x, rest)));
      U16RoundTrip(port, WriteUint(4, x, rest));
      U32RoundTrip(x, rest);
  }

  // ---------------------------------------------------------------- writing before a suffix

  lemma NeighborAppends(a: NeighborAddress, r: seq<u8>, rest: seq<u8>)
    ensures WriteNeighbor(a, r + rest) == WriteNeighbor(a, r) + rest
  {
    BytesAppends(a.publicKeyHash, r, rest);
    UintAppends(2, a.port, a.publicKeyHash + r, rest);
    BytesAppends(a.addrbytes, WriteUint(2, a.port, a.publicKeyHash + r), rest);
  }

  lemma ItemsAppends()
    ensures Appends(WriteNeighbor) && Appends(WriteRelay) && Appends(WriteBlockId) && Appends(WriteByte)
  {
    forall a: NeighborAddress, rest ensures WriteNeighbor(a, rest) == WriteNeighbor(a, []) + rest {
      NeighborAppends(a, [], rest);
      assert [] + rest == rest;
    }
    forall d: RelayData, rest ensures WriteRelay(d, rest) == WriteRelay(d, []) + rest {
      UintAppends(4, d.seqno, [], rest);
      assert [] + rest == rest;
      NeighborAppends(d.peer, WriteUint(4, d.seqno, []), rest);
    }
    forall d: BlockId, rest ensures WriteBlockId(d, rest) == WriteBlockId(d, []) + rest {
      BytesAppends(d.consensusHash, d.burnHeaderHash, rest);
      assert d.burnHeaderHash + [] == d.burnHeaderHash;
    }
    forall x: u8, rest ensures WriteByte(x, rest) == WriteByte(x, []) + rest {
      UintAppends(1, x, [], rest);
      assert [] + rest == rest;
    }
  }

  lemma HandshakeAppends(h: HandshakeData, r: seq<u8>, rest: seq<u8>)
    ensures WriteHandshake(h, r + rest) == WriteHandshake(h, r) + rest
  {
    var b5 := WriteUrl(h.dataUrl, r);
    BytesAppends(h.dataUrl, r, rest);
    UintAppends(1, |h.dataUrl| % 0x100, h.dataUrl + r, rest);
    var b4 := WriteUint(8, h.expireBlockHeight, b5);
    UintAppends(8, h.expireBlockHeight, b5, rest);
    BytesAppends(h.nodePublicKey, b4, rest);
    var b2 := WriteUint(2, h.services, h.nodePublicKey + b4);
    UintAppends(2, h.services, h.nodePublicKey + b4, rest);
    UintAppends(2, h.port, b2, rest);
    BytesAppends(h.addrbytes, WriteUint(2, h.port, b2), rest);
  }

  lemma ContentAppends(p: Payload, rest: seq<u8>)
    ensures WriteContent(p, rest) == WriteContent(p, []) + rest
  {
    hide WriteUint, WriteVec, WriteItems;
    ItemsAppends();
    assert [] + rest == rest;
    match p
    case Handshake(h) => HandshakeAppends(h, [], rest);
    case HandshakeAccept(h, x) =>
      UintAppends(4, x, [], rest);
      HandshakeAppends(h, WriteUint(4, x, []), rest);
    case HandshakeReject =>
    case GetNeighbors =>
    case Neighbors(ns) => VecAppends(WriteNeighbor, ns, rest);
    case GetBlocksInv(ch, n) =>
      UintAppends(2, n, [], rest);
      BytesAppends(ch, WriteUint(2, n, []), rest);
    case BlocksInv(bitlen, v, w) =>
      VecAppends(WriteByte, w, rest);
      VecAppends(WriteByte, v, WriteBitvec(w, rest));
      VecAppends(WriteByte, v, WriteBitvec(w, []));
      assert WriteBitvec(v, WriteBitvec(w, rest)) == WriteBitvec(v, WriteBitvec(w, [])) + rest;
      UintAppends(2, bitlen, WriteBitvec(v, WriteBitvec(w, [])), rest);
    case GetPoxInv(ch, n) =>
      UintAppends(2, n, [], rest);
      BytesAppends(ch, WriteUint(2, n, []), rest);
    case PoxInv(bitlen, v) =>
      VecAppends(WriteByte, v, rest);
      UintAppends(2, bitlen, WriteBitvec(v, []), rest);
    case BlocksAvailable(bs) => VecAppends(WriteBlockId, bs, rest);
    case MicroblocksAvailable(bs) => VecAppends(WriteBlockId, bs, rest);
    case Bulk(_, bytes) => BytesAppends(bytes, [], rest);
    case Nack(x) => UintAppends(4, x, [], rest);
    case Ping(x) => UintAppends(4, x, [], rest);
    case Pong(x) => UintAppends(4, x, [], rest);
    case NatPunchRequest(x) => UintAppends(4, x, [], rest);
    case NatPunchReply(a, port, x) =>
      UintAppends(4, x, [], rest);
      UintAppends(2, port, WriteUint(4, x, []), rest);
      BytesAppends(a, WriteUint(2, port, WriteUint(4, x, [])), rest);
  }

  // ---------------------------------------------------------------- whole messages

  function WriteBody(relayers: seq<RelayData>, payload: Payload, rest: seq<u8>): (b: seq<u8>)
  {
    WriteVec(WriteRelay, relayers, WritePayload(payload, rest))
  }

  /** `deserialize_body` */
  function ReadBody(env: Env, b: seq<u8>): (r: Parsed<(seq<RelayData>, Payload)>)
  {
    var (relayers, b1) :- ReadVec(ReadRelay, 0, MAX_RELAYERS_LEN, RELAY_SIZE, b);
    var (payload, b2) :- ReadPayload(env, b1);
    Ok((relayers, payload), b2)
  }

  ghost predicate WellFormedBody(env: Env, relayers: seq<RelayData>, payload: Payload)
  {
    |relayers| <= MAX_RELAYERS_LEN && WellFormedPayload(env, payload)
  }

  lemma BodyRoundTrip(env: Env, relayers: seq<RelayData>, payload: Payload, rest: seq<u8>)
    requires WellFormedBody(env, relayers, payload)
    ensures ReadBody(env, WriteBody(relayers, payload, rest)) == Ok((relayers, payload), rest)
  {
    ItemInverses();
    VecRoundTrip(WriteRelay, ReadRelay, 0, MAX_RELAYERS_LEN, RELAY_SIZE, relayers, WritePayload(payload, rest));
    U8RoundTrip(MessageId(payload), WriteContent(payload, rest));
    ContentRoundTrip(env, payload, rest);
  }

  lemma BodyCanonical(env: Env, b: seq<u8>)
    requires Streaming(env)
    ensures var r := ReadBody(env, b);
            r.Ok? ==> WellFormedBody(env, r.value.0, r.value.1) && b == WriteBody(r.value.0, r.value.1, r.rest)
  {
    ItemInverses();
    VecCanonical(WriteRelay, ReadRelay, 0, MAX_RELAYERS_LEN, RELAY_SIZE, b);
    var rv := ReadVec(ReadRelay, 0, MAX_RELAYERS_LEN, RELAY_SIZE, b);
    if rv.Ok? && ReadU8(rv.rest).Ok? {
      var id := ReadU8(rv.rest);
      ContentCanonical(env, id.value, id.rest);
    }
  }

  /** A body ends where its suffix starts, and is at least a length and a message type long. */
  lemma BodyAppends(relayers: seq<RelayData>, payload: Payload, rest: seq<u8>)
    ensures WriteBody(relayers, payload, rest) == WriteBody(relayers, payload, []) + rest
    ensures |WriteBody(relayers, payload, [])| >= 5
  {
    ItemsAppends();
    ContentAppends(payload, rest);
    UintAppends(1, MessageId(payload), WriteContent(payload, []), rest);
    VecAppends(WriteRelay, relayers, WritePayload(payload, rest));
    VecAppends(WriteRelay, relayers, WritePayload(payload, []));
    BytesAppends(WriteVec(WriteRelay, relayers, []), WritePayload(payload, []), rest);
  }

  /** Every accepted body takes a vector length and a message type, five bytes, off its input. */
  lemma BodyTakesFive(env: Env, b: seq<u8>)
    ensures ReadBody(env, b).Ok? ==> |ReadBody(env, b).rest| + 5 <= |b|
  {
    hide ReadContent, ReadVec, WriteItems;
    ItemInverses();
    ItemsAppends();
    VecCanonical(WriteRelay, ReadRelay, 0, MAX_RELAYERS_LEN, RELAY_SIZE, b);
    var rv := ReadVec(ReadRelay, 0, MAX_RELAYERS_LEN, RELAY_SIZE, b);
    if rv.Ok? {
      VecAppends(WriteRelay, rv.value, rv.rest);
      if ReadU8(rv.rest).Ok? {
        ContentShrinks(env, ReadU8(rv.rest).value, ReadU8(rv.rest).rest);
      }
    }
  }

  lemma ContentShrinks(env: Env, id: u8, b: seq<u8>)
    ensures ReadContent(env, id, b).Ok? ==> |ReadContent(env, id, b).rest| <= |b|
  {
    if 11 <= id <= 13 {
      assert ReadContent(env, id, b) == ReadBulk(env, id, b);
    } else {
      if id <= 3 {
        CanonicalTo3(env, id, b);
      } else if id <= 7 {
        CanonicalTo7(env, id, b);
      } else if id <= 10 {
        CanonicalTo10(env, id, b);
      } else {
        CanonicalFrom14(env, id, b);
      }
      var r := ReadContent(env, id, b);
      if r.Ok? {
        ContentAppends(r.value, r.rest);
      }
    }
  }

  function WriteMessage(m: StacksMessage, rest: seq<u8>): (b: seq<u8>)
  {
    WritePreamble(m.preamble, WriteBody(m.relayers, m.payload, rest))
  }

  /** `StacksMessage::consensus_deserialize` */
  function ReadMessage(env: Env, b: seq<u8>): (r: Parsed<StacksMessage>)
  {
    var (preamble, b1) :- ReadPreamble(b);
    if preamble.payloadLen > MAX_MESSAGE_LEN - PREAMBLE_ENCODED_SIZE then Err(DeserializeError)
    else
      var (body, b2) :- ReadBody(env, b1);
      Ok(StacksMessage(preamble, body.0, body.1), b2)
  }

  ghost predicate WellFormedMessage(env: Env, m: StacksMessage)
  {
    && WellFormedPreamble(m.preamble) && m.preamble.payloadLen <= MAX_MESSAGE_LEN - PREAMBLE_ENCODED_SIZE
    && WellFormedBody(env, m.relayers, m.payload)
  }

  lemma MessageAppends(m: StacksMessage, rest: seq<u8>)
    ensures WriteMessage(m, rest) == WriteMessage(m, []) + rest
  {
    var body := WriteBody(m.relayers, m.payload, []);
    BodyAppends(m.relayers, m.payload, rest);
    PreambleSize(m.preamble, body + rest);
    PreambleSize(m.preamble, body);
    BytesAppends(WritePreamble(m.preamble, []), body, rest);
  }

  lemma MessageRoundTrip(env: Env, m: StacksMessage, rest: seq<u8>)
    requires WellFormedMessage(env, m)
    ensures ReadMessage(env, WriteMessage(m, rest)) == Ok(m, rest)
  {
    PreambleRoundTrip(m.preamble, WriteBody(m.relayers, m.payload, rest));
    BodyRoundTrip(env, m.relayers, m.payload, rest);
  }

  lemma MessageCanonical(env: Env, b: seq<u8>)
    requires Streaming(env)
    ensures var r := ReadMessage(env, b);
            r.Ok? ==> WellFormedMessage(env, r.value) && b == WriteMessage(r.value, r.rest)
  {
    if ReadPreamble(b).Ok? {
      BodyCanonical(env, ReadPreamble(b).rest);
    }
  }

  /**
    The deserializer accepts exactly the serializations of well-formed messages,
    with whatever follows them left over.
   */
  lemma MessageIff(env: Env, b: seq<u8>, m: StacksMessage, rest: seq<u8>)
    requires Streaming(env)
    ensures ReadMessage(env, b) == Ok(m, rest) <==> WellFormedMessage(env, m) && b == WriteMessage(m, []) + rest
  {
    MessageAppends(m, rest);
    MessageCanonical(env, b);
    if WellFormedMessage(env, m) {
      MessageRoundTrip(env, m, rest);
    }
  }
}
