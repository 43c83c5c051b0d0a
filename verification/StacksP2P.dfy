/**
  The StacksP2P protocol family, message signing and the frames they put on the
  wire (src/net/codec.rs).
 */
module StacksP2P {

  import opened Numerals
  import opened Results
  import opened Wire
  import opened Messages
  import opened Framing
  import opened Layout

  // ---------------------------------------------------------------- the protocol family

  function BlankSignature(): (s: Bytes65)
  {
    Zeros(65)
  }

  /** The bytes that a signature covers: the preamble with a blank signature, and the body. */
  function SignedBytes(p: Preamble, body: seq<u8>): (b: seq<u8>)
  {
    WritePreamble(p.(signature := BlankSignature()), []) + body
  }

  function VerifyBody(env: Env, key: Bytes33, p: Preamble, body: seq<u8>): (ok: bool)
  {
    env.verify(key, SignedBytes(p, body), p.signature)
  }

  /** `read_payload`, given exactly the bytes that the preamble announces. */
  function ReadFrameBody(env: Env, p: Preamble, bytes: seq<u8>): (r: Taken<StacksMessage>)
    ensures r.Taken? ==> 5 <= r.length <= |bytes|
  {
    match ReadBody(env, bytes)
    case Err(e) => NotTaken(e)
    case Ok((relayers, payload), rest) =>
      BodyTakesFive(env, bytes);
      Taken(StacksMessage(p, relayers, payload), |bytes| - |rest|)
  }

  /** StacksP2P: it reads a preamble of fixed size, then the payload that it announces. */
  function P2P(env: Env): (f: Family<Preamble, StacksMessage, Bytes33>)
  {
    Sliced(PREAMBLE_ENCODED_SIZE, ReadPreamble, PayloadLen, Verifier(env), BodyReader(env))
  }

  function PayloadLen(p: Preamble): (n: nat)
  {
    p.payloadLen
  }

  function Verifier(env: Env): (f: (Bytes33, Preamble, seq<u8>) -> bool)
  {
    (key: Bytes33, p: Preamble, body: seq<u8>) => VerifyBody(env, key, p, body)
  }

  function BodyReader(env: Env): (f: (Preamble, seq<u8>) -> Taken<StacksMessage>)
  {
    (p: Preamble, bytes: seq<u8>) => ReadFrameBody(env, p, bytes)
  }

  /** StacksP2P is a family that the inbox can parse incrementally. */
  lemma P2PLawful(env: Env)
    ensures Lawful(P2P(env))
  {
    BodyReaderLaw(env);
    SlicedLawful(PREAMBLE_ENCODED_SIZE, ReadPreamble, PayloadLen, Verifier(env), BodyReader(env));
  }

  lemma P2PFixed(env: Env)
    ensures FixedHead(P2P(env))
  {
    SlicedFixed(PREAMBLE_ENCODED_SIZE, ReadPreamble, PayloadLen, Verifier(env), BodyReader(env));
  }

  lemma BodyReaderLaw(env: Env)
    ensures forall p: Preamble, b :: BodyReader(env)(p, b).Taken? ==> 0 < BodyReader(env)(p, b).length <= |b|
  {
    forall p: Preamble, b | BodyReader(env)(p, b).Taken?
      ensures 0 < BodyReader(env)(p, b).length <= |b|
    {
      assert BodyReader(env)(p, b) == ReadFrameBody(env, p, b);
    }
  }

  // ---------------------------------------------------------------- frames

  function Body(m: StacksMessage): (b: seq<u8>)
  {
    WriteBody(m.relayers, m.payload, [])
  }

  /** A message whose preamble describes its body and which `key`, when known, signed. */
  ghost predicate Framed(env: Env, key: Option<Bytes33>, m: StacksMessage)
  {
    && WellFormedPreamble(m.preamble) && WellFormedBody(env, m.relayers, m.payload)
    && m.preamble.payloadLen == |Body(m)|
    && (key.Some? ==> VerifyBody(env, key.value, m.preamble, Body(m)))
  }

  function FrameBytes(m: StacksMessage): (b: seq<u8>)
  {
    WriteMessage(m, [])
  }

  lemma FrameParts(env: Env, m: StacksMessage)
    requires Framed(env, None, m)
    ensures FrameBytes(m) == WritePreamble(m.preamble, []) + Body(m)
    ensures |WritePreamble(m.preamble, [])| == PREAMBLE_ENCODED_SIZE
    ensures ReadPreamble(WritePreamble(m.preamble, [])) == Ok(m.preamble, [])
    ensures BodyReader(env)(m.preamble, Body(m)) == Taken(m, |Body(m)|)
  {
    PreambleSize(m.preamble, Body(m));
    PreambleRoundTrip(m.preamble, []);
    BodyRoundTrip(env, m.relayers, m.payload, []);
  }

  /** A frame on the wire is read back whole, whatever follows it. */
  lemma FrameRead(env: Env, key: Option<Bytes33>, m: StacksMessage)
    requires Framed(env, key, m)
    ensures IsFrame(P2P(env), key, FrameBytes(m), m)
  {
    FrameParts(env, m);
    SlicedFrame(PREAMBLE_ENCODED_SIZE, ReadPreamble, PayloadLen, Verifier(env), BodyReader(env),
                key, WritePreamble(m.preamble, []), Body(m), m.preamble, [], m);
  }

  /** A frame that has not arrived in full is never mistaken for a message or an error. */
  lemma FramePrefix(env: Env, key: Option<Bytes33>, m: StacksMessage, k: nat)
    requires Framed(env, key, m) && k < |FrameBytes(m)|
    ensures FirstFrame(P2P(env), key, FrameBytes(m)[..k]) == Incomplete
  {
    FrameParts(env, m);
    SlicedPrefix(PREAMBLE_ENCODED_SIZE, ReadPreamble, PayloadLen, Verifier(env), BodyReader(env),
                 key, WritePreamble(m.preamble, []), Body(m), m.preamble, [], k);
  }

  function Frames(ms: seq<StacksMessage>): (frames: seq<seq<u8>>)
    ensures |frames| == |ms|
  {
    Map(FrameBytes, ms)
  }

  /** A stream of frames means its messages, in order, and then whatever follows. */
  lemma StreamMeaning(env: Env, key: Option<Bytes33>, ms: seq<StacksMessage>, tail: seq<u8>)
    requires forall i :: 0 <= i < |ms| ==> Framed(env, key, ms[i])
    ensures ParseStream(P2P(env), key, Concat(Frames(ms)) + tail) == Prepend(ms, ParseStream(P2P(env), key, tail))
  {
    forall i | 0 <= i < |ms|
      ensures IsFrame(P2P(env), key, Frames(ms)[i], ms[i])
    {
      FrameRead(env, key, ms[i]);
    }
    FramesMeaning(P2P(env), key, Frames(ms), ms, tail);
  }

  // ---------------------------------------------------------------- what is verified

  /** The bytes of a frame with the 65 bytes of its signature blanked out. */
  function Blanked(frame: seq<u8>): (b: seq<u8>)
    requires |frame| >= 165
  {
    frame[..96] + Zeros(65) + frame[161..]
  }

  /** A signature covers every byte of its frame but the signature itself. */
  lemma SignedBytesAre(p: Preamble, body: seq<u8>)
    ensures |WritePreamble(p, [])| == 165
    ensures SignedBytes(p, body) == Blanked(WritePreamble(p, []) + body)
    ensures (WritePreamble(p, []) + body)[96..161] == p.signature
  {
    hide WritePreamble;
    var q := p.(signature := BlankSignature());
    PreambleLayout(p, []);
    PreambleLayout(q, []);
    var x, y := WritePreamble(p, []), WritePreamble(q, []);
    SamePieces(x, y);
    assert y == y[..96] + y[96..161] + y[161..];
    assert (x + body)[..96] == x[..96] && (x + body)[161..] == x[161..] + body;
    assert (x + body)[96..161] == x[96..161];
  }

  lemma SamePieces(x: seq<u8>, y: seq<u8>)
    requires |x| == |y| == 165 && x[0..4] == y[0..4] && x[4..8] == y[4..8] && x[8..12] == y[8..12]
    requires x[12..20] == y[12..20] && x[20..52] == y[20..52] && x[52..60] == y[52..60] && x[60..92] == y[60..92]
    requires x[92..96] == y[92..96] && x[161..165] == y[161..165]
    ensures x[..96] == y[..96] && x[161..] == y[161..]
  {
    Pieces(x);
    Pieces(y);
  }

  lemma Pieces(x: seq<u8>)
    requires |x| == 165
    ensures x[..96] == x[0..4] + x[4..8] + x[8..12] + x[12..20] + x[20..52] + x[52..60] + x[60..92] + x[92..96]
    ensures x[161..] == x[161..165]
  {
    assert x[..8] == x[0..4] + x[4..8];
    assert x[..12] == x[..8] + x[8..12];
    assert x[..20] == x[..12] + x[12..20];
    assert x[..52] == x[..20] + x[20..52];
    assert x[..60] == x[..52] + x[52..60];
    assert x[..92] == x[..60] + x[60..92];
    assert x[..96] == x[..92] + x[92..96];
  }

  /** The limits on the preamble that the first 165 bytes spell out. */
  predicate Acceptable(p: Preamble)
  {
    5 <= p.payloadLen < 16778054 && p.burnStableBlockHeight < p.burnBlockHeight
  }

  /**
    The first frame of a stream, by its bytes: 165 bytes of preamble, which announce the
    rest; with a key, the signature is checked over all of them before the body is read.
   */
  function FrameOf(env: Env, key: Option<Bytes33>, s: seq<u8>): (r: Frame<StacksMessage>)
  {
    if |s| < 165 then Incomplete
    else
      var p := Spelled(s);
      var end := 165 + p.payloadLen;
      if !Acceptable(p) then Invalid(InvalidMessage)
      else if |s| < end then Incomplete
      else if key.Some? && !env.verify(key.value, Blanked(s[..end]), s[96..161]) then Invalid(VerifyingError)
      else
        match ReadBody(env, s[165..end])
        case Err(_) => Invalid(InvalidMessage)
        case Ok((relayers, payload), rest) =>
          BodyTakesFive(env, s[165..end]);
          Complete(StacksMessage(p, relayers, payload), end - |rest|)
  }

  /** The family finds the first frame that the bytes spell out. */
  lemma FirstFrameIs(env: Env, key: Option<Bytes33>, s: seq<u8>)
    ensures FirstFrame(P2P(env), key, s) == FrameOf(env, key, s)
  {
    hide ReadPreamble, ReadBody, Spelled, SignedBytes;
    if |s| >= 165 {
      PreambleReadIff(s[..165]);
      SpelledPrefix(s);
      var p := Spelled(s);
      var end := 165 + p.payloadLen;
      if Acceptable(p) && end <= |s| {
        assert s[165..][..p.payloadLen] == s[165..end];
        SignedPiece(s, end);
        BodyTakesFive(env, s[165..end]);
      }
    }
  }

  lemma SpelledPrefix(s: seq<u8>)
    requires |s| >= 165
    ensures Spelled(s[..165]) == Spelled(s)
  {
    var t := s[..165];
    assert t[0..4] == s[0..4] && t[4..8] == s[4..8] && t[8..12] == s[8..12] && t[12..20] == s[12..20];
    assert t[20..52] == s[20..52] && t[52..60] == s[52..60] && t[60..92] == s[60..92] && t[92..96] == s[92..96];
    assert t[96..161] == s[96..161] && t[161..165] == s[161..165];
  }

  lemma SignedPiece(s: seq<u8>, end: nat)
    requires 165 <= end <= |s|
    ensures SignedBytes(Spelled(s), s[165..end]) == Blanked(s[..end]) && Spelled(s).signature == s[96..161]
  {
    hide SignedBytes, Value, WritePreamble;
    var p, t := Spelled(s), s[..165];
    SpelledBack(t);
    SpelledPrefix(s);
    assert t[165..] == [];
    assert WritePreamble(p, []) == t;
    SignedBytesAre(p, s[165..end]);
    assert t + s[165..end] == s[..end];
  }

  /**
    A frame that has arrived in full and whose signature does not verify over the bytes as
    received yields no message: the stream fails with a verification error.
   */
  lemma ForgedIsRefused(env: Env, key: Bytes33, s: seq<u8>)
    requires |s| >= 165 && Acceptable(Spelled(s)) && 165 + Spelled(s).payloadLen <= |s|
    requires !env.verify(key, Blanked(s[..165 + Spelled(s).payloadLen]), s[96..161])
    ensures ParseStream(P2P(env), Some(key), s) == Failed([], VerifyingError)
  {
    hide P2P, Spelled, FirstFrame, ReadBody;
    FirstFrameIs(env, Some(key), s);
  }

  /** Genuine frames before a forged one are still received; nothing after it is. */
  lemma ForgedEndsStream(env: Env, key: Bytes33, ms: seq<StacksMessage>, s: seq<u8>)
    requires forall i :: 0 <= i < |ms| ==> Framed(env, Some(key), ms[i])
    requires |s| >= 165 && Acceptable(Spelled(s)) && 165 + Spelled(s).payloadLen <= |s|
    requires !env.verify(key, Blanked(s[..165 + Spelled(s).payloadLen]), s[96..161])
    ensures ParseStream(P2P(env), Some(key), Concat(Frames(ms)) + s) == Failed(ms, VerifyingError)
  {
    hide P2P, Spelled, Framed, ParseStream, Blanked, Acceptable, Concat, Frames;
    StreamMeaning(env, Some(key), ms, s);
    ForgedIsRefused(env, key, s);
    assert ms + [] == ms;
  }

  /**
    At `at` the stream spells out the preamble of `m`, and the key signed all bytes of the
    frame that it announces, with the signature blanked out.
   */
  ghost predicate SignedAt(env: Env, key: Bytes33, s: seq<u8>, at: nat, m: StacksMessage)
  {
    && at + 165 <= |s| && m.preamble == Spelled(s[at..])
    && var end := at + 165 + m.preamble.payloadLen;
       && end <= |s|
       && env.verify(key, s[at..at + 96] + Zeros(65) + s[at + 161..end], s[at + 96..at + 161])
  }

  lemma SignedLater(env: Env, key: Bytes33, s: seq<u8>, n: nat, at: nat, m: StacksMessage)
    requires n <= |s| && SignedAt(env, key, s[n..], at, m)
    ensures SignedAt(env, key, s, n + at, m)
  {
    hide Spelled;
    var t, end := s[n..], at + 165 + m.preamble.payloadLen;
    assert t[at..] == s[n + at..];
    assert t[at..at + 96] == s[n + at..n + at + 96] && t[at + 161..end] == s[n + at + 161..n + end];
    assert t[at + 96..at + 161] == s[n + at + 96..n + at + 161];
  }

  lemma FirstIsSigned(env: Env, key: Bytes33, s: seq<u8>)
    requires FirstFrame(P2P(env), Some(key), s).Complete?
    ensures SignedAt(env, key, s, 0, FirstFrame(P2P(env), Some(key), s).message)
  {
    hide P2P, FirstFrame, Spelled, ReadBody;
    FirstFrameIs(env, Some(key), s);
    assert s[0..] == s;
    BlankedFrom(s, 0, 165 + Spelled(s).payloadLen);
  }

  /**
    Every message that is parsed with a known key comes from a piece of the stream whose
    bytes, signature blanked, the key signed; its preamble is the one spelled out there.
   */
  lemma {:induction false} OnlySigned(env: Env, key: Bytes33, s: seq<u8>, i: nat) returns (at: nat)
    requires i < |ParseStream(P2P(env), Some(key), s).messages|
    ensures SignedAt(env, key, s, at, ParseStream(P2P(env), Some(key), s).messages[i])
    decreases |s|
  {
    hide P2P, FirstFrame, SignedAt;
    var first := FirstFrame(P2P(env), Some(key), s);
    if i == 0 {
      at := 0;
      FirstIsSigned(env, key, s);
    } else {
      at := OnlySigned(env, key, s[first.length..], i - 1);
      SignedLater(env, key, s, first.length, at, ParseStream(P2P(env), Some(key), s).messages[i]);
      at := first.length + at;
    }
  }

  lemma BlankedFrom(s: seq<u8>, at: nat, end: nat)
    requires at + 165 <= end <= |s|
    ensures Blanked(s[at..end]) == s[at..at + 96] + Zeros(65) + s[at + 161..end]
  {
    assert s[at..end][..96] == s[at..at + 96] && s[at..end][161..] == s[at + 161..end];
  }

  // ---------------------------------------------------------------- signing

  /** A key pair: what `sign` makes of any bytes, `key` verifies. */
  datatype Signer = Signer(key: Bytes33, sign: seq<u8> -> Bytes65)

  ghost predicate Honest(env: Env, signer: Signer)
  {
    forall bytes :: env.verify(signer.key, bytes, signer.sign(bytes))
  }

  /** `do_sign`: fill in the payload length, cast to 32 bits, and sign preamble and body. */
  function DoSign(m: StacksMessage, signer: Signer): (r: StacksMessage)
  {
    var p := m.preamble.(payloadLen := |Body(m)| % 0x1_0000_0000);
    m.(preamble := p.(signature := signer.sign(SignedBytes(p, Body(m)))))
  }

  /** A frame of this body with its length, whose signature covers all of its other bytes. */
  ghost predicate SignedFrame(signer: Signer, b: seq<u8>, body: seq<u8>)
  {
    && |b| == 165 + |body| && b[165..] == body && b[161..165] == BigEndian(|body|, 4)
    && b[96..161] == signer.sign(b[..96] + Zeros(65) + b[161..])
  }

  /** The signature of a signed frame covers all of its other bytes, among them the length of its body. */
  lemma SignatureCovers(m: StacksMessage, signer: Signer)
    requires |Body(m)| < 0x1_0000_0000
    ensures SignedFrame(signer, FrameBytes(DoSign(m, signer)), Body(m))
  {
    hide WriteBody, WritePreamble, SignedBytes;
    var r := DoSign(m, signer);
    var p := m.preamble.(payloadLen := |Body(m)|);
    var h := WritePreamble(r.preamble, []);
    PreambleSize(r.preamble, Body(m));
    PreambleLayout(r.preamble, Body(m));
    SignedBytesAre(r.preamble, Body(m));
    SameSigned(p, r.preamble, Body(m));
  }

  lemma SameSigned(p: Preamble, q: Preamble, body: seq<u8>)
    requires q == p.(signature := q.signature)
    ensures SignedBytes(q, body) == SignedBytes(p, body)
  {
    assert q.(signature := BlankSignature()) == p.(signature := BlankSignature());
  }

  /**
    A signed message is a frame of its signer: its payload length is the length of
    its body, at least 5, and its signature verifies over the bytes as received.
   */
  lemma SignedIsFramed(env: Env, m: StacksMessage, signer: Signer)
    requires Honest(env, signer) && WellFormedBody(env, m.relayers, m.payload)
    requires |Body(m)| < MAX_MESSAGE_LEN && m.preamble.burnStableBlockHeight < m.preamble.burnBlockHeight
    ensures var r := DoSign(m, signer);
            && r.preamble.payloadLen == |Body(r)| >= 5 && Body(r) == Body(m)
            && Framed(env, Some(signer.key), r) && Framed(env, None, r)
  {
    hide WriteBody, WritePreamble;
    var r := DoSign(m, signer);
    BodyAppends(m.relayers, m.payload, []);
    var p := m.preamble.(payloadLen := |Body(m)|);
    assert r.preamble.(signature := BlankSignature()) == p.(signature := BlankSignature());
    assert SignedBytes(r.preamble, Body(r)) == SignedBytes(p, Body(m));
  }
}
