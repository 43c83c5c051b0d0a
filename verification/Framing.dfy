/**
  What a stream of bytes from a peer means, for a protocol family whose payload
  lengths are known from their preambles (the trait ProtocolFamily of
  src/net/mod.rs).  The parser of this module works on the whole stream at once;
  the incremental inbox is compared with it.
 */
module Framing {

  import opened Numerals
  import opened Results
  import opened Wire

  datatype Head<+P> = Head(preamble: P, length: nat) | NoHead(error: Error)
  datatype Taken<+M> = Taken(message: M, length: nat) | NotTaken(error: Error)

  /** A protocol family: preambles P, messages M, public keys K. */
  datatype Family<!P, !M, !K> = Family(
    preambleSizeHint: nat,
    readPreamble: seq<u8> -> Head<P>,
    payloadLen: P -> nat,
    verify: (K, P, seq<u8>) -> bool,
    readPayload: (P, seq<u8>) -> Taken<M>)

  /** A preamble is decided by the bytes that hold it, at most the size hint of them. */
  ghost predicate PreambleLaw<P(!new), M(!new), K(!new)>(f: Family<P, M, K>)
  {
    && f.readPreamble([]) == NoHead(UnderflowError)
    && (forall b :: f.readPreamble(b) == NoHead(UnderflowError) ==> |b| < f.preambleSizeHint)
    && (forall b :: f.readPreamble(b).Head? ==>
         f.readPreamble(b).length <= |b| && f.readPreamble(b).length < MAX_MESSAGE_LEN)
    && (forall b, t {:trigger f.readPreamble(b + t)} ::
          f.readPreamble(b) != NoHead(UnderflowError) ==> f.readPreamble(b + t) == f.readPreamble(b))
  }

  /** A payload is decided by its first `payloadLen` bytes, and a message is not empty. */
  ghost predicate PayloadLaw<P(!new), M(!new), K(!new)>(f: Family<P, M, K>)
  {
    && (forall p, b :: f.readPayload(p, b).Taken? ==> 0 < f.readPayload(p, b).length <= |b|)
    && (forall p, b, t {:trigger f.readPayload(p, b + t)} ::
          f.payloadLen(p) <= |b| ==> f.readPayload(p, b + t) == f.readPayload(p, b))
  }

  /** A signature covers the first `payloadLen` bytes. */
  ghost predicate VerifyLaw<P(!new), M(!new), K(!new)>(f: Family<P, M, K>)
  {
    forall k, p, b, t {:trigger f.verify(k, p, b + t)} ::
      f.payloadLen(p) <= |b| ==> f.verify(k, p, b + t) == f.verify(k, p, b)
  }

  /** What the inbox relies on. */
  ghost predicate Lawful<P(!new), M(!new), K(!new)>(f: Family<P, M, K>)
  {
    PreambleLaw(f) && PayloadLaw(f) && VerifyLaw(f)
  }

  datatype Frame<+M> = Incomplete | Invalid(error: Error) | Complete(message: M, length: nat)

  /**
    The first frame of a stream.  A length that runs past the bytes at hand, which
    the laws exclude, counts as invalid.
   */
  function FirstFrame<P, M, K>(f: Family<P, M, K>, key: Option<K>, s: seq<u8>): (r: Frame<M>)
    ensures r.Complete? ==> 0 < r.length <= |s|
  {
    match f.readPreamble(s)
    case NoHead(e) =>
      if e == UnderflowError then Incomplete
      else if e == DeserializeError then Invalid(InvalidMessage)
      else Invalid(e)
    case Head(p, n) => if n > |s| then Invalid(InvalidMessage) else FramePayload(f, key, p, n, s[n..])
  }

  function FramePayload<P, M, K>(f: Family<P, M, K>, key: Option<K>, p: P, n: nat, bytes: seq<u8>): (r: Frame<M>)
    ensures r.Complete? ==> n < r.length <= n + |bytes|
  {
    if f.payloadLen(p) >= MAX_MESSAGE_LEN then Invalid(DeserializeError)
    else if |bytes| < f.payloadLen(p) then Incomplete
    else if key.Some? && !f.verify(key.value, p, bytes) then Invalid(VerifyingError)
    else
      match f.readPayload(p, bytes)
      case NotTaken(_) => Invalid(InvalidMessage)
      case Taken(m, len) => if 0 < len <= |bytes| then Complete(m, n + len) else Invalid(InvalidMessage)
  }

  /** An error in a preamble is reported as it is, but for two: too little is no error, and garbage is a bad message. */
  lemma BadHead<P, M, K>(f: Family<P, M, K>, key: Option<K>, s: seq<u8>, e: Error)
    requires f.readPreamble(s) == NoHead(e)
    ensures e != UnderflowError && e != DeserializeError ==> FirstFrame(f, key, s) == Invalid(e)
    ensures e == DeserializeError ==> FirstFrame(f, key, s) == Invalid(InvalidMessage)
    ensures e == UnderflowError ==> FirstFrame(f, key, s) == Incomplete
  {
  }

  /** A payload longer than any message is refused as soon as its preamble is there. */
  lemma OverlongIsRefused<P, M, K>(f: Family<P, M, K>, key: Option<K>, s: seq<u8>, p: P, n: nat)
    requires f.readPreamble(s) == Head(p, n) && n <= |s| && f.payloadLen(p) >= 16778054
    ensures FirstFrame(f, key, s) == Invalid(DeserializeError)
  {
  }

  datatype Parse<+M> = Pending(messages: seq<M>, rest: seq<u8>) | Failed(messages: seq<M>, error: Error)

  function Prepend<M>(ms: seq<M>, p: Parse<M>): (q: Parse<M>)
  {
    match p
    case Pending(ns, rest) => Pending(ms + ns, rest)
    case Failed(ns, e) => Failed(ms + ns, e)
  }

  /** All messages of a stream, and the bytes of the frame that has not arrived in full. */
  function ParseStream<P, M, K>(f: Family<P, M, K>, key: Option<K>, s: seq<u8>): (r: Parse<M>)
    decreases |s|
  {
    match FirstFrame(f, key, s)
    case Incomplete => Pending([], s)
    case Invalid(e) => Failed([], e)
    case Complete(m, n) => Prepend([m], ParseStream(f, key, s[n..]))
  }

  // ---------------------------------------------------------------- chunking

  lemma PrependTwice<M>(ms: seq<M>, ns: seq<M>, p: Parse<M>)
    ensures Prepend(ms, Prepend(ns, p)) == Prepend(ms + ns, p)
  {
    assert ms + (ns + p.messages) == ms + ns + p.messages;
  }

  lemma PrependNone<M>(p: Parse<M>)
    ensures Prepend([], p) == p
  {
    assert [] + p.messages == p.messages;
  }

  /** Bytes that arrive later do not change a frame that is complete or invalid. */
  lemma FrameStable<P(!new), M(!new), K(!new)>(f: Family<P, M, K>, key: Option<K>, s: seq<u8>, t: seq<u8>)
    requires Lawful(f) && !FirstFrame(f, key, s).Incomplete?
    ensures FirstFrame(f, key, s + t) == FirstFrame(f, key, s)
  {
    assert f.readPreamble(s + t) == f.readPreamble(s);
    match f.readPreamble(s) {
      case NoHead(_) =>
      case Head(p, n) =>
        assert (s + t)[n..] == s[n..] + t;
    }
  }

  /**
    Parsing may stop at any point and resume with the bytes it left over: the
    meaning of a stream does not depend on how it is cut.
   */
  lemma {:induction false} ParseResumes<P(!new), M(!new), K(!new)>(
      f: Family<P, M, K>, key: Option<K>, s: seq<u8>, t: seq<u8>)
    requires Lawful(f)
    ensures var p := ParseStream(f, key, s);
            ParseStream(f, key, s + t) ==
              if p.Failed? then p else Prepend(p.messages, ParseStream(f, key, p.rest + t))
    decreases |s|
  {
    match FirstFrame(f, key, s) {
      case Incomplete => PrependNone(ParseStream(f, key, s + t));
      case Invalid(_) => FrameStable(f, key, s, t);
      case Complete(m, n) =>
        FrameStable(f, key, s, t);
        assert (s + t)[n..] == s[n..] + t;
        ParseResumes(f, key, s[n..], t);
        var p := ParseStream(f, key, s[n..]);
        if p.Pending? {
          PrependTwice([m], p.messages, ParseStream(f, key, p.rest + t));
        }
    }
  }

  /** A stream that means some messages followed by another stream does so whatever follows both. */
  lemma ResumesAlike<P(!new), M(!new), K(!new)>(
      f: Family<P, M, K>, key: Option<K>, s: seq<u8>, ms: seq<M>, s': seq<u8>, t: seq<u8>)
    requires Lawful(f) && ParseStream(f, key, s) == Prepend(ms, ParseStream(f, key, s'))
    ensures ParseStream(f, key, s + t) == Prepend(ms, ParseStream(f, key, s' + t))
  {
    hide ParseStream, Lawful;
    ParseResumes(f, key, s, t);
    ParseResumes(f, key, s', t);
    var p := ParseStream(f, key, s');
    if p.Pending? {
      PrependTwice(ms, p.messages, ParseStream(f, key, p.rest + t));
    }
  }

  /** What is left over holds no complete frame. */
  lemma {:induction false} RestIsPartial<P, M, K>(f: Family<P, M, K>, key: Option<K>, s: seq<u8>)
    ensures var p := ParseStream(f, key, s);
            p.Pending? ==> ParseStream(f, key, p.rest) == Pending([], p.rest)
    decreases |s|
  {
    var r := FirstFrame(f, key, s);
    if r.Complete? {
      RestIsPartial(f, key, s[r.length..]);
    }
  }

  function Concat(chunks: seq<seq<u8>>): (s: seq<u8>)
  {
    if chunks == [] then [] else chunks[0] + Concat(chunks[1..])
  }

  // ---------------------------------------------------------------- provenance

  /**
    `m` is the payload of a piece of the stream: a preamble at `at`, followed by as many
    bytes as it announces, which the key, if there is one, signed.
   */
  ghost predicate ReadAt<P, M, K>(f: Family<P, M, K>, key: Option<K>, s: seq<u8>, at: nat, m: M)
  {
    && at <= |s| && f.readPreamble(s[at..]).Head?
    && var (p, n) := (f.readPreamble(s[at..]).preamble, f.readPreamble(s[at..]).length);
       var end := at + n + f.payloadLen(p);
       && end <= |s| && f.readPayload(p, s[at + n..end]).Taken? && f.readPayload(p, s[at + n..end]).message == m
       && (key.Some? ==> f.verify(key.value, p, s[at + n..end]))
  }

  lemma FrameReadAt<P(!new), M(!new), K(!new)>(f: Family<P, M, K>, key: Option<K>, s: seq<u8>)
    requires Lawful(f) && FirstFrame(f, key, s).Complete?
    ensures ReadAt(f, key, s, 0, FirstFrame(f, key, s).message)
  {
    assert s[0..] == s;
    var p, n := f.readPreamble(s).preamble, f.readPreamble(s).length;
    var end := n + f.payloadLen(p);
    assert s[n..] == s[n..end] + s[end..];
  }

  lemma ReadAtLater<P, M, K>(f: Family<P, M, K>, key: Option<K>, s: seq<u8>, k: nat, at: nat, m: M)
    requires k <= |s| && ReadAt(f, key, s[k..], at, m)
    ensures ReadAt(f, key, s, k + at, m)
  {
    var t := s[k..];
    assert t[at..] == s[k + at..];
    var p, n := f.readPreamble(t[at..]).preamble, f.readPreamble(t[at..]).length;
    assert t[at + n..at + n + f.payloadLen(p)] == s[k + at + n..k + at + n + f.payloadLen(p)];
  }

  /** Every message of a stream was read from a piece of it, one after another, and verified if there is a key. */
  lemma {:induction false} Provenance<P(!new), M(!new), K(!new)>(f: Family<P, M, K>, key: Option<K>, s: seq<u8>)
    returns (at: seq<nat>)
    requires Lawful(f)
    ensures var ms := ParseStream(f, key, s).messages;
            |at| == |ms| && forall i :: 0 <= i < |ms| ==> ReadAt(f, key, s, at[i], ms[i])
    ensures forall i, j :: 0 <= i < j < |at| ==> at[i] < at[j]
    decreases |s|
  {
    hide ReadAt, Lawful, FirstFrame;
    var first := FirstFrame(f, key, s);
    if first.Complete? {
      var later := Provenance(f, key, s[first.length..]);
      at := OneMore(f, key, s, ParseStream(f, key, s[first.length..]).messages, later);
    } else {
      at := [];
    }
  }

  lemma OneMore<P(!new), M(!new), K(!new)>(
      f: Family<P, M, K>, key: Option<K>, s: seq<u8>, ms: seq<M>, later: seq<nat>) returns (at: seq<nat>)
    requires Lawful(f) && FirstFrame(f, key, s).Complete? && |later| == |ms|
    requires forall i :: 0 <= i < |ms| ==> ReadAt(f, key, s[FirstFrame(f, key, s).length..], later[i], ms[i])
    requires forall i, j :: 0 <= i < j < |later| ==> later[i] < later[j]
    ensures |at| == 1 + |ms| && forall i, j :: 0 <= i < j < |at| ==> at[i] < at[j]
    ensures forall i :: 0 <= i < |at| ==> ReadAt(f, key, s, at[i], ([FirstFrame(f, key, s).message] + ms)[i])
  {
    hide ReadAt, Lawful, FirstFrame;
    var n := FirstFrame(f, key, s).length;
    FrameReadAt(f, key, s);
    at := seq(1 + |ms|, i requires 0 <= i <= |ms| => if i == 0 then 0 else n + later[i - 1]);
    forall i | 0 < i < |at|
      ensures ReadAt(f, key, s, at[i], ms[i - 1])
    {
      ReadAtLater(f, key, s, n, later[i - 1], ms[i - 1]);
    }
  }

  // ---------------------------------------------------------------- streams of frames

  /** `frame` is read as `m`, whatever follows it. */
  ghost predicate IsFrame<P, M, K>(f: Family<P, M, K>, key: Option<K>, frame: seq<u8>, m: M)
  {
    forall rest :: FirstFrame(f, key, frame + rest) == Complete(m, |frame|)
  }

  /** Frames on the wire mean their messages, in order, and then whatever follows. */
  lemma {:induction false} FramesMeaning<P, M, K>(
      f: Family<P, M, K>, key: Option<K>, frames: seq<seq<u8>>, ms: seq<M>, tail: seq<u8>)
    requires |frames| == |ms|
    requires forall i :: 0 <= i < |ms| ==> IsFrame(f, key, frames[i], ms[i])
    ensures ParseStream(f, key, Concat(frames) + tail) == Prepend(ms, ParseStream(f, key, tail))
  {
    hide FirstFrame;
    if ms == [] {
      PrependNone(ParseStream(f, key, tail));
      assert Concat(frames) + tail == tail;
    } else {
      var rest := Concat(frames[1..]) + tail;
      assert Concat(frames) + tail == frames[0] + rest;
      assert IsFrame(f, key, frames[0], ms[0]);
      assert FirstFrame(f, key, frames[0] + rest) == Complete(ms[0], |frames[0]|);
      assert (frames[0] + rest)[|frames[0]|..] == rest;
      FramesMeaning(f, key, frames[1..], ms[1..], tail);
      PrependTwice([ms[0]], ms[1..], ParseStream(f, key, tail));
      assert [ms[0]] + ms[1..] == ms;
    }
  }

  lemma {:induction false} ConcatAppend(frames: seq<seq<u8>>, last: seq<u8>)
    ensures Concat(frames + [last]) == Concat(frames) + last
  {
    if frames == [] {
      assert [last][1..] == [];
    } else {
      assert (frames + [last])[1..] == frames[1..] + [last];
      ConcatAppend(frames[1..], last);
    }
  }

  /** Where a prefix of a stream of frames ends: after `j` frames, inside the next one. */
  lemma {:induction false} CutStream(frames: seq<seq<u8>>, w: seq<u8>) returns (j: nat)
    requires w <= Concat(frames)
    ensures j <= |frames| && Concat(frames[..j]) <= w
    ensures if j == |frames| then w == Concat(frames)
            else w[|Concat(frames[..j])|..] < frames[j]
  {
    if frames == [] {
      j := 0;
    } else if |w| < |frames[0]| {
      j := 0;
      assert Concat(frames[..0]) == [];
      assert w == Concat(frames)[..|w|] == frames[0][..|w|];
    } else {
      var k := |frames[0]|;
      assert w[..k] == Concat(frames)[..k] == frames[0];
      assert w[k..] == Concat(frames[1..])[..|w| - k];
      var i := CutStream(frames[1..], w[k..]);
      j := i + 1;
      assert frames[..j][1..] == frames[1..][..i];
      assert Concat(frames[..j]) == frames[0] + Concat(frames[1..][..i]);
      assert w == frames[0] + w[k..];
    }
  }

  lemma {:induction false} ConcatSplit(frames: seq<seq<u8>>, k: nat)
    requires k <= |frames|
    ensures Concat(frames) == Concat(frames[..k]) + Concat(frames[k..])
  {
    if k > 0 {
      ConcatSplit(frames[1..], k - 1);
      assert frames[..k][1..] == frames[1..][..k - 1] && frames[k..] == frames[1..][k - 1..];
    }
  }

  /** A proper prefix of `frame` is no frame and no error. */
  ghost predicate Unfinished<P, M, K>(f: Family<P, M, K>, key: Option<K>, frame: seq<u8>)
  {
    forall k :: 0 <= k < |frame| ==> FirstFrame(f, key, frame[..k]) == Incomplete
  }

  lemma IncompleteIsPending<P, M, K>(f: Family<P, M, K>, key: Option<K>, s: seq<u8>)
    requires FirstFrame(f, key, s) == Incomplete
    ensures ParseStream(f, key, s) == Pending([], s)
  {
  }

  lemma EmptyIsIncomplete<P(!new), M(!new), K(!new)>(f: Family<P, M, K>, key: Option<K>)
    requires Lawful(f)
    ensures FirstFrame(f, key, []) == Incomplete
  {
  }

  /** A prefix of a stream of frames means the messages whose frames it holds in full. */
  lemma FramesPrefix<P(!new), M(!new), K(!new)>(
      f: Family<P, M, K>, key: Option<K>, frames: seq<seq<u8>>, ms: seq<M>, w: seq<u8>) returns (j: nat)
    requires Lawful(f) && |frames| == |ms| && w <= Concat(frames)
    requires forall i :: 0 <= i < |ms| ==> IsFrame(f, key, frames[i], ms[i]) && Unfinished(f, key, frames[i])
    ensures j <= |ms| && Concat(frames[..j]) <= w
    ensures ParseStream(f, key, w) == Pending(ms[..j], w[|Concat(frames[..j])|..])
    ensures if j == |ms| then w == Concat(frames) else |w| < |Concat(frames[..j + 1])|
  {
    hide FirstFrame, ParseStream, Lawful, IsFrame, Concat;
    EmptyIsIncomplete(f, key);
    j := CutStream(frames, w);
    var tail := w[|Concat(frames[..j])|..];
    assert w == Concat(frames[..j]) + tail;
    FramesMeaning(f, key, frames[..j], ms[..j], tail);
    if j < |ms| {
      assert tail == frames[j][..|tail|];
      assert frames[..j + 1] == frames[..j] + [frames[j]];
      ConcatAppend(frames[..j], frames[j]);
    } else {
      assert frames[..j] == frames && tail == [];
    }
    IncompleteIsPending(f, key, tail);
    assert ms[..j] + [] == ms[..j];
  }

  // ---------------------------------------------------------------- streams of full frames

  /** Every preamble has the same length. */
  ghost predicate FixedHead<P(!new), M(!new), K(!new)>(f: Family<P, M, K>)
  {
    forall b :: f.readPreamble(b).Head? ==> f.readPreamble(b).length == f.preambleSizeHint
  }

  /** The messages of the stream fill their frames: none leaves payload bytes behind. */
  ghost predicate Tight<P, M, K>(f: Family<P, M, K>, key: Option<K>, s: seq<u8>)
    decreases |s|
  {
    var r := FirstFrame(f, key, s);
    r.Complete? ==>
      && f.readPreamble(s).Head? && r.length == f.preambleSizeHint + f.payloadLen(f.readPreamble(s).preamble)
      && Tight(f, key, s[r.length..])
  }

  /** A part of a tight stream is tight, and so is what it leaves over, followed by the other part. */
  lemma {:induction false} TightResumes<P(!new), M(!new), K(!new)>(
      f: Family<P, M, K>, key: Option<K>, s: seq<u8>, t: seq<u8>)
    requires Lawful(f) && Tight(f, key, s + t)
    ensures Tight(f, key, s)
    ensures var p := ParseStream(f, key, s); p.Pending? ==> Tight(f, key, p.rest + t)
    decreases |s|
  {
    var r := FirstFrame(f, key, s);
    if r.Complete? {
      FrameStable(f, key, s, t);
      assert f.readPreamble(s + t) == f.readPreamble(s);
      assert (s + t)[r.length..] == s[r.length..] + t;
      TightResumes(f, key, s[r.length..], t);
    }
  }

  /** Frames that their messages fill, and then a tight stream. */
  lemma {:induction false} TightFrames<P, M, K>(
      f: Family<P, M, K>, key: Option<K>, frames: seq<seq<u8>>, ms: seq<M>, tail: seq<u8>)
    requires |frames| == |ms| && Tight(f, key, tail)
    requires forall i :: 0 <= i < |ms| ==> IsFrame(f, key, frames[i], ms[i]) && IsFull(f, frames[i])
    ensures Tight(f, key, Concat(frames) + tail)
  {
    if ms == [] {
      assert Concat(frames) + tail == tail;
    } else {
      var rest := Concat(frames[1..]) + tail;
      assert Concat(frames) + tail == frames[0] + rest;
      assert IsFrame(f, key, frames[0], ms[0]) && IsFull(f, frames[0]);
      assert FirstFrame(f, key, frames[0] + rest) == Complete(ms[0], |frames[0]|);
      assert f.readPreamble(frames[0] + rest).Head?;
      assert (frames[0] + rest)[|frames[0]|..] == rest;
      TightFrames(f, key, frames[1..], ms[1..], tail);
    }
  }

  /** `frame` is a preamble of the usual length and the payload that it announces. */
  ghost predicate IsFull<P, M, K>(f: Family<P, M, K>, frame: seq<u8>)
  {
    forall rest :: f.readPreamble(frame + rest).Head?
      && |frame| == f.preambleSizeHint + f.payloadLen(f.readPreamble(frame + rest).preamble)
  }

  // ---------------------------------------------------------------- families that read slices

  /** The family of a fixed-size preamble and of codecs for exactly the bytes of each part. */
  function Sliced<P, M, K>(size: nat, head: seq<u8> -> Parsed<P>, len: P -> nat,
                           verify: (K, P, seq<u8>) -> bool, body: (P, seq<u8>) -> Taken<M>): (f: Family<P, M, K>)
  {
    Family(
      size,
      (b: seq<u8>) =>
        if |b| < size then NoHead(UnderflowError)
        else match head(b[..size]) case Err(e) => NoHead(e) case Ok(p, _) => Head(p, size),
      len,
      (k: K, p: P, b: seq<u8>) => len(p) <= |b| && verify(k, p, b[..len(p)]),
      (p: P, b: seq<u8>) => if |b| < len(p) then NotTaken(UnderflowError) else body(p, b[..len(p)]))
  }

  lemma SlicedLawful<P(!new), M(!new), K(!new)>(
      size: nat, head: seq<u8> -> Parsed<P>, len: P -> nat,
      verify: (K, P, seq<u8>) -> bool, body: (P, seq<u8>) -> Taken<M>)
    requires 0 < size < MAX_MESSAGE_LEN && forall b :: head(b) != Err(UnderflowError)
    requires forall p, b :: body(p, b).Taken? ==> 0 < body(p, b).length <= |b|
    ensures Lawful(Sliced(size, head, len, verify, body))
  {
    var f := Sliced(size, head, len, verify, body);
    forall b, t | f.readPreamble(b) != NoHead(UnderflowError)
      ensures f.readPreamble(b + t) == f.readPreamble(b)
    {
      assert (b + t)[..size] == b[..size];
    }
    forall p, b, t | len(p) <= |b|
      ensures f.readPayload(p, b + t) == f.readPayload(p, b)
    {
      assert (b + t)[..len(p)] == b[..len(p)];
    }
    forall k, p, b, t | len(p) <= |b|
      ensures f.verify(k, p, b + t) == f.verify(k, p, b)
    {
      assert (b + t)[..len(p)] == b[..len(p)];
    }
  }

  lemma SlicedFixed<P(!new), M(!new), K(!new)>(
      size: nat, head: seq<u8> -> Parsed<P>, len: P -> nat,
      verify: (K, P, seq<u8>) -> bool, body: (P, seq<u8>) -> Taken<M>)
    ensures FixedHead(Sliced(size, head, len, verify, body))
  {
  }

  /** A preamble and the payload it describes fill a frame. */
  lemma SlicedFull<P, M, K>(
      size: nat, head: seq<u8> -> Parsed<P>, len: P -> nat, verify: (K, P, seq<u8>) -> bool,
      body: (P, seq<u8>) -> Taken<M>, h: seq<u8>, b: seq<u8>, p: P, left: seq<u8>)
    requires |h| == size && head(h) == Ok(p, left) && len(p) == |b|
    ensures IsFull(Sliced(size, head, len, verify, body), h + b)
  {
    var f := Sliced(size, head, len, verify, body);
    forall rest
      ensures f.readPreamble(h + b + rest) == Head(p, size)
    {
      assert (h + b + rest)[..size] == h;
    }
  }

  /** A preamble and the payload it describes are a frame. */
  lemma SlicedFrame<P, M, K>(
      size: nat, head: seq<u8> -> Parsed<P>, len: P -> nat, verify: (K, P, seq<u8>) -> bool,
      body: (P, seq<u8>) -> Taken<M>, key: Option<K>, h: seq<u8>, b: seq<u8>, p: P, left: seq<u8>, m: M)
    requires |h| == size && head(h) == Ok(p, left) && len(p) == |b| < MAX_MESSAGE_LEN && 0 < |b|
    requires key.Some? ==> verify(key.value, p, b)
    requires body(p, b) == Taken(m, |b|)
    ensures IsFrame(Sliced(size, head, len, verify, body), key, h + b, m)
  {
    var f := Sliced(size, head, len, verify, body);
    forall rest
      ensures FirstFrame(f, key, h + b + rest) == Complete(m, |h + b|)
    {
      var s := h + b + rest;
      assert s[..size] == h && s[size..] == b + rest;
      assert (b + rest)[..|b|] == b;
    }
  }

  /** A frame that has not arrived in full is never mistaken for a message or an error. */
  lemma SlicedPrefix<P, M, K>(
      size: nat, head: seq<u8> -> Parsed<P>, len: P -> nat, verify: (K, P, seq<u8>) -> bool,
      body: (P, seq<u8>) -> Taken<M>, key: Option<K>, h: seq<u8>, b: seq<u8>, p: P, left: seq<u8>, k: nat)
    requires |h| == size && head(h) == Ok(p, left) && len(p) == |b| < MAX_MESSAGE_LEN && k < |h + b|
    ensures FirstFrame(Sliced(size, head, len, verify, body), key, (h + b)[..k]) == Incomplete
  {
    var s := (h + b)[..k];
    if size <= k {
      assert s[..size] == h;
    }
  }
}
