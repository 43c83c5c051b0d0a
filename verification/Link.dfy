/**
  Two ends of a connection put together: an outbox that writes signed messages to a
  socket, the socket that carries any prefix of what was written, cut anywhere, and
  the inbox at the other end.
 */
module Link {

  import opened Numerals
  import opened Results
  import opened Wire
  import opened Messages
  import opened Framing
  import opened Inbox
  import opened Outbox
  import opened StacksP2P

  /**
    The receiver of any prefix of a stream of frames gets exactly the messages whose
    frames arrived in full, and keeps the rest for later.
   */
  lemma PrefixMeaning(env: Env, key: Option<Bytes33>, ms: seq<StacksMessage>, w: seq<u8>) returns (j: nat)
    requires forall i :: 0 <= i < |ms| ==> Framed(env, key, ms[i])
    requires w <= Concat(Frames(ms))
    ensures j <= |ms| && Concat(Frames(ms[..j])) <= w
    ensures ParseStream(P2P(env), key, w) == Pending(ms[..j], w[|Concat(Frames(ms[..j]))|..])
    ensures if j == |ms| then w == Concat(Frames(ms)) else |w| < |Concat(Frames(ms[..j + 1]))|
  {
    hide FrameBytes, Framed, P2P, IsFrame, Unfinished, ParseStream, Lawful, Concat;
    forall i | 0 <= i < |ms|
      ensures IsFrame(P2P(env), key, Frames(ms)[i], ms[i]) && Unfinished(P2P(env), key, Frames(ms)[i])
    {
      FrameRead(env, key, ms[i]);
      FrameUnfinished(env, key, ms[i]);
    }
    P2PLawful(env);
    j := FramesPrefix(P2P(env), key, Frames(ms), ms, w);
    FramesTake(ms, j);
    if j < |ms| {
      FramesTake(ms, j + 1);
    }
  }

  lemma FrameUnfinished(env: Env, key: Option<Bytes33>, m: StacksMessage)
    requires Framed(env, key, m)
    ensures Unfinished(P2P(env), key, FrameBytes(m))
  {
    hide FrameBytes, Framed, P2P, FirstFrame;
    forall k | 0 <= k < |FrameBytes(m)|
      ensures FirstFrame(P2P(env), key, FrameBytes(m)[..k]) == Incomplete
    {
      FramePrefix(env, key, m, k);
    }
  }

  lemma FramesTake(ms: seq<StacksMessage>, j: nat)
    requires j <= |ms|
    ensures Frames(ms)[..j] == Frames(ms[..j])
  {
    hide FrameBytes;
  }

  lemma FrameFull(env: Env, m: StacksMessage)
    requires Framed(env, None, m)
    ensures IsFull(P2P(env), FrameBytes(m))
  {
    FrameParts(env, m);
    SlicedFull(PREAMBLE_ENCODED_SIZE, ReadPreamble, PayloadLen, Verifier(env), BodyReader(env),
               WritePreamble(m.preamble, []), Body(m), m.preamble, []);
  }

  /** A stream of signed messages is a stream of full frames. */
  lemma TightStream(env: Env, key: Option<Bytes33>, ms: seq<StacksMessage>)
    requires forall i :: 0 <= i < |ms| ==> Framed(env, key, ms[i])
    ensures FixedHead(P2P(env)) && Tight(P2P(env), key, Concat(Frames(ms)))
  {
    hide FrameBytes, P2P, IsFrame, IsFull, Concat, Lawful, FixedHead;
    forall i | 0 <= i < |ms|
      ensures IsFrame(P2P(env), key, Frames(ms)[i], ms[i]) && IsFull(P2P(env), Frames(ms)[i])
    {
      FrameRead(env, key, ms[i]);
      FrameFull(env, ms[i]);
    }
    P2PFixed(env);
    P2PLawful(env);
    EmptyIsIncomplete(P2P(env), key);
    TightFrames(P2P(env), key, Frames(ms), ms, []);
    assert Concat(Frames(ms)) + [] == Concat(Frames(ms));
  }

  /** So is what is left over of any part of it, followed by the next part. */
  lemma TightPart(env: Env, key: Option<Bytes33>, ms: seq<StacksMessage>, front: seq<u8>,
                  got: seq<StacksMessage>, rest: seq<u8>, more: seq<u8>)
    requires forall i :: 0 <= i < |ms| ==> Framed(env, key, ms[i])
    requires front + more <= Concat(Frames(ms)) && ParseStream(P2P(env), key, front) == Pending(got, rest)
    ensures FixedHead(P2P(env)) && Tight(P2P(env), key, rest + more)
  {
    hide FrameBytes, ParseStream, P2P, Framed, Tight, FixedHead, Lawful, Concat;
    TightStream(env, key, ms);
    P2PLawful(env);
    var w, all := front + more, Concat(Frames(ms));
    assert all == w + all[|w|..];
    TightResumes(P2P(env), key, w, all[|w|..]);
    TightResumes(P2P(env), key, front, more);
  }

  /** The bytes of a queue whose messages are the given frames. */
  lemma {:induction false} QueueOfFrames(qs: seq<Queued>, ms: seq<StacksMessage>)
    requires |qs| == |ms| && forall i :: 0 <= i < |qs| ==> qs[i].content == FrameBytes(ms[i])
    ensures Contents(qs) == Concat(Frames(ms))
  {
    hide FrameBytes;
    if qs != [] {
      var n := |qs| - 1;
      QueueOfFrames(qs[..n], ms[..n]);
      assert Frames(ms) == Frames(ms[..n]) + [FrameBytes(ms[n])];
      ConcatAppend(Frames(ms[..n]), FrameBytes(ms[n]));
    }
  }

  class Link {
    ghost const env: Env
    const sender: ConnectionOutbox
    const receiver: ConnectionInbox<Preamble, StacksMessage, Bytes33>

    ghost var carried: seq<u8>          // what the receiver has read from the socket
    ghost var arrived: seq<StacksMessage> // every message it has ever parsed

    ghost predicate Valid()
      reads this, sender, receiver
    {
      && sender.Valid() && receiver.Idle() && receiver.family == P2P(env)
      && carried <= sender.wire
      && ParseStream(P2P(env), receiver.publicKey, carried) == Pending(arrived, receiver.buf)
    }

    constructor (ghost env: Env, family: Family<Preamble, StacksMessage, Bytes33>, key: Option<Bytes33>,
                 inboxMaxlen: nat, outboxMaxlen: nat)
      requires family == P2P(env)
      ensures Valid() && this.env == env && receiver.publicKey == key && arrived == [] && sender.queued == []
    {
      P2PLawful(env);
      this.env := env;
      sender := new ConnectionOutbox(outboxMaxlen);
      receiver := new ConnectionInbox(family, inboxMaxlen, key);
      carried := [];
      arrived := [];
    }

    method Send() returns (r: Result<nat, Error>)
      requires sender.Valid()
      modifies sender
      ensures sender.Valid() && (old(Valid()) ==> Valid())
      ensures sender.queued == old(sender.queued) && old(sender.wire) <= sender.wire
      ensures sender.stalls == old(sender.stalls) ==> sender.wire == Contents(sender.queued)
    {
      hide ConnectionInbox.Idle, ConnectionOutbox.Valid, ParseStream;
      r := sender.SendBytes();
    }

    method Queue(content: seq<u8>, notify: Option<Notify>) returns (r: Result<(), Error>)
      requires sender.Valid()
      modifies sender`outbox, sender`queued
      ensures sender.Valid() && (old(Valid()) ==> Valid())
      ensures sender.queued == old(sender.queued) + if r.Success? then [Queued(content, notify)] else []
    {
      hide ConnectionInbox.Idle, ConnectionOutbox.Valid, ParseStream;
      r := sender.QueueMessage(content, notify);
    }

    /** The receiver takes the next message out of its inbox. */
    method Take() returns (m: Option<StacksMessage>)
      modifies receiver`inbox
      ensures old(Valid()) ==> Valid()
      ensures if old(receiver.inbox) == [] then m == None && receiver.inbox == []
              else m == Some(old(receiver.inbox)[0]) && receiver.inbox == old(receiver.inbox)[1..]
    {
      hide ConnectionInbox.Idle, ConnectionOutbox.Valid, ParseStream;
      m := receiver.NextMessage();
    }

    /**
      The receiver reads some of the bytes under way, in whatever chunks the socket yields.
      Both ends stay consistent unless the bytes do not parse or the inbox overflows.
     */
    method Receive(chunks: seq<seq<u8>>, end: ReadEnd) returns (r: Result<nat, Error>)
      requires Valid() && carried + Concat(chunks) <= sender.wire
      requires forall i :: 0 <= i < |chunks| ==> 0 < |chunks[i]| <= 4096
      modifies receiver, this`carried, this`arrived
      ensures receiver.publicKey == old(receiver.publicKey)
      ensures var p := old(receiver.Meaning(receiver.buf + Concat(chunks)));
              && receiver.Received(old(receiver.inbox), p, receiver.ReadResult(end, |Concat(chunks)|), r)
              && (p.Pending? && r != Failure(InboxOverflow) ==>
                    Valid() && carried == old(carried) + Concat(chunks) && arrived == old(arrived) + p.messages)
      ensures |old(receiver.inbox)| > receiver.inboxMaxlen ==>
                && r == Failure(InboxOverflow) && Valid() && carried == old(carried) && arrived == old(arrived)
                && receiver.inbox == old(receiver.inbox)
      ensures |old(receiver.inbox)| <= receiver.inboxMaxlen ==>
                receiver.LossExact(old(receiver.inbox), old(receiver.buf), chunks, r)
    {
      hide ConnectionOutbox.Valid, ParseStream, Concat, P2P, ConnectionInbox.Idle, ConnectionInbox.LossExact;
      ghost var p := receiver.Meaning(receiver.buf + Concat(chunks));
      r := receiver.RecvBytes(chunks, end);
      if r != Failure(InboxOverflow) {
        P2PLawful(env);
        ParseResumes(P2P(env), receiver.publicKey, carried, Concat(chunks));
        carried := carried + Concat(chunks);
        arrived := arrived + p.messages;
      }
    }

    /** The queue holds the frames of `ms`, which the receiver's key accepts. */
    ghost predicate Sends(ms: seq<StacksMessage>)
      reads this, sender, receiver
    {
      && |ms| == |sender.queued|
      && forall i :: 0 <= i < |ms| ==>
           sender.queued[i].content == FrameBytes(ms[i]) && Framed(env, receiver.publicKey, ms[i])
    }

    /** What an honest sender put on the socket always parses, however much of it is read. */
    lemma NeverFails(ms: seq<StacksMessage>, more: seq<u8>)
      requires Valid() && Sends(ms) && carried + more <= sender.wire
      ensures receiver.Meaning(receiver.buf + more).Pending?
    {
      hide FrameBytes, ParseStream, P2P, Framed, ConnectionInbox.Idle;
      sender.WireIsPrefix();
      QueueOfFrames(sender.queued, ms);
      var j := PrefixMeaning(env, receiver.publicKey, ms, carried + more);
      P2PLawful(env);
      ParseResumes(P2P(env), receiver.publicKey, carried, more);
    }

    /** What an honest sender put on the socket is full frames, from wherever the receiver left off. */
    lemma FramesAreTight(ms: seq<StacksMessage>, more: seq<u8>)
      requires Valid() && Sends(ms) && carried + more <= sender.wire
      ensures FixedHead(P2P(env)) && Tight(P2P(env), receiver.publicKey, receiver.buf + more)
    {
      hide FrameBytes, ParseStream, P2P, Framed, Tight, FixedHead, Concat, ConnectionInbox.Idle;
      sender.WireIsPrefix();
      QueueOfFrames(sender.queued, ms);
      TightPart(env, receiver.publicKey, ms, carried, arrived, receiver.buf, more);
    }

    /** Both ends are consistent, and the receiver has read and holds what is given. */
    ghost predicate Holds(ms: seq<StacksMessage>, read: seq<u8>, parsed: seq<StacksMessage>, inbox: seq<StacksMessage>)
      reads this, sender, receiver
    {
      Valid() && Sends(ms) && carried == read && arrived == parsed && receiver.inbox == inbox
    }

    /** The inbox is one too full, nothing is buffered, and bytes that were read are gone. */
    ghost predicate Spilled(was: seq<StacksMessage>, front: seq<u8>, chunks: seq<seq<u8>>, ms: seq<StacksMessage>)
      reads receiver
    {
      && |receiver.inbox| == receiver.inboxMaxlen + 1 && receiver.inbox <= was + ms
      && receiver.buf == [] && receiver.Idle()
      && exists read, lost :: receiver.SpilledAt(was, front, chunks, read, lost)
    }

    /** Bytes are lost exactly when the messages of the stream spill. */
    ghost predicate LostOrHolds(ms: seq<StacksMessage>, read: seq<u8>, parsed: seq<StacksMessage>,
                                inbox: seq<StacksMessage>, front: seq<u8>, chunks: seq<seq<u8>>,
                                good: Result<nat, Error>, r: Result<nat, Error>)
      reads this, sender, receiver
    {
      var p := receiver.Meaning(front + Concat(chunks));
      && p.Pending?
      && if receiver.Spills(|inbox|, p) then
           r == Failure(InboxOverflow) && Spilled(inbox, front, chunks, p.messages)
         else
           r == good && Holds(ms, read + Concat(chunks), parsed + p.messages, inbox + p.messages)
    }

    /**
      The receiver reads what an honest sender sent.  An inbox that is already too full
      reads nothing.  Otherwise bytes are lost exactly when the messages spill, and
      without a loss both ends stay consistent.
     */
    method ReceiveFrames(ghost ms: seq<StacksMessage>, chunks: seq<seq<u8>>, end: ReadEnd)
      returns (r: Result<nat, Error>)
      requires Valid() && Sends(ms) && carried + Concat(chunks) <= sender.wire
      requires forall i :: 0 <= i < |chunks| ==> 0 < |chunks[i]| <= 4096
      modifies receiver, this`carried, this`arrived
      ensures if |old(receiver.inbox)| > receiver.inboxMaxlen then
                r == Failure(InboxOverflow) && Holds(ms, old(carried), old(arrived), old(receiver.inbox))
              else
                LostOrHolds(ms, old(carried), old(arrived), old(receiver.inbox), old(receiver.buf), chunks,
                            receiver.ReadResult(end, |Concat(chunks)|), r)
    {
      hide FrameBytes, ParseStream, P2P, Framed, Tight, FixedHead, Concat;
      hide ConnectionInbox.Idle, ConnectionOutbox.Valid, ConnectionInbox.Spills, ConnectionInbox.SpilledAt;
      NeverFails(ms, Concat(chunks));
      FramesAreTight(ms, Concat(chunks));
      r := Receive(chunks, end);
    }

    /**
      Whatever was sent, however the socket cut and delayed it: the receiver has parsed
      a prefix of the messages that were queued, namely those that arrived in full.
     */
    lemma EndToEnd(ms: seq<StacksMessage>) returns (j: nat)
      requires Valid() && Sends(ms)
      ensures j <= |ms| && arrived == ms[..j]
      ensures j < |ms| ==> |carried| < |Concat(Frames(ms[..j + 1]))|
      ensures carried == Contents(sender.queued) ==> arrived == ms && receiver.buf == []
    {
      hide FrameBytes, ParseStream, P2P, Framed, ConnectionInbox.Idle;
      sender.WireIsPrefix();
      QueueOfFrames(sender.queued, ms);
      j := PrefixMeaning(env, receiver.publicKey, ms, carried);
      if j < |ms| {
        ConcatSplit(Frames(ms), j + 1);
        FramesTake(ms, j + 1);
      } else {
        assert ms[..j] == ms;
      }
    }
  }

  lemma PingBody(nonce: u32)
    ensures |WriteBody([], Ping(nonce), [])| == 9
  {
    var payload := Ping(nonce);
    assert WriteContent(payload, []) == WriteUint(4, nonce, []);
    assert |WritePayload(payload, [])| == 5;
    assert WriteItems(WriteRelay, [], WritePayload(payload, [])) == WritePayload(payload, []);
  }

  /** There are such messages, and two of them fit into one chunk: two pings do. */
  lemma TwoPings(env: Env) returns (m: StacksMessage)
    ensures Framed(env, None, m) && 0 < |Concat(Frames([m, m]))| <= 4096
  {
    hide WriteBody, WritePreamble, WriteMessage, ReadPreamble, BodyReader;
    var p := Preamble(0, 0, 0, 1, Zeros(32), 0, Zeros(32), 0, Zeros(65), 9);
    m := StacksMessage(p, [], Ping(0));
    PingBody(0);
    FrameParts(env, m);
    assert Frames([m, m]) == [FrameBytes(m), FrameBytes(m)] && [FrameBytes(m), FrameBytes(m)][1..] == [FrameBytes(m)];
    assert Concat([FrameBytes(m)]) == FrameBytes(m);
  }

  /**
    What an overflow drops never arrives: with room for no message, the second of two
    frames is gone, however they were cut, although all of its bytes were read and the
    first message was taken out before reading on.
   */
  method OverflowLosesMessage(ghost env: Env, family: Family<Preamble, StacksMessage, Bytes33>,
                              ghost a: StacksMessage, ghost b: StacksMessage, chunks: seq<seq<u8>>)
    returns (r: Result<nat, Error>, first: Option<StacksMessage>, again: Result<nat, Error>,
             second: Option<StacksMessage>)
    requires family == P2P(env) && Framed(env, None, a) && Framed(env, None, b)
    requires Concat(chunks) == Concat(Frames([a, b])) && forall i :: 0 <= i < |chunks| ==> 0 < |chunks[i]| <= 4096
    ensures r == Failure(InboxOverflow) && first == Some(a)
    ensures again == Success(0) && second == None
  {
    hide FrameBytes, P2P, Framed, Tight, FixedHead, Lawful, FirstFrame;
    hide ConnectionInbox.Idle, ConnectionInbox.SpilledAt;
    P2PLawful(env);
    var inbox := new ConnectionInbox(family, 0, None);
    TightStream(env, None, [a, b]);
    StreamMeaning(env, None, [a, b], []);
    EmptyIsIncomplete(family, None);
    assert [] + Concat(chunks) == Concat(chunks) == Concat(Frames([a, b])) + [];
    r := inbox.RecvBytes(chunks, ReadEnd.WouldBlock);
    first := inbox.NextMessage();
    again := inbox.RecvBytes([], ReadEnd.WouldBlock);
    second := inbox.NextMessage();
  }
}
