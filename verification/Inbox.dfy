/**
  The incremental message parser of a connection (ConnectionInbox in
  src/net/connection.rs).  It is fed the stream in arbitrary chunks.
 */
module Inbox {

  import opened Numerals
  import opened Results
  import opened Wire
  import opened Framing

  /** How the reads of one `recv_bytes` call end. */
  datatype ReadEnd = Closed | WouldBlock | Reset | ReadFailed

  lemma DropConcat(a: seq<u8>, b: seq<u8>, n: nat)
    requires n <= |a|
    ensures (a + b)[n..] == a[n..] + b
  {
  }

  class ConnectionInbox<P(!new), M(!new), K(!new)> {
    const family: Family<P, M, K>
    const inboxMaxlen: nat
    var publicKey: Option<K>
    var inbox: seq<M>
    var preamble: Option<P>
    var buf: seq<u8>
    var messagePtr: nat
    var payloadPtr: nat

    /** A preamble in hand is the one that the buffer starts with. */
    ghost predicate Valid()
      reads this`preamble, this`buf, this`messagePtr
    {
      Lawful(family) && (preamble.Some? ==> HasPreamble(preamble.value))
    }

    /** Between calls no complete frame is buffered, and a complete preamble is in hand. */
    ghost predicate Idle()
      reads this`publicKey, this`preamble, this`buf, this`messagePtr
    {
      Valid() && First(buf).Incomplete? && PreambleSeen()
    }

    ghost predicate PreambleSeen()
      reads this`preamble, this`buf
    {
      preamble.None? ==> family.readPreamble(buf) == NoHead(UnderflowError)
    }

    ghost predicate HasPreamble(p: P)
      reads this`preamble, this`buf, this`messagePtr
    {
      family.readPreamble(buf) == Head(p, messagePtr) && family.payloadLen(p) < MAX_MESSAGE_LEN
    }

    /** What the given bytes mean to this connection. */
    ghost function Meaning(s: seq<u8>): (r: Parse<M>)
      reads this`publicKey
    {
      ParseStream(family, publicKey, s)
    }

    ghost function First(s: seq<u8>): (r: Frame<M>)
      reads this`publicKey
    {
      FirstFrame(family, publicKey, s)
    }

    constructor (family: Family<P, M, K>, maxMessages: nat, publicKeyOpt: Option<K>)
      requires Lawful(family)
      ensures Idle() && this.family == family && inboxMaxlen == maxMessages && publicKey == publicKeyOpt
      ensures inbox == [] && buf == []
    {
      this.family := family;
      inboxMaxlen := maxMessages;
      publicKey := publicKeyOpt;
      inbox := [];
      preamble := None;
      buf := [];
      messagePtr := 0;
      payloadPtr := 0;
    }

    method BufferPreambleBytes(bytes: seq<u8>) returns (toConsume: nat)
      modifies this`buf
      ensures toConsume <= |bytes| && buf == old(buf) + bytes[..toConsume]
      ensures |buf| < family.preambleSizeHint ==> toConsume == |bytes|
      ensures toConsume > 0 ==> |buf| <= family.preambleSizeHint
    {
      var maxPreambleLen := family.preambleSizeHint;
      if |buf| >= maxPreambleLen {
        return 0;
      }
      toConsume := if |buf| + |bytes| <= maxPreambleLen then |bytes| else maxPreambleLen - |buf|;
      buf := buf + bytes[..toConsume];
    }

    method ConsumePreamble(bytes: seq<u8>) returns (r: Result<(Option<P>, nat), Error>)
      requires Lawful(family)
      modifies this`buf, this`messagePtr, this`payloadPtr
      ensures r.Failure? ==> First(old(buf) + bytes) == Invalid(r.error)
      ensures r.Success? ==> r.value.1 <= |bytes| && buf == old(buf) + bytes[..r.value.1]
      ensures r.Success? && r.value.0.None? ==>
                r.value.1 == |bytes| && First(buf).Incomplete? && family.readPreamble(buf) == NoHead(UnderflowError)
      ensures r.Success? && r.value.0.Some? ==> HasPreamble(r.value.0.value)
      ensures r.Success? && |old(buf)| <= family.preambleSizeHint ==> |buf| <= family.preambleSizeHint
    {
      var bytesConsumed := BufferPreambleBytes(bytes);
      assert old(buf) + bytes == buf + bytes[bytesConsumed..];
      match family.readPreamble(buf) {
        case Head(p, preambleLen) =>
          assert preambleLen < MAX_MESSAGE_LEN;
          if family.payloadLen(p) >= MAX_MESSAGE_LEN {
            FrameStable(family, publicKey, buf, bytes[bytesConsumed..]);
            return Failure(DeserializeError);
          }
          messagePtr := preambleLen;
          payloadPtr := preambleLen;
          return Success((Some(p), bytesConsumed));
        case NoHead(e) =>
          if e == DeserializeError {
            FrameStable(family, publicKey, buf, bytes[bytesConsumed..]);
            return Failure(InvalidMessage);
          } else if e == UnderflowError {
            if bytesConsumed == 0 && |bytes| > 0 {
              assert false;
            }
            assert bytes[..bytesConsumed] == bytes;
            return Success((None, bytesConsumed));
          } else {
            FrameStable(family, publicKey, buf, bytes[bytesConsumed..]);
            return Failure(e);
          }
      }
    }

    method BufferMessageBytes(bytes: seq<u8>, messageLen: nat) returns (toConsume: nat)
      requires messagePtr <= |buf|
      modifies this`buf
      ensures toConsume <= |bytes| && buf == old(buf) + bytes[..toConsume]
      ensures |buf| - messagePtr < messageLen ==> toConsume == |bytes|
      ensures toConsume > 0 ==> |buf| - messagePtr <= messageLen
    {
      var bufferredSoFar := |buf[messagePtr..]|;
      toConsume := |bytes|;
      if bufferredSoFar + toConsume > messageLen {
        toConsume := if messageLen > bufferredSoFar then messageLen - bufferredSoFar else 0;
      }
      buf := buf + bytes[..toConsume];
    }

    method ConsumePayloadKnownLength(p: P) returns (r: Result<Option<M>, Error>)
      requires Lawful(family) && HasPreamble(p)
      modifies this`buf, this`messagePtr, this`payloadPtr
      ensures match r
              case Failure(e) => First(old(buf)) == Invalid(e)
              case Success(None) => First(old(buf)).Incomplete? && buf == old(buf) && messagePtr == old(messagePtr)
              case Success(Some(m)) =>
                && First(old(buf)).Complete? && First(old(buf)).message == m
                && buf == old(buf)[First(old(buf)).length..]
    {
      var payloadLen := family.payloadLen(p);
      var bytes := buf[messagePtr..];
      if |bytes| < payloadLen {
        return Success(None);
      }
      if publicKey.Some? {
        if !family.verify(publicKey.value, p, bytes) {
          return Failure(VerifyingError);
        }
      }
      match family.readPayload(p, bytes) {
        case Taken(message, messageLen) =>
          var nextMessagePtr := messagePtr + messageLen;
          var trailer := buf[nextMessagePtr..];
          messagePtr := 0;
          payloadPtr := 0;
          buf := trailer;
          return Success(Some(message));
        case NotTaken(_) =>
          return Failure(InvalidMessage);
      }
    }

    lemma HeadFits(p: P)
      requires Lawful(family) && HasPreamble(p)
      ensures messagePtr <= |buf|
    {
    }

    lemma CompleteFits(s: seq<u8>)
      requires First(s).Complete?
      ensures First(s).length <= |s|
    {
    }

    /** A frame whose preamble is there is incomplete for want of payload. */
    lemma ShortPayload(s: seq<u8>, p: P)
      requires family.readPreamble(s) == Head(p, messagePtr) && First(s).Incomplete?
      ensures |s| - messagePtr < family.payloadLen(p)
    {
    }

    /** Bytes that come after a preamble do not change it. */
    lemma StillHead(b: seq<u8>, more: seq<u8>, p: P, n: nat)
      requires Lawful(family) && family.readPreamble(b) == Head(p, n)
      ensures family.readPreamble(b + more) == Head(p, n)
    {
    }

    method ConsumePayload(p: P, bytes: seq<u8>) returns (r: Result<(Option<M>, nat), Error>)
      requires Lawful(family) && HasPreamble(p)
      modifies this`buf, this`messagePtr, this`payloadPtr
      ensures r.Failure? ==> First(old(buf) + bytes) == Invalid(r.error)
      ensures r.Success? ==> r.value.1 <= |bytes|
      ensures r.Success? && r.value.0.None? ==>
                r.value.1 == |bytes| && buf == old(buf) + bytes && First(buf).Incomplete? && HasPreamble(p)
      ensures r.Success? && r.value.0.Some? ==>
                && First(old(buf) + bytes).Complete? && First(old(buf) + bytes).message == r.value.0.value
                && buf + bytes[r.value.1..] == (old(buf) + bytes)[First(old(buf) + bytes).length..]
      ensures var n := old(messagePtr) + family.payloadLen(p);
              r.Success? && r.value.0.Some? && |old(buf)| <= n && First(old(buf) + bytes).length == n ==> buf == []
    {
      hide FirstFrame, Lawful;
      HeadFits(p);
      var bytesConsumed := BufferMessageBytes(bytes, family.payloadLen(p));
      ghost var front, back := buf, bytes[bytesConsumed..];
      assert old(buf) + bytes == front + back;
      StillHead(old(buf), bytes[..bytesConsumed], p, messagePtr);
      var messageOpt := ConsumePayloadKnownLength(p);
      match messageOpt {
        case Failure(e) =>
          FrameStable(family, publicKey, front, back);
          return Failure(e);
        case Success(opt) =>
          if opt.Some? {
            FrameStable(family, publicKey, front, back);
            var n := First(front).length;
            CompleteFits(front);
            DropConcat(front, back, n);
          } else {
            ShortPayload(front, p);
            assert bytes[..bytesConsumed] == bytes;
          }
          return Success((opt, bytesConsumed));
      }
    }

    /** Progress inside `consume_messages`: `todo` is what is buffered and still to come. */
    ghost predicate Progress(was: seq<M>, all: seq<u8>, todo: seq<u8>)
      reads this
    {
      Valid() && was <= inbox && Meaning(all) == Prepend(inbox[|was|..], Meaning(todo))
    }

    /**
      The outcome of feeding bytes that, with what was buffered, are `all`: their messages
      are appended and their remainder is buffered, or their error is reported after their
      messages, or the inbox became too full and the bytes `lost` are neither parsed nor kept.
     */
    ghost predicate Outcome(was: seq<M>, all: seq<u8>, failure: Option<Error>, lost: seq<u8>)
      reads this
    {
      match failure
      case None => Valid() && was <= inbox && lost == [] && Meaning(all) == Pending(inbox[|was|..], buf)
      case Some(e) =>
        || (e == InboxOverflow && |inbox| > inboxMaxlen && Progress(was, all, buf + lost))
        || (lost == [] && was <= inbox && Meaning(all) == Failed(inbox[|was|..], e))
    }

    /** What comes is a stream of full frames, and no more is buffered than the next step needs. */
    ghost predicate Snug(todo: seq<u8>)
      reads this`publicKey, this`preamble, this`buf, this`messagePtr
    {
      FixedHead(family) && Tight(family, publicKey, todo) && Lean()
    }

    ghost predicate Lean()
      reads this`preamble, this`buf, this`messagePtr
    {
      if preamble.Some? then |buf| <= messagePtr + family.payloadLen(preamble.value)
      else |buf| <= family.preambleSizeHint
    }

    /** The inbox is not too full, or became so with the last byte that arrived. */
    ghost predicate Roomy()
      reads this`inbox, this`buf
    {
      |inbox| <= inboxMaxlen || (|inbox| == inboxMaxlen + 1 && buf == [])
    }

    lemma IdleIsLean()
      requires Idle()
      ensures Lean()
    {
      if preamble.Some? {
        ShortPayload(buf, preamble.value);
      }
    }

    lemma ProgressMessage(was: seq<M>, all: seq<u8>, todo: seq<u8>, before: seq<M>)
      requires Lawful(family) && was <= before && Meaning(all) == Prepend(before[|was|..], Meaning(todo))
      requires First(todo).Complete? && inbox == before + [First(todo).message]
      ensures was <= inbox && Meaning(all) == Prepend(inbox[|was|..], Meaning(todo[First(todo).length..]))
    {
      PrependTwice(before[|was|..], [First(todo).message], Meaning(todo[First(todo).length..]));
      assert inbox[|was|..] == before[|was|..] + [First(todo).message];
    }

    /** A preamble alone is no message. */
    lemma NoPayload()
      requires Valid() && preamble.Some? && |buf| <= messagePtr
      ensures !First(buf).Complete?
    {
    }

    lemma EmptyHasNone()
      requires Lawful(family)
      ensures First([]).Incomplete? && family.readPreamble([]) == NoHead(UnderflowError)
    {
    }

    lemma EmptyIsIdle()
      requires Valid()
      ensures buf == [] ==> Idle()
    {
    }

    /** The first frame of a tight stream takes all of the announced payload. */
    lemma TightLength(todo: seq<u8>, p: P)
      requires FixedHead(family) && Tight(family, publicKey, todo) && First(todo).Complete?
      requires family.readPreamble(todo) == Head(p, messagePtr)
      ensures First(todo).length == messagePtr + family.payloadLen(p)
      ensures Tight(family, publicKey, todo[First(todo).length..])
    {
    }

    /**
      `consume_messages`: feed a chunk.  An overflow loses the rest of the chunk, at least
      one byte.  On a stream of full frames it happens just before the first byte after
      the message that made the inbox too full.
     */
    method ConsumeMessages(bytes: seq<u8>) returns (failure: Option<Error>, ghost lost: seq<u8>)
      requires Valid()
      modifies this`inbox, this`preamble, this`buf, this`messagePtr, this`payloadPtr
      ensures Outcome(old(inbox), old(buf) + bytes, failure, lost)
      ensures |lost| <= |bytes| && lost == bytes[|bytes| - |lost|..]
      ensures bytes != [] && failure.Some? && lost == [] ==>
                Meaning(old(buf) + bytes) == Failed(inbox[|old(inbox)|..], failure.value)
      ensures failure.None? ==> PreambleSeen()
      ensures bytes != [] && old(Snug(buf + bytes)) && old(Roomy()) ==>
                && (failure.None? ==> Roomy())
                && (lost != [] ==> buf == [] && |inbox| == inboxMaxlen + 1)
    {
      ghost var was, all := inbox, buf + bytes;
      failure, lost := ConsumeChunk(bytes);
      if failure.Some? {
        return;
      }
      EmptyHasNone();
      if |buf| > 0 {
        ghost var before, rest := inbox, buf;
        failure := DrainBuffer(was, all);
        if failure.None? {
          NothingDrained(was, all, before, rest);
        }
      }
    }

    /** A buffer without a complete frame adds no message. */
    lemma NothingDrained(was: seq<M>, all: seq<u8>, before: seq<M>, rest: seq<u8>)
      requires was <= before && Meaning(all) == Prepend(before[|was|..], Meaning(rest))
      requires was <= inbox && Meaning(all) == Pending(inbox[|was|..], buf)
      ensures !First(rest).Complete? ==> inbox == before && buf == rest
    {
      if !First(rest).Complete? {
        assert before[|was|..] + [] == before[|was|..];
        assert inbox == was + inbox[|was|..] && before == was + before[|was|..];
      }
    }

    /** Try to complete the message whose preamble is in hand, and queue it. */
    method TakePayload(bytes: seq<u8>, ghost was: seq<M>, ghost all: seq<u8>)
      returns (failure: Option<Error>, consumedMessage: bool, n: nat)
      requires preamble.Some? && Progress(was, all, buf + bytes)
      modifies this`inbox, this`preamble, this`buf, this`messagePtr, this`payloadPtr
      ensures failure.Some? ==> Outcome(was, all, failure, [])
      ensures failure.Some? ==> Meaning(all) == Failed(inbox[|was|..], failure.value)
      ensures failure.None? ==> n <= |bytes| && Progress(was, all, buf + bytes[n..])
      ensures failure.None? && consumedMessage ==>
                |buf| + |bytes| - n < |old(buf)| + |bytes| && |inbox| == |old(inbox)| + 1
      ensures failure.None? && !consumedMessage ==>
                n == |bytes| && First(buf).Incomplete? && preamble.Some? && inbox == old(inbox)
      ensures failure.None? && old(Snug(buf + bytes)) ==> Snug(buf + bytes[n..]) && (consumedMessage ==> buf == [])
    {
      hide FirstFrame, Lawful, Tight;
      ghost var todo, before, snug := buf + bytes, inbox, Snug(buf + bytes);
      var p := preamble.value;
      StillHead(buf, bytes, p, messagePtr);
      preamble := None;
      if snug && First(todo).Complete? {
        TightLength(todo, p);
      }
      var r := ConsumePayload(p, bytes);
      match r {
        case Failure(e) => return Some(e), false, 0;
        case Success((messageOpt, consumed)) =>
          if messageOpt.Some? {
            inbox := inbox + [messageOpt.value];
            ProgressMessage(was, all, todo, before);
          } else {
            preamble := Some(p);
            assert buf + bytes[consumed..] == todo;
            ShortPayload(buf, p);
          }
          return None, messageOpt.Some?, consumed;
      }
    }

    /** Try to find the next preamble. */
    method TakePreamble(bytes: seq<u8>, ghost was: seq<M>, ghost all: seq<u8>)
      returns (failure: Option<Error>, n: nat)
      requires preamble.None? && Progress(was, all, buf + bytes)
      modifies this`preamble, this`buf, this`messagePtr, this`payloadPtr
      ensures failure.Some? ==> Outcome(was, all, failure, [])
      ensures failure.Some? ==> Meaning(all) == Failed(inbox[|was|..], failure.value)
      ensures failure.None? ==> n <= |bytes| && buf == old(buf) + bytes[..n] && Progress(was, all, buf + bytes[n..])
      ensures failure.None? && preamble.None? ==> n == |bytes| && First(buf).Incomplete? && PreambleSeen()
      ensures failure.None? && old(Snug(buf + bytes)) ==>
                Snug(buf + bytes[n..]) && (preamble.Some? ==> |buf| <= messagePtr)
    {
      hide FirstFrame, Lawful, Tight;
      var r := ConsumePreamble(bytes);
      match r {
        case Failure(e) => return Some(e), 0;
        case Success((preambleOpt, consumed)) =>
          preamble := preambleOpt;
          assert buf + bytes[consumed..] == old(buf) + bytes;
          return None, consumed;
      }
    }

    /** The first loop: take bytes off the chunk until it is used up. */
    method ConsumeChunk(bytes: seq<u8>) returns (failure: Option<Error>, ghost lost: seq<u8>)
      requires Valid()
      modifies this`inbox, this`preamble, this`buf, this`messagePtr, this`payloadPtr
      ensures failure.None? ==> Progress(old(inbox), old(buf) + bytes, buf) && lost == []
      ensures failure.Some? ==> Outcome(old(inbox), old(buf) + bytes, failure, lost)
      ensures |lost| <= |bytes| && lost == bytes[|bytes| - |lost|..]
      ensures bytes != [] && failure.Some? && lost == [] ==>
                Meaning(old(buf) + bytes) == Failed(inbox[|old(inbox)|..], failure.value)
      ensures bytes != [] && old(Snug(buf + bytes)) && old(Roomy()) ==>
                && (failure.None? ==> Roomy() && !First(buf).Complete?)
                && (lost != [] ==> buf == [] && |inbox| == inboxMaxlen + 1)
    {
      hide FirstFrame, Lawful, ParseStream, HasPreamble, Snug;
      ghost var was, all, snug := inbox, buf + bytes, bytes != [] && Snug(buf + bytes) && Roomy();
      PrependNone(Meaning(all));
      EmptyHasNone();
      var rest := bytes; // the slice &buf[offset..]
      while true
        invariant Progress(was, all, buf + rest)
        invariant |rest| <= |bytes| && rest == bytes[|bytes| - |rest|..] && (bytes != [] ==> rest != [])
        invariant snug ==> Snug(buf + rest) && Roomy()
        decreases |buf| + |rest|
      {
        if |inbox| > inboxMaxlen {
          return Some(InboxOverflow), rest;
        }
        if preamble.None? {
          var n;
          failure, n := TakePreamble(rest, was, all);
          if failure.Some? {
            lost := [];
            return;
          }
          rest := rest[n..];
        }
        if rest == [] {
          if snug && preamble.Some? {
            NoPayload();
          }
          break;
        }
        var consumedMessage, n;
        failure, consumedMessage, n := TakePayload(rest, was, all);
        if failure.Some? {
          lost := [];
          return;
        }
        rest := rest[n..];
        if rest == [] {
          break;
        }
      }
      assert buf + rest == buf;
      return None, [];
    }

    /** The second loop: messages that are already buffered in full. */
    method DrainBuffer(ghost was: seq<M>, ghost all: seq<u8>) returns (failure: Option<Error>)
      requires Progress(was, all, buf)
      modifies this`inbox, this`preamble, this`buf, this`messagePtr, this`payloadPtr
      ensures Outcome(was, all, failure, [])
      ensures failure.Some? ==> Meaning(all) == Failed(inbox[|was|..], failure.value)
      ensures failure.None? ==> PreambleSeen()
    {
      while true
        invariant Progress(was, all, buf)
        decreases |buf|
      {
        assert buf + [] == buf;
        var consumedMessage := false;
        if preamble.None? {
          var n;
          failure, n := TakePreamble([], was, all);
          if failure.Some? {
            return;
          }
          assert buf + [] == buf;
        }
        if preamble.Some? {
          var n;
          failure, consumedMessage, n := TakePayload([], was, all);
          if failure.Some? {
            return;
          }
          assert buf + [] == buf;
        }
        if !consumedMessage {
          break;
        }
      }
      assert inbox[|was|..] + [] == inbox[|was|..];
      return None;
    }

    /** One more chunk of a stream whose first part `front` left `mid` buffered. */
    lemma ChunkDone(was: seq<M>, front: seq<u8>, mid: seq<u8>, chunk: seq<u8>, before: seq<M>,
                    failure: Option<Error>, lost: seq<u8>)
      requires Lawful(family) && was <= before && Meaning(front) == Prepend(before[|was|..], Meaning(mid))
      requires Outcome(before, mid + chunk, failure, lost)
      requires failure.Some? && lost == [] ==> Meaning(mid + chunk) == Failed(inbox[|before|..], failure.value)
      ensures failure.None? || lost != [] ==> Progress(was, front + chunk, buf + lost)
      ensures failure.Some? && lost == [] ==>
                was <= inbox && Meaning(front + chunk) == Failed(inbox[|was|..], failure.value)
    {
      hide ParseStream, Lawful;
      ResumesAlike(family, publicKey, front, before[|was|..], mid, chunk);
      assert inbox[|was|..] == before[|was|..] + inbox[|before|..];
      if failure.None? {
        RestIsPartial(family, publicKey, mid + chunk);
        assert buf + lost == buf && inbox[|was|..] + [] == inbox[|was|..];
      } else if lost != [] {
        PrependTwice(before[|was|..], inbox[|before|..], Meaning(buf + lost));
      }
    }

    /** The result of `recv_bytes` when the stream itself gave no error. */
    function ReadResult(end: ReadEnd, totalRead: nat): (r: Result<nat, Error>)
    {
      match end
      case ReadFailed => Failure(RecvError)
      case WouldBlock => Success(totalRead)
      case _ => if totalRead == 0 then Failure(PermanentlyDrained) else Success(totalRead)
    }

    /**
      The first `read` chunks were taken off the socket, and the last bytes of the last of
      them, at least one, are gone: they were not parsed and are not buffered.
     */
    ghost predicate SpilledAt(was: seq<M>, front: seq<u8>, chunks: seq<seq<u8>>, read: nat, lost: seq<u8>)
      reads this
    {
      && 0 < read <= |chunks| && 0 < |lost| <= |chunks[read - 1]|
      && lost == chunks[read - 1][|chunks[read - 1]| - |lost|..]
      && |inbox| > inboxMaxlen && Progress(was, front + Concat(chunks[..read]), buf + lost)
    }

    /** The messages exceed the inbox by more than one, or by one with bytes after it. */
    ghost predicate Spills(count: nat, p: Parse<M>)
    {
      var n := count + |p.messages|;
      p.Pending? && (n > inboxMaxlen + 1 || (n == inboxMaxlen + 1 && p.rest != []))
    }

    /** What is lost was part of the stream, so the messages are too many to hold. */
    lemma SpillsOver(was: seq<M>, front: seq<u8>, chunks: seq<seq<u8>>, read: nat, lost: seq<u8>)
      requires SpilledAt(was, front, chunks, read, lost)
      ensures var p := Meaning(front + Concat(chunks));
              inbox[|was|..] <= p.messages && (p.Pending? ==> Spills(|was|, p))
    {
      hide Lawful, FirstFrame, Concat;
      var start, back := front + Concat(chunks[..read]), Concat(chunks[read..]);
      ConcatSplit(chunks, read);
      assert front + Concat(chunks) == start + back;
      ResumesAlike(family, publicKey, start, inbox[|was|..], buf + lost, back);
    }

    /** The read loop of `recv_bytes`, up to the read that yields no data. */
    method ConsumeAll(chunks: seq<seq<u8>>)
      returns (failure: Option<Error>, totalRead: nat, ghost read: nat, ghost lost: seq<u8>)
      requires Idle() && forall i :: 0 <= i < |chunks| ==> chunks[i] != []
      modifies this`inbox, this`preamble, this`buf, this`messagePtr, this`payloadPtr
      ensures failure.None? ==>
                && Idle() && totalRead == |Concat(chunks)| && lost == [] && old(inbox) <= inbox
                && Meaning(old(buf) + Concat(chunks)) == Pending(inbox[|old(inbox)|..], buf)
      ensures failure.Some? && lost == [] ==>
                && old(inbox) <= inbox
                && Meaning(old(buf) + Concat(chunks)) == Failed(inbox[|old(inbox)|..], failure.value)
      ensures failure.Some? && lost != [] ==>
                failure.value == InboxOverflow && SpilledAt(old(inbox), old(buf), chunks, read, lost)
      ensures FixedHead(family) && Tight(family, publicKey, old(buf) + Concat(chunks)) && old(Roomy()) ==>
                && (failure.None? ==> Roomy())
                && (lost != [] ==> buf == [] && |inbox| == inboxMaxlen + 1)
    {
      hide FirstFrame, Lawful, Tight, ParseStream, Concat;
      ghost var was, start := inbox, buf;
      ghost var tight := FixedHead(family) && Tight(family, publicKey, buf + Concat(chunks)) && Roomy();
      totalRead := 0;
      NoChunks(was, start, chunks);
      for i := 0 to |chunks|
        invariant Progress(was, start + Concat(chunks[..i]), buf) && Idle()
        invariant totalRead == |Concat(chunks[..i])|
        invariant tight ==> FixedHead(family) && Tight(family, publicKey, buf + Concat(chunks[i..])) && Roomy()
      {
        ghost var front, mid, before := start + Concat(chunks[..i]), buf, inbox;
        NextChunk(start, mid, chunks, i);
        IdleIsLean();
        if tight {
          TightResumes(family, publicKey, mid + chunks[i], Concat(chunks[i + 1..]));
        }
        totalRead := totalRead + |chunks[i]|;
        failure, lost := ConsumeMessages(chunks[i]);
        read := i + 1;
        ChunkDone(was, front, mid, chunks[i], before, failure, lost);
        if failure.Some? {
          if lost == [] {
            ParseResumes(family, publicKey, front + chunks[i], Concat(chunks[i + 1..]));
          }
          return;
        }
        assert buf + lost == buf;
        RestIsPartial(family, publicKey, mid + chunks[i]);
        PartialIsIncomplete(buf);
      }
      assert chunks[..|chunks|] == chunks;
      PartialIsPending(was, start + Concat(chunks));
      failure, read, lost := None, |chunks|, [];
    }

    lemma NoChunks(was: seq<M>, start: seq<u8>, chunks: seq<seq<u8>>)
      requires inbox == was && buf == start && Idle()
      ensures Progress(was, start + Concat(chunks[..0]), buf)
      ensures Concat(chunks[..0]) == [] && chunks[0..] == chunks
    {
      PrependNone(Meaning(start));
      assert start + Concat(chunks[..0]) == start;
    }

    lemma NextChunk(start: seq<u8>, mid: seq<u8>, chunks: seq<seq<u8>>, i: nat)
      requires i < |chunks|
      ensures Concat(chunks[..i + 1]) == Concat(chunks[..i]) + chunks[i]
      ensures start + Concat(chunks[..i + 1]) == start + Concat(chunks[..i]) + chunks[i]
      ensures mid + Concat(chunks[i..]) == mid + chunks[i] + Concat(chunks[i + 1..])
      ensures start + Concat(chunks) == start + Concat(chunks[..i]) + chunks[i] + Concat(chunks[i + 1..])
    {
      hide Concat;
      ConcatFrom(chunks, i);
      assert chunks[..i + 1] == chunks[..i] + [chunks[i]];
      ConcatAppend(chunks[..i], chunks[i]);
      ConcatSplit(chunks, i);
      Regroup(mid, chunks[i], Concat(chunks[i + 1..]));
      Regroup(start, Concat(chunks[..i]), chunks[i]);
      Regroup(Concat(chunks[..i]), chunks[i], Concat(chunks[i + 1..]));
      Regroup(start, Concat(chunks[..i + 1]), Concat(chunks[i + 1..]));
    }

    lemma ConcatFrom(chunks: seq<seq<u8>>, i: nat)
      requires i < |chunks|
      ensures Concat(chunks[i..]) == chunks[i] + Concat(chunks[i + 1..])
    {
      assert chunks[i..][1..] == chunks[i + 1..];
    }

    lemma PartialIsIncomplete(s: seq<u8>)
      requires Meaning(s) == Pending([], s)
      ensures First(s).Incomplete?
    {
    }

    lemma PartialIsPending(was: seq<M>, all: seq<u8>)
      requires Progress(was, all, buf) && First(buf).Incomplete?
      ensures Meaning(all) == Pending(inbox[|was|..], buf)
    {
      assert inbox[|was|..] + [] == inbox[|was|..];
    }

    /**
      What `recv_bytes` leaves and returns when the bytes mean `p` and the reads end well:
      all messages of `p`, or, after an overflow, the first ones of them, too many to hold.
     */
    ghost predicate Received(was: seq<M>, p: Parse<M>, good: Result<nat, Error>, r: Result<nat, Error>)
      reads this
    {
      && was <= inbox && inbox[|was|..] <= p.messages
      && (|| (r == Failure(InboxOverflow) && |inbox| > inboxMaxlen)
          || (&& inbox == was + p.messages
              && (p.Failed? ==> r == Failure(p.error))
              && (p.Pending? ==> Idle() && buf == p.rest && r == good)))
    }

    /**
      Reads that overflow the inbox lose bytes for good.  A stream of full frames is
      lost from exactly when its messages spill, however it is cut.
     */
    ghost predicate LossExact(was: seq<M>, front: seq<u8>, chunks: seq<seq<u8>>, r: Result<nat, Error>)
      reads this
    {
      var p := Meaning(front + Concat(chunks));
      p.Pending? ==>
        && (r == Failure(InboxOverflow) ==>
              Spills(|was|, p) && exists read, lost :: SpilledAt(was, front, chunks, read, lost))
        && (FixedHead(family) && Tight(family, publicKey, front + Concat(chunks)) ==>
              && (r == Failure(InboxOverflow) <==> Spills(|was|, p))
              && (r == Failure(InboxOverflow) ==> buf == [] && Idle() && |inbox| == inboxMaxlen + 1))
    }

    /**
      `recv_bytes`: the socket yields the given chunks and then ends as given.  The
      effect depends only on the bytes received, not on how they were cut.  An inbox that
      is already too full is left alone.
     */
    method RecvBytes(chunks: seq<seq<u8>>, end: ReadEnd) returns (r: Result<nat, Error>)
      requires Idle()
      requires forall i :: 0 <= i < |chunks| ==> 0 < |chunks[i]| <= 4096
      modifies this`inbox, this`preamble, this`buf, this`messagePtr, this`payloadPtr
      ensures Received(old(inbox), Meaning(old(buf) + Concat(chunks)), ReadResult(end, |Concat(chunks)|), r)
      ensures |old(inbox)| > inboxMaxlen ==>
                r == Failure(InboxOverflow) && Idle() && inbox == old(inbox) && buf == old(buf)
      ensures |old(inbox)| <= inboxMaxlen ==> LossExact(old(inbox), old(buf), chunks, r)
      ensures Meaning(old(buf) + Concat(chunks)).Pending? && r != Failure(InboxOverflow) ==>
                r == if end == ReadFailed then Failure(RecvError)
                     else if Concat(chunks) == [] && end != WouldBlock then Failure(PermanentlyDrained)
                     else Success(|Concat(chunks)|)
      ensures forall m :: m in inbox[|old(inbox)|..] ==>
                exists at :: ReadAt(family, publicKey, old(buf) + Concat(chunks), at, m)
    {
      hide FirstFrame, Lawful, Tight, ParseStream, Concat, ReadAt;
      ghost var all := buf + Concat(chunks);
      if |inbox| > inboxMaxlen {
        return Failure(InboxOverflow);
      }
      ghost var was, front, read, lost := inbox, buf, 0, [];
      var failure, totalRead;
      failure, totalRead, read, lost := ConsumeAll(chunks);
      if failure.Some? {
        if lost != [] {
          SpillsOver(was, front, chunks, read, lost);
          EmptyIsIdle();
        }
        Genuine(all, inbox[|was|..]);
        return Failure(failure.value);
      }
      Genuine(all, inbox[|was|..]);
      r := ReadResult(end, totalRead);
    }

    /** Every message of a stream was read from a piece of it that the known key signed. */
    lemma Genuine(s: seq<u8>, ms: seq<M>)
      requires Lawful(family) && ms <= Meaning(s).messages
      ensures forall m :: m in ms ==> exists at :: ReadAt(family, publicKey, s, at, m)
    {
      hide ReadAt, ParseStream, Lawful;
      var at := Provenance(family, publicKey, s);
      forall i | 0 <= i < |ms|
        ensures ReadAt(family, publicKey, s, at[i], ms[i])
      {
        assert ms[i] == Meaning(s).messages[i];
      }
    }

    /** `set_public_key`: a partial frame stays partial under the new key. */
    method SetPublicKey(key: Option<K>)
      requires Idle()
      modifies this`publicKey
      ensures publicKey == key && Idle()
    {
      publicKey := key;
    }

    /** `next_message` */
    method NextMessage() returns (m: Option<M>)
      modifies this`inbox
      ensures if old(inbox) == [] then m == None && inbox == []
              else m == Some(old(inbox)[0]) && inbox == old(inbox)[1..]
    {
      if inbox == [] {
        return None;
      }
      m := Some(inbox[0]);
      inbox := inbox[1..];
    }
  }
}
