/**
  The outgoing side of a connection (ConnectionOutbox in src/net/connection.rs):
  queued messages are drained from their pipes into a socket that may take part
  of what it is given, or nothing.
 */
module Outbox {

  import opened Numerals
  import opened Results
  import opened Wire

  /** A waiting receiver; `handle` tells apart the requests of one connection. */
  datatype Notify = Notify(handle: nat, expectedSeq: u32, ttl: u64)

  /** The bytes that will still come out of a pipe, from now until its writer is gone. */
  datatype PipeRead = PipeRead(rest: seq<u8>)

  datatype InflightMessage = InflightMessage(pipeRead: Option<PipeRead>, notify: Option<Notify>)

  /** A message as it was queued: everything its writer writes, and who waits for a reply. */
  datatype Queued = Queued(content: seq<u8>, notify: Option<Notify>)

  datatype ReadOutcome = Data(bytes: seq<u8>) | PipeBlocked | Eof | PipeFailed(error: Error)
  datatype WriteOutcome = Wrote(n: nat) | SocketBlocked | SocketFailed

  /** What can stop the sender: a pipe or socket that is not ready, a peer that hung up, an error. */
  datatype Stall = WouldBlock | HungUp | Fault(error: Error)

  /** The result of `send_bytes` after the given stalls, when it wrote `n` bytes. */
  function SendResult(stalls: seq<Stall>, n: nat): (r: Result<nat, Error>)
  {
    if stalls != [] && stalls[|stalls| - 1].Fault? then Failure(stalls[|stalls| - 1].error)
    else if n == 0 && HungUp in stalls && WouldBlock !in stalls then Failure(PeerNotConnected)
    else Success(n)
  }

  /** One read from a pipe: some bytes, nothing yet, the end once it is drained, or an error. */
  method ReadPipe(pipe: PipeRead) returns (o: ReadOutcome, left: PipeRead)
    ensures o.Data? ==> 0 < |o.bytes| <= 8192 && pipe.rest == o.bytes + left.rest
    ensures o.Eof? ==> pipe.rest == []
    ensures o.PipeFailed? ==> o.error in {ReadError, WriteError}
    ensures !o.Data? ==> left == pipe
  {
    var n: nat, choice: nat := *, *;
    left := pipe;
    if choice == 0 {
      o := PipeFailed(if n == 0 then ReadError else WriteError);
    } else if choice == 1 && pipe.rest == [] {
      o := Eof;
    } else if 0 < n <= |pipe.rest| && n <= 8192 {
      o := Data(pipe.rest[..n]);
      left := PipeRead(pipe.rest[n..]);
    } else {
      o := PipeBlocked;
    }
  }

  /** One write to the socket: it takes a prefix of the bytes, blocks or fails. */
  method WriteSocket(bytes: seq<u8>) returns (o: WriteOutcome)
    ensures o.Wrote? ==> o.n <= |bytes|
  {
    var n: nat, choice: nat := *, *;
    o := if choice == 0 then SocketFailed else if choice == 1 || n > |bytes| then SocketBlocked else Wrote(n);
  }

  function ReadStall(o: ReadOutcome): (s: seq<Stall>)
  {
    match o
    case PipeBlocked => [WouldBlock]
    case PipeFailed(e) => [Fault(e)]
    case _ => []
  }

  function WriteStall(o: WriteOutcome): (s: seq<Stall>)
  {
    match o
    case Wrote(n) => if n == 0 then [HungUp] else []
    case SocketBlocked => [WouldBlock]
    case SocketFailed => [Fault(SendError)]
  }

  function Contents(qs: seq<Queued>): (s: seq<u8>)
  {
    if qs == [] then [] else Contents(qs[..|qs| - 1]) + qs[|qs| - 1].content
  }

  function Notifies(qs: seq<Queued>): (ns: seq<Notify>)
  {
    if qs == [] then []
    else
      var last := qs[|qs| - 1].notify;
      Notifies(qs[..|qs| - 1]) + if last.Some? then [last.value] else []
  }

  lemma {:induction false} ContentsPrefix(qs: seq<Queued>, k: nat)
    requires k <= |qs|
    ensures Contents(qs[..k]) <= Contents(qs)
    ensures k < |qs| ==> Contents(qs[..k]) + qs[k].content <= Contents(qs)
  {
    if k < |qs| {
      var n := |qs| - 1;
      assert qs[..n][..k] == qs[..k];
      ContentsPrefix(qs[..n], k);
    } else {
      assert qs[..k] == qs;
    }
  }

  lemma OneMore(qs: seq<Queued>, k: nat)
    requires k < |qs|
    ensures Contents(qs[..k + 1]) == Contents(qs[..k]) + qs[k].content
    ensures Notifies(qs[..k + 1]) == Notifies(qs[..k]) + if qs[k].notify.Some? then [qs[k].notify.value] else []
  {
    assert qs[..k + 1][..k] == qs[..k];
  }

  /** The queue entries of messages whose pipes are still untouched. */
  function Waiting(qs: seq<Queued>): (ms: seq<InflightMessage>)
    ensures |ms| == |qs|
  {
    if qs == [] then []
    else [InflightMessage(Some(PipeRead(qs[0].content)), qs[0].notify)] + Waiting(qs[1..])
  }

  lemma {:induction false} WaitingAppend(qs: seq<Queued>, q: Queued)
    ensures Waiting(qs + [q]) == Waiting(qs) + [InflightMessage(Some(PipeRead(q.content)), q.notify)]
  {
    if qs == [] {
      assert [q][1..] == [];
    } else {
      assert (qs + [q])[1..] == qs[1..] + [q];
      WaitingAppend(qs[1..], q);
    }
  }

  lemma QueueGrows(qs: seq<Queued>, q: Queued, k: nat)
    requires k <= |qs|
    ensures (qs + [q])[..k] == qs[..k]
    ensures Waiting((qs + [q])[k..]) == Waiting(qs[k..]) + [InflightMessage(Some(PipeRead(q.content)), q.notify)]
  {
    assert (qs + [q])[k..] == qs[k..] + [q];
    WaitingAppend(qs[k..], q);
  }

  class ConnectionOutbox {
    const outboxMaxlen: nat
    var outbox: seq<InflightMessage>
    var pendingMessageFd: Option<PipeRead>
    var socketOutBuf: seq<u8>
    var socketOutPtr: nat
    var inflight: seq<Notify>

    // history of the connection
    ghost var queued: seq<Queued>   // every message accepted, in order
    ghost var finished: nat         // how many of them were finished
    ghost var wire: seq<u8>         // every byte that the socket took
    ghost var launched: seq<Notify> // every notification that went in flight, in order
    ghost var stalls: seq<Stall>    // every time that a pipe or the socket stopped us

    ghost predicate Valid()
      reads this`outbox, this`pendingMessageFd, this`socketOutBuf, this`socketOutPtr
      reads this`queued, this`finished, this`wire, this`launched
    {
      && finished <= |queued|
      && socketOutPtr <= |socketOutBuf|
      && (match pendingMessageFd
          case None =>
            && socketOutBuf == []
            && outbox == Waiting(queued[finished..])
          case Some(fd) =>
            && finished < |queued|
            && outbox == [InflightMessage(None, queued[finished].notify)] + Waiting(queued[finished + 1..])
            && socketOutBuf + fd.rest == queued[finished].content)
      && wire == Contents(queued[..finished]) + socketOutBuf[..socketOutPtr]
      && launched == Notifies(queued[..finished])
    }

    constructor (maxlen: nat)
      ensures Valid() && outboxMaxlen == maxlen && queued == [] && wire == [] && inflight == [] && launched == []
              && stalls == []
    {
      outboxMaxlen := maxlen;
      outbox := [];
      pendingMessageFd := None;
      socketOutBuf := [];
      socketOutPtr := 0;
      inflight := [];
      queued := [];
      finished := 0;
      wire := [];
      launched := [];
      stalls := [];
    }

    /** The bytes on the socket are a prefix of the queued messages, first in, first out. */
    lemma WireIsPrefix()
      requires Valid()
      ensures wire <= Contents(queued)
      ensures Contents(queued[..finished]) <= wire
      ensures finished < |queued| ==> wire <= Contents(queued[..finished]) + queued[finished].content
    {
      ContentsPrefix(queued, finished);
      if pendingMessageFd.Some? {
        assert socketOutBuf[..socketOutPtr] <= queued[finished].content;
      }
      assert queued[..|queued|] == queued;
    }

    // How much is left to do, for termination: bytes not read from pipes, bytes not on the socket.

    ghost function Unread(): (n: int)
      reads this
    {
      if finished <= |queued| then |Contents(queued)| - |Contents(queued[..finished])| - |socketOutBuf| else 0
    }

    ghost function Unsent(): (n: int)
      reads this
    {
      |Contents(queued)| - |wire|
    }

    lemma LeftBounds()
      requires Valid()
      ensures 0 <= Unread() && 0 <= Unsent()
    {
      ContentsPrefix(queued, finished);
      WireIsPrefix();
    }

    method QueueMessage(content: seq<u8>, notify: Option<Notify>) returns (r: Result<(), Error>)
      requires Valid()
      modifies this`outbox, this`queued
      ensures Valid()
      ensures r == (if |old(outbox)| > outboxMaxlen then Failure(OutboxOverflow) else Success(()))
      ensures queued == if r.Success? then old(queued) + [Queued(content, notify)] else old(queued)
    {
      if |outbox| > outboxMaxlen {
        return Failure(OutboxOverflow);
      }
      var q := Queued(content, notify);
      outbox := outbox + [InflightMessage(Some(PipeRead(content)), notify)];
      queued := queued + [q];
      QueueGrows(old(queued), q, finished);
      if pendingMessageFd.Some? {
        QueueGrows(old(queued), q, finished + 1);
      }
      r := Success(());
    }

    /** The match on a missing pipe panics in the source; here it cannot be reached. */
    method BeginNextMessage()
      requires Valid() && pendingMessageFd.None?
      modifies this`outbox, this`pendingMessageFd
      ensures Valid() && |outbox| == |old(outbox)|
      ensures pendingMessageFd.Some? <==> outbox != []
      ensures Unread() == old(Unread()) && Unsent() == old(Unsent())
    {
      if |outbox| == 0 {
        return;
      }
      assert queued[finished..][1..] == queued[finished + 1..];
      pendingMessageFd := outbox[0].pipeRead;
      outbox := outbox[0 := InflightMessage(None, outbox[0].notify)];
      assert [] + pendingMessageFd.value.rest == pendingMessageFd.value.rest;
    }

    /** Only reached when every byte of the message is on the socket. */
    method FinishMessage()
      requires Valid() && pendingMessageFd == Some(PipeRead([])) && socketOutPtr == |socketOutBuf|
      modifies this`outbox, this`inflight, this`pendingMessageFd, this`socketOutBuf, this`socketOutPtr, this`finished,
                 this`launched
      ensures Valid() && pendingMessageFd.None? && finished == old(finished) + 1
      ensures Unread() == old(Unread()) && Unsent() == old(Unsent()) && |outbox| < |old(outbox)|
      ensures var n := queued[old(finished)].notify;
              var added := if n.Some? then [n.value] else [];
              inflight == old(inflight) + added && launched == old(launched) + added
    {
      hide Contents, Notifies, Waiting;
      var message := outbox[0];
      outbox := outbox[1..];
      OneMore(queued, finished);
      if message.notify.Some? {
        inflight := inflight + [message.notify.value];
        launched := launched + [message.notify.value];
      }
      assert socketOutBuf + [] == queued[finished].content;
      assert socketOutBuf[..socketOutPtr] == socketOutBuf;
      pendingMessageFd := None;
      socketOutBuf := [];
      socketOutPtr := 0;
      finished := finished + 1;
      assert wire + [] == wire;
    }

    /** Read from the pipe of the message at the head of the queue. */
    method ReadMessage() returns (o: ReadOutcome)
      requires Valid() && pendingMessageFd.Some?
      modifies this`pendingMessageFd, this`socketOutBuf, this`stalls
      ensures Valid() && pendingMessageFd.Some?
      ensures stalls == old(stalls) + ReadStall(o)
      ensures o.Data? || o.Eof? ==> stalls == old(stalls)
      ensures o.PipeBlocked? ==> stalls == old(stalls) + [WouldBlock]
      ensures o.PipeFailed? ==> stalls == old(stalls) + [Fault(o.error)]
      ensures Unread() <= old(Unread()) && Unsent() == old(Unsent())
      ensures o.Data? ==> Unread() < old(Unread())
      ensures o.Eof? ==> pendingMessageFd == Some(PipeRead([]))
      ensures o.PipeFailed? ==> o.error in {ReadError, WriteError}
    {
      var fd;
      o, fd := ReadPipe(pendingMessageFd.value);
      if o.Data? {
        assert socketOutBuf + (o.bytes + fd.rest) == socketOutBuf + o.bytes + fd.rest;
        assert (socketOutBuf + o.bytes)[..socketOutPtr] == socketOutBuf[..socketOutPtr];
        socketOutBuf := socketOutBuf + o.bytes;
        pendingMessageFd := Some(fd);
      }
      stalls := stalls + ReadStall(o);
    }

    /** Offer the buffered bytes to the socket. */
    method WriteBuffered() returns (o: WriteOutcome)
      requires Valid() && pendingMessageFd.Some? && socketOutPtr < |socketOutBuf|
      modifies this`socketOutPtr, this`wire, this`stalls
      ensures Valid() && Unread() == old(Unread())
      ensures stalls == old(stalls) + WriteStall(o)
      ensures o.Wrote? ==> stalls == old(stalls) + if o.n == 0 then [HungUp] else []
      ensures o.SocketBlocked? ==> stalls == old(stalls) + [WouldBlock]
      ensures o.SocketFailed? ==> stalls == old(stalls) + [Fault(SendError)]
      ensures var n := if o.Wrote? then o.n else 0;
              && socketOutPtr == old(socketOutPtr) + n <= |socketOutBuf|
              && wire == old(wire) + socketOutBuf[old(socketOutPtr)..socketOutPtr]
              && Unsent() == old(Unsent()) - n
    {
      hide Contents, Notifies, Waiting;
      o := WriteSocket(socketOutBuf[socketOutPtr..]);
      if o.Wrote? {
        var ptr := socketOutPtr + o.n;
        assert socketOutBuf[..ptr] == socketOutBuf[..socketOutPtr] + socketOutBuf[socketOutPtr..ptr];
        wire := wire + socketOutBuf[socketOutPtr..ptr];
        socketOutPtr := ptr;
      }
      stalls := stalls + WriteStall(o);
    }

    /** Since the given moment the socket took `n` bytes more, and `launched` grew into `inflight`. */
    ghost predicate Since(wire0: seq<u8>, launched0: seq<Notify>, inflight0: seq<Notify>, n: nat)
      reads this`wire, this`launched, this`inflight
    {
      && wire0 <= wire && |wire| == |wire0| + n
      && launched0 <= launched && inflight == inflight0 + launched[|launched0|..]
    }

    lemma PointerInBuffer()
      requires Valid()
      ensures socketOutPtr <= |socketOutBuf|
    {
    }

    /** The write half of a round: send as many of the pending bytes as the socket takes. */
    method WritePending(ghost wire0: seq<u8>, ghost launched0: seq<Notify>, ghost inflight0: seq<Notify>,
                        totalSent: nat)
      returns (failure: Option<Error>, n: nat, blocked: bool, disconnected: bool, ghost met: seq<Stall>)
      requires Valid() && pendingMessageFd.Some? && Since(wire0, launched0, inflight0, totalSent)
      modifies this`socketOutPtr, this`wire, this`stalls
      ensures Valid() && Since(wire0, launched0, inflight0, totalSent + n)
      ensures stalls == old(stalls) + met && Stalled(met, failure, blocked, disconnected)
      ensures Unread() == old(Unread()) && Unsent() == old(Unsent()) - n
      ensures failure.None? && !blocked && !disconnected && n == 0 ==> socketOutPtr >= |socketOutBuf|
    {
      hide Valid, Unread, Unsent;
      failure, n, blocked, disconnected, met := None, 0, false, false, [];
      if socketOutPtr < |socketOutBuf| {
        var w := WriteBuffered();
        met := WriteStall(w);
        match w {
          case Wrote(count) =>
            n := count;
            disconnected := count == 0;
          case SocketBlocked => blocked := true;
          case SocketFailed => failure := Some(SendError);
        }
      }
    }

    /** One round of the loop of `send_bytes`, with a message at hand. */
    method SendRound(ghost wire0: seq<u8>, ghost launched0: seq<Notify>, ghost inflight0: seq<Notify>, totalSent: nat)
      returns (failure: Option<Error>, n: nat, blocked: bool, disconnected: bool, ghost met: seq<Stall>)
      requires Valid() && pendingMessageFd.Some? && Since(wire0, launched0, inflight0, totalSent)
      modifies this`outbox, this`inflight, this`pendingMessageFd, this`socketOutBuf, this`socketOutPtr
      modifies this`finished, this`launched, this`wire, this`stalls
      ensures Valid() && Since(wire0, launched0, inflight0, totalSent + n)
      ensures stalls == old(stalls) + met && Stalled(met, failure, blocked, disconnected)
      ensures || failure.Some? || blocked || disconnected
              || Unread() < old(Unread())
              || (Unread() == old(Unread()) && Unsent() < old(Unsent()))
              || (Unread() == old(Unread()) && Unsent() == old(Unsent()) && |outbox| < |old(outbox)|)
    {
      hide Valid, Unread, Unsent, Stalled, ReadStall, WriteStall;
      failure, n, blocked, disconnected := None, 0, false, false;
      var messageEof := false;
      var o := ReadMessage();
      met := ReadStall(o);
      ReadStalled(o);
      match o {
        case Data(_) =>
        case PipeBlocked => blocked := true;
        case Eof => messageEof := true;
        case PipeFailed(e) => return Some(e), 0, blocked, disconnected, met;
      }
      var writeBlocked;
      ghost var writeMet;
      failure, n, writeBlocked, disconnected, writeMet := WritePending(wire0, launched0, inflight0, totalSent);
      StalledBoth(met, blocked, writeMet, failure, writeBlocked, disconnected);
      blocked, met := blocked || writeBlocked, met + writeMet;
      PointerInBuffer();
      if failure.None? && messageEof && socketOutPtr >= |socketOutBuf| {
        FinishMessage();
      }
    }

    /** With nothing left in the outbox, everything queued is on the socket and in flight. */
    lemma Drained()
      requires Valid() && outbox == []
      ensures wire == Contents(queued) && launched == Notifies(queued) && finished == |queued|
    {
      assert queued[..finished] == queued;
      assert socketOutBuf[..0] == [];
    }

    /**
      Write queued messages to the socket, until nothing is left or something stalls.
      The result follows from the stalls and the bytes written.
     */
    method SendBytes() returns (r: Result<nat, Error>)
      requires Valid()
      modifies this`outbox, this`inflight, this`pendingMessageFd, this`socketOutBuf, this`socketOutPtr
      modifies this`finished, this`launched, this`wire, this`stalls
      ensures Valid() && |old(wire)| <= |wire| && Since(old(wire), old(launched), old(inflight), |wire| - |old(wire)|)
      ensures old(stalls) <= stalls && r == SendResult(stalls[|old(stalls)|..], |wire| - |old(wire)|)
      ensures stalls == old(stalls) ==> outbox == [] && wire == Contents(queued) && launched == Notifies(queued)
      ensures r.Success? ==> r.value == |wire| - |old(wire)|
      ensures stalls != old(stalls) && stalls[|stalls| - 1].Fault? ==> r == Failure(stalls[|stalls| - 1].error)
      ensures stalls == old(stalls) || !stalls[|stalls| - 1].Fault? ==>
                var met := stalls[|old(stalls)|..];
                r.Failure? <==> wire == old(wire) && HungUp in met && WouldBlock !in met
      ensures r.Failure? && !stalls[|stalls| - 1].Fault? ==> r.error == PeerNotConnected
    {
      hide Valid, Unread, Unsent;
      var totalSent, blocked, disconnected := 0, false, false;
      ghost var met: seq<Stall> := [];
      while !blocked && !disconnected
        invariant Valid() && Since(old(wire), old(launched), old(inflight), totalSent)
        invariant stalls == old(stalls) + met && Stalled(met, None, blocked, disconnected)
        decreases !blocked && !disconnected, Unread(), Unsent(), |outbox|
      {
        LeftBounds();
        if pendingMessageFd.None? {
          BeginNextMessage();
        }
        if pendingMessageFd.None? {
          Drained();
          break;
        }
        var failure, n;
        failure, n, blocked, disconnected, met := SendRound(old(wire), old(launched), old(inflight), totalSent);
        totalSent := totalSent + n;
        if failure.Some? {
          return Failure(failure.value);
        }
      }
      if totalSent == 0 && disconnected && !blocked {
        return Failure(PeerNotConnected);
      }
      r := Success(totalSent);
    }
  }

  /** What a round made of the stalls that it met. */
  ghost predicate Stalled(stalls: seq<Stall>, failure: Option<Error>, blocked: bool, disconnected: bool)
  {
    if failure.Some? then stalls != [] && stalls[|stalls| - 1] == Fault(failure.value)
    else
      && (forall s :: s in stalls ==> !s.Fault?)
      && (blocked <==> WouldBlock in stalls) && (disconnected <==> HungUp in stalls)
      && (!blocked && !disconnected ==> stalls == [])
  }

  lemma ReadStalled(o: ReadOutcome)
    ensures Stalled(ReadStall(o), if o.PipeFailed? then Some(o.error) else None, o.PipeBlocked?, false)
  {
  }

  lemma StalledBoth(a: seq<Stall>, blocked: bool, b: seq<Stall>, failure: Option<Error>, alsoBlocked: bool,
                    disconnected: bool)
    requires Stalled(a, None, blocked, false) && Stalled(b, failure, alsoBlocked, disconnected)
    ensures Stalled(a + b, failure, blocked || alsoBlocked, disconnected)
  {
  }
}
