/**
  Relaying signed messages (sign_relay in src/net/codec.rs) and the checks of the
  receiver (src/net/chat.rs).
 */
module Relays {

  import opened Results
  import opened Wire
  import opened Messages
  import opened StacksP2P

  /** The last `n` elements, or all of them. */
  function LastFew<T>(s: seq<T>, n: nat): (r: seq<T>)
    ensures |r| <= n && |r| <= |s|
  {
    if |s| <= n then s else s[|s| - n..]
  }

  datatype Hop = Hop(signer: Signer, seqno: u32, addr: NeighborAddress)

  predicate Mentions(relayers: seq<RelayData>, keyHash: Bytes20)
  {
    exists i :: 0 <= i < |relayers| && relayers[i].peer.publicKeyHash == keyHash
  }

  /** A message with room for one more relayer. */
  function MakeRoom(m: StacksMessage): (r: StacksMessage)
  {
    m.(relayers := LastFew(m.relayers, MAX_RELAYERS_LEN - 1))
  }

  /** The message as `hop` passes it on. */
  function PassedOn(m: StacksMessage, hop: Hop): (r: StacksMessage)
  {
    var relay := RelayData(hop.addr, m.preamble.seqno);
    DoSign(m.(relayers := m.relayers + [relay], preamble := m.preamble.(seqno := hop.seqno)), hop.signer)
  }

  /** Whose records are looked at, and what is passed on. */
  lemma PassedOnIs(m: StacksMessage, hop: Hop)
    ensures Mentions(MakeRoom(m).relayers, hop.addr.publicKeyHash) <==>
              exists i :: 0 <= i < |m.relayers| && |m.relayers| - i < 16
                && m.relayers[i].peer.publicKeyHash == hop.addr.publicKeyHash
    ensures var k := if |m.relayers| < 16 then 0 else |m.relayers| - 15;
            var r := PassedOn(MakeRoom(m), hop);
            && r.relayers == m.relayers[k..] + [RelayData(hop.addr, m.preamble.seqno)]
            && r.payload == m.payload && r.preamble.seqno == hop.seqno
  {
    hide SignedBytes, Body;
    var k := if |m.relayers| < 16 then 0 else |m.relayers| - 15;
    var recent := MakeRoom(m).relayers;
    assert recent == m.relayers[k..];
    if i :| 0 <= i < |m.relayers| && |m.relayers| - i < 16
            && m.relayers[i].peer.publicKeyHash == hop.addr.publicKeyHash {
      assert recent[i - k] == m.relayers[i];
    }
  }

  /** `sign_relay`; on failure the oldest relayers may already be gone. */
  method SignRelay(m: StacksMessage, hop: Hop) returns (r: Result<(), Error>, after: StacksMessage)
    ensures r == if Mentions(MakeRoom(m).relayers, hop.addr.publicKeyHash) then Failure(InvalidMessage) else Success(())
    ensures after == if r.Success? then PassedOn(MakeRoom(m), hop) else MakeRoom(m)
    ensures r.Failure? <==> exists i :: 0 <= i < |m.relayers| && |m.relayers| - i < 16
                              && m.relayers[i].peer.publicKeyHash == hop.addr.publicKeyHash
    ensures r.Success? ==>
              var k := if |m.relayers| < 16 then 0 else |m.relayers| - 15;
              && after.relayers == m.relayers[k..] + [RelayData(hop.addr, m.preamble.seqno)]
              && after.payload == m.payload && after.preamble.seqno == hop.seqno
  {
    hide DoSign, Body, SignedBytes;
    var relayers := m.relayers;
    while |relayers| >= MAX_RELAYERS_LEN
      invariant |relayers| <= |m.relayers| && relayers == m.relayers[|m.relayers| - |relayers|..]
      invariant |relayers| >= MAX_RELAYERS_LEN - 1 || relayers == m.relayers
    {
      relayers := relayers[1..];
    }
    assert relayers == LastFew(m.relayers, MAX_RELAYERS_LEN - 1);
    after := m.(relayers := relayers);
    for i := 0 to |relayers|
      invariant forall k :: 0 <= k < i ==> relayers[k].peer.publicKeyHash != hop.addr.publicKeyHash
    {
      if relayers[i].peer.publicKeyHash == hop.addr.publicKeyHash {
        PassedOnIs(m, hop);
        return Failure(InvalidMessage), after;
      }
    }
    var ourRelay := RelayData(hop.addr, after.preamble.seqno);
    after := after.(relayers := relayers + [ourRelay]);
    after := after.(preamble := after.preamble.(seqno := hop.seqno));
    after := DoSign(after, hop.signer);
    PassedOnIs(m, hop);
    r := Success(());
  }

  // ---------------------------------------------------------------- paths

  /** The message after all hops have relayed it, if none refused. */
  function RelayAlong(m: StacksMessage, hops: seq<Hop>): (r: Option<StacksMessage>)
  {
    if hops == [] then Some(m)
    else
      match RelayAlong(m, hops[..|hops| - 1])
      case None => None
      case Some(before) =>
        var roomy, hop := MakeRoom(before), hops[|hops| - 1];
        if Mentions(roomy.relayers, hop.addr.publicKeyHash) then None else Some(PassedOn(roomy, hop))
  }

  /** What each hop records: itself, and the sequence number of the one before it. */
  function Records(seqno: u32, hops: seq<Hop>): (r: seq<RelayData>)
    ensures |r| == |hops|
  {
    if hops == [] then []
    else
      var n := |hops| - 1;
      Records(seqno, hops[..n]) + [RelayData(hops[n].addr, if n == 0 then seqno else hops[n - 1].seqno)]
  }

  lemma {:induction false} RecordAt(seqno: u32, hops: seq<Hop>, i: nat)
    requires i < |hops|
    ensures Records(seqno, hops)[i] == RelayData(hops[i].addr, if i == 0 then seqno else hops[i - 1].seqno)
  {
    if i < |hops| - 1 {
      RecordAt(seqno, hops[..|hops| - 1], i);
    }
  }

  /** Nobody relays the message again within fifteen hops. */
  ghost predicate NoQuickReturn(hops: seq<Hop>)
  {
    forall i, j :: 0 <= i < j < |hops| && j - i < MAX_RELAYERS_LEN ==>
          hops[i].addr.publicKeyHash != hops[j].addr.publicKeyHash
  }

  /** The state of a message on its way. */
  ghost predicate OnItsWay(m: StacksMessage, hops: seq<Hop>, now: StacksMessage)
  {
    && now.relayers == LastFew(Records(m.preamble.seqno, hops), MAX_RELAYERS_LEN)
    && now.payload == m.payload
    && now.preamble.seqno == (if hops == [] then m.preamble.seqno else hops[|hops| - 1].seqno)
  }

  lemma LastFewTwice<T>(s: seq<T>, x: T, n: nat)
    ensures LastFew(LastFew(s, n + 1), n) == LastFew(s, n)
    ensures LastFew(s, n) + [x] == LastFew(s + [x], n + 1)
  {
  }

  lemma MentionsRecent(hops: seq<Hop>, seqno: u32, keyHash: Bytes20)
    ensures Mentions(LastFew(Records(seqno, hops), MAX_RELAYERS_LEN - 1), keyHash) <==>
              exists i :: 0 <= i < |hops| && |hops| - i < MAX_RELAYERS_LEN && hops[i].addr.publicKeyHash == keyHash
  {
    hide Records;
    var recent := LastFew(Records(seqno, hops), MAX_RELAYERS_LEN - 1);
    var skipped := |hops| - |recent|;
    forall k | 0 <= k < |recent|
      ensures recent[k].peer == hops[skipped + k].addr
    {
      RecordAt(seqno, hops, skipped + k);
    }
    if i :| 0 <= i < |hops| && |hops| - i < MAX_RELAYERS_LEN && hops[i].addr.publicKeyHash == keyHash {
      assert recent[i - skipped].peer.publicKeyHash == keyHash;
    }
  }

  lemma RecordsAppend(seqno: u32, hops: seq<Hop>, hop: Hop)
    ensures Records(seqno, hops + [hop])
         == Records(seqno, hops) + [RelayData(hop.addr, if hops == [] then seqno else hops[|hops| - 1].seqno)]
  {
    assert (hops + [hop])[..|hops|] == hops;
  }

  lemma QuickReturnAppend(hops: seq<Hop>, hop: Hop)
    ensures NoQuickReturn(hops + [hop]) <==>
              && NoQuickReturn(hops)
              && !exists i ::
                    && 0 <= i < |hops| && |hops| - i < MAX_RELAYERS_LEN
                    && hops[i].addr.publicKeyHash == hop.addr.publicKeyHash
  {
    var all := hops + [hop];
    if NoQuickReturn(all) {
      forall i, j | 0 <= i < j < |hops| && j - i < MAX_RELAYERS_LEN
        ensures hops[i].addr.publicKeyHash != hops[j].addr.publicKeyHash
      {
        assert all[i] == hops[i] && all[j] == hops[j];
      }
      forall i | 0 <= i < |hops| && |hops| - i < MAX_RELAYERS_LEN
        ensures hops[i].addr.publicKeyHash != hop.addr.publicKeyHash
      {
        assert all[i] == hops[i] && all[|hops|] == hop;
      }
    }
  }

  /**
    A message from its author gets along a path of relayers exactly when none of them
    sees it again within fifteen hops.  It then lists the last sixteen relayers, each
    with the sequence number under which it had received the message.
   */
  lemma {:induction false} PathIff(m: StacksMessage, hops: seq<Hop>)
    requires m.relayers == []
    ensures RelayAlong(m, hops).Some? <==> NoQuickReturn(hops)
    ensures RelayAlong(m, hops).Some? ==> OnItsWay(m, hops, RelayAlong(m, hops).value)
  {
    hide NoQuickReturn, OnItsWay, PassedOn, MakeRoom, Mentions;
    if hops == [] {
      AtStart(m);
    } else {
      var n := |hops| - 1;
      var front, hop := hops[..n], hops[n];
      assert hops == front + [hop];
      PathIff(m, front);
      QuickReturnAppend(front, hop);
      var before := RelayAlong(m, front);
      if before.Some? {
        HopStep(m, front, hop, before.value);
      }
    }
  }

  /** The same in numbers: sixteen records at most, and who refuses. */
  lemma PathSpelled(m: StacksMessage, hops: seq<Hop>, k: nat)
    requires m.relayers == []
    ensures RelayAlong(m, hops).Some? <==>
              forall i, j :: 0 <= i < j < |hops| && j - i <= 15 ==>
                hops[i].addr.publicKeyHash != hops[j].addr.publicKeyHash
    ensures RelayAlong(m, hops).Some? ==>
              var relayers := RelayAlong(m, hops).value.relayers;
              && |relayers| == (if |hops| <= 16 then |hops| else 16)
              && (k < |relayers| ==>
                    var i := |hops| - |relayers| + k;
                    relayers[k] == RelayData(hops[i].addr, if i == 0 then m.preamble.seqno else hops[i - 1].seqno))
  {
    hide RelayAlong, Records;
    PathIff(m, hops);
    if RelayAlong(m, hops).Some? {
      var relayers := RelayAlong(m, hops).value.relayers;
      if k < |relayers| {
        RecordAt(m.preamble.seqno, hops, |hops| - |relayers| + k);
      }
    }
  }

  lemma AtStart(m: StacksMessage)
    requires m.relayers == []
    ensures NoQuickReturn([]) && OnItsWay(m, [], m)
  {
  }

  lemma HopStep(m: StacksMessage, front: seq<Hop>, hop: Hop, before: StacksMessage)
    requires OnItsWay(m, front, before)
    ensures Mentions(MakeRoom(before).relayers, hop.addr.publicKeyHash) <==>
              exists i :: 0 <= i < |front| && |front| - i < MAX_RELAYERS_LEN
                  && front[i].addr.publicKeyHash == hop.addr.publicKeyHash
    ensures OnItsWay(m, front + [hop], PassedOn(MakeRoom(before), hop))
  {
    hide Records, LastFew, Mentions, Body, SignedBytes;
    var records := Records(m.preamble.seqno, front);
    RecordsAppend(m.preamble.seqno, front, hop);
    LastFewTwice(records, RelayData(hop.addr, before.preamble.seqno), MAX_RELAYERS_LEN - 1);
    MentionsRecent(front, m.preamble.seqno, hop.addr.publicKeyHash);
  }

  // ---------------------------------------------------------------- the receiver

  /** No two relayers with one key. */
  ghost predicate NoCycle(relayers: seq<RelayData>)
  {
    forall i, j :: 0 <= i < j < |relayers| ==> relayers[i].peer.publicKeyHash != relayers[j].peer.publicKeyHash
  }

  /** `check_relayer_cycles` */
  method CheckRelayerCycles(relayers: seq<RelayData>) returns (r: bool)
    ensures r <==> NoCycle(relayers)
    ensures !r <==> exists i, j :: 0 <= i < j < |relayers|
                      && relayers[i].peer.publicKeyHash == relayers[j].peer.publicKeyHash
  {
    var addrs: set<Bytes20> := {};
    for i := 0 to |relayers|
      invariant forall k :: k in addrs <==> exists j :: 0 <= j < i && relayers[j].peer.publicKeyHash == k
      invariant NoCycle(relayers[..i])
    {
      var keyHash := relayers[i].peer.publicKeyHash;
      if keyHash in addrs {
        return false;
      }
      addrs := addrs + {keyHash};
      assert relayers[..i + 1] == relayers[..i] + [relayers[i]];
    }
    assert relayers[..|relayers|] == relayers;
    return true;
  }

  /** `check_relayers_remote`: the message does not list our own address. */
  method CheckRelayersRemote(local: NeighborAddress, relayers: seq<RelayData>) returns (r: bool)
    ensures r <==> forall i :: 0 <= i < |relayers| ==> relayers[i].peer != local
  {
    for i := 0 to |relayers|
      invariant forall k :: 0 <= k < i ==> relayers[k].peer != local
    {
      if relayers[i].peer == local {
        return false;
      }
    }
    return true;
  }

  /** Whatever an honest path delivers passes the check for cycles. */
  lemma PathHasNoCycle(m: StacksMessage, hops: seq<Hop>)
    requires m.relayers == [] && RelayAlong(m, hops).Some?
    ensures NoCycle(RelayAlong(m, hops).value.relayers)
  {
    hide RelayAlong, Records, OnItsWay;
    var relayers := RelayAlong(m, hops).value.relayers;
    forall i, j | 0 <= i < j < |relayers|
      ensures relayers[i].peer.publicKeyHash != relayers[j].peer.publicKeyHash
    {
      PathSpelled(m, hops, i);
      PathSpelled(m, hops, j);
    }
  }

  /** A relayed message is a frame of the last relayer: its neighbour reads it back as it was sent. */
  lemma RelayedIsFramed(env: Env, m: StacksMessage, hop: Hop)
    requires Honest(env, hop.signer) && WellFormedPayload(env, m.payload)
    requires m.preamble.burnStableBlockHeight < m.preamble.burnBlockHeight
    requires |Body(PassedOn(MakeRoom(m), hop))| < MAX_MESSAGE_LEN
    ensures Framed(env, Some(hop.signer.key), PassedOn(MakeRoom(m), hop))
  {
    var roomy := MakeRoom(m);
    var relay := RelayData(hop.addr, m.preamble.seqno);
    var unsigned := roomy.(relayers := roomy.relayers + [relay], preamble := m.preamble.(seqno := hop.seqno));
    SignedIsFramed(env, unsigned, hop.signer);
  }
}
