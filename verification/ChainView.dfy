/**
  What a conversation knows of its peer's view of the burnchain
  (ConversationP2P in src/net/chat.rs).
 */
module ChainView {

  import opened Numerals
  import opened Results
  import opened Wire
  import opened Messages
  import opened Outbox
  import opened Routing

  datatype RemoteView = RemoteView(tipHeight: u64, tipHash: Bytes32, stableHeight: u64, stableHash: Bytes32)

  function NoView(): (v: RemoteView)
  {
    RemoteView(0, Zeros(32), 0, Zeros(32))
  }

  /**
    A message from the inbox, and what its handlers make of it: whether they learn the
    peer's public key, consume the message, or fail.
   */
  datatype Inbound = Inbound(
    preamble: Preamble, learnsKey: bool, consumed: bool, handlerFails: bool, dataHandlerFails: bool)

  /** What the connection knows: whether it has the peer's key, and which requests are in flight. */
  datatype Side = Side(hasKey: bool, inflight: seq<Notify>)

  /** The message answers a request in flight. */
  predicate Solicited(side: Side, msg: Inbound)
  {
    FirstWaiting(side.inflight, msg.preamble.seqno) < |side.inflight|
  }

  /** The message was authenticated, or we asked for it. */
  predicate Counts(side: Side, msg: Inbound)
  {
    side.hasKey || Solicited(side, msg)
  }

  /** A message that nobody waits for goes to the data handlers, unless it was consumed. */
  predicate GoesOn(side: Side, msg: Inbound)
  {
    Solicited(side, msg) || msg.consumed || !msg.dataHandlerFails
  }

  /** The connection after the message: the oldest request that expects it is answered. */
  function After(side: Side, msg: Inbound): (r: Side)
  {
    var i := FirstWaiting(side.inflight, msg.preamble.seqno);
    Side(side.hasKey || msg.learnsKey, if i < |side.inflight| then Without(side.inflight, i) else side.inflight)
  }

  /** What we hold a peer to: network, version, confirmations, and our own burnchain hashes by height. */
  datatype Rules = Rules(networkId: u32, version: u32, confirmations: u32, hashes: map<u64, Bytes32>)

  predicate PreambleValid(p: Preamble, rules: Rules)
  {
    && p.networkId == rules.networkId
    && p.peerVersion / 0x100_0000 == rules.version / 0x100_0000
    && p.burnStableBlockHeight + rules.confirmations == p.burnBlockHeight
    && (p.burnStableBlockHeight in rules.hashes ==> rules.hashes[p.burnStableBlockHeight] == p.burnStableBlockHash)
  }

  /** The message is valid and its first handler accepts it. */
  predicate Handled(msg: Inbound, rules: Rules)
  {
    PreambleValid(msg.preamble, rules) && !msg.handlerFails
  }

  /** What a message leaves behind: a key is installed by the handler, even one that fails later. */
  function Left(side: Side, msg: Inbound, rules: Rules): (r: Side)
  {
    if !PreambleValid(msg.preamble, rules) then side
    else if msg.handlerFails then side.(hasKey := side.hasKey || msg.learnsKey)
    else After(side, msg)
  }

  /** What a run over the inbox leaves behind, up to the message that ends it. */
  ghost function LeftAfter(inbox: seq<Inbound>, rules: Rules, side: Side): (r: Side)
  {
    if inbox == [] then side
    else
      var next := Left(side, inbox[0], rules);
      if Handled(inbox[0], rules) && GoesOn(side, inbox[0]) then LeftAfter(inbox[1..], rules, next) else next
  }

  /** The preambles that count, up to the message that ends the conversation. */
  ghost function Counted(inbox: seq<Inbound>, rules: Rules, side: Side): (ps: seq<Preamble>)
  {
    if inbox == [] || !Handled(inbox[0], rules) then []
    else
      (if Counts(side, inbox[0]) then [inbox[0].preamble] else [])
      + if GoesOn(side, inbox[0]) then Counted(inbox[1..], rules, After(side, inbox[0])) else []
  }

  /** Every message gets through. */
  ghost predicate AllWell(inbox: seq<Inbound>, rules: Rules, side: Side)
  {
    inbox != [] ==>
      Handled(inbox[0], rules) && GoesOn(side, inbox[0]) && AllWell(inbox[1..], rules, After(side, inbox[0]))
  }

  lemma NoMessages(rules: Rules, side: Side)
    ensures Counted([], rules, side) == [] && AllWell([], rules, side) && LeftAfter([], rules, side) == side
  {
  }

  lemma ChatStep(before: seq<Preamble>, inbox: seq<Inbound>, n: nat, rules: Rules, side: Side)
    requires n < |inbox|
    ensures var msg := inbox[n];
            var own := if Handled(msg, rules) && Counts(side, msg) then [msg.preamble] else [];
            var goesOn := Handled(msg, rules) && GoesOn(side, msg);
            var later := if goesOn then Counted(inbox[n + 1..], rules, After(side, msg)) else [];
            && before + Counted(inbox[n..], rules, side) == before + own + later
            && (AllWell(inbox[n..], rules, side) <==> goesOn && AllWell(inbox[n + 1..], rules, After(side, msg)))
            && LeftAfter(inbox[n..], rules, side)
               == (if goesOn then LeftAfter(inbox[n + 1..], rules, After(side, msg)) else Left(side, msg, rules))
  {
    hide PreambleValid, Counts, GoesOn, After;
    var msg, rest := inbox[n], inbox[n..];
    assert rest[0] == msg && rest[1..] == inbox[n + 1..];
    var own := if Handled(msg, rules) && Counts(side, msg) then [msg.preamble] else [];
    var goesOn := Handled(msg, rules) && GoesOn(side, msg);
    var later := if goesOn then Counted(inbox[n + 1..], rules, After(side, msg)) else [];
    assert Counted(rest, rules, side) == own + later;
    Regroup(before, own, later);
  }

  /** Only messages of our network and version, with heights and hash as we know them, ever count. */
  lemma {:induction false} CountedAreValid(inbox: seq<Inbound>, rules: Rules, side: Side, p: Preamble)
    requires p in Counted(inbox, rules, side)
    ensures exists i :: 0 <= i < |inbox| && inbox[i].preamble == p && !inbox[i].handlerFails
    ensures p.networkId == rules.networkId && p.peerVersion / 0x100_0000 == rules.version / 0x100_0000
    ensures p.burnBlockHeight == p.burnStableBlockHeight + rules.confirmations
    ensures p.burnStableBlockHeight in rules.hashes ==>
              rules.hashes[p.burnStableBlockHeight] == p.burnStableBlockHash
  {
    if inbox[0].preamble != p || !Counts(side, inbox[0]) {
      CountedAreValid(inbox[1..], rules, After(side, inbox[0]), p);
      var i :| 0 <= i < |inbox[1..]| && inbox[1..][i].preamble == p && !inbox[1..][i].handlerFails;
      assert inbox[i + 1] == inbox[1..][i];
    }
  }

  /** A peer that never authenticates itself, and that we asked nothing, does not move our view of it. */
  lemma {:induction false} StrangersDoNotCount(inbox: seq<Inbound>, rules: Rules, side: Side)
    requires !side.hasKey && side.inflight == []
    requires forall i :: 0 <= i < |inbox| ==> !inbox[i].learnsKey
    ensures Counted(inbox, rules, side) == []
  {
    if inbox != [] {
      StrangersDoNotCount(inbox[1..], rules, After(side, inbox[0]));
    }
  }

  /** Every message of an authenticated peer counts, if all get through. */
  lemma {:induction false} FriendsCount(inbox: seq<Inbound>, rules: Rules, side: Side)
    requires side.hasKey && AllWell(inbox, rules, side)
    ensures Counted(inbox, rules, side) == seq(|inbox|, i requires 0 <= i < |inbox| => inbox[i].preamble)
  {
    if inbox != [] {
      FriendsCount(inbox[1..], rules, After(side, inbox[0]));
    }
  }

  /** The view after the given preambles, in order: either half moves up when a message is higher. */
  ghost function ViewOf(ps: seq<Preamble>): (v: RemoteView)
  {
    if ps == [] then NoView() else Updated(ViewOf(ps[..|ps| - 1]), ps[|ps| - 1])
  }

  function Updated(v: RemoteView, p: Preamble): (r: RemoteView)
  {
    var tip := p.burnBlockHeight > v.tipHeight;
    var stable := p.burnStableBlockHeight > v.stableHeight;
    RemoteView(
      if tip then p.burnBlockHeight else v.tipHeight,
      if tip then p.burnBlockHash else v.tipHash,
      if stable then p.burnStableBlockHeight else v.stableHeight,
      if stable then p.burnStableBlockHash else v.stableHash)
  }

  /** `i` is the first of the highest messages. */
  ghost predicate FirstHighest(ps: seq<Preamble>, i: nat)
  {
    && i < |ps|
    && (forall k :: 0 <= k < |ps| ==> ps[k].burnBlockHeight <= ps[i].burnBlockHeight)
    && (forall k :: 0 <= k < i ==> ps[k].burnBlockHeight < ps[i].burnBlockHeight)
  }

  /**
    As long as every message keeps its two heights `confirmations` apart, the two halves
    of the view, updated separately, always come from one message: the first of the
    highest ones.  A stable height of zero leaves the stable hash unset.
   */
  lemma {:induction false} ViewIsFirstHighest(ps: seq<Preamble>, confirmations: u32) returns (i: nat)
    requires forall k :: 0 <= k < |ps| ==> ps[k].burnStableBlockHeight + confirmations == ps[k].burnBlockHeight
    ensures ViewOf(ps).tipHeight == 0 ==> ViewOf(ps) == NoView() && forall k :: 0 <= k < |ps| ==>
              ps[k].burnBlockHeight == 0
    ensures ViewOf(ps).tipHeight > 0 ==>
              && FirstHighest(ps, i)
              && var p := ps[i];
                 var stableHash := if p.burnStableBlockHeight > 0 then p.burnStableBlockHash else Zeros(32);
                 ViewOf(ps) == RemoteView(p.burnBlockHeight, p.burnBlockHash, p.burnStableBlockHeight, stableHash)
    ensures var v := ViewOf(ps); v == NoView() || v.tipHeight == v.stableHeight + confirmations
  {
    i := 0;
    if ps != [] {
      var n := |ps| - 1;
      i := ViewIsFirstHighest(ps[..n], confirmations);
      if ps[n].burnBlockHeight > ViewOf(ps[..n]).tipHeight {
        i := n;
      }
    }
  }

  lemma {:induction false} ViewGrows(ps: seq<Preamble>, k: nat)
    requires k <= |ps|
    ensures ViewOf(ps[..k]).tipHeight <= ViewOf(ps).tipHeight && ViewOf(ps[..k]).stableHeight <= ViewOf(ps).stableHeight
  {
    if k < |ps| {
      assert ps[..|ps| - 1][..k] == ps[..k];
      ViewGrows(ps[..|ps| - 1], k);
    } else {
      assert ps[..k] == ps;
    }
  }

  class Conversation {
    const networkId: u32
    const version: u32
    const stableConfirmations: u32
    var view: RemoteView
    var hasPublicKey: bool
    var inflight: seq<Notify>

    ghost var accepted: seq<Preamble> // every message that counted, in order

    ghost predicate Valid()
      reads this
    {
      && view == ViewOf(accepted)
      && forall k :: 0 <= k < |accepted| ==>
           accepted[k].burnStableBlockHeight + stableConfirmations == accepted[k].burnBlockHeight
    }

    /** A new conversation knows no key; one registered with its key has it set at once. */
    constructor (networkId: u32, version: u32, stableConfirmations: u32)
      ensures Valid() && view == NoView() && accepted == [] && !hasPublicKey && inflight == []
      ensures this.networkId == networkId && this.version == version && this.stableConfirmations == stableConfirmations
    {
      this.networkId := networkId;
      this.version := version;
      this.stableConfirmations := stableConfirmations;
      view := NoView();
      hasPublicKey, inflight := false, [];
      accepted := [];
    }

    /** `set_public_key`, as when a peer is registered together with its key. */
    method SetPublicKey(known: bool)
      requires Valid()
      modifies this`hasPublicKey
      ensures Valid() && hasPublicKey == known
    {
      hasPublicKey := known;
    }

    /** The connection has sent a request and now waits for its reply. */
    method Launch(request: Notify)
      requires Valid()
      modifies this`inflight
      ensures Valid() && inflight == old(inflight) + [request]
    {
      inflight := inflight + [request];
    }

    ghost function Here(): (side: Side)
      reads this`hasPublicKey, this`inflight
    {
      Side(hasPublicKey, inflight)
    }

    ghost function OurRules(hashes: map<u64, Bytes32>): (rules: Rules)
    {
      Rules(networkId, version, stableConfirmations, hashes)
    }

    /** `is_preamble_valid`; the addition of the confirmations is checked for overflow. */
    method IsPreambleValid(p: Preamble, hashes: map<u64, Bytes32>) returns (r: bool)
      ensures r <==> PreambleValid(p, OurRules(hashes))
      ensures r <==>
                && p.networkId == networkId && p.peerVersion / 0x100_0000 == version / 0x100_0000
                && p.burnBlockHeight == p.burnStableBlockHeight + stableConfirmations
                && (p.burnStableBlockHeight !in hashes
                    || hashes[p.burnStableBlockHeight] == p.burnStableBlockHash)
    {
      if p.networkId != networkId {
        return false;
      }
      if p.peerVersion - p.peerVersion % 0x100_0000 != version - version % 0x100_0000 {
        return false;
      }
      var sum: Option<nat> :=
        if p.burnStableBlockHeight + stableConfirmations < 0x1_0000_0000_0000_0000
        then Some(p.burnStableBlockHeight + stableConfirmations) else None;
      if sum != Some(p.burnBlockHeight) {
        return false;
      }
      if p.burnStableBlockHeight in hashes && hashes[p.burnStableBlockHeight] != p.burnStableBlockHash {
        return false;
      }
      return true;
    }

    /** One message of the inbox; says whether the loop goes on. */
    method HandleMessage(msg: Inbound, hashes: map<u64, Bytes32>) returns (ok: bool)
      requires Valid()
      modifies this
      ensures Valid() && (ok <==> Handled(msg, OurRules(hashes)) && GoesOn(old(Here()), msg))
      ensures var own := Handled(msg, OurRules(hashes)) && Counts(old(Here()), msg);
              accepted == old(accepted) + if own then [msg.preamble] else []
      ensures Here() == Left(old(Here()), msg, OurRules(hashes))
      ensures var valid := PreambleValid(msg.preamble, OurRules(hashes));
              var asked := exists i :: 0 <= i < |old(inflight)| && old(inflight)[i].expectedSeq == msg.preamble.seqno;
              var counts := valid && !msg.handlerFails && (old(hasPublicKey) || asked);
              && accepted == old(accepted) + (if counts then [msg.preamble] else [])
              && (ok <==> valid && !msg.handlerFails && (asked || msg.consumed || !msg.dataHandlerFails))
              && (hasPublicKey <==> old(hasPublicKey) || (valid && msg.learnsKey))
              && (valid && !msg.handlerFails && asked ==> |inflight| == |old(inflight)| - 1)
    {
      hide ViewOf, PreambleValid;
      var valid := IsPreambleValid(msg.preamble, hashes);
      if !valid {
        return false;
      }
      var index := FindWaiting(msg.preamble.seqno);
      var updateStats := hasPublicKey || index < |inflight|;
      hasPublicKey := hasPublicKey || msg.learnsKey;
      if msg.handlerFails {
        return false;
      }
      if updateStats {
        UpdateView(msg.preamble, hashes);
      }
      if index < |inflight| {
        inflight := Without(inflight, index);
        return true;
      }
      return msg.consumed || !msg.dataHandlerFails;
    }

    /** The scan of `is_solicited` and `fulfill_request`. */
    method FindWaiting(expected: u32) returns (i: nat)
      ensures i == FirstWaiting(inflight, expected)
    {
      i := 0;
      while i < |inflight| && inflight[i].expectedSeq != expected
        invariant i <= |inflight| && forall j :: 0 <= j < i ==> inflight[j].expectedSeq != expected
      {
        i := i + 1;
      }
    }

    /** The chain view part of `chat`; an invalid preamble or a failing handler ends the loop. */
    method Chat(inbox: seq<Inbound>, hashes: map<u64, Bytes32>) returns (ok: bool)
      requires Valid()
      modifies this
      ensures Valid() && accepted == old(accepted) + Counted(inbox, OurRules(hashes), old(Here()))
      ensures ok <==> AllWell(inbox, OurRules(hashes), old(Here()))
      ensures Here() == LeftAfter(inbox, OurRules(hashes), old(Here()))
    {
      hide ViewOf, PreambleValid, Valid, Counted, AllWell, LeftAfter, Counts, GoesOn, After;
      ghost var rules, side := OurRules(hashes), Here();
      ok := true;
      assert inbox[0..] == inbox;
      for n := 0 to |inbox|
        invariant Valid() && ok
        invariant old(accepted) + Counted(inbox, rules, side) == accepted + Counted(inbox[n..], rules, Here())
        invariant AllWell(inbox, rules, side) <==> AllWell(inbox[n..], rules, Here())
        invariant LeftAfter(inbox, rules, side) == LeftAfter(inbox[n..], rules, Here())
      {
        ChatStep(accepted, inbox, n, rules, Here());
        ok := HandleMessage(inbox[n], hashes);
        if !ok {
          return;
        }
      }
      NoMessages(rules, Here());
      assert inbox[|inbox|..] == [] && accepted + [] == accepted;
    }

    /** Over any run there is no view, or its heights are the confirmations apart. */
    lemma HeightsApart()
      requires Valid()
      ensures view == NoView() || view.tipHeight == view.stableHeight + stableConfirmations
    {
      var i := ViewIsFirstHighest(accepted, stableConfirmations);
    }

    method UpdateView(p: Preamble, ghost hashes: map<u64, Bytes32>)
      requires Valid() && PreambleValid(p, OurRules(hashes))
      modifies this`view, this`accepted
      ensures Valid() && accepted == old(accepted) + [p]
    {
      if p.burnBlockHeight > view.tipHeight {
        view := view.(tipHeight := p.burnBlockHeight, tipHash := p.burnBlockHash);
      }
      if p.burnStableBlockHeight > view.stableHeight {
        view := view.(stableHeight := p.burnStableBlockHeight, stableHash := p.burnStableBlockHash);
      }
      accepted := accepted + [p];
      assert accepted[..|accepted| - 1] == old(accepted);
    }
  }
}
